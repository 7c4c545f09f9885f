/** Montgomery reduction, BIG_monty, in its three loop forms. */
module BigMonty {
  import opened Arith
  import opened Words
  import opened Limbs
  import opened Columns
  import opened BigMul
  import opened BigRows
  import opened BigNorm

  // ---------------------------------------------------------------- what a reduction is

  /** x is (d + q*md) / RN for a quotient q below RN. */
  ghost predicate IsReduction(x: int, d: int, md: int, RN: int) {
    exists q: int :: 0 <= q < RN && x * RN == d + q * md
  }

  /** MC is the Montgomery constant of a modulus with lowest digit m0. */
  ghost predicate IsConstant(MC: int, m0: int, R: int)
    requires R > 0
  {
    Cong(MC * m0, -1, R)
  }

  /** A reduction is congruent to d/RN and, for d below md*RN, lies below 2*md. */
  lemma ReductionBounds(x: int, d: int, md: int, RN: int)
    requires RN > 0 && md > 0 && 0 <= d < md * RN && IsReduction(x, d, md, RN)
    ensures Cong(x * RN, d, md)
    ensures 0 <= x < 2 * md
  {
    var q :| 0 <= q < RN && x * RN == d + q * md;
    CongIntro(x * RN, d, q, md);
    MulStrict(q, RN, md);
    MulMono(0, q, md);
    MulAssoc(2, md, RN);
    if x >= 2 * md {
      MulMono(2 * md, x, RN);
    }
    if x < 0 {
      MulMono(x, -1, RN);
    }
  }

  /** A modulus with a Montgomery constant is invertible modulo every power of the radix. */
  lemma {:induction false} CancelModulus(w: int, MC: int, md: int, n: nat, R: int)
    requires R >= 2 && IsConstant(MC, md, R)
    requires Pow(R, n) > 0 && Cong(w * md, 0, Pow(R, n))
    ensures Cong(w, 0, Pow(R, n))
    decreases n
  {
    if n == 0 {
      CongIntro(w, 0, w, 1);
    } else {
      PowPositive(R, n - 1);
      var p := Pow(R, n - 1);
      CongWeaken(w * md, 0, R, p);
      CongScale(w * md, 0, MC, R);
      CongScale(MC * md, -1, w, R);
      assert (w * md) * MC == w * (MC * md) by { MulAssoc(w, md, MC); assert md * MC == MC * md; }
      CongSym(w * (MC * md), w * -1, R);
      CongTrans(w * -1, w * (MC * md), 0, R);
      CongScale(w * -1, 0, -1, R);
      var k := CongElim(w, 0, R);
      assert w * md == (k * md) * R by { MulAssoc(k, R, md); MulAssoc(k, md, R); assert R * md == md * R; }
      CongScaleModulus(k * md, 0, p, R);
      assert p * R == Pow(R, n);
      CancelModulus(k, MC, md, n - 1, R);
      CongScaleModulus(k, 0, p, R);
    }
  }

  /** So the reduction is unique: all variants of BIG_monty return the same value. */
  lemma ReductionUnique(x: int, y: int, d: int, MC: int, md: int, n: nat, R: int)
    requires R >= 2 && IsConstant(MC, md, R)
    requires Pow(R, n) > 0 && IsReduction(x, d, md, Pow(R, n)) && IsReduction(y, d, md, Pow(R, n))
    ensures x == y
  {
    var RN := Pow(R, n);
    var q :| 0 <= q < RN && x * RN == d + q * md;
    var r :| 0 <= r < RN && y * RN == d + r * md;
    MulDist(x, y, RN);
    MulDist(q, r, md);
    CongIntro((q - r) * md, 0, x - y, RN);
    CancelModulus(q - r, MC, md, n, R);
    CongUnique(q, r, RN);
    if x < y {
      MulStrict(x, y, RN);
    } else if y < x {
      MulStrict(y, x, RN);
    }
  }

  /** Adding the quotient digit times the modulus clears the lowest digit of t. */
  lemma ClearDigit(t: int, MC: int, m0: int, R: int)
    requires R >= 1 && IsConstant(MC, m0, R)
    ensures (t + ((t * MC) % R) * m0) % R == 0
  {
    var x := (t * MC) % R;
    CongOfMod(t * MC, R);
    CongScale(x, t * MC, m0, R);
    CongScale(MC * m0, -1, t, R);
    assert (t * MC) * m0 == t * (MC * m0) by { MulAssoc(t, MC, m0); }
    CongTrans(x * m0, t * (MC * m0), t * -1, R);
    CongRefl(t, R);
    CongAdd(t, t, x * m0, t * -1, R);
  }

  // ---------------------------------------------------------------- the columns of d + v*md

  function MontyColumns(d: seq<int>, v: seq<int>, md: seq<int>): (cols: seq<int>)
    ensures |cols| == |d|
  {
    seq(|d|, k requires 0 <= k < |d| => d[k] + Column(v, md, k))
  }

  /** The lowest i columns reduce to zero digits. */
  ghost predicate Cancelled(cols: seq<int>, i: nat, R: int)
    requires i <= |cols| && R >= 1
  {
    forall k :: 0 <= k < i ==> Reduced(cols, i, R)[k] == 0
  }

  lemma {:induction false} ConvFrame(v: seq<int>, w: seq<int>, b: seq<int>, lo: int, hi: int, k: int)
    requires 0 <= lo && |v| == |w|
    requires forall j :: lo <= j < hi && j < |v| ==> v[j] == w[j]
    ensures Conv(v, b, lo, hi, k) == Conv(w, b, lo, hi, k)
    decreases hi - lo
  {
    if lo < hi {
      ConvFrame(v, w, b, lo, hi - 1, k);
    }
  }

  /** Columns below i depend on the rows below i of v only. */
  lemma ReducedFrame(d: seq<int>, v: seq<int>, w: seq<int>, md: seq<int>, i: nat, R: int)
    requires R >= 1 && |v| == |w| && i < |v| && i < |d|
    requires forall j :: 0 <= j < i ==> v[j] == w[j]
    ensures Reduced(MontyColumns(d, v, md), i, R) == Reduced(MontyColumns(d, w, md), i, R)
    ensures Carry(MontyColumns(d, v, md), i, R) == Carry(MontyColumns(d, w, md), i, R)
  {
    forall k | 0 <= k < i
      ensures MontyColumns(d, v, md)[k] == MontyColumns(d, w, md)[k]
    {
      ColumnFrame(v, w, md, i, k);
    }
    CarryFrame(MontyColumns(d, v, md), MontyColumns(d, w, md), i, R);
  }

  lemma ColumnFrame(v: seq<int>, w: seq<int>, md: seq<int>, i: nat, k: nat)
    requires |v| == |w| && k < i < |v|
    requires forall j :: 0 <= j < i ==> v[j] == w[j]
    ensures Column(v, md, k) == Column(w, md, k)
  {
    ConvJoin(v, md, 0, i, |v|, k);
    ConvJoin(w, md, 0, i, |v|, k);
    ConvFrame(v, w, md, 0, i, k);
    ConvZero(v, md, i, |v|, k);
    ConvZero(w, md, i, |v|, k);
  }

  /** One quotient digit: column i then cancels exactly. */
  lemma QuotientStep(d: seq<int>, v: seq<int>, md: seq<int>, i: nat, t: int, x: int, MC: int, R: int)
    requires R >= 1 && |v| == |md| && i < |v| && |d| == 2 * |v| && IsConstant(MC, md[0], R)
    requires t == Carry(MontyColumns(d, v, md), i, R) + d[i] + Conv(v, md, 0, i, i)
    requires x == (t * MC) % R
    requires Cancelled(MontyColumns(d, v, md), i, R)
    ensures var w := v[i := x];
            && Cancelled(MontyColumns(d, w, md), i + 1, R)
            && (t + x * md[0]) / R == Carry(MontyColumns(d, w, md), i + 1, R)
  {
    var w := v[i := x];
    var cols := MontyColumns(d, w, md);
    ReducedFrame(d, v, w, md, i, R);
    ConvFrame(v, w, md, 0, i, i);
    ColumnTrim(w, md, 0, i + 1, i);
    assert Term(w, md, i, i) == x * md[0];
    ClearDigit(t, MC, md[0], R);
    ReducedStep(cols, i, t + x * md[0], R);
  }

  /** Once the low half has cancelled, the high half is the reduction. */
  lemma HighHalf(d: seq<int>, v: seq<int>, md: seq<int>, a: seq<int>, n: nat, R: int)
    requires R >= 2 && |v| == |md| == |a| == n > 0 && |d| == 2 * n
    requires Normal(d, R) && Normal(v, R) && Normal(md, R)
    requires 2 * Value(md, R) <= Pow(R, n) && Value(d, R) < Value(md, R) * Pow(R, n)
    requires Cancelled(MontyColumns(d, v, md), n, R)
    requires Reduced(MontyColumns(d, v, md), 2 * n, R)[n..] == a
    ensures Normal(a, R) && IsReduction(Value(a, R), Value(d, R), Value(md, R), Pow(R, n))
    ensures Carry(MontyColumns(d, v, md), 2 * n, R) == 0
  {
    HighSum(MontyColumns(d, v, md), a, n, R);
    MontyValue(d, v, md, n, R);
    NormalBounds(d, R);
    NormalBounds(v, R);
    NormalBounds(md, R);
    NormalBounds(a, R);
    PowPositive(R, n);
    hide *;
    NoTopCarry(Value(d, R), Value(v, R), Value(md, R), Carry(MontyColumns(d, v, md), 2 * n, R), Value(a, R), Pow(R, n));
    Reduces(Value(a, R), Value(d, R), Value(v, R), Value(md, R), Pow(R, n));
  }

  lemma Reduces(x: int, d: int, q: int, md: int, RN: int)
    requires 0 <= q < RN && x * RN == d + q * md
    ensures IsReduction(x, d, md, RN)
  {
  }

  /** The upper half of the carried columns, and what is carried out of it. */
  lemma HighSum(cols: seq<int>, a: seq<int>, n: nat, R: int)
    requires R >= 1 && n > 0 && |cols| == 2 * n && Cancelled(cols, n, R) && Reduced(cols, 2 * n, R)[n..] == a
    ensures Normal(a, R) && |a| == n
    ensures Value(a, R) * Pow(R, n) + Carry(cols, 2 * n, R) * (Pow(R, n) * Pow(R, n)) == Value(cols, R)
  {
    var z := Reduced(cols, 2 * n, R);
    CarryValue(cols, 2 * n, R);
    LowDigitsZero(cols, n, 2 * n, R);
    PowAdd(R, n, n);
    assert |z| == 2 * n && z[n..] == a && Normal(a, R);
    ValZero(z, n, R);
    ValSplit(z, n, 2 * n, R);
    assert Value(a, R) == Val(a, n, R) && Value(cols, R) == Val(cols, 2 * n, R);
    hide *;
    SumUp(Val(z, n, R), Val(a, n, R), Pow(R, n), Carry(cols, 2 * n, R), Pow(R, 2 * n), Val(z, 2 * n, R),
        Val(cols, 2 * n, R));
  }

  lemma SumUp(low: int, high: int, p: int, c: int, q: int, z: int, cols: int)
    requires low == 0 && q == p * p && z == low + p * high && z + c * q == cols
    ensures high * p + c * (p * p) == cols
  {
  }

  /** The quotient and the remainder bound the sum, which therefore has no digit above the upper half. */
  lemma NoTopCarry(D: int, q: int, m: int, c: int, a: int, RN: int)
    requires RN > 0 && 0 <= D < m * RN && 0 <= q < RN && 2 * m <= RN && 0 <= a < RN
    requires a * RN + c * (RN * RN) == D + q * m
    ensures c == 0 && a * RN == D + q * m
  {
    PositiveFactor(D, m, RN);
    MulStrict(q, RN, m);
    MulMono(0, q, m);
    MulMono(2 * m, RN, RN);
    MulAssoc(2, m, RN);
    MulMono(0, a, RN);
    MulMono(a + 1, RN, RN);
    MulDist(a, 1, RN);
    MulStrict(0, RN, RN);
    if c >= 1 {
      MulMono(1, c, RN * RN);
    } else if c <= -1 {
      MulMono(c, -1, RN * RN);
    }
  }

  lemma MontyValue(d: seq<int>, v: seq<int>, md: seq<int>, n: nat, R: int)
    requires R >= 1 && |v| == |md| == n > 0 && |d| == 2 * n
    ensures Value(MontyColumns(d, v, md), R) == Value(d, R) + Value(v, R) * Value(md, R)
  {
    var prod := ColumnSums(v, md) + [0];
    ValFrame(prod, ColumnSums(v, md), 2 * n - 1, R);
    ColumnsValue(v, md, R);
    ConvZero(v, md, 0, n, 2 * n - 1);
    ValAdd(MontyColumns(d, v, md), d, prod, 2 * n, R);
  }

  lemma {:induction false} LowDigitsZero(cols: seq<int>, n: nat, k: nat, R: int)
    requires n <= k <= |cols| && R >= 1 && Cancelled(cols, n, R)
    ensures forall j :: 0 <= j < n ==> Reduced(cols, k, R)[j] == 0
    decreases k
  {
    if k > n {
      LowDigitsZero(cols, n, k - 1, R);
    }
  }

  /** All variants of BIG_monty return the same limbs. */
  lemma VariantsAgree(a: seq<int>, b: seq<int>, d: int, MC: int, md: int, n: nat, R: int)
    requires R >= 2 && |a| == |b| == n > 0 && Normal(a, R) && Normal(b, R) && IsConstant(MC, md, R)
    requires IsReduction(Value(a, R), d, md, Pow(R, n)) && IsReduction(Value(b, R), d, md, Pow(R, n))
    ensures a == b
  {
    PowPositive(R, n);
    ReductionUnique(Value(a, R), Value(b, R), d, MC, md, n, R);
    LowNormalUnique(a, b, R);
  }

  lemma {:induction false} MontyCarryNonNegative(d: seq<int>, v: seq<int>, md: seq<int>, k: nat, R: int)
    requires R >= 1 && k <= |d| && Normal(d, R) && Normal(v, R) && Normal(md, R)
    ensures Carry(MontyColumns(d, v, md), k, R) >= 0
    decreases k
  {
    if k > 0 {
      MontyCarryNonNegative(d, v, md, k - 1, R);
      ConvBounds(v, md, 0, |v|, k - 1, R);
      DivMonotone(0, Carry(MontyColumns(d, v, md), k - 1, R) + MontyColumns(d, v, md)[k - 1], R);
    }
  }

  // ---------------------------------------------------------------- ranges

  lemma NextCarry(c: int, col: int, x: int, R: int)
    requires R >= 1 && 0 <= c <= x && 0 <= col <= (R - 1) + x * (R - 1)
    ensures 0 <= (c + col) / R <= x
  {
    MulDist(R, 1, x);
    MulDist(x, 1, R);
    DivBounds(c + col, R, 0, x + 1);
  }

  /** Carries of the reduction stay at most nlen * (R-1). */
  lemma {:induction false} MontyCarry(cfg: Config, d: seq<int>, v: seq<int>, md: seq<int>, k: nat)
    requires cfg.Valid() && |v| == |md| == cfg.nlen && |d| == 2 * cfg.nlen && k <= |d|
    requires Normal(d, cfg.Radix()) && Normal(v, cfg.Radix()) && Normal(md, cfg.Radix())
    ensures 0 <= Carry(MontyColumns(d, v, md), k, cfg.Radix()) <= cfg.nlen * (cfg.Radix() - 1)
    decreases k
  {
    var R, cols := cfg.Radix(), MontyColumns(d, v, md);
    var x := cfg.nlen * (R - 1);
    MulMono(0, R - 1, cfg.nlen);
    if k > 0 {
      MontyCarry(cfg, d, v, md, k - 1);
      ConvBounds(v, md, 0, |v|, k - 1, R);
      MulAssoc(cfg.nlen, R - 1, R - 1);
      NextCarry(Carry(cols, k - 1, R), cols[k - 1], x, R);
    }
  }

  /** A carry and a digit of d leave room for a whole column of products. */
  lemma MontyFits(cfg: Config, d: seq<int>, v: seq<int>, md: seq<int>, k: nat, n: nat)
    requires cfg.Valid() && Roomy(cfg) && |v| == |md| == cfg.nlen && |d| == 2 * cfg.nlen && k < |d| && n <= cfg.nlen
    requires Normal(d, cfg.Radix()) && Normal(v, cfg.Radix()) && Normal(md, cfg.Radix())
    ensures var t := Carry(MontyColumns(d, v, md), k, cfg.Radix()) + d[k];
            0 <= t <= (cfg.nlen + 1) * (cfg.Radix() - 1) && t < cfg.DHalf() - Room(cfg, n)
  {
    MontyCarry(cfg, d, v, md, k);
    MulDist(cfg.nlen, 1, cfg.Radix() - 1);
    CarryFits(cfg, Carry(MontyColumns(d, v, md), k, cfg.Radix()) + d[k], n);
  }

  ghost predicate MontyInputs(cfg: Config, a: array<int>, md: array<int>, MC: int, d: array<int>)
    reads a, md, d
  {
    && cfg.Valid() && a.Length == md.Length == cfg.nlen && d.Length == 2 * cfg.nlen
    && a != md && a != d && md != d
    && Normal(md[..], cfg.Radix()) && Normal(d[..], cfg.Radix())
    && -cfg.Half() <= MC < cfg.Half() && IsConstant(MC, md[0], cfg.Radix())
    && 2 * Value(md[..], cfg.Radix()) <= Pow(cfg.Radix(), cfg.nlen)
    && Value(d[..], cfg.Radix()) < Value(md[..], cfg.Radix()) * Pow(cfg.Radix(), cfg.nlen)
  }

  /** ((chunk)t * MC) & BMASK */
  method QuotientDigit(cfg: Config, t: int, MC: int) returns (x: int)
    requires cfg.Valid()
    ensures x == (t * MC) % cfg.Radix() && 0 <= x < cfg.Radix()
  {
    var R := cfg.Radix();
    x := cfg.Word(cfg.Word(t) * MC) % R;
    cfg.WordMask(cfg.Word(t) * MC);
    cfg.WordMask(t);
    CongScale(cfg.Word(t), t, MC, R);
    CongMod(cfg.Word(t) * MC, t * MC, R);
  }

  /** The state after i quotient digits: t carries what the cancelled columns leave, plus d[i]. */
  ghost predicate QuotientState(cfg: Config, v: seq<int>, md: seq<int>, d: seq<int>, i: nat, t: int)
    requires cfg.Valid()
  {
    && |v| == |md| == cfg.nlen && |d| == 2 * cfg.nlen && i < |d|
    && Normal(v, cfg.Radix())
    && Cancelled(MontyColumns(d, v, md), i, cfg.Radix())
    && t == Carry(MontyColumns(d, v, md), i, cfg.Radix()) + d[i]
  }

  /** v[i] = ((chunk)t*MC)&BMASK; t += (dchunk)v[i]*md[0]; t = (t >> BASEBITS) + d[i+1] */
  method NextQuotient(cfg: Config, v: array<int>, md: array<int>, MC: int, d: array<int>, i: nat, t0: int,
      ghost before: int)
    returns (t: int)
    requires cfg.Valid() && Roomy(cfg) && v != md && v != d && v.Length == md.Length && i < v.Length
    requires Normal(md[..], cfg.Radix()) && Normal(d[..], cfg.Radix()) && IsConstant(MC, md[0], cfg.Radix())
    requires QuotientState(cfg, v[..], md[..], d[..], i, before)
    requires t0 == before + Conv(v[..], md[..], 0, i, i)
    modifies v
    ensures QuotientState(cfg, v[..], md[..], d[..], i + 1, t)
    ensures v[..] == old(v[..])[i := v[i]]
  {
    ghost var V, M, D, R := v[..], md[..], d[..], cfg.Radix();
    v[i] := QuotientDigit(cfg, t0, MC);
    assert v[..] == V[i := v[i]];
    QuotientFits(cfg, V, M, D, i, v[i]);
    QuotientStep(D, V, M, i, t0, v[i], MC, R);
    t := cfg.Dword(t0 + v[i] * md[0]);
    MontyFits(cfg, D, v[..], M, i + 1, 0);
    t := cfg.Dword(t / cfg.Radix() + d[i + 1]);
  }

  lemma QuotientFits(cfg: Config, v: seq<int>, md: seq<int>, d: seq<int>, i: nat, x: int)
    requires cfg.Valid() && Roomy(cfg) && |v| == |md| == cfg.nlen && |d| == 2 * cfg.nlen && i < cfg.nlen
    requires Normal(v, cfg.Radix()) && Normal(md, cfg.Radix()) && Normal(d, cfg.Radix()) && 0 <= x < cfg.Radix()
    ensures var t := Carry(MontyColumns(d, v, md), i, cfg.Radix()) + d[i] + Conv(v, md, 0, i, i);
            0 <= t && 0 <= x * md[0] && t + x * md[0] < cfg.DHalf()
  {
    var R := cfg.Radix();
    hide Carry, Conv, Roomy, MontyColumns, Config.Radix, Config.DHalf;
    MontyFits(cfg, d, v, md, i, i + 1);
    ConvBounds(v, md, 0, i, i, R);
    MulBound(x, md[0], R - 1);
    MulDist(i, 1, (R - 1) * (R - 1));
  }

  /** a[i-NLEN] = (chunk)t & BMASK */
  method StoreHigh(cfg: Config, a: array<int>, i: nat, t: int, ghost cols: seq<int>)
    requires cfg.Valid() && a.Length == cfg.nlen && cfg.nlen <= i < 2 * cfg.nlen == |cols|
    requires t == Carry(cols, i, cfg.Radix()) + cols[i]
    requires a[..i - cfg.nlen] == Reduced(cols, i, cfg.Radix())[cfg.nlen..]
    modifies a
    ensures a[..i + 1 - cfg.nlen] == Reduced(cols, i + 1, cfg.Radix())[cfg.nlen..]
    ensures t / cfg.Radix() == Carry(cols, i + 1, cfg.Radix())
  {
    var j := i - cfg.nlen;
    ReducedStep(cols, i, t, cfg.Radix());
    cfg.WordMask(t);
    a[j] := cfg.Word(t) % cfg.Radix();
    assert a[..j + 1] == a[..j] + [a[j]];
  }

  ghost predicate QuotientInputs(cfg: Config, v: array<int>, md: array<int>, MC: int, d: array<int>)
    reads v, md, d
  {
    && cfg.Valid() && Roomy(cfg) && v.Length == md.Length == cfg.nlen && d.Length == 2 * cfg.nlen
    && v != md && v != d && Normal(v[..], cfg.Radix()) && Normal(md[..], cfg.Radix()) && Normal(d[..], cfg.Radix())
    && IsConstant(MC, md[0], cfg.Radix())
  }

  /** The first loop, product-scanning form: NLEN quotient digits. */
  method QuotientsComba(cfg: Config, v: array<int>, md: array<int>, MC: int, d: array<int>) returns (t: int)
    requires QuotientInputs(cfg, v, md, MC, d)
    modifies v
    ensures QuotientState(cfg, v[..], md[..], d[..], cfg.nlen, t)
  {
    ghost var M, D := md[..], d[..];
    t := d[0];
    t := NextQuotient(cfg, v, md, MC, d, 0, t, t);
    var i := 1;
    while i < cfg.nlen
      invariant 1 <= i <= cfg.nlen
      invariant QuotientState(cfg, v[..], M, D, i, t)
    {
      ghost var before := t;
      FirstProduct(cfg, v[..], M, D, i);
      t := cfg.Dword(t + v[0] * md[i]);
      t := AddProducts(cfg, t, v, md, i, 1, i - 1);
      t := NextQuotient(cfg, v, md, MC, d, i, t, before);
      i := i + 1;
    }
  }

  /** The second loop, product-scanning form, and the last line. */
  method HighComba(cfg: Config, a: array<int>, v: array<int>, md: array<int>, d: array<int>, t0: int)
    requires cfg.Valid() && Roomy(cfg) && a.Length == cfg.nlen && a != v && a != md && a != d
    requires v.Length == md.Length == cfg.nlen && d.Length == 2 * cfg.nlen
    requires Normal(md[..], cfg.Radix()) && Normal(d[..], cfg.Radix())
    requires QuotientState(cfg, v[..], md[..], d[..], cfg.nlen, t0)
    modifies a
    ensures a[..] == Reduced(MontyColumns(d[..], v[..], md[..]), 2 * cfg.nlen, cfg.Radix())[cfg.nlen..]
  {
    hide Carry, Reduced, Conv, Cross, Room;
    var n := cfg.nlen;
    ghost var V, M, D := v[..], md[..], d[..];
    ghost var cols := MontyColumns(D, V, M);
    var t := t0;
    var i := n;
    while i < 2 * n - 1
      invariant n <= i <= 2 * n - 1
      invariant t == Carry(cols, i, cfg.Radix()) + D[i]
      invariant a[..i - n] == Reduced(cols, i, cfg.Radix())[n..]
    {
      MontyFits(cfg, D, V, M, i, 2 * n - 1 - i);
      t := AddProducts(cfg, t, v, md, i, i - (n - 1), n - 1);
      ColumnTrim(V, M, i - (n - 1), n, i);
      t := NextHigh(cfg, a, i, t, d, V, M);
      i := i + 1;
    }
    ConvZero(V, M, 0, n, i);
    StoreHigh(cfg, a, i, t, cols);
  }

  /** The product-scanning reduction.  (The C array v starts out undefined; no entry is read before
      it is written.) */
  method MontyComba(cfg: Config, a: array<int>, md: array<int>, MC: int, d: array<int>)
    requires MontyInputs(cfg, a, md, MC, d) && Roomy(cfg)
    modifies a
    ensures Normal(a[..], cfg.Radix())
    ensures IsReduction(Value(a[..], cfg.Radix()), Value(d[..], cfg.Radix()), Value(md[..], cfg.Radix()),
      Pow(cfg.Radix(), cfg.nlen))
  {
    var v := new int[cfg.nlen](_ => 0);
    var t := QuotientsComba(cfg, v, md, MC, d);
    HighComba(cfg, a, v, md, d, t);
    HighHalf(d[..], v[..], md[..], a[..], cfg.nlen, cfg.Radix());
  }

  lemma RoomStep(cfg: Config, i: int)
    requires cfg.Valid() && i >= 1
    ensures 0 <= Room(cfg, i - 1) && Room(cfg, i) == Room(cfg, i - 1) + (cfg.Radix() - 1) * (cfg.Radix() - 1)
  {
    var M := (cfg.Radix() - 1) * (cfg.Radix() - 1);
    MulBound(cfg.Radix() - 1, cfg.Radix() - 1, cfg.Radix() - 1);
    MulMono(0, i - 1, M);
    MulDist(i, 1, M);
  }

  /** The first product v[0]*md[i] and the room for the rest of column i. */
  lemma FirstProduct(cfg: Config, v: seq<int>, md: seq<int>, d: seq<int>, i: nat)
    requires cfg.Valid() && Roomy(cfg) && |v| == |md| == cfg.nlen && |d| == 2 * cfg.nlen && 1 <= i < cfg.nlen
    requires Normal(v, cfg.Radix()) && Normal(md, cfg.Radix()) && Normal(d, cfg.Radix())
    ensures var t := Carry(MontyColumns(d, v, md), i, cfg.Radix()) + d[i] + v[0] * md[i];
            0 <= t < cfg.DHalf() - Room(cfg, i - 1) && Room(cfg, i - 1) >= 0
    ensures Conv(v, md, 0, i, i) == v[0] * md[i] + Conv(v, md, 1, i, i)
  {
    var R := cfg.Radix();
    RoomStep(cfg, i);
    hide Carry, Room;
    MontyFits(cfg, d, v, md, i, i);
    MulBound(v[0], md[i], R - 1);
    ConvFirst(v, md, 0, i, i);
  }

  // ---------------------------------------------------------------- the Karatsuba-style form

  lemma {:induction false} DiagFrame(v: seq<int>, w: seq<int>, b: seq<int>, lo: int, hi: int)
    requires 0 <= lo && hi <= |v| && |v| == |w| && hi <= |b|
    requires forall j :: lo <= j < hi ==> v[j] == w[j]
    ensures Diag(v, b, lo, hi) == Diag(w, b, lo, hi)
    decreases hi - lo
  {
    if lo < hi {
      DiagFrame(v, w, b, lo, hi - 1);
    }
  }

  /** for (i = lo; i <= hi; i++) t += (v[k-i]-v[i])*(md[i]-md[k-i]) */
  method AddReversedDifferences(cfg: Config, t0: int, v: array<int>, md: array<int>, k: nat, lo: nat, hi: nat)
      returns (t: int)
    requires cfg.Valid() && Normal(v[..], cfg.Radix()) && Normal(md[..], cfg.Radix())
    requires v.Length == md.Length && lo <= hi + 1 && hi < v.Length && hi <= k && k - lo < v.Length
    requires Room(cfg, hi + 1 - lo) - cfg.DHalf() <= t0 < cfg.DHalf() - Room(cfg, hi + 1 - lo)
    ensures t == t0 + Cross(v[..], md[..], lo, hi + 1, k)
  {
    t := t0;
    RadixIsChunk(cfg);
    var i := lo;
    while i <= hi
      invariant lo <= i <= hi + 1
      invariant t == t0 + Cross(v[..], md[..], lo, i, k)
    {
      CrossBounds(v[..], md[..], lo, i + 1, k, cfg.Radix());
      MulBound(cfg.Radix() - 1, cfg.Radix() - 1, cfg.Radix() - 1);
      MulMono(i + 1 - lo, hi + 1 - lo, (cfg.Radix() - 1) * (cfg.Radix() - 1));
      Negate(v[i] - v[k - i], md[k - i] - md[i]);
      t := cfg.Dword(t + cfg.Word(v[k - i] - v[i]) * cfg.Word(md[i] - md[k - i]));
      i := i + 1;
    }
  }

  lemma Negate(x: int, y: int)
    ensures (-x) * (-y) == x * y
  {
    MulDist(0, x, -y);
    MulDist(0, y, x);
  }

  /** Ranges and total of one lower column in the Karatsuba-style form. */
  lemma LowerColumn(cfg: Config, v: seq<int>, md: seq<int>, d: seq<int>, i: nat)
    requires cfg.Valid() && Roomy(cfg) && |v| == |md| == cfg.nlen && |d| == 2 * cfg.nlen && 1 <= i < cfg.nlen
    requires Normal(v, cfg.Radix()) && Normal(md, cfg.Radix()) && Normal(d, cfg.Radix())
    ensures var t := Carry(MontyColumns(d, v, md), i, cfg.Radix()) + d[i];
            var s := Diag(v, md, 1, i);
            && Room(cfg, i - 1 - i / 2) >= 0 && 0 <= t + s < cfg.DHalf()
            && Room(cfg, i - 1 - i / 2) - cfg.DHalf() <= t + s + v[0] * md[i] < cfg.DHalf() - Room(cfg, i - 1 - i / 2)
            && Conv(v, md, 0, i, i) == v[0] * md[i] + s + Cross(v, md, 1 + i / 2, i, i)
  {
    hide Carry, Conv, Cross, Diag, Room;
    var R := cfg.Radix();
    MontyFits(cfg, d, v, md, i, 0);
    DiagBounds(v, md, 1, i, R);
    MulBound(v[0], md[i], R - 1);
    OneMore(i - 1, cfg.nlen, (R - 1) * (R - 1));
    DifferencesFit(cfg, Carry(MontyColumns(d, v, md), i, R) + d[i], Diag(v, md, 1, i) + v[0] * md[i], i - 1 - i / 2);
    Karatsuba(v, md, 1, i - 1, i);
    ConvFirst(v, md, 0, i, i);
  }

  lemma OneMore(k: int, n: int, M: int)
    requires 0 <= k < n && M >= 0
    ensures k * M + M <= n * M
  {
    MulMono(k + 1, n, M);
    MulDist(k, 1, M);
  }

  lemma UpperColumn(cfg: Config, v: seq<int>, md: seq<int>, d: seq<int>, i: nat)
    requires cfg.Valid() && Roomy(cfg) && |v| == |md| == cfg.nlen && |d| == 2 * cfg.nlen
      && cfg.nlen <= i < 2 * cfg.nlen - 1
    requires Normal(v, cfg.Radix()) && Normal(md, cfg.Radix()) && Normal(d, cfg.Radix())
    ensures var n := cfg.nlen;
            var t := Carry(MontyColumns(d, v, md), i, cfg.Radix()) + d[i];
            var s := Diag(v, md, i - n + 1, n);
            && Room(cfg, n - 1 - i / 2) >= 0
            && Room(cfg, n - 1 - i / 2) - cfg.DHalf() <= t + s < cfg.DHalf() - Room(cfg, n - 1 - i / 2)
            && Column(v, md, i) == s + Cross(v, md, 1 + i / 2, n, i)
  {
    hide Carry, Conv, Cross, Diag, Room;
    var R, n := cfg.Radix(), cfg.nlen;
    MontyFits(cfg, d, v, md, i, 0);
    DiagFits(cfg, v, md, i - n + 1, n);
    DifferencesFit(cfg, Carry(MontyColumns(d, v, md), i, R) + d[i], Diag(v, md, i - n + 1, n), n - 1 - i / 2);
    KaratsubaColumn(v, md, i - n + 1, n - 1, i);
  }

  /** dd[k] = v[k]*md[k]; s += dd[k] */
  method NextDiagonal(cfg: Config, dd: array<int>, v: array<int>, md: array<int>, k: nat, s0: int,
      ghost old_v: seq<int>) returns (s: int)
    requires cfg.Valid() && Roomy(cfg) && dd != v && dd != md
      && dd.Length == v.Length == md.Length == cfg.nlen == |old_v|
    requires 1 <= k < cfg.nlen && v[..] == old_v[k := v[k]] && Normal(v[..], cfg.Radix()) && Normal(md[..], cfg.Radix())
    requires s0 == Diag(old_v, md[..], 1, k)
    requires forall j {:trigger dd[j]} :: 1 <= j < k ==> dd[j] == old_v[j] * md[j]
    modifies dd
    ensures s == Diag(v[..], md[..], 1, k + 1)
    ensures forall j {:trigger dd[j]} :: 1 <= j < k + 1 ==> dd[j] == v[j] * md[j]
  {
    DiagFrame(old_v, v[..], md[..], 1, k);
    DiagFits(cfg, v[..], md[..], 1, k + 1);
    DiagFits(cfg, v[..], md[..], k, k + 1);
    assert Diag(v[..], md[..], k, k) == 0;
    dd[k] := cfg.Dword(v[k] * md[k]);
    s := cfg.Dword(s0 + dd[k]);
  }

  /** The first loop, Karatsuba-style form. */
  method QuotientsKaratsuba(cfg: Config, v: array<int>, dd: array<int>, md: array<int>, MC: int, d: array<int>)
      returns (t: int, s: int)
    requires QuotientInputs(cfg, v, md, MC, d)
    requires dd.Length == cfg.nlen && dd != v && dd != md && dd != d
    modifies v, dd
    ensures QuotientState(cfg, v[..], md[..], d[..], cfg.nlen, t)
    ensures s == Diag(v[..], md[..], 1, cfg.nlen)
    ensures forall j {:trigger dd[j]} :: 1 <= j < cfg.nlen ==> dd[j] == v[j] * md[j]
  {
    ghost var M, D := md[..], d[..];
    t := d[0];
    t := NextQuotient(cfg, v, md, MC, d, 0, t, t);
    hide Pow, Carry, Reduced, Conv, Cross, Roomy, Cancelled, MontyColumns, Config.Radix, IsConstant;
    s := 0;
    var k := 1;
    while k < cfg.nlen
      invariant 1 <= k <= cfg.nlen
      invariant QuotientState(cfg, v[..], M, D, k, t)
      invariant s == Diag(v[..], M, 1, k)
      invariant forall j {:trigger dd[j]} :: 1 <= j < k ==> dd[j] == v[j] * M[j]
    {
      ghost var before, V := t, v[..];
      LowerColumn(cfg, V, M, D, k);
      t := cfg.Dword(cfg.Dword(t + s) + v[0] * md[k]);
      t := AddReversedDifferences(cfg, t, v, md, k, 1 + k / 2, k - 1);
      t := NextQuotient(cfg, v, md, MC, d, k, t, before);
      s := NextDiagonal(cfg, dd, v, md, k, s, V);
      k := k + 1;
    }
  }

  /** The second loop, Karatsuba-style form, and the last line. */
  method HighKaratsuba(cfg: Config, a: array<int>, v: array<int>, dd: array<int>, md: array<int>, d: array<int>,
      t0: int, s0: int)
    requires cfg.Valid() && Roomy(cfg) && a.Length == cfg.nlen && a != v && a != md && a != d && a != dd
    requires v.Length == md.Length == dd.Length == cfg.nlen && d.Length == 2 * cfg.nlen
    requires Normal(md[..], cfg.Radix()) && Normal(d[..], cfg.Radix())
    requires QuotientState(cfg, v[..], md[..], d[..], cfg.nlen, t0)
    requires s0 == Diag(v[..], md[..], 1, cfg.nlen)
    requires forall j {:trigger dd[j]} :: 1 <= j < cfg.nlen ==> dd[j] == v[j] * md[j]
    modifies a
    ensures a[..] == Reduced(MontyColumns(d[..], v[..], md[..]), 2 * cfg.nlen, cfg.Radix())[cfg.nlen..]
  {
    hide Carry, Reduced, Conv, Cross, Room;
    var n := cfg.nlen;
    ghost var V, M, D := v[..], md[..], d[..];
    ghost var cols := MontyColumns(D, V, M);
    var t, s := t0, s0;
    var k := n;
    while k < 2 * n - 1
      invariant n <= k <= 2 * n - 1
      invariant t == Carry(cols, k, cfg.Radix()) + D[k]
      invariant s == Diag(V, M, k - n + 1, n)
      invariant a[..k - n] == Reduced(cols, k, cfg.Radix())[n..]
    {
      UpperColumn(cfg, V, M, D, k);
      t := cfg.Dword(t + s);
      t := AddReversedDifferences(cfg, t, v, md, k, 1 + k / 2, n - 1);
      t := NextHigh(cfg, a, k, t, d, V, M);
      DiagFirst(V, M, k - n + 1, n);
      DiagFits(cfg, V, M, k - n + 2, n);
      s := cfg.Dword(s - dd[k - n + 1]);
      k := k + 1;
    }
    ConvZero(V, M, 0, n, k);
    StoreHigh(cfg, a, k, t, cols);
  }

  /** a[k-NLEN] = (chunk)t & BMASK; t = (t >> BASEBITS) + d[k+1] */
  method NextHigh(cfg: Config, a: array<int>, k: nat, t0: int, d: array<int>, ghost v: seq<int>, ghost md: seq<int>)
      returns (t: int)
    requires cfg.Valid() && Roomy(cfg) && a.Length == cfg.nlen == |v| == |md| && a != d && d.Length == 2 * cfg.nlen
    requires Normal(d[..], cfg.Radix()) && Normal(v, cfg.Radix()) && Normal(md, cfg.Radix())
    requires cfg.nlen <= k < 2 * cfg.nlen - 1
    requires t0 == Carry(MontyColumns(d[..], v, md), k, cfg.Radix()) + d[k] + Column(v, md, k)
    requires a[..k - cfg.nlen] == Reduced(MontyColumns(d[..], v, md), k, cfg.Radix())[cfg.nlen..]
    modifies a
    ensures a[..k + 1 - cfg.nlen] == Reduced(MontyColumns(d[..], v, md), k + 1, cfg.Radix())[cfg.nlen..]
    ensures t == Carry(MontyColumns(d[..], v, md), k + 1, cfg.Radix()) + d[k + 1]
  {
    StoreHigh(cfg, a, k, t0, MontyColumns(d[..], v, md));
    MontyFits(cfg, d[..], v, md, k + 1, 0);
    t := cfg.Dword(t0 / cfg.Radix() + d[k + 1]);
  }

  /** The Karatsuba-style reduction. */
  method MontyKaratsuba(cfg: Config, a: array<int>, md: array<int>, MC: int, d: array<int>)
    requires MontyInputs(cfg, a, md, MC, d) && Roomy(cfg)
    modifies a
    ensures Normal(a[..], cfg.Radix())
    ensures IsReduction(Value(a[..], cfg.Radix()), Value(d[..], cfg.Radix()), Value(md[..], cfg.Radix()),
      Pow(cfg.Radix(), cfg.nlen))
  {
    var v := new int[cfg.nlen](_ => 0);
    var dd := new int[cfg.nlen];
    var t, s := QuotientsKaratsuba(cfg, v, dd, md, MC, d);
    HighKaratsuba(cfg, a, v, dd, md, d, t, s);
    HighHalf(d[..], v[..], md[..], a[..], cfg.nlen, cfg.Radix());
  }

  // ---------------------------------------------------------------- the in-place form

  /** MC*d[i] masked, with the two shortcuts for MC = -1 and MC = 1. */
  method RowDigit(cfg: Config, MC: int, di: int) returns (m: int)
    requires cfg.Valid() && 0 <= di < cfg.Radix() && -cfg.Half() <= MC < cfg.Half()
    ensures m == (di * MC) % cfg.Radix() && 0 <= m < cfg.Radix()
  {
    var R := cfg.Radix();
    if MC == -1 {
      RadixIsChunk(cfg);
      m := cfg.Word(-di) % R;
    } else if MC == 1 {
      m := di;
      DivModUnique(di, R, 0, di);
    } else {
      cfg.WordMask(MC * di);
      assert MC * di == di * MC;
      m := cfg.Word(MC * di) % R;
    }
  }

  /** After i rows: limbs 0..i are zero, limbs up to i+NLEN-1 are digits, the limb above may hold a
      carry that has not been propagated, and the value is d + q*md for a q below R^i. */
  ghost predicate RowsState(cfg: Config, D: seq<int>, md: seq<int>, d: seq<int>, i: nat, q: int)
    requires cfg.Valid()
  {
    var n, R := cfg.nlen, cfg.Radix();
    && |d| == |D| == 2 * n && |md| == n && i <= n
    && (forall j :: 0 <= j < i ==> d[j] == 0)
    && Digits(d, 0, if i == 0 then 2 * n else i + n - 1, R)
    && (forall j :: i + n <= j < 2 * n ==> 0 <= d[j] < R)
    && (i > 0 ==> 0 <= d[i + n - 1] <= 2 * R)
    && 0 <= q < Pow(R, i)
    && Value(d, R) == Value(D, R) + q * Value(md, R)
  }

  lemma RowsStep(cfg: Config, D: seq<int>, md: seq<int>, before: seq<int>, row: seq<int>, after: seq<int>, i: nat,
      q: int, m: int, carry: int, MC: int)
    requires cfg.Valid() && i < cfg.nlen && Normal(md, cfg.Radix())
    requires RowsState(cfg, D, md, before, i, q)
    requires |row| == |after| == 2 * cfg.nlen && IsConstant(MC, md[0], cfg.Radix())
    requires m == (before[i] * MC) % cfg.Radix()
    requires Digits(row, i, i + cfg.nlen, cfg.Radix())
    requires forall j :: 0 <= j < 2 * cfg.nlen && !(i <= j < i + cfg.nlen) ==> row[j] == before[j]
    requires Val(row, i + cfg.nlen, cfg.Radix()) + carry * Pow(cfg.Radix(), i + cfg.nlen)
          == Val(before, i + cfg.nlen, cfg.Radix()) + (m * Value(md, cfg.Radix())) * Pow(cfg.Radix(), i)
    requires 0 <= carry <= cfg.Radix() + 1
    requires i + cfg.nlen < 2 * cfg.nlen && after == row[cfg.nlen + i := row[cfg.nlen + i] + carry]
    ensures RowsState(cfg, D, md, after, i + 1, q + m * Pow(cfg.Radix(), i))
  {
    var n, R := cfg.nlen, cfg.Radix();
    var p := Pow(R, i);
    PowPositive(R, i);
    RowClears(md, before, row, i, n, m, MC, carry, R);
    MulDist(R - 1, 1, p);
    MulMono(m, R - 1, p);
    MulMono(0, m, p);
    ValUpdate(row, n + i, row[n + i] + carry, 2 * n, R);
    HighFrame(before, row, i + n, 2 * n, R);
    MulDist(q, m * p, Value(md, R));
    assert (m * Value(md, R)) * p == (m * p) * Value(md, R) by {
      MulAssoc(m, Value(md, R), p);
      MulAssoc(m, p, Value(md, R));
      assert Value(md, R) * p == p * Value(md, R);
    }
  }

  /** The row makes limb i zero. */
  lemma RowClears(md: seq<int>, before: seq<int>, row: seq<int>, i: nat, n: nat, m: int, MC: int, carry: int, R: int)
    requires R >= 2 && n >= 1 && |md| == n && i + n <= |before| && i + n <= |row|
    requires IsConstant(MC, md[0], R) && m == (before[i] * MC) % R && 0 <= row[i] < R
    requires forall j :: 0 <= j < i ==> row[j] == before[j]
    requires Val(row, i + n, R) + carry * Pow(R, i + n) == Val(before, i + n, R) + (m * Value(md, R)) * Pow(R, i)
    ensures row[i] == 0
  {
    var p := Pow(R, i);
    PowPositive(R, i);
    PowAdd(R, i, n);
    ValSplit(row, i, i + n, R);
    ValSplit(before, i, i + n, R);
    ValFrame(row, before, i, R);
    var x, y, v, k := Val(row[i..], n, R), Val(before[i..], n, R), Value(md, R), Pow(R, n - 1);
    assert Pow(R, n) == R * k;
    assert p * (x + carry * (R * k)) == p * (y + m * v) by {
      MulDist(x, carry * (R * k), p);
      MulDist(y, m * v, p);
      MulAssoc(p, carry, R * k);
      MulAssoc(carry, p, R * k);
      assert p * carry == carry * p;
    }
    CancelFactor(p, x + carry * (R * k), y + m * v);
    ValModRadix(row[i..], n, R);
    ValModRadix(before[i..], n, R);
    ValModRadix(md, n, R);
    CongScale(v, md[0], m, R);
    CongAdd(y, before[i], m * v, m * md[0], R);
    ClearDigit(before[i], MC, md[0], R);
    CongIntro(x, y + m * v, -(carry * k), R) by {
      assert carry * (R * k) == (carry * k) * R by { MulAssoc(carry, k, R); assert R * k == k * R; }
      MulDist(0, carry * k, R);
    }
    CongTrans(x, y + m * v, before[i] + m * md[0], R);
    CongTrans(x, before[i] + m * md[0], 0, R);
    CongSym(x, row[i], R);
    CongTrans(row[i], x, 0, R);
    CongUnique(row[i], 0, R);
  }

  lemma CancelFactor(p: int, x: int, y: int)
    requires p > 0 && p * x == p * y
    ensures x == y
  {
    if x < y {
      MulStrict(x, y, p);
    } else if y < x {
      MulStrict(y, x, p);
    }
  }

  /** One row: m = d[i]*MC mod R; carry = muladd over the modulus; d[NLEN+i] += carry */
  method ReduceRow(cfg: Config, wide: bool, md: array<int>, MC: int, d: array<int>, i: nat, ghost D: seq<int>,
      ghost q: int)
    returns (ghost q': int)
    requires MuladdReady(cfg, wide) && md.Length == cfg.nlen && d.Length == 2 * cfg.nlen && md != d && i < cfg.nlen
    requires Normal(md[..], cfg.Radix()) && -cfg.Half() <= MC < cfg.Half() && IsConstant(MC, md[0], cfg.Radix())
    requires RowsState(cfg, D, md[..], d[..], i, q)
    modifies d
    ensures RowsState(cfg, D, md[..], d[..], i + 1, q')
  {
    hide Val, Pow, Config.Radix, Config.Half, IsConstant;
    ghost var before, M := d[..], md[..];
    var m := RowDigit(cfg, MC, d[i]);
    var carry := MuladdRow(cfg, wide, d, i, m, md, 2 * cfg.nlen);
    ghost var row := d[..];
    SpareHalf(cfg);
    d[cfg.nlen + i] := cfg.Word(d[cfg.nlen + i] + carry);
    RowsStep(cfg, D, M, before, row, d[..], i, q, m, carry, MC);
    q' := q + m * Pow(cfg.Radix(), i);
  }

  /** The in-place reduction with muladd: each row adds a multiple of the
      modulus that clears one limb of d; the upper half of d, normalised, is the result. */
  method MontyRows(cfg: Config, wide: bool, a: array<int>, md: array<int>, MC: int, d: array<int>)
    requires MontyInputs(cfg, a, md, MC, d) && MuladdReady(cfg, wide)
    modifies a, d
    ensures Normal(a[..], cfg.Radix())
    ensures IsReduction(Value(a[..], cfg.Radix()), old(Value(d[..], cfg.Radix())), Value(md[..], cfg.Radix()),
      Pow(cfg.Radix(), cfg.nlen))
  {
    hide Val, Carry, Reduced, Pow;
    var n := cfg.nlen;
    ghost var R, D, M := cfg.Radix(), d[..], md[..];
    ghost var q := 0;
    RowsStart(cfg, D, M);
    var i := 0;
    while i < n
      invariant 0 <= i <= n
      invariant RowsState(cfg, D, M, d[..], i, q)
      modifies d
    {
      q := ReduceRow(cfg, wide, md, MC, d, i, D, q);
      i := i + 1;
    }
    RowsEnd(cfg, D, M, d[..], q);
    Copy(a, d, n);
    assert d[..][n..] == d[n..2 * n];
    Norm(cfg, a);
  }

  lemma RowsStart(cfg: Config, D: seq<int>, md: seq<int>)
    requires cfg.Valid() && |D| == 2 * cfg.nlen && |md| == cfg.nlen && Normal(D, cfg.Radix())
    ensures RowsState(cfg, D, md, D, 0, 0)
  {
  }

  lemma RowsEnd(cfg: Config, D: seq<int>, md: seq<int>, d: seq<int>, q: int)
    requires Spare(cfg) && RowsState(cfg, D, md, d, cfg.nlen, q)
    requires Normal(md, cfg.Radix()) && Normal(D, cfg.Radix())
    requires 2 * Value(md, cfg.Radix()) <= Pow(cfg.Radix(), cfg.nlen)
    requires Value(D, cfg.Radix()) < Value(md, cfg.Radix()) * Pow(cfg.Radix(), cfg.nlen)
    ensures Lazy(cfg, d[cfg.nlen..])
    ensures Normal(NormLimbs(cfg, d[cfg.nlen..]), cfg.Radix())
    ensures IsReduction(Value(NormLimbs(cfg, d[cfg.nlen..]), cfg.Radix()), Value(D, cfg.Radix()),
      Value(md, cfg.Radix()), Pow(cfg.Radix(), cfg.nlen))
  {
    hide Carry, Reduced, Pow, Val;
    var n, R := cfg.nlen, cfg.Radix();
    var a, RN := d[n..], Pow(R, n);
    HighValue(d, n, R);
    SpareRoom(cfg);
    NormValue(cfg, a);
    NormalBounds(D, R);
    NormalBounds(md, R);
    var x, m := Value(a, R), Value(md, R);
    assert IsReduction(x, Value(D, R), m, RN);
    PositiveFactor(Value(D, R), m, RN);
    ReductionBounds(x, Value(D, R), m, RN);
    NormalFromValue(NormLimbs(cfg, a), R);
  }

  lemma PositiveFactor(d: int, m: int, p: int)
    requires 0 <= d < m * p && p > 0
    ensures m > 0
  {
    if m <= 0 {
      MulMono(m, 0, p);
    }
  }

  lemma HighValue(d: seq<int>, n: nat, R: int)
    requires |d| == 2 * n && R >= 1 && forall j :: 0 <= j < n ==> d[j] == 0
    ensures Pow(R, n) > 0 && Value(d[n..], R) * Pow(R, n) == Value(d, R)
  {
    PowPositive(R, n);
    ValZero(d, n, R);
    ValSplit(d, n, 2 * n, R);
  }
}
