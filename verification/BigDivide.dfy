/** Constant-time shift-and-subtract reduction and division, and the wrappers around them. */
module BigDivide {
  import opened Arith
  import opened Words
  import opened Limbs
  import opened BigNorm
  import opened BigShift
  import opened BigBits
  import opened BigRows

  /** A non-negative number below twice the range, low limbs normalised. */
  ghost predicate Reducible(cfg: Config, s: seq<int>)
    requires cfg.Valid()
  {
    |s| >= 2 && LowNormal(s, cfg.Radix()) && 0 <= Value(s, cfg.Radix()) < 2 * Pow(cfg.Radix(), |s|)
  }

  lemma ReducibleLimbs(cfg: Config, s: seq<int>)
    requires cfg.Valid() && Reducible(cfg, s)
    ensures forall j :: 0 <= j < |s| ==> 0 <= s[j] < 2 * cfg.Radix()
  {
    var R, p := cfg.Radix(), Pow(cfg.Radix(), |s| - 1);
    assert Pow(R, |s|) == R * p;
    MulAssoc(2, R, p);
    TopBounds(s, R, 0, 2 * R);
  }

  /** The difference of two reducible numbers is normalised without loss. */
  lemma DifferenceValue(cfg: Config, b: seq<int>, c: seq<int>)
    requires Spare(cfg) && |b| == |c| && Reducible(cfg, b) && Reducible(cfg, c)
    ensures var r := SubLimbs(cfg, b, c);
            && Lazy(cfg, r)
            && LowNormal(NormLimbs(cfg, r), cfg.Radix())
            && Value(NormLimbs(cfg, r), cfg.Radix()) == Value(b, cfg.Radix()) - Value(c, cfg.Radix())
  {
    SpareRoom(cfg);
    ReducibleLimbs(cfg, b);
    ReducibleLimbs(cfg, c);
    hide MaxLimb, Val;
    SubValue(cfg, b, c);
    NormValue(cfg, SubLimbs(cfg, b, c));
  }

  /** sub(r, b, c); norm(r); cmove(b, r, 1 - sign(r)) */
  method SubtractIfFits(cfg: Config, b: array<int>, c: array<int>, r: array<int>) returns (d: int)
    requires Spare(cfg) && b.Length == c.Length == r.Length && b != c && b != r && c != r
    requires Reducible(cfg, b[..]) && Reducible(cfg, c[..])
    modifies b, r
    ensures Reducible(cfg, b[..])
    ensures d == if old(Value(b[..], cfg.Radix())) >= Value(c[..], cfg.Radix()) then 1 else 0
    ensures Value(b[..], cfg.Radix()) == old(Value(b[..], cfg.Radix())) - d * Value(c[..], cfg.Radix())
  {
    hide Val, Lazy, LazyLimbs, SubLimbs, NormLimbs, Pow;
    ghost var B, C, R := b[..], c[..], cfg.Radix();
    DifferenceValue(cfg, B, C);
    Sub(cfg, r, b, c);
    ghost var D := r[..];
    LazyLow(cfg, D);
    Norm(cfg, r);
    TopSign(r[..], R);
    TopIsWord(cfg, D);
    d := 1 - SignBit(cfg, r[r.Length - 1]);
    CMove(b, r, d);
  }

  lemma LazyLow(cfg: Config, s: seq<int>)
    requires cfg.Valid() && |s| >= 1 && Lazy(cfg, s)
    ensures LazyLimbs(cfg, s, |s| - 1)
  {
  }

  lemma TopIsWord(cfg: Config, s: seq<int>)
    requires cfg.Valid() && |s| >= 1
    ensures -cfg.Half() <= NormLimbs(cfg, s)[|s| - 1] < cfg.Half()
  {
  }

  /** add(r, a, e); norm(r); cmove(a, r, d) */
  method AddIf(cfg: Config, a: array<int>, e: array<int>, r: array<int>, d: int)
    requires Spare(cfg) && a.Length == e.Length == r.Length >= 2 && a != e && a != r && e != r
    requires Normal(a[..], cfg.Radix()) && Normal(e[..], cfg.Radix()) && (d == 0 || d == 1)
    requires Value(a[..], cfg.Radix()) + d * Value(e[..], cfg.Radix()) < Pow(cfg.Radix(), a.Length)
    modifies a, r
    ensures Normal(a[..], cfg.Radix())
    ensures Value(a[..], cfg.Radix()) == old(Value(a[..], cfg.Radix())) + d * Value(e[..], cfg.Radix())
  {
    hide Val, Lazy, LazyLimbs, AddLimbs, NormLimbs, Pow;
    ghost var A, E, R := a[..], e[..], cfg.Radix();
    SumValue(cfg, A, E);
    Add(cfg, r, a, e);
    LazyLow(cfg, r[..]);
    Norm(cfg, r);
    if d == 1 {
      NormalBounds(A, R);
      NormalBounds(E, R);
      NormalFromValue(r[..], R);
    }
    CMove(a, r, d);
  }

  lemma SumValue(cfg: Config, a: seq<int>, e: seq<int>)
    requires Spare(cfg) && |a| == |e| >= 2 && Normal(a, cfg.Radix()) && Normal(e, cfg.Radix())
    ensures var r := AddLimbs(cfg, a, e);
            && Lazy(cfg, r)
            && LowNormal(NormLimbs(cfg, r), cfg.Radix())
            && Value(NormLimbs(cfg, r), cfg.Radix()) == Value(a, cfg.Radix()) + Value(e, cfg.Radix())
  {
    SpareRoom(cfg);
    hide MaxLimb, Val;
    AddValue(cfg, a, e);
    NormValue(cfg, AddLimbs(cfg, a, e));
  }

  lemma NormalIsReducible(cfg: Config, s: seq<int>)
    requires cfg.Valid() && |s| >= 2 && Normal(s, cfg.Radix())
    ensures Reducible(cfg, s)
  {
    NormalBounds(s, cfg.Radix());
  }

  lemma ReducibleBounds(cfg: Config, s: seq<int>)
    requires cfg.Valid() && Reducible(cfg, s)
    ensures |s| >= 2 && 0 <= Value(s, cfg.Radix()) < 2 * Pow(cfg.Radix(), |s|)
  {
  }

  lemma ReducibleNormal(cfg: Config, s: seq<int>)
    requires cfg.Valid() && Reducible(cfg, s) && Value(s, cfg.Radix()) < Pow(cfg.Radix(), |s|)
    ensures Normal(s, cfg.Radix())
  {
    NormalFromValue(s, cfg.Radix());
  }

  /** fshr(c, 1), or dshr(c, 1) for a double number */
  method Halve(cfg: Config, c: array<int>, double: bool)
    requires Spare(cfg) && Reducible(cfg, c[..])
    modifies c
    ensures Normal(c[..], cfg.Radix())
    ensures Value(c[..], cfg.Radix()) == old(Value(c[..], cfg.Radix())) / 2
  {
    hide Val, LowNormal;
    ghost var C := c[..];
    SmallShift(cfg, 1);
    ShrValue(cfg, C, 1);
    assert Pow(2, 1) == 2 * Pow(2, 0) == 2;
    if double {
      DShr(cfg, c, 1);
    } else {
      var out := FShr(cfg, c, 1);
    }
    NormalFromValue(c[..], cfg.Radix());
  }

  lemma NormalIsLow(s: seq<int>, R: int)
    requires Normal(s, R) && |s| > 0
    ensures LowNormal(s, R)
  {
  }

  // ---------------------------------------------------------------- the division loops

  /** With c = m*2^k still to be tried (k >= 0), or all of them tried (k = -1):
      b0 = q*m + b, and b is below the range that remains. */
  ghost predicate Dividing(b0: int, m: int, k: int, b: int, c: int, q: int) {
    && k >= -1 && m > 0 && 0 <= b && 0 <= q && b0 == q * m + b
    && (k >= 0 ==> c == m * Pow(2, k) && b < 2 * c)
    && (k == -1 ==> b < m)
  }

  /** One step: subtract c if it fits and halve it. */
  lemma DividingStep(b0: int, m: int, k: int, b: int, c: int, q: int, d: int)
    requires k >= 0 && Dividing(b0, m, k, b, c, q)
    requires d == if b >= c then 1 else 0
    ensures Dividing(b0, m, k - 1, b - d * c, c / 2, q + d * Pow(2, k))
  {
    var p := Pow(2, k);
    PowPositive(2, k);
    MulDist(q, d * p, m);
    assert (d * p) * m == d * c by {
      MulAssoc(d, p, m);
      assert p * m == m * p;
    }
    MulMono(0, d, p);
    if k > 0 {
      var h := Pow(2, k - 1);
      assert c == (m * h) * 2 by { assert p == 2 * h; MulAssoc(m, h, 2); assert h * 2 == 2 * h; }
      DivModUnique(c, 2, m * h, 0);
    } else {
      assert c == m * 1;
    }
  }

  /** When the loop ends, b is the remainder and q the quotient. */
  lemma DividingEnd(b0: int, m: int, b: int, c: int, q: int)
    requires Dividing(b0, m, -1, b, c, q)
    ensures b == b0 % m && q == b0 / m
  {
    DivModUnique(b0, m, q, b);
  }

  /** The loop of BIG_ctmod and BIG_ctdmod. */
  method ReduceLoop(cfg: Config, b: array<int>, c: array<int>, bd: nat, double: bool, ghost m: int)
    requires Spare(cfg) && b.Length == c.Length && b != c && Reducible(cfg, b[..]) && Reducible(cfg, c[..])
    requires 0 < m < Pow(cfg.Radix(), b.Length) && Value(c[..], cfg.Radix()) == m * Pow(2, bd)
    requires Value(b[..], cfg.Radix()) < 2 * Value(c[..], cfg.Radix())
    modifies b, c
    ensures Normal(b[..], cfg.Radix())
    ensures Value(b[..], cfg.Radix()) == old(Value(b[..], cfg.Radix())) % m
  {
    hide Val, Pow, Reducible, Normal, Config.Radix;
    ghost var R := cfg.Radix();
    ghost var b0, q := Value(b[..], R), 0;
    ReducibleBounds(cfg, b[..]);
    ReducibleBounds(cfg, c[..]);
    var r := new int[b.Length];
    var k: int := bd;
    while k >= 0
      invariant -1 <= k && Reducible(cfg, b[..]) && Reducible(cfg, c[..])
      invariant Dividing(b0, m, k, Value(b[..], R), Value(c[..], R), q)
      modifies b, c, r
    {
      ghost var B, C := Value(b[..], R), Value(c[..], R);
      var d := SubtractIfFits(cfg, b, c, r);
      DividingStep(b0, m, k, B, C, q, d);
      q := q + d * Pow(2, k);
      Halve(cfg, c, double);
      NormalIsReducible(cfg, c[..]);
      k := k - 1;
    }
    DividingEnd(b0, m, Value(b[..], R), Value(c[..], R), q);
    ReducibleNormal(cfg, b[..]);
  }

  /** The loop of BIG_ctsdiv and BIG_ctddiv: a collects the quotient, e is 2^k. */
  method DivideLoop(cfg: Config, a: array<int>, e: array<int>, b: array<int>, c: array<int>, bd: nat, double: bool,
      ghost m: int)
    requires Spare(cfg) && b.Length == c.Length && a.Length == e.Length >= 2
    requires a != b && a != c && a != e && b != c && b != e && c != e
    requires Reducible(cfg, b[..]) && Reducible(cfg, c[..]) && Normal(a[..], cfg.Radix()) && Normal(e[..], cfg.Radix())
    requires 0 < m < Pow(cfg.Radix(), b.Length) && Value(c[..], cfg.Radix()) == m * Pow(2, bd)
      && Value(b[..], cfg.Radix()) < 2 * Value(c[..], cfg.Radix())
    requires Value(a[..], cfg.Radix()) == 0 && Value(e[..], cfg.Radix()) == Pow(2, bd) && bd < cfg.bits * a.Length
    modifies a, e, b, c
    ensures Normal(a[..], cfg.Radix()) && Normal(b[..], cfg.Radix())
    ensures Value(a[..], cfg.Radix()) == old(Value(b[..], cfg.Radix())) / m
    ensures Value(b[..], cfg.Radix()) == old(Value(b[..], cfg.Radix())) % m
  {
    hide Val, Pow, Reducible, Normal, Config.Radix;
    ghost var R := cfg.Radix();
    ghost var b0 := Value(b[..], R);
    ReducibleBounds(cfg, b[..]);
    ReducibleBounds(cfg, c[..]);
    QuotientFits(cfg, b0, m, bd, a.Length, Value(c[..], R));
    var r := new int[b.Length];
    var s := new int[a.Length];
    var k: int := bd;
    while k >= 0
      invariant -1 <= k && Reducible(cfg, b[..]) && Reducible(cfg, c[..]) && Normal(a[..], R) && Normal(e[..], R)
      invariant Dividing(b0, m, k, Value(b[..], R), Value(c[..], R), Value(a[..], R))
      invariant k >= 0 ==> Value(e[..], R) == Pow(2, k)
      modifies a, e, b, c, r, s
    {
      ghost var B, C, q := Value(b[..], R), Value(c[..], R), Value(a[..], R);
      var d := SubtractIfFits(cfg, b, c, r);
      DividingStep(b0, m, k, B, C, q, d);
      PartialQuotient(b0, m, B - d * C, q + d * Pow(2, k), k - 1, C / 2);
      AddIf(cfg, a, e, s, d);
      Halve(cfg, c, double);
      NormalIsReducible(cfg, c[..]);
      HalfPower(k);
      NormalIsReducible(cfg, e[..]);
      Halve(cfg, e, false);
      k := k - 1;
    }
    DividingEnd(b0, m, Value(b[..], R), Value(c[..], R), Value(a[..], R));
    ReducibleNormal(cfg, b[..]);
  }

  lemma HalfPower(k: nat)
    ensures k > 0 ==> Pow(2, k) / 2 == Pow(2, k - 1)
  {
    if k > 0 {
      DivModUnique(Pow(2, k), 2, Pow(2, k - 1), 0);
    }
  }

  /** No partial quotient exceeds the quotient. */
  lemma PartialQuotient(b0: int, m: int, b: int, q: int, k: int, c: int)
    requires Dividing(b0, m, k, b, c, q)
    ensures q <= b0 / m
  {
    assert b0 == (b0 / m) * m + b0 % m;
    if q > b0 / m {
      MulMono(b0 / m + 1, q, m);
      MulDist(b0 / m, 1, m);
    }
  }

  /** The quotient of a number below m*2^(bd+1) has at most bd+1 bits. */
  lemma QuotientFits(cfg: Config, b0: int, m: int, bd: nat, n: nat, c: int)
    requires cfg.Valid() && m > 0 && 0 <= b0 < 2 * c && c == m * Pow(2, bd) && bd < cfg.bits * n
    ensures b0 / m < Pow(cfg.Radix(), n)
  {
    PowMul(2, cfg.bits, n);
    PowMonotone(2, bd + 1, cfg.bits * n);
    assert Pow(2, bd + 1) == 2 * Pow(2, bd);
    assert 2 * c == Pow(2, bd + 1) * m
      by { MulAssoc(2, m, Pow(2, bd)); MulAssoc(2, Pow(2, bd), m); assert m * Pow(2, bd) == Pow(2, bd) * m; }
    assert 0 * m == 0;
    DivBounds(b0, m, 0, Pow(2, bd + 1));
  }

  // ---------------------------------------------------------------- reduction and division

  /** m*2^bd is a number of n limbs; after a shift by less than a limb the top one may hold an excess. */
  ghost predicate FitsShifted(cfg: Config, m: int, bd: nat, n: nat)
    requires cfg.Valid()
  {
    m * Pow(2, bd) < Pow(cfg.Radix(), n) || (bd < cfg.bits && m * Pow(2, bd) < 2 * Pow(cfg.Radix(), n))
  }

  lemma ShiftWithin(cfg: Config, m: int, bd: nat, n: nat)
    requires cfg.Valid() && n >= 1 && m > 0 && FitsShifted(cfg, m, bd, n)
    ensures bd < cfg.bits * n && Whole(cfg, bd) < n
  {
    MulMono(1, n, cfg.bits);
    if bd < cfg.bits {
      SmallShift(cfg, bd);
    } else {
      PowMul(2, cfg.bits, n);
      PowPositive(2, bd);
      MulMono(1, m, Pow(2, bd));
      if bd >= cfg.bits * n {
        PowMonotone(2, cfg.bits * n, bd);
      }
      assert 0 * cfg.bits == 0 && n * cfg.bits == cfg.bits * n;
      DivBounds(bd, cfg.bits, 0, n);
    }
  }

  /** The shifted modulus, with any excess in its top limb. */
  lemma ShiftedValue(cfg: Config, s: seq<int>, bd: nat)
    requires Spare(cfg) && |s| >= 2 && Normal(s, cfg.Radix()) && 0 < Value(s, cfg.Radix())
    requires FitsShifted(cfg, Value(s, cfg.Radix()), bd, |s|)
    ensures Whole(cfg, bd) < |s| && Reducible(cfg, LeftShift(cfg, s, bd))
    ensures Value(LeftShift(cfg, s, bd), cfg.Radix()) == Value(s, cfg.Radix()) * Pow(2, bd)
  {
    ShiftWithin(cfg, Value(s, cfg.Radix()), bd, |s|);
    PowPositive(2, bd);
    MulMono(0, Value(s, cfg.Radix()), Pow(2, bd));
    hide Val, Pow, Whole, LeftShift;
    if Value(s, cfg.Radix()) * Pow(2, bd) < Pow(cfg.Radix(), |s|) {
      ShlValue(cfg, s, bd);
      NormalIsReducible(cfg, LeftShift(cfg, s, bd));
    } else {
      ShlExcess(cfg, s, bd);
    }
  }

  /** Normalising a number in range makes it reducible. */
  lemma ReducibleNorm(cfg: Config, s: seq<int>)
    requires cfg.Valid() && |s| >= 2 && Lazy(cfg, s) && 0 <= Value(s, cfg.Radix()) < 2 * Pow(cfg.Radix(), |s|)
    ensures Reducible(cfg, NormLimbs(cfg, s)) && Value(NormLimbs(cfg, s), cfg.Radix()) == Value(s, cfg.Radix())
  {
    NormValue(cfg, s);
  }

  /** norm(b); shl(c, bd), or dnorm(b); dshl(c, bd): the common start. */
  method Prepare(cfg: Config, b: array<int>, c: array<int>, bd: nat, double: bool)
    requires Spare(cfg) && b.Length == c.Length >= 2 && b != c && Lazy(cfg, b[..]) && Normal(c[..], cfg.Radix())
    requires 0 < Value(c[..], cfg.Radix()) && FitsShifted(cfg, Value(c[..], cfg.Radix()), bd, c.Length)
    requires 0 <= Value(b[..], cfg.Radix()) < 2 * Pow(cfg.Radix(), b.Length)
    requires double ==> bd < cfg.bits * (c.Length - 1)
    modifies b, c
    ensures Reducible(cfg, b[..]) && Value(b[..], cfg.Radix()) == old(Value(b[..], cfg.Radix()))
    ensures Reducible(cfg, c[..]) && Value(c[..], cfg.Radix()) == old(Value(c[..], cfg.Radix())) * Pow(2, bd)
  {
    hide Val, Pow, LowNormal, Lazy, LazyLimbs;
    ghost var B, C := b[..], c[..];
    LazyLow(cfg, B);
    ReducibleNorm(cfg, B);
    Norm(cfg, b);
    ShiftedValue(cfg, C, bd);
    NormalIsLow(C, cfg.Radix());
    if double {
      LimbsMoved(cfg, bd, c.Length - 1);
      DShl(cfg, c, bd);
    } else {
      Shl(cfg, c, bd);
    }
  }

  /** BIG_ctmod: b = b mod m. */
  method CtMod(cfg: Config, b: array<int>, m: array<int>, bd: nat)
    requires Spare(cfg) && b.Length == m.Length == cfg.nlen && b != m && Lazy(cfg, b[..]) && Normal(m[..], cfg.Radix())
    requires 0 < Value(m[..], cfg.Radix()) && FitsShifted(cfg, Value(m[..], cfg.Radix()), bd, cfg.nlen)
    requires 0 <= Value(b[..], cfg.Radix()) < 2 * (Value(m[..], cfg.Radix()) * Pow(2, bd))
    requires Value(b[..], cfg.Radix()) < 2 * Pow(cfg.Radix(), b.Length)
    modifies b
    ensures Normal(b[..], cfg.Radix())
    ensures Value(b[..], cfg.Radix()) == old(Value(b[..], cfg.Radix())) % Value(m[..], cfg.Radix())
  {
    NormalBounds(m[..], cfg.Radix());
    hide Val, Pow, LowNormal, Lazy, LazyLimbs, FitsShifted, Reducible, Normal;
    var c := new int[cfg.nlen];
    Copy(c, m, 0);
    assert c[..] == m[..];
    Prepare(cfg, b, c, bd, false);
    ReduceLoop(cfg, b, c, bd, false, Value(m[..], cfg.Radix()));
  }

  /** BIG_dscopy, for a normalised number: the low half is copied and the high half is zero. */
  method DsCopy(cfg: Config, b: array<int>, a: array<int>)
    requires cfg.Valid() && a.Length == cfg.nlen && b.Length == 2 * cfg.nlen && a != b && Normal(a[..], cfg.Radix())
    modifies b
    ensures Normal(b[..], cfg.Radix()) && Value(b[..], cfg.Radix()) == Value(a[..], cfg.Radix())
  {
    var n, R := cfg.nlen, cfg.Radix();
    ghost var A := a[..];
    var i := 0;
    while i < n - 1
      invariant 0 <= i <= n - 1
      invariant forall j :: 0 <= j < i ==> b[j] == A[j]
    {
      b[i] := a[i];
      i := i + 1;
    }
    DivModUnique(a[n - 1], R, 0, a[n - 1]);
    b[n - 1] := a[n - 1] % R;
    b[n] := a[n - 1] / R;
    i := n + 1;
    while i < 2 * n
      invariant n + 1 <= i <= 2 * n
      invariant forall j :: 0 <= j < n ==> b[j] == A[j]
      invariant forall j :: n <= j < i ==> b[j] == 0
    {
      b[i] := 0;
      i := i + 1;
    }
    ValHighZero(b[..], n, 2 * n, R);
    ValFrame(b[..], A, n, R);
  }

  /** A double number below R^n is its lower half. */
  lemma LowHalf(s: seq<int>, n: nat, R: int)
    requires R >= 1 && |s| == 2 * n && Normal(s, R) && Value(s, R) < Pow(R, n)
    ensures Normal(s[..n], R) && Value(s[..n], R) == Value(s, R)
  {
    PowPositive(R, n);
    ValSplit(s, n, 2 * n, R);
    ValBounds(s, n, R);
    NormalBounds(s[n..], R);
    hide Val, Pow;
    NoHighHalf(Val(s, n, R), Value(s[n..], R), Pow(R, n));
    ValFrame(s[..n], s, n, R);
  }

  lemma NoHighHalf(low: int, high: int, p: int)
    requires p > 0 && 0 <= low && 0 <= high && low + p * high < p
    ensures high == 0 && p * high == 0
  {
    if high >= 1 {
      MulMono(1, high, p);
    }
  }

  /** BIG_ctdmod: a = b mod m; b is destroyed.  The modulus is shifted by BIG_dshl, so bd stays below
      BASEBITS*(2*NLEN-1). */
  method CtDMod(cfg: Config, a: array<int>, b: array<int>, m: array<int>, bd: nat)
    requires Spare(cfg) && a.Length == m.Length == cfg.nlen && b.Length == 2 * cfg.nlen && a != b && a != m && b != m
    requires Lazy(cfg, b[..]) && Normal(m[..], cfg.Radix())
    requires 0 < Value(m[..], cfg.Radix()) && FitsShifted(cfg, Value(m[..], cfg.Radix()), bd, 2 * cfg.nlen)
    requires 0 <= Value(b[..], cfg.Radix()) < 2 * (Value(m[..], cfg.Radix()) * Pow(2, bd))
    requires Value(b[..], cfg.Radix()) < 2 * Pow(cfg.Radix(), b.Length)
    requires bd < cfg.bits * (2 * cfg.nlen - 1)
    modifies a, b
    ensures Normal(a[..], cfg.Radix())
    ensures Value(a[..], cfg.Radix()) == old(Value(b[..], cfg.Radix())) % Value(m[..], cfg.Radix())
  {
    hide Val, Pow, LowNormal, Lazy, LazyLimbs, FitsShifted;
    ghost var M, R := m[..], cfg.Radix();
    NormalBounds(M, R);
    PowMonotone(R, cfg.nlen, 2 * cfg.nlen);
    var c := new int[2 * cfg.nlen];
    DsCopy(cfg, c, m);
    Prepare(cfg, b, c, bd, true);
    ReduceLoop(cfg, b, c, bd, true, Value(M, R));
    LowHalf(b[..], cfg.nlen, R);
    Copy(a, b, 0);
    assert a[..] == b[..][..cfg.nlen];
  }

  /** zero(e); inc(e, 1); shl(e, bd) */
  method PowerOfTwo(cfg: Config, e: array<int>, bd: nat)
    requires Spare(cfg) && e.Length >= 2 && bd < cfg.bits * e.Length
    modifies e
    ensures Normal(e[..], cfg.Radix()) && Value(e[..], cfg.Radix()) == Pow(2, bd)
  {
    ghost var R := cfg.Radix();
    One(cfg, e);
    PowMul(2, cfg.bits, e.Length);
    PowStrict(2, bd, cfg.bits * e.Length);
    ShiftWithin(cfg, 1, bd, e.Length);
    ShlValue(cfg, e[..], bd);
    Shl(cfg, e, bd);
  }

  /** BIG_one; also what BIG_zero followed by BIG_inc by one leaves. */
  method One(cfg: Config, e: array<int>)
    requires cfg.Valid() && e.Length >= 1
    modifies e
    ensures Normal(e[..], cfg.Radix()) && Value(e[..], cfg.Radix()) == 1
  {
    Zero(e);
    e[0] := 1;
    assert Pow(cfg.Radix(), 0) == 1;
    assert Val(e[..], 0, cfg.Radix()) == 0;
    assert Val(e[..], 1, cfg.Radix()) == 1;
    ValHighZero(e[..], 1, e.Length, cfg.Radix());
  }

  /** BIG_ctsdiv: b = b / m. */
  method CtSDiv(cfg: Config, b: array<int>, m: array<int>, bd: nat)
    requires Spare(cfg) && b.Length == m.Length == cfg.nlen && b != m && Lazy(cfg, b[..]) && Normal(m[..], cfg.Radix())
    requires 0 < Value(m[..], cfg.Radix()) && FitsShifted(cfg, Value(m[..], cfg.Radix()), bd, cfg.nlen)
    requires 0 <= Value(b[..], cfg.Radix()) < 2 * (Value(m[..], cfg.Radix()) * Pow(2, bd))
    requires Value(b[..], cfg.Radix()) < 2 * Pow(cfg.Radix(), b.Length)
    modifies b
    ensures Normal(b[..], cfg.Radix())
    ensures Value(b[..], cfg.Radix()) == old(Value(b[..], cfg.Radix())) / Value(m[..], cfg.Radix())
  {
    hide Val, Pow, LowNormal, Lazy, LazyLimbs;
    ghost var M, R := Value(m[..], cfg.Radix()), cfg.Radix();
    ShiftWithin(cfg, M, bd, cfg.nlen);
    NormalBounds(m[..], R);
    hide FitsShifted, Reducible, Normal;
    var a := new int[cfg.nlen];
    Copy(a, b, 0);
    assert a[..] == b[..];
    var c := new int[cfg.nlen];
    Copy(c, m, 0);
    assert c[..] == m[..];
    Prepare(cfg, a, c, bd, false);
    SetZero(cfg, b);
    var e := new int[cfg.nlen];
    PowerOfTwo(cfg, e, bd);
    DivideLoop(cfg, b, e, a, c, bd, false, M);
  }

  method SetZero(cfg: Config, a: array<int>)
    requires cfg.Valid()
    modifies a
    ensures Normal(a[..], cfg.Radix()) && Value(a[..], cfg.Radix()) == 0
  {
    Zero(a);
    ValZero(a[..], a.Length, cfg.Radix());
  }

  /** A shift within a single number leaves two limbs of a double one. */
  lemma DoubleLimit(cfg: Config, bd: nat)
    requires cfg.Valid() && bd <= cfg.bits * cfg.nlen
    ensures bd < cfg.bits * (2 * cfg.nlen - 1)
  {
    MulStrict(cfg.nlen, 2 * cfg.nlen - 1, cfg.bits);
    assert cfg.nlen * cfg.bits == cfg.bits * cfg.nlen && (2 * cfg.nlen - 1) * cfg.bits == cfg.bits * (2 * cfg.nlen - 1);
  }

  /** BIG_ctddiv: a = b / m; b is destroyed.  The shifted one must fit, so bd stays below BASEBITS*NLEN. */
  method CtDDiv(cfg: Config, a: array<int>, b: array<int>, m: array<int>, bd: nat)
    requires Spare(cfg) && a.Length == m.Length == cfg.nlen && b.Length == 2 * cfg.nlen && a != b && a != m && b != m
    requires Lazy(cfg, b[..]) && Normal(m[..], cfg.Radix())
    requires 0 < Value(m[..], cfg.Radix()) && FitsShifted(cfg, Value(m[..], cfg.Radix()), bd, 2 * cfg.nlen)
    requires bd < cfg.bits * cfg.nlen
    requires 0 <= Value(b[..], cfg.Radix()) < 2 * (Value(m[..], cfg.Radix()) * Pow(2, bd))
    requires Value(b[..], cfg.Radix()) < 2 * Pow(cfg.Radix(), b.Length)
    modifies a, b
    ensures Normal(a[..], cfg.Radix())
    ensures Value(a[..], cfg.Radix()) == old(Value(b[..], cfg.Radix())) / Value(m[..], cfg.Radix())
  {
    hide Val, Pow, LowNormal, Lazy, LazyLimbs, FitsShifted, Normal;
    ghost var M, R := Value(m[..], cfg.Radix()), cfg.Radix();
    NormalBounds(m[..], R);
    PowMonotone(R, cfg.nlen, 2 * cfg.nlen);
    hide Reducible;
    var c := new int[2 * cfg.nlen];
    DsCopy(cfg, c, m);
    DoubleLimit(cfg, bd);
    Prepare(cfg, b, c, bd, true);
    SetZero(cfg, a);
    var e := new int[cfg.nlen];
    PowerOfTwo(cfg, e, bd);
    DivideLoop(cfg, a, e, b, c, bd, true, M);
  }

  // ---------------------------------------------------------------- choosing the bit difference

  /** The difference of bit lengths meets the precondition of the loops, whatever the numbers. */
  lemma BitDifference(cfg: Config, b: int, nb: int, m: int, nm: int, n: nat)
    requires cfg.Valid() && IsBits(b, nb) && IsBits(m, nm) && m > 0 && b < Pow(cfg.Radix(), n)
      && m < Pow(cfg.Radix(), n)
    ensures var k := if nb - nm < 0 then 0 else nb - nm;
            FitsShifted(cfg, m, k, n) && 0 <= b < 2 * (m * Pow(2, k))
  {
    assert nm > 0 by { assert Pow(2, 0) == 1; }
    PowMul(2, cfg.bits, n);
    PowPositive(2, nm - 1);
    assert Pow(2, nm) == 2 * Pow(2, nm - 1);
    if nb >= nm {
      var k: nat := nb - nm;
      PowPositive(2, k);
      PowAdd(2, nm - 1, k);
      PowAdd(2, nm, k);
      assert Pow(2, nb) == 2 * Pow(2, nb - 1) by { assert nb > 0; }
      MulMono(Pow(2, nm - 1), m, Pow(2, k));
      MulStrict(m, Pow(2, nm), Pow(2, k));
      if nb > cfg.bits * n {
        PowMonotone(2, cfg.bits * n, nb - 1);
      }
      PowMonotone(2, nb, cfg.bits * n);
    } else {
      PowMonotone(2, nb, nm - 1);
      assert Pow(2, 0) == 1;
    }
  }

  /** BIG_mod */
  method Mod(cfg: Config, b: array<int>, m: array<int>)
    requires Spare(cfg) && b.Length == m.Length == cfg.nlen && b != m && Lazy(cfg, b[..]) && Normal(m[..], cfg.Radix())
    requires 0 < Value(m[..], cfg.Radix()) && 0 <= Value(b[..], cfg.Radix()) < Pow(cfg.Radix(), cfg.nlen)
    modifies b
    ensures Normal(b[..], cfg.Radix())
    ensures Value(b[..], cfg.Radix()) == old(Value(b[..], cfg.Radix())) % Value(m[..], cfg.Radix())
  {
    NormalIsLazy(cfg, m[..]);
    NormalBounds(m[..], cfg.Radix());
    var nb := NBits(cfg, b);
    var nm := NBits(cfg, m);
    BitDifference(cfg, Value(b[..], cfg.Radix()), nb, Value(m[..], cfg.Radix()), nm, cfg.nlen);
    var k := nb - nm;
    if k < 0 { k := 0; }
    CtMod(cfg, b, m, k);
  }

  lemma NormalIsLazy(cfg: Config, s: seq<int>)
    requires cfg.Valid() && Normal(s, cfg.Radix())
    ensures Lazy(cfg, s)
  {
    MulMono(1, cfg.Nexcess(), cfg.Radix() - 1);
  }

  /** BIG_sdiv */
  method SDiv(cfg: Config, b: array<int>, m: array<int>)
    requires Spare(cfg) && b.Length == m.Length == cfg.nlen && b != m && Lazy(cfg, b[..]) && Normal(m[..], cfg.Radix())
    requires 0 < Value(m[..], cfg.Radix()) && 0 <= Value(b[..], cfg.Radix()) < Pow(cfg.Radix(), cfg.nlen)
    modifies b
    ensures Normal(b[..], cfg.Radix())
    ensures Value(b[..], cfg.Radix()) == old(Value(b[..], cfg.Radix())) / Value(m[..], cfg.Radix())
  {
    NormalIsLazy(cfg, m[..]);
    NormalBounds(m[..], cfg.Radix());
    var nb := NBits(cfg, b);
    var nm := NBits(cfg, m);
    BitDifference(cfg, Value(b[..], cfg.Radix()), nb, Value(m[..], cfg.Radix()), nm, cfg.nlen);
    var k := nb - nm;
    if k < 0 { k := 0; }
    CtSDiv(cfg, b, m, k);
  }

  /** The shift that BIG_dmod and BIG_ddiv choose: the difference of the bit lengths, if positive. */
  function Difference(nb: nat, nm: nat): nat {
    if nb < nm then 0 else nb - nm
  }

  /** BIG_dmod shifts the modulus left by that difference with BIG_dshl.  Both limbs that it reads for the
      top word exist if and only if the bit lengths differ by less than BASEBITS*(2*NLEN-1). */
  lemma DModInRange(cfg: Config, nb: nat, nm: nat)
    requires cfg.Valid()
    ensures 2 * cfg.nlen - Whole(cfg, Difference(nb, nm)) - 2 >= 0 <==> nb - nm < cfg.bits * (2 * cfg.nlen - 1)
  {
    DoubleShiftInRange(cfg, Difference(nb, nm));
    MulStrict(0, 2 * cfg.nlen - 1, cfg.bits);
    assert (2 * cfg.nlen - 1) * cfg.bits == cfg.bits * (2 * cfg.nlen - 1);
  }

  /** They do not for the largest double number and a modulus of one: limb -1 is read. */
  lemma DModOutOfRange(cfg: Config)
    requires cfg.Valid()
    ensures var b, w := Pow(cfg.Radix(), 2 * cfg.nlen) - 1, cfg.bits * (2 * cfg.nlen);
            && w > 0 && IsBits(b, w) && IsBits(1, 1) && 2 * cfg.nlen - Whole(cfg, Difference(w, 1)) - 2 == -1
  {
    var n, w := 2 * cfg.nlen, cfg.bits * (2 * cfg.nlen);
    PowMul(2, cfg.bits, n);
    MulStrict(0, n, cfg.bits);
    assert n * cfg.bits == w;
    PowPositive(2, w - 1);
    assert Pow(2, w) == 2 * Pow(2, w - 1) && Pow(2, 1) == 2 * Pow(2, 0);
    MulDist(n, 1, cfg.bits);
    DivModUnique(w - 1, cfg.bits, n - 1, cfg.bits - 1);
  }

  /** BIG_dmod, within the condition of DModInRange. */
  method DMod(cfg: Config, a: array<int>, b: array<int>, m: array<int>)
    requires Spare(cfg) && a.Length == m.Length == cfg.nlen && b.Length == 2 * cfg.nlen && a != b && a != m && b != m
    requires Lazy(cfg, b[..]) && Normal(m[..], cfg.Radix())
    requires 0 < Value(m[..], cfg.Radix()) && 0 <= Value(b[..], cfg.Radix()) < Pow(cfg.Radix(), 2 * cfg.nlen)
    requires forall nb, nm :: IsBits(Value(b[..], cfg.Radix()), nb) && IsBits(Value(m[..], cfg.Radix()), nm) ==>
               nb - nm < cfg.bits * (2 * cfg.nlen - 1)
    modifies a, b
    ensures Normal(a[..], cfg.Radix())
    ensures Value(a[..], cfg.Radix()) == old(Value(b[..], cfg.Radix())) % Value(m[..], cfg.Radix())
  {
    NormalIsLazy(cfg, m[..]);
    NormalBounds(m[..], cfg.Radix());
    PowMonotone(cfg.Radix(), cfg.nlen, 2 * cfg.nlen);
    var nb := NBits(cfg, b);
    var nm := NBits(cfg, m);
    BitDifference(cfg, Value(b[..], cfg.Radix()), nb, Value(m[..], cfg.Radix()), nm, 2 * cfg.nlen);
    MulStrict(0, 2 * cfg.nlen - 1, cfg.bits);
    var k := nb - nm;
    if k < 0 { k := 0; }
    CtDMod(cfg, a, b, m, k);
  }

  /** BIG_ddiv shifts a one left by that difference inside a NLEN-limb number.  The limb that receives
      it exists if and only if the bit lengths differ by less than BASEBITS*NLEN. */
  lemma DDivInRange(cfg: Config, nb: nat, nm: nat)
    requires cfg.Valid()
    ensures Whole(cfg, Difference(nb, nm)) < cfg.nlen <==> nb - nm < cfg.bits * cfg.nlen
  {
    LimbsMoved(cfg, Difference(nb, nm), cfg.nlen);
    MulStrict(0, cfg.nlen, cfg.bits);
  }

  /** It can be missing although the quotient is a NLEN-limb number: 2^(BASEBITS*NLEN+1) divided by 3. */
  lemma DDivOutOfRange(cfg: Config)
    requires cfg.Valid()
    ensures var b, w := 2 * Pow(cfg.Radix(), cfg.nlen), cfg.bits * cfg.nlen;
            && w > 0 && IsBits(b, w + 2) && IsBits(3, 2) && b < Pow(cfg.Radix(), 2 * cfg.nlen)
            && b / 3 < Pow(cfg.Radix(), cfg.nlen) && Whole(cfg, Difference(w + 2, 2)) == cfg.nlen
  {
    var w, p := cfg.bits * cfg.nlen, Pow(cfg.Radix(), cfg.nlen);
    PowMul(2, cfg.bits, cfg.nlen);
    MulStrict(0, cfg.bits, cfg.nlen);
    assert Pow(2, w + 1) == 2 * p && Pow(2, w + 2) == 2 * Pow(2, w + 1);
    assert Pow(2, 2) == 2 * Pow(2, 1) && Pow(2, 1) == 2 * Pow(2, 0);
    PowAdd(cfg.Radix(), cfg.nlen, cfg.nlen);
    PowMonotone(2, 2, w);
    MulMono(4, p, p);
    DivModUnique(w, cfg.bits, cfg.nlen, 0);
  }

  /** BIG_ddiv, within the condition of DDivInRange. */
  method DDiv(cfg: Config, a: array<int>, b: array<int>, m: array<int>)
    requires Spare(cfg) && a.Length == m.Length == cfg.nlen && b.Length == 2 * cfg.nlen && a != b && a != m && b != m
    requires Lazy(cfg, b[..]) && Normal(m[..], cfg.Radix())
    requires 0 < Value(m[..], cfg.Radix()) && 0 <= Value(b[..], cfg.Radix()) < Pow(cfg.Radix(), 2 * cfg.nlen)
    requires forall nb, nm :: IsBits(Value(b[..], cfg.Radix()), nb) && IsBits(Value(m[..], cfg.Radix()), nm) ==>
      nb - nm < cfg.bits * cfg.nlen
    modifies a, b
    ensures Normal(a[..], cfg.Radix())
    ensures Value(a[..], cfg.Radix()) == old(Value(b[..], cfg.Radix())) / Value(m[..], cfg.Radix())
  {
    NormalIsLazy(cfg, m[..]);
    NormalBounds(m[..], cfg.Radix());
    PowMonotone(cfg.Radix(), cfg.nlen, 2 * cfg.nlen);
    var nb := NBits(cfg, b);
    var nm := NBits(cfg, m);
    BitDifference(cfg, Value(b[..], cfg.Radix()), nb, Value(m[..], cfg.Radix()), nm, 2 * cfg.nlen);
    MulStrict(0, cfg.bits, cfg.nlen);
    var k := nb - nm;
    if k < 0 { k := 0; }
    CtDDiv(cfg, a, b, m, k);
  }

  /** A quotient below half the range of an n-limb number is enough for a difference below n limbs: with
      n = NLEN for BIG_ddiv, and with n = 2*NLEN-1 for BIG_dmod. */
  lemma QuotientBits(cfg: Config, b: int, nb: int, m: int, nm: int, n: nat)
    requires cfg.Valid() && n >= 1 && IsBits(b, nb) && IsBits(m, nm) && m > 0 && 2 * b < m * Pow(cfg.Radix(), n)
    ensures nb - nm < cfg.bits * n
  {
    var w := cfg.bits * n;
    MulStrict(0, cfg.bits, n);
    PowMul(2, cfg.bits, n);
    assert nm > 0 by { assert Pow(2, 0) == 1; }
    assert nb > 0 ==> Pow(2, nb) == 2 * Pow(2, nb - 1);
    if nb - nm >= w {
      PowPositive(2, w);
      MulMono(m, Pow(2, nm), Pow(2, w));
      PowAdd(2, nm, w);
      PowMonotone(2, nm + w, nb);
    }
  }
}
