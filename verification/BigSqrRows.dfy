/** The fallback of BIG_sqr, by rows of muladd: half of the cross products, doubled, plus the squares. */
module BigSqrRows {
  import opened Arith
  import opened Words
  import opened Limbs
  import opened Columns
  import opened BigNorm
  import opened BigRows

  /** The sum of a[r]*R^r times everything above it in a, for r < i: every cross product once. */
  function Above(a: seq<int>, i: nat, R: int): int
    requires i <= |a|
  {
    if i == 0 then 0 else Above(a, i - 1, R) + (a[i - 1] * (Value(a, R) - Val(a, i, R))) * Pow(R, i - 1)
  }

  /** The sum of the squares a[r]*a[r] at column 2r, for r < i. */
  function Squares(a: seq<int>, i: nat, R: int): int
    requires i <= |a|
  {
    if i == 0 then 0 else Squares(a, i - 1, R) + (a[i - 1] * a[i - 1]) * Pow(R, 2 * (i - 1))
  }

  /** Twice the cross products and the squares make up the square. */
  lemma {:induction false} SquareOfSum(a: seq<int>, i: nat, R: int)
    requires i <= |a|
    ensures var v, h := Value(a, R), Value(a, R) - Val(a, i, R);
            2 * Above(a, i, R) + Squares(a, i, R) == v * v - h * h
    decreases i
  {
    if i > 0 {
      SquareOfSum(a, i - 1, R);
      var x, p := a[i - 1], Pow(R, i - 1);
      var h, h' := Value(a, R) - Val(a, i - 1, R), Value(a, R) - Val(a, i, R);
      assert h == h' + x * p;
      PowAdd(R, i - 1, i - 1);
      hide *;
      SquareStep(h', x, p);
    }
  }

  lemma SquareStep(h: int, x: int, p: int)
    ensures (h + x * p) * (h + x * p) == h * h + 2 * ((x * h) * p) + (x * x) * (p * p)
  {
    var t := x * p;
    MulDist(h, t, h + t);
    MulDist(h, t, h);
    MulDist(h, t, t);
    assert h * t == (x * h) * p by { MulAssoc(h, x, p); assert h * x == x * h; }
    FourFactors(x, p, x, p);
  }

  lemma SquareIsWhole(a: seq<int>, R: int)
    ensures 2 * Above(a, |a|, R) + Squares(a, |a|, R) == Value(a, R) * Value(a, R)
  {
    SquareOfSum(a, |a|, R);
  }

  /** Everything row i keeps: digits everywhere, and zeros above the last limb it may reach. */
  ghost predicate Rows(cfg: Config, c: seq<int>, i: nat)
    requires cfg.Valid()
  {
    && |c| == 2 * cfg.nlen && i <= cfg.nlen && Normal(c, cfg.Radix())
    && forall j :: cfg.nlen + i <= j < |c| ==> c[j] == 0
  }

  lemma RowStepAbove(before: seq<int>, after: seq<int>, C: seq<int>, B: seq<int>, i: nat, j: nat, x: int, c: int,
      top: int, R: int)
    requires |before| == |after| == |C| && i + j < |C| && i < j < |B|
    requires after == before[i + j := after[i + j]] && before[i + j] == C[i + j]
    requires Val(before, i + j, R) + c * Pow(R, i + j)
      == Val(C, i + j, R) + (x * (Val(B, j, R) - Val(B, i + 1, R))) * Pow(R, i)
    requires x * B[j] + c + C[i + j] == top * R + after[i + j]
    ensures Val(after, i + j + 1, R) + top * Pow(R, i + j + 1)
         == Val(C, i + j + 1, R) + (x * (Val(B, j + 1, R) - Val(B, i + 1, R))) * Pow(R, i)
  {
    ValFrame(before, after, i + j, R);
    PowAdd(R, i, j);
    RowStep(Val(before, i + j, R), Val(after, i + j + 1, R), Val(C, i + j, R), c, C[i + j], after[i + j], top,
            x, B[j], Val(B, j, R) - Val(B, i + 1, R), Pow(R, i), Pow(R, j), R);
  }

  /** carry = 0; for (j = i+1; j < NLEN; j++) carry = muladd(a[i], a[j], carry, &c[i+j]); c[NLEN+i] = carry */
  method CrossRow(cfg: Config, wide: bool, c: array<int>, a: array<int>, i: nat)
    requires MuladdReady(cfg, wide) && c != a && a.Length == cfg.nlen && Normal(a[..], cfg.Radix())
    requires i < cfg.nlen && Rows(cfg, c[..], i)
    modifies c
    ensures Rows(cfg, c[..], i + 1)
    ensures Value(c[..], cfg.Radix()) == old(Value(c[..], cfg.Radix()))
              + (a[i] * (Value(a[..], cfg.Radix()) - Val(a[..], i + 1, cfg.Radix()))) * Pow(cfg.Radix(), i)
  {
    var n := cfg.nlen;
    ghost var R, C, B := cfg.Radix(), c[..], a[..];
    var carry := 0;
    var j := i + 1;
    assert (a[i] * (Val(B, i + 1, R) - Val(B, i + 1, R))) * Pow(R, i) == 0;
    hide Pow, Val, Config.Radix, Value;
    assert Crossing(C, B, c[..], i, j, carry, R);
    while j < n
      invariant i < j <= n && Crossing(C, B, c[..], i, j, carry, R)
      modifies c
    {
      carry := CrossLimb(cfg, wide, c, a, i, j, C, carry);
      j := j + 1;
    }
    ghost var before := c[..];
    c[n + i] := carry;
    LastLimb(before, c[..], C, n + i, carry, R);
  }

  /** Row i up to limb j of a: C was there before. */
  ghost predicate Crossing(C: seq<int>, B: seq<int>, c: seq<int>, i: nat, j: nat, carry: int, R: int)
    requires i < j <= |B| && i + j <= |C|
  {
    && |c| == |C| && (forall l :: 0 <= l < |c| && i + j <= l ==> c[l] == C[l])
    && Normal(c, R) && 0 <= carry < R
    && Val(c, i + j, R) + carry * Pow(R, i + j) == Val(C, i + j, R)
      + (B[i] * (Val(B, j, R) - Val(B, i + 1, R))) * Pow(R, i)
  }

  /** carry = muladd(a[i], a[j], carry, &c[i+j]) */
  method CrossLimb(cfg: Config, wide: bool, c: array<int>, a: array<int>, i: nat, j: nat, ghost C: seq<int>,
      carry0: int) returns (carry: int)
    requires MuladdReady(cfg, wide) && c != a && a.Length == cfg.nlen && c.Length == |C| == 2 * cfg.nlen
      && Normal(a[..], cfg.Radix())
    requires i < j < cfg.nlen && Crossing(C, a[..], c[..], i, j, carry0, cfg.Radix())
    modifies c
    ensures Crossing(C, a[..], c[..], i, j + 1, carry, cfg.Radix())
  {
    ghost var before, B, R := c[..], a[..], cfg.Radix();
    hide Pow, Val, Config.Radix, Value;
    carry := Muladd(cfg, wide, a[i], a[j], carry0, c, i + j);
    MuladdTop(B[i], B[j], carry0, C[i + j], carry, c[i + j], R);
    RowStepAbove(before, c[..], C, B, i, j, B[i], carry0, carry, R);
  }

  lemma LastLimb(before: seq<int>, after: seq<int>, C: seq<int>, k: nat, carry: int, R: int)
    requires |before| == |after| == |C| && k < |C| && after == before[k := carry]
    requires forall j :: k <= j < |C| ==> before[j] == C[j] == 0
    ensures Value(after, R) == Val(before, k, R) + carry * Pow(R, k) && Value(C, R) == Val(C, k, R)
  {
    hide *;
    HighLimb(after, k, R);
    ZeroAbove(C, k, R);
    ValFrame(before, after, k, R);
  }

  lemma HighLimb(s: seq<int>, k: nat, R: int)
    requires k < |s| && forall j :: k < j < |s| ==> s[j] == 0
    ensures Value(s, R) == Val(s, k, R) + s[k] * Pow(R, k)
  {
    ValHighZero(s, k + 1, |s|, R);
  }

  lemma ZeroAbove(s: seq<int>, k: nat, R: int)
    requires k <= |s| && forall j :: k <= j < |s| ==> s[j] == 0
    ensures Value(s, R) == Val(s, k, R)
  {
    ValHighZero(s, k, |s|, R);
  }

  /** for (i = 0; i < DNLEN; i++) c[i] *= 2 */
  method Double(cfg: Config, c: array<int>)
    requires MuladdReady(cfg, true) && Normal(c[..], cfg.Radix())
    modifies c
    ensures forall j :: 0 <= j < c.Length ==> c[j] == 2 * old(c[j])
    ensures Value(c[..], cfg.Radix()) == 2 * old(Value(c[..], cfg.Radix()))
  {
    SpareHalf(cfg);
    ghost var C := c[..];
    var i := 0;
    while i < c.Length
      invariant 0 <= i <= c.Length
      invariant forall j :: 0 <= j < c.Length ==> c[j] == if j < i then 2 * C[j] else C[j]
    {
      c[i] := cfg.Word(c[i] * 2);
      i := i + 1;
    }
    ValScale(c[..], C, 2, |C|, cfg.Radix());
  }

  /** Limbs of the doubled cross products, those below 2i with the squares added. */
  ghost predicate Squaring(cfg: Config, c: seq<int>, i: nat)
    requires cfg.Valid()
  {
    && |c| == 2 * cfg.nlen && i <= cfg.nlen
    && (forall j :: 2 * i <= j < |c| ==> 0 <= c[j] < 2 * cfg.Radix() - 1)
    && (forall j :: 0 <= j < |c| ==> 0 <= c[j] < 3 * cfg.Radix())
  }

  /** c[2i+1] += muladd(a[i], a[i], 0, &c[2i]) */
  method AddSquare(cfg: Config, wide: bool, c: array<int>, a: array<int>, i: nat)
    requires MuladdReady(cfg, wide) && c != a && a.Length == cfg.nlen && Normal(a[..], cfg.Radix())
    requires i < cfg.nlen && Squaring(cfg, c[..], i)
    modifies c
    ensures Squaring(cfg, c[..], i + 1)
    ensures Value(c[..], cfg.Radix()) == old(Value(c[..], cfg.Radix())) + (a[i] * a[i]) * Pow(cfg.Radix(), 2 * i)
  {
    ghost var R, s, x := cfg.Radix(), c[..], a[i];
    hide Pow, Val, Value, Config.Radix;
    var top := Muladd(cfg, wide, a[i], a[i], 0, c, 2 * i);
    SpareHalf(cfg);
    MuladdTop(x, x, 0, s[2 * i], top, c[2 * i], R);
    ghost var t := c[..];
    assert t == s[2 * i := t[2 * i]];
    c[2 * i + 1] := cfg.Word(c[2 * i + 1] + top);
    assert c[..] == t[2 * i + 1 := t[2 * i + 1] + top];
    SquareAdded(s, t, c[..], 2 * i, x, top, R);
  }

  lemma SquareAdded(s: seq<int>, t: seq<int>, u: seq<int>, k: nat, x: int, top: int, R: int)
    requires |s| == |t| == |u| && k + 1 < |s| && t == s[k := t[k]] && u == t[k + 1 := t[k + 1] + top]
    requires x * x + 0 + s[k] == top * R + t[k]
    ensures Value(u, R) == Value(s, R) + (x * x) * Pow(R, k)
  {
    var p := Pow(R, k);
    assert Pow(R, k + 1) == R * p;
    ValUpdate(s, k, t[k], |s|, R);
    ValUpdate(t, k + 1, t[k + 1] + top, |s|, R);
    hide *;
    MulAssoc(top, R, p);
    MulDist(t[k] - s[k], top * R, p);
  }

  lemma SquaringIsLazy(cfg: Config, s: seq<int>, i: nat)
    requires MuladdReady(cfg, true) && Squaring(cfg, s, i)
    ensures Lazy(cfg, s) && LazyLimbs(cfg, s, |s| - 1)
  {
    var R, e := cfg.Radix(), cfg.Nexcess();
    cfg.HalfIsExcess();
    SpareHalf(cfg);
    assert Pow(2, 2) == 2 * Pow(2, 1) && Pow(2, 1) == 2 * Pow(2, 0);
    PowMonotone(2, 2, cfg.bits);
    PowMonotone(2, 2, cfg.chunk - cfg.bits - 1);
    MulMono(4, e, R - 1);
  }

  method CrossRows(cfg: Config, wide: bool, c: array<int>, a: array<int>)
    requires MuladdReady(cfg, wide) && a.Length == cfg.nlen && c.Length == 2 * cfg.nlen && c != a
    requires Normal(a[..], cfg.Radix()) && Rows(cfg, c[..], 0) && Value(c[..], cfg.Radix()) == 0
    modifies c
    ensures Normal(c[..], cfg.Radix()) && Value(c[..], cfg.Radix()) == Above(a[..], cfg.nlen, cfg.Radix())
  {
    hide Pow, Val, Value, Config.Radix;
    var i := 0;
    while i < cfg.nlen
      invariant 0 <= i <= cfg.nlen && Rows(cfg, c[..], i)
      invariant Value(c[..], cfg.Radix()) == Above(a[..], i, cfg.Radix())
      modifies c
    {
      CrossRow(cfg, wide, c, a, i);
      i := i + 1;
    }
  }

  method SquareRows(cfg: Config, wide: bool, c: array<int>, a: array<int>)
    requires MuladdReady(cfg, wide) && a.Length == cfg.nlen && c.Length == 2 * cfg.nlen && c != a
    requires Normal(a[..], cfg.Radix()) && Squaring(cfg, c[..], 0)
    modifies c
    ensures Squaring(cfg, c[..], cfg.nlen)
    ensures Value(c[..], cfg.Radix()) == old(Value(c[..], cfg.Radix())) + Squares(a[..], cfg.nlen, cfg.Radix())
  {
    hide Pow, Val, Value, Config.Radix;
    ghost var v := Value(c[..], cfg.Radix());
    var i := 0;
    while i < cfg.nlen
      invariant 0 <= i <= cfg.nlen && Squaring(cfg, c[..], i)
      invariant Value(c[..], cfg.Radix()) == v + Squares(a[..], i, cfg.Radix())
      modifies c
    {
      AddSquare(cfg, wide, c, a, i);
      i := i + 1;
    }
  }

  /** BIG_sqr by rows: the same limbs as multiplying a by itself. */
  method SqrRows(cfg: Config, wide: bool, c: array<int>, a: array<int>)
    requires MuladdReady(cfg, wide) && a.Length == cfg.nlen && c.Length == 2 * cfg.nlen && c != a
    requires Normal(a[..], cfg.Radix())
    modifies c
    ensures c[..] == Product(a[..], a[..], cfg.Radix())
  {
    ghost var R, A := cfg.Radix(), a[..];
    Zero(c);
    ValZero(c[..], |c[..]|, R);
    CrossRows(cfg, wide, c, a);
    Double(cfg, c);
    SquareRows(cfg, wide, c, a);
    SquareIsWhole(A, R);
    SquaringIsLazy(cfg, c[..], cfg.nlen);
    NormValue(cfg, c[..]);
    Norm(cfg, c);
    assert Value(c[..], R) == Value(A, R) * Value(A, R);
    ProductUnique(A, A, c[..], R);
  }
}
