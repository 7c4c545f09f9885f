/** BIG_invmodp: binary inversion modulo an odd p. */
module BigInverse {
  import opened Arith
  import opened Words
  import opened Limbs
  import opened BigNorm
  import opened BigShift
  import opened BigBits
  import opened BigMul
  import opened BigDivide
  import opened BigModular

  // ---------------------------------------------------------------- the arithmetic of one step

  /** x/2 modulo an odd p. */
  function HalfMod(x: int, p: int): int {
    if x % 2 == 1 then (x + p) / 2 else x / 2
  }

  /** (x-y) modulo p, for residues. */
  function SubMod(x: int, y: int, p: int): int {
    if x < y then x + p - y else x - y
  }

  /** What the loops keep: x1 and x2 are the multipliers that take a to u and v. */
  ghost predicate Inverting(a: int, p: int, u: int, v: int, x1: int, x2: int) {
    && p > 1 && p % 2 == 1 && 1 <= u <= p && 1 <= v <= p
    && 0 <= x1 < p && 0 <= x2 < p
    && Cong(a * x1, u, p) && Cong(a * x2, v, p)
    && Coprime(u, v)
  }

  lemma Swap(a: int, p: int, u: int, v: int, x1: int, x2: int)
    requires Inverting(a, p, u, v, x1, x2)
    ensures Inverting(a, p, v, u, x2, x1)
  {
    CoprimeSym(u, v);
  }

  /** Two is invertible modulo an odd number. */
  lemma CancelTwo(x: int, y: int, p: int)
    requires p > 0 && p % 2 == 1 && Cong(2 * x, 2 * y, p)
    ensures Cong(x, y, p)
  {
    var k := CongElim(2 * x, 2 * y, p);
    var h := p / 2;
    assert p == 2 * h + 1;
    assert k * p == 2 * (k * h) + k by {
      MulDist(2 * h, 1, k);
      MulAssoc(k, 2, h);
      MulAssoc(2, k, h);
    }
    var z := x - y - k * h;
    assert k == 2 * z;
    MulAssoc(2, z, p);
    CongIntro(x, y, z, p);
  }

  lemma HalfStep(a: int, p: int, u: int, v: int, x1: int, x2: int)
    requires Inverting(a, p, u, v, x1, x2) && u % 2 == 0
    ensures Inverting(a, p, u / 2, v, HalfMod(x1, p), x2)
    ensures v % 2 == 1
  {
    CoprimeOdd(u, v);
    CoprimeHalf(u, v);
    var y, e := HalfMod(x1, p), x1 % 2;
    HalfModTwice(x1, p);
    hide Coprime, HalfMod;
    HalfCong(a, p, u, x1, y, e);
  }

  lemma HalfModTwice(x: int, p: int)
    requires p % 2 == 1
    ensures 2 * HalfMod(x, p) == x + (x % 2) * p
  {
    var e := x % 2;
    if e == 1 {
      DivModUnique(x + p, 2, x / 2 + p / 2 + 1, 0);
    }
  }

  lemma HalfCong(a: int, p: int, u: int, x: int, y: int, e: int)
    requires p > 0 && p % 2 == 1 && u % 2 == 0 && Cong(a * x, u, p) && 2 * y == x + e * p
    ensures Cong(a * y, u / 2, p)
  {
    hide Cong;
    MulDist(x, e * p, a);
    MulAssoc(a, e, p);
    CongIntro(a * (2 * y), a * x, a * e, p);
    CongTrans(a * (2 * y), a * x, u, p);
    assert a * (2 * y) == 2 * (a * y) by { MulAssoc(a, 2, y); MulAssoc(2, a, y); assert a * 2 == 2 * a; }
    CancelTwo(a * y, u / 2, p);
  }

  lemma SubStep(a: int, p: int, u: int, v: int, x1: int, x2: int)
    requires Inverting(a, p, u, v, x1, x2) && u > v
    ensures Inverting(a, p, u - v, v, SubMod(x1, x2, p), x2)
  {
    CoprimeSub(u, v);
    var y := SubMod(x1, x2, p);
    var e := if x1 < x2 then 1 else 0;
    assert y == (x1 - x2) + e * p;
    CongAdd(a * x1, u, a * x2, v, p);
    MulDist(x1, x2, a);
    MulDist(x1 - x2, e * p, a);
    MulAssoc(a, e, p);
    CongIntro(a * y, a * (x1 - x2), a * e, p);
    CongTrans(a * y, a * (x1 - x2), u - v, p);
  }

  lemma OddDivisor(d: int, n: int)
    requires Divides(d, n) && n % 2 == 1
    ensures d % 2 == 1
  {
    var k, h, e := n / d, d / 2, d % 2;
    MulDist(h * 2, e, k);
    MulAssoc(k, h, 2);
    assert n == k * (h * 2 + e) == (k * h) * 2 + k * e;
  }

  lemma CoprimeHalf(u: int, v: int)
    requires Coprime(u, v) && u % 2 == 0
    ensures Coprime(u / 2, v)
  {
    forall d: int | d >= 2 && Divides(d, u / 2)
      ensures !Divides(d, v)
    {
      DividesMultiple(d, u / 2, 2);
    }
  }

  lemma CoprimeSub(u: int, v: int)
    requires Coprime(u, v)
    ensures Coprime(u - v, v)
  {
    forall d: int | d >= 2 && Divides(d, u - v)
      ensures !Divides(d, v)
    {
      if Divides(d, v) {
        DividesSum(d, u - v, v);
      }
    }
  }

  lemma CoprimeOdd(u: int, v: int)
    requires Coprime(u, v)
    ensures u % 2 == 1 || v % 2 == 1
  {
    if u % 2 == 0 {
      assert Divides(2, u);
    }
  }

  /** Coprime numbers are equal only when both are one. */
  lemma CoprimeEqual(u: int)
    requires Coprime(u, u) && u >= 1
    ensures u == 1
  {
    if u >= 2 {
      DivModUnique(u, u, 1, 0);
      assert Divides(u, u);
    }
  }

  /** A common divisor of a and p rules out an inverse, so the requirement on a cannot be relaxed. */
  lemma NoInverse(a: int, p: int, r: int)
    requires p > 1 && !Coprime(a, p)
    ensures !Cong(a * r, 1, p)
  {
    var d: int :| d >= 2 && Divides(d, a) && Divides(d, p);
    if Cong(a * r, 1, p) {
      var k := CongElim(a * r, 1, p);
      DividesMultiple(d, a, r);
      DividesMultiple(d, p, k);
      DividesSum(d, a * r, k * p);
      DivModUnique(1, d, 0, 1);
    }
  }

  // ---------------------------------------------------------------- the loops on u and v alone

  /** x without its factors of two. */
  function OddPart(x: nat): (o: nat)
    requires x >= 1
    ensures 1 <= o <= x && o % 2 == 1
  {
    if x % 2 == 0 then OddPart(x / 2) else x
  }

  /** u and v after one pass of the outer loop. */
  function PassOf(u: nat, v: nat): (nat, nat)
    requires u >= 1 && v >= 1
  {
    var x, y := OddPart(u), OddPart(v);
    if x >= y then (x - y, y) else (x, y - x)
  }

  /** Where the loops stand: at the test of the outer loop, in the inner loops over u and over v, at the
      comparison, or past the outer loop. */
  datatype Point = Test(u: nat, v: nat) | StripU(u: nat, v: nat) | StripV(u: nat, v: nat) | Compare(u: nat,
      v: nat) | Stop(u: nat, v: nat)

  /** One test, and what depends on it. */
  function Next(s: Point): Point {
    match s
    case Test(u, v) => if u == 1 || v == 1 then Stop(u, v) else StripU(u, v)
    case StripU(u, v) => if u % 2 == 0 then StripU(u / 2, v) else StripV(u, v)
    case StripV(u, v) => if v % 2 == 0 then StripV(u, v / 2) else Compare(u, v)
    case Compare(u, v) => if u >= v then Test(u - v, v) else Test(u, v - u)
    case Stop(_, _) => s
  }

  function After(s: Point, n: nat): Point
    decreases n
  {
    if n == 0 then s else After(Next(s), n - 1)
  }

  ghost predicate Ends(s: Point) {
    exists n: nat :: After(s, n).Stop?
  }

  lemma EndsNext(s: Point)
    requires Ends(Next(s))
    ensures Ends(s)
  {
    var n: nat :| After(Next(s), n).Stop?;
    assert After(s, n + 1) == After(Next(s), n);
  }

  lemma {:induction false} EndsStripU(u: nat, v: nat)
    requires u >= 1 && Ends(StripV(OddPart(u), v))
    ensures Ends(StripU(u, v))
    decreases u
  {
    if u % 2 == 0 {
      EndsStripU(u / 2, v);
    }
    EndsNext(StripU(u, v));
  }

  lemma {:induction false} EndsStripV(u: nat, v: nat)
    requires v >= 1 && Ends(Compare(u, OddPart(v)))
    ensures Ends(StripV(u, v))
    decreases v
  {
    if v % 2 == 0 {
      EndsStripV(u, v / 2);
    }
    EndsNext(StripV(u, v));
  }

  /** A pass of the outer loop leads from test to test by PassOf. */
  lemma EndsPass(u: nat, v: nat)
    requires u > 1 && v > 1 && var (x, y) := PassOf(u, v); Ends(Test(x, y))
    ensures Ends(Test(u, v))
  {
    hide Ends;
    EndsNext(Compare(OddPart(u), OddPart(v)));
    EndsStripV(OddPart(u), v);
    EndsStripU(u, v);
    EndsNext(Test(u, v));
  }

  lemma {:induction false} OddPartCoprime(u: nat, v: int)
    requires u >= 1 && Coprime(u, v)
    ensures Coprime(OddPart(u), v)
    decreases u
  {
    if u % 2 == 0 {
      CoprimeHalf(u, v);
      OddPartCoprime(u / 2, v);
    }
  }

  /** Coprime numbers stay coprime and positive, and their sum decreases. */
  lemma PassCoprime(u: nat, v: nat)
    requires u > 1 && v > 1 && Coprime(u, v)
    ensures var (x, y) := PassOf(u, v); x >= 1 && y >= 1 && Coprime(x, y) && x + y < u + v
  {
    var x, y := OddPart(u), OddPart(v);
    OddPartCoprime(u, v);
    CoprimeSym(x, v);
    OddPartCoprime(v, x);
    CoprimeSym(y, x);
    hide OddPart;
    if x == y {
      CoprimeEqual(x);
      CoprimeOdd(u, v);
      OddOnly(u, v);
    } else if x > y {
      CoprimeSub(x, y);
    } else {
      CoprimeSub(y, x);
      CoprimeSym(y - x, x);
    }
  }

  lemma OddOnly(u: nat, v: nat)
    requires u > 1 && v > 1 && (u % 2 == 1 || v % 2 == 1)
    ensures !(OddPart(u) == 1 && OddPart(v) == 1)
  {
  }

  lemma {:induction false} CoprimeEnds(u: nat, v: nat)
    requires u >= 1 && v >= 1 && Coprime(u, v)
    ensures Ends(Test(u, v))
    decreases u + v
  {
    if u == 1 || v == 1 {
      assert After(Test(u, v), 1) == After(Stop(u, v), 0);
    } else {
      PassCoprime(u, v);
      var (x, y) := PassOf(u, v);
      CoprimeEnds(x, y);
      EndsPass(u, v);
    }
  }

  /** An odd common factor of u and v stays one, so that neither of them becomes one. */
  lemma {:induction false} CommonFactorStays(d: int, s: Point, n: nat)
    requires d >= 2 && d % 2 == 1 && Divides(d, s.u) && Divides(d, s.v) && !s.Stop?
    ensures !After(s, n).Stop? && Divides(d, After(s, n).u) && Divides(d, After(s, n).v)
    decreases n
  {
    if n > 0 {
      DivModUnique(1, d, 0, 1);
      FactorOfHalf(d, s.u);
      FactorOfHalf(d, s.v);
      DividesSum(d, s.u, s.v);
      DividesSum(d, s.v, s.u);
      CommonFactorStays(d, Next(s), n - 1);
    }
  }

  lemma FactorOfHalf(d: int, x: int)
    requires d > 0 && d % 2 == 1 && Divides(d, x)
    ensures x % 2 == 0 ==> Divides(d, x / 2)
  {
    if x % 2 == 0 {
      CancelTwo(x / 2, 0, d);
    }
  }

  /** The loops end exactly for the a that InvModP accepts: prime to p.  (BIG_invmodp returns before them
      for a multiple of p.) */
  lemma EndsIfCoprime(a: nat, p: nat)
    requires 1 <= a < p && p % 2 == 1
    ensures Ends(Test(a, p)) <==> Coprime(a, p)
  {
    if Coprime(a, p) {
      CoprimeEnds(a, p);
    } else {
      var d: int :| d >= 2 && Divides(d, a) && Divides(d, p);
      OddDivisor(d, p);
      forall n: nat ensures !After(Test(a, p), n).Stop? {
        CommonFactorStays(d, Test(a, p), n);
      }
    }
  }

  /** For one, the loops never end when 3 is to be inverted modulo 9. */
  lemma NeverEnds()
    ensures !Ends(Test(3, 9))
  {
    assert Divides(3, 3) && Divides(3, 9);
    EndsIfCoprime(3, 9);
  }

  // ---------------------------------------------------------------- the limb-level steps

  ghost predicate Residues(cfg: Config, x: array<int>, p: array<int>)
    reads x, p
  {
    && Spare(cfg) && x.Length == p.Length == cfg.nlen && x != p
    && Normal(x[..], cfg.Radix()) && Normal(p[..], cfg.Radix())
    && Value(x[..], cfg.Radix()) < Value(p[..], cfg.Radix())
  }

  /** x + p if d = 1, or x: at most twice the range. */
  lemma ChosenValue(cfg: Config, x: seq<int>, p: seq<int>, y: seq<int>, d: int)
    requires Spare(cfg) && |x| == |p| >= 2 && Normal(x, cfg.Radix()) && Normal(p, cfg.Radix()) && (d == 0 || d == 1)
    requires y == if d == 1 then AddLimbs(cfg, x, p) else x
    ensures Value(y, cfg.Radix()) == Value(x, cfg.Radix()) + d * Value(p, cfg.Radix())
    ensures forall j :: 0 <= j < |y| ==> 0 <= y[j] < 2 * cfg.Radix()
    ensures Lazy(cfg, y)
  {
    SpareRoom(cfg);
    hide MaxLimb, Val;
    AddValue(cfg, x, p);
  }

  /** add(t, x, p); cmove(x, t, parity(x)); norm(x); fshr(x, 1) */
  method HalveMod(cfg: Config, x: array<int>, p: array<int>, t: array<int>)
    requires Residues(cfg, x, p) && t.Length == cfg.nlen && t != x && t != p && Value(p[..], cfg.Radix()) % 2 == 1
    modifies x, t
    ensures Normal(x[..], cfg.Radix())
    ensures Value(x[..], cfg.Radix()) == HalfMod(old(Value(x[..], cfg.Radix())), Value(p[..], cfg.Radix()))
  {
    hide Val, Lazy, LazyLimbs, AddLimbs, NormLimbs, Pow, RightShift;
    ghost var X, P, R := x[..], p[..], cfg.Radix();
    NormalBounds(X, R);
    NormalBounds(P, R);
    Add(cfg, t, x, p);
    var par := Parity(cfg, x);
    CMove(x, t, par);
    ghost var Y := x[..];
    ChosenValue(cfg, X, P, Y, par);
    LazyLow(cfg, Y);
    NormValue(cfg, Y);
    Norm(cfg, x);
    SmallShift(cfg, 1);
    ShrValue(cfg, x[..], 1);
    PowTwoOne();
    var out := FShr(cfg, x, 1);
    NormalFromValue(x[..], R);
  }

  lemma PowTwoOne()
    ensures Pow(2, 1) == 2
  {
    assert Pow(2, 1) == 2 * Pow(2, 0);
  }

  /** add(t, x, p); cmove(x, t, x < y); sub(x, x, y); norm(x) */
  method SubtractMod(cfg: Config, x: array<int>, y: array<int>, p: array<int>, t: array<int>)
    requires Residues(cfg, x, p) && Residues(cfg, y, p) && x != y && t.Length == cfg.nlen && t != x && t != y && t != p
    modifies x, t
    ensures Normal(x[..], cfg.Radix())
    ensures Value(x[..], cfg.Radix())
         == SubMod(old(Value(x[..], cfg.Radix())), Value(y[..], cfg.Radix()), Value(p[..], cfg.Radix()))
  {
    hide Val, Lazy, LazyLimbs, AddLimbs, SubLimbs, NormLimbs, Pow;
    ghost var X, Y, P, R := x[..], y[..], p[..], cfg.Radix();
    NormalBounds(X, R);
    NormalBounds(Y, R);
    NormalBounds(P, R);
    Add(cfg, t, x, p);
    var cmp := Comp(cfg, x, y);
    var d := (cmp / 2) % 2;
    CMove(x, t, d);
    ghost var Z := x[..];
    ChosenValue(cfg, X, P, Z, d);
    LazyDifference(cfg, Z, Y);
    Sub(cfg, x, x, y);
    LazyLow(cfg, x[..]);
    Norm(cfg, x);
    NormalFromValue(x[..], R);
  }

  lemma LazyDifference(cfg: Config, z: seq<int>, y: seq<int>)
    requires Spare(cfg) && |z| == |y| >= 2 && Normal(y, cfg.Radix())
    requires forall j :: 0 <= j < |z| ==> 0 <= z[j] < 2 * cfg.Radix()
    ensures Lazy(cfg, SubLimbs(cfg, z, y))
    ensures LowNormal(NormLimbs(cfg, SubLimbs(cfg, z, y)), cfg.Radix())
    ensures Value(NormLimbs(cfg, SubLimbs(cfg, z, y)), cfg.Radix()) == Value(z, cfg.Radix()) - Value(y, cfg.Radix())
  {
    SpareRoom(cfg);
    hide MaxLimb, Val;
    SubValue(cfg, z, y);
    NormValue(cfg, SubLimbs(cfg, z, y));
  }

  /** sub(u, u, v); norm(u) for u >= v. */
  method SubtractFrom(cfg: Config, u: array<int>, v: array<int>)
    requires Spare(cfg) && u.Length == v.Length >= 2 && u != v && Normal(u[..], cfg.Radix())
      && Normal(v[..], cfg.Radix())
    requires Value(u[..], cfg.Radix()) >= Value(v[..], cfg.Radix())
    modifies u
    ensures Normal(u[..], cfg.Radix())
    ensures Value(u[..], cfg.Radix()) == old(Value(u[..], cfg.Radix())) - Value(v[..], cfg.Radix())
  {
    hide Val, Lazy, LazyLimbs, SubLimbs, NormLimbs, Pow;
    ghost var U, V, R := u[..], v[..], cfg.Radix();
    NormalBounds(U, R);
    NormalBounds(V, R);
    LazyDifference(cfg, U, V);
    Sub(cfg, u, u, v);
    LazyLow(cfg, u[..]);
    Norm(cfg, u);
    NormalFromValue(u[..], R);
  }

  // ---------------------------------------------------------------- the loops

  /** The arrays u, v, x1, x2 and p hold a state of the inversion of a. */
  ghost predicate State(cfg: Config, a: int, u: array<int>, v: array<int>, x1: array<int>, x2: array<int>,
      p: array<int>)
    reads u, v, x1, x2, p
  {
    && Spare(cfg) && u.Length == v.Length == x1.Length == x2.Length == p.Length == cfg.nlen
    && Normal(u[..], cfg.Radix()) && Normal(v[..], cfg.Radix()) && Normal(x1[..], cfg.Radix())
      && Normal(x2[..], cfg.Radix())
    && Normal(p[..], cfg.Radix())
    && Inverting(a, Value(p[..], cfg.Radix()), Value(u[..], cfg.Radix()), Value(v[..], cfg.Radix()),
      Value(x1[..], cfg.Radix()), Value(x2[..], cfg.Radix()))
  }

  ghost predicate Distinct(u: array<int>, v: array<int>, x1: array<int>, x2: array<int>, p: array<int>, t: array<int>) {
    && u != v && u != x1 && u != x2 && u != p && u != t
    && v != x1 && v != x2 && v != p && v != t
    && x1 != x2 && x1 != p && x1 != t && x2 != p && x2 != t && p != t
  }

  /** while (parity(u) == 0) { fshr(u, 1); x1 = x1/2 mod p } */
  method StripTwos(cfg: Config, ghost a: int, u: array<int>, v: array<int>, x1: array<int>, x2: array<int>,
      p: array<int>, t: array<int>)
    requires State(cfg, a, u, v, x1, x2, p) && Distinct(u, v, x1, x2, p, t) && t.Length == cfg.nlen
    modifies u, x1, t
    ensures State(cfg, a, u, v, x1, x2, p)
    ensures old(Value(u[..], cfg.Radix())) >= 1 && Value(u[..], cfg.Radix()) == OddPart(old(Value(u[..], cfg.Radix())))
  {
    hide Val, Inverting, HalfMod, Normal;
    ghost var R := cfg.Radix();
    ghost var u0 := Value(u[..], R);
    InvertingRanges(a, Value(p[..], R), u0, Value(v[..], R), Value(x1[..], R), Value(x2[..], R));
    var par := ParityOfNormal(cfg, u);
    while par == 0
      invariant State(cfg, a, u, v, x1, x2, p)
      invariant par == Value(u[..], R) % 2
      invariant Value(u[..], R) >= 1 && OddPart(Value(u[..], R)) == OddPart(u0)
      decreases Value(u[..], R)
      modifies u, x1, t
    {
      ghost var U, X := Value(u[..], R), Value(x1[..], R);
      HalfStep(a, Value(p[..], R), U, Value(v[..], R), X, Value(x2[..], R));
      InvertingRanges(a, Value(p[..], R), U, Value(v[..], R), X, Value(x2[..], R));
      NormalIsReducible(cfg, u[..]);
      Halve(cfg, u, false);
      HalveMod(cfg, x1, p, t);
      par := ParityOfNormal(cfg, u);
    }
  }

  method ParityOfNormal(cfg: Config, u: array<int>) returns (b: int)
    requires cfg.Valid() && u.Length >= 1 && Normal(u[..], cfg.Radix())
    ensures b == Value(u[..], cfg.Radix()) % 2
  {
    b := Parity(cfg, u);
  }

  lemma InvertingRanges(a: int, p: int, u: int, v: int, x1: int, x2: int)
    requires Inverting(a, p, u, v, x1, x2)
    ensures p > 1 && p % 2 == 1 && 1 <= u && 1 <= v && 0 <= x1 < p && 0 <= x2 < p && Coprime(u, v)
  {
  }

  /** u -= v, x1 -= x2 mod p */
  method Reduce(cfg: Config, ghost a: int, u: array<int>, v: array<int>, x1: array<int>, x2: array<int>, p: array<int>,
      t: array<int>)
    requires State(cfg, a, u, v, x1, x2, p) && Distinct(u, v, x1, x2, p, t) && t.Length == cfg.nlen
    requires Value(u[..], cfg.Radix()) > Value(v[..], cfg.Radix())
    modifies u, x1, t
    ensures State(cfg, a, u, v, x1, x2, p)
    ensures Value(u[..], cfg.Radix()) == old(Value(u[..], cfg.Radix())) - Value(v[..], cfg.Radix())
  {
    hide Val, Inverting, SubMod, Normal;
    ghost var R := cfg.Radix();
    SubStep(a, Value(p[..], R), Value(u[..], R), Value(v[..], R), Value(x1[..], R), Value(x2[..], R));
    InvertingRanges(a, Value(p[..], R), Value(u[..], R), Value(v[..], R), Value(x1[..], R), Value(x2[..], R));
    SubtractFrom(cfg, u, v);
    SubtractMod(cfg, x1, x2, p, t);
  }

  /** One pass of the outer loop: u and v lose their factors of two, and the larger is reduced. */
  method Pass(cfg: Config, ghost a: int, u: array<int>, v: array<int>, x1: array<int>, x2: array<int>, p: array<int>,
      t: array<int>)
    requires State(cfg, a, u, v, x1, x2, p) && Distinct(u, v, x1, x2, p, t) && t.Length == cfg.nlen
    requires Value(u[..], cfg.Radix()) != 1 && Value(v[..], cfg.Radix()) != 1
    modifies u, v, x1, x2, t
    ensures State(cfg, a, u, v, x1, x2, p)
    ensures old(Value(u[..], cfg.Radix())) > 1 && old(Value(v[..], cfg.Radix())) > 1
    ensures (Value(u[..], cfg.Radix()), Value(v[..], cfg.Radix()))
         == PassOf(old(Value(u[..], cfg.Radix())), old(Value(v[..], cfg.Radix())))
    ensures Value(u[..], cfg.Radix()) + Value(v[..], cfg.Radix()) < old(Value(u[..], cfg.Radix()))
      + old(Value(v[..], cfg.Radix()))
  {
    hide Val, Inverting, Normal;
    ghost var R, P := cfg.Radix(), Value(p[..], cfg.Radix());
    ghost var u0, v0 := Value(u[..], R), Value(v[..], R);
    InvertingRanges(a, P, u0, v0, Value(x1[..], R), Value(x2[..], R));
    PassCoprime(u0, v0);
    hide OddPart, Coprime;
    StripTwos(cfg, a, u, v, x1, x2, p, t);
    ghost var U := Value(u[..], R);
    Swap(a, P, U, Value(v[..], R), Value(x1[..], R), Value(x2[..], R));
    StripTwos(cfg, a, v, u, x2, x1, p, t);
    Swap(a, P, Value(v[..], R), U, Value(x2[..], R), Value(x1[..], R));
    var cmp := Comp(cfg, u, v);
    if cmp >= 0 {
      Reduce(cfg, a, u, v, x1, x2, p, t);
    } else {
      Swap(a, P, U, Value(v[..], R), Value(x1[..], R), Value(x2[..], R));
      Reduce(cfg, a, v, u, x2, x1, p, t);
      Swap(a, P, Value(v[..], R), U, Value(x2[..], R), Value(x1[..], R));
    }
  }

  /** The start: a*1 = a and a*0 = p modulo p. */
  lemma InvertingStart(a: int, p: int)
    requires p > 1 && p % 2 == 1 && 1 <= a < p && Coprime(a, p)
    ensures Inverting(a, p, a, p, 1, 0)
  {
    CongRefl(a, p);
    assert a * 1 == a && a * 0 == 0;
    CongIntro(0, p, -1, p);
  }

  /** The end: a multiplier that reaches one is the inverse, and it is not zero. */
  lemma InvertingEnd(a: int, p: int, u: int, v: int, x1: int, x2: int)
    requires Inverting(a, p, u, v, x1, x2) && (u == 1 || v == 1)
    ensures var r := if u == 1 then x1 else x2; 1 <= r < p && Cong(a * r, 1, p)
  {
    var r := if u == 1 then x1 else x2;
    if r == 0 {
      assert a * 0 == 0;
      CongUnique(0, 1, p);
    }
  }

  /** BIG_invmodp: r = 1/a mod p for odd p > 1 and a prime to p; r = 0 if p divides a.  For any other a
      there is no inverse (NoInverse) and the loops never end (EndsIfCoprime). */
  method InvModP(cfg: Config, r: array<int>, a: array<int>, p: array<int>)
    requires Modulus(cfg, p) && Operand(cfg, a) && r.Length == cfg.nlen && r != a && r != p && a != p
    requires Value(p[..], cfg.Radix()) > 1 && Value(p[..], cfg.Radix()) % 2 == 1
    requires var A, P := Value(a[..], cfg.Radix()), Value(p[..], cfg.Radix()); A % P == 0 || Coprime(A % P, P)
    modifies r, a
    ensures Normal(r[..], cfg.Radix())
    ensures var A, P, x := old(Value(a[..], cfg.Radix())), Value(p[..], cfg.Radix()), Value(r[..], cfg.Radix());
            if A % P == 0 then x == 0 else 1 <= x < P && Cong(A * x, 1, P)
  {
    hide Val, Inverting;
    ghost var R, A, P := cfg.Radix(), Value(a[..], cfg.Radix()), Value(p[..], cfg.Radix());
    NormalBounds(p[..], R);
    Mod(cfg, a, p);
    ghost var A' := Value(a[..], R);
    var zero := IsZilch(cfg, a);
    if zero {
      SetZero(cfg, r);
      return;
    }
    InvertResidue(cfg, r, a, p);
    InverseOfResidue(A, A', Value(r[..], R), P);
  }

  /** BIG_invmodp after the reduction of a. */
  method InvertResidue(cfg: Config, r: array<int>, a: array<int>, p: array<int>)
    requires Modulus(cfg, p) && a.Length == r.Length == cfg.nlen && r != a && r != p && Normal(a[..], cfg.Radix())
    requires Value(p[..], cfg.Radix()) > 1 && Value(p[..], cfg.Radix()) % 2 == 1
    requires 1 <= Value(a[..], cfg.Radix()) < Value(p[..], cfg.Radix())
      && Coprime(Value(a[..], cfg.Radix()), Value(p[..], cfg.Radix()))
    modifies r
    ensures Normal(r[..], cfg.Radix())
    ensures 1 <= Value(r[..], cfg.Radix()) < Value(p[..], cfg.Radix())
    ensures Cong(Value(a[..], cfg.Radix()) * Value(r[..], cfg.Radix()), 1, Value(p[..], cfg.Radix()))
  {
    hide Val, Inverting, Normal;
    ghost var R, A, P := cfg.Radix(), Value(a[..], cfg.Radix()), Value(p[..], cfg.Radix());
    var u := CopyOf(cfg, a);
    var v := CopyOf(cfg, p);
    var one := new int[cfg.nlen];
    One(cfg, one);
    var x1 := CopyOf(cfg, one);
    var x2 := new int[cfg.nlen];
    SetZero(cfg, x2);
    var t := new int[cfg.nlen];
    InvertingStart(A, P);
    RunPasses(cfg, A, u, v, x1, x2, p, t, one);
    InvertingEnd(A, P, Value(u[..], R), Value(v[..], R), Value(x1[..], R), Value(x2[..], R));
    Select(cfg, r, u, x1, x2, one);
  }

  /** copy(r, x1); cmove(r, x2, comp(u, one) & 1) */
  method Select(cfg: Config, r: array<int>, u: array<int>, x1: array<int>, x2: array<int>, one: array<int>)
    requires cfg.Valid() && r.Length == u.Length == x1.Length == x2.Length == one.Length == cfg.nlen && r != u
      && r != x1 && r != x2 && r != one
    requires Normal(u[..], cfg.Radix()) && Normal(x1[..], cfg.Radix()) && Normal(x2[..], cfg.Radix())
    requires Normal(one[..], cfg.Radix()) && Value(one[..], cfg.Radix()) == 1
    modifies r
    ensures r[..] == if Value(u[..], cfg.Radix()) == 1 then x1[..] else x2[..]
  {
    hide Val;
    Copy(r, x1, 0);
    assert r[..] == x1[..];
    var cu := Comp(cfg, u, one);
    CMove(r, x2, cu % 2);
  }

  method CopyOf(cfg: Config, a: array<int>) returns (b: array<int>)
    requires a.Length == cfg.nlen
    ensures fresh(b) && b.Length == cfg.nlen && b[..] == a[..]
  {
    b := new int[cfg.nlen];
    Copy(b, a, 0);
    assert b[..] == a[..];
  }

  /** while (comp(u, one) != 0 && comp(v, one) != 0) ... */
  method RunPasses(cfg: Config, ghost a: int, u: array<int>, v: array<int>, x1: array<int>, x2: array<int>,
      p: array<int>, t: array<int>, one: array<int>)
    requires State(cfg, a, u, v, x1, x2, p) && Distinct(u, v, x1, x2, p, t) && t.Length == one.Length == cfg.nlen
    requires one != u && one != v && one != x1 && one != x2 && one != t
    requires Normal(one[..], cfg.Radix()) && Value(one[..], cfg.Radix()) == 1
    modifies u, v, x1, x2, t
    ensures State(cfg, a, u, v, x1, x2, p)
    ensures Value(u[..], cfg.Radix()) == 1 || Value(v[..], cfg.Radix()) == 1
    ensures 1 <= Value(u[..], cfg.Radix())
  {
    hide Val, Inverting, Normal;
    ghost var R := cfg.Radix();
    InvertingRanges(a, Value(p[..], R), Value(u[..], R), Value(v[..], R), Value(x1[..], R), Value(x2[..], R));
    var cu := Comp(cfg, u, one);
    var cv := Comp(cfg, v, one);
    while cu != 0 && cv != 0
      invariant State(cfg, a, u, v, x1, x2, p)
      invariant cu == 0 <==> Value(u[..], R) == 1
      invariant cv == 0 <==> Value(v[..], R) == 1
      invariant 1 <= Value(u[..], R) && 1 <= Value(v[..], R)
      decreases Value(u[..], R) + Value(v[..], R)
      modifies u, v, x1, x2, t
    {
      Pass(cfg, a, u, v, x1, x2, p, t);
      InvertingRanges(a, Value(p[..], R), Value(u[..], R), Value(v[..], R), Value(x1[..], R), Value(x2[..], R));
      cu := Comp(cfg, u, one);
      cv := Comp(cfg, v, one);
    }
  }

  lemma InverseOfResidue(a: int, b: int, x: int, p: int)
    requires p > 0 && b == a % p && Cong(b * x, 1, p)
    ensures Cong(a * x, 1, p)
  {
    CongOfMod(a, p);
    CongScale(a, b, x, p);
    CongTrans(a * x, b * x, 1, p);
  }

  /** BIG_moddiv: r*b = a (mod m), or zero when b has no inverse because it is zero modulo m. */
  method ModDiv(cfg: Config, r: array<int>, a1: array<int>, b1: array<int>, m: array<int>)
    requires Modulus(cfg, m) && Roomy(cfg) && Operand(cfg, a1) && Operand(cfg, b1) && r.Length == cfg.nlen && r != m
    requires Value(m[..], cfg.Radix()) > 1 && Value(m[..], cfg.Radix()) % 2 == 1
    requires var B, M := Value(b1[..], cfg.Radix()), Value(m[..], cfg.Radix()); B % M == 0 || Coprime(B % M, M)
    modifies r
    ensures Normal(r[..], cfg.Radix()) && 0 <= Value(r[..], cfg.Radix()) < Value(m[..], cfg.Radix())
    ensures var A, B, M, x := old(Value(a1[..], cfg.Radix())), old(Value(b1[..], cfg.Radix())),
      Value(m[..], cfg.Radix()), Value(r[..], cfg.Radix());
            if B % M == 0 then x == 0 else Cong(x * B, A, M)
  {
    ghost var A, B, M := Value(a1[..], cfg.Radix()), Value(b1[..], cfg.Radix()), Value(m[..], cfg.Radix());
    var a := Residue(cfg, a1, m);
    var b := CopyOf(cfg, b1);
    var z := new int[cfg.nlen];
    InvModP(cfg, z, b, m);
    ghost var Z := Value(z[..], cfg.Radix());
    ReduceProduct(cfg, r, a, z, m);
    QuotientResidue(A, B, Z, M);
  }

  lemma QuotientResidue(A: int, B: int, Z: int, M: int)
    requires M > 1
    ensures Z == 0 ==> ((A % M) * Z) % M == 0
    ensures Cong(B * Z, 1, M) ==> Cong((((A % M) * Z) % M) * B, A, M)
  {
    if Z == 0 {
      DivModUnique(0, M, 0, 0);
    }
    if Cong(B * Z, 1, M) {
      var w := (A % M) * Z;
      CongOfMod(w, M);
      CongScale(w % M, w, B, M);
      CongOfMod(A, M);
      CongScale(B * Z, 1, A % M, M);
      assert w * B == (A % M) * (B * Z) by { MulAssoc(A % M, Z, B); assert Z * B == B * Z; }
      CongTrans((w % M) * B, (A % M) * (B * Z), A % M, M);
      CongTrans((w % M) * B, A % M, A, M);
    }
  }
}
