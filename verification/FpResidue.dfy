/** The field representation for a modulus of no special form: x is held as its Montgomery residue x*R^N
    modulo the modulus, which FP_nres makes and FP_redc takes back. */
module FpResidue {
  import opened Arith
  import opened Words
  import opened Limbs
  import opened Columns
  import opened BigMul
  import opened BigMonty
  import opened BigDivide

  // ---------------------------------------------------------------- residues

  /** The constants of the field: p, its Montgomery constant and R2modp. */
  ghost predicate Constants(p: int, MC: int, r2: int, n: nat, R: int) {
    && R >= 2 && Pow(R, n) > 0 && p > 0 && 2 * p <= Pow(R, n) && IsConstant(MC, p, R)
    && 0 <= r2 < p && Cong(r2, Pow(R, n) * Pow(R, n), p)
  }

  /** y stands for x: a residue of x*Q below twice the modulus, which reduces to x and nothing else. */
  ghost predicate StandsFor(y: int, x: int, p: int, Q: int)
    requires p > 0
  {
    && 0 <= y < 2 * p && Cong(y, x * Q, p)
    && forall z :: IsReduction(z, y, p, Q) ==> z == x
  }

  /** A power of the radix can be cancelled modulo p. */
  lemma CancelPower(a: int, b: int, MC: int, p: int, n: nat, R: int)
    requires R >= 2 && p > 0 && Pow(R, n) > 0 && IsConstant(MC, p, R)
    requires Cong(a * Pow(R, n), b * Pow(R, n), p)
    ensures Cong(a, b, p)
  {
    var Q := Pow(R, n);
    var c := CongElim(a * Q, b * Q, p);
    MulDist(a, b, Q);
    CongIntro(c * p, 0, a - b, Q);
    CancelModulus(c, MC, p, n, R);
    var k := CongElim(c, 0, Q);
    MulAssoc(k, Q, p);
    MulAssoc(k, p, Q);
    assert (a - b) * Q == (k * p) * Q;
    CancelFactor(a - b, k * p, Q);
    CongIntro(a, b, k, p);
  }

  lemma CancelFactor(a: int, b: int, Q: int)
    requires Q > 0 && a * Q == b * Q
    ensures a == b
  {
    if a < b {
      MulStrict(a, b, Q);
    } else if b < a {
      MulStrict(b, a, Q);
    }
  }

  /** A reduction is at most p, and below p if it is one of 0. */
  lemma AtMostModulus(z: int, y: int, p: int, Q: int)
    requires p > 0 && 2 * p <= Q && 0 <= y < 2 * p && IsReduction(z, y, p, Q)
    ensures 0 <= z <= p && (y == 0 ==> z < p)
  {
    var k: int :| 0 <= k < Q && z * Q == y + k * p;
    MulMono(0, k, p);
    MulMono(k, Q - 1, p);
    MulDist(Q, 1, p);
    if z < 0 {
      MulMono(z, -1, Q);
    }
    if z >= p + 1 {
      MulMono(p + 1, z, Q);
      MulDist(p, -1, Q);
    }
    if z >= p {
      MulMono(p, z, Q);
    }
  }

  /** The only residue below 2*p that does not reduce fully is p itself. */
  lemma NotReduced(z: int, y: int, MC: int, p: int, n: nat, R: int)
    requires R >= 2 && p > 0 && Pow(R, n) > 0 && 2 * p <= Pow(R, n) && IsConstant(MC, p, R)
    requires 0 <= y < 2 * p && IsReduction(z, y, p, Pow(R, n))
    ensures z < p <==> y != p
  {
    var Q := Pow(R, n);
    AtMostModulus(z, y, p, Q);
    var k: int :| 0 <= k < Q && z * Q == y + k * p;
    if z == p {
      MulDist(Q, k, p);
      CancelledBelow(Q - k, y, p);
    }
    if y == p {
      MulDist(Q - 1, -1, p);
      assert p * Q == p + (Q - 1) * p;
      assert IsReduction(p, p, p, Q);
      ReductionUnique(z, p, p, MC, p, n, R);
    }
  }

  lemma CancelledBelow(c: int, y: int, p: int)
    requires p > 0 && y == c * p && c > 0 && y < 2 * p
    ensures y == p
  {
    if c >= 2 {
      MulMono(2, c, p);
    }
  }

  /** The reduction of x*R2modp stands for x, also for x = 0. */
  lemma ResidueStandsFor(x: int, y: int, p: int, MC: int, r2: int, n: nat, R: int)
    requires Constants(p, MC, r2, n, R) && 0 <= x < p && IsReduction(y, x * r2, p, Pow(R, n))
    ensures StandsFor(y, x, p, Pow(R, n))
  {
    var Q := Pow(R, n);
    ProductInRange(x, r2, p, Q);
    ReductionBounds(y, x * r2, p, Q);
    CongScale(r2, Q * Q, x, p);
    MulAssoc(x, Q, Q);
    CongTrans(y * Q, x * r2, (x * Q) * Q, p);
    CancelPower(y, x * Q, MC, p, n, R);
    forall z | IsReduction(z, y, p, Q) ensures z == x {
      BackToStart(x, y, z, p, MC, r2, n, R);
    }
  }

  lemma ProductInRange(x: int, r2: int, p: int, Q: int)
    requires 0 <= x < p && 0 <= r2 < p && p <= Q
    ensures 0 <= x * r2 < p * Q
  {
    MulMono(0, x, r2);
    MulMono(x, p, r2);
    MulStrict(r2, Q, p);
  }

  lemma BackToStart(x: int, y: int, z: int, p: int, MC: int, r2: int, n: nat, R: int)
    requires Constants(p, MC, r2, n, R) && 0 <= x < p && 0 <= y < 2 * p
    requires IsReduction(y, x * r2, p, Pow(R, n)) && Cong(y, x * Pow(R, n), p) && IsReduction(z, y, p, Pow(R, n))
    ensures z == x
  {
    var Q := Pow(R, n);
    MulMono(2, Q, p);
    ReductionBounds(z, y, p, Q);
    CongTrans(z * Q, y, x * Q, p);
    CancelPower(z, x, MC, p, n, R);
    AtMostModulus(z, y, p, Q);
    if x == 0 {
      AtMostModulus(y, 0, p, Q);
      CongUnique(y, 0, p);
    }
    if z == p {
      CongIntro(p, 0, 1, p);
      CongSym(z, x, p);
      CongTrans(x, p, 0, p);
      CongUnique(x, 0, p);
    }
    CongUnique(z, x, p);
  }

  // ---------------------------------------------------------------- the functions

  /** Modulus, MConst and R2modp are the constants of a field whose modulus has no special form. */
  ghost predicate Field(cfg: Config, p: array<int>, MC: int, r2: array<int>)
    reads p, r2
  {
    && Spare(cfg) && Roomy(cfg) && p.Length == r2.Length == cfg.nlen && p != r2
    && Normal(p[..], cfg.Radix()) && Normal(r2[..], cfg.Radix()) && -cfg.Half() <= MC < cfg.Half()
    && Constants(Value(p[..], cfg.Radix()), MC, Value(r2[..], cfg.Radix()), cfg.nlen, cfg.Radix())
  }

  lemma LowConstant(cfg: Config, p: seq<int>, MC: int)
    requires cfg.Valid() && |p| == cfg.nlen && IsConstant(MC, Value(p, cfg.Radix()), cfg.Radix())
    ensures IsConstant(MC, p[0], cfg.Radix())
  {
    var R := cfg.Radix();
    ValModRadix(p, |p|, R);
    CongMod(p[0], Value(p, R), R);
    CongScale(p[0], Value(p, R), MC, R);
    CongTrans(MC * p[0], MC * Value(p, R), -1, R);
  }

  /** FP_nres: the limbs of the residue, and its excess. */
  method Nres(cfg: Config, y: array<int>, x: array<int>, p: array<int>, MC: int, r2: array<int>) returns (xes: int)
    requires Field(cfg, p, MC, r2) && y.Length == x.Length == cfg.nlen && y != p && y != r2
    requires Normal(x[..], cfg.Radix()) && Value(x[..], cfg.Radix()) < Value(p[..], cfg.Radix())
    modifies y
    ensures Normal(y[..], cfg.Radix()) && xes == 2 && Value(y[..], cfg.Radix()) < xes * Value(p[..], cfg.Radix())
    ensures StandsFor(Value(y[..], cfg.Radix()), old(Value(x[..], cfg.Radix())), Value(p[..], cfg.Radix()),
                      Pow(cfg.Radix(), cfg.nlen))
  {
    ghost var R := cfg.Radix();
    ghost var X, P, S := Value(x[..], R), Value(p[..], R), Value(r2[..], R);
    LowConstant(cfg, p[..], MC);
    NormalBounds(x[..], R);
    ProductInRange(X, S, P, Pow(R, cfg.nlen));
    ProductCorrect(x[..], r2[..], R);
    hide Val, Product, Pow, Config.Radix, IsReduction, StandsFor;
    var d := new int[2 * cfg.nlen];
    MulKaratsuba(cfg, d, x, r2);
    MontyKaratsuba(cfg, y, p, MC, d);
    xes := 2;
    ResidueStandsFor(X, Value(y[..], R), P, MC, S, cfg.nlen, R);
    Range(Value(y[..], R), X, P, Pow(R, cfg.nlen));
  }

  lemma Range(y: int, x: int, p: int, Q: int)
    requires p > 0 && StandsFor(y, x, p, Q)
    ensures 0 <= y < 2 * p
  {
  }

  /** FP_redc: of the residue that stands for an x, that x, fully reduced. */
  method Redc(cfg: Config, x: array<int>, y: array<int>, p: array<int>, MC: int, r2: array<int>)
    requires Field(cfg, p, MC, r2) && x.Length == y.Length == cfg.nlen && x != p
    requires Normal(y[..], cfg.Radix()) && Value(y[..], cfg.Radix()) < 2 * Value(p[..], cfg.Radix())
    modifies x
    ensures Normal(x[..], cfg.Radix()) && 0 <= Value(x[..], cfg.Radix()) <= Value(p[..], cfg.Radix())
    ensures Cong(Value(x[..], cfg.Radix()) * Pow(cfg.Radix(), cfg.nlen), old(Value(y[..], cfg.Radix())),
                 Value(p[..], cfg.Radix()))
    ensures Value(x[..], cfg.Radix()) < Value(p[..], cfg.Radix())
       <==> old(Value(y[..], cfg.Radix())) != Value(p[..], cfg.Radix())
    ensures var Y, P, Q := old(Value(y[..], cfg.Radix())), Value(p[..], cfg.Radix()), Pow(cfg.Radix(), cfg.nlen);
            forall X :: StandsFor(Y, X, P, Q) ==> Value(x[..], cfg.Radix()) == X
  {
    ghost var Y, P, R := Value(y[..], cfg.Radix()), Value(p[..], cfg.Radix()), cfg.Radix();
    ghost var Q := Pow(R, cfg.nlen);
    LowConstant(cfg, p[..], MC);
    NormalBounds(y[..], R);
    MulMono(2, Q, P);
    hide Val, Pow, Config.Radix, IsReduction, StandsFor;
    var d := new int[2 * cfg.nlen];
    DsCopy(cfg, d, y);
    MontyKaratsuba(cfg, x, p, MC, d);
    AtMostModulus(Value(x[..], R), Y, P, Q);
    NotReduced(Value(x[..], R), Y, MC, P, cfg.nlen, R);
    ReductionBounds(Value(x[..], R), Y, P, Q);
    forall X | StandsFor(Y, X, P, Q) ensures Value(x[..], R) == X {
      Reduces(Y, X, Value(x[..], R), P, Q);
    }
  }

  lemma Reduces(y: int, x: int, z: int, p: int, Q: int)
    requires p > 0 && StandsFor(y, x, p, Q) && IsReduction(z, y, p, Q)
    ensures z == x
  {
  }
}
