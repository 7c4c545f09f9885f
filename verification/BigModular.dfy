/** Modular addition, negation and multiplication. */
module BigModular {
  import opened Arith
  import opened Words
  import opened Limbs
  import opened Columns
  import opened BigNorm
  import opened BigBits
  import opened BigMul
  import opened BigDivide

  ghost predicate Modulus(cfg: Config, m: array<int>)
    reads m
  {
    Spare(cfg) && m.Length == cfg.nlen && Normal(m[..], cfg.Radix()) && 0 < Value(m[..], cfg.Radix())
  }

  /** A BIG that BIG_mod accepts. */
  ghost predicate Operand(cfg: Config, a: array<int>)
    reads a
  {
    cfg.Valid() && a.Length == cfg.nlen && Lazy(cfg, a[..])
        && 0 <= Value(a[..], cfg.Radix()) < Pow(cfg.Radix(), cfg.nlen)
  }

  /** BIG_copy(a, a1); BIG_mod(a, m) */
  method Residue(cfg: Config, a1: array<int>, m: array<int>) returns (a: array<int>)
    requires Modulus(cfg, m) && Operand(cfg, a1)
    ensures fresh(a) && a.Length == cfg.nlen && Normal(a[..], cfg.Radix())
    ensures Value(a[..], cfg.Radix()) == Value(a1[..], cfg.Radix()) % Value(m[..], cfg.Radix())
  {
    a := new int[cfg.nlen];
    Copy(a, a1, 0);
    assert a[..] == a1[..];
    Mod(cfg, a, m);
  }

  /** The product of two residues meets the bound of BIG_ctdmod with bd = nbits(m). */
  lemma ProductRange(cfg: Config, a: int, b: int, m: int, nm: nat)
    requires cfg.Valid() && 0 <= a < m && 0 <= b < m && m < Pow(cfg.Radix(), cfg.nlen) && IsBits(m, nm)
    ensures FitsShifted(cfg, m, nm, 2 * cfg.nlen) && 0 <= a * b < 2 * (m * Pow(2, nm))
  {
    var R, n := cfg.Radix(), cfg.nlen;
    BitsBelow(cfg, m, nm);
    hide Pow, Config.Radix;
    ProductBelow(a, b, m, Pow(2, nm), Pow(R, n));
  }

  lemma ProductBelow(a: int, b: int, m: int, p: int, Q: int)
    requires 0 <= a < m && 0 <= b < m && m < p && 0 < p <= Q && m < Q
    ensures 0 <= a * b < 2 * (m * p) && m * p < Q * Q
  {
    MulMono(0, a, b);
    MulMono(a, m, b);
    MulMono(b, p, m);
    MulMono(p, Q, m);
    MulStrict(m, Q, Q);
  }

  lemma BitsBelow(cfg: Config, m: int, nm: nat)
    requires cfg.Valid() && 0 < m < Pow(cfg.Radix(), cfg.nlen) && IsBits(m, nm)
    ensures m < Pow(2, nm) <= Pow(cfg.Radix(), cfg.nlen)
    ensures Pow(cfg.Radix(), 2 * cfg.nlen) == Pow(cfg.Radix(), cfg.nlen) * Pow(cfg.Radix(), cfg.nlen)
  {
    var R, n := cfg.Radix(), cfg.nlen;
    PowMul(2, cfg.bits, n);
    if nm > cfg.bits * n {
      PowMonotone(2, cfg.bits * n, nm - 1);
    }
    PowMonotone(2, nm, cfg.bits * n);
    PowAdd(R, n, n);
  }

  lemma BitsWithin(cfg: Config, m: int, nm: nat)
    requires cfg.Valid() && 0 < m < Pow(cfg.Radix(), cfg.nlen) && IsBits(m, nm)
    ensures nm < cfg.bits * (2 * cfg.nlen - 1)
  {
    PowMul(2, cfg.bits, cfg.nlen);
    if nm > cfg.bits * cfg.nlen {
      PowMonotone(2, cfg.bits * cfg.nlen, nm - 1);
    }
    DoubleLimit(cfg, nm);
  }

  /** mul(d, a, b); ctdmod(r, d, m, nbits(m)) for residues a and b. */
  method ReduceProduct(cfg: Config, r: array<int>, a: array<int>, b: array<int>, m: array<int>)
    requires Modulus(cfg, m) && Roomy(cfg) && r.Length == a.Length == b.Length == cfg.nlen && r != m
    requires Normal(a[..], cfg.Radix()) && Normal(b[..], cfg.Radix())
    requires Value(a[..], cfg.Radix()) < Value(m[..], cfg.Radix())
      && Value(b[..], cfg.Radix()) < Value(m[..], cfg.Radix())
    modifies r
    ensures Normal(r[..], cfg.Radix())
    ensures Value(r[..], cfg.Radix())
      == (old(Value(a[..], cfg.Radix())) * old(Value(b[..], cfg.Radix()))) % Value(m[..], cfg.Radix())
  {
    hide Val, Product, Pow, Config.Radix, FitsShifted, Lazy, LazyLimbs, Roomy;
    ghost var A, B, M, R := a[..], b[..], m[..], cfg.Radix();
    NormalBounds(A, R);
    NormalBounds(B, R);
    NormalBounds(M, R);
    var d := new int[2 * cfg.nlen];
    MulKaratsuba(cfg, d, a, b);
    ProductCorrect(A, B, R);
    NormalIsLazy(cfg, M);
    NormalIsLazy(cfg, d[..]);
    var nm := NBits(cfg, m);
    ProductRange(cfg, Value(A, R), Value(B, R), Value(M, R), nm);
    NormalBounds(d[..], R);
    BitsWithin(cfg, Value(M, R), nm);
    CtDMod(cfg, r, d, m, nm);
  }

  /** BIG_modmul: r = a*b mod m.  (BIG_modsqr is the case a1 = b1.) */
  method ModMul(cfg: Config, r: array<int>, a1: array<int>, b1: array<int>, m: array<int>)
    requires Modulus(cfg, m) && Roomy(cfg) && Operand(cfg, a1) && Operand(cfg, b1) && r.Length == cfg.nlen && r != m
    modifies r
    ensures Normal(r[..], cfg.Radix())
    ensures Value(r[..], cfg.Radix())
      == (old(Value(a1[..], cfg.Radix())) * old(Value(b1[..], cfg.Radix()))) % Value(m[..], cfg.Radix())
  {
    ghost var M := Value(m[..], cfg.Radix());
    var a := Residue(cfg, a1, m);
    var b := Residue(cfg, b1, m);
    ResidueProduct(Value(a1[..], cfg.Radix()), Value(b1[..], cfg.Radix()), M);
    ReduceProduct(cfg, r, a, b, m);
  }

  lemma ResidueProduct(a: int, b: int, m: int)
    requires m > 0
    ensures 0 <= a % m < m && 0 <= b % m < m
    ensures ((a % m) * (b % m)) % m == (a * b) % m
  {
    CongOfMod(a, m);
    CongOfMod(b, m);
    CongMul(a % m, a, b % m, b, m);
    CongMod((a % m) * (b % m), a * b, m);
  }

  /** BIG_modadd: r = a+b mod m.  Neither the sum nor 2*m need be a NLEN-limb number: the excess stays in
      the top limb. */
  method ModAdd(cfg: Config, r: array<int>, a1: array<int>, b1: array<int>, m: array<int>)
    requires Modulus(cfg, m) && Operand(cfg, a1) && Operand(cfg, b1) && r.Length == cfg.nlen && r != m
    modifies r
    ensures Normal(r[..], cfg.Radix())
    ensures Value(r[..], cfg.Radix())
      == (old(Value(a1[..], cfg.Radix())) + old(Value(b1[..], cfg.Radix()))) % Value(m[..], cfg.Radix())
  {
    hide Val, Lazy, LazyLimbs, NormLimbs, AddLimbs;
    ghost var x, y, M, R := Value(a1[..], cfg.Radix()), Value(b1[..], cfg.Radix()), Value(m[..], cfg.Radix()),
        cfg.Radix();
    var a := Residue(cfg, a1, m);
    var b := Residue(cfg, b1, m);
    ResidueSum(x, y, M);
    SumValue(cfg, a[..], b[..]);
    NormalBounds(a[..], R);
    NormalBounds(b[..], R);
    Add(cfg, r, a, b);
    LazyLow(cfg, r[..]);
    Norm(cfg, r);
    NormalBounds(m[..], R);
    ReducibleIsLazy(cfg, r[..]);
    assert Pow(2, 1) == 2 * Pow(2, 0) == 2;
    CtMod(cfg, r, m, 1);
  }

  lemma ReducibleIsLazy(cfg: Config, s: seq<int>)
    requires Spare(cfg) && Reducible(cfg, s)
    ensures Lazy(cfg, s)
  {
    ReducibleLimbs(cfg, s);
    SpareRoom(cfg);
    hide MaxLimb;
  }

  lemma ResidueSum(a: int, b: int, m: int)
    requires m > 0
    ensures 0 <= a % m + b % m < 2 * m && (a % m + b % m) % m == (a + b) % m
  {
    CongOfMod(a, m);
    CongOfMod(b, m);
    CongAdd(a % m, a, b % m, b, m);
    CongMod(a % m + b % m, a + b, m);
  }

  /** BIG_modneg: r = m - (a mod m).  This is congruent to -a, but it is the reduced residue exactly
      when m does not divide a; for a multiple of m the result is m itself, not zero. */
  method ModNeg(cfg: Config, r: array<int>, a1: array<int>, m: array<int>)
    requires Modulus(cfg, m) && Operand(cfg, a1) && r.Length == cfg.nlen && r != m
    modifies r
    ensures Normal(r[..], cfg.Radix())
    ensures var x, M := old(Value(a1[..], cfg.Radix())), Value(m[..], cfg.Radix());
            && Value(r[..], cfg.Radix()) == Negated(x, M) && Cong(Value(r[..], cfg.Radix()), -x, M)
            && (Value(r[..], cfg.Radix()) == (-x) % M <==> x % M != 0)
            && (x % M == 0 ==> Value(r[..], cfg.Radix()) == M)
  {
    hide Val, Lazy, LazyLimbs, NormLimbs, SubLimbs, Pow;
    ghost var x, M, R := Value(a1[..], cfg.Radix()), Value(m[..], cfg.Radix()), cfg.Radix();
    NormalBounds(m[..], R);
    var a := Residue(cfg, a1, m);
    NegatedResidue(x, M);
    NormalIsReducible(cfg, m[..]);
    NormalIsReducible(cfg, a[..]);
    DifferenceValue(cfg, m[..], a[..]);
    Sub(cfg, r, m, a);
    LazyLow(cfg, r[..]);
    Norm(cfg, r);
    NormalFromValue(r[..], R);
  }

  /** What BIG_modneg leaves for a number x. */
  function Negated(x: int, m: int): int
    requires m > 0
  {
    m - x % m
  }

  lemma NegatedResidue(x: int, m: int)
    requires m > 0
    ensures 0 < Negated(x, m) <= m && Cong(Negated(x, m), -x, m)
    ensures Negated(x, m) == (-x) % m <==> x % m != 0
    ensures (-x) % m < m
  {
    CongOfMod(x, m);
    CongIntro(m, 0, 1, m);
    CongAdd(m, 0, x % m, x, m);
    CongMod(m - x % m, -x, m);
    if x % m != 0 {
      DivModUnique(m - x % m, m, 0, m - x % m);
    }
  }

  /** For one, 6 modulo 3: BIG_modneg leaves 3, and not 0. */
  lemma NegatedMultiple()
    ensures Negated(6, 3) == 3 && (-6) % 3 == 0
  {
  }
}
