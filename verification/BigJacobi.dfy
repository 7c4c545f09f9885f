/** The Jacobi symbol loop: BIG_jacobi. */
module BigJacobi {
  import opened Arith
  import opened Words
  import opened Limbs
  import opened BigNorm
  import opened BigShift
  import opened BigBits
  import opened BigDivide
  import opened BigInverse

  // ---------------------------------------------------------------- the symbol

  /** (2/n) for odd n */
  function Two(n: int): int {
    if n % 8 == 1 || n % 8 == 7 then 1 else -1
  }

  /** The sign of the reciprocity law between two odd numbers. */
  function Flip(x: int, n: int): int {
    if x % 4 == 3 && n % 4 == 3 then -1 else 1
  }

  /** The Jacobi symbol of a residue x of an odd n, by the factor-two and reciprocity laws. */
  function Jacobi(x: nat, n: nat): (j: int)
    requires n % 2 == 1 && x < n
    ensures j == -1 || j == 0 || j == 1
    decreases n, x
  {
    if n == 1 then 1
    else if x == 0 then 0
    else if x % 2 == 0 then Two(n) * Jacobi(x / 2, n)
    else Flip(x, n) * Jacobi(n % x, x)
  }

  /** The laws that single out the Jacobi symbol among all functions of two arguments: its values at
      one and zero, periodicity, the factor two, and reciprocity. */
  ghost predicate Laws(J: (int, int) -> int) {
    AtOneAndZero(J) && Periodic(J) && Doubles(J) && Reciprocal(J)
  }

  ghost predicate AtOneAndZero(J: (int, int) -> int) {
    (forall x: int :: J(x, 1) == 1) && (forall n: int :: n > 1 && n % 2 == 1 ==> J(0, n) == 0)
  }

  ghost predicate Periodic(J: (int, int) -> int) {
    forall x: int, n: int :: n > 0 && n % 2 == 1 ==> J(x, n) == J(x % n, n)
  }

  ghost predicate Doubles(J: (int, int) -> int) {
    forall x: int, n: int :: n > 0 && n % 2 == 1 ==> J(2 * x, n) == Two(n) * J(x, n)
  }

  ghost predicate Reciprocal(J: (int, int) -> int) {
    forall x: int, n: int :: x > 0 && n > 0 && x % 2 == 1 && n % 2 == 1 ==> J(x, n) == Flip(x, n) * J(n, x)
  }

  lemma UsePeriodic(J: (int, int) -> int, x: int, n: int)
    requires Periodic(J) && n > 0 && n % 2 == 1
    ensures J(x, n) == J(x % n, n)
  {
  }

  lemma UseDoubles(J: (int, int) -> int, x: int, n: int)
    requires Doubles(J) && n > 0 && n % 2 == 1
    ensures J(2 * x, n) == Two(n) * J(x, n)
  {
  }

  /** Whatever obeys the laws is the function above, here for a residue. */
  lemma {:induction false} JacobiUnique(J: (int, int) -> int, x: nat, n: nat)
    requires Laws(J) && n % 2 == 1 && x < n
    ensures J(x, n) == Jacobi(x, n)
    decreases n, x
  {
    hide Periodic, Doubles;
    if n == 1 || x == 0 {
      hide Reciprocal;
    } else if x % 2 == 0 {
      hide Reciprocal, AtOneAndZero;
      UseDoubles(J, x / 2, n);
      JacobiUnique(J, x / 2, n);
    } else {
      hide AtOneAndZero;
      assert J(x, n) == Flip(x, n) * J(n, x);
      hide Reciprocal;
      UsePeriodic(J, n, x);
      JacobiUnique(J, n % x, x);
    }
  }

  /** So the symbol of any integer is that of its residue. */
  lemma SymbolOfResidue(J: (int, int) -> int, a: int, p: int)
    requires Laws(J) && p > 1 && p % 2 == 1
    ensures 0 <= a % p < p && J(a, p) == Jacobi(a % p, p)
  {
    hide AtOneAndZero, Doubles, Reciprocal, Jacobi;
    UsePeriodic(J, a, p);
    JacobiUnique(J, a % p, p);
  }

  // ---------------------------------------------------------------- the function obeys the laws

  /** The symbol of any two integers, by the function above. */
  function Extended(x: int, n: int): (j: int)
    ensures j == -1 || j == 0 || j == 1
  {
    if n > 0 && n % 2 == 1 then Jacobi(x % n, n) else 0
  }

  /** (-1/n) for odd n */
  function MinusOne(n: int): int {
    if n % 4 == 1 then 1 else -1
  }

  lemma Shifted(x: int, y: int, k: int, n: int)
    requires n > 0 && x == y + k * n
    ensures Extended(x, n) == Extended(y, n)
  {
    CongIntro(x, y, k, n);
    CongMod(x, y, n);
  }

  lemma SmallResidue(x: nat, n: nat)
    requires x < n && n % 2 == 1
    ensures Extended(x, n) == Jacobi(x, n)
  {
    DivModUnique(x, n, 0, x);
  }

  lemma Reciprocity(x: nat, n: nat)
    requires x % 2 == 1 && n % 2 == 1
    ensures Extended(x, n) == Flip(x, n) * Extended(n, x)
  {
    if x < n {
      SmallResidue(x, n);
    } else if n < x {
      SmallResidue(n, x);
    } else {
      DivModUnique(n, n, 1, 0);
    }
  }

  /** 2x < n: the function strips the factor two itself. */
  lemma DoubleSmall(x: nat, n: nat)
    requires n % 2 == 1 && 2 * x < n
    ensures Extended(2 * x, n) == Two(n) * Extended(x, n)
  {
    SmallResidue(x, n);
    SmallResidue(2 * x, n);
    JacobiDouble(x, n);
    hide *;
  }

  lemma JacobiDouble(x: nat, n: nat)
    requires n % 2 == 1 && 2 * x < n
    ensures Jacobi(2 * x, n) == Two(n) * Jacobi(x, n)
  {
    hide Two;
    if x == 0 {
      ZeroTwice(n);
    } else {
      assert (2 * x) % 2 == 0 && (2 * x) / 2 == x;
    }
  }

  lemma ZeroTwice(n: nat)
    requires n % 2 == 1
    ensures Jacobi(0, n) == Two(n) * Jacobi(0, n)
  {
  }

  /** A product of two signs. */
  function Signs(a: int, b: int): int {
    a * b
  }

  lemma FourSigns(a: int, b: int, c: int, d: int, e: int, f: int, s: int)
    requires Signs(Signs(Signs(a, b), c), d) == Signs(e, f)
    ensures a * (b * (c * (d * s))) == e * (f * s)
  {
    MulAssoc(c, d, s);
    MulAssoc(b, c * d, s);
    MulAssoc(a, b * (c * d), s);
    MulAssoc(b, c, d);
    MulAssoc(a, b * c, d);
    MulAssoc(a, b, c);
    MulAssoc(e, f, s);
  }

  /** The odd parts of the law of the factor two, by reciprocity with smaller numbers. */
  lemma {:induction false} DoubleOdd(x: nat, n: nat)
    requires n % 2 == 1 && x % 2 == 1 && x < n < 2 * x
    ensures Extended(2 * x, n) == Two(n) * Extended(x, n)
    decreases n, 0, x
  {
    hide Extended, Jacobi, Flip, Two, MinusOne;
    var b, o := n - x, 2 * x - n;
    var s := Extended(b, x);
    Shifted(2 * x, o, 1, n);
    Reciprocity(o, n);
    Shifted(n, 2 * b, 1, o);
    Doubling(b, o);
    Shifted(x, b, 1, o);
    Reciprocity(x, o);
    Shifted(o, -b, 1, x);
    Negating(b, x);
    assert Extended(2 * x, n) == Flip(o, n) * (Two(o) * (Flip(x, o) * (MinusOne(x) * s)));
    Reciprocity(x, n);
    Shifted(n, b, 1, x);
    assert Extended(x, n) == Flip(x, n) * s;
    SignsOfDouble(x, n, o);
    FourSigns(Flip(o, n), Two(o), Flip(x, o), MinusOne(x), Two(n), Flip(x, n), s);
  }

  lemma SignsOfDouble(x: int, n: int, o: int)
    requires x % 2 == 1 && n % 2 == 1 && o == 2 * x - n
    ensures Signs(Signs(Signs(Flip(o, n), Two(o)), Flip(x, o)), MinusOne(x)) == Signs(Two(n), Flip(x, n))
  {
    hide *;
    EightClasses(x);
    EightClasses(n);
    DivModUnique(o, 2, x - n / 2 - 1, 1);
    EightClasses(o);
    ClassOfDouble(x, n);
    SignTable(x % 8, n % 8, o % 8);
    SignsByClass(x);
    SignsByClass(n);
    SignsByClass(o);
    FlipByClass(o, n);
    FlipByClass(x, o);
    FlipByClass(x, n);
  }

  lemma ClassOfDouble(x: int, n: int)
    ensures (2 * x - n) % 8 == (2 * (x % 8) - n % 8) % 8
  {
    var d := 2 * (x % 8) - n % 8;
    DivModUnique(2 * x - n, 8, 2 * (x / 8) - n / 8 + d / 8, d % 8);
  }

  lemma ClassOfNegative(c: int, n: int)
    ensures (n - 2 * c) % 8 == (n % 8 - 2 * (c % 8)) % 8
  {
    var d := n % 8 - 2 * (c % 8);
    DivModUnique(n - 2 * c, 8, n / 8 - 2 * (c / 8) + d / 8, d % 8);
  }

  /** The signs depend on the classes modulo 8 only. */
  lemma SignsByClass(x: int)
    requires x % 2 == 1
    ensures Two(x) == Two(x % 8) && MinusOne(x) == MinusOne(x % 8)
  {
    EightClasses(x);
  }

  lemma FlipByClass(x: int, n: int)
    requires x % 2 == 1 && n % 2 == 1
    ensures Flip(x, n) == Flip(x % 8, n % 8)
  {
    EightClasses(x);
    EightClasses(n);
  }

  lemma SignTable(x: int, n: int, o: int)
    requires x == 1 || x == 3 || x == 5 || x == 7
    requires n == 1 || n == 3 || n == 5 || n == 7
    requires o == (2 * x - n) % 8
    ensures Signs(Signs(Signs(Flip(o, n), Two(o)), Flip(x, o)), MinusOne(x)) == Signs(Two(n), Flip(x, n))
  {
  }

  lemma EightClasses(x: int)
    requires x % 2 == 1
    ensures x % 8 == 1 || x % 8 == 3 || x % 8 == 5 || x % 8 == 7
    ensures x % 4 == (x % 8) % 4
  {
  }

  /** (-1/n), first for even numbers. */
  lemma {:induction false} NegateEven(b: nat, n: nat)
    requires n % 2 == 1 && b % 2 == 0 && b < n
    ensures Extended(n - b, n) == MinusOne(n) * Extended(b, n)
    decreases n, 1, b
  {
    hide Extended, Jacobi, Flip, Two, MinusOne;
    var c := b / 2;
    if b == 0 {
      NegateZero(n);
    } else if c % 2 == 0 {
      NegateEven(c, n);
      DoubleOdd(n - c, n);
      Shifted(2 * (n - c), n - b, 1, n);
      DoubleSmall(c, n);
      MulAssoc(Two(n), MinusOne(n), Extended(c, n));
      MulAssoc(MinusOne(n), Two(n), Extended(c, n));
    } else {
      NegateTwice(c, n);
    }
  }

  lemma NegateZero(n: nat)
    requires n % 2 == 1
    ensures Extended(n - 0, n) == MinusOne(n) * Extended(0, n)
  {
    SmallResidue(0, n);
    Shifted(n, 0, 1, n);
  }

  lemma MinusOneTwice(n: int, s: int)
    ensures MinusOne(n) * (MinusOne(n) * s) == s
  {
  }

  lemma {:induction false} NegateTwice(c: nat, n: nat)
    requires n % 2 == 1 && c % 2 == 1 && 2 * c < n
    ensures Extended(n - 2 * c, n) == MinusOne(n) * Extended(2 * c, n)
    decreases n, 0, c
  {
    hide Extended, Jacobi, Flip, Two, MinusOne;
    var a := n - 2 * c;
    var s := Extended(a, c);
    DoubleSmall(c, n);
    Reciprocity(c, n);
    Shifted(n, a, 2, c);
    assert Extended(2 * c, n) == Two(n) * (Flip(c, n) * s);
    Reciprocity(a, n);
    Shifted(n, 2 * c, 1, a);
    Doubling(c, a);
    Reciprocity(c, a);
    assert Extended(a, n) == Flip(a, n) * (Two(a) * (Flip(c, a) * (1 * s)));
    SignsOfNegative(c, n, a);
    FourSigns(Flip(a, n), Two(a), Flip(c, a), 1, MinusOne(n) * Two(n), Flip(c, n), s);
    MulAssoc(MinusOne(n), Two(n), Flip(c, n) * s);
  }

  lemma SignsOfNegative(c: int, n: int, a: int)
    requires c % 2 == 1 && n % 2 == 1 && a == n - 2 * c
    ensures Signs(Signs(Flip(a, n), Two(a)), Flip(c, a)) == Signs(Signs(MinusOne(n), Two(n)), Flip(c, n))
  {
    hide *;
    EightClasses(c);
    EightClasses(n);
    DivModUnique(a, 2, n / 2 - c, 1);
    EightClasses(a);
    ClassOfNegative(c, n);
    NegativeTable(c % 8, n % 8, a % 8);
    SignsByClass(n);
    SignsByClass(a);
    FlipByClass(a, n);
    FlipByClass(c, a);
    FlipByClass(c, n);
  }

  lemma NegativeTable(c: int, n: int, a: int)
    requires c == 1 || c == 3 || c == 5 || c == 7
    requires n == 1 || n == 3 || n == 5 || n == 7
    requires a == (n - 2 * c) % 8
    ensures Signs(Signs(Flip(a, n), Two(a)), Flip(c, a)) == Signs(Signs(MinusOne(n), Two(n)), Flip(c, n))
  {
  }

  /** The law of the factor minus one. */
  lemma {:induction false} Negating(x: int, n: nat)
    requires n % 2 == 1
    ensures Extended(-x, n) == MinusOne(n) * Extended(x, n)
    decreases n, 2
  {
    hide Extended, Jacobi, Flip, Two, MinusOne;
    var r := x % n;
    Shifted(x, r, x / n, n);
    MulDist(-(x / n), 1, n);
    MulDist(0, x / n, n);
    Shifted(-x, n - r, -(x / n) - 1, n);
    if r % 2 == 0 {
      NegateEven(r, n);
    } else {
      NegateEven(n - r, n);
      MinusOneTwice(n, Extended(n - r, n));
    }
  }

  /** The law of the factor two. */
  lemma {:induction false} Doubling(x: int, n: nat)
    requires n % 2 == 1
    ensures Extended(2 * x, n) == Two(n) * Extended(x, n)
    decreases n, 3
  {
    hide Extended, Jacobi, Flip, Two, MinusOne;
    var r := x % n;
    Shifted(x, r, x / n, n);
    MulAssoc(2, x / n, n);
    Shifted(2 * x, 2 * r, 2 * (x / n), n);
    if 2 * r < n {
      DoubleSmall(r, n);
    } else if r % 2 == 1 {
      DoubleOdd(r, n);
    } else {
      var b := n - r;
      Negating(b, n);
      Shifted(-b, r, -1, n);
      Negating(2 * b, n);
      Shifted(-2 * b, 2 * r, -2, n);
      DoubleSmall(b, n);
      MulAssoc(MinusOne(n), Two(n), Extended(b, n));
      MulAssoc(Two(n), MinusOne(n), Extended(b, n));
    }
  }

  /** There is a function with the laws, so that they define the symbol. */
  lemma LawsHold()
    ensures Laws(Extended)
  {
    forall x: int ensures Extended(x, 1) == 1 {
      DivModUnique(x, 1, x, 0);
    }
    forall n: int | n > 1 && n % 2 == 1 ensures Extended(0, n) == 0 {
      SmallResidue(0, n);
    }
    forall x: int, n: int | n > 0 && n % 2 == 1 ensures Extended(x, n) == Extended(x % n, n) {
      Shifted(x, x % n, x / n, n);
    }
    forall x: int, n: int | n > 0 && n % 2 == 1 ensures Extended(2 * x, n) == Two(n) * Extended(x, n) {
      Doubling(x, n);
    }
    forall x: int, n: int | x > 0 && n > 0 && x % 2 == 1
        && n % 2 == 1 ensures Extended(x, n) == Flip(x, n) * Extended(n, x) {
      Reciprocity(x, n);
    }
  }

  /** The symbol is zero exactly when the two numbers share a factor. */
  lemma {:induction false} JacobiZero(x: nat, n: nat)
    requires n % 2 == 1 && x < n
    ensures Jacobi(x, n) == 0 <==> !Coprime(x, n)
    decreases n, x
  {
    if n == 1 {
      CoprimeToOne(x);
    } else if x == 0 {
      assert Divides(n, 0) && Divides(n, n);
    } else if x % 2 == 0 {
      JacobiZero(x / 2, n);
      CoprimeEven(x, n);
    } else {
      JacobiZero(n % x, x);
      CoprimeReduced(n, x);
    }
  }

  lemma ZeroMeansCommonFactor(a: int, p: int)
    requires p > 1 && p % 2 == 1
    ensures 0 <= a % p < p && (Jacobi(a % p, p) == 0 <==> !Coprime(a, p))
  {
    JacobiZero(a % p, p);
    CoprimeReduced(a, p);
    CoprimeFlip(a, p);
  }

  lemma CoprimeFlip(a: int, b: int)
    ensures Coprime(a, b) <==> Coprime(b, a)
  {
    if Coprime(a, b) {
      CoprimeSym(a, b);
    }
    if Coprime(b, a) {
      CoprimeSym(b, a);
    }
  }

  lemma CoprimeToOne(x: int)
    ensures Coprime(x, 1)
  {
    forall d: int | d >= 2 ensures !Divides(d, 1) {
      DivModUnique(1, d, 0, 1);
    }
  }

  lemma CoprimeEven(x: int, n: int)
    requires x % 2 == 0 && n % 2 == 1
    ensures Coprime(x, n) <==> Coprime(x / 2, n)
  {
    forall d: int | d >= 2 && Divides(d, n) ensures Divides(d, x) <==> Divides(d, x / 2) {
      if Divides(d, x / 2) {
        DividesMultiple(d, x / 2, 2);
      }
      if Divides(d, x) {
        OddDivisor(d, n);
        CancelTwo(x / 2, 0, d);
      }
    }
  }

  lemma CoprimeReduced(a: int, m: int)
    requires m > 0
    ensures Coprime(a % m, m) <==> Coprime(m, a)
  {
    forall d: int | Divides(d, m) ensures Divides(d, a) <==> Divides(d, a % m) {
      DividesMultiple(d, m, a / m);
      assert a == m * (a / m) + a % m;
      if Divides(d, a) {
        DividesSum(d, a, m * (a / m));
      }
      if Divides(d, a % m) {
        DividesSum(d, m * (a / m), a % m);
      }
    }
  }

  // ---------------------------------------------------------------- the loop

  /** What the parity m stands for. */
  function Sign(m: int): int {
    if m % 2 == 0 then 1 else -1
  }

  /** (2/n) to the power k */
  function TwoPower(k: int, n: int): int {
    if k % 2 == 1 then Two(n) else 1
  }

  /** The two increments of m have the parities of (2/n) to the k and of the reciprocity sign. */
  lemma Exponents(n: nat, n8: int, k: nat, x: nat, x4: int, m: int, m1: int, m2: int)
    requires n % 2 == 1 && x % 2 == 1 && n8 == n % 8 && x4 == x % 4 && 0 <= m
    requires m1 == if k % 2 == 1 then m + (n8 * n8 - 1) / 8 else m
    requires m2 == m1 + (n8 - 1) * (x4 - 1) / 4
    ensures m2 >= 0 && Sign(m2 % 2) == Sign(m) * TwoPower(k, n) * Flip(x, n)
  {
    EightClasses(n);
    EightClasses(x);
    ExponentTable(n, x, n8, x4);
    hide *;
    ExponentParity(m, (n8 * n8 - 1) / 8, (n8 - 1) * (x4 - 1) / 4, m1, m2, k, n, Flip(x, n));
  }

  lemma ExponentParity(m: int, e: int, f: int, m1: int, m2: int, k: nat, n: int, flip: int)
    requires e >= 0 && f >= 0 && m >= 0 && Sign(e) == Two(n) && Sign(f) == flip
    requires m1 == (if k % 2 == 1 then m + e else m) && m2 == m1 + f
    ensures m2 >= 0 && Sign(m2 % 2) == Sign(m) * TwoPower(k, n) * flip
  {
    hide Two, Sign;
    SignSum(m, e);
    SignSum(m1, f);
  }

  lemma ExponentTable(n: nat, x: nat, n8: int, x4: int)
    requires n8 == n % 8 && (n8 == 1 || n8 == 3 || n8 == 5 || n8 == 7) && n % 4 == n8 % 4 && x4 == x % 4
      && (x4 == 1 || x4 == 3)
    ensures var e := (n8 * n8 - 1) / 8; e >= 0 && Sign(e) == Two(n)
    ensures var f := (n8 - 1) * (x4 - 1) / 4; f >= 0 && Sign(f) == Flip(x, n)
  {
    assert 7 * 7 == 49 && 5 * 5 == 25 && 3 * 3 == 9;
  }

  lemma SignSum(a: int, b: int)
    ensures Sign(a + b) == Sign(a) * Sign(b) && Sign((a + b) % 2) == Sign(a + b)
  {
  }

  /** parity of a normalised number, and its halving by shr(x, 1) */
  method ShiftOut(cfg: Config, x: array<int>, ghost n: nat) returns (k: nat)
    requires Spare(cfg) && x.Length == cfg.nlen && Normal(x[..], cfg.Radix())
    requires n % 2 == 1 && 0 < Value(x[..], cfg.Radix()) < n
    modifies x
    ensures Normal(x[..], cfg.Radix())
    ensures 0 < Value(x[..], cfg.Radix()) <= old(Value(x[..], cfg.Radix())) && Value(x[..], cfg.Radix()) % 2 == 1
    ensures Jacobi(old(Value(x[..], cfg.Radix())), n) == TwoPower(k, n) * Jacobi(Value(x[..], cfg.Radix()), n)
  {
    k := 0;
    ghost var v := Value(x[..], cfg.Radix());
    var odd := Parity(cfg, x);
    while odd == 0
      invariant Normal(x[..], cfg.Radix()) && 0 < Value(x[..], cfg.Radix()) <= v
      invariant odd == Value(x[..], cfg.Radix()) % 2
      invariant Jacobi(v, n) == TwoPower(k, n) * Jacobi(Value(x[..], cfg.Radix()), n)
      decreases Value(x[..], cfg.Radix())
      modifies x
    {
      ghost var u := Value(x[..], cfg.Radix());
      k := k + 1;
      ShiftRightOne(cfg, x);
      HalfSymbol(u, n, k - 1, v);
      odd := Parity(cfg, x);
    }
  }

  lemma HalfSymbol(u: nat, n: nat, k: nat, v: nat)
    requires n % 2 == 1 && 0 < u < n && v < n && u % 2 == 0 && Jacobi(v, n) == TwoPower(k, n) * Jacobi(u, n)
    ensures Jacobi(v, n) == TwoPower(k + 1, n) * Jacobi(u / 2, n)
  {
    assert Jacobi(u, n) == Two(n) * Jacobi(u / 2, n);
    hide *;
    TwoPowerNext(k, n);
    MulAssoc(TwoPower(k, n), Two(n), Jacobi(u / 2, n));
  }

  lemma TwoPowerNext(k: nat, n: nat)
    ensures TwoPower(k + 1, n) == TwoPower(k, n) * Two(n)
  {
  }

  method ShiftRightOne(cfg: Config, x: array<int>)
    requires Spare(cfg) && x.Length == cfg.nlen && Normal(x[..], cfg.Radix())
    modifies x
    ensures Normal(x[..], cfg.Radix()) && Value(x[..], cfg.Radix()) == old(Value(x[..], cfg.Radix())) / 2
  {
    PowTwoOne();
    SmallShift(cfg, 1);
    NormalIsLow(x[..], cfg.Radix());
    ShrValue(cfg, x[..], 1);
    Shr(cfg, x, 1);
  }

  /** lastbits of a normalised number */
  method LowBitsValue(cfg: Config, x: array<int>, w: nat) returns (b: int)
    requires Spare(cfg) && x.Length == cfg.nlen && w <= cfg.bits && w <= 30 && Normal(x[..], cfg.Radix())
    modifies x
    ensures Normal(x[..], cfg.Radix()) && Value(x[..], cfg.Radix()) == old(Value(x[..], cfg.Radix()))
    ensures Pow(2, w) > 0 && b == Value(x[..], cfg.Radix()) % Pow(2, w)
  {
    NormalBounds(x[..], cfg.Radix());
    NormalIsLazy(cfg, x[..]);
    b := LastBits(cfg, x, w);
    NormalFromValue(x[..], cfg.Radix());
  }

  ghost predicate Numbers(cfg: Config, x: array<int>, n: array<int>, t: array<int>) {
    Spare(cfg) && cfg.bits >= 3 && x.Length == n.Length == t.Length == cfg.nlen && x != n && x != t && n != t
  }

  ghost predicate Symbol(cfg: Config, x: array<int>, n: array<int>)
    requires cfg.Valid()
    reads x, n
  {
    && Normal(x[..], cfg.Radix()) && Normal(n[..], cfg.Radix())
    && Value(n[..], cfg.Radix()) % 2 == 1
    && 0 <= Value(x[..], cfg.Radix()) < Value(n[..], cfg.Radix())
  }

  /** One pass: x loses its factors of two, and then the two numbers change places. */
  method Reciprocate(cfg: Config, x: array<int>, n: array<int>, t: array<int>, m: int) returns (m': int)
    requires Numbers(cfg, x, n, t) && Symbol(cfg, x, n) && 0 < Value(x[..], cfg.Radix())
      && Value(n[..], cfg.Radix()) > 1 && m >= 0
    modifies x, n, t
    ensures Symbol(cfg, x, n) && Value(n[..], cfg.Radix()) < old(Value(n[..], cfg.Radix())) && 0 <= m' <= 1
    ensures Sign(m') * Jacobi(Value(x[..], cfg.Radix()), Value(n[..], cfg.Radix()))
         == Sign(m) * Jacobi(old(Value(x[..], cfg.Radix())), old(Value(n[..], cfg.Radix())))
  {
    ghost var X, N := Value(x[..], cfg.Radix()), Value(n[..], cfg.Radix());
    SmallPowers();
    var n8 := LowBitsValue(cfg, n, 3);
    var k := ShiftOut(cfg, x, N);
    ghost var Y := Value(x[..], cfg.Radix());
    m' := m;
    if k % 2 == 1 { m' := m' + (n8 * n8 - 1) / 8; }
    ghost var m1 := m';
    var x4 := LowBitsValue(cfg, x, 2);
    m' := m' + (n8 - 1) * (x4 - 1) / 4;
    Exponents(N, n8, k, Y, x4, m, m1, m');
    Copy(t, n, 0);
    assert t[..] == n[..];
    NormalIsLazy(cfg, t[..]);
    NormalBounds(t[..], cfg.Radix());
    Mod(cfg, t, x);
    Copy(n, x, 0);
    assert n[..] == x[..];
    Copy(x, t, 0);
    assert x[..] == t[..];
    m' := m' % 2;
    Exchange(X, Y, N, k, m, m');
  }

  lemma SmallPowers()
    ensures Pow(2, 3) == 8 && Pow(2, 2) == 4
  {
    assert Pow(2, 3) == 2 * Pow(2, 2) && Pow(2, 2) == 2 * Pow(2, 1) && Pow(2, 1) == 2 * Pow(2, 0);
  }

  lemma Exchange(X: nat, Y: nat, N: nat, k: nat, m: int, m': int)
    requires N % 2 == 1 && N > 1 && Y % 2 == 1 && 0 < Y <= X < N
    requires Jacobi(X, N) == TwoPower(k, N) * Jacobi(Y, N)
    requires Sign(m') == Sign(m) * TwoPower(k, N) * Flip(Y, N)
    ensures Sign(m') * Jacobi(N % Y, Y) == Sign(m) * Jacobi(X, N)
  {
    assert Jacobi(Y, N) == Flip(Y, N) * Jacobi(N % Y, Y);
    hide Jacobi, Flip, TwoPower, Sign;
    var f, j := Flip(Y, N), Jacobi(N % Y, Y);
    MulAssoc(Sign(m), TwoPower(k, N), f);
    MulAssoc(TwoPower(k, N), f, j);
    MulAssoc(Sign(m), TwoPower(k, N) * f, j);
  }

  /** BIG_jacobi: the Jacobi symbol for every odd p > 1, and 0 for any other p. */
  method JacobiOf(cfg: Config, a: array<int>, p: array<int>) returns (j: int)
    requires Spare(cfg) && cfg.bits >= 3 && a.Length == p.Length == cfg.nlen && a != p
    requires Normal(a[..], cfg.Radix()) && Normal(p[..], cfg.Radix())
    modifies a
    ensures a[..] == old(a[..])
    ensures var A, P := Value(a[..], cfg.Radix()), Value(p[..], cfg.Radix());
            if P > 1 && P % 2 == 1 then j == Jacobi(A % P, P) else j == 0
  {
    ghost var A, P := Value(a[..], cfg.Radix()), Value(p[..], cfg.Radix());
    var one, zilch := new int[cfg.nlen], new int[cfg.nlen];
    One(cfg, one);
    SetZero(cfg, zilch);
    NormalBounds(a[..], cfg.Radix());
    NormalBounds(p[..], cfg.Radix());
    hide Pow, Val, Value, Config.Radix, Jacobi;
    var even := Parity(cfg, p);
    var atZero := Comp(cfg, a, zilch);
    var small := Comp(cfg, p, one);
    if even == 0 || atZero == 0 || small <= 0 {
      ZeroSymbol(A, P);
      return 0;
    }
    NormIdle(cfg, a[..]);
    Norm(cfg, a);
    j := ResidueSymbol(cfg, a, p, one, zilch);
  }

  lemma ZeroSymbol(A: int, P: int)
    ensures A == 0 && P > 1 && P % 2 == 1 ==> A % P == 0 && Jacobi(0, P) == 0
  {
    if P > 1 {
      DivModUnique(0, P, 0, 0);
    }
  }

  /** copy(x, a); copy(n, p); mod(x, p); and the loop */
  method ResidueSymbol(cfg: Config, a: array<int>, p: array<int>, one: array<int>, zilch: array<int>) returns (j: int)
    requires Spare(cfg) && cfg.bits >= 3 && a.Length == p.Length == one.Length == zilch.Length == cfg.nlen && a != p
    requires Normal(a[..], cfg.Radix()) && Normal(p[..], cfg.Radix())
    requires Value(p[..], cfg.Radix()) > 1 && Value(p[..], cfg.Radix()) % 2 == 1
    requires Normal(one[..], cfg.Radix()) && Value(one[..], cfg.Radix()) == 1
    requires Normal(zilch[..], cfg.Radix()) && Value(zilch[..], cfg.Radix()) == 0
    ensures var A, P := Value(a[..], cfg.Radix()), Value(p[..], cfg.Radix()); j == Jacobi(A % P, P)
  {
    NormalBounds(a[..], cfg.Radix());
    hide Pow, Val, Value, Normal, Lazy, LazyLimbs, Config.Radix, Jacobi;
    var t, x, n := new int[cfg.nlen], new int[cfg.nlen], new int[cfg.nlen];
    Copy(x, a, 0);
    Copy(n, p, 0);
    assert x[..] == a[..] && n[..] == p[..];
    NormalIsLazy(cfg, x[..]);
    Mod(cfg, x, p);
    j := JacobiLoop(cfg, x, n, t, one, zilch);
  }

  lemma NormIdle(cfg: Config, s: seq<int>)
    requires cfg.Valid() && |s| >= 1 && Normal(s, cfg.Radix())
    ensures LazyLimbs(cfg, s, |s| - 1) && NormLimbs(cfg, s) == s
  {
    NormalIsLazy(cfg, s);
    NormalIsLow(s, cfg.Radix());
    NormValue(cfg, s);
    LowNormalUnique(NormLimbs(cfg, s), s, cfg.Radix());
  }

  method JacobiLoop(cfg: Config, x: array<int>, n: array<int>, t: array<int>, one: array<int>, zilch: array<int>)
      returns (j: int)
    requires Numbers(cfg, x, n, t) && Symbol(cfg, x, n) && one.Length == zilch.Length == cfg.nlen
    requires one != x && one != n && one != t && zilch != x && zilch != n && zilch != t
    requires Normal(one[..], cfg.Radix()) && Value(one[..], cfg.Radix()) == 1
    requires Normal(zilch[..], cfg.Radix()) && Value(zilch[..], cfg.Radix()) == 0
    modifies x, n, t
    ensures j == Jacobi(old(Value(x[..], cfg.Radix())), old(Value(n[..], cfg.Radix())))
  {
    ghost var X, N := Value(x[..], cfg.Radix()), Value(n[..], cfg.Radix());
    var m := 0;
    hide Pow, Val, Value, Normal, Digits, Config.Radix;
    var larger := Comp(cfg, n, one);
    while larger > 0
      invariant Symbol(cfg, x, n) && 0 <= m <= 1
      invariant larger > 0 <==> Value(n[..], cfg.Radix()) > 1
      invariant Normal(one[..], cfg.Radix()) && Value(one[..], cfg.Radix()) == 1
      invariant Normal(zilch[..], cfg.Radix()) && Value(zilch[..], cfg.Radix()) == 0
      invariant Sign(m) * Jacobi(Value(x[..], cfg.Radix()), Value(n[..], cfg.Radix())) == Jacobi(X, N)
      decreases Value(n[..], cfg.Radix())
      modifies x, n, t
    {
      var isZero := Comp(cfg, x, zilch);
      if isZero == 0 {
        assert Jacobi(0, Value(n[..], cfg.Radix())) == 0;
        return 0;
      }
      m := Reciprocate(cfg, x, n, t, m);
      larger := Comp(cfg, n, one);
    }
    j := if m == 0 then 1 else -1;
  }
}
