/** The Jacobi symbol computed by the factor-two and reciprocity rules is multiplicative in both arguments.
    The proof is by induction on the lower argument, from the rules alone. */
module JacobiProduct {
  import opened Arith
  import opened BigJacobi

  // ---------------------------------------------------------------- signs

  /** v, or -v if b */
  function Neg(b: bool, v: int): int {
    if b then -v else v
  }

  /** x is 3 modulo 4: (-1/x) is -1. */
  predicate H(x: int) {
    x % 4 == 3
  }

  /** x is 3 or 5 modulo 8: (2/x) is -1. */
  predicate T(x: int) {
    x % 8 == 3 || x % 8 == 5
  }

  predicate Odd(k: nat) {
    k % 2 == 1
  }

  lemma NegProduct(b: bool, v: int, c: bool, w: int)
    ensures Neg(b, v) * Neg(c, w) == Neg(b != c, v * w)
  {
    MulDist(0, v, w);
    MulDist(0, w, v);
  }

  lemma Flipped(x: nat, n: nat)
    requires x % 2 == 1 && n % 2 == 1
    ensures Extended(x, n) == Neg(H(x) && H(n), Extended(n, x))
  {
    hide Extended;
    Reciprocity(x, n);
  }

  lemma Minus(x: int, n: nat)
    requires n % 2 == 1
    ensures Extended(-x, n) == Neg(H(n), Extended(x, n))
  {
    hide Extended;
    EightClasses(n);
    Negating(x, n);
  }

  lemma Twice(x: int, n: nat)
    requires n % 2 == 1
    ensures Extended(2 * x, n) == Neg(T(n), Extended(x, n))
  {
    hide Extended;
    EightClasses(n);
    Doubling(x, n);
  }

  /** A power of two in front. */
  lemma {:induction false} Powers(e: nat, x: int, n: nat)
    requires n % 2 == 1
    ensures Extended(Pow(2, e) * x, n) == Neg(Odd(e) && T(n), Extended(x, n))
    decreases e
  {
    hide Extended, T;
    if e == 0 {
      assert Pow(2, 0) * x == x;
    } else {
      Powers(e - 1, x, n);
      MulAssoc(2, Pow(2, e - 1), x);
      Twice(Pow(2, e - 1) * x, n);
    }
  }

  lemma {:induction false} SplitTwos(w: nat) returns (e: nat, o: nat)
    requires w >= 1
    ensures w == Pow(2, e) * o && o % 2 == 1 && 1 <= o <= w && (e == 0 <==> w % 2 == 1)
    decreases w
  {
    if w % 2 == 1 {
      e, o := 0, w;
      assert Pow(2, 0) * w == w;
    } else {
      var d;
      d, o := SplitTwos(w / 2);
      e := d + 1;
      MulAssoc(2, Pow(2, d), o);
    }
  }

  lemma CoprimeSign(x: nat, n: nat)
    requires n % 2 == 1 && Coprime(x, n)
    ensures Extended(x, n) == 1 || Extended(x, n) == -1
  {
    CoprimeFlip(x, n);
    CoprimeReduced(x, n);
    JacobiZero(x % n, n);
  }

  lemma ZeroSymbol(n: nat)
    requires n % 2 == 1 && n > 1
    ensures Extended(0, n) == 0
  {
    SmallResidue(0, n);
  }

  lemma SymbolOfOne(x: int)
    ensures Extended(x, 1) == 1
  {
    DivModUnique(x, 1, x, 0);
  }

  // ---------------------------------------------------------------- classes

  lemma ProductClass(x: int, y: int)
    requires x % 2 == 1 && y % 2 == 1
    ensures (x * y) % 2 == 1 && H(x * y) == (H(x) != H(y)) && T(x * y) == (T(x) != T(y))
  {
    EightClasses(x);
    EightClasses(y);
    CongOfMod(x, 8);
    CongOfMod(y, 8);
    CongMul(x % 8, x, y % 8, y, 8);
    CongMod((x % 8) * (y % 8), x * y, 8);
    ClassTable(x % 8, y % 8);
    var w := x * y;
    hide *;
    EightsOf(w);
    EightsOf(x);
    EightsOf(y);
  }

  lemma ClassTable(x: int, y: int)
    requires (x == 1 || x == 3 || x == 5 || x == 7) && (y == 1 || y == 3 || y == 5 || y == 7)
    ensures (x * y) % 8 % 2 == 1 && H((x * y) % 8) == (H(x) != H(y)) && T((x * y) % 8) == (T(x) != T(y))
  {
  }

  lemma EightsOf(x: int)
    ensures x % 2 == x % 8 % 2 && H(x) == H(x % 8) && T(x) == T(x % 8)
  {
    DivModUnique(x, 2, 4 * (x / 8) + x % 8 / 2, x % 8 % 2);
    DivModUnique(x, 4, 2 * (x / 8) + x % 8 / 4, x % 8 % 4);
  }

  /** w - 2v, w - 4v and w - 8v for odd v and w. */
  lemma ShiftedClass(w: int, v: int)
    requires w % 2 == 1 && v % 2 == 1
    ensures H(w - 2 * v) == !H(w) && T(w - 2 * v) == ((T(w) != H(w)) != H(v))
    ensures H(w - 4 * v) == H(w) && T(w - 4 * v) == !T(w)
  {
    var r, s := w % 8, v % 8;
    EightClasses(w);
    EightClasses(v);
    var d, g := r - 2 * s, r - 4 * s;
    DivModUnique(w - 2 * v, 8, w / 8 - 2 * (v / 8) + d / 8, d % 8);
    DivModUnique(w - 4 * v, 8, w / 8 - 4 * (v / 8) + g / 8, g % 8);
    ShiftTable(r, s);
    hide *;
    EightsOf(w);
    EightsOf(v);
    EightsOf(w - 2 * v);
    EightsOf(w - 4 * v);
  }

  lemma ShiftTable(r: int, s: int)
    requires (r == 1 || r == 3 || r == 5 || r == 7) && (s == 1 || s == 3 || s == 5 || s == 7)
    ensures H((r - 2 * s) % 8) == !H(r) && T((r - 2 * s) % 8) == ((T(r) != H(r)) != H(s))
    ensures H((r - 4 * s) % 8) == H(r) && T((r - 4 * s) % 8) == !T(r)
  {
  }

  lemma EightfoldClass(w: int, k: int)
    ensures H(w - 8 * k) == H(w) && T(w - 8 * k) == T(w)
  {
    DivModUnique(w - 8 * k, 8, w / 8 - k, w % 8);
    hide *;
    EightsOf(w);
    EightsOf(w - 8 * k);
  }

  /** The class of w - 2^e * v. */
  lemma PowerClass(w: int, e: nat, v: int)
    requires w % 2 == 1 && v % 2 == 1
    ensures var z := w - Pow(2, e) * v;
            && (e == 1 ==> H(z) == !H(w) && T(z) == ((T(w) != H(w)) != H(v)))
            && (e == 2 ==> H(z) == H(w) && T(z) == !T(w))
            && (e >= 3 ==> H(z) == H(w) && T(z) == T(w))
  {
    assert Pow(2, 1) == 2 * Pow(2, 0) && Pow(2, 2) == 2 * Pow(2, 1) && Pow(2, 3) == 2 * Pow(2, 2);
    hide H, T;
    if e == 1 || e == 2 {
      ShiftedClass(w, v);
    } else if e >= 3 {
      PowAdd(2, 3, e - 3);
      MulAssoc(8, Pow(2, e - 3), v);
      EightfoldClass(w, Pow(2, e - 3) * v);
    }
  }

  lemma NegatedClass(z: int)
    requires z % 2 == 1
    ensures (-z) % 2 == 1 && H(-z) == !H(z) && T(-z) == T(z)
  {
    EightClasses(z);
    DivModUnique(-z, 2, -(z / 2) - 1, 1);
    DivModUnique(-z, 8, -(z / 8) - 1, 8 - z % 8);
    var w := -z;
    EightsOf(w);
    EightsOf(z);
  }

  /** The signs of CoprimeProduct cancel: x*y = 2^e*a*n + 2^f*z with one of e and f zero. */
  lemma SignsCancel(x: int, y: int, n: int, a: int, z: int, e: nat, f: nat)
    requires x % 2 == 1 && y % 2 == 1 && n % 2 == 1 && a % 2 == 1 && z % 2 == 1
    requires x * y == Pow(2, e) * (a * n) + Pow(2, f) * z && (e == 0) != (f == 0)
    ensures ((((((Odd(f) && T(n)) != (H(z) && H(n))) != (Odd(e) && T(z))) != (H(a) && H(z))) != (Odd(f) && T(a)))
             != Turned(x, n, a, z, e, f)) == Turned(y, n, a, z, e, f)
  {
    ProductClass(x, y);
    ProductClass(a, n);
    assert Pow(2, 0) == 1;
    if f == 0 {
      PowerClass(x * y, e, a * n);
      assert z == x * y - Pow(2, e) * (a * n);
    } else {
      NegatedClass(z);
      PowerClass(a * n, f, -z);
      assert x * y == a * n - Pow(2, f) * (-z) by { MulDist(0, z, Pow(2, f)); }
    }
    hide *;
    TurnedBits(x, n, a, z, e, f);
    TurnedBits(y, n, a, z, e, f);
    BitsCancel(H(x), H(y), H(n), H(a), H(z), T(x), T(y), T(n), T(a), T(z), e, f);
    OddIs(e);
    OddIs(f);
  }

  lemma OddIs(k: nat)
    ensures Odd(k) == (k % 2 == 1)
  {
  }

  lemma BitsCancel(hx: bool, hy: bool, hn: bool, ha: bool, hz: bool, tx: bool, ty: bool, tn: bool, ta: bool, tz: bool,
      e: nat, f: nat)
    requires (e == 0) != (f == 0)
    requires e == 1 ==> hz == (hx == hy) && tz == (((tx != ty) != (hx != hy)) != (ha != hn))
    requires e == 2 ==> hz == (hx != hy) && tz == (tx == ty)
    requires e >= 3 ==> hz == (hx != hy) && tz == (tx != ty)
    requires f == 1 ==> (hx != hy) == (ha == hn) && (tx != ty) == (((ta != tn) != (ha != hn)) == hz)
    requires f == 2 ==> (hx != hy) == (ha != hn) && (tx != ty) == (ta == tn)
    requires f >= 3 ==> (hx != hy) == (ha != hn) && (tx != ty) == (ta != tn)
    ensures var eo, fo := e % 2 == 1, f % 2 == 1;
            ((((((fo && tn) != (hz && hn)) != (eo && tz)) != (ha && hz)) != (fo && ta))
             != ((((((hx && hz) != (fo && tx)) != hx) != (eo && tx)) != (ha && hx)) != (hn && hx)))
            == ((((((hy && hz) != (fo && ty)) != hy) != (eo && ty)) != (ha && hy)) != (hn && hy))
  {
  }

  lemma TurnedBits(x: int, n: int, a: int, z: int, e: nat, f: nat)
    ensures Turned(x, n, a, z, e, f)
         == ((((((H(x) && H(z)) != (Odd(f) && T(x))) != H(x)) != (Odd(e) && T(x))) != (H(a) && H(x))) != (H(n) && H(x)))
  {
    hide H, T, Odd;
  }

  /** The sign between (x/z) and (x/a)(x/n). */
  predicate Turned(x: int, n: int, a: int, z: int, e: nat, f: nat) {
    (((((H(x) && H(z)) != (Odd(f) && T(x))) != H(x)) != (Odd(e) && T(x))) != (H(a) && H(x))) != (H(n) && H(x))
  }

  // ---------------------------------------------------------------- the induction

  /** The symbol is multiplicative in the upper argument. */
  lemma {:induction false} Multiplicative(x: int, y: int, n: nat)
    requires n % 2 == 1
    ensures Extended(x * y, n) == Extended(x, n) * Extended(y, n)
    decreases n, 9
  {
    hide Extended;
    var r, k := ResidueOf(x, n);
    var s, l := ResidueOf(y, n);
    Shifted(x, r, k, n);
    Shifted(y, s, l, n);
    ProductShift(x, y, r, s, k, l, n);
    Shifted(x * y, r * s, k * y + r * l, n);
    ResidueProduct(r, s, n);
  }

  lemma ProductShift(x: int, y: int, r: int, s: int, k: int, l: int, n: int)
    requires x == k * n + r && y == l * n + s
    ensures x * y == r * s + (k * y + r * l) * n
  {
    MulDist(k * n, r, y);
    MulDist(l * n, s, r);
    MulDist(k * y, r * l, n);
    assert (k * n) * y == (k * y) * n by { MulAssoc(k, n, y); MulAssoc(k, y, n); assert n * y == y * n; }
    MulAssoc(r, l, n);
  }

  lemma {:induction false} ResidueProduct(x: nat, y: nat, n: nat)
    requires n % 2 == 1 && x < n && y < n
    ensures Extended(x * y, n) == Extended(x, n) * Extended(y, n)
    decreases n, 8, x + y
  {
    hide Extended;
    if n == 1 {
      SymbolOfOne(x * y);
      SymbolOfOne(x);
      SymbolOfOne(y);
    } else if x == 0 || y == 0 {
      ZeroSymbol(n);
      assert x * y == 0;
    } else if x % 2 == 0 {
      var h := x / 2;
      ResidueProduct(h, y, n);
      Twice(h, n);
      Twice(h * y, n);
      MulAssoc(2, h, y);
      NegProduct(T(n), Extended(h, n), false, Extended(y, n));
    } else if y % 2 == 0 {
      var h := y / 2;
      ResidueProduct(x, h, n);
      Twice(h, n);
      Twice(x * h, n);
      assert x * y == 2 * (x * h) by { MulAssoc(x, 2, h); MulAssoc(2, x, h); assert x * 2 == 2 * x; }
      NegProduct(false, Extended(x, n), T(n), Extended(h, n));
    } else {
      OddProduct(x, y, n);
    }
  }

  lemma {:induction false} OddProduct(x: nat, y: nat, n: nat)
    requires n % 2 == 1 && x < n && y < n && x % 2 == 1 && y % 2 == 1
    ensures Extended(x * y, n) == Extended(x, n) * Extended(y, n)
    decreases n, 7, x + y, 1
  {
    hide Extended;
    if x * y < n {
      SmallProduct(x, y, n);
    } else {
      var a, z := x * y / n, x * y % n;
      assert x * y == a * n + z;
      QuotientSmall(x, y, n, a, z);
      if !Coprime(x, a) {
        var d: int :| d >= 2 && Divides(d, x) && Divides(d, a);
        Descend(d, x, y, n, a, z);
      } else if !Coprime(y, a) {
        var d: int :| d >= 2 && Divides(d, y) && Divides(d, a);
        assert x * y == y * x;
        Descend(d, y, x, n, a, z);
      } else if z == 0 {
        ZeroProduct(x, y, n, a);
      } else {
        CoprimeProduct(x, y, n, a, z);
      }
    }
  }

  lemma QuotientSmall(x: nat, y: nat, n: nat, a: int, z: int)
    requires x < n && y < n && x * y >= n && x * y == a * n + z && 0 <= z < n
    ensures 1 <= a < x && a < y
  {
    if a <= 0 {
      MulMono(a, 0, n);
    }
    if a >= x {
      MulMono(x, a, n);
      MulMono(y, n - 1, x);
      MulDist(n, 1, x);
    }
    if a >= y {
      MulMono(y, a, n);
      MulMono(x, n - 1, y);
      MulDist(n, 1, y);
    }
  }

  lemma Regroup(k: int, x: int, y: int, n: int, s: int)
    requires n == k * (x * y) + s
    ensures n == s + (k * y) * x
  {
    MulAssoc(k, y, x);
    assert y * x == x * y;
  }

  /** x*y below n: by reciprocity, and the law for the lower argument with a smaller upper one. */
  lemma {:induction false} SmallProduct(x: nat, y: nat, n: nat)
    requires n % 2 == 1 && 1 <= x && 1 <= y && x * y < n
    ensures Extended(x * y, n) == Extended(x, n) * Extended(y, n)
    decreases n, 6, x + y
  {
    hide Extended;
    if x % 2 == 0 {
      var h := x / 2;
      MulAssoc(2, h, y);
      MulMono(1, h, y);
      SmallProduct(h, y, n);
      Twice(h, n);
      Twice(h * y, n);
      NegProduct(T(n), Extended(h, n), false, Extended(y, n));
    } else if y % 2 == 0 {
      var h := y / 2;
      assert x * y == 2 * (x * h) by { MulAssoc(x, 2, h); MulAssoc(2, x, h); assert x * 2 == 2 * x; }
      MulMono(1, x, h);
      SmallProduct(x, h, n);
      Twice(h, n);
      Twice(x * h, n);
      NegProduct(false, Extended(x, n), T(n), Extended(h, n));
    } else {
      SmallOdd(x, y, n);
    }
  }

  lemma {:induction false} SmallOdd(x: nat, y: nat, n: nat)
    requires n % 2 == 1 && x % 2 == 1 && y % 2 == 1 && 1 <= x * y < n
    ensures Extended(x * y, n) == Extended(x, n) * Extended(y, n)
    decreases n, 5
  {
    hide Extended, H, T;
    ProductClass(x, y);
    var s := LowerResidue(n, x, y);
    Lower(s, x, y, n);
    Flipped(x * y, n);
    Flipped(x, n);
    Flipped(y, n);
    NegProduct(H(x) && H(n), Extended(n, x), H(y) && H(n), Extended(n, y));
  }

  /** A residue modulo x*y stands for a modulo x and modulo y too. */
  lemma LowerResidue(a: int, x: nat, y: nat) returns (s: nat)
    requires x % 2 == 1 && y % 2 == 1
    ensures x * y > 0 && s < x * y
    ensures Extended(a, x * y) == Extended(s, x * y) && Extended(a, x) == Extended(s, x)
      && Extended(a, y) == Extended(s, y)
  {
    hide Extended;
    MulMono(1, x, y);
    var k;
    s, k := ResidueOf(a, x * y);
    Shifted(a, s, k, x * y);
    ShiftedFactor(a, s, k, x, y);
    assert x * y == y * x;
    ShiftedFactor(a, s, k, y, x);
  }

  lemma ShiftedFactor(a: int, s: int, k: int, x: nat, y: nat)
    requires x > 0 && a == k * (x * y) + s
    ensures Extended(a, x) == Extended(s, x)
  {
    hide Extended;
    Regroup(k, x, y, a, s);
    Shifted(a, s, k * y, x);
  }

  lemma ResidueOf(a: int, p: int) returns (s: nat, k: int)
    requires p > 0
    ensures a == k * p + s && s < p
  {
    s, k := a % p, a / p;
  }

  /** The law for the lower argument, for s below n. */
  lemma {:induction false} Lower(s: nat, x: nat, y: nat, n: nat)
    requires s < n && x % 2 == 1 && y % 2 == 1 && (x * y) % 2 == 1
    ensures Extended(s, x * y) == Extended(s, x) * Extended(s, y)
    decreases n, 4, s
  {
    hide Extended;
    ProductClass(x, y);
    if s == 0 {
      LowerZero(x, y);
    } else if s % 2 == 0 {
      var h := s / 2;
      Lower(h, x, y, n);
      Twice(h, x * y);
      Twice(h, x);
      Twice(h, y);
      NegProduct(T(x), Extended(h, x), T(y), Extended(h, y));
    } else {
      Multiplicative(x, y, s);
      Flipped(s, x * y);
      Flipped(s, x);
      Flipped(s, y);
      NegProduct(H(s) && H(x), Extended(x, s), H(s) && H(y), Extended(y, s));
    }
  }

  lemma LowerZero(x: nat, y: nat)
    requires x % 2 == 1 && y % 2 == 1 && (x * y) % 2 == 1
    ensures Extended(0, x * y) == Extended(0, x) * Extended(0, y)
  {
    hide Extended;
    MulMono(1, x, y);
    if x == 1 {
      SymbolOfOne(0);
      assert x * y == y;
    } else {
      ZeroSymbol(x);
      ZeroSymbol(x * y);
    }
  }

  /** A common divisor of x and the quotient can be taken out. */
  lemma {:induction false} Descend(d: nat, x: nat, y: nat, n: nat, a: nat, z: nat)
    requires n % 2 == 1 && x < n && y < n && x % 2 == 1 && y % 2 == 1
    requires x * y == a * n + z && z < n && d >= 2 && Divides(d, x) && Divides(d, a)
    ensures Extended(x * y, n) == Extended(x, n) * Extended(y, n)
    decreases n, 7, x + y, 0
  {
    hide Extended;
    var x1, a1 := x / d, a / d;
    TakeOut(d, x, x1);
    TakeOut(d, a, a1);
    var z1 := x1 * y - a1 * n;
    Remainder(d, x1, y, a1, n, z, z1);
    OddFactor(d, x, x1);
    OddProduct(x1, y, n);
    Shifted(x1 * y, z1, a1, n);
    Shifted(x * y, z, a, n);
    SmallProduct(d, x1, n);
    if z1 == 0 {
      ZeroSymbol(n);
      assert d * 0 == 0;
    } else {
      SmallProduct(d, z1, n);
    }
    MulAssoc(Extended(d, n), Extended(x1, n), Extended(y, n));
  }

  lemma TakeOut(d: nat, x: nat, x1: nat)
    requires d >= 2 && Divides(d, x) && x1 == x / d
    ensures x == d * x1 && (x > 0 ==> 1 <= x1 < x)
  {
    assert x == x1 * d;
    if x > 0 {
      if x1 == 0 {
        assert false;
      }
      MulMono(2, d, x1);
    }
  }

  lemma OddFactor(d: nat, x: nat, x1: nat)
    requires d >= 2 && x == d * x1 && x % 2 == 1
    ensures x1 % 2 == 1
  {
    EvenProduct(d, x1 / 2);
  }

  lemma EvenProduct(d: nat, h: nat)
    ensures (d * (2 * h)) % 2 == 0
  {
    MulAssoc(d, 2, h);
    MulAssoc(2, d, h);
    assert d * (2 * h) == 2 * (d * h);
  }

  lemma Remainder(d: nat, x1: nat, y: nat, a1: nat, n: nat, z: nat, z1: int)
    requires d >= 2 && (d * x1) * y == (d * a1) * n + z && z < n && z1 == x1 * y - a1 * n
    ensures z == d * z1 && 0 <= z1 < n
  {
    MulAssoc(d, x1, y);
    MulAssoc(d, a1, n);
    MulDist(x1 * y, a1 * n, d);
    if z1 < 0 {
      MulMono(z1, -1, d);
    }
    MulMono(1, d, z1);
  }

  /** n divides x*y, and x and y are prime to the quotient: then the quotient is one. */
  lemma {:induction false} ZeroProduct(x: nat, y: nat, n: nat, a: nat)
    requires n % 2 == 1 && x < n && y < n && x % 2 == 1 && y % 2 == 1
    requires x * y == a * n && 1 <= a < x && Coprime(x, a) && Coprime(y, a)
    ensures Extended(x * y, n) == Extended(x, n) * Extended(y, n)
    decreases n, 6, x + y
  {
    hide Extended;
    ProductClass(x, y);
    ZeroSymbol(n);
    Shifted(x * y, 0, a, n);
    if a == 1 {
      FactorSymbol(x, y, n);
    } else {
      OddFactor2(a, n, x * y);
      Multiplicative(x, y, a);
      assert a * n == n * a;
      Shifted(x * y, 0, n, a);
      ZeroSymbol(a);
      CoprimeSign(x, a);
      CoprimeSign(y, a);
      NoZero(Extended(x, a), Extended(y, a));
      assert false;
    }
  }

  lemma OddFactor2(a: nat, n: nat, w: nat)
    requires w == a * n && w % 2 == 1
    ensures a % 2 == 1
  {
    if a % 2 == 0 {
      var h := a / 2;
      MulAssoc(2, h, n);
    }
  }

  lemma NoZero(p: int, q: int)
    requires (p == 1 || p == -1) && (q == 1 || q == -1)
    ensures p * q != 0 && p * p == 1 && q * q == 1
  {
  }

  /** A proper factor of n has the symbol zero. */
  lemma FactorSymbol(x: nat, y: nat, n: nat)
    requires n % 2 == 1 && n == x * y && x < n && y < n
    ensures Extended(x, n) == 0
  {
    assert x > 1;
    DivModUnique(x, x, 1, 0);
    assert y * x == n;
    DivModUnique(n, x, y, 0);
    assert Divides(x, x) && Divides(x, n);
    JacobiZero(x, n);
    SmallResidue(x, n);
  }

  // ---------------------------------------------------------------- the main case

  /** (x/z) from (x/n), by reciprocity modulo x. */
  lemma {:induction false} Turn(x: nat, y: nat, n: nat, a: nat, z: nat, e: nat, f: nat, a': nat, z': nat)
    requires n % 2 == 1 && x < n && x % 2 == 1 && a' % 2 == 1 && z' % 2 == 1
    requires x * y == a * n + z && a == Pow(2, e) * a' && z == Pow(2, f) * z'
    ensures Extended(x, z') == Neg(Turned(x, n, a', z', e, f), Extended(x, a') * Extended(x, n))
    decreases n, 5
  {
    hide Extended, T, H, Pow;
    Flipped(x, z');
    Powers(f, z', x);
    assert z == -(a * n) + y * x by { assert x * y == y * x; }
    Shifted(z, -(a * n), y, x);
    Minus(a * n, x);
    Multiplicative(a, n, x);
    Powers(e, a', x);
    Flipped(a', x);
    Flipped(n, x);
    TurnSigns(Extended(x, z'), Extended(z', x), Extended(z, x), Extended(a * n, x), Extended(a, x), Extended(n, x),
              Extended(a', x), Extended(x, a'), Extended(x, n), x, n, a', z', e, f);
  }

  lemma TurnSigns(xz: int, zx': int, zx: int, anx: int, ax: int, nx: int, ax': int, xa: int, xn: int,
                  x: int, n: int, a: int, z: int, e: nat, f: nat)
    requires xz == Neg(H(x) && H(z), zx') && zx == Neg(Odd(f) && T(x), zx') && zx == Neg(H(x), anx) && anx == ax * nx
    requires ax == Neg(Odd(e) && T(x), ax') && ax' == Neg(H(a) && H(x), xa) && nx == Neg(H(n) && H(x), xn)
    ensures xz == Neg(Turned(x, n, a, z, e, f), xa * xn)
  {
    NegProduct((Odd(e) && T(x)) != (H(a) && H(x)), xa, H(n) && H(x), xn);
    var w := xa * xn;
    hide H, T, Odd;
    assert anx == Neg(((Odd(e) && T(x)) != (H(a) && H(x))) != (H(n) && H(x)), w);
  }

  lemma {:induction false} CoprimeProduct(x: nat, y: nat, n: nat, a: nat, z: nat)
    requires n % 2 == 1 && x < n && y < n && x % 2 == 1 && y % 2 == 1
    requires x * y == a * n + z && 1 <= a < x && 1 <= z < n && Coprime(x, a) && Coprime(y, a)
    ensures Extended(x * y, n) == Extended(x, n) * Extended(y, n)
    decreases n, 6, x + y
  {
    hide Extended, T, H, Pow, Turned;
    var e, a' := SplitTwos(a);
    var f, z' := SplitTwos(z);
    OneIsEven(x, y, n, a, z);
    CoprimePart(x, a, a', Pow(2, e));
    CoprimePart(y, a, a', Pow(2, e));
    CoprimeSign(x, a');
    CoprimeSign(y, a');
    Turn(x, y, n, a, z, e, f, a', z');
    assert y * x == x * y;
    Turn(y, x, n, a, z, e, f, a', z');
    UpperSide(x, y, n, a, z, e, f, a', z');
    MiddleSide(x, y, n, a, z, e, f, a', z');
    OuterSide(x, y, n, a, z, f, z');
    OddParts(x * y, n, a, z, Pow(2, e), a', Pow(2, f) * z');
    SignsCancel(x, y, n, a', z', e, f);
    Combine(Extended(x, a'), Extended(y, a'), Extended(x, n), Extended(y, n), Extended(z', a'), Extended(a, z'),
        Extended(n, z'),
            Extended(x, z'), Extended(y, z'), Extended(x * y, n), x, y, n, a', z', e, f);
  }

  lemma OddParts(w: int, n: int, a: int, z: int, p: int, a': int, z': int)
    requires w == a * n + z && a == p * a' && z == z'
    ensures w == p * (a' * n) + z'
  {
    MulAssoc(p, a', n);
  }

  lemma OneIsEven(x: nat, y: nat, n: nat, a: nat, z: nat)
    requires n % 2 == 1 && x % 2 == 1 && y % 2 == 1 && x * y == a * n + z
    ensures (a % 2 == 1) != (z % 2 == 1)
  {
    ProductClass(x, y);
    if a % 2 == 1 {
      ProductClass(a, n);
      OddSum(x * y, a * n, z);
    } else {
      MulAssoc(2, a / 2, n);
      OddSum(x * y, 2 * ((a / 2) * n), z);
    }
  }

  lemma OddSum(w: int, u: int, z: int)
    requires w == u + z && w % 2 == 1
    ensures (u % 2 == 1) != (z % 2 == 1)
  {
  }

  lemma CoprimePart(x: nat, a: nat, a': nat, p: int)
    requires Coprime(x, a) && a == p * a'
    ensures Coprime(x, a')
  {
    forall d: int | d >= 2 && Divides(d, x) ensures !Divides(d, a') {
      if Divides(d, a') {
        DividesMultiple(d, a', p);
      }
    }
  }

  /** Modulo the odd part of the quotient. */
  lemma {:induction false} UpperSide(x: nat, y: nat, n: nat, a: nat, z: nat, e: nat, f: nat, a': nat, z': nat)
    requires n % 2 == 1 && a' % 2 == 1 && z' % 2 == 1 && a' < n
    requires x * y == a * n + z && a == Pow(2, e) * a' && z == Pow(2, f) * z'
    ensures Extended(x, a') * Extended(y, a') == Neg(Odd(f) && T(a'), Extended(z', a'))
    decreases n, 5
  {
    hide Extended, T, H, Pow;
    Multiplicative(x, y, a');
    assert x * y == z + (Pow(2, e) * n) * a' by {
      MulAssoc(Pow(2, e), a', n);
      MulAssoc(Pow(2, e), n, a');
      assert a' * n == n * a';
    }
    Shifted(x * y, z, Pow(2, e) * n, a');
    Powers(f, z', a');
  }

  /** Modulo the odd part of the remainder. */
  lemma {:induction false} MiddleSide(x: nat, y: nat, n: nat, a: nat, z: nat, e: nat, f: nat, a': nat, z': nat)
    requires n % 2 == 1 && a' % 2 == 1 && z' % 2 == 1 && z' < n
    requires x * y == a * n + z && a == Pow(2, e) * a' && z == Pow(2, f) * z'
    ensures Extended(a, z') * Extended(n, z') == Extended(x, z') * Extended(y, z')
    ensures Extended(a, z') == Neg((Odd(e) && T(z')) != (H(a') && H(z')), Extended(z', a'))
    decreases n, 5
  {
    hide Extended, T, H, Pow;
    Multiplicative(x, y, z');
    Multiplicative(a, n, z');
    Shifted(x * y, a * n, Pow(2, f), z');
    Powers(e, a', z');
    Flipped(a', z');
  }

  /** Modulo n. */
  lemma OuterSide(x: nat, y: nat, n: nat, a: nat, z: nat, f: nat, z': nat)
    requires n % 2 == 1 && z' % 2 == 1 && x * y == a * n + z && z == Pow(2, f) * z'
    ensures Extended(x * y, n) == Neg((Odd(f) && T(n)) != (H(z') && H(n)), Extended(n, z'))
  {
    hide Extended, T, H, Pow;
    Shifted(x * y, z, a, n);
    Powers(f, z', n);
    Flipped(z', n);
  }

  lemma Combine(p: int, q: int, X: int, Y: int, za: int, az: int, nz: int, xz: int, yz: int, w: int,
                x: int, y: int, n: int, a: int, z: int, e: nat, f: nat)
    requires (p == 1 || p == -1) && (q == 1 || q == -1)
    requires xz == Neg(Turned(x, n, a, z, e, f), p * X) && yz == Neg(Turned(y, n, a, z, e, f), q * Y)
    requires p * q == Neg(Odd(f) && T(a), za) && az == Neg((Odd(e) && T(z)) != (H(a) && H(z)), za) && az * nz == xz * yz
    requires w == Neg((Odd(f) && T(n)) != (H(z) && H(n)), nz)
    requires ((((((Odd(f) && T(n)) != (H(z) && H(n))) != (Odd(e) && T(z))) != (H(a) && H(z))) != (Odd(f) && T(a)))
             != Turned(x, n, a, z, e, f)) == Turned(y, n, a, z, e, f)
    ensures w == X * Y
  {
    hide H, T, Odd, Turned;
    NegProduct(Turned(x, n, a, z, e, f), p * X, Turned(y, n, a, z, e, f), q * Y);
    Words.FourFactors(p, X, q, Y);
    NoZero(p, q);
    var s := p * q;
    assert s == 1 || s == -1;
    var b := (Odd(f) && T(a)) != ((Odd(e) && T(z)) != (H(a) && H(z)));
    assert az == Neg(b, s);
    NegProduct(b, s, false, nz);
    Cancel(b, Turned(x, n, a, z, e, f) != Turned(y, n, a, z, e, f), s, nz, X * Y);
  }

  lemma Cancel(b: bool, c: bool, s: int, v: int, w: int)
    requires (s == 1 || s == -1) && Neg(b, s * v) == Neg(c, s * w)
    ensures v == Neg(b != c, w)
  {
  }

  // ---------------------------------------------------------------- consequences

  /** And in the lower argument. */
  lemma LowerMultiplicative(a: int, m: nat, n: nat)
    requires m % 2 == 1 && n % 2 == 1
    ensures (m * n) % 2 == 1 && Extended(a, m * n) == Extended(a, m) * Extended(a, n)
  {
    hide Extended;
    ProductClass(m, n);
    var s := LowerResidue(a, m, n);
    Lower(s, m, n, s + 1);
  }

  /** A square prime to n has the symbol one. */
  lemma Squares(x: int, n: nat)
    requires n % 2 == 1 && Coprime(x % n, n)
    ensures Extended(x * x, n) == 1
  {
    hide Extended;
    Multiplicative(x, x, n);
    Shifted(x, x % n, x / n, n);
    CoprimeSign(x % n, n);
    NoZero(Extended(x, n), Extended(x, n));
  }
}
