/** The field of 256 elements and the S-box, as FIPS 197 defines them. */
module AesField {
  import opened AesWord

  // ---------------------------------------------------------------- the field

  /** y if x has the given bit, else zero. */
  function Term(x: byte, bit: byte, y: byte): byte {
    if x & bit != 0 then y else 0
  }

  function Times16(y: byte): byte {
    Times2(Times2(Times2(Times2(y))))
  }

  /** The multiples of y that the low four bits of x select, when bit is 1; the high four, when it is 16. */
  function Half(x: byte, bit: byte, y: byte): byte
    requires bit == 1 || bit == 16
  {
    X(X(Term(x, bit, y), Term(x, bit << 1, Times2(y))),
      X(Term(x, bit << 2, Times2(Times2(y))), Term(x, bit << 3, Times2(Times2(Times2(y))))))
  }

  /** Multiplication in the field (section 4.2 of FIPS 197): the sum of the multiples of y by those powers of the
      indeterminate that x has. */
  function Times(x: byte, y: byte): byte {
    X(Half(x, 1, y), Half(x, 16, Times16(y)))
  }

  lemma ShiftXor(x: byte, y: byte)
    ensures X(x, y) << 1 == X(x << 1, y << 1) && (X(x, y) < 0x80 <==> (x < 0x80 <==> y < 0x80))
  {
  }

  lemma Times2Form(x: byte)
    ensures Times2(x) == X(x << 1, if x < 0x80 then 0 else 0x1b)
  {
  }

  lemma Times2Linear(x: byte, y: byte)
    ensures Times2(X(x, y)) == X(Times2(x), Times2(y))
  {
    ShiftXor(x, y);
    Times2Form(x);
    Times2Form(y);
    Times2Form(X(x, y));
    ByteCancel(0, 0x1b);
    ByteCancel(0, 0);
    ByteCancel(0x1b, 0);
    hide *;
    Swap(x << 1, if x < 0x80 then 0 else 0x1b, y << 1, if y < 0x80 then 0 else 0x1b);
  }

  /** Multiplying by 2, 4 and 8. */
  lemma PowersLinear(x: byte, y: byte)
    ensures Times2(X(x, y)) == X(Times2(x), Times2(y))
    ensures Times2(Times2(X(x, y))) == X(Times2(Times2(x)), Times2(Times2(y)))
    ensures Times2(Times2(Times2(X(x, y)))) == X(Times2(Times2(Times2(x))), Times2(Times2(Times2(y))))
  {
    hide *;
    Times2Linear(x, y);
    Times2Linear(Times2(x), Times2(y));
    Times2Linear(Times2(Times2(x)), Times2(Times2(y)));
  }

  lemma TermLinear(x: byte, bit: byte, y: byte, z: byte)
    ensures Term(x, bit, X(y, z)) == X(Term(x, bit, y), Term(x, bit, z))
  {
    ByteCancel(0, 0);
    hide X;
  }

  lemma HalfLinear(x: byte, bit: byte, y: byte, z: byte)
    requires bit == 1 || bit == 16
    ensures Half(x, bit, X(y, z)) == X(Half(x, bit, y), Half(x, bit, z))
  {
    hide X, Times2, Term;
    PowersLinear(y, z);
    var y1, y2, y3 := Times2(y), Times2(Times2(y)), Times2(Times2(Times2(y)));
    var z1, z2, z3 := Times2(z), Times2(Times2(z)), Times2(Times2(Times2(z)));
    TermLinear(x, bit, y, z);
    TermLinear(x, bit << 1, y1, z1);
    TermLinear(x, bit << 2, y2, z2);
    TermLinear(x, bit << 3, y3, z3);
    var a, b, c, d := Term(x, bit, y), Term(x, bit << 1, y1), Term(x, bit << 2, y2), Term(x, bit << 3, y3);
    var e, f, g, h := Term(x, bit, z), Term(x, bit << 1, z1), Term(x, bit << 2, z2), Term(x, bit << 3, z3);
    Swap(a, e, b, f);
    Swap(c, g, d, h);
    Swap(X(a, b), X(e, f), X(c, d), X(g, h));
  }

  lemma TimesLinear(x: byte, y: byte, z: byte)
    ensures Times(x, X(y, z)) == X(Times(x, y), Times(x, z))
  {
    hide X, Times2, Half;
    PowersLinear(y, z);
    Times2Linear(Times2(Times2(Times2(y))), Times2(Times2(Times2(z))));
    HalfLinear(x, 1, y, z);
    HalfLinear(x, 16, Times16(y), Times16(z));
    Swap(Half(x, 1, y), Half(x, 1, z), Half(x, 16, Times16(y)), Half(x, 16, Times16(z)));
  }

  lemma ZeroProduct0(x: byte, y: byte)
    requires Times(x, y) == 0 && y < 0x20
    ensures x == 0 || y == 0
  {
  }

  lemma ZeroProduct1(x: byte, y: byte)
    requires Times(x, y) == 0 && 0x20 <= y < 0x40
    ensures x == 0 || y == 0
  {
  }

  lemma ZeroProduct2(x: byte, y: byte)
    requires Times(x, y) == 0 && 0x40 <= y < 0x60
    ensures x == 0 || y == 0
  {
  }

  lemma ZeroProduct3(x: byte, y: byte)
    requires Times(x, y) == 0 && 0x60 <= y < 0x80
    ensures x == 0 || y == 0
  {
  }

  lemma ZeroProduct4(x: byte, y: byte)
    requires Times(x, y) == 0 && 0x80 <= y < 0xa0
    ensures x == 0 || y == 0
  {
  }

  lemma ZeroProduct5(x: byte, y: byte)
    requires Times(x, y) == 0 && 0xa0 <= y < 0xc0
    ensures x == 0 || y == 0
  {
  }

  lemma ZeroProduct6(x: byte, y: byte)
    requires Times(x, y) == 0 && 0xc0 <= y < 0xe0
    ensures x == 0 || y == 0
  {
  }

  lemma ZeroProduct7(x: byte, y: byte)
    requires Times(x, y) == 0 && 0xe0 <= y
    ensures x == 0 || y == 0
  {
  }

  /** A product is zero only if a factor is. */
  lemma ZeroProduct(x: byte, y: byte)
    requires Times(x, y) == 0
    ensures x == 0 || y == 0
  {
    hide *;
    if y < 0x20 {
      ZeroProduct0(x, y);
    } else if y < 0x40 {
      ZeroProduct1(x, y);
    } else if y < 0x60 {
      ZeroProduct2(x, y);
    } else if y < 0x80 {
      ZeroProduct3(x, y);
    } else if y < 0xa0 {
      ZeroProduct4(x, y);
    } else if y < 0xc0 {
      ZeroProduct5(x, y);
    } else if y < 0xe0 {
      ZeroProduct6(x, y);
    } else {
      ZeroProduct7(x, y);
    }
  }

  // ---------------------------------------------------------------- the S-box

  /** x is the inverse of b, or zero for zero. */
  predicate IsInverse(b: byte, x: byte) {
    if b == 0 then x == 0 else Times(b, x) == 1
  }

  lemma XorZero(x: byte, y: byte)
    ensures X(x, y) == 0 <==> x == y
  {
  }

  /** There is only one. */
  lemma InverseUnique(b: byte, x: byte, y: byte)
    requires IsInverse(b, x) && IsInverse(b, y)
    ensures x == y
  {
    hide X, Times;
    if b != 0 {
      TimesLinear(b, x, y);
      XorZero(1, 1);
      ZeroProduct(b, X(x, y));
      XorZero(x, y);
    }
  }

  /** The affine transformation of section 5.1.1: x, x rotated by one to four places, and a constant. */
  function Affine(x: byte): byte {
    x ^ ((x << 1) | (x >> 7)) ^ ((x << 2) | (x >> 6)) ^ ((x << 3) | (x >> 5)) ^ ((x << 4) | (x >> 4)) ^ 0x63
  }

  function Unaffine(s: byte): byte {
    ((s << 1) | (s >> 7)) ^ ((s << 3) | (s >> 5)) ^ ((s << 6) | (s >> 2)) ^ 0x05
  }

  lemma AffineUnaffine(s: byte)
    ensures Affine(Unaffine(s)) == s
  {
  }

  /** s is the affine transformation of the inverse of b. */
  ghost predicate IsEntry(b: byte, s: byte) {
    exists x: byte :: IsInverse(b, x) && s == Affine(x)
  }

  /** S is the S-box. */
  ghost predicate IsSBox(S: byte -> byte) {
    forall b: byte :: IsEntry(b, S(b))
  }

  /** That makes it a single function. */
  lemma SBoxUnique(S: byte -> byte, T: byte -> byte, b: byte)
    requires IsSBox(S) && IsSBox(T)
    ensures S(b) == T(b)
  {
    assert IsEntry(b, S(b)) && IsEntry(b, T(b));
    hide IsInverse, Affine;
    var x: byte :| IsInverse(b, x) && S(b) == Affine(x);
    var y: byte :| IsInverse(b, y) && T(b) == Affine(y);
    InverseUnique(b, x, y);
  }
}
