/** Powers, floor division and congruences over the mathematical integers.

    The C code works on two's complement words with masks and arithmetic shifts.  For a positive
    modulus Dafny's `/` and `%` are floor division and the non-negative remainder, which is what
    `x >> k` and `x & (2^k - 1)` compute on two's complement words, so both are written as
    `x / Pow(2, k)` and `x % Pow(2, k)` throughout. */
module Arith {

  function Pow(b: int, e: nat): int
    decreases e
  {
    if e == 0 then 1 else b * Pow(b, e - 1)
  }

  lemma PowPositive(b: int, e: nat)
    requires b >= 1
    ensures Pow(b, e) >= 1
  {
    if e > 0 {
      PowPositive(b, e - 1);
      MulMono(1, b, Pow(b, e - 1));
    }
  }

  lemma PowNext(b: int, e: nat)
    ensures Pow(b, e + 1) == b * Pow(b, e)
  {
  }

  lemma {:induction false} PowAdd(b: int, e: nat, f: nat)
    ensures Pow(b, e + f) == Pow(b, e) * Pow(b, f)
    decreases e
  {
    if e == 0 {
    } else {
      PowAdd(b, e - 1, f);
      MulAssoc(b, Pow(b, e - 1), Pow(b, f));
    }
  }

  lemma {:induction false} PowMul(b: int, e: nat, f: nat)
    ensures e * f >= 0
    ensures Pow(Pow(b, e), f) == Pow(b, e * f)
    decreases f
  {
    if f == 0 {
    } else {
      PowMul(b, e, f - 1);
      assert e * f == e + e * (f - 1);
      PowAdd(b, e, e * (f - 1));
    }
  }

  lemma PowMonotone(b: int, e: nat, f: nat)
    requires b >= 1 && e <= f
    ensures 1 <= Pow(b, e) <= Pow(b, f)
  {
    PowPositive(b, e);
    PowPositive(b, f - e);
    PowAdd(b, e, f - e);
    MulMono(1, Pow(b, f - e), Pow(b, e));
  }

  lemma PowStrict(b: int, e: nat, f: nat)
    requires b >= 2 && e < f
    ensures 1 <= Pow(b, e) < Pow(b, f)
  {
    PowMonotone(b, e, f - 1);
    MulMono(2, b, Pow(b, f - 1));
  }

  // ---------------------------------------------------------------- multiplication

  lemma MulMono(x: int, y: int, k: int)
    requires x <= y && k >= 0
    ensures x * k <= y * k && k * x <= k * y
  {
  }

  lemma MulStrict(x: int, y: int, k: int)
    requires x < y && k > 0
    ensures x * k < y * k && k * x < k * y
  {
  }

  lemma MulAssoc(x: int, y: int, z: int)
    ensures (x * y) * z == x * (y * z)
  {
  }

  lemma MulDist(x: int, y: int, k: int)
    ensures (x + y) * k == x * k + y * k
    ensures (x - y) * k == x * k - y * k
    ensures k * (x + y) == k * x + k * y
    ensures k * (x - y) == k * x - k * y
  {
  }

  /** A product of two bounded factors is bounded. */
  lemma MulBound(x: int, y: int, m: int)
    requires -m <= x <= m && -m <= y <= m
    ensures -(m * m) <= x * y <= m * m
    ensures x >= 0 && y >= 0 ==> x * y >= 0
  {
    if x >= 0 {
      MulMono(y, m, x);
      MulMono(-m, y, x);
      MulMono(x, m, m);
    } else {
      MulMono(y, m, -x);
      MulMono(-m, y, -x);
      MulMono(-x, m, m);
    }
  }

  // ---------------------------------------------------------------- division

  lemma DivModUnique(x: int, m: int, q: int, r: int)
    requires m > 0 && 0 <= r < m && x == q * m + r
    ensures x / m == q && x % m == r
  {
    var q', r' := x / m, x % m;
    assert x == q' * m + r';
    MulDist(q, q', m);
    if q > q' {
      MulMono(1, q - q', m);
    } else if q < q' {
      MulMono(1, q' - q, m);
      MulDist(q', q, m);
    }
  }

  lemma DivModAddMultiple(x: int, k: int, m: int)
    requires m > 0
    ensures (x + k * m) % m == x % m && (x + k * m) / m == x / m + k
  {
    MulDist(x / m, k, m);
    DivModUnique(x + k * m, m, x / m + k, x % m);
  }

  lemma DivBounds(x: int, m: int, lo: int, hi: int)
    requires m > 0 && lo * m <= x < hi * m
    ensures lo <= x / m < hi
  {
    var q, r := x / m, x % m;
    assert x == q * m + r;
    if q < lo {
      MulMono(q + 1, lo, m);
      MulDist(q, 1, m);
    }
    if q >= hi {
      MulMono(hi, q, m);
    }
  }

  lemma DivMonotone(x: int, y: int, m: int)
    requires m > 0 && x <= y
    ensures x / m <= y / m
  {
    if x / m > y / m {
      MulMono(y / m + 1, x / m, m);
      MulDist(y / m, 1, m);
    }
  }

  /** Splitting x by m1 * m2: first the low part modulo m1, then the rest by m2. */
  lemma DivDiv(x: int, m1: int, m2: int)
    requires m1 > 0 && m2 > 0
    ensures m1 * m2 > 0
    ensures x / (m1 * m2) == (x / m1) / m2
    ensures x % (m1 * m2) == x % m1 + m1 * ((x / m1) % m2)
  {
    MulStrict(0, m1, m2);
    var q, r := x / m1, x % m1;
    var q2, r2 := q / m2, q % m2;
    calc {
      x;
      r + m1 * q;
      { assert q == m2 * q2 + r2; MulDist(m2 * q2, r2, m1); }
      r + m1 * (m2 * q2) + m1 * r2;
      { MulAssoc(m1, m2, q2); }
      q2 * (m1 * m2) + (r + m1 * r2);
    }
    MulMono(r2 + 1, m2, m1);
    MulMono(0, r2, m1);
    MulDist(r2, 1, m1);
    DivModUnique(x, m1 * m2, q2, r + m1 * r2);
  }

  /** Scaling numerator and divisor by the same factor. */
  lemma DivModScale(x: int, m: int, s: int)
    requires m > 0 && s > 0
    ensures m * s > 0
    ensures (x * s) / (m * s) == x / m
    ensures (x * s) % (m * s) == (x % m) * s
  {
    var q, r := x / m, x % m;
    MulStrict(0, m, s);
    calc {
      x * s;
      { assert x == q * m + r; MulDist(q * m, r, s); }
      (q * m) * s + r * s;
      { MulAssoc(q, m, s); }
      q * (m * s) + r * s;
    }
    MulStrict(r, m, s);
    MulMono(0, r, s);
    DivModUnique(x * s, m * s, q, r * s);
  }

  // ---------------------------------------------------------------- congruence

  predicate Cong(a: int, b: int, m: int)
    requires m > 0
  {
    (a - b) % m == 0
  }

  lemma CongIntro(a: int, b: int, k: int, m: int)
    requires m > 0 && a == b + k * m
    ensures Cong(a, b, m)
  {
    DivModUnique(a - b, m, k, 0);
  }

  lemma CongElim(a: int, b: int, m: int) returns (k: int)
    requires m > 0 && Cong(a, b, m)
    ensures a == b + k * m
  {
    k := (a - b) / m;
  }

  lemma CongRefl(a: int, m: int)
    requires m > 0
    ensures Cong(a, a, m)
  {
    CongIntro(a, a, 0, m);
  }

  lemma CongSym(a: int, b: int, m: int)
    requires m > 0 && Cong(a, b, m)
    ensures Cong(b, a, m)
  {
    var k := CongElim(a, b, m);
    MulDist(0, k, m);
    CongIntro(b, a, -k, m);
  }

  lemma CongTrans(a: int, b: int, c: int, m: int)
    requires m > 0 && Cong(a, b, m) && Cong(b, c, m)
    ensures Cong(a, c, m)
  {
    var k := CongElim(a, b, m);
    var l := CongElim(b, c, m);
    MulDist(k, l, m);
    CongIntro(a, c, k + l, m);
  }

  lemma CongAdd(a: int, b: int, c: int, d: int, m: int)
    requires m > 0 && Cong(a, b, m) && Cong(c, d, m)
    ensures Cong(a + c, b + d, m) && Cong(a - c, b - d, m)
  {
    var k := CongElim(a, b, m);
    var l := CongElim(c, d, m);
    MulDist(k, l, m);
    CongIntro(a + c, b + d, k + l, m);
    CongIntro(a - c, b - d, k - l, m);
  }

  lemma CongScale(a: int, b: int, c: int, m: int)
    requires m > 0 && Cong(a, b, m)
    ensures Cong(a * c, b * c, m) && Cong(c * a, c * b, m)
  {
    var k := CongElim(a, b, m);
    MulDist(b, k * m, c);
    MulAssoc(k, m, c);
    MulAssoc(k, c, m);
    assert k * (m * c) == (k * c) * m;
    CongIntro(a * c, b * c, k * c, m);
  }

  lemma CongMul(a: int, b: int, c: int, d: int, m: int)
    requires m > 0 && Cong(a, b, m) && Cong(c, d, m)
    ensures Cong(a * c, b * d, m)
  {
    CongScale(a, b, c, m);
    CongScale(c, d, b, m);
    CongTrans(a * c, b * c, b * d, m);
  }

  lemma CongMod(a: int, b: int, m: int)
    requires m > 0
    ensures Cong(a, b, m) <==> a % m == b % m
  {
    if Cong(a, b, m) {
      var k := CongElim(a, b, m);
      DivModAddMultiple(b, k, m);
    }
    if a % m == b % m {
      MulDist(a / m, b / m, m);
      CongIntro(a, b, a / m - b / m, m);
    }
  }

  lemma CongOfMod(a: int, m: int)
    requires m > 0
    ensures Cong(a % m, a, m) && Cong(a, a % m, m)
  {
    CongIntro(a, a % m, a / m, m);
    CongSym(a, a % m, m);
  }

  /** A congruence holds modulo every divisor of the modulus. */
  lemma CongWeaken(a: int, b: int, m: int, s: int)
    requires m > 0 && s > 0 && m * s > 0 && Cong(a, b, m * s)
    ensures Cong(a, b, m)
  {
    var k := CongElim(a, b, m * s);
    assert k * (m * s) == (k * s) * m by {
      MulAssoc(k, s, m);
    }
    CongIntro(a, b, k * s, m);
  }

  /** Multiplying both sides and the modulus by s. */
  lemma CongScaleModulus(a: int, b: int, m: int, s: int)
    requires m > 0 && s > 0
    ensures m * s > 0
    ensures Cong(a, b, m) <==> Cong(a * s, b * s, m * s)
  {
    DivModScale(a - b, m, s);
    MulDist(a, b, s);
    if (a - b) % m != 0 {
      MulMono(1, (a - b) % m, s);
    }
  }

  /** Two congruent residues in the same window of length m are equal. */
  lemma CongUnique(a: int, b: int, m: int)
    requires m > 0 && Cong(a, b, m) && -m < a - b < m
    ensures a == b
  {
    var k := CongElim(a, b, m);
    if k >= 1 {
      MulMono(1, k, m);
    } else if k <= -1 {
      MulMono(k, -1, m);
    }
  }

  // ---------------------------------------------------------------- coprimality

  predicate Divides(d: int, a: int) {
    d > 0 && a % d == 0
  }

  /** No common divisor other than one. */
  ghost predicate Coprime(a: int, b: int) {
    forall d: int :: d >= 2 && Divides(d, a) ==> !Divides(d, b)
  }

  lemma DividesSum(d: int, a: int, b: int)
    requires Divides(d, a) && Divides(d, b)
    ensures Divides(d, a + b) && Divides(d, a - b)
  {
    CongIntro(a, 0, a / d, d);
    CongIntro(b, 0, b / d, d);
    CongAdd(a, 0, b, 0, d);
  }

  lemma DividesMultiple(d: int, a: int, k: int)
    requires Divides(d, a)
    ensures Divides(d, a * k) && Divides(d, k * a)
  {
    CongIntro(a, 0, a / d, d);
    CongScale(a, 0, k, d);
  }

  lemma CoprimeSym(a: int, b: int)
    requires Coprime(a, b)
    ensures Coprime(b, a)
  {
  }
}
