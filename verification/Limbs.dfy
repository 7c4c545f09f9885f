/** Limb sequences and the integers they stand for: digit j of a sequence weighs R^j, and digits may
    be negative or exceed R until they are normalised. */
module Limbs {
  import opened Arith

  /** The integer given by the first k limbs. */
  function Val(s: seq<int>, k: nat, R: int): int
    requires k <= |s|
  {
    if k == 0 then 0 else Val(s, k - 1, R) + s[k - 1] * Pow(R, k - 1)
  }

  function Value(s: seq<int>, R: int): int {
    Val(s, |s|, R)
  }

  /** Limbs lo..hi are proper digits. */
  predicate Digits(s: seq<int>, lo: nat, hi: nat, R: int)
    requires hi <= |s|
  {
    forall j :: lo <= j < hi ==> 0 <= s[j] < R
  }

  predicate Normal(s: seq<int>, R: int) {
    Digits(s, 0, |s|, R)
  }

  /** Normalised apart from the most significant limb, which keeps the sign and any excess. */
  predicate LowNormal(s: seq<int>, R: int) {
    |s| > 0 && Digits(s, 0, |s| - 1, R)
  }

  lemma {:induction false} ValFrame(s: seq<int>, t: seq<int>, k: nat, R: int)
    requires k <= |s| && k <= |t|
    requires forall j :: 0 <= j < k ==> s[j] == t[j]
    ensures Val(s, k, R) == Val(t, k, R)
    decreases k
  {
    if k > 0 {
      ValFrame(s, t, k - 1, R);
    }
  }

  /** Two sequences that agree above k differ in value by their low parts. */
  lemma {:induction false} HighFrame(s: seq<int>, t: seq<int>, k: nat, n: nat, R: int)
    requires k <= n <= |s| && n <= |t|
    requires forall j :: k <= j < n ==> s[j] == t[j]
    ensures Val(s, n, R) - Val(t, n, R) == Val(s, k, R) - Val(t, k, R)
    decreases n
  {
    if n > k {
      HighFrame(s, t, k, n - 1, R);
    }
  }

  lemma {:induction false} ValBounds(s: seq<int>, k: nat, R: int)
    requires k <= |s| && R >= 1 && Digits(s, 0, k, R)
    ensures 0 <= Val(s, k, R) < Pow(R, k)
    decreases k
  {
    if k > 0 {
      ValBounds(s, k - 1, R);
      PowPositive(R, k - 1);
      MulMono(s[k - 1], R - 1, Pow(R, k - 1));
      MulMono(0, s[k - 1], Pow(R, k - 1));
      MulDist(R, 1, Pow(R, k - 1));
    }
  }

  /** The top limb is the quotient by its weight and the limbs below it are the remainder. */
  lemma ValTop(s: seq<int>, k: nat, R: int)
    requires 1 <= k <= |s| && R >= 1 && Digits(s, 0, k - 1, R)
    ensures Pow(R, k - 1) >= 1
    ensures s[k - 1] == Val(s, k, R) / Pow(R, k - 1)
    ensures Val(s, k - 1, R) == Val(s, k, R) % Pow(R, k - 1)
  {
    PowPositive(R, k - 1);
    ValBounds(s, k - 1, R);
    DivModUnique(Val(s, k, R), Pow(R, k - 1), s[k - 1], Val(s, k - 1, R));
  }

  /** Digits are determined by the value, apart from an unconstrained top limb. */
  lemma {:induction false} ValUnique(s: seq<int>, t: seq<int>, k: nat, R: int)
    requires 1 <= k <= |s| && k <= |t| && R >= 1
    requires Digits(s, 0, k - 1, R) && Digits(t, 0, k - 1, R)
    requires Val(s, k, R) == Val(t, k, R)
    ensures forall j :: 0 <= j < k ==> s[j] == t[j]
    decreases k
  {
    ValTop(s, k, R);
    ValTop(t, k, R);
    if k > 1 {
      ValUnique(s, t, k - 1, R);
    }
  }

  /** A representation with normalised low limbs is unique. */
  lemma LowNormalUnique(s: seq<int>, t: seq<int>, R: int)
    requires R >= 1 && |s| == |t| && LowNormal(s, R) && LowNormal(t, R)
    requires Value(s, R) == Value(t, R)
    ensures s == t
  {
    ValUnique(s, t, |s|, R);
  }

  /** The sign of the value is the sign of the top limb, and its size bounds the top limb. */
  lemma TopSign(s: seq<int>, R: int)
    requires R >= 1 && LowNormal(s, R)
    ensures s[|s| - 1] < 0 <==> Value(s, R) < 0
  {
    var k := |s|;
    ValTop(s, k, R);
    var v, p := Value(s, R), Pow(R, k - 1);
    if s[k - 1] < 0 {
      MulMono(s[k - 1], -1, p);
    } else {
      MulMono(0, s[k - 1], p);
    }
  }

  lemma TopBounds(s: seq<int>, R: int, lo: int, hi: int)
    requires R >= 1 && LowNormal(s, R)
    requires lo * Pow(R, |s| - 1) <= Value(s, R) < hi * Pow(R, |s| - 1)
    ensures lo <= s[|s| - 1] < hi
  {
    ValTop(s, |s|, R);
    DivBounds(Value(s, R), Pow(R, |s| - 1), lo, hi);
  }

  /** A value in [0, R^n) with normalised low limbs is fully normalised. */
  lemma NormalFromValue(s: seq<int>, R: int)
    requires R >= 1 && LowNormal(s, R)
    requires 0 <= Value(s, R) < Pow(R, |s|)
    ensures Normal(s, R)
  {
    TopBounds(s, R, 0, R);
  }

  lemma NormalBounds(s: seq<int>, R: int)
    requires R >= 1 && Normal(s, R)
    ensures 0 <= Value(s, R) < Pow(R, |s|)
  {
    ValBounds(s, |s|, R);
  }

  lemma {:induction false} ValZero(s: seq<int>, k: nat, R: int)
    requires k <= |s|
    requires forall j :: 0 <= j < k ==> s[j] == 0
    ensures Val(s, k, R) == 0
    decreases k
  {
    if k > 0 {
      ValZero(s, k - 1, R);
    }
  }

  /** Zero limbs on top change nothing. */
  lemma {:induction false} ValHighZero(s: seq<int>, m: nat, k: nat, R: int)
    requires m <= k <= |s|
    requires forall j :: m <= j < k ==> s[j] == 0
    ensures Val(s, k, R) == Val(s, m, R)
    decreases k
  {
    if k > m {
      ValHighZero(s, m, k - 1, R);
    }
  }

  /** The lower m limbs and the limbs above them, moved down. */
  lemma {:induction false} ValSplit(s: seq<int>, m: nat, k: nat, R: int)
    requires m <= k <= |s|
    ensures Val(s, k, R) == Val(s, m, R) + Pow(R, m) * Val(s[m..], k - m, R)
    decreases k
  {
    if k > m {
      ValSplit(s, m, k - 1, R);
      PowAdd(R, m, k - 1 - m);
      var p, q, x := Pow(R, m), Pow(R, k - 1 - m), s[k - 1];
      assert s[m..][k - 1 - m] == x;
      assert Val(s[m..], k - m, R) == Val(s[m..], k - 1 - m, R) + x * q;
      MulDist(Val(s[m..], k - 1 - m, R), x * q, p);
      assert p * (x * q) == x * (p * q) by { MulAssoc(p, x, q); MulAssoc(x, p, q); }
    }
  }

  /** The least significant limb decides the value modulo the radix. */
  lemma ValModRadix(s: seq<int>, k: nat, R: int)
    requires 1 <= k <= |s| && R >= 1
    ensures Val(s, k, R) % R == s[0] % R
    ensures Cong(Val(s, k, R), s[0], R)
  {
    ValSplit(s, 1, k, R);
    assert Val(s, 1, R) == Val(s, 0, R) + s[0] * Pow(R, 0);
    assert Pow(R, 1) == R * Pow(R, 0);
    var h := Val(s[1..], k - 1, R);
    CongIntro(Val(s, k, R), s[0], h, R);
    CongMod(Val(s, k, R), s[0], R);
  }

  // ---------------------------------------------------------------- limb-wise operations

  lemma {:induction false} ValAdd(r: seq<int>, s: seq<int>, t: seq<int>, k: nat, R: int)
    requires k <= |r| && k <= |s| && k <= |t|
    requires forall j :: 0 <= j < k ==> r[j] == s[j] + t[j]
    ensures Val(r, k, R) == Val(s, k, R) + Val(t, k, R)
    decreases k
  {
    if k > 0 {
      ValAdd(r, s, t, k - 1, R);
      MulDist(s[k - 1], t[k - 1], Pow(R, k - 1));
    }
  }

  lemma {:induction false} ValSub(r: seq<int>, s: seq<int>, t: seq<int>, k: nat, R: int)
    requires k <= |r| && k <= |s| && k <= |t|
    requires forall j :: 0 <= j < k ==> r[j] == s[j] - t[j]
    ensures Val(r, k, R) == Val(s, k, R) - Val(t, k, R)
    decreases k
  {
    if k > 0 {
      ValSub(r, s, t, k - 1, R);
      MulDist(s[k - 1], t[k - 1], Pow(R, k - 1));
    }
  }

  lemma {:induction false} ValScale(r: seq<int>, s: seq<int>, x: int, k: nat, R: int)
    requires k <= |r| && k <= |s|
    requires forall j :: 0 <= j < k ==> r[j] == s[j] * x
    ensures Val(r, k, R) == Val(s, k, R) * x
    decreases k
  {
    if k > 0 {
      ValScale(r, s, x, k - 1, R);
      MulDist(Val(s, k - 1, R), s[k - 1] * Pow(R, k - 1), x);
      assert (s[k - 1] * x) * Pow(R, k - 1) == (s[k - 1] * Pow(R, k - 1)) * x by {
        MulAssoc(s[k - 1], x, Pow(R, k - 1));
        MulAssoc(s[k - 1], Pow(R, k - 1), x);
      }
    }
  }

  /** Changing one limb changes the value by its weight. */
  lemma {:induction false} ValUpdate(s: seq<int>, i: nat, x: int, k: nat, R: int)
    requires i < k <= |s|
    ensures Val(s[i := x], k, R) == Val(s, k, R) + (x - s[i]) * Pow(R, i)
    decreases k
  {
    var t := s[i := x];
    if k - 1 > i {
      ValUpdate(s, i, x, k - 1, R);
    } else {
      ValFrame(s, t, k - 1, R);
      MulDist(x, s[i], Pow(R, i));
    }
  }

  // ---------------------------------------------------------------- carry propagation

  /** The carry into column k when columns are reduced to digits from the bottom up. */
  function Carry(cols: seq<int>, k: nat, R: int): int
    requires k <= |cols| && R >= 1
  {
    if k == 0 then 0 else (Carry(cols, k - 1, R) + cols[k - 1]) / R
  }

  /** The digit that column k leaves behind. */
  function Digit(cols: seq<int>, k: nat, R: int): (x: int)
    requires k < |cols| && R >= 1
    ensures 0 <= x < R
  {
    (Carry(cols, k, R) + cols[k]) % R
  }

  /** The digits that the lowest k columns leave behind. */
  function Reduced(cols: seq<int>, k: nat, R: int): (s: seq<int>)
    requires k <= |cols| && R >= 1
    ensures |s| == k && Digits(s, 0, k, R)
  {
    if k == 0 then [] else Reduced(cols, k - 1, R) + [Digit(cols, k - 1, R)]
  }

  /** One step of carry propagation: the low digit of the running total is the next limb and the
      rest is the next carry. */
  lemma ReducedStep(cols: seq<int>, k: nat, t: int, R: int)
    requires k < |cols| && R >= 1 && t == Carry(cols, k, R) + cols[k]
    ensures Reduced(cols, k + 1, R) == Reduced(cols, k, R) + [t % R]
    ensures Carry(cols, k + 1, R) == t / R
  {
  }

  /** Propagating carries preserves the value. */
  lemma {:induction false} CarryValue(cols: seq<int>, k: nat, R: int)
    requires k <= |cols| && R >= 1
    ensures Val(Reduced(cols, k, R), k, R) + Carry(cols, k, R) * Pow(R, k) == Val(cols, k, R)
    decreases k
  {
    if k > 0 {
      CarryValue(cols, k - 1, R);
      ValFrame(Reduced(cols, k, R), Reduced(cols, k - 1, R), k - 1, R);
      SplitWeighted(Carry(cols, k - 1, R), cols[k - 1], Pow(R, k - 1), R);
    }
  }

  /** A column total of weight p, as a digit of weight p and a carry of weight R*p. */
  lemma SplitWeighted(c: int, x: int, p: int, R: int)
    requires R >= 1
    ensures ((c + x) % R) * p + ((c + x) / R) * (R * p) == c * p + x * p
  {
    var q, r := (c + x) / R, (c + x) % R;
    assert c + x == q * R + r;
    MulDist(q * R, r, p);
    MulAssoc(q, R, p);
    MulDist(c, x, p);
  }

  lemma {:induction false} CarryFrame(s: seq<int>, t: seq<int>, k: nat, R: int)
    requires k <= |s| && k <= |t| && R >= 1
    requires forall j :: 0 <= j < k ==> s[j] == t[j]
    ensures Carry(s, k, R) == Carry(t, k, R)
    ensures Reduced(s, k, R) == Reduced(t, k, R)
    decreases k
  {
    if k > 0 {
      CarryFrame(s, t, k - 1, R);
    }
  }

  /** If every column is at least -x*(R-1) and at most x*(R-1), a carry stays in [-x, x). */
  lemma {:induction false} CarryBounds(cols: seq<int>, k: nat, x: int, R: int)
    requires k <= |cols| && R >= 2 && x >= 1
    requires forall j :: 0 <= j < k ==> -(x * (R - 1)) <= cols[j] <= x * (R - 1)
    ensures -x <= Carry(cols, k, R) < x
    decreases k
  {
    if k > 0 {
      CarryBounds(cols, k - 1, x, R);
      CarryStep(Carry(cols, k - 1, R), cols[k - 1], x, R);
    }
  }

  lemma CarryStep(c: int, col: int, x: int, R: int)
    requires R >= 2 && -x <= c < x && -(x * (R - 1)) <= col <= x * (R - 1)
    ensures -x <= (c + col) / R < x
  {
    MulDist(R, 1, x);
    assert (-x) * R == -(x * R) by { MulDist(0, x, R); }
    DivBounds(c + col, R, -x, x);
  }
}
