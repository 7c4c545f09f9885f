/** Column sums of a product, the Karatsuba-style identity behind the fast variants, and the
    normalised product as a function of its inputs. */
module Columns {
  import opened Arith
  import opened Limbs

  /** The partial product a[i]*b[k-i] of column k, zero where an index falls outside. */
  function Term(a: seq<int>, b: seq<int>, i: int, k: int): int {
    if 0 <= i < |a| && 0 <= k - i < |b| then a[i] * b[k - i] else 0
  }

  /** The partial products of column k from rows lo <= i < hi. */
  function Conv(a: seq<int>, b: seq<int>, lo: int, hi: int, k: int): int
    decreases hi - lo
  {
    if lo >= hi then 0 else Conv(a, b, lo, hi - 1, k) + Term(a, b, hi - 1, k)
  }

  function Column(a: seq<int>, b: seq<int>, k: int): int {
    Conv(a, b, 0, |a|, k)
  }

  function ColumnSums(a: seq<int>, b: seq<int>): (cols: seq<int>)
    requires |a| > 0 && |b| > 0
    ensures |cols| == |a| + |b| - 1
  {
    seq(|a| + |b| - 1, k => Column(a, b, k))
  }

  /** The diagonal products a[i]*b[i] for lo <= i < hi. */
  function Diag(a: seq<int>, b: seq<int>, lo: int, hi: int): int
    requires 0 <= lo && hi <= |a| && hi <= |b|
    decreases hi - lo
  {
    if lo >= hi then 0 else Diag(a, b, lo, hi - 1) + a[hi - 1] * b[hi - 1]
  }

  /** The difference products (a[i]-a[k-i])*(b[k-i]-b[i]) for lo <= i < hi. */
  function Cross(a: seq<int>, b: seq<int>, lo: int, hi: int, k: int): int
    requires 0 <= lo && hi <= |a| && hi <= |b|
    requires lo < hi ==> 0 <= k - hi + 1 && k - lo < |a| && k - lo < |b|
    decreases hi - lo
  {
    if lo >= hi then 0
    else Cross(a, b, lo, hi - 1, k) + (a[hi - 1] - a[k - hi + 1]) * (b[k - hi + 1] - b[hi - 1])
  }

  /** The column-by-column product: one digit per column and the last carry on top. */
  function Product(a: seq<int>, b: seq<int>, R: int): (p: seq<int>)
    requires |a| > 0 && |b| > 0 && R >= 1
    ensures |p| == |a| + |b|
  {
    var cols := ColumnSums(a, b);
    Reduced(cols, |cols|, R) + [Carry(cols, |cols|, R)]
  }

  // ---------------------------------------------------------------- sums over rows

  lemma {:induction false} ConvFirst(a: seq<int>, b: seq<int>, lo: int, hi: int, k: int)
    requires lo < hi
    ensures Conv(a, b, lo, hi, k) == Term(a, b, lo, k) + Conv(a, b, lo + 1, hi, k)
    decreases hi - lo
  {
    if lo + 1 < hi {
      ConvFirst(a, b, lo, hi - 1, k);
    }
  }

  lemma {:induction false} DiagFirst(a: seq<int>, b: seq<int>, lo: int, hi: int)
    requires 0 <= lo < hi && hi <= |a| && hi <= |b|
    ensures Diag(a, b, lo, hi) == a[lo] * b[lo] + Diag(a, b, lo + 1, hi)
    decreases hi - lo
  {
    if lo + 1 < hi {
      DiagFirst(a, b, lo, hi - 1);
    }
  }

  lemma {:induction false} CrossFirst(a: seq<int>, b: seq<int>, lo: int, hi: int, k: int)
    requires 0 <= lo < hi && hi <= |a| && hi <= |b|
    requires 0 <= k - hi + 1 && k - lo < |a| && k - lo < |b|
    ensures Cross(a, b, lo, hi, k) == (a[lo] - a[k - lo]) * (b[k - lo] - b[lo]) + Cross(a, b, lo + 1, hi, k)
    decreases hi - lo
  {
    if lo + 1 < hi {
      CrossFirst(a, b, lo, hi - 1, k);
    }
  }

  /** Rows without a partial product in column k contribute nothing. */
  lemma {:induction false} ConvZero(a: seq<int>, b: seq<int>, lo: int, hi: int, k: int)
    requires forall i :: lo <= i < hi ==> Term(a, b, i, k) == 0
    ensures Conv(a, b, lo, hi, k) == 0
    decreases hi - lo
  {
    if lo < hi {
      ConvZero(a, b, lo, hi - 1, k);
    }
  }

  lemma {:induction false} ConvJoin(a: seq<int>, b: seq<int>, lo: int, mid: int, hi: int, k: int)
    requires lo <= mid <= hi
    ensures Conv(a, b, lo, hi, k) == Conv(a, b, lo, mid, k) + Conv(a, b, mid, hi, k)
    decreases hi - mid
  {
    if mid < hi {
      ConvJoin(a, b, lo, mid, hi - 1, k);
    }
  }

  /** A column only needs the rows lo..hi that reach it. */
  lemma ColumnTrim(a: seq<int>, b: seq<int>, lo: int, hi: int, k: int)
    requires 0 <= lo <= hi <= |a|
    requires lo <= k - |b| + 1 || lo == 0
    requires k < hi || hi == |a|
    ensures Column(a, b, k) == Conv(a, b, lo, hi, k)
  {
    ConvJoin(a, b, 0, lo, |a|, k);
    ConvJoin(a, b, lo, hi, |a|, k);
    ConvZero(a, b, 0, lo, k);
    ConvZero(a, b, hi, |a|, k);
  }

  lemma {:induction false} ConvBounds(a: seq<int>, b: seq<int>, lo: int, hi: int, k: int, R: int)
    requires R >= 1 && lo <= hi && Normal(a, R) && Normal(b, R)
    ensures 0 <= Conv(a, b, lo, hi, k) <= (hi - lo) * ((R - 1) * (R - 1))
    decreases hi - lo
  {
    var m := (R - 1) * (R - 1);
    MulBound(R - 1, R - 1, R - 1);
    if lo < hi {
      ConvBounds(a, b, lo, hi - 1, k, R);
      if 0 <= hi - 1 < |a| && 0 <= k - hi + 1 < |b| {
        MulBound(a[hi - 1], b[k - hi + 1], R - 1);
      }
      MulDist(hi - lo - 1, 1, m);
    }
  }

  lemma {:induction false} DiagBounds(a: seq<int>, b: seq<int>, lo: int, hi: int, R: int)
    requires 0 <= lo <= hi && hi <= |a| && hi <= |b|
    requires R >= 1 && Normal(a, R) && Normal(b, R)
    ensures 0 <= Diag(a, b, lo, hi) <= (hi - lo) * ((R - 1) * (R - 1))
    decreases hi - lo
  {
    var m := (R - 1) * (R - 1);
    MulBound(R - 1, R - 1, R - 1);
    if lo < hi {
      DiagBounds(a, b, lo, hi - 1, R);
      MulBound(a[hi - 1], b[hi - 1], R - 1);
      MulDist(hi - lo - 1, 1, m);
    }
  }

  lemma {:induction false} CrossBounds(a: seq<int>, b: seq<int>, lo: int, hi: int, k: int, R: int)
    requires 0 <= lo <= hi && hi <= |a| && hi <= |b|
    requires lo < hi ==> 0 <= k - hi + 1 && k - lo < |a| && k - lo < |b|
    requires R >= 1 && Normal(a, R) && Normal(b, R)
    ensures -((hi - lo) * ((R - 1) * (R - 1))) <= Cross(a, b, lo, hi, k) <= (hi - lo) * ((R - 1) * (R - 1))
    decreases hi - lo
  {
    var m := (R - 1) * (R - 1);
    if lo < hi {
      CrossBounds(a, b, lo, hi - 1, k, R);
      MulBound(a[hi - 1] - a[k - hi + 1], b[k - hi + 1] - b[hi - 1], R - 1);
      MulDist(hi - lo - 1, 1, m);
    }
  }

  // ---------------------------------------------------------------- the Karatsuba-style identity

  /** (x-y)*(v-u) = x*v + y*u - x*u - y*v. */
  lemma CrossTerm(x: int, y: int, u: int, v: int)
    ensures (x - y) * (v - u) + x * u + y * v == x * v + y * u
  {
    MulDist(x, y, v - u);
    MulDist(v, u, x);
    MulDist(v, u, y);
  }

  /** For a window lo..hi symmetric about k/2, the diagonal products plus the difference products of
      its upper half are exactly the partial products of column k. */
  lemma {:induction false} Karatsuba(a: seq<int>, b: seq<int>, lo: int, hi: int, k: int)
    requires 0 <= lo && lo + hi == k && lo <= hi + 1 && hi < |a| && hi < |b|
    ensures Conv(a, b, lo, hi + 1, k) == Diag(a, b, lo, hi + 1) + Cross(a, b, k / 2 + 1, hi + 1, k)
    decreases hi - lo + 1
  {
    if lo < hi {
      Karatsuba(a, b, lo + 1, hi - 1, k);
      ConvFirst(a, b, lo, hi + 1, k);
      DiagFirst(a, b, lo, hi + 1);
      CrossTerm(a[hi], a[lo], b[hi], b[lo]);
      assert k - hi == lo;
    }
  }

  lemma KaratsubaColumn(a: seq<int>, b: seq<int>, lo: int, hi: int, k: int)
    requires 0 <= lo <= hi && lo + hi == k && hi < |a| && |a| == |b|
    requires lo == 0 || hi == |a| - 1
    ensures Column(a, b, k) == Diag(a, b, lo, hi + 1) + Cross(a, b, k / 2 + 1, hi + 1, k)
  {
    Karatsuba(a, b, lo, hi, k);
    ColumnTrim(a, b, lo, hi + 1, k);
  }

  // ---------------------------------------------------------------- the product

  function Row(a: seq<int>, b: seq<int>, i: nat, n: nat): (r: seq<int>)
    ensures |r| == n
  {
    seq(n, k => Term(a, b, i, k))
  }

  lemma RowValue(a: seq<int>, b: seq<int>, i: nat, R: int)
    requires i < |a| && |b| > 0 && R >= 1
    ensures Value(Row(a, b, i, |a| + |b| - 1), R) == Val(a[..], i + 1, R) * Value(b, R) - Val(a, i, R) * Value(b, R)
  {
    var n, m := |a| + |b| - 1, i + |b|;
    var r := Row(a, b, i, n);
    ValHighZero(r, m, n, R);
    ValSplit(r, i, m, R);
    ValZero(r, i, R);
    ValScale(r[i..], b, a[i], |b|, R);
    ValFrame(a[..], a, i, R);
    var p, v := Pow(R, i), Value(b, R);
    MulDist(Val(a, i, R), a[i] * p, v);
    assert p * (v * a[i]) == (a[i] * p) * v by {
      MulAssoc(p, v, a[i]);
      MulAssoc(a[i], p, v);
      MulAssoc(p, a[i], v);
    }
  }

  lemma {:induction false} RowsValue(a: seq<int>, b: seq<int>, i: nat, cols: seq<int>, R: int)
    requires i <= |a| && |a| > 0 && |b| > 0 && R >= 1
    requires |cols| == |a| + |b| - 1
    requires forall k :: 0 <= k < |cols| ==> cols[k] == Conv(a, b, 0, i, k)
    ensures Value(cols, R) == Val(a, i, R) * Value(b, R)
    decreases i
  {
    if i == 0 {
      ValZero(cols, |cols|, R);
    } else {
      var prev := seq(|cols|, k => Conv(a, b, 0, i - 1, k));
      RowsValue(a, b, i - 1, prev, R);
      var r := Row(a, b, i - 1, |cols|);
      RowValue(a, b, i - 1, R);
      ValAdd(cols, prev, r, |cols|, R);
      ValFrame(a[..], a, i, R);
    }
  }

  /** The column sums weigh up to the product. */
  lemma ColumnsValue(a: seq<int>, b: seq<int>, R: int)
    requires |a| > 0 && |b| > 0 && R >= 1
    ensures Value(ColumnSums(a, b), R) == Value(a, R) * Value(b, R)
  {
    RowsValue(a, b, |a|, ColumnSums(a, b), R);
  }

  /** The limbs of Product are the normalised representation of the product. */
  lemma ProductCorrect(a: seq<int>, b: seq<int>, R: int)
    requires |a| > 0 && |b| > 0 && R >= 2 && Normal(a, R) && Normal(b, R)
    ensures Value(Product(a, b, R), R) == Value(a, R) * Value(b, R)
    ensures Normal(Product(a, b, R), R)
  {
    var cols, p := ColumnSums(a, b), Product(a, b, R);
    var n := |cols|;
    CarryValue(cols, n, R);
    ValFrame(p, Reduced(cols, n, R), n, R);
    ColumnsValue(a, b, R);
    NormalBounds(a, R);
    NormalBounds(b, R);
    PowAdd(R, |a|, |b|);
    MulMono(0, Value(a, R), Value(b, R));
    MulMono(Value(b, R), Pow(R, |b|), Value(a, R));
    PowPositive(R, |b|);
    MulStrict(Value(a, R), Pow(R, |a|), Pow(R, |b|));
    assert LowNormal(p, R);
    NormalFromValue(p, R);
  }

  /** Any normalised representation of the product is Product itself. */
  lemma ProductUnique(a: seq<int>, b: seq<int>, p: seq<int>, R: int)
    requires |a| > 0 && |b| > 0 && R >= 2 && Normal(a, R) && Normal(b, R)
    requires |p| == |a| + |b| && LowNormal(p, R) && Value(p, R) == Value(a, R) * Value(b, R)
    ensures p == Product(a, b, R)
  {
    ProductCorrect(a, b, R);
    LowNormalUnique(p, Product(a, b, R), R);
  }
}
