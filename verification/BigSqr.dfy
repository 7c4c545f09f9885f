/** BIG_sqr: each cross product is computed once and doubled, two columns per loop step. */
module BigSqr {
  import opened Arith
  import opened Words
  import opened Limbs
  import opened Columns
  import opened BigMul

  /** The two halves of a symmetric window agree; one of them, doubled, plus the middle square is the whole
      window. */
  lemma {:induction false} SquareWindow(a: seq<int>, lo: int, hi: int, k: int)
    requires 0 <= lo && lo + hi == k && lo <= hi + 1 && hi < |a|
    ensures Conv(a, a, lo, hi + 1, k)
         == 2 * Conv(a, a, lo, (k + 1) / 2, k) + if k % 2 == 0 then a[k / 2] * a[k / 2] else 0
    ensures Conv(a, a, k / 2 + 1, hi + 1, k) == Conv(a, a, lo, (k + 1) / 2, k)
    decreases hi - lo + 1
  {
    if lo < hi {
      SquareWindow(a, lo + 1, hi - 1, k);
      ConvFirst(a, a, lo, hi + 1, k);
      ConvFirst(a, a, lo, (k + 1) / 2, k);
      assert Term(a, a, lo, k) == Term(a, a, hi, k) by {
        assert a[lo] * a[hi] == a[hi] * a[lo];
      }
    }
  }

  lemma SquareColumn(a: seq<int>, lo: int, hi: int, k: int)
    requires 0 <= lo <= hi && lo + hi == k && hi < |a|
    requires lo == 0 || hi == |a| - 1
    ensures Column(a, a, k) == 2 * Conv(a, a, lo, (k + 1) / 2, k) + if k % 2 == 0 then a[k / 2] * a[k / 2] else 0
    ensures Conv(a, a, k / 2 + 1, hi + 1, k) == Conv(a, a, lo, (k + 1) / 2, k)
  {
    SquareWindow(a, lo, hi, k);
    ColumnTrim(a, a, lo, hi + 1, k);
  }

  /** Doubling and adding the carry and the square stays within a dchunk. */
  lemma SquareFits(cfg: Config, a: seq<int>, lo: int, hi: int, k: nat)
    requires cfg.Valid() && Roomy(cfg) && |a| == cfg.nlen && Normal(a, cfg.Radix())
    requires k < 2 * cfg.nlen && 0 <= lo <= hi && lo + hi == k && hi < |a| && (lo == 0 || hi == |a| - 1)
    ensures 0 <= Conv(a, a, lo, (k + 1) / 2, k) && 0 <= Carry(ColumnSums(a, a), k, cfg.Radix())
    ensures k % 2 == 0 ==> a[k / 2] * a[k / 2] >= 0
    ensures Carry(ColumnSums(a, a), k, cfg.Radix()) + Column(a, a, k) < cfg.DHalf()
  {
    var R := cfg.Radix();
    SquareColumn(a, lo, hi, k);
    ColumnFits(cfg, a, a, k, cfg.nlen);
    ColumnCarry(cfg, a, a, k);
    ConvBounds(a, a, 0, |a|, k, R);
    ConvBounds(a, a, lo, (k + 1) / 2, k, R);
    if k % 2 == 0 {
      MulBound(a[k / 2], a[k / 2], R - 1);
    }
  }

  /** The lowest row that reaches column k. */
  function Low(n: nat, k: nat): nat {
    if k < n then 0 else k - n + 1
  }

  /** Every intermediate of a doubled column fits in a dchunk. */
  lemma DoubledFits(cfg: Config, a: seq<int>, lo: int, h: int, k: nat)
    requires cfg.Valid() && Roomy(cfg) && |a| == cfg.nlen && Normal(a, cfg.Radix())
    requires k < 2 * cfg.nlen && lo == Low(cfg.nlen, k) && lo < k - lo && h == (k + 1) / 2
    ensures lo < h <= lo + cfg.nlen && k - lo < |a| && h <= k
    ensures 0 <= a[k - lo] * a[lo] < cfg.DHalf() - Room(cfg, h - (lo + 1)) <= cfg.DHalf()
    ensures Conv(a, a, lo, h, k) == a[k - lo] * a[lo] + Conv(a, a, lo + 1, h, k)
    ensures 0 <= 2 * Conv(a, a, lo, h, k) < cfg.DHalf()
    ensures 0 <= Carry(ColumnSums(a, a), k, cfg.Radix()) + 2 * Conv(a, a, lo, h, k) < cfg.DHalf()
  {
    var R := cfg.Radix();
    SquareFits(cfg, a, lo, k - lo, k);
    SquareColumn(a, lo, k - lo, k);
    ConvFirst(a, a, lo, h, k);
    FirstTerm(a, lo, k);
    MulBound(a[k - lo], a[lo], R - 1);
    MulMono(0, R - 1, cfg.nlen + 1);
    CarryFits(cfg, 0, cfg.nlen);
    ConvLess(cfg, h - lo);
  }

  lemma FirstTerm(a: seq<int>, lo: int, k: int)
    requires 0 <= lo < |a| && 0 <= k - lo < |a|
    ensures Term(a, a, lo, k) == a[k - lo] * a[lo]
  {
    assert a[lo] * a[k - lo] == a[k - lo] * a[lo];
  }

  /** Half a column of products leaves room for itself. */
  lemma ConvLess(cfg: Config, n: int)
    requires cfg.Valid() && 1 <= n <= cfg.nlen
    ensures 0 <= Room(cfg, n - 1)
    ensures (cfg.Radix() - 1) * (cfg.Radix() - 1) + Room(cfg, n - 1) <= Room(cfg, cfg.nlen)
  {
    var M := (cfg.Radix() - 1) * (cfg.Radix() - 1);
    MulBound(cfg.Radix() - 1, cfg.Radix() - 1, cfg.Radix() - 1);
    MulMono(n, cfg.nlen, M);
    MulMono(0, n - 1, M);
    MulDist(n, 1, M);
  }

  ghost predicate SqrInputs(cfg: Config, a: array<int>, c: array<int>)
    reads a
  {
    && cfg.Valid() && Roomy(cfg) && a.Length == cfg.nlen && c.Length == 2 * cfg.nlen && a != c
    && Normal(a[..], cfg.Radix())
  }

  /** t = a[j-lo]*a[lo]; for (i = lo+1; i < (j+1)/2; i++) t += a[j-i]*a[i]; t += t; t += co; */
  method DoubledProducts(cfg: Config, a: array<int>, j: nat, lo: nat, co: int) returns (t: int)
    requires cfg.Valid() && Roomy(cfg) && a.Length == cfg.nlen && Normal(a[..], cfg.Radix())
    requires j < 2 * cfg.nlen && lo == Low(cfg.nlen, j) && lo < j - lo
    requires co == Carry(ColumnSums(a[..], a[..]), j, cfg.Radix())
    ensures t == co + 2 * Conv(a[..], a[..], lo, (j + 1) / 2, j)
  {
    var h := (j + 1) / 2;
    DoubledFits(cfg, a[..], lo, h, j);
    t := cfg.Dword(a[j - lo] * a[lo]);
    t := AddProducts(cfg, t, a, a, j, lo + 1, h - 1);
    assert t == Conv(a[..], a[..], lo, h, j);
    t := cfg.Dword(t + t);
    t := cfg.Dword(t + co);
  }

  /** An odd column: doubled products only. */
  method OddColumn(cfg: Config, c: array<int>, a: array<int>, j: nat, co: int, ghost h: nat) returns (carry: int)
    requires SqrInputs(cfg, a, c) && j == 2 * h + 1 && j < 2 * cfg.nlen - 2
    requires co == Carry(ColumnSums(a[..], a[..]), j, cfg.Radix())
    requires c[..j] == Reduced(ColumnSums(a[..], a[..]), j, cfg.Radix())
    modifies c
    ensures c[..j + 1] == Reduced(ColumnSums(a[..], a[..]), j + 1, cfg.Radix())
    ensures carry == Carry(ColumnSums(a[..], a[..]), j + 1, cfg.Radix())
  {
    var lo := Low(cfg.nlen, j);
    SquareColumn(a[..], lo, j - lo, j);
    var t := DoubledProducts(cfg, a, j, lo, co);
    carry := StoreDigit(cfg, c, j, t, ColumnSums(a[..], a[..]));
  }

  /** An even column: doubled products and the middle square. */
  method EvenColumn(cfg: Config, c: array<int>, a: array<int>, j: nat, co: int, ghost h: nat) returns (carry: int)
    requires SqrInputs(cfg, a, c) && j == 2 * h && 0 < j < 2 * cfg.nlen - 2
    requires co == Carry(ColumnSums(a[..], a[..]), j, cfg.Radix())
    requires c[..j] == Reduced(ColumnSums(a[..], a[..]), j, cfg.Radix())
    modifies c
    ensures c[..j + 1] == Reduced(ColumnSums(a[..], a[..]), j + 1, cfg.Radix())
    ensures carry == Carry(ColumnSums(a[..], a[..]), j + 1, cfg.Radix())
  {
    var lo := Low(cfg.nlen, j);
    EvenSum(cfg, a[..], j, h);
    hide Carry, Reduced, Conv, Low, Column, ColumnSums, Roomy, Config.Radix, Config.DHalf;
    var t := DoubledProducts(cfg, a, j, lo, co);
    assert j / 2 == h;
    t := cfg.Dword(t + a[j / 2] * a[j / 2]);
    carry := StoreDigit(cfg, c, j, t, ColumnSums(a[..], a[..]));
  }

  /** The total of an even column and its ranges. */
  lemma EvenSum(cfg: Config, a: seq<int>, j: nat, h: nat)
    requires cfg.Valid() && Roomy(cfg) && |a| == cfg.nlen && Normal(a, cfg.Radix()) && j == 2 * h
      && 0 < j < 2 * cfg.nlen - 2
    ensures var lo, x := Low(cfg.nlen, j), Carry(ColumnSums(a, a), j, cfg.Radix());
            && lo < j - lo && x + ColumnSums(a, a)[j] == (x + 2 * Conv(a, a, lo, (j + 1) / 2, j)) + a[h] * a[h]
            && 0 <= x + ColumnSums(a, a)[j] < cfg.DHalf()
  {
    var lo := Low(cfg.nlen, j);
    assert ColumnSums(a, a)[j] == Column(a, a, j);
    EvenHalf(cfg.nlen, j, h);
    hide Carry, Conv, Roomy, Low, Column, ColumnSums, Config.Radix, Config.DHalf;
    SquareColumn(a, lo, j - lo, j);
    SquareFits(cfg, a, lo, j - lo, j);
  }

  lemma EvenHalf(n: nat, j: nat, h: nat)
    requires j == 2 * h && 0 < j < 2 * n - 2
    ensures var lo := Low(n, j); lo < j - lo < n && (lo == 0 || j - lo == n - 1)
    ensures j % 2 == 0 && j / 2 == h
  {
  }

  /** The body of both loops: an odd column and the even one above it. */
  method TwoColumns(cfg: Config, c: array<int>, a: array<int>, j: nat, co: int, ghost h: nat) returns (carry: int)
    requires SqrInputs(cfg, a, c) && j == 2 * h + 1 && j < 2 * cfg.nlen - 3
    requires co == Carry(ColumnSums(a[..], a[..]), j, cfg.Radix())
    requires c[..j] == Reduced(ColumnSums(a[..], a[..]), j, cfg.Radix())
    modifies c
    ensures c[..j + 2] == Reduced(ColumnSums(a[..], a[..]), j + 2, cfg.Radix())
    ensures carry == Carry(ColumnSums(a[..], a[..]), j + 2, cfg.Radix())
  {
    carry := OddColumn(cfg, c, a, j, co, h);
    carry := EvenColumn(cfg, c, a, j + 1, carry, h + 1);
  }

  lemma TopColumn(cfg: Config, a: seq<int>)
    requires cfg.Valid() && Roomy(cfg) && |a| == cfg.nlen && Normal(a, cfg.Radix())
    ensures var k := 2 * cfg.nlen - 2; var x := a[cfg.nlen - 1] * a[cfg.nlen - 1];
            && Column(a, a, k) == x
            && 0 <= x + Carry(ColumnSums(a, a), k, cfg.Radix()) < cfg.DHalf()
  {
    var n := cfg.nlen;
    SquareFits(cfg, a, n - 1, n - 1, 2 * n - 2);
    SquareColumn(a, n - 1, n - 1, 2 * n - 2);
    assert (2 * n - 2) / 2 == n - 1;
    assert (2 * n - 2 + 1) / 2 == n - 1;
  }

  /** The three columns written by hand. */
  method LastColumns(cfg: Config, c: array<int>, a: array<int>, carry: int)
    requires SqrInputs(cfg, a, c)
    requires carry == Carry(ColumnSums(a[..], a[..]), 2 * cfg.nlen - 3, cfg.Radix())
    requires c[..2 * cfg.nlen - 3] == Reduced(ColumnSums(a[..], a[..]), 2 * cfg.nlen - 3, cfg.Radix())
    modifies c
    ensures c[..] == Product(a[..], a[..], cfg.Radix())
  {
    var n := cfg.nlen;
    ghost var A := a[..];
    var co := OddColumn(cfg, c, a, 2 * n - 3, carry, n - 2);
    TopColumn(cfg, A);
    var t := cfg.Dword(a[n - 1] * a[n - 1] + co);
    co := StoreDigit(cfg, c, 2 * n - 2, t, ColumnSums(A, A));
    StoreTop(cfg, c, co, A, A);
  }

  method FirstSquare(cfg: Config, c: array<int>, a: array<int>) returns (co: int)
    requires SqrInputs(cfg, a, c)
    modifies c
    ensures c[..1] == Reduced(ColumnSums(a[..], a[..]), 1, cfg.Radix())
    ensures co == Carry(ColumnSums(a[..], a[..]), 1, cfg.Radix())
  {
    SquareFits(cfg, a[..], 0, 0, 0);
    SquareColumn(a[..], 0, 0, 0);
    var t := cfg.Dword(a[0] * a[0]);
    co := StoreDigit(cfg, c, 0, t, ColumnSums(a[..], a[..]));
  }

  lemma Halved(n: nat) returns (m: nat, r: nat)
    ensures n == 2 * m + r && r == n % 2 && r <= 1
  {
    m, r := n / 2, n % 2;
  }

  lemma LowerEnd(n: nat, m: nat, r: nat, j: nat, h: nat)
    requires n >= 2 && n == 2 * m + r && r == n % 2 && r <= 1 && j == 2 * h + 1 && j >= n - 1 && h < m + r
    ensures 2 * h + 1 == n - 1 + n % 2 && h <= n - 2
  {
  }

  /** for (j = 1; j < NLEN-1; ) over pairs of columns */
  method LowerSquares(cfg: Config, c: array<int>, a: array<int>, first: int) returns (co: int, ghost h: nat)
    requires SqrInputs(cfg, a, c)
    requires c[..1] == Reduced(ColumnSums(a[..], a[..]), 1, cfg.Radix())
      && first == Carry(ColumnSums(a[..], a[..]), 1, cfg.Radix())
    modifies c
    ensures 2 * h + 1 == cfg.nlen - 1 + cfg.nlen % 2 && h <= cfg.nlen - 2
    ensures c[..2 * h + 1] == Reduced(ColumnSums(a[..], a[..]), 2 * h + 1, cfg.Radix())
    ensures co == Carry(ColumnSums(a[..], a[..]), 2 * h + 1, cfg.Radix())
  {
    var n := cfg.nlen;
    ghost var cols, R := ColumnSums(a[..], a[..]), cfg.Radix();
    ghost var m, r := Halved(n);
    hide Carry, Reduced, Conv, Low, Pow, Column, ColumnSums, Roomy, Config.Radix, Digits;
    co := first;
    h := 0;
    var j := 1;
    while j < n - 1
      invariant j == 2 * h + 1 && h < m + r
      invariant co == Carry(cols, j, R) && c[..j] == Reduced(cols, j, R)
    {
      co := TwoColumns(cfg, c, a, j, co, h);
      j := j + 2;
      h := h + 1;
    }
    LowerEnd(n, m, r, j, h);
  }

  /** for (j = NLEN-1+NLEN%2; j < DNLEN-3; ) over pairs of columns */
  method UpperSquares(cfg: Config, c: array<int>, a: array<int>, first: int, ghost h0: nat) returns (co: int)
    requires SqrInputs(cfg, a, c) && 2 * h0 + 1 == cfg.nlen - 1 + cfg.nlen % 2 && h0 <= cfg.nlen - 2
    requires c[..2 * h0 + 1] == Reduced(ColumnSums(a[..], a[..]), 2 * h0 + 1, cfg.Radix())
    requires first == Carry(ColumnSums(a[..], a[..]), 2 * h0 + 1, cfg.Radix())
    modifies c
    ensures c[..2 * cfg.nlen - 3] == Reduced(ColumnSums(a[..], a[..]), 2 * cfg.nlen - 3, cfg.Radix())
    ensures co == Carry(ColumnSums(a[..], a[..]), 2 * cfg.nlen - 3, cfg.Radix())
  {
    hide Carry, Reduced, Conv, Low, Pow, Column, ColumnSums, Roomy, Config.Radix, Digits;
    var n := cfg.nlen;
    ghost var cols, R := ColumnSums(a[..], a[..]), cfg.Radix();
    ghost var h := h0;
    co := first;
    var j := n - 1 + n % 2;
    while j < 2 * n - 3
      invariant j == 2 * h + 1 && h <= n - 2
      invariant co == Carry(cols, j, R) && c[..j] == Reduced(cols, j, R)
    {
      co := TwoColumns(cfg, c, a, j, co, h);
      j := j + 2;
      h := h + 1;
    }
  }

  /** The squaring loops: columns 1.. in pairs, then the upper columns in pairs, then the last three
      by hand. */
  method SqrComba(cfg: Config, c: array<int>, a: array<int>)
    requires SqrInputs(cfg, a, c)
    modifies c
    ensures c[..] == Product(a[..], a[..], cfg.Radix())
  {
    var co := FirstSquare(cfg, c, a);
    ghost var h: nat;
    co, h := LowerSquares(cfg, c, a, co);
    co := UpperSquares(cfg, c, a, co, h);
    LastColumns(cfg, c, a, co);
  }
}
