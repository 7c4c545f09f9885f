/** BIG_mul in its three loop forms.  Each returns the same limbs: Product(a, b). */
module BigMul {
  import opened Arith
  import opened Words
  import opened Limbs
  import opened Columns

  /** A dchunk can hold one and a half columns of partial products and a carry. */
  ghost predicate Roomy(cfg: Config)
    requires cfg.Valid()
  {
    (cfg.nlen + cfg.nlen / 2) * (cfg.Radix() * cfg.Radix()) <= cfg.DHalf()
  }

  /** What n partial products can add up to. */
  function Room(cfg: Config, n: int): int
    requires cfg.Valid()
  {
    n * ((cfg.Radix() - 1) * (cfg.Radix() - 1))
  }

  /** An accumulator of at most n positive and m negative partial products and a carry fits. */
  lemma AccFits(cfg: Config, x: int, n: int, m: int)
    requires cfg.Valid() && Roomy(cfg)
    requires n <= cfg.nlen + cfg.nlen / 2 && m <= cfg.nlen + cfg.nlen / 2
    requires var M := (cfg.Radix() - 1) * (cfg.Radix() - 1); var C := (cfg.nlen + 1) * (cfg.Radix() - 1);
             -(m * M) - C <= x <= n * M + C
    ensures -cfg.DHalf() <= x < cfg.DHalf()
  {
    var R, K := cfg.Radix(), cfg.nlen + cfg.nlen / 2;
    var M, C := (R - 1) * (R - 1), (cfg.nlen + 1) * (R - 1);
    MulBound(R - 1, R - 1, R - 1);
    MulMono(n, K, M);
    MulMono(m, K, M);
    MulMono(cfg.nlen + 1, K, R - 1);
    assert K * M + K * (R - 1) == K * (R * R) - K * R by {
      MulDist(M, R - 1, K);
      MulDist(R - 1, 1, R - 1);
      MulDist(R, 1, R);
      MulDist(R * R, R, K);
    }
    MulStrict(0, K, R);
  }

  /** Carries between columns stay below nlen * (R-1). */
  lemma ColumnCarry(cfg: Config, a: seq<int>, b: seq<int>, k: nat)
    requires cfg.Valid() && |a| == |b| == cfg.nlen && Normal(a, cfg.Radix()) && Normal(b, cfg.Radix())
    requires k < 2 * cfg.nlen
    ensures 0 <= Carry(ColumnSums(a, b), k, cfg.Radix()) < cfg.nlen * (cfg.Radix() - 1)
    decreases k
  {
    var R, cols := cfg.Radix(), ColumnSums(a, b);
    var x := cfg.nlen * (R - 1);
    MulMono(1, R - 1, cfg.nlen);
    forall j | 0 <= j < k
      ensures -(x * (R - 1)) <= cols[j] <= x * (R - 1)
    {
      ConvBounds(a, b, 0, |a|, j, R);
      MulAssoc(cfg.nlen, R - 1, R - 1);
    }
    CarryBounds(cols, k, x, R);
    CarryNonNegative(cols, k, R, a, b);
  }

  lemma CarryNonNegative(cols: seq<int>, k: nat, R: int, a: seq<int>, b: seq<int>)
    requires R >= 1 && Normal(a, R) && Normal(b, R) && |a| > 0 && |b| > 0 && cols == ColumnSums(a, b) && k <= |cols|
    ensures Carry(cols, k, R) >= 0
    decreases k
  {
    if k > 0 {
      CarryNonNegative(cols, k - 1, R, a, b);
      ConvBounds(a, b, 0, |a|, k - 1, R);
      DivMonotone(0, Carry(cols, k - 1, R) + cols[k - 1], R);
    }
  }

  /** The top digit of a product is its last carry. */
  lemma LastCarry(a: seq<int>, b: seq<int>, R: int)
    requires R >= 2 && |a| > 0 && |b| > 0 && Normal(a, R) && Normal(b, R)
    ensures 0 <= Carry(ColumnSums(a, b), |a| + |b| - 1, R) < R
  {
    ProductCorrect(a, b, R);
    var p := Product(a, b, R);
    assert 0 <= p[|p| - 1] < R;
  }

  ghost predicate MulInputs(cfg: Config, a: array<int>, b: array<int>, c: array<int>)
    reads a, b
  {
    && cfg.Valid() && a.Length == b.Length == cfg.nlen && c.Length == 2 * cfg.nlen
    && c != a && c != b
    && Normal(a[..], cfg.Radix()) && Normal(b[..], cfg.Radix())
  }

  /** while (k <= hi) { t += a[k]*b[i-k]; k++; } */
  method AddProducts(cfg: Config, t0: int, a: array<int>, b: array<int>, i: nat, lo: nat, hi: nat) returns (t: int)
    requires cfg.Valid() && Normal(a[..], cfg.Radix()) && Normal(b[..], cfg.Radix())
    requires lo <= hi + 1 && hi <= i && hi < a.Length && i - lo < b.Length
    requires -cfg.DHalf() <= t0 < cfg.DHalf() - Room(cfg, hi + 1 - lo)
    ensures t == t0 + Conv(a[..], b[..], lo, hi + 1, i)
  {
    t := t0;
    var k := lo;
    while k <= hi
      invariant lo <= k <= hi + 1
      invariant t == t0 + Conv(a[..], b[..], lo, k, i)
    {
      ConvBounds(a[..], b[..], lo, k + 1, i, cfg.Radix());
      MulBound(cfg.Radix() - 1, cfg.Radix() - 1, cfg.Radix() - 1);
      MulMono(k + 1 - lo, hi + 1 - lo, (cfg.Radix() - 1) * (cfg.Radix() - 1));
      t := cfg.Dword(t + a[k] * b[i - k]);
      k := k + 1;
    }
  }

  /** for (i = lo; i <= hi; i++) t += (a[i]-a[k-i])*(b[k-i]-b[i]) */
  method AddDifferences(cfg: Config, t0: int, a: array<int>, b: array<int>, k: nat, lo: nat, hi: nat) returns (t: int)
    requires cfg.Valid() && Normal(a[..], cfg.Radix()) && Normal(b[..], cfg.Radix())
    requires a.Length == b.Length && lo <= hi + 1 && hi < a.Length && hi <= k && k - lo < a.Length
    requires Room(cfg, hi + 1 - lo) - cfg.DHalf() <= t0 < cfg.DHalf() - Room(cfg, hi + 1 - lo)
    ensures t == t0 + Cross(a[..], b[..], lo, hi + 1, k)
  {
    t := t0;
    RadixIsChunk(cfg);
    var i := lo;
    while i <= hi
      invariant lo <= i <= hi + 1
      invariant t == t0 + Cross(a[..], b[..], lo, i, k)
    {
      CrossBounds(a[..], b[..], lo, i + 1, k, cfg.Radix());
      MulBound(cfg.Radix() - 1, cfg.Radix() - 1, cfg.Radix() - 1);
      MulMono(i + 1 - lo, hi + 1 - lo, (cfg.Radix() - 1) * (cfg.Radix() - 1));
      t := cfg.Dword(t + cfg.Word(a[i] - a[k - i]) * cfg.Word(b[k - i] - b[i]));
      i := i + 1;
    }
  }

  /** Digits are words. */
  lemma RadixIsChunk(cfg: Config)
    requires cfg.Valid()
    ensures cfg.Radix() <= cfg.Half()
  {
    cfg.HalfIsExcess();
    MulMono(1, cfg.Nexcess(), cfg.Radix());
  }

  /** The room a column of up to nlen products leaves above a carry. */
  lemma CarryFits(cfg: Config, t: int, n: nat)
    requires cfg.Valid() && Roomy(cfg) && 0 <= t <= (cfg.nlen + 1) * (cfg.Radix() - 1) && n <= cfg.nlen
    ensures -cfg.DHalf() <= t < cfg.DHalf() - Room(cfg, n)
  {
    var M := (cfg.Radix() - 1) * (cfg.Radix() - 1);
    MulBound(cfg.Radix() - 1, cfg.Radix() - 1, cfg.Radix() - 1);
    MulMono(0, n, M);
    AccFits(cfg, t + n * M, n, 0);
  }

  /** c[k] = (chunk)t & BMASK; t >> BASEBITS */
  method StoreDigit(cfg: Config, c: array<int>, k: nat, t: int, ghost cols: seq<int>) returns (carry: int)
    requires cfg.Valid() && k < c.Length && k < |cols|
    requires t == Carry(cols, k, cfg.Radix()) + cols[k]
    requires c[..k] == Reduced(cols, k, cfg.Radix())
    modifies c
    ensures c[..k + 1] == Reduced(cols, k + 1, cfg.Radix())
    ensures carry == Carry(cols, k + 1, cfg.Radix())
  {
    ReducedStep(cols, k, t, cfg.Radix());
    cfg.WordMask(t);
    c[k] := cfg.Word(t) % cfg.Radix();
    assert c[..k + 1] == c[..k] + [c[k]];
    carry := t / cfg.Radix();
  }

  /** c[2*NLEN-1] = (chunk)t: the last carry is a digit. */
  method StoreTop(cfg: Config, c: array<int>, t: int, ghost a: seq<int>, ghost b: seq<int>)
    requires cfg.Valid() && |a| == |b| == cfg.nlen && c.Length == 2 * cfg.nlen
    requires Normal(a, cfg.Radix()) && Normal(b, cfg.Radix())
    requires t == Carry(ColumnSums(a, b), 2 * cfg.nlen - 1, cfg.Radix())
    requires c[..2 * cfg.nlen - 1] == Reduced(ColumnSums(a, b), 2 * cfg.nlen - 1, cfg.Radix())
    modifies c
    ensures c[..] == Product(a, b, cfg.Radix())
  {
    LastCarry(a, b, cfg.Radix());
    RadixIsChunk(cfg);
    c[2 * cfg.nlen - 1] := cfg.Word(t);
    assert c[..] == c[..2 * cfg.nlen - 1] + [c[2 * cfg.nlen - 1]];
  }

  /** Columns 0 .. NLEN-1. */
  method LowerColumns(cfg: Config, c: array<int>, a: array<int>, b: array<int>) returns (t: int)
    requires MulInputs(cfg, a, b, c) && Roomy(cfg)
    modifies c
    ensures t == Carry(ColumnSums(a[..], b[..]), cfg.nlen, cfg.Radix())
    ensures c[..cfg.nlen] == Reduced(ColumnSums(a[..], b[..]), cfg.nlen, cfg.Radix())
  {
    var n, R := cfg.nlen, cfg.Radix();
    ghost var A, B := a[..], b[..];
    ghost var cols := ColumnSums(A, B);
    MulMono(0, R - 1, n + 1);
    CarryFits(cfg, 0, 1);
    ConvBounds(A, B, 0, 1, 0, R);
    t := cfg.Dword(a[0] * b[0]);
    assert t == Conv(A, B, 0, 1, 0) by { assert Conv(A, B, 0, 0, 0) == 0; }
    ColumnTrim(A, B, 0, 1, 0);
    t := StoreDigit(cfg, c, 0, t, cols);
    hide Carry, Reduced, Conv, Room, Pow, Digits, Config.Radix, Config.DHalf;
    var i := 1;
    while i < n
      invariant 1 <= i <= n
      invariant t == Carry(cols, i, R)
      invariant c[..i] == Reduced(cols, i, R)
    {
      ColumnFits(cfg, A, B, i, i + 1);
      t := AddProducts(cfg, t, a, b, i, 0, i);
      ColumnTrim(A, B, 0, i + 1, i);
      t := StoreDigit(cfg, c, i, t, cols);
      i := i + 1;
    }
  }

  /** The product-scanning loops. */
  method MulComba(cfg: Config, c: array<int>, a: array<int>, b: array<int>)
    requires MulInputs(cfg, a, b, c) && Roomy(cfg)
    modifies c
    ensures c[..] == Product(a[..], b[..], cfg.Radix())
  {
    var n, R := cfg.nlen, cfg.Radix();
    ghost var A, B := a[..], b[..];
    ghost var cols := ColumnSums(A, B);
    var t := LowerColumns(cfg, c, a, b);
    hide Carry, Reduced, Conv, Room, Pow, Digits, Config.Radix, Config.DHalf;
    var i := n;
    while i < 2 * n - 1
      invariant n <= i <= 2 * n - 1
      invariant t == Carry(cols, i, R)
      invariant c[..i] == Reduced(cols, i, R)
    {
      ColumnFits(cfg, A, B, i, 2 * n - 1 - i);
      t := AddProducts(cfg, t, a, b, i, i - (n - 1), n - 1);
      ColumnTrim(A, B, i - (n - 1), n, i);
      t := StoreDigit(cfg, c, i, t, cols);
      i := i + 1;
    }
    StoreTop(cfg, c, t, A, B);
  }

  lemma DiagFits(cfg: Config, a: seq<int>, b: seq<int>, lo: int, hi: int)
    requires cfg.Valid() && Roomy(cfg) && Normal(a, cfg.Radix()) && Normal(b, cfg.Radix())
    requires 0 <= lo <= hi && hi <= |a| && hi <= |b| && hi - lo <= cfg.nlen
    ensures 0 <= Diag(a, b, lo, hi) <= cfg.nlen * ((cfg.Radix() - 1) * (cfg.Radix() - 1)) < cfg.DHalf()
  {
    var R := cfg.Radix();
    var M := (R - 1) * (R - 1);
    DiagBounds(a, b, lo, hi, R);
    MulBound(R - 1, R - 1, R - 1);
    MulMono(hi - lo, cfg.nlen, M);
    MulMono(0, R - 1, cfg.nlen + 1);
    AccFits(cfg, cfg.nlen * M, cfg.nlen, 0);
  }

  /** The room a carry and the diagonal products leave for up to nlen/2 difference products of
      either sign. */
  lemma DifferencesFit(cfg: Config, t: int, s: int, n: nat)
    requires cfg.Valid() && Roomy(cfg) && 0 <= t <= (cfg.nlen + 1) * (cfg.Radix() - 1) && n <= cfg.nlen / 2
    requires 0 <= s <= cfg.nlen * ((cfg.Radix() - 1) * (cfg.Radix() - 1))
    ensures Room(cfg, n) >= 0 && Room(cfg, n) - cfg.DHalf() <= t + s < cfg.DHalf() - Room(cfg, n)
  {
    var M := (cfg.Radix() - 1) * (cfg.Radix() - 1);
    MulBound(cfg.Radix() - 1, cfg.Radix() - 1, cfg.Radix() - 1);
    MulMono(0, n, M);
    MulMono(0, cfg.nlen, M);
    MulDist(cfg.nlen, n, M);
    MulMono(0, cfg.nlen + 1, cfg.Radix() - 1);
    AccFits(cfg, t + s + n * M, cfg.nlen + n, n);
    AccFits(cfg, t + s - n * M, cfg.nlen, n);
  }

  lemma KaratsubaFits(cfg: Config, a: seq<int>, b: seq<int>, k: nat, lo: nat, hi: nat)
    requires cfg.Valid() && Roomy(cfg) && |a| == |b| == cfg.nlen
    requires Normal(a, cfg.Radix()) && Normal(b, cfg.Radix())
    requires k < 2 * cfg.nlen && lo <= hi < cfg.nlen && lo + hi == k
    ensures 0 <= Diag(a, b, lo, hi + 1) < cfg.DHalf()
    ensures var room := Room(cfg, hi - k / 2);
            room - cfg.DHalf() <= Carry(ColumnSums(a, b), k, cfg.Radix()) + Diag(a, b, lo, hi + 1) < cfg.DHalf() - room
            && room >= 0
  {
    ColumnCarry(cfg, a, b, k);
    DiagFits(cfg, a, b, lo, hi + 1);
    MulDist(cfg.nlen, 1, cfg.Radix() - 1);
    DifferencesFit(cfg, Carry(ColumnSums(a, b), k, cfg.Radix()), Diag(a, b, lo, hi + 1), hi - k / 2);
  }

  lemma ColumnFits(cfg: Config, a: seq<int>, b: seq<int>, k: nat, n: nat)
    requires cfg.Valid() && Roomy(cfg) && |a| == |b| == cfg.nlen
    requires Normal(a, cfg.Radix()) && Normal(b, cfg.Radix())
    requires k < 2 * cfg.nlen && n <= cfg.nlen
    ensures var t := Carry(ColumnSums(a, b), k, cfg.Radix());
            -cfg.DHalf() <= t < cfg.DHalf() - Room(cfg, n)
  {
    ColumnCarry(cfg, a, b, k);
    MulDist(cfg.nlen, 1, cfg.Radix() - 1);
    CarryFits(cfg, Carry(ColumnSums(a, b), k, cfg.Radix()), n);
  }

  /** for (i = 0; i < NLEN; i++) d[i] = a[i]*b[i] */
  method Diagonals(cfg: Config, a: array<int>, b: array<int>) returns (d: array<int>)
    requires cfg.Valid() && Roomy(cfg) && a.Length == b.Length == cfg.nlen
    requires Normal(a[..], cfg.Radix()) && Normal(b[..], cfg.Radix())
    ensures fresh(d) && d.Length == cfg.nlen
    ensures forall j {:trigger d[j]} :: 0 <= j < cfg.nlen ==> d[j] == a[j] * b[j]
  {
    d := new int[cfg.nlen];
    var i := 0;
    while i < cfg.nlen
      invariant 0 <= i <= cfg.nlen
      invariant forall j :: 0 <= j < i ==> d[j] == a[j] * b[j]
    {
      assert Diag(a[..], b[..], i, i) == 0;
      DiagFits(cfg, a[..], b[..], i, i + 1);
      d[i] := cfg.Dword(a[i] * b[i]);
      i := i + 1;
    }
  }

  /** t += s, the difference products, and the digit: what both loops do for one column. */
  method DifferenceColumn(cfg: Config, c: array<int>, a: array<int>, b: array<int>, s: int, t0: int, k: nat, lo: nat,
      hi: nat)
    returns (t: int)
    requires MulInputs(cfg, a, b, c) && Roomy(cfg)
    requires k < 2 * cfg.nlen - 1 && lo <= hi < cfg.nlen && lo + hi == k && (lo == 0 || hi == cfg.nlen - 1)
    requires s == Diag(a[..], b[..], lo, hi + 1)
    requires t0 == Carry(ColumnSums(a[..], b[..]), k, cfg.Radix())
    requires c[..k] == Reduced(ColumnSums(a[..], b[..]), k, cfg.Radix())
    modifies c
    ensures c[..k + 1] == Reduced(ColumnSums(a[..], b[..]), k + 1, cfg.Radix())
    ensures t == Carry(ColumnSums(a[..], b[..]), k + 1, cfg.Radix())
  {
    KaratsubaFits(cfg, a[..], b[..], k, lo, hi);
    t := cfg.Dword(t0 + s);
    assert hi + 1 - (1 + k / 2) == hi - k / 2;
    t := AddDifferences(cfg, t, a, b, k, 1 + k / 2, hi);
    KaratsubaColumn(a[..], b[..], lo, hi, k);
    t := StoreDigit(cfg, c, k, t, ColumnSums(a[..], b[..]));
  }

  /** s and t between the columns of the Karatsuba-style loops. */
  ghost predicate Between(cfg: Config, a: array<int>, b: array<int>, c: array<int>, d: array<int>, k: nat, lo: nat,
      hi: nat, s: int, t: int)
    reads a, b, c, d
  {
    && MulInputs(cfg, a, b, c) && Roomy(cfg) && d != c && d.Length == cfg.nlen && 1 <= k < 2 * cfg.nlen
      && lo <= hi <= cfg.nlen
    && (forall j {:trigger d[j]} :: 0 <= j < cfg.nlen ==> d[j] == a[j] * b[j])
    && s == Diag(a[..], b[..], lo, hi)
    && t == Carry(ColumnSums(a[..], b[..]), k, cfg.Radix())
    && c[..k] == Reduced(ColumnSums(a[..], b[..]), k, cfg.Radix())
  }

  /** s += d[k] and column k of the lower half */
  method LowerStep(cfg: Config, c: array<int>, a: array<int>, b: array<int>, d: array<int>, k: nat, s0: int, t0: int)
      returns (s: int, t: int)
    requires Between(cfg, a, b, c, d, k, 0, k, s0, t0) && k < cfg.nlen
    modifies c
    ensures Between(cfg, a, b, c, d, k + 1, 0, k + 1, s, t)
  {
    hide Carry, Reduced, Conv, Pow, Roomy, Digits, ColumnSums, Config.Radix, Config.DHalf;
    DiagFits(cfg, a[..], b[..], 0, k + 1);
    s := cfg.Dword(s0 + d[k]);
    t := DifferenceColumn(cfg, c, a, b, s, t0, k, 0, k);
  }

  /** s -= d[k-NLEN] and column k of the upper half */
  method UpperStep(cfg: Config, c: array<int>, a: array<int>, b: array<int>, d: array<int>, k: nat, s0: int, t0: int)
      returns (s: int, t: int)
    requires cfg.nlen <= k < 2 * cfg.nlen - 1 && Between(cfg, a, b, c, d, k, k - cfg.nlen, cfg.nlen, s0, t0)
    modifies c
    ensures Between(cfg, a, b, c, d, k + 1, k - cfg.nlen + 1, cfg.nlen, s, t)
  {
    hide Carry, Reduced, Conv, Pow, Roomy, Digits, ColumnSums, Config.Radix, Config.DHalf;
    DiagFirst(a[..], b[..], k - cfg.nlen, cfg.nlen);
    DiagFits(cfg, a[..], b[..], k - cfg.nlen + 1, cfg.nlen);
    s := cfg.Dword(s0 - d[k - cfg.nlen]);
    t := DifferenceColumn(cfg, c, a, b, s, t0, k, k - cfg.nlen + 1, cfg.nlen - 1);
  }

  /** The diagonal products, and column 0. */
  method FirstStep(cfg: Config, c: array<int>, a: array<int>, b: array<int>) returns (d: array<int>, s: int, t: int)
    requires MulInputs(cfg, a, b, c) && Roomy(cfg)
    modifies c
    ensures fresh(d) && Between(cfg, a, b, c, d, 1, 0, 1, s, t)
  {
    d := Diagonals(cfg, a, b);
    s := d[0];
    KaratsubaColumn(a[..], b[..], 0, 0, 0);
    assert Diag(a[..], b[..], 0, 0) == 0;
    t := StoreDigit(cfg, c, 0, s, ColumnSums(a[..], b[..]));
  }

  /** The Karatsuba-style loops: the running sum s of diagonal products is shared by all columns. */
  method MulKaratsuba(cfg: Config, c: array<int>, a: array<int>, b: array<int>)
    requires MulInputs(cfg, a, b, c) && Roomy(cfg)
    modifies c
    ensures c[..] == Product(a[..], b[..], cfg.Radix())
  {
    assert cfg.Valid() && cfg.nlen >= 2;
    hide *;
    var d, s, t := FirstStep(cfg, c, a, b);
    s, t := LowerLoop(cfg, c, a, b, d, s, t);
    s, t := UpperLoop(cfg, c, a, b, d, s, t);
    AllColumns(cfg, a, b, c, d, s, t);
    StoreTop(cfg, c, t, a[..], b[..]);
  }

  method LowerLoop(cfg: Config, c: array<int>, a: array<int>, b: array<int>, d: array<int>, s0: int, t0: int)
      returns (s: int, t: int)
    requires cfg.nlen >= 2 && Between(cfg, a, b, c, d, 1, 0, 1, s0, t0)
    modifies c
    ensures Between(cfg, a, b, c, d, cfg.nlen, 0, cfg.nlen, s, t)
  {
    hide *;
    s, t := s0, t0;
    var k := 1;
    while k < cfg.nlen
      invariant 1 <= k <= cfg.nlen && Between(cfg, a, b, c, d, k, 0, k, s, t)
      modifies c
    {
      s, t := LowerStep(cfg, c, a, b, d, k, s, t);
      k := k + 1;
    }
  }

  method UpperLoop(cfg: Config, c: array<int>, a: array<int>, b: array<int>, d: array<int>, s0: int, t0: int)
      returns (s: int, t: int)
    requires cfg.nlen >= 2 && Between(cfg, a, b, c, d, cfg.nlen, 0, cfg.nlen, s0, t0)
    modifies c
    ensures Between(cfg, a, b, c, d, 2 * cfg.nlen - 1, cfg.nlen - 1, cfg.nlen, s, t)
  {
    hide *;
    s, t := s0, t0;
    var k := cfg.nlen;
    while k < 2 * cfg.nlen - 1
      invariant cfg.nlen <= k <= 2 * cfg.nlen - 1 && Between(cfg, a, b, c, d, k, k - cfg.nlen, cfg.nlen, s, t)
      modifies c
    {
      s, t := UpperStep(cfg, c, a, b, d, k, s, t);
      k := k + 1;
    }
  }

  lemma AllColumns(cfg: Config, a: array<int>, b: array<int>, c: array<int>, d: array<int>, s: int, t: int)
    requires cfg.Valid() && Between(cfg, a, b, c, d, 2 * cfg.nlen - 1, cfg.nlen - 1, cfg.nlen, s, t)
    ensures |a[..]| == |b[..]| == cfg.nlen && c.Length == 2 * cfg.nlen && Normal(a[..], cfg.Radix())
      && Normal(b[..], cfg.Radix())
    ensures t == Carry(ColumnSums(a[..], b[..]), 2 * cfg.nlen - 1, cfg.Radix())
    ensures c[..2 * cfg.nlen - 1] == Reduced(ColumnSums(a[..], b[..]), 2 * cfg.nlen - 1, cfg.Radix())
  {
  }
}
