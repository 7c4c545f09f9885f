/** Shifts in place: BIG_shl, BIG_fshl, BIG_dshl, BIG_shr, BIG_fshr, BIG_dshr.  Arrays of any length
    stand for BIG and DBIG alike; a shift by k moves k / BASEBITS limbs and then k % BASEBITS bits. */
module BigShift {
  import opened Arith
  import opened Words
  import opened Limbs

  /** hi | lo for words without a common bit: lo fits below the zero bits of hi. */
  function Or(hi: int, lo: int, p: int): int
    requires p > 0 && hi % p == 0 && 0 <= lo < p
  {
    hi + lo
  }

  /** 2^n * 2^(BASEBITS-n) is the radix. */
  lemma SplitRadix(cfg: Config, n: nat)
    requires cfg.Valid() && n < cfg.bits
    ensures Pow(2, n) >= 1 && Pow(2, cfg.bits - n) >= 2
    ensures Pow(2, n) * Pow(2, cfg.bits - n) == cfg.Radix()
  {
    PowPositive(2, n);
    PowMonotone(2, 1, cfg.bits - n);
    assert Pow(2, 1) == 2 * Pow(2, 0);
    PowAdd(2, n, cfg.bits - n);
  }

  /** k / BASEBITS: how many whole limbs a shift moves. */
  function Whole(cfg: Config, k: nat): nat
    requires cfg.Valid()
  {
    DivMonotone(0, k, cfg.bits);
    k / cfg.bits
  }

  /** k % BASEBITS: how many bits it moves beyond that. */
  function Part(cfg: Config, k: nat): (n: nat)
    requires cfg.Valid()
    ensures n < cfg.bits
  {
    k % cfg.bits
  }

  /** 2^k as whole limbs and remaining bits. */
  lemma SplitShift(cfg: Config, k: nat)
    requires cfg.Valid()
    ensures Pow(2, k) == Pow(cfg.Radix(), Whole(cfg, k)) * Pow(2, Part(cfg, k))
  {
    var m, n := k / cfg.bits, k % cfg.bits;
    assert k == cfg.bits * m + n;
    PowMul(2, cfg.bits, m);
    PowAdd(2, cfg.bits * m, n);
  }

  /** A cut inside a digit u: what lies below bit position p*x. */
  lemma LowPartMod(v: int, low: int, p: int, u: int, k: int, x: int, y: int, R: int)
    requires p > 0 && x > 0 && R == x * y && 0 <= low < p && v == low + p * (u + k * R)
    ensures p * x > 0 && v % (p * x) == low + (u % x) * p
  {
    var d, j := u % x, u / x;
    MulStrict(0, p, x);
    assert k * R == (k * y) * x by { assert x * y == y * x; MulAssoc(k, y, x); }
    MulDist(j, k * y, x);
    assert u + k * R == d + (j + k * y) * x;
    MulDist(d, (j + k * y) * x, p);
    assert p * ((j + k * y) * x) == (j + k * y) * (p * x)
      by { MulAssoc(j + k * y, x, p); assert x * p == p * x; assert p * ((j + k * y) * x) == ((j + k * y) * x) * p; }
    MulMono(d, x - 1, p);
    MulDist(x, 1, p);
    DivModUnique(v, p * x, j + k * y, low + d * p);
  }

  /** A shift moves fewer than n limbs if and only if it is shorter than n limbs. */
  lemma LimbsMoved(cfg: Config, k: nat, n: nat)
    requires cfg.Valid() && n >= 1
    ensures Whole(cfg, k) < n <==> k < cfg.bits * n
  {
    var w := cfg.bits * n;
    assert w == n * cfg.bits && 0 * cfg.bits == 0;
    MulStrict(0, n, cfg.bits);
    if k < w {
      DivBounds(k, cfg.bits, 0, n);
    } else {
      DivMonotone(w, k, cfg.bits);
      DivModUnique(w, cfg.bits, n, 0);
    }
  }

  // ---------------------------------------------------------------- right shifts

  /** Limb i of s >> (m limbs, bits x = 2^n), where x*y is the radix. */
  function ShrLimb(s: seq<int>, m: nat, x: int, y: int, i: nat): int
    requires x > 0 && i < |s|
  {
    if m + i + 1 < |s| then s[m + i] / x + (s[m + i + 1] % x) * y
    else if m + i + 1 == |s| then s[m + i] / x
    else 0
  }

  function ShrLimbs(s: seq<int>, m: nat, x: int, y: int): (r: seq<int>)
    requires x > 0
    ensures |r| == |s|
  {
    seq(|s|, i requires 0 <= i < |s| => ShrLimb(s, m, x, y, i))
  }

  /** s >> k. */
  function RightShift(cfg: Config, s: seq<int>, k: nat): (r: seq<int>)
    requires cfg.Valid()
    ensures |r| == |s|
  {
    PowPositive(2, Part(cfg, k));
    ShrLimbs(s, Whole(cfg, k), Pow(2, Part(cfg, k)), Pow(2, cfg.bits - Part(cfg, k)))
  }

  lemma SmallShift(cfg: Config, k: nat)
    requires cfg.Valid() && k < cfg.bits
    ensures Whole(cfg, k) == 0 && Part(cfg, k) == k
  {
    DivModUnique(k, cfg.bits, 0, k);
  }

  /** (u >> n) | ((v << (BASEBITS-n)) & BMASK) */
  method RightLimb(cfg: Config, u: int, v: int, n: nat) returns (r: int)
    requires cfg.Valid() && n < cfg.bits && 0 <= u < cfg.Radix()
    ensures Pow(2, n) > 0 && r == u / Pow(2, n) + (v % Pow(2, n)) * Pow(2, cfg.bits - n)
  {
    var x, y := Pow(2, n), Pow(2, cfg.bits - n);
    SplitRadix(cfg, n);
    cfg.WordMask(v * y);
    DivModScale(v, x, y);
    DivBounds(u, x, 0, y);
    DivModUnique((v % x) * y, y, v % x, 0);
    r := Or(cfg.Word(v * y) % cfg.Radix(), u / x, y);
  }

  /** The limbs below i are shifted, those from i on are not. */
  ghost predicate ShiftedDown(s: seq<int>, r: seq<int>, m: nat, x: int, y: int, i: int)
    requires x > 0
  {
    && |r| == |s| && (forall j :: 0 <= j < i && j < |s| ==> r[j] == ShrLimb(s, m, x, y, j))
    && (forall j :: i <= j < |s| && 0 <= j ==> r[j] == s[j])
  }

  /** BIG_shr: a shift that moves at most NLEN limbs.  The limb below the zeros is written if there is one. */
  method Shr(cfg: Config, a: array<int>, k: nat)
    requires cfg.Valid() && a.Length >= 1 && Whole(cfg, k) <= a.Length && LowNormal(a[..], cfg.Radix())
    modifies a
    ensures a[..] == RightShift(cfg, old(a[..]), k)
  {
    ghost var A := a[..];
    var n, m := Part(cfg, k), Whole(cfg, k);
    RightShiftParts(cfg, A, k);
    hide *;
    ShrLoop(cfg, a, m, n);
    if a.Length > m {
      ShrTop(cfg, a, m, n, A);
    } else {
      NoneShiftedDown(A, a[..], m, Pow(2, n), Pow(2, cfg.bits - n));
    }
    ClearAbove(a, m, A, Pow(2, n), Pow(2, cfg.bits - n));
  }

  /** BIG_dshr writes that limb in any case, so that at least one limb must remain. */
  method DShr(cfg: Config, a: array<int>, k: nat)
    requires cfg.Valid() && Whole(cfg, k) < a.Length && LowNormal(a[..], cfg.Radix())
    modifies a
    ensures a[..] == RightShift(cfg, old(a[..]), k)
  {
    ghost var A := a[..];
    var n, m := Part(cfg, k), Whole(cfg, k);
    RightShiftParts(cfg, A, k);
    hide *;
    ShrLoop(cfg, a, m, n);
    ShrTop(cfg, a, m, n, A);
    ClearAbove(a, m, A, Pow(2, n), Pow(2, cfg.bits - n));
  }

  lemma RightShiftParts(cfg: Config, s: seq<int>, k: nat)
    requires cfg.Valid()
    ensures Pow(2, Part(cfg, k)) > 0
    ensures RightShift(cfg, s, k) == ShrLimbs(s, Whole(cfg, k), Pow(2, Part(cfg, k)), Pow(2, cfg.bits - Part(cfg, k)))
  {
    PowPositive(2, Part(cfg, k));
  }

  lemma NoneShiftedDown(s: seq<int>, r: seq<int>, m: nat, x: int, y: int)
    requires x > 0 && m == |s| && ShiftedDown(s, r, m, x, y, |s| - m - 1)
    ensures ShiftedDown(s, r, m, x, y, |s| - m)
  {
  }

  /** a[NLEN-m-1] = a[NLEN-1] >> n */
  method ShrTop(cfg: Config, a: array<int>, m: nat, n: nat, ghost A: seq<int>)
    requires cfg.Valid() && n < cfg.bits && m < a.Length == |A| && Pow(2, n) > 0
    requires ShiftedDown(A, a[..], m, Pow(2, n), Pow(2, cfg.bits - n), a.Length - m - 1)
    modifies a
    ensures ShiftedDown(A, a[..], m, Pow(2, n), Pow(2, cfg.bits - n), a.Length - m)
  {
    hide Pow, ShrLimb;
    ShrHigh(A, m, Pow(2, n), Pow(2, cfg.bits - n), a.Length - m - 1);
    a[a.Length - m - 1] := a[a.Length - 1] / Pow(2, n);
  }

  /** for (i = 0; i < NLEN-m-1; i++) a[i] = ... */
  method ShrLoop(cfg: Config, a: array<int>, m: nat, n: nat)
    requires cfg.Valid() && n < cfg.bits && a.Length >= 1 && m <= a.Length && LowNormal(a[..], cfg.Radix())
    modifies a
    ensures Pow(2, n) > 0
    ensures ShiftedDown(old(a[..]), a[..], m, Pow(2, n), Pow(2, cfg.bits - n), a.Length - m - 1)
  {
    ghost var A := a[..];
    ghost var x, y := Pow(2, n), Pow(2, cfg.bits - n);
    SplitRadix(cfg, n);
    hide Pow, Config.Radix, Config.Word, ShrLimb;
    var i := 0;
    while i < a.Length - m - 1
      invariant 0 <= i && (i <= a.Length - m - 1 || i == 0)
      invariant ShiftedDown(A, a[..], m, x, y, i)
    {
      ShrLow(A, m, x, y, i);
      a[i] := RightLimb(cfg, a[m + i], a[m + i + 1], n);
      i := i + 1;
    }
  }

  /** for (i = NLEN-m; i < NLEN; i++) a[i] = 0 */
  method ClearAbove(a: array<int>, m: nat, ghost A: seq<int>, ghost x: int, ghost y: int)
    requires x > 0 && m <= a.Length == |A| && ShiftedDown(A, a[..], m, x, y, a.Length - m)
    modifies a
    ensures a[..] == ShrLimbs(A, m, x, y)
  {
    hide ShrLimb;
    var i := a.Length - m;
    while i < a.Length
      invariant a.Length - m <= i <= a.Length && ShiftedDown(A, a[..], m, x, y, i)
    {
      ShrHigh(A, m, x, y, i);
      a[i] := 0;
      i := i + 1;
    }
  }

  lemma ShrLow(s: seq<int>, m: nat, x: int, y: int, i: nat)
    requires x > 0 && m + i + 1 < |s|
    ensures ShrLimb(s, m, x, y, i) == s[m + i] / x + (s[m + i + 1] % x) * y
  {
  }

  lemma ShrHigh(s: seq<int>, m: nat, x: int, y: int, i: nat)
    requires x > 0 && i < |s| <= m + i + 1
    ensures ShrLimb(s, m, x, y, i) == if m + i + 1 == |s| then s[m + i] / x else 0
  {
  }

  /** BIG_fshr: a shift by less than a limb, returning the bits shifted out as an int, which holds up to 31
      of them. */
  method FShr(cfg: Config, a: array<int>, k: nat) returns (r: int)
    requires cfg.Valid() && a.Length >= 1 && k < cfg.bits && LowNormal(a[..], cfg.Radix())
    modifies a
    ensures a[..] == RightShift(cfg, old(a[..]), k)
    ensures Pow(2, k) > 0 && r == Wrap(old(a[0]) % Pow(2, k), 32)
    ensures k <= 31 ==> r == old(a[0]) % Pow(2, k)
  {
    ghost var A := a[..];
    SmallShift(cfg, k);
    RightShiftParts(cfg, A, k);
    LowInt(a[0], k);
    hide *;
    r := Wrap(a[0] % Pow(2, k), 32);
    ShrLoop(cfg, a, 0, k);
    ShrTop(cfg, a, 0, k, A);
    AllShiftedDown(A, a[..], 0, Pow(2, k), Pow(2, cfg.bits - k));
  }

  lemma LowInt(x: int, k: nat)
    ensures Pow(2, k) > 0 && (k <= 31 ==> Wrap(x % Pow(2, k), 32) == x % Pow(2, k))
  {
    PowPositive(2, k);
    if k <= 31 {
      PowMonotone(2, k, 31);
    }
  }

  lemma AllShiftedDown(s: seq<int>, r: seq<int>, m: nat, x: int, y: int)
    requires x > 0 && ShiftedDown(s, r, m, x, y, |s|)
    ensures r == ShrLimbs(s, m, x, y)
  {
    hide ShrLimb;
  }

  /** Moving bits down: what each limb loses at its low end is what the limb below receives. */
  lemma {:induction false} ShrPrefix(s: seq<int>, x: int, y: int, k: nat, R: int)
    requires x > 0 && R == x * y && k < |s|
    ensures x * Val(ShrLimbs(s, 0, x, y), k, R) + s[0] % x == Val(s, k, R) + (s[k] % x) * Pow(R, k)
    decreases k
  {
    if k > 0 {
      ShrPrefix(s, x, y, k - 1, R);
      ShrStep(s[k - 1], s[k], x, y, Pow(R, k - 1), R);
      MulDist(Val(ShrLimbs(s, 0, x, y), k - 1, R), ShrLimb(s, 0, x, y, k - 1) * Pow(R, k - 1), x);
    }
  }

  lemma ShrStep(u: int, v: int, x: int, y: int, p: int, R: int)
    requires x > 0 && R == x * y
    ensures x * ((u / x + (v % x) * y) * p) == u * p - (u % x) * p + (v % x) * (R * p)
  {
    var q, r, w := u / x, u % x, v % x;
    MulDist(q, w * y, p);
    MulDist(q * p, (w * y) * p, x);
    assert x * (q * p) == (x * q) * p by { MulAssoc(x, q, p); }
    assert x * q == u - r;
    MulDist(u, r, p);
    assert x * ((w * y) * p) == w * (R * p) by {
      MulAssoc(x, w * y, p);
      MulAssoc(x, w, y);
      MulAssoc(w, x, y);
      MulAssoc(w, R, p);
      assert x * w == w * x;
    }
  }

  lemma ShrBits(s: seq<int>, x: int, y: int, R: int)
    requires x > 0 && R == x * y && |s| > 0
    ensures Value(ShrLimbs(s, 0, x, y), R) == Value(s, R) / x
  {
    var k := |s| - 1;
    var r := ShrLimbs(s, 0, x, y);
    ShrPrefix(s, x, y, k, R);
    var p, u := Pow(R, k), s[k];
    MulDist(Val(r, k, R), (u / x) * p, x);
    MulAssoc(x, u / x, p);
    assert x * (u / x) == u - u % x;
    MulDist(u, u % x, p);
    DivModUnique(Value(s, R), x, Value(r, R), s[0] % x);
  }

  /** Whole limbs are dropped first. */
  lemma ShrFrame(s: seq<int>, m: nat, x: int, y: int, R: int)
    requires x > 0 && m < |s|
    ensures Value(ShrLimbs(s, m, x, y), R) == Value(ShrLimbs(s[m..], 0, x, y), R)
  {
    var r, t := ShrLimbs(s, m, x, y), s[m..];
    ValHighZero(r, |t|, |s|, R);
    ValFrame(r, ShrLimbs(t, 0, x, y), |t|, R);
  }

  lemma ShrWhole(s: seq<int>, m: nat, x: int, y: int, R: int)
    requires x > 0 && y > 0 && R == x * y && R >= 1 && LowNormal(s, R) && m < |s|
    ensures Pow(R, m) * x > 0
    ensures Value(ShrLimbs(s, m, x, y), R) == Value(s, R) / (Pow(R, m) * x)
  {
    assert Digits(s, 0, m, R);
    hide Pow, Val, ShrLimbs, LowNormal;
    PowPositive(R, m);
    ValSplit(s, m, |s|, R);
    ValBounds(s, m, R);
    ShrBits(s[m..], x, y, R);
    ShrFrame(s, m, x, y, R);
    QuotientOfHigh(Value(s, R), Val(s, m, R), Value(s[m..], R), Pow(R, m), x);
  }

  lemma QuotientOfHigh(v: int, low: int, high: int, p: int, x: int)
    requires p > 0 && x > 0 && v == low + p * high && 0 <= low < p
    ensures p * x > 0 && high / x == v / (p * x)
  {
    assert p * high == high * p;
    DivModUnique(v, p, high, low);
    DivDiv(v, p, x);
  }

  /** A right shift floor-divides by 2^k. */
  lemma ShrValue(cfg: Config, s: seq<int>, k: nat)
    requires cfg.Valid() && LowNormal(s, cfg.Radix()) && Whole(cfg, k) < |s|
    requires k < cfg.bits || Normal(s, cfg.Radix())
    ensures Pow(2, k) > 0 && Value(RightShift(cfg, s, k), cfg.Radix()) == Value(s, cfg.Radix()) / Pow(2, k)
    ensures LowNormal(RightShift(cfg, s, k), cfg.Radix())
    ensures Normal(s, cfg.Radix()) ==> Normal(RightShift(cfg, s, k), cfg.Radix())
  {
    var m, n := Whole(cfg, k), Part(cfg, k);
    if k < cfg.bits {
      SmallShift(cfg, k);
    }
    hide Whole, Part, Pow, Val, ShrLimbs, LowNormal, Normal;
    SplitRadix(cfg, n);
    SplitShift(cfg, k);
    ShrWhole(s, m, Pow(2, n), Pow(2, cfg.bits - n), cfg.Radix());
    ShrDigits(s, m, Pow(2, n), Pow(2, cfg.bits - n), cfg.Radix());
  }

  lemma ShrDigits(s: seq<int>, m: nat, x: int, y: int, R: int)
    requires x > 0 && y > 0 && R == x * y && LowNormal(s, R) && m < |s|
    requires m == 0 || Normal(s, R)
    ensures LowNormal(ShrLimbs(s, m, x, y), R)
    ensures Normal(s, R) ==> Normal(ShrLimbs(s, m, x, y), R)
  {
    var r := ShrLimbs(s, m, x, y);
    MulStrict(0, x, y);
    forall i | 0 <= i < |r| && (i < |r| - 1 || Normal(s, R))
      ensures 0 <= r[i] < R
    {
      if m + i < |s| {
        assert 0 <= s[m + i] < R;
        MulMono(1, x, y);
        DivBounds(s[m + i], x, 0, y);
        if m + i + 1 < |s| {
          MulMono(0, s[m + i + 1] % x, y);
          MulMono(s[m + i + 1] % x, x - 1, y);
          MulDist(x, 1, y);
        }
      }
    }
  }

  // ---------------------------------------------------------------- left shifts

  /** Limb i of s << (m limbs, bits x = 2^n), where x*y is the radix; the top limb is not masked. */
  function ShlLimb(cfg: Config, s: seq<int>, m: nat, x: int, y: int, i: nat): int
    requires cfg.Valid() && y > 0 && m < |s| && i < |s|
  {
    if i < m then 0
    else if i == m then (s[0] * x) % cfg.Radix()
    else if i < |s| - 1 then (s[i - m] * x) % cfg.Radix() + s[i - m - 1] / y
    else cfg.Word(s[i - m] * x) + s[i - m - 1] / y
  }

  function ShlLimbs(cfg: Config, s: seq<int>, m: nat, x: int, y: int): (r: seq<int>)
    requires cfg.Valid() && y > 0 && m < |s|
    ensures |r| == |s|
  {
    seq(|s|, i requires 0 <= i < |s| => ShlLimb(cfg, s, m, x, y, i))
  }

  /** s << k, truncated to the words of s. */
  function LeftShift(cfg: Config, s: seq<int>, k: nat): (r: seq<int>)
    requires cfg.Valid() && Whole(cfg, k) < |s|
    ensures |r| == |s|
  {
    PowPositive(2, cfg.bits - Part(cfg, k));
    ShlLimbs(cfg, s, Whole(cfg, k), Pow(2, Part(cfg, k)), Pow(2, cfg.bits - Part(cfg, k)))
  }

  /** ((u << n) & BMASK) | (v >> (BASEBITS-n)) */
  method LeftLimb(cfg: Config, u: int, v: int, n: nat) returns (r: int)
    requires cfg.Valid() && n < cfg.bits && 0 <= v < cfg.Radix()
    ensures Pow(2, cfg.bits - n) > 0 && r == (u * Pow(2, n)) % cfg.Radix() + v / Pow(2, cfg.bits - n)
  {
    var x, y := Pow(2, n), Pow(2, cfg.bits - n);
    SplitRadix(cfg, n);
    cfg.WordMask(u * x);
    MulDist(0, 0, x);
    LowBits(u, v, x, y, cfg.Radix());
    r := Or(cfg.Word(u * x) % cfg.Radix(), v / y, x);
  }

  /** Shifted digits leave x-1 and less free, and the bits moved in from below fit there. */
  lemma LowBits(u: int, v: int, x: int, y: int, R: int)
    requires x > 0 && y > 0 && R == x * y && 0 <= v < R
    ensures (u * x) % R == (u % y) * x && ((u * x) % R) % x == 0
    ensures 0 <= v / y < x
  {
    assert R == y * x;
    DivModScale(u, y, x);
    DivModUnique((u % y) * x, x, u % y, 0);
    DivBounds(v, y, 0, x);
  }

  /** (u << n) | (v >> (BASEBITS-n)) in the top word. */
  method TopLimb(cfg: Config, u: int, v: int, n: nat) returns (r: int)
    requires cfg.Valid() && n < cfg.bits && 0 <= v < cfg.Radix()
    ensures Pow(2, cfg.bits - n) > 0 && r == cfg.Word(u * Pow(2, n)) + v / Pow(2, cfg.bits - n)
  {
    var x, y := Pow(2, n), Pow(2, cfg.bits - n);
    SplitRadix(cfg, n);
    LowBits(u, v, x, y, cfg.Radix());
    TopBits(cfg, u, n);
    r := Or(cfg.Word(u * x), v / y, x);
  }

  lemma TopBits(cfg: Config, u: int, n: nat)
    requires cfg.Valid() && n < cfg.bits
    ensures Pow(2, n) > 0 && cfg.Word(u * Pow(2, n)) % Pow(2, n) == 0
  {
    var x, y := Pow(2, n), Pow(2, cfg.chunk - n);
    PowPositive(2, n);
    PowPositive(2, cfg.chunk - n);
    PowAdd(2, n, cfg.chunk - n);
    WrapCong(u * x, cfg.chunk);
    CongWeaken(cfg.Word(u * x), u * x, x, y);
    CongMod(cfg.Word(u * x), u * x, x);
    DivModUnique(u * x, x, u, 0);
  }

  lemma LeftShiftParts(cfg: Config, s: seq<int>, k: nat)
    requires cfg.Valid() && Whole(cfg, k) < |s|
    ensures Pow(2, cfg.bits - Part(cfg, k)) > 0
    ensures LeftShift(cfg, s, k)
      == ShlLimbs(cfg, s, Whole(cfg, k), Pow(2, Part(cfg, k)), Pow(2, cfg.bits - Part(cfg, k)))
  {
    PowPositive(2, cfg.bits - Part(cfg, k));
  }

  /** BIG_shl. */
  method Shl(cfg: Config, a: array<int>, k: nat)
    requires cfg.Valid() && a.Length >= 2 && Whole(cfg, k) < a.Length && LowNormal(a[..], cfg.Radix())
    modifies a
    ensures a[..] == LeftShift(cfg, old(a[..]), k)
  {
    LeftShiftParts(cfg, a[..], k);
    hide *;
    var n, m := Part(cfg, k), Whole(cfg, k);
    ShlLoops(cfg, a, m, n);
  }

  lemma ShlTopLimb(cfg: Config, s: seq<int>, m: nat, x: int, y: int)
    requires cfg.Valid() && y > 0 && |s| >= 2 && m < |s| - 1
    ensures ShlLimb(cfg, s, m, x, y, |s| - 1) == cfg.Word(s[|s| - 1 - m] * x) + s[|s| - m - 2] / y
  {
  }

  lemma ShlMiddle(cfg: Config, s: seq<int>, m: nat, x: int, y: int, i: nat)
    requires cfg.Valid() && y > 0 && m < i < |s| - 1
    ensures ShlLimb(cfg, s, m, x, y, i) == (s[i - m] * x) % cfg.Radix() + s[i - m - 1] / y
  {
  }

  lemma ShlLow(cfg: Config, s: seq<int>, m: nat, x: int, y: int)
    requires cfg.Valid() && y > 0 && m < |s|
    ensures ShlLimb(cfg, s, m, x, y, m) == (s[0] * x) % cfg.Radix()
    ensures forall i :: 0 <= i < m ==> ShlLimb(cfg, s, m, x, y, i) == 0
  {
  }

  /** The limbs above i, as far as they lie above m, are shifted; those up to i, below the top, are not. */
  ghost predicate Partly(cfg: Config, s: seq<int>, r: seq<int>, m: nat, x: int, y: int, i: int)
    requires cfg.Valid() && y > 0 && m < |s|
  {
    && |r| == |s| >= 2 && (forall j :: 0 <= j <= i && j < |s| - 1 ==> r[j] == s[j])
    && (forall j :: i < j < |s| && m < j ==> r[j] == ShlLimb(cfg, s, m, x, y, j))
  }

  method ShlLoops(cfg: Config, a: array<int>, m: nat, n: nat)
    requires cfg.Valid() && n < cfg.bits && a.Length >= 2 && m < a.Length && LowNormal(a[..], cfg.Radix())
    modifies a
    ensures Pow(2, cfg.bits - n) > 0
    ensures a[..] == ShlLimbs(cfg, old(a[..]), m, Pow(2, n), Pow(2, cfg.bits - n))
  {
    ghost var A := a[..];
    SplitRadix(cfg, n);
    hide *;
    if a.Length >= m + 2 {
      ShlTop(cfg, a, m, n);
    } else {
      a[a.Length - 1] := cfg.Word(a[a.Length - 1 - m] * Pow(2, n));
      NoneShifted(cfg, A, a[..], m, Pow(2, n), Pow(2, cfg.bits - n));
    }
    ShlMiddles(cfg, a, m, n, A);
    ShlBottom(cfg, a, m, n, A);
  }

  lemma NoneShifted(cfg: Config, s: seq<int>, r: seq<int>, m: nat, x: int, y: int)
    requires cfg.Valid() && y > 0 && |r| == |s| >= 2 && m == |s| - 1 && forall j :: 0 <= j < |s| - 1 ==> r[j] == s[j]
    ensures Partly(cfg, s, r, m, x, y, |s| - 2)
  {
  }

  /** BIG_dshl combines two limbs in the top word in any case, so that two must remain. */
  method DShl(cfg: Config, a: array<int>, k: nat)
    requires cfg.Valid() && Whole(cfg, k) + 2 <= a.Length && LowNormal(a[..], cfg.Radix())
    modifies a
    ensures a[..] == LeftShift(cfg, old(a[..]), k)
  {
    LeftShiftParts(cfg, a[..], k);
    ghost var A := a[..];
    var n, m := Part(cfg, k), Whole(cfg, k);
    hide *;
    ShlTop(cfg, a, m, n);
    ShlMiddles(cfg, a, m, n, A);
    ShlBottom(cfg, a, m, n, A);
  }

  /** The top word, which keeps the bits moved beyond its digit. */
  method ShlTop(cfg: Config, a: array<int>, m: nat, n: nat)
    requires cfg.Valid() && n < cfg.bits && m + 2 <= a.Length && LowNormal(a[..], cfg.Radix())
    modifies a
    ensures Pow(2, cfg.bits - n) > 0
    ensures Partly(cfg, old(a[..]), a[..], m, Pow(2, n), Pow(2, cfg.bits - n), a.Length - 2)
  {
    ghost var A := a[..];
    var len := a.Length;
    SplitRadix(cfg, n);
    hide Pow, Config.Radix, Config.Word, ShlLimb;
    ShlTopLimb(cfg, A, m, Pow(2, n), Pow(2, cfg.bits - n));
    a[len - 1] := TopLimb(cfg, a[len - 1 - m], a[len - m - 2], n);
  }

  /** for (i = NLEN-2; i > m; i--) a[i] = ... */
  method ShlMiddles(cfg: Config, a: array<int>, m: nat, n: nat, ghost A: seq<int>)
    requires cfg.Valid() && n < cfg.bits && a.Length == |A| >= 2 && m < a.Length && LowNormal(A, cfg.Radix())
      && Pow(2, cfg.bits - n) > 0
    requires Partly(cfg, A, a[..], m, Pow(2, n), Pow(2, cfg.bits - n), a.Length - 2)
    modifies a
    ensures Partly(cfg, A, a[..], m, Pow(2, n), Pow(2, cfg.bits - n), if m < a.Length - 1 then m else a.Length - 2)
  {
    ghost var x, y := Pow(2, n), Pow(2, cfg.bits - n);
    hide Pow, Config.Radix, Config.Word, ShlLimb;
    var i := a.Length - 2;
    while i > m
      invariant -1 <= i <= a.Length - 2 && (m <= i || i == a.Length - 2)
      invariant Partly(cfg, A, a[..], m, x, y, i)
      decreases i
    {
      ShlMiddle(cfg, A, m, x, y, i);
      a[i] := LeftLimb(cfg, a[i - m], a[i - m - 1], n);
      i := i - 1;
    }
  }

  /** a[m] = (a[0] << n) & BMASK, and zeros below */
  method ShlBottom(cfg: Config, a: array<int>, m: nat, n: nat, ghost A: seq<int>)
    requires cfg.Valid() && n < cfg.bits && a.Length == |A| >= 2 && m < a.Length && Pow(2, cfg.bits - n) > 0
    requires Partly(cfg, A, a[..], m, Pow(2, n), Pow(2, cfg.bits - n), if m < a.Length - 1 then m else a.Length - 2)
    modifies a
    ensures a[..] == ShlLimbs(cfg, A, m, Pow(2, n), Pow(2, cfg.bits - n))
  {
    hide Pow, Config.Radix, Config.Word, ShlLimb;
    ShlLow(cfg, A, m, Pow(2, n), Pow(2, cfg.bits - n));
    a[m] := MaskedLow(cfg, a[0], n);
    ClearBelow(a, m);
  }

  /** for (i = 0; i < m; i++) a[i] = 0 */
  method ClearBelow(a: array<int>, m: nat)
    requires m <= a.Length
    modifies a
    ensures forall j :: 0 <= j < a.Length ==> a[j] == if j < m then 0 else old(a[j])
  {
    var i := 0;
    while i < m
      invariant 0 <= i <= m
      invariant forall j :: 0 <= j < a.Length ==> a[j] == if j < i then 0 else old(a[j])
    {
      a[i] := 0;
      i := i + 1;
    }
  }

  /** (a[0] << n) & BMASK */
  method MaskedLow(cfg: Config, u: int, n: nat) returns (r: int)
    requires cfg.Valid() && n < cfg.bits
    ensures r == (u * Pow(2, n)) % cfg.Radix()
  {
    cfg.WordMask(u * Pow(2, n));
    r := cfg.Word(u * Pow(2, n)) % cfg.Radix();
  }

  /** BIG_fshl: a shift by less than a limb. */
  method FShl(cfg: Config, a: array<int>, n: nat)
    requires cfg.Valid() && a.Length >= 2 && n < cfg.bits && LowNormal(a[..], cfg.Radix())
    modifies a
    ensures a[..] == LeftShift(cfg, old(a[..]), n)
  {
    ghost var A := a[..];
    var len := a.Length;
    ghost var x, y := Pow(2, n), Pow(2, cfg.bits - n);
    SplitRadix(cfg, n);
    SmallShift(cfg, n);
    hide Pow, Config.Radix, Config.Word;
    a[len - 1] := TopLimb(cfg, a[len - 1], a[len - 2], n);
    var i := len - 2;
    while i > 0
      invariant 0 <= i <= len - 2
      invariant forall j :: 0 <= j <= i ==> a[j] == A[j]
      invariant forall j :: i < j < len ==> a[j] == ShlLimb(cfg, A, 0, x, y, j)
    {
      a[i] := LeftLimb(cfg, a[i], a[i - 1], n);
      i := i - 1;
    }
    a[0] := MaskedLow(cfg, a[0], n);
  }

  // ---------------------------------------------------------------- the value of a left shift

  /** The digit a limb keeps and the bits it passes up. */
  lemma ShlStep(u: int, low: int, x: int, y: int, p: int, R: int)
    requires x > 0 && y > 0 && R == x * y
    ensures R > 0 && ((u * x) % R + low) * p + (u / y) * (R * p) == x * (u * p) + low * p
  {
    MulStrict(0, x, y);
    assert R == y * x;
    DivModScale(u, y, x);
    var q, r := (u * x) / R, (u * x) % R;
    assert u * x == q * R + r;
    MulDist(r, low, p);
    MulDist(q * R, r, p);
    MulAssoc(q, R, p);
    assert (u * x) * p == x * (u * p) by { MulAssoc(x, u, p); assert u * x == x * u; }
  }

  /** Below the top limb: the shifted prefix plus the bits passed up is x times the prefix. */
  lemma {:induction false} ShlPrefix(cfg: Config, s: seq<int>, m: nat, x: int, y: int, j: nat)
    requires cfg.Valid() && x > 0 && y > 0 && cfg.Radix() == x * y && m < |s| && 1 <= j < |s| - m
    ensures Val(ShlLimbs(cfg, s, m, x, y)[m..], j, cfg.Radix()) + (s[j - 1] / y) * Pow(cfg.Radix(), j)
         == x * Val(s, j, cfg.Radix())
    decreases j
  {
    var R, r := cfg.Radix(), ShlLimbs(cfg, s, m, x, y)[m..];
    if j == 1 {
      ShlStep(s[0], 0, x, y, 1, R);
      assert Pow(R, 0) == 1 && Pow(R, 1) == R * 1;
      assert Val(r, 1, R) == Val(r, 0, R) + r[0] * Pow(R, 0);
      assert Val(s, 1, R) == Val(s, 0, R) + s[0] * Pow(R, 0);
    } else {
      ShlPrefix(cfg, s, m, x, y, j - 1);
      var p := Pow(R, j - 1);
      assert r[j - 1] == (s[j - 1] * x) % R + s[j - 2] / y;
      ShlStep(s[j - 1], s[j - 2] / y, x, y, p, R);
      MulDist(Val(s, j - 1, R), s[j - 1] * p, x);
    }
  }

  /** With the top limb, the shifted limbs are x times the value modulo the radix to their number. */
  lemma ShlWindow(cfg: Config, s: seq<int>, m: nat, x: int, y: int)
    requires cfg.Valid() && x > 0 && y > 0 && cfg.Radix() == x * y && m < |s|
    ensures Pow(cfg.Radix(), |s| - m) > 0
    ensures Cong(Value(ShlLimbs(cfg, s, m, x, y)[m..], cfg.Radix()), x * Val(s, |s| - m, cfg.Radix()),
      Pow(cfg.Radix(), |s| - m))
  {
    var R, l := cfg.Radix(), |s| - m;
    var r := ShlLimbs(cfg, s, m, x, y)[m..];
    PowPositive(R, l);
    assert |r| == l && Value(r, R) == Val(r, l, R);
    if l == 1 {
      assert r[0] == (s[0] * x) % R;
      hide *;
      WindowOne(s, r, x, R);
    } else {
      ShlPrefix(cfg, s, m, x, y, l - 1);
      assert r[l - 1] == cfg.Word(s[l - 1] * x) + s[l - 2] / y;
      hide *;
      WindowMore(cfg, s, r, l, x, s[l - 2] / y);
    }
  }

  lemma WindowOne(s: seq<int>, r: seq<int>, x: int, R: int)
    requires R > 0 && |s| >= 1 && |r| == 1 && r[0] == (s[0] * x) % R
    ensures Pow(R, 1) > 0 && Cong(Val(r, 1, R), x * Val(s, 1, R), Pow(R, 1))
  {
    hide *;
    OneLimb(s, R);
    OneLimb(r, R);
    CongOfMod(s[0] * x, R);
    assert s[0] * x == x * s[0];
  }

  lemma WindowMore(cfg: Config, s: seq<int>, r: seq<int>, l: nat, x: int, q: int)
    requires cfg.Valid() && 2 <= l <= |s| && |r| == l && r[l - 1] == cfg.Word(s[l - 1] * x) + q
    requires Val(r, l - 1, cfg.Radix()) + q * Pow(cfg.Radix(), l - 1) == x * Val(s, l - 1, cfg.Radix())
    ensures Pow(cfg.Radix(), l) > 0 && Cong(Val(r, l, cfg.Radix()), x * Val(s, l, cfg.Radix()), Pow(cfg.Radix(), l))
  {
    var R := cfg.Radix();
    hide *;
    PowPositive(R, l - 1);
    PowPositive(R, l);
    NextLimb(s, l, R);
    NextLimb(r, l, R);
    WindowTop(cfg, Val(r, l - 1, R), Val(r, l, R), Val(s, l - 1, R), Val(s, l, R), s[l - 1], q, x, Pow(R, l - 1),
        Pow(R, l));
  }

  lemma OneLimb(s: seq<int>, R: int)
    requires |s| >= 1
    ensures Val(s, 1, R) == s[0] && Pow(R, 1) == R
  {
    assert Pow(R, 0) == 1 && Pow(R, 1) == R * 1;
    assert Val(s, 1, R) == Val(s, 0, R) + s[0] * 1;
  }

  lemma NextLimb(s: seq<int>, l: nat, R: int)
    requires 1 <= l <= |s|
    ensures Val(s, l, R) == Val(s, l - 1, R) + s[l - 1] * Pow(R, l - 1) && Pow(R, l) == R * Pow(R, l - 1)
  {
  }

  /** The top limb w*p + q*p in place of x*(u*p), where w is the word of u*x. */
  lemma WindowTop(cfg: Config, r0: int, r: int, s0: int, s: int, u: int, q: int, x: int, p: int, Q: int)
    requires cfg.Valid() && p > 0 && Q == cfg.Radix() * p && Q > 0
    requires r0 + q * p == x * s0 && r == r0 + (cfg.Word(u * x) + q) * p && s == s0 + u * p
    ensures Cong(r, x * s, Q)
  {
    var w := cfg.Word(u * x);
    MulDist(w, q, p);
    MulDist(s0, u * p, x);
    assert x * (u * p) == (u * x) * p by { MulAssoc(x, u, p); assert x * u == u * x; }
    cfg.WordMask(u * x);
    hide *;
    CongScaleModulus(w, u * x, cfg.Radix(), p);
    CongRefl(x * s0, Q);
    CongAdd(x * s0, x * s0, w * p, (u * x) * p, Q);
  }

  lemma ShlDigits(cfg: Config, s: seq<int>, m: nat, x: int, y: int)
    requires cfg.Valid() && x > 0 && y > 0 && cfg.Radix() == x * y && m < |s| && LowNormal(s, cfg.Radix())
    ensures LowNormal(ShlLimbs(cfg, s, m, x, y), cfg.Radix())
  {
    var R, r := cfg.Radix(), ShlLimbs(cfg, s, m, x, y);
    forall i | 0 <= i < |r| - 1
      ensures 0 <= r[i] < R
    {
      if m < i {
        LowBits(s[i - m], s[i - m - 1], x, y, R);
        MulMono(s[i - m] % y, y - 1, x);
        MulDist(y, 1, x);
        MulMono(0, s[i - m] % y, x);
      }
    }
  }

  /** A left shift multiplies by 2^k, modulo the radix to the number of limbs. */
  lemma ShlCong(cfg: Config, s: seq<int>, k: nat)
    requires cfg.Valid() && Whole(cfg, k) < |s| && LowNormal(s, cfg.Radix())
    ensures LowNormal(LeftShift(cfg, s, k), cfg.Radix())
    ensures Pow(cfg.Radix(), |s|) > 0
    ensures Cong(Value(LeftShift(cfg, s, k), cfg.Radix()), Value(s, cfg.Radix()) * Pow(2, k), Pow(cfg.Radix(), |s|))
  {
    LeftShiftParts(cfg, s, k);
    var m, n := Whole(cfg, k), Part(cfg, k);
    SplitRadix(cfg, n);
    SplitShift(cfg, k);
    hide Whole, Part;
    ShlDigits(cfg, s, m, Pow(2, n), Pow(2, cfg.bits - n));
    ShlWhole(cfg, s, m, Pow(2, n), Pow(2, cfg.bits - n));
  }

  lemma ShlWhole(cfg: Config, s: seq<int>, m: nat, x: int, y: int)
    requires cfg.Valid() && x > 0 && y > 0 && cfg.Radix() == x * y && m < |s|
    ensures Pow(cfg.Radix(), |s|) > 0
    ensures Cong(Value(ShlLimbs(cfg, s, m, x, y), cfg.Radix()), Value(s, cfg.Radix()) * (Pow(cfg.Radix(), m) * x),
      Pow(cfg.Radix(), |s|))
  {
    hide ShlLimbs, Val, Pow, Config.Radix, Cong;
    var R, len := cfg.Radix(), |s|;
    var r, p, q := ShlLimbs(cfg, s, m, x, y), Pow(R, m), Pow(R, len - m);
    ShlLowZero(cfg, s, m, x, y);
    PowPositive(R, m);
    ShlWindow(cfg, s, m, x, y);
    PowAdd(R, len - m, m);
    var w, low, high := Value(r[m..], R), Val(s, len - m, R), Val(s[len - m..], m, R);
    assert Value(r, R) == 0 + p * w by { ValSplit(r, m, len, R); }
    assert Value(s, R) == low + q * high by { ValSplit(s, len - m, len, R); }
    ShlCongStep(Value(r, R), Value(s, R), Pow(R, len), w, low, high, x, p, q);
  }

  lemma ShlLowZero(cfg: Config, s: seq<int>, m: nat, x: int, y: int)
    requires cfg.Valid() && y > 0 && m < |s|
    ensures Val(ShlLimbs(cfg, s, m, x, y), m, cfg.Radix()) == 0
  {
    ValZero(ShlLimbs(cfg, s, m, x, y), m, cfg.Radix());
  }

  lemma ShlCongStep(v: int, u: int, Q: int, w: int, low: int, high: int, x: int, p: int, q: int)
    requires p > 0 && q > 0 && Cong(w, x * low, q) && v == 0 + p * w && u == low + q * high && Q == q * p
    ensures Q > 0 && Cong(v, u * (p * x), Q)
  {
    ShlCongProduct(w, low, high, x, p, q);
  }

  lemma ShlCongProduct(w: int, low: int, high: int, x: int, p: int, q: int)
    requires p > 0 && q > 0 && Cong(w, x * low, q)
    ensures q * p > 0 && Cong(0 + p * w, (low + q * high) * (p * x), q * p)
  {
    CongScaleModulus(w, x * low, q, p);
    assert (low + q * high) * (p * x) == (x * low) * p + (high * x) * (q * p) by {
      MulDist(low, q * high, p * x);
      assert low * (p * x) == (x * low) * p
        by { MulAssoc(x, low, p); MulAssoc(low, p, x); assert x * (low * p) == (low * p) * x; }
      assert (q * high) * (p * x) == (high * x) * (q * p) by {
        assert q * high == high * q;
        FourFactors(high, q, p, x);
        FourFactors(high, x, q, p);
        assert p * x == x * p;
        FourFactors(high, q, x, p);
      }
    }
    CongIntro((low + q * high) * (p * x), (x * low) * p, high * x, q * p);
    CongSym((low + q * high) * (p * x), (x * low) * p, q * p);
    CongTrans(w * p, (x * low) * p, (low + q * high) * (p * x), q * p);
  }

  /** A left shift of a normalised number is exact when the result fits, and stays normalised. */
  lemma ShlValue(cfg: Config, s: seq<int>, k: nat)
    requires cfg.Valid() && Whole(cfg, k) < |s| && Normal(s, cfg.Radix())
    requires Value(s, cfg.Radix()) * Pow(2, k) < Pow(cfg.Radix(), |s|)
    ensures Normal(LeftShift(cfg, s, k), cfg.Radix())
    ensures Value(LeftShift(cfg, s, k), cfg.Radix()) == Value(s, cfg.Radix()) * Pow(2, k)
  {
    var R, r := cfg.Radix(), LeftShift(cfg, s, k);
    ShlCong(cfg, s, k);
    ShlFits(cfg, s, k);
    NormalBounds(r, R);
    NormalBounds(s, R);
    PowPositive(2, k);
    MulMono(0, Value(s, R), Pow(2, k));
    CongUnique(Value(r, R), Value(s, R) * Pow(2, k), Pow(R, |s|));
  }

  /** The limb that BIG_dshr writes last, and the lower of the two that BIG_dshl reads for the top word,
      exist if and only if one limb remains, and if and only if two do.  BIG_shr and BIG_shl, which ask
      first, need one less. */
  lemma DoubleShiftInRange(cfg: Config, k: nat)
    requires cfg.Valid()
    ensures 2 * cfg.nlen - Whole(cfg, k) - 1 >= 0 <==> k < cfg.bits * (2 * cfg.nlen)
    ensures 2 * cfg.nlen - Whole(cfg, k) - 2 >= 0 <==> k < cfg.bits * (2 * cfg.nlen - 1)
  {
    LimbsMoved(cfg, k, 2 * cfg.nlen);
    LimbsMoved(cfg, k, 2 * cfg.nlen - 1);
  }

  /** For one, numbers of two limbs of 56 bits: BIG_dshl by 168 and BIG_dshr by 224 index limb -1. */
  lemma DoubleShiftOutOfRange()
    ensures var cfg := Config(56, 2, 64);
            cfg.Valid() && 2 * cfg.nlen - Whole(cfg, 168) - 2 == -1 && 2 * cfg.nlen - Whole(cfg, 224) - 1 == -1
  {
  }

  /** A shift by less than a limb is exact up to twice the range: the top limb takes the excess. */
  lemma ShlExcess(cfg: Config, s: seq<int>, k: nat)
    requires Spare(cfg) && |s| >= 2 && k < cfg.bits && Normal(s, cfg.Radix())
    requires Value(s, cfg.Radix()) * Pow(2, k) < 2 * Pow(cfg.Radix(), |s|)
    ensures Whole(cfg, k) == 0 && LowNormal(LeftShift(cfg, s, k), cfg.Radix())
    ensures Value(LeftShift(cfg, s, k), cfg.Radix()) == Value(s, cfg.Radix()) * Pow(2, k)
  {
    SmallShift(cfg, k);
    LeftShiftParts(cfg, s, k);
    SplitRadix(cfg, k);
    hide LeftShift, Normal, LowNormal, Val, Pow, Spare;
    ExcessLimbs(cfg, s, Pow(2, k), Pow(2, cfg.bits - k));
  }

  lemma ExcessLimbs(cfg: Config, s: seq<int>, x: int, y: int)
    requires Spare(cfg) && |s| >= 2 && x > 0 && y > 0 && cfg.Radix() == x * y && Normal(s, cfg.Radix())
    requires Value(s, cfg.Radix()) * x < 2 * Pow(cfg.Radix(), |s|)
    ensures LowNormal(ShlLimbs(cfg, s, 0, x, y), cfg.Radix())
    ensures Value(ShlLimbs(cfg, s, 0, x, y), cfg.Radix()) == Value(s, cfg.Radix()) * x
  {
    SpareHalf(cfg);
    assert LowNormal(s, cfg.Radix()) && 0 <= s[|s| - 1] && cfg.Valid();
    hide *;
    var n := |s|;
    ShlDigits(cfg, s, 0, x, y);
    ShlPrefix(cfg, s, 0, x, y, n - 1);
    ExcessTop(s, x, cfg.Radix());
    MulMono(0, s[n - 1], x);
    var r := ShlLimbs(cfg, s, 0, x, y);
    assert r[0..] == r;
    ExcessValue(cfg, s, x, y);
  }

  lemma ExcessTop(s: seq<int>, x: int, R: int)
    requires R >= 1 && x > 0 && |s| > 0 && Normal(s, R) && Value(s, R) * x < 2 * Pow(R, |s|)
    ensures s[|s| - 1] * x < 2 * R
  {
    var n := |s|;
    var u, p := s[n - 1], Pow(R, n - 1);
    PowPositive(R, n - 1);
    LimbBelow(s, n, R);
    MulMono(u * p, Value(s, R), x);
    assert (u * p) * x == (u * x) * p by { MulAssoc(u, p, x); MulAssoc(u, x, p); assert p * x == x * p; }
    MulAssoc(2, R, p);
    if u * x >= 2 * R {
      MulMono(2 * R, u * x, p);
    }
  }

  lemma ExcessValue(cfg: Config, s: seq<int>, x: int, y: int)
    requires cfg.Valid() && y > 0 && |s| >= 2 && 0 <= s[|s| - 1] * x < cfg.Half()
    requires Val(ShlLimbs(cfg, s, 0, x, y), |s| - 1, cfg.Radix()) + (s[|s| - 2] / y) * Pow(cfg.Radix(), |s| - 1)
          == x * Val(s, |s| - 1, cfg.Radix())
    ensures Value(ShlLimbs(cfg, s, 0, x, y), cfg.Radix()) == Value(s, cfg.Radix()) * x
  {
    var R, n := cfg.Radix(), |s|;
    var r, p, u := ShlLimbs(cfg, s, 0, x, y), Pow(R, n - 1), s[n - 1];
    assert r[n - 1] == u * x + s[n - 2] / y;
    MulDist(u * x, s[n - 2] / y, p);
    MulDist(Val(s, n - 1, R), u * p, x);
    assert (u * x) * p == (u * p) * x by { MulAssoc(u, p, x); MulAssoc(u, x, p); assert p * x == x * p; }
    assert Val(r, n, R) == Val(r, n - 1, R) + r[n - 1] * p;
    assert Val(s, n, R) == Val(s, n - 1, R) + u * p;
  }

  lemma ShlFits(cfg: Config, s: seq<int>, k: nat)
    requires cfg.Valid() && Whole(cfg, k) < |s| && Normal(s, cfg.Radix())
    requires Value(s, cfg.Radix()) * Pow(2, k) < Pow(cfg.Radix(), |s|)
    requires LowNormal(LeftShift(cfg, s, k), cfg.Radix())
    ensures Normal(LeftShift(cfg, s, k), cfg.Radix())
  {
    LeftShiftParts(cfg, s, k);
    var R, m, n := cfg.Radix(), Whole(cfg, k), Part(cfg, k);
    var x, y := Pow(2, n), Pow(2, cfg.bits - n);
    SplitRadix(cfg, n);
    SplitShift(cfg, k);
    var l := |s| - m;
    if l > 1 {
      TopFits(s, l, m, x, y, R);
      LowBits(s[l - 1], s[l - 2], x, y, R);
      cfg.HalfIsExcess();
      MulMono(1, cfg.Nexcess(), R);
      MulMono(0, s[l - 1], x);
    }
  }

  /** If the whole result fits, the top limb shifted left is at most R - x. */
  lemma TopFits(s: seq<int>, l: nat, m: nat, x: int, y: int, R: int)
    requires x > 0 && y > 0 && R == x * y && R >= 1 && Normal(s, R) && l + m == |s| && l >= 1
    requires Value(s, R) * (Pow(R, m) * x) < Pow(R, |s|)
    ensures s[l - 1] * x <= R - x
  {
    var u, p, q := s[l - 1], Pow(R, l - 1), Pow(R, m);
    PowPositive(R, l - 1);
    PowPositive(R, m);
    PowAdd(R, l - 1, m);
    assert Pow(R, |s|) == R * Pow(R, l - 1 + m);
    LimbBelow(s, l, R);
    hide *;
    TopDigitFits(u, Value(s, R), p, q, x, y, R);
  }

  lemma LimbBelow(s: seq<int>, l: nat, R: int)
    requires R >= 1 && Normal(s, R) && 1 <= l <= |s|
    ensures s[l - 1] * Pow(R, l - 1) <= Value(s, R)
  {
    ValBounds(s, l - 1, R);
    ValSplit(s, l, |s|, R);
    ValBounds(s[l..], |s| - l, R);
    PowPositive(R, l);
    MulMono(0, Val(s[l..], |s| - l, R), Pow(R, l));
  }

  lemma TopDigitFits(u: int, v: int, p: int, q: int, x: int, y: int, R: int)
    requires p > 0 && q > 0 && x > 0 && y > 0 && R == x * y && u * p <= v && v * (q * x) < R * (p * q)
    ensures u * x <= R - x
  {
    MulStrict(0, q, x);
    MulMono(u * p, v, q * x);
    assert (u * p) * (q * x) == (u * x) * (p * q) by {
      FourFactors(u, p, x, q);
      assert q * x == x * q;
    }
    MulStrict(0, p, q);
    if u * x >= R {
      MulMono(R, u * x, p * q);
    }
    if u >= y {
      MulMono(y, u, x);
    }
    MulMono(u, y - 1, x);
    MulDist(y, 1, x);
  }
}
