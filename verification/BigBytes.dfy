/** Conversion to and from big-endian byte strings, and splitting of a double number. */
module BigBytes {
  import opened Arith
  import opened Words
  import opened Limbs
  import opened BigNorm
  import opened BigShift
  import opened BigBits
  import opened BigRows
  import opened BigDivide

  // ---------------------------------------------------------------- byte strings

  predicate IsByte(x: int) {
    0 <= x < 256
  }

  predicate Bytes(s: seq<int>) {
    forall i :: 0 <= i < |s| ==> IsByte(s[i])
  }

  /** The integer a string denotes, most significant byte first. */
  function BigEndian(s: seq<int>): int {
    if |s| == 0 then 0 else 256 * BigEndian(s[..|s| - 1]) + s[|s| - 1]
  }

  /** The last n bytes of v. */
  function BytesOf(v: int, n: nat): (s: seq<int>)
    ensures |s| == n && Bytes(s)
    decreases n
  {
    if n == 0 then [] else BytesOf(v / 256, n - 1) + [v % 256]
  }

  lemma {:induction false} BigEndianBounds(s: seq<int>)
    requires Bytes(s)
    ensures 0 <= BigEndian(s) < Pow(256, |s|)
  {
    if |s| > 0 {
      BigEndianBounds(s[..|s| - 1]);
    }
  }

  /** Reading what was written gives the number modulo 256^n. */
  lemma {:induction false} ReadWritten(v: int, n: nat)
    ensures Pow(256, n) > 0 && BigEndian(BytesOf(v, n)) == v % Pow(256, n)
    decreases n
  {
    PowPositive(256, n);
    if n == 0 {
      DivModUnique(v, 1, v, 0);
    } else {
      ReadWritten(v / 256, n - 1);
      var s := BytesOf(v, n);
      assert s[..n - 1] == BytesOf(v / 256, n - 1);
      PowPositive(256, n - 1);
      DivDiv(v, 256, Pow(256, n - 1));
    }
  }

  /** Writing what was read gives the string back. */
  lemma {:induction false} WriteRead(s: seq<int>)
    requires Bytes(s)
    ensures BytesOf(BigEndian(s), |s|) == s
  {
    if |s| > 0 {
      var n := |s|;
      WriteRead(s[..n - 1]);
      DivModUnique(BigEndian(s), 256, BigEndian(s[..n - 1]), s[n - 1]);
      assert s == s[..n - 1] + [s[n - 1]];
    }
  }

  lemma PowBytes(n: nat)
    ensures Pow(2, 8) == 256 && Pow(256, n) == Pow(2, 8 * n)
  {
    assert Pow(2, 8) == 2 * Pow(2, 7) && Pow(2, 7) == 2 * Pow(2, 6) && Pow(2, 6) == 2 * Pow(2, 5)
      && Pow(2, 5) == 2 * Pow(2, 4);
    assert Pow(2, 4) == 2 * Pow(2, 3) && Pow(2, 3) == 2 * Pow(2, 2) && Pow(2, 2) == 2 * Pow(2, 1)
      && Pow(2, 1) == 2 * Pow(2, 0);
    PowMul(2, 8, n);
  }

  // ---------------------------------------------------------------- writing

  /** b[i] = c[0] & 0xff; fshr(c, 8) */
  method LowByte(cfg: Config, c: array<int>) returns (x: int)
    requires cfg.Valid() && cfg.bits > 8 && c.Length == cfg.nlen && LowNormal(c[..], cfg.Radix())
    modifies c
    ensures LowNormal(c[..], cfg.Radix())
    ensures x == old(Value(c[..], cfg.Radix())) % 256
    ensures Value(c[..], cfg.Radix()) == old(Value(c[..], cfg.Radix())) / 256
  {
    PowBytes(0);
    SmallShift(cfg, 8);
    LowBitsOf(cfg, c[..], 8);
    ShrValue(cfg, c[..], 8);
    x := c[0] % 256;
    var _ := FShr(cfg, c, 8);
  }

  lemma OneByte(v: int, u: int, n: nat, i: nat, rest: seq<int>)
    requires BytesOf(v, n) == BytesOf(u, i + 1) + rest
    ensures BytesOf(v, n) == BytesOf(u / 256, i) + ([u % 256] + rest)
  {
    assert BytesOf(u, i + 1) == BytesOf(u / 256, i) + [u % 256];
    hide BytesOf;
    assert (BytesOf(u / 256, i) + [u % 256]) + rest == BytesOf(u / 256, i) + ([u % 256] + rest);
  }

  /** BIG_toBytes: the bytes of the value, also of a negative one or one too large. */
  method ToBytes(cfg: Config, b: array<int>, a: array<int>, modbytes: nat)
    requires cfg.Valid() && cfg.bits > 8 && a.Length == cfg.nlen && Lazy(cfg, a[..]) && b.Length >= modbytes && a != b
    modifies b
    ensures b[..modbytes] == BytesOf(Value(a[..], cfg.Radix()), modbytes)
    ensures b[modbytes..] == old(b[modbytes..])
  {
    ghost var v := Value(a[..], cfg.Radix());
    var c := new int[cfg.nlen];
    Copy(c, a, 0);
    assert c[..] == a[..];
    NormValue(cfg, c[..]);
    LazyLow(cfg, c[..]);
    Norm(cfg, c);
    ghost var high := b[modbytes..];
    ghost var u := v;
    hide Pow, Val, Value, Config.Radix, LowNormal, Lazy, LazyLimbs, NormLimbs;
    WrittenNone(v, modbytes, b[..modbytes]);
    var i := modbytes;
    while i > 0
      invariant 0 <= i <= modbytes
      invariant LowNormal(c[..], cfg.Radix()) && Value(c[..], cfg.Radix()) == u
      invariant BytesOf(v, modbytes) == BytesOf(u, i) + b[i..modbytes]
      invariant b[modbytes..] == high
      modifies b, c
    {
      i := i - 1;
      ghost var rest := b[i + 1..modbytes];
      b[i] := LowByte(cfg, c);
      assert b[i..modbytes] == [u % 256] + rest;
      OneByte(v, u, modbytes, i, rest);
      u := u / 256;
    }
    assert b[..modbytes] == b[0..modbytes];
  }

  lemma WrittenNone(v: int, n: nat, s: seq<int>)
    requires |s| == n
    ensures BytesOf(v, n) == BytesOf(v, n) + s[n..]
  {
  }

  // ---------------------------------------------------------------- reading

  /** Shifting up by a byte and adding the next one. */
  lemma NextByte(cfg: Config, s: seq<int>, x: int, n: nat)
    requires cfg.Valid() && cfg.bits > 8 && |s| >= 2 && Normal(s, cfg.Radix()) && IsByte(x)
    requires Value(s, cfg.Radix()) < Pow(256, n) && 8 * (n + 1) <= cfg.bits * |s|
    ensures Whole(cfg, 8) == 0 < |s| && LowNormal(s, cfg.Radix())
    ensures var t := LeftShift(cfg, s, 8);
            && Normal(t[0 := t[0] + x], cfg.Radix())
            && Value(t[0 := t[0] + x], cfg.Radix()) == 256 * Value(s, cfg.Radix()) + x
  {
    var R := cfg.Radix();
    SmallShift(cfg, 8);
    NormalIsLow(s, R);
    PowBytes(n + 1);
    assert Pow(256, n + 1) == 256 * Pow(256, n);
    PowMul(2, cfg.bits, |s|);
    PowMonotone(2, 8 * (n + 1), cfg.bits * |s|);
    ShlValue(cfg, s, 8);
    var t := LeftShift(cfg, s, 8);
    LowByteClear(cfg, t, Value(s, R));
    ValUpdate(t, 0, t[0] + x, |t|, R);
    assert Pow(R, 0) == 1;
  }

  lemma LowByteClear(cfg: Config, t: seq<int>, v: int)
    requires cfg.Valid() && cfg.bits > 8 && |t| >= 1 && Normal(t, cfg.Radix()) && Value(t, cfg.Radix()) == v * 256
    ensures t[0] + 255 < cfg.Radix()
  {
    PowBytes(0);
    LowBitsOf(cfg, t, 8);
    DivModUnique(v * 256, 256, v, 0);
    PowAdd(2, 8, cfg.bits - 8);
    assert cfg.Radix() == 256 * Pow(2, cfg.bits - 8);
    RoundedBelow(t[0], Pow(2, cfg.bits - 8));
  }

  lemma RoundedBelow(x: int, y: int)
    requires 0 <= x < 256 * y && x % 256 == 0
    ensures x + 255 < 256 * y
  {
  }

  lemma ReadOneMore(s: seq<int>, i: nat)
    requires i < |s|
    ensures BigEndian(s[..i + 1]) == 256 * BigEndian(s[..i]) + s[i]
  {
    assert s[..i + 1][..i] == s[..i];
  }

  /** zero(a), then fshl by eight and add for each of the first len bytes */
  method ReadBytes(cfg: Config, a: array<int>, b: array<int>, len: nat)
    requires cfg.Valid() && cfg.bits > 8 && a.Length >= 2 && len <= b.Length && a != b && Bytes(b[..len])
    requires 8 * len <= cfg.bits * a.Length
    modifies a
    ensures Normal(a[..], cfg.Radix()) && Value(a[..], cfg.Radix()) == BigEndian(b[..len])
  {
    Zero(a);
    ValZero(a[..], a.Length, cfg.Radix());
    var i := 0;
    while i < len
      invariant 0 <= i <= len
      invariant Normal(a[..], cfg.Radix()) && Value(a[..], cfg.Radix()) == BigEndian(b[..i])
      modifies a
    {
      BytesBelow(b[..len], i);
      assert b[..len][..i] == b[..i];
      NextByte(cfg, a[..], b[i], i);
      FShl(cfg, a, 8);
      a[0] := a[0] + b[i];
      ReadOneMore(b[..], i);
      assert b[..][..i] == b[..i] && b[..][..i + 1] == b[..i + 1];
      i := i + 1;
    }
  }

  lemma BytesBelow(s: seq<int>, i: nat)
    requires Bytes(s) && i < |s|
    ensures BigEndian(s[..i]) < Pow(256, i) && IsByte(s[i])
  {
    BigEndianBounds(s[..i]);
  }

  /** BIG_fromBytes */
  method FromBytes(cfg: Config, a: array<int>, b: array<int>, modbytes: nat)
    requires cfg.Valid() && cfg.bits > 8 && a.Length == cfg.nlen && modbytes <= b.Length && a != b
      && Bytes(b[..modbytes])
    requires 8 * modbytes <= cfg.bits * cfg.nlen
    modifies a
    ensures Normal(a[..], cfg.Radix()) && Value(a[..], cfg.Radix()) == BigEndian(b[..modbytes])
  {
    ReadBytes(cfg, a, b, modbytes);
  }

  /** BIG_fromBytesLen: only the first MODBYTES bytes of a longer string are read. */
  method FromBytesLen(cfg: Config, a: array<int>, b: array<int>, s: nat, modbytes: nat)
    requires cfg.Valid() && cfg.bits > 8 && a.Length == cfg.nlen && s <= b.Length && a != b && Bytes(b[..s])
    requires 8 * modbytes <= cfg.bits * cfg.nlen
    modifies a
    ensures Normal(a[..], cfg.Radix())
    ensures Value(a[..], cfg.Radix()) == BigEndian(if s > modbytes then b[..modbytes] else b[..s])
  {
    var len := s;
    if len > modbytes { len := modbytes; }
    ReadBytes(cfg, a, b, len);
  }

  /** BIG_dfromBytesLen: nothing is lost as long as the string fits in the double number. */
  method DFromBytesLen(cfg: Config, a: array<int>, b: array<int>, s: nat)
    requires cfg.Valid() && cfg.bits > 8 && a.Length == 2 * cfg.nlen && s <= b.Length && a != b && Bytes(b[..s])
    requires 8 * s <= cfg.bits * (2 * cfg.nlen)
    modifies a
    ensures Normal(a[..], cfg.Radix()) && Value(a[..], cfg.Radix()) == BigEndian(b[..s])
  {
    Zero(a);
    ValZero(a[..], a.Length, cfg.Radix());
    var i := 0;
    while i < s
      invariant 0 <= i <= s
      invariant Normal(a[..], cfg.Radix()) && Value(a[..], cfg.Radix()) == BigEndian(b[..i])
      modifies a
    {
      BytesBelow(b[..s], i);
      assert b[..s][..i] == b[..i];
      NextByte(cfg, a[..], b[i], i);
      SmallShift(cfg, 8);
      DShl(cfg, a, 8);
      a[0] := a[0] + b[i];
      ReadOneMore(b[..], i);
      assert b[..][..i] == b[..i] && b[..][..i + 1] == b[..i + 1];
      i := i + 1;
    }
  }

  // ---------------------------------------------------------------- splitting

  /** Limb j of the upper part of d, cut at bit `bt` of limb N-1: the bits of one limb above the cut
      and those of the next one below it. */
  function UpperLimb(cfg: Config, d: seq<int>, x: int, y: int, j: nat): int
    requires cfg.Valid() && |d| == 2 * cfg.nlen && x > 0 && j < cfg.nlen
  {
    d[cfg.nlen - 1 + j] / x + Carried(cfg, d, x, y, j)
  }

  /** What limb j receives from the limb above; the topmost is not masked. */
  function Carried(cfg: Config, d: seq<int>, x: int, y: int, j: nat): int
    requires cfg.Valid() && |d| == 2 * cfg.nlen && j < cfg.nlen
  {
    if j == cfg.nlen - 1 then cfg.Word(d[2 * cfg.nlen - 1] * y) else (d[cfg.nlen + j] * y) % cfg.Radix()
  }

  /** The unmasked topmost limb of the upper part stays within a chunk. */
  predicate TopFitsWord(cfg: Config, d: seq<int>, n: nat)
    requires cfg.Valid() && |d| == 2 * cfg.nlen
  {
    Part(cfg, n) == 0 || d[2 * cfg.nlen - 1] * Pow(2, cfg.bits - Part(cfg, n)) < cfg.Half()
  }

  /** For one, limbs of 13 bits in chunks of 16, cut one bit above limb NLEN-2: the top limb of t needs 25
      bits. */
  lemma SplitLosesTop()
    ensures var cfg, d := Config(13, 20, 16), seq(40, _ => 8191);
            cfg.Valid() && Normal(d, cfg.Radix()) && Part(cfg, 248) == 1 && !TopFitsWord(cfg, d, 248)
  {
    var cfg := Config(13, 20, 16);
    assert Pow(2, 4) == 16 && Pow(2, 8) == 256 && Pow(2, 12) == 4096 by {
      SixteenTimes(0);
      SixteenTimes(4);
      SixteenTimes(8);
      assert Pow(2, 0) == 1;
    }
    assert Pow(2, 13) == 2 * Pow(2, 12) && Pow(2, 14) == 2 * Pow(2, 13) && Pow(2, 15) == 2 * Pow(2, 14);
  }

  lemma SixteenTimes(n: nat)
    ensures Pow(2, n + 4) == 16 * Pow(2, n)
  {
    assert Pow(2, n + 4) == 2 * Pow(2, n + 3) && Pow(2, n + 3) == 2 * Pow(2, n + 2);
    assert Pow(2, n + 2) == 2 * Pow(2, n + 1) && Pow(2, n + 1) == 2 * Pow(2, n);
  }

  /** BIG_split for a cut in limb NLEN-1 or right above it; with t and b the same array only the lower
      part is kept. The parts make up d exactly when the topmost limb of t fits in a chunk. */
  method Split(cfg: Config, t: array<int>, b: array<int>, d: array<int>, n: nat) returns (carry: int)
    requires cfg.Valid() && t.Length == b.Length == cfg.nlen && d.Length == 2 * cfg.nlen && d != t && d != b
    requires Normal(d[..], cfg.Radix()) && cfg.bits * (cfg.nlen - 1) < n <= cfg.bits * cfg.nlen
    modifies t, b
    ensures Pow(2, n) > 0 && Normal(b[..], cfg.Radix())
      && Value(b[..], cfg.Radix()) == Value(d[..], cfg.Radix()) % Pow(2, n)
    ensures t != b ==> LowNormal(t[..], cfg.Radix())
    ensures t != b ==> (Value(t[..], cfg.Radix()) * Pow(2, n) + Value(b[..], cfg.Radix()) == Value(d[..], cfg.Radix())
                        <==> TopFitsWord(cfg, d[..], n))
  {
    PowPositive(2, n);
    var m := Part(cfg, n);
    if m == 0 {
      carry := SplitWhole(cfg, t, b, d, n);
    } else {
      carry := SplitInside(cfg, t, b, d, n);
    }
  }

  /** The cut is between limbs NLEN-1 and NLEN. */
  method SplitWhole(cfg: Config, t: array<int>, b: array<int>, d: array<int>, ghost n: nat) returns (carry: int)
    requires cfg.Valid() && t.Length == b.Length == cfg.nlen && d.Length == 2 * cfg.nlen && d != t && d != b
    requires Normal(d[..], cfg.Radix()) && cfg.bits * (cfg.nlen - 1) < n <= cfg.bits * cfg.nlen && Part(cfg, n) == 0
    modifies t, b
    ensures Pow(2, n) > 0 && Normal(b[..], cfg.Radix())
      && Value(b[..], cfg.Radix()) == Value(d[..], cfg.Radix()) % Pow(2, n)
    ensures t != b ==> Normal(t[..], cfg.Radix())
    ensures t != b ==> Value(t[..], cfg.Radix()) * Pow(2, n) + Value(b[..], cfg.Radix()) == Value(d[..], cfg.Radix())
    ensures carry == 0
  {
    WholeCut(cfg, d[..], n);
    hide Val, Pow, Config.Radix;
    carry := 0;
    Copy(b, d, 0);
    assert b[..] == d[..][..cfg.nlen];
    if t != b {
      Copy(t, d, cfg.nlen);
      assert t[..] == d[..][cfg.nlen..];
      DivModUnique(t[cfg.nlen - 1], cfg.Radix(), 0, t[cfg.nlen - 1]);
      carry := t[cfg.nlen - 1] / cfg.Radix();
      t[cfg.nlen - 1] := t[cfg.nlen - 1] % cfg.Radix();
      assert t[..] == d[..][cfg.nlen..];
    }
  }

  lemma WholeCut(cfg: Config, d: seq<int>, n: nat)
    requires cfg.Valid() && |d| == 2 * cfg.nlen && Normal(d, cfg.Radix())
    requires cfg.bits * (cfg.nlen - 1) < n <= cfg.bits * cfg.nlen && Part(cfg, n) == 0
    ensures Pow(2, n) > 0 && Value(d[..cfg.nlen], cfg.Radix()) == Value(d, cfg.Radix()) % Pow(2, n)
    ensures Value(d[cfg.nlen..], cfg.Radix()) * Pow(2, n) + Value(d[..cfg.nlen], cfg.Radix()) == Value(d, cfg.Radix())
  {
    var R, k := cfg.Radix(), cfg.nlen;
    WholeBits(cfg.bits, k, n);
    hide Val, Pow, Config.Radix;
    PowMul(2, cfg.bits, k);
    PowPositive(2, n);
    ValSplit(d, k, 2 * k, R);
    ValFrame(d[..k], d, k, R);
    ValBounds(d[..k], k, R);
    assert Pow(2, n) * Value(d[k..], R) == Value(d[k..], R) * Pow(2, n);
    DivModUnique(Value(d, R), Pow(2, n), Value(d[k..], R), Value(d[..k], R));
  }

  lemma WholeBits(bits: nat, k: nat, n: nat)
    requires bits >= 1 && k >= 1 && bits * (k - 1) < n <= bits * k && n % bits == 0
    ensures n == bits * k
  {
    var q := n / bits;
    assert n == bits * q;
    if q < k {
      MulMono(q, k - 1, bits);
    } else {
      MulMono(k, q, bits);
    }
  }

  /** The cut is inside limb NLEN-1. */
  method SplitInside(cfg: Config, t: array<int>, b: array<int>, d: array<int>, n: nat) returns (carry: int)
    requires cfg.Valid() && t.Length == b.Length == cfg.nlen && d.Length == 2 * cfg.nlen && d != t && d != b
    requires Normal(d[..], cfg.Radix()) && cfg.bits * (cfg.nlen - 1) < n <= cfg.bits * cfg.nlen && Part(cfg, n) > 0
    modifies t, b
    ensures Pow(2, n) > 0 && Normal(b[..], cfg.Radix())
      && Value(b[..], cfg.Radix()) == Value(d[..], cfg.Radix()) % Pow(2, n)
    ensures t != b ==> LowNormal(t[..], cfg.Radix())
    ensures t != b ==> (Value(t[..], cfg.Radix()) * Pow(2, n) + Value(b[..], cfg.Radix()) == Value(d[..], cfg.Radix())
                        <==> TopFitsWord(cfg, d[..], n))
  {
    var m := Part(cfg, n);
    carry := 0;
    LowerInside(cfg, b, d, m);
    InnerCut(cfg, n);
    LowerValue(cfg, b[..], d[..], n);
    if t != b {
      carry := UpperInside(cfg, t, d, m);
      UpperValue(cfg, t[..], b[..], d[..], n);
    }
  }

  method LowerInside(cfg: Config, b: array<int>, d: array<int>, m: nat)
    requires cfg.Valid() && b.Length == cfg.nlen && d.Length == 2 * cfg.nlen && d != b
    modifies b
    ensures forall j :: 0 <= j < cfg.nlen - 1 ==> b[j] == d[j]
    ensures Pow(2, m) > 0 && b[cfg.nlen - 1] == d[cfg.nlen - 1] % Pow(2, m)
  {
    var i := 0;
    while i < cfg.nlen - 1
      invariant 0 <= i <= cfg.nlen - 1 && forall j :: 0 <= j < i ==> b[j] == d[j]
    {
      b[i] := d[i];
      i := i + 1;
    }
    PowPositive(2, m);
    b[cfg.nlen - 1] := d[cfg.nlen - 1] % Pow(2, m);
  }

  method UpperInside(cfg: Config, t: array<int>, d: array<int>, m: nat) returns (carry: int)
    requires cfg.Valid() && t.Length == cfg.nlen && d.Length == 2 * cfg.nlen && d != t && 0 < m < cfg.bits
    requires Normal(d[..], cfg.Radix())
    modifies t
    ensures Pow(2, m) > 0
    ensures forall j :: 0 <= j < cfg.nlen ==> t[j] == UpperLimb(cfg, d[..], Pow(2, m), Pow(2, cfg.bits - m), j)
  {
    SplitRadix(cfg, m);
    ghost var x, y, D := Pow(2, m), Pow(2, cfg.bits - m), d[..];
    carry := cfg.Word(d[2 * cfg.nlen - 1] * Pow(2, cfg.bits - m));
    TopBits(cfg, d[2 * cfg.nlen - 1], cfg.bits - m);
    var i := 2 * cfg.nlen - 2;
    while i >= cfg.nlen - 1
      invariant cfg.nlen - 2 <= i <= 2 * cfg.nlen - 2
      invariant carry % y == 0
      invariant i >= cfg.nlen - 1 ==> carry == Carried(cfg, D, x, y, i - cfg.nlen + 1)
      invariant forall j :: i - cfg.nlen + 2 <= j < cfg.nlen ==> t[j] == UpperLimb(cfg, D, x, y, j)
      modifies t
    {
      ShiftedDigit(cfg, d[i], m);
      var nw := Or(carry, d[i] / Pow(2, m), Pow(2, cfg.bits - m));
      carry := cfg.Word(d[i] * Pow(2, cfg.bits - m)) % cfg.Radix();
      t[i - cfg.nlen + 1] := nw;
      i := i - 1;
    }
  }

  lemma ShiftedDigit(cfg: Config, u: int, m: nat)
    requires cfg.Valid() && 0 < m < cfg.bits && 0 <= u < cfg.Radix()
    ensures Pow(2, m) > 0 && Pow(2, cfg.bits - m) > 0
    ensures 0 <= u / Pow(2, m) < Pow(2, cfg.bits - m)
    ensures cfg.Word(u * Pow(2, cfg.bits - m)) % cfg.Radix() == (u * Pow(2, cfg.bits - m)) % cfg.Radix()
    ensures ((u * Pow(2, cfg.bits - m)) % cfg.Radix()) % Pow(2, cfg.bits - m) == 0
  {
    var x, y := Pow(2, m), Pow(2, cfg.bits - m);
    SplitRadix(cfg, m);
    DivBounds(u, x, 0, y);
    cfg.WordMask(u * y);
    DivModScale(u, x, y);
    DivModUnique((u % x) * y, y, u % x, 0);
  }

  lemma InnerCut(cfg: Config, n: nat)
    requires cfg.Valid() && cfg.bits * (cfg.nlen - 1) < n <= cfg.bits * cfg.nlen && Part(cfg, n) > 0
    ensures Whole(cfg, n) == cfg.nlen - 1
    ensures Pow(2, n) == Pow(cfg.Radix(), cfg.nlen - 1) * Pow(2, Part(cfg, n)) > 0
  {
    var q := n / cfg.bits;
    if q >= cfg.nlen {
      MulMono(cfg.nlen, q, cfg.bits);
    } else if q <= cfg.nlen - 2 {
      MulMono(q, cfg.nlen - 2, cfg.bits);
      MulDist(cfg.nlen - 2, 1, cfg.bits);
    }
    SplitShift(cfg, n);
    PowPositive(2, n);
  }

  lemma LowerValue(cfg: Config, b: seq<int>, d: seq<int>, n: nat)
    requires cfg.Valid() && |b| == cfg.nlen && |d| == 2 * cfg.nlen && Normal(d, cfg.Radix())
    requires Pow(2, n) == Pow(cfg.Radix(), cfg.nlen - 1) * Pow(2, Part(cfg, n)) > 0
    requires forall j :: 0 <= j < cfg.nlen - 1 ==> b[j] == d[j]
    requires Pow(2, Part(cfg, n)) > 0 && b[cfg.nlen - 1] == d[cfg.nlen - 1] % Pow(2, Part(cfg, n))
    ensures Normal(b, cfg.Radix()) && Value(b, cfg.Radix()) == Value(d, cfg.Radix()) % Pow(2, n)
  {
    var R, k, m := cfg.Radix(), cfg.nlen - 1, Part(cfg, n);
    var x, y, p := Pow(2, m), Pow(2, cfg.bits - m), Pow(R, k);
    SplitRadix(cfg, m);
    PowPositive(R, k);
    ValSplit(d, k, |d|, R);
    var s := d[k..];
    ValModRadix(s, |d| - k, R);
    var j := CongElim(Val(s, |d| - k, R), s[0], R);
    ValBounds(d, k, R);
    ValFrame(b, d, k, R);
    LowPartMod(Value(d, R), Val(d, k, R), p, d[k], j, x, y, R);
    MulMono(1, y, x);
  }

  /** The limbs of t are those of the window d[N-1..] shifted right, the two topmost taken together. */
  lemma UpperLimbs(cfg: Config, t: seq<int>, d: seq<int>, m: nat)
    requires cfg.Valid() && |t| == cfg.nlen && |d| == 2 * cfg.nlen && Normal(d, cfg.Radix()) && 0 < m < cfg.bits
    requires Pow(2, m) > 0
    requires forall j :: 0 <= j < cfg.nlen ==> t[j] == UpperLimb(cfg, d, Pow(2, m), Pow(2, cfg.bits - m), j)
    ensures var k, top := cfg.nlen - 1, d[2 * cfg.nlen - 1] * Pow(2, cfg.bits - m);
            var h := ShrLimbs(d[k..], 0, Pow(2, m), Pow(2, cfg.bits - m));
            && |h| == k + 2
            && (forall j :: 0 <= j < k ==> t[j] == h[j] && 0 <= t[j] < cfg.Radix())
            && t[k] - cfg.Word(top) + top == h[k] + cfg.Radix() * h[k + 1]
  {
    var k, x, y := cfg.nlen - 1, Pow(2, m), Pow(2, cfg.bits - m);
    SplitRadix(cfg, m);
    var s := d[k..];
    forall j | 0 <= j < k ensures t[j] == ShrLimb(s, 0, x, y, j) && 0 <= t[j] < cfg.Radix() {
      ShiftedLimb(s[j], s[j + 1], x, y);
    }
    ShiftedTop(s[k + 1], x, y);
  }

  lemma ShiftedLimb(u: int, v: int, x: int, y: int)
    requires x > 0 && y > 0 && x * y > 0 && 0 <= u < x * y
    ensures (v * y) % (x * y) == (v % x) * y && 0 <= u / x + (v % x) * y < x * y
  {
    DivModScale(v, x, y);
    DivBounds(u, x, 0, y);
    MulMono(v % x, x - 1, y);
    MulMono(0, v % x, y);
    MulDist(x, 1, y);
  }

  lemma ShiftedTop(v: int, x: int, y: int)
    requires x > 0 && y > 0
    ensures v * y == (v % x) * y + (x * y) * (v / x)
  {
    MulDist(x * (v / x), v % x, y);
    assert (x * (v / x)) * y == (x * y) * (v / x)
      by { MulAssoc(x, v / x, y); MulAssoc(x, y, v / x); assert (v / x) * y == y * (v / x); }
    assert v == x * (v / x) + v % x;
  }

  lemma UpperValue(cfg: Config, t: seq<int>, b: seq<int>, d: seq<int>, n: nat)
    requires cfg.Valid() && |t| == |b| == cfg.nlen && |d| == 2 * cfg.nlen && Normal(d, cfg.Radix()) && Part(cfg, n) > 0
    requires Pow(2, n) == Pow(cfg.Radix(), cfg.nlen - 1) * Pow(2, Part(cfg, n)) > 0 && Pow(2, Part(cfg, n)) > 0
    requires Value(b, cfg.Radix()) == Value(d, cfg.Radix()) % Pow(2, n)
    requires forall j :: 0 <= j < cfg.nlen ==>
      t[j] == UpperLimb(cfg, d, Pow(2, Part(cfg, n)), Pow(2, cfg.bits - Part(cfg, n)), j)
    ensures LowNormal(t, cfg.Radix())
    ensures Value(t, cfg.Radix()) * Pow(2, n) + Value(b, cfg.Radix()) == Value(d, cfg.Radix())
      <==> TopFitsWord(cfg, d, n)
  {
    var R, k, m := cfg.Radix(), cfg.nlen - 1, Part(cfg, n);
    var x, y, p := Pow(2, m), Pow(2, cfg.bits - m), Pow(R, k);
    var s := d[k..];
    var top := d[2 * cfg.nlen - 1] * y;
    SplitRadix(cfg, m);
    MulMono(0, d[2 * cfg.nlen - 1], y);
    assert TopFitsWord(cfg, d, n) <==> cfg.Word(top) == top;
    UpperLimbs(cfg, t, d, m);
    ShrBits(s, x, y, R);
    UpperSum(ShrLimbs(s, 0, x, y), t, k, top, cfg.Word(top), R);
    WindowQuotient(d, k, x, R);
    Reassemble(Value(t, R), Value(s, R) / x, cfg.Word(top) - top, p, Pow(2, n), Value(d, R));
  }

  lemma UpperSum(h: seq<int>, t: seq<int>, k: nat, top: int, word: int, R: int)
    requires |h| == k + 2 && |t| == k + 1 && (forall j :: 0 <= j < k ==> t[j] == h[j])
    requires t[k] - word + top == h[k] + R * h[k + 1]
    ensures Value(t, R) == Value(h, R) + (word - top) * Pow(R, k)
  {
    var p := Pow(R, k);
    ValFrame(t, h, k, R);
    assert Pow(R, k + 1) == R * p;
    assert Val(h, k + 1, R) == Val(h, k, R) + h[k] * p;
    assert Value(h, R) == Val(h, k + 1, R) + h[k + 1] * (R * p);
    assert Value(t, R) == Val(t, k, R) + t[k] * p;
    hide *;
    assert h[k + 1] * (R * p) == (R * h[k + 1]) * p
      by { MulAssoc(h[k + 1], R, p); assert h[k + 1] * R == R * h[k + 1]; }
    MulDist(h[k], R * h[k + 1], p);
    MulDist(t[k], word - top, p);
    assert t[k] == (h[k] + R * h[k + 1]) + (word - top);
    MulDist(h[k] + R * h[k + 1], word - top, p);
  }

  lemma WindowQuotient(d: seq<int>, k: nat, x: int, R: int)
    requires k < |d| && Normal(d, R) && R >= 1 && x > 0
    ensures Pow(R, k) * x > 0 && Value(d[k..], R) / x == Value(d, R) / (Pow(R, k) * x)
  {
    hide Val, Pow;
    PowPositive(R, k);
    ValSplit(d, k, |d|, R);
    ValBounds(d, k, R);
    assert Pow(R, k) * Value(d[k..], R) == Value(d[k..], R) * Pow(R, k);
    DivModUnique(Value(d, R), Pow(R, k), Value(d[k..], R), Val(d, k, R));
    DivDiv(Value(d, R), Pow(R, k), x);
  }

  lemma Reassemble(t: int, q: int, e: int, p: int, P: int, d: int)
    requires P > 0 && p > 0 && q == d / P && t == q + e * p
    ensures t * P + d % P == d <==> e == 0
  {
    MulDist(q, e * p, P);
    if e >= 1 {
      MulStrict(0, e, p);
      MulStrict(0, e * p, P);
    } else if e <= -1 {
      MulStrict(e, 0, p);
      MulStrict(e * p, 0, P);
    }
  }
}
