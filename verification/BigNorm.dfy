/** Limb-wise addition, subtraction and small multiplication, and normalisation (BIG_norm, BIG_dnorm).
    Arrays of any length stand for BIG and DBIG alike. */
module BigNorm {
  import opened Arith
  import opened Words
  import opened Limbs

  // ---------------------------------------------------------------- the operations on limbs

  function AddLimbs(cfg: Config, s: seq<int>, t: seq<int>): (r: seq<int>)
    requires cfg.Valid() && |s| == |t|
    ensures |r| == |s|
  {
    seq(|s|, i requires 0 <= i < |s| => cfg.Word(s[i] + t[i]))
  }

  function SubLimbs(cfg: Config, s: seq<int>, t: seq<int>): (r: seq<int>)
    requires cfg.Valid() && |s| == |t|
    ensures |r| == |s|
  {
    seq(|s|, i requires 0 <= i < |s| => cfg.Word(s[i] - t[i]))
  }

  function MulLimbs(cfg: Config, s: seq<int>, c: int): (r: seq<int>)
    requires cfg.Valid()
    ensures |r| == |s|
  {
    seq(|s|, i requires 0 <= i < |s| => cfg.Word(s[i] * c))
  }

  /** Carries are pushed up and the top limb keeps what arrives there. */
  function NormLimbs(cfg: Config, s: seq<int>): (r: seq<int>)
    requires cfg.Valid() && |s| > 0
    ensures |r| == |s| && LowNormal(r, cfg.Radix())
  {
    var k := |s| - 1;
    Reduced(s, k, cfg.Radix()) + [cfg.Word(s[k] + Carry(s, k, cfg.Radix()))]
  }

  /** BIG_add; c may be a or b. */
  method Add(cfg: Config, c: array<int>, a: array<int>, b: array<int>)
    requires cfg.Valid() && a.Length == b.Length == c.Length
    modifies c
    ensures c[..] == AddLimbs(cfg, old(a[..]), old(b[..]))
  {
    ghost var A, B := a[..], b[..];
    var i := 0;
    while i < c.Length
      invariant 0 <= i <= c.Length
      invariant forall j :: 0 <= j < i ==> c[j] == cfg.Word(A[j] + B[j])
      invariant forall j :: i <= j < c.Length ==> a[j] == A[j] && b[j] == B[j]
    {
      c[i] := cfg.Word(a[i] + b[i]);
      i := i + 1;
    }
  }

  /** BIG_sub and BIG_dsub; c may be a or b. */
  method Sub(cfg: Config, c: array<int>, a: array<int>, b: array<int>)
    requires cfg.Valid() && a.Length == b.Length == c.Length
    modifies c
    ensures c[..] == SubLimbs(cfg, old(a[..]), old(b[..]))
  {
    ghost var A, B := a[..], b[..];
    var i := 0;
    while i < c.Length
      invariant 0 <= i <= c.Length
      invariant forall j :: 0 <= j < i ==> c[j] == cfg.Word(A[j] - B[j])
      invariant forall j :: i <= j < c.Length ==> a[j] == A[j] && b[j] == B[j]
    {
      c[i] := cfg.Word(a[i] - b[i]);
      i := i + 1;
    }
  }

  /** BIG_imul; r may be a. */
  method IMul(cfg: Config, r: array<int>, a: array<int>, c: int)
    requires cfg.Valid() && a.Length == r.Length
    modifies r
    ensures r[..] == MulLimbs(cfg, old(a[..]), c)
  {
    ghost var A := a[..];
    var i := 0;
    while i < r.Length
      invariant 0 <= i <= r.Length
      invariant forall j :: 0 <= j < i ==> r[j] == cfg.Word(A[j] * c)
      invariant forall j :: i <= j < r.Length ==> a[j] == A[j]
    {
      r[i] := cfg.Word(a[i] * c);
      i := i + 1;
    }
  }

  /** BIG_copy, BIG_sdcopy and BIG_sducopy: b takes the limbs of a from `off` upwards. */
  method Copy(b: array<int>, a: array<int>, off: nat)
    requires off + b.Length <= a.Length && a != b
    modifies b
    ensures b[..] == a[off..off + b.Length]
  {
    var i := 0;
    while i < b.Length
      invariant 0 <= i <= b.Length
      invariant forall j :: 0 <= j < i ==> b[j] == a[off + j]
    {
      b[i] := a[off + i];
      i := i + 1;
    }
  }

  // ---------------------------------------------------------------- normalisation

  /** The largest magnitude of a limb: NEXCESS normalised digits added up. */
  function MaxLimb(cfg: Config): int
    requires cfg.Valid()
  {
    cfg.Nexcess() * (cfg.Radix() - 1)
  }

  lemma SpareRoom(cfg: Config)
    requires Spare(cfg)
    ensures 2 * cfg.Radix() <= MaxLimb(cfg) < cfg.Half() && cfg.Radix() <= cfg.Half()
  {
    var R, e := cfg.Radix(), cfg.Nexcess();
    PowMonotone(2, 2, cfg.chunk - cfg.bits - 1);
    assert Pow(2, 2) == 2 * Pow(2, 1) && Pow(2, 1) == 2 * Pow(2, 0);
    MulMono(4, e, R - 1);
    cfg.HalfIsExcess();
    MulDist(R, 1, e);
    MulMono(1, e, R);
  }

  /** Limbs lo..hi are sums of at most NEXCESS digits of either sign. */
  ghost predicate LazyLimbs(cfg: Config, s: seq<int>, hi: nat)
    requires cfg.Valid() && hi <= |s|
  {
    forall j :: 0 <= j < hi ==> -MaxLimb(cfg) <= s[j] <= MaxLimb(cfg)
  }

  ghost predicate Lazy(cfg: Config, s: seq<int>)
    requires cfg.Valid()
  {
    LazyLimbs(cfg, s, |s|)
  }

  /** A lazy limb plus the carry into it is a chunk: at most Half-1, at least -Half. */
  lemma LimbPlusCarry(cfg: Config, s: seq<int>, k: nat, x: int)
    requires cfg.Valid() && k <= |s| && LazyLimbs(cfg, s, k)
    requires -MaxLimb(cfg) <= x <= MaxLimb(cfg)
    ensures -cfg.Nexcess() <= Carry(s, k, cfg.Radix()) < cfg.Nexcess()
    ensures -cfg.Half() <= x + Carry(s, k, cfg.Radix()) < cfg.Half()
  {
    CarryBounds(s, k, cfg.Nexcess(), cfg.Radix());
    cfg.HalfIsExcess();
    MulDist(cfg.Radix(), 1, cfg.Nexcess());
  }

  /** BIG_norm and BIG_dnorm. */
  method Norm(cfg: Config, a: array<int>)
    requires cfg.Valid() && a.Length >= 2 && LazyLimbs(cfg, a[..], a.Length - 1)
    modifies a
    ensures a[..] == NormLimbs(cfg, old(a[..]))
  {
    hide Carry, Reduced, MaxLimb;
    ghost var A := a[..];
    var R, n := cfg.Radix(), a.Length;
    FirstCarry(A, R);
    var carry := a[0] / R;
    a[0] := a[0] % R;
    assert a[..1] == Reduced(A, 1, R);
    var i := 1;
    while i < n - 1
      invariant 1 <= i <= n - 1
      invariant carry == Carry(A, i, R)
      invariant a[..i] == Reduced(A, i, R)
      invariant forall j :: i <= j < n ==> a[j] == A[j]
    {
      LimbPlusCarry(cfg, A, i, A[i]);
      var d := cfg.Word(a[i] + carry);
      ReducedStep(A, i, d, R);
      a[i] := d % R;
      assert a[..i + 1] == a[..i] + [a[i]];
      carry := d / R;
      i := i + 1;
    }
    a[n - 1] := cfg.Word(a[n - 1] + carry);
    assert a[..] == a[..n - 1] + [a[n - 1]];
  }

  /** BIG_norm with the value it returns: what the number holds above 8*MODBYTES bits, unless these fill
      all limbs. */
  method NormExcess(cfg: Config, a: array<int>, modbytes: nat) returns (excess: int)
    requires cfg.Valid() && a.Length == cfg.nlen && LazyLimbs(cfg, a[..], a.Length - 1)
    requires modbytes >= 1 && cfg.nlen == 1 + (8 * modbytes - 1) / cfg.bits
    modifies a
    ensures a[..] == NormLimbs(cfg, old(a[..])) && Pow(2, 8 * modbytes) > 0
    ensures (8 * modbytes) % cfg.bits != 0 ==> excess == Value(a[..], cfg.Radix()) / Pow(2, 8 * modbytes)
    ensures (8 * modbytes) % cfg.bits == 0 ==> excess == a[cfg.nlen - 1]
  {
    Norm(cfg, a);
    PowPositive(2, 8 * modbytes);
    PowPositive(2, (8 * modbytes) % cfg.bits);
    TopExcess(cfg, a[..], 8 * modbytes);
    excess := a[cfg.nlen - 1] / Pow(2, (8 * modbytes) % cfg.bits);
  }

  lemma TopExcess(cfg: Config, s: seq<int>, w: nat)
    requires cfg.Valid() && |s| == cfg.nlen && LowNormal(s, cfg.Radix()) && w >= 1 && cfg.nlen == 1 + (w - 1) / cfg.bits
    ensures var m := Pow(2, w % cfg.bits);
            m > 0 && Pow(2, w) > 0
            && (w % cfg.bits == 0 ==> s[cfg.nlen - 1] / m == s[cfg.nlen - 1])
            && (w % cfg.bits != 0 ==> s[cfg.nlen - 1] / m == Value(s, cfg.Radix()) / Pow(2, w))
  {
    var R, n, b := cfg.Radix(), cfg.nlen, cfg.bits;
    PowPositive(2, w % b);
    PowPositive(2, w);
    if w % b == 0 {
      DivModUnique(s[n - 1], 1, s[n - 1], 0);
    } else {
      WholeLimbs(b, n, w);
      PowMul(2, b, n - 1);
      PowAdd(2, b * (n - 1), w % b);
      ValTop(s, n, R);
      ValBounds(s, n - 1, R);
      DivDiv(Value(s, R), Pow(R, n - 1), Pow(2, w % b));
    }
  }

  lemma WholeLimbs(b: nat, n: nat, w: nat)
    requires b >= 1 && w >= 1 && n == 1 + (w - 1) / b && w % b != 0
    ensures w == b * (n - 1) + w % b
  {
    var q, r := (w - 1) / b, (w - 1) % b;
    if r + 1 < b {
      DivModUnique(w, b, q, r + 1);
    } else {
      MulDist(q, 1, b);
      DivModUnique(w, b, q + 1, 0);
    }
  }

  lemma FirstCarry(s: seq<int>, R: int)
    requires |s| > 0 && R >= 1
    ensures Carry(s, 1, R) == s[0] / R && Reduced(s, 1, R) == [s[0] % R]
  {
    assert Carry(s, 0, R) == 0 && Reduced(s, 0, R) == [];
  }

  /** Normalising lazy limbs preserves the value. */
  lemma NormValue(cfg: Config, s: seq<int>)
    requires cfg.Valid() && |s| >= 1 && Lazy(cfg, s)
    ensures Value(NormLimbs(cfg, s), cfg.Radix()) == Value(s, cfg.Radix())
  {
    var k, R := |s| - 1, cfg.Radix();
    LimbPlusCarry(cfg, s, k, s[k]);
    NormExact(cfg, s);
  }

  /** The value of a normalised result, its top limb apart. */
  lemma NormParts(cfg: Config, s: seq<int>, k: nat)
    requires cfg.Valid() && |s| == k + 1
    ensures var R, c := cfg.Radix(), Carry(s, k, cfg.Radix());
            var low := Val(s, k, R) - c * Pow(R, k);
            && Value(s, R) == low + (s[k] + c) * Pow(R, k)
            && Value(NormLimbs(cfg, s), R) == low + cfg.Word(s[k] + c) * Pow(R, k)
  {
    hide Carry, Reduced, Pow;
    var R, r := cfg.Radix(), NormLimbs(cfg, s);
    var c, p := Carry(s, k, R), Pow(R, k);
    CarryValue(s, k, R);
    ValFrame(r, Reduced(s, k, R), k, R);
    MulDist(s[k], c, p);
  }

  /** More generally, when the top limb and the carry into it add up to a chunk. */
  lemma NormExact(cfg: Config, s: seq<int>)
    requires cfg.Valid() && |s| >= 1
    requires -cfg.Half() <= s[|s| - 1] + Carry(s, |s| - 1, cfg.Radix()) < cfg.Half()
    ensures Value(NormLimbs(cfg, s), cfg.Radix()) == Value(s, cfg.Radix())
  {
    hide *;
    NormParts(cfg, s, |s| - 1);
  }

  /** Without any bound on the top limb the value is still kept modulo the radix to the length. */
  lemma NormCong(cfg: Config, s: seq<int>)
    requires cfg.Valid() && |s| >= 1
    ensures Pow(cfg.Radix(), |s|) > 0
    ensures Cong(Value(NormLimbs(cfg, s), cfg.Radix()), Value(s, cfg.Radix()), Pow(cfg.Radix(), |s|))
  {
    var k := |s| - 1;
    var low, x, p := TopParts(cfg, s, k);
    hide *;
    NormCongStep(cfg, Value(NormLimbs(cfg, s), cfg.Radix()), Value(s, cfg.Radix()), x, low, p, Pow(cfg.Radix(), |s|));
  }

  lemma TopParts(cfg: Config, s: seq<int>, k: nat) returns (low: int, x: int, p: int)
    requires cfg.Valid() && |s| == k + 1
    ensures p > 0 && Pow(cfg.Radix(), |s|) == cfg.Radix() * p
    ensures Value(s, cfg.Radix()) == low + x * p && Value(NormLimbs(cfg, s), cfg.Radix()) == low + cfg.Word(x) * p
  {
    var R := cfg.Radix();
    hide Val, Carry, NormLimbs, Config.Word, Config.Radix;
    x := s[k] + Carry(s, k, R);
    p := Pow(R, k);
    low := Val(s, k, R) - Carry(s, k, R) * p;
    PowPositive(R, k);
    assert Pow(R, k + 1) == R * p;
    hide Pow;
    NormParts(cfg, s, k);
  }

  lemma NormCongStep(cfg: Config, u: int, v: int, x: int, low: int, p: int, m: int)
    requires cfg.Valid() && p > 0 && m == cfg.Radix() * p && v == low + x * p && u == low + cfg.Word(x) * p
    ensures m > 0 && Cong(u, v, m)
  {
    TopWordCong(cfg, x, low, p);
  }

  /** Truncating a top word of weight p changes the value by a multiple of R*p only. */
  lemma TopWordCong(cfg: Config, x: int, low: int, p: int)
    requires cfg.Valid() && p > 0
    ensures cfg.Radix() * p > 0 && Cong(low + cfg.Word(x) * p, low + x * p, cfg.Radix() * p)
  {
    cfg.WordMask(x);
    CongScaleModulus(cfg.Word(x), x, cfg.Radix(), p);
    CongRefl(low, cfg.Radix() * p);
    CongAdd(low, low, cfg.Word(x) * p, x * p, cfg.Radix() * p);
  }

  /** Adding and subtracting in range is exact. */
  lemma AddValue(cfg: Config, s: seq<int>, t: seq<int>)
    requires cfg.Valid() && |s| == |t|
    requires forall i :: 0 <= i < |s| ==> -cfg.Half() <= s[i] + t[i] < cfg.Half()
    ensures forall i :: 0 <= i < |s| ==> AddLimbs(cfg, s, t)[i] == s[i] + t[i]
    ensures Value(AddLimbs(cfg, s, t), cfg.Radix()) == Value(s, cfg.Radix()) + Value(t, cfg.Radix())
  {
    ValAdd(AddLimbs(cfg, s, t), s, t, |s|, cfg.Radix());
  }

  lemma SubValue(cfg: Config, s: seq<int>, t: seq<int>)
    requires cfg.Valid() && |s| == |t|
    requires forall i :: 0 <= i < |s| ==> -cfg.Half() <= s[i] - t[i] < cfg.Half()
    ensures forall i :: 0 <= i < |s| ==> SubLimbs(cfg, s, t)[i] == s[i] - t[i]
    ensures Value(SubLimbs(cfg, s, t), cfg.Radix()) == Value(s, cfg.Radix()) - Value(t, cfg.Radix())
  {
    ValSub(SubLimbs(cfg, s, t), s, t, |s|, cfg.Radix());
  }

  lemma MulValue(cfg: Config, s: seq<int>, c: int)
    requires cfg.Valid()
    requires forall i :: 0 <= i < |s| ==> -cfg.Half() <= s[i] * c < cfg.Half()
    ensures forall i :: 0 <= i < |s| ==> MulLimbs(cfg, s, c)[i] == s[i] * c
    ensures Value(MulLimbs(cfg, s, c), cfg.Radix()) == Value(s, cfg.Radix()) * c
  {
    ValScale(MulLimbs(cfg, s, c), s, c, |s|, cfg.Radix());
  }
}
