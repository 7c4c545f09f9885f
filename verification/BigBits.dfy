/** Conditional moves, comparison, bit counts and truncation. */
module BigBits {
  import opened Arith
  import opened Words
  import opened Limbs
  import opened BigNorm

  /** BIG_cmove and BIG_dcmove: f = g if d = 1.  (f ^= (f^g) & -d with an all-ones or zero mask.) */
  method CMove(f: array<int>, g: array<int>, d: int)
    requires f.Length == g.Length && f != g && (d == 0 || d == 1)
    modifies f
    ensures f[..] == if d == 1 then g[..] else old(f[..])
  {
    ghost var F := f[..];
    var i := 0;
    while i < f.Length
      invariant 0 <= i <= f.Length
      invariant forall j :: 0 <= j < i ==> f[j] == if d == 1 then g[j] else F[j]
      invariant forall j :: i <= j < f.Length ==> f[j] == F[j]
    {
      if d == 1 {
        f[i] := g[i];
      }
      i := i + 1;
    }
  }

  /** ((x >> (CHUNK-1)) & 1) */
  function SignBit(cfg: Config, x: int): (b: int)
    requires cfg.Valid() && -cfg.Half() <= x < cfg.Half()
    ensures b == if x < 0 then 1 else 0
  {
    assert (x / cfg.Half()) % 2 == if x < 0 then 1 else 0 by {
      if x < 0 {
        DivModUnique(x, cfg.Half(), -1, x + cfg.Half());
      } else {
        DivModUnique(x, cfg.Half(), 0, x);
      }
    }
    (x / cfg.Half()) % 2
  }

  // ---------------------------------------------------------------- comparison

  /** Bitwise exclusive or of two naturals. */
  function Xor(x: nat, y: nat): (z: nat)
    decreases x + y
  {
    if x == 0 && y == 0 then 0
    else (if x % 2 != y % 2 then 1 else 0) + 2 * Xor(x / 2, y / 2)
  }

  lemma {:induction false} XorZero(x: nat, y: nat)
    ensures Xor(x, y) == 0 <==> x == y
    decreases x + y
  {
    if x > 0 || y > 0 {
      XorZero(x / 2, y / 2);
    }
  }

  lemma {:induction false} XorBound(x: nat, y: nat, k: nat)
    requires x < Pow(2, k) && y < Pow(2, k)
    ensures Xor(x, y) < Pow(2, k)
    decreases k
  {
    if x == 0 && y == 0 {
    } else if k > 0 {
      XorBound(x / 2, y / 2, k - 1);
    }
  }

  /** x & eq for a flag eq. */
  function AndFlag(x: int, eq: int): int {
    if eq == 1 then x % 2 else 0
  }

  /** s and t agree above limb j and s is larger there. */
  ghost predicate LargerAt(s: seq<int>, t: seq<int>, j: nat) {
    j < |s| == |t| && s[j] > t[j] && forall l :: j < l < |s| ==> s[l] == t[l]
  }

  lemma LargerValue(s: seq<int>, t: seq<int>, j: nat, R: int)
    requires R >= 1 && Normal(s, R) && Normal(t, R) && LargerAt(s, t, j)
    ensures Value(s, R) > Value(t, R)
  {
    HighFrame(s, t, j + 1, |s|, R);
    ValBounds(s, j, R);
    ValBounds(t, j, R);
    PowPositive(R, j);
    MulMono(t[j] + 1, s[j], Pow(R, j));
    MulDist(t[j], 1, Pow(R, j));
  }

  /** One limb: the borrow of b-a says whether a is larger, the borrow of (b^a)-1 whether they agree. */
  lemma CompareLimb(cfg: Config, a: int, b: int)
    requires cfg.Valid() && 0 <= a < cfg.Radix() && 0 <= b < cfg.Radix()
    ensures ((b - a) / cfg.Radix()) % 2 == if a > b then 1 else 0
    ensures ((Xor(b, a) - 1) / cfg.Radix()) % 2 == if a == b then 1 else 0
    ensures -cfg.Half() <= b - a < cfg.Half() && -cfg.Half() <= Xor(b, a) - 1 < cfg.Half()
  {
    var R := cfg.Radix();
    XorZero(b, a);
    XorBound(b, a, cfg.bits);
    hide Xor, Pow;
    BorrowOf(b - a, R);
    BorrowOf(Xor(b, a) - 1, R);
    cfg.HalfIsExcess();
    MulMono(1, cfg.Nexcess(), R);
  }

  lemma BorrowOf(d: int, R: int)
    requires R > 0 && -R <= d < R
    ensures (d / R) % 2 == if d < 0 then 1 else 0
  {
    DivModUnique(d, R, if d < 0 then -1 else 0, if d < 0 then d + R else d);
  }

  /** BIG_comp and BIG_dcomp: 1, 0 or -1 as a is larger than, equal to or smaller than b. */
  method Comp(cfg: Config, a: array<int>, b: array<int>) returns (r: int)
    requires cfg.Valid() && a.Length == b.Length && Normal(a[..], cfg.Radix()) && Normal(b[..], cfg.Radix())
    ensures var x, y := Value(a[..], cfg.Radix()), Value(b[..], cfg.Radix());
            r == if x > y then 1 else if x == y then 0 else -1
  {
    var R := cfg.Radix();
    ghost var w := 0;
    var gt, eq := 0, 1;
    var i := a.Length - 1;
    while i >= 0
      invariant -1 <= i < a.Length
      invariant (gt == 0 || gt == 1) && (eq == 0 || eq == 1) && (gt == 1 ==> eq == 0)
      invariant eq == 1 ==> forall j :: i < j < a.Length ==> a[j] == b[j]
      invariant gt == 1 ==> LargerAt(a[..], b[..], w)
      invariant gt == 0 && eq == 0 ==> LargerAt(b[..], a[..], w)
      decreases i
    {
      CompareLimb(cfg, a[i], b[i]);
      var g := AndFlag(cfg.Word(b[i] - a[i]) / R, eq);
      if eq == 1 && a[i] != b[i] {
        w := i;
      }
      gt := if gt == 1 || g == 1 then 1 else 0;
      eq := AndFlag(cfg.Word(Xor(b[i], a[i]) - 1) / R, eq);
      i := i - 1;
    }
    if gt == 1 {
      LargerValue(a[..], b[..], w, R);
    } else if eq == 0 {
      LargerValue(b[..], a[..], w, R);
    } else {
      assert a[..] == b[..];
    }
    r := gt + gt + eq - 1;
  }

  /** BIG_iszilch, for normalised numbers: whether the union of all limbs is zero. */
  method IsZilch(cfg: Config, a: array<int>) returns (z: bool)
    requires cfg.Valid() && Normal(a[..], cfg.Radix())
    ensures z <==> Value(a[..], cfg.Radix()) == 0
  {
    z := true;
    var i := 0;
    while i < a.Length
      invariant 0 <= i <= a.Length
      invariant z <==> forall j :: 0 <= j < i ==> a[j] == 0
    {
      z := z && a[i] == 0;
      i := i + 1;
    }
    if z {
      ValZero(a[..], a.Length, cfg.Radix());
    } else {
      NonZero(a[..], a.Length, cfg.Radix());
    }
  }

  lemma {:induction false} NonZero(s: seq<int>, k: nat, R: int)
    requires R >= 1 && k <= |s| && Digits(s, 0, k, R) && exists j :: 0 <= j < k && s[j] != 0
    ensures Val(s, k, R) > 0
    decreases k
  {
    PowPositive(R, k - 1);
    ValBounds(s, k - 1, R);
    if s[k - 1] == 0 {
      NonZero(s, k - 1, R);
    } else {
      MulMono(1, s[k - 1], Pow(R, k - 1));
    }
  }

  // ---------------------------------------------------------------- counting bits

  /** n is the bit length of v. */
  ghost predicate IsBits(v: int, n: int) {
    n >= 0 && 0 <= v < Pow(2, n) && (n > 0 ==> Pow(2, n - 1) <= v)
  }

  /** while (c != 0) { c /= 2; bts++; } */
  method CountBits(u: int) returns (j: int)
    requires u > 0
    ensures j >= 1 && Pow(2, j - 1) <= u < Pow(2, j)
  {
    var c := u;
    j := 0;
    assert Pow(2, 0) == 1;
    while c != 0
      invariant 0 <= c <= u && j >= 0 && (c == u || j > 0)
      invariant c * Pow(2, j) <= u < (c + 1) * Pow(2, j)
      invariant j > 0 ==> Pow(2, j - 1) <= u
    {
      PowPositive(2, j);
      HalveStep(c, u, Pow(2, j));
      c := c / 2;
      j := j + 1;
    }
  }

  /** BIG_nbits and BIG_dnbits. */
  method NBits(cfg: Config, a: array<int>) returns (bts: int)
    requires cfg.Valid() && a.Length >= 2 && Lazy(cfg, a[..]) && 0 <= Value(a[..], cfg.Radix())
    ensures IsBits(Value(a[..], cfg.Radix()), bts)
  {
    hide Val, Pow, MaxLimb, NormLimbs;
    ghost var R := cfg.Radix();
    var t := new int[a.Length];
    Copy(t, a, 0);
    assert t[..] == a[..];
    NormValue(cfg, a[..]);
    Norm(cfg, t);
    TopSign(t[..], R);
    var k := a.Length - 1;
    while k >= 0 && t[k] == 0
      invariant -1 <= k < a.Length
      invariant forall j :: k < j < a.Length ==> t[j] == 0
      decreases k
    {
      k := k - 1;
    }
    ValHighZero(t[..], k + 1, a.Length, R);
    if k < 0 {
      NoBits(t[..], R);
      return 0;
    }
    var j := CountBits(t[k]);
    BitsOfTop(cfg, t[..], k, j);
    bts := cfg.bits * k + j;
  }

  lemma NoBits(s: seq<int>, R: int)
    ensures IsBits(Val(s, 0, R), 0)
  {
  }

  lemma HalveStep(c: int, u: int, p: int)
    requires c > 0 && p >= 1 && c * p <= u < (c + 1) * p
    ensures (c / 2) * (2 * p) <= u < (c / 2 + 1) * (2 * p) && p <= u
  {
    MulMono(1, c, p);
    MulAssoc(c / 2, 2, p);
    MulMono((c / 2) * 2, c, p);
    MulAssoc(c / 2 + 1, 2, p);
    MulMono(c + 1, (c / 2 + 1) * 2, p);
  }

  lemma BitsOfTop(cfg: Config, t: seq<int>, k: nat, j: nat)
    requires cfg.Valid() && k < |t| && Digits(t, 0, k, cfg.Radix()) && j >= 1
    requires Pow(2, j - 1) <= t[k] < Pow(2, j)
    ensures IsBits(Val(t, k + 1, cfg.Radix()), cfg.bits * k + j)
  {
    var R, u := cfg.Radix(), t[k];
    PowMul(2, cfg.bits, k);
    var p, b := Pow(R, k), cfg.bits * k;
    PowPositive(R, k);
    ValBounds(t, k, R);
    PowAdd(2, b, j);
    PowAdd(2, b, j - 1);
    MulMono(Pow(2, j - 1), u, p);
    MulMono(u + 1, Pow(2, j), p);
    MulDist(u, 1, p);
    PowPositive(2, j - 1);
  }

  /** BIG_parity */
  method Parity(cfg: Config, a: array<int>) returns (b: int)
    requires cfg.Valid() && a.Length >= 1 && 0 <= a[0]
    ensures b == Value(a[..], cfg.Radix()) % 2
  {
    b := a[0] % 2;
    ParityOf(cfg, a[..]);
  }

  lemma ParityOf(cfg: Config, s: seq<int>)
    requires cfg.Valid() && |s| >= 1
    ensures Value(s, cfg.Radix()) % 2 == s[0] % 2
  {
    LowBitsOf(cfg, s, 1);
    assert Pow(2, 1) == 2 * Pow(2, 0);
  }

  /** The low n bits of a number are those of its lowest limb. */
  lemma LowBitsOf(cfg: Config, s: seq<int>, n: nat)
    requires cfg.Valid() && |s| >= 1 && n <= cfg.bits
    ensures Pow(2, n) > 0 && Value(s, cfg.Radix()) % Pow(2, n) == s[0] % Pow(2, n)
  {
    var R := cfg.Radix();
    ValModRadix(s, |s|, R);
    PowAdd(2, n, cfg.bits - n);
    PowPositive(2, n);
    PowPositive(2, cfg.bits - n);
    CongWeaken(Value(s, R), s[0], Pow(2, n), Pow(2, cfg.bits - n));
    CongMod(Value(s, R), s[0], Pow(2, n));
  }

  /** BIG_lastbits: the mask is an int, which holds up to 30 ones below its sign. */
  method LastBits(cfg: Config, a: array<int>, n: nat) returns (b: int)
    requires cfg.Valid() && a.Length >= 2 && n <= cfg.bits && n <= 30 && Lazy(cfg, a[..])
    modifies a
    ensures a[..] == NormLimbs(cfg, old(a[..])) && Value(a[..], cfg.Radix()) == old(Value(a[..], cfg.Radix()))
    ensures Pow(2, n) > 0 && b == Value(a[..], cfg.Radix()) % Pow(2, n)
  {
    NormValue(cfg, a[..]);
    Norm(cfg, a);
    LowBitsOf(cfg, a[..], n);
    IntBits(a[0], n);
    b := Wrap(a[0], 32) % Pow(2, n);
  }

  /** ((int)x) & msk keeps the low bits of x. */
  lemma IntBits(x: int, n: nat)
    requires n <= 30
    ensures Pow(2, n) > 0 && Wrap(x, 32) % Pow(2, n) == x % Pow(2, n)
  {
    PowPositive(2, n);
    PowPositive(2, 32 - n);
    WrapCong(x, 32);
    PowAdd(2, n, 32 - n);
    CongWeaken(Wrap(x, 32), x, Pow(2, n), Pow(2, 32 - n));
    CongMod(Wrap(x, 32), x, Pow(2, n));
  }
}
