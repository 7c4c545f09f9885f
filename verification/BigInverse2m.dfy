/** Inversion modulo a power of two by doubling the number of correct bits: invmod256, BIG_invmod2m,
    BIG_mod2m. */
module BigInverse2m {
  import opened Arith
  import opened Words
  import opened Limbs
  import opened BigNorm
  import opened BigShift
  import opened BigBits
  import opened BigRows
  import opened BigDivide
  import opened BigModular

  // ---------------------------------------------------------------- one doubling

  /** U inverts a modulo P; then U' inverts it modulo any E that divides P*P, whatever multiples of E
      or P the intermediate results have lost. */
  lemma Doubling(a: int, U: int, P: int, E: int, F: int, t1: int, t2: int, s: int, U': int)
    requires P >= 2 && E > 0 && P * P == E * F && F > 0
    requires Cong(U * a, 1, P)
    requires Cong(P * t1, P * ((U * (a % P)) / P), E)
    requires Cong(t2, U * (a / P), P)
    requires Cong(s, (t1 + t2) * U, P)
    requires Cong(U', U + P * (P - s), E)
    ensures Cong(U' * a, 1, E)
  {
    var w, c := (U * (a % P)) / P, a / P;
    var T := w + U * c;
    ProductSplit(a, U, P);
    assert U * a == 1 + P * T;
    // P*t2 and P*s are known modulo P*P, hence modulo E
    ScaledCong(t2, U * c, P, E, F);
    ScaledCong(s, (t1 + t2) * U, P, E, F);
    // P*(t1+t2) is P*T modulo E, and so P*s is P*T*U
    MulDist(t1, t2, P);
    MulDist(w, U * c, P);
    CongAdd(P * t1, P * w, P * t2, P * (U * c), E);
    CongScale(P * (t1 + t2), P * T, U, E);
    MulAssoc(P, t1 + t2, U);
    CongTrans(P * s, P * ((t1 + t2) * U), (P * T) * U, E);
    // U'*a = U*a + P*P*a - P*s*a
    CongScale(U', U + P * (P - s), a, E);
    CongScale(P * s, (P * T) * U, a, E);
    var x := P * T;
    MulDist(P, s, P);
    MulDist(U, P * P - P * s, a);
    MulDist(P * P, P * s, a);
    var y := 1 + x + (P * P) * a - (x * U) * a;
    CongRefl(1 + x + (P * P) * a, E);
    CongAdd(1 + x + (P * P) * a, 1 + x + (P * P) * a, (P * s) * a, (x * U) * a, E);
    CongTrans(U' * a, (U + P * (P - s)) * a, y, E);
    // which is 1 plus a multiple of P*P
    assert (x * U) * a == x + x * x by { MulAssoc(x, U, a); MulDist(1, x, x); }
    assert x * x == (P * P) * (T * T) by { FourFactors(P, T, P, T); }
    assert y == 1 + (P * P) * (a - T * T) by { MulDist(a, T * T, P * P); }
    assert (P * P) * (a - T * T) == (F * (a - T * T)) * E
      by { MulAssoc(E, F, a - T * T); assert E * (F * (a - T * T)) == (F * (a - T * T)) * E; }
    CongIntro(y, 1, F * (a - T * T), E);
    CongTrans(U' * a, y, 1, E);
  }

  /** U*a = 1 + P*(w + U*c) for the two halves of a. */
  lemma ProductSplit(a: int, U: int, P: int)
    requires P >= 2 && Cong(U * a, 1, P)
    ensures U * a == 1 + P * ((U * (a % P)) / P + U * (a / P))
  {
    var b, c := a % P, a / P;
    assert a == P * c + b;
    MulDist(P * c, b, U);
    assert U * (P * c) == P * (U * c) by { MulAssoc(U, P, c); MulAssoc(P, U, c); assert U * P == P * U; }
    CongOfMod(a, P);
    CongScale(b, a, U, P);
    CongTrans(U * b, U * a, 1, P);
    CongMod(U * b, 1, P);
    DivModUnique(1, P, 0, 1);
    MulDist((U * b) / P, U * c, P);
  }

  lemma ScaledCong(x: int, y: int, P: int, E: int, F: int)
    requires P > 0 && E > 0 && F > 0 && P * P == E * F && Cong(x, y, P)
    ensures Cong(P * x, P * y, E)
  {
    CongScaleModulus(x, y, P, P);
    assert x * P == P * x && y * P == P * y;
    CongWeaken(P * x, P * y, E, F);
  }

  // ---------------------------------------------------------------- modulo 256

  /** One doubling step of invmod256, for i = 1, 2, 4 and p = 2^i. */
  method DoubleStep(a: int, U: int, p: int) returns (V: int)
    requires p >= 2 && a >= 0 && U >= 0 && Cong(U * a, 1, p)
    ensures p * p > 0 && Cong(V * a, 1, p * p) && U < V <= U + p * p
  {
    var b := a % p;
    var t1 := U * b;
    t1 := t1 / p;
    var c := (a / p) % p;
    var t2 := (U * c) % p;
    ghost var w := t1;
    t1 := t1 + t2;
    t1 := t1 * U;
    t1 := t1 % p;
    ghost var s := t1;
    t1 := p - t1;
    t1 := t1 * p;
    V := U + t1;
    MulStrict(0, p, p);
    MulMono(p - s, p, p);
    MulMono(1, p - s, p);
    CongRefl(p * w, p * p);
    CongOfMod(U * c, p);
    CongOfMod(a / p, p);
    CongScale(c, a / p, U, p);
    CongTrans(t2, U * c, U * (a / p), p);
    CongOfMod((w + t2) * U, p);
    CongRefl(V, p * p);
    assert V == U + p * (p - s);
    Doubling(a, U, p, p * p, 1, w, t2, s, V);
  }

  /** invmod256: an inverse modulo 256 of an odd byte; not reduced, it can reach 277. */
  method InvMod256(a: int) returns (U: int)
    requires 0 <= a < 256 && a % 2 == 1
    ensures Cong(U * a, 1, 256) && 0 < U <= 277
  {
    CongIntro(1 * a, 1, a / 2, 2);
    var t1 := 0;
    var c := (a / 2) % 2;
    t1 := t1 + c;
    t1 := t1 % 2;
    t1 := 2 - t1;
    t1 := t1 * 2;
    U := t1 + 1;
    FirstDoubling(a, U);
    U := DoubleStep(a, U, 4);
    U := DoubleStep(a, U, 16);
  }

  lemma FirstDoubling(a: int, U: int)
    requires 0 <= a < 256 && a % 2 == 1 && U == 1 + 2 * (2 - (a / 2) % 2)
    ensures Cong(U * a, 1, 4)
  {
    var q := a / 4;
    if (a / 2) % 2 == 0 {
      assert a == 4 * q + 1 && U == 5;
      CongIntro(U * a, 1, 5 * q + 1, 4);
    } else {
      assert a == 4 * q + 3 && U == 3;
      CongIntro(U * a, 1, 3 * q + 2, 4);
    }
  }

  // ---------------------------------------------------------------- reduction modulo a power of two

  /** BIG_mod2m: normalise, mask the limb that holds bit m, clear the limbs above it. */
  method Mod2M(cfg: Config, x: array<int>, m: nat)
    requires cfg.Valid() && x.Length >= 2 && LazyLimbs(cfg, x[..], x.Length - 1) && Whole(cfg, m) < x.Length
    modifies x
    ensures Normal(x[..], cfg.Radix()) && Pow(2, m) > 0
    ensures Value(x[..], cfg.Radix()) == old(Value(x[..], cfg.Radix())) % Pow(2, m)
  {
    ghost var s := NormLimbs(cfg, x[..]);
    NormPower(cfg, x[..], m);
    Norm(cfg, x);
    var wd := Whole(cfg, m);
    var bt := Part(cfg, m);
    PowPositive(2, bt);
    x[wd] := x[wd] % Pow(2, bt);
    var i := wd + 1;
    while i < x.Length
      invariant wd < i <= x.Length
      invariant forall j :: 0 <= j < x.Length && j != wd && !(wd < j < i) ==> x[j] == s[j]
      invariant x[wd] == s[wd] % Pow(2, bt)
      invariant forall j :: wd < j < i ==> x[j] == 0
    {
      x[i] := 0;
      i := i + 1;
    }
    LowPart(cfg, s, x[..], m);
  }

  /** Normalising, whatever it loses at the top, keeps a number modulo 2^m. */
  lemma NormPower(cfg: Config, s: seq<int>, m: nat)
    requires cfg.Valid() && |s| >= 1 && Whole(cfg, m) < |s|
    ensures Pow(2, m) > 0 && Value(NormLimbs(cfg, s), cfg.Radix()) % Pow(2, m) == Value(s, cfg.Radix()) % Pow(2, m)
  {
    NormCong(cfg, s);
    PowerSplit(cfg, m, |s|);
    PowPositive(2, m);
    var rest := Pow(2, cfg.bits * |s| - m);
    PowPositive(2, cfg.bits * |s| - m);
    CongWeaken(Value(NormLimbs(cfg, s), cfg.Radix()), Value(s, cfg.Radix()), Pow(2, m), rest);
    CongMod(Value(NormLimbs(cfg, s), cfg.Radix()), Value(s, cfg.Radix()), Pow(2, m));
  }

  /** 2^m divides the radix to the n when bit m lies in the first n limbs. */
  lemma PowerSplit(cfg: Config, m: nat, n: nat)
    requires cfg.Valid() && Whole(cfg, m) < n
    ensures m < cfg.bits * n
    ensures Pow(cfg.Radix(), n) == Pow(2, m) * Pow(2, cfg.bits * n - m)
  {
    MulMono(m / cfg.bits, n - 1, cfg.bits);
    MulDist(n, 1, cfg.bits);
    PowMul(2, cfg.bits, n);
    PowAdd(2, m, cfg.bits * n - m);
  }

  lemma LowPart(cfg: Config, s: seq<int>, r: seq<int>, m: nat)
    requires cfg.Valid() && LowNormal(s, cfg.Radix()) && |r| == |s| && Whole(cfg, m) < |s|
    requires forall j :: 0 <= j < Whole(cfg, m) ==> r[j] == s[j]
    requires Pow(2, Part(cfg, m)) > 0 && r[Whole(cfg, m)] == s[Whole(cfg, m)] % Pow(2, Part(cfg, m))
    requires forall j :: Whole(cfg, m) < j < |r| ==> r[j] == 0
    ensures Normal(r, cfg.Radix()) && Pow(2, m) > 0 && Value(r, cfg.Radix()) == Value(s, cfg.Radix()) % Pow(2, m)
  {
    var R, wd, x := cfg.Radix(), Whole(cfg, m), Pow(2, Part(cfg, m));
    var p, n := Pow(R, wd), |s|;
    SplitShift(cfg, m);
    PowPositive(R, wd);
    SplitRadix(cfg, Part(cfg, m));
    var y := Pow(2, cfg.bits - Part(cfg, m));
    hide Whole, Part;
    var low, d := Val(s, wd, R), s[wd] % x;
    ValHighZero(r, wd + 1, n, R);
    ValFrame(r, s, wd, R);
    assert Value(r, R) == low + d * p;
    ValSplit(s, wd, n, R);
    var t := s[wd..];
    ValModRadix(t, n - wd, R);
    var k := CongElim(Val(t, n - wd, R), t[0], R);
    ValBounds(s, wd, R);
    MulMono(1, y, x);
    LowPartMod(Value(s, R), low, p, s[wd], k, x, y, R);
    assert d < R;
  }

  // ---------------------------------------------------------------- one pass of BIG_invmod2m

  /** 2^i, with the range 2^(bits * nlen) of a BIG written as 2^i times something. */
  lemma Range(cfg: Config, i: nat)
    requires cfg.Valid() && i <= cfg.bits * cfg.nlen
    ensures Pow(2, i) > 0 && Pow(2, cfg.bits * cfg.nlen - i) > 0
    ensures Pow(cfg.Radix(), cfg.nlen) == Pow(2, i) * Pow(2, cfg.bits * cfg.nlen - i)
    ensures Pow(cfg.Radix(), cfg.nlen) == Pow(2, cfg.bits * cfg.nlen)
    ensures i < cfg.bits * cfg.nlen ==> Whole(cfg, i) < cfg.nlen
  {
    PowPositive(2, i);
    PowPositive(2, cfg.bits * cfg.nlen - i);
    PowMul(2, cfg.bits, cfg.nlen);
    PowAdd(2, i, cfg.bits * cfg.nlen - i);
    if i < cfg.bits * cfg.nlen {
      DivBounds(i, cfg.bits, 0, cfg.nlen);
    }
  }

  ghost predicate Lifting(cfg: Config, wide: bool, a: array<int>, U: array<int>, t1: array<int>, b: array<int>,
      c: array<int>) {
    && MuladdReady(cfg, wide) && Spare(cfg)
    && a.Length == U.Length == t1.Length == b.Length == c.Length == cfg.nlen
    && a != U && a != t1 && a != b && a != c && U != t1 && U != b && U != c && t1 != b && t1 != c && b != c
  }

  /** mod2m of a normalised number */
  method LowBitsIn(cfg: Config, x: array<int>, i: nat)
    requires cfg.Valid() && x.Length == cfg.nlen && Normal(x[..], cfg.Radix()) && i < cfg.bits * cfg.nlen
    modifies x
    ensures Normal(x[..], cfg.Radix()) && Pow(2, i) > 0
    ensures Value(x[..], cfg.Radix()) == old(Value(x[..], cfg.Radix())) % Pow(2, i)
  {
    Range(cfg, i);
    NormalIsLazy(cfg, x[..]);
    LazyLow(cfg, x[..]);
    Mod2M(cfg, x, i);
  }

  /** shr of a normalised number */
  method HighBitsIn(cfg: Config, x: array<int>, i: nat)
    requires cfg.Valid() && x.Length == cfg.nlen && Normal(x[..], cfg.Radix()) && i < cfg.bits * cfg.nlen
    modifies x
    ensures Normal(x[..], cfg.Radix()) && Pow(2, i) > 0
    ensures Value(x[..], cfg.Radix()) == old(Value(x[..], cfg.Radix())) / Pow(2, i)
  {
    Range(cfg, i);
    NormalIsLow(x[..], cfg.Radix());
    ShrValue(cfg, x[..], i);
    Shr(cfg, x, i);
  }

  /** t1 = 2^i - t1, shifted up by i: exact while it fits, and always right modulo the range. */
  method NegateAndShift(cfg: Config, t1: array<int>, b: array<int>, i: nat)
    requires Spare(cfg) && t1.Length == b.Length == cfg.nlen && t1 != b && Normal(t1[..], cfg.Radix())
    requires 1 <= i < cfg.bits * cfg.nlen && Value(t1[..], cfg.Radix()) < Pow(2, i)
    modifies t1, b
    ensures LowNormal(t1[..], cfg.Radix()) && Pow(cfg.Radix(), cfg.nlen) > 0
    ensures Cong(Value(t1[..], cfg.Radix()), (Pow(2, i) - old(Value(t1[..], cfg.Radix()))) * Pow(2, i),
      Pow(cfg.Radix(), cfg.nlen))
    ensures 2 * i < cfg.bits * cfg.nlen ==>
              && Normal(t1[..], cfg.Radix())
              && Value(t1[..], cfg.Radix()) == (Pow(2, i) - old(Value(t1[..], cfg.Radix()))) * Pow(2, i)
  {
    ghost var s, P := Value(t1[..], cfg.Radix()), Pow(2, i);
    ShiftedPower(cfg, i);
    NormalBounds(t1[..], cfg.Radix());
    hide *;
    Negate(cfg, t1, b, i);
    BelowSquare(P - s, P);
    ShiftUp(cfg, t1, i, (P - s) * P);
  }

  lemma BelowSquare(x: int, P: int)
    requires x <= P && P > 0
    ensures x * P <= P * P
  {
    MulMono(x, P, P);
  }

  /** zero(b); inc(b, 1); shl(b, i); sub(t1, b, t1); norm(t1) */
  method Negate(cfg: Config, t1: array<int>, b: array<int>, i: nat)
    requires Spare(cfg) && t1.Length == b.Length == cfg.nlen && t1 != b && Normal(t1[..], cfg.Radix())
    requires 1 <= i < cfg.bits * cfg.nlen && Value(t1[..], cfg.Radix()) < Pow(2, i) < Pow(cfg.Radix(), cfg.nlen)
    modifies t1, b
    ensures Normal(t1[..], cfg.Radix()) && Value(t1[..], cfg.Radix()) == Pow(2, i) - old(Value(t1[..], cfg.Radix()))
  {
    hide Val, Pow, Lazy, LazyLimbs, SubLimbs, NormLimbs, Config.Radix;
    NormalBounds(t1[..], cfg.Radix());
    PowerOfTwo(cfg, b, i);
    NormalIsReducible(cfg, b[..]);
    NormalIsReducible(cfg, t1[..]);
    DifferenceValue(cfg, b[..], t1[..]);
    Sub(cfg, t1, b, t1);
    LazyLow(cfg, t1[..]);
    Norm(cfg, t1);
    NormalFromValue(t1[..], cfg.Radix());
  }

  /** shl(t, i), whose exact result would be w */
  method ShiftUp(cfg: Config, t: array<int>, i: nat, ghost w: int)
    requires Spare(cfg) && t.Length == cfg.nlen && Normal(t[..], cfg.Radix()) && 1 <= i < cfg.bits * cfg.nlen
    requires w == Value(t[..], cfg.Radix()) * Pow(2, i)
    modifies t
    ensures LowNormal(t[..], cfg.Radix()) && Pow(cfg.Radix(), cfg.nlen) > 0
    ensures Cong(Value(t[..], cfg.Radix()), w, Pow(cfg.Radix(), cfg.nlen))
    ensures w < Pow(cfg.Radix(), cfg.nlen) ==> Normal(t[..], cfg.Radix()) && Value(t[..], cfg.Radix()) == w
  {
    Range(cfg, i);
    hide Val, Pow, Normal, LeftShift, Cong, Config.Radix;
    NormalIsLow(t[..], cfg.Radix());
    ShlCong(cfg, t[..], i);
    if w < Pow(cfg.Radix(), cfg.nlen) {
      ShlValue(cfg, t[..], i);
    }
    Shl(cfg, t, i);
  }

  lemma ShiftedPower(cfg: Config, i: nat)
    requires cfg.Valid() && 1 <= i < cfg.bits * cfg.nlen
    ensures 2 * i < cfg.bits * cfg.nlen ==> Pow(2, i) * Pow(2, i) < Pow(cfg.Radix(), cfg.nlen)
    ensures Pow(2, i) < Pow(cfg.Radix(), cfg.nlen)
  {
    PowMul(2, cfg.bits, cfg.nlen);
    PowAdd(2, i, i);
    PowStrict(2, i, cfg.bits * cfg.nlen);
    if 2 * i < cfg.bits * cfg.nlen {
      PowStrict(2, 2 * i, cfg.bits * cfg.nlen);
    }
  }

  /** Dropping multiples of Q = P*M does not disturb the bits below P, nor those above P modulo M. */
  lemma DropHigh(x: int, P: int, M: int)
    requires P > 0 && M > 0 && P * M > 0
    ensures (x % (P * M)) % P == x % P
    ensures Cong(P * ((x % (P * M)) / P), P * (x / P), P * M)
  {
    var Q := P * M;
    var k, r := x / Q, x % Q;
    var j, d := r / P, r % P;
    assert x == k * Q + (j * P + d);
    assert k * Q == (k * M) * P by { MulAssoc(k, M, P); assert M * P == Q; }
    MulDist(k * M, j, P);
    DivModUnique(x, P, k * M + j, d);
    assert P * j == P * (k * M + j) + (-k) * Q
      by { MulDist(k * M, j, P); assert (-k) * Q == -(k * Q) by { MulDist(0, k, Q); } }
    CongIntro(P * j, P * (k * M + j), -k, Q);
  }

  /** The numbers one pass computes, each modulo the range Q, make V an inverse modulo every E that
      divides both Q and P*P. */
  lemma Lifted(a: int, U: int, P: int, M: int, E: int, F: int, G: int, t1: int, t2: int, s: int, V: int)
    requires P >= 2 && M > 0 && E > 0 && F > 0 && G > 0 && P * P == E * F && P * M == E * G > 0
    requires Cong(U * a, 1, P)
    requires t1 == ((U * (a % P)) % (P * M)) / P
    requires t2 == ((U * ((a / P) % P)) % (P * M)) % P
    requires s == (((t1 + t2) * U) % (P * M)) % P
    requires Cong(V, U + P * (P - s), P * M)
    ensures Cong(V * a, 1, E)
  {
    DropHigh(U * (a % P), P, M);
    CongWeaken(P * t1, P * ((U * (a % P)) / P), E, G);
    DropHigh(U * ((a / P) % P), P, M);
    CongOfMod(U * ((a / P) % P), P);
    CongOfMod(a / P, P);
    CongScale((a / P) % P, a / P, U, P);
    CongTrans(t2, U * ((a / P) % P), U * (a / P), P);
    DropHigh((t1 + t2) * U, P, M);
    CongOfMod((t1 + t2) * U, P);
    CongWeaken(V, U + P * (P - s), E, G);
    Doubling(a, U, P, E, F, t1, t2, s, V);
  }

  lemma LiftedLimbs(cfg: Config, u: seq<int>, t: seq<int>)
    requires Spare(cfg) && |u| == |t| >= 2 && Normal(u, cfg.Radix()) && LowNormal(t, cfg.Radix())
    ensures var r := AddLimbs(cfg, u, t);
            && LazyLimbs(cfg, r, |u| - 1)
            && (forall j :: 0 <= j < |u| - 1 ==> r[j] == u[j] + t[j])
            && r[|u| - 1] == cfg.Word(u[|u| - 1] + t[|u| - 1])
  {
    hide Pow, Val, Config.Radix;
    SpareRoom(cfg);
  }

  /** Adding to a normalised number one that is normalised apart from its top limb. */
  lemma LiftedSum(cfg: Config, u: seq<int>, t: seq<int>)
    requires Spare(cfg) && |u| == |t| >= 2 && Normal(u, cfg.Radix()) && LowNormal(t, cfg.Radix())
    ensures LazyLimbs(cfg, AddLimbs(cfg, u, t), |u| - 1) && Pow(cfg.Radix(), |u|) > 0
    ensures Cong(Value(NormLimbs(cfg, AddLimbs(cfg, u, t)), cfg.Radix()), Value(u, cfg.Radix()) + Value(t, cfg.Radix()),
      Pow(cfg.Radix(), |u|))
  {
    var R, r := cfg.Radix(), AddLimbs(cfg, u, t);
    LiftedLimbs(cfg, u, t);
    assert cfg.Valid();
    hide *;
    PowPositive(R, |u|);
    LiftedLimbsSum(cfg, u, t, r);
    NormCong(cfg, r);
    CongTrans(Value(NormLimbs(cfg, r), R), Value(r, R), Value(u, R) + Value(t, R), Pow(R, |u|));
  }

  lemma LiftedLimbsSum(cfg: Config, u: seq<int>, t: seq<int>, r: seq<int>)
    requires cfg.Valid() && |u| == |t| == |r| >= 2 && (forall j :: 0 <= j < |u| - 1 ==> r[j] == u[j] + t[j])
    requires r[|u| - 1] == cfg.Word(u[|u| - 1] + t[|u| - 1])
    ensures Pow(cfg.Radix(), |u|) > 0
      && Cong(Value(r, cfg.Radix()), Value(u, cfg.Radix()) + Value(t, cfg.Radix()), Pow(cfg.Radix(), |u|))
  {
    var R, k := cfg.Radix(), |u| - 1;
    hide *;
    PowNext(R, k);
    PowPositive(R, k);
    TopTerm(r, R);
    TopTerm(u, R);
    TopTerm(t, R);
    ValAdd(r, u, t, k, R);
    LiftedTop(cfg, Value(r, R), Value(u, R), Value(t, R), Val(u, k, R), Val(t, k, R), u[k], t[k], Pow(R, k),
        Pow(R, |u|));
  }

  lemma LiftedTop(cfg: Config, v: int, vu: int, vt: int, lu: int, lt: int, x: int, y: int, p: int, m: int)
    requires cfg.Valid() && p > 0 && m == cfg.Radix() * p
    requires v == lu + lt + cfg.Word(x + y) * p && vu == lu + x * p && vt == lt + y * p
    ensures m > 0 && Cong(v, vu + vt, m)
  {
    MulDist(x, y, p);
    TopWordCong(cfg, x + y, lu + lt, p);
  }

  lemma TopTerm(s: seq<int>, R: int)
    requires |s| > 0
    ensures Value(s, R) == Val(s, |s| - 1, R) + s[|s| - 1] * Pow(R, |s| - 1)
  {
  }

  /** t1 = (U*b) >> i with b the low half of a */
  method FirstTerm(cfg: Config, wide: bool, a: array<int>, U: array<int>, t1: array<int>, b: array<int>, c: array<int>,
      i: nat)
    requires Lifting(cfg, wide, a, U, t1, b, c) && Normal(a[..], cfg.Radix()) && Normal(U[..], cfg.Radix())
      && 1 <= i < cfg.bits * cfg.nlen
    modifies t1, b
    ensures Normal(t1[..], cfg.Radix()) && Pow(2, i) > 0 && Pow(cfg.Radix(), cfg.nlen) > 0
    ensures Value(t1[..], cfg.Radix())
         == ((Value(U[..], cfg.Radix()) * (Value(a[..], cfg.Radix()) % Pow(2, i))) % Pow(cfg.Radix(),
             cfg.nlen)) / Pow(2, i)
  {
    Copy(b, a, 0);
    assert b[..] == a[..];
    LowBitsIn(cfg, b, i);
    SMul(cfg, wide, t1, U, b);
    HighBitsIn(cfg, t1, i);
  }

  /** b = (U*c) mod 2^i with c the high half of a */
  method SecondTerm(cfg: Config, wide: bool, a: array<int>, U: array<int>, t1: array<int>, b: array<int>, c: array<int>,
      i: nat)
    requires Lifting(cfg, wide, a, U, t1, b, c) && Normal(a[..], cfg.Radix()) && Normal(U[..], cfg.Radix())
      && 1 <= i < cfg.bits * cfg.nlen
    modifies b, c
    ensures Normal(b[..], cfg.Radix()) && Pow(2, i) > 0 && Pow(cfg.Radix(), cfg.nlen) > 0
    ensures Value(b[..], cfg.Radix())
         == ((Value(U[..], cfg.Radix()) * ((Value(a[..], cfg.Radix()) / Pow(2, i)) % Pow(2, i))) % Pow(cfg.Radix(),
             cfg.nlen)) % Pow(2, i)
  {
    Copy(c, a, 0);
    assert c[..] == a[..];
    HighBitsIn(cfg, c, i);
    LowBitsIn(cfg, c, i);
    SMul(cfg, wide, b, U, c);
    LowBitsIn(cfg, b, i);
  }

  /** t1 = ((t1 + b) * U) mod 2^i */
  method ThirdTerm(cfg: Config, wide: bool, a: array<int>, U: array<int>, t1: array<int>, b: array<int>, c: array<int>,
      i: nat)
    requires Lifting(cfg, wide, a, U, t1, b, c) && Normal(t1[..], cfg.Radix()) && Normal(b[..], cfg.Radix())
      && Normal(U[..], cfg.Radix())
    requires 1 <= i < cfg.bits * cfg.nlen
    requires Value(t1[..], cfg.Radix()) < Pow(2, cfg.bits * cfg.nlen - i) && Value(b[..], cfg.Radix()) < Pow(2, i)
    modifies t1, b
    ensures Normal(t1[..], cfg.Radix()) && Pow(2, i) > 0 && Pow(cfg.Radix(), cfg.nlen) > 0
    ensures Value(t1[..], cfg.Radix())
         == (((old(Value(t1[..], cfg.Radix())) + old(Value(b[..], cfg.Radix()))) * Value(U[..],
             cfg.Radix())) % Pow(cfg.Radix(), cfg.nlen)) % Pow(2, i)
  {
    ghost var x, y := Value(t1[..], cfg.Radix()), Value(b[..], cfg.Radix());
    HalvesFit(cfg, x, y, i);
    NormalBounds(t1[..], cfg.Radix());
    NormalBounds(b[..], cfg.Radix());
    SumValue(cfg, t1[..], b[..]);
    Add(cfg, t1, t1, b);
    LazyLow(cfg, t1[..]);
    Norm(cfg, t1);
    NormalFromValue(t1[..], cfg.Radix());
    SMul(cfg, wide, b, t1, U);
    Copy(t1, b, 0);
    assert t1[..] == b[..];
    LowBitsIn(cfg, t1, i);
  }

  lemma HalvesFit(cfg: Config, x: int, y: int, i: nat)
    requires cfg.Valid() && 1 <= i < cfg.bits * cfg.nlen && x < Pow(2, cfg.bits * cfg.nlen - i) && y < Pow(2, i)
    ensures x + y < Pow(cfg.Radix(), cfg.nlen)
  {
    var P, M := Pow(2, i), Pow(2, cfg.bits * cfg.nlen - i);
    Range(cfg, i);
    PowMonotone(2, 1, i);
    PowMonotone(2, 1, cfg.bits * cfg.nlen - i);
    MulMono(2, P, M - 1);
    MulDist(M, 1, P);
  }

  /** The number of bits known after the pass that starts from i: twice as many, up to the range. */
  function Doubled(cfg: Config, i: nat): nat {
    if 2 * i < cfg.bits * cfg.nlen then 2 * i else cfg.bits * cfg.nlen
  }

  lemma DoubledPower(cfg: Config, i: nat)
    requires cfg.Valid() && 1 <= i < cfg.bits * cfg.nlen
    ensures Pow(2, i) >= 2
    ensures var E, F, G := Pow(2, Doubled(cfg, i)), Pow(2, 2 * i - Doubled(cfg, i)),
      Pow(2, cfg.bits * cfg.nlen - Doubled(cfg, i));
            E > 0 && F > 0 && G > 0 && Pow(2, i) * Pow(2, i) == E * F && Pow(cfg.Radix(), cfg.nlen) == E * G
  {
    var e := Doubled(cfg, i);
    PowMonotone(2, 1, i);
    PowPositive(2, e);
    PowPositive(2, 2 * i - e);
    PowPositive(2, cfg.bits * cfg.nlen - e);
    PowAdd(2, i, i);
    PowAdd(2, e, 2 * i - e);
    PowAdd(2, e, cfg.bits * cfg.nlen - e);
    PowMul(2, cfg.bits, cfg.nlen);
  }

  lemma LiftedRange(u: int, P: int, s: int, V: int)
    requires P >= 2 && 0 <= u < 2 * P && 0 <= s < P && V == u + P * (P - s)
    ensures P * P > 0 && 0 <= V < 2 * (P * P)
  {
    MulMono(P - s, P, P);
    MulMono(0, P - s, P);
    MulMono(2, P, P);
  }

  /** One pass of the loop: U, an inverse modulo 2^i, becomes one modulo 2^(2i), or modulo the whole
      range when that is less. While 2i stays within the range U also stays small enough to be
      normalised exactly by the next pass. */
  method Lift(cfg: Config, wide: bool, a: array<int>, U: array<int>, t1: array<int>, b: array<int>, c: array<int>,
      i: nat)
    requires Lifting(cfg, wide, a, U, t1, b, c) && Normal(a[..], cfg.Radix()) && Normal(U[..], cfg.Radix())
      && 1 <= i < cfg.bits * cfg.nlen
    requires Pow(2, i) > 0 && Cong(Value(U[..], cfg.Radix()) * Value(a[..], cfg.Radix()), 1, Pow(2, i))
    modifies U, t1, b, c
    ensures LazyLimbs(cfg, U[..], cfg.nlen - 1) && Pow(2, Doubled(cfg, i)) > 0
    ensures Cong(Value(NormLimbs(cfg, U[..]), cfg.Radix()) * Value(a[..], cfg.Radix()), 1, Pow(2, Doubled(cfg, i)))
    ensures 2 * i < cfg.bits * cfg.nlen && old(Value(U[..], cfg.Radix())) < 2 * Pow(2, i) ==>
              0 <= Value(NormLimbs(cfg, U[..]), cfg.Radix()) < 2 * Pow(2, 2 * i)
  {
    ghost var q := cfg.bits * cfg.nlen;
    ghost var A, u, P, M, Q := Value(a[..], cfg.Radix()), Value(U[..], cfg.Radix()), Pow(2, i), Pow(2, q - i),
        Pow(cfg.Radix(), cfg.nlen);
    ghost var e := Doubled(cfg, i);
    Range(cfg, i);
    DoubledPower(cfg, i);
    NormalBounds(U[..], cfg.Radix());
    assert i <= e <= q && e <= 2 * i && (2 * i < q ==> e == 2 * i);
    PowAdd(2, i, i);
    hide Pow, Value, Val, Cong, Normal, LowNormal, Digits, NormLimbs, AddLimbs, LazyLimbs, Lazy, Config.Radix,
        Config.Half, MaxLimb, Doubled;
    ghost var x, y, s := LiftTerms(cfg, wide, a, U, t1, b, c, i);
    LiftAdd(cfg, U, t1, b, i);
    ghost var V := Value(NormLimbs(cfg, U[..]), cfg.Radix());
    if 2 * i < q && u < 2 * P {
      LiftedRange(u, P, s, V);
    }
    Lifted(A, u, P, M, Pow(2, e), Pow(2, 2 * i - e), Pow(2, q - e), x, y, s, V);
  }

  /** The three terms; the last of them is left in t1. */
  method LiftTerms(cfg: Config, wide: bool, a: array<int>, U: array<int>, t1: array<int>, b: array<int>, c: array<int>,
      i: nat)
    returns (ghost x: int, ghost y: int, ghost s: int)
    requires Lifting(cfg, wide, a, U, t1, b, c) && Normal(a[..], cfg.Radix()) && Normal(U[..], cfg.Radix())
      && 1 <= i < cfg.bits * cfg.nlen
    modifies t1, b, c
    ensures Pow(2, i) > 0 && Pow(cfg.Radix(), cfg.nlen) > 0
    ensures var A, u, P, Q := Value(a[..], cfg.Radix()), Value(U[..], cfg.Radix()), Pow(2, i),
      Pow(cfg.Radix(), cfg.nlen);
            && x == ((u * (A % P)) % Q) / P && y == ((u * ((A / P) % P)) % Q) % P && s == (((x + y) * u) % Q) % P
    ensures Normal(t1[..], cfg.Radix()) && Value(t1[..], cfg.Radix()) == s
  {
    Range(cfg, i);
    hide Pow, Value, Val, Normal, Config.Radix;
    FirstTerm(cfg, wide, a, U, t1, b, c, i);
    x := Value(t1[..], cfg.Radix());
    SecondTerm(cfg, wide, a, U, t1, b, c, i);
    y := Value(b[..], cfg.Radix());
    QuotientBelow((Value(U[..], cfg.Radix()) * (Value(a[..], cfg.Radix()) % Pow(2, i))) % Pow(cfg.Radix(), cfg.nlen),
                  Pow(2, i), Pow(2, cfg.bits * cfg.nlen - i), Pow(cfg.Radix(), cfg.nlen));
    ThirdTerm(cfg, wide, a, U, t1, b, c, i);
    s := Value(t1[..], cfg.Radix());
  }

  /** U = U + (2^i - t1) * 2^i, modulo the range. */
  method LiftAdd(cfg: Config, U: array<int>, t1: array<int>, b: array<int>, i: nat)
    requires Spare(cfg) && U.Length == t1.Length == b.Length == cfg.nlen && U != t1 && U != b && t1 != b
    requires Normal(U[..], cfg.Radix()) && Normal(t1[..], cfg.Radix())
    requires 1 <= i < cfg.bits * cfg.nlen && Value(t1[..], cfg.Radix()) < Pow(2, i)
    modifies U, t1, b
    ensures LazyLimbs(cfg, U[..], cfg.nlen - 1) && Pow(cfg.Radix(), cfg.nlen) > 0
    ensures var V, P := Value(NormLimbs(cfg, U[..]), cfg.Radix()), Pow(2, i);
            var w := old(Value(U[..], cfg.Radix())) + P * (P - old(Value(t1[..], cfg.Radix())));
            Cong(V, w, Pow(cfg.Radix(), cfg.nlen)) && (2 * i < cfg.bits * cfg.nlen ==> V == w)
  {
    ghost var u, s, P, Q := Value(U[..], cfg.Radix()), Value(t1[..], cfg.Radix()), Pow(2, i),
        Pow(cfg.Radix(), cfg.nlen);
    assert cfg.Valid() && cfg.nlen >= 2;
    hide *;
    NegateAndShift(cfg, t1, b, i);
    assert (P - s) * P == P * (P - s);
    LiftedSum(cfg, U[..], t1[..]);
    if 2 * i < cfg.bits * cfg.nlen {
      SumValue(cfg, U[..], t1[..]);
    }
    CongShift(u, Value(t1[..], cfg.Radix()), P * (P - s), Q);
    Add(cfg, U, U, t1);
    CongTrans(Value(NormLimbs(cfg, U[..]), cfg.Radix()), u + Value(t1[..], cfg.Radix()), u + P * (P - s), Q);
  }

  lemma CongShift(u: int, t: int, w: int, Q: int)
    requires Q > 0 && Cong(t, w, Q)
    ensures Cong(u + t, u + w, Q)
  {
    CongRefl(u, Q);
    CongAdd(u, u, t, w, Q);
  }

  lemma QuotientBelow(x: int, P: int, M: int, Q: int)
    requires P > 0 && Q == P * M && 0 <= x < Q
    ensures x / P < M
  {
    DivBounds(x, P, 0, M);
  }

  // ---------------------------------------------------------------- the whole of BIG_invmod2m

  /** NLEN limbs are just enough for BIGBITS bits; the limb that BIG_mod2m masks for BIGBITS itself
      exists exactly when BIGBITS is not a multiple of BASEBITS. */
  lemma MaskInRange(cfg: Config, bigbits: nat)
    requires cfg.Valid() && bigbits >= 1 && cfg.nlen == 1 + (bigbits - 1) / cfg.bits
    ensures Whole(cfg, bigbits) < cfg.nlen <==> bigbits % cfg.bits != 0
    ensures bigbits % cfg.bits != 0 ==> bigbits < cfg.bits * cfg.nlen
  {
    var b := cfg.bits;
    var q, r := (bigbits - 1) / b, (bigbits - 1) % b;
    MulDist(1, q, b);
    if r + 1 < b {
      DivModUnique(bigbits, b, q, r + 1);
    } else {
      DivModUnique(bigbits, b, q + 1, 0);
    }
  }

  /** For one, 448 bits in limbs of 56: the limb to be masked is the ninth of eight. */
  lemma MaskOutOfRange()
    ensures var cfg := Config(56, 8, 64);
            cfg.Valid() && cfg.nlen == 1 + (448 - 1) / cfg.bits && Whole(cfg, 448) == cfg.nlen
  {
  }

  /** What the loop keeps: U, normalised, inverts a modulo 2^i or modulo the whole range. */
  ghost predicate Inverse2(cfg: Config, A: int, U: seq<int>, i: nat, bigbits: nat)
    requires cfg.Valid() && |U| == cfg.nlen
  {
    && LazyLimbs(cfg, U, |U| - 1)
    && Pow(2, Reached(cfg, i)) > 0
    && Cong(Value(NormLimbs(cfg, U), cfg.Radix()) * A, 1, Pow(2, Reached(cfg, i)))
    && (i < bigbits ==> 0 <= Value(NormLimbs(cfg, U), cfg.Radix()) < 2 * Pow(2, i))
  }

  function Reached(cfg: Config, i: nat): nat {
    if i < cfg.bits * cfg.nlen then i else cfg.bits * cfg.nlen
  }

  /** zero(U); inc(U, x) */
  lemma SmallStart(cfg: Config, U: seq<int>, A: int, x: int, bigbits: nat)
    requires Spare(cfg) && cfg.bits >= 8 && |U| == cfg.nlen
    requires 0 < x <= 277 && U[0] == x && (forall j :: 0 < j < |U| ==> U[j] == 0)
    requires Cong(x * (A % 256), 1, 256)
    ensures Inverse2(cfg, A, U, 8, bigbits)
  {
    var R := cfg.Radix();
    PowTwoEight();
    PowMonotone(2, 8, cfg.bits);
    SpareRoom(cfg);
    MulMono(2, cfg.nlen, cfg.bits);
    ValHighZero(U, 1, |U|, R);
    assert Val(U, 1, R) == Val(U, 0, R) + x * Pow(R, 0);
    NormValue(cfg, U);
    CongOfMod(A, 256);
    CongScale(A % 256, A, x, 256);
    CongSym(x * (A % 256), x * A, 256);
    CongTrans(x * A, x * (A % 256), 1, 256);
  }

  lemma PowTwoEight()
    ensures Pow(2, 8) == 256
  {
    assert Pow(2, 8) == 2 * Pow(2, 7) && Pow(2, 7) == 2 * Pow(2, 6) && Pow(2, 6) == 2 * Pow(2, 5)
      && Pow(2, 5) == 2 * Pow(2, 4);
    assert Pow(2, 4) == 2 * Pow(2, 3) && Pow(2, 3) == 2 * Pow(2, 2) && Pow(2, 2) == 2 * Pow(2, 1)
      && Pow(2, 1) == 2 * Pow(2, 0);
  }

  /** norm(U), followed by the pass */
  method NextLift(cfg: Config, wide: bool, a: array<int>, U: array<int>, t1: array<int>, b: array<int>, c: array<int>,
      i: nat, ghost bigbits: nat)
    requires Lifting(cfg, wide, a, U, t1, b, c) && Normal(a[..], cfg.Radix())
    requires 1 <= i < bigbits < cfg.bits * cfg.nlen && Inverse2(cfg, Value(a[..], cfg.Radix()), U[..], i, bigbits)
    modifies U, t1, b, c
    ensures Inverse2(cfg, Value(a[..], cfg.Radix()), U[..], 2 * i, bigbits)
  {
    assert Reached(cfg, i) == i && Reached(cfg, 2 * i) == Doubled(cfg, i);
    SmallIsNormal(cfg, NormLimbs(cfg, U[..]), i);
    Norm(cfg, U);
    Lift(cfg, wide, a, U, t1, b, c, i);
  }

  lemma SmallIsNormal(cfg: Config, s: seq<int>, i: nat)
    requires cfg.Valid() && |s| == cfg.nlen && LowNormal(s, cfg.Radix()) && i + 1 < cfg.bits * cfg.nlen
    requires 0 <= Value(s, cfg.Radix()) < 2 * Pow(2, i)
    ensures Normal(s, cfg.Radix())
  {
    assert Pow(2, i + 1) == 2 * Pow(2, i);
    PowStrict(2, i + 1, cfg.bits * cfg.nlen);
    PowMul(2, cfg.bits, cfg.nlen);
    NormalFromValue(s, cfg.Radix());
  }

  /** BIG_inc */
  method Inc(cfg: Config, c: array<int>, d: int)
    requires cfg.Valid() && c.Length >= 2 && LazyLimbs(cfg, c[..], c.Length - 1)
    modifies c
    ensures c[..] == NormLimbs(cfg, old(c[..]))[0 := cfg.Word(NormLimbs(cfg, old(c[..]))[0] + d)]
  {
    Norm(cfg, c);
    c[0] := cfg.Word(c[0] + d);
  }

  lemma ZeroNorm(cfg: Config, s: seq<int>)
    requires cfg.Valid() && |s| >= 1 && forall j :: 0 <= j < |s| ==> s[j] == 0
    ensures Lazy(cfg, s) && NormLimbs(cfg, s) == s
  {
    NormalIsLazy(cfg, s);
    NormalIsLow(s, cfg.Radix());
    NormValue(cfg, s);
    LowNormalUnique(NormLimbs(cfg, s), s, cfg.Radix());
  }

  /** zero(U); inc(U, invmod256(lastbits(a, 8))) */
  method FirstByte(cfg: Config, a: array<int>, U: array<int>, ghost bigbits: nat)
    requires Spare(cfg) && cfg.bits >= 8 && Operand(cfg, a) && U.Length == cfg.nlen && a != U
      && Value(a[..], cfg.Radix()) % 2 == 1
    modifies a, U
    ensures Normal(a[..], cfg.Radix()) && Value(a[..], cfg.Radix()) == old(Value(a[..], cfg.Radix()))
    ensures Inverse2(cfg, Value(a[..], cfg.Radix()), U[..], 8, bigbits)
  {
    ghost var A := Value(a[..], cfg.Radix());
    PowTwoEight();
    Zero(U);
    var byte := LastBits(cfg, a, 8);
    NormalFromValue(a[..], cfg.Radix());
    OddByte(A);
    var x := InvMod256(byte);
    ZeroNorm(cfg, U[..]);
    LazyLow(cfg, U[..]);
    SmallWord(cfg, x);
    Inc(cfg, U, x);
    SmallStart(cfg, U[..], A, x, bigbits);
  }

  lemma SmallWord(cfg: Config, x: int)
    requires Spare(cfg) && cfg.bits >= 8 && 0 <= x <= 277
    ensures cfg.Word(0 + x) == x
  {
    PowTwoEight();
    PowMonotone(2, 8, cfg.bits);
    SpareRoom(cfg);
  }

  /** BIG_invmod2m: for odd a the result is the inverse of a modulo 2^BIGBITS. */
  method InvMod2M(cfg: Config, wide: bool, a: array<int>, bigbits: nat)
    requires MuladdReady(cfg, wide) && Spare(cfg) && cfg.bits >= 8 && Operand(cfg, a)
    requires bigbits >= 1 && cfg.nlen == 1 + (bigbits - 1) / cfg.bits && bigbits % cfg.bits != 0
    requires Value(a[..], cfg.Radix()) % 2 == 1
    modifies a
    ensures Normal(a[..], cfg.Radix()) && Pow(2, bigbits) > 0
    ensures 0 <= Value(a[..], cfg.Radix()) < Pow(2, bigbits)
    ensures Cong(Value(a[..], cfg.Radix()) * old(Value(a[..], cfg.Radix())), 1, Pow(2, bigbits))
  {
    ghost var A := Value(a[..], cfg.Radix());
    MaskInRange(cfg, bigbits);
    var U, t1, b, c := new int[cfg.nlen], new int[cfg.nlen], new int[cfg.nlen], new int[cfg.nlen];
    FirstByte(cfg, a, U, bigbits);
    assert Lifting(cfg, wide, a, U, t1, b, c);
    hide Pow, Val, Value, Cong, Normal, NormLimbs, LazyLimbs, Config.Radix;
    var i := 8;
    while i < bigbits
      invariant i >= 8 && Lifting(cfg, wide, a, U, t1, b, c)
      invariant Normal(a[..], cfg.Radix()) && Value(a[..], cfg.Radix()) == A
      invariant Inverse2(cfg, A, U[..], i, bigbits)
      decreases bigbits - i
      modifies U, t1, b, c
    {
      NextLift(cfg, wide, a, U, t1, b, c, i, bigbits);
      i := 2 * i;
    }
    FinalMask(cfg, A, a, U, i, bigbits);
  }

  /** copy(a, U); norm(a); mod2m(a, BIGBITS) */
  method FinalMask(cfg: Config, ghost A: int, a: array<int>, U: array<int>, ghost i: nat, bigbits: nat)
    requires cfg.Valid() && a.Length == U.Length == cfg.nlen && a != U && Inverse2(cfg, A, U[..], i, bigbits)
    requires bigbits <= i && bigbits < cfg.bits * cfg.nlen && Whole(cfg, bigbits) < cfg.nlen
    modifies a
    ensures Normal(a[..], cfg.Radix()) && Pow(2, bigbits) > 0
    ensures 0 <= Value(a[..], cfg.Radix()) < Pow(2, bigbits)
    ensures Cong(Value(a[..], cfg.Radix()) * A, 1, Pow(2, bigbits))
  {
    InverseReached(cfg, A, U[..], i, bigbits);
    NormPower(cfg, U[..], bigbits);
    Copy(a, U, 0);
    assert a[..] == U[..];
    Norm(cfg, a);
    LowDigitsLazy(cfg, a[..]);
    Mod2M(cfg, a, bigbits);
  }

  lemma LowDigitsLazy(cfg: Config, s: seq<int>)
    requires cfg.Valid() && |s| >= 1 && LowNormal(s, cfg.Radix())
    ensures LazyLimbs(cfg, s, |s| - 1)
  {
    MulMono(1, cfg.Nexcess(), cfg.Radix() - 1);
  }

  lemma OddByte(A: int)
    requires A % 2 == 1
    ensures (A % 256) % 2 == 1
  {
    DivDiv(A, 2, 128);
    DivModAddMultiple(A % 2, (A / 2) % 128, 2);
  }

  lemma InverseReached(cfg: Config, A: int, U: seq<int>, i: nat, bigbits: nat)
    requires cfg.Valid() && |U| == cfg.nlen && Inverse2(cfg, A, U, i, bigbits) && bigbits <= i
      && bigbits < cfg.bits * cfg.nlen
    ensures Pow(2, bigbits) > 0
    ensures Cong((Value(NormLimbs(cfg, U), cfg.Radix()) % Pow(2, bigbits)) * A, 1, Pow(2, bigbits))
  {
    var v, m, e := Value(NormLimbs(cfg, U), cfg.Radix()), Pow(2, bigbits), Reached(cfg, i);
    PowPositive(2, bigbits);
    PowPositive(2, e - bigbits);
    PowAdd(2, bigbits, e - bigbits);
    CongWeaken(v * A, 1, m, Pow(2, e - bigbits));
    CongOfMod(v, m);
    CongScale(v % m, v, A, m);
    CongTrans((v % m) * A, v * A, 1, m);
  }
}
