/** hash_to_field: uniform bytes cut into slices, each reduced modulo the field characteristic. The
    expander XMD_Expand is not part of this model; its output is an arbitrary byte string. */
module HashToField {
  import opened Arith
  import opened Words
  import opened Limbs
  import opened BigBits
  import opened BigDivide
  import opened BigModular
  import opened BigBytes
  import opened BigMul
  import opened FpResidue

  /** CEIL(nbq + security, 8) */
  function SliceLength(nbq: nat, security: nat): (L: nat)
    requires nbq >= 1
    ensures 8 * (L - 1) < nbq + security <= 8 * L
  {
    (nbq + security - 1) / 8 + 1
  }

  /** The slice, read as a number below 256^L, meets the bound of BIG_ctdmod with bd = 8L - nbq. */
  lemma SliceInRange(cfg: Config, q: int, nbq: nat, L: nat, v: int)
    requires cfg.Valid() && q > 0 && IsBits(q, nbq) && nbq <= 8 * L && 0 <= v < Pow(256, L)
    requires 8 * L <= cfg.bits * (2 * cfg.nlen)
    ensures FitsShifted(cfg, q, 8 * L - nbq, 2 * cfg.nlen)
    ensures v < 2 * (q * Pow(2, 8 * L - nbq))
  {
    var bd := 8 * L - nbq;
    PowBytes(L);
    assert nbq > 0;
    PowPositive(2, bd);
    PowAdd(2, nbq, bd);
    MulStrict(q, Pow(2, nbq), Pow(2, bd));
    PowMul(2, cfg.bits, 2 * cfg.nlen);
    PowMonotone(2, 8 * L, cfg.bits * (2 * cfg.nlen));
    assert Pow(2, nbq) == 2 * Pow(2, nbq - 1);
    MulMono(Pow(2, nbq - 1), q, Pow(2, bd));
    MulAssoc(2, Pow(2, nbq - 1), Pow(2, bd));
  }

  /** A modulus of more than one limb leaves room for the shift of BIG_dshl. */
  lemma LongModulus(cfg: Config, nbq: nat, L: nat)
    requires cfg.Valid() && 8 * L <= cfg.bits * (2 * cfg.nlen) && cfg.bits < nbq
    ensures 8 * L - nbq < cfg.bits * (2 * cfg.nlen - 1)
  {
    MulDist(2 * cfg.nlen, 1, cfg.bits);
    assert (2 * cfg.nlen) * cfg.bits == cfg.bits * (2 * cfg.nlen);
    assert (2 * cfg.nlen - 1) * cfg.bits == cfg.bits * (2 * cfg.nlen - 1);
  }

  /** One slice: copied to fd, read into the double number dx, and reduced. */
  method ReduceSlice(cfg: Config, q: array<int>, okm: array<int>, from: nat, fd: array<int>, dx: array<int>,
      w: array<int>, L: nat, nbq: nat)
    requires Spare(cfg) && cfg.bits > 8 && Modulus(cfg, q) && IsBits(Value(q[..], cfg.Radix()), nbq) && nbq <= 8 * L
    requires 8 * L - nbq < cfg.bits * (2 * cfg.nlen - 1)
    requires L <= fd.Length && 8 * L <= cfg.bits * (2 * cfg.nlen) && dx.Length == 2 * cfg.nlen && w.Length == cfg.nlen
    requires from + L <= okm.Length && Bytes(okm[..])
    requires fd != okm && fd != q && fd != dx && fd != w && dx != okm && dx != q && dx != w && w != okm && w != q
      && q != okm
    modifies fd, dx, w
    ensures Normal(w[..], cfg.Radix())
    ensures Value(w[..], cfg.Radix()) == BigEndian(okm[from..from + L]) % Value(q[..], cfg.Radix())
  {
    var j := 0;
    while j < L
      invariant 0 <= j <= L
      invariant forall l :: 0 <= l < j ==> fd[l] == okm[from + l]
      modifies fd
    {
      fd[j] := okm[from + j];
      j := j + 1;
    }
    assert fd[..L] == okm[from..from + L];
    BigEndianBounds(fd[..L]);
    SliceInRange(cfg, Value(q[..], cfg.Radix()), nbq, L, BigEndian(fd[..L]));
    hide Val, Pow, Config.Radix, BigEndian;
    DFromBytesLen(cfg, dx, fd, L);
    NormalIsLazy(cfg, dx[..]);
    NormalBounds(dx[..], cfg.Radix());
    CtDMod(cfg, w, dx, q, 8 * L - nbq);
  }

  /** Element i of the result stands for the big-endian integer of bytes [i*L, (i+1)*L) modulo q. */
  ghost predicate Elements(cfg: Config, u: seq<seq<int>>, okm: seq<int>, L: nat, q: int)
    requires cfg.Valid() && q > 0
  {
    forall i :: 0 <= i < |u| ==> IsElement(cfg, u[i], okm, i * L, L, q)
  }

  ghost predicate IsElement(cfg: Config, y: seq<int>, okm: seq<int>, from: int, L: nat, q: int)
    requires cfg.Valid() && q > 0
  {
    && |y| == cfg.nlen && Normal(y, cfg.Radix())
    && 0 <= from && from + L <= |okm|
    && StandsFor(Value(y, cfg.Radix()), BigEndian(okm[from..from + L]) % q, q, Pow(cfg.Radix(), cfg.nlen))
  }

  /** ctdmod(w, dx, q, 8L - nbq) of one slice; FP_nres(y, w) */
  method SliceElement(cfg: Config, q: array<int>, MC: int, r2: array<int>, okm: array<int>, from: nat, fd: array<int>,
      dx: array<int>, w: array<int>, L: nat, nbq: nat) returns (y: array<int>)
    requires Field(cfg, q, MC, r2) && cfg.bits > 8 && IsBits(Value(q[..], cfg.Radix()), nbq) && nbq <= 8 * L
    requires 8 * L - nbq < cfg.bits * (2 * cfg.nlen - 1)
    requires L <= fd.Length && 8 * L <= cfg.bits * (2 * cfg.nlen) && dx.Length == 2 * cfg.nlen && w.Length == cfg.nlen
    requires from + L <= okm.Length && Bytes(okm[..])
    requires fd != okm && fd != q && fd != dx && fd != w && dx != okm && dx != q && dx != w && w != okm && w != q
      && q != okm && r2 != fd && r2 != dx && r2 != w
    modifies fd, dx, w
    ensures fresh(y) && IsElement(cfg, y[..], okm[..], from, L, Value(q[..], cfg.Radix()))
  {
    ghost var Q := Value(q[..], cfg.Radix());
    assert Modulus(cfg, q);
    hide Val, Pow, Config.Radix, BigEndian, StandsFor, Constants, Roomy;
    ReduceSlice(cfg, q, okm, from, fd, dx, w, L, nbq);
    ResidueBelow(BigEndian(okm[from..from + L]), Q);
    y := new int[cfg.nlen];
    var _ := Nres(cfg, y, w, q, MC, r2);
    assert okm[..][from..from + L] == okm[from..from + L];
  }

  lemma ResidueBelow(x: int, q: int)
    requires q > 0
    ensures 0 <= x % q < q
  {
  }

  /** hash_to_field: the elements are the limbs of their Montgomery residues. */
  method Slices(cfg: Config, q: array<int>, MC: int, r2: array<int>, okm: array<int>, security: nat, ctr: nat)
      returns (u: seq<seq<int>>, L: nat)
    requires Field(cfg, q, MC, r2) && cfg.bits > 8 && Bytes(okm[..]) && q != okm
    requires forall nb: nat :: IsBits(Value(q[..], cfg.Radix()), nb) && nb >= 1 ==>
               var l := SliceLength(nb, security);
               && l <= 128 && l * ctr <= okm.Length && 8 * l <= cfg.bits * (2 * cfg.nlen)
               && 8 * l - nb < cfg.bits * (2 * cfg.nlen - 1)
    ensures exists nb: nat :: IsBits(Value(q[..], cfg.Radix()), nb) && nb >= 1 && L == SliceLength(nb, security)
    ensures |u| == ctr && Elements(cfg, u, okm[..], L, Value(q[..], cfg.Radix()))
  {
    NormalIsLazy(cfg, q[..]);
    NormalBounds(q[..], cfg.Radix());
    ghost var Q := Value(q[..], cfg.Radix());
    var nbq := NBits(cfg, q);
    PositiveBits(Q, nbq);
    L := SliceLength(nbq, security);
    var fd, dx, w := new int[128], new int[2 * cfg.nlen], new int[cfg.nlen];
    hide Val, Pow, Config.Radix, IsElement, Constants, Roomy;
    u := [];
    var i := 0;
    while i < ctr
      invariant 0 <= i <= ctr && |u| == i
      invariant Elements(cfg, u, okm[..], L, Q)
      modifies fd, dx, w
    {
      SliceWithin(i, ctr, L, okm.Length);
      var y := SliceElement(cfg, q, MC, r2, okm, i * L, fd, dx, w, L, nbq);
      u := u + [y[..]];
      i := i + 1;
    }
  }

  lemma PositiveBits(q: int, nbq: nat)
    requires q > 0 && IsBits(q, nbq)
    ensures nbq >= 1
  {
    assert Pow(2, 0) == 1;
  }

  lemma SliceWithin(i: nat, ctr: nat, L: nat, n: nat)
    requires i < ctr && L * ctr <= n
    ensures 0 <= i * L && i * L + L <= n
  {
    MulMono(0, i, L);
    MulMono(i + 1, ctr, L);
    MulDist(i, 1, L);
  }
}
