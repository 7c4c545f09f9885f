/** The lazy-carry discipline: digits are added, subtracted and scaled without propagating carries,
    and two excess counters per number (the ones DEBUG_NORM keeps) say when to normalise. */
module LazyCarry {
  import opened Arith
  import opened Words
  import opened Limbs
  import opened BigNorm

  /** A BIG with its counters: each limb is a sum of at most mpv digits minus at most mnv digits. */
  datatype Reg = Reg(limbs: seq<int>, mpv: nat, mnv: nat)

  datatype Op =
    | AddOp(dst: nat, x: nat, y: nat)
    | SubOp(dst: nat, x: nat, y: nat)
    | IMulOp(dst: nat, x: nat, c: nat)
    | NormOp(x: nat)

  ghost predicate Shape(cfg: Config, m: seq<Reg>) {
    cfg.Valid() && forall i :: 0 <= i < |m| ==> |m[i].limbs| == cfg.nlen
  }

  predicate Names(op: Op, n: nat) {
    match op
    case AddOp(d, x, y) => d < n && x < n && y < n
    case SubOp(d, x, y) => d < n && x < n && y < n
    case IMulOp(d, x, c) => d < n && x < n && c > 0
    case NormOp(x) => x < n
  }

  /** One call on the machine, limbs truncated to chunks. */
  function Step(cfg: Config, m: seq<Reg>, op: Op): (m': seq<Reg>)
    requires Shape(cfg, m) && Names(op, |m|)
    ensures |m'| == |m| && Shape(cfg, m')
  {
    match op
    case AddOp(d, x, y) =>
      m[d := Reg(AddLimbs(cfg, m[x].limbs, m[y].limbs), m[x].mpv + m[y].mpv, m[x].mnv + m[y].mnv)]
    case SubOp(d, x, y) =>
      m[d := Reg(SubLimbs(cfg, m[x].limbs, m[y].limbs), m[x].mpv + m[y].mnv, m[x].mnv + m[y].mpv)]
    case IMulOp(d, x, c) =>
      m[d := Reg(MulLimbs(cfg, m[x].limbs, c), m[x].mpv * c, m[x].mnv * c)]
    case NormOp(x) =>
      m[x := Reg(NormLimbs(cfg, m[x].limbs), 1, 0)]
  }

  /** The same call on the integers the registers stand for. */
  function StepExact(v: seq<int>, op: Op): (v': seq<int>)
    requires Names(op, |v|)
    ensures |v'| == |v|
  {
    match op
    case AddOp(d, x, y) => v[d := v[x] + v[y]]
    case SubOp(d, x, y) => v[d := v[x] - v[y]]
    case IMulOp(d, x, c) => v[d := v[x] * c]
    case NormOp(x) => v
  }

  /** The discipline: no counter passes NEXCESS, and what is normalised is a NLEN-limb natural. */
  ghost predicate Allowed(cfg: Config, m: seq<Reg>, v: seq<int>, op: Op)
    requires Shape(cfg, m) && Names(op, |m|) && |v| == |m|
  {
    && (forall i :: 0 <= i < |m| ==>
          Step(cfg, m, op)[i].mpv <= cfg.Nexcess() && Step(cfg, m, op)[i].mnv <= cfg.Nexcess())
    && (op.NormOp? ==> 0 <= v[op.x] < Pow(cfg.Radix(), cfg.nlen))
  }

  /** Counters and limbs agree, counters are within NEXCESS, and the limbs stand for the value. */
  ghost predicate Tracked(cfg: Config, r: Reg, v: int)
    requires cfg.Valid()
  {
    && |r.limbs| == cfg.nlen
    && r.mpv <= cfg.Nexcess() && r.mnv <= cfg.Nexcess()
    && (forall j :: 0 <= j < cfg.nlen ==> -(r.mnv * (cfg.Radix() - 1)) <= r.limbs[j] <= r.mpv * (cfg.Radix() - 1))
    && Value(r.limbs, cfg.Radix()) == v
  }

  ghost predicate AllTracked(cfg: Config, m: seq<Reg>, v: seq<int>)
    requires cfg.Valid()
  {
    |m| == |v| && forall i :: 0 <= i < |m| ==> Tracked(cfg, m[i], v[i])
  }

  /** Tracked limbs are lazy, hence chunks. */
  lemma TrackedIsLazy(cfg: Config, r: Reg, v: int)
    requires cfg.Valid() && Tracked(cfg, r, v)
    ensures Lazy(cfg, r.limbs)
    ensures 0 < MaxLimb(cfg) < cfg.Half()
  {
    MulMono(r.mpv, cfg.Nexcess(), cfg.Radix() - 1);
    MulMono(r.mnv, cfg.Nexcess(), cfg.Radix() - 1);
    cfg.HalfIsExcess();
    MulDist(cfg.Radix(), 1, cfg.Nexcess());
    MulMono(1, cfg.Radix() - 1, cfg.Nexcess());
  }

  lemma TrackedAdd(cfg: Config, a: Reg, va: int, b: Reg, vb: int, r: Reg)
    requires cfg.Valid() && Tracked(cfg, a, va) && Tracked(cfg, b, vb)
    requires r == Reg(AddLimbs(cfg, a.limbs, b.limbs), a.mpv + b.mpv, a.mnv + b.mnv)
    requires r.mpv <= cfg.Nexcess() && r.mnv <= cfg.Nexcess()
    ensures Tracked(cfg, r, va + vb)
  {
    var w := cfg.Radix() - 1;
    TrackedIsLazy(cfg, a, va);
    MulDist(a.mpv, b.mpv, w);
    MulDist(a.mnv, b.mnv, w);
    MulMono(r.mpv, cfg.Nexcess(), w);
    MulMono(r.mnv, cfg.Nexcess(), w);
    forall i | 0 <= i < cfg.nlen
      ensures -(r.mnv * w) <= a.limbs[i] + b.limbs[i] <= r.mpv * w
      ensures -cfg.Half() <= a.limbs[i] + b.limbs[i] < cfg.Half()
    {
    }
    AddValue(cfg, a.limbs, b.limbs);
  }

  lemma TrackedSub(cfg: Config, a: Reg, va: int, b: Reg, vb: int, r: Reg)
    requires cfg.Valid() && Tracked(cfg, a, va) && Tracked(cfg, b, vb)
    requires r == Reg(SubLimbs(cfg, a.limbs, b.limbs), a.mpv + b.mnv, a.mnv + b.mpv)
    requires r.mpv <= cfg.Nexcess() && r.mnv <= cfg.Nexcess()
    ensures Tracked(cfg, r, va - vb)
  {
    var w := cfg.Radix() - 1;
    TrackedIsLazy(cfg, a, va);
    MulDist(a.mpv, b.mnv, w);
    MulDist(a.mnv, b.mpv, w);
    MulMono(r.mpv, cfg.Nexcess(), w);
    MulMono(r.mnv, cfg.Nexcess(), w);
    forall i | 0 <= i < cfg.nlen
      ensures -(r.mnv * w) <= a.limbs[i] - b.limbs[i] <= r.mpv * w
      ensures -cfg.Half() <= a.limbs[i] - b.limbs[i] < cfg.Half()
    {
    }
    SubValue(cfg, a.limbs, b.limbs);
  }

  lemma TrackedMul(cfg: Config, a: Reg, va: int, c: nat, r: Reg)
    requires cfg.Valid() && Tracked(cfg, a, va) && c > 0
    requires r == Reg(MulLimbs(cfg, a.limbs, c), a.mpv * c, a.mnv * c)
    requires r.mpv <= cfg.Nexcess() && r.mnv <= cfg.Nexcess()
    ensures Tracked(cfg, r, va * c)
  {
    var w := cfg.Radix() - 1;
    TrackedIsLazy(cfg, a, va);
    MulAssoc(a.mpv, c, w);
    MulAssoc(a.mpv, w, c);
    MulAssoc(a.mnv, c, w);
    MulAssoc(a.mnv, w, c);
    MulMono(r.mpv, cfg.Nexcess(), w);
    MulMono(r.mnv, cfg.Nexcess(), w);
    forall i | 0 <= i < cfg.nlen
      ensures -(r.mnv * w) <= a.limbs[i] * c <= r.mpv * w
      ensures -cfg.Half() <= a.limbs[i] * c < cfg.Half()
    {
      MulMono(a.limbs[i], a.mpv * w, c);
      MulMono(-(a.mnv * w), a.limbs[i], c);
      MulDist(0, a.mnv * w, c);
    }
    MulValue(cfg, a.limbs, c);
  }

  lemma TrackedNorm(cfg: Config, a: Reg, va: int)
    requires cfg.Valid() && Tracked(cfg, a, va) && 0 <= va < Pow(cfg.Radix(), cfg.nlen)
    ensures Tracked(cfg, Reg(NormLimbs(cfg, a.limbs), 1, 0), va)
  {
    TrackedIsLazy(cfg, a, va);
    NormValue(cfg, a.limbs);
    NormalFromValue(NormLimbs(cfg, a.limbs), cfg.Radix());
  }

  lemma StepTracked(cfg: Config, m: seq<Reg>, v: seq<int>, op: Op)
    requires Shape(cfg, m) && Names(op, |m|) && AllTracked(cfg, m, v) && Allowed(cfg, m, v, op)
    ensures AllTracked(cfg, Step(cfg, m, op), StepExact(v, op))
  {
    hide Tracked;
    match op
    case AddOp(d, x, y) => TrackedAdd(cfg, m[x], v[x], m[y], v[y], Step(cfg, m, op)[d]);
    case SubOp(d, x, y) => TrackedSub(cfg, m[x], v[x], m[y], v[y], Step(cfg, m, op)[d]);
    case IMulOp(d, x, c) => TrackedMul(cfg, m[x], v[x], c, Step(cfg, m, op)[d]);
    case NormOp(x) => TrackedNorm(cfg, m[x], v[x]);
  }

  // ---------------------------------------------------------------- whole runs

  function Run(cfg: Config, m: seq<Reg>, ops: seq<Op>): (m': seq<Reg>)
    requires Shape(cfg, m) && forall i :: 0 <= i < |ops| ==> Names(ops[i], |m|)
    ensures |m'| == |m| && Shape(cfg, m')
    decreases |ops|
  {
    if ops == [] then m else Run(cfg, Step(cfg, m, ops[0]), ops[1..])
  }

  function RunExact(v: seq<int>, ops: seq<Op>): (v': seq<int>)
    requires forall i :: 0 <= i < |ops| ==> Names(ops[i], |v|)
    ensures |v'| == |v|
    decreases |ops|
  {
    if ops == [] then v else RunExact(StepExact(v, ops[0]), ops[1..])
  }

  ghost predicate Disciplined(cfg: Config, m: seq<Reg>, v: seq<int>, ops: seq<Op>)
    requires Shape(cfg, m) && |v| == |m| && forall i :: 0 <= i < |ops| ==> Names(ops[i], |m|)
    decreases |ops|
  {
    ops != [] ==>
      && Allowed(cfg, m, v, ops[0])
      && Disciplined(cfg, Step(cfg, m, ops[0]), StepExact(v, ops[0]), ops[1..])
  }

  /** Over any disciplined run the chunk-level machine never overflows: every limb stays within its
      counters, and every register stands for the integer the exact computation gives. */
  lemma {:induction false} RunTracked(cfg: Config, m: seq<Reg>, v: seq<int>, ops: seq<Op>)
    requires Shape(cfg, m) && forall i :: 0 <= i < |ops| ==> Names(ops[i], |m|)
    requires AllTracked(cfg, m, v) && Disciplined(cfg, m, v, ops)
    ensures AllTracked(cfg, Run(cfg, m, ops), RunExact(v, ops))
    decreases |ops|
  {
    if ops != [] {
      StepTracked(cfg, m, v, ops[0]);
      RunTracked(cfg, Step(cfg, m, ops[0]), StepExact(v, ops[0]), ops[1..]);
    }
  }

  // ---------------------------------------------------------------- tightness

  /** NEXCESS is the exact limit.  With all limbs at the limit a limb plus its carry is the largest
      chunk; one unit more in a limb wraps around and normalisation loses the value. */
  lemma LimitIsTight(cfg: Config)
    requires cfg.Valid() && cfg.Nexcess() <= cfg.Radix()
    ensures MaxLimb(cfg) + Carry([MaxLimb(cfg)], 1, cfg.Radix()) == cfg.Half() - 1
    ensures Value(NormLimbs(cfg, [MaxLimb(cfg), MaxLimb(cfg) + 1]), cfg.Radix())
         != Value([MaxLimb(cfg), MaxLimb(cfg) + 1], cfg.Radix())
  {
    var x, R, e := MaxLimb(cfg), cfg.Radix(), cfg.Nexcess();
    cfg.HalfIsExcess();
    MulDist(R, 1, e);
    MulDist(e, 1, R);
    DivModUnique(x, R, e - 1, R - e);
    FirstCarry([x], R);
    var s := [x, x + 1];
    FirstCarry(s, R);
    NormParts(cfg, s, 1);
    assert s[1] + Carry(s, 1, R) == cfg.Half();
    WrapTop(cfg);
    assert Pow(R, 1) == R * Pow(R, 0);
    MulStrict(cfg.Word(cfg.Half()), cfg.Half(), R);
  }

  lemma WrapTop(cfg: Config)
    requires cfg.Valid()
    ensures cfg.Word(cfg.Half()) < cfg.Half()
  {
  }
}
