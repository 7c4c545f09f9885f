/** The machine arithmetic of the emitted text: sums and differences of chunks are chunks, other sums and
    products are dchunks, a masked expression is a chunk first, and so is what goes into an array of
    chunks. When no intermediate value leaves its
    type, a run on words is a run on integers. */
module StraightWords {
  import opened Arith
  import opened Words
  import opened StraightLine
  import opened BigMul

  /** (chunk)t*MC is a product of chunks, of which only the masked part is used. */
  predicate IsQuotient(e: Expr) {
    e.Times? && e.r.MC?
  }

  /** The diagonal products are dchunks; every other array holds chunks. */
  predicate Wide(arr: Vector) {
    arr == DD
  }

  /** A chunk: an element of an array of chunks, or a sum or difference of such. */
  predicate Narrow(e: Expr) {
    match e
    case At(arr, _) => !Wide(arr)
    case Plus(l, r) => Narrow(l) && Narrow(r)
    case Minus(l, r) => Narrow(l) && Narrow(r)
    case MC => true
    case Mask(_) => true
    case _ => false
  }

  function Cut(cfg: Config, narrow: bool, w: int): int
    requires cfg.Valid()
  {
    if narrow then cfg.Word(w) else cfg.Dword(w)
  }

  predicate Holds(cfg: Config, narrow: bool, w: int)
    requires cfg.Valid()
  {
    if narrow then -cfg.Half() <= w < cfg.Half() else -cfg.DHalf() <= w < cfg.DHalf()
  }

  function WordEval(cfg: Config, e: Expr, st: State): int
    requires cfg.Valid() && Safe(e, st)
  {
    match e
    case Var(T) => st.t
    case Var(S) => st.s
    case Var(CO) => st.co
    case Var(CC) => st.cc
    case MC => st.mc
    case Zero => 0
    case At(arr, i) => Vec(st, arr)[i]
    case Plus(l, r) => Cut(cfg, Narrow(e), WordEval(cfg, l, st) + WordEval(cfg, r, st))
    case Minus(l, r) => Cut(cfg, Narrow(e), WordEval(cfg, l, st) - WordEval(cfg, r, st))
    case Times(l, r) => if IsQuotient(e) then cfg.Word(cfg.Word(WordEval(cfg, l, st)) * st.mc)
                        else cfg.Dword(WordEval(cfg, l, st) * WordEval(cfg, r, st))
    case Mask(f) => cfg.Word(WordEval(cfg, f, st)) % cfg.Radix()
    case Shift(f) => WordEval(cfg, f, st) / cfg.Radix()
  }

  /** No sum or product in e leaves its type; the masked quotient product may. */
  ghost predicate InRange(cfg: Config, e: Expr, st: State)
    requires cfg.Valid() && st.R >= 1 && Safe(e, st)
  {
    match e
    case Plus(l, r) => InRange(cfg, l, st) && InRange(cfg, r, st) && Holds(cfg, Narrow(e), Eval(e, st))
    case Minus(l, r) => InRange(cfg, l, st) && InRange(cfg, r, st) && Holds(cfg, Narrow(e), Eval(e, st))
    case Times(l, r) => InRange(cfg, l, st) && InRange(cfg, r, st) && -cfg.DHalf() <= Eval(e, st) < cfg.DHalf()
    case Mask(f) => assert Safe(f, st); if IsQuotient(f) then InRange(cfg, f.l, st) else InRange(cfg, f, st)
    case Shift(f) => InRange(cfg, f, st)
    case Var(_) => true
    case MC => true
    case Zero => true
    case At(_, _) => true
  }

  /** The quotient product occurs under a mask only. */
  predicate Masked(e: Expr) {
    match e
    case Plus(l, r) => Masked(l) && Masked(r)
    case Minus(l, r) => Masked(l) && Masked(r)
    case Times(l, r) => Masked(l) && Masked(r) && !IsQuotient(e)
    case Mask(f) => if IsQuotient(f) then Masked(f.l) else Masked(f)
    case Shift(f) => Masked(f)
    case _ => true
  }

  lemma {:induction false} WordEvalExact(cfg: Config, e: Expr, st: State)
    requires cfg.Valid() && st.R == cfg.Radix() && Safe(e, st) && Masked(e) && InRange(cfg, e, st)
    ensures WordEval(cfg, e, st) == Eval(e, st)
  {
    hide Wrap, Config.Radix;
    match e
    case Plus(l, r) =>
      WordEvalExact(cfg, l, st);
      WordEvalExact(cfg, r, st);
    case Minus(l, r) =>
      WordEvalExact(cfg, l, st);
      WordEvalExact(cfg, r, st);
    case Times(l, r) =>
      WordEvalExact(cfg, l, st);
      WordEvalExact(cfg, r, st);
    case Mask(f) =>
      if IsQuotient(f) {
        WordEvalExact(cfg, f.l, st);
        QuotientMask(cfg, Eval(f.l, st), st.mc);
        assert Safe(f, st) && Eval(f, st) == Eval(f.l, st) * st.mc;
      } else {
        WordEvalExact(cfg, f, st);
        cfg.WordMask(Eval(f, st));
      }
    case Shift(f) =>
      WordEvalExact(cfg, f, st);
    case _ =>
  }

  lemma QuotientMask(cfg: Config, t: int, mc: int)
    requires cfg.Valid()
    ensures cfg.Word(cfg.Word(cfg.Word(t) * mc)) % cfg.Radix() == (t * mc) % cfg.Radix()
  {
    var R := cfg.Radix();
    cfg.WordMask(t);
    CongScale(cfg.Word(t), t, mc, R);
    CongMod(cfg.Word(t) * mc, t * mc, R);
    cfg.WordMask(cfg.Word(t) * mc);
    cfg.WordMask(cfg.Word(cfg.Word(t) * mc));
  }

  // ---------------------------------------------------------------- values in range

  /** e has value w, and nothing on the way leaves its type. */
  ghost predicate Good(cfg: Config, e: Expr, st: State, w: int)
    requires cfg.Valid()
  {
    st.R == cfg.Radix() && Safe(e, st) && Eval(e, st) == w && Masked(e) && InRange(cfg, e, st)
  }

  lemma GoodVar(cfg: Config, st: State)
    requires cfg.Valid() && st.R == cfg.Radix()
    ensures Good(cfg, Var(T), st, st.t) && Good(cfg, Var(S), st, st.s)
    ensures Good(cfg, Var(CO), st, st.co) && Good(cfg, Var(CC), st, st.cc)
  {
  }

  lemma GoodAt(cfg: Config, st: State, arr: Vector, i: nat)
    requires cfg.Valid() && st.R == cfg.Radix() && i < |Vec(st, arr)|
    ensures Good(cfg, At(arr, i), st, Vec(st, arr)[i])
  {
  }

  lemma GoodPlus(cfg: Config, st: State, l: Expr, x: int, r: Expr, y: int)
    requires cfg.Valid() && Good(cfg, l, st, x) && Good(cfg, r, st, y) && !(Narrow(l) && Narrow(r))
    requires -cfg.DHalf() <= x + y < cfg.DHalf()
    ensures Good(cfg, Plus(l, r), st, x + y)
  {
    hide Config.DHalf, Config.Half, Config.Radix;
  }

  /** A sum of two chunks is a chunk. */
  lemma GoodChunkPlus(cfg: Config, st: State, l: Expr, x: int, r: Expr, y: int)
    requires cfg.Valid() && Good(cfg, l, st, x) && Good(cfg, r, st, y) && Narrow(l) && Narrow(r)
    requires -cfg.Half() <= x + y < cfg.Half()
    ensures Good(cfg, Plus(l, r), st, x + y)
  {
    hide Config.DHalf, Config.Half, Config.Radix;
  }

  lemma GoodMinus(cfg: Config, st: State, l: Expr, x: int, r: Expr, y: int)
    requires cfg.Valid() && Good(cfg, l, st, x) && Good(cfg, r, st, y)
    requires Holds(cfg, Narrow(Minus(l, r)), x - y)
    ensures Good(cfg, Minus(l, r), st, x - y)
  {
    hide Config.DHalf, Config.Half, Config.Radix, Holds;
  }

  lemma GoodTimes(cfg: Config, st: State, l: Expr, x: int, r: Expr, y: int)
    requires cfg.Valid() && Good(cfg, l, st, x) && Good(cfg, r, st, y) && !r.MC?
    requires -cfg.DHalf() <= x * y < cfg.DHalf()
    ensures Good(cfg, Times(l, r), st, x * y)
  {
    hide Config.DHalf, Config.Half, Config.Radix;
  }

  /** (dchunk)(x[i]-x[j])*(y[j]-y[i]) for digits */
  lemma GoodDifferences(cfg: Config, st: State, x: Vector, i: nat, j: nat, y: Vector)
    requires cfg.Valid() && st.R == cfg.Radix() && !Wide(x) && !Wide(y)
    requires i < |Vec(st, x)| && j < |Vec(st, x)| && i < |Vec(st, y)| && j < |Vec(st, y)|
    requires var u := Vec(st, x)[i] - Vec(st, x)[j]; var w := Vec(st, y)[j] - Vec(st, y)[i];
             -cfg.Half() <= u < cfg.Half() && -cfg.Half() <= w < cfg.Half() && -cfg.DHalf() <= u * w < cfg.DHalf()
    ensures Good(cfg, Times(Minus(At(x, i), At(x, j)), Minus(At(y, j), At(y, i))), st,
                 (Vec(st, x)[i] - Vec(st, x)[j]) * (Vec(st, y)[j] - Vec(st, y)[i]))
  {
    hide Config.DHalf, Config.Half, Config.Radix, Good, Eval, Safe, InRange, Masked;
    GoodAt(cfg, st, x, i);
    GoodAt(cfg, st, x, j);
    GoodAt(cfg, st, y, i);
    GoodAt(cfg, st, y, j);
    var u, w := Vec(st, x)[i] - Vec(st, x)[j], Vec(st, y)[j] - Vec(st, y)[i];
    GoodMinus(cfg, st, At(x, i), Vec(st, x)[i], At(x, j), Vec(st, x)[j]);
    GoodMinus(cfg, st, At(y, j), Vec(st, y)[j], At(y, i), Vec(st, y)[i]);
    GoodTimes(cfg, st, Minus(At(x, i), At(x, j)), u, Minus(At(y, j), At(y, i)), w);
  }

  // ---------------------------------------------------------------- runs

  function Assigned(c: Stmt, w: int, st: State): Outcome {
    match c
    case Set(T, _) => Done(st.(t := w))
    case Set(S, _) => Done(st.(s := w))
    case Set(CO, _) => Done(st.(co := w))
    case Set(CC, _) => Done(st.(cc := w))
    case Store(arr, i, _) =>
      if i >= |Vec(st, arr)| then Fault else
      match arr
      case A => Done(st.(a := st.a[i := w]))
      case B => Done(st.(b := st.b[i := w]))
      case C => Done(st.(c := st.c[i := w]))
      case D => Done(st.(d := st.d[i := w]))
      case V => Done(st.(v := st.v[i := w]))
      case MD => Done(st.(md := st.md[i := w]))
      case DD => Done(st.(dd := st.dd[i := w]))
  }

  function WordExec(cfg: Config, c: Stmt, st: State): (o: Outcome)
    requires cfg.Valid()
    ensures o.Done? ==> o.st.R == st.R
  {
    if !Safe(c.e, st) then Fault
    else Assigned(c, if c.Store? && !Wide(c.arr) then cfg.Word(WordEval(cfg, c.e, st)) else WordEval(cfg, c.e, st), st)
  }

  function WordRun(cfg: Config, prog: seq<Stmt>, st: State): (o: Outcome)
    requires cfg.Valid()
    decreases |prog|
  {
    if prog == [] then Done(st)
    else
      match WordExec(cfg, prog[0], st)
      case Fault => Fault
      case Done(st') => WordRun(cfg, prog[1..], st')
  }

  /** Statement c, executed in st, computes nothing that leaves its type. */
  ghost predicate StmtFits(cfg: Config, c: Stmt, st: State)
    requires cfg.Valid()
  {
    && st.R == cfg.Radix() && Safe(c.e, st) && Masked(c.e) && InRange(cfg, c.e, st)
    && (c.Store? && !Wide(c.arr) ==> -cfg.Half() <= Eval(c.e, st) < cfg.Half())
  }

  /** And so for every statement of a run. */
  ghost predicate Fits(cfg: Config, prog: seq<Stmt>, st: State)
    requires cfg.Valid()
    decreases |prog|
  {
    prog != [] ==>
      && StmtFits(cfg, prog[0], st) && Exec(prog[0], st).Done?
      && Fits(cfg, prog[1..], Exec(prog[0], st).st)
  }

  lemma ExecIsAssigned(c: Stmt, st: State)
    requires st.R >= 1 && Safe(c.e, st)
    ensures Exec(c, st) == Assigned(c, Eval(c.e, st), st)
  {
    hide Safe, Eval;
  }

  /** The run on words is the run on integers. */
  lemma {:induction false} WordRunExact(cfg: Config, prog: seq<Stmt>, st: State)
    requires cfg.Valid() && st.R == cfg.Radix() && Fits(cfg, prog, st)
    ensures WordRun(cfg, prog, st) == Run(prog, st)
    decreases |prog|
  {
    if prog != [] {
      var c := prog[0];
      hide Config.Radix, Wrap;
      WordEvalExact(cfg, c.e, st);
      ExecIsAssigned(c, st);
      hide WordEval, Eval, Safe, Assigned, Exec, InRange, Masked;
      WordRunExact(cfg, prog[1..], Exec(c, st).st);
    }
  }

  lemma {:induction false} FitsAppend(cfg: Config, p: seq<Stmt>, q: seq<Stmt>, st: State)
    requires cfg.Valid() && st.R == cfg.Radix() && Fits(cfg, p, st) && Run(p, st).Done? && Fits(cfg, q, Run(p, st).st)
    ensures Fits(cfg, p + q, st)
    decreases |p|
  {
    if p == [] {
      assert p + q == q;
    } else {
      assert (p + q)[0] == p[0] && (p + q)[1..] == p[1..] + q;
      hide StmtFits, Exec;
      FitsAppend(cfg, p[1..], q, Exec(p[0], st).st);
    }
  }

  lemma FitsOne(cfg: Config, c: Stmt, st: State)
    requires cfg.Valid() && StmtFits(cfg, c, st) && Exec(c, st).Done?
    ensures Fits(cfg, [c], st)
  {
    hide StmtFits, Exec;
    assert [c][1..] == [];
  }

  lemma FitsCons(cfg: Config, c: Stmt, rest: seq<Stmt>, st: State)
    requires cfg.Valid() && StmtFits(cfg, c, st) && Exec(c, st).Done? && Fits(cfg, rest, Exec(c, st).st)
    ensures Fits(cfg, [c] + rest, st)
  {
    hide StmtFits, Exec;
    assert ([c] + rest)[1..] == rest;
  }

  // ---------------------------------------------------------------- common statements

  lemma SetFits(cfg: Config, st: State, x: Scalar, e: Expr, w: int)
    requires cfg.Valid() && Good(cfg, e, st, w)
    ensures StmtFits(cfg, Set(x, e), st)
  {
    hide Eval, Safe, InRange, Masked, Config.Radix;
  }

  lemma StoreFits(cfg: Config, st: State, arr: Vector, i: nat, e: Expr, w: int)
    requires cfg.Valid() && Good(cfg, e, st, w) && (Wide(arr) || -cfg.Half() <= w < cfg.Half())
    ensures StmtFits(cfg, Store(arr, i, e), st)
  {
    hide Eval, Safe, InRange, Masked, Config.Radix, Config.Half;
  }

  /** A product of digits or of differences of digits. */
  lemma ProductFits(cfg: Config, x: int, y: int)
    requires cfg.Valid() && Roomy(cfg) && -(cfg.Radix() - 1) <= x <= cfg.Radix() - 1
      && -(cfg.Radix() - 1) <= y <= cfg.Radix() - 1
    ensures -cfg.Half() <= x < cfg.Half() && -cfg.Half() <= y < cfg.Half() && -cfg.DHalf() <= x * y < cfg.DHalf()
  {
    RadixIsChunk(cfg);
    var r := cfg.Radix() - 1;
    hide Roomy, Config.DHalf, Config.Half, Config.Radix;
    MulBound(x, y, r);
    MulMono(1, cfg.nlen + 1, r);
    MulBound(r, r, r);
    AccFits(cfg, x * y, 1, 1);
  }

  /** c[k]=(chunk)t&BMASK */
  lemma StoreDigitFits(cfg: Config, st: State, arr: Vector, k: nat)
    requires cfg.Valid() && st.R == cfg.Radix()
    ensures StmtFits(cfg, Store(arr, k, Mask(Var(T))), st)
  {
    EvalT(st);
    RadixIsChunk(cfg);
    assert Masked(Var(T)) && InRange(cfg, Var(T), st);
    hide Config.Radix, Config.Half;
  }

  /** co=t>>BASEBITS */
  lemma ShiftFits(cfg: Config, st: State, x: Scalar)
    requires cfg.Valid() && st.R == cfg.Radix()
    ensures StmtFits(cfg, Set(x, Shift(Var(T))), st)
  {
    EvalT(st);
    assert Masked(Var(T)) && InRange(cfg, Var(T), st);
    hide Config.Radix;
  }
}
