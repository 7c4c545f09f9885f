/** The straight-line language that the code generators emit, and what its programs mean. */
module StraightLine {

  datatype Scalar = T | S | CO | CC
  /** DD is the array of diagonal products, which the multiplication calls d and the reduction dd; D is the
      double number that the reduction reads. */
  datatype Vector = A | B | C | D | V | MD | DD

  datatype Expr =
    | Var(x: Scalar)
    | MC                                  // the Montgomery constant
    | Zero
    | At(arr: Vector, i: nat)
    | Plus(l: Expr, r: Expr)
    | Minus(l: Expr, r: Expr)
    | Times(l: Expr, r: Expr)
    | Mask(e: Expr)                       // (chunk)e & BMASK
    | Shift(e: Expr)                      // e >> BASEBITS

  datatype Stmt =
    | Set(x: Scalar, e: Expr)
    | Store(arr: Vector, i: nat, e: Expr)

  /** The radix and the variables of the enclosing function: t, s, co, c and the arrays. */
  datatype State = State(R: int, t: int, s: int, co: int, cc: int, mc: int,
                         a: seq<int>, b: seq<int>, c: seq<int>, d: seq<int>,
                         v: seq<int>, md: seq<int>, dd: seq<int>)

  function Vec(st: State, arr: Vector): seq<int> {
    match arr
    case A => st.a
    case B => st.b
    case C => st.c
    case D => st.d
    case V => st.v
    case MD => st.md
    case DD => st.dd
  }

  /** Evaluation; an index outside its array is a fault. */
  predicate Safe(e: Expr, st: State) {
    match e
    case Var(_) => true
    case MC => true
    case Zero => true
    case At(arr, i) => i < |Vec(st, arr)|
    case Plus(l, r) => Safe(l, st) && Safe(r, st)
    case Minus(l, r) => Safe(l, st) && Safe(r, st)
    case Times(l, r) => Safe(l, st) && Safe(r, st)
    case Mask(f) => Safe(f, st)
    case Shift(f) => Safe(f, st)
  }

  function Eval(e: Expr, st: State): int
    requires st.R >= 1 && Safe(e, st)
  {
    match e
    case Var(T) => st.t
    case Var(S) => st.s
    case Var(CO) => st.co
    case Var(CC) => st.cc
    case MC => st.mc
    case Zero => 0
    case At(arr, i) => Vec(st, arr)[i]
    case Plus(l, r) => Eval(l, st) + Eval(r, st)
    case Minus(l, r) => Eval(l, st) - Eval(r, st)
    case Times(l, r) => Eval(l, st) * Eval(r, st)
    case Mask(f) => Eval(f, st) % st.R
    case Shift(f) => Eval(f, st) / st.R
  }

  datatype Outcome = Fault | Done(st: State)

  function Exec(c: Stmt, st: State): (o: Outcome)
    requires st.R >= 1
    ensures o.Done? ==> o.st.R == st.R
  {
    match c
    case Set(x, e) =>
      if !Safe(e, st) then Fault else
      var w := Eval(e, st);
      (match x
       case T => Done(st.(t := w))
       case S => Done(st.(s := w))
       case CO => Done(st.(co := w))
       case CC => Done(st.(cc := w)))
    case Store(arr, i, e) =>
      if !Safe(e, st) || i >= |Vec(st, arr)| then Fault else
      var w := Eval(e, st);
      (match arr
       case A => Done(st.(a := st.a[i := w]))
       case B => Done(st.(b := st.b[i := w]))
       case C => Done(st.(c := st.c[i := w]))
       case D => Done(st.(d := st.d[i := w]))
       case V => Done(st.(v := st.v[i := w]))
       case MD => Done(st.(md := st.md[i := w]))
       case DD => Done(st.(dd := st.dd[i := w])))
  }

  function Run(prog: seq<Stmt>, st: State): (o: Outcome)
    requires st.R >= 1
    ensures o.Done? ==> o.st.R == st.R
    decreases |prog|
  {
    if prog == [] then Done(st)
    else
      match Exec(prog[0], st)
      case Fault => Fault
      case Done(st') => Run(prog[1..], st')
  }

  /** Running two pieces of text one after the other. */
  lemma {:induction false} RunAppend(p: seq<Stmt>, q: seq<Stmt>, st: State)
    requires st.R >= 1
    ensures Run(p + q, st) == match Run(p, st) case Fault => Fault case Done(st') => Run(q, st')
    decreases |p|
  {
    if p == [] {
      assert p + q == q;
    } else {
      assert (p + q)[1..] == p[1..] + q;
      match Exec(p[0], st)
      case Fault =>
      case Done(st') => RunAppend(p[1..], q, st');
    }
  }

  lemma RunOne(c: Stmt, st: State)
    requires st.R >= 1
    ensures Run([c], st) == Exec(c, st)
  {
  }

  lemma RunNothing(st: State)
    requires st.R >= 1
    ensures Run([], st) == Done(st)
  {
  }

  /** Running a statement and then the rest. */
  lemma RunCons(c: Stmt, rest: seq<Stmt>, st: State)
    requires st.R >= 1 && Exec(c, st).Done?
    ensures Run([c] + rest, st) == Run(rest, Exec(c, st).st)
  {
    RunAppend([c], rest, st);
    RunOne(c, st);
  }

  lemma ExecStore(st: State, i: nat, e: Expr, w: int)
    requires st.R >= 1 && Safe(e, st) && Eval(e, st) == w
    ensures i < |st.a| ==> Exec(Store(A, i, e), st) == Done(st.(a := st.a[i := w]))
    ensures i < |st.c| ==> Exec(Store(C, i, e), st) == Done(st.(c := st.c[i := w]))
    ensures i < |st.d| ==> Exec(Store(D, i, e), st) == Done(st.(d := st.d[i := w]))
    ensures i < |st.v| ==> Exec(Store(V, i, e), st) == Done(st.(v := st.v[i := w]))
    ensures i < |st.dd| ==> Exec(Store(DD, i, e), st) == Done(st.(dd := st.dd[i := w]))
  {
    hide Safe, Eval;
  }

  lemma ExecSet(st: State, e: Expr, w: int)
    requires st.R >= 1 && Safe(e, st) && Eval(e, st) == w
    ensures Exec(Set(T, e), st) == Done(st.(t := w))
    ensures Exec(Set(S, e), st) == Done(st.(s := w))
    ensures Exec(Set(CO, e), st) == Done(st.(co := w))
    ensures Exec(Set(CC, e), st) == Done(st.(cc := w))
  {
    hide Safe, Eval;
  }

  lemma EvalAt(st: State, arr: Vector, i: nat)
    requires st.R >= 1 && i < |Vec(st, arr)|
    ensures Safe(At(arr, i), st) && Eval(At(arr, i), st) == Vec(st, arr)[i]
  {
  }

  lemma EvalVar(st: State)
    requires st.R >= 1
    ensures Safe(Var(T), st) && Eval(Var(T), st) == st.t && Safe(Var(S), st) && Eval(Var(S), st) == st.s
    ensures Safe(Var(CO), st) && Eval(Var(CO), st) == st.co && Safe(Var(CC), st) && Eval(Var(CC), st) == st.cc
  {
  }

  /** The masked and the shifted accumulator. */
  lemma EvalT(st: State)
    requires st.R >= 1
    ensures Safe(Var(T), st) && Eval(Var(T), st) == st.t
    ensures Safe(Mask(Var(T)), st) && Eval(Mask(Var(T)), st) == st.t % st.R
    ensures Safe(Shift(Var(T)), st) && Eval(Shift(Var(T)), st) == st.t / st.R
  {
    assert Safe(Var(T), st) && Eval(Var(T), st) == st.t;
  }
}
