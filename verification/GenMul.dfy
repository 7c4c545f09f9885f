/** inline_mul2: the text that replaces the Karatsuba-style multiplication loops. */
module GenMul {
  import opened Arith
  import opened Limbs
  import opened Columns
  import opened StraightLine
  import opened StraightWords
  import opened Words
  import opened BigMul

  ghost predicate Sized(st: State, n: nat) {
    st.R >= 1 && |st.a| == |st.b| == |st.dd| == n && |st.c| == 2 * n
  }

  /** e is co + s + the difference products lo..hi of column k. */
  ghost predicate SumsDifferences(e: Expr, n: nat, k: nat, lo: nat, hi: nat)
    requires hi < n && k < lo + n && hi <= k
  {
    forall st: State | Sized(st, n) ::
      Safe(e, st) && Eval(e, st) == st.co + st.s + Cross(st.a, st.b, lo, hi + 1, k)
  }

  function DifferenceTerm(i: nat, j: nat): Expr {
    Times(Minus(At(A, i), At(A, j)), Minus(At(B, j), At(B, i)))
  }

  lemma EvalDifference(st: State, i: nat, j: nat)
    requires st.R >= 1 && i < |st.a| && j < |st.a| && i < |st.b| && j < |st.b|
    ensures Safe(DifferenceTerm(i, j), st)
    ensures Eval(DifferenceTerm(i, j), st) == (st.a[i] - st.a[j]) * (st.b[j] - st.b[i])
  {
    var x, y := Minus(At(A, i), At(A, j)), Minus(At(B, j), At(B, i));
    assert Safe(At(A, i), st) && Safe(At(A, j), st) && Safe(At(B, j), st) && Safe(At(B, i), st);
    assert Safe(x, st) && Safe(y, st);
    assert Eval(x, st) == st.a[i] - st.a[j];
    assert Eval(y, st) == st.b[j] - st.b[i];
  }

  lemma EvalStart(st: State)
    requires st.R >= 1
    ensures Safe(Plus(Var(CO), Var(S)), st) && Eval(Plus(Var(CO), Var(S)), st) == st.co + st.s
  {
    assert Safe(Var(CO), st) && Safe(Var(S), st);
    assert Eval(Var(CO), st) == st.co && Eval(Var(S), st) == st.s;
  }

  /** co+s, then for i in range(hi, k/2, -1): +(dchunk)(a[i]-a[k-i])*(b[k-i]-b[i]) */
  method DifferenceSum(n: nat, k: nat, hi: nat) returns (e: Expr)
    requires hi < n && k / 2 <= hi <= k && k < k / 2 + 1 + n
    ensures SumsDifferences(e, n, k, k / 2 + 1, hi)
    ensures hi - k / 2 <= n / 2 ==> SumFits(e, n)
  {
    e := Plus(Var(CO), Var(S));
    StartFits(n, k, hi);
    forall st: State | Sized(st, n)
      ensures Safe(e, st) && Eval(e, st) == st.co + st.s + Cross(st.a, st.b, hi + 1, hi + 1, k)
    {
      EvalStart(st);
    }
    var i := hi;
    while i > k / 2
      invariant k / 2 <= i <= hi
      invariant SumsDifferences(e, n, k, i + 1, hi)
      invariant hi - k / 2 <= n / 2 ==> SumFits(e, n)
    {
      ghost var e0 := e;
      e := Plus(e, DifferenceTerm(i, k - i));
      forall st: State | Sized(st, n)
        ensures Safe(e, st) && Eval(e, st) == st.co + st.s + Cross(st.a, st.b, i, hi + 1, k)
      {
        assert Safe(e0, st);
        EvalDifference(st, i, k - i);
        CrossFirst(st.a, st.b, i, hi + 1, k);
      }
      if hi - k / 2 <= n / 2 {
        NextFits(e0, n, k, i, hi);
      }
      i := i - 1;
    }
  }

  // ---------------------------------------------------------------- the sums, on words

  /** Inputs that BIG_mul accepts, in a configuration whose dchunk is large enough. */
  ghost predicate Small(cfg: Config, st: State, n: nat) {
    && cfg.Valid() && Roomy(cfg) && n == cfg.nlen && Sized(st, n) && st.R == cfg.Radix()
    && Normal(st.a, st.R) && Normal(st.b, st.R)
  }

  /** The carry and the running sum of diagonals are no larger than between columns. */
  ghost predicate Quiet(cfg: Config, st: State, n: nat) {
    && Small(cfg, st, n)
    && 0 <= st.co <= (n + 1) * (st.R - 1) && 0 <= st.s <= n * ((st.R - 1) * (st.R - 1))
  }

  /** No partial sum leaves the dchunk. */
  ghost predicate SumFits(e: Expr, n: nat) {
    !Narrow(e) && forall cfg: Config, st: State | Quiet(cfg, st, n) :: Safe(e, st) && Good(cfg, e, st, Eval(e, st))
  }

  /** The total that a partial sum can reach, with at most n/2 differences. */
  lemma PartialFits(cfg: Config, st: State, n: nat, k: nat, lo: nat, hi: nat)
    requires Quiet(cfg, st, n) && hi < n && k < lo + n && hi <= k && lo <= hi + 1 && hi + 1 - lo <= n / 2
    ensures -cfg.DHalf() <= st.co + st.s + Cross(st.a, st.b, lo, hi + 1, k) < cfg.DHalf()
  {
    hide Cross, Roomy, Config.DHalf, Config.Radix;
    CrossBounds(st.a, st.b, lo, hi + 1, k, st.R);
    DifferencesFit(cfg, st.co, st.s, hi + 1 - lo);
  }

  lemma DifferenceFits(cfg: Config, st: State, n: nat, i: nat, j: nat)
    requires Small(cfg, st, n) && i < n && j < n
    ensures Good(cfg, DifferenceTerm(i, j), st, (st.a[i] - st.a[j]) * (st.b[j] - st.b[i]))
  {
    hide Roomy, Config.DHalf, Config.Half, Config.Radix, Good;
    ProductFits(cfg, st.a[i] - st.a[j], st.b[j] - st.b[i]);
    GoodDifferences(cfg, st, A, i, j, B);
  }

  lemma StartFits(n: nat, k: nat, hi: nat)
    requires hi < n && hi <= k && k < hi + 1 + n
    ensures SumFits(Plus(Var(CO), Var(S)), n)
  {
    forall cfg: Config, st: State | Quiet(cfg, st, n)
      ensures Safe(Plus(Var(CO), Var(S)), st) && Good(cfg, Plus(Var(CO), Var(S)), st, Eval(Plus(Var(CO), Var(S)), st))
    {
      EvalStart(st);
      hide Eval, Safe, Good, Roomy, Config.DHalf, Config.Radix;
      PartialFits(cfg, st, n, k, hi + 1, hi);
      assert Cross(st.a, st.b, hi + 1, hi + 1, k) == 0;
      GoodVar(cfg, st);
      GoodPlus(cfg, st, Var(CO), st.co, Var(S), st.s);
    }
  }

  lemma NextFits(e0: Expr, n: nat, k: nat, i: nat, hi: nat)
    requires hi < n && k / 2 < i <= hi <= k && k < k / 2 + 1 + n && hi - k / 2 <= n / 2
    requires SumFits(e0, n) && SumsDifferences(Plus(e0, DifferenceTerm(i, k - i)), n, k, i, hi)
    ensures SumFits(Plus(e0, DifferenceTerm(i, k - i)), n)
  {
    var e := Plus(e0, DifferenceTerm(i, k - i));
    forall cfg: Config, st: State | Quiet(cfg, st, n)
      ensures Safe(e, st) && Good(cfg, e, st, Eval(e, st))
    {
      hide Cross, Roomy, Config.DHalf, Config.Half, Config.Radix, Good;
      assert Sized(st, n);
      DifferenceFits(cfg, st, n, i, k - i);
      PartialFits(cfg, st, n, k, i, hi);
      assert Safe(e, st) && Eval(e, st) == st.co + st.s + Cross(st.a, st.b, i, hi + 1, k);
      EvalDifference(st, i, k - i);
      assert Eval(e, st) == Eval(e0, st) + Eval(DifferenceTerm(i, k - i), st);
      GoodPlus(cfg, st, e0, Eval(e0, st), DifferenceTerm(i, k - i), Eval(DifferenceTerm(i, k - i), st));
    }
  }

  // ---------------------------------------------------------------- the program, column by column

  /** After the first k columns, started from st0. */
  ghost predicate MulState(st0: State, st: State, n: nat, k: nat, lo: nat, hi: nat)
    requires n >= 1 && hi <= n && k <= 2 * n - 1
  {
    && Sized(st0, n) && Sized(st, n) && st.a == st0.a && st.b == st0.b
    && (forall j :: 0 <= j < n ==> st.dd[j] == st.a[j] * st.b[j])
    && st.R == st0.R && st.s == Diag(st.a, st.b, lo, hi)
    && st.co == Carry(ColumnSums(st.a, st.b), k, st.R)
    && st.c[..k] == Reduced(ColumnSums(st.a, st.b), k, st.R)
  }

  /** prog takes every starting state through the first k columns. */
  ghost predicate Multiplies(prog: seq<Stmt>, n: nat, k: nat, lo: nat, hi: nat)
    requires n >= 1 && hi <= n && k <= 2 * n - 1
  {
    forall st0: State | Sized(st0, n) ::
      var r := Run(prog, st0); r.Done? && MulState(st0, r.st, n, k, lo, hi)
  }

  /** One emitted line: s changes by d[j], then t, c[k] and co. */
  function ColumnLine(sum: Expr, diagonal: Expr, k: nat): (line: seq<Stmt>)
    ensures |line| == 4
  {
    [Set(S, diagonal)] + ([Set(T, sum)] + ([Store(C, k, Mask(Var(T)))] + [Set(CO, Shift(Var(T)))]))
  }

  lemma LineEffect(st: State, sum: Expr, diagonal: Expr, k: nat, s': int, t': int)
    requires st.R >= 1 && k < |st.c|
    requires Safe(diagonal, st) && Eval(diagonal, st) == s'
    requires Safe(sum, st.(s := s')) && Eval(sum, st.(s := s')) == t'
    ensures Run(ColumnLine(sum, diagonal, k), st)
      == Done(st.(s := s', t := t', c := st.c[k := t' % st.R], co := t' / st.R))
  {
    hide Run, Exec;
    var st1 := st.(s := s');
    var st2 := st1.(t := t');
    var st3 := st2.(c := st2.c[k := t' % st.R]);
    var tail := [Set(CO, Shift(Var(T)))];
    ExecSet(st, diagonal, s');
    ExecSet(st1, sum, t');
    EvalT(st2);
    ExecStore(st2, k, Mask(Var(T)), t' % st.R);
    EvalT(st3);
    ExecSet(st3, Shift(Var(T)), t' / st.R);
    RunCons(Set(S, diagonal), [Set(T, sum)] + ([Store(C, k, Mask(Var(T)))] + tail), st);
    RunCons(Set(T, sum), [Store(C, k, Mask(Var(T)))] + tail, st1);
    RunCons(Store(C, k, Mask(Var(T))), tail, st2);
    RunOne(Set(CO, Shift(Var(T))), st3);
  }

  /** The effect of a column's line on one state. */
  lemma ColumnEffect(st0: State, st: State, sum: Expr, diagonal: Expr, n: nat, k: nat, lo0: nat, hi0: nat, lo: nat,
      hi: nat)
    requires n >= 1 && k < 2 * n - 1 && hi0 <= n && lo <= hi < n && lo + hi == k && (lo == 0 || hi == n - 1)
    requires MulState(st0, st, n, k, lo0, hi0)
    requires SumsDifferences(sum, n, k, k / 2 + 1, hi)
    requires Safe(diagonal, st) && Eval(diagonal, st) == Diag(st.a, st.b, lo, hi + 1)
    ensures var r := Run(ColumnLine(sum, diagonal, k), st); r.Done? && MulState(st0, r.st, n, k + 1, lo, hi + 1)
  {
    hide Run, Carry, Reduced, Diag, Cross, Conv, Eval, Safe;
    var s' := Diag(st.a, st.b, lo, hi + 1);
    var t' := st.co + s' + Cross(st.a, st.b, k / 2 + 1, hi + 1, k);
    assert Sized(st.(s := s'), n);
    assert Safe(sum, st.(s := s')) && Eval(sum, st.(s := s')) == t';
    LineEffect(st, sum, diagonal, k, s', t');
    KaratsubaColumn(st.a, st.b, lo, hi, k);
    ReducedStep(ColumnSums(st.a, st.b), k, t', st.R);
    var r := Run(ColumnLine(sum, diagonal, k), st).st;
    assert r.c[..k + 1] == st.c[..k] + [t' % st.R];
  }

  /** diagonal takes the running sum of diagonal products from the window lo0..hi0 to lo..hi. */
  ghost predicate MovesWindow(diagonal: Expr, n: nat, lo0: nat, hi0: nat, lo: nat, hi: nat)
    requires hi0 <= n && hi <= n
  {
    forall st: State | Sized(st, n) && (forall j :: 0 <= j < n ==> st.dd[j] == st.a[j] * st.b[j])
        && st.s == Diag(st.a, st.b, lo0, hi0) ::
      Safe(diagonal, st) && Eval(diagonal, st) == Diag(st.a, st.b, lo, hi)
  }

  /** Emitting the line of column k extends the invariant by one column. */
  lemma ColumnEmitted(prog: seq<Stmt>, sum: Expr, diagonal: Expr, n: nat, k: nat, lo0: nat, hi0: nat, lo: nat, hi: nat)
    requires n >= 1 && k < 2 * n - 1 && hi0 <= n && lo <= hi < n && lo + hi == k && (lo == 0 || hi == n - 1)
    requires Multiplies(prog, n, k, lo0, hi0)
    requires SumsDifferences(sum, n, k, k / 2 + 1, hi)
    requires MovesWindow(diagonal, n, lo0, hi0, lo, hi + 1)
    ensures Multiplies(prog + ColumnLine(sum, diagonal, k), n, k + 1, lo, hi + 1)
  {
    hide Run, Carry, Reduced, Diag, Cross, Conv, Eval, Safe, SumsDifferences, ColumnLine;
    var line := ColumnLine(sum, diagonal, k);
    forall st0: State | Sized(st0, n)
      ensures var r := Run(prog + line, st0); r.Done? && MulState(st0, r.st, n, k + 1, lo, hi + 1)
    {
      RunAppend(prog, line, st0);
      ColumnEffect(st0, Run(prog, st0).st, sum, diagonal, n, k, lo0, hi0, lo, hi);
    }
  }

  // ---------------------------------------------------------------- the program, on words

  /** prog runs on words as it does on integers, from every small starting state. */
  ghost predicate ProgramFits(prog: seq<Stmt>, n: nat) {
    forall cfg: Config, st0: State | Small(cfg, st0, n) :: Fits(cfg, prog, st0)
  }

  lemma LineFits(cfg: Config, st: State, sum: Expr, diagonal: Expr, k: nat, s': int, t': int)
    requires cfg.Valid() && st.R == cfg.Radix() && k < |st.c|
    requires Good(cfg, diagonal, st, s') && Good(cfg, sum, st.(s := s'), t')
    ensures Fits(cfg, ColumnLine(sum, diagonal, k), st)
  {
    var st1 := st.(s := s');
    var st2 := st1.(t := t');
    var st3 := st2.(c := st2.c[k := t' % st.R]);
    StoreDigitFits(cfg, st2, C, k);
    ShiftFits(cfg, st3, CO);
    EvalT(st2);
    EvalT(st3);
    hide Exec, Fits, StmtFits, Eval, Safe, InRange, Masked, Config.Radix, Config.Half;
    SetFits(cfg, st, S, diagonal, s');
    SetFits(cfg, st1, T, sum, t');
    ExecSet(st, diagonal, s');
    ExecSet(st1, sum, t');
    ExecStore(st2, k, Mask(Var(T)), t' % st.R);
    ExecSet(st3, Shift(Var(T)), t' / st.R);
    FitsOne(cfg, Set(CO, Shift(Var(T))), st3);
    FitsCons(cfg, Store(C, k, Mask(Var(T))), [Set(CO, Shift(Var(T)))], st2);
    FitsCons(cfg, Set(T, sum), [Store(C, k, Mask(Var(T)))] + [Set(CO, Shift(Var(T)))], st1);
    FitsCons(cfg, Set(S, diagonal), [Set(T, sum)] + ([Store(C, k, Mask(Var(T)))] + [Set(CO, Shift(Var(T)))]), st);
  }

  /** Between columns the carry and the sum of diagonals are in bounds, whatever the window. */
  lemma BetweenColumns(cfg: Config, st0: State, st: State, n: nat, k: nat, lo0: nat, hi0: nat, lo: nat, hi: nat)
    requires n >= 1 && hi0 <= n && k < 2 * n && k <= 2 * n - 1 && lo <= hi <= n
    requires MulState(st0, st, n, k, lo0, hi0) && Small(cfg, st0, n)
    ensures var s' := Diag(st.a, st.b, lo, hi); Quiet(cfg, st.(s := s'), n) && -cfg.DHalf() <= s' < cfg.DHalf()
  {
    hide Carry, Reduced, Conv, Roomy, Config.DHalf, Config.Radix;
    DiagFits(cfg, st.a, st.b, lo, hi);
    ColumnCarry(cfg, st.a, st.b, k);
    MulDist(n, 1, st.R - 1);
    assert Small(cfg, st, n);
  }

  lemma ColumnFitsWords(cfg: Config, st0: State, st: State, sum: Expr, diagonal: Expr, n: nat, k: nat, lo0: nat,
      hi0: nat, lo: nat, hi: nat)
    requires n >= 1 && k < 2 * n - 1 && hi0 <= n && lo <= hi < n && lo + hi == k && (lo == 0 || hi == n - 1)
    requires MulState(st0, st, n, k, lo0, hi0) && Small(cfg, st0, n)
    requires SumsDifferences(sum, n, k, k / 2 + 1, hi) && SumFits(sum, n)
    requires Safe(diagonal, st) && Eval(diagonal, st) == Diag(st.a, st.b, lo, hi + 1) && WindowExpr(diagonal)
    ensures Fits(cfg, ColumnLine(sum, diagonal, k), st)
  {
    hide Carry, Reduced, Diag, Cross, Conv, Roomy, Config.DHalf, Config.Radix, ColumnLine, Fits;
    var s' := Diag(st.a, st.b, lo, hi + 1);
    BetweenColumns(cfg, st0, st, n, k, lo0, hi0, lo, hi + 1);
    WindowFits(cfg, st, diagonal);
    hide Eval, Safe, Good;
    assert Sized(st.(s := s'), n);
    assert Good(cfg, sum, st.(s := s'), st.co + s' + Cross(st.a, st.b, k / 2 + 1, hi + 1, k));
    LineFits(cfg, st, sum, diagonal, k, s', st.co + s' + Cross(st.a, st.b, k / 2 + 1, hi + 1, k));
  }

  /** d[0], s+d[k] or s-d[k] */
  predicate WindowExpr(e: Expr) {
    match e
    case At(_, _) => true
    case Plus(Var(_), At(_, _)) => true
    case Minus(Var(_), At(_, _)) => true
    case _ => false
  }

  lemma WindowFits(cfg: Config, st: State, e: Expr)
    requires cfg.Valid() && st.R == cfg.Radix() && Safe(e, st) && WindowExpr(e)
      && -cfg.DHalf() <= Eval(e, st) < cfg.DHalf()
    ensures Good(cfg, e, st, Eval(e, st))
  {
    hide Config.DHalf, Config.Radix;
    if !e.At? {
      assert !Narrow(e.l);
      assert Safe(e.l, st) && Safe(e.r, st) && Masked(e.l) && Masked(e.r) && InRange(cfg, e.l, st)
        && InRange(cfg, e.r, st);
    }
  }

  lemma ColumnWordsEmitted(prog: seq<Stmt>, sum: Expr, diagonal: Expr, n: nat, k: nat, lo0: nat, hi0: nat, lo: nat,
      hi: nat)
    requires n >= 1 && k < 2 * n - 1 && hi0 <= n && lo <= hi < n && lo + hi == k && (lo == 0 || hi == n - 1)
    requires Multiplies(prog, n, k, lo0, hi0) && ProgramFits(prog, n)
    requires SumsDifferences(sum, n, k, k / 2 + 1, hi) && SumFits(sum, n)
    requires MovesWindow(diagonal, n, lo0, hi0, lo, hi + 1) && WindowExpr(diagonal)
    ensures ProgramFits(prog + ColumnLine(sum, diagonal, k), n)
  {
    var line := ColumnLine(sum, diagonal, k);
    forall cfg: Config, st0: State | Small(cfg, st0, n)
      ensures Fits(cfg, prog + line, st0)
    {
      hide Run, Carry, Reduced, Diag, Cross, Conv, Eval, Safe, SumsDifferences, SumFits, ColumnLine, Fits, Roomy;
      var st := Run(prog, st0).st;
      assert MulState(st0, st, n, k, lo0, hi0);
      ColumnFitsWords(cfg, st0, st, sum, diagonal, n, k, lo0, hi0, lo, hi);
      FitsAppend(cfg, prog, line, st0);
    }
  }

  // ---------------------------------------------------------------- the generator

  /** prog stores the first i diagonal products in d and touches nothing else. */
  ghost predicate StoresDiagonals(prog: seq<Stmt>, n: nat, i: nat) {
    forall st0: State | Sized(st0, n) ::
      var r := Run(prog, st0);
      && r.Done? && |r.st.dd| == n && r.st == st0.(dd := r.st.dd)
      && forall j :: 0 <= j < i && j < n ==> r.st.dd[j] == st0.a[j] * st0.b[j]
  }

  lemma DiagonalEffect(st: State, n: nat, i: nat)
    requires Sized(st, n) && i < n
    ensures Run([Store(DD, i, Times(At(A, i), At(B, i)))], st) == Done(st.(dd := st.dd[i := st.a[i] * st.b[i]]))
  {
    hide Run, Exec;
    var e := Times(At(A, i), At(B, i));
    assert Safe(At(A, i), st) && Safe(At(B, i), st);
    assert Eval(At(A, i), st) == st.a[i] && Eval(At(B, i), st) == st.b[i];
    ExecStore(st, i, e, st.a[i] * st.b[i]);
    RunOne(Store(DD, i, e), st);
  }

  lemma NothingFits(n: nat)
    ensures ProgramFits([], n)
  {
  }

  lemma DiagonalFits(prog: seq<Stmt>, n: nat, i: nat)
    requires i < n && StoresDiagonals(prog, n, i) && ProgramFits(prog, n)
    ensures ProgramFits(prog + [Store(DD, i, Times(At(A, i), At(B, i)))], n)
  {
    var c := Store(DD, i, Times(At(A, i), At(B, i)));
    forall cfg: Config, st0: State | Small(cfg, st0, n)
      ensures Fits(cfg, prog + [c], st0)
    {
      hide Run, Exec, Fits;
      var st := Run(prog, st0).st;
      DiagonalStmtFits(cfg, st, n, i);
      FitsAppend(cfg, prog, [c], st0);
    }
  }

  lemma DiagonalStmtFits(cfg: Config, st: State, n: nat, i: nat)
    requires Small(cfg, st, n) && i < n
    ensures Fits(cfg, [Store(DD, i, Times(At(A, i), At(B, i)))], st)
  {
    hide Fits, StmtFits, Roomy, Config.DHalf, Config.Radix, Eval, Safe, Good;
    GoodAt(cfg, st, A, i);
    GoodAt(cfg, st, B, i);
    ProductFits(cfg, st.a[i], st.b[i]);
    GoodTimes(cfg, st, At(A, i), st.a[i], At(B, i), st.b[i]);
    StoreFits(cfg, st, DD, i, Times(At(A, i), At(B, i)), st.a[i] * st.b[i]);
    DiagonalExec(st, n, i);
    hide Exec;
    FitsOne(cfg, Store(DD, i, Times(At(A, i), At(B, i))), st);
  }

  lemma DiagonalExec(st: State, n: nat, i: nat)
    requires Sized(st, n) && i < n
    ensures Exec(Store(DD, i, Times(At(A, i), At(B, i))), st).Done?
  {
    assert Safe(At(A, i), st) && Safe(At(B, i), st);
  }

  method DiagonalLines(n: nat) returns (prog: seq<Stmt>)
    ensures StoresDiagonals(prog, n, n) && ProgramFits(prog, n)
  {
    hide Run, Exec;
    prog := [];
    NothingFits(n);
    forall st: State | Sized(st, n)
      ensures Run([], st) == Done(st)
    {
      RunNothing(st);
    }
    var i := 0;
    while i < n
      invariant 0 <= i <= n
      invariant StoresDiagonals(prog, n, i) && ProgramFits(prog, n)
    {
      DiagonalFits(prog, n, i);
      var line := [Store(DD, i, Times(At(A, i), At(B, i)))];
      forall st0: State | Sized(st0, n)
        ensures var r := Run(prog + line, st0);
                && r.Done? && |r.st.dd| == n && r.st == st0.(dd := r.st.dd)
                && forall j :: 0 <= j < i + 1 && j < n ==> r.st.dd[j] == st0.a[j] * st0.b[j]
      {
        RunAppend(prog, line, st0);
        DiagonalEffect(Run(prog, st0).st, n, i);
      }
      prog := prog + line;
      i := i + 1;
    }
  }

  /** s=d[0]; t = s; c[0]=(chunk)t&BMASK; co=t>>BASEBITS; */
  lemma FirstEffect(st: State, n: nat)
    requires n >= 1 && Sized(st, n) && forall j :: 0 <= j < n ==> st.dd[j] == st.a[j] * st.b[j]
    ensures var r := Run(ColumnLine(Var(S), At(DD, 0), 0), st); r.Done? && MulState(st, r.st, n, 1, 0, 1)
  {
    var x := st.dd[0];
    assert x == st.a[0] * st.b[0];
    FirstRun(st, x);
    FirstColumn(st.a, st.b, st.R);
    hide Run, ColumnLine, Eval, Safe, Carry, Reduced, Diag, Conv, ColumnSums;
    var c := st.c[0 := x % st.R];
    assert c[..1] == [x % st.R];
  }

  lemma FirstRun(st: State, x: int)
    requires st.R >= 1 && |st.dd| > 0 && |st.c| > 0 && st.dd[0] == x
    ensures Run(ColumnLine(Var(S), At(DD, 0), 0), st)
      == Done(st.(s := x, t := x, c := st.c[0 := x % st.R], co := x / st.R))
  {
    hide Run, ColumnLine, Eval, Safe;
    EvalVar(st.(s := x));
    EvalAt(st, DD, 0);
    LineEffect(st, Var(S), At(DD, 0), 0, x, x);
  }

  lemma FirstColumn(a: seq<int>, b: seq<int>, R: int)
    requires R >= 1 && |a| == |b| >= 1
    ensures var cols, x := ColumnSums(a, b), a[0] * b[0];
            Diag(a, b, 0, 1) == x && Carry(cols, 1, R) == x / R && Reduced(cols, 1, R) == [x % R]
  {
    var cols := ColumnSums(a, b);
    assert Diag(a, b, 0, 0) == 0;
    KaratsubaColumn(a, b, 0, 0, 0);
    assert Carry(cols, 0, R) == 0 && Reduced(cols, 0, R) == [];
    ReducedStep(cols, 0, a[0] * b[0], R);
  }

  lemma FirstLine(prog: seq<Stmt>, n: nat)
    requires n >= 1 && StoresDiagonals(prog, n, n)
    ensures Multiplies(prog + ColumnLine(Var(S), At(DD, 0), 0), n, 1, 0, 1)
  {
    hide Run, Carry, Reduced, Diag, Conv, Eval, Safe, ColumnLine;
    var line := ColumnLine(Var(S), At(DD, 0), 0);
    forall st0: State | Sized(st0, n)
      ensures var r := Run(prog + line, st0); r.Done? && MulState(st0, r.st, n, 1, 0, 1)
    {
      RunAppend(prog, line, st0);
      FirstEffect(Run(prog, st0).st, n);
    }
  }

  lemma FirstLineFits(prog: seq<Stmt>, n: nat)
    requires n >= 1 && StoresDiagonals(prog, n, n) && ProgramFits(prog, n)
    ensures ProgramFits(prog + ColumnLine(Var(S), At(DD, 0), 0), n)
  {
    var line := ColumnLine(Var(S), At(DD, 0), 0);
    forall cfg: Config, st0: State | Small(cfg, st0, n)
      ensures Fits(cfg, prog + line, st0)
    {
      hide Run, Fits, ColumnLine, Roomy;
      var st := Run(prog, st0).st;
      var s' := st.dd[0];
      var st1 := st.(s := s');
      GoodAt(cfg, st, DD, 0);
      GoodVar(cfg, st1);
      LineFits(cfg, st, Var(S), At(DD, 0), 0, s', s');
      FitsAppend(cfg, prog, line, st0);
    }
  }

  lemma LastLineFits(prog: seq<Stmt>, n: nat)
    requires n >= 1 && Multiplies(prog, n, 2 * n - 1, n - 1, n) && ProgramFits(prog, n)
    ensures ProgramFits(prog + [Store(C, 2 * n - 1, Var(CO))], n)
  {
    var c := Store(C, 2 * n - 1, Var(CO));
    forall cfg: Config, st0: State | Small(cfg, st0, n)
      ensures Fits(cfg, prog + [c], st0)
    {
      hide Run, Fits, Carry, Reduced, Diag, Conv, Roomy, MulState, Small;
      LastStmtFits(cfg, st0, Run(prog, st0).st, n);
      SmallRadix(cfg, st0, n);
      FitsAppend(cfg, prog, [c], st0);
    }
  }

  lemma SmallRadix(cfg: Config, st: State, n: nat)
    requires Small(cfg, st, n)
    ensures cfg.Valid() && st.R == cfg.Radix()
  {
  }

  lemma LastStmtFits(cfg: Config, st0: State, st: State, n: nat)
    requires n >= 1 && Small(cfg, st0, n) && MulState(st0, st, n, 2 * n - 1, n - 1, n)
    ensures cfg.Valid() && Fits(cfg, [Store(C, 2 * n - 1, Var(CO))], st)
  {
    hide Carry, Reduced, Diag, Roomy, Config.Radix, Config.Half;
    LastCarry(st.a, st.b, st.R);
    RadixIsChunk(cfg);
    GoodVar(cfg, st);
    StoreFits(cfg, st, C, 2 * n - 1, Var(CO), st.co);
    ExecStore(st, 2 * n - 1, Var(CO), st.co);
    hide Exec, Eval, Safe, Good, Fits;
    FitsOne(cfg, Store(C, 2 * n - 1, Var(CO)), st);
  }

  lemma OnWords(prog: seq<Stmt>, n: nat)
    requires ProgramFits(prog, n)
    ensures forall cfg: Config, st: State | Small(cfg, st, n) :: WordRun(cfg, prog, st) == Run(prog, st)
  {
    forall cfg: Config, st: State | Small(cfg, st, n)
      ensures WordRun(cfg, prog, st) == Run(prog, st)
    {
      hide Run, Fits, WordRun;
      WordRunExact(cfg, prog, st);
    }
  }

  lemma AddDiagonal(n: nat, k: nat)
    requires k < n
    ensures MovesWindow(Plus(Var(S), At(DD, k)), n, 0, k, 0, k + 1)
  {
    forall st: State | Sized(st, n) && (forall j :: 0 <= j < n ==> st.dd[j] == st.a[j] * st.b[j])
        && st.s == Diag(st.a, st.b, 0, k)
      ensures Safe(Plus(Var(S), At(DD, k)), st) && Eval(Plus(Var(S), At(DD, k)), st) == Diag(st.a, st.b, 0, k + 1)
    {
      assert Safe(Var(S), st) && Safe(At(DD, k), st);
      assert Eval(Var(S), st) == st.s && Eval(At(DD, k), st) == st.dd[k];
    }
  }

  lemma DropDiagonal(n: nat, lo: nat)
    requires lo < n
    ensures MovesWindow(Minus(Var(S), At(DD, lo)), n, lo, n, lo + 1, n)
  {
    forall st: State | Sized(st, n) && (forall j :: 0 <= j < n ==> st.dd[j] == st.a[j] * st.b[j])
        && st.s == Diag(st.a, st.b, lo, n)
      ensures Safe(Minus(Var(S), At(DD, lo)), st) && Eval(Minus(Var(S), At(DD, lo)), st) == Diag(st.a, st.b, lo + 1, n)
    {
      assert Safe(Var(S), st) && Safe(At(DD, lo), st);
      assert Eval(Var(S), st) == st.s && Eval(At(DD, lo), st) == st.dd[lo];
      DiagFirst(st.a, st.b, lo, n);
    }
  }

  /** c[2*NLEN-1]=(chunk)co; */
  lemma LastEffect(st0: State, st: State, n: nat)
    requires n >= 1 && MulState(st0, st, n, 2 * n - 1, n - 1, n)
    ensures Run([Store(C, 2 * n - 1, Var(CO))], st) == Done(st.(c := Product(st0.a, st0.b, st0.R)))
  {
    assert Safe(Var(CO), st) && Eval(Var(CO), st) == st.co;
    RunOne(Store(C, 2 * n - 1, Var(CO)), st);
    hide Run, Carry, Reduced, Diag, Conv, Eval, Safe;
    assert st.c[2 * n - 1 := st.co] == st.c[..2 * n - 1] + [st.co];
  }

  /** The emitted program computes the normalised product, limb for limb, for every NLEN, and never
      indexes outside an array. Run on chunks and dchunks it does the same, as nothing overflows. */
  method InlineMul2(n: nat) returns (prog: seq<Stmt>)
    requires n >= 2
    ensures forall st: State | Sized(st, n) ::
              var r := Run(prog, st);
              r.Done? && r.st.c == Product(st.a, st.b, st.R) && r.st.a == st.a && r.st.b == st.b
    ensures forall cfg: Config, st: State | Small(cfg, st, n) :: WordRun(cfg, prog, st) == Run(prog, st)
  {
    hide *;
    prog := DiagonalLines(n);
    FirstLine(prog, n);
    FirstLineFits(prog, n);
    prog := prog + ColumnLine(Var(S), At(DD, 0), 0);
    var k := 1;
    while k < n
      invariant 1 <= k <= n
      invariant Multiplies(prog, n, k, 0, k) && ProgramFits(prog, n)
    {
      var sum := DifferenceSum(n, k, k);
      AddDiagonal(n, k);
      WindowExprs(k);
      ColumnEmitted(prog, sum, Plus(Var(S), At(DD, k)), n, k, 0, k, 0, k);
      ColumnWordsEmitted(prog, sum, Plus(Var(S), At(DD, k)), n, k, 0, k, 0, k);
      prog := prog + ColumnLine(sum, Plus(Var(S), At(DD, k)), k);
      k := k + 1;
    }
    while k < 2 * n - 1
      invariant n <= k <= 2 * n - 1
      invariant Multiplies(prog, n, k, k - n, n) && ProgramFits(prog, n)
    {
      var sum := DifferenceSum(n, k, n - 1);
      DropDiagonal(n, k - n);
      WindowExprs(k - n);
      ColumnEmitted(prog, sum, Minus(Var(S), At(DD, k - n)), n, k, k - n, n, k - n + 1, n - 1);
      ColumnWordsEmitted(prog, sum, Minus(Var(S), At(DD, k - n)), n, k, k - n, n, k - n + 1, n - 1);
      prog := prog + ColumnLine(sum, Minus(Var(S), At(DD, k - n)), k);
      k := k + 1;
    }
    LastLine(prog, n);
    LastLineFits(prog, n);
    prog := prog + [Store(C, 2 * n - 1, Var(CO))];
    OnWords(prog, n);
  }

  lemma WindowExprs(k: nat)
    ensures WindowExpr(Plus(Var(S), At(DD, k))) && WindowExpr(Minus(Var(S), At(DD, k)))
  {
  }

  lemma LastLine(prog: seq<Stmt>, n: nat)
    requires n >= 1 && Multiplies(prog, n, 2 * n - 1, n - 1, n)
    ensures forall st: State | Sized(st, n) ::
              var r := Run(prog + [Store(C, 2 * n - 1, Var(CO))], st);
              r.Done? && r.st.c == Product(st.a, st.b, st.R) && r.st.a == st.a && r.st.b == st.b
  {
    hide Run, Carry, Reduced, Diag, Conv, Eval, Safe, Product;
    var line := [Store(C, 2 * n - 1, Var(CO))];
    forall st0: State | Sized(st0, n)
      ensures var r := Run(prog + line, st0);
              r.Done? && r.st.c == Product(st0.a, st0.b, st0.R) && r.st.a == st0.a && r.st.b == st0.b
    {
      RunAppend(prog, line, st0);
      LastEffect(st0, Run(prog, st0).st, n);
    }
  }
}
