/** inline_sqr: the text that replaces the squaring loops. */
module GenSqr {
  import opened Arith
  import opened Limbs
  import opened Columns
  import opened StraightLine
  import opened StraightWords
  import opened Words
  import opened BigMul
  import BigSqr

  ghost predicate Sized(st: State, n: nat) {
    st.R >= 1 && |st.a| == n && |st.c| == 2 * n
  }

  /** The square a[k/2]*a[k/2] of an even column. */
  function Middle(a: seq<int>, k: nat): int
    requires k / 2 < |a|
  {
    if k % 2 == 0 then a[k / 2] * a[k / 2] else 0
  }

  function Product2(arr: Vector, i: nat, j: nat): Expr {
    Times(At(arr, i), At(arr, j))
  }

  lemma EvalProduct(st: State, arr: Vector, i: nat, j: nat)
    requires st.R >= 1 && i < |Vec(st, arr)| && j < |Vec(st, arr)|
    ensures Safe(Product2(arr, i, j), st) && Eval(Product2(arr, i, j), st) == Vec(st, arr)[i] * Vec(st, arr)[j]
  {
    assert Safe(At(arr, i), st) && Safe(At(arr, j), st);
    assert Eval(At(arr, i), st) == Vec(st, arr)[i] && Eval(At(arr, j), st) == Vec(st, arr)[j];
  }

  /** e is the sum of the products of rows lo..hi of column k. */
  ghost predicate SumsProducts(e: Expr, n: nat, k: nat, lo: nat, hi: nat) {
    forall st: State | Sized(st, n) :: Safe(e, st) && Eval(e, st) == Conv(st.a, st.a, lo, hi + 1, k)
  }

  /** for i in range(hi, k/2, -1): +(dchunk)a[i]*a[k-i] (the leading plus is unary) */
  method ProductSum(n: nat, k: nat, hi: nat) returns (e: Expr)
    requires hi < n && k / 2 <= hi <= k && k < k / 2 + 1 + n
    ensures SumsProducts(e, n, k, k / 2 + 1, hi)
    ensures hi - k / 2 <= n / 2 ==> SumFits(e, n)
  {
    e := Zero;
    ZeroFits(n);
    var i := hi;
    while i > k / 2
      invariant k / 2 <= i <= hi
      invariant SumsProducts(e, n, k, i + 1, hi)
      invariant hi - k / 2 <= n / 2 ==> SumFits(e, n)
    {
      ghost var e0 := e;
      e := Plus(e, Product2(A, i, k - i));
      forall st: State | Sized(st, n)
        ensures Safe(e, st) && Eval(e, st) == Conv(st.a, st.a, i, hi + 1, k)
      {
        assert Safe(e0, st);
        EvalProduct(st, A, i, k - i);
        ConvFirst(st.a, st.a, i, hi + 1, k);
      }
      if hi - k / 2 <= n / 2 {
        NextFits(e0, n, k, i, hi);
      }
      i := i - 1;
    }
  }

  // ---------------------------------------------------------------- the sums, on words

  /** An input that BIG_sqr accepts, in a configuration whose dchunk is large enough. */
  ghost predicate Small(cfg: Config, st: State, n: nat) {
    cfg.Valid() && Roomy(cfg) && n == cfg.nlen && Sized(st, n) && st.R == cfg.Radix() && Normal(st.a, st.R)
  }

  /** No partial sum leaves the dchunk. */
  ghost predicate SumFits(e: Expr, n: nat) {
    !Narrow(e) && forall cfg: Config, st: State | Small(cfg, st, n) :: Safe(e, st) && Good(cfg, e, st, Eval(e, st))
  }

  lemma ZeroFits(n: nat)
    ensures SumFits(Zero, n)
  {
  }

  lemma SquareFitsWords(cfg: Config, st: State, n: nat, i: nat, j: nat)
    requires Small(cfg, st, n) && i < n && j < n
    ensures Good(cfg, Product2(A, i, j), st, st.a[i] * st.a[j])
    ensures 0 <= st.a[i] * st.a[j] <= (st.R - 1) * (st.R - 1)
  {
    hide Roomy, Config.DHalf, Config.Half, Config.Radix, Good;
    ProductFits(cfg, st.a[i], st.a[j]);
    MulBound(st.a[i], st.a[j], st.R - 1);
    GoodAt(cfg, st, A, i);
    GoodAt(cfg, st, A, j);
    GoodTimes(cfg, st, At(A, i), st.a[i], At(A, j), st.a[j]);
  }

  /** At most n/2 products, and more generally n + n/2 of them with a carry. */
  lemma PartialFits(cfg: Config, st: State, n: nat, k: nat, lo: nat, hi: nat)
    requires Small(cfg, st, n) && lo <= hi + 1 && hi + 1 - lo <= n / 2
    ensures 0 <= Conv(st.a, st.a, lo, hi + 1, k) <= (n / 2) * ((st.R - 1) * (st.R - 1)) < cfg.DHalf()
  {
    var M := (st.R - 1) * (st.R - 1);
    hide Conv, Roomy, Config.DHalf, Config.Radix;
    ConvBounds(st.a, st.a, lo, hi + 1, k, st.R);
    MulBound(st.R - 1, st.R - 1, st.R - 1);
    MulMono(hi + 1 - lo, n / 2, M);
    MulMono(0, n + 1, st.R - 1);
    MulMono(0, n / 2, M);
    AccFits(cfg, (n / 2) * M, n / 2, 0);
  }

  lemma NextFits(e0: Expr, n: nat, k: nat, i: nat, hi: nat)
    requires hi < n && k / 2 < i <= hi <= k && k < k / 2 + 1 + n && hi - k / 2 <= n / 2
    requires SumFits(e0, n) && SumsProducts(Plus(e0, Product2(A, i, k - i)), n, k, i, hi)
    ensures SumFits(Plus(e0, Product2(A, i, k - i)), n)
  {
    var e := Plus(e0, Product2(A, i, k - i));
    forall cfg: Config, st: State | Small(cfg, st, n)
      ensures Safe(e, st) && Good(cfg, e, st, Eval(e, st))
    {
      hide Conv, Roomy, Config.DHalf, Config.Radix, Good;
      assert Sized(st, n);
      SquareFitsWords(cfg, st, n, i, k - i);
      PartialFits(cfg, st, n, k, i, hi);
      assert Safe(e, st) && Eval(e, st) == Conv(st.a, st.a, i, hi + 1, k);
      EvalProduct(st, A, i, k - i);
      GoodPlus(cfg, st, e0, Eval(e0, st), Product2(A, i, k - i), Eval(Product2(A, i, k - i), st));
    }
  }

  // ---------------------------------------------------------------- the program, column by column

  ghost predicate SqrState(st0: State, st: State, n: nat, k: nat)
    requires n >= 1 && k <= 2 * n - 1
  {
    && Sized(st0, n) && Sized(st, n) && st.a == st0.a && st.R == st0.R
    && st.co == Carry(ColumnSums(st.a, st.a), k, st.R)
    && st.c[..k] == Reduced(ColumnSums(st.a, st.a), k, st.R)
  }

  ghost predicate Squares(prog: seq<Stmt>, n: nat, k: nat)
    requires n >= 1 && k <= 2 * n - 1
  {
    forall st0: State | Sized(st0, n) :: var r := Run(prog, st0); r.Done? && SqrState(st0, r.st, n, k)
  }

  /** c[k]=(chunk)t&BMASK; co=t>>BASEBITS; */
  function StoreLine(k: nat): seq<Stmt> {
    [Store(C, k, Mask(Var(T)))] + [Set(CO, Shift(Var(T)))]
  }

  lemma StoreEffect(st: State, k: nat)
    requires st.R >= 1 && k < |st.c|
    ensures Run(StoreLine(k), st) == Done(st.(c := st.c[k := st.t % st.R], co := st.t / st.R))
  {
    hide Run, Exec;
    EvalT(st);
    ExecStore(st, k, Mask(Var(T)), st.t % st.R);
    RunCons(Store(C, k, Mask(Var(T))), [Set(CO, Shift(Var(T)))], st);
    var st1 := st.(c := st.c[k := st.t % st.R]);
    EvalT(st1);
    ExecSet(st1, Shift(Var(T)), st.t / st.R);
    RunOne(Set(CO, Shift(Var(T))), st1);
  }

  lemma SetT(st: State, e: Expr, w: int)
    requires st.R >= 1 && Safe(e, st) && Eval(e, st) == w
    ensures Exec(Set(T, e), st) == Done(st.(t := w))
  {
  }

  /** t += x */
  lemma AddToT(st: State, x: Expr)
    requires st.R >= 1 && Safe(x, st)
    ensures Exec(Set(T, Plus(Var(T), x)), st) == Done(st.(t := st.t + Eval(x, st)))
  {
    assert Safe(Var(T), st) && Eval(Var(T), st) == st.t;
  }

  /** The middle square of an even column, and the store. */
  function ColumnTail(k: nat): seq<Stmt> {
    if k % 2 == 0 then [Set(T, Plus(Var(T), Product2(A, k / 2, k / 2)))] + StoreLine(k) else StoreLine(k)
  }

  /** t= sum; t+=t; t+=co; [t+=a[k/2]*a[k/2];] c[k]=(chunk)t&BMASK; co=t>>BASEBITS; */
  function ColumnLine(sum: Expr, k: nat): seq<Stmt> {
    [Set(T, sum)] + ([Set(T, Plus(Var(T), Var(T)))] + ([Set(T, Plus(Var(T), Var(CO)))] + ColumnTail(k)))
  }

  lemma LineEffect(st: State, sum: Expr, k: nat, half: int)
    requires st.R >= 1 && k < |st.c| && k / 2 < |st.a| && Safe(sum, st) && Eval(sum, st) == half
    ensures var t' := half + half + st.co + Middle(st.a, k);
            Run(ColumnLine(sum, k), st) == Done(st.(t := t', c := st.c[k := t' % st.R], co := t' / st.R))
  {
    hide Run;
    var st1 := st.(t := half);
    var st2 := st.(t := half + half);
    var st3 := st.(t := half + half + st.co);
    SetT(st, sum, half);
    var tail := ColumnTail(k);
    RunCons(Set(T, sum), [Set(T, Plus(Var(T), Var(T)))] + ([Set(T, Plus(Var(T), Var(CO)))] + tail), st);
    AddToT(st1, Var(T));
    RunCons(Set(T, Plus(Var(T), Var(T))), [Set(T, Plus(Var(T), Var(CO)))] + tail, st1);
    AddToT(st2, Var(CO));
    RunCons(Set(T, Plus(Var(T), Var(CO))), tail, st2);
    TailEffect(st3, k, Middle(st.a, k));
  }

  lemma TailEffect(st: State, k: nat, x: int)
    requires st.R >= 1 && k < |st.c| && k / 2 < |st.a| && x == Middle(st.a, k)
    ensures Run(ColumnTail(k), st)
      == Done(st.(t := st.t + x, c := st.c[k := (st.t + x) % st.R], co := (st.t + x) / st.R))
  {
    TailParts(st, k, x);
    hide *;
    if k % 2 == 0 {
      EvenTail(st, Product2(A, k / 2, k / 2), x, k);
    } else {
      StoreEffect(st, k);
    }
  }

  lemma TailParts(st: State, k: nat, x: int)
    requires st.R >= 1 && k / 2 < |st.a| && x == Middle(st.a, k)
    ensures k % 2 == 0 ==> var e := Product2(A, k / 2, k / 2);
            Safe(e, st) && Eval(e, st) == x && ColumnTail(k) == [Set(T, Plus(Var(T), e))] + StoreLine(k)
    ensures k % 2 == 1 ==> x == 0 && ColumnTail(k) == StoreLine(k)
  {
    if k % 2 == 0 {
      EvalProduct(st, A, k / 2, k / 2);
      hide Eval, Safe, Product2, StoreLine;
    }
  }

  lemma EvenTail(st: State, e: Expr, x: int, k: nat)
    requires st.R >= 1 && k < |st.c| && Safe(e, st) && Eval(e, st) == x
    ensures Run([Set(T, Plus(Var(T), e))] + StoreLine(k), st)
      == Done(st.(t := st.t + x, c := st.c[k := (st.t + x) % st.R], co := (st.t + x) / st.R))
  {
    hide *;
    AddToT(st, e);
    RunCons(Set(T, Plus(Var(T), e)), StoreLine(k), st);
    StoreEffect(st.(t := st.t + x), k);
  }

  lemma ColumnEffect(st0: State, st: State, sum: Expr, n: nat, k: nat, lo: nat, hi: nat)
    requires n >= 1 && k < 2 * n - 1 && lo <= hi < n && lo + hi == k && (lo == 0 || hi == n - 1)
    requires SqrState(st0, st, n, k) && SumsProducts(sum, n, k, k / 2 + 1, hi)
    ensures var r := Run(ColumnLine(sum, k), st); r.Done? && SqrState(st0, r.st, n, k + 1)
  {
    hide Run, Carry, Reduced, Conv, Eval, Safe;
    var half := Conv(st.a, st.a, k / 2 + 1, hi + 1, k);
    BigSqr.SquareColumn(st.a, lo, hi, k);
    LineEffect(st, sum, k, half);
    var t' := half + half + st.co + Middle(st.a, k);
    ReducedStep(ColumnSums(st.a, st.a), k, t', st.R);
    assert Run(ColumnLine(sum, k), st).st.c[..k + 1] == st.c[..k] + [t' % st.R];
  }

  lemma ColumnEmitted(prog: seq<Stmt>, sum: Expr, n: nat, k: nat, lo: nat, hi: nat)
    requires n >= 1 && k < 2 * n - 1 && lo <= hi < n && lo + hi == k && (lo == 0 || hi == n - 1)
    requires Squares(prog, n, k) && SumsProducts(sum, n, k, k / 2 + 1, hi)
    ensures Squares(prog + ColumnLine(sum, k), n, k + 1)
  {
    hide Run, Carry, Reduced, Conv, Eval, Safe, SumsProducts, ColumnLine;
    var line := ColumnLine(sum, k);
    forall st0: State | Sized(st0, n)
      ensures var r := Run(prog + line, st0); r.Done? && SqrState(st0, r.st, n, k + 1)
    {
      RunAppend(prog, line, st0);
      ColumnEffect(st0, Run(prog, st0).st, sum, n, k, lo, hi);
    }
  }

  // ---------------------------------------------------------------- the program, on words

  /** prog runs on words as it does on integers, from every small starting state. */
  ghost predicate ProgramFits(prog: seq<Stmt>, n: nat) {
    forall cfg: Config, st0: State | Small(cfg, st0, n) :: Fits(cfg, prog, st0)
  }

  lemma StoreLineFits(cfg: Config, st: State, k: nat)
    requires cfg.Valid() && st.R == cfg.Radix() && k < |st.c|
    ensures Fits(cfg, StoreLine(k), st)
  {
    var st1 := st.(c := st.c[k := st.t % st.R]);
    EvalT(st);
    EvalT(st1);
    StoreDigitFits(cfg, st, C, k);
    ShiftFits(cfg, st1, CO);
    hide Exec, Fits, Eval, Safe, StmtFits, Config.Radix;
    ExecStore(st, k, Mask(Var(T)), st.t % st.R);
    ExecSet(st1, Shift(Var(T)), st.t / st.R);
    FitsOne(cfg, Set(CO, Shift(Var(T))), st1);
    FitsCons(cfg, Store(C, k, Mask(Var(T))), [Set(CO, Shift(Var(T)))], st);
  }

  /** t += x within the dchunk, and the rest after it */
  lemma AddFits(cfg: Config, st: State, x: Expr, w: int, rest: seq<Stmt>)
    requires cfg.Valid() && st.R == cfg.Radix() && Good(cfg, x, st, w)
    requires -cfg.DHalf() <= st.t + w < cfg.DHalf()
    requires Fits(cfg, rest, st.(t := st.t + w))
    ensures Fits(cfg, [Set(T, Plus(Var(T), x))] + rest, st)
  {
    AddToT(st, x);
    hide Exec, Fits, StmtFits, Eval, Safe, InRange, Masked, Config.Radix, Config.DHalf;
    GoodVar(cfg, st);
    GoodPlus(cfg, st, Var(T), st.t, x, w);
    SetFits(cfg, st, T, Plus(Var(T), x), st.t + w);
    FitsCons(cfg, Set(T, Plus(Var(T), x)), rest, st);
  }

  /** The bounds of a column: its half sum, doubled, the carry, and the middle square. */
  ghost predicate ColumnRoom(cfg: Config, st: State, n: nat, k: nat, half: int)
    requires cfg.Valid() && k / 2 < |st.a|
  {
    && -cfg.DHalf() <= half < cfg.DHalf() && -cfg.DHalf() <= half + half < cfg.DHalf()
    && -cfg.DHalf() <= half + half + st.co < cfg.DHalf()
    && -cfg.DHalf() <= half + half + st.co + Middle(st.a, k) < cfg.DHalf()
  }

  lemma ColumnHasRoom(cfg: Config, st: State, n: nat, k: nat, half: int)
    requires Small(cfg, st, n) && n >= 2 && k / 2 < n && 0 <= st.co <= (n + 1) * (st.R - 1)
    requires 0 <= half <= (n / 2) * ((st.R - 1) * (st.R - 1))
    ensures ColumnRoom(cfg, st, n, k, half)
  {
    var M, C := (st.R - 1) * (st.R - 1), (n + 1) * (st.R - 1);
    hide Roomy, Config.DHalf, Config.Radix;
    MulBound(st.a[k / 2], st.a[k / 2], st.R - 1);
    MulBound(st.R - 1, st.R - 1, st.R - 1);
    TwoHalves(n, M);
    AccFits(cfg, half, n + 1, 0);
    AccFits(cfg, half + half, n + 1, 0);
    AccFits(cfg, half + half + st.co, n + 1, 0);
    AccFits(cfg, half + half + st.co + Middle(st.a, k), n + 1, 0);
  }

  lemma TwoHalves(n: nat, M: int)
    requires M >= 0
    ensures 0 <= (n / 2) * M && 2 * ((n / 2) * M) + M <= (n + 1) * M
  {
    MulMono(0, n / 2, M);
    MulMono(2 * (n / 2) + 1, n + 1, M);
    MulDist(2 * (n / 2), 1, M);
    MulAssoc(2, n / 2, M);
  }

  lemma LineFits(cfg: Config, st: State, sum: Expr, n: nat, k: nat, half: int)
    requires Small(cfg, st, n) && k < |st.c| && k / 2 < n && ColumnRoom(cfg, st, n, k, half)
    requires Good(cfg, sum, st, half)
    ensures Fits(cfg, ColumnLine(sum, k), st)
  {
    var st1 := st.(t := half);
    var st2 := st.(t := half + half);
    var st3 := st.(t := half + half + st.co);
    hide Fits, StmtFits, Roomy, Config.Radix, Config.DHalf, Exec, Eval, Safe, InRange, Masked;
    TailFits(cfg, st3, n, k);
    GoodVar(cfg, st2);
    AddFits(cfg, st2, Var(CO), st.co, ColumnTail(k));
    GoodVar(cfg, st1);
    AddFits(cfg, st1, Var(T), half, [Set(T, Plus(Var(T), Var(CO)))] + ColumnTail(k));
    SetFits(cfg, st, T, sum, half);
    ExecSet(st, sum, half);
    FitsCons(cfg, Set(T, sum), [Set(T, Plus(Var(T), Var(T)))] + ([Set(T, Plus(Var(T), Var(CO)))] + ColumnTail(k)), st);
  }

  lemma TailFits(cfg: Config, st: State, n: nat, k: nat)
    requires Small(cfg, st, n) && k < |st.c| && k / 2 < n
    requires -cfg.DHalf() <= st.t + Middle(st.a, k) < cfg.DHalf()
    ensures Fits(cfg, ColumnTail(k), st)
  {
    hide Fits, Roomy, Config.Radix, Config.DHalf, StoreLine, Good;
    if k % 2 == 0 {
      SquareFitsWords(cfg, st, n, k / 2, k / 2);
      StoreLineFits(cfg, st.(t := st.t + Middle(st.a, k)), k);
      AddFits(cfg, st, Product2(A, k / 2, k / 2), Middle(st.a, k), StoreLine(k));
    } else {
      StoreLineFits(cfg, st, k);
    }
  }

  lemma ColumnFitsWords(cfg: Config, st0: State, st: State, sum: Expr, n: nat, k: nat, lo: nat, hi: nat)
    requires n >= 2 && k < 2 * n - 1 && lo <= hi < n && lo + hi == k && (lo == 0 || hi == n - 1)
    requires SqrState(st0, st, n, k) && Small(cfg, st0, n) && SumsProducts(sum, n, k, k / 2 + 1, hi) && SumFits(sum, n)
    ensures Fits(cfg, ColumnLine(sum, k), st)
  {
    hide Carry, Reduced, Conv, Roomy, Config.Radix, Config.DHalf, Fits, ColumnLine, Eval, Safe, Good;
    var half := Conv(st.a, st.a, k / 2 + 1, hi + 1, k);
    assert Small(cfg, st, n);
    ColumnCarry(cfg, st.a, st.a, k);
    MulDist(n, 1, st.R - 1);
    PartialFits(cfg, st, n, k, k / 2 + 1, hi);
    ColumnHasRoom(cfg, st, n, k, half);
    LineFits(cfg, st, sum, n, k, half);
  }

  lemma ColumnWordsEmitted(prog: seq<Stmt>, sum: Expr, n: nat, k: nat, lo: nat, hi: nat)
    requires n >= 2 && k < 2 * n - 1 && lo <= hi < n && lo + hi == k && (lo == 0 || hi == n - 1)
    requires Squares(prog, n, k) && ProgramFits(prog, n) && SumsProducts(sum, n, k, k / 2 + 1, hi) && SumFits(sum, n)
    ensures ProgramFits(prog + ColumnLine(sum, k), n)
  {
    forall cfg: Config, st0: State | Small(cfg, st0, n)
      ensures Fits(cfg, prog + ColumnLine(sum, k), st0)
    {
      hide Run, Carry, Reduced, Conv, SumsProducts, SumFits, ColumnLine, Fits, Roomy;
      var st := Run(prog, st0).st;
      assert SqrState(st0, st, n, k);
      ColumnFitsWords(cfg, st0, st, sum, n, k, lo, hi);
      FitsAppend(cfg, prog, ColumnLine(sum, k), st0);
    }
  }

  // ---------------------------------------------------------------- first and last lines

  /** t=(dchunk)a[0]*a[0]; c[0]=(chunk)t&BMASK; co=t>>BASEBITS; */
  lemma FirstLine(n: nat)
    requires n >= 1
    ensures Squares([Set(T, Product2(A, 0, 0))] + StoreLine(0), n, 1)
  {
    var line := [Set(T, Product2(A, 0, 0))] + StoreLine(0);
    forall st0: State | Sized(st0, n)
      ensures var r := Run(line, st0); r.Done? && SqrState(st0, r.st, n, 1)
    {
      hide Run;
      var t' := st0.a[0] * st0.a[0];
      EvalProduct(st0, A, 0, 0);
      SetT(st0, Product2(A, 0, 0), t');
      RunCons(Set(T, Product2(A, 0, 0)), StoreLine(0), st0);
      StoreEffect(st0.(t := t'), 0);
      BigSqr.SquareColumn(st0.a, 0, 0, 0);
      var cols := ColumnSums(st0.a, st0.a);
      assert Carry(cols, 0, st0.R) == 0 && Reduced(cols, 0, st0.R) == [];
      ReducedStep(cols, 0, t', st0.R);
      assert Run(line, st0).st.c[..1] == [t' % st0.R];
    }
  }

  lemma FirstLineFits(n: nat)
    requires n >= 1
    ensures ProgramFits([Set(T, Product2(A, 0, 0))] + StoreLine(0), n)
  {
    forall cfg: Config, st0: State | Small(cfg, st0, n)
      ensures Fits(cfg, [Set(T, Product2(A, 0, 0))] + StoreLine(0), st0)
    {
      hide Fits, Roomy, StoreLine, Exec;
      SquareFitsWords(cfg, st0, n, 0, 0);
      EvalProduct(st0, A, 0, 0);
      ExecSet(st0, Product2(A, 0, 0), st0.a[0] * st0.a[0]);
      StoreLineFits(cfg, st0.(t := st0.a[0] * st0.a[0]), 0);
      FitsCons(cfg, Set(T, Product2(A, 0, 0)), StoreLine(0), st0);
    }
  }

  /** t=co; t+=(dchunk)a[N-1]*a[N-1]; c[2N-2]=(chunk)t&BMASK; co=t>>BASEBITS; c[2N-1]=(chunk)co; */
  function LastLines(n: nat): seq<Stmt>
    requires n >= 1
  {
    [Set(T, Var(CO))] + ([Set(T, Plus(Var(T), Product2(A, n - 1, n - 1)))]
        + (StoreLine(2 * n - 2) + [Store(C, 2 * n - 1, Var(CO))]))
  }

  lemma LastEffect(st0: State, st: State, n: nat)
    requires n >= 1 && SqrState(st0, st, n, 2 * n - 2)
    ensures var r := Run(LastLines(n), st); r.Done? && r.st.c == Product(st0.a, st0.a, st0.R) && r.st.a == st0.a
  {
    hide Run, Carry, Reduced, Conv;
    var x := st.a[n - 1] * st.a[n - 1];
    var t' := st.co + x;
    var st1 := st.(t := st.co);
    var st2 := st.(t := t');
    var st3 := st2.(c := st.c[2 * n - 2 := t' % st.R], co := t' / st.R);
    var top := [Store(C, 2 * n - 1, Var(CO))];
    assert Safe(Var(CO), st) && Eval(Var(CO), st) == st.co;
    RunCons(Set(T, Var(CO)), [Set(T, Plus(Var(T), Product2(A, n - 1, n - 1)))] + (StoreLine(2 * n - 2) + top), st);
    EvalProduct(st1, A, n - 1, n - 1);
    AddToT(st1, Product2(A, n - 1, n - 1));
    RunCons(Set(T, Plus(Var(T), Product2(A, n - 1, n - 1))), StoreLine(2 * n - 2) + top, st1);
    RunAppend(StoreLine(2 * n - 2), top, st2);
    StoreEffect(st2, 2 * n - 2);
    assert Safe(Var(CO), st3) && Eval(Var(CO), st3) == st3.co;
    RunOne(Store(C, 2 * n - 1, Var(CO)), st3);
    var cols := ColumnSums(st.a, st.a);
    TopColumn(st.a, n);
    ReducedStep(cols, 2 * n - 2, t', st.R);
    assert st3.c[2 * n - 1 := st3.co] == (st.c[..2 * n - 2] + [t' % st.R]) + [st3.co];
  }

  lemma LastLinesFit(cfg: Config, st0: State, st: State, n: nat)
    requires n >= 2 && Small(cfg, st0, n) && SqrState(st0, st, n, 2 * n - 2)
    ensures Fits(cfg, LastLines(n), st)
  {
    hide Carry, Reduced, Conv, Roomy, Config.Radix, Config.DHalf, Fits, StoreLine;
    var x := st.a[n - 1] * st.a[n - 1];
    var st1 := st.(t := st.co);
    var st2 := st.(t := st.co + x);
    var top := [Store(C, 2 * n - 1, Var(CO))];
    assert Small(cfg, st, n);
    TopRoom(cfg, st, n);
    SquareFitsWords(cfg, st1, n, n - 1, n - 1);
    GoodVar(cfg, st);
    LastStoresFit(cfg, st, st2, n);
    hide Eval, Safe, InRange, Masked, StmtFits;
    AddFits(cfg, st1, Product2(A, n - 1, n - 1), x, StoreLine(2 * n - 2) + top);
    SetFits(cfg, st, T, Var(CO), st.co);
    ExecSet(st, Var(CO), st.co);
    hide Exec;
    FitsCons(cfg, Set(T, Var(CO)), [Set(T, Plus(Var(T), Product2(A, n - 1, n - 1)))] + (StoreLine(2 * n - 2) + top),
        st);
  }

  lemma TopRoom(cfg: Config, st: State, n: nat)
    requires n >= 2 && Small(cfg, st, n) && st.co == Carry(ColumnSums(st.a, st.a), 2 * n - 2, st.R)
    ensures -cfg.DHalf() <= st.co + st.a[n - 1] * st.a[n - 1] < cfg.DHalf()
  {
    hide Carry, ColumnSums, Roomy, Config.Radix, Config.DHalf;
    ColumnCarry(cfg, st.a, st.a, 2 * n - 2);
    SquareFitsWords(cfg, st, n, n - 1, n - 1);
    MulDist(n, 1, st.R - 1);
    AccFits(cfg, st.co + st.a[n - 1] * st.a[n - 1], 1, 0);
  }

  lemma LastStoresFit(cfg: Config, st: State, st2: State, n: nat)
    requires n >= 2 && Small(cfg, st, n) && SqrState(st, st, n, 2 * n - 2)
    requires st2 == st.(t := st.co + st.a[n - 1] * st.a[n - 1])
    ensures Fits(cfg, StoreLine(2 * n - 2) + [Store(C, 2 * n - 1, Var(CO))], st2)
  {
    hide Carry, Reduced, Conv, Roomy, Config.Radix, Config.DHalf, Config.Half, Fits, StoreLine;
    var k := 2 * n - 2;
    var st3 := st2.(c := st2.c[k := st2.t % st2.R], co := st2.t / st2.R);
    TopColumn(st.a, n);
    ReducedStep(ColumnSums(st.a, st.a), k, st2.t, st.R);
    LastCarry(st.a, st.a, st.R);
    RadixIsChunk(cfg);
    StoreEffect(st2, k);
    StoreLineFits(cfg, st2, k);
    GoodVar(cfg, st3);
    StoreFits(cfg, st3, C, k + 1, Var(CO), st3.co);
    ExecStore(st3, k + 1, Var(CO), st3.co);
    hide Exec, Eval, Safe, Good, Run;
    FitsOne(cfg, Store(C, k + 1, Var(CO)), st3);
    FitsAppend(cfg, StoreLine(k), [Store(C, k + 1, Var(CO))], st2);
  }

  lemma LastWordsEmitted(prog: seq<Stmt>, n: nat)
    requires n >= 2 && Squares(prog, n, 2 * n - 2) && ProgramFits(prog, n)
    ensures ProgramFits(prog + LastLines(n), n)
  {
    forall cfg: Config, st0: State | Small(cfg, st0, n)
      ensures Fits(cfg, prog + LastLines(n), st0)
    {
      hide Run, Carry, Reduced, Conv, LastLines, Fits, Roomy;
      var st := Run(prog, st0).st;
      assert SqrState(st0, st, n, 2 * n - 2);
      LastLinesFit(cfg, st0, st, n);
      FitsAppend(cfg, prog, LastLines(n), st0);
    }
  }

  lemma OnWords(prog: seq<Stmt>, n: nat)
    requires ProgramFits(prog, n)
    ensures forall cfg: Config, st: State | Small(cfg, st, n) :: WordRun(cfg, prog, st) == Run(prog, st)
  {
    forall cfg: Config, st: State | Small(cfg, st, n)
      ensures WordRun(cfg, prog, st) == Run(prog, st)
    {
      hide Run, Fits, WordRun;
      WordRunExact(cfg, prog, st);
    }
  }

  lemma TopColumn(a: seq<int>, n: nat)
    requires |a| == n >= 1
    ensures Column(a, a, 2 * n - 2) == a[n - 1] * a[n - 1]
  {
    BigSqr.SquareColumn(a, n - 1, n - 1, 2 * n - 2);
    assert (2 * n - 2) / 2 == n - 1 && (2 * n - 2) % 2 == 0;
  }

  /** The emitted program computes the normalised square, limb for limb the same as the product of a
      with itself, for every NLEN, odd or even; on chunks and dchunks too, as nothing overflows. */
  method InlineSqr(n: nat) returns (prog: seq<Stmt>)
    requires n >= 2
    ensures forall st: State | Sized(st, n) ::
              var r := Run(prog, st); r.Done? && r.st.c == Product(st.a, st.a, st.R) && r.st.a == st.a
    ensures forall cfg: Config, st: State | Small(cfg, st, n) :: WordRun(cfg, prog, st) == Run(prog, st)
  {
    hide *;
    prog := [Set(T, Product2(A, 0, 0))] + StoreLine(0);
    FirstLine(n);
    FirstLineFits(n);
    var k := 1;
    while k < n
      invariant 1 <= k <= n && Squares(prog, n, k) && ProgramFits(prog, n)
    {
      var sum := ProductSum(n, k, k);
      ColumnEmitted(prog, sum, n, k, 0, k);
      ColumnWordsEmitted(prog, sum, n, k, 0, k);
      prog := prog + ColumnLine(sum, k);
      k := k + 1;
    }
    while k < 2 * n - 2
      invariant n <= k <= 2 * n - 2 && Squares(prog, n, k) && ProgramFits(prog, n)
    {
      var sum := ProductSum(n, k, n - 1);
      ColumnEmitted(prog, sum, n, k, k - n + 1, n - 1);
      ColumnWordsEmitted(prog, sum, n, k, k - n + 1, n - 1);
      prog := prog + ColumnLine(sum, k);
      k := k + 1;
    }
    LastEmitted(prog, n);
    LastWordsEmitted(prog, n);
    prog := prog + LastLines(n);
    OnWords(prog, n);
  }

  lemma LastEmitted(prog: seq<Stmt>, n: nat)
    requires n >= 1 && Squares(prog, n, 2 * n - 2)
    ensures forall st: State | Sized(st, n) ::
              var r := Run(prog + LastLines(n), st); r.Done? && r.st.c == Product(st.a, st.a, st.R) && r.st.a == st.a
  {
    hide Run, Carry, Reduced, Conv, Product, LastLines;
    forall st0: State | Sized(st0, n)
      ensures var r := Run(prog + LastLines(n), st0);
              r.Done? && r.st.c == Product(st0.a, st0.a, st0.R) && r.st.a == st0.a
    {
      RunAppend(prog, LastLines(n), st0);
      LastEffect(st0, Run(prog, st0).st, n);
    }
  }
}
