/** inline_redc2: the text that replaces the Karatsuba-style Montgomery reduction loops. */
module GenRedc {
  import opened Arith
  import opened Limbs
  import opened Columns
  import opened Words
  import opened StraightLine
  import opened StraightWords
  import opened BigMul
  import opened BigMonty

  /** What BIG_monty asks of its inputs; the contents of v, dd and a do not matter. */
  ghost predicate Ready(st: State, n: nat): (ready: bool)
    ensures ready ==> st.R >= 2 && |st.v| == |st.md| == n
  {
    && n >= 1 && st.R >= 2 && |st.a| == |st.v| == |st.md| == |st.dd| == n && |st.d| == 2 * n
    && Normal(st.d, st.R) && Normal(st.md, st.R) && IsConstant(st.mc, st.md[0], st.R)
    && 2 * Value(st.md, st.R) <= Pow(st.R, n)
    && Value(st.d, st.R) < Value(st.md, st.R) * Pow(st.R, n)
  }

  /** The inputs are untouched. */
  ghost predicate Kept(st0: State, st: State, n: nat) {
    && Ready(st0, n) && Ready(st, n)
    && st.R == st0.R && st.mc == st0.mc && st.d == st0.d && st.md == st0.md
  }

  function Cols(st: State): seq<int> {
    MontyColumns(st.d, st.v, st.md)
  }

  /** After k quotient digits. */
  ghost predicate LowState(st0: State, st: State, n: nat, k: nat)
    requires 1 <= k <= n
  {
    && Kept(st0, st, n)
    && Digits(st.v, 0, k, st.R) && Cancelled(Cols(st), k, st.R)
    && st.cc == Carry(Cols(st), k, st.R)
    && st.s == Diag(st.v, st.md, 1, k)
    && forall j :: 1 <= j < k ==> st.dd[j] == st.v[j] * st.md[j]
  }

  /** After column k >= n of the upper half. */
  ghost predicate HighState(st0: State, st: State, n: nat, k: nat)
    requires n <= k <= 2 * n - 1
  {
    && Kept(st0, st, n)
    && Normal(st.v, st.R) && Cancelled(Cols(st), n, st.R)
    && st.cc == Carry(Cols(st), k, st.R)
    && st.s == Diag(st.v, st.md, k - n + 1, n)
    && (forall j :: 1 <= j < n ==> st.dd[j] == st.v[j] * st.md[j])
    && st.a[..k - n] == Reduced(Cols(st), k, st.R)[n..]
  }

  // ---------------------------------------------------------------- the sums

  function DifferenceTerm(i: nat, j: nat): Expr {
    Times(Minus(At(V, j), At(V, i)), Minus(At(MD, i), At(MD, j)))
  }

  lemma EvalDifference(st: State, i: nat, j: nat)
    requires st.R >= 1 && i < |st.v| && j < |st.v| && i < |st.md| && j < |st.md|
    ensures Safe(DifferenceTerm(i, j), st)
    ensures Eval(DifferenceTerm(i, j), st) == (st.v[i] - st.v[j]) * (st.md[j] - st.md[i])
  {
    var x, y := Minus(At(V, j), At(V, i)), Minus(At(MD, i), At(MD, j));
    assert Safe(At(V, i), st) && Safe(At(V, j), st) && Safe(At(MD, j), st) && Safe(At(MD, i), st);
    assert Safe(x, st) && Safe(y, st);
    assert Eval(x, st) == st.v[j] - st.v[i];
    assert Eval(y, st) == st.md[i] - st.md[j];
    Negate(st.v[i] - st.v[j], st.md[j] - st.md[i]);
  }

  /** e adds the difference products lo..hi of column k to base. */
  ghost predicate AddsDifferences(e: Expr, base: Expr, n: nat, k: nat, lo: nat, hi: nat)
    requires hi < n && k < lo + n && hi <= k
  {
    forall st: State | Ready(st, n) && Safe(base, st) ::
      Safe(e, st) && Eval(e, st) == Eval(base, st) + Cross(st.v, st.md, lo, hi + 1, k)
  }

  /** for i in range(hi, k/2, -1): +(dchunk)(v[k-i]-v[i])*(md[i]-md[k-i]) */
  method DifferenceSum(base: Expr, n: nat, k: nat, hi: nat) returns (e: Expr)
    requires hi < n && k / 2 <= hi <= k && k < k / 2 + 1 + n && !Narrow(base)
    ensures AddsDifferences(e, base, n, k, k / 2 + 1, hi)
    ensures SumFits(e, base, n, hi + 1, hi - k / 2, hi - k / 2)
  {
    e := base;
    hide *;
    NothingAdded(base, n, hi + 1, hi - k / 2);
    NoDifferences(base, n, k, hi);
    var i := hi;
    while i > k / 2
      invariant k / 2 <= i <= hi
      invariant AddsDifferences(e, base, n, k, i + 1, hi)
      invariant SumFits(e, base, n, hi + 1, hi - i, hi - k / 2)
    {
      ghost var e0 := e;
      e := Plus(e, DifferenceTerm(i, k - i));
      NextDifference(e0, base, n, k, i, hi);
      NextFits(e0, base, n, hi + 1, i, k - i, hi - i, hi - k / 2);
      i := i - 1;
    }
  }

  lemma NoDifferences(base: Expr, n: nat, k: nat, hi: nat)
    requires hi < n && hi <= k && k < hi + 1 + n
    ensures AddsDifferences(base, base, n, k, hi + 1, hi)
  {
    hide Ready, Eval, Safe;
  }

  lemma NextDifference(e0: Expr, base: Expr, n: nat, k: nat, i: nat, hi: nat)
    requires hi < n && k / 2 < i <= hi <= k && k < k / 2 + 1 + n
    requires AddsDifferences(e0, base, n, k, i + 1, hi)
    ensures AddsDifferences(Plus(e0, DifferenceTerm(i, k - i)), base, n, k, i, hi)
  {
    var e := Plus(e0, DifferenceTerm(i, k - i));
    forall st: State | Ready(st, n) && Safe(base, st)
      ensures Safe(e, st) && Eval(e, st) == Eval(base, st) + Cross(st.v, st.md, i, hi + 1, k)
    {
      hide Ready;
      assert Safe(e0, st);
      EvalDifference(st, i, k - i);
      CrossFirst(st.v, st.md, i, hi + 1, k);
    }
  }

  // ---------------------------------------------------------------- the sums, on words

  /** Inputs that BIG_monty accepts, in a configuration whose dchunk is large enough. */
  ghost predicate Small(cfg: Config, st: State, n: nat) {
    cfg.Valid() && Roomy(cfg) && n == cfg.nlen && Ready(st, n) && st.R == cfg.Radix()
  }

  /** The first m quotient digits are known, and base leaves room for cnt difference products. */
  ghost predicate Starts(cfg: Config, st: State, n: nat, m: nat, base: Expr, cnt: nat)
    requires m <= n
  {
    && Small(cfg, st, n) && Digits(st.v, 0, m, st.R)
    && Safe(base, st) && Good(cfg, base, st, Eval(base, st))
    && Room(cfg, cnt) - cfg.DHalf() <= Eval(base, st) < cfg.DHalf() - Room(cfg, cnt)
  }

  /** e, which is base and done difference products, computes nothing outside the dchunk. */
  ghost predicate SumFits(e: Expr, base: Expr, n: nat, m: nat, done: nat, cnt: nat)
    requires m <= n
  {
    !Narrow(e) && forall cfg: Config, st: State | Starts(cfg, st, n, m, base, cnt) ::
      && Safe(e, st) && Good(cfg, e, st, Eval(e, st))
      && Eval(base, st) - Room(cfg, done) <= Eval(e, st) <= Eval(base, st) + Room(cfg, done)
  }

  lemma NothingAdded(base: Expr, n: nat, m: nat, cnt: nat)
    requires m <= n && !Narrow(base)
    ensures SumFits(base, base, n, m, 0, cnt)
  {
    hide Eval, Safe, Good, Config.DHalf, Small;
  }

  lemma NextFits(e0: Expr, base: Expr, n: nat, m: nat, i: nat, j: nat, done: nat, cnt: nat)
    requires i < m <= n && j < m && done < cnt && SumFits(e0, base, n, m, done, cnt)
    ensures SumFits(Plus(e0, DifferenceTerm(i, j)), base, n, m, done + 1, cnt)
  {
    var e := Plus(e0, DifferenceTerm(i, j));
    forall cfg: Config, st: State | Starts(cfg, st, n, m, base, cnt)
      ensures Safe(e, st) && Good(cfg, e, st, Eval(e, st))
      ensures Eval(base, st) - Room(cfg, done + 1) <= Eval(e, st) <= Eval(base, st) + Room(cfg, done + 1)
    {
      hide Room, Roomy, Config.DHalf, Config.Radix, Ready, Good;
      var x := Eval(e0, st);
      var y := DifferenceFits(cfg, st, n, m, i, j);
      RoomGrows(cfg, done, cnt);
      hide Eval, Safe;
      GoodPlus(cfg, st, e0, x, DifferenceTerm(i, j), y);
      GoodValue(cfg, e, st, x + y);
    }
  }

  lemma GoodValue(cfg: Config, e: Expr, st: State, w: int)
    requires cfg.Valid() && st.R >= 1 && Good(cfg, e, st, w)
    ensures Safe(e, st) && Eval(e, st) == w
  {
  }

  lemma RoomGrows(cfg: Config, done: nat, cnt: nat)
    requires cfg.Valid() && done < cnt
    ensures Room(cfg, done + 1) == Room(cfg, done) + Room(cfg, 1)
    ensures Room(cfg, done + 1) <= Room(cfg, cnt)
  {
    var r := cfg.Radix() - 1;
    MulBound(r, r, r);
    MulMono(done + 1, cnt, r * r);
    MulDist(done, 1, r * r);
  }

  lemma DifferenceFits(cfg: Config, st: State, n: nat, m: nat, i: nat, j: nat) returns (y: int)
    requires Small(cfg, st, n) && i < m <= n && j < m && Digits(st.v, 0, m, st.R)
    ensures Good(cfg, DifferenceTerm(i, j), st, y) && -Room(cfg, 1) <= y <= Room(cfg, 1)
  {
    hide Roomy, Config.DHalf, Config.Half, Config.Radix, IsConstant, Pow, Val, Good;
    var u, w := st.v[j] - st.v[i], st.md[i] - st.md[j];
    y := u * w;
    assert 0 <= st.md[i] < st.R && 0 <= st.md[j] < st.R;
    ProductFits(cfg, u, w);
    MulBound(u, w, cfg.Radix() - 1);
    GoodDifferences(cfg, st, V, j, i, MD);
  }

  /** d[k]+c+s */
  function UpperBase(k: nat): Expr {
    Plus(Plus(At(D, k), Var(CC)), Var(S))
  }

  /** d[k]+c+s+(dchunk)v[0]*md[k] */
  function LowerBase(k: nat): Expr {
    Plus(UpperBase(k), Times(At(V, 0), At(MD, k)))
  }

  lemma BasesAreWide(k: nat)
    ensures !Narrow(UpperBase(k)) && !Narrow(LowerBase(k))
  {
  }

  lemma EvalUpperBase(st: State, k: nat)
    requires st.R >= 1 && k < |st.d|
    ensures Safe(UpperBase(k), st) && Eval(UpperBase(k), st) == st.d[k] + st.cc + st.s
  {
    assert Safe(At(D, k), st) && Safe(Var(CC), st) && Safe(Var(S), st);
    assert Eval(At(D, k), st) == st.d[k] && Eval(Var(CC), st) == st.cc && Eval(Var(S), st) == st.s;
    assert Safe(Plus(At(D, k), Var(CC)), st) && Eval(Plus(At(D, k), Var(CC)), st) == st.d[k] + st.cc;
  }

  lemma EvalTimes(st: State, x: Vector, i: nat, y: Vector, j: nat)
    requires st.R >= 1 && i < |Vec(st, x)| && j < |Vec(st, y)|
    ensures Safe(Times(At(x, i), At(y, j)), st)
    ensures Eval(Times(At(x, i), At(y, j)), st) == Vec(st, x)[i] * Vec(st, y)[j]
  {
    assert Safe(At(x, i), st) && Safe(At(y, j), st);
    assert Eval(At(x, i), st) == Vec(st, x)[i] && Eval(At(y, j), st) == Vec(st, y)[j];
  }

  lemma EvalLowerBase(st: State, k: nat)
    requires st.R >= 1 && k < |st.d| && 0 < |st.v| && k < |st.md|
    ensures Safe(LowerBase(k), st) && Eval(LowerBase(k), st) == st.d[k] + st.cc + st.s + st.v[0] * st.md[k]
  {
    EvalUpperBase(st, k);
    EvalTimes(st, V, 0, MD, k);
  }

  // ---------------------------------------------------------------- one quotient digit

  /** v[k]=((chunk)t*MC)&BMASK; t+=(dchunk)v[k]*md[0]; */
  function QuotientLine(k: nat): seq<Stmt> {
    [Store(V, k, Mask(Times(Var(T), MC)))] + [Set(T, Plus(Var(T), Times(At(V, k), At(MD, 0))))]
  }

  lemma QuotientEffect(st: State, k: nat)
    requires st.R >= 1 && k < |st.v| && 0 < |st.md|
    ensures var x := (st.t * st.mc) % st.R;
            Run(QuotientLine(k), st) == Done(st.(v := st.v[k := x], t := st.t + x * st.md[0]))
  {
    hide Run, Exec;
    var x := (st.t * st.mc) % st.R;
    var st1 := st.(v := st.v[k := x]);
    var add := Set(T, Plus(Var(T), Times(At(V, k), At(MD, 0))));
    EvalQuotient(st);
    EvalAddProduct(st1, k);
    hide Eval, Safe;
    ExecStore(st, k, Mask(Times(Var(T), MC)), x);
    ExecSet(st1, Plus(Var(T), Times(At(V, k), At(MD, 0))), st.t + x * st.md[0]);
    RunCons(Store(V, k, Mask(Times(Var(T), MC))), [add], st);
    RunOne(add, st1);
  }

  lemma EvalQuotient(st: State)
    requires st.R >= 1
    ensures var e := Mask(Times(Var(T), MC)); Safe(e, st) && Eval(e, st) == (st.t * st.mc) % st.R
  {
    assert Safe(Var(T), st) && Safe(MC, st) && Eval(Var(T), st) == st.t && Eval(MC, st) == st.mc;
    assert Safe(Times(Var(T), MC), st) && Eval(Times(Var(T), MC), st) == st.t * st.mc;
  }

  lemma EvalAddProduct(st: State, k: nat)
    requires st.R >= 1 && k < |st.v| && 0 < |st.md|
    ensures var e := Plus(Var(T), Times(At(V, k), At(MD, 0))); Safe(e, st) && Eval(e, st) == st.t + st.v[k] * st.md[0]
  {
    EvalTimes(st, V, k, MD, 0);
    assert Safe(Var(T), st) && Eval(Var(T), st) == st.t;
  }

  /** dd[k]=(dchunk)v[k]*md[k]; s+=dd[k]; c=(t>>BASEBITS); */
  function DiagonalLine(k: nat): seq<Stmt> {
    [Store(DD, k, Times(At(V, k), At(MD, k)))] + ([Set(S, Plus(Var(S), At(DD, k)))] + [Set(CC, Shift(Var(T)))])
  }

  lemma DiagonalEffect(st: State, k: nat)
    requires st.R >= 1 && k < |st.v| && k < |st.md| && k < |st.dd|
    ensures var x := st.v[k] * st.md[k];
            Run(DiagonalLine(k), st) == Done(st.(dd := st.dd[k := x], s := st.s + x, cc := st.t / st.R))
  {
    EvalTimes(st, V, k, MD, k);
    DiagonalRun(st, k, Times(At(V, k), At(MD, k)), st.v[k] * st.md[k], st.t / st.R);
  }

  lemma DiagonalRun(st: State, k: nat, e: Expr, x: int, carry: int)
    requires st.R >= 1 && k < |st.dd| && Safe(e, st) && Eval(e, st) == x && carry == st.t / st.R
    ensures Run([Store(DD, k, e)] + ([Set(S, Plus(Var(S), At(DD, k)))] + [Set(CC, Shift(Var(T)))]), st)
         == Done(st.(dd := st.dd[k := x], s := st.s + x, cc := carry))
  {
    hide Exec, Run;
    var st1 := st.(dd := st.dd[k := x]);
    var st2 := st1.(s := st.s + x);
    ExecStore(st, k, e, x);
    AddToS(st1, k);
    EvalT(st2);
    ExecSet(st2, Shift(Var(T)), carry);
    RunCons(Store(DD, k, e), [Set(S, Plus(Var(S), At(DD, k)))] + [Set(CC, Shift(Var(T)))], st);
    RunCons(Set(S, Plus(Var(S), At(DD, k))), [Set(CC, Shift(Var(T)))], st1);
    RunOne(Set(CC, Shift(Var(T))), st2);
  }

  lemma AddToS(st: State, k: nat)
    requires st.R >= 1 && k < |st.dd|
    ensures Exec(Set(S, Plus(Var(S), At(DD, k))), st) == Done(st.(s := st.s + st.dd[k]))
  {
    hide Exec;
    assert Safe(Var(S), st) && Safe(At(DD, k), st) && Eval(Var(S), st) == st.s && Eval(At(DD, k), st) == st.dd[k];
    ExecSet(st, Plus(Var(S), At(DD, k)), st.s + st.dd[k]);
  }

  function LowLine(sum: Expr, k: nat): seq<Stmt> {
    [Set(T, sum)] + (QuotientLine(k) + DiagonalLine(k))
  }

  lemma LowLineEffect(st: State, sum: Expr, k: nat, t': int)
    requires st.R >= 1 && k < |st.v| == |st.md| == |st.dd| && Safe(sum, st) && Eval(sum, st) == t'
    ensures var x := (t' * st.mc) % st.R;
            var w := t' + x * st.md[0];
            var after := st.(t := w, v := st.v[k := x], dd := st.dd[k := x * st.md[k]], s := st.s + x * st.md[k],
                cc := w / st.R);
            Run(LowLine(sum, k), st) == Done(after)
  {
    var x := (t' * st.mc) % st.R;
    var st1 := st.(t := t');
    assert LowLine(sum, k) == [Set(T, sum)] + (QuotientLine(k) + DiagonalLine(k));
    hide *;
    ExecSet(st, sum, t');
    RunCons(Set(T, sum), QuotientLine(k) + DiagonalLine(k), st);
    DigitLines(st1, k, x);
  }

  lemma DigitLines(st: State, k: nat, x: int)
    requires st.R >= 1 && k < |st.v| == |st.md| == |st.dd| && x == (st.t * st.mc) % st.R
    ensures var w := st.t + x * st.md[0];
            var after := st.(t := w, v := st.v[k := x], dd := st.dd[k := x * st.md[k]], s := st.s + x * st.md[k],
                cc := w / st.R);
            Run(QuotientLine(k) + DiagonalLine(k), st) == Done(after)
  {
    hide *;
    RunAppend(QuotientLine(k), DiagonalLine(k), st);
    QuotientEffect(st, k);
    DiagonalEffect(st.(v := st.v[k := x], t := st.t + x * st.md[0]), k);
  }

  lemma LowEffect(st0: State, st: State, sum: Expr, n: nat, k: nat)
    requires 1 <= k < n && LowState(st0, st, n, k)
    requires AddsDifferences(sum, LowerBase(k), n, k, k / 2 + 1, k - 1)
    ensures var r := Run(LowLine(sum, k), st); r.Done? && LowState(st0, r.st, n, k + 1)
  {
    hide Run, Carry, Reduced, Conv, Cross, Diag, Eval, Safe, Pow, Val, IsConstant;
    EvalLowerBase(st, k);
    var t' := st.d[k] + st.cc + st.s + st.v[0] * st.md[k] + Cross(st.v, st.md, k / 2 + 1, k, k);
    assert Eval(sum, st) == t';
    LowLineEffect(st, sum, k, t');
    Karatsuba(st.v, st.md, 1, k - 1, k);
    RowZero(st.v, st.md, k);
    var x := (t' * st.mc) % st.R;
    QuotientStep(st.d, st.v, st.md, k, t', x, st.mc, st.R);
    DiagSnoc(st.v, st.md, k, x);
  }

  lemma RowZero(v: seq<int>, md: seq<int>, k: nat)
    requires 1 <= k < |md| && |v| == |md|
    ensures Conv(v, md, 0, k, k) == v[0] * md[k] + Conv(v, md, 1, k, k)
  {
    ConvFirst(v, md, 0, k, k);
  }

  lemma DiagSnoc(v: seq<int>, md: seq<int>, k: nat, x: int)
    requires 1 <= k < |md| && |v| == |md|
    ensures Diag(v[k := x], md, 1, k + 1) == Diag(v, md, 1, k) + x * md[k]
  {
    DiagFrame(v, v[k := x], md, 1, k);
  }

  // ---------------------------------------------------------------- one upper column

  /** t=...; a[k-N]=(chunk)t&BMASK; s-=dd[k-N+1]; c=(t>>BASEBITS); */
  function HighLine(sum: Expr, j: nat): seq<Stmt> {
    [Set(T, sum)] + ([Store(A, j, Mask(Var(T)))] + ([Set(S, Minus(Var(S), At(DD, j + 1)))] + [Set(CC, Shift(Var(T)))]))
  }

  lemma HighLineEffect(st: State, sum: Expr, j: nat, t': int)
    requires st.R >= 1 && j < |st.a| && j + 1 < |st.dd| && Safe(sum, st) && Eval(sum, st) == t'
    ensures Run(HighLine(sum, j), st)
         == Done(st.(t := t', a := st.a[j := t' % st.R], s := st.s - st.dd[j + 1], cc := t' / st.R))
  {
    hide Run, Exec;
    var st1 := st.(t := t');
    var st2 := st1.(a := st.a[j := t' % st.R]);
    var st3 := st2.(s := st.s - st.dd[j + 1]);
    var shift := [Set(CC, Shift(Var(T)))];
    var drop := Set(S, Minus(Var(S), At(DD, j + 1)));
    EvalT(st1);
    EvalDrop(st2, j + 1);
    EvalT(st3);
    hide Eval, Safe;
    ExecSet(st, sum, t');
    ExecStore(st1, j, Mask(Var(T)), t' % st.R);
    ExecSet(st2, Minus(Var(S), At(DD, j + 1)), st.s - st.dd[j + 1]);
    ExecSet(st3, Shift(Var(T)), t' / st.R);
    RunCons(Set(T, sum), [Store(A, j, Mask(Var(T)))] + ([drop] + shift), st);
    RunCons(Store(A, j, Mask(Var(T))), [drop] + shift, st1);
    RunCons(drop, shift, st2);
    RunOne(Set(CC, Shift(Var(T))), st3);
  }

  lemma EvalDrop(st: State, k: nat)
    requires st.R >= 1 && k < |st.dd|
    ensures var e := Minus(Var(S), At(DD, k)); Safe(e, st) && Eval(e, st) == st.s - st.dd[k]
  {
    assert Safe(Var(S), st) && Safe(At(DD, k), st) && Eval(Var(S), st) == st.s && Eval(At(DD, k), st) == st.dd[k];
  }

  lemma HighEffect(st0: State, st: State, sum: Expr, n: nat, k: nat)
    requires n <= k < 2 * n - 1 && HighState(st0, st, n, k)
    requires AddsDifferences(sum, UpperBase(k), n, k, k / 2 + 1, n - 1)
    ensures var r := Run(HighLine(sum, k - n), st); r.Done? && HighState(st0, r.st, n, k + 1)
  {
    hide Run, Carry, Reduced, Conv, Cross, Diag, Eval, Safe, Pow, Val, IsConstant, Cancelled, MontyColumns;
    EvalUpperBase(st, k);
    var t' := st.d[k] + st.cc + st.s + Cross(st.v, st.md, k / 2 + 1, n, k);
    assert Eval(sum, st) == t';
    hide HighState, AddsDifferences, UpperBase, HighLine;
    HighLineEffect(st, sum, k - n, t');
    HighStep(st0, st, n, k, t');
  }

  lemma HighStep(st0: State, st: State, n: nat, k: nat, t': int)
    requires n <= k < 2 * n - 1 && HighState(st0, st, n, k)
    requires t' == st.d[k] + st.cc + st.s + Cross(st.v, st.md, k / 2 + 1, n, k)
    ensures HighState(st0, st.(t := t', a := st.a[k - n := t' % st.R], s := st.s - st.dd[k - n + 1], cc := t' / st.R),
      n, k + 1)
  {
    hide Carry, Reduced, Conv, Cross, Diag, Pow, Val, IsConstant, Cancelled, MontyColumns;
    HighColumn(st, n, k, t');
    DiagFirst(st.v, st.md, k - n + 1, n);
    assert st.dd[k - n + 1] == st.v[k - n + 1] * st.md[k - n + 1];
    var after := st.(t := t', a := st.a[k - n := t' % st.R], s := st.s - st.dd[k - n + 1], cc := t' / st.R);
    assert Kept(st0, after, n) && Cols(after) == Cols(st);
    hide Cols, Ready, Normal, Value;
    assert after.a[..k + 1 - n] == st.a[..k - n] + [t' % st.R];
  }

  lemma HighColumn(st: State, n: nat, k: nat, t': int)
    requires n <= k < 2 * n - 1 && Ready(st, n)
    requires t' == st.d[k] + Carry(Cols(st), k, st.R) + Diag(st.v, st.md, k - n + 1, n)
      + Cross(st.v, st.md, k / 2 + 1, n, k)
    ensures Reduced(Cols(st), k + 1, st.R)[n..] == Reduced(Cols(st), k, st.R)[n..] + [t' % st.R]
    ensures Carry(Cols(st), k + 1, st.R) == t' / st.R
  {
    hide Carry, Reduced, Conv, Cross, Diag, Pow, Val, IsConstant, MontyColumns;
    KaratsubaColumn(st.v, st.md, k - n + 1, n - 1, k);
    ColumnAt(st.d, st.v, st.md, k);
    ReducedStep(Cols(st), k, t', st.R);
  }

  lemma ColumnAt(d: seq<int>, v: seq<int>, md: seq<int>, k: nat)
    requires k < |d|
    ensures MontyColumns(d, v, md)[k] == d[k] + Column(v, md, k)
  {
  }

  // ---------------------------------------------------------------- the lines, on words

  /** With i quotient digits known and x the next one, v behaves as these digits followed by zeros. */
  function Known(v: seq<int>, i: nat, x: int): (w: seq<int>)
    requires i < |v|
    ensures |w| == |v| && w[i] == x && forall j :: 0 <= j < i ==> w[j] == v[j]
  {
    seq(|v|, j requires 0 <= j < |v| => if j < i then v[j] else if j == i then x else 0)
  }

  lemma KnownNormal(v: seq<int>, i: nat, x: int, R: int)
    requires i < |v| && Digits(v, 0, i, R) && 0 <= x < R
    ensures Normal(Known(v, i, x), R)
  {
  }

  /** The total of a lower column, before and after the quotient product. */
  lemma QuotientRange(cfg: Config, d: seq<int>, v: seq<int>, md: seq<int>, i: nat, x: int)
    requires cfg.Valid() && Roomy(cfg) && |v| == |md| == cfg.nlen && |d| == 2 * cfg.nlen && i < cfg.nlen
    requires Digits(v, 0, i, cfg.Radix()) && Normal(md, cfg.Radix()) && Normal(d, cfg.Radix()) && 0 <= x < cfg.Radix()
    ensures var t := Carry(MontyColumns(d, v, md), i, cfg.Radix()) + d[i];
            && 0 <= t < cfg.DHalf() && -cfg.DHalf() <= x * md[0] < cfg.DHalf()
            && -cfg.DHalf() <= t + Conv(v, md, 0, i, i) + x * md[0] < cfg.DHalf()
  {
    var w := Known(v, i, x);
    KnownNormal(v, i, x, cfg.Radix());
    ReducedFrame(d, v, w, md, i, cfg.Radix());
    ConvFrame(v, w, md, 0, i, i);
    hide Carry, Conv, Roomy, Config.DHalf, Config.Radix, Known, Reduced, MontyColumns;
    QuotientFits(cfg, w, md, d, i, x);
    MontyFits(cfg, d, w, md, i, 0);
    ProductFits(cfg, x, md[0]);
    assert Room(cfg, 0) == 0;
  }

  /** The running sum of diagonals in a lower column. */
  lemma LowRange(cfg: Config, d: seq<int>, v: seq<int>, md: seq<int>, i: nat, x: int)
    requires cfg.Valid() && Roomy(cfg) && |v| == |md| == cfg.nlen && |d| == 2 * cfg.nlen && 1 <= i < cfg.nlen
    requires Digits(v, 0, i, cfg.Radix()) && Normal(md, cfg.Radix()) && Normal(d, cfg.Radix()) && 0 <= x < cfg.Radix()
    ensures var t := Carry(MontyColumns(d, v, md), i, cfg.Radix()) + d[i];
            var s := Diag(v, md, 1, i);
            && 0 <= t + s < cfg.DHalf()
            && Room(cfg, i - 1 - i / 2) - cfg.DHalf() <= t + s + v[0] * md[i] < cfg.DHalf() - Room(cfg, i - 1 - i / 2)
            && 0 <= s + x * md[i] < cfg.DHalf()
  {
    var w := Known(v, i, x);
    KnownNormal(v, i, x, cfg.Radix());
    hide Carry, Conv, Roomy, Config.DHalf, Config.Radix, Reduced, MontyColumns, Room, Cross;
    ReducedFrame(d, v, w, md, i, cfg.Radix());
    DiagFrame(v, w, md, 1, i);
    DiagFits(cfg, w, md, 1, i + 1);
    assert Diag(w, md, 1, i + 1) == Diag(w, md, 1, i) + x * md[i];
    hide Diag, Known;
    LowerColumn(cfg, w, md, d, i);
  }

  lemma QuotientLineFits(cfg: Config, st: State, k: nat)
    requires cfg.Valid() && st.R == cfg.Radix() && k < |st.v| && 0 < |st.md|
    requires var y := ((st.t * st.mc) % st.R) * st.md[0];
             -cfg.DHalf() <= y < cfg.DHalf() && -cfg.DHalf() <= st.t + y < cfg.DHalf()
    ensures Fits(cfg, QuotientLine(k), st)
  {
    var x := (st.t * st.mc) % st.R;
    var st1 := st.(v := st.v[k := x]);
    QuotientStoreFits(cfg, st, k);
    AddProductFits(cfg, st1, k);
    EvalQuotient(st);
    EvalAddProduct(st1, k);
    hide Exec, Fits, Eval, Safe, StmtFits, Config.Radix, Config.DHalf;
    ExecStore(st, k, Mask(Times(Var(T), MC)), x);
    ExecSet(st1, Plus(Var(T), Times(At(V, k), At(MD, 0))), st.t + x * st.md[0]);
    FitsOne(cfg, Set(T, Plus(Var(T), Times(At(V, k), At(MD, 0)))), st1);
    FitsCons(cfg, Store(V, k, Mask(Times(Var(T), MC))), [Set(T, Plus(Var(T), Times(At(V, k), At(MD, 0))))], st);
  }

  lemma QuotientStoreFits(cfg: Config, st: State, k: nat)
    requires cfg.Valid() && st.R == cfg.Radix()
    ensures StmtFits(cfg, Store(V, k, Mask(Times(Var(T), MC))), st)
  {
    EvalQuotient(st);
    RadixIsChunk(cfg);
    assert Masked(Var(T)) && InRange(cfg, Var(T), st);
    hide Config.Radix, Config.Half;
    assert Safe(Times(Var(T), MC), st);
  }

  lemma GoodProduct(cfg: Config, st: State, x: Vector, i: nat, y: Vector, j: nat)
    requires cfg.Valid() && st.R == cfg.Radix() && i < |Vec(st, x)| && j < |Vec(st, y)|
    requires -cfg.DHalf() <= Vec(st, x)[i] * Vec(st, y)[j] < cfg.DHalf()
    ensures Good(cfg, Times(At(x, i), At(y, j)), st, Vec(st, x)[i] * Vec(st, y)[j])
  {
    hide Config.DHalf, Config.Radix, Good;
    GoodAt(cfg, st, x, i);
    GoodAt(cfg, st, y, j);
    GoodTimes(cfg, st, At(x, i), Vec(st, x)[i], At(y, j), Vec(st, y)[j]);
  }

  lemma AddProductFits(cfg: Config, st: State, k: nat)
    requires cfg.Valid() && st.R == cfg.Radix() && k < |st.v| && 0 < |st.md|
    requires var y := st.v[k] * st.md[0]; -cfg.DHalf() <= y < cfg.DHalf() && -cfg.DHalf() <= st.t + y < cfg.DHalf()
    ensures StmtFits(cfg, Set(T, Plus(Var(T), Times(At(V, k), At(MD, 0)))), st)
  {
    hide Config.DHalf, Config.Radix, Good, StmtFits;
    var y := st.v[k] * st.md[0];
    GoodProduct(cfg, st, V, k, MD, 0);
    GoodVar(cfg, st);
    GoodPlus(cfg, st, Var(T), st.t, Times(At(V, k), At(MD, 0)), y);
    SetFits(cfg, st, T, Plus(Var(T), Times(At(V, k), At(MD, 0))), st.t + y);
  }

  lemma DiagonalLineFits(cfg: Config, st: State, k: nat)
    requires cfg.Valid() && st.R == cfg.Radix() && k < |st.v| && k < |st.md| && k < |st.dd|
    requires var y := st.v[k] * st.md[k]; -cfg.DHalf() <= y < cfg.DHalf() && -cfg.DHalf() <= st.s + y < cfg.DHalf()
    ensures Fits(cfg, DiagonalLine(k), st)
  {
    var y := st.v[k] * st.md[k];
    var st1 := st.(dd := st.dd[k := y]);
    var st2 := st1.(s := st.s + y);
    EvalTimes(st, V, k, MD, k);
    AddToS(st1, k);
    EvalT(st2);
    hide Exec, Fits, Eval, Safe, Good, StmtFits, Config.Radix, Config.DHalf;
    GoodProduct(cfg, st, V, k, MD, k);
    StoreFits(cfg, st, DD, k, Times(At(V, k), At(MD, k)), y);
    GoodVar(cfg, st1);
    GoodAt(cfg, st1, DD, k);
    GoodPlus(cfg, st1, Var(S), st.s, At(DD, k), y);
    SetFits(cfg, st1, S, Plus(Var(S), At(DD, k)), st.s + y);
    ShiftFits(cfg, st2, CC);
    ExecStore(st, k, Times(At(V, k), At(MD, k)), y);
    ExecSet(st2, Shift(Var(T)), st.t / st.R);
    FitsOne(cfg, Set(CC, Shift(Var(T))), st2);
    FitsCons(cfg, Set(S, Plus(Var(S), At(DD, k))), [Set(CC, Shift(Var(T)))], st1);
    FitsCons(cfg, Store(DD, k, Times(At(V, k), At(MD, k))),
        [Set(S, Plus(Var(S), At(DD, k)))] + [Set(CC, Shift(Var(T)))], st);
  }

  lemma LowLineFits(cfg: Config, st: State, sum: Expr, k: nat, t': int)
    requires cfg.Valid() && k < |st.v| == |st.md| == |st.dd| && Good(cfg, sum, st, t')
    requires var x := (t' * st.mc) % st.R;
             && -cfg.DHalf() <= x * st.md[0] < cfg.DHalf() && -cfg.DHalf() <= t' + x * st.md[0] < cfg.DHalf()
             && -cfg.DHalf() <= x * st.md[k] < cfg.DHalf() && -cfg.DHalf() <= st.s + x * st.md[k] < cfg.DHalf()
    ensures Fits(cfg, LowLine(sum, k), st)
  {
    var st1 := st.(t := t');
    assert st.R == cfg.Radix();
    GoodValue(cfg, sum, st, t');
    SetFits(cfg, st, T, sum, t');
    ExecSet(st, sum, t');
    hide Run, Exec, Fits, Eval, Safe, QuotientLine, DiagonalLine, StmtFits, Config.DHalf, Config.Radix, Good;
    DigitLinesFit(cfg, st1, k, (t' * st.mc) % st.R);
    FitsCons(cfg, Set(T, sum), QuotientLine(k) + DiagonalLine(k), st);
  }

  lemma DigitLinesFit(cfg: Config, st: State, k: nat, x: int)
    requires cfg.Valid() && st.R == cfg.Radix() && k < |st.v| == |st.md| == |st.dd| && x == (st.t * st.mc) % st.R
    requires -cfg.DHalf() <= x * st.md[0] < cfg.DHalf() && -cfg.DHalf() <= st.t + x * st.md[0] < cfg.DHalf()
    requires -cfg.DHalf() <= x * st.md[k] < cfg.DHalf() && -cfg.DHalf() <= st.s + x * st.md[k] < cfg.DHalf()
    ensures Fits(cfg, QuotientLine(k) + DiagonalLine(k), st)
  {
    hide Run, Exec, Fits, Eval, Safe, QuotientLine, DiagonalLine, StmtFits, Config.DHalf, Config.Radix;
    QuotientEffect(st, k);
    QuotientLineFits(cfg, st, k);
    DiagonalLineFits(cfg, st.(v := st.v[k := x], t := st.t + x * st.md[0]), k);
    FitsAppend(cfg, QuotientLine(k), DiagonalLine(k), st);
  }

  lemma UpperBaseFits(cfg: Config, st: State, k: nat)
    requires cfg.Valid() && st.R == cfg.Radix() && k < |st.d|
    requires -cfg.DHalf() <= st.d[k] + st.cc < cfg.DHalf() && -cfg.DHalf() <= st.d[k] + st.cc + st.s < cfg.DHalf()
    ensures Good(cfg, UpperBase(k), st, st.d[k] + st.cc + st.s)
  {
    hide Config.DHalf, Config.Radix, Good;
    GoodAt(cfg, st, D, k);
    GoodVar(cfg, st);
    GoodPlus(cfg, st, At(D, k), st.d[k], Var(CC), st.cc);
    GoodPlus(cfg, st, Plus(At(D, k), Var(CC)), st.d[k] + st.cc, Var(S), st.s);
  }

  lemma LowerBaseFits(cfg: Config, st: State, k: nat)
    requires cfg.Valid() && st.R == cfg.Radix() && k < |st.d| && 0 < |st.v| && k < |st.md|
    requires Good(cfg, UpperBase(k), st, st.d[k] + st.cc + st.s)
    requires var y := st.v[0] * st.md[k];
             -cfg.DHalf() <= y < cfg.DHalf() && -cfg.DHalf() <= st.d[k] + st.cc + st.s + y < cfg.DHalf()
    ensures Good(cfg, LowerBase(k), st, st.d[k] + st.cc + st.s + st.v[0] * st.md[k])
  {
    hide Config.DHalf, Config.Radix, Good;
    GoodProduct(cfg, st, V, 0, MD, k);
    GoodPlus(cfg, st, UpperBase(k), st.d[k] + st.cc + st.s, Times(At(V, 0), At(MD, k)), st.v[0] * st.md[k]);
  }

  lemma LowStarts(cfg: Config, st0: State, st: State, n: nat, k: nat)
    requires 1 <= k < n && Small(cfg, st0, n) && LowState(st0, st, n, k)
    ensures Starts(cfg, st, n, k, LowerBase(k), k - 1 - k / 2)
    ensures Eval(LowerBase(k), st) == st.d[k] + st.cc + st.s + st.v[0] * st.md[k]
  {
    hide Carry, Conv, Diag, Eval, Safe, Good, Pow, Val, IsConstant, Cancelled, MontyColumns,
      Roomy, Room, Config.DHalf, Config.Radix, LowerBase, UpperBase;
    QuotientRange(cfg, st.d, st.v, st.md, k, 0);
    LowRange(cfg, st.d, st.v, st.md, k, 0);
    ProductFits(cfg, st.v[0], st.md[k]);
    RoomNonNegative(cfg, k - 1 - k / 2);
    UpperBaseFits(cfg, st, k);
    LowerBaseFits(cfg, st, k);
    GoodValue(cfg, LowerBase(k), st, st.d[k] + st.cc + st.s + st.v[0] * st.md[k]);
  }

  lemma LowWords(cfg: Config, st0: State, st: State, sum: Expr, n: nat, k: nat)
    requires 1 <= k < n && Small(cfg, st0, n) && LowState(st0, st, n, k)
    requires AddsDifferences(sum, LowerBase(k), n, k, k / 2 + 1, k - 1)
    requires SumFits(sum, LowerBase(k), n, k, k - 1 - k / 2, k - 1 - k / 2)
    ensures Fits(cfg, LowLine(sum, k), st)
  {
    hide Fits, Carry, Conv, Cross, Diag, Eval, Safe, Good, Pow, Val, IsConstant, Cancelled, MontyColumns,
      LowLine, Roomy, Room, Config.DHalf, Config.Radix, LowerBase;
    LowStarts(cfg, st0, st, n, k);
    var t' := st.d[k] + st.cc + st.s + st.v[0] * st.md[k] + Cross(st.v, st.md, k / 2 + 1, k, k);
    assert Good(cfg, sum, st, t');
    hide AddsDifferences, SumFits, Starts;
    var x := (t' * st.mc) % st.R;
    Karatsuba(st.v, st.md, 1, k - 1, k);
    RowZero(st.v, st.md, k);
    QuotientRange(cfg, st.d, st.v, st.md, k, x);
    LowRange(cfg, st.d, st.v, st.md, k, x);
    ProductFits(cfg, x, st.md[k]);
    LowLineFits(cfg, st, sum, k, t');
  }

  lemma HighLineFits(cfg: Config, st: State, sum: Expr, j: nat, t': int)
    requires cfg.Valid() && j < |st.a| && j + 1 < |st.dd| && Good(cfg, sum, st, t')
    requires -cfg.DHalf() <= st.s - st.dd[j + 1] < cfg.DHalf()
    ensures Fits(cfg, HighLine(sum, j), st)
  {
    var st1 := st.(t := t');
    var st2 := st1.(a := st.a[j := t' % st.R]);
    var st3 := st2.(s := st.s - st.dd[j + 1]);
    var drop := Minus(Var(S), At(DD, j + 1));
    assert st.R == cfg.Radix();
    GoodValue(cfg, sum, st, t');
    SetFits(cfg, st, T, sum, t');
    ExecSet(st, sum, t');
    StoreDigitFits(cfg, st1, A, j);
    ShiftFits(cfg, st3, CC);
    EvalT(st1);
    EvalDrop(st2, j + 1);
    EvalT(st3);
    hide Exec, Fits, Eval, Safe, StmtFits, Config.Radix, Config.DHalf, Good;
    GoodVar(cfg, st2);
    GoodAt(cfg, st2, DD, j + 1);
    GoodMinus(cfg, st2, Var(S), st.s, At(DD, j + 1), st.dd[j + 1]);
    SetFits(cfg, st2, S, drop, st.s - st.dd[j + 1]);
    ExecStore(st1, j, Mask(Var(T)), t' % st.R);
    ExecSet(st2, drop, st.s - st.dd[j + 1]);
    ExecSet(st3, Shift(Var(T)), t' / st.R);
    FitsOne(cfg, Set(CC, Shift(Var(T))), st3);
    FitsCons(cfg, Set(S, drop), [Set(CC, Shift(Var(T)))], st2);
    FitsCons(cfg, Store(A, j, Mask(Var(T))), [Set(S, drop)] + [Set(CC, Shift(Var(T)))], st1);
    FitsCons(cfg, Set(T, sum), [Store(A, j, Mask(Var(T)))] + ([Set(S, drop)] + [Set(CC, Shift(Var(T)))]), st);
  }

  lemma HighWords(cfg: Config, st0: State, st: State, sum: Expr, n: nat, k: nat)
    requires n <= k < 2 * n - 1 && Small(cfg, st0, n) && HighState(st0, st, n, k)
    requires AddsDifferences(sum, UpperBase(k), n, k, k / 2 + 1, n - 1)
    requires SumFits(sum, UpperBase(k), n, n, n - 1 - k / 2, n - 1 - k / 2)
    ensures Fits(cfg, HighLine(sum, k - n), st)
  {
    hide Fits, Carry, Reduced, Conv, Cross, Diag, Eval, Safe, Good, Pow, Val, IsConstant, Cancelled, MontyColumns,
      HighLine, Roomy, Room, Config.DHalf, Config.Radix, UpperBase;
    var t' := st.d[k] + st.cc + st.s + Cross(st.v, st.md, k / 2 + 1, n, k);
    MontyFits(cfg, st.d, st.v, st.md, k, n);
    UpperColumn(cfg, st.v, st.md, st.d, k);
    DiagFirst(st.v, st.md, k - n + 1, n);
    DiagFits(cfg, st.v, st.md, k - n + 2, n);
    RoomNonNegative(cfg, n);
    UpperBaseFits(cfg, st, k);
    GoodValue(cfg, UpperBase(k), st, st.d[k] + st.cc + st.s);
    assert Starts(cfg, st, n, n, UpperBase(k), n - 1 - k / 2);
    HighLineFits(cfg, st, sum, k - n, t');
  }

  lemma RoomNonNegative(cfg: Config, n: nat)
    requires cfg.Valid()
    ensures Room(cfg, n) >= 0
  {
    var r := cfg.Radix() - 1;
    MulBound(r, r, r);
    MulMono(0, n, r * r);
  }

  // ---------------------------------------------------------------- whole program

  ghost predicate TakesLow(prog: seq<Stmt>, n: nat, k: nat)
    requires 1 <= k <= n
  {
    forall st0: State | Ready(st0, n) :: var r := Run(prog, st0); r.Done? && LowState(st0, r.st, n, k)
  }

  ghost predicate TakesHigh(prog: seq<Stmt>, n: nat, k: nat)
    requires n <= k <= 2 * n - 1
  {
    forall st0: State | Ready(st0, n) :: var r := Run(prog, st0); r.Done? && HighState(st0, r.st, n, k)
  }

  lemma LowEmitted(prog: seq<Stmt>, sum: Expr, n: nat, k: nat)
    requires 1 <= k < n && TakesLow(prog, n, k)
    requires AddsDifferences(sum, LowerBase(k), n, k, k / 2 + 1, k - 1)
    ensures TakesLow(prog + LowLine(sum, k), n, k + 1)
  {
    hide Run, LowState, Ready, AddsDifferences, LowLine;
    forall st0: State | Ready(st0, n)
      ensures var r := Run(prog + LowLine(sum, k), st0); r.Done? && LowState(st0, r.st, n, k + 1)
    {
      RunAppend(prog, LowLine(sum, k), st0);
      LowEffect(st0, Run(prog, st0).st, sum, n, k);
    }
  }

  lemma HighEmitted(prog: seq<Stmt>, sum: Expr, n: nat, k: nat)
    requires n <= k < 2 * n - 1 && TakesHigh(prog, n, k)
    requires AddsDifferences(sum, UpperBase(k), n, k, k / 2 + 1, n - 1)
    ensures TakesHigh(prog + HighLine(sum, k - n), n, k + 1)
  {
    hide Run, HighState, Ready, AddsDifferences, HighLine;
    forall st0: State | Ready(st0, n)
      ensures var r := Run(prog + HighLine(sum, k - n), st0); r.Done? && HighState(st0, r.st, n, k + 1)
    {
      RunAppend(prog, HighLine(sum, k - n), st0);
      HighEffect(st0, Run(prog, st0).st, sum, n, k);
    }
  }

  /** prog runs on words as it does on integers, from every acceptable starting state. */
  ghost predicate ProgramFits(prog: seq<Stmt>, n: nat) {
    forall cfg: Config, st0: State | Small(cfg, st0, n) :: Fits(cfg, prog, st0)
  }

  lemma SmallRadix(cfg: Config, st: State, n: nat)
    requires Small(cfg, st, n)
    ensures cfg.Valid() && st.R == cfg.Radix() && Ready(st, n)
  {
  }

  lemma LowWordsEmitted(prog: seq<Stmt>, sum: Expr, n: nat, k: nat)
    requires 1 <= k < n && TakesLow(prog, n, k) && ProgramFits(prog, n)
    requires AddsDifferences(sum, LowerBase(k), n, k, k / 2 + 1, k - 1)
    requires SumFits(sum, LowerBase(k), n, k, k - 1 - k / 2, k - 1 - k / 2)
    ensures ProgramFits(prog + LowLine(sum, k), n)
  {
    hide Run, LowState, Ready, AddsDifferences, SumFits, LowLine, Fits;
    forall cfg: Config, st0: State | Small(cfg, st0, n)
      ensures Fits(cfg, prog + LowLine(sum, k), st0)
    {
      SmallRadix(cfg, st0, n);
      LowWords(cfg, st0, Run(prog, st0).st, sum, n, k);
      FitsAppend(cfg, prog, LowLine(sum, k), st0);
    }
  }

  lemma HighWordsEmitted(prog: seq<Stmt>, sum: Expr, n: nat, k: nat)
    requires n <= k < 2 * n - 1 && TakesHigh(prog, n, k) && ProgramFits(prog, n)
    requires AddsDifferences(sum, UpperBase(k), n, k, k / 2 + 1, n - 1)
    requires SumFits(sum, UpperBase(k), n, n, n - 1 - k / 2, n - 1 - k / 2)
    ensures ProgramFits(prog + HighLine(sum, k - n), n)
  {
    hide Run, HighState, Ready, AddsDifferences, SumFits, HighLine, Fits;
    forall cfg: Config, st0: State | Small(cfg, st0, n)
      ensures Fits(cfg, prog + HighLine(sum, k - n), st0)
    {
      SmallRadix(cfg, st0, n);
      HighWords(cfg, st0, Run(prog, st0).st, sum, n, k);
      FitsAppend(cfg, prog, HighLine(sum, k - n), st0);
    }
  }

  lemma Halfway(prog: seq<Stmt>, n: nat)
    requires n >= 1 && TakesLow(prog, n, n)
    ensures TakesHigh(prog, n, n)
  {
    hide Run, Carry, Reduced, Conv, Cross, Diag, Eval, Safe, Pow, Val, IsConstant, Cancelled, MontyColumns;
  }

  /** t=d[0]; v[0]=((chunk)t*MC)&BMASK; t+=(dchunk)v[0]*md[0]; s=0; c=(t>>BASEBITS); */
  function FirstLines(): seq<Stmt> {
    [Set(T, At(D, 0))] + (QuotientLine(0) + ([Set(S, Zero)] + [Set(CC, Shift(Var(T)))]))
  }

  lemma FirstEffect(st: State, n: nat)
    requires n >= 1 && Ready(st, n)
    ensures var r := Run(FirstLines(), st); r.Done? && LowState(st, r.st, n, 1)
  {
    hide Run, Carry, Reduced, Conv, Pow, Val, IsConstant;
    var t' := st.d[0];
    var x := (t' * st.mc) % st.R;
    var w := t' + x * st.md[0];
    var tail := [Set(S, Zero)] + [Set(CC, Shift(Var(T)))];
    var st1 := st.(t := t');
    var st2 := st1.(v := st.v[0 := x], t := w);
    var st3 := st2.(s := 0);
    assert Safe(At(D, 0), st) && Eval(At(D, 0), st) == t';
    ExecSet(st, At(D, 0), t');
    RunCons(Set(T, At(D, 0)), QuotientLine(0) + tail, st);
    RunAppend(QuotientLine(0), tail, st1);
    QuotientEffect(st1, 0);
    assert Safe(Zero, st2) && Eval(Zero, st2) == 0;
    RunCons(Set(S, Zero), [Set(CC, Shift(Var(T)))], st2);
    assert Safe(Var(T), st3) && Eval(Var(T), st3) == w;
    RunOne(Set(CC, Shift(Var(T))), st3);
    FirstQuotient(st.d, st.v, st.md, n, t', x, st.mc, st.R);
  }

  lemma FirstWords(cfg: Config, st: State, n: nat)
    requires n >= 1 && Small(cfg, st, n)
    ensures Fits(cfg, FirstLines(), st)
  {
    hide Run, Fits, Roomy, Room, Pow, Val, IsConstant, MontyColumns, QuotientLine, Config.DHalf, Config.Radix;
    var x := (st.d[0] * st.mc) % st.R;
    var st1 := st.(t := st.d[0]);
    QuotientRange(cfg, st.d, st.v, st.md, 0, x);
    assert Carry(MontyColumns(st.d, st.v, st.md), 0, st.R) == 0 && Conv(st.v, st.md, 0, 0, 0) == 0;
    FirstTail(cfg, st1.(v := st.v[0 := x], t := st.d[0] + x * st.md[0]));
    GoodAt(cfg, st, D, 0);
    GoodValue(cfg, At(D, 0), st, st.d[0]);
    hide Carry, Conv, Good, StmtFits, Exec, Eval, Safe;
    SetFits(cfg, st, T, At(D, 0), st.d[0]);
    ExecSet(st, At(D, 0), st.d[0]);
    QuotientEffect(st1, 0);
    QuotientLineFits(cfg, st1, 0);
    FitsAppend(cfg, QuotientLine(0), [Set(S, Zero)] + [Set(CC, Shift(Var(T)))], st1);
    FitsCons(cfg, Set(T, At(D, 0)), QuotientLine(0) + ([Set(S, Zero)] + [Set(CC, Shift(Var(T)))]), st);
  }

  lemma FirstTail(cfg: Config, st: State)
    requires cfg.Valid() && st.R == cfg.Radix()
    ensures Fits(cfg, [Set(S, Zero)] + [Set(CC, Shift(Var(T)))], st)
  {
    var st1 := st.(s := 0);
    ShiftFits(cfg, st1, CC);
    EvalT(st1);
    ExecSet(st1, Shift(Var(T)), st.t / st.R);
    assert Good(cfg, Zero, st, 0);
    hide Fits, Config.Radix;
    assert StmtFits(cfg, Set(S, Zero), st);
    ExecSet(st, Zero, 0);
    hide Exec, StmtFits, Good;
    FitsOne(cfg, Set(CC, Shift(Var(T))), st1);
    FitsCons(cfg, Set(S, Zero), [Set(CC, Shift(Var(T)))], st);
  }

  lemma FirstQuotient(d: seq<int>, v: seq<int>, md: seq<int>, n: nat, t: int, x: int, MC: int, R: int)
    requires n >= 1 && R >= 1 && |v| == |md| == n && |d| == 2 * n && IsConstant(MC, md[0], R)
    requires t == d[0] && x == (t * MC) % R
    ensures Cancelled(MontyColumns(d, v[0 := x], md), 1, R)
    ensures (t + x * md[0]) / R == Carry(MontyColumns(d, v[0 := x], md), 1, R)
    ensures Diag(v[0 := x], md, 1, 1) == 0
  {
    assert Carry(MontyColumns(d, v, md), 0, R) == 0 && Conv(v, md, 0, 0, 0) == 0;
    QuotientStep(d, v, md, 0, t, x, MC, R);
  }

  /** a[N-1]=d[2N-1]+((chunk)c&BMASK); */
  function LastLine(n: nat): seq<Stmt>
    requires n >= 1
  {
    [Store(A, n - 1, Plus(At(D, 2 * n - 1), Mask(Var(CC))))]
  }

  lemma EvalTop(st: State, top: nat)
    requires st.R >= 1 && top < |st.d|
    ensures var e := Plus(At(D, top), Mask(Var(CC))); Safe(e, st) && Eval(e, st) == st.d[top] + st.cc % st.R
  {
    assert Safe(Var(CC), st) && Eval(Var(CC), st) == st.cc;
    assert Safe(At(D, top), st) && Eval(At(D, top), st) == st.d[top];
    assert Safe(Mask(Var(CC)), st) && Eval(Mask(Var(CC)), st) == st.cc % st.R;
  }

  lemma LastStore(st: State, n: nat)
    requires n >= 1 && st.R >= 1 && |st.a| == n && |st.d| == 2 * n
    ensures Run(LastLine(n), st) == Done(st.(a := st.a[n - 1 := st.d[2 * n - 1] + st.cc % st.R]))
  {
    hide Run, Exec, Eval, Safe;
    EvalTop(st, 2 * n - 1);
    StoreOne(st, n - 1, Plus(At(D, 2 * n - 1), Mask(Var(CC))), st.d[2 * n - 1] + st.cc % st.R);
  }

  lemma StoreOne(st: State, i: nat, e: Expr, w: int)
    requires st.R >= 1 && i < |st.a| && Safe(e, st) && Eval(e, st) == w
    ensures Run([Store(A, i, e)], st) == Done(st.(a := st.a[i := w]))
  {
    hide *;
    ExecStore(st, i, e, w);
    RunOne(Store(A, i, e), st);
  }

  lemma LastEffect(st0: State, st: State, n: nat)
    requires n >= 1 && HighState(st0, st, n, 2 * n - 1)
    ensures var r := Run(LastLine(n), st);
            r.Done? && Normal(r.st.a, st0.R) && |r.st.a| == n
            && IsReduction(Value(r.st.a, st0.R), Value(st0.d, st0.R), Value(st0.md, st0.R), Pow(st0.R, n))
  {
    hide Run, Reduced, Carry, Conv, Diag, Pow, Val, IsReduction, Cancelled, MontyColumns;
    var cols, R := Cols(st), st.R;
    LastStore(st, n);
    HighHalf(st.d, st.v, st.md, Reduced(cols, 2 * n, R)[n..], n, R);
    TopLimb(st.d, st.v, st.md, st.cc, n, R);
    var top := st.d[2 * n - 1] + st.cc % R;
    assert st.a[n - 1 := top] == st.a[..n - 1] + [top];
    assert Reduced(cols, 2 * n, R)[n..] == Reduced(cols, 2 * n - 1, R)[n..] + [top];
  }

  /** The carry into the top column is a digit that d[2N-1] does not overflow, so adding the masked
      carry and masking the sum give the same limb. */
  lemma TopLimb(d: seq<int>, v: seq<int>, md: seq<int>, cc: int, n: nat, R: int)
    requires R >= 2 && |v| == |md| == n > 0 && |d| == 2 * n
    requires Normal(d, R) && Normal(v, R) && Normal(md, R)
    requires cc == Carry(MontyColumns(d, v, md), 2 * n - 1, R)
    requires Carry(MontyColumns(d, v, md), 2 * n, R) == 0
    ensures d[2 * n - 1] + cc % R == (cc + d[2 * n - 1]) % R
    ensures Reduced(MontyColumns(d, v, md), 2 * n, R)
      == Reduced(MontyColumns(d, v, md), 2 * n - 1, R) + [(cc + d[2 * n - 1]) % R]
  {
    var cols := MontyColumns(d, v, md);
    ConvZero(v, md, 0, n, 2 * n - 1);
    ColumnAt(d, v, md, 2 * n - 1);
    ReducedStep(cols, 2 * n - 1, cc + d[2 * n - 1], R);
    MontyCarryNonNegative(d, v, md, 2 * n - 1, R);
    var w := cc + d[2 * n - 1];
    assert w == (w / R) * R + w % R;
    DivModUnique(cc, R, 0, cc);
  }

  /** On words the top limb stays a digit too. */
  lemma LastWords(cfg: Config, st0: State, st: State, n: nat)
    requires n >= 1 && Small(cfg, st0, n) && HighState(st0, st, n, 2 * n - 1)
    ensures Fits(cfg, LastLine(n), st)
  {
    hide Fits, Exec, Eval, Safe, InRange, Masked, Reduced, Carry, Conv, Diag, Pow, Val, IsReduction, Cancelled,
        MontyColumns,
      Roomy, Config.DHalf, Config.Half, Config.Radix;
    HighHalf(st.d, st.v, st.md, Reduced(Cols(st), 2 * n, st.R)[n..], n, st.R);
    TopLimb(st.d, st.v, st.md, st.cc, n, st.R);
    var top := st.d[2 * n - 1] + st.cc % st.R;
    TopFits(cfg, st, n, top);
    EvalTop(st, 2 * n - 1);
    ExecStore(st, n - 1, Plus(At(D, 2 * n - 1), Mask(Var(CC))), top);
    FitsOne(cfg, Store(A, n - 1, Plus(At(D, 2 * n - 1), Mask(Var(CC)))), st);
  }

  lemma TopFits(cfg: Config, st: State, n: nat, top: int)
    requires cfg.Valid() && Roomy(cfg) && n >= 1 && st.R == cfg.Radix() && |st.d| == 2 * n
    requires top == st.d[2 * n - 1] + st.cc % st.R && 0 <= top < st.R
    ensures StmtFits(cfg, Store(A, n - 1, Plus(At(D, 2 * n - 1), Mask(Var(CC)))), st)
  {
    hide Config.DHalf, Config.Half, Config.Radix, Roomy, Good, StmtFits;
    RadixIsChunk(cfg);
    GoodAt(cfg, st, D, 2 * n - 1);
    GoodCarry(cfg, st);
    GoodChunkPlus(cfg, st, At(D, 2 * n - 1), st.d[2 * n - 1], Mask(Var(CC)), st.cc % st.R);
    StoreFits(cfg, st, A, n - 1, Plus(At(D, 2 * n - 1), Mask(Var(CC))), top);
  }

  lemma GoodCarry(cfg: Config, st: State)
    requires cfg.Valid() && st.R == cfg.Radix()
    ensures Good(cfg, Mask(Var(CC)), st, st.cc % st.R)
  {
    assert Safe(Var(CC), st) && Eval(Var(CC), st) == st.cc && Masked(Var(CC)) && InRange(cfg, Var(CC), st);
  }

  /** The emitted program is a Montgomery reduction for every NLEN, with the same limbs as the loop
      forms.  It never indexes outside an array and, on words, nothing overflows. */
  method InlineRedc2(n: nat) returns (prog: seq<Stmt>)
    requires n >= 2
    ensures forall st: State | Ready(st, n) ::
              var r := Run(prog, st);
              r.Done? && Normal(r.st.a, st.R) && |r.st.a| == n
              && IsReduction(Value(r.st.a, st.R), Value(st.d, st.R), Value(st.md, st.R), Pow(st.R, n))
    ensures forall cfg: Config, st: State | Small(cfg, st, n) :: WordRun(cfg, prog, st) == Run(prog, st)
  {
    hide *;
    prog := FirstLines();
    FirstEmitted(n);
    var k := 1;
    while k < n
      invariant 1 <= k <= n && TakesLow(prog, n, k) && ProgramFits(prog, n)
    {
      BasesAreWide(k);
      var sum := DifferenceSum(LowerBase(k), n, k, k - 1);
      LowEmitted(prog, sum, n, k);
      LowWordsEmitted(prog, sum, n, k);
      prog := prog + LowLine(sum, k);
      k := k + 1;
    }
    Halfway(prog, n);
    while k < 2 * n - 1
      invariant n <= k <= 2 * n - 1 && TakesHigh(prog, n, k) && ProgramFits(prog, n)
    {
      BasesAreWide(k);
      var sum := DifferenceSum(UpperBase(k), n, k, n - 1);
      HighEmitted(prog, sum, n, k);
      HighWordsEmitted(prog, sum, n, k);
      prog := prog + HighLine(sum, k - n);
      k := k + 1;
    }
    LastEmitted(prog, n);
    LastWordsEmitted(prog, n);
    prog := prog + LastLine(n);
    OnWords(prog, n);
  }

  lemma OnWords(prog: seq<Stmt>, n: nat)
    requires ProgramFits(prog, n)
    ensures forall cfg: Config, st: State | Small(cfg, st, n) :: WordRun(cfg, prog, st) == Run(prog, st)
  {
    forall cfg: Config, st: State | Small(cfg, st, n)
      ensures WordRun(cfg, prog, st) == Run(prog, st)
    {
      WordRunExact(cfg, prog, st);
    }
  }

  lemma LastWordsEmitted(prog: seq<Stmt>, n: nat)
    requires n >= 1 && TakesHigh(prog, n, 2 * n - 1) && ProgramFits(prog, n)
    ensures ProgramFits(prog + LastLine(n), n)
  {
    hide Run, HighState, Ready, LastLine, Fits;
    forall cfg: Config, st0: State | Small(cfg, st0, n)
      ensures Fits(cfg, prog + LastLine(n), st0)
    {
      SmallRadix(cfg, st0, n);
      LastWords(cfg, st0, Run(prog, st0).st, n);
      FitsAppend(cfg, prog, LastLine(n), st0);
    }
  }

  lemma FirstEmitted(n: nat)
    requires n >= 1
    ensures TakesLow(FirstLines(), n, 1) && ProgramFits(FirstLines(), n)
  {
    hide Run, LowState, Ready, FirstLines, Fits;
    forall cfg: Config, st0: State | Small(cfg, st0, n)
      ensures Fits(cfg, FirstLines(), st0)
    {
      FirstWords(cfg, st0, n);
    }
    forall st0: State | Ready(st0, n)
      ensures var r := Run(FirstLines(), st0); r.Done? && LowState(st0, r.st, n, 1)
    {
      FirstEffect(st0, n);
    }
  }

  lemma LastEmitted(prog: seq<Stmt>, n: nat)
    requires n >= 1 && TakesHigh(prog, n, 2 * n - 1)
    ensures forall st: State | Ready(st, n) ::
              var r := Run(prog + LastLine(n), st);
              r.Done? && Normal(r.st.a, st.R) && |r.st.a| == n
              && IsReduction(Value(r.st.a, st.R), Value(st.d, st.R), Value(st.md, st.R), Pow(st.R, n))
  {
    hide Run, HighState, Ready, LastLine, IsReduction, Normal, Pow, Val;
    forall st0: State | Ready(st0, n)
      ensures var r := Run(prog + LastLine(n), st0);
              r.Done? && Normal(r.st.a, st0.R) && |r.st.a| == n
              && IsReduction(Value(r.st.a, st0.R), Value(st0.d, st0.R), Value(st0.md, st0.R), Pow(st0.R, n))
    {
      RunAppend(prog, LastLine(n), st0);
      LastEffect(st0, Run(prog, st0).st, n);
    }
  }
}
