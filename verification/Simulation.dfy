/**
  Running the compiled cells does what the source means: same data stack, same
  return stack, instruction pointer just past the statement, at the leave address of
  the loop that was left, or at the caller.
 */
module Simulation {
  import opened Machine
  import S = Source
  import L = Layout

  /** The caller's side of an activation: its return stack, the return address, its
      frame index, and the number of locals of the running definition. */
  datatype Act = Act(low: seq<int>, back: int, frame: int, nlocals: nat)

  /** The running system: host, code memory, and the program with its entry addresses. */
  datatype World = World(h: Host, code: seq<Cell>, prog: S.Program, entry: seq<int>)

  /** Leave addresses of the loops in progress, by item position. */
  type Leaves = map<int, int>

  function LeaveAt(lv: Leaves, i: int): int {
    if i in lv then lv[i] else 0
  }

  /** The return-stack cells of an item. */
  function ItemCells(x: S.Item, leave: int): seq<int> {
    match x
    case Val(v) => [v]
    case Ctl(limit, index) => [leave, limit, index]
  }

  function Cells(rs: seq<S.Item>, lv: Leaves): seq<int> {
    if rs == [] then [] else Cells(rs[..|rs| - 1], lv) + ItemCells(rs[|rs| - 1], LeaveAt(lv, |rs| - 1))
  }

  function Base(act: Act, locals: seq<int>): seq<int> {
    if act.nlocals > 0 then act.low + [act.back, act.frame] + locals else act.low + [act.back]
  }

  /** The whole return stack. */
  function Ret(act: Act, locals: seq<int>, rs: seq<S.Item>, lv: Leaves): seq<int> {
    Base(act, locals) + Cells(rs, lv)
  }

  function FrameOf(act: Act): int {
    if act.nlocals > 0 then |act.low| + 2 else act.frame
  }

  /** The machine state that represents source state st at address ip. */
  function Mach(act: Act, st: S.St, ip: int, lv: Leaves): State {
    State(ip, st.data, Ret(act, st.locals, st.rs, lv), FrameOf(act))
  }

  /** The machine state after the definition has returned. */
  function Returned(act: Act, data: seq<int>): State {
    State(act.back, data, act.low, act.frame)
  }

  ghost predicate Reaches(x: World, m: State, o: Outcome) {
    exists n: nat :: Run(x.h, x.code, m, n) == o
  }

  /** The machine run from m agrees with result r of a statement that ends at `next`. */
  ghost predicate Agrees(x: World, m: State, r: S.Result, fuel: nat, act: Act, lv: Leaves, next: int) {
    match r
    case Normal(st) => |st.locals| == act.nlocals && Reaches(x, m, Next(Mach(act, st, next, lv)))
    case Left(st) =>
      |st.locals| == act.nlocals && Reaches(x, m, Next(Mach(act, st, LeaveAt(lv, |st.rs|), lv)))
    case Exited(data) => Reaches(x, m, Next(Returned(act, data)))
    case Throws => Reaches(x, m, Throw)
    case Stuck => true
    case Timeout => Run(x.h, x.code, m, fuel).Next?
  }

  /** The cells c are in memory at address `at`. */
  ghost predicate Placed(code: seq<Cell>, at: nat, c: seq<Cell>) {
    at + |c| <= |code| && forall i {:trigger c[i]} :: 0 <= i < |c| ==> code[at + i] == c[i]
  }

  /** Every definition of the program is in memory at its entry. */
  ghost predicate Installed(x: World) {
    |x.entry| == |x.prog| &&
    forall w :: 0 <= w < |x.prog| ==>
      x.entry[w] >= 0 &&
      Placed(x.code, x.entry[w], L.DefCode(L.Env(x.entry, x.prog[w].nlocals), x.prog[w].body, x.entry[w]))
  }

  // ---------------------------------------------------------------------
  // Running

  lemma ReachTrans(x: World, m: State, m1: State, o: Outcome)
    requires Reaches(x, m, Next(m1)) && Reaches(x, m1, o)
    ensures Reaches(x, m, o)
  {
    hide Step;
    var a: nat :| Run(x.h, x.code, m, a) == Next(m1);
    var b: nat :| Run(x.h, x.code, m1, b) == o;
    RunSplit(x.h, x.code, m, a, b);
    assert Run(x.h, x.code, m, a + b) == o;
  }

  lemma ReachStep(x: World, m: State, o: Outcome)
    requires Step(x.h, x.code, m) == o
    ensures Reaches(x, m, o)
  {
    hide Step;
    assert Run(x.h, x.code, m, 1) == o by {
      match o
      case Next(m1) => assert Run(x.h, x.code, m1, 0) == o;
      case _ =>
    }
  }

  /** A run that is still going after n steps was going all the time. */
  lemma StillRunning(x: World, m: State, n: nat, k: nat)
    requires Run(x.h, x.code, m, n).Next? && k <= n
    ensures Run(x.h, x.code, m, k).Next?
  {
    hide Step;
    RunSplit(x.h, x.code, m, k, n - k);
  }

  /** Agreement seen from an earlier state. */
  lemma AgreesBefore(x: World, m: State, m1: State, r: S.Result, fuel: nat, act: Act, lv: Leaves, next: int)
    requires Reaches(x, m, Next(m1)) && Agrees(x, m1, r, fuel, act, lv, next)
    ensures Agrees(x, m, r, fuel, act, lv, next)
  {
    hide Step;
    match r
    case Normal(st) => ReachTrans(x, m, m1, Next(Mach(act, st, next, lv)));
    case Left(st) => ReachTrans(x, m, m1, Next(Mach(act, st, LeaveAt(lv, |st.rs|), lv)));
    case Exited(data) => ReachTrans(x, m, m1, Next(Returned(act, data)));
    case Throws => ReachTrans(x, m, m1, Throw);
    case Stuck =>
    case Timeout =>
      var a: nat :| Run(x.h, x.code, m, a) == Next(m1);
      RunSplit(x.h, x.code, m, a, fuel);
      StillRunning(x, m, a + fuel, fuel);
  }

  /** A step pays for one unit of fuel. */
  lemma AgreesStep(x: World, m: State, m1: State, r: S.Result, fuel: nat, act: Act, lv: Leaves, next: int)
    requires Step(x.h, x.code, m) == Next(m1) && fuel > 0 && Agrees(x, m1, r, fuel - 1, act, lv, next)
    ensures Agrees(x, m, r, fuel, act, lv, next)
  {
    hide Step;
    ReachStep(x, m, Next(m1));
    if r.Timeout? {
      assert Run(x.h, x.code, m, fuel) == Run(x.h, x.code, m1, fuel - 1);
    } else {
      assert Agrees(x, m1, r, fuel, act, lv, next);
      AgreesBefore(x, m, m1, r, fuel, act, lv, next);
    }
  }

  /** A running step at zero fuel. */
  lemma AgreesOut(x: World, m: State, act: Act, lv: Leaves, next: int)
    ensures Agrees(x, m, S.Timeout, 0, act, lv, next)
  {
  }

  lemma AgreesThrow(x: World, m: State, fuel: nat, act: Act, lv: Leaves, next: int)
    requires Step(x.h, x.code, m) == Throw
    ensures Agrees(x, m, S.Throws, fuel, act, lv, next)
  {
    ReachStep(x, m, Throw);
  }

  lemma AgreesHere(x: World, m: State, st: S.St, fuel: nat, act: Act, lv: Leaves, next: int)
    requires m == Mach(act, st, next, lv) && |st.locals| == act.nlocals
    ensures Agrees(x, m, S.Normal(st), fuel, act, lv, next)
  {
    assert Run(x.h, x.code, m, 0) == Next(m);
  }

  // ---------------------------------------------------------------------
  // Reading the representation

  lemma CellsSnoc(rs: seq<S.Item>, x: S.Item, lv: Leaves)
    ensures Cells(rs + [x], lv) == Cells(rs, lv) + ItemCells(x, LeaveAt(lv, |rs|))
  {
    assert (rs + [x])[..|rs|] == rs;
  }

  /** Only the leave addresses of items that are there matter. */
  lemma {:induction false} CellsAgree(rs: seq<S.Item>, lv: Leaves, lv2: Leaves)
    requires forall i :: 0 <= i < |rs| ==> LeaveAt(lv, i) == LeaveAt(lv2, i)
    ensures Cells(rs, lv) == Cells(rs, lv2)
    decreases |rs|
  {
    if rs != [] {
      CellsAgree(rs[..|rs| - 1], lv, lv2);
    }
  }

  /** The parts of placed code. */
  lemma PlacedSplit(code: seq<Cell>, at: nat, a: seq<Cell>, b: seq<Cell>)
    requires Placed(code, at, a + b)
    ensures Placed(code, at, a) && Placed(code, at + |a|, b)
  {
    forall i | 0 <= i < |a| ensures code[at + i] == a[i] {
      assert (a + b)[i] == a[i];
    }
    forall i | 0 <= i < |b| ensures code[at + |a| + i] == b[i] {
      assert (a + b)[|a| + i] == b[i];
    }
  }

  /** A two-cell instruction in placed code. */
  lemma PlacedTwo(code: seq<Cell>, at: nat, op: Instr, n: int)
    requires Placed(code, at, [Op(op), Num(n)])
    ensures at + 1 < |code| && code[at] == Op(op) && code[at + 1] == Num(n)
  {
    var c := [Op(op), Num(n)];
    assert code[at + 0] == c[0] && code[at + 1] == c[1];
  }

  lemma PlacedOne(code: seq<Cell>, at: nat, op: Instr)
    requires Placed(code, at, [Op(op)])
    ensures at < |code| && code[at] == Op(op)
  {
    var c := [Op(op)];
    assert code[at + 0] == c[0];
  }

  function EnvOf(x: World, act: Act): L.Env {
    L.Env(x.entry, act.nlocals)
  }

  /** The number of cells of s. */
  function Len(x: World, act: Act, s: S.Stmt): nat {
    L.Size(EnvOf(x, act), s)
  }

  /** The code of s is in memory at `at`. */
  ghost predicate Here(x: World, act: Act, s: S.Stmt, at: nat) {
    Placed(x.code, at, L.Code(EnvOf(x, act), s, at))
  }

  /** The machine's return stack, split below the topmost item. */
  lemma TopItem(act: Act, st: S.St, lv: Leaves)
    requires st.rs != []
    ensures var n := |st.rs|;
            Base(act, st.locals) + Cells(st.rs, lv) ==
            Base(act, st.locals) + Cells(st.rs[..n - 1], lv) + ItemCells(st.rs[n - 1], LeaveAt(lv, n - 1))
  {
  }

  /** The topmost return-stack cell. */
  lemma TopCellIs(act: Act, st: S.St, lv: Leaves)
    requires st.rs != []
    ensures var r := Ret(act, st.locals, st.rs, lv);
            r != [] && Last(r) == S.TopCell(S.LastItem(st.rs))
  {
    TopItem(act, st, lv);
  }

  /** Below the three cells of a loop's control parameters lies the rest. */
  lemma BelowCtl(act: Act, st: S.St, lv: Leaves)
    requires st.rs != [] && S.LastItem(st.rs).Ctl?
    ensures var r, n := Ret(act, st.locals, st.rs, lv), |st.rs|;
            |r| >= 3 && Pop(r, 3) == Ret(act, st.locals, st.rs[..n - 1], lv) &&
            r[|r| - 3] == LeaveAt(lv, n - 1) && r[|r| - 2] == st.rs[n - 1].limit && r[|r| - 1] == st.rs[n - 1].index
  {
    TopItem(act, st, lv);
  }

  lemma BelowVal(act: Act, st: S.St, lv: Leaves)
    requires st.rs != [] && S.LastItem(st.rs).Val?
    ensures var r, n := Ret(act, st.locals, st.rs, lv), |st.rs|;
            r != [] && Pop(r, 1) == Ret(act, st.locals, st.rs[..n - 1], lv) && Last(r) == st.rs[n - 1].v
  {
    TopItem(act, st, lv);
  }

  /** J reads the cell below one set of control parameters. */
  lemma SecondCellIs(act: Act, st: S.St, lv: Leaves)
    requires |st.rs| > 1 && S.LastItem(st.rs).Ctl?
    ensures var r, n := Ret(act, st.locals, st.rs, lv), |st.rs|;
            |r| >= 4 && r[|r| - 4] == S.TopCell(st.rs[n - 2])
  {
    BelowCtl(act, st, lv);
    TopCellIs(act, st.(rs := st.rs[..|st.rs| - 1]), lv);
  }

  /** K reads the cell below two of them. */
  lemma ThirdCellIs(act: Act, st: S.St, lv: Leaves)
    requires |st.rs| > 2 && S.LastItem(st.rs).Ctl? && st.rs[|st.rs| - 2].Ctl?
    ensures var r, n := Ret(act, st.locals, st.rs, lv), |st.rs|;
            |r| >= 7 && r[|r| - 7] == S.TopCell(st.rs[n - 3])
  {
    BelowCtl(act, st, lv);
    SecondCellIs(act, st.(rs := st.rs[..|st.rs| - 1]), lv);
  }

  /** FETCHR, I, J, K: push the return-stack cell at the instruction's depth. */
  lemma StepPush(x: World, m: State, b: S.Basic, depth: nat)
    requires 0 <= m.ip < |x.code| && x.code[m.ip] == Op(L.Token(b)) && depth < |m.ret|
    requires (b.FetchRWord? && depth == 0) || (b.IWord? && depth == 0) || (b.JWord? && depth == 3) || (b.KWord? && depth == 6)
    ensures Step(x.h, x.code, m) == Next(m.(ip := m.ip + 1, data := m.data + [m.ret[|m.ret| - 1 - depth]]))
  {
  }

  /** The words that read or drop return-stack items. */
  lemma SimReturnStack(x: World, b: S.Basic, st: S.St, at: nat, act: Act, lv: Leaves)
    requires at < |x.code| && x.code[at] == Op(L.Token(b)) && S.EvalBasic(x.h, b, st).Normal?
    requires !b.DropWord? && !b.PrimWord? && !b.ToRWord?
    ensures Step(x.h, x.code, Mach(act, st, at, lv)) == Next(Mach(act, S.EvalBasic(x.h, b, st).st, at + 1, lv))
  {
    var m := Mach(act, st, at, lv);
    hide Ret, FrameOf, Step, Cells, Base;
    match b
    case FromRWord => BelowVal(act, st, lv); StepPop(x, m, b);
    case UnloopWord => BelowCtl(act, st, lv); StepPop(x, m, b);
    case FetchRWord => TopCellIs(act, st, lv); StepPush(x, m, b, 0);
    case IWord => TopCellIs(act, st, lv); StepPush(x, m, b, 0);
    case JWord => SecondCellIs(act, st, lv); StepPush(x, m, b, 3);
    case KWord => ThirdCellIs(act, st, lv); StepPush(x, m, b, 6);
  }

  lemma StepPop(x: World, m: State, b: S.Basic)
    requires 0 <= m.ip < |x.code| && x.code[m.ip] == Op(L.Token(b)) && (b.FromRWord? || b.UnloopWord?)
    ensures b.FromRWord? && |m.ret| >= 1 ==>
      Step(x.h, x.code, m) == Next(m.(ip := m.ip + 1, data := m.data + [Last(m.ret)], ret := Pop(m.ret, 1)))
    ensures b.UnloopWord? && |m.ret| >= 3 ==>
      Step(x.h, x.code, m) == Next(m.(ip := m.ip + 1, ret := Pop(m.ret, 3)))
  {
  }

  lemma SimToR(x: World, st: S.St, at: nat, act: Act, lv: Leaves)
    requires at < |x.code| && x.code[at] == Op(ToR) && st.data != []
    ensures Step(x.h, x.code, Mach(act, st, at, lv)) ==
            Next(Mach(act, S.EvalBasic(x.h, S.ToRWord, st).st, at + 1, lv))
  {
    hide Step, Ret, Cells, FrameOf;
    StepToR(x, Mach(act, st, at, lv));
    RetSnoc(act, st, Last(st.data), lv);
  }

  lemma StepToR(x: World, m: State)
    requires 0 <= m.ip < |x.code| && x.code[m.ip] == Op(ToR) && m.data != []
    ensures Step(x.h, x.code, m) == Next(m.(ip := m.ip + 1, data := Pop(m.data, 1), ret := m.ret + [Last(m.data)]))
  {
  }

  lemma RetSnoc(act: Act, st: S.St, v: int, lv: Leaves)
    ensures Ret(act, st.locals, st.rs + [S.Val(v)], lv) == Ret(act, st.locals, st.rs, lv) + [v]
  {
    CellsSnoc(st.rs, S.Val(v), lv);
  }

  /** Words with an instruction of their own, in one step. */
  lemma SimBasic(x: World, fuel: nat, b: S.Basic, st: S.St, at: nat, act: Act, lv: Leaves)
    requires at < |x.code| && x.code[at] == Op(L.Token(b)) && |st.locals| == act.nlocals
    ensures Agrees(x, Mach(act, st, at, lv), S.EvalBasic(x.h, b, st), fuel, act, lv, at + 1)
  {
    var m := Mach(act, st, at, lv);
    match S.EvalBasic(x.h, b, st)
    case Normal(st1) =>
      if b.ToRWord? {
        SimToR(x, st, at, act, lv);
      } else if !b.DropWord? && !b.PrimWord? {
        SimReturnStack(x, b, st, at, act, lv);
      }
      ReachStep(x, m, Next(Mach(act, st1, at + 1, lv)));
    case Throws =>
      ReachStep(x, m, Throw);
    case _ =>
  }

  // ---------------------------------------------------------------------
  // Single steps

  ghost predicate AtTwo(x: World, m: State, op: Instr, n: int) {
    0 <= m.ip && m.ip + 1 < |x.code| && x.code[m.ip] == Op(op) && x.code[m.ip + 1] == Num(n)
  }

  lemma StepFlag(x: World, m: State, n: int)
    requires AtTwo(x, m, Branch0(true), n)
    ensures m.data == [] ==> Step(x.h, x.code, m) == Throw
    ensures m.data != [] ==>
      Step(x.h, x.code, m) ==
      Next(m.(ip := if Falsy(x.h, Last(m.data)) then m.ip + 1 + n else m.ip + 2, data := Pop(m.data, 1)))
  {
  }

  lemma StepJump(x: World, m: State, n: int)
    requires AtTwo(x, m, Branch(true), n)
    ensures Step(x.h, x.code, m) == Next(m.(ip := m.ip + 1 + n))
  {
  }

  /** A result other than Normal does not depend on where the statement ends. */
  lemma AgreesElsewhere(x: World, m: State, r: S.Result, fuel: nat, act: Act, lv: Leaves, next: int, next2: int)
    requires Agrees(x, m, r, fuel, act, lv, next) && !r.Normal?
    ensures Agrees(x, m, r, fuel, act, lv, next2)
  {
  }

  /** From m through m1, where the first part ended normally, to the rest. */
  lemma AgreesVia(x: World, m: State, st1: S.St, mid: int, r: S.Result, fuel: nat, act: Act, lv: Leaves, next: int)
    requires Agrees(x, m, S.Normal(st1), fuel, act, lv, mid)
    requires Agrees(x, Mach(act, st1, mid, lv), r, fuel, act, lv, next)
    ensures Agrees(x, m, r, fuel, act, lv, next)
  {
    AgreesBefore(x, m, Mach(act, st1, mid, lv), r, fuel, act, lv, next);
  }

  // ---------------------------------------------------------------------
  // Statements

  ghost predicate SimPre(x: World, s: S.Stmt, st: S.St, at: nat, act: Act) {
    Installed(x) && Here(x, act, s, at) && |st.locals| == act.nlocals
  }

  ghost predicate SimPost(x: World, fuel: nat, s: S.Stmt, st: S.St, at: nat, act: Act, lv: Leaves) {
    Agrees(x, Mach(act, st, at, lv), S.Eval(x.h, x.prog, fuel, s, st), fuel, act, lv, at + Len(x, act, s))
  }

  lemma NormalLocals(x: World, m: State, st: S.St, fuel: nat, act: Act, lv: Leaves, next: int)
    requires Agrees(x, m, S.Normal(st), fuel, act, lv, next)
    ensures |st.locals| == act.nlocals
  {
  }

  /** One step, then the rest r. */
  lemma AgreesAfterStep(x: World, m: State, m1: State, r: S.Result, fuel: nat, act: Act, lv: Leaves, next: int)
    requires Step(x.h, x.code, m) == Next(m1) && Agrees(x, m1, r, fuel, act, lv, next)
    ensures Agrees(x, m, r, fuel, act, lv, next)
  {
    hide Step;
    ReachStep(x, m, Next(m1));
    AgreesBefore(x, m, m1, r, fuel, act, lv, next);
  }

  /** A branch back that costs one unit of fuel, if there is one. */
  lemma AgreesLoop(x: World, m: State, m1: State, r: S.Result, fuel: nat, act: Act, lv: Leaves, next: int)
    requires Step(x.h, x.code, m) == Next(m1)
    requires if fuel == 0 then r == S.Timeout else Agrees(x, m1, r, fuel - 1, act, lv, next)
    ensures Agrees(x, m, r, fuel, act, lv, next)
  {
    hide Step;
    if fuel > 0 {
      AgreesStep(x, m, m1, r, fuel, act, lv, next);
    }
  }

  /** A part with result r1 that ends at mid, continued, if it ended normally, by a rest with result r. */
  lemma Continue(x: World, m: State, r1: S.Result, mid: int, r: S.Result, next: int, fuel: nat, act: Act, lv: Leaves)
    requires Agrees(x, m, r1, fuel, act, lv, mid)
    requires if r1.Normal? then Agrees(x, Mach(act, r1.st, mid, lv), r, fuel, act, lv, next) else r == r1
    ensures Agrees(x, m, r, fuel, act, lv, next)
  {
    if r1.Normal? {
      AgreesVia(x, m, r1.st, mid, r, fuel, act, lv, next);
    }
  }

  // Sequence

  lemma PlacedThen(x: World, s: S.Stmt, at: nat, act: Act)
    requires Here(x, act, s, at) && s.Then?
    ensures var k := Len(x, act, s.first);
            Len(x, act, s) == k + Len(x, act, s.second) && Here(x, act, s.first, at) && Here(x, act, s.second, at + k)
  {
    var env := EnvOf(x, act);
    PlacedSplit(x.code, at, L.Code(env, s.first, at), L.Code(env, s.second, at + Len(x, act, s.first)));
  }

  lemma MeansThen(x: World, fuel: nat, s: S.Stmt, st: S.St)
    requires s.Then?
    ensures var r1 := S.Eval(x.h, x.prog, fuel, s.first, st);
            S.Eval(x.h, x.prog, fuel, s, st) == if r1.Normal? then S.Eval(x.h, x.prog, fuel, s.second, r1.st) else r1
  {
  }

  lemma {:induction false} SimThen(x: World, fuel: nat, s: S.Stmt, st: S.St, at: nat, act: Act, lv: Leaves)
    requires SimPre(x, s, st, at, act) && s.Then?
    ensures SimPost(x, fuel, s, st, at, act, lv)
    decreases fuel, 0, s, 0
  {
    hide Step, Here, Len, Installed, Agrees, Ret, FrameOf, S.Eval;
    var m, mid := Mach(act, st, at, lv), at + Len(x, act, s.first);
    var r1 := S.Eval(x.h, x.prog, fuel, s.first, st);
    PlacedThen(x, s, at, act);
    MeansThen(x, fuel, s, st);
    Sim(x, fuel, s.first, st, at, act, lv);
    if r1.Normal? {
      NormalLocals(x, m, r1.st, fuel, act, lv, mid);
      Sim(x, fuel, s.second, r1.st, mid, act, lv);
    }
    Continue(x, m, r1, mid, S.Eval(x.h, x.prog, fuel, s, st), at + Len(x, act, s), fuel, act, lv);
  }

  // IF

  lemma PlacedIf(x: World, s: S.Stmt, at: nat, act: Act)
    requires Here(x, act, s, at) && s.If?
    ensures var k := Len(x, act, s.yes);
            Len(x, act, s) == k + 2 && Here(x, act, s.yes, at + 2) && at + 1 < |x.code| &&
            x.code[at] == Op(Branch0(true)) && x.code[at + 1] == Num(k + 1)
  {
    var k := Len(x, act, s.yes);
    PlacedSplit(x.code, at, [Op(Branch0(true)), Num(k + 1)], L.Code(EnvOf(x, act), s.yes, at + 2));
    PlacedTwo(x.code, at, Branch0(true), k + 1);
  }

  function Popped(st: S.St): S.St
    requires st.data != []
  {
    st.(data := Pop(st.data, 1))
  }

  lemma MeansIf(x: World, fuel: nat, s: S.Stmt, st: S.St)
    requires s.If? && st.data != []
    ensures S.Eval(x.h, x.prog, fuel, s, st) ==
            if Falsy(x.h, Last(st.data)) then S.Normal(Popped(st)) else S.Eval(x.h, x.prog, fuel, s.yes, Popped(st))
  {
  }

  lemma {:induction false} SimIf(x: World, fuel: nat, s: S.Stmt, st: S.St, at: nat, act: Act, lv: Leaves)
    requires SimPre(x, s, st, at, act) && s.If? && st.data != []
    ensures SimPost(x, fuel, s, st, at, act, lv)
    decreases fuel, 0, s, 0
  {
    hide Step, Here, Len, Installed, Agrees, Ret, FrameOf, S.Eval;
    var m, next := Mach(act, st, at, lv), at + Len(x, act, s);
    PlacedIf(x, s, at, act);
    MeansIf(x, fuel, s, st);
    StepFlag(x, m, Len(x, act, s.yes) + 1);
    var m1 := Step(x.h, x.code, m).s;
    if Falsy(x.h, Last(st.data)) {
      AgreesHere(x, m1, Popped(st), fuel, act, lv, next);
    } else {
      Sim(x, fuel, s.yes, Popped(st), at + 2, act, lv);
    }
    AgreesAfterStep(x, m, m1, S.Eval(x.h, x.prog, fuel, s, st), fuel, act, lv, next);
  }

  lemma PlacedIfElse(x: World, s: S.Stmt, at: nat, act: Act)
    requires Here(x, act, s, at) && s.IfElse?
    ensures var k, j := Len(x, act, s.yes), Len(x, act, s.no);
            Len(x, act, s) == k + j + 4 && Here(x, act, s.yes, at + 2) && Here(x, act, s.no, at + k + 4) && at + k + 3 < |x.code| &&
            x.code[at] == Op(Branch0(true)) && x.code[at + 1] == Num(k + 3) &&
            x.code[at + k + 2] == Op(Branch(true)) && x.code[at + k + 3] == Num(j + 1)
  {
    var env := EnvOf(x, act);
    var k, j := Len(x, act, s.yes), Len(x, act, s.no);
    var c1, c2, c3 := [Op(Branch0(true)), Num(k + 3)], L.Code(env, s.yes, at + 2), [Op(Branch(true)), Num(j + 1)];
    PlacedSplit(x.code, at, c1 + c2 + c3, L.Code(env, s.no, at + k + 4));
    PlacedSplit(x.code, at, c1 + c2, c3);
    PlacedSplit(x.code, at, c1, c2);
    PlacedTwo(x.code, at, Branch0(true), k + 3);
    PlacedTwo(x.code, at + k + 2, Branch(true), j + 1);
  }

  lemma MeansIfElse(x: World, fuel: nat, s: S.Stmt, st: S.St)
    requires s.IfElse? && st.data != []
    ensures S.Eval(x.h, x.prog, fuel, s, st) ==
            S.Eval(x.h, x.prog, fuel, if Falsy(x.h, Last(st.data)) then s.no else s.yes, Popped(st))
  {
  }

  lemma {:induction false} SimIfElse(x: World, fuel: nat, s: S.Stmt, st: S.St, at: nat, act: Act, lv: Leaves)
    requires SimPre(x, s, st, at, act) && s.IfElse? && st.data != []
    ensures SimPost(x, fuel, s, st, at, act, lv)
    decreases fuel, 0, s, 0
  {
    hide Step, Here, Len, Installed, Agrees, Ret, FrameOf, S.Eval;
    var m, next, k := Mach(act, st, at, lv), at + Len(x, act, s), Len(x, act, s.yes);
    PlacedIfElse(x, s, at, act);
    MeansIfElse(x, fuel, s, st);
    StepFlag(x, m, k + 3);
    var m1, r := Step(x.h, x.code, m).s, S.Eval(x.h, x.prog, fuel, s, st);
    if Falsy(x.h, Last(st.data)) {
      Sim(x, fuel, s.no, Popped(st), at + k + 4, act, lv);
    } else {
      Sim(x, fuel, s.yes, Popped(st), at + 2, act, lv);
      SimSkip(x, fuel, m1, r, at + k + 2, Len(x, act, s.no) + 1, act, lv, next);
    }
    AgreesAfterStep(x, m, m1, r, fuel, act, lv, next);
  }

  /** IF with nothing on the data stack. */
  lemma SimIfThrows(x: World, fuel: nat, s: S.Stmt, st: S.St, at: nat, act: Act, lv: Leaves)
    requires SimPre(x, s, st, at, act) && (s.If? || s.IfElse?) && st.data == []
    ensures SimPost(x, fuel, s, st, at, act, lv)
  {
    var m := Mach(act, st, at, lv);
    if s.If? {
      PlacedIf(x, s, at, act);
      StepFlag(x, m, Len(x, act, s.yes) + 1);
    } else {
      PlacedIfElse(x, s, at, act);
      StepFlag(x, m, Len(x, act, s.yes) + 3);
    }
    AgreesThrow(x, m, fuel, act, lv, at + Len(x, act, s));
  }

  /** A statement followed by an unconditional branch to next. */
  lemma SimSkip(x: World, fuel: nat, m: State, r: S.Result, mid: int, n: int, act: Act, lv: Leaves, next: int)
    requires Agrees(x, m, r, fuel, act, lv, mid)
    requires AtTwo(x, m.(ip := mid), Branch(true), n) && next == mid + 1 + n
    ensures Agrees(x, m, r, fuel, act, lv, next)
  {
    if r.Normal? {
      var m1 := Mach(act, r.st, mid, lv);
      StepJump(x, m1, n);
      AgreesHere(x, Mach(act, r.st, next, lv), r.st, fuel, act, lv, next);
      AgreesAfterStep(x, m1, Mach(act, r.st, next, lv), r, fuel, act, lv, next);
      AgreesVia(x, m, r.st, mid, r, fuel, act, lv, next);
    }
  }

  // BEGIN loops

  /** A part that ended normally at mid, then a branch back to where the rest r is run with less fuel. */
  lemma JumpBack(x: World, m: State, st1: S.St, mid: int, n: int, r: S.Result, fuel: nat, act: Act, lv: Leaves, next: int)
    requires Agrees(x, m, S.Normal(st1), fuel, act, lv, mid)
    requires AtTwo(x, m.(ip := mid), Branch(true), n)
    requires if fuel == 0 then r == S.Timeout
             else Agrees(x, Mach(act, st1, mid + 1 + n, lv), r, fuel - 1, act, lv, next)
    ensures Agrees(x, m, r, fuel, act, lv, next)
  {
    var m1 := Mach(act, st1, mid, lv);
    StepJump(x, m1, n);
    hide Step, Agrees;
    AgreesLoop(x, m1, Mach(act, st1, mid + 1 + n, lv), r, fuel, act, lv, next);
    AgreesVia(x, m, st1, mid, r, fuel, act, lv, next);
  }

  /** BEGIN body UNTIL and BEGIN body AGAIN. */
  lemma PlacedBack(x: World, s: S.Stmt, at: nat, act: Act)
    requires Here(x, act, s, at) && (s.Until? || s.Again?)
    ensures var k: int := Len(x, act, s.body);
            Len(x, act, s) == k + 2 && Here(x, act, s.body, at) && at + k + 1 < |x.code| &&
            x.code[at + k] == Op(if s.Until? then Branch0(true) else Branch(true)) && x.code[at + k + 1] == Num(-(k + 1))
  {
    var k: int := Len(x, act, s.body);
    var op := if s.Until? then Branch0(true) else Branch(true);
    PlacedSplit(x.code, at, L.Code(EnvOf(x, act), s.body, at), [Op(op), Num(-(k + 1))]);
    PlacedTwo(x.code, at + k, op, -(k + 1));
  }

  /** The rest of s, run again with one unit of fuel less. */
  function Repeated(x: World, fuel: nat, s: S.Stmt, st: S.St): S.Result {
    if fuel == 0 then S.Timeout else S.Eval(x.h, x.prog, fuel - 1, s, st)
  }

  /** UNTIL, after the body ended in st1. */
  function UntilTested(x: World, fuel: nat, s: S.Stmt, st1: S.St): S.Result {
    if st1.data == [] then S.Throws
    else if Falsy(x.h, Last(st1.data)) then Repeated(x, fuel, s, Popped(st1))
    else S.Normal(Popped(st1))
  }

  lemma MeansUntil(x: World, fuel: nat, s: S.Stmt, st: S.St)
    requires s.Until?
    ensures var r1 := S.Eval(x.h, x.prog, fuel, s.body, st);
            S.Eval(x.h, x.prog, fuel, s, st) == if r1.Normal? then UntilTested(x, fuel, s, r1.st) else r1
  {
  }

  lemma {:induction false} SimUntil(x: World, fuel: nat, s: S.Stmt, st: S.St, at: nat, act: Act, lv: Leaves)
    requires SimPre(x, s, st, at, act) && s.Until?
    ensures SimPost(x, fuel, s, st, at, act, lv)
    decreases fuel, 0, s, 0
  {
    hide Step, Here, Len, Installed, Agrees, Ret, FrameOf, S.Eval;
    var m, mid := Mach(act, st, at, lv), at + Len(x, act, s.body);
    var r1 := S.Eval(x.h, x.prog, fuel, s.body, st);
    PlacedBack(x, s, at, act);
    MeansUntil(x, fuel, s, st);
    Sim(x, fuel, s.body, st, at, act, lv);
    if r1.Normal? {
      NormalLocals(x, m, r1.st, fuel, act, lv, mid);
      SimUntilTested(x, fuel, s, r1.st, at, act, lv);
    }
    Continue(x, m, r1, mid, S.Eval(x.h, x.prog, fuel, s, st), at + Len(x, act, s), fuel, act, lv);
  }

  lemma {:induction false} SimUntilTested(x: World, fuel: nat, s: S.Stmt, st1: S.St, at: nat, act: Act, lv: Leaves)
    requires SimPre(x, s, st1, at, act) && s.Until?
    ensures Agrees(x, Mach(act, st1, at + Len(x, act, s.body), lv), UntilTested(x, fuel, s, st1), fuel, act, lv,
                   at + Len(x, act, s))
    decreases fuel, 0, s.body, 2
  {
    hide Step, Here, Len, Installed, Agrees, Ret, FrameOf, S.Eval;
    var k: int := Len(x, act, s.body);
    var m, next, r := Mach(act, st1, at + k, lv), at + Len(x, act, s), UntilTested(x, fuel, s, st1);
    PlacedBack(x, s, at, act);
    StepFlag(x, m, -(k + 1));
    if st1.data == [] {
      AgreesThrow(x, m, fuel, act, lv, next);
    } else {
      var m1 := Step(x.h, x.code, m).s;
      if Falsy(x.h, Last(st1.data)) {
        if fuel > 0 { Sim(x, fuel - 1, s, Popped(st1), at, act, lv); }
        AgreesLoop(x, m, m1, r, fuel, act, lv, next);
      } else {
        AgreesHere(x, m1, Popped(st1), fuel, act, lv, next);
        AgreesAfterStep(x, m, m1, r, fuel, act, lv, next);
      }
    }
  }

  lemma MeansAgain(x: World, fuel: nat, s: S.Stmt, st: S.St)
    requires s.Again?
    ensures var r1 := S.Eval(x.h, x.prog, fuel, s.body, st);
            S.Eval(x.h, x.prog, fuel, s, st) == if r1.Normal? then Repeated(x, fuel, s, r1.st) else r1
  {
  }

  lemma {:induction false} SimAgain(x: World, fuel: nat, s: S.Stmt, st: S.St, at: nat, act: Act, lv: Leaves)
    requires SimPre(x, s, st, at, act) && s.Again?
    ensures SimPost(x, fuel, s, st, at, act, lv)
    decreases fuel, 0, s, 0
  {
    hide Step, Here, Len, Installed, Agrees, Ret, FrameOf, S.Eval;
    var k: int := Len(x, act, s.body);
    var m, next, r1 := Mach(act, st, at, lv), at + Len(x, act, s), S.Eval(x.h, x.prog, fuel, s.body, st);
    PlacedBack(x, s, at, act);
    MeansAgain(x, fuel, s, st);
    Sim(x, fuel, s.body, st, at, act, lv);
    if r1.Normal? {
      NormalLocals(x, m, r1.st, fuel, act, lv, at + k);
      if fuel > 0 { Sim(x, fuel - 1, s, r1.st, at, act, lv); }
      JumpBack(x, m, r1.st, at + k, -(k + 1), Repeated(x, fuel, s, r1.st), fuel, act, lv, next);
    } else {
      AgreesElsewhere(x, m, r1, fuel, act, lv, at + k, next);
    }
  }

  lemma PlacedWhile(x: World, s: S.Stmt, at: nat, act: Act)
    requires Here(x, act, s, at) && s.WhileRepeat?
    ensures var k, j := Len(x, act, s.test), Len(x, act, s.body);
            Len(x, act, s) == k + j + 4 && Here(x, act, s.test, at) && Here(x, act, s.body, at + k + 2) &&
            at + k + j + 3 < |x.code| &&
            x.code[at + k] == Op(Branch0(true)) && x.code[at + k + 1] == Num(j + 3) &&
            x.code[at + k + j + 2] == Op(Branch(true)) && x.code[at + k + j + 3] == Num(-(k + j + 3))
  {
    var env := EnvOf(x, act);
    var k: int, j: int := Len(x, act, s.test), Len(x, act, s.body);
    var c1, c2, c3 := L.Code(env, s.test, at), [Op(Branch0(true)), Num(j + 3)], L.Code(env, s.body, at + k + 2);
    var c4 := [Op(Branch(true)), Num(-(k + j + 3))];
    PlacedSplit(x.code, at, c1 + c2 + c3, c4);
    PlacedSplit(x.code, at, c1 + c2, c3);
    PlacedSplit(x.code, at, c1, c2);
    PlacedTwo(x.code, at + k, Branch0(true), j + 3);
    PlacedTwo(x.code, at + k + j + 2, Branch(true), -(k + j + 3));
  }

  /** The part of BEGIN test WHILE body REPEAT after the test succeeded. */
  function AfterTest(x: World, fuel: nat, s: S.Stmt, st: S.St): S.Result
    requires s.WhileRepeat?
  {
    var r1 := S.Eval(x.h, x.prog, fuel, s.body, st);
    if r1.Normal? then Repeated(x, fuel, s, r1.st) else r1
  }

  /** WHILE, after the test ended in st1. */
  function WhileTested(x: World, fuel: nat, s: S.Stmt, st1: S.St): S.Result
    requires s.WhileRepeat?
  {
    if st1.data == [] then S.Throws
    else if Falsy(x.h, Last(st1.data)) then S.Normal(Popped(st1))
    else AfterTest(x, fuel, s, Popped(st1))
  }

  lemma MeansWhile(x: World, fuel: nat, s: S.Stmt, st: S.St)
    requires s.WhileRepeat?
    ensures var r1 := S.Eval(x.h, x.prog, fuel, s.test, st);
            S.Eval(x.h, x.prog, fuel, s, st) == if r1.Normal? then WhileTested(x, fuel, s, r1.st) else r1
  {
  }

  lemma {:induction false} SimWhile(x: World, fuel: nat, s: S.Stmt, st: S.St, at: nat, act: Act, lv: Leaves)
    requires SimPre(x, s, st, at, act) && s.WhileRepeat?
    ensures SimPost(x, fuel, s, st, at, act, lv)
    decreases fuel, 0, s, 0
  {
    hide Step, Here, Len, Installed, Agrees, Ret, FrameOf, S.Eval;
    var m, mid := Mach(act, st, at, lv), at + Len(x, act, s.test);
    var r1 := S.Eval(x.h, x.prog, fuel, s.test, st);
    PlacedWhile(x, s, at, act);
    MeansWhile(x, fuel, s, st);
    Sim(x, fuel, s.test, st, at, act, lv);
    if r1.Normal? {
      NormalLocals(x, m, r1.st, fuel, act, lv, mid);
      SimWhileTested(x, fuel, s, r1.st, at, act, lv);
    }
    Continue(x, m, r1, mid, S.Eval(x.h, x.prog, fuel, s, st), at + Len(x, act, s), fuel, act, lv);
  }

  lemma {:induction false} SimWhileTested(x: World, fuel: nat, s: S.Stmt, st1: S.St, at: nat, act: Act, lv: Leaves)
    requires SimPre(x, s, st1, at, act) && s.WhileRepeat?
    ensures Agrees(x, Mach(act, st1, at + Len(x, act, s.test), lv), WhileTested(x, fuel, s, st1), fuel, act, lv,
                   at + Len(x, act, s))
    decreases fuel, 0, s.body, 3
  {
    hide Step, Here, Len, Installed, Agrees, Ret, FrameOf, AfterTest;
    var m, next := Mach(act, st1, at + Len(x, act, s.test), lv), at + Len(x, act, s);
    PlacedWhile(x, s, at, act);
    StepFlag(x, m, Len(x, act, s.body) + 3);
    if st1.data == [] {
      AgreesThrow(x, m, fuel, act, lv, next);
    } else {
      var m1 := Step(x.h, x.code, m).s;
      if Falsy(x.h, Last(st1.data)) {
        AgreesHere(x, m1, Popped(st1), fuel, act, lv, next);
      } else {
        SimWhileBody(x, fuel, s, Popped(st1), at, act, lv);
      }
      AgreesAfterStep(x, m, m1, WhileTested(x, fuel, s, st1), fuel, act, lv, next);
    }
  }

  lemma {:induction false} SimWhileBody(x: World, fuel: nat, s: S.Stmt, st: S.St, at: nat, act: Act, lv: Leaves)
    requires SimPre(x, s, st, at, act) && s.WhileRepeat?
    ensures Agrees(x, Mach(act, st, at + Len(x, act, s.test) + 2, lv), AfterTest(x, fuel, s, st), fuel, act, lv,
                   at + Len(x, act, s))
    decreases fuel, 0, s.body, 2
  {
    hide Step, Here, Len, Installed, Agrees, Ret, FrameOf, S.Eval;
    var k: int, j: int := Len(x, act, s.test), Len(x, act, s.body);
    var m, mid, next := Mach(act, st, at + k + 2, lv), at + k + j + 2, at + Len(x, act, s);
    var r1 := S.Eval(x.h, x.prog, fuel, s.body, st);
    PlacedWhile(x, s, at, act);
    Sim(x, fuel, s.body, st, at + k + 2, act, lv);
    if r1.Normal? {
      NormalLocals(x, m, r1.st, fuel, act, lv, mid);
      if fuel > 0 { Sim(x, fuel - 1, s, r1.st, at, act, lv); }
      JumpBack(x, m, r1.st, mid, -(k + j + 3), Repeated(x, fuel, s, r1.st), fuel, act, lv, next);
    } else {
      AgreesElsewhere(x, m, r1, fuel, act, lv, mid, next);
    }
  }

  // ---------------------------------------------------------------------
  // DO loops

  lemma PlacedDo(x: World, s: S.Stmt, at: nat, act: Act)
    requires Here(x, act, s, at) && s.DoLoop?
    ensures var k: int := Len(x, act, s.body);
            Len(x, act, s) == k + 4 && Here(x, act, s.body, at + 2) && at + k + 3 < |x.code| &&
            x.code[at] == Op(L.DoOp(s.question)) && x.code[at + 1] == Num(at + k + 4) &&
            x.code[at + k + 2] == Op(L.LoopOp(s.plus)) && x.code[at + k + 3] == Num(-(k + 1))
  {
    var env := EnvOf(x, act);
    var k: int := Len(x, act, s.body);
    var c1, c2, c3 := [Op(L.DoOp(s.question)), Num(at + k + 4)], L.Code(env, s.body, at + 2), [Op(L.LoopOp(s.plus)), Num(-(k + 1))];
    PlacedSplit(x.code, at, c1 + c2, c3);
    PlacedSplit(x.code, at, c1, c2);
    PlacedTwo(x.code, at, L.DoOp(s.question), at + k + 4);
    PlacedTwo(x.code, at + k + 2, L.LoopOp(s.plus), -(k + 1));
  }

  /** (do) and (?do). */
  lemma StepDo(x: World, m: State, question: bool, leave: int)
    requires AtTwo(x, m, L.DoOp(question), leave)
    ensures |m.data| < 2 ==> Step(x.h, x.code, m) == Throw
    ensures |m.data| >= 2 ==>
      var index, limit := m.data[|m.data| - 1], m.data[|m.data| - 2];
      Step(x.h, x.code, m) ==
      Next(if question && index == limit then m.(ip := leave, data := Pop(m.data, 2))
           else m.(ip := m.ip + 2, data := Pop(m.data, 2), ret := m.ret + [leave, limit, index]))
  {
  }

  /** (loop) and (+loop). */
  lemma StepLoop(x: World, m: State, plus: bool, n: int)
    requires AtTwo(x, m, L.LoopOp(plus), n) && |m.ret| >= 3
    ensures plus && m.data == [] ==> Step(x.h, x.code, m) == Throw
    ensures !(plus && m.data == []) ==>
      var step := if plus then Last(m.data) else 1;
      var data := if plus then Pop(m.data, 1) else m.data;
      var index := m.ret[|m.ret| - 1] + step;
      Step(x.h, x.code, m) ==
      Next(if LoopDone(index, m.ret[|m.ret| - 2], step) then m.(ip := m.ip + 2, data := data, ret := Pop(m.ret, 3))
           else m.(ip := m.ip + 1 + n, data := data, ret := m.ret[|m.ret| - 1 := index]))
  {
  }

  /** Starting a loop pushes its control parameters with the loop's leave address. */
  lemma EnterCells(act: Act, st: S.St, lv: Leaves, leave: int, limit: int, index: int)
    ensures Ret(act, st.locals, st.rs, lv) + [leave, limit, index] ==
            Ret(act, st.locals, st.rs + [S.Ctl(limit, index)], lv[|st.rs| := leave])
  {
    CellsSnoc(st.rs, S.Ctl(limit, index), lv[|st.rs| := leave]);
    CellsAgree(st.rs, lv, lv[|st.rs| := leave]);
  }

  /** Stepping the index. */
  lemma IndexCells(act: Act, locals: seq<int>, rs: seq<S.Item>, lv: Leaves, index: int)
    requires rs != [] && S.LastItem(rs).Ctl?
    ensures var r, n := Ret(act, locals, rs, lv), |rs|;
            |r| >= 3 && r[|r| - 1 := index] == Ret(act, locals, rs[n - 1 := S.Ctl(rs[n - 1].limit, index)], lv)
  {
    var n := |rs|;
    var rs2 := rs[n - 1 := S.Ctl(rs[n - 1].limit, index)];
    assert rs2[..n - 1] == rs[..n - 1];
    var low := Base(act, locals) + Cells(rs[..n - 1], lv);
    var a := LeaveAt(lv, n - 1);
    assert Ret(act, locals, rs, lv) == low + [a, rs[n - 1].limit, rs[n - 1].index];
    assert Ret(act, locals, rs2, lv) == low + [a, rs[n - 1].limit, index];
  }

  /** Leave addresses above the stack do not matter. */
  lemma RetForget(act: Act, locals: seq<int>, rs: seq<S.Item>, lv: Leaves, depth: nat, leave: int)
    requires |rs| <= depth
    ensures Ret(act, locals, rs, lv[depth := leave]) == Ret(act, locals, rs, lv)
  {
    CellsAgree(rs, lv, lv[depth := leave]);
  }

  /** The state inside the loop, control parameters on the return stack. */
  function Entered(st: S.St): S.St
    requires |st.data| >= 2
  {
    st.(data := Pop(st.data, 2), rs := st.rs + [S.Ctl(st.data[|st.data| - 2], st.data[|st.data| - 1])])
  }

  lemma StepDoStart(x: World, question: bool, st: S.St, at: int, next: int, act: Act, lv: Leaves)
    requires AtTwo(x, Mach(act, st, at, lv), L.DoOp(question), next) && |st.data| >= 2
    ensures Step(x.h, x.code, Mach(act, st, at, lv)) ==
            Next(if question && st.data[|st.data| - 1] == st.data[|st.data| - 2]
                 then Mach(act, st.(data := Pop(st.data, 2)), next, lv)
                 else Mach(act, Entered(st), at + 2, lv[|st.rs| := next]))
  {
    var m := Mach(act, st, at, lv);
    StepDo(x, m, question, next);
    EnterCells(act, st, lv, next, st.data[|st.data| - 2], st.data[|st.data| - 1]);
    hide Step, Ret;
  }

  lemma {:induction false} SimDo(x: World, fuel: nat, s: S.Stmt, st: S.St, at: nat, act: Act, lv: Leaves)
    requires SimPre(x, s, st, at, act) && s.DoLoop?
    ensures SimPost(x, fuel, s, st, at, act, lv)
    decreases fuel, 0, s, 0
  {
    hide Step, Here, Len, Installed, Agrees, Ret, Cells, FrameOf;
    var m, next := Mach(act, st, at, lv), at + Len(x, act, s);
    PlacedDo(x, s, at, act);
    if |st.data| < 2 {
      StepDo(x, m, s.question, next);
      AgreesThrow(x, m, fuel, act, lv, next);
    } else {
      StepDoStart(x, s.question, st, at, next, act, lv);
      SimDoStarted(x, fuel, s, st, at, act, lv);
    }
  }

  lemma {:induction false} SimDoStarted(x: World, fuel: nat, s: S.Stmt, st: S.St, at: nat, act: Act, lv: Leaves)
    requires SimPre(x, s, st, at, act) && s.DoLoop? && |st.data| >= 2
    requires Step(x.h, x.code, Mach(act, st, at, lv)) ==
             Next(if s.question && st.data[|st.data| - 1] == st.data[|st.data| - 2]
                  then Mach(act, st.(data := Pop(st.data, 2)), at + Len(x, act, s), lv)
                  else Mach(act, Entered(st), at + 2, lv[|st.rs| := at + Len(x, act, s)]))
    ensures SimPost(x, fuel, s, st, at, act, lv)
    decreases fuel, 0, s.body, 3
  {
    hide Step, Here, Len, Installed, Agrees, Ret;
    var m, next := Mach(act, st, at, lv), at + Len(x, act, s);
    var r, m1 := S.Eval(x.h, x.prog, fuel, s, st), Step(x.h, x.code, m).s;
    if s.question && st.data[|st.data| - 1] == st.data[|st.data| - 2] {
      AgreesHere(x, m1, st.(data := Pop(st.data, 2)), fuel, act, lv, next);
    } else {
      SimIterations(x, fuel, s, |st.rs|, Entered(st), at, act, lv);
    }
    AgreesAfterStep(x, m, m1, r, fuel, act, lv, next);
  }

  /** The iterations of a loop whose control parameters are item `depth`. */
  lemma {:induction false} SimIterations(x: World, fuel: nat, s: S.Stmt, depth: nat, st: S.St, at: nat, act: Act, lv: Leaves)
    requires SimPre(x, s, st, at, act) && s.DoLoop?
    ensures var next := at + Len(x, act, s);
            Agrees(x, Mach(act, st, at + 2, lv[depth := next]),
                   S.EvalIterations(x.h, x.prog, fuel, s.plus, s.body, depth, st), fuel, act, lv, next)
    decreases fuel, 0, s.body, 2
  {
    hide Step, Here, Len, Installed, Agrees, Ret, FrameOf, S.Eval, S.EvalIterations, AfterBody;
    var next, mid := at + Len(x, act, s), at + 2 + Len(x, act, s.body);
    var lv2 := lv[depth := next];
    var m, r1 := Mach(act, st, at + 2, lv2), S.Eval(x.h, x.prog, fuel, s.body, st);
    var r := S.EvalIterations(x.h, x.prog, fuel, s.plus, s.body, depth, st);
    PlacedDo(x, s, at, act);
    MeansIterations(x, fuel, s, depth, st);
    Sim(x, fuel, s.body, st, at + 2, act, lv2);
    if r1.Normal? {
      NormalLocals(x, m, r1.st, fuel, act, lv2, mid);
      SimLoopEnd(x, fuel, s, depth, r1.st, at, mid, act, lv);
      AgreesBack(x, m, r1.st, mid, r, fuel, act, lv2, lv, next);
    } else if r1.Left? {
      SimLeft(x, m, r1.st, depth, fuel, act, lv, mid, next);
      AgreesStuck(x, m, fuel, act, lv, next);
    } else {
      AgreesNoLeaves(x, m, r1, fuel, act, lv2, lv, mid, next);
    }
  }

  lemma AgreesStuck(x: World, m: State, fuel: nat, act: Act, lv: Leaves, next: int)
    ensures Agrees(x, m, S.Stuck, fuel, act, lv, next)
  {
  }

  /** A first part under leave addresses lv2, the rest under lv. */
  lemma AgreesBack(x: World, m: State, st1: S.St, mid: int, r: S.Result, fuel: nat, act: Act, lv2: Leaves, lv: Leaves, next: int)
    requires Agrees(x, m, S.Normal(st1), fuel, act, lv2, mid)
    requires Agrees(x, Mach(act, st1, mid, lv2), r, fuel, act, lv, next)
    ensures Agrees(x, m, r, fuel, act, lv, next)
  {
    AgreesBefore(x, m, Mach(act, st1, mid, lv2), r, fuel, act, lv, next);
  }

  lemma AgreesNoLeaves(x: World, m: State, r: S.Result, fuel: nat, act: Act, lv2: Leaves, lv: Leaves, mid: int, next: int)
    requires Agrees(x, m, r, fuel, act, lv2, mid) && !r.Normal? && !r.Left?
    ensures Agrees(x, m, r, fuel, act, lv, next)
  {
  }

  /** LEAVE from inside the body: out of this loop, or of one further out. */
  lemma SimLeft(x: World, m: State, st: S.St, depth: nat, fuel: nat, act: Act, lv: Leaves, mid: int, next: int)
    requires Agrees(x, m, S.Left(st), fuel, act, lv[depth := next], mid)
    ensures |st.rs| == depth ==> Agrees(x, m, S.Normal(st), fuel, act, lv, next)
    ensures |st.rs| < depth ==> Agrees(x, m, S.Left(st), fuel, act, lv, next)
  {
    if |st.rs| <= depth {
      RetForget(act, st.locals, st.rs, lv, depth, next);
    }
  }

  /** What follows a body that ended normally in st1: the loop test, then the other iterations. */
  function AfterBody(x: World, fuel: nat, s: S.Stmt, depth: nat, st1: S.St): S.Result
    requires s.DoLoop?
  {
    if s.plus && st1.data == [] then S.Throws
    else if |st1.rs| != depth + 1 || !st1.rs[depth].Ctl? then S.Stuck
    else
      var st2 := Stepped(s, depth, st1);
      if Ends(s, depth, st1) then S.Normal(st2.(rs := st1.rs[..depth]))
      else if fuel == 0 then S.Timeout
      else S.EvalIterations(x.h, x.prog, fuel - 1, s.plus, s.body, depth, st2)
  }

  function StepOf(s: S.Stmt, st1: S.St): int
    requires s.DoLoop? && !(s.plus && st1.data == [])
  {
    if s.plus then Last(st1.data) else 1
  }

  /** The state with the index stepped. */
  function Stepped(s: S.Stmt, depth: nat, st1: S.St): S.St
    requires s.DoLoop? && !(s.plus && st1.data == []) && |st1.rs| == depth + 1 && st1.rs[depth].Ctl?
  {
    var c := st1.rs[depth];
    st1.(data := if s.plus then Pop(st1.data, 1) else st1.data,
         rs := st1.rs[depth := S.Ctl(c.limit, c.index + StepOf(s, st1))])
  }

  predicate Ends(s: S.Stmt, depth: nat, st1: S.St)
    requires s.DoLoop? && !(s.plus && st1.data == []) && |st1.rs| == depth + 1 && st1.rs[depth].Ctl?
  {
    LoopDone(st1.rs[depth].index + StepOf(s, st1), st1.rs[depth].limit, StepOf(s, st1))
  }

  lemma MeansIterations(x: World, fuel: nat, s: S.Stmt, depth: nat, st: S.St)
    requires s.DoLoop?
    ensures var r1 := S.Eval(x.h, x.prog, fuel, s.body, st);
            S.EvalIterations(x.h, x.prog, fuel, s.plus, s.body, depth, st) ==
            if r1.Normal? then AfterBody(x, fuel, s, depth, r1.st)
            else if r1.Left? then
              if |r1.st.rs| == depth then S.Normal(r1.st) else if |r1.st.rs| < depth then r1 else S.Stuck
            else r1
  {
    hide S.Eval;
  }

  /** The machine step for LOOP or +LOOP at mid, the end of a body that starts at head. */
  lemma StepLoopEnd(x: World, s: S.Stmt, depth: nat, st1: S.St, head: int, mid: int, act: Act, lv: Leaves)
    requires s.DoLoop? && !(s.plus && st1.data == []) && |st1.rs| == depth + 1 && st1.rs[depth].Ctl?
    requires AtTwo(x, Mach(act, st1, mid, lv[depth := mid + 2]), L.LoopOp(s.plus), head - (mid + 1))
    ensures Step(x.h, x.code, Mach(act, st1, mid, lv[depth := mid + 2])) ==
            Next(if Ends(s, depth, st1) then Mach(act, Stepped(s, depth, st1).(rs := st1.rs[..depth]), mid + 2, lv)
                 else Mach(act, Stepped(s, depth, st1), head, lv[depth := mid + 2]))
  {
    hide Ret, FrameOf, Cells, Base, LeaveAt, Step;
    var lv2 := lv[depth := mid + 2];
    var m := Mach(act, st1, mid, lv2);
    BelowCtl(act, st1, lv2);
    StepLoop(x, m, s.plus, head - (mid + 1));
    if Ends(s, depth, st1) {
      RetForget(act, st1.locals, st1.rs[..depth], lv, depth, mid + 2);
    } else {
      IndexCells(act, st1.locals, st1.rs, lv2, st1.rs[depth].index + StepOf(s, st1));
    }
  }

  /** LOOP or +LOOP after the body. */
  lemma {:induction false} SimLoopEnd(x: World, fuel: nat, s: S.Stmt, depth: nat, st1: S.St, at: nat, mid: int, act: Act, lv: Leaves)
    requires SimPre(x, s, st1, at, act) && s.DoLoop? && mid + 2 == at + Len(x, act, s)
    requires AtTwo(x, Mach(act, st1, mid, lv[depth := mid + 2]), L.LoopOp(s.plus), at + 2 - (mid + 1))
    ensures Agrees(x, Mach(act, st1, mid, lv[depth := mid + 2]),
                   AfterBody(x, fuel, s, depth, st1), fuel, act, lv, mid + 2)
    decreases fuel, 0, s.body, 1
  {
    var m := Mach(act, st1, mid, lv[depth := mid + 2]);
    if s.plus && st1.data == [] {
      StepLoopThrows(x, m, at + 2 - (mid + 1));
      AgreesThrow(x, m, fuel, act, lv, mid + 2);
    } else if |st1.rs| == depth + 1 && st1.rs[depth].Ctl? {
      StepLoopEnd(x, s, depth, st1, at + 2, mid, act, lv);
      SimLoopTested(x, fuel, s, depth, st1, at, mid, act, lv);
    }
  }

  lemma {:induction false} SimLoopTested(x: World, fuel: nat, s: S.Stmt, depth: nat, st1: S.St, at: nat, mid: int, act: Act, lv: Leaves)
    requires SimPre(x, s, st1, at, act) && s.DoLoop? && mid + 2 == at + Len(x, act, s)
    requires !(s.plus && st1.data == []) && |st1.rs| == depth + 1 && st1.rs[depth].Ctl?
    requires Step(x.h, x.code, Mach(act, st1, mid, lv[depth := mid + 2])) ==
             Next(if Ends(s, depth, st1) then Mach(act, Stepped(s, depth, st1).(rs := st1.rs[..depth]), mid + 2, lv)
                  else Mach(act, Stepped(s, depth, st1), at + 2, lv[depth := mid + 2]))
    ensures Agrees(x, Mach(act, st1, mid, lv[depth := mid + 2]),
                   AfterBody(x, fuel, s, depth, st1), fuel, act, lv, mid + 2)
    decreases fuel, 0, s.body, 0
  {
    hide Step, Here, Len, Installed, Agrees, Ret, S.EvalIterations;
    var m := Mach(act, st1, mid, lv[depth := mid + 2]);
    var st2, m1 := Stepped(s, depth, st1), Step(x.h, x.code, m).s;
    if Ends(s, depth, st1) {
      AgreesHere(x, m1, st2.(rs := st1.rs[..depth]), fuel, act, lv, mid + 2);
      AgreesAfterStep(x, m, m1, AfterBody(x, fuel, s, depth, st1), fuel, act, lv, mid + 2);
    } else {
      if fuel > 0 { SimIterations(x, fuel - 1, s, depth, st2, at, act, lv); }
      AgreesLoop(x, m, m1, AfterBody(x, fuel, s, depth, st1), fuel, act, lv, mid + 2);
    }
  }

  lemma StepLoopThrows(x: World, m: State, n: int)
    requires AtTwo(x, m, PlusLoop, n) && m.data == []
    ensures Step(x.h, x.code, m) == Throw
  {
  }

  // ---------------------------------------------------------------------
  // CASE

  function LenC(x: World, act: Act, c: S.Clauses): nat {
    L.CaseSize(EnvOf(x, act), c)
  }

  /** Where the body of the first clause starts, or the end when there is none left. */
  function InC(x: World, act: Act, c: S.Clauses): nat {
    L.EntryOffset(EnvOf(x, act), c)
  }

  ghost predicate HereC(x: World, act: Act, c: S.Clauses, at: nat) {
    Placed(x.code, at, L.CaseCode(EnvOf(x, act), c, at))
  }

  lemma ClauseCode(x: World, act: Act, c: S.Clauses, at: nat)
    requires c.Clause?
    ensures var env, t, b := EnvOf(x, act), Len(x, act, c.test), Len(x, act, c.body);
            var n := 1 + if c.falls then InC(x, act, c.rest) else LenC(x, act, c.rest);
            L.CaseCode(env, c, at) ==
              L.Code(env, c.test, at) + [Op(Of), Num(b + 3)] + L.Code(env, c.body, at + t + 2) +
              [Op(Branch(true)), Num(n)] + L.CaseCode(env, c.rest, at + t + b + 4)
    ensures |L.Code(EnvOf(x, act), c.test, at)| == Len(x, act, c.test)
    ensures var t := Len(x, act, c.test);
            |L.Code(EnvOf(x, act), c.body, at + t + 2)| == Len(x, act, c.body)
  {
  }

  lemma PlacedClause(x: World, c: S.Clauses, at: nat, act: Act)
    requires HereC(x, act, c, at) && c.Clause?
    ensures var t, b := Len(x, act, c.test), Len(x, act, c.body);
            LenC(x, act, c) == t + b + 4 + LenC(x, act, c.rest) && InC(x, act, c) == t + 2 &&
            Here(x, act, c.test, at) && Here(x, act, c.body, at + t + 2) && HereC(x, act, c.rest, at + t + b + 4) &&
            at + t + b + 3 < |x.code| && x.code[at + t] == Op(Of) && x.code[at + t + 1] == Num(b + 3) &&
            x.code[at + t + b + 2] == Op(Branch(true)) &&
            x.code[at + t + b + 3] == Num(1 + if c.falls then InC(x, act, c.rest) else LenC(x, act, c.rest))
  {
    hide Placed, L.Code, L.CaseCode;
    var env := EnvOf(x, act);
    var t, b := Len(x, act, c.test), Len(x, act, c.body);
    var n := 1 + if c.falls then InC(x, act, c.rest) else LenC(x, act, c.rest);
    var c1, c2, c3 := L.Code(env, c.test, at), [Op(Of), Num(b + 3)], L.Code(env, c.body, at + t + 2);
    var c4, c5 := [Op(Branch(true)), Num(n)], L.CaseCode(env, c.rest, at + t + b + 4);
    ClauseCode(x, act, c, at);
    PlacedSplit(x.code, at, c1 + c2 + c3 + c4, c5);
    PlacedSplit(x.code, at, c1 + c2 + c3, c4);
    PlacedSplit(x.code, at, c1 + c2, c3);
    PlacedSplit(x.code, at, c1, c2);
    PlacedTwo(x.code, at + t, Of, b + 3);
    PlacedTwo(x.code, at + t + b + 2, Branch(true), n);
  }

  lemma StepOfParen(x: World, m: State, n: int)
    requires AtTwo(x, m, Of, n)
    ensures |m.data| < 2 ==> Step(x.h, x.code, m) == Throw
    ensures |m.data| >= 2 ==>
      Step(x.h, x.code, m) ==
      Next(if m.data[|m.data| - 1] == m.data[|m.data| - 2] then m.(ip := m.ip + 2, data := Pop(m.data, 2))
           else m.(ip := m.ip + 1 + n, data := Pop(m.data, 1)))
  {
  }

  ghost predicate CasePre(x: World, c: S.Clauses, st: S.St, at: nat, act: Act) {
    Installed(x) && HereC(x, act, c, at) && |st.locals| == act.nlocals
  }

  /** The clauses from their first test on. */
  lemma {:induction false} SimCase(x: World, fuel: nat, c: S.Clauses, st: S.St, at: nat, act: Act, lv: Leaves)
    requires CasePre(x, c, st, at, act)
    ensures Agrees(x, Mach(act, st, at, lv), S.EvalCase(x.h, x.prog, fuel, c, st), fuel, act, lv, at + LenC(x, act, c))
    decreases fuel, 0, c, 5
  {
    if c.Default? {
      SimDefault(x, fuel, c, st, at, act, lv);
    } else {
      SimClause(x, fuel, c, st, at, act, lv);
    }
  }

  lemma {:induction false} SimClause(x: World, fuel: nat, c: S.Clauses, st: S.St, at: nat, act: Act, lv: Leaves)
    requires CasePre(x, c, st, at, act) && c.Clause?
    ensures Agrees(x, Mach(act, st, at, lv), S.EvalCase(x.h, x.prog, fuel, c, st), fuel, act, lv, at + LenC(x, act, c))
    decreases fuel, 0, c, 4
  {
    hide Step, Here, HereC, Len, LenC, InC, Installed, Agrees, Ret, FrameOf, S.Eval, S.EvalCase, S.EvalEntered;
    var m, mid := Mach(act, st, at, lv), at + Len(x, act, c.test);
    var r1 := S.Eval(x.h, x.prog, fuel, c.test, st);
    PlacedClause(x, c, at, act);
    MeansClause(x, fuel, c, st);
    Sim(x, fuel, c.test, st, at, act, lv);
    if r1.Normal? {
      NormalLocals(x, m, r1.st, fuel, act, lv, mid);
      SimTested(x, fuel, c, r1.st, at, act, lv);
    }
    Continue(x, m, r1, mid, S.EvalCase(x.h, x.prog, fuel, c, st), at + LenC(x, act, c), fuel, act, lv);
  }

  lemma MeansClause(x: World, fuel: nat, c: S.Clauses, st: S.St)
    requires c.Clause?
    ensures var r1 := S.Eval(x.h, x.prog, fuel, c.test, st);
            S.EvalCase(x.h, x.prog, fuel, c, st) == if r1.Normal? then Tested(x, fuel, c, r1.st) else r1
  {
    hide S.Eval;
  }

  /** OF, after the test of the first clause ended in st1. */
  function Tested(x: World, fuel: nat, c: S.Clauses, st1: S.St): S.Result
    requires c.Clause?
  {
    if |st1.data| < 2 then S.Throws
    else if st1.data[|st1.data| - 1] == st1.data[|st1.data| - 2] then
      S.EvalEntered(x.h, x.prog, fuel, c, st1.(data := Pop(st1.data, 2)))
    else S.EvalCase(x.h, x.prog, fuel, c.rest, st1.(data := Pop(st1.data, 1)))
  }

  lemma {:induction false} SimTested(x: World, fuel: nat, c: S.Clauses, st1: S.St, at: nat, act: Act, lv: Leaves)
    requires CasePre(x, c, st1, at, act) && c.Clause?
    ensures Agrees(x, Mach(act, st1, at + Len(x, act, c.test), lv), Tested(x, fuel, c, st1), fuel, act, lv,
                   at + LenC(x, act, c))
    decreases fuel, 0, c, 3
  {
    hide Step, Here, HereC, Len, LenC, InC, Installed, Agrees, Ret, FrameOf, S.Eval, S.EvalCase, S.EvalEntered;
    var next, t, b := at + LenC(x, act, c), Len(x, act, c.test), Len(x, act, c.body);
    var m := Mach(act, st1, at + t, lv);
    PlacedClause(x, c, at, act);
    StepOfParen(x, m, b + 3);
    if |st1.data| < 2 {
      AgreesThrow(x, m, fuel, act, lv, next);
    } else {
      if st1.data[|st1.data| - 1] == st1.data[|st1.data| - 2] {
        SimEntered(x, fuel, c, st1.(data := Pop(st1.data, 2)), at, act, lv);
      } else {
        SimCase(x, fuel, c.rest, st1.(data := Pop(st1.data, 1)), at + t + b + 4, act, lv);
      }
      AgreesAfterStep(x, m, Step(x.h, x.code, m).s, Tested(x, fuel, c, st1), fuel, act, lv, next);
    }
  }

  /** The default part and the DROP of ENDCASE. */
  lemma {:induction false} SimDefault(x: World, fuel: nat, c: S.Clauses, st: S.St, at: nat, act: Act, lv: Leaves)
    requires CasePre(x, c, st, at, act) && c.Default?
    ensures Agrees(x, Mach(act, st, at, lv), S.EvalCase(x.h, x.prog, fuel, c, st), fuel, act, lv, at + LenC(x, act, c))
    decreases fuel, 0, c, 0
  {
    hide Step, Here, HereC, Len, LenC, InC, Installed, Agrees, Ret, FrameOf, S.Eval, S.EvalCase, S.EvalEntered;
    var m, mid := Mach(act, st, at, lv), at + Len(x, act, c.d);
    var r1 := S.Eval(x.h, x.prog, fuel, c.d, st);
    PlacedDefault(x, c, at, act);
    MeansDefault(x, fuel, c, st);
    Sim(x, fuel, c.d, st, at, act, lv);
    if r1.Normal? {
      NormalLocals(x, m, r1.st, fuel, act, lv, mid);
      SimBasic(x, fuel, S.DropWord, r1.st, mid, act, lv);
    }
    Continue(x, m, r1, mid, S.EvalCase(x.h, x.prog, fuel, c, st), at + LenC(x, act, c), fuel, act, lv);
  }

  lemma PlacedDefault(x: World, c: S.Clauses, at: nat, act: Act)
    requires HereC(x, act, c, at) && c.Default?
    ensures var k := Len(x, act, c.d);
            LenC(x, act, c) == k + 1 && Here(x, act, c.d, at) && at + k < |x.code| && x.code[at + k] == Op(Drop)
  {
    PlacedSplit(x.code, at, L.Code(EnvOf(x, act), c.d, at), [Op(Drop)]);
    PlacedOne(x.code, at + Len(x, act, c.d), Drop);
  }

  lemma MeansDefault(x: World, fuel: nat, c: S.Clauses, st: S.St)
    requires c.Default?
    ensures var r1 := S.Eval(x.h, x.prog, fuel, c.d, st);
            S.EvalCase(x.h, x.prog, fuel, c, st) == if r1.Normal? then S.EvalBasic(x.h, S.DropWord, r1.st) else r1
  {
    hide S.Eval;
  }

  /** The clauses entered at the first body, without its test. */
  lemma {:induction false} SimEntered(x: World, fuel: nat, c: S.Clauses, st: S.St, at: nat, act: Act, lv: Leaves)
    requires CasePre(x, c, st, at, act)
    ensures Agrees(x, Mach(act, st, at + InC(x, act, c), lv), S.EvalEntered(x.h, x.prog, fuel, c, st), fuel, act, lv,
                   at + LenC(x, act, c))
    decreases fuel, 0, c, 2
  {
    if c.Default? {
      AgreesHere(x, Mach(act, st, at + InC(x, act, c), lv), st, fuel, act, lv, at + LenC(x, act, c));
    } else {
      SimFirstBody(x, fuel, c, st, at, act, lv);
    }
  }

  lemma {:induction false} SimFirstBody(x: World, fuel: nat, c: S.Clauses, st: S.St, at: nat, act: Act, lv: Leaves)
    requires CasePre(x, c, st, at, act) && c.Clause?
    ensures Agrees(x, Mach(act, st, at + InC(x, act, c), lv), S.EvalEntered(x.h, x.prog, fuel, c, st), fuel, act, lv,
                   at + LenC(x, act, c))
    decreases fuel, 0, c, 1
  {
    hide Step, Here, HereC, Len, LenC, InC, Installed, Agrees, Ret, FrameOf, S.Eval, S.EvalCase, S.EvalEntered;
    var t := Len(x, act, c.test);
    var m, mid := Mach(act, st, at + t + 2, lv), at + t + Len(x, act, c.body) + 2;
    var r1 := S.Eval(x.h, x.prog, fuel, c.body, st);
    PlacedClause(x, c, at, act);
    MeansEntered(x, fuel, c, st);
    Sim(x, fuel, c.body, st, at + t + 2, act, lv);
    if r1.Normal? {
      NormalLocals(x, m, r1.st, fuel, act, lv, mid);
      SimBodyDone(x, fuel, c, m, r1.st, at, act, lv);
    } else {
      AgreesElsewhere(x, m, r1, fuel, act, lv, mid, at + LenC(x, act, c));
    }
  }

  lemma MeansEntered(x: World, fuel: nat, c: S.Clauses, st: S.St)
    requires c.Clause?
    ensures var r1 := S.Eval(x.h, x.prog, fuel, c.body, st);
            S.EvalEntered(x.h, x.prog, fuel, c, st) ==
            if r1.Normal? && c.falls then S.EvalEntered(x.h, x.prog, fuel, c.rest, r1.st) else r1
  {
    hide S.Eval;
  }

  /** ENDOF or FALLTHROUGH after the body ended in st1. */
  lemma {:induction false} SimBodyDone(x: World, fuel: nat, c: S.Clauses, m: State, st1: S.St, at: nat, act: Act, lv: Leaves)
    requires CasePre(x, c, st1, at, act) && c.Clause?
    requires Agrees(x, m, S.Normal(st1), fuel, act, lv, at + Len(x, act, c.test) + Len(x, act, c.body) + 2)
    ensures Agrees(x, m, if c.falls then S.EvalEntered(x.h, x.prog, fuel, c.rest, st1) else S.Normal(st1), fuel, act, lv,
                   at + LenC(x, act, c))
    decreases fuel, 0, c, 0
  {
    hide Step, Here, HereC, Len, LenC, InC, Installed, Agrees, Ret, FrameOf, S.Eval, S.EvalCase, S.EvalEntered;
    var mid := at + Len(x, act, c.test) + Len(x, act, c.body) + 2;
    PlacedClause(x, c, at, act);
    if c.falls {
      var k := InC(x, act, c.rest);
      SimSkip(x, fuel, m, S.Normal(st1), mid, 1 + k, act, lv, mid + 2 + k);
      SimEntered(x, fuel, c.rest, st1, mid + 2, act, lv);
      AgreesVia(x, m, st1, mid + 2 + k, S.EvalEntered(x.h, x.prog, fuel, c.rest, st1), fuel, act, lv, at + LenC(x, act, c));
    } else {
      SimSkip(x, fuel, m, S.Normal(st1), mid, 1 + LenC(x, act, c.rest), act, lv, at + LenC(x, act, c));
    }
  }

  // ---------------------------------------------------------------------
  // LEAVE, EXIT, literals, locals

  lemma SimLeave(x: World, fuel: nat, st: S.St, at: nat, act: Act, lv: Leaves)
    requires at < |x.code| && x.code[at] == Op(Leave) && |st.locals| == act.nlocals
    requires st.rs != [] && S.LastItem(st.rs).Ctl?
    ensures Agrees(x, Mach(act, st, at, lv), S.Left(st.(rs := st.rs[..|st.rs| - 1])), fuel, act, lv, at + 1)
  {
    var st1 := st.(rs := st.rs[..|st.rs| - 1]);
    var m, m1 := Mach(act, st, at, lv), Mach(act, st1, LeaveAt(lv, |st1.rs|), lv);
    BelowCtl(act, st, lv);
    assert Step(x.h, x.code, m) == Next(m1) by {
      hide Ret, LeaveAt;
      assert Pop(Pop(m.ret, 2), 1) == Pop(m.ret, 3) && Last(Pop(m.ret, 2)) == m.ret[|m.ret| - 3];
    }
    ReachStep(x, m, Next(m1));
  }

  /** The return from a definition, by EXIT or `;`. */
  lemma SimExit(x: World, fuel: nat, op: Instr, st: S.St, at: nat, act: Act, lv: Leaves, next: int)
    requires op == Exit || op == Semi
    requires Placed(x.code, at, L.ExitCode(EnvOf(x, act), op)) && |st.locals| == act.nlocals
    ensures Agrees(x, Mach(act, st, at, lv), S.Leaving(st), fuel, act, lv, next)
  {
    var m := Mach(act, st, at, lv);
    if act.nlocals > 0 {
      var c := [Op(Unlink), Op(op)];
      assert x.code[at + 0] == c[0] && x.code[at + 1] == c[1];
      UnlinkCells(act, st, lv);
      var m1 := State(at + 1, st.data, act.low + [act.back], act.frame);
      assert Step(x.h, x.code, m) == Next(m1);
      ReachStep(x, m, Next(m1));
      StepReturn(x, m1, op, act);
      ReachTrans(x, m, m1, Next(Returned(act, st.data)));
    } else if st.rs == [] {
      PlacedOne(x.code, at, op);
      assert Ret(act, st.locals, st.rs, lv) == act.low + [act.back];
      StepReturn(x, m, op, act);
    }
  }

  lemma StepReturn(x: World, m: State, op: Instr, act: Act)
    requires op == Exit || op == Semi
    requires 0 <= m.ip < |x.code| && x.code[m.ip] == Op(op) && m.ret == act.low + [act.back] && m.frame == act.frame
    ensures Reaches(x, m, Next(Returned(act, m.data)))
  {
    assert Pop(m.ret, 1) == act.low && Last(m.ret) == act.back;
    ReachStep(x, m, Next(Returned(act, m.data)));
  }

  /** (unlink) finds the caller's frame below the locals and drops everything above the return address. */
  lemma UnlinkCells(act: Act, st: S.St, lv: Leaves)
    requires act.nlocals > 0
    ensures var r, f := Ret(act, st.locals, st.rs, lv), FrameOf(act);
            1 <= f <= |r| && r[f - 1] == act.frame && r[..f - 1] == act.low + [act.back]
  {
    var r := Ret(act, st.locals, st.rs, lv);
    assert r == act.low + [act.back, act.frame] + (st.locals + Cells(st.rs, lv));
  }

  /** The cell of local k. */
  lemma LocalCell(act: Act, st: S.St, lv: Leaves, k: nat, v: int)
    requires |st.locals| == act.nlocals && k < act.nlocals
    ensures var r, f := Ret(act, st.locals, st.rs, lv), FrameOf(act);
            0 <= f + k < |r| && r[f + k] == st.locals[k] &&
            r[f + k := v] == Ret(act, st.locals[k := v], st.rs, lv)
  {
    var low, rest := act.low + [act.back, act.frame], Cells(st.rs, lv);
    var r := Ret(act, st.locals, st.rs, lv);
    assert r == low + st.locals + rest;
    assert r[|low| + k := v] == low + st.locals[k := v] + rest;
  }

  /** The fast forms for locals 0 and 1 do what the indexed form does. */
  lemma StepGet(x: World, m: State, k: nat)
    requires m.ip >= 0 && Placed(x.code, m.ip, L.LocalCode(k, GetLocal0, GetLocal1, GetLocal))
    requires 0 <= m.frame + k < |m.ret|
    ensures Step(x.h, x.code, m) ==
            Next(m.(ip := m.ip + if k < 2 then 1 else 2, data := m.data + [m.ret[m.frame + k]]))
  {
    if k == 0 { PlacedOne(x.code, m.ip, GetLocal0); }
    else if k == 1 { PlacedOne(x.code, m.ip, GetLocal1); }
    else { PlacedTwo(x.code, m.ip, GetLocal, k); }
  }

  lemma StepSet(x: World, m: State, k: nat)
    requires m.ip >= 0 && Placed(x.code, m.ip, L.LocalCode(k, ToLocal0, ToLocal1, ToLocal))
    requires 0 <= m.frame + k < |m.ret| && m.data != []
    ensures Step(x.h, x.code, m) ==
            Next(m.(ip := m.ip + if k < 2 then 1 else 2, data := Pop(m.data, 1), ret := m.ret[m.frame + k := Last(m.data)]))
  {
    if k == 0 { PlacedOne(x.code, m.ip, ToLocal0); }
    else if k == 1 { PlacedOne(x.code, m.ip, ToLocal1); }
    else { PlacedTwo(x.code, m.ip, ToLocal, k); }
  }

  lemma SimLocal(x: World, fuel: nat, s: S.Stmt, st: S.St, at: nat, act: Act, lv: Leaves)
    requires SimPre(x, s, st, at, act) && (s.Get? || s.Set?)
    ensures SimPost(x, fuel, s, st, at, act, lv)
  {
    hide Step, Ret, Cells;
    var m := Mach(act, st, at, lv);
    if s.k < act.nlocals {
      if s.Get? {
        LocalCell(act, st, lv, s.k, 0);
        StepGet(x, m, s.k);
      } else if st.data != [] {
        LocalCell(act, st, lv, s.k, Last(st.data));
        StepSet(x, m, s.k);
      }
      match S.Eval(x.h, x.prog, fuel, s, st)
      case Normal(st1) => ReachStep(x, m, Next(Mach(act, st1, at + Len(x, act, s), lv)));
      case _ =>
    }
  }

  lemma SimPush(x: World, fuel: nat, s: S.Stmt, st: S.St, at: nat, act: Act, lv: Leaves)
    requires SimPre(x, s, st, at, act) && s.Push?
    ensures SimPost(x, fuel, s, st, at, act, lv)
  {
    var m := Mach(act, st, at, lv);
    if -16 <= s.n <= 16 {
      PlacedOne(x.code, at, Small(s.n));
    } else {
      PlacedTwo(x.code, at, Literal, s.n);
    }
    ReachStep(x, m, Next(Mach(act, st.(data := st.data + [s.n]), at + Len(x, act, s), lv)));
  }

  // ---------------------------------------------------------------------
  // Definitions and calls

  /** The locals while the prologue runs: the first k are set, the others stale. */
  function PartLocals(x: World, data: seq<int>, n: nat, k: nat): (r: seq<int>)
    requires k <= n <= |data|
    ensures |r| == n
  {
    S.InitialLocals(data, n)[..k] + seq(n - k, _ => x.h.stale)
  }

  function PrologueState(x: World, act: Act, data: seq<int>, k: nat, ip: int): State
    requires k <= act.nlocals <= |data|
  {
    State(ip, Pop(data, k), act.low + [act.back, act.frame] + PartLocals(x, data, act.nlocals, k), |act.low| + 2)
  }

  /** The remaining (to-local) instructions of the prologue. */
  lemma {:induction false} SimPrologue(x: World, act: Act, data: seq<int>, k: nat, at: nat)
    requires k <= act.nlocals <= |data| && Placed(x.code, at, L.LocalsCode(k, act.nlocals))
    ensures Reaches(x, PrologueState(x, act, data, k, at),
                    Next(PrologueState(x, act, data, act.nlocals, at + |L.LocalsCode(k, act.nlocals)|)))
    decreases act.nlocals - k
  {
    var n := act.nlocals;
    var m := PrologueState(x, act, data, k, at);
    if k == n {
      assert Run(x.h, x.code, m, 0) == Next(m);
    } else {
      PlacedSplit(x.code, at, [Op(ToLocal), Num(k)], L.LocalsCode(k + 1, n));
      PlacedTwo(x.code, at, ToLocal, k);
      var m1 := PrologueState(x, act, data, k + 1, at + 2);
      assert Step(x.h, x.code, m) == Next(m1) by { StepPrologue(x, act, data, k, at); }
      ReachStep(x, m, Next(m1));
      SimPrologue(x, act, data, k + 1, at + 2);
      ReachTrans(x, m, m1, Next(PrologueState(x, act, data, n, at + |L.LocalsCode(k, n)|)));
    }
  }

  lemma StepPrologue(x: World, act: Act, data: seq<int>, k: nat, at: nat)
    requires k < act.nlocals <= |data| && at + 1 < |x.code| && x.code[at] == Op(ToLocal) && x.code[at + 1] == Num(k)
    ensures Step(x.h, x.code, PrologueState(x, act, data, k, at)) == Next(PrologueState(x, act, data, k + 1, at + 2))
  {
    var n := act.nlocals;
    var low, a, b := act.low + [act.back, act.frame], PartLocals(x, data, n, k), PartLocals(x, data, n, k + 1);
    assert Last(Pop(data, k)) == data[|data| - 1 - k] && Pop(Pop(data, k), 1) == Pop(data, k + 1);
    assert a[k := data[|data| - 1 - k]] == b;
    assert (low + a)[|low| + k := data[|data| - 1 - k]] == low + b;
  }

  /** From a definition's entry to its body: the frame is linked and the locals are set. */
  lemma SimEntry(x: World, act: Act, data: seq<int>, at: nat)
    requires act.nlocals <= |data| && Placed(x.code, at, L.Prologue(act.nlocals))
    ensures var n := act.nlocals;
            Reaches(x, State(at, data, act.low + [act.back], act.frame),
                    Next(Mach(act, S.St(Pop(data, n), [], S.InitialLocals(data, n)), at + |L.Prologue(n)|, map[])))
  {
    var n := act.nlocals;
    var m := State(at, data, act.low + [act.back], act.frame);
    if n == 0 {
      assert Pop(data, 0) == data;
      assert Run(x.h, x.code, m, 0) == Next(m);
    } else {
      var m1 := PrologueState(x, act, data, 0, at + 2);
      LinkStep(x, act, data, at);
      ReachStep(x, m, Next(m1));
      SimPrologue(x, act, data, 0, at + 2);
      PrologueDone(x, act, data, at + |L.Prologue(n)|);
      ReachTrans(x, m, m1, Next(PrologueState(x, act, data, n, at + |L.Prologue(n)|)));
    }
  }

  /** (link) and its operand make the frame. */
  lemma LinkStep(x: World, act: Act, data: seq<int>, at: nat)
    requires 0 < act.nlocals <= |data| && Placed(x.code, at, L.Prologue(act.nlocals))
    ensures Step(x.h, x.code, State(at, data, act.low + [act.back], act.frame)) == Next(PrologueState(x, act, data, 0, at + 2))
    ensures Placed(x.code, at + 2, L.LocalsCode(0, act.nlocals))
  {
    var n := act.nlocals;
    PlacedSplit(x.code, at, [Op(Link), Num(n)], L.LocalsCode(0, n));
    PlacedTwo(x.code, at, Link, n);
    assert Pop(data, 0) == data;
    assert PartLocals(x, data, n, 0) == seq(n, _ => x.h.stale);
    assert act.low + [act.back] + [act.frame] == act.low + [act.back, act.frame];
  }

  /** When all locals are stored, the frame holds what the source says. */
  lemma PrologueDone(x: World, act: Act, data: seq<int>, end: nat)
    requires 0 < act.nlocals <= |data|
    ensures var n := act.nlocals;
            PrologueState(x, act, data, n, end) == Mach(act, S.St(Pop(data, n), [], S.InitialLocals(data, n)), end, map[])
  {
    assert PartLocals(x, data, act.nlocals, act.nlocals) == S.InitialLocals(data, act.nlocals);
  }

  /** A definition from its entry to its return: data as the source says, the caller's
      return stack and frame restored. */
  lemma {:induction false} SimDef(x: World, fuel: nat, w: nat, data: seq<int>, low: seq<int>, back: int, frame: int)
    requires Installed(x) && w < |x.prog|
    ensures Agrees(x, State(x.entry[w], data, low + [back], frame), S.EvalDef(x.h, x.prog, fuel, w, data), fuel,
                   Act(low, back, frame, x.prog[w].nlocals), map[], 0)
    decreases fuel, 1
  {
    var n := x.prog[w].nlocals;
    if n <= |data| {
      var act, env, at := Act(low, back, frame, n), L.Env(x.entry, n), x.entry[w];
      var body, p := x.prog[w].body, |L.Prologue(n)|;
      var c1, c2, c3 := L.Prologue(n), L.Code(env, body, at + p), L.ExitCode(env, Semi);
      PlacedSplit(x.code, at, c1 + c2, c3);
      PlacedSplit(x.code, at, c1, c2);
      SimEntry(x, act, data, at);
      var st := S.St(Pop(data, n), [], S.InitialLocals(data, n));
      var m, m1, mid := State(at, data, low + [back], frame), Mach(act, st, at + p, map[]), at + p + Len(x, act, body);
      Sim(x, fuel, body, st, at + p, act, map[]);
      SimDefEnd(x, fuel, body, st, at + p, act);
      AgreesBefore(x, m, m1, S.EvalDef(x.h, x.prog, fuel, w, data), fuel, act, map[], 0);
    }
  }

  /** The end of a definition whose body starts at `at`. */
  lemma SimDefEnd(x: World, fuel: nat, body: S.Stmt, st: S.St, at: nat, act: Act)
    requires SimPost(x, fuel, body, st, at, act, map[])
    requires Placed(x.code, at + Len(x, act, body), L.ExitCode(EnvOf(x, act), Semi))
    ensures Agrees(x, Mach(act, st, at, map[]), DefResult(S.Eval(x.h, x.prog, fuel, body, st)), fuel, act, map[], 0)
  {
    var m, mid := Mach(act, st, at, map[]), at + Len(x, act, body);
    hide S.Eval, Len, Mach;
    match S.Eval(x.h, x.prog, fuel, body, st)
    case Normal(st1) =>
      NormalLocals(x, m, st1, fuel, act, map[], mid);
      SimExit(x, fuel, Semi, st1, mid, act, map[], 0);
      AgreesVia(x, m, st1, mid, S.Leaving(st1), fuel, act, map[], 0);
    case r => if !r.Left? { AgreesElsewhere(x, m, r, fuel, act, map[], mid, 0); }
  }

  function DefResult(r: S.Result): S.Result {
    match r
    case Normal(st) => S.Leaving(st)
    case Left(_) => S.Stuck
    case r => r
  }

  lemma PlacedCall(x: World, s: S.Stmt, at: nat, act: Act)
    requires Installed(x) && Here(x, act, s, at) && s.CallWord?
    ensures at < |x.code| && Len(x, act, s) == 1 && |x.entry| == |x.prog|
    ensures s.w < |x.prog| ==> x.code[at] == Op(Call(x.entry[s.w]))
  {
    PlacedOne(x.code, at, Call(L.EntryOf(EnvOf(x, act), s.w)));
  }

  lemma StepCall(x: World, m: State, body: int)
    requires 0 <= m.ip < |x.code| && x.code[m.ip] == Op(Call(body))
    ensures Step(x.h, x.code, m) == Next(m.(ip := body, ret := m.ret + [m.ip + 1]))
  {
  }

  lemma MeansCall(x: World, fuel: nat, s: S.Stmt, st: S.St)
    requires s.CallWord?
    ensures fuel == 0 ==> S.Eval(x.h, x.prog, fuel, s, st) == S.Timeout
    ensures fuel > 0 ==>
              var r := S.EvalDef(x.h, x.prog, fuel - 1, s.w, st.data);
              (r.Exited? || r.Throws? || r.Stuck? || r.Timeout?) && (s.w >= |x.prog| ==> r.Stuck?) &&
              S.Eval(x.h, x.prog, fuel, s, st) == if r.Exited? then S.Normal(st.(data := r.data)) else r
  {
  }

  lemma {:induction false} SimCall(x: World, fuel: nat, s: S.Stmt, st: S.St, at: nat, act: Act, lv: Leaves)
    requires SimPre(x, s, st, at, act) && s.CallWord?
    ensures SimPost(x, fuel, s, st, at, act, lv)
    decreases fuel, 0, s, 0
  {
    hide Step, Ret, FrameOf, Installed, Agrees, Cells, S.Eval, S.EvalDef;
    var m, w := Mach(act, st, at, lv), s.w;
    PlacedCall(x, s, at, act);
    MeansCall(x, fuel, s, st);
    if fuel == 0 {
      AgreesOut(x, m, act, lv, at + Len(x, act, s));
    } else if w < |x.prog| {
      var m1 := State(x.entry[w], m.data, m.ret + [at + 1], m.frame);
      StepCall(x, m, x.entry[w]);
      SimDef(x, fuel - 1, w, m.data, m.ret, at + 1, m.frame);
      var r := S.EvalDef(x.h, x.prog, fuel - 1, w, st.data);
      var act2 := Act(m.ret, at + 1, m.frame, x.prog[w].nlocals);
      if r.Exited? {
        CallReturns(x, m, m1, r.data, fuel, act2, st.(data := r.data), act, lv, at + 1);
      } else {
        CallFails(x, m, m1, r, fuel, act2, act, lv, at + 1);
      }
    } else {
      AgreesStuck(x, m, fuel, act, lv, at + 1);
    }
  }

  lemma CallReturns(x: World, m: State, m1: State, data: seq<int>, fuel: nat, act2: Act, st: S.St, act: Act, lv: Leaves, next: int)
    requires Step(x.h, x.code, m) == Next(m1) && fuel > 0 && |st.locals| == act.nlocals
    requires Agrees(x, m1, S.Exited(data), fuel - 1, act2, map[], 0)
    requires Returned(act2, data) == Mach(act, st, next, lv)
    ensures Agrees(x, m, S.Normal(st), fuel, act, lv, next)
  {
    hide Step;
    ReachStep(x, m, Next(m1));
    ReachTrans(x, m, m1, Next(Returned(act2, data)));
  }

  lemma CallFails(x: World, m: State, m1: State, r: S.Result, fuel: nat, act2: Act, act: Act, lv: Leaves, next: int)
    requires Step(x.h, x.code, m) == Next(m1) && fuel > 0 && (r.Throws? || r.Stuck? || r.Timeout?)
    requires Agrees(x, m1, r, fuel - 1, act2, map[], 0)
    ensures Agrees(x, m, r, fuel, act, lv, next)
  {
    hide Step;
    AgreesStep(x, m, m1, r, fuel, act, lv, next);
  }

  // ---------------------------------------------------------------------

  /** Running the cells of a statement simulates its meaning. */
  lemma {:induction false} Sim(x: World, fuel: nat, s: S.Stmt, st: S.St, at: nat, act: Act, lv: Leaves)
    requires SimPre(x, s, st, at, act)
    ensures SimPost(x, fuel, s, st, at, act, lv)
    decreases fuel, 0, s, 1
  {
    if s.Then? { SimThen(x, fuel, s, st, at, act, lv); }
    else if (s.If? || s.IfElse?) && st.data == [] { SimIfThrows(x, fuel, s, st, at, act, lv); }
    else if s.If? { SimIf(x, fuel, s, st, at, act, lv); }
    else if s.IfElse? { SimIfElse(x, fuel, s, st, at, act, lv); }
    else if s.Until? { SimUntil(x, fuel, s, st, at, act, lv); }
    else if s.WhileRepeat? { SimWhile(x, fuel, s, st, at, act, lv); }
    else if s.Again? { SimAgain(x, fuel, s, st, at, act, lv); }
    else if s.DoLoop? { SimDo(x, fuel, s, st, at, act, lv); }
    else if s.CaseOf? { SimCase(x, fuel, s.clauses, st, at, act, lv); }
    else if s.CallWord? { SimCall(x, fuel, s, st, at, act, lv); }
    else if s.Get? || s.Set? { SimLocal(x, fuel, s, st, at, act, lv); }
    else if s.Push? { SimPush(x, fuel, s, st, at, act, lv); }
    else { SimSimple(x, fuel, s, st, at, act, lv); }
  }

  lemma SimSimple(x: World, fuel: nat, s: S.Stmt, st: S.St, at: nat, act: Act, lv: Leaves)
    requires SimPre(x, s, st, at, act) && (s.Skip? || s.Do1? || s.LeaveWord? || s.ExitStmt?)
    ensures SimPost(x, fuel, s, st, at, act, lv)
  {
    match s
    case Skip => AgreesHere(x, Mach(act, st, at, lv), st, fuel, act, lv, at);
    case Do1(b) =>
      PlacedOne(x.code, at, L.Token(b));
      SimBasic(x, fuel, b, st, at, act, lv);
    case LeaveWord =>
      PlacedOne(x.code, at, Leave);
      if st.rs != [] && S.LastItem(st.rs).Ctl? { SimLeave(x, fuel, st, at, act, lv); }
    case ExitStmt => SimExit(x, fuel, Exit, st, at, act, lv, at + Len(x, act, s));
  }
}
