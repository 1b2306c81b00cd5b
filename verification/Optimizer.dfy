/**
  ficlVmOptimizeJumpToJump and the self-modifying interpreter: the first run of
  a "with check" branch rewrites code memory so that the branch skips over any
  chain of unconditional branches.
 */
module Optimizer {
  import opened Machine

  predicate IsBranch(c: Cell) {
    c.Op? && (c.op.Branch? || c.op.Branch0?)
  }

  /** An unconditional branch, optimized or not. */
  predicate IsJump(c: Cell) {
    c.Op? && c.op.Branch?
  }

  predicate IsCheck(c: Cell) {
    IsBranch(c) && c.op.check
  }

  function Uncheck(c: Cell): Cell {
    if IsBranch(c) then Op(c.op.(check := false)) else c
  }

  /** Where the branch at p goes. */
  function Target(code: seq<Cell>, p: int): int
    requires HasNum(code, p + 1)
  {
    p + 1 + code[p + 1].n
  }

  /** Every branch has an operand and lands on an instruction. */
  ghost predicate BranchesLand(code: seq<Cell>) {
    forall p :: 0 <= p < |code| && IsBranch(code[p]) ==>
      HasNum(code, p + 1) && 0 <= Target(code, p) < |code| && code[Target(code, p)].Op?
  }

  ghost function Checks(code: seq<Cell>): set<int> {
    set p | 0 <= p < |code| && IsCheck(code[p])
  }

  /** The two memories differ in "check" marks and in branch operands only. */
  ghost predicate SameShape(c0: seq<Cell>, c: seq<Cell>) {
    |c| == |c0| &&
    (forall i {:trigger c[i]} {:trigger c0[i]} :: 0 <= i < |c| && c0[i].Op? ==> c[i].Op? && Uncheck(c[i]) == Uncheck(c0[i])) &&
    (forall i {:trigger c[i]} {:trigger c0[i]} :: 0 <= i < |c| && c0[i].Num? ==>
      c[i].Num? && (c[i] == c0[i] || (i > 0 && IsBranch(c0[i - 1]))))
  }

  /** r can follow from code by optimizing: finished branches are left alone. */
  ghost predicate Later(code: seq<Cell>, r: seq<Cell>) {
    BranchesLand(r) && SameShape(code, r) && Checks(r) <= Checks(code) &&
    forall i {:trigger r[i]} :: 0 <= i < |code| && IsBranch(code[i]) && !IsCheck(code[i]) ==>
      r[i] == code[i] && i + 1 < |code| && r[i + 1] == code[i + 1]
  }

  /** Make the branch at p jump to dest. */
  function Retarget(code: seq<Cell>, p: int, dest: int): seq<Cell>
    requires HasNum(code, p + 1)
  {
    code[p + 1 := Num(dest - (p + 1))]
  }

  function Mark(code: seq<Cell>, p: int): seq<Cell>
    requires 0 <= p < |code|
  {
    code[p := Uncheck(code[p])]
  }

  lemma MarkLater(code: seq<Cell>, p: int)
    requires BranchesLand(code) && 0 <= p < |code| && IsCheck(code[p])
    ensures Later(code, Mark(code, p))
    ensures p in Checks(code) && p !in Checks(Mark(code, p))
    ensures HasNum(code, p + 1) && Target(Mark(code, p), p) == Target(code, p)
  {
    var r := Mark(code, p);
    forall q | 0 <= q < |r| && IsBranch(r[q])
      ensures HasNum(r, q + 1) && 0 <= Target(r, q) < |r| && r[Target(r, q)].Op?
    {
      assert IsBranch(code[q]);
    }
  }

  /** Retargeting a branch that was still checked in `was`. */
  lemma RetargetLater(was: seq<Cell>, code: seq<Cell>, p: int, dest: int)
    requires Later(was, code) && 0 <= p < |code| && IsCheck(was[p])
    requires 0 <= dest < |code| && code[dest].Op?
    ensures HasNum(code, p + 1) && Later(was, Retarget(code, p, dest))
    ensures Target(Retarget(code, p, dest), p) == dest
    ensures Checks(Retarget(code, p, dest)) == Checks(code)
  {
    assert IsBranch(code[p]);
    RetargetLands(code, p, dest);
  }

  lemma RetargetLands(code: seq<Cell>, p: int, dest: int)
    requires BranchesLand(code) && HasNum(code, p + 1) && 0 <= dest < |code| && code[dest].Op?
    requires 0 <= p && IsBranch(code[p])
    ensures BranchesLand(Retarget(code, p, dest))
  {
    var r := Retarget(code, p, dest);
    forall q | 0 <= q < |r| && IsBranch(r[q])
      ensures HasNum(r, q + 1) && 0 <= Target(r, q) < |r| && r[Target(r, q)].Op?
    {
      assert IsBranch(code[q]);
    }
  }

  lemma LaterTrans(a: seq<Cell>, b: seq<Cell>, c: seq<Cell>)
    requires Later(a, b) && Later(b, c)
    ensures Later(a, c)
  {
  }

  /** ficlVmOptimizeJumpToJump as a function of code memory. */
  ghost function Optimize(code: seq<Cell>, p: int): (r: seq<Cell>)
    requires BranchesLand(code) && 0 <= p < |code|
    ensures Later(code, r) && p !in Checks(r)
    decreases Checks(code)
  {
    if !IsCheck(code[p]) then code
    else
      MarkLater(code, p);
      var c1 := Mark(code, p);
      var dest := Target(c1, p);
      if IsJump(c1[dest]) then
        var c2 := if IsCheck(c1[dest]) then Optimize(c1, dest) else c1;
        LaterTrans(code, c1, c2);
        assert IsJump(c2[dest]);
        RetargetLater(code, c2, p, Target(c2, dest));
        Retarget(c2, p, Target(c2, dest))
      else c1
  }

  // ---------------------------------------------------------------------
  // Jump chains of the original code

  /** Follow k unconditional branches from address a; -1 if there are fewer. */
  ghost function Follow(code: seq<Cell>, a: int, k: nat): int
    decreases k
  {
    if k == 0 then a
    else if 0 <= a < |code| && IsJump(code[a]) && HasNum(code, a + 1) then
      Follow(code, Target(code, a), k - 1)
    else -1
  }

  /** b is reached from a by following zero or more unconditional branches. */
  ghost predicate Chain(code: seq<Cell>, a: int, b: int) {
    0 <= b && exists k: nat :: Follow(code, a, k) == b
  }

  /** c is the original c0 after some optimizing. */
  ghost predicate Compat(c0: seq<Cell>, c: seq<Cell>) {
    BranchesLand(c0) && BranchesLand(c) && SameShape(c0, c) &&
    forall p {:trigger IsBranch(c0[p])} :: 0 <= p < |c0| && IsBranch(c0[p]) ==>
      Chain(c0, Target(c0, p), Target(c, p))
  }

  lemma {:induction false} FollowAdd(code: seq<Cell>, a: int, k: nat, m: nat)
    requires Follow(code, a, k) >= 0
    ensures Follow(code, a, k + m) == Follow(code, Follow(code, a, k), m)
    decreases k
  {
    if k > 0 {
      FollowAdd(code, Target(code, a), k - 1, m);
    }
  }

  lemma ChainTrans(code: seq<Cell>, a: int, b: int, d: int)
    requires Chain(code, a, b) && Chain(code, b, d)
    ensures Chain(code, a, d)
  {
    var k: nat :| Follow(code, a, k) == b;
    var m: nat :| Follow(code, b, m) == d;
    FollowAdd(code, a, k, m);
    assert Follow(code, a, k + m) == d;
  }

  lemma CompatRefl(c0: seq<Cell>)
    requires BranchesLand(c0)
    ensures Compat(c0, c0)
  {
    forall p | 0 <= p < |c0| && IsBranch(c0[p])
      ensures Chain(c0, Target(c0, p), Target(c0, p))
    {
      assert Follow(c0, Target(c0, p), 0) == Target(c0, p);
    }
  }

  /** What BranchesLand says of one branch. */
  lemma LandsAt(code: seq<Cell>, p: int)
    requires BranchesLand(code) && 0 <= p < |code| && IsBranch(code[p])
    ensures HasNum(code, p + 1) && 0 <= Target(code, p) < |code| && code[Target(code, p)].Op?
  {
  }

  /** A branch was a branch of the same kind in the original, and its target lies on the chain of the old one. */
  lemma CompatAt(c0: seq<Cell>, c: seq<Cell>, p: int)
    requires Compat(c0, c) && 0 <= p < |c| && IsBranch(c[p])
    ensures |c| == |c0| && IsBranch(c0[p]) && (IsJump(c[p]) <==> IsJump(c0[p]))
    ensures HasNum(c0, p + 1) && HasNum(c, p + 1) && Chain(c0, Target(c0, p), Target(c, p))
    ensures 0 <= Target(c, p) < |c|
  {
    assert IsBranch(c0[p]);
  }

  lemma SameSize(c0: seq<Cell>, c: seq<Cell>)
    requires Compat(c0, c)
    ensures |c| == |c0|
  {
  }

  /** And a branch of the original is one now. */
  lemma FromOriginal(c0: seq<Cell>, c: seq<Cell>, p: int)
    requires Compat(c0, c) && 0 <= p < |c| && IsBranch(c0[p])
    ensures |c| == |c0| && IsBranch(c[p]) && HasNum(c0, p + 1) && HasNum(c, p + 1)
    ensures Chain(c0, Target(c0, p), Target(c, p)) && 0 <= Target(c, p) < |c|
  {
    assert c0[p].Op?;
  }

  lemma MarkCompat(c0: seq<Cell>, c: seq<Cell>, p: int)
    requires Compat(c0, c) && 0 <= p < |c| && IsCheck(c[p])
    ensures Compat(c0, Mark(c, p))
  {
    MarkLater(c, p);
  }

  /** One step past a jump at b extends a chain. */
  lemma ChainThroughJump(c0: seq<Cell>, c: seq<Cell>, a: int, b: int)
    requires Compat(c0, c) && Chain(c0, a, b) && b < |c| && IsJump(c[b])
    ensures HasNum(c, b + 1) && Chain(c0, a, Target(c, b))
  {
    assert c0[b].Op? && IsJump(c0[b]) && IsBranch(c0[b]);
    assert Follow(c0, b, 1) == Follow(c0, Target(c0, b), 0);
    assert Chain(c0, b, Target(c0, b));
    ChainTrans(c0, b, Target(c0, b), Target(c, b));
    ChainTrans(c0, a, b, Target(c, b));
  }

  /** Optimizing keeps the relation to the original code. */
  lemma {:induction false} OptimizeCompat(c0: seq<Cell>, c: seq<Cell>, p: int)
    requires Compat(c0, c) && 0 <= p < |c|
    ensures Compat(c0, Optimize(c, p))
    decreases Checks(c)
  {
    hide BranchesLand, SameShape, Chain, Later, Checks;
    if IsCheck(c[p]) {
      MarkDone(c, p);
      MarkCompat(c0, c, p);
      CompatAt(c0, c, p);
      var c1 := Mark(c, p);
      var dest := Target(c1, p);
      assert IsJump(c1[dest]) <==> IsJump(c[dest]);
      if IsJump(c1[dest]) {
        if IsCheck(c1[dest]) {
          OptimizeCompat(c0, c1, dest);
        }
        OptimizeStep(c0, c, p);
      }
    }
  }

  /** Marking strictly lowers the termination measure and keeps the target. */
  lemma MarkDone(code: seq<Cell>, p: int)
    requires BranchesLand(code) && 0 <= p < |code| && IsCheck(code[p])
    ensures Checks(Mark(code, p)) < Checks(code) && BranchesLand(Mark(code, p))
    ensures HasNum(code, p + 1) && HasNum(Mark(code, p), p + 1) && Target(Mark(code, p), p) == Target(code, p)
    ensures 0 <= Target(code, p) < |code|
  {
    MarkLater(code, p);
  }

  /** The memory after the landing place of p has been optimized. */
  ghost function Landed(code: seq<Cell>, p: int): (r: seq<Cell>)
    requires BranchesLand(code) && 0 <= p < |code| && IsCheck(code[p])
    ensures Later(code, r) && HasNum(code, p + 1)
  {
    MarkLater(code, p);
    var c1 := Mark(code, p);
    var dest := Target(c1, p);
    var c2 := if IsCheck(c1[dest]) && IsJump(c1[dest]) then Optimize(c1, dest) else c1;
    LaterTrans(code, c1, c2);
    c2
  }

  /** The landing jump is still there and can be followed; what remains is to retarget p. */
  lemma AfterLanding(code: seq<Cell>, p: int)
    requires BranchesLand(code) && 0 <= p < |code| && IsCheck(code[p])
    requires HasNum(code, p + 1) && 0 <= Target(code, p) < |code| && IsJump(Mark(code, p)[Target(code, p)])
    ensures var c2, dest := Landed(code, p), Target(code, p);
            |c2| == |code| && HasNum(c2, p + 1) && IsJump(c2[dest]) && HasNum(c2, dest + 1) &&
            Optimize(code, p) == Retarget(c2, p, Target(c2, dest))
  {
    hide BranchesLand, SameShape;
    MarkDone(code, p);
    var c2, dest := Landed(code, p), Target(code, p);
    assert IsJump(code[dest]);
    LaterJump(code, c2, dest);
    LandsAt(c2, dest);
    RetargetLater(code, c2, p, Target(c2, dest));
  }

  /** After the landing place is right, retargeting keeps the relation to the original. */
  lemma OptimizeStep(c0: seq<Cell>, c: seq<Cell>, p: int)
    requires Compat(c0, c) && 0 <= p < |c| && IsCheck(c[p]) && Compat(c0, Landed(c, p))
    requires IsJump(c[Target(c, p)])
    ensures Compat(c0, Optimize(c, p))
  {
    hide BranchesLand, SameShape, Chain, Checks;
    var c2, dest := Landed(c, p), Target(c, p);
    CompatAt(c0, c, p);
    LaterJump(c, c2, dest);
    ChainThroughJump(c0, c2, Target(c0, p), dest);
    LandsAt(c2, dest);
    RetargetLater(c, c2, p, Target(c2, dest));
    RetargetCompat(c0, c2, p, Target(c2, dest));
    MarkDone(c, p);
    assert Optimize(c, p) == Retarget(c2, p, Target(c2, dest));
  }

  /** Optimizing never turns a jump into something else. */
  lemma LaterJump(c: seq<Cell>, r: seq<Cell>, p: int)
    requires Later(c, r) && 0 <= p < |c| && IsJump(c[p])
    ensures |r| == |c| && IsJump(r[p])
  {
    assert c[p].Op?;
  }

  lemma RetargetCompat(c0: seq<Cell>, c: seq<Cell>, p: int, dest: int)
    requires Compat(c0, c) && 0 <= p < |c| && IsBranch(c0[p]) && HasNum(c, p + 1)
    requires BranchesLand(Retarget(c, p, dest))
    requires Chain(c0, Target(c0, p), dest)
    ensures Compat(c0, Retarget(c, p, dest))
  {
    var r := Retarget(c, p, dest);
    assert SameShape(c0, r);
    forall q | 0 <= q < |c0| && IsBranch(c0[q])
      ensures Chain(c0, Target(c0, q), Target(r, q))
    {
      if q != p { assert r[q + 1] == c[q + 1]; }
    }
  }

  // ---------------------------------------------------------------------
  // The self-modifying interpreter

  /** One pass of the inner loop: a checked branch is optimized, then executed. */
  ghost function StepCode(code: seq<Cell>, ip: int): (r: seq<Cell>)
    requires BranchesLand(code)
    ensures BranchesLand(r)
  {
    if 0 <= ip < |code| && IsCheck(code[ip]) then Optimize(code, ip) else code
  }

  /** n passes of the self-modifying loop. */
  ghost function SelfRun(h: Host, code: seq<Cell>, s: State, n: nat): Outcome
    requires BranchesLand(code)
    decreases n
  {
    if n == 0 then Next(s)
    else
      var c1 := StepCode(code, s.ip);
      match Step(h, c1, s)
      case Next(s1) => SelfRun(h, c1, s1, n - 1)
      case other => other
  }

  /** The plain interpreter walks along a chain one branch per step. */
  lemma {:induction false} RunChain(h: Host, c0: seq<Cell>, s: State, k: nat)
    requires Follow(c0, s.ip, k) >= 0
    ensures Run(h, c0, s, k) == Next(s.(ip := Follow(c0, s.ip, k)))
    decreases k
  {
    if k > 0 {
      var s1 := s.(ip := Target(c0, s.ip));
      assert Step(h, c0, s) == Next(s1);
      RunChain(h, c0, s1, k - 1);
    }
  }

  /** A step on optimized code does what one plain step and a walk along a chain do. */
  lemma StepMatches(h: Host, c0: seq<Cell>, c: seq<Cell>, s: State) returns (k: nat)
    requires Compat(c0, c)
    ensures Step(h, c, s).Next? ==> Run(h, c0, s, 1 + k) == Step(h, c, s)
    ensures !Step(h, c, s).Next? ==> Step(h, c0, s) == Step(h, c, s)
  {
    k := 0;
    var p := s.ip;
    if 0 <= p < |c| {
      assert c0[p].Op? || c0[p].Num?;
      if IsBranch(c[p]) {
        assert IsBranch(c0[p]);
        assert Chain(c0, Target(c0, p), Target(c, p));
        var m: nat :| Follow(c0, Target(c0, p), m) == Target(c, p);
        if Step(h, c, s).Next? {
          if Step(h, c, s).s.ip == Step(h, c0, s).s.ip {
            assert Step(h, c, s) == Step(h, c0, s);
            assert Run(h, c0, s, 1) == Step(h, c0, s);
          } else {
            k := m;
            var s1 := Step(h, c0, s).s;
            RunChain(h, c0, s1, m);
          }
        }
      } else if p + 1 < |c| {
        assert c0[p + 1].Op? || c0[p + 1].Num?;
        assert Step(h, c, s) == Step(h, c0, s);
        assert Step(h, c0, s).Next? ==> Run(h, c0, s, 1) == Step(h, c0, s);
      } else {
        assert Step(h, c, s) == Step(h, c0, s);
        assert Step(h, c0, s).Next? ==> Run(h, c0, s, 1) == Step(h, c0, s);
      }
    }
  }

  lemma StepCodeCompat(c0: seq<Cell>, c: seq<Cell>, ip: int)
    requires Compat(c0, c)
    ensures Compat(c0, StepCode(c, ip))
  {
    if 0 <= ip < |c| && IsCheck(c[ip]) {
      OptimizeCompat(c0, c, ip);
    }
  }

  /** Every self-modifying run is a plain run of at least as many steps. */
  lemma {:induction false} SelfRunIsRun(h: Host, c0: seq<Cell>, c: seq<Cell>, s: State, n: nat) returns (m: nat)
    requires Compat(c0, c)
    ensures SelfRun(h, c, s, n).Next? ==> m >= n
    ensures Run(h, c0, s, m) == SelfRun(h, c, s, n)
    decreases n
  {
    hide Step, Optimize, SameShape, BranchesLand, Chain;
    if n == 0 {
      m := 0;
    } else {
      var c1 := StepCode(c, s.ip);
      StepCodeCompat(c0, c, s.ip);
      var k := StepMatches(h, c0, c1, s);
      match Step(h, c1, s)
      case Next(s1) =>
        var m1 := SelfRunIsRun(h, c0, c1, s1, n - 1);
        RunSplit(h, c0, s, 1 + k, m1);
        m := 1 + k + m1;
      case _ =>
        assert Run(h, c0, s, 1) == Step(h, c0, s);
        m := 1;
    }
  }

  /** The plain interpreter stops with outcome o. */
  ghost predicate Stops(h: Host, code: seq<Cell>, s: State, o: Outcome) {
    !o.Next? && exists m: nat :: Run(h, code, s, m) == o
  }

  /** The self-modifying interpreter stops with outcome o. */
  ghost predicate SelfStops(h: Host, code: seq<Cell>, s: State, o: Outcome)
    requires BranchesLand(code)
  {
    !o.Next? && exists n: nat :: SelfRun(h, code, s, n) == o
  }

  /** At any moment of a run, rewriting jumps does not change how the run ends:
      the self-modifying interpreter stops with an outcome exactly when the plain
      one on the original code does.  So it also diverges exactly when that does. */
  lemma SelfModificationPreservesRuns(h: Host, c0: seq<Cell>, c: seq<Cell>, s: State, o: Outcome)
    requires Compat(c0, c)
    ensures SelfStops(h, c, s, o) <==> Stops(h, c0, s, o)
  {
    hide Step, SameShape, BranchesLand, Chain;
    if SelfStops(h, c, s, o) {
      var n: nat :| SelfRun(h, c, s, n) == o;
      var m := SelfRunIsRun(h, c0, c, s, n);
    }
    if Stops(h, c0, s, o) {
      var m: nat :| Run(h, c0, s, m) == o;
      var m1 := SelfRunIsRun(h, c0, c, s, m);
      RunSplit(h, c0, s, m, m1);
      RunSplit(h, c0, s, m1, m);
      assert SelfRun(h, c, s, m) == o by {
        if SelfRun(h, c, s, m).Next? {
          RunSplit(h, c0, s, m, m1 - m);
        }
      }
    }
  }

  // ---------------------------------------------------------------------
  // Where optimized branches go

  /** The chain from a ends, after n unconditional branches, at the non-jump q. */
  ghost predicate EndsAt(code: seq<Cell>, a: int, n: nat, q: int) {
    Follow(code, a, n) == q && 0 <= q < |code| && !IsJump(code[q])
  }

  /** Every finished branch outside `pending` whose chain ends jumps straight to the end. */
  ghost predicate Settled(c0: seq<Cell>, c: seq<Cell>, pending: set<int>)
    requires BranchesLand(c0) && BranchesLand(c) && SameShape(c0, c)
  {
    forall p, n: nat, q {:trigger IsBranch(c[p]), EndsAt(c0, Target(c0, p), n, q)} ::
      (0 <= p < |c| && IsBranch(c[p]) && !IsCheck(c[p]) && p !in pending && EndsAt(c0, Target(c0, p), n, q)) ==>
      Target(c, p) == q
  }

  /** The end of a chain is also the end seen from any place on the chain. */
  lemma EndsAfter(code: seq<Cell>, a: int, n: nat, q: int, k: nat, b: int)
    requires EndsAt(code, a, n, q) && Follow(code, a, k) == b >= 0
    ensures k <= n && EndsAt(code, b, n - k, q)
  {
    if k > n {
      FollowAdd(code, a, n, k - n);
      assert false;
    }
    FollowAdd(code, a, k, n - k);
  }

  /** x lies on a cycle through p, or is not a jump. */
  ghost predicate LeadsTo(c0: seq<Cell>, x: int, p: int) {
    exists k: nat :: k >= 1 && Follow(c0, x, k) == p
  }

  ghost predicate Pending(c0: seq<Cell>, c: seq<Cell>, pending: set<int>, p: int) {
    (forall x :: x in pending ==> 0 <= x < |c0| && |c| == |c0| && !IsCheck(c[x])) &&
    (forall x :: x in pending && IsJump(c0[x]) ==> LeadsTo(c0, x, p))
  }

  lemma LeadsOn(c0: seq<Cell>, c: seq<Cell>, x: int, p: int)
    requires Compat(c0, c) && 0 <= p < |c0| && IsJump(c0[p])
    requires x == p || LeadsTo(c0, x, p)
    ensures HasNum(c, p + 1) && LeadsTo(c0, x, Target(c, p))
  {
    assert IsBranch(c0[p]);
    var m: nat :| Follow(c0, Target(c0, p), m) == Target(c, p);
    assert Follow(c0, p, 1 + m) == Target(c, p);
    if x != p {
      var k: nat :| k >= 1 && Follow(c0, x, k) == p;
      FollowAdd(c0, x, k, 1 + m);
      assert Follow(c0, x, k + (1 + m)) == Target(c, p);
    }
  }

  /** A chain through a cycle has no end. */
  lemma NoEndOnCycle(c0: seq<Cell>, x: int, n: nat, q: int)
    requires 0 <= x && LeadsTo(c0, x, x) && EndsAt(c0, x, n, q)
    ensures false
    decreases n
  {
    var k: nat :| k >= 1 && Follow(c0, x, k) == x;
    EndsAfter(c0, x, n, q, k, x);
    NoEndOnCycle(c0, x, n - k, q);
  }

  lemma {:induction false} OptimizeSettles(c0: seq<Cell>, c: seq<Cell>, p: int, pending: set<int>)
    requires Compat(c0, c) && 0 <= p < |c| && IsBranch(c[p])
    requires Settled(c0, c, pending) && Pending(c0, c, pending, p)
    requires IsJump(c[p]) || pending == {}
    ensures Compat(c0, Optimize(c, p)) && Settled(c0, Optimize(c, p), pending)
    decreases Checks(c)
  {
    hide SameShape, BranchesLand, Chain, Settled, Pending, EndsAt, Later, Checks;
    OptimizeCompat(c0, c, p);
    if IsCheck(c[p]) {
      MarkDone(c, p);
      MarkCompat(c0, c, p);
      MarkSettled(c0, c, p, pending);
      PendingMoves(c0, c, p, pending);
      var c1, dest := Mark(c, p), Target(c, p);
      if IsJump(c1[dest]) {
        if IsCheck(c1[dest]) {
          OptimizeSettles(c0, c1, dest, pending + {p});
        }
        SettleJump(c0, c, p, pending);
      } else {
        NoJumpSettles(c0, c, p, pending);
      }
    }
  }

  /** The step after the landing jump has been settled. */
  lemma SettleJump(c0: seq<Cell>, c: seq<Cell>, p: int, pending: set<int>)
    requires Compat(c0, c) && 0 <= p < |c| && IsCheck(c[p]) && (IsJump(c[p]) || pending == {})
    requires Compat(c0, Landed(c, p)) && Compat(c0, Optimize(c, p))
    requires Pending(c0, c, pending, p) && Settled(c0, Landed(c, p), pending + {p})
    requires HasNum(c, p + 1) && 0 <= Target(c, p) < |c| && IsJump(Mark(c, p)[Target(c, p)])
    ensures Settled(c0, Optimize(c, p), pending)
  {
    hide SameShape, BranchesLand, Chain, Settled, Pending, EndsAt;
    MarkDone(c, p);
    var c1, c2, dest := Mark(c, p), Landed(c, p), Target(c, p);
    if IsCheck(c1[dest]) {
      JumpStays(c1, c2, dest);
    }
    RetargetSettles(c0, c, c2, p, pending);
  }

  lemma JumpStays(c1: seq<Cell>, c2: seq<Cell>, dest: int)
    requires Later(c1, c2) && 0 <= dest < |c1| && IsJump(c1[dest])
    requires dest !in Checks(c2)
    ensures IsJump(c2[dest]) && !IsCheck(c2[dest])
  {
    assert c1[dest].Op?;
  }

  lemma PendingMoves(c0: seq<Cell>, c: seq<Cell>, p: int, pending: set<int>)
    requires Compat(c0, c) && 0 <= p < |c| && IsCheck(c[p])
    requires Pending(c0, c, pending, p) && (IsJump(c[p]) || pending == {})
    ensures Pending(c0, Mark(c, p), pending + {p}, Target(c, p))
  {
    assert IsBranch(c0[p]);
    forall x | x in pending + {p} && IsJump(c0[x])
      ensures LeadsTo(c0, x, Target(c, p))
    {
      LeadsOn(c0, c, x, p);
    }
  }

  /** Landing on a non-jump: the landing place is the end of the chain. */
  lemma NoJumpSettles(c0: seq<Cell>, c: seq<Cell>, p: int, pending: set<int>)
    requires Compat(c0, c) && 0 <= p < |c| && IsCheck(c[p]) && Compat(c0, Mark(c, p))
    requires Settled(c0, Mark(c, p), pending + {p})
    requires !IsJump(c[Target(c, p)])
    ensures Settled(c0, Mark(c, p), pending)
  {
    assert IsBranch(c0[p]);
    var dest := Target(c, p);
    assert !IsJump(c0[dest]);
    forall n: nat, q | EndsAt(c0, Target(c0, p), n, q)
      ensures dest == q
    {
      var k: nat :| Follow(c0, Target(c0, p), k) == dest;
      EndsAfter(c0, Target(c0, p), n, q, k, dest);
    }
    assert Mark(c, p)[p + 1] == c[p + 1];
  }

  /** Landing on a finished jump: going where it goes settles p. */
  lemma RetargetSettles(c0: seq<Cell>, c: seq<Cell>, c2: seq<Cell>, p: int, pending: set<int>)
    requires Compat(c0, c) && Compat(c0, c2) && 0 <= p < |c| && IsBranch(c[p])
    requires IsJump(c[p]) || pending == {}
    requires Pending(c0, c, pending, p) && Settled(c0, c2, pending + {p})
    requires IsJump(c2[Target(c, p)]) && !IsCheck(c2[Target(c, p)])
    requires Compat(c0, Retarget(c2, p, Target(c2, Target(c, p))))
    ensures Settled(c0, Retarget(c2, p, Target(c2, Target(c, p))), pending)
  {
    hide BranchesLand, SameShape, Settled, EndsAt, Chain, Pending;
    SameSize(c0, c);
    SameSize(c0, c2);
    CompatAt(c0, c, p);
    FromOriginal(c0, c2, p);
    var dest := Target(c, p);
    CompatAt(c0, c2, dest);
    forall n: nat, q | EndsAt(c0, Target(c0, p), n, q)
      ensures Target(c2, dest) == q
    {
      SettledHere(c0, c, c2, p, pending, n, q);
    }
    RetargetSettled(c0, c2, p, pending, Target(c2, dest));
  }

  lemma MarkSettled(c0: seq<Cell>, c: seq<Cell>, p: int, pending: set<int>)
    requires Compat(c0, c) && 0 <= p < |c| && IsCheck(c[p]) && Compat(c0, Mark(c, p))
    requires Settled(c0, c, pending)
    ensures Settled(c0, Mark(c, p), pending + {p})
  {
    var c1 := Mark(c, p);
    forall x, n: nat, q | 0 <= x < |c1| && IsBranch(c1[x]) && !IsCheck(c1[x]) && x !in pending + {p} &&
                          EndsAt(c0, Target(c0, x), n, q)
      ensures Target(c1, x) == q
    {
      assert IsBranch(c[x]);
    }
  }

  /** The finished jump that p lands on already knows the end of p's chain. */
  lemma SettledHere(c0: seq<Cell>, c: seq<Cell>, c2: seq<Cell>, p: int, pending: set<int>, n: nat, q: int)
    requires Compat(c0, c) && Compat(c0, c2) && 0 <= p < |c| && IsBranch(c0[p])
    requires IsJump(c0[p]) || pending == {}
    requires Pending(c0, c, pending, p) && Settled(c0, c2, pending + {p})
    requires EndsAt(c0, Target(c0, p), n, q)
    requires IsJump(c2[Target(c, p)]) && !IsCheck(c2[Target(c, p)])
    ensures Target(c2, Target(c, p)) == q
  {
    hide BranchesLand, SameShape;
    SameSize(c0, c);
    SameSize(c0, c2);
    FromOriginal(c0, c, p);
    var dest := Target(c, p);
    CompatAt(c0, c2, dest);
    assert IsJump(c0[dest]) && IsBranch(c0[dest]);
    var k: nat :| Follow(c0, Target(c0, p), k) == dest;
    EndsAfter(c0, Target(c0, p), n, q, k, dest);
    if dest in pending + {p} {
      LeadsOn(c0, c, dest, p);
      NoEndOnCycle(c0, dest, n - k, q);
    }
    assert EndsAt(c0, Target(c0, dest), n - k - 1, q);
    assert IsBranch(c2[dest]);
  }

  lemma RetargetSettled(c0: seq<Cell>, c: seq<Cell>, p: int, pending: set<int>, dest: int)
    requires Compat(c0, c) && 0 <= p < |c| && IsBranch(c[p])
    requires Compat(c0, Retarget(c, p, dest))
    requires Settled(c0, c, pending + {p})
    requires forall n: nat, q :: EndsAt(c0, Target(c0, p), n, q) ==> dest == q
    ensures Settled(c0, Retarget(c, p, dest), pending)
  {
    var r := Retarget(c, p, dest);
    forall x, n: nat, q | 0 <= x < |r| && IsBranch(r[x]) && !IsCheck(r[x]) && x !in pending &&
                          EndsAt(c0, Target(c0, x), n, q)
      ensures Target(r, x) == q
    {
      assert IsBranch(c[x]);
      if x != p {
        assert r[x + 1] == c[x + 1];
      }
    }
  }

  /** After optimizing a branch whose chain of jumps ends at q, the branch goes
      straight to q; optimizing it again changes nothing, and the set of branches
      still to be optimized has strictly shrunk. */
  lemma OptimizedBranchIsDirect(c0: seq<Cell>, c: seq<Cell>, p: int, n: nat, q: int)
    requires Compat(c0, c) && Settled(c0, c, {}) && 0 <= p < |c| && IsBranch(c[p])
    requires EndsAt(c0, Target(c0, p), n, q)
    ensures Target(Optimize(c, p), p) == q
    ensures Optimize(Optimize(c, p), p) == Optimize(c, p)
    ensures IsCheck(c[p]) ==> Checks(Optimize(c, p)) < Checks(c)
  {
    OptimizeSettles(c0, c, p, {});
    var r := Optimize(c, p);
    assert IsBranch(r[p]) by { assert c[p].Op?; }
    assert p !in Checks(r);
  }

  /** The addresses ds lead from one unconditional branch to the next, and the last one holds something else. */
  ghost predicate Trail(code: seq<Cell>, ds: seq<int>) {
    ds != [] &&
    (forall i :: 0 <= i < |ds| ==> 0 <= ds[i] < |code| && code[ds[i]].Op?) &&
    (forall i :: 0 <= i < |ds| - 1 ==>
       code[ds[i]].op.Branch? && HasNum(code, ds[i] + 1) && ds[i + 1] == ds[i] + 1 + code[ds[i] + 1].n) &&
    !code[ds[|ds| - 1]].op.Branch?
  }

  lemma {:induction false} TrailFollows(code: seq<Cell>, ds: seq<int>)
    requires Trail(code, ds)
    ensures EndsAt(code, ds[0], |ds| - 1, ds[|ds| - 1])
    decreases |ds|
  {
    if |ds| > 1 {
      assert forall i :: 0 <= i < |ds[1..]| ==> ds[1..][i] == ds[i + 1];
      TrailFollows(code, ds[1..]);
      assert Follow(code, ds[0], |ds| - 1) == Follow(code, ds[1], |ds| - 2);
    }
  }

  /** A branch of either kind that leads along a trail of unconditional branches is in its optimized form afterwards,
      and its offset is that to the end of the trail. */
  lemma TrailCollapses(c0: seq<Cell>, c: seq<Cell>, p: int, ds: seq<int>)
    requires Compat(c0, c) && Settled(c0, c, {}) && 0 <= p < |c|
    requires c[p] == Op(Branch(true)) || c[p] == Op(Branch0(true))
    requires HasNum(c0, p + 1) && Trail(c0, ds) && ds[0] == p + 1 + c0[p + 1].n
    ensures var r := Optimize(c, p);
            |r| == |c| && p + 1 < |r| && r[p + 1] == Num(ds[|ds| - 1] - (p + 1)) &&
            r[p] == if c[p] == Op(Branch(true)) then Op(Branch(false)) else Op(Branch0(false))
  {
    TrailFollows(c0, ds);
    OptimizedBranchIsDirect(c0, c, p, |ds| - 1, ds[|ds| - 1]);
    OptimizedForm(c, p);
  }

  lemma OptimizedForm(c: seq<Cell>, p: int)
    requires BranchesLand(c) && 0 <= p < |c|
    requires c[p] == Op(Branch(true)) || c[p] == Op(Branch0(true))
    ensures var r := Optimize(c, p);
            |r| == |c| && HasNum(r, p + 1) &&
            r[p] == if c[p] == Op(Branch(true)) then Op(Branch(false)) else Op(Branch0(false))
  {
    var r := Optimize(c, p);
    assert c[p].Op? && r[p].Op? && Uncheck(r[p]) == Uncheck(c[p]);
    assert p !in Checks(r);
    LandsAt(r, p);
  }

  /** Memory after n passes of the self-modifying loop. */
  ghost function SelfCode(h: Host, code: seq<Cell>, s: State, n: nat): (r: seq<Cell>)
    requires BranchesLand(code)
    ensures BranchesLand(r)
    decreases n
  {
    if n == 0 then code
    else
      var c1 := StepCode(code, s.ip);
      match Step(h, c1, s)
      case Next(s1) => SelfCode(h, c1, s1, n - 1)
      case _ => c1
  }

  /** In every run from freshly compiled code, whatever has been optimized so far is
      still compatible with the original and jumps straight to the end of its chain. */
  lemma {:induction false} RunsStaySettled(h: Host, c0: seq<Cell>, c: seq<Cell>, s: State, n: nat)
    requires Compat(c0, c) && Settled(c0, c, {})
    ensures Compat(c0, SelfCode(h, c, s, n)) && Settled(c0, SelfCode(h, c, s, n), {})
    decreases n
  {
    hide Step, SameShape, BranchesLand, Chain, Settled, EndsAt;
    if n > 0 {
      var c1 := StepCode(c, s.ip);
      if 0 <= s.ip < |c| && IsCheck(c[s.ip]) {
        OptimizeSettles(c0, c, s.ip, {});
      }
      match Step(h, c1, s)
      case Next(s1) => RunsStaySettled(h, c0, c1, s1, n - 1);
      case _ =>
    }
  }
}
