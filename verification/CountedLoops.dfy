/**
  How often DO loops run, and with which indices: first in the source's meaning, then for the
  compiled cells on the machine.
 */
module CountedLoops {
  import opened Machine
  import opened Source
  import F = FuelMonotone
  import M = Simulation

  /** From some fuel on, the statement ends normally in st2. */
  ghost predicate Ends(h: Host, prog: Program, f0: nat, a: Stmt, st1: St, st2: St) {
    forall f: nat :: f >= f0 ==> Eval(h, prog, f, a, st1) == Normal(st2)
  }

  function Max(a: int, b: int): int {
    if a > b then a else b
  }

  /** The state at the start of iteration k: data stack, locals and the loop index. */
  function At(rs: seq<Item>, limit: int, index: int, data: seq<int>, locals: seq<int>): St {
    St(data, rs + [Ctl(limit, index)], locals)
  }

  /** The increments that +LOOP finds, as the loop test sees them: it goes on before
      the last one and stops at it. */
  ghost predicate StopsAtLast(limit: int, index: seq<int>) {
    |index| >= 2 &&
    (forall k :: 0 <= k < |index| - 2 ==> !LoopDone(index[k + 1], limit, index[k + 1] - index[k])) &&
    LoopDone(index[|index| - 1], limit, index[|index| - 1] - index[|index| - 2])
  }

  /** A body started with index i and data d leaves data d2, under the increment to i2 if +LOOP wants one. */
  ghost predicate Body(h: Host, prog: Program, f0: nat, plus: bool, a: Stmt, rs: seq<Item>, limit: int,
                       i: int, i2: int, d: seq<int>, d2: seq<int>, l: seq<int>, l2: seq<int>) {
    (plus || i2 - i == 1) &&
    Ends(h, prog, f0, a, At(rs, limit, i, d, l), At(rs, limit, i, if plus then d2 + [i2 - i] else d2, l2))
  }

  /** Body k takes index[k], data[k] and locals[k] to the next ones. */
  ghost predicate Bodies(h: Host, prog: Program, f0: nat, plus: bool, a: Stmt, rs: seq<Item>, limit: int,
                         index: seq<int>, data: seq<seq<int>>, locals: seq<seq<int>>) {
    |data| == |locals| == |index| &&
    forall k {:trigger index[k]} :: 0 <= k < |index| - 1 ==>
      Body(h, prog, f0, plus, a, rs, limit, index[k], index[k + 1], data[k], data[k + 1], locals[k], locals[k + 1])
  }

  /** The loop visits exactly the listed indices, in order, and then ends with its control
      parameters gone. */
  lemma {:induction false} IterationsAre(h: Host, prog: Program, f0: nat, plus: bool, a: Stmt, rs: seq<Item>, limit: int,
                                         index: seq<int>, data: seq<seq<int>>, locals: seq<seq<int>>, f: nat)
    requires StopsAtLast(limit, index) && Bodies(h, prog, f0, plus, a, rs, limit, index, data, locals)
    requires f >= f0 + |index|
    ensures EvalIterations(h, prog, f, plus, a, |rs|, At(rs, limit, index[0], data[0], locals[0])) ==
            Normal(St(data[|index| - 1], rs, locals[|index| - 1]))
    decreases |index|
  {
    hide Eval, EvalIterations;
    OneIteration(h, prog, f0, plus, a, rs, limit, index, data, locals, f);
    if |index| > 2 {
      RestOfTrace(h, prog, f0, plus, a, rs, limit, index, data, locals);
      IterationsAre(h, prog, f0, plus, a, rs, limit, index[1..], data[1..], locals[1..], f - 1);
    }
  }

  /** The first iteration and its loop test. */
  lemma OneIteration(h: Host, prog: Program, f0: nat, plus: bool, a: Stmt, rs: seq<Item>, limit: int,
                     index: seq<int>, data: seq<seq<int>>, locals: seq<seq<int>>, f: nat)
    requires |index| >= 2 && Bodies(h, prog, f0, plus, a, rs, limit, index, data, locals) && f > f0
    ensures EvalIterations(h, prog, f, plus, a, |rs|, At(rs, limit, index[0], data[0], locals[0])) ==
            if LoopDone(index[1], limit, index[1] - index[0]) then Normal(St(data[1], rs, locals[1]))
            else EvalIterations(h, prog, f - 1, plus, a, |rs|, At(rs, limit, index[1], data[1], locals[1]))
  {
    hide Eval;
    var step := index[1] - index[0];
    var st1 := At(rs, limit, index[0], if plus then data[1] + [step] else data[1], locals[1]);
    assert Body(h, prog, f0, plus, a, rs, limit, index[0], index[0 + 1], data[0], data[0 + 1], locals[0], locals[0 + 1]);
    assert Eval(h, prog, f, a, At(rs, limit, index[0], data[0], locals[0])) == Normal(st1);
    assert plus ==> Pop(st1.data, 1) == data[1] && Last(st1.data) == step;
    assert st1.rs[..|rs|] == rs && st1.rs[|rs| := Ctl(limit, index[1])] == rs + [Ctl(limit, index[1])];
  }

  lemma RestOfTrace(h: Host, prog: Program, f0: nat, plus: bool, a: Stmt, rs: seq<Item>, limit: int,
                    index: seq<int>, data: seq<seq<int>>, locals: seq<seq<int>>)
    requires |index| > 2 && StopsAtLast(limit, index) && Bodies(h, prog, f0, plus, a, rs, limit, index, data, locals)
    ensures StopsAtLast(limit, index[1..])
    ensures Bodies(h, prog, f0, plus, a, rs, limit, index[1..], data[1..], locals[1..])
  {
    hide Body;
    var i, d, l := index[1..], data[1..], locals[1..];
    forall k | 0 <= k < |i| - 1
      ensures Body(h, prog, f0, plus, a, rs, limit, i[k], i[k + 1], d[k], d[k + 1], l[k], l[k + 1])
    {
      assert i[k] == index[k + 1];
    }
    forall k | 0 <= k < |i| - 2 ensures !LoopDone(i[k + 1], limit, i[k + 1] - i[k]) {
      assert i[k] == index[k + 1] && i[k + 1] == index[(k + 1) + 1];
    }
  }

  /** The indices start, start + 1, ..., start + n. */
  function Count(start: int, n: nat): (r: seq<int>)
    ensures |r| == n + 1 && forall k :: 0 <= k <= n ==> r[k] == start + k
  {
    seq(n + 1, k => start + k)
  }

  lemma CountStops(start: int, limit: int)
    ensures StopsAtLast(limit, Count(start, Max(1, limit - start)))
  {
  }

  /** How often a DO loop, or a ?DO loop, runs. */
  function Turns(question: bool, start: int, limit: int): nat {
    if question && limit == start then 0 else Max(1, limit - start)
  }

  /** limit start DO body LOOP runs a body that keeps the return stack exactly max(1, limit - start)
      times, with I = start, start + 1, and so on; with ?DO it runs zero times when they are equal. */
  lemma DoLoopRunsMaxTimes(h: Host, prog: Program, f0: nat, question: bool, a: Stmt, st: St, start: int, limit: int,
                           data: seq<seq<int>>, locals: seq<seq<int>>, f: nat)
    requires |data| >= 1 && |locals| >= 1 && st.data == data[0] + [limit, start] && st.locals == locals[0]
    requires Bodies(h, prog, f0, false, a, st.rs, limit, Count(start, Turns(question, start, limit)), data, locals)
    requires f >= f0 + Turns(question, start, limit) + 1
    ensures Eval(h, prog, f, DoLoop(question, false, a), st) ==
            Normal(St(data[Turns(question, start, limit)], st.rs, locals[Turns(question, start, limit)]))
  {
    hide Body, EvalIterations, StopsAtLast;
    var n := Turns(question, start, limit);
    assert Pop(st.data, 2) == data[0];
    if n > 0 {
      CountStops(start, limit);
      IterationsAre(h, prog, f0, false, a, st.rs, limit, Count(start, n), data, locals, f);
    }
  }

  lemma PlusLoopRuns(h: Host, prog: Program, f0: nat, question: bool, a: Stmt, st: St, limit: int,
                     index: seq<int>, data: seq<seq<int>>, locals: seq<seq<int>>, f: nat)
    requires |index| >= 2 && |data| >= 1 && |locals| >= 1 && StopsAtLast(limit, index)
    requires st.data == data[0] + [limit, index[0]] && st.locals == locals[0]
    requires Bodies(h, prog, f0, true, a, st.rs, limit, index, data, locals)
    requires (question ==> limit != index[0]) && f >= f0 + |index|
    ensures Eval(h, prog, f, DoLoop(question, true, a), st) == Normal(St(data[|index| - 1], st.rs, locals[|index| - 1]))
  {
    hide Body, EvalIterations;
    IterationsAre(h, prog, f0, true, a, st.rs, limit, index, data, locals, f);
    assert Pop(st.data, 2) == data[0];
  }

  /** limit start DO body +LOOP stops at the first index that is at or past the limit
      when counting up, or below it when counting down. */
  lemma PlusLoopStops(h: Host, prog: Program, f0: nat, question: bool, a: Stmt, st: St, limit: int,
                      index: seq<int>, data: seq<seq<int>>, locals: seq<seq<int>>, f: nat)
    requires |index| >= 2 && |data| >= 1 && |locals| >= 1
    requires st.data == data[0] + [limit, index[0]] && st.locals == locals[0]
    requires Bodies(h, prog, f0, true, a, st.rs, limit, index, data, locals)
    requires forall k :: 0 <= k < |index| - 2 ==>
      if index[k + 1] >= index[k] then index[k + 1] < limit else index[k + 1] >= limit
    requires var z := |index| - 1;
      if index[z] >= index[z - 1] then index[z] >= limit else index[z] < limit
    requires (question ==> limit != index[0]) && f >= f0 + |index|
    ensures Eval(h, prog, f, DoLoop(question, true, a), st) == Normal(St(data[|index| - 1], st.rs, locals[|index| - 1]))
  {
    hide Body, EvalIterations, Eval, Bodies;
    assert StopsAtLast(limit, index);
    PlusLoopRuns(h, prog, f0, question, a, st, limit, index, data, locals, f);
  }

  // ---------------------------------------------------------------------
  // Bodies that work on every state they meet

  /** What an iteration works on: the loop index, the data stack and the locals. */
  datatype Turn = Turn(index: int, data: seq<int>, locals: seq<int>)

  /** What the body leaves: the data stack below the increment, the locals, and the increment. */
  datatype Effect = Effect(data: seq<int>, locals: seq<int>, increment: int)

  /** One iteration, up to the loop test. */
  function Iterate(body: Turn -> Effect, t: Turn): Turn {
    Turn(t.index + body(t).increment, body(t).data, body(t).locals)
  }

  function After(body: Turn -> Effect, t: Turn, k: nat): Turn
    decreases k
  {
    if k == 0 then t else Iterate(body, After(body, t, k - 1))
  }

  /** From every state in inv the statement a ends normally, with the effect of body, and stays in inv;
      LOOP itself counts by one. */
  ghost predicate Balanced(h: Host, prog: Program, plus: bool, a: Stmt, rs: seq<Item>, limit: int,
                           inv: Turn -> bool, body: Turn -> Effect) {
    forall t: Turn :: inv(t) ==>
      inv(Iterate(body, t)) && exists f0: nat :: Leads(h, prog, f0, plus, a, rs, limit, t, Iterate(body, t))
  }

  ghost predicate Leads(h: Host, prog: Program, f0: nat, plus: bool, a: Stmt, rs: seq<Item>, limit: int, t: Turn, u: Turn) {
    Body(h, prog, f0, plus, a, rs, limit, t.index, u.index, t.data, u.data, t.locals, u.locals)
  }

  function IndexOf(body: Turn -> Effect, t: Turn, n: nat): (r: seq<int>)
    ensures |r| == n + 1
  {
    seq(n + 1, (k: int) requires 0 <= k => After(body, t, k).index)
  }

  function DataOf(body: Turn -> Effect, t: Turn, n: nat): (r: seq<seq<int>>)
    ensures |r| == n + 1
  {
    seq(n + 1, (k: int) requires 0 <= k => After(body, t, k).data)
  }

  function LocalsOf(body: Turn -> Effect, t: Turn, n: nat): (r: seq<seq<int>>)
    ensures |r| == n + 1
  {
    seq(n + 1, (k: int) requires 0 <= k => After(body, t, k).locals)
  }

  lemma {:induction false} StaysIn(h: Host, prog: Program, plus: bool, a: Stmt, rs: seq<Item>, limit: int,
                                   inv: Turn -> bool, body: Turn -> Effect, t: Turn, k: nat)
    requires Balanced(h, prog, plus, a, rs, limit, inv, body) && inv(t)
    ensures inv(After(body, t, k))
  {
    hide Balanced, Iterate;
    if k > 0 {
      StaysIn(h, prog, plus, a, rs, limit, inv, body, t, k - 1);
      var f0 := OneTurn(h, prog, plus, a, rs, limit, inv, body, After(body, t, k - 1));
    }
  }

  lemma OneTurn(h: Host, prog: Program, plus: bool, a: Stmt, rs: seq<Item>, limit: int,
                inv: Turn -> bool, body: Turn -> Effect, t: Turn) returns (f0: nat)
    requires Balanced(h, prog, plus, a, rs, limit, inv, body) && inv(t)
    ensures inv(Iterate(body, t)) && Leads(h, prog, f0, plus, a, rs, limit, t, Iterate(body, t))
  {
    hide Leads, Iterate;
    f0 :| Leads(h, prog, f0, plus, a, rs, limit, t, Iterate(body, t));
  }

  lemma MoreFuel(h: Host, prog: Program, f0: nat, f1: nat, plus: bool, a: Stmt, rs: seq<Item>, limit: int, t: Turn, u: Turn)
    requires Leads(h, prog, f0, plus, a, rs, limit, t, u) && f0 <= f1
    ensures Leads(h, prog, f1, plus, a, rs, limit, t, u)
  {
    hide Eval;
  }

  /** A balanced body has a trace of any length. */
  lemma {:induction false} TraceExists(h: Host, prog: Program, plus: bool, a: Stmt, rs: seq<Item>, limit: int,
                                       inv: Turn -> bool, body: Turn -> Effect, t: Turn, n: nat) returns (f0: nat)
    requires Balanced(h, prog, plus, a, rs, limit, inv, body) && inv(t)
    ensures forall k :: 0 <= k < n ==> Leads(h, prog, f0, plus, a, rs, limit, After(body, t, k), After(body, t, k + 1))
    decreases n
  {
    hide Leads, Balanced, Iterate;
    if n == 0 {
      f0 := 0;
    } else {
      var f1 := TraceExists(h, prog, plus, a, rs, limit, inv, body, t, n - 1);
      var u := After(body, t, n - 1);
      StaysIn(h, prog, plus, a, rs, limit, inv, body, t, n - 1);
      var f2 := OneTurn(h, prog, plus, a, rs, limit, inv, body, u);
      f0 := if f1 < f2 then f2 else f1;
      forall k | 0 <= k < n
        ensures Leads(h, prog, f0, plus, a, rs, limit, After(body, t, k), After(body, t, k + 1))
      {
        MoreFuel(h, prog, if k == n - 1 then f2 else f1, f0, plus, a, rs, limit, After(body, t, k), After(body, t, k + 1));
      }
    }
  }

  lemma TraceBodies(h: Host, prog: Program, f0: nat, plus: bool, a: Stmt, rs: seq<Item>, limit: int,
                    body: Turn -> Effect, t: Turn, n: nat)
    requires forall k :: 0 <= k < n ==> Leads(h, prog, f0, plus, a, rs, limit, After(body, t, k), After(body, t, k + 1))
    ensures Bodies(h, prog, f0, plus, a, rs, limit, IndexOf(body, t, n), DataOf(body, t, n), LocalsOf(body, t, n))
  {
    hide Body;
    var index, data, locals := IndexOf(body, t, n), DataOf(body, t, n), LocalsOf(body, t, n);
    forall k | 0 <= k < n
      ensures Body(h, prog, f0, plus, a, rs, limit, index[k], index[k + 1], data[k], data[k + 1], locals[k], locals[k + 1])
    {
      assert Leads(h, prog, f0, plus, a, rs, limit, After(body, t, k), After(body, t, k + 1));
    }
  }

  /** LOOP on a balanced body: the body's effect, max(1, limit - start) times over. */
  lemma DoLoopIterates(h: Host, prog: Program, question: bool, a: Stmt, st: St, start: int, limit: int, data: seq<int>,
                       inv: Turn -> bool, body: Turn -> Effect) returns (f0: nat)
    requires st.data == data + [limit, start] && inv(Turn(start, data, st.locals))
    requires Balanced(h, prog, false, a, st.rs, limit, inv, body)
    ensures var t := After(body, Turn(start, data, st.locals), Turns(question, start, limit));
            forall f: nat :: f >= f0 ==> Eval(h, prog, f, DoLoop(question, false, a), st) == Normal(St(t.data, st.rs, t.locals))
  {
    hide Eval, Leads, Body, Balanced;
    var t, n := Turn(start, data, st.locals), Turns(question, start, limit);
    var f1 := TraceExists(h, prog, false, a, st.rs, limit, inv, body, t, n);
    TraceBodies(h, prog, f1, false, a, st.rs, limit, body, t, n);
    CountsByOne(h, prog, f1, a, st.rs, limit, body, t, n);
    f0 := f1 + n + 1;
    forall f: nat | f >= f0
      ensures Eval(h, prog, f, DoLoop(question, false, a), st) ==
              Normal(St(After(body, t, n).data, st.rs, After(body, t, n).locals))
    {
      DoLoopRunsMaxTimes(h, prog, f1, question, a, st, start, limit, DataOf(body, t, n), LocalsOf(body, t, n), f);
    }
  }

  lemma CountsByOne(h: Host, prog: Program, f0: nat, a: Stmt, rs: seq<Item>, limit: int, body: Turn -> Effect, t: Turn, n: nat)
    requires forall k :: 0 <= k < n ==> Leads(h, prog, f0, false, a, rs, limit, After(body, t, k), After(body, t, k + 1))
    ensures IndexOf(body, t, n) == Count(t.index, n)
    decreases n
  {
    hide Ends;
    if n > 0 {
      CountsByOne(h, prog, f0, a, rs, limit, body, t, n - 1);
      assert IndexOf(body, t, n - 1)[n - 1] == Count(t.index, n - 1)[n - 1];
      assert Leads(h, prog, f0, false, a, rs, limit, After(body, t, n - 1), After(body, t, n - 1 + 1));
      forall k | 0 <= k < n
        ensures IndexOf(body, t, n)[k] == Count(t.index, n)[k]
      {
        assert IndexOf(body, t, n)[k] == IndexOf(body, t, n - 1)[k];
      }
    }
  }

  /** +LOOP on a balanced body: its effect n times over, when the n-th index is the first at or past the
      limit (counting up) or below it (counting down). */
  lemma PlusLoopIterates(h: Host, prog: Program, question: bool, a: Stmt, st: St, start: int, limit: int, data: seq<int>,
                         inv: Turn -> bool, body: Turn -> Effect, n: nat) returns (f0: nat)
    requires st.data == data + [limit, start] && inv(Turn(start, data, st.locals)) && (question ==> limit != start)
    requires Balanced(h, prog, true, a, st.rs, limit, inv, body)
    requires n >= 1 && forall k :: 1 <= k <= n ==> (StopsAfter(body, Turn(start, data, st.locals), limit, k) <==> k == n)
    ensures var t := After(body, Turn(start, data, st.locals), n);
            forall f: nat :: f >= f0 ==> Eval(h, prog, f, DoLoop(question, true, a), st) == Normal(St(t.data, st.rs, t.locals))
  {
    hide Eval, Leads, Body, Balanced, LoopDone, EvalIterations, StopsAfter;
    var t := Turn(start, data, st.locals);
    var f1 := TraceExists(h, prog, true, a, st.rs, limit, inv, body, t, n);
    TraceBodies(h, prog, f1, true, a, st.rs, limit, body, t, n);
    f0 := f1 + n + 1;
    PlusStops(body, t, limit, n);
    var index := IndexOf(body, t, n);
    forall f: nat | f >= f0
      ensures Eval(h, prog, f, DoLoop(question, true, a), st) ==
              Normal(St(After(body, t, n).data, st.rs, After(body, t, n).locals))
    {
      PlusLoopRuns(h, prog, f1, question, a, st, limit, index, DataOf(body, t, n), LocalsOf(body, t, n), f);
    }
  }

  /** The test at the end of the k-th iteration ends the loop. */
  predicate StopsAfter(body: Turn -> Effect, t: Turn, limit: int, k: nat)
    requires k >= 1
  {
    LoopDone(After(body, t, k).index, limit, body(After(body, t, k - 1)).increment)
  }

  lemma PlusStops(body: Turn -> Effect, t: Turn, limit: int, n: nat)
    requires n >= 1 && forall k :: 1 <= k <= n ==> (StopsAfter(body, t, limit, k) <==> k == n)
    ensures StopsAtLast(limit, IndexOf(body, t, n))
  {
    hide LoopDone, IndexOf, After, StopsAfter;
    var index := IndexOf(body, t, n);
    forall k | 0 <= k < n
      ensures LoopDone(index[k + 1], limit, index[k + 1] - index[k]) <==> k + 1 == n
    {
      TestAfter(body, t, limit, n, k);
    }
    assert index[n - 1 + 1] == index[|index| - 1];
  }

  lemma TestAfter(body: Turn -> Effect, t: Turn, limit: int, n: nat, k: nat)
    requires k < n
    ensures var index := IndexOf(body, t, n);
            LoopDone(index[k + 1], limit, index[k + 1] - index[k]) <==> StopsAfter(body, t, limit, k + 1)
  {
    hide LoopDone;
    assert After(body, t, k + 1) == Iterate(body, After(body, t, k));
  }

  // +LOOP that goes on for ever

  lemma {:induction false} AfterLater(body: Turn -> Effect, t: Turn, k: nat)
    ensures After(body, Iterate(body, t), k) == After(body, t, k + 1)
  {
    hide Iterate;
    if k > 0 {
      AfterLater(body, t, k - 1);
    }
  }

  /** With too little fuel a statement that ends times out. */
  lemma EndsOrTimesOut(h: Host, prog: Program, f0: nat, a: Stmt, st1: St, st2: St, f: nat)
    requires Ends(h, prog, f0, a, st1, st2)
    ensures Eval(h, prog, f, a, st1) == Timeout || Eval(h, prog, f, a, st1) == Normal(st2)
  {
    hide Eval;
    F.EvalMuchMore(h, prog, f, f0, a, st1);
  }

  /** An iteration of +LOOP whose test does not end the loop. */
  lemma GoesOn(h: Host, prog: Program, a: Stmt, rs: seq<Item>, limit: int, t: Turn, u: Turn, f: nat)
    requires var step := u.index - t.index;
      Eval(h, prog, f, a, At(rs, limit, t.index, t.data, t.locals)) ==
        Normal(At(rs, limit, t.index, u.data + [step], u.locals)) && !LoopDone(u.index, limit, step)
    ensures EvalIterations(h, prog, f, true, a, |rs|, At(rs, limit, t.index, t.data, t.locals)) ==
            if f == 0 then Timeout
            else EvalIterations(h, prog, f - 1, true, a, |rs|, At(rs, limit, u.index, u.data, u.locals))
  {
    hide Eval;
    var st1 := At(rs, limit, t.index, u.data + [u.index - t.index], u.locals);
    assert Pop(st1.data, 1) == u.data && Last(st1.data) == u.index - t.index;
    assert st1.rs[|rs| := Ctl(limit, u.index)] == rs + [Ctl(limit, u.index)];
  }

  lemma {:induction false} NeverDone(h: Host, prog: Program, a: Stmt, rs: seq<Item>, limit: int,
                                     inv: Turn -> bool, body: Turn -> Effect, t: Turn, f: nat)
    requires Balanced(h, prog, true, a, rs, limit, inv, body) && inv(t)
    requires forall k: nat :: k >= 1 ==> !StopsAfter(body, t, limit, k)
    ensures EvalIterations(h, prog, f, true, a, |rs|, At(rs, limit, t.index, t.data, t.locals)) == Timeout
    decreases f
  {
    hide Eval, Balanced, LoopDone, Ends;
    var u := Iterate(body, t);
    var f0 := OneTurn(h, prog, true, a, rs, limit, inv, body, t);
    var st1, st2 := At(rs, limit, t.index, t.data, t.locals), At(rs, limit, t.index, u.data + [u.index - t.index], u.locals);
    EndsOrTimesOut(h, prog, f0, a, st1, st2, f);
    if Eval(h, prog, f, a, st1) != Timeout {
      AfterLater(body, t, 0);
      assert !StopsAfter(body, t, limit, 1);
      GoesOn(h, prog, a, rs, limit, t, u, f);
      if f > 0 {
        forall k: nat | k >= 1
          ensures !StopsAfter(body, u, limit, k)
        {
          AfterLater(body, t, k);
          AfterLater(body, t, k - 1);
          assert !StopsAfter(body, t, limit, k + 1);
        }
        NeverDone(h, prog, a, rs, limit, inv, body, u, f - 1);
      }
    }
  }

  /** +LOOP on a balanced body whose test never ends it is not finished within any fuel. */
  lemma PlusLoopGoesOn(h: Host, prog: Program, question: bool, a: Stmt, st: St, start: int, limit: int, data: seq<int>,
                       inv: Turn -> bool, body: Turn -> Effect, f: nat)
    requires st.data == data + [limit, start] && inv(Turn(start, data, st.locals)) && (question ==> limit != start)
    requires Balanced(h, prog, true, a, st.rs, limit, inv, body)
    requires forall k: nat :: k >= 1 ==> !StopsAfter(body, Turn(start, data, st.locals), limit, k)
    ensures Eval(h, prog, f, DoLoop(question, true, a), st) == Timeout
  {
    hide Balanced, EvalIterations, StopsAfter;
    NeverDone(h, prog, a, st.rs, limit, inv, body, Turn(start, data, st.locals), f);
    assert Pop(st.data, 2) == data;
  }

  /** The first iteration that ends the loop, up to a given one that does. */
  lemma {:induction false} FirstStop(body: Turn -> Effect, t: Turn, limit: int, k: nat) returns (n: nat)
    requires k >= 1
    ensures 1 <= n && forall j :: 1 <= j < n ==> !StopsAfter(body, t, limit, j)
    ensures n <= k ==> StopsAfter(body, t, limit, n)
    ensures n > k ==> n == k + 1
    decreases k
  {
    hide StopsAfter;
    if k == 1 {
      n := if StopsAfter(body, t, limit, 1) then 1 else 2;
    } else {
      n := FirstStop(body, t, limit, k - 1);
      if n == k && !StopsAfter(body, t, limit, k) {
        n := k + 1;
      }
    }
  }

  lemma EqualSkips(h: Host, prog: Program, f: nat, a: Stmt, st: St, start: int, data: seq<int>)
    requires st.data == data + [start, start]
    ensures Eval(h, prog, f, DoLoop(true, true, a), st) == Normal(St(data, st.rs, st.locals))
  {
    hide EvalIterations;
    assert Pop(st.data, 2) == data;
  }

  /** +LOOP on a balanced body ends if and only if the test of some iteration ends it, or ?DO skips it. */
  lemma PlusLoopEndsIff(h: Host, prog: Program, question: bool, a: Stmt, st: St, start: int, limit: int, data: seq<int>,
                        inv: Turn -> bool, body: Turn -> Effect)
    requires st.data == data + [limit, start] && inv(Turn(start, data, st.locals))
    requires Balanced(h, prog, true, a, st.rs, limit, inv, body)
    ensures (exists f: nat :: Eval(h, prog, f, DoLoop(question, true, a), st) != Timeout) <==>
            (question && limit == start) ||
            (exists k: nat :: k >= 1 && StopsAfter(body, Turn(start, data, st.locals), limit, k))
  {
    hide Balanced, Eval, StopsAfter;
    var t := Turn(start, data, st.locals);
    if question && limit == start {
      var f: nat := 0;
      EqualSkips(h, prog, f, a, st, start, data);
      assert Eval(h, prog, f, DoLoop(question, true, a), st) != Timeout;
    } else if exists k: nat :: k >= 1 && StopsAfter(body, t, limit, k) {
      var k: nat :| k >= 1 && StopsAfter(body, t, limit, k);
      var n := FirstStop(body, t, limit, k);
      var f0 := PlusLoopIterates(h, prog, question, a, st, start, limit, data, inv, body, n);
      assert exists f: nat :: Eval(h, prog, f, DoLoop(question, true, a), st) != Timeout by {
        assert Eval(h, prog, f0, DoLoop(question, true, a), st) != Timeout;
      }
    } else {
      forall f: nat
        ensures Eval(h, prog, f, DoLoop(question, true, a), st) == Timeout
      {
        PlusLoopGoesOn(h, prog, question, a, st, start, limit, data, inv, body, f);
      }
    }
  }

  // ---------------------------------------------------------------------
  // On the machine

  /** The cells of limit start DO a LOOP, on a balanced body: the machine runs the body's effect max(1, limit - start)
      times over and goes on behind the loop with the return stack as it was. */
  lemma DoLoopOnMachine(x: M.World, question: bool, a: Stmt, st: St, start: int, limit: int, data: seq<int>,
                        inv: Turn -> bool, body: Turn -> Effect, at: nat, act: M.Act, lv: M.Leaves)
    requires M.SimPre(x, DoLoop(question, false, a), st, at, act)
    requires st.data == data + [limit, start] && inv(Turn(start, data, st.locals))
    requires Balanced(x.h, x.prog, false, a, st.rs, limit, inv, body)
    ensures var t := After(body, Turn(start, data, st.locals), Turns(question, start, limit));
            M.Reaches(x, M.Mach(act, st, at, lv),
                      Next(M.Mach(act, St(t.data, st.rs, t.locals), at + M.Len(x, act, DoLoop(question, false, a)), lv)))
  {
    hide M.SimPre, M.Reaches, M.Mach, M.Len, Balanced, Eval, After, Turns;
    var f0 := DoLoopIterates(x.h, x.prog, question, a, st, start, limit, data, inv, body);
    M.Sim(x, f0, DoLoop(question, false, a), st, at, act, lv);
  }

  /** The same for +LOOP, up to the first iteration whose test ends it. */
  lemma PlusLoopOnMachine(x: M.World, question: bool, a: Stmt, st: St, start: int, limit: int, data: seq<int>,
                          inv: Turn -> bool, body: Turn -> Effect, n: nat, at: nat, act: M.Act, lv: M.Leaves)
    requires M.SimPre(x, DoLoop(question, true, a), st, at, act)
    requires st.data == data + [limit, start] && inv(Turn(start, data, st.locals)) && (question ==> limit != start)
    requires Balanced(x.h, x.prog, true, a, st.rs, limit, inv, body)
    requires n >= 1 && forall k :: 1 <= k <= n ==> (StopsAfter(body, Turn(start, data, st.locals), limit, k) <==> k == n)
    ensures var t := After(body, Turn(start, data, st.locals), n);
            M.Reaches(x, M.Mach(act, st, at, lv),
                      Next(M.Mach(act, St(t.data, st.rs, t.locals), at + M.Len(x, act, DoLoop(question, true, a)), lv)))
  {
    hide M.SimPre, M.Reaches, M.Mach, M.Len, Balanced, Eval, After, StopsAfter;
    var f0 := PlusLoopIterates(x.h, x.prog, question, a, st, start, limit, data, inv, body, n);
    M.Sim(x, f0, DoLoop(question, true, a), st, at, act, lv);
  }

  /** The cells of +LOOP on a balanced body whose test never ends it: the machine never stops. */
  lemma PlusLoopRunsForever(x: M.World, question: bool, a: Stmt, st: St, start: int, limit: int, data: seq<int>,
                            inv: Turn -> bool, body: Turn -> Effect, at: nat, act: M.Act, lv: M.Leaves, n: nat)
    requires M.SimPre(x, DoLoop(question, true, a), st, at, act)
    requires st.data == data + [limit, start] && inv(Turn(start, data, st.locals)) && (question ==> limit != start)
    requires Balanced(x.h, x.prog, true, a, st.rs, limit, inv, body)
    requires forall k: nat :: k >= 1 ==> !StopsAfter(body, Turn(start, data, st.locals), limit, k)
    ensures Run(x.h, x.code, M.Mach(act, st, at, lv), n).Next?
  {
    hide M.SimPre, M.Mach, M.Len, Balanced, Eval, StopsAfter, Run;
    PlusLoopGoesOn(x.h, x.prog, question, a, st, start, limit, data, inv, body, n);
    M.Sim(x, n, DoLoop(question, true, a), st, at, act, lv);
  }
}
