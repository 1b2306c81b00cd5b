/**
  The pieces put together: programs compiled word by word with back-patching, run by
  the interpreter that rewrites its own jumps, mean what their source means.
 */
module Correctness {
  import opened Wrappers
  import opened Machine
  import S = Source
  import L = Layout
  import E = Emitter
  import W = WellFormed
  import O = Optimizer
  import M = Simulation

  /** Every definition declares at most MAX_LOCALS locals and names only those. */
  predicate Valid(prog: S.Program) {
    forall w :: 0 <= w < |prog| ==> prog[w].nlocals <= E.MAX_LOCALS && L.Scoped(prog[w].body, prog[w].nlocals)
  }

  /** A word header: no cell of it is ever executed. */
  predicate IsHeader(c: seq<Cell>) {
    forall i :: 0 <= i < |c| ==> c[i].Num?
  }

  predicate AreHeaders(headers: seq<seq<Cell>>) {
    forall k :: 0 <= k < |headers| ==> IsHeader(headers[k])
  }

  /** Compile definitions k, k+1, ... one after the other, each behind its header. */
  function Load(memory: seq<Cell>, prog: S.Program, entry: seq<int>, headers: seq<seq<Cell>>, k: nat): Option<seq<Cell>>
    requires k <= |prog| == |entry| == |headers|
    decreases |prog| - k
  {
    if k == |prog| then Some(memory)
    else if entry[k] != |memory| + |headers[k]| then None
    else
      match E.CompileWords(E.Start(memory + headers[k]), L.DefWords(L.Env(entry, prog[k].nlocals), prog[k].body))
      case None => None
      case Some(u) => Load(u.cells, prog, entry, headers, k + 1)
  }

  /** Code that the optimizer has not touched and whose branches all land. */
  ghost predicate Pristine(code: seq<Cell>) {
    O.BranchesLand(code) && forall p :: 0 <= p < |code| && O.IsBranch(code[p]) ==> O.IsCheck(code[p])
  }

  /** Appending a header and a finished definition keeps code pristine. */
  lemma PristineAppend(memory: seq<Cell>, header: seq<Cell>, code: seq<Cell>)
    requires Pristine(memory) && IsHeader(header)
    requires |memory| + |header| <= |code| && code[..|memory| + |header|] == memory + header
    requires W.Closed(code, |memory| + |header|) && W.Fresh(|memory| + |header|, code)
    ensures Pristine(code)
  {
    var n := |memory| + |header|;
    forall p | 0 <= p < |code| && O.IsBranch(code[p])
      ensures HasNum(code, p + 1) && 0 <= O.Target(code, p) < |code| && code[O.Target(code, p)].Op? && O.IsCheck(code[p])
    {
      if p < n {
        assert code[p] == (memory + header)[p];
        assert p < |memory| && O.IsBranch(memory[p]);
        assert HasNum(memory, p + 1) && code[p + 1] == (memory + header)[p + 1];
        var t := O.Target(memory, p);
        assert code[t] == (memory + header)[t];
      } else {
        assert W.IsControl(code[p]);
        assert HasNum(code, p + 1) && W.Destination(code, p) == O.Target(code, p);
      }
    }
  }

  /** One definition: its layout is placed at its entry and the memory stays pristine. */
  lemma LoadOne(memory: seq<Cell>, header: seq<Cell>, env: L.Env, body: S.Stmt, u: E.Unit)
    requires Pristine(memory) && IsHeader(header)
    requires env.nlocals <= E.MAX_LOCALS && L.Scoped(body, env.nlocals)
    requires E.CompileWords(E.Start(memory + header), L.DefWords(env, body)) == Some(u)
    ensures u.cells == memory + header + L.DefCode(env, body, |memory + header|)
    ensures Pristine(u.cells)
  {
    hide E.CompileWords, L.DefWords, L.DefCode, Pristine, W.Closed, W.Fresh;
    L.EmitsDefinition(env, body, memory + header);
    W.CompiledDefinitionIsWellFormed(memory + header, L.DefWords(env, body), u);
    PristineAppend(memory, header, u.cells);
  }

  /** Definitions from k on are in place. */
  ghost predicate InPlace(code: seq<Cell>, prog: S.Program, entry: seq<int>, k: nat)
    requires |prog| == |entry|
  {
    forall w :: k <= w < |prog| ==>
      entry[w] >= 0 && M.Placed(code, entry[w], L.DefCode(L.Env(entry, prog[w].nlocals), prog[w].body, entry[w]))
  }

  lemma PlacedMiddle(a: seq<Cell>, b: seq<Cell>, code: seq<Cell>)
    requires a + b <= code
    ensures M.Placed(code, |a|, b)
  {
    forall i | 0 <= i < |b| ensures code[|a| + i] == b[i] {
      assert (a + b)[|a| + i] == b[i];
    }
  }

  lemma {:induction false} LoadInstalls(memory: seq<Cell>, prog: S.Program, entry: seq<int>, headers: seq<seq<Cell>>,
                                        k: nat, code: seq<Cell>)
    requires Valid(prog) && k <= |prog| == |entry| == |headers| && AreHeaders(headers)
    requires Pristine(memory) && Load(memory, prog, entry, headers, k) == Some(code)
    ensures memory <= code && Pristine(code) && InPlace(code, prog, entry, k)
    decreases |prog| - k
  {
    hide Pristine, L.DefCode, M.Placed, E.CompileWords, L.DefWords;
    if k < |prog| {
      var env, body, header := L.Env(entry, prog[k].nlocals), prog[k].body, headers[k];
      var u := E.CompileWords(E.Start(memory + header), L.DefWords(env, body)).value;
      LoadOne(memory, header, env, body, u);
      LoadInstalls(u.cells, prog, entry, headers, k + 1, code);
      PlacedMiddle(memory + header, L.DefCode(env, body, entry[k]), code);
    }
  }

  // ---------------------------------------------------------------------
  // Entry addresses exist

  lemma {:induction false} SizeIgnoresEntries(e1: seq<int>, e2: seq<int>, n: nat, s: S.Stmt)
    ensures L.Size(L.Env(e1, n), s) == L.Size(L.Env(e2, n), s)
  {
    match s
    case Then(a, b) => SizeIgnoresEntries(e1, e2, n, a); SizeIgnoresEntries(e1, e2, n, b);
    case If(a) => SizeIgnoresEntries(e1, e2, n, a);
    case IfElse(a, b) => SizeIgnoresEntries(e1, e2, n, a); SizeIgnoresEntries(e1, e2, n, b);
    case Until(a) => SizeIgnoresEntries(e1, e2, n, a);
    case WhileRepeat(a, b) => SizeIgnoresEntries(e1, e2, n, a); SizeIgnoresEntries(e1, e2, n, b);
    case Again(a) => SizeIgnoresEntries(e1, e2, n, a);
    case DoLoop(_, _, a) => SizeIgnoresEntries(e1, e2, n, a);
    case CaseOf(c) => CaseSizeIgnoresEntries(e1, e2, n, c);
    case _ =>
  }

  lemma {:induction false} CaseSizeIgnoresEntries(e1: seq<int>, e2: seq<int>, n: nat, c: S.Clauses)
    ensures L.CaseSize(L.Env(e1, n), c) == L.CaseSize(L.Env(e2, n), c)
  {
    match c
    case Default(d) => SizeIgnoresEntries(e1, e2, n, d);
    case Clause(test, body, _, rest) =>
      SizeIgnoresEntries(e1, e2, n, test);
      SizeIgnoresEntries(e1, e2, n, body);
      CaseSizeIgnoresEntries(e1, e2, n, rest);
  }

  /** The entry addresses of the definitions when memory before them has size `start`. */
  function Entries(start: nat, prog: S.Program, headers: seq<seq<Cell>>): (r: seq<int>)
    requires |prog| == |headers|
    ensures |r| == |prog|
    decreases |prog|
  {
    if prog == [] then []
    else
      var e := start + |headers[0]|;
      [e] + Entries(e + |L.DefCode(L.Env([], prog[0].nlocals), prog[0].body, 0)|, prog[1..], headers[1..])
  }

  /** With these entries, loading succeeds: every valid program can be compiled. */
  lemma {:induction false} LoadSucceeds(memory: seq<Cell>, prog: S.Program, entry: seq<int>, headers: seq<seq<Cell>>, k: nat)
    requires Valid(prog) && k <= |prog| == |entry| == |headers|
    requires entry[k..] == Entries(|memory|, prog[k..], headers[k..])
    ensures Load(memory, prog, entry, headers, k).Some?
    decreases |prog| - k
  {
    hide E.CompileWords, L.DefWords;
    if k < |prog| {
      var env, body := L.Env(entry, prog[k].nlocals), prog[k].body;
      var m1 := memory + headers[k];
      assert entry[k] == entry[k..][0] == |m1|;
      L.EmitsDefinition(env, body, m1);
      SizeIgnoresEntries(entry, [], prog[k].nlocals, body);
      var u := E.CompileWords(E.Start(m1), L.DefWords(env, body)).value;
      assert |u.cells| == |m1| + |L.DefCode(L.Env([], prog[k].nlocals), body, 0)|;
      assert prog[k..][1..] == prog[k + 1..] && headers[k..][1..] == headers[k + 1..] && entry[k..][1..] == entry[k + 1..];
      LoadSucceeds(u.cells, prog, entry, headers, k + 1);
    }
  }

  // ---------------------------------------------------------------------
  // The main theorem

  /** The source call of word w ends with result r for some amount of fuel. */
  ghost predicate Means(h: Host, prog: S.Program, w: nat, data: seq<int>, r: S.Result) {
    exists fuel: nat :: S.EvalDef(h, prog, fuel, w, data) == r
  }

  /** The source call never does anything meaningless, however long it is run. */
  ghost predicate Meaningful(h: Host, prog: S.Program, w: nat, data: seq<int>) {
    !Means(h, prog, w, data, S.Stuck)
  }

  /** The state in which the host starts word w: exit-inner, at address 0, is the return address. */
  function Initial(entry: seq<int>, w: nat, data: seq<int>, low: seq<int>, frame: int): State
    requires w < |entry|
  {
    State(entry[w], data, low + [0], frame)
  }

  /** The state in which exit-inner stops the machine. */
  function Final(data: seq<int>, low: seq<int>, frame: int): Outcome {
    Halt(State(1, data, low, frame))
  }

  /** What the machine does for a result of the source, within the same fuel. */
  lemma Forward(x: M.World, fuel: nat, w: nat, data: seq<int>, low: seq<int>, frame: int)
    requires M.Installed(x) && w < |x.prog| == |x.entry| && |x.code| > 0 && x.code[0] == Op(ExitInner)
    ensures var m, r := Initial(x.entry, w, data, low, frame), S.EvalDef(x.h, x.prog, fuel, w, data);
            (r.Exited? ==> O.Stops(x.h, x.code, m, Final(r.data, low, frame))) &&
            (r.Throws? ==> O.Stops(x.h, x.code, m, Throw)) &&
            (r.Timeout? ==> Run(x.h, x.code, m, fuel).Next?) &&
            !r.Normal? && !r.Left?
  {
    hide Step, M.Installed;
    var m, r := Initial(x.entry, w, data, low, frame), S.EvalDef(x.h, x.prog, fuel, w, data);
    M.SimDef(x, fuel, w, data, low, 0, frame);
    if r.Exited? {
      var m1 := State(0, r.data, low, frame);
      StepExitInner(x.h, x.code, m1);
      M.ReachStep(x, m1, Final(r.data, low, frame));
      M.ReachTrans(x, m, m1, Final(r.data, low, frame));
    }
  }

  lemma StepExitInner(h: Host, code: seq<Cell>, m: State)
    requires |code| > 0 && code[0] == Op(ExitInner) && m.ip == 0
    ensures Step(h, code, m) == Halt(m.(ip := 1))
  {
  }

  /** A run stops with one outcome only. */
  lemma StopsOnce(h: Host, code: seq<Cell>, m: State, a: Outcome, b: Outcome)
    requires O.Stops(h, code, m, a) && O.Stops(h, code, m, b)
    ensures a == b
  {
    hide Step;
    var i: nat :| Run(h, code, m, i) == a;
    var j: nat :| Run(h, code, m, j) == b;
    RunSplit(h, code, m, i, j);
    RunSplit(h, code, m, j, i);
  }

  /** The plain interpreter on compiled code stops exactly as the source says. */
  lemma PlainRunsAgree(x: M.World, w: nat, data: seq<int>, low: seq<int>, frame: int, o: Outcome)
    requires M.Installed(x) && w < |x.prog| == |x.entry| && |x.code| > 0 && x.code[0] == Op(ExitInner)
    requires Meaningful(x.h, x.prog, w, data)
    ensures O.Stops(x.h, x.code, Initial(x.entry, w, data, low, frame), o) <==>
            (o == Throw && Means(x.h, x.prog, w, data, S.Throws)) ||
            (o.Halt? && o == Final(o.final.data, low, frame) && Means(x.h, x.prog, w, data, S.Exited(o.final.data)))
  {
    hide Step, M.Installed, S.EvalDef;
    var m := Initial(x.entry, w, data, low, frame);
    if O.Stops(x.h, x.code, m, o) {
      var n: nat :| Run(x.h, x.code, m, n) == o;
      Forward(x, n, w, data, low, frame);
      var r := S.EvalDef(x.h, x.prog, n, w, data);
      assert Means(x.h, x.prog, w, data, r);
      if r.Exited? {
        StopsOnce(x.h, x.code, m, o, Final(r.data, low, frame));
      } else if r.Throws? {
        StopsOnce(x.h, x.code, m, o, Throw);
      }
    }
    if o == Throw && Means(x.h, x.prog, w, data, S.Throws) {
      var fuel: nat :| S.EvalDef(x.h, x.prog, fuel, w, data) == S.Throws;
      Forward(x, fuel, w, data, low, frame);
    }
    if o.Halt? && o == Final(o.final.data, low, frame) && Means(x.h, x.prog, w, data, S.Exited(o.final.data)) {
      var fuel: nat :| S.EvalDef(x.h, x.prog, fuel, w, data) == S.Exited(o.final.data);
      Forward(x, fuel, w, data, low, frame);
    }
  }

  /** Compiler correctness.  Compile any valid program word by word and run any of its
      words on the interpreter that optimizes jumps as it goes, starting from memory c
      in which any earlier runs may already have optimized some of them.  If the call
      means something in the source, then the machine stops with a state exactly when
      the source call returns with that data stack -- and then the caller's return stack
      and frame are restored -- it throws exactly when the source throws, it never does
      anything undefined, and it runs on exactly when the source does. */
  lemma CompiledProgramsRunAsMeant(h: Host, prog: S.Program, entry: seq<int>, headers: seq<seq<Cell>>, code: seq<Cell>,
                                   c: seq<Cell>, w: nat, data: seq<int>, low: seq<int>, frame: int, o: Outcome)
    requires Valid(prog) && |prog| == |entry| == |headers| && AreHeaders(headers)
    requires Load([Op(ExitInner)], prog, entry, headers, 0) == Some(code)
    requires O.Compat(code, c) && w < |prog| && Meaningful(h, prog, w, data)
    ensures O.SelfStops(h, c, Initial(entry, w, data, low, frame), o) <==>
            (o == Throw && Means(h, prog, w, data, S.Throws)) ||
            (o.Halt? && o == Final(o.final.data, low, frame) && Means(h, prog, w, data, S.Exited(o.final.data)))
  {
    hide E.CompileWords, L.DefWords, L.DefCode, M.Placed, O.BranchesLand, O.SameShape, S.EvalDef, Step;
    var boot := [Op(ExitInner)];
    assert Pristine(boot) by { BootIsPristine(); }
    LoadInstalls(boot, prog, entry, headers, 0, code);
    var x := M.World(h, code, prog, entry);
    assert code[0] == boot[0];
    PlainRunsAgree(x, w, data, low, frame, o);
    O.SelfModificationPreservesRuns(h, code, c, Initial(entry, w, data, low, frame), o);
  }

  lemma BootIsPristine()
    ensures Pristine([Op(ExitInner)])
  {
  }

  /** Freshly compiled memory is where such runs start, and it has nothing optimized yet. */
  lemma CompiledMemoryIsFresh(prog: S.Program, entry: seq<int>, headers: seq<seq<Cell>>, code: seq<Cell>)
    requires Valid(prog) && |prog| == |entry| == |headers| && AreHeaders(headers)
    requires Load([Op(ExitInner)], prog, entry, headers, 0) == Some(code)
    ensures O.Compat(code, code) && O.Settled(code, code, {})
  {
    hide E.CompileWords, L.DefWords, L.DefCode, M.Placed;
    BootIsPristine();
    LoadInstalls([Op(ExitInner)], prog, entry, headers, 0, code);
    O.CompatRefl(code);
  }
}
