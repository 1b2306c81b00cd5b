/**
  Which cells count as false: zero and the handles of #f and nil, and no others.  What IF, UNTIL
  and WHILE do on them, in the source's meaning, on the compiled cells, and end to end.
 */
module Conditionals {
  import opened Wrappers
  import opened Machine
  import opened Source
  import C = Correctness
  import E = Emitter
  import L = Layout
  import M = Simulation
  import O = Optimizer

  // ---------------------------------------------------------------------
  // In the source

  lemma IfMeans(h: Host, prog: Program, f: nat, a: Stmt, st: St, d: seq<int>, v: int)
    requires st.data == d + [v]
    ensures Eval(h, prog, f, If(a), st) ==
            if v == 0 || v == h.fthFalse || v == h.fthNil then Normal(st.(data := d))
            else Eval(h, prog, f, a, st.(data := d))
  {
    assert Pop(st.data, 1) == d;
  }

  lemma IfElseMeans(h: Host, prog: Program, f: nat, a: Stmt, b: Stmt, st: St, d: seq<int>, v: int)
    requires st.data == d + [v]
    ensures Eval(h, prog, f, IfElse(a, b), st) ==
            if v == 0 || v == h.fthFalse || v == h.fthNil then Eval(h, prog, f, b, st.(data := d))
            else Eval(h, prog, f, a, st.(data := d))
  {
    assert Pop(st.data, 1) == d;
  }

  /** BEGIN a UNTIL goes on while the flag is false. */
  lemma UntilMeans(h: Host, prog: Program, f: nat, a: Stmt, st: St, st1: St, d: seq<int>, v: int)
    requires Eval(h, prog, f, a, st) == Normal(st1) && st1.data == d + [v]
    ensures Eval(h, prog, f, Until(a), st) ==
            if v == 0 || v == h.fthFalse || v == h.fthNil then
              if f == 0 then Timeout else Eval(h, prog, f - 1, Until(a), st1.(data := d))
            else Normal(st1.(data := d))
  {
    assert Pop(st1.data, 1) == d;
  }

  /** BEGIN a WHILE b REPEAT ends when the flag is false. */
  lemma WhileMeans(h: Host, prog: Program, f: nat, a: Stmt, b: Stmt, st: St, st1: St, d: seq<int>, v: int)
    requires Eval(h, prog, f, a, st) == Normal(st1) && st1.data == d + [v]
    ensures Eval(h, prog, f, WhileRepeat(a, b), st) ==
            if v == 0 || v == h.fthFalse || v == h.fthNil then Normal(st1.(data := d))
            else
              match Eval(h, prog, f, b, st1.(data := d))
              case Normal(st2) => if f == 0 then Timeout else Eval(h, prog, f - 1, WhileRepeat(a, b), st2)
              case r => r
  {
    assert Pop(st1.data, 1) == d;
  }

  // ---------------------------------------------------------------------
  // On the compiled cells

  /** IF and IF ELSE: from the first cell, the machine agrees with the part that the flag chooses. */
  lemma IfOnMachine(x: M.World, f: nat, a: Stmt, st: St, d: seq<int>, v: int, at: nat, act: M.Act, lv: M.Leaves)
    requires M.SimPre(x, If(a), st, at, act) && st.data == d + [v]
    ensures M.Agrees(x, M.Mach(act, st, at, lv),
                     if v == 0 || v == x.h.fthFalse || v == x.h.fthNil then Normal(st.(data := d))
                     else Eval(x.h, x.prog, f, a, st.(data := d)),
                     f, act, lv, at + M.Len(x, act, If(a)))
  {
    hide M.SimPre, M.Agrees, M.Mach, M.Len, Eval;
    IfMeans(x.h, x.prog, f, a, st, d, v);
    M.Sim(x, f, If(a), st, at, act, lv);
  }

  lemma IfElseOnMachine(x: M.World, f: nat, a: Stmt, b: Stmt, st: St, d: seq<int>, v: int, at: nat, act: M.Act, lv: M.Leaves)
    requires M.SimPre(x, IfElse(a, b), st, at, act) && st.data == d + [v]
    ensures M.Agrees(x, M.Mach(act, st, at, lv),
                     if v == 0 || v == x.h.fthFalse || v == x.h.fthNil then Eval(x.h, x.prog, f, b, st.(data := d))
                     else Eval(x.h, x.prog, f, a, st.(data := d)),
                     f, act, lv, at + M.Len(x, act, IfElse(a, b)))
  {
    hide M.SimPre, M.Agrees, M.Mach, M.Len, Eval;
    IfElseMeans(x.h, x.prog, f, a, b, st, d, v);
    M.Sim(x, f, IfElse(a, b), st, at, act, lv);
  }

  /** UNTIL: behind the loop unless the flag is false, otherwise once more. */
  lemma UntilOnMachine(x: M.World, f: nat, a: Stmt, st: St, st1: St, d: seq<int>, v: int, at: nat, act: M.Act, lv: M.Leaves)
    requires M.SimPre(x, Until(a), st, at, act)
    requires Eval(x.h, x.prog, f, a, st) == Normal(st1) && st1.data == d + [v]
    ensures M.Agrees(x, M.Mach(act, st, at, lv),
                     if v == 0 || v == x.h.fthFalse || v == x.h.fthNil then
                       if f == 0 then Timeout else Eval(x.h, x.prog, f - 1, Until(a), st1.(data := d))
                     else Normal(st1.(data := d)),
                     f, act, lv, at + M.Len(x, act, Until(a)))
  {
    hide M.SimPre, M.Agrees, M.Mach, M.Len, Eval;
    UntilMeans(x.h, x.prog, f, a, st, st1, d, v);
    M.Sim(x, f, Until(a), st, at, act, lv);
  }

  /** WHILE: behind the loop when the flag is false. */
  lemma WhileOnMachine(x: M.World, f: nat, a: Stmt, b: Stmt, st: St, st1: St, d: seq<int>, v: int, at: nat, act: M.Act, lv: M.Leaves)
    requires M.SimPre(x, WhileRepeat(a, b), st, at, act)
    requires Eval(x.h, x.prog, f, a, st) == Normal(st1) && st1.data == d + [v]
    ensures M.Agrees(x, M.Mach(act, st, at, lv),
                     if v == 0 || v == x.h.fthFalse || v == x.h.fthNil then Normal(st1.(data := d))
                     else
                       match Eval(x.h, x.prog, f, b, st1.(data := d))
                       case Normal(st2) => if f == 0 then Timeout else Eval(x.h, x.prog, f - 1, WhileRepeat(a, b), st2)
                       case r => r,
                     f, act, lv, at + M.Len(x, act, WhileRepeat(a, b)))
  {
    hide M.SimPre, M.Agrees, M.Mach, M.Len, Eval;
    WhileMeans(x.h, x.prog, f, a, b, st, st1, d, v);
    M.Sim(x, f, WhileRepeat(a, b), st, at, act, lv);
  }

  // ---------------------------------------------------------------------
  // End to end

  /** : w IF 1 ELSE 2 THEN ; */
  function Chooser(): Program {
    [Def(0, IfElse(Push(1), Push(2)))]
  }

  lemma ChooserMeans(h: Host, f: nat, d: seq<int>, v: int)
    ensures EvalDef(h, Chooser(), f, 0, d + [v]) ==
            Exited(d + [if v == 0 || v == h.fthFalse || v == h.fthNil then 2 else 1])
  {
    var st := St(d + [v], [], []);
    assert Pop(d + [v], 0) == d + [v] && InitialLocals(d + [v], 0) == [];
    IfElseMeans(h, Chooser(), f, Push(1), Push(2), st, d, v);
  }

  /** Compiled and run on the interpreter that rewrites its jumps, it halts with 2 on zero, #f and nil, with 1 on
      every other cell, and in no other way. */
  lemma CompiledChooser(h: Host, entry: seq<int>, headers: seq<seq<Cell>>, code: seq<Cell>, c: seq<Cell>,
                        d: seq<int>, v: int, low: seq<int>, frame: int, o: Outcome)
    requires |entry| == |headers| == 1 && C.AreHeaders(headers)
    requires C.Load([Op(ExitInner)], Chooser(), entry, headers, 0) == Some(code) && O.Compat(code, c)
    ensures O.SelfStops(h, c, C.Initial(entry, 0, d + [v], low, frame), o) <==>
            o == C.Final(d + [if v == 0 || v == h.fthFalse || v == h.fthNil then 2 else 1], low, frame)
  {
    hide E.CompileWords, O.Compat, O.SelfStops, C.Load, EvalDef;
    var prog, data := Chooser(), d + [v];
    var out := d + [if v == 0 || v == h.fthFalse || v == h.fthNil then 2 else 1];
    forall f: nat
      ensures EvalDef(h, prog, f, 0, data) == Exited(out)
    {
      ChooserMeans(h, f, d, v);
    }
    assert EvalDef(h, prog, 0, 0, data) == Exited(out);
    assert L.Scoped(prog[0].body, 0);
    C.CompiledProgramsRunAsMeant(h, prog, entry, headers, code, c, 0, data, low, frame, o);
  }
}
