/**
  Fuel only decides whether a result is found: once there is one, more fuel does not
  change it, so a program has at most one meaning.
 */
module FuelMonotone {
  import opened Machine
  import opened Source

  ghost predicate Same(r: Result, r2: Result) {
    r.Timeout? || r2 == r
  }

  lemma {:induction false} EvalMore(h: Host, prog: Program, f: nat, s: Stmt, st: St)
    ensures Same(Eval(h, prog, f, s, st), Eval(h, prog, f + 1, s, st))
    decreases f, 0, s, 1
  {
    match s
    case CallWord(w) => if f > 0 { DefMore(h, prog, f - 1, w, st.data); }
    case Then(a, b) =>
      EvalMore(h, prog, f, a, st);
      var r := Eval(h, prog, f, a, st);
      if r.Normal? { EvalMore(h, prog, f, b, r.st); }
    case If(a) => if st.data != [] { EvalMore(h, prog, f, a, st.(data := Pop(st.data, 1))); }
    case IfElse(a, b) =>
      if st.data != [] {
        EvalMore(h, prog, f, a, st.(data := Pop(st.data, 1)));
        EvalMore(h, prog, f, b, st.(data := Pop(st.data, 1)));
      }
    case Until(a) => LoopMore(h, prog, f, s, a, st);
    case WhileRepeat(a, b) => WhileMore(h, prog, f, s, st);
    case Again(a) => LoopMore(h, prog, f, s, a, st);
    case DoLoop(q, plus, a) =>
      if |st.data| >= 2 {
        var index, limit := st.data[|st.data| - 1], st.data[|st.data| - 2];
        IterationsMore(h, prog, f, plus, a, |st.rs|, st.(data := Pop(st.data, 2), rs := st.rs + [Ctl(limit, index)]));
      }
    case CaseOf(c) => CaseMore(h, prog, f, c, st);
    case _ =>
  }

  /** BEGIN body UNTIL and BEGIN body AGAIN. */
  lemma {:induction false} LoopMore(h: Host, prog: Program, f: nat, s: Stmt, a: Stmt, st: St)
    requires s == Until(a) || s == Again(a)
    ensures Same(Eval(h, prog, f, s, st), Eval(h, prog, f + 1, s, st))
    decreases f, 0, s, 0
  {
    EvalMore(h, prog, f, a, st);
    var r := Eval(h, prog, f, a, st);
    if r.Normal? && f > 0 {
      if s.Again? {
        EvalMore(h, prog, f - 1, s, r.st);
      } else if r.st.data != [] {
        EvalMore(h, prog, f - 1, s, r.st.(data := Pop(r.st.data, 1)));
      }
    }
  }

  lemma {:induction false} WhileMore(h: Host, prog: Program, f: nat, s: Stmt, st: St)
    requires s.WhileRepeat?
    ensures Same(Eval(h, prog, f, s, st), Eval(h, prog, f + 1, s, st))
    decreases f, 0, s, 0
  {
    EvalMore(h, prog, f, s.test, st);
    var r := Eval(h, prog, f, s.test, st);
    if r.Normal? && r.st.data != [] {
      var st2 := r.st.(data := Pop(r.st.data, 1));
      EvalMore(h, prog, f, s.body, st2);
      var r2 := Eval(h, prog, f, s.body, st2);
      if r2.Normal? && f > 0 {
        EvalMore(h, prog, f - 1, s, r2.st);
      }
    }
  }

  /** What follows an iteration that ended normally. */
  ghost function Onward(h: Host, prog: Program, f: nat, plus: bool, a: Stmt, depth: nat, st: St): Result {
    if plus && st.data == [] then Throws
    else if |st.rs| != depth + 1 || !st.rs[depth].Ctl? then Stuck
    else
      var step := if plus then Last(st.data) else 1;
      var st2 := if plus then st.(data := Pop(st.data, 1)) else st;
      var limit, index := st.rs[depth].limit, st.rs[depth].index + step;
      if LoopDone(index, limit, step) then Normal(st2.(rs := st.rs[..depth]))
      else if f == 0 then Timeout
      else EvalIterations(h, prog, f - 1, plus, a, depth, st2.(rs := st.rs[depth := Ctl(limit, index)]))
  }

  lemma IterationsUnfold(h: Host, prog: Program, f: nat, plus: bool, a: Stmt, depth: nat, st: St)
    ensures var r := Eval(h, prog, f, a, st);
            EvalIterations(h, prog, f, plus, a, depth, st) ==
              if r.Normal? then Onward(h, prog, f, plus, a, depth, r.st)
              else if r.Left? then
                if |r.st.rs| == depth then Normal(r.st) else if |r.st.rs| < depth then Left(r.st) else Stuck
              else r
  {
    hide Eval;
  }

  lemma {:induction false} IterationsMore(h: Host, prog: Program, f: nat, plus: bool, a: Stmt, depth: nat, st: St)
    ensures Same(EvalIterations(h, prog, f, plus, a, depth, st), EvalIterations(h, prog, f + 1, plus, a, depth, st))
    decreases f, 0, a, 2
  {
    hide Eval, EvalIterations, LoopDone;
    EvalMore(h, prog, f, a, st);
    IterationsUnfold(h, prog, f, plus, a, depth, st);
    IterationsUnfold(h, prog, f + 1, plus, a, depth, st);
    var r := Eval(h, prog, f, a, st);
    if r.Normal? && f > 0 && !(plus && r.st.data == []) && |r.st.rs| == depth + 1 && r.st.rs[depth].Ctl? {
      var step := if plus then Last(r.st.data) else 1;
      var st2 := if plus then r.st.(data := Pop(r.st.data, 1)) else r.st;
      var limit, index := r.st.rs[depth].limit, r.st.rs[depth].index + step;
      IterationsMore(h, prog, f - 1, plus, a, depth, st2.(rs := r.st.rs[depth := Ctl(limit, index)]));
    }
  }

  lemma {:induction false} CaseMore(h: Host, prog: Program, f: nat, c: Clauses, st: St)
    ensures Same(EvalCase(h, prog, f, c, st), EvalCase(h, prog, f + 1, c, st))
    decreases f, 0, c, 1
  {
    match c
    case Default(d) => EvalMore(h, prog, f, d, st);
    case Clause(test, body, falls, rest) =>
      EvalMore(h, prog, f, test, st);
      var r := Eval(h, prog, f, test, st);
      if r.Normal? && |r.st.data| >= 2 {
        EnteredMore(h, prog, f, c, r.st.(data := Pop(r.st.data, 2)));
        CaseMore(h, prog, f, rest, r.st.(data := Pop(r.st.data, 1)));
      }
  }

  lemma {:induction false} EnteredMore(h: Host, prog: Program, f: nat, c: Clauses, st: St)
    ensures Same(EvalEntered(h, prog, f, c, st), EvalEntered(h, prog, f + 1, c, st))
    decreases f, 0, c, 0
  {
    if c.Clause? {
      EvalMore(h, prog, f, c.body, st);
      var r := Eval(h, prog, f, c.body, st);
      if r.Normal? && c.falls {
        EnteredMore(h, prog, f, c.rest, r.st);
      }
    }
  }

  lemma {:induction false} DefMore(h: Host, prog: Program, f: nat, w: nat, data: seq<int>)
    ensures Same(EvalDef(h, prog, f, w, data), EvalDef(h, prog, f + 1, w, data))
    decreases f, 1
  {
    if w < |prog| && prog[w].nlocals <= |data| {
      var n := prog[w].nlocals;
      EvalMore(h, prog, f, prog[w].body, St(Pop(data, n), [], InitialLocals(data, n)));
    }
  }

  lemma {:induction false} DefMuchMore(h: Host, prog: Program, f: nat, k: nat, w: nat, data: seq<int>)
    ensures Same(EvalDef(h, prog, f, w, data), EvalDef(h, prog, f + k, w, data))
    decreases k
  {
    if k > 0 {
      DefMuchMore(h, prog, f, k - 1, w, data);
      DefMore(h, prog, f + k - 1, w, data);
    }
  }

  lemma {:induction false} EvalMuchMore(h: Host, prog: Program, f: nat, k: nat, s: Stmt, st: St)
    ensures Same(Eval(h, prog, f, s, st), Eval(h, prog, f + k, s, st))
    decreases k
  {
    hide Eval;
    if k > 0 {
      EvalMuchMore(h, prog, f, k - 1, s, st);
      EvalMore(h, prog, f + k - 1, s, st);
    }
  }

  /** A call has at most one result other than Timeout. */
  lemma MeaningIsUnique(h: Host, prog: Program, f: nat, g: nat, w: nat, data: seq<int>)
    requires !EvalDef(h, prog, f, w, data).Timeout? && !EvalDef(h, prog, g, w, data).Timeout?
    ensures EvalDef(h, prog, f, w, data) == EvalDef(h, prog, g, w, data)
  {
    DefMuchMore(h, prog, f, g, w, data);
    DefMuchMore(h, prog, g, f, w, data);
  }
}
