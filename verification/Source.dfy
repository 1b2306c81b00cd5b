/**
  Structured Forth source and its meaning, independent of cells and addresses.
  A definition's own part of the return stack is a sequence of items: plain values
  moved there by >R and the control parameters of the DO loops being run.
 */
module Source {
  import opened Machine

  /** Words that compile to a single instruction of their own. */
  datatype Basic =
    | DropWord | PrimWord(id: nat)
    | ToRWord | FromRWord | FetchRWord
    | IWord | JWord | KWord | UnloopWord

  datatype Stmt =
    | Skip
    | Push(n: int)
    | Do1(b: Basic)
    | CallWord(w: nat)                         // the w-th definition of the program
    | LeaveWord
    | ExitStmt
    | Get(k: nat)                              // a local's name
    | Set(k: nat)                              // TO name
    | Then(first: Stmt, second: Stmt)          // sequence
    | If(yes: Stmt)                            // IF yes THEN
    | IfElse(yes: Stmt, no: Stmt)              // IF yes ELSE no THEN
    | Until(body: Stmt)                        // BEGIN body UNTIL
    | WhileRepeat(test: Stmt, body: Stmt)      // BEGIN test WHILE body REPEAT
    | Again(body: Stmt)                        // BEGIN body AGAIN
    | DoLoop(question: bool, plus: bool, body: Stmt)   // DO or ?DO body LOOP or +LOOP
    | CaseOf(clauses: Clauses)                 // CASE clauses ENDCASE

  /** test OF body ENDOF (or FALLTHROUGH), ..., finally the default part. */
  datatype Clauses =
    | Default(d: Stmt)
    | Clause(test: Stmt, body: Stmt, falls: bool, rest: Clauses)

  datatype Def = Def(nlocals: nat, body: Stmt)

  type Program = seq<Def>

  datatype Item = Val(v: int) | Ctl(limit: int, index: int)

  datatype St = St(data: seq<int>, rs: seq<Item>, locals: seq<int>)

  /** Left: LEAVE dropped the control parameters that were on top of `st.rs`.
      Exited: the definition returned.  Throws: a stack check failed.  Stuck: the
      source means nothing (for instance R> without >R).  Timeout: not finished
      within the fuel. */
  datatype Result =
    | Normal(st: St) | Left(st: St) | Exited(data: seq<int>) | Throws | Stuck | Timeout

  /** The topmost cell of an item: the value, or the loop index. */
  function TopCell(x: Item): int {
    match x
    case Val(v) => v
    case Ctl(_, index) => index
  }

  function LastItem(rs: seq<Item>): Item
    requires rs != []
  {
    rs[|rs| - 1]
  }

  function EvalBasic(h: Host, b: Basic, st: St): Result {
    var n := |st.rs|;
    match b
    case DropWord => if st.data == [] then Throws else Normal(st.(data := Pop(st.data, 1)))
    case PrimWord(id) =>
      (match h.prim(id, st.data)
       case None => Throws
       case Some(d) => Normal(st.(data := d)))
    case ToRWord =>
      if st.data == [] then Throws
      else Normal(st.(data := Pop(st.data, 1), rs := st.rs + [Val(Last(st.data))]))
    case FromRWord =>
      if n > 0 && st.rs[n - 1].Val? then Normal(st.(data := st.data + [st.rs[n - 1].v], rs := st.rs[..n - 1])) else Stuck
    case FetchRWord => if n > 0 then Normal(st.(data := st.data + [TopCell(st.rs[n - 1])])) else Stuck
    case IWord => if n > 0 then Normal(st.(data := st.data + [TopCell(st.rs[n - 1])])) else Stuck
    case JWord =>
      if n > 1 && st.rs[n - 1].Ctl? then Normal(st.(data := st.data + [TopCell(st.rs[n - 2])])) else Stuck
    case KWord =>
      if n > 2 && st.rs[n - 1].Ctl? && st.rs[n - 2].Ctl? then
        Normal(st.(data := st.data + [TopCell(st.rs[n - 3])]))
      else Stuck
    case UnloopWord => if n > 0 && st.rs[n - 1].Ctl? then Normal(st.(rs := st.rs[..n - 1])) else Stuck
  }

  /** A definition without locals must have cleared its part of the return stack before it returns. */
  function Leaving(st: St): Result {
    if st.locals != [] || st.rs == [] then Exited(st.data) else Stuck
  }

  /** The meaning of a statement.  Fuel pays for loop iterations and calls. */
  function Eval(h: Host, prog: Program, fuel: nat, s: Stmt, st: St): Result
    decreases fuel, 0, s, 0
  {
    match s
    case Skip => Normal(st)
    case Push(n) => Normal(st.(data := st.data + [n]))
    case Do1(b) => EvalBasic(h, b, st)
    case CallWord(w) =>
      if fuel == 0 then Timeout
      else
        (match EvalDef(h, prog, fuel - 1, w, st.data)
         case Exited(d) => Normal(st.(data := d))
         case r => r)
    case LeaveWord =>
      if st.rs != [] && LastItem(st.rs).Ctl? then Left(st.(rs := st.rs[..|st.rs| - 1])) else Stuck
    case ExitStmt => Leaving(st)
    case Get(k) => if k < |st.locals| then Normal(st.(data := st.data + [st.locals[k]])) else Stuck
    case Set(k) =>
      if k < |st.locals| && st.data != [] then
        Normal(st.(data := Pop(st.data, 1), locals := st.locals[k := Last(st.data)]))
      else Stuck
    case Then(a, b) =>
      (match Eval(h, prog, fuel, a, st)
       case Normal(st1) => Eval(h, prog, fuel, b, st1)
       case r => r)
    case If(a) =>
      if st.data == [] then Throws
      else
        var st1 := st.(data := Pop(st.data, 1));
        if Falsy(h, Last(st.data)) then Normal(st1) else Eval(h, prog, fuel, a, st1)
    case IfElse(a, b) =>
      if st.data == [] then Throws
      else
        var st1 := st.(data := Pop(st.data, 1));
        if Falsy(h, Last(st.data)) then Eval(h, prog, fuel, b, st1) else Eval(h, prog, fuel, a, st1)
    case Until(a) =>
      (match Eval(h, prog, fuel, a, st)
       case Normal(st1) =>
         if st1.data == [] then Throws
         else
           var st2 := st1.(data := Pop(st1.data, 1));
           if !Falsy(h, Last(st1.data)) then Normal(st2)
           else if fuel == 0 then Timeout
           else Eval(h, prog, fuel - 1, s, st2)
       case r => r)
    case WhileRepeat(a, b) =>
      (match Eval(h, prog, fuel, a, st)
       case Normal(st1) =>
         if st1.data == [] then Throws
         else
           var st2 := st1.(data := Pop(st1.data, 1));
           if Falsy(h, Last(st1.data)) then Normal(st2)
           else
             (match Eval(h, prog, fuel, b, st2)
              case Normal(st3) => if fuel == 0 then Timeout else Eval(h, prog, fuel - 1, s, st3)
              case r => r)
       case r => r)
    case Again(a) =>
      (match Eval(h, prog, fuel, a, st)
       case Normal(st1) => if fuel == 0 then Timeout else Eval(h, prog, fuel - 1, s, st1)
       case r => r)
    case DoLoop(question, plus, a) =>
      if |st.data| < 2 then Throws
      else
        var index, limit := st.data[|st.data| - 1], st.data[|st.data| - 2];
        var st1 := st.(data := Pop(st.data, 2));
        if question && index == limit then Normal(st1)
        else EvalIterations(h, prog, fuel, plus, a, |st.rs|, st1.(rs := st.rs + [Ctl(limit, index)]))
    case CaseOf(c) => EvalCase(h, prog, fuel, c, st)
  }

  /** Run the body of a DO loop whose control parameters are item `depth` of the return stack. */
  function EvalIterations(h: Host, prog: Program, fuel: nat, plus: bool, a: Stmt, depth: nat, st: St): Result
    decreases fuel, 0, a, 1
  {
    match Eval(h, prog, fuel, a, st)
    case Normal(st1) =>
      if plus && st1.data == [] then Throws
      else if |st1.rs| != depth + 1 || !st1.rs[depth].Ctl? then Stuck
      else
        var step := if plus then Last(st1.data) else 1;
        var st2 := if plus then st1.(data := Pop(st1.data, 1)) else st1;
        var limit, index := st1.rs[depth].limit, st1.rs[depth].index + step;
        if LoopDone(index, limit, step) then Normal(st2.(rs := st1.rs[..depth]))
        else if fuel == 0 then Timeout
        else EvalIterations(h, prog, fuel - 1, plus, a, depth, st2.(rs := st1.rs[depth := Ctl(limit, index)]))
    case Left(st1) =>
      if |st1.rs| == depth then Normal(st1)
      else if |st1.rs| < depth then Left(st1)
      else Stuck
    case r => r
  }

  /** Try the clauses in order on the selector, which stays on the data stack. */
  function EvalCase(h: Host, prog: Program, fuel: nat, c: Clauses, st: St): Result
    decreases fuel, 0, c, 1
  {
    match c
    case Default(d) =>
      (match Eval(h, prog, fuel, d, st)
       case Normal(st1) => if st1.data == [] then Throws else Normal(st1.(data := Pop(st1.data, 1)))
       case r => r)
    case Clause(test, body, falls, rest) =>
      (match Eval(h, prog, fuel, test, st)
       case Normal(st1) =>
         if |st1.data| < 2 then Throws
         else if st1.data[|st1.data| - 1] == st1.data[|st1.data| - 2] then
           EvalEntered(h, prog, fuel, c, st1.(data := Pop(st1.data, 2)))
         else EvalCase(h, prog, fuel, rest, st1.(data := Pop(st1.data, 1)))
       case r => r)
  }

  /** Run the first body of c and those it falls through to. */
  function EvalEntered(h: Host, prog: Program, fuel: nat, c: Clauses, st: St): Result
    decreases fuel, 0, c, 0
  {
    match c
    case Default(_) => Normal(st)
    case Clause(test, body, falls, rest) =>
      (match Eval(h, prog, fuel, body, st)
       case Normal(st1) => if falls then EvalEntered(h, prog, fuel, rest, st1) else Normal(st1)
       case r => r)
  }

  /** Local k is initialized from the k-th cell below the top of the data stack. */
  function InitialLocals(data: seq<int>, n: nat): (r: seq<int>)
    requires n <= |data|
    ensures |r| == n
  {
    seq(n, k requires 0 <= k < n => data[|data| - 1 - k])
  }

  /** A call of the w-th definition: Exited with the data stack it returns. */
  function EvalDef(h: Host, prog: Program, fuel: nat, w: nat, data: seq<int>): Result
    decreases fuel, 1
  {
    if w >= |prog| || prog[w].nlocals > |data| then Stuck
    else
      var n := prog[w].nlocals;
      match Eval(h, prog, fuel, prog[w].body, St(Pop(data, n), [], InitialLocals(data, n)))
      case Normal(st) => Leaving(st)
      case Left(_) => Stuck
      case r => r
  }
}
