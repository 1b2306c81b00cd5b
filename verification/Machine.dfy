/**
  The inner interpreter of ficl/vm.c as a step function.

  Code memory is a sequence of cells.  A cell is either an instruction or an
  operand; a cell address is its index.  Branch operands are offsets relative
  to the operand's own address, the operands of (do) and (?do) are absolute
  leave addresses, exactly as the compiling words write them.
 */
module Machine {
  import opened Wrappers

  datatype Instr =
    | Small(n: int)           // the tokens for -16 .. 16
    | Literal                 // operand: the value
    | Branch(check: bool)     // operand: relative offset; check = "WithCheck" form
    | Branch0(check: bool)    // operand: relative offset
    | Of                      // operand: relative offset
    | Do | QDo                // operand: absolute leave address
    | Loop | PlusLoop         // operand: relative offset
    | Leave | Unloop
    | I | J | K
    | ToR | FromR | FetchR
    | Drop
    | Prim(id: nat)           // any primitive that only acts on the data stack
    | Link                    // operand: number of locals
    | Unlink
    | GetLocal                // operand: local index
    | GetLocal0 | GetLocal1
    | ToLocal                 // operand: local index
    | ToLocal0 | ToLocal1
    | Exit | Semi
    | Call(body: int)         // a word pointer: the address of a colon body
    | ExitInner

  datatype Cell = Op(op: Instr) | Num(n: int)

  /** What the interpreter takes from its host: the two object handles that
      count as false besides zero, the data-stack effect of each primitive (None: it
      throws), and the stale word found in a freshly linked local. */
  datatype Host = Host(fthFalse: int, fthNil: int, prim: (nat, seq<int>) -> Option<seq<int>>, stale: int)

  /** ip, data stack, return stack (tops at the end) and frame index. */
  datatype State = State(ip: int, data: seq<int>, ret: seq<int>, frame: int)

  /** Throw: a stack check failed.  Crash: undefined in the original, which
      has no check there.  Halt: exit-inner was reached. */
  datatype Outcome = Next(s: State) | Halt(final: State) | Throw | Crash

  predicate Falsy(h: Host, v: int) {
    v == 0 || v == h.fthFalse || v == h.fthNil
  }

  /** Instructions followed by an operand cell. */
  predicate HasOperand(op: Instr) {
    op.Literal? || op.Branch? || op.Branch0? || op.Of? || op.Do? || op.QDo? ||
    op.Loop? || op.PlusLoop? || op.Link? || op.GetLocal? || op.ToLocal?
  }

  predicate HasNum(code: seq<Cell>, a: int) {
    0 <= a < |code| && code[a].Num?
  }

  function Last(s: seq<int>): int
    requires s != []
  {
    s[|s| - 1]
  }

  function Pop(s: seq<int>, n: nat): seq<int>
    requires n <= |s|
  {
    s[..|s| - n]
  }

  function Step(h: Host, code: seq<Cell>, s: State): Outcome {
    if 0 <= s.ip < |code| && code[s.ip].Op? then
      var op := code[s.ip].op;
      if !HasOperand(op) then
        ExecPlain(h, op, s.(ip := s.ip + 1))
      else if HasNum(code, s.ip + 1) then
        ExecOperand(h, op, code[s.ip + 1].n, s.(ip := s.ip + 1))
      else
        Crash
    else
      Crash
  }

  /** Push one cell on the data stack. */
  function PushData(s: State, v: int): Outcome {
    Next(s.(data := s.data + [v]))
  }

  /** The cell `depth` places below the top of the return stack. */
  function PushReturnCell(s: State, depth: nat): Outcome {
    if depth < |s.ret| then PushData(s, s.ret[|s.ret| - 1 - depth]) else Crash
  }

  function FetchLocal(s: State, k: int): Outcome {
    if 0 <= s.frame + k < |s.ret| then PushData(s, s.ret[s.frame + k]) else Crash
  }

  function StoreLocal(s: State, k: int): Outcome {
    if s.data != [] && 0 <= s.frame + k < |s.ret| then
      Next(s.(data := Pop(s.data, 1), ret := s.ret[s.frame + k := Last(s.data)]))
    else
      Crash
  }

  /** EXIT_FUNCTION: take ip from the return stack. */
  function Return(s: State): Outcome {
    if s.ret != [] then Next(s.(ip := Last(s.ret), ret := Pop(s.ret, 1))) else Crash
  }

  /** One-cell instructions; s.ip is already past the instruction. */
  function ExecPlain(h: Host, op: Instr, s: State): Outcome
    requires !HasOperand(op)
  {
    match op
    case Small(n) => PushData(s, n)
    case Leave => if |s.ret| >= 2 then Return(s.(ret := Pop(s.ret, 2))) else Crash
    case Unloop => if |s.ret| >= 3 then Next(s.(ret := Pop(s.ret, 3))) else Crash
    case I => PushReturnCell(s, 0)
    case J => PushReturnCell(s, 3)
    case K => PushReturnCell(s, 6)
    case ToR =>
      if s.data == [] then Throw else Next(s.(data := Pop(s.data, 1), ret := s.ret + [Last(s.data)]))
    case FromR =>
      if s.ret == [] then Throw else Next(s.(data := s.data + [Last(s.ret)], ret := Pop(s.ret, 1)))
    case FetchR =>
      if s.ret == [] then Throw else PushData(s, Last(s.ret))
    case Drop =>
      if s.data == [] then Throw else Next(s.(data := Pop(s.data, 1)))
    case Prim(id) =>
      (match h.prim(id, s.data)
       case None => Throw
       case Some(d) => Next(s.(data := d)))
    case Unlink =>
      if 1 <= s.frame <= |s.ret| then
        Next(s.(frame := s.ret[s.frame - 1], ret := s.ret[..s.frame - 1]))
      else
        Crash
    case GetLocal0 => FetchLocal(s, 0)
    case GetLocal1 => FetchLocal(s, 1)
    case ToLocal0 => StoreLocal(s, 0)
    case ToLocal1 => StoreLocal(s, 1)
    case Exit => Return(s)
    case Semi => Return(s)
    case Call(body) => Next(s.(ip := body, ret := s.ret + [s.ip]))
    case ExitInner => Halt(s)
  }

  /** Two-cell instructions; s.ip is the address of the operand, whose value is arg. */
  function ExecOperand(h: Host, op: Instr, arg: int, s: State): Outcome
    requires HasOperand(op)
  {
    match op
    case Literal => PushData(s.(ip := s.ip + 1), arg)
    case Branch(_) => Next(s.(ip := s.ip + arg))
    case Branch0(_) =>
      if s.data == [] then Throw
      else
        var s1 := s.(data := Pop(s.data, 1));
        if Falsy(h, Last(s.data)) then Next(s1.(ip := s.ip + arg)) else Next(s1.(ip := s.ip + 1))
    case Of =>
      if |s.data| < 2 then Throw
      else if s.data[|s.data| - 1] == s.data[|s.data| - 2] then
        Next(s.(ip := s.ip + 1, data := Pop(s.data, 2)))
      else
        Next(s.(ip := s.ip + arg, data := Pop(s.data, 1)))
    case Do =>
      if |s.data| < 2 then Throw
      else Next(EnterLoop(s, arg))
    case QDo =>
      if |s.data| < 2 then Throw
      else if s.data[|s.data| - 1] == s.data[|s.data| - 2] then
        Next(s.(ip := arg, data := Pop(s.data, 2)))
      else Next(EnterLoop(s, arg))
    case Loop => if |s.ret| < 3 then Crash else Next(EndLoop(s, arg, 1))
    case PlusLoop =>
      if s.data == [] then Throw
      else if |s.ret| < 3 then Crash
      else Next(EndLoop(s.(data := Pop(s.data, 1)), arg, Last(s.data)))
    case Link =>
      if arg < 0 then Crash
      else
        Next(s.(ip := s.ip + 1, frame := |s.ret| + 1,
             ret := s.ret + [s.frame] + seq(arg, _ => h.stale)))
    case GetLocal => FetchLocal(s.(ip := s.ip + 1), arg)
    case ToLocal => StoreLocal(s.(ip := s.ip + 1), arg)
  }

  /** (do): move index and limit to the return stack, above the leave address. */
  function EnterLoop(s: State, leave: int): State
    requires |s.data| >= 2
  {
    s.(ip := s.ip + 1, data := Pop(s.data, 2),
       ret := s.ret + [leave, s.data[|s.data| - 2], s.data[|s.data| - 1]])
  }

  /** The loop test: direction ^ (index >= limit). */
  predicate LoopDone(index: int, limit: int, step: int) {
    (step < 0) != (index >= limit)
  }

  /** (loop) and (+loop): leave the loop or step the index and branch back. */
  function EndLoop(s: State, offset: int, step: int): State
    requires |s.ret| >= 3
  {
    var index := s.ret[|s.ret| - 1] + step;
    if LoopDone(index, s.ret[|s.ret| - 2], step) then
      s.(ip := s.ip + 1, ret := Pop(s.ret, 3))
    else
      s.(ip := s.ip + offset, ret := s.ret[|s.ret| - 1 := index])
  }

  /** n steps; a stopped machine stays stopped. */
  function Run(h: Host, code: seq<Cell>, s: State, n: nat): Outcome
    decreases n
  {
    if n == 0 then Next(s)
    else
      match Step(h, code, s)
      case Next(s1) => Run(h, code, s1, n - 1)
      case other => other
  }

  lemma {:induction false} RunSplit(h: Host, code: seq<Cell>, s: State, n: nat, m: nat)
    ensures match Run(h, code, s, n)
            case Next(s1) => Run(h, code, s, n + m) == Run(h, code, s1, m)
            case other => Run(h, code, s, n + m) == other
    decreases n
  {
    if n > 0 {
      match Step(h, code, s)
      case Next(s1) => RunSplit(h, code, s1, n - 1, m);
      case _ =>
    }
  }
}
