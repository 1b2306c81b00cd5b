/**
  The virtual machine object of ficl/vm.c: code memory is an array that the optimizer
  overwrites in place, and so are the two stacks, each with the number of cells in use;
  the other registers are fields.
 */
module VirtualMachine {
  import opened Machine
  import opened Optimizer

  /** A ficlStack: cells up to a fixed capacity. */
  class Stack {
    const cells: array<int>
    var top: nat

    ghost predicate Valid()
      reads this
    {
      top <= cells.Length
    }

    ghost function Contents(): (s: seq<int>)
      requires Valid()
      reads this, cells
      ensures |s| == top
    {
      cells[..top]
    }

    constructor (capacity: nat)
      ensures Valid() && Contents() == [] && cells.Length == capacity && fresh(cells)
    {
      cells := new int[capacity];
      top := 0;
    }

    method Push(v: int) returns (ok: bool)
      requires Valid()
      modifies this, cells
      ensures Valid() && ok == (old(top) < cells.Length)
      ensures Contents() == if ok then old(Contents()) + [v] else old(Contents())
    {
      ok := top < cells.Length;
      if ok {
        cells[top] := v;
        top := top + 1;
      }
    }

    method Pop() returns (v: int)
      requires Valid() && top > 0
      modifies this
      ensures Valid() && old(Contents()) == Contents() + [v]
    {
      top := top - 1;
      v := cells[top];
    }

    method Drop(n: nat)
      requires Valid() && n <= top
      modifies this
      ensures Valid() && Contents() == Machine.Pop(old(Contents()), n)
    {
      top := top - n;
    }

    /** The cell k places above the bottom. */
    method Fetch(k: nat) returns (v: int)
      requires Valid() && k < top
      ensures v == Contents()[k]
    {
      v := cells[k];
    }

    method Store(k: nat, v: int)
      requires Valid() && k < top
      modifies cells
      ensures Contents() == old(Contents())[k := v]
    {
      cells[k] := v;
    }

    /** n more cells, of the given value. */
    method Reserve(n: nat, v: int) returns (ok: bool)
      requires Valid()
      modifies this, cells
      ensures Valid() && ok == (old(top) + n <= cells.Length)
      ensures Contents() == if ok then old(Contents()) + seq(n, _ => v) else old(Contents())
    {
      ok := top + n <= cells.Length;
      if ok {
        forall i | top <= i < top + n {
          cells[i] := v;
        }
        top := top + n;
      }
    }

    /** Other contents. */
    method Replace(s: seq<int>) returns (ok: bool)
      requires Valid()
      modifies this, cells
      ensures Valid() && ok == (|s| <= cells.Length)
      ensures Contents() == if ok then s else old(Contents())
    {
      ok := |s| <= cells.Length;
      if ok {
        forall i | 0 <= i < |s| {
          cells[i] := s[i];
        }
        top := |s|;
      }
    }
  }

  /** Overflowed: a stack was full. */
  datatype Status = Running | Halted | Threw | Crashed | Overflowed

  class Vm {
    const host: Host
    const code: array<Cell>
    const data: Stack
    const ret: Stack
    var ip: int
    var frame: int

    ghost predicate Valid()
      reads this, data, ret
    {
      data.Valid() && ret.Valid() && data != ret && data.cells != ret.cells
    }

    ghost function View(): State
      requires Valid()
      reads this, data, ret, data.cells, ret.cells
    {
      State(ip, data.Contents(), ret.Contents(), frame)
    }

    /** The state fits the two stacks. */
    ghost predicate Room(s: State) {
      |s.data| <= data.cells.Length && |s.ret| <= ret.cells.Length
    }

    /** A machine with empty stacks. */
    constructor (host: Host, code: array<Cell>, entry: int, frame: int, dataCapacity: nat, returnCapacity: nat)
      ensures Valid() && this.host == host && this.code == code && View() == State(entry, [], [], frame)
      ensures data.cells.Length == dataCapacity && ret.cells.Length == returnCapacity
      ensures fresh(data) && fresh(ret) && fresh(data.cells) && fresh(ret.cells)
    {
      this.host, this.code := host, code;
      data := new Stack(dataCapacity);
      ret := new Stack(returnCapacity);
      ip, this.frame := entry, frame;
    }

    /** What the machine reports when a step on unbounded stacks has outcome o. */
    ghost predicate Reports(o: Outcome, status: Status)
      requires Valid()
      reads this, data, ret, data.cells, ret.cells
    {
      match status
      case Running => o == Next(View())
      case Halted => o == Halt(View())
      case Threw => o == Throw
      case Crashed => o == Crash
      case Overflowed => o.Next? && !Room(o.s)
    }

    /** Collapse the chain of jumps that the branch at p leads to. */
    method OptimizeJumpToJump(p: int)
      requires BranchesLand(code[..]) && 0 <= p < code.Length
      modifies code
      ensures code[..] == Optimize(old(code[..]), p)
      decreases Checks(code[..])
    {
      hide BranchesLand, SameShape, Later;
      if !IsCheck(code[p]) {
        return;
      }
      MarkDone(code[..], p);
      ghost var c0 := code[..];
      code[p] := Uncheck(code[p]);
      ghost var c1 := code[..];
      assert c1 == Mark(c0, p);
      var at := p + 1;
      assert c1[at] == c0[at];
      var destination := at + code[at].n;
      if IsJump(code[destination]) {
        if IsCheck(code[destination]) {
          OptimizeJumpToJump(destination);
        }
        ghost var c2 := code[..];
        assert c2 == Landed(c0, p);
        AfterLanding(c0, p);
        var next := destination + 1;
        next := next + code[next].n;
        code[at] := Num(next - at);
        assert code[..] == Retarget(c2, p, Target(c2, destination));
      }
    }

    method PushData(v: int) returns (status: Status)
      requires Valid()
      modifies data, data.cells
      ensures Valid() && Reports(Machine.PushData(old(View()), v), status)
    {
      var ok := data.Push(v);
      status := if ok then Running else Overflowed;
    }

    /** EXIT_FUNCTION. */
    method ExitFunction() returns (status: Status)
      requires Valid()
      modifies this`ip, ret
      ensures Valid() && Reports(Return(old(View())), status)
    {
      if ret.top == 0 {
        return Crashed;
      }
      ip := ret.Pop();
      status := Running;
    }

    method PushFromReturn(depth: nat) returns (status: Status)
      requires Valid()
      modifies data, data.cells
      ensures Valid() && Reports(PushReturnCell(old(View()), depth), status)
    {
      if depth >= ret.top {
        return Crashed;
      }
      var v := ret.Fetch(ret.top - 1 - depth);
      status := PushData(v);
    }

    method PushLocal(k: int) returns (status: Status)
      requires Valid()
      modifies data, data.cells
      ensures Valid() && Reports(FetchLocal(old(View()), k), status)
    {
      if !(0 <= frame + k < ret.top) {
        return Crashed;
      }
      var v := ret.Fetch(frame + k);
      status := PushData(v);
    }

    method PopLocal(k: int) returns (status: Status)
      requires Valid()
      modifies data, ret.cells
      ensures Valid() && Reports(StoreLocal(old(View()), k), status)
    {
      if data.top == 0 || !(0 <= frame + k < ret.top) {
        return Crashed;
      }
      var v := data.Pop();
      ret.Store(frame + k, v);
      status := Running;
    }

    /** >R */
    method ToReturn() returns (status: Status)
      requires Valid()
      modifies data, ret, ret.cells
      ensures Valid() && Reports(ExecPlain(host, ToR, old(View())), status)
    {
      if data.top == 0 {
        return Threw;
      }
      var v := data.Pop();
      var ok := ret.Push(v);
      status := if ok then Running else Overflowed;
    }

    /** R> */
    method FromReturn() returns (status: Status)
      requires Valid()
      modifies ret, data, data.cells
      ensures Valid() && Reports(ExecPlain(host, FromR, old(View())), status)
    {
      if ret.top == 0 {
        return Threw;
      }
      var v := ret.Pop();
      status := PushData(v);
    }

    method UnlinkFrame() returns (status: Status)
      requires Valid()
      modifies this`frame, ret
      ensures Valid() && Reports(ExecPlain(host, Unlink, old(View())), status)
    {
      if !(1 <= frame <= ret.top) {
        return Crashed;
      }
      var v := ret.Fetch(frame - 1);
      ret.Drop(ret.top - (frame - 1));
      frame := v;
      status := Running;
    }

    method LinkFrame(n: int) returns (status: Status)
      requires Valid()
      modifies this`ip, this`frame, ret, ret.cells
      ensures Valid() && Reports(ExecOperand(host, Link, n, old(View())), status)
    {
      if n < 0 {
        return Crashed;
      }
      ip := ip + 1;
      var ok := ret.Push(frame);
      if ok {
        frame := ret.top;
        ok := ret.Reserve(n, host.stale);
      }
      status := if ok then Running else Overflowed;
    }

    method CallWord(body: int) returns (status: Status)
      requires Valid()
      modifies this`ip, ret, ret.cells
      ensures Valid() && Reports(ExecPlain(host, Call(body), old(View())), status)
    {
      var ok := ret.Push(ip);
      ip := body;
      status := if ok then Running else Overflowed;
    }

    method Primitive(id: nat) returns (status: Status)
      requires Valid()
      modifies data, data.cells
      ensures Valid() && Reports(ExecPlain(host, Prim(id), old(View())), status)
    {
      match host.prim(id, data.cells[..data.top]) {
        case None => status := Threw;
        case Some(d) =>
          var ok := data.Replace(d);
          status := if ok then Running else Overflowed;
      }
    }

    method LeaveLoop() returns (status: Status)
      requires Valid()
      modifies this`ip, ret
      ensures Valid() && Reports(ExecPlain(host, Leave, old(View())), status)
    {
      if ret.top < 2 {
        return Crashed;
      }
      ret.Drop(2);
      status := ExitFunction();
    }

    /** The one-cell cases of the instruction switch; ip is past the instruction. */
    method Plain(op: Instr) returns (status: Status)
      requires Valid() && !HasOperand(op)
      modifies this, data, data.cells, ret, ret.cells
      ensures Valid() && Reports(ExecPlain(host, op, old(View())), status)
    {
      status := Running;
      match op {
        case Small(n) => status := PushData(n);
        case Leave => status := LeaveLoop();
        case Unloop =>
          if ret.top < 3 { return Crashed; }
          ret.Drop(3);
        case I => status := PushFromReturn(0);
        case J => status := PushFromReturn(3);
        case K => status := PushFromReturn(6);
        case ToR => status := ToReturn();
        case FromR => status := FromReturn();
        case FetchR =>
          if ret.top == 0 { return Threw; }
          status := PushFromReturn(0);
        case Drop =>
          if data.top == 0 { return Threw; }
          data.Drop(1);
        case Prim(id) => status := Primitive(id);
        case Unlink => status := UnlinkFrame();
        case GetLocal0 => status := PushLocal(0);
        case GetLocal1 => status := PushLocal(1);
        case ToLocal0 => status := PopLocal(0);
        case ToLocal1 => status := PopLocal(1);
        case Exit => status := ExitFunction();
        case Semi => status := ExitFunction();
        case Call(body) => status := CallWord(body);
        case ExitInner => status := Halted;
      }
    }

    /** Move index and limit to the return stack, above the leave address. */
    method StartLoop(leave: int) returns (status: Status)
      requires Valid() && data.top >= 2
      modifies this`ip, data, ret, ret.cells
      ensures Valid() && Reports(Next(EnterLoop(old(View()), leave)), status)
    {
      var index := data.Pop();
      var limit := data.Pop();
      ip := ip + 1;
      var ok := PushLoop(leave, limit, index);
      status := if ok then Running else Overflowed;
    }

    method PushLoop(leave: int, limit: int, index: int) returns (ok: bool)
      requires Valid()
      modifies ret, ret.cells
      ensures Valid() && ok == (old(ret.top) + 3 <= ret.cells.Length)
      ensures ok ==> ret.Contents() == old(ret.Contents()) + [leave, limit, index]
    {
      ok := ret.Push(leave);
      if ok {
        ok := ret.Push(limit);
      }
      if ok {
        ok := ret.Push(index);
      }
    }

    /** The common part of (loop) and (+loop). */
    method FinishLoop(offset: int, increment: int)
      requires Valid() && ret.top >= 3
      modifies this`ip, ret, ret.cells
      ensures Valid() && View() == EndLoop(old(View()), offset, increment)
    {
      var index := ret.Fetch(ret.top - 1);
      var limit := ret.Fetch(ret.top - 2);
      index := index + increment;
      var direction := increment < 0;
      if direction != (index >= limit) {
        ret.Drop(3);
        ip := ip + 1;
      } else {
        ret.Store(ret.top - 1, index);
        ip := ip + offset;
      }
    }

    method CompareOf(offset: int) returns (status: Status)
      requires Valid()
      modifies this`ip, data
      ensures Valid() && Reports(ExecOperand(host, Of, offset, old(View())), status)
    {
      if data.top < 2 {
        return Threw;
      }
      var a := data.Pop();
      var b := data.Fetch(data.top - 1);
      if a == b {
        ip := ip + 1;
        data.Drop(1);
      } else {
        ip := ip + offset;
      }
      status := Running;
    }

    method BranchOnFalse(offset: int, check: bool) returns (status: Status)
      requires Valid()
      modifies this`ip, data
      ensures Valid() && Reports(ExecOperand(host, Branch0(check), offset, old(View())), status)
      ensures old(data.top) > 0 ==>
                var v := old(data.Contents())[old(data.top) - 1];
                status == Running && data.Contents() == old(data.Contents())[..old(data.top) - 1] &&
                ip == if v == 0 || v == host.fthFalse || v == host.fthNil then old(ip) + offset else old(ip) + 1
    {
      if data.top == 0 {
        return Threw;
      }
      var flag := data.Pop();
      ip := if Falsy(host, flag) then ip + offset else ip + 1;
      status := Running;
    }

    method StartQuestionLoop(leave: int) returns (status: Status)
      requires Valid()
      modifies this`ip, data, ret, ret.cells
      ensures Valid() && Reports(ExecOperand(host, QDo, leave, old(View())), status)
    {
      if data.top < 2 {
        return Threw;
      }
      var index := data.Fetch(data.top - 1);
      var limit := data.Fetch(data.top - 2);
      if index == limit {
        data.Drop(2);
        ip := leave;
        status := Running;
      } else {
        status := StartLoop(leave);
      }
    }

    method FinishPlusLoop(offset: int) returns (status: Status)
      requires Valid()
      modifies this`ip, data, ret, ret.cells
      ensures Valid() && Reports(ExecOperand(host, PlusLoop, offset, old(View())), status)
    {
      if data.top == 0 {
        return Threw;
      }
      if ret.top < 3 {
        return Crashed;
      }
      var increment := data.Pop();
      FinishLoop(offset, increment);
      status := Running;
    }

    /** The two-cell cases of the instruction switch; ip is the operand's address. */
    method WithOperand(op: Instr, arg: int) returns (status: Status)
      requires Valid() && HasOperand(op)
      modifies this, data, data.cells, ret, ret.cells
      ensures Valid() && Reports(ExecOperand(host, op, arg, old(View())), status)
      ensures op.Branch0? && old(data.top) > 0 ==>
                var v := old(data.Contents())[old(data.top) - 1];
                status == Running && data.Contents() == old(data.Contents())[..old(data.top) - 1] &&
                ip == if v == 0 || v == host.fthFalse || v == host.fthNil then old(ip) + arg else old(ip) + 1
    {
      status := Running;
      match op {
        case Literal =>
          ip := ip + 1;
          status := PushData(arg);
        case Branch(_) => ip := ip + arg;
        case Branch0(check) => status := BranchOnFalse(arg, check);
        case Of => status := CompareOf(arg);
        case Do =>
          if data.top < 2 { return Threw; }
          status := StartLoop(arg);
        case QDo => status := StartQuestionLoop(arg);
        case Loop =>
          if ret.top < 3 { return Crashed; }
          FinishLoop(arg, 1);
        case PlusLoop => status := FinishPlusLoop(arg);
        case Link => status := LinkFrame(arg);
        case GetLocal =>
          ip := ip + 1;
          status := PushLocal(arg);
        case ToLocal =>
          ip := ip + 1;
          status := PopLocal(arg);
      }
    }

    /** One pass of the inner loop. */
    method Pass() returns (status: Status)
      requires Valid() && BranchesLand(code[..])
      modifies this, code, data, data.cells, ret, ret.cells
      ensures Valid() && code[..] == StepCode(old(code[..]), old(ip))
      ensures Reports(Step(host, code[..], old(View())), status)
      ensures 0 <= old(ip) < code.Length ==>
                (old(code[ip]) == Op(Branch(true)) ==> code[old(ip)] == Op(Branch(false))) &&
                (old(code[ip]) == Op(Branch0(true)) ==> code[old(ip)] == Op(Branch0(false)))
    {
      hide BranchesLand, ExecPlain, ExecOperand;
      if !(0 <= ip < code.Length) {
        return Crashed;
      }
      if code[ip] == Op(Branch(true)) || code[ip] == Op(Branch0(true)) {
        OptimizedForm(code[..], ip);
      }
      if IsCheck(code[ip]) {
        OptimizeJumpToJump(ip);
      }
      var cell := code[ip];
      if cell.Num? {
        return Crashed;
      }
      ip := ip + 1;
      if !HasOperand(cell.op) {
        status := Plain(cell.op);
      } else if ip < code.Length && code[ip].Num? {
        status := WithOperand(cell.op, code[ip].n);
      } else {
        status := Crashed;
      }
    }

    /** The inner loop, stopped after at most `limit` passes: while the stacks have room, it is the run on unbounded ones. */
    method InnerLoop(limit: nat) returns (status: Status)
      requires Valid() && BranchesLand(code[..])
      modifies this, code, data, data.cells, ret, ret.cells
      ensures Valid()
      ensures status != Overflowed ==>
                code[..] == SelfCode(host, old(code[..]), old(View()), limit) &&
                Reports(SelfRun(host, old(code[..]), old(View()), limit), status)
      ensures status == Overflowed <==>
                exists k: nat :: k <= limit && Exceeds(SelfRun(host, old(code[..]), old(View()), k))
    {
      hide Step, StepCode, BranchesLand, Checks, Optimize;
      status := Running;
      var left := limit;
      ghost var code0, s0 := code[..], View();
      while left > 0
        invariant Valid() && status == Running && BranchesLand(code[..]) && 0 <= left <= limit
        invariant SelfRun(host, code[..], View(), left) == SelfRun(host, code0, s0, limit)
        invariant SelfCode(host, code[..], View(), left) == SelfCode(host, code0, s0, limit)
        invariant SelfRun(host, code0, s0, limit - left) == Next(View())
        invariant SelfCode(host, code0, s0, limit - left) == code[..]
        invariant forall k: nat :: k <= limit - left ==> !Exceeds(SelfRun(host, code0, s0, k))
      {
        ghost var c, s := code[..], View();
        status := Pass();
        SelfRunMore(host, code0, s0, limit - left, c, s);
        left := left - 1;
        if status != Running {
          if status != Overflowed {
            SelfRunStopped(host, code0, s0, limit - left);
          }
          return;
        }
      }
    }

    /** A state that does not fit the stacks. */
    ghost predicate Exceeds(o: Outcome) {
      o.Next? && !Room(o.s)
    }
  }

  /** A run that has stopped stays stopped. */
  lemma {:induction false} SelfRunStopped(h: Host, code: seq<Cell>, s: State, n: nat)
    requires BranchesLand(code) && !SelfRun(h, code, s, n).Next?
    ensures forall k: nat :: k >= n ==> SelfRun(h, code, s, k) == SelfRun(h, code, s, n)
    decreases n
  {
    hide Step, StepCode, BranchesLand;
    if Step(h, StepCode(code, s.ip), s).Next? {
      SelfRunStopped(h, StepCode(code, s.ip), Step(h, StepCode(code, s.ip), s).s, n - 1);
    }
  }

  /** One more pass at the end of a run. */
  lemma {:induction false} SelfRunMore(h: Host, code: seq<Cell>, s: State, n: nat, c1: seq<Cell>, s1: State)
    requires BranchesLand(code) && SelfRun(h, code, s, n) == Next(s1) && SelfCode(h, code, s, n) == c1
    ensures BranchesLand(c1)
    ensures SelfRun(h, code, s, n + 1) == Step(h, StepCode(c1, s1.ip), s1)
    ensures SelfCode(h, code, s, n + 1) == StepCode(c1, s1.ip)
    decreases n
  {
    hide Step, StepCode, BranchesLand;
    var d := StepCode(code, s.ip);
    if n == 0 {
      assert SelfRun(h, code, s, 1) == Step(h, d, s);
    } else {
      SelfRunMore(h, d, Step(h, d, s).s, n - 1, c1, s1);
    }
  }
}
