/**
  The compiling words of ficl/primitives.c as functions on a definition under
  construction: cells appended at "here", a control-flow stack (section 3.2.3.2
  of DPANS94) of pending patch addresses and branch targets, and back-patching.
 */
module Emitter {
  import opened Wrappers
  import opened Machine

  /** One control-flow stack item; the tag is the constructor. */
  datatype Entry =
    | Colon
    | Orig(a: int)            // operand of a forward branch
    | Dest(a: int)            // target of a backward branch
    | LeaveMark(a: int)       // operand of (do) or (?do)
    | DoMark(a: int)          // head of the loop
    | CaseSys(fixups: seq<int>)
    | OfMark(a: int)
    | Fall(a: int)            // operand of a FALLTHROUGH branch

  datatype Word =
    | If | Else | Then
    | Begin | Until | While | Repeat | Again
    | DoWord | QDoWord | LoopWord | PlusLoopWord
    | Case | OfWord | EndOf | Fallthrough | EndCase
    | ExitWord | SemiColon
    | Lit(n: int)
    | Compile(op: Instr)      // any word that is not immediate: its own one-cell instruction
    | NewLocal | LocalsDone
    | LocalRef(k: nat) | LocalTo(k: nat)

  /** A definition under construction.  `open` collects the addresses of operand
      cells that still hold a placeholder. */
  datatype Unit = Unit(start: nat, cells: seq<Cell>, ctl: seq<Entry>, locals: nat, fixup: int,
                       compiling: bool, open: set<int>)

  const MAX_LOCALS := 2048

  /** Colon: the header is already in `memory`, the body starts at its end. */
  function Start(memory: seq<Cell>): Unit {
    Unit(|memory|, memory, [Colon], 0, 0, true, {})
  }

  function Here(u: Unit): nat { |u.cells| }

  function Emit(u: Unit, op: Instr): Unit {
    u.(cells := u.cells + [Op(op)])
  }

  function Emit2(u: Unit, op: Instr, n: int): Unit {
    u.(cells := u.cells + [Op(op), Num(n)])
  }

  /** Emit an instruction whose operand is a placeholder to be patched later. */
  function EmitOpen(u: Unit, op: Instr, placeholder: int): Unit {
    Emit2(u, op, placeholder).(open := u.open + {Here(u) + 1})
  }

  /** Emit a branch back to address a: the offset is relative to the operand. */
  function EmitBack(u: Unit, op: Instr, a: int): Unit {
    Emit2(u, op, a - (Here(u) + 1))
  }

  /** Patch the operand at a. */
  function Patch(u: Unit, a: int, v: int): Unit {
    if 0 <= a < |u.cells| then u.(cells := u.cells[a := Num(v)], open := u.open - {a}) else u
  }

  /** Patch a forward branch to land here. */
  function PatchRel(u: Unit, a: int): Unit {
    Patch(u, a, Here(u) - a)
  }

  /** Patch a leave address to be here. */
  function PatchAbs(u: Unit, a: int): Unit {
    Patch(u, a, Here(u))
  }

  /** ENDCASE patches its fixups from the top of the stack downwards. */
  function PatchFixups(u: Unit, fixups: seq<int>): Unit
    decreases |fixups|
  {
    if fixups == [] then u
    else PatchFixups(PatchRel(u, fixups[|fixups| - 1]), fixups[..|fixups| - 1])
  }

  function Push(u: Unit, e: Entry): Unit {
    u.(ctl := u.ctl + [e])
  }

  function Drop(u: Unit, n: nat): Unit
    requires n <= |u.ctl|
  {
    u.(ctl := u.ctl[..|u.ctl| - n])
  }

  /** The k-th control item from the top; Colon below the bottom. */
  function Top(u: Unit, k: nat): Entry {
    if k < |u.ctl| then u.ctl[|u.ctl| - 1 - k] else Colon
  }

  /** LITERAL: small values have their own token. */
  function EmitLiteral(u: Unit, n: int): Unit {
    if -16 <= n <= 16 then Emit(u, Small(n)) else Emit2(u, Literal, n)
  }

  function EmitLoopEnd(u: Unit, op: Instr): Option<Unit> {
    if Top(u, 0).DoMark? && Top(u, 1).LeaveMark? then
      Some(PatchAbs(EmitBack(Drop(u, 2), op, Top(u, 0).a), Top(u, 1).a))
    else None
  }

  function EmitDo(u: Unit, op: Instr): Unit {
    Push(Push(EmitOpen(u, op, 0), LeaveMark(Here(u) + 1)), DoMark(Here(u) + 2))
  }

  /** OF, after a FALLTHROUGH if there is one on top of the control stack. */
  function EmitOf(u: Unit): Option<Unit> {
    if Top(u, 0).CaseSys? then
      Some(Push(EmitOpen(u, Of, 2), OfMark(Here(u) + 1)))
    else if Top(u, 0).Fall? && Top(u, 1).CaseSys? then
      Some(PatchRel(Push(EmitOpen(Drop(u, 1), Of, 2), OfMark(Here(u) + 1)), Top(u, 0).a))
    else None
  }

  /** ENDOF and FALLTHROUGH: a branch out of the clause, then patch its OF. */
  function EmitEndOf(u: Unit, fall: bool): Option<Unit> {
    if Top(u, 0).OfMark? && Top(u, 1).CaseSys? then
      var e := EmitOpen(Drop(u, 2), Branch(true), 2);
      var at := Here(u) + 1;
      Some(PatchRel(
        if fall then Push(Push(e, Top(u, 1)), Fall(at)) else Push(e, CaseSys(Top(u, 1).fixups + [at])),
        Top(u, 0).a))
    else None
  }

  function EmitEndCase(u: Unit): Option<Unit> {
    if Top(u, 0).CaseSys? then
      Some(PatchFixups(Emit(Drop(u, 1), Machine.Drop), Top(u, 0).fixups))
    else if Top(u, 0).Fall? && Top(u, 1).CaseSys? then
      Some(PatchFixups(Emit(Drop(u, 2), Machine.Drop), Top(u, 1).fixups + [Top(u, 0).a]))
    else None
  }

  function EmitExit(u: Unit, op: Instr): Unit {
    Emit(if u.locals > 0 then Emit(u, Unlink) else u, op)
  }

  /** (local) with a name: the first one links the frame, whose size is right only after the
      next end-of-locals message. */
  function EmitNewLocal(u: Unit): Option<Unit> {
    if u.locals >= MAX_LOCALS then None
    else
      var v := if u.locals == 0 then Emit2(u, Link, 0).(fixup := Here(u) + 1) else u;
      Some(Emit2(v, ToLocal, u.locals).(locals := u.locals + 1, open := v.open + {v.fixup}))
  }

  function EmitLocal(u: Unit, k: nat, zero: Instr, one: Instr, indexed: Instr): Option<Unit> {
    if k >= u.locals then None
    else if k == 0 then Some(Emit(u, zero))
    else if k == 1 then Some(Emit(u, one))
    else Some(Emit2(u, indexed, k))
  }

  /** The effect of one word while compiling; None when it throws. */
  function CompileWord(u: Unit, w: Word): Option<Unit> {
    if !u.compiling then None
    else
      match w
      case If => Some(Push(EmitOpen(u, Branch0(true), 1), Orig(Here(u) + 1)))
      case Else =>
        if Top(u, 0).Orig? then
          Some(PatchRel(Push(EmitOpen(Drop(u, 1), Branch(true), 1), Orig(Here(u) + 1)), Top(u, 0).a))
        else None
      case Then => if Top(u, 0).Orig? then Some(PatchRel(Drop(u, 1), Top(u, 0).a)) else None
      case Begin => Some(Push(u, Dest(Here(u))))
      case Until => if Top(u, 0).Dest? then Some(EmitBack(Drop(u, 1), Branch0(true), Top(u, 0).a)) else None
      case While =>
        if Top(u, 0).Dest? then
          Some(Push(Push(EmitOpen(Drop(u, 1), Branch0(true), 1), Orig(Here(u) + 1)), Top(u, 0)))
        else None
      case Repeat =>
        if Top(u, 0).Dest? && Top(u, 1).Orig? then
          Some(PatchRel(EmitBack(Drop(u, 2), Branch(true), Top(u, 0).a), Top(u, 1).a))
        else None
      case Again => if Top(u, 0).Dest? then Some(EmitBack(Drop(u, 1), Branch(true), Top(u, 0).a)) else None
      case DoWord => Some(EmitDo(u, Do))
      case QDoWord => Some(EmitDo(u, QDo))
      case LoopWord => EmitLoopEnd(u, Loop)
      case PlusLoopWord => EmitLoopEnd(u, PlusLoop)
      case Case => Some(Push(u, CaseSys([])))
      case OfWord => EmitOf(u)
      case EndOf => EmitEndOf(u, false)
      case Fallthrough => EmitEndOf(u, true)
      case EndCase => EmitEndCase(u)
      case ExitWord => Some(EmitExit(u, Exit))
      case SemiColon =>
        if u.ctl != [] && Top(u, 0).Colon? then
          Some(EmitExit(Drop(u, 1), Semi).(locals := 0, compiling := false))
        else None
      case Lit(n) => Some(EmitLiteral(u, n))
      case Compile(op) => if HasOperand(op) then None else Some(Emit(u, op))
      case NewLocal => EmitNewLocal(u)
      case LocalsDone => Some(if u.locals > 0 then Patch(u, u.fixup, u.locals) else u)
      case LocalRef(k) => EmitLocal(u, k, GetLocal0, GetLocal1, GetLocal)
      case LocalTo(k) => EmitLocal(u, k, ToLocal0, ToLocal1, ToLocal)
  }

  function CompileWords(u: Unit, ws: seq<Word>): Option<Unit>
    decreases |ws|
  {
    if ws == [] then Some(u)
    else
      match CompileWord(u, ws[0])
      case None => None
      case Some(v) => CompileWords(v, ws[1..])
  }
}
