/**
  Whatever compiling words are used, in whatever order, a definition that reaches
  its `;` consists of whole instructions, and every branch and leave address lands on
  an instruction of that definition.  The only placeholder that can be left is the size
  of the frame of locals.
 */
module WellFormed {
  import opened Wrappers
  import opened Machine
  import opened Emitter

  predicate IsRel(op: Instr) {
    op.Branch? || op.Branch0? || op.Of? || op.Loop? || op.PlusLoop?
  }

  predicate IsAbs(op: Instr) {
    op.Do? || op.QDo?
  }

  predicate IsControl(c: Cell) {
    c.Op? && (IsRel(c.op) || IsAbs(c.op))
  }

  /** Where the control instruction at i can transfer to. */
  function Destination(cells: seq<Cell>, i: int): int
    requires 0 <= i < |cells| && IsControl(cells[i]) && HasNum(cells, i + 1)
  {
    if IsAbs(cells[i].op) then cells[i + 1].n else i + 1 + cells[i + 1].n
  }

  /** The number of cells of the instruction. */
  function Width(op: Instr): nat {
    if HasOperand(op) then 2 else 1
  }

  /** p is reached from start by stepping over whole instructions. */
  ghost predicate Boundary(cells: seq<Cell>, start: nat, p: int)
    decreases |cells| - start
  {
    start == p ||
    (0 <= start < |cells| && cells[start].Op? && Boundary(cells, start + Width(cells[start].op), p))
  }

  /** From start on, operand cells and instruction cells alternate as the instructions demand. */
  ghost predicate Aligned(cells: seq<Cell>, start: nat) {
    0 <= start <= |cells| &&
    (start < |cells| ==> cells[start].Op?) &&
    (forall i {:trigger cells[i]} :: start <= i < |cells| && cells[i].Op? ==>
      if HasOperand(cells[i].op) then HasNum(cells, i + 1) else i + 1 < |cells| ==> cells[i + 1].Op?) &&
    (forall i {:trigger cells[i]} :: start <= i < |cells| && cells[i].Num? ==> i + 1 < |cells| ==> cells[i + 1].Op?)
  }

  /** A place where an instruction is, or will be emitted next. */
  predicate Lands(cells: seq<Cell>, start: nat, t: int) {
    start <= t <= |cells| && (t < |cells| ==> cells[t].Op?)
  }

  /** Every control instruction is either open or lands. */
  ghost predicate CodeInv(start: nat, cells: seq<Cell>, open: set<int>) {
    Aligned(cells, start) &&
    forall i {:trigger IsControl(cells[i])} :: start <= i < |cells| && IsControl(cells[i]) ==>
      i + 1 in open || Lands(cells, start, Destination(cells, i))
  }

  /** a is the operand of a control instruction of the given kind. */
  predicate OperandOf(start: nat, cells: seq<Cell>, a: int, abs: bool) {
    start < a < |cells| && cells[a].Num? && IsControl(cells[a - 1]) && (IsAbs(cells[a - 1].op) <==> abs)
  }

  ghost predicate EntryOk(start: nat, cells: seq<Cell>, e: Entry) {
    match e
    case Colon => true
    case Orig(a) => OperandOf(start, cells, a, false)
    case Dest(a) => Lands(cells, start, a)
    case LeaveMark(a) => OperandOf(start, cells, a, true)
    case DoMark(a) => Lands(cells, start, a)
    case CaseSys(fixups) => forall k :: 0 <= k < |fixups| ==> OperandOf(start, cells, fixups[k], false)
    case OfMark(a) => OperandOf(start, cells, a, false)
    case Fall(a) => OperandOf(start, cells, a, false)
  }

  /** The placeholders an entry is responsible for. */
  function Holds(e: Entry): set<int> {
    match e
    case Orig(a) => {a}
    case LeaveMark(a) => {a}
    case OfMark(a) => {a}
    case Fall(a) => {a}
    case CaseSys(fixups) => set x | x in fixups
    case _ => {}
  }

  ghost predicate Held(ctl: seq<Entry>, a: int) {
    exists k :: 0 <= k < |ctl| && a in Holds(ctl[k])
  }

  /** The frame size is a placeholder too, which only the locals of the definition are responsible for. */
  predicate Framed(u: Unit, a: int) {
    a == u.fixup && (u.locals > 0 || !u.compiling)
  }

  ghost predicate CtlInv(u: Unit, loose: set<int>) {
    (forall k :: 0 <= k < |u.ctl| ==> EntryOk(u.start, u.cells, u.ctl[k])) &&
    (forall a :: a in u.open ==> a in loose || Held(u.ctl, a) || Framed(u, a)) &&
    (u.locals > 0 ==> u.start < u.fixup < |u.cells| && u.cells[u.fixup].Num? && u.cells[u.fixup - 1] == Op(Link))
  }

  /** The invariant inside a compiling word, which may hold the placeholders in `loose` itself. */
  ghost predicate InvBut(u: Unit, loose: set<int>) {
    CodeInv(u.start, u.cells, u.open) && CtlInv(u, loose)
  }

  /** The invariant between compiling words. */
  ghost predicate Inv(u: Unit) {
    InvBut(u, {})
  }

  /** c2 comes from c by appending instructions and rewriting operands. */
  ghost predicate Grows(start: nat, c: seq<Cell>, c2: seq<Cell>) {
    |c| <= |c2| && (|c| < |c2| ==> c2[|c|].Op?) &&
    (forall i {:trigger c2[i]} {:trigger c[i]} :: 0 <= i < |c| ==>
      (c[i].Op? ==> c2[i] == c[i]) && (c[i].Num? ==> c2[i].Num?))
  }

  lemma EntryGrows(start: nat, c: seq<Cell>, c2: seq<Cell>, e: Entry)
    requires EntryOk(start, c, e) && Grows(start, c, c2) && 0 <= start
    ensures EntryOk(start, c2, e)
  {
  }

  lemma EmitKeeps(u: Unit, op: Instr)
    requires CodeInv(u.start, u.cells, u.open) && !HasOperand(op)
    ensures CodeInv(u.start, Emit(u, op).cells, u.open) && Grows(u.start, u.cells, Emit(u, op).cells)
  {
    var c, c2 := u.cells, Emit(u, op).cells;
    forall i | u.start <= i < |c2| && IsControl(c2[i])
      ensures i + 1 in u.open || Lands(c2, u.start, Destination(c2, i))
    {
      assert IsControl(c[i]);
    }
  }

  /** Emitting a two-cell instruction whose operand is open or lands. */
  lemma Emit2Keeps(u: Unit, op: Instr, n: int, open2: set<int>)
    requires CodeInv(u.start, u.cells, u.open) && HasOperand(op)
    requires u.open <= open2
    requires (IsRel(op) || IsAbs(op)) ==>
      |u.cells| + 1 in open2 || (IsRel(op) && Lands(u.cells, u.start, |u.cells| + 1 + n))
    ensures CodeInv(u.start, Emit2(u, op, n).cells, open2) && Grows(u.start, u.cells, Emit2(u, op, n).cells)
  {
    hide Aligned;
    var c, c2 := u.cells, Emit2(u, op, n).cells;
    AlignedEmit2(c, u.start, op, n);
    forall i | u.start <= i < |c2| && IsControl(c2[i])
      ensures HasNum(c2, i + 1)
      ensures i + 1 in open2 || Lands(c2, u.start, Destination(c2, i))
    {
      OperandIn(c2, u.start, i);
      if i < |c| {
        assert c2[i] == c[i] && IsControl(c[i]);
        OperandIn(c, u.start, i);
        assert c2[i + 1] == c[i + 1];
      }
    }
  }

  lemma AlignedEmit2(c: seq<Cell>, start: nat, op: Instr, n: int)
    requires Aligned(c, start) && HasOperand(op)
    ensures Aligned(c + [Op(op), Num(n)], start)
  {
  }

  lemma OperandIn(c: seq<Cell>, start: nat, i: int)
    requires Aligned(c, start) && start <= i < |c| && IsControl(c[i])
    ensures HasNum(c, i + 1)
  {
  }

  /** Rewriting an operand cell keeps the instruction boundaries. */
  lemma AlignedPatch(cells: seq<Cell>, start: nat, a: int, v: int)
    requires Aligned(cells, start) && HasNum(cells, a)
    ensures Aligned(cells[a := Num(v)], start) && Grows(start, cells, cells[a := Num(v)])
  {
  }

  /** Rewriting one operand leaves the other control instructions as they were. */
  lemma PatchOthers(start: nat, cells: seq<Cell>, open: set<int>, a: int, v: int)
    requires CodeInv(start, cells, open) && HasNum(cells, a)
    requires a > start && IsControl(cells[a - 1]) ==> Lands(cells, start, Destination(cells[a := Num(v)], a - 1))
    ensures CodeInv(start, cells[a := Num(v)], open - {a})
  {
    var c2 := cells[a := Num(v)];
    AlignedPatch(cells, start, a, v);
    forall i | start <= i < |c2| && IsControl(c2[i])
      ensures i + 1 in open - {a} || Lands(c2, start, Destination(c2, i))
    {
      PatchOther(start, cells, open, a, v, i);
    }
  }

  lemma PatchOther(start: nat, cells: seq<Cell>, open: set<int>, a: int, v: int, i: int)
    requires CodeInv(start, cells, open) && HasNum(cells, a)
    requires a > start && IsControl(cells[a - 1]) ==> Lands(cells, start, Destination(cells[a := Num(v)], a - 1))
    requires start <= i < |cells| && IsControl(cells[a := Num(v)][i])
    ensures var c2 := cells[a := Num(v)];
            HasNum(c2, i + 1) && (i + 1 in open - {a} || Lands(c2, start, Destination(c2, i)))
  {
    assert IsControl(cells[i]);
    var t := Destination(cells[a := Num(v)], i);
    assert Lands(cells, start, t) ==> Lands(cells[a := Num(v)], start, t);
  }

  /** Patching an operand of a control instruction so that it lands. */
  lemma PatchKeeps(u: Unit, a: int, v: int, abs: bool)
    requires CodeInv(u.start, u.cells, u.open) && OperandOf(u.start, u.cells, a, abs)
    requires Lands(u.cells, u.start, if abs then v else a + v)
    ensures CodeInv(u.start, Patch(u, a, v).cells, Patch(u, a, v).open)
    ensures Grows(u.start, u.cells, Patch(u, a, v).cells) && |Patch(u, a, v).cells| == |u.cells|
    ensures Patch(u, a, v) == u.(cells := u.cells[a := Num(v)], open := u.open - {a})
  {
    AlignedPatch(u.cells, u.start, a, v);
    PatchOthers(u.start, u.cells, u.open, a, v);
  }

  /** Patching the operand of (link). */
  lemma PatchLinkKeeps(u: Unit, v: int)
    requires Inv(u) && u.locals > 0
    ensures Inv(Patch(u, u.fixup, v))
  {
    AlignedPatch(u.cells, u.start, u.fixup, v);
    PatchOthers(u.start, u.cells, u.open, u.fixup, v);
    var c2 := u.cells[u.fixup := Num(v)];
    forall k | 0 <= k < |u.ctl| ensures EntryOk(u.start, c2, u.ctl[k]) {
      EntryGrows(u.start, u.cells, c2, u.ctl[k]);
    }
  }

  // ---------------------------------------------------------------------
  // What the building blocks of the compiling words do to the invariant

  lemma CtlGrows(u: Unit, v: Unit, loose: set<int>)
    requires CtlInv(u, loose) && Grows(u.start, u.cells, v.cells)
    requires v.start == u.start && v.ctl == u.ctl && v.locals == u.locals && v.fixup == u.fixup && v.compiling == u.compiling
    ensures forall k :: 0 <= k < |v.ctl| ==> EntryOk(v.start, v.cells, v.ctl[k])
    ensures v.open <= u.open ==> CtlInv(v, loose)
  {
    forall k | 0 <= k < |v.ctl| ensures EntryOk(v.start, v.cells, v.ctl[k]) {
      EntryGrows(u.start, u.cells, v.cells, u.ctl[k]);
    }
  }

  lemma DropBut(u: Unit, loose: set<int>)
    requires InvBut(u, loose) && u.ctl != []
    ensures InvBut(Emitter.Drop(u, 1), loose + Holds(Top(u, 0)))
    ensures EntryOk(u.start, u.cells, Top(u, 0))
  {
    hide EntryOk, CodeInv, Holds;
    var v := Emitter.Drop(u, 1);
    forall a | a in v.open
      ensures a in loose + Holds(Top(u, 0)) || Held(v.ctl, a) || Framed(v, a)
    {
      if a !in loose && !Framed(u, a) {
        var k :| 0 <= k < |u.ctl| && a in Holds(u.ctl[k]);
        assert k < |v.ctl| ==> v.ctl[k] == u.ctl[k];
      }
    }
  }

  lemma Drop2But(u: Unit)
    requires Inv(u) && |u.ctl| >= 2
    ensures InvBut(Emitter.Drop(u, 2), Holds(Top(u, 0)) + Holds(Top(u, 1)))
    ensures EntryOk(u.start, u.cells, Top(u, 0)) && EntryOk(u.start, u.cells, Top(u, 1))
  {
    DropBut(u, {});
    var v := Emitter.Drop(u, 1);
    DropBut(v, {} + Holds(Top(u, 0)));
    assert Emitter.Drop(v, 1) == Emitter.Drop(u, 2);
    assert Top(v, 0) == Top(u, 1);
    assert {} + Holds(Top(u, 0)) + Holds(Top(u, 1)) == Holds(Top(u, 0)) + Holds(Top(u, 1));
  }

  lemma PushBut(u: Unit, e: Entry, loose: set<int>)
    requires InvBut(u, loose) && EntryOk(u.start, u.cells, e)
    ensures InvBut(Push(u, e), loose - Holds(e))
  {
    var v := Push(u, e);
    forall a | a in v.open
      ensures a in loose - Holds(e) || Held(v.ctl, a) || Framed(v, a)
    {
      assert v.ctl[|u.ctl|] == e;
      if a !in loose && !Framed(u, a) {
        var k :| 0 <= k < |u.ctl| && a in Holds(u.ctl[k]);
        assert v.ctl[k] == u.ctl[k];
      }
    }
  }

  lemma EmitBut(u: Unit, op: Instr, loose: set<int>)
    requires InvBut(u, loose) && !HasOperand(op)
    ensures InvBut(Emit(u, op), loose) && Grows(u.start, u.cells, Emit(u, op).cells)
  {
    EmitKeeps(u, op);
    CtlGrows(u, Emit(u, op), loose);
  }

  /** A two-cell instruction that is no control instruction. */
  lemma Emit2But(u: Unit, op: Instr, n: int)
    requires Inv(u) && HasOperand(op) && !IsRel(op) && !IsAbs(op)
    ensures Inv(Emit2(u, op, n)) && Grows(u.start, u.cells, Emit2(u, op, n).cells)
  {
    Emit2Keeps(u, op, n, u.open);
    CtlGrows(u, Emit2(u, op, n), {});
  }

  lemma BackBut(u: Unit, op: Instr, a: int, loose: set<int>)
    requires InvBut(u, loose) && IsRel(op) && Lands(u.cells, u.start, a)
    ensures InvBut(EmitBack(u, op, a), loose) && Grows(u.start, u.cells, EmitBack(u, op, a).cells)
  {
    hide CodeInv, CtlInv, Grows, Held, Holds, EntryOk;
    Emit2Keeps(u, op, a - (Here(u) + 1), u.open);
    CtlGrows(u, EmitBack(u, op, a), loose);
  }

  lemma OpenBut(u: Unit, op: Instr, placeholder: int, loose: set<int>)
    requires InvBut(u, loose) && (IsRel(op) || IsAbs(op))
    ensures InvBut(EmitOpen(u, op, placeholder), loose + {Here(u) + 1})
    ensures Grows(u.start, u.cells, EmitOpen(u, op, placeholder).cells)
    ensures OperandOf(u.start, EmitOpen(u, op, placeholder).cells, Here(u) + 1, IsAbs(op))
  {
    hide CodeInv, Grows, EntryOk, Aligned;
    var v := EmitOpen(u, op, placeholder);
    Emit2Keeps(u, op, placeholder, v.open);
    CtlOpens(u, v, loose);
    assert OperandOf(u.start, v.cells, Here(u) + 1, IsAbs(op)) by { StartBelow(u); }
  }

  lemma StartBelow(u: Unit)
    requires CodeInv(u.start, u.cells, u.open)
    ensures u.start <= |u.cells|
  {
  }

  /** A new placeholder is the word's own until an entry takes it. */
  lemma CtlOpens(u: Unit, v: Unit, loose: set<int>)
    requires CtlInv(u, loose) && Grows(u.start, u.cells, v.cells)
    requires v.start == u.start && v.ctl == u.ctl && v.locals == u.locals && v.fixup == u.fixup && v.compiling == u.compiling
    requires v.open == u.open + {|u.cells| + 1}
    ensures CtlInv(v, loose + {|u.cells| + 1})
  {
    CtlGrows(u, v, loose);
  }

  lemma PatchBut(u: Unit, a: int, v: int, abs: bool, loose: set<int>)
    requires InvBut(u, loose) && OperandOf(u.start, u.cells, a, abs)
    requires Lands(u.cells, u.start, if abs then v else a + v)
    ensures InvBut(Patch(u, a, v), loose - {a}) && Grows(u.start, u.cells, Patch(u, a, v).cells)
    ensures |Patch(u, a, v).cells| == |u.cells|
  {
    PatchKeeps(u, a, v, abs);
    CtlGrows(u, Patch(u, a, v), loose);
  }

  lemma {:induction false} FixupsBut(u: Unit, fixups: seq<int>, loose: set<int>)
    requires InvBut(u, loose)
    requires forall k :: 0 <= k < |fixups| ==> OperandOf(u.start, u.cells, fixups[k], false)
    ensures InvBut(PatchFixups(u, fixups), loose - (set x | x in fixups))
    decreases |fixups|
  {
    hide CodeInv, CtlInv, Grows;
    if fixups == [] {
      assert loose - (set x | x in fixups) == loose;
    } else {
      var a, rest := fixups[|fixups| - 1], fixups[..|fixups| - 1];
      var v := PatchRel(u, a);
      PatchBut(u, a, Here(u) - a, false, loose);
      forall k | 0 <= k < |rest| ensures OperandOf(v.start, v.cells, rest[k], false) {
        EntryGrows(u.start, u.cells, v.cells, Orig(fixups[k]));
      }
      FixupsBut(v, rest, loose - {a});
      assert fixups == rest + [a];
      assert loose - {a} - (set x | x in rest) == loose - (set x | x in fixups);
    }
  }

  // ---------------------------------------------------------------------
  // Every compiling word keeps the invariant

  /** Patch address a, taken from an entry that was right for cells c, to land here. */
  lemma PatchHere(u: Unit, c: seq<Cell>, e: Entry, a: int, loose: set<int>)
    requires InvBut(u, loose) && Grows(u.start, c, u.cells) && EntryOk(u.start, c, e)
    requires e == Orig(a) || e == OfMark(a) || e == Fall(a)
    ensures InvBut(PatchRel(u, a), loose - {a})
  {
    hide CodeInv, CtlInv, Grows, Held, Holds;
    EntryGrows(u.start, c, u.cells, e);
    PatchBut(u, a, Here(u) - a, false, loose);
  }

  lemma LoopEndKeeps(u: Unit, op: Instr)
    requires Inv(u) && IsRel(op)
    ensures EmitLoopEnd(u, op).Some? ==> Inv(EmitLoopEnd(u, op).value)
  {
    hide CodeInv, CtlInv, Grows;
    if Top(u, 0).DoMark? && Top(u, 1).LeaveMark? {
      var d, l := Top(u, 0).a, Top(u, 1).a;
      Drop2But(u);
      var u1 := Emitter.Drop(u, 2);
      BackBut(u1, op, d, {} + {l});
      var u2 := EmitBack(u1, op, d);
      EntryGrows(u.start, u1.cells, u2.cells, LeaveMark(l));
      PatchBut(u2, l, Here(u2), true, {} + {l});
      assert {} + {l} - {l} == {};
    }
  }

  lemma DoKeeps(u: Unit, op: Instr)
    requires Inv(u) && IsAbs(op)
    ensures Inv(EmitDo(u, op))
  {
    hide CodeInv, CtlInv, Grows;
    OpenBut(u, op, 0, {});
    var u1 := EmitOpen(u, op, 0);
    PushBut(u1, LeaveMark(Here(u) + 1), {} + {Here(u) + 1});
    assert {} + {Here(u) + 1} - {Here(u) + 1} == {};
    PushBut(Push(u1, LeaveMark(Here(u) + 1)), DoMark(Here(u) + 2), {});
    assert {} - Holds(DoMark(Here(u) + 2)) == {};
  }

  lemma OfKeeps(u: Unit)
    requires Inv(u)
    ensures EmitOf(u).Some? ==> Inv(EmitOf(u).value)
  {
    hide CodeInv, CtlInv, Grows;
    var at := Here(u) + 1;
    if Top(u, 0).CaseSys? {
      OpenBut(u, Of, 2, {});
      PushBut(EmitOpen(u, Of, 2), OfMark(at), {} + {at});
      assert {} + {at} - {at} == {};
    } else if Top(u, 0).Fall? && Top(u, 1).CaseSys? {
      var f := Top(u, 0).a;
      DropBut(u, {});
      var u1 := Emitter.Drop(u, 1);
      OpenBut(u1, Of, 2, {} + {f});
      var u2 := EmitOpen(u1, Of, 2);
      PushBut(u2, OfMark(at), {} + {f} + {at});
      PatchHere(Push(u2, OfMark(at)), u.cells, Fall(f), f, {} + {f} + {at} - {at});
      assert {} + {f} + {at} - {at} - {f} == {};
    }
  }

  lemma CaseSysGrows(start: nat, c: seq<Cell>, c2: seq<Cell>, fixups: seq<int>, a: int)
    requires EntryOk(start, c, CaseSys(fixups)) && Grows(start, c, c2) && OperandOf(start, c2, a, false)
    ensures EntryOk(start, c2, CaseSys(fixups)) && EntryOk(start, c2, CaseSys(fixups + [a]))
    ensures Holds(CaseSys(fixups + [a])) == Holds(CaseSys(fixups)) + {a}
  {
    EntryGrows(start, c, c2, CaseSys(fixups));
    var all := fixups + [a];
    assert all[|fixups|] == a;
    forall x | x in fixups ensures x in all {
      var k :| 0 <= k < |fixups| && fixups[k] == x;
      assert all[k] == x;
    }
  }

  lemma EndOfKeeps(u: Unit, fall: bool)
    requires Inv(u)
    ensures EmitEndOf(u, fall).Some? ==> Inv(EmitEndOf(u, fall).value)
  {
    hide CodeInv, CtlInv, Grows;
    if Top(u, 0).OfMark? && Top(u, 1).CaseSys? {
      var at, o, fx := Here(u) + 1, Top(u, 0).a, Top(u, 1).fixups;
      Drop2But(u);
      var u1 := Emitter.Drop(u, 2);
      var held := {o} + Holds(CaseSys(fx));
      OpenBut(u1, Branch(true), 2, held);
      var u2 := EmitOpen(u1, Branch(true), 2);
      CaseSysGrows(u.start, u.cells, u2.cells, fx, at);
      var e := if fall then CaseSys(fx) else CaseSys(fx + [at]);
      PushBut(u2, e, held + {at});
      var u3 := Push(u2, e);
      var loose := held + {at} - Holds(e);
      if fall {
        PushBut(u3, Fall(at), loose);
        PatchHere(Push(u3, Fall(at)), u.cells, OfMark(o), o, loose - {at});
        assert loose - {at} - {o} == {};
      } else {
        PatchHere(u3, u.cells, OfMark(o), o, loose);
        assert loose - {o} == {};
      }
    }
  }

  lemma EndCaseKeeps(u: Unit)
    requires Inv(u)
    ensures EmitEndCase(u).Some? ==> Inv(EmitEndCase(u).value)
  {
    hide CodeInv, CtlInv, Grows;
    if Top(u, 0).CaseSys? {
      var fx := Top(u, 0).fixups;
      DropBut(u, {});
      var u1 := Emitter.Drop(u, 1);
      EmitBut(u1, Machine.Drop, {} + Holds(CaseSys(fx)));
      var u2 := Emit(u1, Machine.Drop);
      EntryGrows(u.start, u.cells, u2.cells, CaseSys(fx));
      FixupsBut(u2, fx, {} + Holds(CaseSys(fx)));
      assert {} + Holds(CaseSys(fx)) - (set x | x in fx) == {};
    } else if Top(u, 0).Fall? && Top(u, 1).CaseSys? {
      var f, fx := Top(u, 0).a, Top(u, 1).fixups;
      Drop2But(u);
      var u1 := Emitter.Drop(u, 2);
      var held := {f} + Holds(CaseSys(fx));
      EmitBut(u1, Machine.Drop, held);
      var u2 := Emit(u1, Machine.Drop);
      EntryGrows(u.start, u.cells, u2.cells, Fall(f));
      CaseSysGrows(u.start, u.cells, u2.cells, fx, f);
      FixupsBut(u2, fx + [f], held);
      assert held - (set x | x in fx + [f]) == {} by {
        assert (set x | x in fx + [f]) == Holds(CaseSys(fx + [f]));
      }
    }
  }

  lemma ElseKeeps(u: Unit)
    requires Inv(u) && Top(u, 0).Orig?
    ensures Inv(PatchRel(Push(EmitOpen(Emitter.Drop(u, 1), Branch(true), 1), Orig(Here(u) + 1)), Top(u, 0).a))
  {
    hide CodeInv, CtlInv, Grows;
    var at, a := Here(u) + 1, Top(u, 0).a;
    DropBut(u, {});
    var u1 := Emitter.Drop(u, 1);
    OpenBut(u1, Branch(true), 1, {} + {a});
    var u2 := EmitOpen(u1, Branch(true), 1);
    PushBut(u2, Orig(at), {} + {a} + {at});
    PatchHere(Push(u2, Orig(at)), u.cells, Orig(a), a, {} + {a} + {at} - {at});
    assert {} + {a} + {at} - {at} - {a} == {};
  }

  lemma WhileKeeps(u: Unit)
    requires Inv(u) && Top(u, 0).Dest?
    ensures Inv(Push(Push(EmitOpen(Emitter.Drop(u, 1), Branch0(true), 1), Orig(Here(u) + 1)), Top(u, 0)))
  {
    hide CodeInv, CtlInv, Grows;
    var at, d := Here(u) + 1, Top(u, 0);
    DropBut(u, {});
    assert {} + Holds(d) == {};
    var u1 := Emitter.Drop(u, 1);
    OpenBut(u1, Branch0(true), 1, {});
    var u2 := EmitOpen(u1, Branch0(true), 1);
    PushBut(u2, Orig(at), {} + {at});
    assert {} + {at} - {at} == {};
    EntryGrows(u.start, u.cells, u2.cells, d);
    PushBut(Push(u2, Orig(at)), d, {});
    assert {} - Holds(d) == {};
  }

  lemma RepeatKeeps(u: Unit)
    requires Inv(u) && Top(u, 0).Dest? && Top(u, 1).Orig?
    ensures Inv(PatchRel(EmitBack(Emitter.Drop(u, 2), Branch(true), Top(u, 0).a), Top(u, 1).a))
  {
    hide CodeInv, CtlInv, Grows;
    var d, o := Top(u, 0).a, Top(u, 1).a;
    Drop2But(u);
    var u1 := Emitter.Drop(u, 2);
    assert Holds(Top(u, 0)) + Holds(Top(u, 1)) == {o};
    BackBut(u1, Branch(true), d, {o});
    PatchHere(EmitBack(u1, Branch(true), d), u.cells, Orig(o), o, {o});
    assert {o} - {o} == {};
  }

  /** UNTIL and AGAIN. */
  lemma BackKeeps(u: Unit, op: Instr)
    requires Inv(u) && Top(u, 0).Dest? && IsRel(op)
    ensures Inv(EmitBack(Emitter.Drop(u, 1), op, Top(u, 0).a))
  {
    DropBut(u, {});
    assert {} + Holds(Top(u, 0)) == {};
    BackBut(Emitter.Drop(u, 1), op, Top(u, 0).a, {});
  }

  lemma IfKeeps(u: Unit)
    requires Inv(u)
    ensures Inv(Push(EmitOpen(u, Branch0(true), 1), Orig(Here(u) + 1)))
  {
    var at := Here(u) + 1;
    OpenBut(u, Branch0(true), 1, {});
    PushBut(EmitOpen(u, Branch0(true), 1), Orig(at), {} + {at});
    assert {} + {at} - {at} == {};
  }

  lemma ThenKeeps(u: Unit)
    requires Inv(u) && Top(u, 0).Orig?
    ensures Inv(PatchRel(Emitter.Drop(u, 1), Top(u, 0).a))
  {
    var a := Top(u, 0).a;
    DropBut(u, {});
    PatchHere(Emitter.Drop(u, 1), u.cells, Orig(a), a, {} + {a});
    assert {} + {a} - {a} == {};
  }

  lemma ExitKeeps(u: Unit, op: Instr, loose: set<int>)
    requires InvBut(u, loose) && !HasOperand(op)
    ensures InvBut(EmitExit(u, op), loose)
  {
    if u.locals > 0 {
      EmitBut(u, Unlink, loose);
      EmitBut(Emit(u, Unlink), op, loose);
    } else {
      EmitBut(u, op, loose);
    }
  }

  /** A frame is linked at fixup, for n locals, and its size is open. */
  lemma LocalsCounted(u: Unit, fixup: int, n: nat)
    requires Inv(u) && u.start < fixup < |u.cells| && u.cells[fixup].Num? && u.cells[fixup - 1] == Op(Link)
    requires n > 0 && u.compiling && (u.locals == 0 || u.fixup == fixup)
    ensures Inv(u.(locals := n, fixup := fixup, open := u.open + {fixup}))
  {
    hide EntryOk, Held, Aligned;
  }

  lemma FixupInside(u: Unit)
    requires Inv(u) && u.locals > 0
    ensures u.start < u.fixup < |u.cells| && u.cells[u.fixup].Num? && u.cells[u.fixup - 1] == Op(Link)
  {
  }

  lemma StartBeforeEnd(u: Unit)
    requires Inv(u)
    ensures u.start <= |u.cells|
  {
  }

  lemma LocalsRenamed(u: Unit, fixup: int, n: nat, op: Instr, k: int)
    ensures Emit2(u.(fixup := fixup), op, k).(locals := n, open := u.open + {fixup}) ==
            Emit2(u, op, k).(locals := n, fixup := fixup, open := u.open + {fixup})
    ensures Emit2(u, op, k).open == u.open
  {
  }

  lemma NewLocalKeeps(u: Unit)
    requires Inv(u) && u.compiling
    ensures EmitNewLocal(u).Some? ==> Inv(EmitNewLocal(u).value)
  {
    hide InvBut;
    if u.locals < MAX_LOCALS {
      var v := if u.locals == 0 then Emit2(u, Link, 0) else u;
      var at := if u.locals == 0 then Here(u) + 1 else u.fixup;
      if u.locals == 0 {
        StartBeforeEnd(u);
        Emit2But(u, Link, 0);
      } else {
        FixupInside(u);
      }
      Emit2But(v, ToLocal, u.locals);
      LocalsCounted(Emit2(v, ToLocal, u.locals), at, u.locals + 1);
      LocalsRenamed(v, at, u.locals + 1, ToLocal, u.locals);
    }
  }

  lemma LocalKeeps(u: Unit, k: nat, zero: Instr, one: Instr, indexed: Instr)
    requires Inv(u) && !HasOperand(zero) && !HasOperand(one)
    requires HasOperand(indexed) && !IsRel(indexed) && !IsAbs(indexed)
    ensures EmitLocal(u, k, zero, one, indexed).Some? ==> Inv(EmitLocal(u, k, zero, one, indexed).value)
  {
    EmitBut(u, zero, {});
    EmitBut(u, one, {});
    Emit2But(u, indexed, k);
  }

  lemma BeginKeeps(u: Unit)
    requires Inv(u)
    ensures Inv(Push(u, Dest(Here(u))))
  {
    PushBut(u, Dest(Here(u)), {});
    assert {} - Holds(Dest(Here(u))) == {};
  }

  /** Every compiling word keeps the invariant. */
  lemma WordKeeps(u: Unit, w: Word)
    requires Inv(u) && CompileWord(u, w).Some?
    ensures Inv(CompileWord(u, w).value)
  {
    hide CodeInv, CtlInv, Grows;
    match w
    case If => IfKeeps(u);
    case Else => ElseKeeps(u);
    case Then => ThenKeeps(u);
    case Begin => BeginKeeps(u);
    case Until => BackKeeps(u, Branch0(true));
    case While => WhileKeeps(u);
    case Repeat => RepeatKeeps(u);
    case Again => BackKeeps(u, Branch(true));
    case DoWord => DoKeeps(u, Do);
    case QDoWord => DoKeeps(u, QDo);
    case LoopWord => LoopEndKeeps(u, Loop);
    case PlusLoopWord => LoopEndKeeps(u, PlusLoop);
    case Case => PushBut(u, CaseSys([]), {}); assert {} - Holds(CaseSys([])) == {};
    case OfWord => OfKeeps(u);
    case EndOf => EndOfKeeps(u, false);
    case Fallthrough => EndOfKeeps(u, true);
    case EndCase => EndCaseKeeps(u);
    case ExitWord => ExitKeeps(u, Exit, {});
    case SemiColon =>
      DropBut(u, {});
      assert {} + Holds(Colon) == {};
      ExitKeeps(Emitter.Drop(u, 1), Semi, {});
      ForgetLocals(EmitExit(Emitter.Drop(u, 1), Semi));
    case Lit(n) =>
      EmitBut(u, Small(n), {});
      Emit2But(u, Literal, n);
    case Compile(op) => if !HasOperand(op) { EmitBut(u, op, {}); }
    case NewLocal => NewLocalKeeps(u);
    case LocalsDone => if u.locals > 0 { PatchLinkKeeps(u, u.locals); }
    case LocalRef(k) => LocalKeeps(u, k, GetLocal0, GetLocal1, GetLocal);
    case LocalTo(k) => LocalKeeps(u, k, ToLocal0, ToLocal1, ToLocal);
  }

  lemma ForgetLocals(u: Unit)
    requires Inv(u)
    ensures Inv(u.(locals := 0, compiling := false))
  {
  }

  lemma {:induction false} WordsKeep(u: Unit, ws: seq<Word>)
    requires Inv(u) && CompileWords(u, ws).Some?
    ensures Inv(CompileWords(u, ws).value)
    decreases |ws|
  {
    hide InvBut, CompileWord;
    if ws != [] {
      WordKeeps(u, ws[0]);
      WordsKeep(CompileWord(u, ws[0]).value, ws[1..]);
    }
  }

  // ---------------------------------------------------------------------
  // The finished definition

  /** Branches are still in the form that the optimizer has not seen. */
  ghost predicate Fresh(start: nat, cells: seq<Cell>) {
    forall i {:trigger cells[i]} :: start <= i < |cells| && cells[i].Op? && (cells[i].op.Branch? || cells[i].op.Branch0?) ==>
      cells[i].op.check
  }

  /** While compiling, the colon tag is the bottom control item and the only one of its kind. */
  predicate Bottom(u: Unit) {
    if u.compiling then
      u.ctl != [] && u.ctl[0] == Colon && forall k :: 0 < k < |u.ctl| ==> u.ctl[k] != Colon
    else u.ctl == []
  }

  /** From c to c2 nothing before start changes, no instruction cell changes, operands stay operands,
      and no optimized branch appears. */
  ghost predicate Frame(start: nat, c: seq<Cell>, c2: seq<Cell>) {
    start <= |c| <= |c2| && c2[..start] == c[..start] && Grows(start, c, c2) && (Fresh(start, c) ==> Fresh(start, c2))
  }

  predicate OperandAt(u: Unit, a: int) {
    u.start < a < |u.cells| && u.cells[a].Num?
  }

  lemma PatchFrame(start: nat, c: seq<Cell>, u: Unit, a: int, n: int)
    requires Frame(start, c, u.cells) && u.start == start && OperandAt(u, a)
    ensures Frame(start, c, Patch(u, a, n).cells)
  {
  }

  lemma EmitFrame(start: nat, c: seq<Cell>, u: Unit, op: Instr)
    requires Frame(start, c, u.cells) && !HasOperand(op)
    ensures Frame(start, c, Emit(u, op).cells)
  {
  }

  lemma Emit2Frame(start: nat, c: seq<Cell>, u: Unit, op: Instr, n: int)
    requires Frame(start, c, u.cells) && (op.Branch? || op.Branch0? ==> op.check)
    ensures Frame(start, c, Emit2(u, op, n).cells)
  {
  }

  lemma {:induction false} FixupsFrame(start: nat, c: seq<Cell>, u: Unit, fixups: seq<int>)
    requires Frame(start, c, u.cells) && u.start == start && forall k :: 0 <= k < |fixups| ==> OperandAt(u, fixups[k])
    ensures Frame(start, c, PatchFixups(u, fixups).cells)
    ensures PatchFixups(u, fixups) == u.(cells := PatchFixups(u, fixups).cells, open := PatchFixups(u, fixups).open)
    decreases |fixups|
  {
    hide Frame;
    if fixups != [] {
      PatchFrame(start, c, u, fixups[|fixups| - 1], Here(u) - fixups[|fixups| - 1]);
      FixupsFrame(start, c, PatchRel(u, fixups[|fixups| - 1]), fixups[..|fixups| - 1]);
    }
  }

  /** v continues u with the top n control items replaced by es. */
  lemma BottomIs(u: Unit, v: Unit, n: nat, es: seq<Entry>)
    requires Bottom(u) && u.compiling && v.compiling && n < |u.ctl| && v.ctl == u.ctl[..|u.ctl| - n] + es
    requires forall k :: 0 <= k < |es| ==> es[k] != Colon
    ensures Bottom(v)
  {
  }

  lemma CaseBottom(u: Unit, w: Word)
    requires Bottom(u) && CompileWord(u, w).Some?
    requires w.DoWord? || w.QDoWord? || w.LoopWord? || w.PlusLoopWord? || w.OfWord? || w.EndOf? || w.Fallthrough?
    ensures Bottom(CompileWord(u, w).value) && CompileWord(u, w).value.start == u.start
  {
    var v, n := CompileWord(u, w).value, |u.ctl|;
    if w.DoWord? || w.QDoWord? {
      BottomIs(u, v, 0, [LeaveMark(Here(u) + 1), DoMark(Here(u) + 2)]);
    } else if w.LoopWord? || w.PlusLoopWord? {
      BottomIs(u, v, 2, []);
    } else if w.OfWord? {
      BottomIs(u, v, if Top(u, 0).Fall? then 1 else 0, [OfMark(Here(u) + 1)]);
    } else if w.EndOf? {
      BottomIs(u, v, 2, [CaseSys(Top(u, 1).fixups + [Here(u) + 1])]);
    } else {
      BottomIs(u, v, 2, [Top(u, 1), Fall(Here(u) + 1)]);
    }
  }

  lemma WordBottom(u: Unit, w: Word)
    requires Bottom(u) && CompileWord(u, w).Some? && !w.EndCase?
    ensures Bottom(CompileWord(u, w).value) && CompileWord(u, w).value.start == u.start
  {
    if w.DoWord? || w.QDoWord? || w.LoopWord? || w.PlusLoopWord? || w.OfWord? || w.EndOf? || w.Fallthrough? {
      CaseBottom(u, w);
    }
  }

  lemma EndCaseFrame(u: Unit)
    requires Inv(u) && Bottom(u) && u.compiling && EmitEndCase(u).Some?
    ensures Frame(u.start, u.cells, EmitEndCase(u).value.cells) && Bottom(EmitEndCase(u).value)
    ensures EmitEndCase(u).value.start == u.start
  {
    assert EntryOk(u.start, u.cells, Top(u, 0)) && EntryOk(u.start, u.cells, Top(u, 1));
    var two := Top(u, 0).Fall?;
    var u1 := Emitter.Drop(u, if two then 2 else 1);
    var fx := if two then Top(u, 1).fixups + [Top(u, 0).a] else Top(u, 0).fixups;
    assert Bottom(u1);
    EmitFrame(u.start, u.cells, u1, Machine.Drop);
    FixupsFrame(u.start, u.cells, Emit(u1, Machine.Drop), fx);
  }

  lemma EntryInside(u: Unit, e: Entry)
    requires Inv(u) && (e in u.ctl || e == Colon)
    ensures e.Orig? || e.LeaveMark? || e.OfMark? || e.Fall? ==> OperandAt(u, e.a)
  {
    assert EntryOk(u.start, u.cells, e);
  }

  /** Emit a two-cell instruction, then patch an address inside the definition. */
  lemma EmitPatchFrame(start: nat, c: seq<Cell>, u: Unit, op: Instr, n: int, a: int, m: int)
    requires u.cells == c && start == u.start && OperandAt(u, a) && (op.Branch? || op.Branch0? ==> op.check)
    ensures Frame(start, c, Patch(Emit2(u, op, n), a, m).cells)
  {
    Emit2Frame(start, c, u, op, n);
    PatchFrame(start, c, Emit2(u, op, n), a, m);
  }

  /** Words that end or continue a structure: their patch addresses lie in the definition. */
  lemma BranchWordFrame(u: Unit, w: Word)
    requires Inv(u) && CompileWord(u, w).Some? && (w.Else? || w.Then? || w.Repeat?)
    ensures Frame(u.start, u.cells, CompileWord(u, w).value.cells)
  {
    hide Frame, InvBut;
    var start, c, t0, t1 := u.start, u.cells, Top(u, 0), Top(u, 1);
    EntryInside(u, t0);
    EntryInside(u, t1);
    match w
    case Else => EmitPatchFrame(start, c, u, Branch(true), 1, t0.a, |c| + 2 - t0.a);
    case Then => StartInside(u); PatchFrame(start, c, u, t0.a, |c| - t0.a);
    case Repeat => EmitPatchFrame(start, c, u, Branch(true), t0.a - (|c| + 1), t1.a, |c| + 2 - t1.a);
  }

  lemma StartInside(u: Unit)
    requires Inv(u)
    ensures Frame(u.start, u.cells, u.cells)
  {
  }

  lemma LoopWordFrame(u: Unit, op: Instr)
    requires Inv(u) && EmitLoopEnd(u, op).Some? && (op.Loop? || op.PlusLoop?)
    ensures Frame(u.start, u.cells, EmitLoopEnd(u, op).value.cells)
  {
    var start, c, t0, t1 := u.start, u.cells, Top(u, 0), Top(u, 1);
    EntryInside(u, t1);
    EmitPatchFrame(start, c, u, op, t0.a - (|c| + 1), t1.a, |c| + 2);
  }

  lemma CaseWordFrame(u: Unit, fall: bool)
    requires Inv(u)
    ensures EmitOf(u).Some? ==> Frame(u.start, u.cells, EmitOf(u).value.cells)
    ensures EmitEndOf(u, fall).Some? ==> Frame(u.start, u.cells, EmitEndOf(u, fall).value.cells)
  {
    hide Frame, InvBut;
    var start, c, t0 := u.start, u.cells, Top(u, 0);
    EntryInside(u, t0);
    StartInside(u);
    Emit2Frame(start, c, u, Of, 2);
    if t0.Fall? {
      EmitPatchFrame(start, c, u, Of, 2, t0.a, |c| + 2 - t0.a);
    } else if t0.OfMark? {
      EmitPatchFrame(start, c, u, Branch(true), 2, t0.a, |c| + 2 - t0.a);
    }
  }

  /** Words that only append. */
  lemma AppendWordFrame(u: Unit, w: Word)
    requires Inv(u) && CompileWord(u, w).Some?
    requires w.If? || w.Begin? || w.Until? || w.While? || w.Again? || w.DoWord? || w.QDoWord? || w.Case?
    ensures Frame(u.start, u.cells, CompileWord(u, w).value.cells)
  {
    hide Frame, InvBut;
    var start, c := u.start, u.cells;
    StartInside(u);
    match w
    case If => Emit2Frame(start, c, u, Branch0(true), 1);
    case Until => Emit2Frame(start, c, u, Branch0(true), Top(u, 0).a - (|c| + 1));
    case While => Emit2Frame(start, c, u, Branch0(true), 1);
    case Again => Emit2Frame(start, c, u, Branch(true), Top(u, 0).a - (|c| + 1));
    case DoWord => Emit2Frame(start, c, u, Do, 0);
    case QDoWord => Emit2Frame(start, c, u, QDo, 0);
    case _ =>
  }

  lemma NewLocalFrame(u: Unit)
    requires Frame(u.start, u.cells, u.cells) && EmitNewLocal(u).Some?
    ensures Frame(u.start, u.cells, EmitNewLocal(u).value.cells)
  {
    hide Frame;
    Emit2Frame(u.start, u.cells, u, Link, 0);
    Emit2Frame(u.start, u.cells, Emit2(u, Link, 0), ToLocal, 0);
    Emit2Frame(u.start, u.cells, u, ToLocal, u.locals);
  }

  lemma PlainWordFrame(u: Unit, w: Word)
    requires Inv(u) && CompileWord(u, w).Some?
    requires w.ExitWord? || w.SemiColon? || w.Lit? || w.Compile? || w.NewLocal? || w.LocalsDone? || w.LocalRef? || w.LocalTo?
    ensures Frame(u.start, u.cells, CompileWord(u, w).value.cells)
  {
    hide Frame, InvBut;
    var start, c := u.start, u.cells;
    StartInside(u);
    match w
    case ExitWord => ExitFrame(start, c, u, Exit);
    case SemiColon => ExitFrame(start, c, Emitter.Drop(u, 1), Semi);
    case Lit(n) => EmitFrame(start, c, u, Small(n)); Emit2Frame(start, c, u, Literal, n);
    case Compile(op) => EmitFrame(start, c, u, op);
    case _ => LocalWordFrame(u, w);
  }

  lemma LocalWordFrame(u: Unit, w: Word)
    requires Inv(u) && CompileWord(u, w).Some?
    requires w.NewLocal? || w.LocalsDone? || w.LocalRef? || w.LocalTo?
    ensures Frame(u.start, u.cells, CompileWord(u, w).value.cells)
  {
    hide Frame, InvBut;
    StartInside(u);
    if u.locals > 0 {
      FixupInside(u);
    }
    match w
    case NewLocal => NewLocalFrame(u);
    case LocalsDone => if u.locals > 0 { PatchFrame(u.start, u.cells, u, u.fixup, u.locals); }
    case LocalRef(k) => LocalFrame(u, k, GetLocal0, GetLocal1, GetLocal);
    case LocalTo(k) => LocalFrame(u, k, ToLocal0, ToLocal1, ToLocal);
  }

  lemma LocalFrame(u: Unit, k: nat, zero: Instr, one: Instr, indexed: Instr)
    requires Frame(u.start, u.cells, u.cells) && !HasOperand(zero) && !HasOperand(one)
    requires !indexed.Branch? && !indexed.Branch0? && EmitLocal(u, k, zero, one, indexed).Some?
    ensures Frame(u.start, u.cells, EmitLocal(u, k, zero, one, indexed).value.cells)
  {
    EmitFrame(u.start, u.cells, u, zero);
    EmitFrame(u.start, u.cells, u, one);
    Emit2Frame(u.start, u.cells, u, indexed, k);
  }

  /** A compiling word changes nothing before the definition and emits no optimized branch. */
  lemma WordFrame(u: Unit, w: Word)
    requires Inv(u) && Bottom(u) && CompileWord(u, w).Some?
    ensures Frame(u.start, u.cells, CompileWord(u, w).value.cells) && Bottom(CompileWord(u, w).value)
    ensures CompileWord(u, w).value.start == u.start
  {
    if w.EndCase? {
      EndCaseFrame(u);
    } else {
      WordBottom(u, w);
      match w
      case Else => BranchWordFrame(u, w);
      case Then => BranchWordFrame(u, w);
      case Repeat => BranchWordFrame(u, w);
      case LoopWord => LoopWordFrame(u, Loop);
      case PlusLoopWord => LoopWordFrame(u, PlusLoop);
      case OfWord => CaseWordFrame(u, true);
      case EndOf => CaseWordFrame(u, false);
      case Fallthrough => CaseWordFrame(u, true);
      case If => AppendWordFrame(u, w);
      case Begin => AppendWordFrame(u, w);
      case Until => AppendWordFrame(u, w);
      case While => AppendWordFrame(u, w);
      case Again => AppendWordFrame(u, w);
      case DoWord => AppendWordFrame(u, w);
      case QDoWord => AppendWordFrame(u, w);
      case Case => AppendWordFrame(u, w);
      case _ => PlainWordFrame(u, w);
    }
  }

  lemma ExitFrame(start: nat, c: seq<Cell>, u: Unit, op: Instr)
    requires Frame(start, c, u.cells) && !HasOperand(op)
    ensures Frame(start, c, EmitExit(u, op).cells)
  {
    EmitFrame(start, c, u, op);
    EmitFrame(start, c, u, Unlink);
    EmitFrame(start, c, Emit(u, Unlink), op);
  }

  lemma FrameTrans(start: nat, a: seq<Cell>, b: seq<Cell>, c: seq<Cell>)
    requires Frame(start, a, b) && Frame(start, b, c)
    ensures Frame(start, a, c)
  {
    hide Fresh;
    assert c[..start] == b[..start];
  }

  lemma {:induction false} WordsFrame(u: Unit, ws: seq<Word>)
    requires Inv(u) && Bottom(u) && CompileWords(u, ws).Some?
    ensures Frame(u.start, u.cells, CompileWords(u, ws).value.cells) && Bottom(CompileWords(u, ws).value)
    ensures CompileWords(u, ws).value.start == u.start
    decreases |ws|
  {
    hide CompileWord, Bottom, Frame, InvBut;
    if ws == [] {
      StartInside(u);
    } else {
      var v := CompileWord(u, ws[0]).value;
      WordFrame(u, ws[0]);
      WordKeeps(u, ws[0]);
      WordsFrame(v, ws[1..]);
      FrameTrans(u.start, u.cells, v.cells, CompileWords(u, ws).value.cells);
    }
  }

  lemma {:induction false} BoundaryIsLater(cells: seq<Cell>, start: nat, p: int)
    requires Boundary(cells, start, p)
    ensures start <= p
    decreases |cells| - start
  {
    if start != p {
      BoundaryIsLater(cells, start + Width(cells[start].op), p);
    }
  }

  /** In an aligned region the instruction boundaries are exactly the instruction cells and the end. */
  lemma {:induction false} BoundariesAreOps(cells: seq<Cell>, start: nat, p: int)
    requires Aligned(cells, start) && start <= p <= |cells|
    ensures Boundary(cells, start, p) <==> p == |cells| || cells[p].Op?
    decreases |cells| - start
  {
    if start < p {
      var next := start + Width(cells[start].op);
      assert Aligned(cells, next);
      if p < next {
        assert p == start + 1 && cells[p].Num?;
        if Boundary(cells, next, p) {
          BoundaryIsLater(cells, next, p);
        }
      } else {
        BoundariesAreOps(cells, next, p);
      }
    }
  }

  /** Every control instruction from start on goes to an instruction of the same definition. */
  ghost predicate Closed(cells: seq<Cell>, start: nat) {
    Aligned(cells, start) &&
    forall i {:trigger IsControl(cells[i])} :: start <= i < |cells| && IsControl(cells[i]) ==>
      start <= Destination(cells, i) < |cells| && cells[Destination(cells, i)].Op? &&
      Boundary(cells, start, Destination(cells, i))
  }

  /** The state after `;`. */
  ghost predicate Finished(u: Unit) {
    u.ctl == [] && Closed(u.cells, u.start) && u.start < |u.cells| && u.cells[|u.cells| - 1] == Op(Semi)
  }

  /** At the end only the frame size can be open, so that all control instructions land. */
  lemma OnlyFrameOpen(u: Unit)
    requires Inv(u) && u.ctl == [Colon] && u.compiling
    ensures forall a :: a in u.open ==> u.locals > 0 && a == u.fixup
    ensures CodeInv(u.start, u.cells, {})
  {
    forall a | a in u.open
      ensures Framed(u, a)
    {
      assert !Held(u.ctl, a);
    }
  }

  lemma ExtensionLands(c: seq<Cell>, c2: seq<Cell>, start: nat, i: int)
    requires CodeInv(start, c, {}) && |c| < |c2| && c2[..|c|] == c && c2[|c|].Op?
    requires start <= i < |c| && IsControl(c2[i])
    ensures HasNum(c2, i + 1) && start <= Destination(c2, i) < |c2| && c2[Destination(c2, i)].Op?
  {
    assert c2[i] == c[i] && IsControl(c[i]);
    assert HasNum(c, i + 1) && c2[i + 1] == c[i + 1];
    var t := Destination(c, i);
    assert Lands(c, start, t);
    assert t < |c| ==> c2[t] == c[t];
  }

  /** When everything lands and code without control instructions is appended, the definition is closed. */
  lemma ExtensionCloses(c: seq<Cell>, c2: seq<Cell>, start: nat)
    requires CodeInv(start, c, {}) && Aligned(c2, start) && |c| < |c2| && c2[..|c|] == c && c2[|c|].Op?
    requires forall i :: |c| <= i < |c2| ==> !IsControl(c2[i])
    ensures Closed(c2, start)
  {
    forall i | start <= i < |c2| && IsControl(c2[i])
      ensures HasNum(c2, i + 1) && start <= Destination(c2, i) < |c2| && c2[Destination(c2, i)].Op?
      ensures Boundary(c2, start, Destination(c2, i))
    {
      hide CodeInv, Aligned, Boundary;
      ExtensionLands(c, c2, start, i);
      BoundariesAreOps(c2, start, Destination(c2, i));
    }
  }

  lemma SemiColonFinishes(u: Unit)
    requires Inv(u) && Bottom(u) && CompileWord(u, SemiColon).Some?
    ensures Finished(CompileWord(u, SemiColon).value)
  {
    assert u.ctl == [Colon];
    OnlyFrameOpen(u);
    var v := CompileWord(u, SemiColon).value;
    assert Aligned(v.cells, v.start) by { WordKeeps(u, SemiColon); }
    hide Aligned, Closed, CtlInv;
    ExtensionCloses(u.cells, v.cells, u.start);
  }

  lemma {:induction false} WordsFinish(u: Unit, ws: seq<Word>)
    requires Inv(u) && Bottom(u) && u.compiling
    requires CompileWords(u, ws).Some? && !CompileWords(u, ws).value.compiling
    ensures Finished(CompileWords(u, ws).value)
    decreases |ws|
  {
    hide InvBut, Bottom, Finished;
    var v := CompileWord(u, ws[0]).value;
    WordKeeps(u, ws[0]);
    WordFrame(u, ws[0]);
    if ws[0] == SemiColon {
      SemiColonFinishes(u);
      assert !v.compiling && ws[1..] == [];
    } else {
      OnlySemiColonStops(u, ws[0]);
      WordsFinish(v, ws[1..]);
    }
  }

  lemma {:induction false} FixupsCompile(u: Unit, fixups: seq<int>)
    ensures PatchFixups(u, fixups).compiling == u.compiling
    decreases |fixups|
  {
    if fixups != [] {
      FixupsCompile(PatchRel(u, fixups[|fixups| - 1]), fixups[..|fixups| - 1]);
    }
  }

  lemma OnlySemiColonStops(u: Unit, w: Word)
    requires CompileWord(u, w).Some? && w != SemiColon
    ensures CompileWord(u, w).value.compiling
  {
    if w.EndCase? {
      if Top(u, 0).CaseSys? {
        FixupsCompile(Emit(Emitter.Drop(u, 1), Machine.Drop), Top(u, 0).fixups);
      } else {
        FixupsCompile(Emit(Emitter.Drop(u, 2), Machine.Drop), Top(u, 1).fixups + [Top(u, 0).a]);
      }
    }
  }

  // ---------------------------------------------------------------------
  // The size of the frame

  /** A local is declared and no end-of-locals message follows. */
  ghost predicate LateLocal(ws: seq<Word>) {
    exists i :: 0 <= i < |ws| && ws[i].NewLocal? && forall j :: i < j < |ws| ==> !ws[j].LocalsDone?
  }

  /** The number of locals declared. */
  function Declared(ws: seq<Word>): nat {
    if ws == [] then 0 else (if ws[0].NewLocal? then 1 else 0) + Declared(ws[1..])
  }

  /** Is the frame size out of date after ws, if it was (or not) before? */
  function Stale(ws: seq<Word>, before: bool): bool {
    if ws == [] then before
    else Stale(ws[1..], ws[0].NewLocal? || (before && !ws[0].LocalsDone?))
  }

  predicate HasDone(ws: seq<Word>) {
    exists j :: 0 <= j < |ws| && ws[j].LocalsDone?
  }

  lemma {:induction false} StaleMeans(ws: seq<Word>, before: bool)
    ensures Stale(ws, before) <==> LateLocal(ws) || (before && !HasDone(ws))
    decreases |ws|
  {
    if ws != [] {
      var w, t := ws[0], ws[1..];
      StaleMeans(t, w.NewLocal? || (before && !w.LocalsDone?));
      assert forall j :: 0 <= j < |t| ==> t[j] == ws[j + 1];
      LateCons(w, t);
      assert ws == [w] + t;
    }
  }

  lemma LateCons(w: Word, t: seq<Word>)
    ensures LateLocal([w] + t) <==> LateLocal(t) || (w.NewLocal? && !HasDone(t))
    ensures HasDone([w] + t) <==> w.LocalsDone? || HasDone(t)
  {
    hide LateLocal, HasDone;
    DoneCons(w, t);
    LateBefore(w, t);
    if LateLocal([w] + t) {
      LateAfter(w, t);
    }
  }

  lemma DoneCons(w: Word, t: seq<Word>)
    ensures HasDone([w] + t) <==> w.LocalsDone? || HasDone(t)
  {
    var ws := [w] + t;
    assert ws[0] == w && forall j :: 0 <= j < |t| ==> ws[j + 1] == t[j];
    if HasDone(t) {
      var j :| 0 <= j < |t| && t[j].LocalsDone?;
      assert ws[j + 1].LocalsDone?;
    }
  }

  lemma LateBefore(w: Word, t: seq<Word>)
    ensures LateLocal(t) || (w.NewLocal? && !HasDone(t)) ==> LateLocal([w] + t)
  {
    var ws := [w] + t;
    if LateLocal(t) {
      var i :| 0 <= i < |t| && t[i].NewLocal? && forall j :: i < j < |t| ==> !t[j].LocalsDone?;
      LateAt(ws, i + 1);
    } else if w.NewLocal? && !HasDone(t) {
      LateAt(ws, 0);
    }
  }

  lemma LateAt(ws: seq<Word>, i: int)
    requires 0 <= i < |ws| && ws[i].NewLocal? && forall j :: i < j < |ws| ==> !ws[j].LocalsDone?
    ensures LateLocal(ws)
  {
  }

  lemma LateAfter(w: Word, t: seq<Word>)
    requires LateLocal([w] + t)
    ensures LateLocal(t) || (w.NewLocal? && !HasDone(t))
  {
    var ws := [w] + t;
    var i :| 0 <= i < |ws| && ws[i].NewLocal? && forall j :: i < j < |ws| ==> !ws[j].LocalsDone?;
    forall j | 0 <= j < |t| && i < j + 1
      ensures !t[j].LocalsDone?
    {
      assert ws[j + 1] == t[j];
    }
    if i > 0 {
      LateAt(t, i - 1);
    }
  }

  /** With n > 0 locals declared, the operand of (link) is n exactly when it is up to date; otherwise it is smaller. */
  ghost predicate Sized(u: Unit, n: nat, stale: bool) {
    (stale ==> n > 0) &&
    (n > 0 ==>
      OperandAt(u, u.fixup) && u.cells[u.fixup - 1] == Op(Link) && 0 <= u.cells[u.fixup].n <= n &&
      (u.cells[u.fixup].n == n <==> !stale) && (u.fixup in u.open <==> stale))
  }

  /** v has the same frame size, open or not, as u. */
  ghost predicate SameSize(u: Unit, v: Unit) {
    v.start == u.start && v.fixup == u.fixup && v.locals == u.locals && u.fixup < |u.cells| <= |v.cells| && 0 < u.fixup &&
    v.cells[u.fixup] == u.cells[u.fixup] && v.cells[u.fixup - 1] == u.cells[u.fixup - 1] &&
    (u.fixup in v.open <==> u.fixup in u.open)
  }

  /** An operand that a control item waits for is not the frame size. */
  lemma EntryNotFrame(u: Unit, e: Entry)
    requires Inv(u) && u.locals > 0 && (e in u.ctl || e == Colon)
    ensures e.Orig? || e.LeaveMark? || e.OfMark? || e.Fall? ==> e.a != u.fixup && e.a != u.fixup - 1
    ensures e.CaseSys? ==> forall k :: 0 <= k < |e.fixups| ==> e.fixups[k] != u.fixup && e.fixups[k] != u.fixup - 1
  {
    hide InvBut;
    EntryIsOk(u, e);
    FixupInside(u);
  }

  lemma EntryIsOk(u: Unit, e: Entry)
    requires Inv(u) && (e in u.ctl || e == Colon)
    ensures EntryOk(u.start, u.cells, e)
  {
    hide CodeInv, EntryOk;
    if e in u.ctl {
      var k :| 0 <= k < |u.ctl| && u.ctl[k] == e;
      assert EntryOk(u.start, u.cells, u.ctl[k]);
    } else {
      ColonIsOk(u.start, u.cells);
    }
  }

  lemma ColonIsOk(start: nat, cells: seq<Cell>)
    ensures EntryOk(start, cells, Colon)
  {
  }

  lemma {:induction false} FixupsSize(u: Unit, fixups: seq<int>)
    requires 0 < u.fixup < |u.cells| && forall k :: 0 <= k < |fixups| ==> fixups[k] != u.fixup && fixups[k] != u.fixup - 1
    ensures SameSize(u, PatchFixups(u, fixups))
    decreases |fixups|
  {
    if fixups != [] {
      FixupsSize(PatchRel(u, fixups[|fixups| - 1]), fixups[..|fixups| - 1]);
    }
  }

  lemma EndCaseSize(u: Unit)
    requires Inv(u) && u.locals > 0 && EmitEndCase(u).Some?
    ensures SameSize(u, EmitEndCase(u).value)
  {
    hide InvBut, PatchFixups;
    FixupInside(u);
    EntryNotFrame(u, Top(u, 0));
    EntryNotFrame(u, Top(u, 1));
    if Top(u, 0).CaseSys? {
      FixupsSize(Emit(Emitter.Drop(u, 1), Machine.Drop), Top(u, 0).fixups);
    } else {
      FixupsSize(Emit(Emitter.Drop(u, 2), Machine.Drop), Top(u, 1).fixups + [Top(u, 0).a]);
    }
  }

  /** Words that have nothing to do with locals leave the frame size alone. */
  lemma OtherWordsSize(u: Unit, w: Word)
    requires Inv(u) && u.locals > 0 && CompileWord(u, w).Some?
    requires !w.NewLocal? && !w.LocalsDone? && !w.SemiColon?
    ensures SameSize(u, CompileWord(u, w).value)
  {
    hide InvBut, SameSize;
    if w.EndCase? {
      EndCaseSize(u);
    } else if w.LoopWord? || w.PlusLoopWord? || w.OfWord? || w.EndOf? || w.Fallthrough? || w.DoWord? || w.QDoWord? || w.Case? {
      CaseWordSize(u, w);
    } else if w.If? || w.Else? || w.Then? || w.Begin? || w.Until? || w.While? || w.Repeat? || w.Again? {
      BranchWordSize(u, w);
    } else {
      PlainWordSize(u, w);
    }
  }

  lemma BranchWordSize(u: Unit, w: Word)
    requires Inv(u) && u.locals > 0 && CompileWord(u, w).Some?
    requires w.If? || w.Else? || w.Then? || w.Begin? || w.Until? || w.While? || w.Repeat? || w.Again?
    ensures SameSize(u, CompileWord(u, w).value)
  {
    hide InvBut;
    FixupInside(u);
    EntryNotFrame(u, Top(u, 0));
    EntryNotFrame(u, Top(u, 1));
  }

  lemma CaseWordSize(u: Unit, w: Word)
    requires Inv(u) && u.locals > 0 && CompileWord(u, w).Some?
    requires w.LoopWord? || w.PlusLoopWord? || w.OfWord? || w.EndOf? || w.Fallthrough? || w.DoWord? || w.QDoWord? || w.Case?
    ensures SameSize(u, CompileWord(u, w).value)
  {
    hide InvBut;
    FixupInside(u);
    EntryNotFrame(u, Top(u, 0));
    EntryNotFrame(u, Top(u, 1));
  }

  lemma PlainWordSize(u: Unit, w: Word)
    requires Inv(u) && u.locals > 0 && CompileWord(u, w).Some?
    requires w.ExitWord? || w.Lit? || w.Compile? || w.LocalRef? || w.LocalTo?
    ensures SameSize(u, CompileWord(u, w).value)
  {
    hide InvBut;
    FixupInside(u);
  }

  lemma OtherWordsLocals(u: Unit, w: Word)
    requires CompileWord(u, w).Some? && !w.NewLocal? && !w.SemiColon?
    ensures CompileWord(u, w).value.locals == u.locals
  {
    if w.EndCase? {
      if Top(u, 0).CaseSys? {
        FixupsLocals(Emit(Emitter.Drop(u, 1), Machine.Drop), Top(u, 0).fixups);
      } else {
        FixupsLocals(Emit(Emitter.Drop(u, 2), Machine.Drop), Top(u, 1).fixups + [Top(u, 0).a]);
      }
    }
  }

  lemma {:induction false} FixupsLocals(u: Unit, fixups: seq<int>)
    ensures PatchFixups(u, fixups).locals == u.locals
    decreases |fixups|
  {
    if fixups != [] {
      FixupsLocals(PatchRel(u, fixups[|fixups| - 1]), fixups[..|fixups| - 1]);
    }
  }

  lemma NewLocalSize(u: Unit, stale: bool)
    requires Inv(u) && Sized(u, u.locals, stale) && EmitNewLocal(u).Some?
    ensures var v := EmitNewLocal(u).value;
            v.locals == u.locals + 1 && Sized(v, v.locals, true)
  {
    StartBeforeEnd(u);
    hide InvBut;
  }

  lemma LocalsDoneSize(u: Unit, stale: bool)
    requires u.compiling && Sized(u, u.locals, stale)
    ensures var v := CompileWord(u, LocalsDone).value;
            v.locals == u.locals && Sized(v, v.locals, false)
  {
  }

  lemma SameSizeSized(u: Unit, v: Unit, n: nat, stale: bool)
    requires Sized(u, n, stale) && n > 0 && SameSize(u, v)
    ensures Sized(v, n, stale)
  {
  }

  /** Every word keeps track of whether the frame size is up to date. */
  lemma SizeStep(u: Unit, w: Word, stale: bool)
    requires Inv(u) && Sized(u, u.locals, stale) && CompileWord(u, w).Some? && !w.SemiColon?
    ensures var v := CompileWord(u, w).value;
            v.locals == u.locals + (if w.NewLocal? then 1 else 0) &&
            Sized(v, v.locals, w.NewLocal? || (stale && !w.LocalsDone?))
  {
    hide InvBut, EmitNewLocal, SameSize;
    if w.NewLocal? {
      NewLocalSize(u, stale);
    } else if w.LocalsDone? {
      LocalsDoneSize(u, stale);
    } else {
      OtherStep(u, w, stale);
    }
  }

  lemma OtherStep(u: Unit, w: Word, stale: bool)
    requires Inv(u) && Sized(u, u.locals, stale) && CompileWord(u, w).Some?
    requires !w.SemiColon? && !w.NewLocal? && !w.LocalsDone?
    ensures var v := CompileWord(u, w).value;
            v.locals == u.locals && Sized(v, v.locals, stale)
  {
    hide InvBut, CompileWord, SameSize;
    OtherWordsLocals(u, w);
    if u.locals > 0 {
      OtherWordsSize(u, w);
      SameSizeSized(u, CompileWord(u, w).value, u.locals, stale);
    }
  }

  lemma SemiColonSize(u: Unit, n: nat, stale: bool)
    requires Sized(u, n, stale) && Bottom(u) && CompileWord(u, SemiColon).Some? && Inv(u) && u.locals == n
    ensures Sized(CompileWord(u, SemiColon).value, n, stale)
    ensures CompileWord(u, SemiColon).value.open == {} <==> !stale
  {
    hide InvBut, CodeInv;
    OnlyFrameOpen(u);
    var v := CompileWord(u, SemiColon).value;
    assert v.open == u.open;
    if !stale {
      assert forall a :: a !in u.open;
      assert u.open == {};
    }
  }

  lemma {:induction false} WordsSize(u: Unit, ws: seq<Word>, stale: bool)
    requires Inv(u) && Bottom(u) && u.compiling && Sized(u, u.locals, stale)
    requires CompileWords(u, ws).Some? && !CompileWords(u, ws).value.compiling
    ensures var v := CompileWords(u, ws).value;
            Sized(v, u.locals + Declared(ws), Stale(ws, stale)) && (v.open == {} <==> !Stale(ws, stale))
    decreases |ws|
  {
    hide InvBut, Bottom, CompileWord, Sized;
    var v := CompileWord(u, ws[0]).value;
    WordKeeps(u, ws[0]);
    WordFrame(u, ws[0]);
    if ws[0] == SemiColon {
      SemiColonSize(u, u.locals, stale);
      SemiColonStops(u, ws);
    } else {
      OnlySemiColonStops(u, ws[0]);
      SizeStep(u, ws[0], stale);
      WordsSize(v, ws[1..], ws[0].NewLocal? || (stale && !ws[0].LocalsDone?));
    }
  }

  /** Nothing compiles after `;`. */
  lemma SemiColonStops(u: Unit, ws: seq<Word>)
    requires ws != [] && ws[0] == SemiColon && CompileWords(u, ws).Some?
    ensures ws == [SemiColon] && CompileWords(u, ws) == CompileWord(u, SemiColon)
  {
    CompileNothing(CompileWord(u, SemiColon).value, ws[1..]);
    assert ws == [ws[0]] + ws[1..];
  }

  lemma CompileNothing(u: Unit, ws: seq<Word>)
    requires !u.compiling
    ensures CompileWords(u, ws).Some? <==> ws == []
  {
  }

  /** For every sequence of compiling words from `:` to a successful `;`, structured or
      not: the control stack is used up, every branch offset and every leave address lands on
      an instruction boundary of this definition, memory before the definition is untouched,
      and no branch is in optimized form.  A placeholder is left exactly when a local is
      declared after the last end-of-locals message; it is the frame size, which is then
      smaller than the number of locals and otherwise equal to it. */
  lemma CompiledDefinitionIsWellFormed(memory: seq<Cell>, ws: seq<Word>, u: Unit)
    requires CompileWords(Start(memory), ws) == Some(u) && !u.compiling
    ensures Finished(u)
    ensures u.open == {} <==> !LateLocal(ws)
    ensures Declared(ws) > 0 ==>
              OperandAt(u, u.fixup) && u.cells[u.fixup - 1] == Op(Link) && 0 <= u.cells[u.fixup].n <= Declared(ws) &&
              (u.cells[u.fixup].n == Declared(ws) <==> !LateLocal(ws))
    ensures u.start == |memory| < |u.cells| && u.cells[..|memory|] == memory
    ensures Fresh(u.start, u.cells)
    ensures forall p :: u.start <= p < |u.cells| ==> (Boundary(u.cells, u.start, p) <==> u.cells[p].Op?)
  {
    hide InvBut, Bottom, Frame, Aligned, LateLocal, Stale, Finished, CompileWord, Sized;
    var u0 := Start(memory);
    StartIsRight(memory);
    WordsFinish(u0, ws);
    WordsFrame(u0, ws);
    FrameMeans(u0.start, u0.cells, u.cells);
    WordsSize(u0, ws, false);
    if Declared(ws) > 0 {
      SizedMeans(u, Declared(ws), Stale(ws, false));
    }
    StaleMeans(ws, false);
    FinishedMeans(u);
    forall p | u.start <= p < |u.cells|
      ensures Boundary(u.cells, u.start, p) <==> u.cells[p].Op?
    {
      BoundariesAreOps(u.cells, u.start, p);
    }
  }

  lemma StartIsRight(memory: seq<Cell>)
    ensures var u := Start(memory);
            Inv(u) && Bottom(u) && Fresh(u.start, u.cells) && Sized(u, 0, false)
  {
  }

  lemma FrameMeans(start: nat, c: seq<Cell>, c2: seq<Cell>)
    requires Frame(start, c, c2)
    ensures start <= |c| <= |c2| && c2[..start] == c[..start] && (Fresh(start, c) ==> Fresh(start, c2))
  {
  }

  lemma SizedMeans(u: Unit, n: nat, stale: bool)
    requires Sized(u, n, stale) && n > 0
    ensures OperandAt(u, u.fixup) && u.cells[u.fixup - 1] == Op(Link) && 0 <= u.cells[u.fixup].n <= n
    ensures u.cells[u.fixup].n == n <==> !stale
  {
  }

  lemma FinishedMeans(u: Unit)
    requires Finished(u)
    ensures Aligned(u.cells, u.start) && u.start < |u.cells|
  {
  }

  /** Behind every instruction but `;` there is another one. */
  lemma NextInstruction(u: Unit, p: int)
    requires Finished(u) && u.start <= p < |u.cells| && u.cells[p].Op?
    ensures HasOperand(u.cells[p].op) ==> p + 2 < |u.cells| && u.cells[p + 1].Num? && u.cells[p + 2].Op?
    ensures !HasOperand(u.cells[p].op) && u.cells[p].op != Semi ==> p + 1 < |u.cells| && u.cells[p + 1].Op?
  {
  }

  /** What Closed says of one control instruction. */
  lemma ClosedAt(u: Unit, p: int)
    requires Finished(u) && u.start <= p < |u.cells| && u.cells[p].Op?
    ensures u.cells[p].op.Branch? || u.cells[p].op.Branch0? || u.cells[p].op.Of? || u.cells[p].op.Loop? || u.cells[p].op.PlusLoop? ==>
              HasNum(u.cells, p + 1) &&
              u.start <= p + 1 + u.cells[p + 1].n < |u.cells| && u.cells[p + 1 + u.cells[p + 1].n].Op?
    ensures u.cells[p].op.Do? || u.cells[p].op.QDo? ==>
              HasNum(u.cells, p + 1) && u.start <= u.cells[p + 1].n < |u.cells| && u.cells[u.cells[p + 1].n].Op?
  {
    hide Aligned, Boundary;
    if IsControl(u.cells[p]) {
      assert HasOperand(u.cells[p].op);
      NextInstruction(u, p);
      var t := Destination(u.cells, p);
      assert u.start <= t < |u.cells| && u.cells[t].Op?;
    }
  }

  /** Running a finished definition: whatever the stacks hold, a step from one of its instructions goes to one of its
      instructions, unless it is a call or takes an address from the return stack; and what (do) and (?do) put there
      for LEAVE is one of its instructions, too. */
  lemma StepStaysInside(h: Host, u: Unit, s: State)
    requires Finished(u) && u.start <= s.ip < |u.cells| && u.cells[s.ip].Op? && Step(h, u.cells, s).Next?
    ensures var op, t := u.cells[s.ip].op, Step(h, u.cells, s).s;
            op.Call? || op.Exit? || op.Semi? || op.Leave? || (u.start <= t.ip < |u.cells| && u.cells[t.ip].Op?)
    ensures var op, t := u.cells[s.ip].op, Step(h, u.cells, s).s;
            op.Do? || (op.QDo? && |t.ret| > |s.ret|) ==>
              |t.ret| == |s.ret| + 3 && u.start <= t.ret[|s.ret|] < |u.cells| && u.cells[t.ret[|s.ret|]].Op?
    ensures var op, t := u.cells[s.ip].op, Step(h, u.cells, s).s;
            (op.Call? ==> t.ret == s.ret + [s.ip + 1] && s.ip + 1 < |u.cells| && u.cells[s.ip + 1].Op?) &&
            (op.Leave? ==> |s.ret| >= 3 && t.ip == s.ret[|s.ret| - 3])
  {
    hide Finished, LoopDone;
    NextInstruction(u, s.ip);
    ClosedAt(u, s.ip);
  }

  /** A definition takes 2048 locals and no more. */
  lemma {:induction false} ManyLocals(u: Unit, n: nat)
    requires u.compiling
    ensures CompileWords(u, seq(n, _ => NewLocal)).Some? <==> n == 0 || u.locals + n <= 2048
    decreases n
  {
    if n > 0 {
      assert seq(n, _ => NewLocal)[1..] == seq(n - 1, _ => NewLocal);
      if CompileWord(u, NewLocal).Some? {
        ManyLocals(CompileWord(u, NewLocal).value, n - 1);
      }
    }
  }

  /** Without the end-of-locals message the frame has no cells, and storing the local runs outside it. */
  lemma UnfinishedLocals(h: Host, x: int, frame: int, back: int)
    ensures var ws, cells := [NewLocal, SemiColon], [Op(Link), Num(0), Op(ToLocal), Num(0), Op(Unlink), Op(Semi)];
            LateLocal(ws) && CompileWords(Start([]), ws).Some? &&
            CompileWords(Start([]), ws).value.cells == cells && CompileWords(Start([]), ws).value.open == {1} &&
            Run(h, cells, State(0, [x], [back], frame), 2) == Crash
  {
    var ws, cells := [NewLocal, SemiColon], [Op(Link), Num(0), Op(ToLocal), Num(0), Op(Unlink), Op(Semi)];
    assert ws[0].NewLocal?;
    var u1 := CompileWord(Start([]), NewLocal).value;
    var u2 := CompileWord(u1, SemiColon).value;
    assert ws[1..] == [SemiColon] && ws[1..][1..] == [];
    assert CompileWords(u1, ws[1..]) == CompileWords(u2, []);
    assert u2.cells == cells;
    var s1 := State(2, [x], [back, frame], 2);
    assert Step(h, cells, State(0, [x], [back], frame)) == Next(s1);
    assert Step(h, cells, s1) == Crash;
    assert Run(h, cells, s1, 1) == Crash;
  }
}
