/**
  The compiling words as ficl/primitives.c runs them: cells are appended at the end of
  the dictionary, and the control-flow stack is the data stack, a sequence of single
  cells holding addresses, counts and tags.
 */
module Compiler {
  import opened Wrappers
  import opened Machine
  import opened Emitter
  import W = WellFormed

  datatype Tag = ColonTag | OrigTag | DestTag | LeaveTag | DoTag | CaseTag | OfTag | FallTag

  datatype StackCell = Addr(a: int) | Count(n: nat) | TagCell(tag: Tag)

  /** The cells of one control-flow item; its tag is on top. */
  function Flat(e: Entry): (r: seq<StackCell>)
    ensures r != [] && r[|r| - 1].TagCell?
  {
    match e
    case Colon => [TagCell(ColonTag)]
    case Orig(a) => [Addr(a), TagCell(OrigTag)]
    case Dest(a) => [Addr(a), TagCell(DestTag)]
    case LeaveMark(a) => [Addr(a), TagCell(LeaveTag)]
    case DoMark(a) => [Addr(a), TagCell(DoTag)]
    case CaseSys(fixups) => Addrs(fixups) + [Count(|fixups|), TagCell(CaseTag)]
    case OfMark(a) => [Addr(a), TagCell(OfTag)]
    case Fall(a) => [Addr(a), TagCell(FallTag)]
  }

  function Addrs(s: seq<int>): (r: seq<StackCell>)
    ensures |r| == |s| && forall i :: 0 <= i < |s| ==> r[i] == Addr(s[i])
  {
    seq(|s|, i requires 0 <= i < |s| => Addr(s[i]))
  }

  function Flatten(ctl: seq<Entry>): (r: seq<StackCell>)
    ensures ctl != [] ==> r != []
  {
    if ctl == [] then [] else Flatten(ctl[..|ctl| - 1]) + Flat(ctl[|ctl| - 1])
  }

  lemma FlattenSnoc(ctl: seq<Entry>, e: Entry)
    ensures Flatten(ctl + [e]) == Flatten(ctl) + Flat(e)
  {
    assert (ctl + [e])[..|ctl|] == ctl;
  }

  lemma FlattenSnoc2(ctl: seq<Entry>, e: Entry, f: Entry)
    ensures Flatten(ctl + [e, f]) == Flatten(ctl) + Flat(e) + Flat(f)
  {
    hide Flatten, Flat;
    FlattenSnoc(ctl, e);
    FlattenSnoc(ctl + [e], f);
    assert ctl + [e] + [f] == ctl + [e, f];
  }

  /** The item with a tag that carries one address. */
  function Tagged(t: Tag, a: int): Entry
    requires t != ColonTag && t != CaseTag
  {
    match t
    case OrigTag => Orig(a)
    case DestTag => Dest(a)
    case LeaveTag => LeaveMark(a)
    case DoTag => DoMark(a)
    case OfTag => OfMark(a)
    case FallTag => Fall(a)
  }

  function AddrOf(e: Entry): int {
    match e
    case Colon => 0
    case CaseSys(_) => 0
    case _ => e.a
  }

  function TagOf(e: Entry): Tag {
    match e
    case Colon => ColonTag
    case Orig(_) => OrigTag
    case Dest(_) => DestTag
    case LeaveMark(_) => LeaveTag
    case DoMark(_) => DoTag
    case CaseSys(_) => CaseTag
    case OfMark(_) => OfTag
    case Fall(_) => FallTag
  }

  /** The topmost stack cell is the tag of the topmost item; its other cells lie below. */
  lemma TopTag(ctl: seq<Entry>)
    requires ctl != []
    ensures var s, e, rest := Flatten(ctl), ctl[|ctl| - 1], ctl[..|ctl| - 1];
            s != [] && s[|s| - 1] == TagCell(TagOf(e)) && s[..|s| - 1] == Flatten(rest) + Below(e)
  {
    var e, rest := ctl[|ctl| - 1], ctl[..|ctl| - 1];
    assert Flatten(ctl) == Flatten(rest) + (Below(e) + [TagCell(TagOf(e))]);
  }

  /** The cells of an item below its tag. */
  function Below(e: Entry): (r: seq<StackCell>)
    ensures Flat(e) == r + [TagCell(TagOf(e))]
  {
    match e
    case Colon => []
    case CaseSys(fixups) => Addrs(fixups) + [Count(|fixups|)]
    case _ => [Addr(e.a)]
  }

  lemma FlatTagged(tag: Tag, a: int)
    requires tag != ColonTag && tag != CaseTag
    ensures Flat(Tagged(tag, a)) == [Addr(a), TagCell(tag)]
  {
  }

  lemma FlattenColon()
    ensures Flatten([Colon]) == [TagCell(ColonTag)]
  {
    FlattenSnoc([], Colon);
    assert [] + [Colon] == [Colon];
  }

  lemma FlatPair(rest: seq<Entry>, d: Entry, o: Entry)
    requires d.Dest? && o.Orig?
    ensures Flatten(rest + [d, o]) == Flatten(rest) + [Addr(d.a), TagCell(DestTag), Addr(o.a), TagCell(OrigTag)]
    ensures Flatten(rest + [o, d]) == Flatten(rest) + [Addr(o.a), TagCell(OrigTag), Addr(d.a), TagCell(DestTag)]
  {
    hide Flatten;
    FlattenSnoc2(rest, d, o);
    FlattenSnoc2(rest, o, d);
  }

  lemma RolledDown(t: seq<StackCell>, s: seq<StackCell>, k: nat)
    requires k < |s| == |t| && t[k] == s[|s| - 1]
    requires forall i :: 0 <= i < k ==> t[i] == s[i]
    requires forall i :: k < i < |s| ==> t[i] == s[i - 1]
    ensures t == s[..k] + [s[|s| - 1]] + s[k..|s| - 1]
  {
  }

  lemma Rolled(t: seq<StackCell>, s: seq<StackCell>, k: nat)
    requires k < |s| == |t| && t[|s| - 1] == s[k]
    requires forall i :: 0 <= i < k ==> t[i] == s[i]
    requires forall i :: k <= i < |s| - 1 ==> t[i] == s[i + 1]
    ensures t == s[..k] + s[k + 1..] + [s[k]]
  {
  }

  /** Only the colon itself is at the bottom. */
  lemma NotLast(u: Unit)
    requires W.Bottom(u) && u.compiling
    ensures u.ctl != [] && (Top(u, 0) != Colon ==> |u.ctl| >= 2)
    ensures Top(u, 0) != Colon && Top(u, 1) != Colon ==> |u.ctl| >= 3
  {
  }

  lemma DropTwice(u: Unit)
    requires |u.ctl| >= 2
    ensures Emitter.Drop(Emitter.Drop(u, 1), 1) == Emitter.Drop(u, 2)
    ensures Top(Emitter.Drop(u, 1), 0) == Top(u, 1)
    ensures Emitter.Push(Emitter.Drop(u, 2), Top(u, 1)) == Emitter.Drop(u, 1)
  {
  }

  lemma DropShrinks(u: Unit)
    requires |u.ctl| >= 2
    ensures Emitter.Drop(u, 1).ctl != [] && Emitter.Drop(u, 1).cells == u.cells
  {
  }

  lemma PatchRelIs(u: Unit, a: int)
    ensures PatchRel(u, a) == Patch(u, a, |u.cells| - a)
  {
  }

  lemma DropBack(u: Unit, op: Instr, a: int)
    requires |u.ctl| >= 2
    ensures var v := EmitBack(Emitter.Drop(u, 1), op, a);
            v.ctl != [] && Emitter.Drop(v, 1) == EmitBack(Emitter.Drop(u, 2), op, a) && Top(v, 0) == Top(u, 1) &&
            Here(v) == Here(Emitter.Drop(v, 1))
  {
    DropTwice(u);
  }

  lemma OpenPush(u: Unit, e: Entry, op: Instr, n: int)
    ensures EmitOpen(Emitter.Push(u, e), op, n) == Emitter.Push(EmitOpen(u, op, n), e)
    ensures Here(Emitter.Push(u, e)) == Here(u)
  {
  }

  /** The topmost item with a tag that carries one address. */
  lemma TopMarked(ctl: seq<Entry>, want: Tag)
    requires ctl != [] && want != ColonTag && want != CaseTag
    ensures var s, e, rest := Flatten(ctl), ctl[|ctl| - 1], ctl[..|ctl| - 1];
            s != [] && (s[|s| - 1] == TagCell(want) <==> TagOf(e) == want) &&
            (TagOf(e) == want ==>
               s[..|s| - 1] == Flatten(rest) + [Addr(AddrOf(e))] && e == Tagged(want, AddrOf(e)))
  {
    TopTag(ctl);
  }

  /** The words that end a structure, by their specifications. */
  lemma EndWords(u: Unit)
    requires u.compiling
    ensures CompileWord(u, LoopWord) == EmitLoopEnd(u, Loop) && CompileWord(u, PlusLoopWord) == EmitLoopEnd(u, PlusLoop)
    ensures CompileWord(u, EndOf) == EmitEndOf(u, false) && CompileWord(u, Fallthrough) == EmitEndOf(u, true)
    ensures CompileWord(u, OfWord) == EmitOf(u) && CompileWord(u, EndCase) == EmitEndCase(u)
    ensures CompileWord(u, Repeat) ==
              if Top(u, 0).Dest? && Top(u, 1).Orig? then
                Some(PatchRel(EmitBack(Emitter.Drop(u, 2), Branch(true), Top(u, 0).a), Top(u, 1).a))
              else None
  {
  }

  lemma TagIs(e: Entry)
    ensures TagOf(e) == OfTag <==> e.OfMark?
    ensures TagOf(e) == DestTag <==> e.Dest?
    ensures TagOf(e) == OrigTag <==> e.Orig?
    ensures TagOf(e) == DoTag <==> e.DoMark?
    ensures TagOf(e) == LeaveTag <==> e.LeaveMark?
    ensures !e.Colon? && !e.CaseSys? ==> AddrOf(e) == e.a
  {
  }

  lemma {:induction false} FixupsKeepRest(u: Unit, fx: seq<int>)
    ensures PatchFixups(u, fx) == u.(cells := PatchFixups(u, fx).cells, open := PatchFixups(u, fx).open)
    decreases |fx|
  {
    if fx != [] {
      FixupsKeepRest(PatchRel(u, fx[|fx| - 1]), fx[..|fx| - 1]);
    }
  }

  class Definition {
    const start: nat
    var cells: seq<Cell>
    var stack: seq<StackCell>
    var locals: nat
    var fixup: int
    var compiling: bool
    ghost var ctl: seq<Entry>       // the control-flow items on the stack
    ghost var open: set<int>        // operands that still hold a placeholder

    ghost function View(): Unit
      reads this
    {
      Unit(start, cells, ctl, locals, fixup, compiling, open)
    }

    /** The stack cells are those of the control-flow items. */
    ghost predicate Synced()
      reads this
    {
      stack == Flatten(ctl)
    }

    ghost predicate Valid()
      reads this
    {
      Synced() && W.Bottom(View())
    }

    /** What a word does: it succeeds, and changes the definition, as its specification says. */
    twostate predicate Did(w: Word, ok: bool)
      reads this
    {
      var r := CompileWord(old(View()), w);
      (ok <==> r.Some?) && (ok ==> Valid() && View() == r.value)
    }

    /** Colon. */
    constructor (memory: seq<Cell>)
      ensures Valid() && View() == Start(memory)
    {
      hide Flatten, Flat;
      start, cells := |memory|, memory;
      stack, ctl := [TagCell(ColonTag)], [Colon];
      locals, fixup, compiling, open := 0, 0, true, {};
      new;
      FlattenColon();
    }

    // -------------------------------------------------------------------
    // Cells

    method Append(c: Cell)
      modifies `cells
      ensures cells == old(cells) + [c]
    {
      cells := cells + [c];
    }

    method AppendTwo(op: Instr, n: int)
      modifies `cells
      ensures View() == Emit2(old(View()), op, n)
    {
      cells := cells + [Op(op)];
      cells := cells + [Num(n)];
      assert cells == old(cells) + [Op(op), Num(n)];
    }

    method SetOperand(at: int, v: int)
      modifies `cells, `open
      ensures View() == Patch(old(View()), at, v)
    {
      if 0 <= at < |cells| {
        cells := cells[at := Num(v)];
        open := open - {at};
      }
    }

    // -------------------------------------------------------------------
    // The control-flow stack

    /** Push "here" and a tag. */
    method MarkBranch(tag: Tag)
      requires Synced() && tag != ColonTag && tag != CaseTag
      modifies `stack, `ctl
      ensures Synced() && View() == Emitter.Push(old(View()), Tagged(tag, |cells|))
    {
      hide Flatten, Flat;
      FlattenSnoc(ctl, Tagged(tag, |cells|));
      FlatTagged(tag, |cells|);
      stack := stack + [Addr(|cells|)];
      stack := stack + [TagCell(tag)];
      assert stack == old(stack) + [Addr(|cells|), TagCell(tag)];
      ctl := ctl + [Tagged(tag, |cells|)];
    }

    method MatchControlTag(want: Tag) returns (ok: bool)
      requires stack != []
      modifies `stack
      ensures stack == old(stack)[..|old(stack)| - 1]
      ensures ok <==> old(stack)[|old(stack)| - 1] == TagCell(want)
    {
      ok := stack[|stack| - 1] == TagCell(want);
      stack := stack[..|stack| - 1];
    }

    /** Match the tag of the topmost item and take its address off. */
    method PopMarked(want: Tag) returns (ok: bool, a: int)
      requires Synced() && ctl != [] && want != ColonTag && want != CaseTag
      modifies `stack, `ctl
      ensures ok <==> TagOf(Top(old(View()), 0)) == want
      ensures ok ==> Synced() && View() == Emitter.Drop(old(View()), 1) && Top(old(View()), 0) == Tagged(want, a)
      ensures ok ==> a == AddrOf(Top(old(View()), 0))
    {
      hide Flatten, Flat, TagOf, AddrOf, Tagged;
      TopMarked(ctl, want);
      ghost var rest := Flatten(ctl[..|ctl| - 1]);
      a := 0;
      ok := MatchControlTag(want);
      if ok {
        assert stack[..|stack| - 1] == rest;
        a := stack[|stack| - 1].a;
        stack := stack[..|stack| - 1];
        ctl := ctl[..|ctl| - 1];
      }
    }

    /** Match a CASE tag and put it back. */
    method MatchCase() returns (ok: bool)
      requires Synced() && ctl != []
      modifies `stack
      ensures ok <==> Top(View(), 0).CaseSys?
      ensures ok ==> Synced()
    {
      hide Flatten, Flat;
      TopTag(ctl);
      ok := MatchControlTag(CaseTag);
      if ok {
        stack := stack + [TagCell(CaseTag)];
      }
    }

    /** Take a pending FALLTHROUGH off, if there is one on top. */
    method TakeFall() returns (falls: bool, patch: int)
      requires Synced() && ctl != []
      modifies `stack, `ctl
      ensures Synced() && (falls <==> Top(old(View()), 0).Fall?)
      ensures View() == if falls then Emitter.Drop(old(View()), 1) else old(View())
      ensures falls ==> patch == Top(old(View()), 0).a
    {
      hide Flatten;
      TopTag(ctl);
      falls, patch := stack[|stack| - 1] == TagCell(FallTag), 0;
      if falls {
        falls, patch := PopMarked(FallTag);
      }
    }

    /** Take a CASE item apart: its fixups stay on the stack. */
    method PopCase() returns (ok: bool, count: nat)
      requires Synced() && ctl != []
      modifies `stack, `ctl
      ensures ok <==> Top(old(View()), 0).CaseSys?
      ensures ok ==> View() == Emitter.Drop(old(View()), 1) && count == |Top(old(View()), 0).fixups| &&
                     stack == Flatten(ctl) + Addrs(Top(old(View()), 0).fixups)
    {
      hide Flatten, Flat;
      TopTag(ctl);
      count := 0;
      ok := MatchControlTag(CaseTag);
      if ok {
        ghost var fx := Top(View(), 0).fixups;
        assert stack == Flatten(ctl[..|ctl| - 1]) + Addrs(fx) + [Count(|fx|)];
        count := stack[|stack| - 1].n;
        stack := stack[..|stack| - 1];
        ctl := ctl[..|ctl| - 1];
      }
    }

    /** Push an address on top of fixups that are on the stack. */
    method PushFixup(a: int, ghost fx: seq<int>)
      requires stack == Flatten(ctl) + Addrs(fx)
      modifies `stack
      ensures stack == Flatten(ctl) + Addrs(fx + [a])
    {
      stack := stack + [Addr(a)];
      assert Addrs(fx + [a]) == Addrs(fx) + [Addr(a)];
    }

    /** Make a CASE item of the fixups on the stack. */
    method PushCase(count: nat, ghost fx: seq<int>)
      requires stack == Flatten(ctl) + Addrs(fx) && count == |fx|
      modifies `stack, `ctl
      ensures Synced() && View() == Emitter.Push(old(View()), CaseSys(fx))
    {
      hide Flatten;
      FlattenSnoc(ctl, CaseSys(fx));
      stack := stack + [Count(count)];
      stack := stack + [TagCell(CaseTag)];
      assert stack == Flatten(ctl) + Flat(CaseSys(fx));
      ctl := ctl + [CaseSys(fx)];
    }

    /** Roll the n-th stack cell, counted from zero at the top, to the top; a negative n rolls the top cell down. */
    method Roll(n: int)
      requires -|stack| < n < |stack|
      modifies `stack
      ensures var s := old(stack);
              var k := |s| - 1 - (if n >= 0 then n else -n);
              stack == if n >= 0 then s[..k] + s[k + 1..] + [s[k]]
                       else s[..k] + [s[|s| - 1]] + s[k..|s| - 1]
    {
      if n > 0 {
        RollUp(n);
      } else if n < 0 {
        RollDown(-n);
      }
    }

    method RollUp(n: nat)
      requires n < |stack|
      modifies `stack
      ensures var s := old(stack);
              var k := |s| - 1 - n;
              stack == s[..k] + s[k + 1..] + [s[k]]
    {
      ghost var s := stack;
      ghost var k := |s| - 1 - n;
      var at := |stack| - 1 - n;
      var c := stack[at];
      var left := n;
      while left > 0
        invariant 0 <= left <= n && at == |s| - 1 - left && |stack| == |s|
        invariant forall i :: k <= i < at ==> stack[i] == s[i + 1]
        invariant forall i :: 0 <= i < k || at <= i < |s| ==> stack[i] == s[i]
      {
        stack := stack[at := stack[at + 1]];
        left, at := left - 1, at + 1;
      }
      stack := stack[at := c];
      Rolled(stack, s, k);
    }

    method RollDown(n: nat)
      requires n < |stack|
      modifies `stack
      ensures var s := old(stack);
              var k := |s| - 1 - n;
              stack == s[..k] + [s[|s| - 1]] + s[k..|s| - 1]
    {
      ghost var s := stack;
      ghost var k := |s| - 1 - n;
      var at := |stack| - 1;
      var c := stack[at];
      var left := n;
      while left > 0
        invariant 0 <= left <= n && at == k + left && |stack| == |s|
        invariant forall i :: at < i < |s| ==> stack[i] == s[i - 1]
        invariant forall i :: 0 <= i <= at ==> stack[i] == s[i]
      {
        stack := stack[at := stack[at - 1]];
        left, at := left - 1, at - 1;
      }
      stack := stack[at := c];
      RolledDown(stack, s, k);
    }

    /** The two rolls of WHILE exchange the two topmost items. */
    method SwapPairs()
      requires Synced() && |ctl| >= 2 && Top(View(), 0).Orig? && Top(View(), 1).Dest?
      modifies `stack, `ctl
      ensures Synced()
      ensures View() == Emitter.Push(Emitter.Push(Emitter.Drop(old(View()), 2), Top(old(View()), 0)), Top(old(View()), 1))
    {
      hide Flatten, Flat;
      ghost var rest, d, o := ctl[..|ctl| - 2], ctl[|ctl| - 2], ctl[|ctl| - 1];
      assert ctl == rest + [d, o] && rest + [o] + [d] == rest + [o, d];
      FlatPair(rest, d, o);
      RollTwice(Flatten(rest), Addr(d.a), TagCell(DestTag), Addr(o.a), TagCell(OrigTag));
      ctl := rest + [o, d];
    }

    method RollTwice(ghost low: seq<StackCell>, ghost a: StackCell, ghost b: StackCell, ghost c: StackCell, ghost d: StackCell)
      requires stack == low + [a, b, c, d]
      modifies `stack
      ensures stack == low + [c, d, a, b]
    {
      Roll(3);
      assert stack == low + [b, c, d, a];
      Roll(3);
    }

    // -------------------------------------------------------------------
    // Building blocks of the words

    /** An instruction with a placeholder operand, whose address goes on the stack with a tag. */
    method EmitPending(op: Instr, tag: Tag, placeholder: int)
      requires Synced() && tag != ColonTag && tag != CaseTag
      modifies this
      ensures Synced()
      ensures View() == Emitter.Push(EmitOpen(old(View()), op, placeholder), Tagged(tag, |old(cells)| + 1))
    {
      hide Flatten, Flat;
      Append(Op(op));
      PendingOperand(tag, placeholder);
      assert cells == old(cells) + [Op(op), Num(placeholder)];
    }

    /** The operand of an instruction just appended: a placeholder to be patched. */
    method PendingOperand(tag: Tag, placeholder: int)
      requires Synced() && tag != ColonTag && tag != CaseTag
      modifies this
      ensures Synced()
      ensures View() == Emitter.Push(old(View()), Tagged(tag, |old(cells)|))
                        .(cells := old(cells) + [Num(placeholder)], open := old(open) + {|old(cells)|})
    {
      hide Flatten, Flat;
      MarkBranch(tag);
      open := open + {|cells|};
      Append(Num(placeholder));
    }

    /** Append the offset back to the target on the stack. */
    method ResolveBackBranch(tag: Tag) returns (ok: bool)
      requires Synced() && ctl != [] && tag != ColonTag && tag != CaseTag
      modifies this
      ensures ok <==> TagOf(Top(old(View()), 0)) == tag
      ensures ok ==> Synced()
      ensures ok ==>
        View() == Emitter.Drop(old(View()), 1).(cells := old(cells) + [Num(AddrOf(Top(old(View()), 0)) - |old(cells)|)])
    {
      hide Flatten, Flat;
      var target;
      ok, target := PopMarked(tag);
      if ok {
        Append(Num(target - |cells|));
      }
    }

    /** A branch instruction back to the target on the stack. */
    method BranchBack(op: Instr, tag: Tag) returns (ok: bool)
      requires Synced() && ctl != [] && tag != ColonTag && tag != CaseTag
      modifies this
      ensures ok <==> TagOf(Top(old(View()), 0)) == tag
      ensures ok ==> Synced() && View() == EmitBack(Emitter.Drop(old(View()), 1), op, AddrOf(Top(old(View()), 0)))
    {
      hide Flatten, Flat, TagOf, AddrOf;
      Append(Op(op));
      ok := ResolveBackBranch(tag);
      if ok {
        assert cells == EmitBack(Emitter.Drop(old(View()), 1), op, AddrOf(Top(old(View()), 0))).cells;
      }
    }

    /** Resolve the forward branch on the stack to land here. */
    method ResolveForwardBranch(tag: Tag) returns (ok: bool)
      requires Synced() && ctl != [] && tag != ColonTag && tag != CaseTag
      modifies this
      ensures ok <==> TagOf(Top(old(View()), 0)) == tag
      ensures ok ==> Synced() && View() == PatchRel(Emitter.Drop(old(View()), 1), AddrOf(Top(old(View()), 0)))
    {
      hide Flatten, Flat;
      var patch;
      ok, patch := PopMarked(tag);
      if ok {
        SetOperand(patch, |cells| - patch);
      }
    }

    // -------------------------------------------------------------------
    // Branches

    method IfWord() returns (ok: bool)
      requires Valid() && compiling
      modifies this
      ensures Did(If, ok)
    {
      hide Flatten, W.Bottom;
      EmitPending(Branch0(true), OrigTag, 1);
      W.WordBottom(old(View()), If);
      ok := true;
    }

    method ElseWord() returns (ok: bool)
      requires Valid() && compiling
      modifies this
      ensures Did(Else, ok)
    {
      hide Flatten, W.Bottom;
      NotLast(View());
      Append(Op(Branch(true)));
      var patch;
      ok, patch := PopMarked(OrigTag);
      if !ok {
        return;
      }
      PendingOperand(OrigTag, 1);
      assert cells == old(cells) + [Op(Branch(true)), Num(1)];
      SetOperand(patch, |cells| - patch);
      W.WordBottom(old(View()), Else);
    }

    method ThenWord() returns (ok: bool)
      requires Valid() && compiling
      modifies this
      ensures Did(Then, ok)
    {
      hide Flatten, W.Bottom;
      NotLast(View());
      ok := ResolveForwardBranch(OrigTag);
      if ok {
        W.WordBottom(old(View()), Then);
      }
    }

    method BeginWord() returns (ok: bool)
      requires Valid() && compiling
      modifies this
      ensures Did(Begin, ok)
    {
      hide Flatten, W.Bottom;
      MarkBranch(DestTag);
      W.WordBottom(old(View()), Begin);
      ok := true;
    }

    /** UNTIL and AGAIN. */
    method BackWord(until: bool) returns (ok: bool)
      requires Valid() && compiling
      modifies this
      ensures Did(if until then Until else Again, ok)
    {
      hide Flatten, W.Bottom;
      NotLast(View());
      Append(Op(if until then Branch0(true) else Branch(true)));
      ok := ResolveBackBranch(DestTag);
      if ok {
        assert cells == EmitBack(Emitter.Drop(old(View()), 1), if until then Branch0(true) else Branch(true), Top(old(View()), 0).a).cells;
        W.WordBottom(old(View()), if until then Until else Again);
      }
    }

    /** WHILE over a dest. */
    method WhileWord() returns (ok: bool)
      requires Valid() && compiling && Top(View(), 0).Dest?
      modifies this
      ensures Did(While, ok)
    {
      hide Flatten, W.Bottom;
      NotLast(View());
      Append(Op(Branch0(true)));
      MarkBranch(OrigTag);
      SwapPairs();
      open := open + {|cells|};
      Append(Num(1));
      assert cells == old(cells) + [Op(Branch0(true)), Num(1)];
      assert View() == CompileWord(old(View()), While).value;
      W.WordBottom(old(View()), While);
      ok := true;
    }

    method RepeatWord() returns (ok: bool)
      requires Valid() && compiling
      modifies this
      ensures Did(Repeat, ok)
    {
      hide Flatten, Flat, W.Bottom, CompileWord, TagOf, AddrOf, EmitBack, Emitter.Drop, Top, PatchRel;
      ghost var u := View();
      NotLast(u);
      EndWords(u);
      TagIs(Top(u, 0));
      TagIs(Top(u, 1));
      ok := BranchBack(Branch(true), DestTag);
      if !ok {
        return;
      }
      DropBack(u, Branch(true), AddrOf(Top(u, 0)));
      ok := ResolveForwardBranch(OrigTag);
      if ok {
        W.WordBottom(u, Repeat);
      }
    }

    // -------------------------------------------------------------------
    // DO loops

    method DoWords(question: bool) returns (ok: bool)
      requires Valid() && compiling
      modifies this
      ensures Did(if question then QDoWord else DoWord, ok)
    {
      hide Flatten, W.Bottom;
      EmitPending(if question then QDo else Do, LeaveTag, 0);
      MarkBranch(DoTag);
      W.WordBottom(old(View()), if question then QDoWord else DoWord);
      ok := true;
    }

    method LoopWords(plus: bool) returns (ok: bool)
      requires Valid() && compiling
      modifies this
      ensures Did(if plus then PlusLoopWord else LoopWord, ok)
    {
      hide Flatten, Flat, W.Bottom, CompileWord, TagOf, AddrOf, EmitBack, Emitter.Drop, Top, Patch;
      ghost var u := View();
      NotLast(u);
      EndWords(u);
      TagIs(Top(u, 0));
      TagIs(Top(u, 1));
      var op := if plus then PlusLoop else Loop;
      ok := BranchBack(op, DoTag);
      if !ok {
        return;
      }
      DropBack(u, op, AddrOf(Top(u, 0)));
      var leave;
      ok, leave := PopMarked(LeaveTag);
      if ok {
        SetOperand(leave, |cells|);
        W.WordBottom(u, if plus then PlusLoopWord else LoopWord);
      }
    }

    // -------------------------------------------------------------------
    // CASE

    method CaseWord() returns (ok: bool)
      requires Valid() && compiling
      modifies this
      ensures Did(Case, ok)
    {
      hide Flatten, W.Bottom;
      PushCase(0, []);
      W.WordBottom(old(View()), Case);
      ok := true;
    }

    method OfWords() returns (ok: bool)
      requires Valid() && compiling
      modifies this
      ensures Did(OfWord, ok)
    {
      hide Flatten, W.Bottom;
      NotLast(View());
      var falls, patch := TakeFall();
      ok := MatchCase();
      if !ok {
        return;
      }
      EmitPending(Of, OfTag, 2);
      if falls {
        SetOperand(patch, |cells| - patch);
      }
      W.WordBottom(old(View()), OfWord);
    }

    method EndOfWord() returns (ok: bool)
      requires Valid() && compiling
      modifies this
      ensures Did(EndOf, ok)
    {
      hide Flatten, Flat, Addrs, Below, W.Bottom, CompileWord, TagOf, AddrOf, EmitOpen, Emitter.Drop, Top, PatchRel, Emitter.Push;
      ghost var u := View();
      NotLast(u);
      EndWords(u);
      TagIs(Top(u, 0));
      var patch, count;
      ok, patch := PopMarked(OfTag);
      if !ok {
        return;
      }
      DropTwice(u);
      DropShrinks(u);
      ok, count := PopCase();
      if !ok {
        return;
      }
      CloseClause(count, Top(u, 1).fixups);
      ghost var v := View();
      SetOperand(patch, |cells| - patch);
      PatchRelIs(v, patch);
      W.WordBottom(u, EndOf);
    }

    /** The branch out of a clause, its operand added to the fixups on the stack. */
    method CloseClause(count: nat, ghost fx: seq<int>)
      requires stack == Flatten(ctl) + Addrs(fx) && count == |fx|
      modifies this
      ensures Synced()
      ensures View() == Emitter.Push(EmitOpen(old(View()), Branch(true), 2), CaseSys(fx + [Here(old(View())) + 1]))
    {
      hide Flatten, Flat, Addrs;
      Append(Op(Branch(true)));
      PushFixup(|cells|, fx);
      PushCase(count + 1, fx + [|cells|]);
      open := open + {|cells|};
      Append(Num(2));
      assert cells == old(cells) + [Op(Branch(true)), Num(2)];
    }

    method FallthroughWord() returns (ok: bool)
      requires Valid() && compiling
      modifies this
      ensures Did(Fallthrough, ok)
    {
      hide Flatten, Flat, Addrs, Below, W.Bottom, CompileWord, TagOf, AddrOf, EmitOpen, Emitter.Drop, Top, PatchRel, Emitter.Push;
      ghost var u := View();
      NotLast(u);
      EndWords(u);
      TagIs(Top(u, 0));
      var patch;
      ok, patch := PopMarked(OfTag);
      if !ok {
        return;
      }
      DropTwice(u);
      DropShrinks(u);
      ok := MatchCase();
      if !ok {
        return;
      }
      OpenPush(Emitter.Drop(u, 2), Top(u, 1), Branch(true), 2);
      EmitPending(Branch(true), FallTag, 2);
      ghost var v := View();
      SetOperand(patch, |cells| - patch);
      PatchRelIs(v, patch);
      W.WordBottom(u, Fallthrough);
    }

    /** Pop and patch as many fixups as the count says. */
    method PatchAll(count: nat, ghost fx: seq<int>)
      requires stack == Flatten(ctl) + Addrs(fx) && count == |fx|
      modifies `stack, `cells, `open
      ensures Synced() && View() == PatchFixups(old(View()), fx)
    {
      hide Flatten;
      var left := count;
      assert fx[..left] == fx;
      while left > 0
        invariant 0 <= left <= |fx| && stack == Flatten(ctl) + Addrs(fx[..left])
        invariant PatchFixups(View(), fx[..left]) == PatchFixups(old(View()), fx)
      {
        assert fx[..left][..left - 1] == fx[..left - 1];
        assert Addrs(fx[..left]) == Addrs(fx[..left - 1]) + [Addr(fx[left - 1])];
        var patch := stack[|stack| - 1].a;
        stack := stack[..|stack| - 1];
        SetOperand(patch, |cells| - patch);
        left := left - 1;
      }
      assert fx[..0] == [];
    }

    method EndCaseWord() returns (ok: bool)
      requires Valid() && compiling
      modifies this
      ensures Did(EndCase, ok)
    {
      hide Flatten, Flat, Addrs, W.Bottom, PatchFixups, CompileWord;
      NotLast(View());
      EndWords(View());
      var falls, patch := TakeFall();
      if falls {
        DropTwice(old(View()));
      }
      var count;
      ghost var fx := if Top(View(), 0).CaseSys? then Top(View(), 0).fixups else [];
      ghost var u0 := View();
      ok, count := PopCase();
      if !ok {
        return;
      }
      if falls {
        PushFixup(patch, fx);
        count := count + 1;
        fx := fx + [patch];
      }
      Append(Op(Machine.Drop));
      ghost var u := View();
      PatchAll(count, fx);
      FixupsKeepRest(u, fx);
      assert ctl == Emitter.Drop(old(View()), if falls then 2 else 1).ctl + [];
      W.BottomIs(old(View()), View(), if falls then 2 else 1, []);
    }

    // -------------------------------------------------------------------
    // EXIT, `;` and literals

    method EmitReturn(op: Instr)
      modifies `cells
      ensures View() == EmitExit(old(View()), op)
    {
      if locals > 0 {
        Append(Op(Unlink));
      }
      Append(Op(op));
    }

    method ExitWords() returns (ok: bool)
      requires Valid() && compiling
      modifies this
      ensures Did(ExitWord, ok)
    {
      hide Flatten, W.Bottom;
      EmitReturn(Exit);
      W.WordBottom(old(View()), ExitWord);
      ok := true;
    }

    method SemiColonWord() returns (ok: bool)
      requires Valid() && compiling
      modifies this
      ensures Did(SemiColon, ok)
    {
      hide Flatten, W.Bottom;
      NotLast(View());
      TopTag(ctl);
      ok := MatchControlTag(ColonTag);
      if ok {
        assert stack == Flatten(ctl[..|ctl| - 1]);
        ctl := ctl[..|ctl| - 1];
        EmitReturn(Semi);
        locals, compiling := 0, false;
        W.WordBottom(old(View()), SemiColon);
      }
    }

    method LiteralWord(n: int) returns (ok: bool)
      requires Valid() && compiling
      modifies this
      ensures Did(Lit(n), ok)
    {
      hide Flatten, W.Bottom;
      if -16 <= n <= 16 {
        Append(Op(Small(n)));
      } else {
        AppendTwo(Literal, n);
      }
      W.WordBottom(old(View()), Lit(n));
      ok := true;
    }

    // -------------------------------------------------------------------
    // Locals

    method NewLocalWord() returns (ok: bool)
      requires Valid() && compiling
      modifies this
      ensures Did(NewLocal, ok)
    {
      hide Flatten, W.Bottom;
      if locals >= MAX_LOCALS {
        return false;
      }
      if locals == 0 {
        fixup := |cells| + 1;
        AppendTwo(Link, locals);
      }
      AppendTwo(ToLocal, locals);
      locals := locals + 1;
      open := open + {fixup};
      W.WordBottom(old(View()), NewLocal);
      ok := true;
    }

    method LocalsDoneWord() returns (ok: bool)
      requires Valid() && compiling
      modifies this
      ensures Did(LocalsDone, ok)
    {
      hide Flatten, W.Bottom;
      if locals > 0 {
        SetOperand(fixup, locals);
      }
      W.WordBottom(old(View()), LocalsDone);
      ok := true;
    }

    /** A local's name, or TO and its name. */
    method LocalWords(k: nat, store: bool) returns (ok: bool)
      requires Valid() && compiling
      modifies this
      ensures Did(if store then LocalTo(k) else LocalRef(k), ok)
    {
      hide Flatten, W.Bottom;
      if k >= locals {
        return false;
      }
      if k == 0 {
        Append(Op(if store then ToLocal0 else GetLocal0));
      } else if k == 1 {
        Append(Op(if store then ToLocal1 else GetLocal1));
      } else {
        AppendTwo(if store then ToLocal else GetLocal, k);
      }
      W.WordBottom(old(View()), if store then LocalTo(k) else LocalRef(k));
      ok := true;
    }

    // -------------------------------------------------------------------
    // Definitions

    /** A word that is not immediate: its own instruction is appended. */
    method CompileToken(op: Instr) returns (ok: bool)
      requires Valid() && compiling
      modifies this
      ensures Did(Compile(op), ok)
    {
      hide Flatten, W.Bottom;
      if HasOperand(op) {
        return false;
      }
      Append(Op(op));
      W.WordBottom(old(View()), Compile(op));
      ok := true;
    }

    /** One compiling word. */
    method OneWord(w: Word) returns (ok: bool)
      requires Valid() && compiling && (w.While? ==> Top(View(), 0).Dest?)
      modifies this
      ensures Did(w, ok)
    {
      hide Flatten, W.Bottom, CompileWord;
      match w {
        case If => ok := IfWord();
        case Else => ok := ElseWord();
        case Then => ok := ThenWord();
        case Begin => ok := BeginWord();
        case Until => ok := BackWord(true);
        case While => ok := WhileWord();
        case Repeat => ok := RepeatWord();
        case Again => ok := BackWord(false);
        case DoWord => ok := DoWords(false);
        case QDoWord => ok := DoWords(true);
        case LoopWord => ok := LoopWords(false);
        case PlusLoopWord => ok := LoopWords(true);
        case Case => ok := CaseWord();
        case OfWord => ok := OfWords();
        case EndOf => ok := EndOfWord();
        case Fallthrough => ok := FallthroughWord();
        case EndCase => ok := EndCaseWord();
        case ExitWord => ok := ExitWords();
        case SemiColon => ok := SemiColonWord();
        case Lit(n) => ok := LiteralWord(n);
        case Compile(op) => ok := CompileToken(op);
        case NewLocal => ok := NewLocalWord();
        case LocalsDone => ok := LocalsDoneWord();
        case LocalRef(k) => ok := LocalWords(k, false);
        case LocalTo(k) => ok := LocalWords(k, true);
      }
    }

    /** Any sequence of compiling words, up to the first that fails. */
    method Run(ws: seq<Word>) returns (ok: bool)
      requires Valid() && WhileOverDest(View(), ws)
      modifies this
      ensures ok <==> CompileWords(old(View()), ws).Some?
      ensures ok ==> Valid() && View() == CompileWords(old(View()), ws).value
    {
      hide Flatten, W.Bottom, CompileWord;
      ghost var u := View();
      var i := 0;
      while i < |ws|
        invariant 0 <= i <= |ws| && Valid() && WhileOverDest(View(), ws[i..])
        invariant CompileWords(u, ws) == CompileWords(View(), ws[i..])
      {
        assert ws[i..][0] == ws[i] && ws[i..][1..] == ws[i + 1..];
        if !compiling {
          W.CompileNothing(View(), ws[i..]);
          return false;
        }
        ok := OneWord(ws[i]);
        if !ok {
          return;
        }
        i := i + 1;
      }
      ok := true;
    }
  }

  /** Whenever WHILE is met, a dest is on top. */
  ghost predicate WhileOverDest(u: Unit, ws: seq<Word>)
    decreases |ws|
  {
    ws == [] ||
    ((ws[0].While? && u.compiling ==> Top(u, 0).Dest?) &&
     (CompileWord(u, ws[0]).Some? ==> WhileOverDest(CompileWord(u, ws[0]).value, ws[1..])))
  }
}
