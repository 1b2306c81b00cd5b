/**
  The cells that the compiling words lay down for structured source, and the proof
  that they do: the word sequence of a statement, run through the back-patching
  emitter, appends exactly these cells and leaves the control stack as it was.
 */
module Layout {
  import opened Wrappers
  import opened Machine
  import S = Source
  import E = Emitter

  /** What compilation of a body depends on: where the definitions start, and the number of locals. */
  datatype Env = Env(entry: seq<int>, nlocals: nat)

  function Token(b: S.Basic): Instr {
    match b
    case DropWord => Drop
    case PrimWord(id) => Prim(id)
    case ToRWord => ToR
    case FromRWord => FromR
    case FetchRWord => FetchR
    case IWord => I
    case JWord => J
    case KWord => K
    case UnloopWord => Unloop
  }

  function LiteralCode(n: int): seq<Cell> {
    if -16 <= n <= 16 then [Op(Small(n))] else [Op(Literal), Num(n)]
  }

  function LocalCode(k: nat, zero: Instr, one: Instr, indexed: Instr): seq<Cell> {
    if k == 0 then [Op(zero)] else if k == 1 then [Op(one)] else [Op(indexed), Num(k)]
  }

  function ExitCode(env: Env, op: Instr): seq<Cell> {
    if env.nlocals > 0 then [Op(Unlink), Op(op)] else [Op(op)]
  }

  function DoOp(q: bool): Instr { if q then QDo else Do }
  function LoopOp(plus: bool): Instr { if plus then PlusLoop else Loop }
  function DoOf(q: bool): E.Word { if q then E.QDoWord else E.DoWord }
  function LoopOf(plus: bool): E.Word { if plus then E.PlusLoopWord else E.LoopWord }

  function EntryOf(env: Env, w: nat): int {
    if w < |env.entry| then env.entry[w] else 0
  }

  /** The number of cells of a statement. */
  function Size(env: Env, s: S.Stmt): nat {
    match s
    case Skip => 0
    case Push(n) => |LiteralCode(n)|
    case Do1(_) => 1
    case CallWord(_) => 1
    case LeaveWord => 1
    case ExitStmt => |ExitCode(env, Exit)|
    case Get(k) => if k < 2 then 1 else 2
    case Set(k) => if k < 2 then 1 else 2
    case Then(a, b) => Size(env, a) + Size(env, b)
    case If(a) => 2 + Size(env, a)
    case IfElse(a, b) => 4 + Size(env, a) + Size(env, b)
    case Until(a) => Size(env, a) + 2
    case WhileRepeat(a, b) => Size(env, a) + Size(env, b) + 4
    case Again(a) => Size(env, a) + 2
    case DoLoop(_, _, a) => Size(env, a) + 4
    case CaseOf(c) => CaseSize(env, c)
  }

  function CaseSize(env: Env, c: S.Clauses): nat {
    match c
    case Default(d) => Size(env, d) + 1
    case Clause(test, body, _, rest) => Size(env, test) + Size(env, body) + 4 + CaseSize(env, rest)
  }

  /** Where a fall-through into c goes, relative to the start of c: the body of the
      first clause, or past the final DROP. */
  function EntryOffset(env: Env, c: S.Clauses): nat {
    match c
    case Default(_) => CaseSize(env, c)
    case Clause(test, _, _, _) => Size(env, test) + 2
  }

  /** The cells of a statement placed at address `at`. */
  function Code(env: Env, s: S.Stmt, at: nat): (r: seq<Cell>)
    ensures |r| == Size(env, s)
  {
    match s
    case Skip => []
    case Push(n) => LiteralCode(n)
    case Do1(b) => [Op(Token(b))]
    case CallWord(w) => [Op(Call(EntryOf(env, w)))]
    case LeaveWord => [Op(Leave)]
    case ExitStmt => ExitCode(env, Exit)
    case Get(k) => LocalCode(k, GetLocal0, GetLocal1, GetLocal)
    case Set(k) => LocalCode(k, ToLocal0, ToLocal1, ToLocal)
    case Then(a, b) => Code(env, a, at) + Code(env, b, at + Size(env, a))
    case If(a) =>
      [Op(Branch0(true)), Num(Size(env, a) + 1)] + Code(env, a, at + 2)
    case IfElse(a, b) =>
      [Op(Branch0(true)), Num(Size(env, a) + 3)] + Code(env, a, at + 2) +
      [Op(Branch(true)), Num(Size(env, b) + 1)] + Code(env, b, at + Size(env, a) + 4)
    case Until(a) => Code(env, a, at) + [Op(Branch0(true)), Num(-(Size(env, a) + 1))]
    case WhileRepeat(a, b) =>
      Code(env, a, at) + [Op(Branch0(true)), Num(Size(env, b) + 3)] +
      Code(env, b, at + Size(env, a) + 2) + [Op(Branch(true)), Num(-(Size(env, a) + Size(env, b) + 3))]
    case Again(a) => Code(env, a, at) + [Op(Branch(true)), Num(-(Size(env, a) + 1))]
    case DoLoop(question, plus, a) =>
      [Op(DoOp(question)), Num(at + Size(env, a) + 4)] + Code(env, a, at + 2) +
      [Op(LoopOp(plus)), Num(-(Size(env, a) + 1))]
    case CaseOf(c) => CaseCode(env, c, at)
  }

  function CaseCode(env: Env, c: S.Clauses, at: nat): (r: seq<Cell>)
    ensures |r| == CaseSize(env, c)
  {
    match c
    case Default(d) => Code(env, d, at) + [Op(Drop)]
    case Clause(test, body, falls, rest) =>
      var t, b := Size(env, test), Size(env, body);
      Code(env, test, at) + [Op(Of), Num(b + 3)] + Code(env, body, at + t + 2) +
      [Op(Branch(true)), Num(1 + if falls then EntryOffset(env, rest) else CaseSize(env, rest))] +
      CaseCode(env, rest, at + t + b + 4)
  }

  /** The prologue that pops n locals, from number k on. */
  function LocalsCode(k: nat, n: nat): seq<Cell>
    requires k <= n
    decreases n - k
  {
    if k == n then [] else [Op(ToLocal), Num(k)] + LocalsCode(k + 1, n)
  }

  function Prologue(n: nat): seq<Cell> {
    if n == 0 then [] else [Op(Link), Num(n)] + LocalsCode(0, n)
  }

  /** A whole definition, from the colon's param field to the `;`. */
  function DefCode(env: Env, body: S.Stmt, at: nat): seq<Cell> {
    Prologue(env.nlocals) + Code(env, body, at + |Prologue(env.nlocals)|) + ExitCode(env, Semi)
  }

  // ---------------------------------------------------------------------
  // The word sequence of a statement

  function Words(env: Env, s: S.Stmt): seq<E.Word> {
    match s
    case Skip => []
    case Push(n) => [E.Lit(n)]
    case Do1(b) => [E.Compile(Token(b))]
    case CallWord(w) => [E.Compile(Call(EntryOf(env, w)))]
    case LeaveWord => [E.Compile(Leave)]
    case ExitStmt => [E.ExitWord]
    case Get(k) => [E.LocalRef(k)]
    case Set(k) => [E.LocalTo(k)]
    case Then(a, b) => Words(env, a) + Words(env, b)
    case If(a) => [E.If] + Words(env, a) + [E.Then]
    case IfElse(a, b) => [E.If] + Words(env, a) + [E.Else] + Words(env, b) + [E.Then]
    case Until(a) => [E.Begin] + Words(env, a) + [E.Until]
    case WhileRepeat(a, b) => [E.Begin] + Words(env, a) + [E.While] + Words(env, b) + [E.Repeat]
    case Again(a) => [E.Begin] + Words(env, a) + [E.Again]
    case DoLoop(question, plus, a) =>
      [DoOf(question)] + Words(env, a) + [LoopOf(plus)]
    case CaseOf(c) => [E.Case] + CaseWords(env, c) + [E.EndCase]
  }

  function CaseWords(env: Env, c: S.Clauses): seq<E.Word> {
    match c
    case Default(d) => Words(env, d)
    case Clause(test, body, falls, rest) =>
      Words(env, test) + [E.OfWord] + Words(env, body) +
      [EndOfWord(falls)] + CaseWords(env, rest)
  }

  function NewLocals(n: nat): seq<E.Word> {
    if n == 0 then [] else NewLocals(n - 1) + [E.NewLocal]
  }

  /** The words between `:` name and `;`, inclusive of the latter. */
  function DefWords(env: Env, body: S.Stmt): seq<E.Word> {
    LocalWords(env) + Words(env, body) + [E.SemiColon]
  }

  /** The words that declare the locals. */
  function LocalWords(env: Env): seq<E.Word> {
    if env.nlocals == 0 then [] else NewLocals(env.nlocals) + [E.LocalsDone]
  }

  /** Only declared locals are named. */
  predicate Scoped(s: S.Stmt, n: nat) {
    match s
    case Get(k) => k < n
    case Set(k) => k < n
    case Then(a, b) => Scoped(a, n) && Scoped(b, n)
    case If(a) => Scoped(a, n)
    case IfElse(a, b) => Scoped(a, n) && Scoped(b, n)
    case Until(a) => Scoped(a, n)
    case WhileRepeat(a, b) => Scoped(a, n) && Scoped(b, n)
    case Again(a) => Scoped(a, n)
    case DoLoop(_, _, a) => Scoped(a, n)
    case CaseOf(c) => ScopedClauses(c, n)
    case _ => true
  }

  predicate ScopedClauses(c: S.Clauses, n: nat) {
    match c
    case Default(d) => Scoped(d, n)
    case Clause(test, body, _, rest) => Scoped(test, n) && Scoped(body, n) && ScopedClauses(rest, n)
  }

  // ---------------------------------------------------------------------
  // The emitter lays down exactly this code

  function Extend(u: E.Unit, c: seq<Cell>): E.Unit {
    u.(cells := u.cells + c)
  }

  /** Compiling a definition with the locals of env; open operands lie below here. */
  ghost predicate Ready(env: Env, u: E.Unit) {
    u.compiling && u.locals == env.nlocals && forall a :: a in u.open ==> a < |u.cells|
  }

  lemma {:induction false} CompileAppend(u: E.Unit, a: seq<E.Word>, b: seq<E.Word>)
    requires E.CompileWords(u, a).Some?
    ensures E.CompileWords(u, a + b) == E.CompileWords(E.CompileWords(u, a).value, b)
    decreases |a|
  {
    hide E.CompileWord;
    if a == [] {
      assert a + b == b;
    } else {
      assert (a + b)[0] == a[0] && (a + b)[1..] == a[1..] + b;
      CompileAppend(E.CompileWord(u, a[0]).value, a[1..], b);
    }
  }

  lemma CompileOne(u: E.Unit, w: E.Word)
    ensures E.CompileWords(u, [w]) == E.CompileWord(u, w)
  {
    hide E.CompileWord;
    assert [w][1..] == [];
    match E.CompileWord(u, w)
    case Some(v) => assert E.CompileWords(v, []) == Some(v);
    case None =>
  }

  /** ws, then the word w. */
  lemma CompileThen(u: E.Unit, ws: seq<E.Word>, v: E.Unit, w: E.Word)
    requires E.CompileWords(u, ws) == Some(v)
    ensures E.CompileWords(u, ws + [w]) == E.CompileWord(v, w)
  {
    CompileAppend(u, ws, [w]);
    CompileOne(v, w);
  }

  /** w, then ws. */
  lemma CompileFirst(u: E.Unit, w: E.Word, v: E.Unit, ws: seq<E.Word>)
    requires E.CompileWord(u, w) == Some(v)
    ensures E.CompileWords(u, [w] + ws) == E.CompileWords(v, ws)
  {
    assert ([w] + ws)[1..] == ws;
  }

  /** Patching the operand of the instruction x that follows the cells a. */
  lemma PatchSeq(a: seq<Cell>, x: Cell, y: Cell, b: seq<Cell>, v: Cell)
    ensures (a + [x, y] + b)[|a| + 1 := v] == a + [x, v] + b
  {
  }

  // What a pair of bracketing words does around cells c that the words between them append.

  lemma {:induction false} IfThen(env: Env, u: E.Unit, c: seq<Cell>)
    requires Ready(env, u)
    ensures var u1 := E.CompileWord(u, E.If);
            u1.Some? && Ready(env, u1.value) && E.Here(u1.value) == E.Here(u) + 2 &&
            E.CompileWord(Extend(u1.value, c), E.Then) ==
              Some(Extend(u, [Op(Branch0(true)), Num(|c| + 1)] + c))
  {
    var u1 := E.CompileWord(u, E.If).value;
    var u3 := E.CompileWord(Extend(u1, c), E.Then).value;
    assert u3.cells == u.cells + ([Op(Branch0(true)), Num(|c| + 1)] + c);
    assert u3.ctl == u.ctl && u3.open == u.open;
  }

  lemma {:induction false} IfElseThen(env: Env, u: E.Unit, c: seq<Cell>, d: seq<Cell>)
    requires Ready(env, u)
    ensures var u1 := E.CompileWord(u, E.If);
            u1.Some? && Ready(env, u1.value) && E.Here(u1.value) == E.Here(u) + 2 &&
            var u3 := E.CompileWord(Extend(u1.value, c), E.Else);
            u3.Some? && Ready(env, u3.value) && E.Here(u3.value) == E.Here(u) + |c| + 4 &&
            E.CompileWord(Extend(u3.value, d), E.Then) ==
              Some(Extend(u, [Op(Branch0(true)), Num(|c| + 3)] + c + [Op(Branch(true)), Num(|d| + 1)] + d))
  {
    var n := E.Here(u);
    var u1 := E.CompileWord(u, E.If).value;
    var u3 := E.CompileWord(Extend(u1, c), E.Else).value;
    assert u3.cells == u.cells + [Op(Branch0(true)), Num(|c| + 3)] + c + [Op(Branch(true)), Num(1)];
    assert u3.ctl == u.ctl + [E.Orig(n + |c| + 3)] && u3.open == u.open + {n + |c| + 3};
    var u5 := E.CompileWord(Extend(u3, d), E.Then).value;
    assert u5.cells == u.cells + ([Op(Branch0(true)), Num(|c| + 3)] + c + [Op(Branch(true)), Num(|d| + 1)] + d);
    assert u5.ctl == u.ctl && u5.open == u.open;
  }

  /** BEGIN c UNTIL and BEGIN c AGAIN. */
  lemma {:induction false} BeginBack(env: Env, u: E.Unit, c: seq<Cell>, until: bool)
    requires Ready(env, u)
    ensures var u1 := E.CompileWord(u, E.Begin);
            u1.Some? && Ready(env, u1.value) && E.Here(u1.value) == E.Here(u) &&
            E.CompileWord(Extend(u1.value, c), if until then E.Until else E.Again) ==
              Some(Extend(u, c + [Op(if until then Branch0(true) else Branch(true)), Num(-(|c| + 1))]))
  {
    var u1 := E.CompileWord(u, E.Begin).value;
    var u3 := E.CompileWord(Extend(u1, c), if until then E.Until else E.Again).value;
    assert u3.cells == u.cells + (c + [Op(if until then Branch0(true) else Branch(true)), Num(-(|c| + 1))]);
    assert u3.ctl == u.ctl;
  }

  lemma WhileIs(env: Env, u: E.Unit, c: seq<Cell>)
    requires Ready(env, u)
    ensures var u1 := E.CompileWord(u, E.Begin);
            u1 == Some(E.Push(u, E.Dest(E.Here(u)))) && Ready(env, u1.value) &&
            E.CompileWord(Extend(u1.value, c), E.While) == Some(Whiled(u, c)) && Ready(env, Whiled(u, c))
  {
    var n := E.Here(u);
    var u1 := E.CompileWord(u, E.Begin).value;
    var u3 := E.CompileWord(Extend(u1, c), E.While).value;
    assert u3.ctl == u.ctl + [E.Orig(n + |c| + 1), E.Dest(n)];
    assert u3.cells == u.cells + c + [Op(Branch0(true)), Num(1)];
  }

  /** After BEGIN, the cells c and WHILE. */
  function Whiled(u: E.Unit, c: seq<Cell>): E.Unit {
    u.(cells := u.cells + c + [Op(Branch0(true)), Num(1)],
       ctl := u.ctl + [E.Orig(E.Here(u) + |c| + 1), E.Dest(E.Here(u))],
       open := u.open + {E.Here(u) + |c| + 1})
  }

  lemma RepeatIs(env: Env, u: E.Unit, c: seq<Cell>, d: seq<Cell>)
    requires Ready(env, u)
    ensures E.CompileWord(Extend(Whiled(u, c), d), E.Repeat) ==
            Some(Extend(u, c + [Op(Branch0(true)), Num(|d| + 3)] + d + [Op(Branch(true)), Num(-(|c| + |d| + 3))]))
  {
    var u3 := Whiled(u, c);
    var u5 := E.CompileWord(Extend(u3, d), E.Repeat).value;
    assert u5.ctl == u.ctl && u5.open == u.open;
    RepeatCells(u, c, d);
  }

  lemma RepeatCells(u: E.Unit, c: seq<Cell>, d: seq<Cell>)
    ensures var back := [Op(Branch(true)), Num(-(|c| + |d| + 3))];
            (u.cells + c + [Op(Branch0(true)), Num(1)] + d + back)[|u.cells| + |c| + 1 := Num(|d| + 3)] ==
            u.cells + (c + [Op(Branch0(true)), Num(|d| + 3)] + d + back)
  {
    var back := [Op(Branch(true)), Num(-(|c| + |d| + 3))];
    PatchSeq(u.cells + c, Op(Branch0(true)), Num(1), d + back, Num(|d| + 3));
    assert u.cells + c + [Op(Branch0(true)), Num(1)] + d + back == u.cells + c + [Op(Branch0(true)), Num(1)] + (d + back);
    assert u.cells + (c + [Op(Branch0(true)), Num(|d| + 3)] + d + back) == u.cells + c + [Op(Branch0(true)), Num(|d| + 3)] + (d + back);
  }

  lemma {:induction false} BeginWhileRepeat(env: Env, u: E.Unit, c: seq<Cell>, d: seq<Cell>)
    requires Ready(env, u)
    ensures var u1 := E.CompileWord(u, E.Begin);
            u1.Some? && Ready(env, u1.value) && E.Here(u1.value) == E.Here(u) &&
            var u3 := E.CompileWord(Extend(u1.value, c), E.While);
            u3.Some? && Ready(env, u3.value) && E.Here(u3.value) == E.Here(u) + |c| + 2 &&
            E.CompileWord(Extend(u3.value, d), E.Repeat) ==
              Some(Extend(u, c + [Op(Branch0(true)), Num(|d| + 3)] + d + [Op(Branch(true)), Num(-(|c| + |d| + 3))]))
  {
    hide E.CompileWord, Ready;
    WhileIs(env, u, c);
    RepeatIs(env, u, c, d);
  }

  lemma DoAndLoopCells(env: Env, u: E.Unit, op1: Instr, op2: Instr, c: seq<Cell>)
    requires Ready(env, u)
    ensures var u1 := E.EmitDo(u, op1);
            Ready(env, u1) && E.Here(u1) == E.Here(u) + 2 &&
            E.EmitLoopEnd(Extend(u1, c), op2) ==
              Some(Extend(u, [Op(op1), Num(E.Here(u) + |c| + 4)] + c + [Op(op2), Num(-(|c| + 1))]))
  {
    var n := E.Here(u);
    var u1 := E.EmitDo(u, op1);
    assert u1.ctl == u.ctl + [E.LeaveMark(n + 1), E.DoMark(n + 2)] && u1.open == u.open + {n + 1};
    var u3 := E.EmitLoopEnd(Extend(u1, c), op2).value;
    assert u3.cells == u.cells + ([Op(op1), Num(n + |c| + 4)] + c + [Op(op2), Num(-(|c| + 1))]);
    assert u3.ctl == u.ctl && u3.open == u.open;
  }

  lemma DoAndLoop(env: Env, u: E.Unit, q: bool, plus: bool, c: seq<Cell>)
    requires Ready(env, u)
    ensures var u1 := E.CompileWord(u, DoOf(q));
            u1.Some? && Ready(env, u1.value) && E.Here(u1.value) == E.Here(u) + 2 &&
            E.CompileWord(Extend(u1.value, c), LoopOf(plus)) ==
              Some(Extend(u, [Op(DoOp(q)), Num(E.Here(u) + |c| + 4)] + c + [Op(LoopOp(plus)), Num(-(|c| + 1))]))
  {
    DoAndLoopCells(env, u, DoOp(q), LoopOp(plus), c);
    hide E.EmitLoopEnd, Extend;
    assert E.CompileWord(u, DoOf(q)) == Some(E.EmitDo(u, DoOp(q)));
  }

  /** w1 ws w2, where the words ws append c. */
  lemma {:induction false} Bracket(u: E.Unit, w1: E.Word, ws: seq<E.Word>, c: seq<Cell>, w2: E.Word)
    requires E.CompileWord(u, w1).Some?
    requires E.CompileWords(E.CompileWord(u, w1).value, ws) == Some(Extend(E.CompileWord(u, w1).value, c))
    ensures E.CompileWords(u, [w1] + ws + [w2]) == E.CompileWord(Extend(E.CompileWord(u, w1).value, c), w2)
  {
    hide E.CompileWord;
    var u1 := E.CompileWord(u, w1).value;
    CompileFirst(u, w1, u1, ws);
    CompileThen(u, [w1] + ws, Extend(u1, c), w2);
  }

  /** A prefix pre that yields v, then ws that append c, then w. */
  lemma {:induction false} BracketAfter(u: E.Unit, pre: seq<E.Word>, v: E.Unit, ws: seq<E.Word>, c: seq<Cell>, w: E.Word)
    requires E.CompileWords(u, pre) == Some(v)
    requires E.CompileWords(v, ws) == Some(Extend(v, c))
    ensures E.CompileWords(u, pre + ws + [w]) == E.CompileWord(Extend(v, c), w)
  {
    hide E.CompileWord;
    CompileAppend(u, pre, ws);
    CompileThen(u, pre + ws, Extend(v, c), w);
  }

  // ---------------------------------------------------------------------

  /** The words of s append the code of s and change nothing else. */
  lemma {:induction false} Emits(env: Env, s: S.Stmt, u: E.Unit)
    requires Ready(env, u) && Scoped(s, env.nlocals)
    ensures E.CompileWords(u, Words(env, s)) == Some(Extend(u, Code(env, s, E.Here(u))))
    decreases s, 1
  {
    var n := E.Here(u);
    if s.If? {
      EmitsIf(env, s, u);
    } else if s.IfElse? {
      EmitsIfElse(env, s, u);
    } else if s.WhileRepeat? {
      EmitsWhile(env, s, u);
    } else if s.Until? || s.Again? || s.DoLoop? {
      EmitsLoop(env, s, u);
    } else if s.CaseOf? {
      EmitsCase(env, s, u);
    } else if s.Then? {
      var c, d := Code(env, s.first, n), Code(env, s.second, n + Size(env, s.first));
      Emits(env, s.first, u);
      Emits(env, s.second, Extend(u, c));
      CompileAppend(u, Words(env, s.first), Words(env, s.second));
      assert u.cells + c + d == u.cells + (c + d);
    } else if s.Skip? {
      assert Extend(u, []) == u;
    } else {
      EmitsSingle(env, s, u);
    }
  }

  lemma {:induction false} EmitsSingle(env: Env, s: S.Stmt, u: E.Unit)
    requires Ready(env, u) && Scoped(s, env.nlocals)
    requires s.Push? || s.Do1? || s.CallWord? || s.LeaveWord? || s.ExitStmt? || s.Get? || s.Set?
    ensures E.CompileWords(u, Words(env, s)) == Some(Extend(u, Code(env, s, E.Here(u))))
  {
    CompileOne(u, Words(env, s)[0]);
    assert Words(env, s) == [Words(env, s)[0]];
    assert u.cells + [Op(Unlink)] + [Op(Exit)] == u.cells + [Op(Unlink), Op(Exit)];
  }

  lemma {:induction false} EmitsIf(env: Env, s: S.Stmt, u: E.Unit)
    requires Ready(env, u) && Scoped(s, env.nlocals) && s.If?
    ensures E.CompileWords(u, Words(env, s)) == Some(Extend(u, Code(env, s, E.Here(u))))
    decreases s, 0
  {
    hide E.CompileWord, Ready;
    var a, c := s.yes, Code(env, s.yes, E.Here(u) + 2);
    IfThen(env, u, c);
    Emits(env, a, E.CompileWord(u, E.If).value);
    Bracket(u, E.If, Words(env, a), c, E.Then);
  }

  lemma {:induction false} EmitsIfElse(env: Env, s: S.Stmt, u: E.Unit)
    requires Ready(env, u) && Scoped(s, env.nlocals) && s.IfElse?
    ensures E.CompileWords(u, Words(env, s)) == Some(Extend(u, Code(env, s, E.Here(u))))
    decreases s, 0
  {
    hide E.CompileWord, Ready;
    var n, a, b := E.Here(u), s.yes, s.no;
    var c, d := Code(env, a, n + 2), Code(env, b, n + Size(env, a) + 4);
    IfElseThen(env, u, c, d);
    var u1 := E.CompileWord(u, E.If).value;
    var u3 := E.CompileWord(Extend(u1, c), E.Else).value;
    Emits(env, a, u1);
    Emits(env, b, u3);
    Bracket(u, E.If, Words(env, a), c, E.Else);
    BracketAfter(u, [E.If] + Words(env, a) + [E.Else], u3, Words(env, b), d, E.Then);
  }

  lemma {:induction false} EmitsWhile(env: Env, s: S.Stmt, u: E.Unit)
    requires Ready(env, u) && Scoped(s, env.nlocals) && s.WhileRepeat?
    ensures E.CompileWords(u, Words(env, s)) == Some(Extend(u, Code(env, s, E.Here(u))))
    decreases s, 0
  {
    hide E.CompileWord, Ready;
    var n, a, b := E.Here(u), s.test, s.body;
    var c, d := Code(env, a, n), Code(env, b, n + Size(env, a) + 2);
    BeginWhileRepeat(env, u, c, d);
    var u1 := E.CompileWord(u, E.Begin).value;
    var u3 := E.CompileWord(Extend(u1, c), E.While).value;
    Emits(env, a, u1);
    Emits(env, b, u3);
    Bracket(u, E.Begin, Words(env, a), c, E.While);
    BracketAfter(u, [E.Begin] + Words(env, a) + [E.While], u3, Words(env, b), d, E.Repeat);
  }

  lemma {:induction false} EmitsLoop(env: Env, s: S.Stmt, u: E.Unit)
    requires Ready(env, u) && Scoped(s, env.nlocals) && (s.Until? || s.Again? || s.DoLoop?)
    ensures E.CompileWords(u, Words(env, s)) == Some(Extend(u, Code(env, s, E.Here(u))))
    decreases s, 0
  {
    hide E.CompileWord, Ready;
    var n := E.Here(u);
    match s
    case Until(a) =>
      var c := Code(env, a, n);
      BeginBack(env, u, c, true);
      Emits(env, a, E.CompileWord(u, E.Begin).value);
      Bracket(u, E.Begin, Words(env, a), c, E.Until);
    case Again(a) =>
      var c := Code(env, a, n);
      BeginBack(env, u, c, false);
      Emits(env, a, E.CompileWord(u, E.Begin).value);
      Bracket(u, E.Begin, Words(env, a), c, E.Again);
    case DoLoop(q, plus, a) =>
      var c := Code(env, a, n + 2);
      DoAndLoop(env, u, q, plus, c);
      Emits(env, a, E.CompileWord(u, DoOf(q)).value);
      Bracket(u, DoOf(q), Words(env, a), c, LoopOf(plus));
  }

  // ---------------------------------------------------------------------
  // CASE

  /** CASE, the clauses and ENDCASE. */
  lemma {:induction false} EmitsCase(env: Env, s: S.Stmt, u: E.Unit)
    requires Ready(env, u) && Scoped(s, env.nlocals) && s.CaseOf?
    ensures E.CompileWords(u, Words(env, s)) == Some(Extend(u, Code(env, s, E.Here(u))))
    decreases s, 0
  {
    var c := s.clauses;
    var u1 := E.Push(u, E.CaseSys([]));
    assert E.CompileWord(u, E.Case) == Some(u1);
    hide E.CompileWord;
    EmitsClauses(env, c, u1, []);
    CompileFirst(u, E.Case, u1, CaseWords(env, c) + [E.EndCase]);
    assert [E.Case] + (CaseWords(env, c) + [E.EndCase]) == Words(env, s);
    assert E.Drop(u1, 1) == u;
  }

  /** u, ready for a clause or ENDCASE: the branches in fx wait for the end of the case. */
  ghost predicate InCase(env: Env, u: E.Unit, fx: seq<int>) {
    Ready(env, u) && u.ctl != [] && E.Top(u, 0) == E.CaseSys(fx)
  }

  /** The clauses and ENDCASE append their code and patch the branches in fx to its end. */
  lemma {:induction false} EmitsClauses(env: Env, c: S.Clauses, u: E.Unit, fx: seq<int>)
    requires InCase(env, u, fx) && ScopedClauses(c, env.nlocals)
    ensures E.CompileWords(u, CaseWords(env, c) + [E.EndCase]) == Some(CaseResult(env, c, u, fx))
    decreases c, 2
  {
    if c.Default? {
      EmitsDefault(env, c, u, fx);
    } else {
      var u1 := Advance(env, c, u, fx);
      AdvanceReady(env, c, u, fx);
      EmitsRest(env, c, u1, fx);
      EmitsOneMore(env, c, u, u1, fx);
    }
  }

  function CaseResult(env: Env, c: S.Clauses, u: E.Unit, fx: seq<int>): E.Unit
    requires u.ctl != []
  {
    E.PatchFixups(Extend(E.Drop(u, 1), CaseCode(env, c, E.Here(u))), fx)
  }

  /** The unit after the first clause. */
  function Advance(env: Env, c: S.Clauses, u: E.Unit, fx: seq<int>): E.Unit
    requires u.ctl != [] && c.Clause?
  {
    AfterClause(u, Code(env, c.test, |u.cells|), Code(env, c.body, |u.cells| + Size(env, c.test) + 2), c.falls, fx)
  }

  /** u1 is ready for what follows a clause: a pending FALLTHROUGH or one more ENDOF. */
  ghost predicate Advanced(env: Env, u1: E.Unit, falls: bool, fx: seq<int>) {
    Ready(env, u1) && |u1.cells| >= 1 && |u1.ctl| >= 1 &&
    if falls then |u1.ctl| >= 2 && E.Top(u1, 0) == E.Fall(|u1.cells| - 1) && E.Top(u1, 1) == E.CaseSys(fx)
    else E.Top(u1, 0) == E.CaseSys(fx + [|u1.cells| - 1])
  }

  lemma AdvanceReady(env: Env, c: S.Clauses, u: E.Unit, fx: seq<int>)
    requires InCase(env, u, fx) && c.Clause?
    ensures Advanced(env, Advance(env, c, u, fx), c.falls, fx)
  {
  }

  /** What the remaining clauses do after the first one. */
  function RestResult(env: Env, c: S.Clauses, u1: E.Unit, fx: seq<int>): E.Unit
    requires c.Clause? && (if c.falls then |u1.ctl| >= 2 else |u1.ctl| >= 1) && |u1.cells| >= 1
  {
    var at := |u1.cells| - 1;
    if c.falls then CaseResult(env, c.rest, Fallen(u1, at, EntryOffset(env, c.rest)), fx)
    else CaseResult(env, c.rest, u1, fx + [at])
  }

  lemma {:induction false} EmitsRest(env: Env, c: S.Clauses, u1: E.Unit, fx: seq<int>)
    requires c.Clause? && ScopedClauses(c, env.nlocals) && Advanced(env, u1, c.falls, fx)
    ensures E.CompileWords(u1, CaseWords(env, c.rest) + [E.EndCase]) == Some(RestResult(env, c, u1, fx))
    decreases c, 1
  {
    var at := |u1.cells| - 1;
    if c.falls {
      EmitsFallen(env, c.rest, u1, fx, at);
    } else {
      EmitsClauses(env, c.rest, u1, fx + [at]);
    }
  }

  /** A clause in front of clauses that compile as they should. */
  lemma {:induction false} EmitsOneMore(env: Env, c: S.Clauses, u: E.Unit, u1: E.Unit, fx: seq<int>)
    requires InCase(env, u, fx) && ScopedClauses(c, env.nlocals) && c.Clause?
    requires u1 == Advance(env, c, u, fx) && Advanced(env, u1, c.falls, fx)
    requires E.CompileWords(u1, CaseWords(env, c.rest) + [E.EndCase]) == Some(RestResult(env, c, u1, fx))
    ensures E.CompileWords(u, CaseWords(env, c) + [E.EndCase]) == Some(CaseResult(env, c, u, fx))
    decreases c, 1
  {
    EmitsClause(env, c, u, fx);
    CaseWordsSplit(env, c);
    RestIsRight(env, c, u, u1, fx);
    hide *;
    CompileAppend(u, ClauseWords(env, c), CaseWords(env, c.rest) + [E.EndCase]);
  }

  lemma CaseCodeIs(env: Env, c: S.Clauses, at: nat)
    requires c.Clause?
    ensures var t, b := Code(env, c.test, at), Code(env, c.body, at + Size(env, c.test) + 2);
            CaseCode(env, c, at) ==
            ClauseCells(t, b, 1 + if c.falls then EntryOffset(env, c.rest) else CaseSize(env, c.rest),
                        CaseCode(env, c.rest, at + |t| + |b| + 4))
  {
    hide Code, Size, CaseSize, EntryOffset;
  }

  lemma {:induction false} RestIsRight(env: Env, c: S.Clauses, u: E.Unit, u1: E.Unit, fx: seq<int>)
    requires InCase(env, u, fx) && c.Clause?
    requires u1 == Advance(env, c, u, fx) && Advanced(env, u1, c.falls, fx)
    ensures RestResult(env, c, u1, fx) == CaseResult(env, c, u, fx)
  {
    hide E.PatchFixups, AfterClause, Extend, Code, Size, CaseSize, EntryOffset, InCase, CaseCode, ClauseCells, Ready;
    var n := |u.cells|;
    var t, b := Code(env, c.test, n), Code(env, c.body, n + Size(env, c.test) + 2);
    var r := CaseCode(env, c.rest, |u1.cells|);
    CaseCodeIs(env, c, n);
    if c.falls {
      ClauseFallsThrough(env, u, t, b, r, EntryOffset(env, c.rest), fx);
    } else {
      ClauseEnds(env, u, t, b, r, fx);
    }
  }

  lemma {:induction false} EmitsDefault(env: Env, c: S.Clauses, u: E.Unit, fx: seq<int>)
    requires InCase(env, u, fx) && ScopedClauses(c, env.nlocals) && c.Default?
    ensures E.CompileWords(u, CaseWords(env, c) + [E.EndCase]) == Some(CaseResult(env, c, u, fx))
    decreases c, 0
  {
    var d := Code(env, c.d, E.Here(u));
    Emits(env, c.d, u);
    hide E.CompileWord, E.CompileWords, E.PatchFixups;
    CompileThen(u, Words(env, c.d), Extend(u, d), E.EndCase);
    DefaultEnd(u, d, fx);
  }

  /** The unit after a clause with test cells t and body cells b: the branch out of it
      still holds the placeholder 2. */
  function AfterClause(u: E.Unit, t: seq<Cell>, b: seq<Cell>, falls: bool, fx: seq<int>): (r: E.Unit)
    requires u.ctl != []
    ensures |r.cells| == |u.cells| + |t| + |b| + 4
  {
    var at := |u.cells| + |t| + |b| + 3;
    var below := E.Drop(u, 1).ctl;
    Extend(u, t + [Op(Of), Num(|b| + 3)] + b + [Op(Branch(true)), Num(2)])
      .(open := u.open + {at},
        ctl := if falls then below + [E.CaseSys(fx), E.Fall(at)] else below + [E.CaseSys(fx + [at])])
  }

  function ClauseCells(t: seq<Cell>, b: seq<Cell>, offset: int, r: seq<Cell>): seq<Cell> {
    t + [Op(Of), Num(|b| + 3)] + b + [Op(Branch(true)), Num(offset)] + r
  }

  lemma {:induction false} ClauseEnds(env: Env, u: E.Unit, t: seq<Cell>, b: seq<Cell>, r: seq<Cell>, fx: seq<int>)
    requires InCase(env, u, fx)
    ensures var u1 := AfterClause(u, t, b, false, fx);
            E.PatchFixups(Extend(E.Drop(u1, 1), r), fx + [E.Here(u1) - 1]) ==
            E.PatchFixups(Extend(E.Drop(u, 1), ClauseCells(t, b, |r| + 1, r)), fx)
  {
    var u1 := AfterClause(u, t, b, false, fx);
    var at := E.Here(u1) - 1;
    var u2 := Extend(E.Drop(u1, 1), r);
    assert (fx + [at])[..|fx|] == fx;
    assert at !in u.open;
    var p, q := E.PatchRel(u2, at), Extend(E.Drop(u, 1), ClauseCells(t, b, |r| + 1, r));
    assert p.cells == q.cells;
    assert p.ctl == q.ctl && p.open == q.open;
  }

  lemma {:induction false} ClauseFallsThrough(env: Env, u: E.Unit, t: seq<Cell>, b: seq<Cell>, r: seq<Cell>, offset: nat, fx: seq<int>)
    requires InCase(env, u, fx)
    ensures var u1 := AfterClause(u, t, b, true, fx);
            Extend(E.Drop(Fallen(u1, E.Here(u1) - 1, offset), 1), r) ==
            Extend(E.Drop(u, 1), ClauseCells(t, b, 1 + offset, r))
  {
    hide E.PatchFixups, E.Top;
    var u1 := AfterClause(u, t, b, true, fx);
    var at := E.Here(u1) - 1;
    assert at !in u.open;
    var p, q := Extend(E.Drop(Fallen(u1, at, offset), 1), r), Extend(E.Drop(u, 1), ClauseCells(t, b, 1 + offset, r));
    assert p.cells == q.cells;
    assert p.ctl == q.ctl && p.open == q.open;
  }

  lemma DefaultEnd(u: E.Unit, c: seq<Cell>, fx: seq<int>)
    requires u.compiling && u.ctl != [] && E.Top(u, 0) == E.CaseSys(fx)
    ensures E.CompileWord(Extend(u, c), E.EndCase) ==
            Some(E.PatchFixups(Extend(E.Drop(u, 1), c + [Op(Drop)]), fx))
  {
    var u1 := Extend(u, c);
    assert E.Emit(E.Drop(u1, 1), Drop).cells == u.cells + (c + [Op(Drop)]);
    assert E.Emit(E.Drop(u1, 1), Drop) == Extend(E.Drop(u, 1), c + [Op(Drop)]);
  }

  /** OF after the test cells t. */
  function AfterOf(u: E.Unit, t: seq<Cell>): E.Unit {
    var at := |u.cells| + |t| + 1;
    Extend(u, t + [Op(Of), Num(2)]).(ctl := u.ctl + [E.OfMark(at)], open := u.open + {at})
  }

  lemma OfCells(env: Env, u: E.Unit, t: seq<Cell>, fx: seq<int>)
    requires InCase(env, u, fx)
    ensures E.EmitOf(Extend(u, t)) == Some(AfterOf(u, t)) && Ready(env, AfterOf(u, t))
  {
    assert u.cells + t + [Op(Of), Num(2)] == u.cells + (t + [Op(Of), Num(2)]);
  }

  /** ENDOF or FALLTHROUGH after the body cells b. */
  lemma EndCells(env: Env, u: E.Unit, t: seq<Cell>, b: seq<Cell>, falls: bool, fx: seq<int>)
    requires InCase(env, u, fx)
    ensures E.EmitEndOf(Extend(AfterOf(u, t), b), falls) == Some(AfterClause(u, t, b, falls, fx))
  {
    var u3, at := Extend(AfterOf(u, t), b), |u.cells| + |t| + 1;
    assert E.Top(u3, 0) == E.OfMark(at) && E.Top(u3, 1) == E.CaseSys(fx);
    assert E.Drop(u3, 2).ctl == E.Drop(u, 1).ctl;
    var p, q := E.EmitEndOf(u3, falls).value, AfterClause(u, t, b, falls, fx);
    var out := [Op(Branch(true)), Num(2)];
    PatchSeq(u.cells + t, Op(Of), Num(2), b + out, Num(|b| + 3));
    assert u3.cells + out == u.cells + t + [Op(Of), Num(2)] + (b + out);
    assert p.cells == q.cells;
    assert at !in u.open;
    assert p.open == q.open && p.ctl == q.ctl;
  }

  function EndOfWord(falls: bool): E.Word {
    if falls then E.Fallthrough else E.EndOf
  }

  lemma OfAndEndWords(env: Env, u: E.Unit, t: seq<Cell>, b: seq<Cell>, falls: bool, fx: seq<int>)
    requires InCase(env, u, fx)
    ensures var u2 := E.CompileWord(Extend(u, t), E.OfWord);
            u2.Some? && Ready(env, u2.value) && E.Here(u2.value) == E.Here(u) + |t| + 2 &&
            E.CompileWord(Extend(u2.value, b), EndOfWord(falls)) == Some(AfterClause(u, t, b, falls, fx))
  {
    hide E.EmitOf, E.EmitEndOf, AfterClause;
    OfCells(env, u, t, fx);
    EndCells(env, u, t, b, falls, fx);
  }

  /** The words of a clause come before those of the remaining clauses. */
  lemma {:induction false} CaseWordsSplit(env: Env, c: S.Clauses)
    requires c.Clause?
    ensures CaseWords(env, c) + [E.EndCase] == ClauseWords(env, c) + (CaseWords(env, c.rest) + [E.EndCase])
  {
  }

  function ClauseWords(env: Env, c: S.Clauses): seq<E.Word>
    requires c.Clause?
  {
    Words(env, c.test) + [E.OfWord] + Words(env, c.body) + [EndOfWord(c.falls)]
  }

  /** One clause. */
  lemma {:induction false} EmitsClause(env: Env, c: S.Clauses, u: E.Unit, fx: seq<int>)
    requires InCase(env, u, fx) && ScopedClauses(c, env.nlocals) && c.Clause?
    ensures E.CompileWords(u, ClauseWords(env, c)) == Some(Advance(env, c, u, fx))
    decreases c, 0
  {
    hide E.CompileWord, E.CompileWords, Ready, AfterClause, E.Top, Extend, Code, Size, Words, Scoped;
    var n := E.Here(u);
    var t, b := Code(env, c.test, n), Code(env, c.body, n + Size(env, c.test) + 2);
    OfAndEndWords(env, u, t, b, c.falls, fx);
    Emits(env, c.test, u);
    var u2 := E.CompileWord(Extend(u, t), E.OfWord).value;
    Emits(env, c.body, u2);
    CompileThen(u, Words(env, c.test), Extend(u, t), E.OfWord);
    BracketAfter(u, Words(env, c.test) + [E.OfWord], u2, Words(env, c.body), b, EndOfWord(c.falls));
  }

  /** u with the FALLTHROUGH operand f patched to `offset` cells behind here and taken off the control stack. */
  function Fallen(u: E.Unit, f: int, offset: nat): E.Unit
    requires u.ctl != []
  {
    E.Patch(E.Drop(u, 1), f, E.Here(u) + offset - f)
  }

  /** Reaching the clauses with a FALLTHROUGH branch whose operand is f: the same as if
      that operand had been right from the start. */
  lemma {:induction false} EmitsFallen(env: Env, c: S.Clauses, u: E.Unit, fx: seq<int>, f: int)
    requires Ready(env, u) && ScopedClauses(c, env.nlocals)
    requires |u.ctl| >= 2 && E.Top(u, 0) == E.Fall(f) && E.Top(u, 1) == E.CaseSys(fx) && 0 <= f < |u.cells|
    ensures E.CompileWords(u, CaseWords(env, c) + [E.EndCase]) ==
            Some(CaseResult(env, c, Fallen(u, f, EntryOffset(env, c)), fx))
    decreases c, 3
  {
    var n := E.Here(u);
    if c.Default? {
      var d := Code(env, c.d, n);
      Emits(env, c.d, u);
      CompileThen(u, Words(env, c.d), Extend(u, d), E.EndCase);
      DefaultFallen(u, d, fx, f);
    } else {
      var p := Fallen(u, f, EntryOffset(env, c));
      EmitsClauses(env, c, p, fx);
      SameClauses(env, c, u, p, fx, f);
    }
  }

  lemma {:induction false} SameClauses(env: Env, c: S.Clauses, u: E.Unit, p: E.Unit, fx: seq<int>, f: int)
    requires Ready(env, u) && InCase(env, p, fx) && ScopedClauses(c, env.nlocals) && c.Clause?
    requires |u.ctl| >= 2 && E.Top(u, 0) == E.Fall(f) && E.Top(u, 1) == E.CaseSys(fx) && 0 <= f < |u.cells|
    requires p == Fallen(u, f, EntryOffset(env, c))
    ensures E.CompileWords(u, CaseWords(env, c) + [E.EndCase]) == E.CompileWords(p, CaseWords(env, c) + [E.EndCase])
    decreases c, 0
  {
    hide E.CompileWord, E.CompileWords, Extend, Words, CaseWords, Code, Size, E.Top;
    var t := Code(env, c.test, E.Here(u));
    Emits(env, c.test, u);
    Emits(env, c.test, p);
    SameOf(u, t, f, fx);
    var tail := ClauseTail(env, c);
    CaseWordsTest(env, c);
    CompileAppend(u, Words(env, c.test), [E.OfWord] + tail);
    CompileAppend(p, Words(env, c.test), [E.OfWord] + tail);
    SameStart(Extend(u, t), Extend(p, t), E.OfWord, tail);
  }

  function ClauseTail(env: Env, c: S.Clauses): seq<E.Word>
    requires c.Clause?
  {
    Words(env, c.body) + [EndOfWord(c.falls)] + CaseWords(env, c.rest) + [E.EndCase]
  }

  lemma CaseWordsTest(env: Env, c: S.Clauses)
    requires c.Clause?
    ensures CaseWords(env, c) + [E.EndCase] == Words(env, c.test) + ([E.OfWord] + ClauseTail(env, c))
  {
    hide Words;
  }

  lemma SameStart(u: E.Unit, v: E.Unit, w: E.Word, ws: seq<E.Word>)
    requires E.CompileWord(u, w) == E.CompileWord(v, w)
    ensures E.CompileWords(u, [w] + ws) == E.CompileWords(v, [w] + ws)
  {
    assert ([w] + ws)[0] == w && ([w] + ws)[1..] == ws;
  }

  lemma SameOf(u: E.Unit, t: seq<Cell>, f: int, fx: seq<int>)
    requires u.compiling && |u.ctl| >= 2 && E.Top(u, 0) == E.Fall(f) && E.Top(u, 1) == E.CaseSys(fx)
    requires 0 <= f < |u.cells|
    ensures E.CompileWord(Extend(u, t), E.OfWord) == E.CompileWord(Extend(Fallen(u, f, |t| + 2), t), E.OfWord)
  {
    var a, b := Extend(u, t), Extend(Fallen(u, f, |t| + 2), t);
    assert E.Top(a, 0) == E.Fall(f) && E.Top(a, 1) == E.CaseSys(fx) && E.Top(b, 0) == E.CaseSys(fx);
    var v, q := E.EmitOf(a).value, E.EmitOf(b).value;
    assert v.cells == q.cells;
    assert v.open == q.open && v.ctl == q.ctl;
  }

  lemma DefaultFallen(u: E.Unit, c: seq<Cell>, fx: seq<int>, f: int)
    requires u.compiling && |u.ctl| >= 2 && E.Top(u, 0) == E.Fall(f) && E.Top(u, 1) == E.CaseSys(fx)
    requires 0 <= f < |u.cells|
    ensures E.CompileWord(Extend(u, c), E.EndCase) ==
            Some(E.PatchFixups(Extend(E.Drop(Fallen(u, f, |c| + 1), 1), c + [Op(Drop)]), fx))
  {
    var u1 := Extend(u, c);
    assert E.Top(u1, 0) == E.Fall(f) && E.Top(u1, 1) == E.CaseSys(fx);
    var u2 := E.Emit(E.Drop(u1, 2), Drop);
    assert (fx + [f])[..|fx|] == fx;
    var p, q := E.PatchRel(u2, f), Extend(E.Drop(Fallen(u, f, |c| + 1), 1), c + [Op(Drop)]);
    assert p.cells == q.cells;
    assert p.ctl == q.ctl && p.open == q.open;
  }

  // ---------------------------------------------------------------------
  // Whole definitions

  lemma {:induction false} LocalsSnoc(k: nat, n: nat)
    requires k <= n
    ensures LocalsCode(k, n + 1) == LocalsCode(k, n) + [Op(ToLocal), Num(n)]
    decreases n - k
  {
    if k < n {
      LocalsSnoc(k + 1, n);
      var x, y := [Op(ToLocal), Num(k)], LocalsCode(k + 1, n);
      assert x + (y + [Op(ToLocal), Num(n)]) == x + y + [Op(ToLocal), Num(n)];
    } else {
      assert LocalsCode(n, n + 1) == [Op(ToLocal), Num(n)] + LocalsCode(n + 1, n + 1);
    }
  }

  /** Declaring n > 0 locals, before the end message: (link) still holds its placeholder. */
  function Declared(memory: seq<Cell>, n: nat): E.Unit {
    E.Unit(|memory|, memory + [Op(Link), Num(0)] + LocalsCode(0, n), [E.Colon], n, |memory| + 1, true, {|memory| + 1})
  }

  lemma {:induction false} EmitsNewLocals(memory: seq<Cell>, n: nat)
    requires 0 < n <= E.MAX_LOCALS
    ensures E.CompileWords(E.Start(memory), NewLocals(n)) == Some(Declared(memory, n))
  {
    LocalsSnoc(0, n - 1);
    if n == 1 {
      assert NewLocals(1) == [E.NewLocal];
      CompileOne(E.Start(memory), E.NewLocal);
      var u := E.CompileWord(E.Start(memory), E.NewLocal).value;
      assert u.cells == memory + [Op(Link), Num(0)] + [Op(ToLocal), Num(0)];
      assert LocalsCode(0, 1) == [] + [Op(ToLocal), Num(0)];
      assert u == Declared(memory, 1);
    } else {
      EmitsNewLocals(memory, n - 1);
      CompileThen(E.Start(memory), NewLocals(n - 1), Declared(memory, n - 1), E.NewLocal);
      var u := E.CompileWord(Declared(memory, n - 1), E.NewLocal).value;
      assert u.cells == Declared(memory, n).cells;
      assert u.open == {|memory| + 1};
    }
  }

  /** The unit at the start of the body, locals declared. */
  function AtBody(env: Env, memory: seq<Cell>): E.Unit {
    E.Unit(|memory|, memory + Prologue(env.nlocals), [E.Colon], env.nlocals,
           if env.nlocals > 0 then |memory| + 1 else 0, true, {})
  }

  lemma EmitsPrologue(env: Env, memory: seq<Cell>)
    requires env.nlocals <= E.MAX_LOCALS
    ensures E.CompileWords(E.Start(memory), LocalWords(env)) == Some(AtBody(env, memory))
  {
    var n := env.nlocals;
    if n > 0 {
      EmitsNewLocals(memory, n);
      CompileThen(E.Start(memory), NewLocals(n), Declared(memory, n), E.LocalsDone);
      var u := E.CompileWord(Declared(memory, n), E.LocalsDone).value;
      assert u.cells == memory + Prologue(n);
      assert u.open == {};
    } else {
      assert memory + Prologue(n) == memory;
    }
  }

  lemma EmitsSemiColon(env: Env, memory: seq<Cell>, c: seq<Cell>)
    ensures var u := E.CompileWord(Extend(AtBody(env, memory), c), E.SemiColon);
            u.Some? && !u.value.compiling &&
            u.value.cells == memory + (Prologue(env.nlocals) + c + ExitCode(env, Semi))
  {
    var u := Extend(AtBody(env, memory), c);
    assert E.Top(u, 0) == E.Colon;
    var v := E.CompileWord(u, E.SemiColon).value;
    assert v.cells == memory + (Prologue(env.nlocals) + c + ExitCode(env, Semi));
  }

  /** Compiling a definition word by word puts exactly its layout at the end of memory. */
  lemma EmitsDefinition(env: Env, body: S.Stmt, memory: seq<Cell>)
    requires env.nlocals <= E.MAX_LOCALS && Scoped(body, env.nlocals)
    ensures var u := E.CompileWords(E.Start(memory), DefWords(env, body));
            u.Some? && !u.value.compiling && u.value.cells == memory + DefCode(env, body, |memory|)
  {
    hide E.CompileWord, E.CompileWords, Words, Code, Prologue, ExitCode, Extend;
    EmitsPrologue(env, memory);
    var u := AtBody(env, memory);
    var c := Code(env, body, |u.cells|);
    Emits(env, body, u);
    EmitsSemiColon(env, memory, c);
    BracketAfter(E.Start(memory), LocalWords(env), u, Words(env, body), c, E.SemiColon);
  }
}
