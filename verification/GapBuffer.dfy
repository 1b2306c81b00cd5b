/**
  The array of src/array.c: elements in a window of a buffer that grows, shrinks and
  re-centres, so that both ends can be extended.
 */
module GapBuffer {
  import opened Wrappers

  const DEFAULT_SEQ_LENGTH := 128
  /** 1 cells 20 lshift, with cells of 8 bytes. */
  const MAX_SEQ_LENGTH := 0x80_0000

  function NewSeqLength(len: int): (r: int)
    requires len >= 0
    ensures len < r <= len + DEFAULT_SEQ_LENGTH && r % DEFAULT_SEQ_LENGTH == 0
  {
    (len / DEFAULT_SEQ_LENGTH + 1) * DEFAULT_SEQ_LENGTH
  }

  // ---------------------------------------------------------------------
  // Where the window lies

  /** buf_length, top and length. */
  datatype Shape = Shape(size: int, top: int, length: int) {
    predicate Fits() {
      0 <= top && 0 <= length && top + length <= size && 0 < size <= MAX_SEQ_LENGTH
    }

    function End(): int { top + length }
  }

  /** make_array; None stands for the error. */
  function Make(len: int): (r: Option<Shape>)
    ensures r.Some? ==> r.value.Fits() && r.value.length == len
  {
    if len < 0 then None
    else
      var top := NewSeqLength(len) / 3;
      var size := NewSeqLength(len + top);
      if size > MAX_SEQ_LENGTH then None else Some(Shape(size, top, len))
  }

  /** Room up to `need` cells, by reallocation if the buffer is too short. */
  function Grow(s: Shape, need: int): (r: Option<Shape>)
    requires need >= 0
  {
    if need <= s.size then Some(s)
    else if NewSeqLength(need) > MAX_SEQ_LENGTH then None
    else Some(s.(size := NewSeqLength(need)))
  }

  /** The buffer is cut when fewer cells than it has would be allotted for `used`. */
  function Cut(s: Shape, used: int): (r: Shape)
    requires used >= 0
  {
    if NewSeqLength(used) < s.size then s.(size := NewSeqLength(used)) else s
  }

  function Pushed(s: Shape): (r: Option<Shape>)
    requires s.Fits()
  {
    match Grow(s, s.top + s.length + 1)
    case None => None
    case Some(t) => Some(t.(length := s.length + 1))
  }

  function Popped(s: Shape): (r: Shape)
    requires s.Fits() && s.length > 0
  {
    var t := s.(length := s.length - 1);
    Cut(t, t.top + t.length)
  }

  function Unshifted(s: Shape): (r: Option<Shape>)
    requires s.Fits()
  {
    if s.top - 1 < 1 then
      match Grow(s, s.size / 3 + s.length + 1)
      case None => None
      case Some(t) => Some(Shape(t.size, s.size / 3, s.length + 1))
    else
      match Grow(s, s.top - 1 + s.length + 1)
      case None => None
      case Some(t) => Some(Shape(t.size, s.top - 1, s.length + 1))
  }

  /** Where the first element is when shift removes it: the window is moved back if it is far to the right. */
  function Recentred(s: Shape): (r: Shape) {
    if s.top + 1 > s.size / 2 then s.(top := s.size / 3) else s
  }

  function Shifted(s: Shape): (r: Shape)
    requires s.Fits() && s.length > 0
  {
    var t := Recentred(s);
    Cut(Shape(t.size, t.top + 1, t.length - 1), t.top + t.length - 1)
  }

  function Inserted(s: Shape, n: nat): (r: Option<Shape>)
    requires s.Fits()
  {
    match Grow(s, s.top + s.length + n)
    case None => None
    case Some(t) => Some(t.(length := s.length + n))
  }

  /** The growth in unshift's second branch is never needed. */
  lemma UnshiftSecondGrowthIdle(s: Shape)
    requires s.Fits() && s.top - 1 >= 1
    ensures s.top - 1 + s.length + 1 <= s.size
    ensures Unshifted(s) == Some(Shape(s.size, s.top - 1, s.length + 1))
  {
  }

  /** The cells that delete still reads after cutting the buffer are all there. */
  lemma DeleteReadsWithin(s: Shape)
    requires s.Fits() && s.length > 0
    ensures s.End() <= Popped(s).size
  {
  }

  // ---------------------------------------------------------------------
  // Space

  /** The space bound for arrays that never had more than peak elements. */
  predicate Roomy(s: Shape, peak: int) {
    s.Fits() && s.length <= peak && s.size <= 2 * peak + 256 && s.top <= peak + 128
  }

  lemma MakeRoomy(len: int, peak: int)
    requires 0 <= len <= peak
    ensures Make(len).Some? ==> Roomy(Make(len).value, peak)
    ensures 2 * peak + 256 <= MAX_SEQ_LENGTH ==> Make(len).Some?
  {
  }

  /** What a step from s to t keeps: the window inside the buffer, the space bound, and success below the limit. */
  predicate Keeps(s: Shape, t: Option<Shape>, length: int, peak: int) {
    (t.Some? ==> t.value.Fits() && t.value.length == length) &&
    (Roomy(s, peak) && length <= peak ==>
       (t.Some? ==> Roomy(t.value, peak)) && (2 * peak + 256 <= MAX_SEQ_LENGTH ==> t.Some?))
  }

  lemma PushKeeps(s: Shape, peak: int)
    requires s.Fits()
    ensures Keeps(s, Pushed(s), s.length + 1, peak)
  {
  }

  lemma UnshiftKeeps(s: Shape, peak: int)
    requires s.Fits()
    ensures Keeps(s, Unshifted(s), s.length + 1, peak)
  {
  }

  lemma InsertKeeps(s: Shape, n: nat, peak: int)
    requires s.Fits()
    ensures Keeps(s, Inserted(s, n), s.length + n, peak)
  {
  }

  lemma PopKeeps(s: Shape, peak: int)
    requires s.Fits() && s.length > 0
    ensures Keeps(s, Some(Popped(s)), s.length - 1, peak)
  {
  }

  lemma ShiftKeeps(s: Shape, peak: int)
    requires s.Fits() && s.length > 0
    ensures Keeps(s, Some(Shifted(s)), s.length - 1, peak)
  {
    assert Recentred(s).Fits();
    assert Recentred(s).top + 1 <= s.size / 2 || Recentred(s).top == s.size / 3;
  }

  /** Insertion of n elements in front, one by one, and how many of them found room. */
  datatype Front = Front(shape: Shape, count: nat)

  function Prepended(s: Shape, n: nat): (r: Front)
    requires s.Fits()
    ensures r.shape.Fits() && r.count <= n && r.shape.length == s.length + r.count
    decreases n
  {
    if n == 0 || Unshifted(s).None? then Front(s, 0)
    else
      UnshiftKeeps(s, 0);
      var r := Prepended(Unshifted(s).value, n - 1);
      Front(r.shape, r.count + 1)
  }

  lemma {:induction false} PrependedKeeps(s: Shape, n: nat, peak: int)
    requires Roomy(s, peak) && s.length + n <= peak && 2 * peak + 256 <= MAX_SEQ_LENGTH
    ensures Prepended(s, n).count == n && Roomy(Prepended(s, n).shape, peak)
    decreases n
  {
    hide Unshifted;
    if n > 0 {
      UnshiftKeeps(s, peak);
      PrependedKeeps(Unshifted(s).value, n - 1, peak);
    }
  }

  // ---------------------------------------------------------------------
  // The operations

  /** What an operation answers: TooLong, OutOfRange and WrongType are the source's errors, Empty its #f. */
  datatype Reply<T> = Done | Value(value: T) | Empty | OutOfRange | WrongType | TooLong

  datatype Op<T> = Push(x: T) | Pop | Unshift(x: T) | Shift | Insert(idx: int, xs: seq<T>) | Delete(idx: int)

  datatype Effect<T> = Effect(contents: seq<T>, reply: Reply<T>)

  /** Negative indices count from the end. */
  function Index(idx: int, length: int): int {
    if idx < 0 then idx + length else idx
  }

  /** The operations on a plain sequence. */
  function Plain<T>(c: seq<T>, op: Op<T>): (r: Effect<T>) {
    match op
    case Push(x) => Effect(c + [x], Done)
    case Unshift(x) => Effect([x] + c, Done)
    case Pop => if c == [] then Effect(c, Empty) else Effect(c[..|c| - 1], Value(c[|c| - 1]))
    case Shift => if c == [] then Effect(c, Empty) else Effect(c[1..], Value(c[0]))
    case Insert(idx, xs) =>
      var i := Index(idx, |c|);
      if i == 0 then Effect(xs + c, Done)
      else if i < 0 || i >= |c| then Effect(c, OutOfRange)
      else Effect(c[..i] + xs + c[i..], Done)
    case Delete(idx) =>
      var i := Index(idx, |c|);
      if c == [] then Effect(c, WrongType)
      else if i < 0 || i >= |c| then Effect(c, OutOfRange)
      else Effect(c[..i] + c[i + 1..], Value(c[i]))
  }

  lemma DeletePlain<T>(c: seq<T>, idx: int)
    ensures var i := Index(idx, |c|);
            Plain(c, Op.Delete(idx)) ==
              if c == [] then Effect(c, WrongType)
              else if i < 0 || i >= |c| then Effect(c, OutOfRange)
              else Effect(c[..i] + c[i + 1..], Value(c[i]))
  {
  }

  /** Deletion at -k removes the k-th element from the end; -1 is pop. */
  lemma NegativeDelete<T>(c: seq<T>, k: int)
    requires k >= 1
    ensures k <= |c| ==> Plain(c, Op.Delete(-k)) == Effect(c[..|c| - k] + c[|c| - k + 1..], Value(c[|c| - k]))
    ensures k > |c| > 0 ==> Plain(c, Op.Delete(-k)) == Effect(c, OutOfRange)
    ensures c != [] ==> Plain(c, Op.Delete(-1)) == Plain(c, Op.Pop)
  {
    if c != [] {
      assert c[..|c| - 1] + c[|c|..] == c[..|c| - 1];
    }
  }

  /** Insertion at -k puts the elements before the k-th element from the end. */
  lemma NegativeInsert<T>(c: seq<T>, k: int, xs: seq<T>)
    requires k >= 1
    ensures k <= |c| ==> Plain(c, Op.Insert(-k, xs)) == Effect(c[..|c| - k] + xs + c[|c| - k..], Done)
    ensures k > |c| ==> Plain(c, Op.Insert(-k, xs)) == Effect(c, OutOfRange)
  {
    if k == |c| {
      assert c[..0] + xs + c[0..] == xs + c;
    }
  }

  /** From the front, indices are those of the elements; insertion behind the last one is out of range but for 0. */
  lemma IndexFromFront<T>(c: seq<T>, i: nat, xs: seq<T>)
    ensures i < |c| ==>
              Plain(c, Op.Delete(i)) == Effect(c[..i] + c[i + 1..], Value(c[i])) &&
              Plain(c, Op.Insert(i, xs)) == Effect(c[..i] + xs + c[i..], Done)
    ensures i >= |c| > 0 ==> Plain(c, Op.Delete(i)) == Effect(c, OutOfRange)
    ensures i >= |c| && i > 0 ==> Plain(c, Op.Insert(i, xs)) == Effect(c, OutOfRange)
  {
    if i == 0 < |c| {
      assert c[..0] + xs + c[0..] == xs + c;
    }
  }

  function PlainRun<T>(c: seq<T>, ops: seq<Op<T>>): (r: seq<T>)
    decreases |ops|
  {
    if ops == [] then c else PlainRun(Plain(c, ops[0]).contents, ops[1..])
  }

  function PlainReplies<T>(c: seq<T>, ops: seq<Op<T>>): (r: seq<Reply<T>>)
    decreases |ops|
  {
    if ops == [] then [] else [Plain(c, ops[0]).reply] + PlainReplies(Plain(c, ops[0]).contents, ops[1..])
  }

  /** No prefix of the run holds more than peak elements. */
  predicate Within<T>(c: seq<T>, ops: seq<Op<T>>, peak: int)
    decreases |ops|
  {
    |c| <= peak && (ops != [] ==> Within(Plain(c, ops[0]).contents, ops[1..], peak))
  }

  /** The window and the elements of an array. */
  datatype Stored<T> = Stored(window: Shape, contents: seq<T>) {
    predicate Fits() {
      window.Fits() && |contents| == window.length
    }
  }

  datatype Outcome<T> = Outcome(stored: Stored<T>, reply: Reply<T>)

  /** The operation if the buffer could be enlarged as far as needed, otherwise the error with nothing changed. */
  function Enlarged<T>(s: Stored<T>, grown: Option<Shape>, contents: seq<T>): (r: Outcome<T>) {
    match grown
    case None => Outcome(s, TooLong)
    case Some(w) => Outcome(Stored(w, contents), Done)
  }

  function Without<T>(s: Stored<T>, idx: int): (r: Outcome<T>)
    requires s.Fits() && 0 <= idx < |s.contents|
  {
    var c := s.contents;
    Outcome(Stored(if idx == 0 then Shifted(s.window) else Popped(s.window), c[..idx] + c[idx + 1..]), Value(c[idx]))
  }

  /** The operations on any array, long or short: what is left and what is answered. */
  function Exact<T>(s: Stored<T>, op: Op<T>): (r: Outcome<T>)
    requires s.Fits()
  {
    var c := s.contents;
    match op
    case Push(x) => Enlarged(s, Pushed(s.window), c + [x])
    case Unshift(x) => Enlarged(s, Unshifted(s.window), [x] + c)
    case Pop =>
      if c == [] then Outcome(s, Empty)
      else Outcome(Stored(Popped(s.window), c[..|c| - 1]), Value(c[|c| - 1]))
    case Shift => if c == [] then Outcome(s, Empty) else Outcome(Stored(Shifted(s.window), c[1..]), Value(c[0]))
    case Insert(idx, xs) =>
      var i := Index(idx, |c|);
      if i == 0 then
        // one by one from the last: an error leaves those already in place
        var f := Prepended(s.window, |xs|);
        Outcome(Stored(f.shape, xs[|xs| - f.count..] + c), if f.count == |xs| then Done else TooLong)
      else if i < 0 || i >= |c| then Outcome(s, OutOfRange)
      else Enlarged(s, Inserted(s.window, |xs|), c[..i] + xs + c[i..])
    case Delete(idx) =>
      var i := Index(idx, |c|);
      if c == [] then Outcome(s, WrongType)
      else if i < 0 || i >= |c| then Outcome(s, OutOfRange)
      else Without(s, i)
  }

  lemma ExactFits<T>(s: Stored<T>, op: Op<T>)
    requires s.Fits()
    ensures Exact(s, op).stored.Fits()
  {
    hide Pushed, Popped, Unshifted, Shifted, Inserted, Prepended, Roomy;
    var w := s.window;
    PushKeeps(w, 0);
    UnshiftKeeps(w, 0);
    InsertKeeps(w, if op.Insert? then |op.xs| else 0, 0);
    if w.length > 0 {
      PopKeeps(w, 0);
      ShiftKeeps(w, 0);
    }
  }

  function ExactRun<T>(s: Stored<T>, ops: seq<Op<T>>): (r: Stored<T>)
    requires s.Fits()
    decreases |ops|
  {
    if ops == [] then s
    else
      ExactFits(s, ops[0]);
      ExactRun(Exact(s, ops[0]).stored, ops[1..])
  }

  function ExactReplies<T>(s: Stored<T>, ops: seq<Op<T>>): (r: seq<Reply<T>>)
    requires s.Fits()
    ensures |r| == |ops|
    decreases |ops|
  {
    if ops == [] then []
    else
      ExactFits(s, ops[0]);
      [Exact(s, ops[0]).reply] + ExactReplies(Exact(s, ops[0]).stored, ops[1..])
  }

  /** One operation is that on a plain sequence if and only if it does not answer "too long". */
  lemma ExactIsPlain<T>(s: Stored<T>, op: Op<T>)
    requires s.Fits()
    ensures Exact(s, op).reply != TooLong ==>
              Plain(s.contents, op) == Effect(Exact(s, op).stored.contents, Exact(s, op).reply)
    ensures Plain(s.contents, op).reply != TooLong
  {
  }

  // When an operation answers "too long": the guards, on the window as the caller finds it

  /** More cells are needed than there are, and the buffer for them would be too long. */
  predicate Refused(s: Shape, need: int)
    requires need >= 0
  {
    need > s.size && NewSeqLength(need) > MAX_SEQ_LENGTH
  }

  /** The buffer may have 8388608 cells, and a reallocation always leaves one to spare. */
  lemma RefusedMeans(s: Shape, need: int)
    requires need >= 0
    ensures Refused(s, need) <==> need > s.size && need >= 8388608
  {
  }

  /** unshift needs room only when there is no cell left in front. */
  predicate FrontRefused(s: Shape)
    requires s.Fits()
  {
    s.top <= 1 && Refused(s, s.size / 3 + s.length + 1)
  }

  /** One of n elements put in front one by one finds no room. */
  predicate FrontRunsOut(s: Shape, n: nat)
    requires s.Fits()
    decreases n
  {
    n > 0 && (FrontRefused(s) || (UnshiftKeeps(s, 0); FrontRunsOut(Unshifted(s).value, n - 1)))
  }

  predicate Fails<T>(s: Shape, op: Op<T>)
    requires s.Fits()
  {
    match op
    case Push(_) => Refused(s, s.top + s.length + 1)
    case Unshift(_) => FrontRefused(s)
    case Insert(idx, xs) =>
      var i := Index(idx, s.length);
      if i == 0 then FrontRunsOut(s, |xs|) else 0 < i < s.length && Refused(s, s.top + s.length + |xs|)
    case _ => false
  }

  lemma {:induction false} FrontCount(s: Shape, n: nat)
    requires s.Fits()
    ensures Prepended(s, n).count < n <==> FrontRunsOut(s, n)
    decreases n
  {
    if n > 0 && !FrontRefused(s) {
      UnshiftKeeps(s, 0);
      FrontCount(Unshifted(s).value, n - 1);
    }
  }

  /** An operation answers "too long" if and only if its guard fails. */
  lemma FailsExactly<T>(s: Stored<T>, op: Op<T>)
    requires s.Fits()
    ensures Exact(s, op).reply == TooLong <==> Fails(s.window, op)
  {
    hide Prepended, FrontRunsOut;
    if op.Insert? {
      FrontCount(s.window, |op.xs|);
    }
  }

  /** The k-th reply is that of the k-th operation on what the ones before it left. */
  lemma {:induction false} ReplyAt<T>(s: Stored<T>, ops: seq<Op<T>>, k: nat)
    requires s.Fits() && k < |ops|
    ensures ExactRun(s, ops[..k]).Fits()
    ensures ExactReplies(s, ops)[k] == Exact(ExactRun(s, ops[..k]), ops[k]).reply
    decreases k
  {
    hide Exact;
    if k > 0 {
      ExactFits(s, ops[0]);
      assert ops[..k][1..] == ops[1..][..k - 1];
      ReplyAt(Exact(s, ops[0]).stored, ops[1..], k - 1);
    }
  }

  /** The k-th operation of the run finds its guard failing. */
  predicate FailsAt<T>(s: Stored<T>, ops: seq<Op<T>>, k: nat)
    requires s.Fits() && k < |ops|
  {
    ReplyAt(s, ops, k);
    Fails(ExactRun(s, ops[..k]).window, ops[k])
  }

  /** A run is that on a plain sequence, replies and all, if and only if no operation finds its guard failing;
      and exactly those operations answer "too long". */
  lemma ExactRunIsPlain<T>(s: Stored<T>, ops: seq<Op<T>>)
    requires s.Fits()
    ensures forall k :: 0 <= k < |ops| ==> (ExactReplies(s, ops)[k] == TooLong <==> FailsAt(s, ops, k))
    ensures (forall k :: 0 <= k < |ops| ==> !FailsAt(s, ops, k)) <==> ExactReplies(s, ops) == PlainReplies(s.contents, ops)
    ensures (forall k :: 0 <= k < |ops| ==> !FailsAt(s, ops, k)) ==> ExactRun(s, ops).contents == PlainRun(s.contents, ops)
  {
    hide Exact, Fails, ExactRun;
    forall k | 0 <= k < |ops|
      ensures ExactReplies(s, ops)[k] == TooLong <==> FailsAt(s, ops, k)
    {
      ReplyAt(s, ops, k);
      FailsExactly(ExactRun(s, ops[..k]), ops[k]);
    }
    RunIsPlain(s, ops);
  }

  lemma {:induction false} RunIsPlain<T>(s: Stored<T>, ops: seq<Op<T>>)
    requires s.Fits()
    ensures TooLong !in ExactReplies(s, ops) <==> ExactReplies(s, ops) == PlainReplies(s.contents, ops)
    ensures TooLong !in ExactReplies(s, ops) ==> ExactRun(s, ops).contents == PlainRun(s.contents, ops)
    decreases |ops|
  {
    hide Exact, Plain;
    if ops != [] {
      ExactFits(s, ops[0]);
      ExactIsPlain(s, ops[0]);
      var t := Exact(s, ops[0]).stored;
      RunIsPlain(t, ops[1..]);
      var e, p := ExactReplies(t, ops[1..]), PlainReplies(Plain(s.contents, ops[0]).contents, ops[1..]);
      assert ExactReplies(s, ops)[0] == Exact(s, ops[0]).reply && ExactReplies(s, ops)[1..] == e;
      assert PlainReplies(s.contents, ops)[0] == Plain(s.contents, ops[0]).reply;
    }
  }

  // Space over any run, failures included

  /** The array never holds more than peak elements over the run. */
  predicate Holds<T>(s: Stored<T>, ops: seq<Op<T>>, peak: int)
    requires s.Fits()
    decreases |ops|
  {
    |s.contents| <= peak &&
    (ops != [] ==> (ExactFits(s, ops[0]); Holds(Exact(s, ops[0]).stored, ops[1..], peak)))
  }

  lemma {:induction false} PrependedRoomy(s: Shape, n: nat, peak: int)
    requires Roomy(s, peak) && Prepended(s, n).shape.length <= peak
    ensures Roomy(Prepended(s, n).shape, peak)
    decreases n
  {
    hide Unshifted;
    if n > 0 && Unshifted(s).Some? {
      UnshiftKeeps(s, peak);
      PrependedRoomy(Unshifted(s).value, n - 1, peak);
    }
  }

  lemma ExactKeepsRoom<T>(s: Stored<T>, op: Op<T>, peak: nat)
    requires s.Fits() && Roomy(s.window, peak) && |Exact(s, op).stored.contents| <= peak
    ensures Roomy(Exact(s, op).stored.window, peak)
  {
    hide Pushed, Popped, Unshifted, Shifted, Inserted, Prepended, Roomy;
    var w := s.window;
    PushKeeps(w, peak);
    UnshiftKeeps(w, peak);
    if w.length > 0 {
      PopKeeps(w, peak);
      ShiftKeeps(w, peak);
    }
    if op.Insert? {
      InsertKeeps(w, |op.xs|, peak);
      if Index(op.idx, w.length) == 0 {
        PrependedRoomy(w, |op.xs|, peak);
      }
    }
  }

  /** Over every run, short or long and whatever fails, the buffer is linear in the greatest number of elements held. */
  lemma {:induction false} RunKeepsRoom<T>(s: Stored<T>, ops: seq<Op<T>>, peak: nat)
    requires s.Fits() && Roomy(s.window, peak) && Holds(s, ops, peak)
    ensures Roomy(ExactRun(s, ops).window, peak)
    decreases |ops|
  {
    hide Exact, Roomy;
    if ops != [] {
      ExactFits(s, ops[0]);
      ExactKeepsRoom(s, ops[0], peak);
      RunKeepsRoom(Exact(s, ops[0]).stored, ops[1..], peak);
    }
  }

  /** The same for every run from an array as make_array leaves it. */
  lemma SpaceIsLinear<T>(len: int, c: seq<T>, ops: seq<Op<T>>, peak: nat)
    requires Make(len).Some? && |c| == len
    requires Holds(Stored(Make(len).value, c), ops, peak)
    ensures var w := ExactRun(Stored(Make(len).value, c), ops).window;
            w.Fits() && w.size <= 2 * peak + 256 && 2 * w.top <= 2 * peak + 256
  {
    MakeRoomy(len, peak);
    RunKeepsRoom(Stored(Make(len).value, c), ops, peak);
  }

  lemma ExactRoomy<T>(s: Stored<T>, op: Op<T>, peak: nat)
    requires s.Fits() && Roomy(s.window, peak) && 2 * peak + 256 <= MAX_SEQ_LENGTH
    requires |Plain(s.contents, op).contents| <= peak
    ensures Exact(s, op).reply != TooLong && Roomy(Exact(s, op).stored.window, peak)
  {
    hide Pushed, Popped, Unshifted, Shifted, Inserted, Prepended, Roomy;
    var w := s.window;
    PushKeeps(w, peak);
    UnshiftKeeps(w, peak);
    if w.length > 0 {
      PopKeeps(w, peak);
      ShiftKeeps(w, peak);
    }
    if op.Insert? {
      InsertKeeps(w, |op.xs|, peak);
      if Index(op.idx, w.length) == 0 {
        PrependedKeeps(w, |op.xs|, peak);
      }
    }
  }

  /** A run that stays short never answers "too long", and its space stays bounded. */
  lemma {:induction false} ShortRunsSucceed<T>(s: Stored<T>, ops: seq<Op<T>>, peak: nat)
    requires s.Fits() && Roomy(s.window, peak) && 2 * peak + 256 <= MAX_SEQ_LENGTH
    requires Within(s.contents, ops, peak)
    ensures TooLong !in ExactReplies(s, ops) && Roomy(ExactRun(s, ops).window, peak)
    decreases |ops|
  {
    hide Exact, Plain, Roomy;
    if ops != [] {
      ExactFits(s, ops[0]);
      ExactIsPlain(s, ops[0]);
      assert |Plain(s.contents, ops[0]).contents| <= peak;
      ExactRoomy(s, ops[0], peak);
      ShortRunsSucceed(Exact(s, ops[0]).stored, ops[1..], peak);
    }
  }

  class Array<T> {
    var buf: array<T>
    var top: int
    var length: int

    ghost predicate Valid()
      reads this
    {
      Window().Fits()
    }

    function Window(): (s: Shape)
      reads this
    {
      Shape(buf.Length, top, length)
    }

    ghost function Contents(): (c: seq<T>)
      requires Valid()
      reads this, buf
      ensures |c| == length
    {
      buf[top..top + length]
    }

    /** make_array for a length it accepts; every cell holds the blank. */
    constructor (len: int, blank: T)
      requires Make(len).Some?
      ensures Valid() && Window() == Make(len).value && fresh(buf)
      ensures Contents() == seq(len, _ => blank)
    {
      var topLength := NewSeqLength(len) / 3;
      var bufLength := NewSeqLength(len + topLength);
      buf := new T[bufLength](_ => blank);
      top, length := topLength, len;
    }

    /** FTH_REALLOC of the buffer: the cells both sizes have are kept, of further ones nothing is said. */
    method Realloc(size: int)
      requires 0 < size && buf.Length > 0
      modifies this`buf
      ensures fresh(buf) && buf.Length == size
      ensures forall i :: 0 <= i < size && i < old(buf.Length) ==> buf[i] == old(buf[i])
    {
      var from := buf;
      var any := from[0];
      var to := new T[size](_ => any);
      forall i | 0 <= i < size && i < from.Length {
        to[i] := from[i];
      }
      buf := to;
    }

    /** memmove of n cells inside the buffer. */
    method Memmove(to: int, from: int, n: int)
      requires 0 <= n && 0 <= to <= to + n <= buf.Length && 0 <= from <= from + n <= buf.Length
      modifies buf
      ensures buf[..] == Copied(old(buf[..]), to, from, n)
    {
      forall i | 0 <= i < n {
        buf[to + i] := buf[from + i];
      }
    }

    /** The check for room, with the reallocation when there is too little. */
    method Reserve(need: int) returns (ok: bool)
      requires Valid() && need >= 0
      modifies this`buf
      ensures Valid() && (buf == old(buf) || fresh(buf)) && Contents() == old(Contents())
      ensures ok == Grow(old(Window()), need).Some?
      ensures Window() == if ok then Grow(old(Window()), need).value else old(Window())
    {
      if need > buf.Length {
        var len := NewSeqLength(need);
        if len > MAX_SEQ_LENGTH {
          return false;
        }
        Realloc(len);
      }
      ok := true;
    }

    /** The elements are moved so that the window begins at `to`. */
    method Slide(to: int)
      requires Valid() && 0 <= to <= to + length <= buf.Length
      modifies this`top, buf
      ensures Valid() && Window() == old(Window()).(top := to) && Contents() == old(Contents())
    {
      CopiedSlice(buf[..], to, top, length);
      Memmove(to, top, length);
      top := to;
    }

    method Push(value: T) returns (r: Reply<T>)
      requires Valid()
      modifies this, buf
      ensures Valid() && (buf == old(buf) || fresh(buf))
      ensures Pushed(old(Window())).Some? ==> r == Done && Window() == Pushed(old(Window())).value
      ensures Pushed(old(Window())).Some? ==> Contents() == old(Contents()) + [value]
      ensures Pushed(old(Window())).None? ==> r == TooLong && Window() == old(Window()) && Contents() == old(Contents())
    {
      var ok := Reserve(top + length + 1);
      if !ok {
        return TooLong;
      }
      buf[top + length] := value;
      length := length + 1;
      r := Done;
    }

    method Pop() returns (r: Reply<T>)
      requires Valid()
      modifies this
      ensures Valid() && (buf == old(buf) || fresh(buf))
      ensures old(length) == 0 ==> r == Empty && Window() == old(Window()) && Contents() == old(Contents())
      ensures old(length) > 0 ==> Window() == Popped(old(Window())) && r.Value? && old(Contents()) == Contents() + [r.value]
    {
      if length == 0 {
        return Empty;
      }
      length := length - 1;
      r := Value(buf[top + length]);
      var len := NewSeqLength(top + length);
      if len < buf.Length {
        Realloc(len);
      }
    }

    method Unshift(value: T) returns (r: Reply<T>)
      requires Valid()
      modifies this, buf
      ensures Valid() && (buf == old(buf) || fresh(buf))
      ensures Unshifted(old(Window())).Some? ==> r == Done && Window() == Unshifted(old(Window())).value
      ensures Unshifted(old(Window())).Some? ==> Contents() == [value] + old(Contents())
      ensures Unshifted(old(Window())).None? ==> r == TooLong && Window() == old(Window()) && Contents() == old(Contents())
    {
      var ok := OpenFront();
      if !ok {
        return TooLong;
      }
      Prepend(value);
      r := Done;
    }

    /** Makes sure that there is a free cell before the first element. */
    method OpenFront() returns (ok: bool)
      requires Valid()
      modifies this, buf
      ensures Valid() && (buf == old(buf) || fresh(buf)) && Contents() == old(Contents())
      ensures ok == Unshifted(old(Window())).Some?
      ensures if ok then top >= 1 && Window().(top := top - 1, length := length + 1) == Unshifted(old(Window())).value
              else Window() == old(Window())
    {
      if top - 1 < 1 {
        var newTop := buf.Length / 3;
        ok := Reserve(newTop + length + 1);
        if !ok {
          return;
        }
        Slide(newTop + 1);
      } else if top - 1 + length + 1 > buf.Length {
        assert false; // see UnshiftSecondGrowthIdle
      }
      ok := true;
    }

    method Prepend(value: T)
      requires Valid() && top >= 1
      modifies this`top, this`length, buf
      ensures Valid() && Window() == old(Window()).(top := old(top) - 1, length := old(length) + 1)
      ensures Contents() == [value] + old(Contents())
    {
      top, length := top - 1, length + 1;
      buf[top] := value;
      assert Contents()[1..] == old(Contents());
    }

    /** The move of the window in shift. */
    method Recentre()
      requires Valid() && length > 0
      modifies this`top, buf
      ensures Valid() && Window() == Recentred(old(Window())) && Contents() == old(Contents())
    {
      if top + 1 > buf.Length / 2 {
        Slide(buf.Length / 3);
      }
    }

    method Shift() returns (r: Reply<T>)
      requires Valid()
      modifies this, buf
      ensures Valid() && (buf == old(buf) || fresh(buf))
      ensures old(length) == 0 ==> r == Empty && Window() == old(Window()) && Contents() == old(Contents())
      ensures old(length) > 0 ==> Window() == Shifted(old(Window())) && r.Value? && old(Contents()) == [r.value] + Contents()
    {
      hide Recentred, Cut, Array.Contents;
      if length == 0 {
        return Empty;
      }
      var first := First();
      r := Value(first);
      HeadTail(Contents());
      Recentre();
      DropFirst();
    }

    method First() returns (x: T)
      requires Valid() && length > 0
      ensures x == Contents()[0]
    {
      x := buf[top];
    }

    method DropFirst()
      requires Valid() && length > 0
      modifies this
      ensures Valid() && (buf == old(buf) || fresh(buf))
      ensures Window() == Cut(Shape(old(buf.Length), old(top) + 1, old(length) - 1), old(top) + old(length) - 1)
      ensures Contents() == old(Contents())[1..]
    {
      length := length - 1;
      var len := NewSeqLength(top + length);
      top := top + 1;
      if len < buf.Length {
        Realloc(len);
      }
    }

    /** fth_array_insert of the elements of another array, or of a single value. */
    method Insert(index: int, ins: seq<T>) returns (r: Reply<T>)
      requires Valid()
      modifies this, buf
      ensures Valid() && (buf == old(buf) || fresh(buf))
      ensures var i := Index(index, old(length));
              if i == 0 then
                var f := Prepended(old(Window()), |ins|);
                Window() == f.shape && Contents() == ins[|ins| - f.count..] + old(Contents()) &&
                r == if f.count == |ins| then Done else TooLong
              else if i < 0 || i >= old(length) then
                r == OutOfRange && Window() == old(Window()) && Contents() == old(Contents())
              else match Inserted(old(Window()), |ins|)
                case None => r == TooLong && Window() == old(Window()) && Contents() == old(Contents())
                case Some(t) =>
                  r == Done && Window() == t && Contents() == old(Contents())[..i] + ins + old(Contents())[i..]
      ensures -old(length) <= index < 0 && r == Done ==>
                Contents() == old(Contents())[..old(length) + index] + ins + old(Contents())[old(length) + index..]
      ensures index < -old(length) || (index >= old(length) && index > 0) ==>
                r == OutOfRange && Window() == old(Window()) && Contents() == old(Contents())
    {
      var idx := index;
      if idx < 0 {
        idx := idx + length;
      }
      if idx == 0 {
        r := InsertFront(ins);
        return;
      }
      if idx < 0 || idx >= length {
        return OutOfRange;
      }
      var ok := Reserve(top + length + |ins|);
      if !ok {
        return TooLong;
      }
      Open(idx, ins);
      r := Done;
    }

    /** The two moves of an insertion in the middle. */
    method Open(idx: int, ins: seq<T>)
      requires Valid() && 0 < idx < length && top + length + |ins| <= buf.Length
      modifies this`length, buf
      ensures Valid() && Window() == old(Window()).(length := old(length) + |ins|)
      ensures Contents() == old(Contents())[..idx] + ins + old(Contents())[idx..]
    {
      ghost var left, right := Contents()[..idx], Contents()[idx..];
      MakeGap(idx, |ins|);
      Spread(idx, ins, left, right);
      length := length + |ins|;
    }

    method MakeGap(idx: int, n: int)
      requires Valid() && 0 < idx < length && 0 <= n && top + length + n <= buf.Length
      modifies buf
      ensures buf[top..top + idx] == old(Contents())[..idx]
      ensures buf[top + idx + n..top + length + n] == old(Contents())[idx..]
    {
      hide Copied;
      GapSlices(buf[..], top, idx, length, n);
      assert Contents() == buf[..][top..top + length];
      Memmove(top + idx + n, top + idx, length - idx);
      ghost var r := buf[..];
      assert buf[top..top + idx] == r[top..top + idx];
      assert buf[top + idx + n..top + length + n] == r[top + idx + n..top + length + n];
    }

    method Spread(idx: int, ins: seq<T>, ghost left: seq<T>, ghost right: seq<T>)
      requires Valid() && 0 < idx < length && top + length + |ins| <= buf.Length
      requires left == buf[top..top + idx] && right == buf[top + idx + |ins|..top + length + |ins|]
      modifies buf
      ensures buf[top..top + length + |ins|] == left + ins + right
    {
      hide Filled;
      FilledSlices(buf[..], top, idx, length, ins);
      ghost var b := buf[..];
      assert left == b[top..top + idx] && right == b[top + idx + |ins|..top + length + |ins|];
      Fill(top + idx, ins);
      ghost var r := buf[..];
      assert buf[top..top + length + |ins|] == r[top..top + length + |ins|];
    }

    /** memmove from another array's cells. */
    method Fill(to: int, ins: seq<T>)
      requires 0 <= to <= to + |ins| <= buf.Length
      modifies buf
      ensures buf[..] == Filled(old(buf[..]), to, ins)
    {
      forall i | 0 <= i < |ins| {
        buf[to + i] := ins[i];
      }
    }

    method InsertFront(ins: seq<T>) returns (r: Reply<T>)
      requires Valid()
      modifies this, buf
      ensures Valid() && (buf == old(buf) || fresh(buf))
      ensures var f := Prepended(old(Window()), |ins|);
              Window() == f.shape && Contents() == ins[|ins| - f.count..] + old(Contents()) &&
              r == if f.count == |ins| then Done else TooLong
    {
      hide Unshifted, Array.Contents;
      var i := |ins| - 1;
      ghost var f := Prepended(Window(), |ins|);
      ghost var c := Contents();
      assert ins[|ins|..] + c == c;
      while i >= 0
        invariant -1 <= i < |ins| && Valid() && (buf == old(buf) || fresh(buf))
        invariant f.shape == Prepended(Window(), i + 1).shape
        invariant f.count == |ins| - 1 - i + Prepended(Window(), i + 1).count
        invariant Contents() == ins[i + 1..] + c
      {
        r := Unshift(ins[i]);
        if r == TooLong {
          return;
        }
        OneMore(ins, i, c);
        i := i - 1;
      }
      r := Done;
    }

    /** fth_array_delete. */
    method Delete(index: int) returns (r: Reply<T>)
      requires Valid()
      modifies this, buf
      ensures Valid() && (buf == old(buf) || fresh(buf))
      ensures Contents() == Plain(old(Contents()), Op.Delete(index)).contents
      ensures r == Plain(old(Contents()), Op.Delete(index)).reply
      ensures Window() ==
              var i := Index(index, old(length));
              if i < 0 || i >= old(length) then old(Window())
              else if i == 0 then Shifted(old(Window()))
              else Popped(old(Window()))
      ensures -old(length) <= index < 0 ==>
                r == Value(old(Contents())[old(length) + index]) &&
                Contents() == old(Contents())[..old(length) + index] + old(Contents())[old(length) + index + 1..]
      ensures old(length) > 0 && (index < -old(length) || index >= old(length)) ==>
                r == OutOfRange && Contents() == old(Contents())
    {
      hide Shifted, Popped, Plain, Array.Contents;
      DeletePlain(Contents(), index);
      if length == 0 {
        return WrongType;
      }
      var idx := index;
      if idx < 0 {
        idx := idx + length;
      }
      if idx < 0 || idx >= length {
        return OutOfRange;
      }
      r := DeleteAt(idx);
    }

    method DeleteAt(idx: int) returns (r: Reply<T>)
      requires Valid() && 0 <= idx < length
      modifies this, buf
      ensures Valid() && (buf == old(buf) || fresh(buf))
      ensures Contents() == old(Contents())[..idx] + old(Contents())[idx + 1..]
      ensures r == Value(old(Contents())[idx])
      ensures Window() == if idx == 0 then Shifted(old(Window())) else Popped(old(Window()))
    {
      hide Shifted, Popped;
      ghost var c := Contents();
      if idx == 0 {
        r := Shift();
        assert Contents() == c[..0] + c[1..];
        return;
      }
      if idx == length - 1 {
        r := Pop();
        assert Contents() == c[..idx] + c[idx + 1..];
        return;
      }
      r := Value(buf[top + idx]);
      Close(idx);
    }

    /** The removal of an element in the middle: the buffer is cut before the elements are moved. */
    method Close(idx: int)
      requires Valid() && 0 < idx < length - 1
      modifies this, buf
      ensures Valid() && (buf == old(buf) || fresh(buf)) && Window() == Popped(old(Window()))
      ensures Contents() == old(Contents())[..idx] + old(Contents())[idx + 1..]
    {
      DeleteReadsWithin(Window());
      length := length - 1;
      var len := NewSeqLength(top + length);
      if len < buf.Length {
        Realloc(len);
      }
      assert buf[top..top + length + 1] == old(Contents());
      CloseGap(idx);
    }

    method CloseGap(idx: int)
      requires Valid() && 0 < idx < length && top + length + 1 <= buf.Length
      modifies buf
      ensures Contents() == old(buf[top..top + length + 1])[..idx] + old(buf[top..top + length + 1])[idx + 1..]
    {
      hide Copied;
      CloseSlices(buf[..], top, idx, length);
      assert buf[top..top + length + 1] == buf[..][top..top + length + 1];
      Memmove(top + idx, top + idx + 1, length - idx);
      assert Contents() == buf[..][top..top + length];
    }

    ghost function State(): (s: Stored<T>)
      requires Valid()
      reads this, buf
      ensures s.Fits()
    {
      Stored(Window(), Contents())
    }

    /** One operation. */
    method Do(op: Op<T>) returns (r: Reply<T>)
      requires Valid()
      modifies this, buf
      ensures Valid() && (buf == old(buf) || fresh(buf))
      ensures Outcome(State(), r) == Exact(old(State()), op)
    {
      hide Pushed, Popped, Unshifted, Shifted, Inserted, Prepended;
      ghost var c := Contents();
      match op
      case Push(x) => r := Push(x);
      case Pop =>
        r := Pop();
        assert c == [] || Contents() == c[..|c| - 1];
      case Unshift(x) => r := Unshift(x);
      case Shift =>
        r := Shift();
        assert c == [] || Contents() == c[1..];
      case Insert(idx, xs) => r := Insert(idx, xs);
      case Delete(idx) => r := Delete(idx);
    }

    /** Any run, from any array. */
    method Run(ops: seq<Op<T>>) returns (replies: seq<Reply<T>>)
      requires Valid()
      modifies this, buf
      ensures Valid()
      ensures State() == ExactRun(old(State()), ops)
      ensures replies == ExactReplies(old(State()), ops)
    {
      hide Exact, Array.Contents;
      replies := [];
      ghost var s := State();
      for k := 0 to |ops|
        invariant Valid() && (buf == old(buf) || fresh(buf))
        invariant ExactRun(s, ops) == ExactRun(State(), ops[k..])
        invariant ExactReplies(s, ops) == replies + ExactReplies(State(), ops[k..])
      {
        assert ops[k..][1..] == ops[k + 1..] && ops[k..][0] == ops[k];
        var r := Do(ops[k]);
        replies := replies + [r];
      }
    }
  }

  lemma HeadTail<T>(c: seq<T>)
    requires c != []
    ensures c == [c[0]] + c[1..]
  {
  }

  lemma OneMore<T>(s: seq<T>, i: nat, c: seq<T>)
    requires i < |s|
    ensures [s[i]] + (s[i + 1..] + c) == s[i..] + c
  {
  }

  /** n elements copied inside a sequence, as memmove does. */
  function Copied<T>(s: seq<T>, to: int, from: int, n: int): (r: seq<T>)
    requires 0 <= n && 0 <= to <= to + n <= |s| && 0 <= from <= from + n <= |s|
    ensures |r| == |s|
  {
    s[..to] + s[from..from + n] + s[to + n..]
  }

  lemma CopiedSlice<T>(s: seq<T>, to: int, from: int, n: int)
    requires 0 <= n && 0 <= to <= to + n <= |s| && 0 <= from <= from + n <= |s|
    ensures Copied(s, to, from, n)[to..to + n] == s[from..from + n]
  {
  }

  lemma GapSlices<T>(s: seq<T>, top: int, idx: int, length: int, n: int)
    requires 0 <= top && 0 < idx < length && 0 <= n && top + length + n <= |s|
    ensures var r, c := Copied(s, top + idx + n, top + idx, length - idx), s[top..top + length];
            r[top..top + idx] == c[..idx] && r[top + idx + n..top + length + n] == c[idx..]
  {
    CopiedSlice(s, top + idx + n, top + idx, length - idx);
    assert s[top..top + length][idx..] == s[top + idx..top + length];
  }

  lemma CloseSlices<T>(s: seq<T>, top: int, idx: int, length: int)
    requires 0 <= top && 0 < idx < length && top + length + 1 <= |s|
    ensures var c := s[top..top + length + 1];
            Copied(s, top + idx, top + idx + 1, length - idx)[top..top + length] == c[..idx] + c[idx + 1..]
  {
  }

  /** Elements written into a sequence. */
  function Filled<T>(s: seq<T>, to: int, ins: seq<T>): (r: seq<T>)
    requires 0 <= to <= to + |ins| <= |s|
    ensures |r| == |s|
  {
    s[..to] + ins + s[to + |ins|..]
  }

  lemma FilledSlices<T>(s: seq<T>, top: int, idx: int, length: int, ins: seq<T>)
    requires 0 <= top && 0 < idx < length && top + length + |ins| <= |s|
    ensures Filled(s, top + idx, ins)[top..top + length + |ins|] ==
            s[top..top + idx] + ins + s[top + idx + |ins|..top + length + |ins|]
  {
  }
}
