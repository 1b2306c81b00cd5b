/**
  The sorted associative arrays of src/array.c: cells in a growing array, ordered by the
  hash id of their keys and searched by bisection.
 */
module Assoc {
  import opened Wrappers
  import opened GapBuffer

  datatype Cell<K, V> = Cell(key: K, val: V)

  /** fth_hash_id is a parameter; the table distinguishes keys by their id only. */
  predicate Sorted<K, V>(c: seq<Cell<K, V>>, id: K -> int) {
    forall i, j :: 0 <= i < j < |c| ==> id(c[i].key) < id(c[j].key)
  }

  /** The reference search: from left to right. */
  function Linear<K, V>(c: seq<Cell<K, V>>, id: K -> int, k: int): (r: int)
    ensures -1 <= r < |c|
    ensures r >= 0 ==> id(c[r].key) == k
    ensures r == -1 ==> forall i :: 0 <= i < |c| ==> id(c[i].key) != k
  {
    if c == [] then -1
    else if id(c[0].key) == k then 0
    else
      var r := Linear(c[1..], id, k);
      assert forall i :: 1 <= i < |c| ==> c[i] == c[1..][i - 1];
      if r == -1 then -1 else r + 1
  }

  /** The table as a finite map from ids. */
  function AsMap<K, V>(c: seq<Cell<K, V>>, id: K -> int): (m: map<int, Cell<K, V>>) {
    if c == [] then map[] else AsMap(c[1..], id)[id(c[0].key) := c[0]]
  }

  lemma {:induction false} MapHas<K, V>(c: seq<Cell<K, V>>, id: K -> int, i: nat)
    requires Sorted(c, id) && i < |c|
    ensures id(c[i].key) in AsMap(c, id) && AsMap(c, id)[id(c[i].key)] == c[i]
  {
    if i > 0 {
      assert c[1..][i - 1] == c[i];
      MapHas(c[1..], id, i - 1);
    }
  }

  lemma {:induction false} MapOnly<K, V>(c: seq<Cell<K, V>>, id: K -> int, k: int)
    requires k in AsMap(c, id)
    ensures exists i :: 0 <= i < |c| && id(c[i].key) == k
  {
    if id(c[0].key) != k {
      MapOnly(c[1..], id, k);
      var i :| 0 <= i < |c[1..]| && id(c[1..][i].key) == k;
      assert id(c[i + 1].key) == k;
    }
  }

  /** What the map holds at k is what a search from left to right finds. */
  lemma MapIsLinear<K, V>(c: seq<Cell<K, V>>, id: K -> int, k: int)
    requires Sorted(c, id)
    ensures k in AsMap(c, id) <==> Linear(c, id, k) >= 0
    ensures k in AsMap(c, id) ==> AsMap(c, id)[k] == c[Linear(c, id, k)]
  {
    var r := Linear(c, id, k);
    if r >= 0 {
      MapHas(c, id, r);
    } else if k in AsMap(c, id) {
      MapOnly(c, id, k);
    }
  }

  // ---------------------------------------------------------------------
  // The operations on the cells

  /** The place for a new id: before the first greater one. */
  function Slot<K, V>(c: seq<Cell<K, V>>, id: K -> int, k: int): (r: nat)
    ensures r <= |c|
    ensures forall i :: 0 <= i < r ==> id(c[i].key) <= k
    ensures r < |c| ==> k < id(c[r].key)
  {
    if c == [] || k < id(c[0].key) then 0
    else
      assert forall i :: 1 <= i < |c| ==> c[i] == c[1..][i - 1];
      1 + Slot(c[1..], id, k)
  }

  function Put<K, V>(c: seq<Cell<K, V>>, p: nat, x: Cell<K, V>): (r: seq<Cell<K, V>>)
    requires p <= |c|
  {
    c[..p] + [x] + c[p..]
  }

  function SetCells<K, V>(c: seq<Cell<K, V>>, id: K -> int, x: Cell<K, V>): (r: seq<Cell<K, V>>) {
    var i := Linear(c, id, id(x.key));
    if i >= 0 then c[i := x] else Put(c, Slot(c, id, id(x.key)), x)
  }

  function RemoveCells<K, V>(c: seq<Cell<K, V>>, id: K -> int, k: int): (r: seq<Cell<K, V>>) {
    var i := Linear(c, id, k);
    if i >= 0 then c[..i] + c[i + 1..] else c
  }

  lemma SortedCons<K, V>(h: Cell<K, V>, d: seq<Cell<K, V>>, id: K -> int)
    requires Sorted(d, id) && (d != [] ==> id(h.key) < id(d[0].key))
    ensures Sorted([h] + d, id) && AsMap([h] + d, id) == AsMap(d, id)[id(h.key) := h]
  {
    assert ([h] + d)[1..] == d;
  }

  lemma MapTail<K, V>(c: seq<Cell<K, V>>, id: K -> int)
    requires c != []
    ensures AsMap(c, id) == AsMap(c[1..], id)[id(c[0].key) := c[0]]
  {
  }

  lemma SortedTail<K, V>(c: seq<Cell<K, V>>, id: K -> int)
    requires Sorted(c, id) && c != []
    ensures Sorted(c[1..], id) && c == [c[0]] + c[1..] && AsMap(c, id) == AsMap(c[1..], id)[id(c[0].key) := c[0]]
    ensures id(c[0].key) !in AsMap(c[1..], id)
    ensures |c| > 1 ==> id(c[0].key) < id(c[1..][0].key)
  {
    hide AsMap;
    MapTail(c, id);
    if id(c[0].key) in AsMap(c[1..], id) {
      MapOnly(c[1..], id, id(c[0].key));
    }
  }

  lemma PutHead<K, V>(c: seq<Cell<K, V>>, id: K -> int, x: Cell<K, V>)
    requires Sorted(c, id) && Linear(c, id, id(x.key)) < 0
    ensures Slot(c, id, id(x.key)) == 0 ==>
              Put(c, 0, x) == [x] + c && (c != [] ==> id(x.key) < id(c[0].key))
    ensures Slot(c, id, id(x.key)) > 0 ==>
              c != [] && id(c[0].key) < id(x.key) && Linear(c[1..], id, id(x.key)) < 0 &&
              Slot(c[1..], id, id(x.key)) == Slot(c, id, id(x.key)) - 1
  {
  }

  lemma PutTail<K, V>(c: seq<Cell<K, V>>, p: nat, x: Cell<K, V>)
    requires 0 < p <= |c|
    ensures Put(c, p, x) == [c[0]] + Put(c[1..], p - 1, x)
    ensures Put(c[1..], p - 1, x)[0] == if p == 1 then x else c[1..][0]
  {
  }

  lemma {:induction false} PutKeeps<K, V>(c: seq<Cell<K, V>>, id: K -> int, x: Cell<K, V>)
    requires Sorted(c, id) && Linear(c, id, id(x.key)) < 0
    ensures var d := Put(c, Slot(c, id, id(x.key)), x);
            Sorted(d, id) && AsMap(d, id) == AsMap(c, id)[id(x.key) := x]
  {
    hide Sorted, AsMap, Put, Slot, Linear;
    var p := Slot(c, id, id(x.key));
    PutHead(c, id, x);
    if p == 0 {
      SortedCons(x, c, id);
    } else {
      SortedTail(c, id);
      PutKeeps(c[1..], id, x);
      PutTail(c, p, x);
      SortedCons(c[0], Put(c[1..], p - 1, x), id);
      Commute(AsMap(c[1..], id), id(c[0].key), c[0], id(x.key), x);
    }
  }

  lemma Commute<A, B>(m: map<A, B>, a: A, x: B, b: A, y: B)
    requires a != b
    ensures m[a := x][b := y] == m[b := y][a := x]
  {
  }

  lemma {:induction false} UpdateKeeps<K, V>(c: seq<Cell<K, V>>, id: K -> int, i: nat, x: Cell<K, V>)
    requires Sorted(c, id) && i < |c| && id(c[i].key) == id(x.key)
    ensures Sorted(c[i := x], id) && AsMap(c[i := x], id) == AsMap(c, id)[id(x.key) := x]
  {
    hide Sorted, AsMap;
    SortedTail(c, id);
    if i == 0 {
      assert c[0 := x] == [x] + c[1..];
      SortedCons(x, c[1..], id);
    } else {
      UpdateKeeps(c[1..], id, i - 1, x);
      MapHas(c[1..], id, i - 1);
      assert c[i := x] == [c[0]] + c[1..][i - 1 := x];
      SortedCons(c[0], c[1..][i - 1 := x], id);
    }
  }

  lemma DropTail<K, V>(c: seq<Cell<K, V>>, i: nat)
    requires 0 < i < |c|
    ensures c[..i] + c[i + 1..] == [c[0]] + (c[1..][..i - 1] + c[1..][i..])
    ensures i > 1 ==> (c[1..][..i - 1] + c[1..][i..])[0] == c[1..][0]
    ensures i == 1 ==> c[1..][..i - 1] + c[1..][i..] == c[1..][1..]
  {
  }

  function Without<A, B>(m: map<A, B>, a: A): (r: map<A, B>) {
    map k | k in m && k != a :: m[k]
  }

  lemma WithoutUpdate<A, B>(m: map<A, B>, a: A, x: B, b: A)
    ensures a != b ==> Without(m[a := x], b) == Without(m, b)[a := x]
    ensures a == b && a !in m ==> Without(m[a := x], b) == m
  {
  }

  lemma {:induction false} DropKeeps<K, V>(c: seq<Cell<K, V>>, id: K -> int, i: nat)
    requires Sorted(c, id) && i < |c|
    ensures var d := c[..i] + c[i + 1..];
            Sorted(d, id) && AsMap(d, id) == Without(AsMap(c, id), id(c[i].key))
  {
    hide Sorted, AsMap, Without;
    SortedTail(c, id);
    var t := c[1..];
    WithoutUpdate(AsMap(t, id), id(c[0].key), c[0], id(c[i].key));
    if i == 0 {
      assert c[..0] + c[1..] == c[1..];
    } else {
      assert t[i - 1] == c[i];
      var e := t[..i - 1] + t[i - 1 + 1..];
      DropKeeps(t, id, i - 1);
      MapHas(t, id, i - 1);
      DropTail(c, i);
      if i == 1 {
        SecondAfter(c, id);
      }
      SortedCons(c[0], e, id);
    }
  }

  lemma SecondAfter<K, V>(c: seq<Cell<K, V>>, id: K -> int)
    requires Sorted(c, id) && |c| > 1
    ensures |c| > 2 ==> id(c[0].key) < id(c[1..][1..][0].key)
  {
  }

  lemma SetKeeps<K, V>(c: seq<Cell<K, V>>, id: K -> int, x: Cell<K, V>)
    requires Sorted(c, id)
    ensures Sorted(SetCells(c, id, x), id)
    ensures AsMap(SetCells(c, id, x), id) == AsMap(c, id)[id(x.key) := x]
  {
    var i := Linear(c, id, id(x.key));
    if i >= 0 { UpdateKeeps(c, id, i, x); } else { PutKeeps(c, id, x); }
  }

  lemma RemoveKeeps<K, V>(c: seq<Cell<K, V>>, id: K -> int, k: int)
    requires Sorted(c, id)
    ensures Sorted(RemoveCells(c, id, k), id)
    ensures AsMap(RemoveCells(c, id, k), id) == Without(AsMap(c, id), k)
  {
    hide AsMap, Sorted, Without;
    var p := Linear(c, id, k);
    if p < 0 {
      MapIsLinear(c, id, k);
      WithoutAbsent(AsMap(c, id), k);
    } else {
      DropKeeps(c, id, p);
    }
  }

  lemma WithoutAbsent<A, B>(m: map<A, B>, a: A)
    requires a !in m
    ensures Without(m, a) == m
  {
  }

  // ---------------------------------------------------------------------
  // Runs

  datatype Change<K, V> = Set(cell: Cell<K, V>) | Remove(key: K)

  function ChangeCells<K, V>(c: seq<Cell<K, V>>, id: K -> int, e: Change<K, V>): (r: seq<Cell<K, V>>) {
    match e
    case Set(x) => SetCells(c, id, x)
    case Remove(k) => RemoveCells(c, id, id(k))
  }

  function RunCells<K, V>(c: seq<Cell<K, V>>, id: K -> int, es: seq<Change<K, V>>): (r: seq<Cell<K, V>>)
    decreases |es|
  {
    if es == [] then c else RunCells(ChangeCells(c, id, es[0]), id, es[1..])
  }

  function RunMap<K, V>(m: map<int, Cell<K, V>>, id: K -> int, es: seq<Change<K, V>>): (r: map<int, Cell<K, V>>)
    decreases |es|
  {
    if es == [] then m
    else
      RunMap(match es[0] case Set(x) => m[id(x.key) := x] case Remove(k) => Without(m, id(k)), id, es[1..])
  }

  /** Every run of array-assoc-set! and array-assoc-remove! keeps the table sorted and does on it what it does on a map. */
  lemma {:induction false} RunRefines<K, V>(c: seq<Cell<K, V>>, id: K -> int, es: seq<Change<K, V>>)
    requires Sorted(c, id)
    ensures Sorted(RunCells(c, id, es), id)
    ensures AsMap(RunCells(c, id, es), id) == RunMap(AsMap(c, id), id, es)
    decreases |es|
  {
    hide Sorted, AsMap, SetCells, RemoveCells, Without;
    if es != [] {
      match es[0] {
        case Set(x) => SetKeeps(c, id, x);
        case Remove(k) => RemoveKeeps(c, id, id(k));
      }
      RunRefines(ChangeCells(c, id, es[0]), id, es[1..]);
    }
  }

  /** From the empty table, a search after any run finds what the map then holds. */
  lemma LookupAfterRun<K, V>(id: K -> int, es: seq<Change<K, V>>, k: int)
    ensures var c, m := RunCells([], id, es), RunMap(map[], id, es);
            Sorted(c, id) && (Linear(c, id, k) >= 0 <==> k in m) && (k in m ==> c[Linear(c, id, k)] == m[k])
  {
    RunRefines([], id, es);
    MapIsLinear(RunCells([], id, es), id, k);
  }

  // ---------------------------------------------------------------------
  // Runs on arrays, whose buffer may become too long

  /** assoc_insert's guard: a new cell would call for a buffer that is too long. */
  predicate TableFull(w: Shape)
    requires w.Fits()
  {
    NewSeqLength(w.top + w.length + 1) > MAX_SEQ_LENGTH
  }

  /** The window once there is a cell more. */
  function Grown(w: Shape): (r: Shape)
    requires w.Fits()
  {
    var len := NewSeqLength(w.top + w.length + 1);
    Shape(if len > w.size then len else w.size, w.top, w.length + 1)
  }

  /** A change of an array: what is left and whether it was refused. */
  function Changed<K, V>(s: Stored<Cell<K, V>>, id: K -> int, e: Change<K, V>): (r: Outcome<Cell<K, V>>)
    requires s.Fits()
  {
    var c := s.contents;
    match e
    case Set(x) =>
      var i := Linear(c, id, id(x.key));
      if i >= 0 then Outcome(Stored(s.window, c[i := x]), Done)
      else if TableFull(s.window) then Outcome(s, TooLong)
      else Outcome(Stored(Grown(s.window), Put(c, Slot(c, id, id(x.key)), x)), Done)
    case Remove(k) =>
      var i := Linear(c, id, id(k));
      if i >= 0 then Outcome(GapBuffer.Without(s, i).stored, Done) else Outcome(s, Done)
  }

  /** A change is refused if and only if it sets a new id in a full table; otherwise it is that of the cells.
      The space bound is kept, and below the limit nothing is refused. */
  lemma ChangedIs<K, V>(s: Stored<Cell<K, V>>, id: K -> int, e: Change<K, V>, peak: nat)
    requires s.Fits()
    ensures var r := Changed(s, id, e);
            r.stored.Fits() &&
            (r.reply == TooLong <==> e.Set? && Linear(s.contents, id, id(e.cell.key)) < 0 && TableFull(s.window)) &&
            (if r.reply == TooLong then r.stored == s else r.stored.contents == ChangeCells(s.contents, id, e)) &&
            (Roomy(s.window, peak) && |r.stored.contents| <= peak ==> Roomy(r.stored.window, peak)) &&
            (Roomy(s.window, peak) && |ChangeCells(s.contents, id, e)| <= peak && 2 * peak + 256 <= MAX_SEQ_LENGTH ==>
               r.reply == Done)
  {
    hide Linear, Slot, Shifted, Popped;
    if s.window.length > 0 {
      PopKeeps(s.window, peak);
      ShiftKeeps(s.window, peak);
    }
  }

  function RunChanged<K, V>(s: Stored<Cell<K, V>>, id: K -> int, es: seq<Change<K, V>>): (r: Stored<Cell<K, V>>)
    requires s.Fits()
    decreases |es|
  {
    if es == [] then s
    else
      ChangedIs(s, id, es[0], 0);
      RunChanged(Changed(s, id, es[0]).stored, id, es[1..])
  }

  /** The changes of a run that are not refused. */
  function Accepted<K, V>(s: Stored<Cell<K, V>>, id: K -> int, es: seq<Change<K, V>>): (r: seq<Change<K, V>>)
    requires s.Fits()
    ensures |r| <= |es|
    decreases |es|
  {
    if es == [] then []
    else
      ChangedIs(s, id, es[0], 0);
      var rest := Accepted(Changed(s, id, es[0]).stored, id, es[1..]);
      if Changed(s, id, es[0]).reply == TooLong then rest else [es[0]] + rest
  }

  /** Every run on an array, refused changes included: the table stays sorted and is what the accepted changes
      make of the cells, and so of the map. */
  lemma {:induction false} RunOnArray<K, V>(s: Stored<Cell<K, V>>, id: K -> int, es: seq<Change<K, V>>)
    requires s.Fits() && Sorted(s.contents, id)
    ensures RunChanged(s, id, es).Fits()
    ensures RunChanged(s, id, es).contents == RunCells(s.contents, id, Accepted(s, id, es))
    ensures Sorted(RunChanged(s, id, es).contents, id)
    ensures AsMap(RunChanged(s, id, es).contents, id) == RunMap(AsMap(s.contents, id), id, Accepted(s, id, es))
    decreases |es|
  {
    RunContents(s, id, es);
    RunRefines(s.contents, id, Accepted(s, id, es));
  }

  lemma {:induction false} RunContents<K, V>(s: Stored<Cell<K, V>>, id: K -> int, es: seq<Change<K, V>>)
    requires s.Fits()
    ensures RunChanged(s, id, es).Fits()
    ensures RunChanged(s, id, es).contents == RunCells(s.contents, id, Accepted(s, id, es))
    decreases |es|
  {
    hide Changed, ChangeCells;
    if es != [] {
      ChangedIs(s, id, es[0], 0);
      var t := Changed(s, id, es[0]).stored;
      RunContents(t, id, es[1..]);
      var rest := Accepted(t, id, es[1..]);
      assert ([es[0]] + rest)[1..] == rest;
    }
  }

  /** No table of the run on cells has more than peak cells. */
  predicate StaysShort<K, V>(c: seq<Cell<K, V>>, id: K -> int, es: seq<Change<K, V>>, peak: nat)
    decreases |es|
  {
    |c| <= peak && (es != [] ==> StaysShort(ChangeCells(c, id, es[0]), id, es[1..], peak))
  }

  /** A run whose table stays short is never refused, and its buffer stays linear in the number of cells. */
  lemma {:induction false} ShortTables<K, V>(s: Stored<Cell<K, V>>, id: K -> int, es: seq<Change<K, V>>, peak: nat)
    requires s.Fits() && Roomy(s.window, peak) && StaysShort(s.contents, id, es, peak)
    requires 2 * peak + 256 <= MAX_SEQ_LENGTH
    ensures Accepted(s, id, es) == es && Roomy(RunChanged(s, id, es).window, peak)
    decreases |es|
  {
    hide Changed, ChangeCells, Roomy;
    if es != [] {
      ChangedIs(s, id, es[0], 0);
      ChangedIs(s, id, es[0], peak);
      var c := ChangeCells(s.contents, id, es[0]);
      assert StaysShort(c, id, es[1..], peak) && |c| <= peak;
      ShortTables(Changed(s, id, es[0]).stored, id, es[1..], peak);
      assert [es[0]] + es[1..] == es;
    }
  }

  // ---------------------------------------------------------------------
  // The operations on arrays

  lemma LinearIs<K, V>(c: seq<Cell<K, V>>, id: K -> int, i: nat)
    requires Sorted(c, id) && i < |c|
    ensures Linear(c, id, id(c[i].key)) == i
  {
  }

  /** assoc_index: bisection finds what a search from left to right finds. */
  method AssocIndex<K, V>(assoc: Array<Cell<K, V>>, id: K -> int, key: K) returns (r: int)
    requires assoc.Valid() && Sorted(assoc.Contents(), id)
    ensures r == Linear(assoc.Contents(), id, id(key))
  {
    if assoc.length == 0 {
      return -1;
    }
    var k := id(key);
    var beg, end := 0, assoc.length - 1;
    ghost var c := assoc.Contents();
    while beg <= end
      invariant 0 <= beg <= assoc.length && -1 <= end < assoc.length
      invariant forall i :: 0 <= i < beg ==> id(c[i].key) < k
      invariant forall i :: end < i < |c| ==> id(c[i].key) > k
      decreases end - beg
    {
      var i := (beg + end) / 2;
      var kid := id(assoc.buf[assoc.top + i].key);
      assert kid == id(c[i].key);
      if k == kid {
        LinearIs(c, id, i);
        return i;
      } else if k < kid {
        end := i - 1;
      } else {
        beg := i + 1;
      }
    }
    r := -1;
  }

  method FindSlot<K, V>(assoc: Array<Cell<K, V>>, id: K -> int, k: int) returns (i: int)
    requires assoc.Valid()
    ensures i == Slot(assoc.Contents(), id, k)
  {
    i := 0;
    ghost var c := assoc.Contents();
    while i < assoc.length && !(k < id(assoc.buf[assoc.top + i].key))
      invariant 0 <= i <= |c|
      invariant Slot(c, id, k) == i + Slot(c[i..], id, k)
    {
      assert c[i..][0] == assoc.buf[assoc.top + i] && c[i..][1..] == c[i + 1..];
      i := i + 1;
    }
    assert i < |c| ==> c[i..][0] == assoc.buf[assoc.top + i];
  }

  /** assoc_insert: the cell goes before the first one with a greater id. */
  method AssocInsert<K, V>(assoc: Array<Cell<K, V>>, id: K -> int, val: Cell<K, V>) returns (r: Reply<Cell<K, V>>)
    requires assoc.Valid()
    modifies assoc, assoc.buf
    ensures assoc.Valid() && (assoc.buf == old(assoc.buf) || fresh(assoc.buf))
    ensures var c := old(assoc.Contents());
            if TableFull(old(assoc.Window())) then r == TooLong && assoc.State() == old(assoc.State())
            else r == Done && assoc.Contents() == Put(c, Slot(c, id, id(val.key)), val) &&
                 assoc.Window() == Grown(old(assoc.Window()))
  {
    hide Slot;
    ghost var c := assoc.Contents();
    var i := FindSlot(assoc, id, id(val.key));
    var len := NewSeqLength(assoc.top + assoc.length + 1);
    if len > MAX_SEQ_LENGTH {
      return TooLong;
    }
    if len > assoc.buf.Length {
      assoc.Realloc(len);
    }
    assert assoc.Contents() == c;
    Place(assoc, i, val);
    r := Done;
  }

  method Place<T>(a: Array<T>, i: int, x: T)
    requires a.Valid() && 0 <= i <= a.length && a.top + a.length < a.buf.Length
    modifies a`length, a.buf
    ensures a.Valid() && a.Contents() == old(a.Contents())[..i] + [x] + old(a.Contents())[i..]
    ensures a.Window() == old(a.Window()).(length := old(a.length) + 1)
  {
    hide Copied;
    ghost var s := a.buf[..];
    PlaceSlices(s, a.top, i, a.length, x);
    assert a.Contents() == s[a.top..a.top + a.length];
    a.Memmove(a.top + i + 1, a.top + i, a.length - i);
    ghost var t := a.buf[..];
    a.length := a.length + 1;
    a.buf[a.top + i] := x;
    assert a.buf[..] == t[a.top + i := x];
    assert a.Contents() == a.buf[..][a.top..a.top + a.length];
  }

  lemma PlaceSlices<T>(s: seq<T>, top: int, i: int, length: int, x: T)
    requires 0 <= top && 0 <= i <= length && top + length < |s|
    ensures var r := Copied(s, top + i + 1, top + i, length - i)[top + i := x];
            r[top..top + length + 1] == s[top..top + length][..i] + [x] + s[top..top + length][i..]
  {
  }

  /** fth_array_assoc_ref; None stands for #f. */
  method AssocRef<K, V>(assoc: Array<Cell<K, V>>, id: K -> int, key: K) returns (r: Option<V>)
    requires assoc.Valid() && Sorted(assoc.Contents(), id)
    ensures var m := AsMap(assoc.Contents(), id);
            r == if id(key) in m then Some(m[id(key)].val) else None
  {
    var i := AssocIndex(assoc, id, key);
    MapIsLinear(assoc.Contents(), id, id(key));
    if i >= 0 {
      r := Some(assoc.buf[assoc.top + i].val);
    } else {
      r := None;
    }
  }

  /** fth_array_assoc_set on an assoc. */
  method AssocSet<K, V>(assoc: Array<Cell<K, V>>, id: K -> int, key: K, val: V) returns (r: Reply<Cell<K, V>>)
    requires assoc.Valid() && Sorted(assoc.Contents(), id)
    modifies assoc, assoc.buf
    ensures assoc.Valid() && Sorted(assoc.Contents(), id)
    ensures assoc.buf == old(assoc.buf) || fresh(assoc.buf)
    ensures Outcome(assoc.State(), r) == Changed(old(assoc.State()), id, Set(Cell(key, val)))
    ensures r == TooLong <==> old(Linear(assoc.Contents(), id, id(key))) < 0 && TableFull(old(assoc.Window()))
    ensures r == Done ==> assoc.Contents() == SetCells(old(assoc.Contents()), id, Cell(key, val))
  {
    hide Sorted, Linear, Slot;
    ghost var c := assoc.Contents();
    SetKeeps(c, id, Cell(key, val));
    var i := AssocIndex(assoc, id, key);
    if i >= 0 {
      assoc.buf[assoc.top + i] := Cell(key, val);
      assert assoc.Contents() == c[i := Cell(key, val)];
      r := Done;
    } else {
      r := AssocInsert(assoc, id, Cell(key, val));
    }
  }

  /** fth_array_assoc_remove. */
  method AssocRemove<K, V>(assoc: Array<Cell<K, V>>, id: K -> int, key: K)
    requires assoc.Valid() && Sorted(assoc.Contents(), id)
    modifies assoc, assoc.buf
    ensures assoc.Valid() && Sorted(assoc.Contents(), id)
    ensures assoc.buf == old(assoc.buf) || fresh(assoc.buf)
    ensures assoc.State() == Changed(old(assoc.State()), id, Remove(key)).stored
    ensures assoc.Contents() == RemoveCells(old(assoc.Contents()), id, id(key))
  {
    hide Sorted, Linear, Shifted, Popped;
    RemoveKeeps(assoc.Contents(), id, id(key));
    var i := AssocIndex(assoc, id, key);
    if i >= 0 {
      var v := assoc.Delete(i);
    }
  }

  /** Any run of set and remove on an array. */
  method AssocRun<K, V>(assoc: Array<Cell<K, V>>, id: K -> int, es: seq<Change<K, V>>) returns (refused: nat)
    requires assoc.Valid() && Sorted(assoc.Contents(), id)
    modifies assoc, assoc.buf
    ensures assoc.Valid() && Sorted(assoc.Contents(), id)
    ensures assoc.State() == RunChanged(old(assoc.State()), id, es)
    ensures refused == |es| - |Accepted(old(assoc.State()), id, es)|
    ensures assoc.Contents() == RunCells(old(assoc.Contents()), id, Accepted(old(assoc.State()), id, es))
  {
    hide Changed, Sorted, RunCells, Array.Contents;
    refused := 0;
    ghost var s := assoc.State();
    for k := 0 to |es|
      invariant assoc.Valid() && (assoc.buf == old(assoc.buf) || fresh(assoc.buf)) && Sorted(assoc.Contents(), id)
      invariant RunChanged(s, id, es) == RunChanged(assoc.State(), id, es[k..])
      invariant |Accepted(s, id, es)| == k - refused + |Accepted(assoc.State(), id, es[k..])|
    {
      assert es[k..][1..] == es[k + 1..] && es[k..][0] == es[k];
      ChangedIs(assoc.State(), id, es[k], 0);
      match es[k]
      case Set(x) =>
        var r := AssocSet(assoc, id, x.key, x.val);
        if r == TooLong {
          refused := refused + 1;
        }
      case Remove(key) => AssocRemove(assoc, id, key);
    }
    RunOnArray(s, id, es);
  }
}
