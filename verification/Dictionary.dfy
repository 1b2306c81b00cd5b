/**
  The dictionary of ficl/dictionary.c: words are laid out at increasing addresses, completed
  definitions are linked into a wordlist, FORGET cuts memory at an address.
 */
module Dictionary {
  import opened Wordlist

  const ALIGNMENT := 8

  /** ficlAlignPointer */
  function Align(p: int): (r: int)
    requires p >= 0
    ensures p <= r < p + ALIGNMENT && r % ALIGNMENT == 0
  {
    if p % ALIGNMENT == 0 then p else p - p % ALIGNMENT + ALIGNMENT
  }

  // ---------------------------------------------------------------------
  // What a search looks at

  /** Every parent is an earlier list, so the parent links are acyclic. */
  predicate Ranked(lists: seq<Hash>) {
    forall l :: 0 <= l < |lists| ==> -1 <= lists[l].parent < l
  }

  /** The completed words of a list and of its ancestors. */
  ghost function ListPath(lists: seq<Hash>, entries: seq<seq<int>>, l: int): (r: seq<int>)
    requires Ranked(lists) && |entries| == |lists| && -1 <= l < |lists|
    decreases l
  {
    if l == -1 then [] else entries[l] + ListPath(lists, entries, lists[l].parent)
  }

  /** The completed words of the first k lists of the search order, the last one first. */
  ghost function OrderPath(lists: seq<Hash>, entries: seq<seq<int>>, order: seq<nat>, k: nat): (r: seq<int>)
    requires Ranked(lists) && |entries| == |lists| && k <= |order| && (forall i :: 0 <= i < |order| ==> order[i] < |lists|)
  {
    if k == 0 then [] else ListPath(lists, entries, order[k - 1]) + OrderPath(lists, entries, order, k - 1)
  }

  lemma {:induction false} ScanAppend(m: Memory, es: seq<int>, fs: seq<int>, name: seq<Byte>)
    requires forall i :: 0 <= i < |es| ==> es[i] != 0
    ensures Scan(m, es + fs, name) == if Scan(m, es, name) != 0 then Scan(m, es, name) else Scan(m, fs, name)
  {
    if es == [] {
      assert es + fs == fs;
    } else {
      assert (es + fs)[1..] == es[1..] + fs;
      ScanAppend(m, es[1..], fs, name);
    }
  }

  /** The two have the same parents and table sizes. */
  predicate SameShape(lists: seq<Hash>, was: seq<Hash>) {
    |lists| == |was| &&
    forall l :: 0 <= l < |lists| ==> lists[l].parent == was[l].parent && |lists[l].table| == |was[l].table|
  }

  // ---------------------------------------------------------------------
  // Memory

  /** Words lie one after the other, each behind its name. */
  ghost predicate LaidOut(m: Memory, here: int) {
    Threaded(m) && here > 0 &&
    (forall a :: a in m ==> 0 < m[a].nameAt <= a < here && (m[a].name != [] ==> m[a].nameAt + |m[a].name| < a)) &&
    (forall a, b :: a in m && b in m && a < b ==> a < m[b].nameAt)
  }

  ghost predicate Listed(m: Memory, h: Hash, es: seq<int>) {
    Holds(m, h, es) && AllComplete(m, es)
  }

  /** A word laid out at here, above everything, touches no list. */
  lemma AppendKeeps(m: Memory, n: Memory, h: Hash, es: seq<int>, w: int, x: Word)
    requires Listed(m, h, es) && w !in m && n == m[w := x] && (forall a :: a in m ==> a < w)
    ensures Listed(n, h, es)
  {
    hide Holds;
    forall i | 0 <= i < |es|
      ensures Complete(n, es[i]) && LinksAgree(m, n, es[i])
    {
      assert Complete(m, es[i]);
    }
    assert HashesAgree(m, n, es);
    HoldsFrame(m, n, h, es);
  }

  /** Completing the smudged word w, newer than the list's words, leaves them as they are. */
  lemma RelinkKeeps(m: Memory, n: Memory, h: Hash, es: seq<int>, w: int, link: int)
    requires Listed(m, h, es) && w in m && n == m[w := m[w].(link := link, smudged := false)]
    requires forall i :: 0 <= i < |es| ==> es[i] < w
    ensures Listed(n, h, es) && LinksAgree(m, n, w - 1) && HashesAgree(m, n, es)
  {
    hide Holds;
    forall i | 0 <= i < |es|
      ensures Complete(n, es[i]) && LinksAgree(m, n, es[i])
    {
      assert Complete(m, es[i]);
    }
    HoldsFrame(m, n, h, es);
  }

  /** The word itself is put in front of its list. */
  lemma LinkKeeps(m: Memory, n: Memory, h: Hash, es: seq<int>, w: int, b: nat)
    requires Listed(m, h, es) && w in m && b < |h.table| && b == h.Bucket(m[w].hash)
    requires n == m[w := m[w].(link := h.table[b], smudged := false)] && Complete(n, w) && w > 0
    requires forall i :: 0 <= i < |es| ==> es[i] < w
    ensures Listed(n, h.(table := h.table[b := w]), [w] + es)
  {
    hide Holds, Complete, Hash.Bucket;
    RelinkKeeps(m, n, h, es, w, h.table[b]);
    NewWord(m, n, h, es, w, b);
    assert forall i :: 1 <= i < |[w] + es| ==> ([w] + es)[i] == es[i - 1];
  }

  /** A list that is not cut, all its words lying below the address. */
  lemma FreedKeeps(m: Memory, h: Hash, es: seq<int>, where: int)
    requires Listed(m, h, es) && forall i :: 0 <= i < |es| ==> es[i] < where
    ensures Listed(Freed(m, where), h, es)
  {
    hide Holds;
    var n := Freed(m, where);
    forall i | 0 <= i < |es|
      ensures Complete(n, es[i]) && LinksAgree(m, n, es[i])
    {
      assert Complete(m, es[i]);
    }
    HoldsFrame(m, n, h, es);
  }

  lemma CutKeeps(m: Memory, h: Hash, k: Hash, es: seq<int>, where: int)
    requires Listed(m, h, es) && Threaded(m) && where > 0
    requires |k.table| == |h.table|
    requires forall b :: 0 <= b < |h.table| ==> k.table[b] == Unlinked(m, h.table[b], where)
    ensures Listed(Freed(m, where), k, Below(es, where))
  {
    hide Holds;
    ForgetHolds(m, h, k, es, where);
    var fs := Below(es, where);
    forall i | 0 <= i < |fs|
      ensures Complete(Freed(m, where), fs[i])
    {
      BelowMember(es, where, fs[i]);
      var j :| 0 <= j < |es| && es[j] == fs[i];
      assert Complete(m, es[j]);
    }
  }

  lemma FreedLaidOut(m: Memory, here: int, where: int)
    requires LaidOut(m, here) && 0 < where <= here
    ensures LaidOut(Freed(m, where), where)
  {
  }

  // ---------------------------------------------------------------------
  // Definitions

  /** What definitions change: the end of memory, the words, the tables, and for every list its completed words. */
  datatype Snapshot = Snapshot(here: int, words: Memory, lists: seq<Hash>, entries: seq<seq<int>>)

  ghost predicate Sound(s: Snapshot) {
    LaidOut(s.words, s.here) && Ranked(s.lists) && |s.entries| == |s.lists| &&
    forall l :: 0 <= l < |s.lists| ==> Listed(s.words, s.lists[l], s.entries[l])
  }

  /** w is an open definition: it is smudged and newer than every completed word. */
  ghost predicate OpenIn(s: Snapshot, w: int) {
    w in s.words && s.words[w].smudged && s.words[w].hash == HashSpec(s.words[w].name) &&
    |s.words[w].name| <= FICL_NAME_LENGTH &&
    forall l :: 0 <= l < |s.entries| ==> AllBelow(s.entries[l], w)
  }

  predicate AllBelow(es: seq<int>, where: int) {
    forall i :: 0 <= i < |es| ==> es[i] < where
  }

  /** Where the name of a word begun at here is stored. */
  function NameAt(here: int, name: seq<Byte>): (r: int)
    requires here > 0
  {
    if name == [] then Align(here) else here
  }

  /** Where the word itself is. */
  function WordAt(here: int, name: seq<Byte>): (r: int)
    requires here > 0
  {
    if name == [] then Align(here) else Align(here + |name| + 1)
  }

  ghost function Begun(s: Snapshot, header: nat, name: seq<Byte>): (r: Snapshot)
    requires s.here > 0
  {
    var w := WordAt(s.here, name);
    s.(here := w + header, words := s.words[w := Word(name, NameAt(s.here, name), HashSpec(name), 0, true)])
  }

  ghost function Completed(s: Snapshot, compile: nat, w: int): (r: Snapshot)
    requires Sound(s) && w in s.words && compile < |s.lists|
  {
    var x, h := s.words[w], s.lists[compile];
    if x.name == [] then s.(words := s.words[w := x.(smudged := false)])
    else
      var b := h.Bucket(x.hash);
      s.(words := s.words[w := x.(link := h.table[b], smudged := false)],
         lists := s.lists[compile := h.(table := h.table[b := w])],
         entries := s.entries[compile := [w] + s.entries[compile]])
  }

  lemma BegunKeeps(s: Snapshot, header: nat, name: seq<Byte>)
    requires Sound(s) && header > 0 && |name| <= FICL_NAME_LENGTH
    ensures var r, w := Begun(s, header, name), WordAt(s.here, name);
            Sound(r) && OpenIn(r, w) && w !in s.words && s.here <= NameAt(s.here, name) <= w < r.here
  {
    hide Listed, HashSpec;
    var r, w := Begun(s, header, name), WordAt(s.here, name);
    forall l | 0 <= l < |s.lists|
      ensures Listed(r.words, s.lists[l], s.entries[l]) && AllBelow(s.entries[l], w)
    {
      AppendKeeps(s.words, r.words, s.lists[l], s.entries[l], w, r.words[w]);
      ListedInMemory(s.words, s.lists[l], s.entries[l]);
    }
  }

  lemma CompletedKeeps(s: Snapshot, compile: nat, w: int)
    requires Sound(s) && OpenIn(s, w) && compile < |s.lists|
    ensures Sound(Completed(s, compile, w)) && SameShape(Completed(s, compile, w).lists, s.lists)
  {
    hide Listed, HashSpec, Hash.Bucket;
    var r, x := Completed(s, compile, w), s.words[w];
    forall l | 0 <= l < |s.lists|
      ensures Listed(r.words, r.lists[l], r.entries[l])
    {
      RelinkKeeps(s.words, r.words, s.lists[l], s.entries[l], w, r.words[w].link);
      if l == compile && x.name != [] {
        ListedTable(s.words, s.lists[l], s.entries[l]);
        LinkKeeps(s.words, r.words, s.lists[l], s.entries[l], w, s.lists[l].Bucket(x.hash));
      }
    }
    CompletedShape(s, compile, w);
  }

  lemma CompletedShape(s: Snapshot, compile: nat, w: int)
    requires Sound(s) && OpenIn(s, w) && compile < |s.lists|
    ensures var r := Completed(s, compile, w);
            SameShape(r.lists, s.lists) && LaidOut(r.words, r.here)
  {
    hide HashSpec, Hash.Bucket;
    ListedTable(s.words, s.lists[compile], s.entries[compile]);
  }

  // ---------------------------------------------------------------------
  // The dictionary

  class Dictionary {
    const header: nat
    var here: int
    var smudge: int
    var words: Memory
    var lists: seq<Hash>
    var compile: nat
    var order: seq<nat>
    /** For every list its completed words, newest first. */
    ghost var entries: seq<seq<int>>

    ghost predicate Valid()
      reads this
    {
      header > 0 && LaidOut(words, here) && Ranked(lists) && |entries| == |lists| && compile < |lists| &&
      (forall i :: 0 <= i < |order| ==> order[i] < |lists|) &&
      (forall l :: 0 <= l < |lists| ==> Listed(words, lists[l], entries[l]))
    }

    ghost function Snap(): (s: Snapshot)
      reads this
    {
      Snapshot(here, words, lists, entries)
    }

    /** A definition is open. */
    ghost predicate Open()
      reads this
    {
      OpenIn(Snap(), smudge)
    }

    ghost function Path(): (r: seq<int>)
      requires Valid()
      reads this
    {
      OrderPath(lists, entries, order, |order|)
    }

    /** A dictionary of empty wordlists, each as ficlHashReset leaves it but for its parent. */
    constructor (header: nat, base: int, lists: seq<Hash>, compile: nat, order: seq<nat>)
      requires header > 0 && base > 0 && Ranked(lists) && compile < |lists|
      requires forall i :: 0 <= i < |order| ==> order[i] < |lists|
      requires forall l :: 0 <= l < |lists| ==>
                 lists[l].table != [] && forall b :: 0 <= b < |lists[l].table| ==> lists[l].table[b] == 0
      ensures Valid() && entries == seq(|lists|, _ => [])
      ensures this.header == header && this.lists == lists && this.compile == compile && this.order == order
    {
      this.header, this.here, this.smudge := header, base, 0;
      this.words, this.lists, this.compile, this.order := map[], lists, compile, order;
      this.entries := seq(|lists|, _ => []);
    }

    /** ficlDictionaryAppendWord with FICL_WORD_SMUDGED: a definition is begun. */
    method Begin(name: seq<Byte>) returns (w: int)
      requires Valid() && |name| <= FICL_NAME_LENGTH
      modifies this`here, this`smudge, this`words
      ensures Valid() && Open() && smudge == w && w !in old(words) && w == WordAt(old(here), name)
      ensures Snap() == Begun(old(Snap()), header, name)
      ensures old(here) <= words[w].nameAt <= w < here
    {
      hide Listed, HashSpec;
      BegunKeeps(Snap(), header, name);
      var nameAt := here;
      if |name| == 0 {
        nameAt := Align(here);
        w := nameAt;
      } else {
        w := Align(here + |name| + 1);
      }
      var hash := HashCode(name);
      smudge := w;
      words := words[w := Word(name, nameAt, hash, 0, true)];
      here := w + header;
    }

    /** ficlDictionaryUnsmudge: the definition is completed and, unless it has no name, linked into the
        compilation wordlist. */
    method Finish()
      requires Valid() && Open()
      modifies this`words, this`lists, this`entries
      ensures Valid() && Snap() == Completed(old(Snap()), compile, smudge)
      ensures smudge in words && words[smudge] == old(words)[smudge].(smudged := false, link := words[smudge].link)
      ensures entries == if words[smudge].name == [] then old(entries)
                         else old(entries)[compile := [smudge] + old(entries)[compile]]
    {
      hide Listed, HashSpec, Hash.Bucket;
      CompletedKeeps(Snap(), compile, smudge);
      ListedTable(words, lists[compile], entries[compile]);
      var word, hash := words[smudge], lists[compile];
      if |word.name| > 0 {
        var b := hash.Bucket(word.hash);
        word := word.(link := hash.table[b]);
        lists := lists[compile := hash.(table := hash.table[b := smudge])];
        entries := entries[compile := [smudge] + entries[compile]];
      }
      words := words[smudge := word.(smudged := false)];
    }

    /** Code compiled at here. */
    method Allot(n: nat)
      requires Valid()
      modifies this`here
      ensures Valid() && here == old(here) + n
    {
      here := here + n;
    }

    /** ficlHashLookup, over a list and its ancestors. */
    method HashLookup(list: int, name: seq<Byte>, hashCode: nat) returns (w: int)
      requires Valid() && 0 <= list < |lists| && hashCode == HashSpec(name)
      ensures w == Scan(words, ListPath(lists, entries, list), name)
    {
      hide Listed, HashSpec, Hash.Bucket, Matches, Scan;
      var l := list;
      while l != -1
        invariant -1 <= l < |lists|
        invariant Scan(words, ListPath(lists, entries, list), name) == Scan(words, ListPath(lists, entries, l), name)
        decreases l + 1
      {
        w := BucketLookup(l, name, hashCode);
        ListedInMemory(words, lists[l], entries[l]);
        ScanAppend(words, entries[l], ListPath(lists, entries, lists[l].parent), name);
        if w != 0 {
          return;
        }
        l := lists[l].parent;
      }
      ScanNone(words, name);
      w := 0;
    }

    /** The chain of one bucket. */
    method BucketLookup(l: int, name: seq<Byte>, hashCode: nat) returns (w: int)
      requires Valid() && 0 <= l < |lists| && hashCode == HashSpec(name)
      ensures w == Scan(words, entries[l], name)
    {
      hide Listed, HashSpec, Hash.Bucket, Chain;
      var nCmp := |name|;
      if nCmp > FICL_NAME_LENGTH {
        nCmp := FICL_NAME_LENGTH;
      }
      ListedTable(words, lists[l], entries[l]);
      var head := lists[l].table[lists[l].Bucket(hashCode)];
      BucketScan(words, lists[l], entries[l], name);
      w := head;
      while w != 0
        invariant w == 0 || w in words
        invariant Scan(words, Chain(words, head), name) == Scan(words, Chain(words, w), name)
        decreases w
      {
        ChainNext(words, w);
        if |words[w].name| == |name| {
          var d := Strincmp(name, words[w].name, nCmp);
          if d == 0 {
            return;
          }
        }
        w := words[w].link;
      }
      ChainZero(words);
    }

    /** ficlDictionaryLookup */
    method Lookup(name: seq<Byte>) returns (w: int)
      requires Valid()
      ensures w == Scan(words, Path(), name)
      ensures w != 0 ==> Complete(words, w) && w in Path()
    {
      hide Listed, HashSpec, Scan, ListPath;
      var hashCode := HashCode(name);
      w := 0;
      var i := |order|;
      ghost var path := Path();
      while i > 0 && w == 0
        invariant 0 <= i <= |order|
        invariant w == 0 ==> Scan(words, path, name) == Scan(words, OrderPath(lists, entries, order, i), name)
        invariant w != 0 ==> w == Scan(words, path, name)
      {
        i := i - 1;
        w := HashLookup(order[i], name, hashCode);
        PathComplete(words, lists, entries, order[i]);
        ScanAppend(words, ListPath(lists, entries, order[i]), OrderPath(lists, entries, order, i), name);
      }
      if w == 0 {
        ScanNone(words, name);
      } else {
        OrderComplete(words, lists, entries, order, |order|);
        ScanFinds(words, path, name);
      }
    }

    /** ficlDictionaryAppendWord without FICL_WORD_SMUDGED: a word complete at once. */
    method Define(name: seq<Byte>) returns (w: int)
      requires Valid() && |name| <= FICL_NAME_LENGTH
      modifies this`here, this`smudge, this`words, this`lists, this`entries
      ensures Valid() && w == WordAt(old(here), name) && w !in old(words) && w in words && !words[w].smudged
      ensures old(here) <= words[w].nameAt <= w < here
      ensures Snap() == DefinedBy(old(Snap()), header, compile, Definition(name, 0, true))
    {
      hide Listed, HashSpec, LaidOut, Ranked, Begun, Completed;
      DefinedKeeps(Snap(), header, compile, Definition(name, 0, true));
      w := Begin(name);
      Finish();
    }

    /** A word is defined and then sought under some name, the compilation wordlist being the first one searched. */
    method DefineAndLookup(name: seq<Byte>, sought: seq<Byte>) returns (w: int, found: int)
      requires Valid() && 0 < |name| <= FICL_NAME_LENGTH && NulFree(sought)
      requires order != [] && order[|order| - 1] == compile
      modifies this`here, this`smudge, this`words, this`lists, this`entries
      ensures Valid() && w in words && words[w].name == name
      ensures found ==
              if |name| == |sought| &&
                 forall i :: 0 <= i < |name| ==>
                   name[i] == sought[i] || (65 <= name[i] <= 90 && sought[i] == name[i] + 32) ||
                   (65 <= sought[i] <= 90 && name[i] == sought[i] + 32)
              then w else old(Scan(words, Path(), sought))
    {
      hide Scan, OrderPath, DefinedBy, WordAt, Listed, LaidOut, HashSpec;
      ghost var s := Snap();
      VariantFound(s, header, compile, Definition(name, 0, true), order, sought);
      DefinedAdds(s, header, compile, Definition(name, 0, true));
      w := Define(name);
      found := Lookup(sought);
    }

    /** The definitions of a session, with the code compiled into each; one that is not finished was aborted. */
    method DefineAll(session: seq<Definition>)
      requires Valid() && ShortNames(session)
      modifies this`here, this`smudge, this`words, this`lists, this`entries
      ensures Valid() && Snap() == RunSession(old(Snap()), header, compile, session)
    {
      hide Listed, HashSpec, LaidOut, Ranked, DefinedBy;
      ghost var s := Snap();
      for k := 0 to |session|
        invariant Valid() && Snap() == RunSession(s, header, compile, session[..k])
      {
        assert session[..k + 1][..k] == session[..k];
        OneDefinition(session[k]);
      }
      assert session[..|session|] == session;
    }

    /** One definition of a session. */
    method OneDefinition(d: Definition)
      requires Valid() && |d.name| <= FICL_NAME_LENGTH
      modifies this`here, this`smudge, this`words, this`lists, this`entries
      ensures Valid() && Snap() == DefinedBy(old(Snap()), header, compile, d)
    {
      hide Listed, HashSpec, LaidOut, Ranked, Begun, Completed;
      DefinedKeeps(Snap(), header, compile, d);
      var w := Begin(d.name);
      Allot(d.size);
      if d.finished {
        Finish();
      }
    }

    /** A session and then FORGET.  When the name means a definition of the session, the dictionary is afterwards exactly
        as it was before that definition; otherwise FORGET does what it would have done before the session, or
        finds nothing. */
    method DefineAndForget(session: seq<Definition>, name: seq<Byte>) returns (found: bool)
      requires Valid() && ShortNames(session)
      modifies this`here, this`smudge, this`words, this`lists, this`entries
      ensures
        var s, hit, older := old(Snap()), LastHit(session, name), old(Scan(words, Path(), name));
        if hit >= 0 && Reached(s, compile, Visited(s.lists, order, |order|), name) then
          found && Valid() && Snap() == RunSession(s, header, compile, session[..hit])
        else if older == 0 then
          !found && Valid() && Snap() == RunSession(s, header, compile, session)
        else
          found && here == s.words[older].nameAt && words == Freed(s.words, here) &&
          entries == s.entries[compile := Below(s.entries[compile], here)] && SameShape(lists, s.lists) &&
          (Valid() <==> OthersBelow(here))
    {
      hide Listed, HashSpec, Ranked, Since, Scan, OrderPath, RunSession, Reached, Visited, LastHit, Freed, Below, WordAt;
      ghost var s, hit := Snap(), LastHit(session, name);
      ghost var older := Scan(words, Path(), name);
      ghost var reached := hit >= 0 && Reached(s, compile, Visited(s.lists, order, |order|), name);
      SearchAfter(s, header, compile, session, order, name);
      DefineAll(session);
      ghost var r := Snap();
      found := Forget(name);
      if reached {
        HitStays(s, header, compile, session, hit);
        SessionSince(s, header, compile, session, hit);
        ForgottenBack(RunSession(s, header, compile, session[..hit]), r, compile, Snap());
      } else if found {
        SessionSince(s, header, compile, session, 0);
        NothingRun(s, header, compile, session[..0]);
        OlderCut(s, r, compile, older);
      }
    }

    /** The inner loop of ficlHashForget. */
    method UnlinkHeads(head: int, where: int) returns (word: int)
      requires Threaded(words) && where > 0 && (head == 0 || head in words)
      ensures word == Unlinked(words, head, where)
    {
      hide Unlinked;
      word := head;
      while word >= where
        invariant word == 0 || word in words
        invariant Unlinked(words, word, where) == Unlinked(words, head, where)
        decreases word
      {
        UnlinkStep(words, word, where);
        word := words[word].link;
      }
      UnlinkStop(words, word, where);
    }

    /** ficlHashForget: in every bucket the chain is cut down to the words below an address. */
    method HashForget(l: int, where: int)
      requires Valid() && 0 <= l < |lists| && where > 0
      modifies this`lists
      ensures |lists| == old(|lists|)
      ensures forall k :: 0 <= k < |lists| && k != l ==> lists[k] == old(lists)[k]
      ensures lists[l].parent == old(lists)[l].parent && |lists[l].table| == |old(lists)[l].table|
      ensures forall b :: 0 <= b < |lists[l].table| ==>
                lists[l].table[b] == Unlinked(words, old(lists)[l].table[b], where)
    {
      hide Unlinked, Listed;
      ghost var was := lists[l].table;
      ListedTable(words, lists[l], entries[l]);
      for i := 0 to |lists[l].table|
        invariant |lists| == old(|lists|) && lists[l].parent == old(lists)[l].parent && |lists[l].table| == |was|
        invariant forall k :: 0 <= k < |lists| && k != l ==> lists[k] == old(lists)[k]
        invariant forall b :: 0 <= b < i ==> lists[l].table[b] == Unlinked(words, was[b], where)
        invariant forall b :: i <= b < |was| ==> lists[l].table[b] == was[b]
      {
        var word := UnlinkHeads(lists[l].table[i], where);
        lists := lists[l := lists[l].(table := lists[l].table[i := word])];
      }
    }

    /** Every list but the compilation wordlist lies below an address. */
    ghost predicate OthersBelow(where: int)
      reads this
    {
      forall l :: 0 <= l < |entries| && l != compile ==> AllBelow(entries[l], where)
    }

    /** FORGET: the named word and all words laid out after it are removed from the compilation wordlist.  The
        dictionary survives if and only if no other list has a word from there on. */
    method Forget(name: seq<Byte>) returns (found: bool)
      requires Valid()
      modifies this`here, this`words, this`lists, this`entries
      ensures found == (old(Scan(words, Path(), name)) != 0)
      ensures !found ==> unchanged(this)
      ensures found ==>
        var w := old(Scan(words, Path(), name));
        here == old(words)[w].nameAt && words == Freed(old(words), here) && w !in words &&
        entries == old(entries)[compile := Below(old(entries)[compile], here)] && SameShape(lists, old(lists))
      ensures found ==> (Valid() <==> OthersBelow(here))
    {
      hide Listed, Scan, OrderPath, Complete, Below, Unlinked;
      var w := Lookup(name);
      if w == 0 {
        return false;
      }
      var where := words[w].nameAt;
      ghost var was, m, e := lists, words, entries;
      HashForget(compile, where);
      forall l | 0 <= l < |lists|
        ensures Listed(Freed(m, where), lists[l], if l == compile then Below(e[l], where) else e[l]) <==>
                l == compile || AllBelow(e[l], where)
      {
        assert Listed(m, was[l], e[l]);
        if l == compile {
          CutKeeps(m, was[l], lists[l], e[l], where);
        } else {
          CutSurvives(m, lists[l], e[l], where);
        }
      }
      FreedLaidOut(words, here, where);
      entries := entries[compile := Below(entries[compile], where)];
      words := Freed(words, where);
      here := where;
      found := true;
    }
  }

  /** A definition of a session: its name, the bytes of code compiled into it, and whether it was finished. */
  datatype Definition = Definition(name: seq<Byte>, size: nat, finished: bool)

  /** A list whose table is not cut survives the freeing of memory if and only if all its words lie below. */
  lemma CutSurvives(m: Memory, h: Hash, es: seq<int>, where: int)
    requires Listed(m, h, es)
    ensures Listed(Freed(m, where), h, es) <==> AllBelow(es, where)
  {
    if AllBelow(es, where) {
      FreedKeeps(m, h, es, where);
    } else if Listed(Freed(m, where), h, es) {
      ListedInMemory(Freed(m, where), h, es);
    }
  }

  lemma OneWord(m: Memory, a: int)
    requires a > 0 && a in m && m[a].link == 0
    ensures Holds(m, Hash([a], -1), [a])
  {
    var h := Hash([a], -1);
    assert [a][1..] == [];
    assert Chain(m, a) == [a] + Chain(m, 0);
    assert InBucket(m, h, [a], 0) == [a] + InBucket(m, h, [], 0);
  }

  /** FORGET of a word while another list holds a newer one: the other list's chain leads into freed memory. */
  lemma OtherListBroken(name: seq<Byte>)
    requires 0 < |name| <= FICL_NAME_LENGTH
    ensures var m := map[1000 := Word(name, 10, HashSpec(name), 0, false), 2000 := Word(name, 1010, HashSpec(name), 0, false)];
            var h, k := Hash([1000], -1), Hash([2000], -1);
            LaidOut(m, 2010) && Listed(m, h, [1000]) && Listed(m, k, [2000]) &&
            Unlinked(m, 1000, m[1000].nameAt) == 0 && !Listed(Freed(m, m[1000].nameAt), k, [2000])
  {
    hide HashSpec, Holds;
    var m := map[1000 := Word(name, 10, HashSpec(name), 0, false), 2000 := Word(name, 1010, HashSpec(name), 0, false)];
    var h, k := Hash([1000], -1), Hash([2000], -1);
    OneWord(m, 1000);
    OneWord(m, 2000);
    assert Complete(m, 1000) && Complete(m, 2000);
    assert Unlinked(m, 1000, 10) == Unlinked(m, 0, 10);
    assert [2000][0] >= 10;
    CutSurvives(m, k, [2000], 10);
  }

  // ---------------------------------------------------------------------
  // Sessions

  predicate ShortNames(ds: seq<Definition>) {
    forall k :: 0 <= k < |ds| ==> |ds[k].name| <= FICL_NAME_LENGTH
  }

  /** A definition is begun, its code compiled, and it is finished or not. */
  ghost function DefinedBy(s: Snapshot, header: nat, compile: nat, d: Definition): (r: Snapshot)
    requires Sound(s) && header > 0 && compile < |s.lists| && |d.name| <= FICL_NAME_LENGTH
  {
    BegunKeeps(s, header, d.name);
    var b := Begun(s, header, d.name);
    var c := b.(here := b.here + d.size);
    if d.finished then Completed(c, compile, WordAt(s.here, d.name)) else c
  }

  lemma DefinedKeeps(s: Snapshot, header: nat, compile: nat, d: Definition)
    requires Sound(s) && header > 0 && compile < |s.lists| && |d.name| <= FICL_NAME_LENGTH
    ensures var r := DefinedBy(s, header, compile, d);
            Sound(r) && SameShape(r.lists, s.lists)
  {
    hide Listed, HashSpec, Completed;
    BegunKeeps(s, header, d.name);
    var b := Begun(s, header, d.name);
    var c := b.(here := b.here + d.size);
    assert Sound(c) && OpenIn(c, WordAt(s.here, d.name));
    if d.finished {
      CompletedKeeps(c, compile, WordAt(s.here, d.name));
    }
  }

  /** The word it adds, and the list that it adds it to. */
  lemma DefinedAdds(s: Snapshot, header: nat, compile: nat, d: Definition)
    requires Sound(s) && header > 0 && compile < |s.lists| && |d.name| <= FICL_NAME_LENGTH
    ensures var r, w := DefinedBy(s, header, compile, d), WordAt(s.here, d.name);
            w !in s.words && s.here <= w < r.here && w in r.words && r.words == s.words[w := r.words[w]] &&
            r.words[w].name == d.name && r.words[w].nameAt == NameAt(s.here, d.name) &&
            r.entries == if d.finished && d.name != [] then s.entries[compile := [w] + s.entries[compile]] else s.entries
  {
    hide Listed, HashSpec, Hash.Bucket;
    BegunKeeps(s, header, d.name);
  }

  ghost function RunSession(s: Snapshot, header: nat, compile: nat, ds: seq<Definition>): (r: Snapshot)
    requires Sound(s) && header > 0 && compile < |s.lists| && ShortNames(ds)
    ensures Sound(r) && SameShape(r.lists, s.lists)
    decreases |ds|
  {
    if ds == [] then s
    else
      var n := |ds| - 1;
      var t := RunSession(s, header, compile, ds[..n]);
      DefinedKeeps(t, header, compile, ds[n]);
      DefinedBy(t, header, compile, ds[n])
  }

  /** Below its end nothing has changed since s: memory and lists are those of s plus what was laid out later. */
  ghost predicate Since(s: Snapshot, t: Snapshot, compile: nat) {
    s.here <= t.here && Freed(t.words, s.here) == s.words && |t.entries| == |s.entries| && SameShape(t.lists, s.lists) &&
    forall l :: 0 <= l < |t.entries| ==>
      Below(t.entries[l], s.here) == s.entries[l] && (l != compile ==> t.entries[l] == s.entries[l])
  }

  lemma LaidOutThreaded(m: Memory, here: int)
    requires LaidOut(m, here)
    ensures Threaded(m)
  {
  }

  lemma ListsBelow(s: Snapshot)
    requires Sound(s)
    ensures forall l :: 0 <= l < |s.entries| ==> AllBelow(s.entries[l], s.here)
  {
    hide Listed;
    forall l | 0 <= l < |s.entries|
      ensures AllBelow(s.entries[l], s.here)
    {
      ListedInMemory(s.words, s.lists[l], s.entries[l]);
    }
  }

  lemma SinceBegins(s: Snapshot, compile: nat)
    requires Sound(s)
    ensures Since(s, s, compile)
  {
    hide Listed;
    ListsBelow(s);
    forall l | 0 <= l < |s.entries|
      ensures Below(s.entries[l], s.here) == s.entries[l]
    {
      BelowAll(s.entries[l], s.here);
    }
  }

  lemma SinceAdds(s: Snapshot, t: Snapshot, header: nat, compile: nat, d: Definition)
    requires Since(s, t, compile) && Sound(t) && header > 0 && compile < |t.lists| && |d.name| <= FICL_NAME_LENGTH
    ensures Since(s, DefinedBy(t, header, compile, d), compile)
  {
    hide Sound, DefinedBy;
    SoundStarts(t);
    DefinedAdds(t, header, compile, d);
    DefinedKeeps(t, header, compile, d);
    var r, w := DefinedBy(t, header, compile, d), WordAt(t.here, d.name);
    assert Freed(r.words, s.here) == Freed(t.words, s.here);
    assert ([w] + t.entries[compile])[1..] == t.entries[compile];
  }

  /** What the first k definitions of a session have left stays below all later ones. */
  lemma {:induction false} SessionSince(s: Snapshot, header: nat, compile: nat, ds: seq<Definition>, k: nat)
    requires Sound(s) && header > 0 && compile < |s.lists| && ShortNames(ds) && k <= |ds|
    ensures Since(RunSession(s, header, compile, ds[..k]), RunSession(s, header, compile, ds), compile)
    decreases |ds|
  {
    hide Sound, DefinedBy, Since;
    if k == |ds| {
      assert ds[..k] == ds;
      SinceBegins(RunSession(s, header, compile, ds), compile);
    } else {
      var n := |ds| - 1;
      assert ds[..n][..k] == ds[..k];
      SessionSince(s, header, compile, ds[..n], k);
      SinceAdds(RunSession(s, header, compile, ds[..k]), RunSession(s, header, compile, ds[..n]), header, compile, ds[n]);
    }
  }

  lemma NothingRun(s: Snapshot, header: nat, compile: nat, ds: seq<Definition>)
    requires Sound(s) && header > 0 && compile < |s.lists| && ShortNames(ds) && ds == []
    ensures RunSession(s, header, compile, ds) == s
  {
  }

  // What a search finds after a session

  /** The definition ends up in the compilation wordlist under a name that is the one sought. */
  predicate Hit(d: Definition, name: seq<Byte>) {
    d.finished && d.name != [] && Matches(d.name, name)
  }

  /** The last definition of a session that a search for the name can find, -1 if there is none. */
  function LastHit(ds: seq<Definition>, name: seq<Byte>): (r: int)
    ensures -1 <= r < |ds|
    ensures r >= 0 ==> Hit(ds[r], name)
    ensures forall k :: r < k < |ds| ==> !Hit(ds[k], name)
    decreases |ds|
  {
    if ds == [] then -1
    else if Hit(ds[|ds| - 1], name) then |ds| - 1
    else LastHit(ds[..|ds| - 1], name)
  }

  /** A list and its ancestors. */
  ghost function Ancestry(lists: seq<Hash>, l: int): (r: seq<nat>)
    requires Ranked(lists) && -1 <= l < |lists|
    ensures forall i :: 0 <= i < |r| ==> r[i] < |lists|
    decreases l
  {
    if l == -1 then [] else [l] + Ancestry(lists, lists[l].parent)
  }

  /** The lists that a search goes through, for the first k of the search order. */
  ghost function Visited(lists: seq<Hash>, order: seq<nat>, k: nat): (r: seq<nat>)
    requires Ranked(lists) && k <= |order| && forall i :: 0 <= i < |order| ==> order[i] < |lists|
    ensures forall i :: 0 <= i < |r| ==> r[i] < |lists|
  {
    if k == 0 then [] else Ancestry(lists, order[k - 1]) + Visited(lists, order, k - 1)
  }

  /** The search through a sequence of lists. */
  ghost function ScanLists(m: Memory, entries: seq<seq<int>>, vs: seq<nat>, name: seq<Byte>): (r: int)
    requires forall i :: 0 <= i < |vs| ==> vs[i] < |entries|
  {
    if vs == [] then 0
    else
      var w := Scan(m, entries[vs[0]], name);
      if w != 0 then w else ScanLists(m, entries, vs[1..], name)
  }

  /** The search comes to the compilation wordlist before it finds the name in another list. */
  ghost predicate Reached(s: Snapshot, compile: nat, vs: seq<nat>, name: seq<Byte>)
    requires forall i :: 0 <= i < |vs| ==> vs[i] < |s.entries|
    decreases |vs|
  {
    vs != [] &&
    (vs[0] == compile || (Scan(s.words, s.entries[vs[0]], name) == 0 && Reached(s, compile, vs[1..], name)))
  }

  lemma {:induction false} ScanListsAppend(m: Memory, entries: seq<seq<int>>, us: seq<nat>, vs: seq<nat>, name: seq<Byte>)
    requires forall i :: 0 <= i < |us| ==> us[i] < |entries|
    requires forall i :: 0 <= i < |vs| ==> vs[i] < |entries|
    ensures ScanLists(m, entries, us + vs, name) ==
            if ScanLists(m, entries, us, name) != 0 then ScanLists(m, entries, us, name) else ScanLists(m, entries, vs, name)
    decreases |us|
  {
    if us == [] {
      assert us + vs == vs;
    } else {
      assert (us + vs)[1..] == us[1..] + vs;
      ScanListsAppend(m, entries, us[1..], vs, name);
    }
  }

  lemma {:induction false} AncestryScan(s: Snapshot, l: int, name: seq<Byte>)
    requires Sound(s) && -1 <= l < |s.lists|
    ensures Scan(s.words, ListPath(s.lists, s.entries, l), name) == ScanLists(s.words, s.entries, Ancestry(s.lists, l), name)
    decreases l
  {
    hide Listed, LaidOut;
    if l != -1 {
      var p := s.lists[l].parent;
      AncestryScan(s, p, name);
      LaidOutThreaded(s.words, s.here);
      ListedComplete(s.words, s.lists[l], s.entries[l]);
      ScanAppend(s.words, s.entries[l], ListPath(s.lists, s.entries, p), name);
      assert ([l] + Ancestry(s.lists, p))[1..] == Ancestry(s.lists, p);
    }
  }

  /** A search list by list is a scan of the path. */
  lemma {:induction false} VisitedScan(s: Snapshot, order: seq<nat>, k: nat, name: seq<Byte>)
    requires Sound(s) && k <= |order| && forall i :: 0 <= i < |order| ==> order[i] < |s.lists|
    ensures Scan(s.words, OrderPath(s.lists, s.entries, order, k), name) ==
            ScanLists(s.words, s.entries, Visited(s.lists, order, k), name)
  {
    hide Listed, LaidOut, ListPath, Ancestry;
    if k > 0 {
      VisitedScan(s, order, k - 1, name);
      AncestryScan(s, order[k - 1], name);
      LaidOutThreaded(s.words, s.here);
      PathComplete(s.words, s.lists, s.entries, order[k - 1]);
      ScanAppend(s.words, ListPath(s.lists, s.entries, order[k - 1]), OrderPath(s.lists, s.entries, order, k - 1), name);
      ScanListsAppend(s.words, s.entries, Ancestry(s.lists, order[k - 1]), Visited(s.lists, order, k - 1), name);
    }
  }

  lemma {:induction false} AncestrySame(lists: seq<Hash>, was: seq<Hash>, l: int)
    requires SameShape(lists, was) && Ranked(was) && Ranked(lists) && -1 <= l < |was|
    ensures Ancestry(lists, l) == Ancestry(was, l)
    decreases l
  {
    if l != -1 {
      AncestrySame(lists, was, lists[l].parent);
    }
  }

  lemma {:induction false} VisitedSame(lists: seq<Hash>, was: seq<Hash>, order: seq<nat>, k: nat)
    requires SameShape(lists, was) && Ranked(was) && Ranked(lists) && k <= |order|
    requires forall i :: 0 <= i < |order| ==> order[i] < |lists|
    ensures Visited(lists, order, k) == Visited(was, order, k)
  {
    hide Ranked, Ancestry;
    if k > 0 {
      VisitedSame(lists, was, order, k - 1);
      AncestrySame(lists, was, order[k - 1]);
    }
  }

  lemma {:induction false} ScanFrame(m: Memory, es: seq<int>, w: int, x: Word, name: seq<Byte>)
    requires w !in m && forall i :: 0 <= i < |es| ==> es[i] in m
    ensures Scan(m[w := x], es, name) == Scan(m, es, name)
  {
    hide Matches;
    if es != [] {
      ScanFrame(m, es[1..], w, x, name);
    }
  }

  /** One definition more: what a search of each list finds. */
  lemma ListAfter(s: Snapshot, header: nat, compile: nat, d: Definition, l: nat, name: seq<Byte>)
    requires Sound(s) && header > 0 && compile < |s.lists| && |d.name| <= FICL_NAME_LENGTH && l < |s.lists|
    ensures var r := DefinedBy(s, header, compile, d);
            |r.entries| == |s.entries| &&
            Scan(r.words, r.entries[l], name) ==
              if l == compile && Hit(d, name) then WordAt(s.here, d.name) else Scan(s.words, s.entries[l], name)
  {
    hide Listed, DefinedBy, Matches, WordAt;
    DefinedAdds(s, header, compile, d);
    var r, w := DefinedBy(s, header, compile, d), WordAt(s.here, d.name);
    assert Listed(s.words, s.lists[l], s.entries[l]);
    ListedInMemory(s.words, s.lists[l], s.entries[l]);
    ScanFrame(s.words, s.entries[l], w, r.words[w], name);
    assert ([w] + s.entries[l])[1..] == s.entries[l];
  }

  lemma {:induction false} ListsAfter(s: Snapshot, header: nat, compile: nat, d: Definition, vs: seq<nat>, name: seq<Byte>)
    requires Sound(s) && header > 0 && compile < |s.lists| && |d.name| <= FICL_NAME_LENGTH
    requires forall i :: 0 <= i < |vs| ==> vs[i] < |s.lists|
    ensures var r := DefinedBy(s, header, compile, d);
            |r.entries| == |s.entries| && (Reached(r, compile, vs, name) <==> Reached(s, compile, vs, name)) &&
            ScanLists(r.words, r.entries, vs, name) ==
              if Hit(d, name) && Reached(s, compile, vs, name) then WordAt(s.here, d.name)
              else ScanLists(s.words, s.entries, vs, name)
    decreases |vs|
  {
    hide Sound, DefinedBy, Hit, Scan, WordAt;
    SoundStarts(s);
    DefinedAdds(s, header, compile, d);
    if vs != [] {
      ListsAfter(s, header, compile, d, vs[1..], name);
      ListAfter(s, header, compile, d, vs[0], name);
    }
  }

  lemma SoundStarts(s: Snapshot)
    requires Sound(s)
    ensures s.here > 0 && |s.entries| == |s.lists| && Ranked(s.lists)
  {
  }

  /** A search through any lists after a session: the last definition that can be found, if the search
      comes to the compilation wordlist, and what it found before the session otherwise. */
  lemma {:induction false} SessionScan(s: Snapshot, header: nat, compile: nat, ds: seq<Definition>, vs: seq<nat>, name: seq<Byte>)
    requires Sound(s) && header > 0 && compile < |s.lists| && ShortNames(ds)
    requires forall i :: 0 <= i < |vs| ==> vs[i] < |s.lists|
    ensures var r, hit := RunSession(s, header, compile, ds), LastHit(ds, name);
            |r.entries| == |s.entries| && (Reached(r, compile, vs, name) <==> Reached(s, compile, vs, name)) &&
            ScanLists(r.words, r.entries, vs, name) ==
              if hit >= 0 && Reached(s, compile, vs, name)
              then WordAt(RunSession(s, header, compile, ds[..hit]).here, ds[hit].name)
              else ScanLists(s.words, s.entries, vs, name)
    decreases |ds|
  {
    hide Sound, DefinedBy, Hit, ScanLists, Reached, WordAt;
    SoundStarts(s);
    if ds != [] {
      var n := |ds| - 1;
      SessionScan(s, header, compile, ds[..n], vs, name);
      var t := RunSession(s, header, compile, ds[..n]);
      SoundStarts(t);
      ListsAfter(t, header, compile, ds[n], vs, name);
      var hit := LastHit(ds, name);
      assert 0 <= hit < n ==> ds[..n][..hit] == ds[..hit];
    }
  }

  /** The same for a search of the whole order. */
  lemma SearchAfter(s: Snapshot, header: nat, compile: nat, ds: seq<Definition>, order: seq<nat>, name: seq<Byte>)
    requires Sound(s) && header > 0 && compile < |s.lists| && ShortNames(ds)
    requires forall i :: 0 <= i < |order| ==> order[i] < |s.lists|
    ensures var r, hit := RunSession(s, header, compile, ds), LastHit(ds, name);
            Sound(r) && |r.lists| == |s.lists| &&
            Scan(r.words, OrderPath(r.lists, r.entries, order, |order|), name) ==
              if hit >= 0 && Reached(s, compile, Visited(s.lists, order, |order|), name)
              then WordAt(RunSession(s, header, compile, ds[..hit]).here, ds[hit].name)
              else Scan(s.words, OrderPath(s.lists, s.entries, order, |order|), name)
  {
    hide Listed, LaidOut, RunSession, Reached, ScanLists, Scan, WordAt, LastHit;
    var r := RunSession(s, header, compile, ds);
    VisitedScan(s, order, |order|, name);
    VisitedScan(r, order, |order|, name);
    VisitedSame(r.lists, s.lists, order, |order|);
    SessionScan(s, header, compile, ds, Visited(s.lists, order, |order|), name);
  }

  /** After a definition, with the compilation wordlist searched first: the new word is found under its name in any
      capitals, and every other search finds what it found before. */
  lemma VariantFound(s: Snapshot, header: nat, compile: nat, d: Definition, order: seq<nat>, sought: seq<Byte>)
    requires Sound(s) && header > 0 && compile < |s.lists| && 0 < |d.name| <= FICL_NAME_LENGTH && d.finished && NulFree(sought)
    requires order != [] && order[|order| - 1] == compile && forall i :: 0 <= i < |order| ==> order[i] < |s.lists|
    ensures var r := DefinedBy(s, header, compile, d);
            Sound(r) && |r.lists| == |s.lists| &&
            Scan(r.words, OrderPath(r.lists, r.entries, order, |order|), sought) ==
              if CaseVariant(d.name, sought) then WordAt(s.here, d.name)
              else Scan(s.words, OrderPath(s.lists, s.entries, order, |order|), sought)
  {
    hide Sound, Scan, OrderPath, Matches, WordAt, CaseVariant, DefinedBy;
    SoundStarts(s);
    SearchAfter(s, header, compile, [d], order, sought);
    assert [d][..0] == [] && [d][..|[d]| - 1] == [];
    var vs := Visited(s.lists, order, |order|);
    assert vs[0] == compile;
    VariantMatches(d.name, sought);
    DefinedKeeps(s, header, compile, d);
    OneRun(s, header, compile, d);
  }

  lemma VariantMatches(name: seq<Byte>, sought: seq<Byte>)
    requires |name| <= FICL_NAME_LENGTH && NulFree(sought)
    ensures Matches(name, sought) <==> CaseVariant(name, sought)
  {
    MatchesMeans(name, sought);
  }

  lemma OneRun(s: Snapshot, header: nat, compile: nat, d: Definition)
    requires Sound(s) && header > 0 && compile < |s.lists| && |d.name| <= FICL_NAME_LENGTH
    ensures RunSession(s, header, compile, [d]) == DefinedBy(s, header, compile, d)
  {
    hide Sound, DefinedBy;
    assert [d][..0] == [];
    NothingRun(s, header, compile, [d][..0]);
  }

  // What FORGET leaves after a session

  /** The word that a definition laid down is still there at the end of the session. */
  lemma HitStays(s: Snapshot, header: nat, compile: nat, ds: seq<Definition>, k: nat)
    requires Sound(s) && header > 0 && compile < |s.lists| && ShortNames(ds) && k < |ds|
    ensures var r, t := RunSession(s, header, compile, ds), RunSession(s, header, compile, ds[..k]);
            var w := WordAt(t.here, ds[k].name);
            w in r.words && r.words[w].name == ds[k].name && r.words[w].nameAt == NameAt(t.here, ds[k].name)
  {
    hide Sound, DefinedBy, WordAt;
    var r, t, u := RunSession(s, header, compile, ds), RunSession(s, header, compile, ds[..k]),
                   RunSession(s, header, compile, ds[..k + 1]);
    assert ds[..k + 1][..k] == ds[..k];
    SoundStarts(t);
    DefinedAdds(t, header, compile, ds[k]);
    SessionSince(s, header, compile, ds, k + 1);
    var w := WordAt(t.here, ds[k].name);
    assert w in Freed(r.words, u.here);
  }

  /** Cutting r at the end of an earlier t takes everything back to t. */
  lemma ForgottenBack(t: Snapshot, r: Snapshot, compile: nat, v: Snapshot)
    requires Sound(t) && Since(t, r, compile) && compile < |t.lists|
    requires v.here == t.here && v.words == Freed(r.words, v.here) && SameShape(v.lists, r.lists)
    requires v.entries == r.entries[compile := Below(r.entries[compile], v.here)]
    ensures forall l :: 0 <= l < |v.entries| ==> AllBelow(v.entries[l], v.here)
    ensures Sound(v) ==> v == t
  {
    hide Listed;
    ListsBelow(t);
    assert v.entries == t.entries;
    if Sound(v) {
      SameTables(v.words, v.lists, t.lists, v.entries);
    }
  }

  lemma {:induction false} BelowTwice(es: seq<int>, where: int, here: int)
    requires where <= here
    ensures Below(Below(es, here), where) == Below(es, where)
  {
    hide Below;
    if es == [] {
      BelowCons(0, [], here);
    } else {
      BelowTwice(es[1..], where, here);
      assert es == [es[0]] + es[1..];
      BelowCons(es[0], es[1..], here);
      BelowCons(es[0], es[1..], where);
      BelowCons(es[0], Below(es[1..], here), where);
    }
  }

  /** Cutting r below the end of an earlier s is cutting s. */
  lemma OlderCut(s: Snapshot, r: Snapshot, compile: nat, w: int)
    requires Sound(s) && Since(s, r, compile) && compile < |s.lists| && w in s.words
    ensures w in r.words && r.words[w] == s.words[w]
    ensures var where := s.words[w].nameAt;
            Freed(r.words, where) == Freed(s.words, where) &&
            r.entries[compile := Below(r.entries[compile], where)] == s.entries[compile := Below(s.entries[compile], where)]
  {
    hide Listed;
    var where := s.words[w].nameAt;
    assert w in Freed(r.words, s.here);
    assert Freed(Freed(r.words, s.here), where) == Freed(r.words, where);
    BelowTwice(r.entries[compile], where, s.here);
  }

  /** The tables are determined by the words they hold. */
  lemma SameTables(m: Memory, lists: seq<Hash>, was: seq<Hash>, entries: seq<seq<int>>)
    requires SameShape(lists, was) && |entries| == |lists| && Threaded(m)
    requires forall l :: 0 <= l < |lists| ==> Listed(m, lists[l], entries[l]) && Listed(m, was[l], entries[l])
    ensures lists == was
  {
    hide Listed;
    forall l | 0 <= l < |lists|
      ensures lists[l] == was[l]
    {
      TableDetermined(m, lists[l], was[l], entries[l]);
    }
  }

  lemma TableDetermined(m: Memory, h: Hash, k: Hash, es: seq<int>)
    requires Listed(m, h, es) && Listed(m, k, es) && Threaded(m)
    requires |h.table| == |k.table| && h.parent == k.parent
    ensures h == k
  {
    ListedTable(m, h, es);
    ListedTable(m, k, es);
    forall b | 0 <= b < |h.table|
      ensures h.table[b] == k.table[b]
    {
      BucketFrame(m, m, h, k, es, b);
      ChainZero(m);
      if h.table[b] != 0 { ChainNext(m, h.table[b]); }
      if k.table[b] != 0 { ChainNext(m, k.table[b]); }
    }
    assert h.table == k.table;
  }

  /** What Scan finds is the first match: nothing before it matches, and it finds nothing only if nothing matches. */
  lemma {:induction false} ScanIsFirst(m: Memory, es: seq<int>, name: seq<Byte>) returns (k: nat)
    requires AllComplete(m, es) && Threaded(m)
    ensures k <= |es| && forall i :: 0 <= i < k ==> !Matches(m[es[i]].name, name)
    ensures if k < |es| then Scan(m, es, name) == es[k] && Matches(m[es[k]].name, name) else Scan(m, es, name) == 0
  {
    hide Matches, HashSpec;
    if es == [] {
      k := 0;
    } else {
      assert Complete(m, es[0]);
      if Matches(m[es[0]].name, name) {
        k := 0;
      } else {
        forall i | 0 <= i < |es[1..]|
          ensures Complete(m, es[1..][i])
        {
          assert Complete(m, es[i + 1]);
        }
        var j := ScanIsFirst(m, es[1..], name);
        k := j + 1;
        forall i | 0 <= i < k
          ensures !Matches(m[es[i]].name, name)
        {
          assert i > 0 ==> es[i] == es[1..][i - 1];
        }
      }
    }
  }

  lemma {:induction false} BelowAll(es: seq<int>, where: int)
    ensures (forall i :: 0 <= i < |es| ==> es[i] < where) ==> Below(es, where) == es
    ensures (forall i :: 0 <= i < |es| ==> es[i] >= where) ==> Below(es, where) == []
  {
    if es != [] {
      assert forall i :: 0 <= i < |es[1..]| ==> es[1..][i] == es[i + 1];
      BelowAll(es[1..], where);
    }
  }

  lemma UnlinkStep(m: Memory, a: int, where: int)
    requires Threaded(m) && where > 0 && (a == 0 || a in m)
    ensures a >= where ==> a in m && a > m[a].link && (m[a].link == 0 || m[a].link in m)
    ensures a >= where ==> Unlinked(m, a, where) == Unlinked(m, m[a].link, where)
  {
  }

  lemma UnlinkStop(m: Memory, a: int, where: int)
    requires a < where
    ensures Unlinked(m, a, where) == a
  {
  }

  lemma ScanNone(m: Memory, name: seq<Byte>)
    ensures Scan(m, [], name) == 0
  {
  }

  lemma ScanFinds(m: Memory, es: seq<int>, name: seq<Byte>)
    requires AllComplete(m, es) && Scan(m, es, name) != 0
    ensures Scan(m, es, name) in es && Complete(m, Scan(m, es, name))
  {
    var w := Scan(m, es, name);
    var i :| 0 <= i < |es| && es[i] == w;
    assert Complete(m, es[i]);
  }

  lemma {:induction false} PathComplete(m: Memory, lists: seq<Hash>, entries: seq<seq<int>>, l: int)
    requires Ranked(lists) && |entries| == |lists| && -1 <= l < |lists| && Threaded(m)
    requires forall k :: 0 <= k < |lists| ==> Listed(m, lists[k], entries[k])
    ensures AllComplete(m, ListPath(lists, entries, l))
    ensures forall i :: 0 <= i < |ListPath(lists, entries, l)| ==> ListPath(lists, entries, l)[i] != 0
    decreases l
  {
    hide Complete;
    if l != -1 {
      PathComplete(m, lists, entries, lists[l].parent);
      ListedComplete(m, lists[l], entries[l]);
    }
  }

  lemma ListedComplete(m: Memory, h: Hash, es: seq<int>)
    requires Listed(m, h, es) && Threaded(m)
    ensures AllComplete(m, es) && forall i :: 0 <= i < |es| ==> es[i] != 0
  {
    assert forall i :: 0 <= i < |es| ==> Complete(m, es[i]);
  }

  lemma {:induction false} OrderComplete(m: Memory, lists: seq<Hash>, entries: seq<seq<int>>, order: seq<nat>, k: nat)
    requires Ranked(lists) && |entries| == |lists| && Threaded(m)
    requires k <= |order| && forall i :: 0 <= i < |order| ==> order[i] < |lists|
    requires forall l :: 0 <= l < |lists| ==> Listed(m, lists[l], entries[l])
    ensures AllComplete(m, OrderPath(lists, entries, order, k))
  {
    hide Complete, ListPath;
    if k > 0 {
      OrderComplete(m, lists, entries, order, k - 1);
      PathComplete(m, lists, entries, order[k - 1]);
    }
  }

  lemma ListedTable(m: Memory, h: Hash, es: seq<int>)
    requires Listed(m, h, es)
    ensures h.table != []
    ensures forall b :: 0 <= b < |h.table| ==> h.table[b] == 0 || h.table[b] in es
    ensures forall b :: 0 <= b < |h.table| ==> h.table[b] == 0 || h.table[b] in m
  {
    ListedInMemory(m, h, es);
  }

  lemma BucketScan(m: Memory, h: Hash, es: seq<int>, name: seq<Byte>)
    requires Listed(m, h, es) && h.table != []
    ensures Scan(m, Chain(m, h.table[h.Bucket(HashSpec(name))]), name) == Scan(m, es, name)
  {
    ScanFilters(m, h, es, name);
  }

  lemma ChainNext(m: Memory, a: int)
    requires Threaded(m) && a in m
    ensures a > 0 && Chain(m, a) == [a] + Chain(m, m[a].link) && Chain(m, a)[1..] == Chain(m, m[a].link)
    ensures m[a].link == 0 || (m[a].link in m && m[a].link < a)
  {
  }

  lemma ListedInMemory(m: Memory, h: Hash, es: seq<int>)
    requires Listed(m, h, es)
    ensures forall i :: 0 <= i < |es| ==> es[i] in m
  {
    assert forall i :: 0 <= i < |es| ==> Complete(m, es[i]);
  }
}
