/**
  Names in wordlists: the case-folding hash of ficl/hash.c and the chains of words that
  hang from its table.
 */
module Wordlist {

  type Byte = x: int | 0 <= x < 256

  const FICL_NAME_LENGTH := 256

  /** tolower in the C locale. */
  function Fold(b: Byte): (r: Byte) {
    if 65 <= b <= 90 then b + 32 else b
  }

  // ---------------------------------------------------------------------
  // The hash code

  /** One turn of the rolling shift and add, on 16 bits. */
  function Mix(code: bv16, c: Byte): bv16 {
    var code := (code << 4) + (c as bv16);
    var shift := code & 0xf000;
    if shift != 0 then (code ^ (shift >> 8)) ^ shift else code
  }

  function HashFrom(code: bv16, s: seq<Byte>): bv16
    decreases |s|
  {
    if s == [] || s[0] == 0 then code else HashFrom(Mix(code, Fold(s[0])), s[1..])
  }

  function HashSpec(s: seq<Byte>): (r: nat) {
    HashFrom((|s| % 0x1_0000) as bv16, s) as nat
  }

  /** ficlHashCode */
  method HashCode(s: seq<Byte>) returns (r: nat)
    ensures r == HashSpec(s)
  {
    hide Mix;
    var code: bv16 := (|s| % 0x1_0000) as bv16;
    if |s| == 0 {
      return 0;
    }
    var i := 0;
    while i < |s| && s[i] != 0
      invariant 0 <= i <= |s|
      invariant HashFrom((|s| % 0x1_0000) as bv16, s) == HashFrom(code, s[i..])
    {
      assert s[i..][1..] == s[i + 1..];
      code := Mix(code, Fold(s[i]));
      i := i + 1;
    }
    r := code as nat;
  }

  /** Each turn clears the four high bits. */
  lemma MixClears(code: bv16, c: Byte)
    ensures Mix(code, c) & 0xf000 == 0
  {
  }

  lemma {:induction false} HashFromFits(code: bv16, s: seq<Byte>)
    requires code & 0xf000 == 0
    ensures HashFrom(code, s) & 0xf000 == 0
    decreases |s|
  {
    hide Mix;
    if s != [] && s[0] != 0 {
      MixClears(code, Fold(s[0]));
      HashFromFits(Mix(code, Fold(s[0])), s[1..]);
    }
  }

  /** Hash codes of names have twelve bits. */
  lemma HashFits(s: seq<Byte>)
    requires s != [] && s[0] != 0
    ensures HashSpec(s) < 4096
  {
    hide Mix;
    var code: bv16 := (|s| % 0x1_0000) as bv16;
    MixClears(code, Fold(s[0]));
    HashFromFits(Mix(code, Fold(s[0])), s[1..]);
    TwelveBits(HashFrom(code, s));
  }

  lemma TwelveBits(code: bv16)
    requires code & 0xf000 == 0
    ensures code as nat < 4096
  {
    assert code < 0x1000;
  }

  lemma MixOfDup()
    ensures Mix(3, 100) == 148 && Mix(148, 117) == 2485 && Mix(2485, 112) == 2896
  {
  }

  lemma {:induction false} HashThree(code: bv16, a: Byte, b: Byte, c: Byte)
    requires a != 0 && b != 0 && c != 0
    ensures HashFrom(code, [a, b, c]) == Mix(Mix(Mix(code, Fold(a)), Fold(b)), Fold(c))
  {
    hide Mix;
    assert [a, b, c][1..] == [b, c] && [b, c][1..] == [c] && [c][1..] == [];
    var x := Mix(code, Fold(a));
    var y := Mix(x, Fold(b));
    assert HashFrom(code, [a, b, c]) == HashFrom(x, [b, c]);
    assert HashFrom(x, [b, c]) == HashFrom(y, [c]);
    assert HashFrom(y, [c]) == HashFrom(Mix(y, Fold(c)), []);
  }

  /** The hash code of dup and of DUP, from their length on. */
  lemma HashOfDup()
    ensures HashFrom(3, [100, 117, 112]) == 2896 && HashFrom(3, [68, 85, 80]) == 2896
  {
    hide Mix, HashFrom;
    MixOfDup();
    HashThree(3, 100, 117, 112);
    HashThree(3, 68, 85, 80);
  }

  /** ficlStrincmp finds no difference: equal up to case in the first count bytes, or up to a NUL. */
  predicate SameUpTo(a: seq<Byte>, b: seq<Byte>, count: nat)
    requires count <= |a| && count <= |b|
    decreases count
  {
    count == 0 || (Fold(a[0]) == Fold(b[0]) && (a[0] == 0 || SameUpTo(a[1..], b[1..], count - 1)))
  }

  /** intern_ficlStrincmp, as a test for equality. */
  method Strincmp(a: seq<Byte>, b: seq<Byte>, count: nat) returns (i: int)
    requires count <= |a| && count <= |b|
    ensures i == 0 <==> SameUpTo(a, b, count)
  {
    var k := 0;
    while k < count
      invariant 0 <= k <= count
      invariant SameUpTo(a, b, count) <==> SameUpTo(a[k..], b[k..], count - k)
    {
      assert a[k..][1..] == a[k + 1..] && b[k..][1..] == b[k + 1..];
      i := Fold(a[k]) - Fold(b[k]);
      if i != 0 {
        return;
      } else if a[k] == 0 {
        return 0;
      }
      k := k + 1;
    }
    i := 0;
  }

  /** The test of ficlHashLookup for a word's name against the name sought. */
  predicate Matches(name: seq<Byte>, sought: seq<Byte>) {
    |name| == |sought| &&
    SameUpTo(sought, name, if |sought| > FICL_NAME_LENGTH then FICL_NAME_LENGTH else |sought|)
  }

  lemma {:induction false} SameHashFrom(code: bv16, a: seq<Byte>, b: seq<Byte>)
    requires |a| == |b| && SameUpTo(a, b, |a|)
    ensures HashFrom(code, a) == HashFrom(code, b)
    decreases |a|
  {
    hide Mix;
    if a != [] && a[0] != 0 {
      SameHashFrom(Mix(code, Fold(a[0])), a[1..], b[1..]);
    }
  }

  /** Names that match hash alike. */
  lemma MatchesHashAlike(name: seq<Byte>, sought: seq<Byte>)
    requires Matches(name, sought) && |name| <= FICL_NAME_LENGTH
    ensures HashSpec(name) == HashSpec(sought)
  {
    SameHashFrom((|name| % 0x1_0000) as bv16, sought, name);
  }

  function Folded(s: seq<Byte>): (r: seq<Byte>)
    ensures |r| == |s|
  {
    seq(|s|, i requires 0 <= i < |s| => Fold(s[i]))
  }

  predicate NulFree(s: seq<Byte>) {
    forall i :: 0 <= i < |s| ==> s[i] != 0
  }

  lemma {:induction false} SameIsFolded(a: seq<Byte>, b: seq<Byte>)
    requires |a| == |b| && NulFree(a)
    ensures SameUpTo(a, b, |a|) <==> Folded(a) == Folded(b)
    decreases |a|
  {
    if a != [] {
      assert NulFree(a[1..]);
      SameIsFolded(a[1..], b[1..]);
      FoldedCons(a);
      FoldedCons(b);
    }
  }

  lemma FoldedCons(a: seq<Byte>)
    requires a != []
    ensures Folded(a) == [Fold(a[0])] + Folded(a[1..])
    ensures Folded(a)[0] == Fold(a[0]) && Folded(a)[1..] == Folded(a[1..])
  {
  }

  /** For ordinary names a match is equality up to case. */
  lemma MatchIsCaseInsensitive(name: seq<Byte>, sought: seq<Byte>)
    requires |name| <= FICL_NAME_LENGTH && NulFree(sought)
    ensures Matches(name, sought) <==> Folded(name) == Folded(sought)
  {
    assert |Folded(name)| == |name| && |Folded(sought)| == |sought|;
    if |name| == |sought| {
      SameIsFolded(sought, name);
    }
  }

  /** Two bytes are the same but for the case of an ASCII letter. */
  predicate SameLetter(a: Byte, b: Byte) {
    a == b || (65 <= a <= 90 && b == a + 32) || (65 <= b <= 90 && a == b + 32)
  }

  /** The second name is the first in other capitals, or the same. */
  predicate CaseVariant(name: seq<Byte>, sought: seq<Byte>) {
    |name| == |sought| && forall i :: 0 <= i < |name| ==> SameLetter(name[i], sought[i])
  }

  lemma {:induction false} SameMeans(a: seq<Byte>, b: seq<Byte>, count: nat)
    requires |a| == |b| && count <= |a| && NulFree(a)
    ensures SameUpTo(a, b, count) <==> forall i :: 0 <= i < count ==> SameLetter(b[i], a[i])
    decreases count
  {
    if count > 0 {
      SameMeans(a[1..], b[1..], count - 1);
      assert forall i :: 1 <= i < count ==> a[i] == a[1..][i - 1] && b[i] == b[1..][i - 1];
      assert forall i :: 0 <= i < count - 1 ==> a[1..][i] == a[i + 1] && b[1..][i] == b[i + 1];
    }
  }

  /** A word's name matches a name sought if and only if they differ at most in the case of letters; of long names
      the first 256 bytes are compared. */
  lemma MatchesMeans(name: seq<Byte>, sought: seq<Byte>)
    requires NulFree(sought)
    ensures Matches(name, sought) <==>
            |name| == |sought| &&
            forall i :: 0 <= i < |name| && i < 256 ==>
              name[i] == sought[i] || (65 <= name[i] <= 90 && sought[i] == name[i] + 32) ||
              (65 <= sought[i] <= 90 && name[i] == sought[i] + 32)
  {
    if |name| == |sought| {
      SameMeans(sought, name, if |sought| > FICL_NAME_LENGTH then FICL_NAME_LENGTH else |sought|);
    }
  }

  // ---------------------------------------------------------------------
  // Words in memory and the chains through them

  /** A ficlWord: its name and where that is stored, its hash, the next older word of its bucket (0 for none),
      and the FICL_WORD_SMUDGED flag. */
  datatype Word = Word(name: seq<Byte>, nameAt: int, hash: nat, link: int, smudged: bool)

  /** Words by address. */
  type Memory = map<int, Word>

  /** A ficlHash: a table of chain heads and the parent wordlist (-1 for none). */
  datatype Hash = Hash(table: seq<int>, parent: int) {
    /** The bucket of a hash code; tables of one bucket avoid the division. */
    function Bucket(hash: nat): (b: nat)
      requires table != []
      ensures b < |table| && b == hash % |table|
    {
      if |table| > 1 then hash % |table| else 0
    }
  }

  /** The addresses met by following the links from a. */
  function Chain(m: Memory, a: int): (r: seq<int>)
    decreases a
  {
    if a > 0 && a in m && m[a].link < a then [a] + Chain(m, m[a].link) else []
  }

  /** All links lead to older words, and to words. */
  ghost predicate Threaded(m: Memory) {
    forall a :: a in m ==> a > 0 && (m[a].link == 0 || (m[a].link in m && m[a].link < a))
  }

  predicate Decreasing(es: seq<int>) {
    forall i, j :: 0 <= i < j < |es| ==> es[i] > es[j]
  }

  /** The words of one bucket, in the order of the list. */
  function InBucket(m: Memory, h: Hash, es: seq<int>, b: nat): (r: seq<int>)
    requires h.table != []
  {
    if es == [] then []
    else (if es[0] in m && h.Bucket(m[es[0]].hash) == b then [es[0]] else []) + InBucket(m, h, es[1..], b)
  }

  /** The completed words es, newest first, are exactly what the table's chains hold, each in the bucket of its hash. */
  ghost predicate Holds(m: Memory, h: Hash, es: seq<int>) {
    h.table != [] && Decreasing(es) &&
    (forall b :: 0 <= b < |h.table| ==> h.table[b] == 0 || h.table[b] in es) &&
    (forall b :: 0 <= b < |h.table| ==> Chain(m, h.table[b]) == InBucket(m, h, es, b))
  }

  // What a word in a wordlist is like
  ghost predicate Complete(m: Memory, a: int) {
    a in m && !m[a].smudged && 0 < |m[a].name| <= FICL_NAME_LENGTH && m[a].hash == HashSpec(m[a].name)
  }

  ghost predicate AllComplete(m: Memory, es: seq<int>) {
    forall i :: 0 <= i < |es| ==> Complete(m, es[i])
  }

  // ---------------------------------------------------------------------
  // Search

  /** The reference: the first word of the list whose name matches, 0 if there is none. */
  function Scan(m: Memory, es: seq<int>, name: seq<Byte>): (r: int)
    ensures r != 0 ==> r in es && r in m && Matches(m[r].name, name)
  {
    if es == [] then 0
    else if es[0] in m && Matches(m[es[0]].name, name) then es[0]
    else Scan(m, es[1..], name)
  }

  lemma {:induction false} ScanFilters(m: Memory, h: Hash, es: seq<int>, name: seq<Byte>)
    requires h.table != [] && AllComplete(m, es)
    ensures Scan(m, InBucket(m, h, es, h.Bucket(HashSpec(name))), name) == Scan(m, es, name)
  {
    hide HashSpec, Matches, Hash.Bucket;
    if es != [] {
      var b := h.Bucket(HashSpec(name));
      ScanFilters(m, h, es[1..], name);
      assert Complete(m, es[0]);
      if Matches(m[es[0]].name, name) {
        MatchesHashAlike(m[es[0]].name, name);
      }
      var rest := InBucket(m, h, es[1..], b);
      assert ([es[0]] + rest)[1..] == rest;
      assert [] + rest == rest;
    }
  }

  // ---------------------------------------------------------------------
  // Changes of memory that a list does not see

  ghost predicate LinksAgree(m: Memory, n: Memory, limit: int) {
    forall x :: 0 < x <= limit ==> (x in m <==> x in n) && (x in m ==> m[x].link == n[x].link)
  }

  lemma {:induction false} ChainFrame(m: Memory, n: Memory, a: int)
    requires LinksAgree(m, n, a)
    ensures Chain(m, a) == Chain(n, a)
    decreases a
  {
    if a > 0 && a in m && m[a].link < a {
      ChainFrame(m, n, m[a].link);
    }
  }

  ghost predicate HashesAgree(m: Memory, n: Memory, es: seq<int>) {
    forall i :: 0 <= i < |es| ==> (es[i] in m <==> es[i] in n) && (es[i] in m ==> m[es[i]].hash == n[es[i]].hash)
  }

  lemma {:induction false} BucketFrame(m: Memory, n: Memory, h: Hash, k: Hash, es: seq<int>, b: nat)
    requires HashesAgree(m, n, es) && h.table != [] && |h.table| == |k.table|
    ensures InBucket(m, h, es, b) == InBucket(n, k, es, b)
  {
    if es != [] {
      BucketFrame(m, n, h, k, es[1..], b);
    }
  }

  /** A list is unaffected by changes to memory outside its words. */
  lemma HoldsFrame(m: Memory, n: Memory, h: Hash, es: seq<int>)
    requires Holds(m, h, es)
    requires forall i :: 0 <= i < |es| ==> LinksAgree(m, n, es[i])
    requires HashesAgree(m, n, es)
    ensures Holds(n, h, es)
  {
    hide LinksAgree, InBucket, Chain;
    forall b | 0 <= b < |h.table|
      ensures Chain(n, h.table[b]) == InBucket(n, h, es, b)
    {
      BucketFrame(m, n, h, h, es, b);
      if h.table[b] == 0 {
        ChainZero(m);
        ChainZero(n);
      } else {
        ChainFrame(m, n, h.table[b]);
      }
    }
  }

  lemma ChainZero(m: Memory)
    ensures Chain(m, 0) == []
  {
  }

  // ---------------------------------------------------------------------
  // A word is linked in

  lemma {:induction false} NewWord(m: Memory, n: Memory, h: Hash, es: seq<int>, w: int, b: nat)
    requires Holds(m, h, es) && b < |h.table| && w > 0 && (forall i :: 0 <= i < |es| ==> es[i] < w)
    requires LinksAgree(m, n, w - 1) && HashesAgree(m, n, es)
    requires w in n && n[w].link == h.table[b] && b == h.Bucket(n[w].hash)
    ensures Holds(n, h.(table := h.table[b := w]), [w] + es)
  {
    hide Chain, InBucket;
    var k, fs := h.(table := h.table[b := w]), [w] + es;
    assert forall i :: 1 <= i < |fs| ==> fs[i] == es[i - 1];
    assert fs[0] == w && fs[1..] == es;
    forall c | 0 <= c < |k.table|
      ensures k.table[c] == 0 || k.table[c] in fs
      ensures Chain(n, k.table[c]) == InBucket(n, k, fs, c)
    {
      NewBucket(m, n, h, k, es, w, b, c);
      assert h.table[c] == 0 || h.table[c] in es;
    }
  }

  lemma NewBucket(m: Memory, n: Memory, h: Hash, k: Hash, es: seq<int>, w: int, b: nat, c: nat)
    requires Holds(m, h, es) && b < |h.table| && w > 0 && (forall i :: 0 <= i < |es| ==> es[i] < w)
    requires LinksAgree(m, n, w - 1) && HashesAgree(m, n, es)
    requires w in n && n[w].link == h.table[b] && b == h.Bucket(n[w].hash)
    requires k == h.(table := h.table[b := w]) && c < |h.table|
    ensures Chain(n, k.table[c]) == InBucket(n, k, [w] + es, c)
  {
    hide Hash.Bucket;
    BucketFrame(m, n, h, k, es, c);
    assert ([w] + es)[1..] == es;
    assert h.table[c] < w;
    assert LinksAgree(m, n, h.table[c]);
    ChainFrame(m, n, h.table[c]);
    SameBuckets(h, k, n[w].hash);
  }

  lemma SameBuckets(h: Hash, k: Hash, hash: nat)
    requires h.table != [] && |h.table| == |k.table|
    ensures h.Bucket(hash) == k.Bucket(hash)
  {
  }

  // ---------------------------------------------------------------------
  // Words are forgotten

  function Below(es: seq<int>, where: int): (r: seq<int>) {
    if es == [] then []
    else (if es[0] < where then [es[0]] else []) + Below(es[1..], where)
  }

  /** The head left after unlinking every word at or above an address. */
  function Unlinked(m: Memory, a: int, where: int): (r: int)
    decreases a
  {
    if a > 0 && a >= where && a in m && m[a].link < a then Unlinked(m, m[a].link, where) else a
  }

  lemma {:induction false} ChainBounded(m: Memory, a: int, where: int)
    requires a < where
    ensures Below(Chain(m, a), where) == Chain(m, a)
    decreases a
  {
    if a > 0 && a in m && m[a].link < a {
      ChainBounded(m, m[a].link, where);
      assert ([a] + Chain(m, m[a].link))[1..] == Chain(m, m[a].link);
    }
  }

  /** Unlinking heads removes exactly the words at or above the cut. */
  lemma {:induction false} UnlinkedChain(m: Memory, a: int, where: int)
    requires where > 0 && (a == 0 || (Threaded(m) && a in m))
    ensures Chain(m, Unlinked(m, a, where)) == Below(Chain(m, a), where)
    ensures Unlinked(m, a, where) == 0 || (Unlinked(m, a, where) < where && Unlinked(m, a, where) in Chain(m, a))
    decreases a
  {
    if a >= where {
      UnlinkedChain(m, m[a].link, where);
      assert ([a] + Chain(m, m[a].link))[1..] == Chain(m, m[a].link);
    } else {
      ChainBounded(m, a, where);
    }
  }

  lemma {:induction false} BelowBucket(m: Memory, h: Hash, es: seq<int>, where: int, b: nat)
    requires h.table != []
    ensures InBucket(m, h, Below(es, where), b) == Below(InBucket(m, h, es, b), where)
  {
    hide Hash.Bucket, Below, InBucket;
    if es == [] {
      BelowCons(0, [], where);
      BucketNil(m, h, b);
    } else {
      var e, tail := es[0], es[1..];
      assert es == [e] + tail;
      BelowCons(e, tail, where);
      BelowBucket(m, h, tail, where, b);
      BucketCons(m, h, e, tail, b);
      BucketCons(m, h, e, Below(tail, where), b);
      BelowCons(e, InBucket(m, h, tail, b), where);
    }
  }

  lemma BelowCons(e: int, es: seq<int>, where: int)
    ensures Below([e] + es, where) == if e < where then [e] + Below(es, where) else Below(es, where)
    ensures Below([], where) == []
  {
    assert ([e] + es)[1..] == es;
  }

  lemma BucketNil(m: Memory, h: Hash, b: nat)
    requires h.table != []
    ensures InBucket(m, h, [], b) == []
  {
  }

  lemma BucketCons(m: Memory, h: Hash, e: int, es: seq<int>, b: nat)
    requires h.table != []
    ensures InBucket(m, h, [e] + es, b) ==
            if e in m && h.Bucket(m[e].hash) == b then [e] + InBucket(m, h, es, b) else InBucket(m, h, es, b)
  {
    assert ([e] + es)[1..] == es;
  }

  lemma {:induction false} BelowMember(es: seq<int>, where: int, a: int)
    ensures a in Below(es, where) <==> a in es && a < where
  {
    if es != [] {
      BelowMember(es[1..], where, a);
    }
  }

  lemma {:induction false} BelowDecreasing(es: seq<int>, where: int)
    requires Decreasing(es)
    ensures Decreasing(Below(es, where))
  {
    if es != [] {
      BelowDecreasing(es[1..], where);
      var r := Below(es[1..], where);
      forall j | 0 <= j < |r|
        ensures r[j] < es[0]
      {
        BelowMember(es[1..], where, r[j]);
        var i :| 0 <= i < |es[1..]| && es[1..][i] == r[j];
        assert es[i + 1] == r[j];
      }
    }
  }

  /** Memory from `where` on is free again. */
  function Freed(m: Memory, where: int): (r: Memory) {
    map a | a in m && a < where :: m[a]
  }

  lemma {:induction false} ForgetHolds(m: Memory, h: Hash, k: Hash, es: seq<int>, where: int)
    requires Holds(m, h, es) && AllComplete(m, es) && Threaded(m) && where > 0
    requires |k.table| == |h.table|
    requires forall b :: 0 <= b < |h.table| ==> k.table[b] == Unlinked(m, h.table[b], where)
    ensures Holds(Freed(m, where), k, Below(es, where))
  {
    hide Complete, Chain, InBucket, Unlinked, Freed;
    BelowDecreasing(es, where);
    forall b | 0 <= b < |k.table|
      ensures k.table[b] == 0 || k.table[b] in Below(es, where)
      ensures Chain(Freed(m, where), k.table[b]) == InBucket(Freed(m, where), k, Below(es, where), b)
    {
      ForgetBucket(m, h, k, es, where, b);
    }
  }

  lemma {:induction false} BucketMember(m: Memory, h: Hash, es: seq<int>, b: nat, a: int)
    requires h.table != [] && a in InBucket(m, h, es, b)
    ensures a in es
  {
    if a !in InBucket(m, h, es[1..], b) {
      assert a == es[0];
    } else {
      BucketMember(m, h, es[1..], b, a);
    }
  }

  lemma FreedAgrees(m: Memory, where: int, a: int)
    requires a < where
    ensures LinksAgree(m, Freed(m, where), a)
  {
  }

  lemma FreedHashes(m: Memory, es: seq<int>, where: int)
    ensures HashesAgree(m, Freed(m, where), Below(es, where))
  {
    var r := Below(es, where);
    forall i | 0 <= i < |r|
      ensures r[i] < where
    {
      BelowMember(es, where, r[i]);
    }
  }

  lemma {:induction false} ForgetBucket(m: Memory, h: Hash, k: Hash, es: seq<int>, where: int, b: nat)
    requires Holds(m, h, es) && AllComplete(m, es) && Threaded(m) && where > 0
    requires |k.table| == |h.table| && b < |h.table| && k.table[b] == Unlinked(m, h.table[b], where)
    ensures k.table[b] == 0 || k.table[b] in Below(es, where)
    ensures Chain(Freed(m, where), k.table[b]) == InBucket(Freed(m, where), k, Below(es, where), b)
  {
    hide Chain, InBucket, Unlinked, Freed, Threaded, LinksAgree, HashesAgree;
    var a := h.table[b];
    if a != 0 {
      assert a in es;
      var i :| 0 <= i < |es| && es[i] == a;
      assert Complete(m, es[i]);
    }
    UnlinkedChain(m, a, where);
    BelowBucket(m, h, es, where, b);
    FreedHashes(m, es, where);
    BucketFrame(m, Freed(m, where), h, k, Below(es, where), b);
    if k.table[b] == 0 {
      ChainZero(m);
      ChainZero(Freed(m, where));
    } else {
      BucketMember(m, h, es, b, k.table[b]);
      BelowMember(es, where, k.table[b]);
      FreedAgrees(m, where, k.table[b]);
      ChainFrame(m, Freed(m, where), k.table[b]);
    }
  }
}
