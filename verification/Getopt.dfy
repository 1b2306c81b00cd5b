/**
  The scanning and permutation skeleton of getopt_internal in lib/getopt_long.c.

  What an argument looks like is a parameter: whether it is an option, how many calls it
  keeps busy (a cluster of short options is reported letter by letter) and how many
  further arguments its last option asks for.
 */
module Getopt {
  import Rotation

  datatype Kind = NonOption | Terminator | Option

  /** Permute: non-options are skipped; Stop: the first one ends the scan; InOrder: each one is reported. */
  datatype Mode = Permute | Stop | InOrder

  /** `more` is the number of letters after the first, `extra` the number of arguments wanted after the
      option that begins the given rest of argv. */
  datatype Syntax<!T> = Syntax(mode: Mode, kind: T -> Kind, more: T -> nat, extra: seq<T> -> nat) {
    function Letters(arg: T): (r: nat) {
      1 + more(arg)
    }

    /** Slots used by the option in front; a missing argument is an error, but the scan goes on behind argv's end. */
    function Slots(rest: seq<T>): (r: nat)
      requires rest != []
      ensures 1 <= r <= |rest|
    {
      if 1 + extra(rest) <= |rest| then 1 + extra(rest) else |rest|
    }
  }

  /** What a call reports: the end, a non-option in order, or letter number `letter` of an option argument. */
  datatype Answer<T> = End | Plain(arg: T) | Found(arg: T, letter: nat)

  // ---------------------------------------------------------------------
  // The intended result, on the arguments as given

  /** The arguments split into those used by options, the skipped non-options, and those never looked at. */
  datatype Parts<T> = Parts(options: seq<T>, others: seq<T>, unread: seq<T>)

  function Split<T>(x: Syntax<T>, rest: seq<T>): (r: Parts<T>)
    decreases |rest|
  {
    if rest == [] then Parts([], [], [])
    else
      match x.kind(rest[0])
      case Terminator => Parts([rest[0]], [], rest[1..])
      case Option =>
        var p := Split(x, rest[x.Slots(rest)..]);
        p.(options := rest[..x.Slots(rest)] + p.options)
      case NonOption =>
        match x.mode
        case Stop => Parts([], [], rest)
        case InOrder => var p := Split(x, rest[1..]); p.(options := [rest[0]] + p.options)
        case Permute => var p := Split(x, rest[1..]); p.(others := [rest[0]] + p.others)
  }

  // What becomes of each argument, place by place
  datatype Role = Used | Skipped | Unread

  function Roles<T>(x: Syntax<T>, rest: seq<T>): (r: seq<Role>)
    ensures |r| == |rest|
    decreases |rest|
  {
    if rest == [] then []
    else
      match x.kind(rest[0])
      case Terminator => [Used] + seq(|rest| - 1, _ => Unread)
      case Option => seq(x.Slots(rest), _ => Used) + Roles(x, rest[x.Slots(rest)..])
      case NonOption =>
        if x.mode == Stop then seq(|rest|, _ => Unread)
        else [if x.mode == Permute then Skipped else Used] + Roles(x, rest[1..])
  }

  /** The arguments of one role, in their original order. */
  function Pick<T>(args: seq<T>, roles: seq<Role>, role: Role): (r: seq<T>)
    requires |args| == |roles|
  {
    if args == [] then []
    else (if roles[0] == role then [args[0]] else []) + Pick(args[1..], roles[1..], role)
  }

  lemma {:induction false} PickAppend<T>(a: seq<T>, ra: seq<Role>, b: seq<T>, rb: seq<Role>, role: Role)
    requires |a| == |ra| && |b| == |rb|
    ensures Pick(a + b, ra + rb, role) == Pick(a, ra, role) + Pick(b, rb, role)
  {
    if a == [] {
      assert a + b == b && ra + rb == rb;
    } else {
      var head := if ra[0] == role then [a[0]] else [];
      assert (a + b)[1..] == a[1..] + b && (ra + rb)[1..] == ra[1..] + rb;
      PickAppend(a[1..], ra[1..], b, rb, role);
      Assoc(head, Pick(a[1..], ra[1..], role), Pick(b, rb, role));
    }
  }

  lemma {:induction false} PickAll<T>(a: seq<T>, r: Role, role: Role)
    ensures Pick(a, seq(|a|, _ => r), role) == if r == role then a else []
  {
    if a != [] {
      assert seq(|a|, _ => r)[1..] == seq(|a| - 1, _ => r);
      PickAll(a[1..], r, role);
    }
  }

  lemma PickUniform<T>(a: seq<T>, r: Role, b: seq<T>, rb: seq<Role>, role: Role)
    requires |b| == |rb|
    ensures Pick(a + b, seq(|a|, _ => r) + rb, role) == (if r == role then a else []) + Pick(b, rb, role)
  {
    PickAppend(a, seq(|a|, _ => r), b, rb, role);
    PickAll(a, r, role);
  }

  /** Split is a stable partition: each part holds the arguments of one role in their original order. */
  lemma {:induction false} SplitIsStable<T>(x: Syntax<T>, rest: seq<T>, role: Role)
    ensures Pick(rest, Roles(x, rest), role) ==
            match role case Used => Split(x, rest).options case Skipped => Split(x, rest).others case Unread => Split(x, rest).unread
    decreases |rest|
  {
    if rest == [] {
    } else if x.kind(rest[0]).Terminator? {
      assert rest == [rest[0]] + rest[1..] && [Used] == seq(1, _ => Used);
      PickUniform([rest[0]], Used, rest[1..], seq(|rest| - 1, _ => Unread), role);
      PickAll(rest[1..], Unread, role);
    } else if x.kind(rest[0]).Option? {
      var m := x.Slots(rest);
      assert rest == rest[..m] + rest[m..];
      PickUniform(rest[..m], Used, rest[m..], Roles(x, rest[m..]), role);
      SplitIsStable(x, rest[m..], role);
    } else if x.mode == Stop {
      PickAll(rest, Unread, role);
    } else {
      var r := if x.mode == Permute then Skipped else Used;
      assert rest == [rest[0]] + rest[1..] && [r] == seq(1, _ => r);
      PickUniform([rest[0]], r, rest[1..], Roles(x, rest[1..]), role);
      SplitIsStable(x, rest[1..], role);
    }
  }

  ghost function Bag<T>(p: Parts<T>): multiset<T> {
    multiset(p.options) + multiset(p.others) + multiset(p.unread)
  }

  lemma BagAdds<T>(p: Parts<T>, front: seq<T>)
    ensures Bag(p.(options := front + p.options)) == multiset(front) + Bag(p)
    ensures Bag(p.(others := front + p.others)) == multiset(front) + Bag(p)
  {
  }

  /** Nothing is lost or added. */
  lemma {:induction false} SplitConserves<T>(x: Syntax<T>, rest: seq<T>)
    ensures Bag(Split(x, rest)) == multiset(rest)
    decreases |rest|
  {
    hide Bag;
    if rest == [] {
      BagOf(Split(x, rest));
    } else {
      var m := if x.kind(rest[0]).Option? then x.Slots(rest) else 1;
      assert rest == rest[..m] + rest[m..];
      SplitConserves(x, rest[m..]);
      BagAdds(Split(x, rest[m..]), rest[..m]);
      assert m == 1 ==> rest[..m] == [rest[0]];
      if x.kind(rest[0]).Terminator? || (x.kind(rest[0]).NonOption? && x.mode == Stop) {
        BagOf(Split(x, rest));
      }
    }
  }

  lemma BagOf<T>(p: Parts<T>)
    ensures Bag(p) == multiset(p.options) + multiset(p.others) + multiset(p.unread)
  {
  }

  /** Only non-options are skipped. */
  lemma {:induction false} SkippedAreNonOptions<T>(x: Syntax<T>, rest: seq<T>, i: nat)
    requires i < |Split(x, rest).others|
    ensures x.kind(Split(x, rest).others[i]).NonOption?
    decreases |rest|
  {
    if x.kind(rest[0]).Option? {
      SkippedAreNonOptions(x, rest[x.Slots(rest)..], i);
    } else if x.mode == InOrder {
      SkippedAreNonOptions(x, rest[1..], i);
    } else if i > 0 {
      SkippedAreNonOptions(x, rest[1..], i - 1);
    }
  }

  /** With permutation something stays unread only behind `--`. */
  lemma {:induction false} UnreadFollowsTerminator<T>(x: Syntax<T>, rest: seq<T>)
    requires x.mode == Permute && Split(x, rest).unread != []
    ensures Split(x, rest).options != []
    ensures x.kind(Split(x, rest).options[|Split(x, rest).options| - 1]).Terminator?
    decreases |rest|
  {
    if x.kind(rest[0]).Option? {
      UnreadFollowsTerminator(x, rest[x.Slots(rest)..]);
    } else if x.kind(rest[0]).NonOption? {
      UnreadFollowsTerminator(x, rest[1..]);
    }
  }

  /** The reports due for an option argument when `left` of its letters remain. */
  function Due<T>(x: Syntax<T>, arg: T, left: nat): (r: seq<Answer<T>>)
    requires left <= x.Letters(arg)
    decreases left
  {
    if left == 0 then [] else [Found(arg, x.Letters(arg) - left)] + Due(x, arg, left - 1)
  }

  function Reports<T>(x: Syntax<T>, rest: seq<T>): (r: seq<Answer<T>>)
    decreases |rest|
  {
    if rest == [] then []
    else
      match x.kind(rest[0])
      case Terminator => []
      case Option => Due(x, rest[0], x.Letters(rest[0])) + Reports(x, rest[x.Slots(rest)..])
      case NonOption =>
        match x.mode
        case Stop => []
        case InOrder => [Plain(rest[0])] + Reports(x, rest[1..])
        case Permute => Reports(x, rest[1..])
  }

  // What an option takes with it

  /** An option uses its own place and the places of the arguments that it asks for, as far as there are any; the next
      argument begins right behind them. */
  lemma OptionUses<T>(x: Syntax<T>, rest: seq<T>)
    requires rest != [] && x.kind(rest[0]).Option?
    ensures forall i :: 0 <= i < |rest| && i <= x.extra(rest) ==> Roles(x, rest)[i] == Used
    ensures var n := 1 + x.extra(rest);
            n <= |rest| ==> Roles(x, rest)[n..] == Roles(x, rest[n..])
    ensures var n := 1 + x.extra(rest);
            n < |rest| && x.kind(rest[n]).NonOption? && x.mode == Permute ==> Roles(x, rest)[n] == Skipped
    ensures var n := 1 + x.extra(rest);
            n < |rest| && x.kind(rest[n]).NonOption? && x.mode == Stop ==>
              forall i :: n <= i < |rest| ==> Roles(x, rest)[i] == Unread
  {
    var m := x.Slots(rest);
    assert Roles(x, rest) == seq(m, _ => Used) + Roles(x, rest[m..]);
    if m < |rest| {
      assert rest[m..][0] == rest[m];
    }
  }

  /** An option argument is reported once for each of its letters, the first one first; then come the reports for
      what follows the arguments it asks for. */
  lemma OptionReports<T>(x: Syntax<T>, rest: seq<T>)
    requires rest != [] && x.kind(rest[0]).Option?
    ensures var n, m := 1 + x.extra(rest), 1 + x.more(rest[0]);
            |Reports(x, rest)| >= m && (forall k :: 0 <= k < m ==> Reports(x, rest)[k] == Found(rest[0], k)) &&
            Reports(x, rest)[m..] == if n <= |rest| then Reports(x, rest[n..]) else []
  {
    DueIs(x, rest[0], x.Letters(rest[0]));
    var due := Due(x, rest[0], x.Letters(rest[0]));
    assert Reports(x, rest) == due + Reports(x, rest[x.Slots(rest)..]);
  }

  lemma {:induction false} DueIs<T>(x: Syntax<T>, arg: T, left: nat)
    requires left <= x.Letters(arg)
    ensures |Due(x, arg, left)| == left
    ensures forall k :: 0 <= k < left ==> Due(x, arg, left)[k] == Found(arg, x.Letters(arg) - left + k)
    decreases left
  {
    if left > 0 {
      DueIs(x, arg, left - 1);
    }
  }

  // ---------------------------------------------------------------------
  // The state between calls

  /** optind, nonopt_start, nonopt_end, and the letters left at `place`. */
  datatype Scan = Scan(optind: int, start: int, end: int, place: nat) {
    /** The skipped non-options lie in argv[First()..Last()]; the options found after them follow up to optind. */
    function First(): int { if start == -1 then optind else start }
    function Last(): int { if end == -1 then optind else end }
  }

  ghost predicate Between<T>(x: Syntax<T>, argv: seq<T>, s: Scan) {
    1 <= s.optind <= |argv| &&
    (s.start == -1 ==> s.end == -1) &&
    (s.start != -1 ==> x.mode == Permute && 1 <= s.start < s.Last() <= s.optind) &&
    (s.end != -1 && s.end == s.optind ==> s.place > 0) &&
    (s.place > 0 ==>
      s.optind < |argv| && x.kind(argv[s.optind]).Option? && s.place <= x.Letters(argv[s.optind]) &&
      (s.start == -1 || s.end != -1))
  }

  /** argv and optind as they will be when the run ends. */
  datatype Final<T> = Final(argv: seq<T>, optind: int)

  ghost function Outlook<T>(x: Syntax<T>, argv: seq<T>, s: Scan): (r: Final<T>)
    requires Between(x, argv, s)
  {
    var p := Split(x, argv[s.optind..]);
    var done := argv[..s.First()] + argv[s.Last()..s.optind] + p.options;
    Final(done + argv[s.First()..s.Last()] + p.others + p.unread, |done|)
  }

  ghost function Pending<T>(x: Syntax<T>, argv: seq<T>, s: Scan): (r: seq<Answer<T>>)
    requires Between(x, argv, s)
  {
    var rest := argv[s.optind..];
    if s.place == 0 then Reports(x, rest)
    else Due(x, rest[0], s.place) + Reports(x, rest[x.Slots(rest)..])
  }

  lemma FreshScan<T>(x: Syntax<T>, argv: seq<T>, k: int)
    requires 1 <= k <= |argv|
    ensures Between(x, argv, Scan(k, -1, -1, 0))
  {
  }

  lemma OutlookFresh<T>(x: Syntax<T>, argv: seq<T>, k: int)
    requires 1 <= k <= |argv|
    ensures var s, p := Scan(k, -1, -1, 0), Split(x, argv[k..]);
            Between(x, argv, s) &&
            Outlook(x, argv, s) == Final(argv[..k] + p.options + p.others + p.unread, k + |p.options|)
  {
    hide Split;
    var p := Split(x, argv[k..]);
    assert argv[..k] + argv[k..k] == argv[..k];
    assert (argv[..k] + p.options) + argv[k..k] == argv[..k] + p.options;
  }

  /** A whole run from a fresh scan at k partitions argv[k..] by role, and optind ends behind the options. */
  lemma FreshOutlook<T>(x: Syntax<T>, argv: seq<T>, k: int)
    requires 1 <= k <= |argv|
    ensures var s := Scan(k, -1, -1, 0);
            var rest, roles := argv[k..], Roles(x, argv[k..]);
            Between(x, argv, s) &&
            Outlook(x, argv, s) ==
              Final(argv[..k] + Pick(rest, roles, Used) + Pick(rest, roles, Skipped) + Pick(rest, roles, Unread),
                    k + |Pick(rest, roles, Used)|) &&
            multiset(Outlook(x, argv, s).argv) == multiset(argv)
  {
    hide Split, Outlook, Pick, Roles, Bag;
    OutlookFresh(x, argv, k);
    SplitIsStable(x, argv[k..], Used);
    SplitIsStable(x, argv[k..], Skipped);
    SplitIsStable(x, argv[k..], Unread);
    SplitConserves(x, argv[k..]);
    BagOf(Split(x, argv[k..]));
    assert argv == argv[..k] + argv[k..];
  }

  lemma {:induction false} SplitAllSkipped<T>(x: Syntax<T>, skipped: seq<T>, rest: seq<T>)
    requires x.mode == Permute && forall i :: 0 <= i < |skipped| ==> x.kind(skipped[i]).NonOption?
    ensures var p := Split(x, rest);
            Split(x, skipped + rest) == p.(others := skipped + p.others)
    decreases |skipped|
  {
    if skipped == [] {
      assert skipped + rest == rest;
    } else {
      assert (skipped + rest)[1..] == skipped[1..] + rest;
      SplitAllSkipped(x, skipped[1..], rest);
      assert skipped == [skipped[0]] + skipped[1..];
      Assoc([skipped[0]], skipped[1..], Split(x, rest).others);
    }
  }

  lemma SplitOptionFirst<T>(x: Syntax<T>, o: T, args: seq<T>, tail: seq<T>)
    requires x.kind(o).Option? && x.extra([o] + args + tail) == |args|
    ensures var p := Split(x, tail);
            Split(x, [o] + args + tail) == p.(options := [o] + args + p.options)
  {
    var rest := [o] + args + tail;
    assert rest[..1 + |args|] == [o] + args && rest[1 + |args|..] == tail;
  }

  /** On the final argv: behind any skipped non-options, an option comes in front of them together with all the
      arguments it asks for, in order; the rest goes on as without them. */
  lemma OptionTakesArguments<T>(x: Syntax<T>, front: seq<T>, skipped: seq<T>, o: T, args: seq<T>, tail: seq<T>)
    requires front != [] && x.mode == Permute && forall i :: 0 <= i < |skipped| ==> x.kind(skipped[i]).NonOption?
    requires x.kind(o).Option? && x.extra([o] + args + tail) == |args|
    ensures var argv, s, p := front + skipped + [o] + args + tail, Scan(|front|, -1, -1, 0), Split(x, tail);
            Between(x, argv, s) &&
            Outlook(x, argv, s) ==
              Final(front + ([o] + args + p.options) + (skipped + p.others) + p.unread,
                    |front| + 1 + |args| + |p.options|)
  {
    hide Split, Outlook;
    var argv, rest := front + skipped + [o] + args + tail, [o] + args + tail;
    assert argv[..|front|] == front && argv[|front|..] == skipped + rest;
    SplitAllSkipped(x, skipped, rest);
    SplitOptionFirst(x, o, args, tail);
    OutlookFresh(x, argv, |front|);
  }

  // ---------------------------------------------------------------------
  // What each branch keeps

  lemma SplitSkip<T>(x: Syntax<T>, argv: seq<T>, i: int)
    requires 0 <= i < |argv| && x.kind(argv[i]).NonOption? && x.mode == Permute
    ensures var p := Split(x, argv[i + 1..]);
            Split(x, argv[i..]) == p.(others := argv[i..i + 1] + p.others)
    ensures Reports(x, argv[i..]) == Reports(x, argv[i + 1..])
  {
    Adjoin(argv, i, i, 1);
  }

  /** A skipped non-option, with no options found since the last permutation. */
  lemma SkipKeeps<T>(x: Syntax<T>, argv: seq<T>, s: Scan)
    requires Between(x, argv, s) && s.optind < |argv| && s.place == 0 && s.end == -1
    requires x.kind(argv[s.optind]).NonOption? && x.mode == Permute
    ensures var t := Scan(s.optind + 1, s.First(), -1, 0);
            Between(x, argv, t) && Outlook(x, argv, t) == Outlook(x, argv, s) &&
            Pending(x, argv, t) == Pending(x, argv, s)
  {
    hide Split, Reports;
    var t := Scan(s.optind + 1, s.First(), -1, 0);
    SplitSkip(x, argv, s.optind);
    Adjoin(argv, s.First(), s.optind, 1);
    var p := Split(x, argv[t.optind..]);
    var done := argv[..s.First()] + p.options;
    assert argv[..s.First()] + [] == argv[..s.First()];
    Assoc(done, argv[s.First()..s.optind], argv[s.optind..t.optind]);
    Assoc(done + argv[s.First()..s.optind], argv[s.optind..t.optind], p.others);
  }

  /** A permutation in mid-run: the options found last go before the skipped non-options. */
  lemma PermuteKeeps<T>(x: Syntax<T>, argv: seq<T>, s: Scan)
    requires Between(x, argv, s) && s.place == 0 && s.end != -1
    ensures var now := Rotation.Exchanged(argv, s.start, s.end, s.optind);
            var t := s.(start := s.optind - (s.end - s.start), end := -1);
            Between(x, now, t) && now[s.optind..] == argv[s.optind..] &&
            Outlook(x, now, t) == Outlook(x, argv, s) && Pending(x, now, t) == Pending(x, argv, s)
  {
    hide Rotation.Exchanged, Split, Reports;
    ExchangedParts(argv, s.start, s.end, s.optind);
  }

  lemma ExchangedParts<T>(q: seq<T>, a: int, b: int, c: int)
    requires 0 <= a <= b <= c <= |q|
    ensures var r := Rotation.Exchanged(q, a, b, c);
            r[c..] == q[c..] && r[..a + c - b] == q[..a] + q[b..c] && r[a + c - b..c] == q[a..b] && r[c..c] == []
  {
  }

  /** An option argument is met: the run of skipped non-options, if any, ends here. */
  lemma MeetKeeps<T>(x: Syntax<T>, argv: seq<T>, s: Scan)
    requires Between(x, argv, s) && s.optind < |argv| && s.place == 0 && x.kind(argv[s.optind]).Option?
    ensures var t := s.(end := if s.start == -1 then -1 else s.Last(), place := x.Letters(argv[s.optind]));
            Between(x, argv, t) && Outlook(x, argv, t) == Outlook(x, argv, s) &&
            Pending(x, argv, t) == Pending(x, argv, s)
  {
  }

  /** One letter of a cluster, not the last. */
  lemma LetterKeeps<T>(x: Syntax<T>, argv: seq<T>, s: Scan)
    requires Between(x, argv, s) && s.place > 1
    ensures var t := s.(place := s.place - 1);
            Between(x, argv, t) && Outlook(x, argv, t) == Outlook(x, argv, s) &&
            Pending(x, argv, s) ==
            [Found(argv[s.optind], x.Letters(argv[s.optind]) - s.place)] + Pending(x, argv, t)
  {
  }

  lemma Adjoin<T>(q: seq<T>, a: int, b: int, m: int)
    requires 0 <= a <= b <= b + m <= |q|
    ensures q[b..][..m] == q[b..b + m] && q[b..][m..] == q[b + m..]
    ensures q[a..b] + q[b..b + m] == q[a..b + m] && q[..b] + q[b..b + m] == q[..b + m]
  {
  }

  lemma Assoc<T>(a: seq<T>, b: seq<T>, c: seq<T>)
    ensures a + (b + c) == a + b + c
  {
  }

  /** The last letter, which uses up the argument and those its option asks for. */
  lemma LastLetterKeeps<T>(x: Syntax<T>, argv: seq<T>, s: Scan)
    requires Between(x, argv, s) && s.place == 1
    ensures var t := s.(optind := s.optind + x.Slots(argv[s.optind..]), place := 0);
            Between(x, argv, t) && Outlook(x, argv, t) == Outlook(x, argv, s) &&
            Pending(x, argv, s) == [Found(argv[s.optind], x.Letters(argv[s.optind]) - 1)] + Pending(x, argv, t)
  {
    hide Split, Outlook, Reports, Due, Syntax.Slots;
    var rest := argv[s.optind..];
    var m := x.Slots(rest);
    LastLetterOutlook(x, argv, s, s.(optind := s.optind + m, place := 0), m);
    OneDue(x, rest[0]);
    Adjoin(argv, s.optind, s.optind, m);
  }

  lemma OneDue<T>(x: Syntax<T>, arg: T)
    ensures Due(x, arg, 1) == [Found(arg, x.Letters(arg) - 1)]
  {
  }

  lemma LastLetterOutlook<T>(x: Syntax<T>, argv: seq<T>, s: Scan, t: Scan, m: nat)
    requires Between(x, argv, s) && s.place == 1
    requires m == x.Slots(argv[s.optind..]) && t == s.(optind := s.optind + m, place := 0)
    ensures Between(x, argv, t) && Outlook(x, argv, t) == Outlook(x, argv, s)
  {
    hide Syntax.Slots, Split, Outlook;
    SplitOption(x, argv, s.optind, m);
    if s.start == -1 {
      LastLetterNoneSkipped(x, argv, s, t, m);
    } else {
      LastLetterSomeSkipped(x, argv, s, t, m);
    }
  }

  lemma LastLetterNoneSkipped<T>(x: Syntax<T>, argv: seq<T>, s: Scan, t: Scan, m: nat)
    requires Between(x, argv, s) && Between(x, argv, t) && t == s.(optind := s.optind + m, place := 0) && s.start == -1
    requires var p := Split(x, argv[t.optind..]);
             Split(x, argv[s.optind..]) == p.(options := argv[s.optind..t.optind] + p.options)
    ensures Outlook(x, argv, t) == Outlook(x, argv, s)
  {
    hide Split;
    var a, b := s.optind, t.optind;
    var p := Split(x, argv[b..]);
    assert argv[..a] + argv[a..a] == argv[..a];
    assert argv[..b] + argv[b..b] == argv[..b];
    MoreOptions(argv, a, a, a, m, p.options);
    Adjoin(argv, 0, a, m);
    var done := argv[..b] + p.options;
    assert done + argv[a..a] == done && done + argv[b..b] == done;
  }

  lemma LastLetterSomeSkipped<T>(x: Syntax<T>, argv: seq<T>, s: Scan, t: Scan, m: nat)
    requires Between(x, argv, s) && Between(x, argv, t) && t == s.(optind := s.optind + m, place := 0) && s.start != -1
    requires s.place > 0
    requires var p := Split(x, argv[t.optind..]);
             Split(x, argv[s.optind..]) == p.(options := argv[s.optind..t.optind] + p.options)
    ensures Outlook(x, argv, t) == Outlook(x, argv, s)
  {
    hide Split;
    MoreOptions(argv, s.start, s.end, s.optind, m, Split(x, argv[t.optind..]).options);
  }

  lemma MoreOptions<T>(q: seq<T>, a: int, b: int, c: int, m: int, rest: seq<T>)
    requires 0 <= a <= b <= c <= c + m <= |q|
    ensures q[..a] + q[b..c] + (q[c..c + m] + rest) == q[..a] + q[b..c + m] + rest
    ensures q[..a] + (q[c..c + m] + rest) == q[..a] + q[c..c + m] + rest
  {
    Adjoin(q, b, c, m);
  }

  lemma SplitOption<T>(x: Syntax<T>, argv: seq<T>, i: int, m: nat)
    requires 0 <= i < |argv| && x.kind(argv[i]).Option? && m == x.Slots(argv[i..])
    ensures i + m <= |argv| && m > 0
    ensures var p := Split(x, argv[i + m..]);
            Split(x, argv[i..]) == p.(options := argv[i..i + m] + p.options)
  {
    Adjoin(argv, i, i, m);
  }

  /** A non-option reported in order. */
  lemma PlainKeeps<T>(x: Syntax<T>, argv: seq<T>, s: Scan)
    requires Between(x, argv, s) && s.optind < |argv| && s.place == 0
    requires x.kind(argv[s.optind]).NonOption? && x.mode == InOrder
    ensures var t := s.(optind := s.optind + 1);
            Between(x, argv, t) && Outlook(x, argv, t) == Outlook(x, argv, s) &&
            Pending(x, argv, s) == [Plain(argv[s.optind])] + Pending(x, argv, t)
  {
    assert argv[s.optind..][1..] == argv[s.optind + 1..];
  }

  /** The end of argv with options found behind skipped non-options. */
  lemma EndPermutes<T>(x: Syntax<T>, argv: seq<T>, s: Scan)
    requires Between(x, argv, s) && s.optind == |argv| && s.end != -1
    ensures Outlook(x, argv, s) ==
            Final(Rotation.Exchanged(argv, s.start, s.end, s.optind), s.optind - (s.end - s.start))
    ensures Pending(x, argv, s) == []
  {
  }

  lemma EndStays<T>(x: Syntax<T>, argv: seq<T>, s: Scan)
    requires Between(x, argv, s) && s.optind == |argv| && s.end == -1
    ensures Outlook(x, argv, s) == Final(argv, s.First())
    ensures Pending(x, argv, s) == []
  {
    assert argv[..s.First()] + argv[s.First()..s.optind] == argv;
  }

  lemma StopEnds<T>(x: Syntax<T>, argv: seq<T>, s: Scan)
    requires Between(x, argv, s) && s.optind < |argv| && s.place == 0
    requires x.kind(argv[s.optind]).NonOption? && x.mode == Stop
    ensures Outlook(x, argv, s) == Final(argv, s.optind)
    ensures Pending(x, argv, s) == []
  {
    assert argv[..s.optind] + argv[s.optind..] == argv;
  }

  lemma SplitTerminator<T>(x: Syntax<T>, argv: seq<T>, i: int)
    requires 0 <= i < |argv| && x.kind(argv[i]).Terminator?
    ensures Split(x, argv[i..]) == Parts(argv[i..i + 1], [], argv[i + 1..])
  {
    Adjoin(argv, i, i, 1);
  }

  /** `--` goes with the options. */
  lemma TerminatorEnds<T>(x: Syntax<T>, argv: seq<T>, s: Scan)
    requires Between(x, argv, s) && s.optind < |argv| && s.place == 0 && x.kind(argv[s.optind]).Terminator?
    ensures Outlook(x, argv, s) ==
            if s.start == -1 then Final(argv, s.optind + 1)
            else Final(Rotation.Exchanged(argv, s.start, s.Last(), s.optind + 1),
                       s.optind + 1 - (s.Last() - s.start))
    ensures Pending(x, argv, s) == []
  {
    hide Split;
    SplitTerminator(x, argv, s.optind);
    if s.start == -1 {
      Adjoin(argv, 0, s.optind, 1);
      assert argv[..s.optind] + [] == argv[..s.optind];
      assert argv[..s.optind + 1] + [] + [] + argv[s.optind + 1..] == argv;
    } else {
      Adjoin(argv, s.Last(), s.optind, 1);
      Assoc(argv[..s.start], argv[s.Last()..s.optind], argv[s.optind..s.optind + 1]);
      var done := argv[..s.start] + argv[s.Last()..s.optind + 1];
      assert done + argv[s.start..s.Last()] + [] == done + argv[s.start..s.Last()];
    }
  }

  // ---------------------------------------------------------------------
  // The scanner

  class Scanner<T> {
    const syntax: Syntax<T>
    const argv: array<T>
    var optind: int
    var nonoptStart: int
    var nonoptEnd: int
    var place: nat
    var optreset: bool

    /** The state a call starts from: a reset, or optind set to 0 by the caller, begins afresh. */
    ghost function View(): (s: Scan)
      reads this
    {
      if optind == 0 then Scan(1, -1, -1, 0)
      else if optreset then Scan(optind, -1, -1, 0)
      else Scan(optind, nonoptStart, nonoptEnd, place)
    }

    ghost predicate Valid()
      reads this, argv
    {
      Between(syntax, argv[..], View())
    }

    /** A new scan; argv holds at least the program's name. */
    constructor (syntax: Syntax<T>, argv: array<T>)
      requires argv.Length >= 1
      ensures Valid() && this.syntax == syntax && this.argv == argv
      ensures View() == Scan(1, -1, -1, 0)
    {
      this.syntax, this.argv := syntax, argv;
      optind, nonoptStart, nonoptEnd, place, optreset := 1, -1, -1, 0, true;
    }

    /** The run will end with argv and optind as in `plan`, after the reports `due`. */
    ghost predicate Expects(plan: Final<T>, due: seq<Answer<T>>)
      reads this, argv
    {
      Valid() && Outlook(syntax, argv[..], View()) == plan && Pending(syntax, argv[..], View()) == due
    }

    /** The run has ended as planned and its state is that of a new scan. */
    ghost predicate Ended(plan: Final<T>)
      reads this, argv
    {
      Valid() && Final(argv[..], optind) == plan && View() == Scan(optind, -1, -1, 0)
    }

    /** A scan in progress: no reset is pending. */
    predicate Running()
      reads this
    {
      optind >= 1 && !optreset
    }

    /** getopt_internal: one call. */
    method Getopt() returns (r: Answer<T>)
      requires Valid()
      modifies this, argv
      ensures Valid()
      ensures !r.End? ==>
        old(Pending(syntax, argv[..], View())) == [r] + Pending(syntax, argv[..], View()) &&
        Outlook(syntax, argv[..], View()) == old(Outlook(syntax, argv[..], View()))
      ensures r.End? ==>
        old(Pending(syntax, argv[..], View())) == [] && Ended(old(Outlook(syntax, argv[..], View())))
    {
      hide Between, Outlook, Pending;
      ghost var plan, due := Outlook(syntax, argv[..], View()), Pending(syntax, argv[..], View());
      Bounds(argv[..]);
      if optind == 0 {
        optind, optreset := 1, true;
      }
      if optreset {
        nonoptStart, nonoptEnd := -1, -1;
      }
      var found;
      found, r := true, End;
      if optreset || place == 0 {
        optreset, place := false, 0;
        found, r := Advance(plan, due);
      }
      if found {
        r := Letter(plan, due);
      }
    }

    lemma Bounds(a: seq<T>)
      requires Between(syntax, a, View())
      ensures 1 <= View().optind <= |a|
      ensures View().start == -1 ==> View().end == -1
      ensures View().end != -1 && View().place == 0 ==> 1 <= View().start < View().end < View().optind
      ensures View().start != -1 ==> View().start < View().optind || View().end != -1
      ensures View().start != -1 ==> 1 <= View().start
      ensures View().place > 0 ==> View().optind < |a|
    {
    }

    /** From `start:` to the point where an option is at hand: skips non-options, or ends the call. */
    method Advance(ghost plan: Final<T>, ghost due: seq<Answer<T>>) returns (found: bool, r: Answer<T>)
      requires Expects(plan, due) && Running() && place == 0
      modifies this, argv
      ensures found ==> Expects(plan, due) && Running() && place > 0
      ensures !found && !r.End? ==> due != [] && r == due[0] && Expects(plan, due[1..])
      ensures !found && r.End? ==> due == [] && Ended(plan)
    {
      hide Between, Outlook, Pending;
      found, r := false, End;
      while optind < argv.Length && syntax.kind(argv[optind]).NonOption?
        invariant Expects(plan, due) && Running() && place == 0
        decreases argv.Length - optind
      {
        if syntax.mode == InOrder {
          PlainKeeps(syntax, argv[..], View());
          r := Plain(argv[optind]);
          optind := optind + 1;
          return;
        }
        if syntax.mode == Stop {
          StopEnds(syntax, argv[..], View());
          Bounds(argv[..]);
          StopStart(argv[..]);
          return;
        }
        Skip(plan, due);
      }
      if optind >= argv.Length {
        Finish(plan, due);
        return;
      }
      if syntax.kind(argv[optind]).Terminator? {
        EndOptions(plan, due);
        return;
      }
      MeetKeeps(syntax, argv[..], View());
      Bounds(argv[..]);
      if nonoptStart != -1 && nonoptEnd == -1 {
        nonoptEnd := optind;
      }
      place := syntax.Letters(argv[optind]);
      found := true;
    }

    lemma StopStart(a: seq<T>)
      requires Between(syntax, a, View()) && syntax.mode != Permute
      ensures View().start == -1
    {
    }

    /** A non-option is skipped; options found before it are first moved in front of those skipped earlier. */
    method Skip(ghost plan: Final<T>, ghost due: seq<Answer<T>>)
      requires Expects(plan, due) && Running() && place == 0 && syntax.mode == Permute
      requires optind < argv.Length && syntax.kind(argv[optind]).NonOption?
      modifies this, argv
      ensures Expects(plan, due) && Running() && place == 0 && optind == old(optind) + 1
    {
      hide Between, Outlook, Pending;
      Bounds(argv[..]);
      if nonoptStart != -1 && nonoptEnd != -1 {
        PermuteKeeps(syntax, argv[..], View());
        assert argv[..][optind..][0] == argv[optind];
        Rotation.PermuteArgs(argv, nonoptStart, nonoptEnd, optind);
        nonoptStart := optind - (nonoptEnd - nonoptStart);
        nonoptEnd := -1;
        assert argv[..][optind..][0] == argv[optind];
      }
      SkipKeeps(syntax, argv[..], View());
      if nonoptStart == -1 {
        nonoptStart := optind;
      }
      optind := optind + 1;
    }

    /** The end of argv. */
    method Finish(ghost plan: Final<T>, ghost due: seq<Answer<T>>)
      requires Expects(plan, due) && Running() && place == 0 && optind >= argv.Length
      modifies this, argv
      ensures due == [] && Ended(plan)
    {
      hide Outlook, Pending, Between, Rotation.Exchanged;
      Bounds(argv[..]);
      if nonoptEnd != -1 {
        EndPermutes(syntax, argv[..], View());
        Rotation.PermuteArgs(argv, nonoptStart, nonoptEnd, optind);
        optind := optind - (nonoptEnd - nonoptStart);
      } else {
        EndStays(syntax, argv[..], View());
        if nonoptStart != -1 {
          optind := nonoptStart;
        }
      }
      nonoptStart, nonoptEnd := -1, -1;
      FreshScan(syntax, argv[..], optind);
    }

    /** `--` ends the options; what follows is not looked at. */
    method EndOptions(ghost plan: Final<T>, ghost due: seq<Answer<T>>)
      requires Expects(plan, due) && Running() && place == 0
      requires optind < argv.Length && syntax.kind(argv[optind]).Terminator?
      modifies this, argv
      ensures due == [] && Ended(plan)
    {
      hide Outlook, Pending, Between, Rotation.Exchanged;
      TerminatorEnds(syntax, argv[..], View());
      Bounds(argv[..]);
      if nonoptStart != -1 && nonoptEnd == -1 {
        nonoptEnd := optind;
      }
      optind := optind + 1;
      if nonoptEnd != -1 {
        Rotation.PermuteArgs(argv, nonoptStart, nonoptEnd, optind);
        optind := optind - (nonoptEnd - nonoptStart);
      }
      nonoptStart, nonoptEnd := -1, -1;
      FreshScan(syntax, argv[..], optind);
    }

    /** The next letter of the option at `place`. */
    method Letter(ghost plan: Final<T>, ghost due: seq<Answer<T>>) returns (r: Answer<T>)
      requires Expects(plan, due) && Running() && place > 0
      modifies this
      ensures due != [] && r == due[0] && !r.End? && Expects(plan, due[1..])
      ensures old(optind) < argv.Length && r == Found(argv[old(optind)], 1 + syntax.more(argv[old(optind)]) - old(place))
      ensures old(place) > 1 ==> optind == old(optind) && place == old(place) - 1
      ensures old(place) == 1 ==>
                var behind := old(optind) + 1 + syntax.extra(argv[old(optind)..]);
                place == 0 && optind == if behind < argv.Length then behind else argv.Length
    {
      hide Between, Outlook, Pending;
      Bounds(argv[..]);
      PlaceBound(argv[..]);
      r := Found(argv[optind], syntax.Letters(argv[optind]) - place);
      if place > 1 {
        LetterKeeps(syntax, argv[..], View());
        place := place - 1;
      } else {
        LastLetterKeeps(syntax, argv[..], View());
        optind := optind + syntax.Slots(argv[optind..]);
        assert argv[..][old(optind)..] == argv[old(optind)..];
        place := 0;
      }
    }

    lemma PlaceBound(a: seq<T>)
      requires Between(syntax, a, View()) && View().place > 0
      ensures View().optind < |a| && View().place <= syntax.Letters(a[View().optind])
    {
    }

    /** A caller's loop: calls until the end is reported. */
    method Run() returns (found: seq<Answer<T>>)
      requires Valid()
      modifies this, argv
      ensures found == old(Pending(syntax, argv[..], View()))
      ensures Ended(old(Outlook(syntax, argv[..], View())))
    {
      hide Between, Outlook, Pending;
      found := [];
      ghost var plan := Outlook(syntax, argv[..], View());
      var r := Getopt();
      while !r.End?
        invariant r.End? ==> found == old(Pending(syntax, argv[..], View())) && Ended(plan)
        invariant !r.End? ==> Valid() && Outlook(syntax, argv[..], View()) == plan
        invariant !r.End? ==>
          old(Pending(syntax, argv[..], View())) == found + [r] + Pending(syntax, argv[..], View())
        decreases if r.End? then 0 else 1 + |Pending(syntax, argv[..], View())|
      {
        found := found + [r];
        r := Getopt();
      }
    }
  }
}
