/** `isPublicEntry` of `check-package-layers.ts`: is an import specifier a public entry of a package whose
    `exports` map mixes exact keys and `*` patterns? */
module ExportPatterns {
  import opened Options
  import opened Sorting
  import opened Sequences
  import Text

  /** One key of an `exports` map; a null target makes the key private. */
  datatype Entry = Entry(key: string, isNull: bool)

  const PACKAGE := "@jini-ai/admin"

  /** An object's keys are distinct. */
  ghost predicate DistinctKeys(exports: seq<Entry>) {
    forall i, j :: 0 <= i < j < |exports| ==> exports[i].key != exports[j].key
  }

  predicate IsPattern(e: Entry) {
    '*' in e.key
  }

  function Star(key: string): nat {
    Text.PositionOf(key, '*')
  }

  /** The two pieces the code takes from `key.split('*')`; a second `*` ends the second piece. */
  function Prefix(key: string): string {
    Text.Before(key, '*')
  }

  function Suffix(key: string): string {
    Text.Before(Text.After(key, '*'), '*')
  }

  predicate Matches(key: string, e: Entry) {
    IsPattern(e) && Text.StartsWith(key, Prefix(e.key)) && Text.EndsWith(key, Suffix(e.key)) && |key| >= |e.key|
  }

  /** The comparator: the longer base first, then the longer key. */
  predicate Ahead(a: Entry, b: Entry) {
    Star(a.key) > Star(b.key) || (Star(a.key) == Star(b.key) && |a.key| > |b.key|)
  }

  function Exact(exports: seq<Entry>, key: string): Option<Entry> {
    Find(exports, (e: Entry) => e.key == key)
  }

  function Patterns(exports: seq<Entry>): (r: seq<Entry>)
    ensures forall e :: e in r <==> e in exports && IsPattern(e)
  {
    if exports == [] then []
    else (if IsPattern(exports[0]) then [exports[0]] else []) + Patterns(exports[1..])
  }

  function Chosen(exports: seq<Entry>, key: string): Option<Entry> {
    Find(StableSort(Patterns(exports), Ahead), (e: Entry) => Matches(key, e))
  }

  predicate Traverses(subpath: string) {
    exists segment :: segment in Text.Split(subpath, '/') && segment in {".", "..", "node_modules"}
  }

  function Subpath(spec: string): string {
    if |PACKAGE| <= |spec| then spec[|PACKAGE|..] else ""
  }

  function Key(subpath: string): string {
    if subpath == "" then "." else "." + subpath
  }

  /** Is `key` exported by these entries? */
  predicate Exported(exports: seq<Entry>, key: string) {
    var exact := Exact(exports, key);
    if exact.Some? then !exact.value.isNull
    else
      var chosen := Chosen(exports, key);
      chosen.Some? && !chosen.value.isNull
  }

  predicate IsPublicEntry(spec: string, exports: Option<seq<Entry>>) {
    exports.Some? && !Traverses(Subpath(spec)) && Exported(exports.value, Key(Subpath(spec)))
  }

  /* ---- which pattern is chosen ---- */

  lemma AheadIsStrictWeakOrder()
    ensures StrictWeakOrder(Ahead)
  {
  }

  /** Nothing that matches is more specific. */
  ghost predicate MostSpecific(exports: seq<Entry>, key: string, e: Entry) {
    e in exports && Matches(key, e) && forall f :: f in exports && Matches(key, f) ==> !Ahead(f, e)
  }

  lemma ChosenIsMostSpecific(exports: seq<Entry>, key: string)
    ensures match Chosen(exports, key)
            case Some(e) => MostSpecific(exports, key, e)
            case None => forall e :: e in exports ==> !Matches(key, e)
  {
    AheadIsStrictWeakOrder();
    SortThenFind(Patterns(exports), Ahead, (e: Entry) => Matches(key, e));
    BestIsMaximal(Patterns(exports), Ahead, (e: Entry) => Matches(key, e));
  }

  predicate OneStar(e: Entry) {
    IsPattern(e) ==> '*' !in Text.After(e.key, '*')
  }

  lemma OneStarPieces(e: Entry)
    requires IsPattern(e) && OneStar(e)
    ensures e.key == Prefix(e.key) + "*" + Suffix(e.key)
  {
    var k := Star(e.key);
    assert e.key == e.key[..k] + [e.key[k]] + e.key[k + 1..] by {
      assert k < |e.key|;
    }
    var rest := Text.After(e.key, '*');
    assert Text.PositionOf(rest, '*') == |rest|;
  }

  /** Two one-star patterns that match the same key and are equally specific are the same pattern. */
  lemma MostSpecificIsUnique(exports: seq<Entry>, key: string, a: Entry, b: Entry)
    requires MostSpecific(exports, key, a) && MostSpecific(exports, key, b) && OneStar(a) && OneStar(b)
    ensures a.key == b.key
  {
    OneStarPieces(a);
    OneStarPieces(b);
    assert Star(a.key) == Star(b.key) && |a.key| == |b.key|;
    Text.SameStart(key, Prefix(a.key), Prefix(b.key));
    Text.SameEnd(key, Suffix(a.key), Suffix(b.key));
  }

  /** Equal as entry lists up to order. */
  ghost predicate SameEntries(a: seq<Entry>, b: seq<Entry>) {
    forall e :: e in a <==> e in b
  }

  lemma {:induction false} FindMember(exports: seq<Entry>, p: Entry -> bool)
    ensures match Find(exports, p)
            case Some(e) => e in exports && p(e)
            case None => forall e :: e in exports ==> !p(e)
  {
    if exports != [] {
      FindMember(exports[1..], p);
      assert exports == [exports[0]] + exports[1..];
    }
  }

  lemma KeyNamesEntry(exports: seq<Entry>, a: Entry, b: Entry)
    requires DistinctKeys(exports) && a in exports && b in exports && a.key == b.key
    ensures a == b
  {
    var i :| 0 <= i < |exports| && exports[i] == a;
    var j :| 0 <= j < |exports| && exports[j] == b;
  }

  lemma ExactIgnoresOrder(a: seq<Entry>, b: seq<Entry>, key: string)
    requires SameEntries(a, b) && DistinctKeys(a)
    ensures Exact(a, key) == Exact(b, key)
  {
    FindMember(a, (e: Entry) => e.key == key);
    FindMember(b, (e: Entry) => e.key == key);
    if Exact(a, key).Some? && Exact(b, key).Some? {
      KeyNamesEntry(a, Exact(a, key).value, Exact(b, key).value);
    }
  }

  /** The verdict does not depend on the order of the keys when every pattern has one star. */
  lemma OrderIsIrrelevant(a: seq<Entry>, b: seq<Entry>, spec: string)
    requires SameEntries(a, b) && DistinctKeys(a) && forall e :: e in a ==> OneStar(e)
    ensures IsPublicEntry(spec, Some(a)) == IsPublicEntry(spec, Some(b))
  {
    var key := Key(Subpath(spec));
    ExactIgnoresOrder(a, b, key);
    ChosenIsMostSpecific(a, key);
    ChosenIsMostSpecific(b, key);
    if Chosen(a, key).Some? && Chosen(b, key).Some? {
      MostSpecificIsUnique(a, key, Chosen(a, key).value, Chosen(b, key).value);
      KeyNamesEntry(a, Chosen(a, key).value, Chosen(b, key).value);
    }
  }

  ghost predicate OrderFree(exports: seq<Entry>, key: string) {
    forall other :: SameEntries(exports, other) && DistinctKeys(other)
      ==> Exported(other, key) == Exported(exports, key)
  }

  /** The most specific matches are all private or all public. */
  ghost predicate TiesAgree(exports: seq<Entry>, key: string) {
    forall a, b :: MostSpecific(exports, key, a) && MostSpecific(exports, key, b) ==> a.isNull == b.isNull
  }

  lemma AgreementIsOrderFree(exports: seq<Entry>, other: seq<Entry>, key: string)
    requires DistinctKeys(exports) && SameEntries(exports, other) && DistinctKeys(other)
    requires Exact(exports, key).Some? || TiesAgree(exports, key)
    ensures Exported(other, key) == Exported(exports, key)
  {
    ExactIgnoresOrder(exports, other, key);
    ChosenIsMostSpecific(exports, key);
    ChosenIsMostSpecific(other, key);
  }

  lemma DisagreementShows(exports: seq<Entry>, key: string, a: Entry, b: Entry)
    requires DistinctKeys(exports) && Exact(exports, key).None?
    requires MostSpecific(exports, key, a) && MostSpecific(exports, key, b) && a.isNull != b.isNull
    ensures !OrderFree(exports, key)
  {
    var i :| 0 <= i < |exports| && exports[i] == a;
    var j :| 0 <= j < |exports| && exports[j] == b;
    PutFirst(exports, key, i);
    PutFirst(exports, key, j);
    assert Exported(MoveToFront(exports, i), key) != Exported(MoveToFront(exports, j), key);
  }

  /** In general the verdict is order-free exactly when the key is exact or the most specific matches agree
      on being private. */
  lemma OrderMattersExactlyOnTies(exports: seq<Entry>, key: string)
    requires DistinctKeys(exports)
    ensures OrderFree(exports, key) <==> Exact(exports, key).Some? || TiesAgree(exports, key)
  {
    if Exact(exports, key).Some? || TiesAgree(exports, key) {
      forall other | SameEntries(exports, other) && DistinctKeys(other)
        ensures Exported(other, key) == Exported(exports, key)
      {
        AgreementIsOrderFree(exports, other, key);
      }
    } else {
      var a, b :| MostSpecific(exports, key, a) && MostSpecific(exports, key, b) && a.isNull != b.isNull;
      DisagreementShows(exports, key, a, b);
    }
  }

  function MoveToFront(exports: seq<Entry>, i: nat): seq<Entry>
    requires i < |exports|
  {
    [exports[i]] + exports[..i] + exports[i + 1..]
  }

  lemma MoveKeepsEntries(exports: seq<Entry>, i: nat)
    requires DistinctKeys(exports) && i < |exports|
    ensures SameEntries(exports, MoveToFront(exports, i)) && DistinctKeys(MoveToFront(exports, i))
  {
    var moved := MoveToFront(exports, i);
    assert exports == exports[..i] + [exports[i]] + exports[i + 1..];
    forall j | 0 <= j < |moved| ensures moved[j] == exports[if j == 0 then i else if j <= i then j - 1 else j] {
    }
  }

  lemma ChoiceDecides(exports: seq<Entry>, key: string, x: Entry)
    requires Exact(exports, key).None? && Chosen(exports, key) == Some(x)
    ensures Exported(exports, key) <==> !x.isNull
  {
  }

  lemma RestIsNotAhead(exports: seq<Entry>, key: string, i: nat)
    requires i < |exports| && MostSpecific(exports, key, exports[i])
    ensures forall f :: f in exports[..i] + exports[i + 1..] && Matches(key, f) ==> !Ahead(f, exports[i])
  {
    forall f | f in exports[..i] + exports[i + 1..] ensures f in exports {
    }
  }

  /** A most specific match that is listed first decides. */
  lemma PutFirst(exports: seq<Entry>, key: string, i: nat)
    requires DistinctKeys(exports) && i < |exports| && MostSpecific(exports, key, exports[i])
             && Exact(exports, key).None?
    ensures SameEntries(exports, MoveToFront(exports, i)) && DistinctKeys(MoveToFront(exports, i))
    ensures Exported(MoveToFront(exports, i), key) <==> !exports[i].isNull
  {
    var front, x := MoveToFront(exports, i), exports[i];
    var rest := exports[..i] + exports[i + 1..];
    MoveKeepsEntries(exports, i);
    ExactIgnoresOrder(exports, front, key);
    RestIsNotAhead(exports, key, i);
    Regroup([x], exports[..i], exports[i + 1..]);
    FrontDecides(x, rest, key);
  }

  lemma FrontDecides(x: Entry, rest: seq<Entry>, key: string)
    requires Matches(key, x) && forall f :: f in rest && Matches(key, f) ==> !Ahead(f, x)
    requires Exact([x] + rest, key).None?
    ensures Exported([x] + rest, key) <==> !x.isNull
  {
    FrontMatchWins(x, rest, key);
    ChoiceDecides([x] + rest, key, x);
  }

  lemma FrontMatchWins(x: Entry, rest: seq<Entry>, key: string)
    requires Matches(key, x) && forall f :: f in rest && Matches(key, f) ==> !Ahead(f, x)
    ensures Chosen([x] + rest, key) == Some(x)
  {
    AheadIsStrictWeakOrder();
    assert ([x] + rest)[1..] == rest;
    assert Patterns([x] + rest) == [x] + Patterns(rest);
    SortThenFind([x] + Patterns(rest), Ahead, (e: Entry) => Matches(key, e));
    FrontWins(x, Patterns(rest), Ahead, (e: Entry) => Matches(key, e));
  }

  lemma TwoStarPattern(e: Entry)
    requires e.key == "./a*b*c" || e.key == "./a*b*d"
    ensures Star(e.key) == 3 && |e.key| == 7 && e.key != "./axxxb" && Matches("./axxxb", e)
  {
    assert Star(e.key) == 3;
    var rest := Text.After(e.key, '*');
    assert rest == "b*" + [e.key[6]];
    assert Text.PositionOf(rest, '*') == 1;
    assert Suffix(e.key) == "b" && Prefix(e.key) == "./a";
  }

  lemma FrontOfTwoDecides(first: Entry, second: Entry, key: string)
    requires Matches(key, first) && !Ahead(second, first) && first.key != key && second.key != key
    ensures Exported([first, second], key) <==> !first.isNull
  {
    FindMember([first, second], (e: Entry) => e.key == key);
    FrontMatchWins(first, [second], key);
    assert [first] + [second] == [first, second];
  }

  /** Two patterns with two stars each can tie: swapping them flips the verdict for `./axxxb`. */
  lemma TwoStarsCanTie(open: Entry, closed: Entry)
    requires open == Entry("./a*b*c", false) && closed == Entry("./a*b*d", true)
    ensures Exported([open, closed], "./axxxb") && !Exported([closed, open], "./axxxb")
  {
    TwoStarPattern(open);
    TwoStarPattern(closed);
    FrontOfTwoDecides(open, closed, "./axxxb");
    FrontOfTwoDecides(closed, open, "./axxxb");
  }

  /** An exact key decides alone, so a null one always beats every pattern. */
  lemma ExactKeyDecides(exports: seq<Entry>, e: Entry)
    requires DistinctKeys(exports) && e in exports
    ensures Exported(exports, e.key) <==> !e.isNull
  {
    FindMember(exports, (f: Entry) => f.key == e.key);
    KeyNamesEntry(exports, e, Exact(exports, e.key).value);
  }

  /* ---- what a match is ---- */

  /** `w` stands in for everything between the pattern's first star and its last compared piece. */
  predicate Fills(w: string, key: string, e: Entry) {
    key == Prefix(e.key) + w + Suffix(e.key)
  }

  lemma PiecesFit(e: Entry)
    requires IsPattern(e)
    ensures |Prefix(e.key)| + 1 + |Suffix(e.key)| <= |e.key|
    ensures OneStar(e) ==> |Prefix(e.key)| + 1 + |Suffix(e.key)| == |e.key|
  {
    if OneStar(e) {
      OneStarPieces(e);
    }
  }

  lemma FillExists(key: string, e: Entry)
    requires IsPattern(e) && Matches(key, e)
    ensures exists w :: Fills(w, key, e) && |w| + |Prefix(e.key)| + |Suffix(e.key)| == |key|
  {
    PiecesFit(e);
    var w := key[|Prefix(e.key)|..|key| - |Suffix(e.key)|];
    Text.Between(key, Prefix(e.key), Suffix(e.key));
    assert Fills(w, key, e);
  }

  /** A key matches exactly when some stretch, long enough to cover what the pattern has between the two pieces
      compared, stands in for it. With one star: when a nonempty stretch stands in for the star. */
  lemma MatchIsAStretch(key: string, e: Entry)
    requires IsPattern(e)
    ensures Matches(key, e) <==> exists w :: Fills(w, key, e) && |w| >= |e.key| - |Prefix(e.key)| - |Suffix(e.key)|
    ensures OneStar(e) ==> (Matches(key, e) <==> exists w :: Fills(w, key, e) && w != "")
  {
    PiecesFit(e);
    if Matches(key, e) {
      FillExists(key, e);
    }
    forall w | Fills(w, key, e) && |w| >= |e.key| - |Prefix(e.key)| - |Suffix(e.key)| ensures Matches(key, e) {
      assert key == (Prefix(e.key) + w) + Suffix(e.key);
    }
  }

  /* ---- agreement with Node ---- */

  /** Node's pattern rule (PACKAGE_IMPORTS_EXPORTS_RESOLVE in the 'Resolution Algorithm Specification' of the
      Node.js ESM documentation): the key starts with the pattern base and is not the base itself, and either
      there is no pattern trailer or the key ends with it and is at least as long as the pattern. */
  predicate NodeMatches(key: string, e: Entry) {
    && IsPattern(e) && '*' !in Text.After(e.key, '*')
    && Text.StartsWith(key, Text.Before(e.key, '*')) && key != Text.Before(e.key, '*')
    && (Text.After(e.key, '*') == "" || (Text.EndsWith(key, Text.After(e.key, '*')) && |key| >= |e.key|))
  }

  /** So with one star the code's test is Node's. */
  lemma CodeMatchesLikeNode(key: string, e: Entry)
    requires OneStar(e)
    ensures Matches(key, e) <==> NodeMatches(key, e)
  {
    if IsPattern(e) {
      OneStarPieces(e);
      assert Suffix(e.key) == Text.After(e.key, '*');
      assert |e.key| == |Prefix(e.key)| + 1 + |Suffix(e.key)|;
      if Suffix(e.key) == "" {
        assert Text.EndsWith(key, "");
      }
      if key == Prefix(e.key) {
        assert |key| < |e.key|;
      }
    }
  }

  /* ---- the verdict, over the characters of keys ---- */

  /** The subpath has one of those segments between slashes or its ends. */
  ghost predicate HasSegment(subpath: string, segment: string) {
    exists before, after :: StandsBetween(subpath, before, segment, after)
  }

  ghost predicate StandsBetween(s: string, before: string, segment: string, after: string) {
    && s == before + segment + after && '/' !in segment
    && (before == "" || before[|before| - 1] == '/') && (after == "" || after[0] == '/')
  }

  lemma SplitFirst(s: string)
    requires '/' in s
    ensures s == Text.Before(s, '/') + "/" + Text.After(s, '/') && '/' !in Text.Before(s, '/')
    ensures |Text.After(s, '/')| < |s|
  {
  }

  lemma StandsFirst(segment: string, rest: string)
    requires '/' !in segment
    ensures HasSegment(segment + "/" + rest, segment)
  {
    assert segment + "/" + rest == "" + segment + ("/" + rest);
    assert StandsBetween(segment + "/" + rest, "", segment, "/" + rest);
  }

  lemma StandsAlone(s: string)
    requires '/' !in s
    ensures HasSegment(s, s)
  {
    assert s == "" + s + "";
    assert StandsBetween(s, "", s, "");
  }

  lemma {:induction false} SegmentOfSplit(s: string, segment: string)
    requires segment in Text.Split(s, '/')
    ensures HasSegment(s, segment)
    decreases |s|
  {
    if '/' in s {
      SplitFirst(s);
      var first, rest := Text.Before(s, '/'), Text.After(s, '/');
      assert Text.Split(s, '/') == [first] + Text.Split(rest, '/');
      if segment == first {
        StandsFirst(first, rest);
      } else {
        SegmentOfSplit(rest, segment);
        var before, after :| StandsBetween(rest, before, segment, after);
        SegmentLater(s, first, before, segment, after);
      }
    } else {
      StandsAlone(s);
    }
  }

  lemma SegmentLater(s: string, first: string, before: string, segment: string, after: string)
    requires StandsBetween(before + segment + after, before, segment, after)
    requires s == first + "/" + (before + segment + after)
    ensures HasSegment(s, segment)
  {
    var lead := first + "/";
    var longer := lead + before;
    Regroup(before, segment, after);
    Regroup(lead, before, segment + after);
    Regroup(longer, segment, after);
    assert longer[|longer| - 1] == '/';
    assert StandsBetween(s, longer, segment, after);
  }

  lemma {:induction false} SplitHasSegment(s: string, before: string, segment: string, after: string)
    requires StandsBetween(s, before, segment, after)
    ensures segment in Text.Split(s, '/')
    decreases |s|
  {
    if before == "" {
      FirstSegment(s, segment, after);
    } else {
      var k := Text.PositionOf(before, '/');
      assert before[|before| - 1] == '/' && k < |before|;
      assert before == before[..k] + "/" + before[k + 1..];
      var rest := before[k + 1..] + segment + after;
      assert s == before[..k] + "/" + rest;
      AfterFirst(s, before[..k], rest);
      SplitHasSegment(rest, before[k + 1..], segment, after);
    }
  }

  lemma AfterFirst(s: string, first: string, rest: string)
    requires s == first + "/" + rest && '/' !in first
    ensures '/' in s && Text.Before(s, '/') == first && Text.After(s, '/') == rest
  {
    assert s[..|first|] == first && s[|first|] == '/' && s[|first| + 1..] == rest;
    Text.PositionIs(s, '/', |first|);
  }

  lemma FirstSegment(s: string, segment: string, after: string)
    requires s == segment + after && '/' !in segment && (after == "" || after[0] == '/')
    ensures segment in Text.Split(s, '/')
  {
    if after == "" {
      assert s == segment;
    } else {
      assert s == segment + "/" + after[1..];
      AfterFirst(s, segment, after[1..]);
    }
  }

  /** Splitting at the slashes yields exactly the segments. */
  lemma SegmentsExactly(s: string, segment: string)
    ensures segment in Text.Split(s, '/') <==> HasSegment(s, segment)
  {
    if segment in Text.Split(s, '/') {
      SegmentOfSplit(s, segment);
    }
    if HasSegment(s, segment) {
      var before, after :| StandsBetween(s, before, segment, after);
      SplitHasSegment(s, before, segment, after);
    }
  }

  /** The pattern's key is `start`, a star, `end` and then nothing or another star. */
  ghost predicate Cuts(pattern: string, start: string, end: string) {
    '*' !in start && '*' !in end && exists more :: Leaves(pattern, start, end, more)
  }

  ghost predicate Leaves(pattern: string, start: string, end: string, more: string) {
    pattern == start + "*" + (end + more) && (more == "" || more[0] == '*')
  }

  /** The key starts and ends as the pattern does, and is at least as long. */
  ghost predicate FitsPattern(key: string, pattern: string) {
    |key| >= |pattern| && exists start, end :: Cuts(pattern, start, end) && Opens(key, start) && Closes(key, end)
  }

  ghost predicate Opens(key: string, start: string) {
    exists x :: key == start + x
  }

  ghost predicate Closes(key: string, end: string) {
    exists x :: key == x + end
  }

  lemma OpensExactly(key: string, piece: string)
    ensures Opens(key, piece) <==> Text.StartsWith(key, piece)
    ensures Closes(key, piece) <==> Text.EndsWith(key, piece)
  {
    if piece <= key {
      assert key == piece + key[|piece|..];
    }
    if Text.EndsWith(key, piece) {
      assert key == key[..|key| - |piece|] + piece;
    }
    if x :| key == x + piece {
      assert key[|key| - |piece|..] == piece;
    }
  }

  lemma PiecesCut(pattern: string)
    requires '*' in pattern
    ensures Cuts(pattern, Prefix(pattern), Suffix(pattern))
  {
    var start, tail := Prefix(pattern), Text.After(pattern, '*');
    var k := Text.PositionOf(tail, '*');
    StarSplits(pattern);
    assert tail == tail[..k] + tail[k..];
    assert Leaves(pattern, start, tail[..k], tail[k..]);
  }

  lemma StarSplits(pattern: string)
    requires '*' in pattern
    ensures pattern == Prefix(pattern) + "*" + Text.After(pattern, '*')
  {
  }

  lemma CutsAreUnique(pattern: string, start: string, end: string)
    requires Cuts(pattern, start, end)
    ensures '*' in pattern && start == Prefix(pattern) && end == Suffix(pattern)
  {
    var more :| Leaves(pattern, start, end, more);
    var tail := end + more;
    assert pattern[..|start|] == start && pattern[|start|] == '*' && pattern[|start| + 1..] == tail;
    Text.PositionIs(pattern, '*', |start|);
    assert tail[..|end|] == end && (|end| < |tail| ==> tail[|end|] == '*');
    Text.PositionIs(tail, '*', |end|);
  }

  lemma MatchesExactly(key: string, e: Entry)
    ensures Matches(key, e) <==> FitsPattern(key, e.key)
  {
    OpensExactly(key, Prefix(e.key));
    OpensExactly(key, Suffix(e.key));
    if Matches(key, e) {
      PiecesCut(e.key);
    }
    if FitsPattern(key, e.key) {
      var start, end :| Cuts(e.key, start, end) && Opens(key, start) && Closes(key, end);
      CutsAreUnique(e.key, start, end);
    }
  }

  /** Pattern a is more specific: more text before the star, or as much and more text in all. */
  ghost predicate Outranks(a: string, b: string) {
    exists p, q, r, s :: Cuts(a, p, r) && Cuts(b, q, s) && (|p| > |q| || (|p| == |q| && |a| > |b|))
  }

  lemma RanksExactly(a: Entry, b: Entry)
    requires IsPattern(a) && IsPattern(b)
    ensures Ahead(a, b) <==> Outranks(a.key, b.key)
  {
    PiecesCut(a.key);
    PiecesCut(b.key);
    if Outranks(a.key, b.key) {
      var p, q, r, s :| Cuts(a.key, p, r) && Cuts(b.key, q, s) && (|p| > |q| || (|p| == |q| && |a.key| > |b.key|));
      CutsAreUnique(a.key, p, r);
      CutsAreUnique(b.key, q, s);
    }
  }

  /** Entry i's pattern fits, none that fits outranks it, and it outranks all that fit before it. */
  ghost predicate Decides(exports: seq<Entry>, key: string, i: nat) {
    && i < |exports| && FitsPattern(key, exports[i].key)
    && (forall j :: 0 <= j < |exports| && FitsPattern(key, exports[j].key)
                    ==> !Outranks(exports[j].key, exports[i].key))
    && (forall j :: 0 <= j < i && FitsPattern(key, exports[j].key) ==> Outranks(exports[i].key, exports[j].key))
  }

  /** Looking among the patterns is looking among all entries, as only patterns match. */
  lemma {:induction false} BestOfPatterns(exports: seq<Entry>, key: string)
    ensures Best(Patterns(exports), Ahead, (e: Entry) => Matches(key, e))
         == Best(exports, Ahead, (e: Entry) => Matches(key, e))
  {
    if exports != [] {
      var p := (e: Entry) => Matches(key, e);
      BestOfPatterns(exports[1..], key);
      if IsPattern(exports[0]) {
        assert Patterns(exports)[1..] == Patterns(exports[1..]);
      } else {
        assert Patterns(exports) == Patterns(exports[1..]);
      }
    }
  }

  lemma DecidersAgree(exports: seq<Entry>, key: string, i: nat, j: nat)
    requires Decides(exports, key, i) && Decides(exports, key, j)
    ensures i == j
  {
  }

  lemma ChosenDecides(exports: seq<Entry>, key: string) returns (i: nat)
    requires Chosen(exports, key).Some?
    ensures Decides(exports, key, i) && Chosen(exports, key) == Some(exports[i])
  {
    var p := (e: Entry) => Matches(key, e);
    AheadIsStrictWeakOrder();
    SortThenFind(Patterns(exports), Ahead, p);
    BestOfPatterns(exports, key);
    BestIsMaximal(exports, Ahead, p);
    BestIsLeftmost(exports, Ahead, p);
    var best := Best(exports, Ahead, p).value;
    i :| LeftmostWinner(exports, Ahead, p, best, i);
    forall e: Entry ensures Matches(key, e) <==> FitsPattern(key, e.key) {
      MatchesExactly(key, e);
    }
    forall j | 0 <= j < |exports| && FitsPattern(key, exports[j].key)
      ensures !Outranks(exports[j].key, best.key)
      ensures j < i ==> Outranks(best.key, exports[j].key)
    {
      assert p(exports[j]);
      RanksExactly(exports[j], best);
      RanksExactly(best, exports[j]);
    }
  }

  lemma NoneChosen(exports: seq<Entry>, key: string)
    requires Chosen(exports, key).None?
    ensures forall i: nat :: !Decides(exports, key, i)
  {
    ChosenIsMostSpecific(exports, key);
    forall i: nat | i < |exports| ensures !FitsPattern(key, exports[i].key) {
      MatchesExactly(key, exports[i]);
    }
  }

  /** A key that is listed is exported unless its target is null; one that is not, when a pattern decides for it whose
      target is not. */
  lemma ExportedExactly(exports: seq<Entry>, key: string)
    requires DistinctKeys(exports)
    ensures Exported(exports, key)
            <==> if exists e :: e in exports && e.key == key then Entry(key, false) in exports
                 else exists i: nat :: Decides(exports, key, i) && !exports[i].isNull
  {
    FindMember(exports, (e: Entry) => e.key == key);
    if Exact(exports, key).Some? {
      var e := Exact(exports, key).value;
      if Entry(key, false) in exports {
        KeyNamesEntry(exports, e, Entry(key, false));
      } else {
        assert e == Entry(key, e.isNull);
      }
    } else if Chosen(exports, key).Some? {
      var i := ChosenDecides(exports, key);
      forall j: nat | Decides(exports, key, j) ensures j == i {
        DecidersAgree(exports, key, i, j);
      }
    } else {
      NoneChosen(exports, key);
    }
  }

  /** The whole verdict on a specifier of the package: there are exports, no segment of the subpath leaves or digs into
      the package, and the subpath's key is exported. */
  lemma PublicEntriesExactly(subpath: string, exports: Option<seq<Entry>>)
    requires exports.Some? ==> DistinctKeys(exports.value)
    ensures IsPublicEntry("@jini-ai/admin" + subpath, exports)
            <==> exports.Some? && !HasSegment(subpath, ".") && !HasSegment(subpath, "..")
                 && !HasSegment(subpath, "node_modules") && Exported(exports.value, "." + subpath)
  {
    var spec := "@jini-ai/admin" + subpath;
    assert Subpath(spec) == subpath;
    assert "." + "" == ".";
    SegmentsExactly(subpath, ".");
    SegmentsExactly(subpath, "..");
    SegmentsExactly(subpath, "node_modules");
  }
}
