/**
 The other two walks over a pair of trees: one hands out values only, the other shows
 each key as segments. Both meet the same pairs as the walk with owned keys.
 */
module IntersectViews {
  import opened Wrappers
  import opened Bytes
  import opened Node
  import opened Entries
  import opened Intersect
  import L = Lending
  import T = Tree

  // ----- Values only -----

  function Pairs<V>(ms: seq<Match<V>>): seq<(V, V)> {
    seq(|ms|, i requires 0 <= i < |ms| => (ms[i].left, ms[i].right))
  }

  lemma PairsPrepend<V>(p: Key, ms: seq<Match<V>>)
    ensures Pairs(PrependKeys(p, ms)) == Pairs(ms)
  {
  }

  lemma PairsAppend<V>(s: seq<Match<V>>, t: seq<Match<V>>)
    ensures Pairs(s + t) == Pairs(s) + Pairs(t)
  {
  }

  lemma PairsNothing<V>(seen: seq<(V, V)>)
    ensures var none: seq<Match<V>> := []; seen + Pairs(none) == seen
  {
  }

  method IntersectNodesValues<V>(left: Node<V>, leftStart: nat, right: Node<V>, rightStart: nat, seen: seq<(V, V)>)
    returns (matches: seq<(V, V)>)
    requires WellFormed(left) && WellFormed(right)
    requires leftStart <= |left.prefix| && rightStart <= |right.prefix|
    ensures matches == seen + Pairs(Joined(left, leftStart, right, rightStart))
    decreases left, right, 1
  {
    hide WellFormed, Joined, PrependKeys, Pairs, JoinedKids;
    matches := seen;
    PairsNothing(seen);
    var leftOffset: nat, rightOffset: nat := leftStart, rightStart;
    while leftOffset < |left.prefix| && rightOffset < |right.prefix|
      invariant leftOffset <= |left.prefix| && rightOffset <= |right.prefix|
      invariant Pairs(Joined(left, leftOffset, right, rightOffset)) == Pairs(Joined(left, leftStart, right, rightStart))
    {
      if left.prefix[leftOffset] != right.prefix[rightOffset] {
        OtherByte(left, leftOffset, right, rightOffset);
        return;
      }
      SameByte(left, leftOffset, right, rightOffset);
      PairsPrepend([left.prefix[leftOffset]], Joined(left, leftOffset + 1, right, rightOffset + 1));
      leftOffset, rightOffset := leftOffset + 1, rightOffset + 1;
    }
    if leftOffset < |left.prefix| {
      LeftLonger(left, leftOffset, right);
      var edge := left.prefix[leftOffset];
      if !right.content.Inner? || edge !in Kids(right) {
        return;
      }
      KidOk(right, edge);
      PairsPrepend([edge], Joined(left, leftOffset + 1, Kids(right)[edge], 1));
      matches := IntersectNodesValues(left, leftOffset + 1, Kids(right)[edge], 1, matches);
      return;
    }
    if rightOffset < |right.prefix| {
      RightLonger(left, right, rightOffset);
      var edge := right.prefix[rightOffset];
      if !left.content.Inner? || edge !in Kids(left) {
        return;
      }
      KidOk(left, edge);
      PairsPrepend([edge], Joined(Kids(left)[edge], 1, right, rightOffset + 1));
      matches := IntersectNodesValues(Kids(left)[edge], 1, right, rightOffset + 1, matches);
      return;
    }
    BothConsumed(left, right);
    PairsAppend(OwnMatch(left, right), JoinedKids(left, right, 0));
    OwnPair(left, right);
    if left.value.Some? && right.value.Some? {
      matches := matches + [(left.value.value, right.value.value)];
    }
    Associate(seen, Pairs(OwnMatch(left, right)), Pairs(JoinedKids(left, right, 0)));
    if left.content.Inner? && right.content.Inner? {
      matches := IntersectKidsValues(left, right, matches);
    } else {
      NoJoinedKids(left, right, 0);
      PairsNothing(matches);
    }
  }

  lemma OwnPair<V>(left: Node<V>, right: Node<V>)
    ensures Pairs(OwnMatch(left, right)) ==
            if left.value.Some? && right.value.Some? then [(left.value.value, right.value.value)] else []
  {
  }

  method IntersectKidsValues<V>(left: Node<V>, right: Node<V>, seen: seq<(V, V)>) returns (matches: seq<(V, V)>)
    requires WellFormed(left) && WellFormed(right)
    ensures matches == seen + Pairs(JoinedKids(left, right, 0))
    decreases left, right, 0
  {
    hide WellFormed, Joined, Pairs, JoinedKids;
    matches := seen;
    var alongLeft := |Kids(left)| <= |Kids(right)|;
    var listed, sought := if alongLeft then Kids(left) else Kids(right), if alongLeft then Kids(right) else Kids(left);
    var from := 0;
    while true
      invariant from <= 256
      invariant matches + Pairs(JoinedKids(left, right, from)) == seen + Pairs(JoinedKids(left, right, 0))
      decreases 256 - from
    {
      NextJoined(left, right, alongLeft, from);
      match NextEdge(listed, from)
      case None =>
        PairsNothing(matches);
        return;
      case Some(edge) =>
        if edge in sought {
          ghost var met := Joined(Kids(left)[edge], 0, Kids(right)[edge], 0);
          PairsAppend(met, JoinedKids(left, right, edge + 1));
          Associate(matches, Pairs(met), Pairs(JoinedKids(left, right, edge + 1)));
          matches := IntersectNodesValues(Kids(left)[edge], 0, Kids(right)[edge], 0, matches);
        }
        from := edge + 1;
    }
  }

  // ----- Keys in segments -----

  datatype MatchView<+V> = MatchView(segments: seq<Key>, len: nat, left: V, right: V)

  /** The matches shown to the callback. */
  ghost function Shown<V>(views: seq<MatchView<V>>): seq<Match<V>> {
    seq(|views|, i requires 0 <= i < |views| => Match(L.Join(views[i].segments), views[i].left, views[i].right))
  }

  ghost predicate LengthsOk<V>(views: seq<MatchView<V>>) {
    forall i :: 0 <= i < |views| ==> views[i].len == |L.Join(views[i].segments)|
  }

  lemma ShowMatch<V>(seen: seq<MatchView<V>>, view: MatchView<V>)
    ensures Shown(seen + [view]) == Shown(seen) + [Match(L.Join(view.segments), view.left, view.right)]
    ensures LengthsOk(seen) && view.len == |L.Join(view.segments)| ==> LengthsOk(seen + [view])
  {
  }

  /** Matching whole stretches of both prefixes at once. */
  lemma {:induction false} SameStretch<V>(left: Node<V>, leftOffset: nat, right: Node<V>, rightOffset: nat, n: nat)
    requires leftOffset + n <= |left.prefix| && rightOffset + n <= |right.prefix|
    requires left.prefix[leftOffset..leftOffset + n] == right.prefix[rightOffset..rightOffset + n]
    ensures Joined(left, leftOffset, right, rightOffset) ==
            PrependKeys(left.prefix[leftOffset..leftOffset + n], Joined(left, leftOffset + n, right, rightOffset + n))
    decreases n
  {
    hide Joined, PrependKeys;
    var stretch := left.prefix[leftOffset..leftOffset + n];
    if n == 0 {
      PrependNoKeys(Joined(left, leftOffset, right, rightOffset));
    } else {
      assert stretch[0] == right.prefix[rightOffset..rightOffset + n][0];
      SameByte(left, leftOffset, right, rightOffset);
      var rest := left.prefix[leftOffset + 1..leftOffset + n];
      assert stretch[1..] == rest;
      assert right.prefix[rightOffset..rightOffset + n][1..] == right.prefix[rightOffset + 1..rightOffset + n];
      SameStretch(left, leftOffset + 1, right, rightOffset + 1, n - 1);
      PrependKeysTwice([stretch[0]], rest, Joined(left, leftOffset + n, right, rightOffset + n));
      assert [stretch[0]] + rest == stretch;
    }
  }

  /** The segments and their total length come back as they were. */
  method IntersectNodesLending<V>(left: Node<V>, leftStart: nat, right: Node<V>, rightStart: nat,
                                  keySegments: seq<Key>, keyLen: nat, seen: seq<MatchView<V>>)
    returns (segments: seq<Key>, len: nat, views: seq<MatchView<V>>)
    requires WellFormed(left) && WellFormed(right)
    requires leftStart <= |left.prefix| && rightStart <= |right.prefix|
    requires keyLen == |L.Join(keySegments)| && LengthsOk(seen)
    ensures segments == keySegments && len == keyLen && LengthsOk(views)
    ensures Shown(views) == Shown(seen) + PrependKeys(L.Join(keySegments), Joined(left, leftStart, right, rightStart))
    decreases left, right, 2
  {
    hide WellFormed, Joined, PrependKeys, Shown, LengthsOk, L.Join, JoinedKids;
    segments, len, views := keySegments, keyLen, seen;
    ghost var all := PrependKeys(L.Join(keySegments), Joined(left, leftStart, right, rightStart));
    var leftOffset: nat, rightOffset: nat := leftStart, rightStart;
    while leftOffset < |left.prefix| && rightOffset < |right.prefix|
      invariant leftStart <= leftOffset <= |left.prefix| && rightOffset <= |right.prefix|
      invariant rightOffset - rightStart == leftOffset - leftStart
      invariant left.prefix[leftStart..leftOffset] == right.prefix[rightStart..rightOffset]
    {
      if left.prefix[leftOffset] != right.prefix[rightOffset] {
        SameStretch(left, leftStart, right, rightStart, leftOffset - leftStart);
        OtherByte(left, leftOffset, right, rightOffset);
        NothingPrepended<V>(left.prefix[leftStart..leftOffset]);
        NoMatches(L.Join(keySegments), Shown(seen));
        return;
      }
      assert left.prefix[leftStart..leftOffset + 1] == left.prefix[leftStart..leftOffset] + [left.prefix[leftOffset]];
      assert right.prefix[rightStart..rightOffset + 1] ==
             right.prefix[rightStart..rightOffset] + [right.prefix[rightOffset]];
      leftOffset, rightOffset := leftOffset + 1, rightOffset + 1;
    }
    SameStretch(left, leftStart, right, rightStart, leftOffset - leftStart);
    ghost var rest := Joined(left, leftOffset, right, rightOffset);
    var matched := left.prefix[leftStart..leftOffset];
    L.PushSegment<V>([], keySegments, matched);
    PrependKeysTwice(L.Join(keySegments), matched, rest);
    if leftOffset > leftStart {
      segments, len := segments + [matched], len + |matched|;
    }
    assert segments == L.Pushed(keySegments, matched);
    segments, len, views := IntersectMatched(left, leftOffset, right, rightOffset, segments, len, views);
    segments, len := segments[..|keySegments|], keyLen;
  }

  lemma NothingPrepended<V>(p: Key)
    ensures var none: seq<Match<V>> := []; PrependKeys(p, none) == none
  {
  }

  /** The part after the common stretch of the two prefixes. */
  method IntersectMatched<V>(left: Node<V>, leftOffset: nat, right: Node<V>, rightOffset: nat,
                             keySegments: seq<Key>, keyLen: nat, seen: seq<MatchView<V>>)
    returns (segments: seq<Key>, len: nat, views: seq<MatchView<V>>)
    requires WellFormed(left) && WellFormed(right)
    requires leftOffset <= |left.prefix| && rightOffset <= |right.prefix|
    requires leftOffset == |left.prefix| || rightOffset == |right.prefix|
    requires keyLen == |L.Join(keySegments)| && LengthsOk(seen)
    ensures segments == keySegments && len == keyLen && LengthsOk(views)
    ensures Shown(views) == Shown(seen) + PrependKeys(L.Join(keySegments), Joined(left, leftOffset, right, rightOffset))
    decreases left, right, 1
  {
    hide WellFormed, Joined, PrependKeys, Shown, LengthsOk, L.Join, JoinedKids;
    segments, len, views := keySegments, keyLen, seen;
    ghost var key := L.Join(keySegments);
    NoMatches(key, Shown(seen));
    if leftOffset < |left.prefix| {
      LeftLonger(left, leftOffset, right);
      var edge := left.prefix[leftOffset];
      if !right.content.Inner? || edge !in Kids(right) {
        return;
      }
      KidOk(right, edge);
      L.JoinPush(keySegments, [edge]);
      PrependKeysTwice(key, [edge], Joined(left, leftOffset + 1, Kids(right)[edge], 1));
      segments, len, views :=
        IntersectNodesLending(left, leftOffset + 1, Kids(right)[edge], 1, segments + [[edge]], len + 1, views);
    } else if rightOffset < |right.prefix| {
      RightLonger(left, right, rightOffset);
      var edge := right.prefix[rightOffset];
      if !left.content.Inner? || edge !in Kids(left) {
        return;
      }
      KidOk(left, edge);
      L.JoinPush(keySegments, [edge]);
      PrependKeysTwice(key, [edge], Joined(Kids(left)[edge], 1, right, rightOffset + 1));
      segments, len, views :=
        IntersectNodesLending(Kids(left)[edge], 1, right, rightOffset + 1, segments + [[edge]], len + 1, views);
    } else {
      BothConsumed(left, right);
      PrependKeysAppend(key, OwnMatch(left, right), JoinedKids(left, right, 0));
      OwnPrepended(key, left, right);
      if left.value.Some? && right.value.Some? {
        ShowMatch(views, MatchView(segments, len, left.value.value, right.value.value));
        views := views + [MatchView(segments, len, left.value.value, right.value.value)];
      }
      Associate(Shown(seen), PrependKeys(key, OwnMatch(left, right)), PrependKeys(key, JoinedKids(left, right, 0)));
      if left.content.Inner? && right.content.Inner? {
        segments, len, views := IntersectKidsLending(left, right, segments, len, views);
      } else {
        NoJoinedKids(left, right, 0);
        NoMatches(key, Shown(views));
      }
    }
    segments, len := segments[..|keySegments|], keyLen;
  }

  method IntersectKidsLending<V>(left: Node<V>, right: Node<V>, keySegments: seq<Key>, keyLen: nat,
                                 seen: seq<MatchView<V>>)
    returns (segments: seq<Key>, len: nat, views: seq<MatchView<V>>)
    requires WellFormed(left) && WellFormed(right)
    requires keyLen == |L.Join(keySegments)| && LengthsOk(seen)
    ensures segments == keySegments && len == keyLen && LengthsOk(views)
    ensures Shown(views) == Shown(seen) + PrependKeys(L.Join(keySegments), JoinedKids(left, right, 0))
    decreases left, right, 0
  {
    hide WellFormed, Joined, PrependKeys, JoinedKids, Shown, LengthsOk, L.Join;
    segments, len, views := keySegments, keyLen, seen;
    ghost var key := L.Join(keySegments);
    var alongLeft := |Kids(left)| <= |Kids(right)|;
    var listed, sought := if alongLeft then Kids(left) else Kids(right), if alongLeft then Kids(right) else Kids(left);
    var from := 0;
    while true
      invariant from <= 256 && segments == keySegments && len == keyLen && LengthsOk(views)
      invariant Shown(views) + PrependKeys(key, JoinedKids(left, right, from)) ==
                Shown(seen) + PrependKeys(key, JoinedKids(left, right, 0))
      decreases 256 - from
    {
      NextJoined(left, right, alongLeft, from);
      match NextEdge(listed, from)
      case None =>
        NoMatches(key, Shown(views));
        return;
      case Some(edge) =>
        if edge in sought {
          ghost var met := Joined(Kids(left)[edge], 0, Kids(right)[edge], 0);
          PrependKeysAppend(key, met, JoinedKids(left, right, edge + 1));
          Associate(Shown(views), PrependKeys(key, met), PrependKeys(key, JoinedKids(left, right, edge + 1)));
          segments, len, views :=
            IntersectNodesLending(Kids(left)[edge], 0, Kids(right)[edge], 0, segments, len, views);
        }
        from := edge + 1;
    }
  }

  // ----- What is matched -----

  ghost predicate Ascending<V>(ms: seq<Match<V>>) {
    forall i, j :: 0 <= i < j < |ms| ==> Less(ms[i].key, ms[j].key)
  }

  /** Ascending, once per common key, with the values of both maps. */
  ghost predicate MatchesOf<V>(ms: seq<Match<V>>, left: map<Key, V>, right: map<Key, V>) {
    && Ascending(ms)
    && (forall m :: m in ms ==> m.key in left && m.key in right && m.left == left[m.key] && m.right == right[m.key])
    && (forall k :: k in left && k in right ==> Match(k, left[k], right[k]) in ms)
  }

  lemma {:induction false} CommonIn<V>(es: seq<Entry<V>>, other: Node<V>, m: Match<V>)
    ensures m in Common(es, other) <==> Entry(m.key, m.left) in es && Lookup(other, m.key) == Some(m.right)
  {
    if es != [] {
      CommonIn(es[1..], other, m);
      assert es == [es[0]] + es[1..];
    }
  }

  lemma {:induction false} CommonAscending<V>(es: seq<Entry<V>>, other: Node<V>)
    requires Sorted(es)
    ensures Ascending(Common(es, other))
  {
    if es != [] {
      var tail := Common(es[1..], other);
      CommonAscending(es[1..], other);
      forall j | 0 <= j < |tail|
        ensures Less(es[0].key, tail[j].key)
      {
        CommonIn(es[1..], other, tail[j]);
        assert tail[j] in tail;
        var i :| 0 <= i < |es[1..]| && es[1..][i] == Entry(tail[j].key, tail[j].left);
        assert Less(es[0].key, es[i + 1].key);
      }
    }
  }

  lemma CommonMeaning<V>(left: Node<V>, right: Node<V>, m: Match<V>)
    requires WellFormed(left) && WellFormed(right)
    ensures m in Common(Entries.Entries(left), right) <==>
            m.key in View(left) && m.key in View(right) && m.left == View(left)[m.key] && m.right == View(right)[m.key]
  {
    hide Common, Entries.Entries, Lookup, WellFormed, View;
    CommonIn(Entries.Entries(left), right, m);
    EntriesLookup(left, m.key, m.left);
    ViewLookup(left, m.key);
    ViewLookup(right, m.key);
  }

  lemma JoinedMatches<V>(left: Node<V>, right: Node<V>)
    requires WellFormed(left) && WellFormed(right)
    ensures MatchesOf(Joined(left, 0, right, 0), View(left), View(right))
  {
    hide Common, Entries.Entries, Lookup, WellFormed, View;
    var ms := Common(Entries.Entries(left), right);
    CutNothing(left);
    CutNothing(right);
    EntriesSorted(left);
    CommonAscending(Entries.Entries(left), right);
    forall m | m in ms
      ensures m.key in View(left) && m.key in View(right) && m.left == View(left)[m.key]
      ensures m.right == View(right)[m.key]
    {
      CommonMeaning(left, right, m);
    }
    forall k | k in View(left) && k in View(right)
      ensures Match(k, View(left)[k], View(right)[k]) in ms
    {
      CommonMeaning(left, right, Match(k, View(left)[k], View(right)[k]));
    }
    assert Joined(left, 0, right, 0) == ms;
  }

  /** The intersection of two trees, by any of the walks. */
  ghost function MatchesBetween<V>(left: Option<Node<V>>, right: Option<Node<V>>): seq<Match<V>> {
    if left.Some? && right.Some? then Joined(left.value, 0, right.value, 0) else []
  }

  lemma MatchesMeaning<V>(left: Option<Node<V>>, right: Option<Node<V>>)
    requires left.Some? ==> WellFormed(left.value)
    requires right.Some? ==> WellFormed(right.value)
    ensures MatchesOf(MatchesBetween(left, right), T.RootView(left), T.RootView(right))
  {
    if left.Some? && right.Some? {
      JoinedMatches(left.value, right.value);
    }
  }

  method IntersectWith<V>(left: Option<Node<V>>, right: Option<Node<V>>) returns (matches: seq<Match<V>>)
    requires left.Some? ==> WellFormed(left.value)
    requires right.Some? ==> WellFormed(right.value)
    ensures matches == MatchesBetween(left, right)
    ensures MatchesOf(matches, T.RootView(left), T.RootView(right))
  {
    hide MatchesOf, WellFormed, T.RootView, Joined, PrependKeys;
    MatchesMeaning(left, right);
    matches := [];
    if left.Some? && right.Some? {
      var buf;
      buf, matches := IntersectNodes(left.value, 0, right.value, 0, [], []);
      PrependNoKeys(Joined(left.value, 0, right.value, 0));
    }
  }

  method IntersectLendingWith<V>(left: Option<Node<V>>, right: Option<Node<V>>) returns (views: seq<MatchView<V>>)
    requires left.Some? ==> WellFormed(left.value)
    requires right.Some? ==> WellFormed(right.value)
    ensures Shown(views) == MatchesBetween(left, right) && LengthsOk(views)
  {
    views := [];
    if left.Some? && right.Some? {
      var _, _, shown := IntersectNodesLending(left.value, 0, right.value, 0, [], 0, []);
      PrependNoKeys(Joined(left.value, 0, right.value, 0));
      views := shown;
    }
  }

  method IntersectValuesWith<V>(left: Option<Node<V>>, right: Option<Node<V>>) returns (matches: seq<(V, V)>)
    requires left.Some? ==> WellFormed(left.value)
    requires right.Some? ==> WellFormed(right.value)
    ensures matches == Pairs(MatchesBetween(left, right))
  {
    matches := [];
    if left.Some? && right.Some? {
      matches := IntersectNodesValues(left.value, 0, right.value, 0, []);
    }
  }

  /** The number of keys that both trees have. */
  method IntersectCount<V>(left: Option<Node<V>>, right: Option<Node<V>>) returns (count: nat)
    requires left.Some? ==> WellFormed(left.value)
    requires right.Some? ==> WellFormed(right.value)
    ensures count == |T.RootView(left).Keys * T.RootView(right).Keys|
  {
    hide WellFormed, T.RootView, Joined;
    var matches := IntersectValuesWith(left, right);
    count := |matches|;
    MatchesMeaning(left, right);
    MatchCount(MatchesBetween(left, right), T.RootView(left), T.RootView(right));
  }

  lemma MatchCount<V>(ms: seq<Match<V>>, left: map<Key, V>, right: map<Key, V>)
    requires MatchesOf(ms, left, right)
    ensures |ms| == |left.Keys * right.Keys|
  {
    var es := seq(|ms|, i requires 0 <= i < |ms| => Entry(ms[i].key, ms[i].left));
    KeySetSize(es);
    forall k
      ensures k in KeySet(es) <==> k in left.Keys * right.Keys
    {
      if k in KeySet(es) {
        var i :| 0 <= i < |es| && es[i].key == k;
        assert ms[i] in ms;
      }
      if k in left.Keys * right.Keys {
        var m := Match(k, left[k], right[k]);
        var i :| 0 <= i < |ms| && ms[i] == m;
        assert es[i].key == k;
      }
    }
    assert KeySet(es) == left.Keys * right.Keys;
  }
}
