/**
 Intersection of two trees by walking both at once. The trees may cut the same keys
 into prefixes at different places; an offset says how much of a node's prefix has
 been consumed already.
 */
module Intersect {
  import opened Wrappers
  import opened Bytes
  import opened Node
  import opened Entries

  datatype Match<+V> = Match(key: Key, left: V, right: V)

  // ----- What an intersection is -----

  /** The entries of a listing whose keys the other tree has as well, with both values. */
  ghost function Common<V>(es: seq<Entry<V>>, other: Node<V>): seq<Match<V>> {
    if es == [] then []
    else
      (match Lookup(other, es[0].key)
       case None => []
       case Some(w) => [Match(es[0].key, es[0].value, w)])
      + Common(es[1..], other)
  }

  function PrependKeys<V>(p: Key, ms: seq<Match<V>>): (r: seq<Match<V>>)
    ensures |r| == |ms|
  {
    seq(|ms|, i requires 0 <= i < |ms| => ms[i].(key := p + ms[i].key))
  }

  /** A node of which the first `offset` bytes of the prefix are consumed. */
  ghost function Cut<V>(n: Node<V>, offset: nat): Node<V>
    requires offset <= |n.prefix|
  {
    n.(prefix := n.prefix[offset..])
  }

  ghost function Joined<V>(left: Node<V>, leftOffset: nat, right: Node<V>, rightOffset: nat): seq<Match<V>>
    requires leftOffset <= |left.prefix| && rightOffset <= |right.prefix|
  {
    Common(Entries.Entries(Cut(left, leftOffset)), Cut(right, rightOffset))
  }

  ghost function JoinedKids<V>(left: Node<V>, right: Node<V>, from: nat): seq<Match<V>>
    requires from <= 256
    decreases 256 - from
  {
    if from == 256 then []
    else
      (if from in Kids(left) && from in Kids(right) then Joined(Kids(left)[from], 0, Kids(right)[from], 0) else [])
      + JoinedKids(left, right, from + 1)
  }

  function OwnMatch<V>(left: Node<V>, right: Node<V>): seq<Match<V>> {
    if left.value.Some? && right.value.Some? then [Match([], left.value.value, right.value.value)] else []
  }

  lemma {:induction false} CommonAppend<V>(s: seq<Entry<V>>, t: seq<Entry<V>>, other: Node<V>)
    ensures Common(s + t, other) == Common(s, other) + Common(t, other)
  {
    if s == [] {
      assert s + t == t;
    } else {
      assert (s + t)[1..] == s[1..] + t;
      CommonAppend(s[1..], t, other);
    }
  }

  lemma {:induction false} CommonNone<V>(es: seq<Entry<V>>, other: Node<V>)
    requires forall i :: 0 <= i < |es| ==> Lookup(other, es[i].key) == None
    ensures Common(es, other) == []
  {
    if es != [] {
      assert Lookup(other, es[0].key) == None;
      CommonNone(es[1..], other);
    }
  }

  lemma {:induction false} CommonSame<V>(es: seq<Entry<V>>, other: Node<V>, other': Node<V>)
    requires forall i :: 0 <= i < |es| ==> Lookup(other, es[i].key) == Lookup(other', es[i].key)
    ensures Common(es, other) == Common(es, other')
  {
    if es != [] {
      assert Lookup(other, es[0].key) == Lookup(other', es[0].key);
      CommonSame(es[1..], other, other');
    }
  }

  lemma {:induction false} CommonPrepend<V>(p: Key, es: seq<Entry<V>>, other: Node<V>, other': Node<V>)
    requires forall k :: Lookup(other, p + k) == Lookup(other', k)
    ensures Common(Prepend(p, es), other) == PrependKeys(p, Common(es, other'))
  {
    if es != [] {
      assert Prepend(p, es)[1..] == Prepend(p, es[1..]);
      assert Lookup(other, p + es[0].key) == Lookup(other', es[0].key);
      CommonPrepend(p, es[1..], other, other');
    }
  }

  lemma PrependKeysTwice<V>(p: Key, q: Key, ms: seq<Match<V>>)
    ensures PrependKeys(p, PrependKeys(q, ms)) == PrependKeys(p + q, ms)
  {
    assert forall i :: 0 <= i < |ms| ==> p + (q + ms[i].key) == (p + q) + ms[i].key;
  }

  lemma PrependKeysAppend<V>(p: Key, s: seq<Match<V>>, t: seq<Match<V>>)
    ensures PrependKeys(p, s + t) == PrependKeys(p, s) + PrependKeys(p, t)
  {
  }

  lemma PrependNoKeys<V>(ms: seq<Match<V>>)
    ensures PrependKeys([], ms) == ms
  {
    assert forall i :: 0 <= i < |ms| ==> [] + ms[i].key == ms[i].key;
  }

  // ----- One step of the walk -----

  lemma CutLookup<V>(n: Node<V>, offset: nat, k: Key)
    requires offset < |n.prefix|
    ensures Lookup(Cut(n, offset), [n.prefix[offset]] + k) == Lookup(Cut(n, offset + 1), k)
  {
    var q := [n.prefix[offset]] + k;
    var longer, shorter := n.prefix[offset..], n.prefix[offset + 1..];
    assert longer == [n.prefix[offset]] + shorter;
    assert longer <= q <==> shorter <= k by {
      assert q[1..] == k && longer[1..] == shorter;
      if shorter <= k {
        assert q == [n.prefix[offset]] + shorter + k[|shorter|..];
      }
    }
    if |shorter| < |k| {
      assert q[|longer|..] == k[|shorter|..];
    }
  }

  lemma CutEntries<V>(n: Node<V>, offset: nat)
    requires offset < |n.prefix|
    ensures Entries.Entries(Cut(n, offset)) == Prepend([n.prefix[offset]], Entries.Entries(Cut(n, offset + 1)))
  {
    var longer, shorter := Cut(n, offset), Cut(n, offset + 1);
    SameContent(longer, shorter, 0);
    PrependPrepend([n.prefix[offset]], shorter.prefix, Own(n) + ChildEntries(shorter, 0));
    assert longer.prefix == [n.prefix[offset]] + shorter.prefix;
  }

  lemma CutNothing<V>(n: Node<V>)
    ensures Cut(n, 0) == n
  {
    assert n.prefix[0..] == n.prefix;
  }

  /** Both prefixes continue with the same byte. */
  lemma SameByte<V>(left: Node<V>, leftOffset: nat, right: Node<V>, rightOffset: nat)
    requires leftOffset < |left.prefix| && rightOffset < |right.prefix|
    requires left.prefix[leftOffset] == right.prefix[rightOffset]
    ensures Joined(left, leftOffset, right, rightOffset) ==
            PrependKeys([left.prefix[leftOffset]], Joined(left, leftOffset + 1, right, rightOffset + 1))
  {
    hide Lookup, Entries.Entries;
    CutEntries(left, leftOffset);
    forall k
      ensures Lookup(Cut(right, rightOffset), [left.prefix[leftOffset]] + k) == Lookup(Cut(right, rightOffset + 1), k)
    {
      CutLookup(right, rightOffset, k);
    }
    CommonPrepend([left.prefix[leftOffset]], Entries.Entries(Cut(left, leftOffset + 1)),
                  Cut(right, rightOffset), Cut(right, rightOffset + 1));
  }

  /** The prefixes part: there is no common key. */
  lemma OtherByte<V>(left: Node<V>, leftOffset: nat, right: Node<V>, rightOffset: nat)
    requires leftOffset < |left.prefix| && rightOffset < |right.prefix|
    requires left.prefix[leftOffset] != right.prefix[rightOffset]
    ensures Joined(left, leftOffset, right, rightOffset) == []
  {
    var es := Entries.Entries(Cut(left, leftOffset));
    EntriesEdge(Cut(left, leftOffset), left.prefix[leftOffset]);
    forall i | 0 <= i < |es|
      ensures Lookup(Cut(right, rightOffset), es[i].key) == None
    {
      assert es[i].key[0] != Cut(right, rightOffset).prefix[0];
    }
    CommonNone(es, Cut(right, rightOffset));
  }

  /** A key that starts with an edge byte is looked up in the child under that edge. */
  lemma EdgeLookup<V>(n: Node<V>, key: Key)
    requires key != []
    ensures Lookup(Cut(n, |n.prefix|), key) == if key[0] in Kids(n) then Lookup(Kids(n)[key[0]], key) else None
  {
    var m := Cut(n, |n.prefix|);
    assert m.prefix == [] && key[0..] == key;
  }

  /** The left prefix is longer: only the right child under its next byte can match. */
  lemma LeftLonger<V>(left: Node<V>, leftOffset: nat, right: Node<V>)
    requires leftOffset < |left.prefix| && WellFormed(right)
    ensures var edge := left.prefix[leftOffset];
            if edge in Kids(right)
            then EdgeOk(edge, Kids(right)[edge])
                 && Joined(left, leftOffset, right, |right.prefix|) ==
                    PrependKeys([edge], Joined(left, leftOffset + 1, Kids(right)[edge], 1))
            else Joined(left, leftOffset, right, |right.prefix|) == []
  {
    hide Entries.Entries, Lookup;
    var edge := left.prefix[leftOffset];
    var es := Entries.Entries(Cut(left, leftOffset));
    EntriesEdge(Cut(left, leftOffset), edge);
    forall i | 0 <= i < |es|
      ensures Lookup(Cut(right, |right.prefix|), es[i].key) ==
              if edge in Kids(right) then Lookup(Kids(right)[edge], es[i].key) else None
    {
      EdgeLookup(right, es[i].key);
    }
    if edge in Kids(right) {
      CommonSame(es, Cut(right, |right.prefix|), Kids(right)[edge]);
      CutNothing(Kids(right)[edge]);
      SameByte(left, leftOffset, Kids(right)[edge], 0);
    } else {
      CommonNone(es, Cut(right, |right.prefix|));
    }
  }

  lemma ChildrenFrom<V>(n: Node<V>, from: nat)
    requires from <= 256
    ensures from == 256 ==> ChildEntries(n, from) == []
    ensures from < 256 ==>
              ChildEntries(n, from) ==
              (if from in Kids(n) then Entries.Entries(Kids(n)[from]) else []) + ChildEntries(n, from + 1)
  {
  }

  lemma OtherChild<V>(child: Node<V>, right: Node<V>)
    requires child.prefix != [] && right.prefix != [] && child.prefix[0] != right.prefix[0]
    ensures Common(Entries.Entries(child), right) == []
  {
    hide Entries.Entries, Lookup, Common;
    OtherByte(child, 0, right, 0);
    CutNothing(child);
    CutNothing(right);
  }

  /** Only the child under `edge` has keys that start with `edge`. */
  lemma {:induction false} OnlyChild<V>(left: Node<V>, from: nat, right: Node<V>, edge: Byte)
    requires WellFormed(left) && from <= 256 && right.prefix != [] && right.prefix[0] == edge
    ensures Common(ChildEntries(left, from), right) ==
            if edge in Kids(left) && from <= edge then Common(Entries.Entries(Kids(left)[edge]), right) else []
    decreases 256 - from
  {
    hide Entries.Entries, Lookup, WellFormed, Common, ChildEntries;
    ChildrenFrom(left, from);
    if from == 256 {
      CommonNone([], right);
    } else {
      OnlyChild(left, from + 1, right, edge);
      if from in Kids(left) {
        var child := Kids(left)[from];
        CommonAppend(Entries.Entries(child), ChildEntries(left, from + 1), right);
        KidOk(left, from);
        if from != edge {
          OtherChild(child, right);
        }
      } else {
        assert [] + ChildEntries(left, from + 1) == ChildEntries(left, from + 1);
      }
    }
  }

  /** The entries of a node whose prefix is consumed. */
  lemma ConsumedEntries<V>(n: Node<V>)
    ensures Entries.Entries(Cut(n, |n.prefix|)) == Own(n) + ChildEntries(n, 0)
  {
    var m := Cut(n, |n.prefix|);
    assert m.prefix == [];
    SameContent(n, m, 0);
    PrependNothing(Own(n) + ChildEntries(n, 0));
  }

  lemma OwnCommon<V>(left: Node<V>, right: Node<V>)
    ensures Common(Own(left), right) ==
            if right.prefix == [] then OwnMatch(left, right) else []
  {
    assert Own(left) != [] ==> Own(left)[1..] == [];
  }

  /** The right prefix is longer: only the left child under its next byte can match. */
  lemma RightLonger<V>(left: Node<V>, right: Node<V>, rightOffset: nat)
    requires rightOffset < |right.prefix| && WellFormed(left)
    ensures var edge := right.prefix[rightOffset];
            if edge in Kids(left)
            then EdgeOk(edge, Kids(left)[edge])
                 && Joined(left, |left.prefix|, right, rightOffset) ==
                    PrependKeys([edge], Joined(Kids(left)[edge], 1, right, rightOffset + 1))
            else Joined(left, |left.prefix|, right, rightOffset) == []
  {
    hide Entries.Entries, Lookup, WellFormed;
    var edge := right.prefix[rightOffset];
    var other := Cut(right, rightOffset);
    ConsumedEntries(left);
    CommonAppend(Own(left), ChildEntries(left, 0), other);
    OwnCommon(left, other);
    OnlyChild(left, 0, other, edge);
    if edge in Kids(left) {
      KidOk(left, edge);
      CutNothing(Kids(left)[edge]);
      SameByte(Kids(left)[edge], 0, right, rightOffset);
    }
  }

  /** Both prefixes are consumed: the values meet, and then the children edge by edge. */
  lemma BothConsumed<V>(left: Node<V>, right: Node<V>)
    requires WellFormed(left) && WellFormed(right)
    ensures Joined(left, |left.prefix|, right, |right.prefix|) == OwnMatch(left, right) + JoinedKids(left, right, 0)
  {
    hide Entries.Entries, Lookup, WellFormed, JoinedKids;
    var other := Cut(right, |right.prefix|);
    ConsumedEntries(left);
    CommonAppend(Own(left), ChildEntries(left, 0), other);
    OwnCommon(left, other);
    EdgeByEdge(left, right, 0);
  }

  lemma {:induction false} EdgeByEdge<V>(left: Node<V>, right: Node<V>, from: nat)
    requires WellFormed(left) && from <= 256
    ensures Common(ChildEntries(left, from), Cut(right, |right.prefix|)) == JoinedKids(left, right, from)
    decreases 256 - from
  {
    hide Entries.Entries, Lookup, WellFormed, Joined, Cut;
    if from < 256 {
      EdgeByEdge(left, right, from + 1);
      if from in Kids(left) {
        CommonAppend(Entries.Entries(Kids(left)[from]), ChildEntries(left, from + 1), Cut(right, |right.prefix|));
        AlongEdge(left, right, from);
      } else {
        assert [] + ChildEntries(left, from + 1) == ChildEntries(left, from + 1);
      }
    }
  }

  /** The entries below one edge meet those below the same edge. */
  lemma AlongEdge<V>(left: Node<V>, right: Node<V>, edge: Byte)
    requires WellFormed(left) && edge in Kids(left)
    ensures Common(Entries.Entries(Kids(left)[edge]), Cut(right, |right.prefix|)) ==
            if edge in Kids(right) then Joined(Kids(left)[edge], 0, Kids(right)[edge], 0) else []
  {
    hide Entries.Entries, Lookup, WellFormed, Common;
    var child, other := Kids(left)[edge], Cut(right, |right.prefix|);
    var es := Entries.Entries(child);
    KidOk(left, edge);
    EntriesEdge(child, edge);
    forall i | 0 <= i < |es|
      ensures Lookup(other, es[i].key) == if edge in Kids(right) then Lookup(Kids(right)[edge], es[i].key) else None
    {
      EdgeLookup(right, es[i].key);
    }
    if edge in Kids(right) {
      CommonSame(es, other, Kids(right)[edge]);
      CutNothing(child);
      CutNothing(Kids(right)[edge]);
    } else {
      CommonNone(es, other);
    }
  }

  /** The children that meet can be listed along the edges of either node. */
  lemma {:induction false} JoinedAlongLeft<V>(left: Node<V>, right: Node<V>, from: nat)
    requires from <= 256
    ensures JoinedKids(left, right, from) ==
            match NextEdge(Kids(left), from)
            case None => []
            case Some(k) =>
              (if k in Kids(right) then Joined(Kids(left)[k], 0, Kids(right)[k], 0) else [])
              + JoinedKids(left, right, k + 1)
    decreases 256 - from
  {
    hide Joined;
    if from < 256 && from !in Kids(left) {
      JoinedAlongLeft(left, right, from + 1);
    }
  }

  lemma {:induction false} JoinedAlongRight<V>(left: Node<V>, right: Node<V>, from: nat)
    requires from <= 256
    ensures JoinedKids(left, right, from) ==
            match NextEdge(Kids(right), from)
            case None => []
            case Some(k) =>
              (if k in Kids(left) then Joined(Kids(left)[k], 0, Kids(right)[k], 0) else [])
              + JoinedKids(left, right, k + 1)
    decreases 256 - from
  {
    hide Joined;
    if from < 256 && from !in Kids(right) {
      JoinedAlongRight(left, right, from + 1);
    }
  }

  lemma {:induction false} NoJoinedKids<V>(left: Node<V>, right: Node<V>, from: nat)
    requires from <= 256 && (left.content.Empty? || right.content.Empty?)
    ensures JoinedKids(left, right, from) == []
    decreases 256 - from
  {
    if from < 256 {
      NoJoinedKids(left, right, from + 1);
    }
  }

  // ----- The walk with an owned key per match -----

  /** Matches in the order the callback gets them. The key buffer comes back as it was. */
  method IntersectNodes<V>(left: Node<V>, leftStart: nat, right: Node<V>, rightStart: nat, keyBuf: Key,
                           seen: seq<Match<V>>)
    returns (buf: Key, matches: seq<Match<V>>)
    requires WellFormed(left) && WellFormed(right)
    requires leftStart <= |left.prefix| && rightStart <= |right.prefix|
    ensures buf == keyBuf
    ensures matches == seen + PrependKeys(keyBuf, Joined(left, leftStart, right, rightStart))
    decreases left, right, 1
  {
    hide WellFormed, Joined, PrependKeys;
    buf, matches := keyBuf, seen;
    var restoreLen := |keyBuf|;
    var leftOffset: nat, rightOffset: nat := leftStart, rightStart;
    ghost var all := PrependKeys(keyBuf, Joined(left, leftStart, right, rightStart));
    while leftOffset < |left.prefix| && rightOffset < |right.prefix|
      invariant leftOffset <= |left.prefix| && rightOffset <= |right.prefix|
      invariant restoreLen <= |buf| && buf[..restoreLen] == keyBuf
      invariant PrependKeys(buf, Joined(left, leftOffset, right, rightOffset)) == all
    {
      var leftByte, rightByte := left.prefix[leftOffset], right.prefix[rightOffset];
      if leftByte != rightByte {
        OtherByte(left, leftOffset, right, rightOffset);
        NoMatches(buf, seen);
        buf := buf[..restoreLen];
        return;
      }
      SameByte(left, leftOffset, right, rightOffset);
      PrependKeysTwice(buf, [leftByte], Joined(left, leftOffset + 1, right, rightOffset + 1));
      buf := buf + [leftByte];
      leftOffset, rightOffset := leftOffset + 1, rightOffset + 1;
    }
    NoMatches(buf, seen);
    if leftOffset < |left.prefix| {
      LeftLonger(left, leftOffset, right);
      var edge := left.prefix[leftOffset];
      if right.content.Inner? && edge in Kids(right) {
        KidOk(right, edge);
        PrependKeysTwice(buf, [edge], Joined(left, leftOffset + 1, Kids(right)[edge], 1));
        buf, matches := IntersectNodes(left, leftOffset + 1, Kids(right)[edge], 1, buf + [edge], matches);
      }
    } else if rightOffset < |right.prefix| {
      RightLonger(left, right, rightOffset);
      var edge := right.prefix[rightOffset];
      if left.content.Inner? && edge in Kids(left) {
        KidOk(left, edge);
        PrependKeysTwice(buf, [edge], Joined(Kids(left)[edge], 1, right, rightOffset + 1));
        buf, matches := IntersectNodes(Kids(left)[edge], 1, right, rightOffset + 1, buf + [edge], matches);
      }
    } else {
      BothConsumed(left, right);
      PrependKeysAppend(buf, OwnMatch(left, right), JoinedKids(left, right, 0));
      OwnPrepended(buf, left, right);
      if left.value.Some? && right.value.Some? {
        matches := matches + [Match(buf, left.value.value, right.value.value)];
      }
      Associate(seen, PrependKeys(buf, OwnMatch(left, right)), PrependKeys(buf, JoinedKids(left, right, 0)));
      if left.content.Inner? && right.content.Inner? {
        buf, matches := IntersectKids(left, right, buf, matches);
      } else {
        NoJoinedKids(left, right, 0);
        NoMatches(buf, matches);
      }
    }
    buf := buf[..restoreLen];
  }

  /** The children of two inner nodes, along the edges of the one that has fewer. */
  /** The next edge of the node that is iterated, sought in the other one. */
  lemma NextJoined<V>(left: Node<V>, right: Node<V>, alongLeft: bool, from: nat)
    requires WellFormed(left) && WellFormed(right) && from <= 256
    ensures match NextEdge(if alongLeft then Kids(left) else Kids(right), from)
            case None => JoinedKids(left, right, from) == []
            case Some(k) =>
              if k in (if alongLeft then Kids(right) else Kids(left)) then
                && k in Kids(left) && k in Kids(right)
                && WellFormed(Kids(left)[k]) && WellFormed(Kids(right)[k])
                && JoinedKids(left, right, from) ==
                   Joined(Kids(left)[k], 0, Kids(right)[k], 0) + JoinedKids(left, right, k + 1)
              else
                JoinedKids(left, right, from) == JoinedKids(left, right, k + 1)
  {
    hide WellFormed, Joined, JoinedKids;
    JoinedAlongLeft(left, right, from);
    JoinedAlongRight(left, right, from);
    match NextEdge(if alongLeft then Kids(left) else Kids(right), from)
    case None =>
    case Some(k) =>
      if k in Kids(left) && k in Kids(right) {
        KidOk(left, k);
        KidOk(right, k);
      } else {
        assert [] + JoinedKids(left, right, k + 1) == JoinedKids(left, right, k + 1);
      }
  }

  method IntersectKids<V>(left: Node<V>, right: Node<V>, keyBuf: Key, seen: seq<Match<V>>)
    returns (buf: Key, matches: seq<Match<V>>)
    requires WellFormed(left) && WellFormed(right)
    ensures buf == keyBuf
    ensures matches == seen + PrependKeys(keyBuf, JoinedKids(left, right, 0))
    decreases left, right, 0
  {
    hide WellFormed, Joined, PrependKeys, JoinedKids;
    buf, matches := keyBuf, seen;
    var alongLeft := |Kids(left)| <= |Kids(right)|;
    var listed, sought := if alongLeft then Kids(left) else Kids(right), if alongLeft then Kids(right) else Kids(left);
    var from := 0;
    while true
      invariant from <= 256 && buf == keyBuf
      invariant matches + PrependKeys(keyBuf, JoinedKids(left, right, from)) ==
                seen + PrependKeys(keyBuf, JoinedKids(left, right, 0))
      decreases 256 - from
    {
      NextJoined(left, right, alongLeft, from);
      match NextEdge(listed, from)
      case None =>
        NoMatches(keyBuf, matches);
        return;
      case Some(edge) =>
        if edge in sought {
          ghost var met := Joined(Kids(left)[edge], 0, Kids(right)[edge], 0);
          PrependKeysAppend(keyBuf, met, JoinedKids(left, right, edge + 1));
          Associate(matches, PrependKeys(keyBuf, met), PrependKeys(keyBuf, JoinedKids(left, right, edge + 1)));
          buf, matches := IntersectNodes(Kids(left)[edge], 0, Kids(right)[edge], 0, buf, matches);
        }
        from := edge + 1;
    }
  }

  lemma NoMatches<V>(p: Key, seen: seq<Match<V>>)
    ensures seen + PrependKeys(p, []) == seen
  {
  }

  lemma OwnPrepended<V>(p: Key, left: Node<V>, right: Node<V>)
    ensures PrependKeys(p, OwnMatch(left, right)) ==
            if left.value.Some? && right.value.Some? then [Match(p, left.value.value, right.value.value)] else []
  {
    assert p + [] == p;
  }

  lemma Associate<T>(a: seq<T>, b: seq<T>, c: seq<T>)
    ensures a + (b + c) == a + b + c
  {
  }
}
