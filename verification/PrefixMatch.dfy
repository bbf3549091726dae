/** Stored keys that are prefixes of a probe key, from the shortest to the longest. */
module PrefixMatch {
  import opened Wrappers
  import opened Bytes
  import opened Node
  import opened Entries
  import F = Frames
  import I = Iter
  import L = Lending

  /** The stored prefixes of `probe` that have at least `from` bytes, by length. */
  ghost function StoredPrefixes<V>(n: Node<V>, probe: Key, from: nat): seq<Entry<V>>
    requires from <= |probe| + 1
    decreases |probe| + 1 - from
  {
    if from > |probe| then []
    else
      (match Lookup(n, probe[..from])
       case None => []
       case Some(v) => [Entry(probe[..from], v)])
      + StoredPrefixes(n, probe, from + 1)
  }

  /** The values met on the way of the probe. */
  ghost function OnTheWay<V>(n: Node<V>, probe: Key): seq<Entry<V>>
    decreases n
  {
    if !(n.prefix <= probe) then []
    else
      (if n.value.Some? then [Entry(n.prefix, n.value.value)] else [])
      + if |n.prefix| < |probe| && probe[|n.prefix|] in Kids(n)
        then Prepend(n.prefix, OnTheWay(Kids(n)[probe[|n.prefix|]], probe[|n.prefix|..])) else []
  }

  lemma {:induction false} TooShort<V>(n: Node<V>, probe: Key, from: nat, to: nat)
    requires from <= to <= |probe| + 1
    requires forall len :: from <= len < to ==> Lookup(n, probe[..len]) == None
    ensures StoredPrefixes(n, probe, from) == StoredPrefixes(n, probe, to)
    decreases |probe| + 1 - from
  {
    if from < to {
      assert Lookup(n, probe[..from]) == None;
      TooShort(n, probe, from + 1, to);
    }
  }

  lemma {:induction false} PrefixesBelow<V>(n: Node<V>, probe: Key, child: Node<V>, from: nat)
    requires n.prefix < probe && probe[|n.prefix|] in Kids(n) && child == Kids(n)[probe[|n.prefix|]]
    requires |n.prefix| < from <= |probe| + 1
    ensures StoredPrefixes(n, probe, from) ==
            Prepend(n.prefix, StoredPrefixes(child, probe[|n.prefix|..], from - |n.prefix|))
    decreases |probe| + 1 - from
  {
    if from <= |probe| {
      var rest := probe[|n.prefix|..];
      PrefixesBelow(n, probe, child, from + 1);
      assert probe[..from][|n.prefix|..] == rest[..from - |n.prefix|];
      assert probe[..from] == n.prefix + rest[..from - |n.prefix|];
    }
  }

  lemma PartedPrefix<V>(n: Node<V>, probe: Key)
    requires !(n.prefix <= probe)
    ensures StoredPrefixes(n, probe, 0) == []
  {
    forall len | 0 <= len <= |probe|
      ensures Lookup(n, probe[..len]) == None
    {
    }
    TooShort(n, probe, 0, |probe| + 1);
  }

  lemma FirstPrefix<V>(n: Node<V>, probe: Key)
    requires n.prefix <= probe
    ensures StoredPrefixes(n, probe, 0) ==
            (if n.value.Some? then [Entry(n.prefix, n.value.value)] else [])
            + StoredPrefixes(n, probe, |n.prefix| + 1)
  {
    var at := |n.prefix|;
    forall len | 0 <= len < at
      ensures Lookup(n, probe[..len]) == None
    {
    }
    TooShort(n, probe, 0, at);
    assert probe[..at] == n.prefix;
  }

  lemma NoSuchEdge<V>(n: Node<V>, q: Key)
    requires n.prefix < q && q[|n.prefix|] !in Kids(n)
    ensures Lookup(n, q) == None
  {
  }

  lemma NoFurther<V>(n: Node<V>, probe: Key)
    requires n.prefix <= probe && (|n.prefix| < |probe| ==> probe[|n.prefix|] !in Kids(n))
    ensures StoredPrefixes(n, probe, |n.prefix| + 1) == []
  {
    hide Lookup;
    forall len | |n.prefix| < len <= |probe|
      ensures Lookup(n, probe[..len]) == None
    {
      NoSuchEdge(n, probe[..len]);
    }
    TooShort(n, probe, |n.prefix| + 1, |probe| + 1);
  }

  /** The values on the way are exactly the stored prefixes of the probe. */
  lemma {:induction false} OnTheWayStored<V>(n: Node<V>, probe: Key)
    requires WellFormed(n)
    ensures OnTheWay(n, probe) == StoredPrefixes(n, probe, 0)
    decreases n
  {
    hide WellFormed, StoredPrefixes, Lookup;
    var at := |n.prefix|;
    if !(n.prefix <= probe) {
      PartedPrefix(n, probe);
    } else {
      FirstPrefix(n, probe);
      if at < |probe| && probe[at] in Kids(n) {
        KidOk(n, probe[at]);
        OnTheWayStored(Kids(n)[probe[at]], probe[at..]);
        PrefixesBelow(n, probe, Kids(n)[probe[at]], at + 1);
        NotEmptyPrefix(Kids(n)[probe[at]], probe[at..]);
      } else {
        NoFurther(n, probe);
      }
    }
  }

  lemma NotEmptyPrefix<V>(child: Node<V>, rest: Key)
    requires child.prefix != [] && rest != []
    ensures StoredPrefixes(child, rest, 0) == StoredPrefixes(child, rest, 1)
  {
    assert rest[..0] == [];
    TooShort(child, rest, 0, 1);
  }

  /** Exactly the entries of `m` whose keys the probe starts with, from the shortest to the longest. */
  ghost predicate ListsPrefixes<V>(es: seq<Entry<V>>, m: map<Key, V>, probe: Key) {
    && (forall i, j :: 0 <= i < j < |es| ==> |es[i].key| < |es[j].key|)
    && (forall e :: e in es ==> e.key <= probe && e.key in m && m[e.key] == e.value)
    && (forall k :: k in m && k <= probe ==> Entry(k, m[k]) in es)
  }

  ghost predicate ListsFrom<V>(es: seq<Entry<V>>, m: map<Key, V>, probe: Key, from: nat) {
    && (forall i, j :: 0 <= i < j < |es| ==> |es[i].key| < |es[j].key|)
    && (forall e :: e in es ==> e.key <= probe && from <= |e.key| && e.key in m && m[e.key] == e.value)
    && (forall k :: k in m && k <= probe && from <= |k| ==> Entry(k, m[k]) in es)
  }

  lemma {:induction false} PrefixesFrom<V>(n: Node<V>, probe: Key, from: nat)
    requires WellFormed(n) && from <= |probe| + 1
    ensures ListsFrom(StoredPrefixes(n, probe, from), View(n), probe, from)
    decreases |probe| + 1 - from
  {
    hide WellFormed, View, Lookup, ListsFrom;
    if from > |probe| {
      NothingLonger(View(n), probe, from);
    } else {
      PrefixesFrom(n, probe, from + 1);
      ViewLookup(n, probe[..from]);
      ListsOneMore(StoredPrefixes(n, probe, from + 1), View(n), probe, from);
    }
  }

  lemma NothingLonger<V>(m: map<Key, V>, probe: Key, from: nat)
    requires from > |probe|
    ensures ListsFrom([], m, probe, from)
  {
  }

  lemma ListsOneMore<V>(rest: seq<Entry<V>>, m: map<Key, V>, probe: Key, from: nat)
    requires from <= |probe| && ListsFrom(rest, m, probe, from + 1)
    ensures var first := probe[..from];
            ListsFrom((if first in m then [Entry(first, m[first])] else []) + rest, m, probe, from)
  {
    var first := probe[..from];
    var all := (if first in m then [Entry(first, m[first])] else []) + rest;
    forall k | k in m && k <= probe && from <= |k|
      ensures Entry(k, m[k]) in all
    {
      if |k| == from {
        assert k == first && all[0] == Entry(k, m[k]);
      } else {
        assert Entry(k, m[k]) in rest;
      }
    }
    forall e | e in all
      ensures e.key <= probe && from <= |e.key| && e.key in m && m[e.key] == e.value
    {
      assert e in rest || (first in m && e == Entry(first, m[first]));
    }
    assert forall j :: 0 <= j < |rest| ==> rest[j] in rest;
  }

  /** The stored prefixes of a probe are the part of the stored map under which it lies. */
  lemma PrefixesStored<V>(n: Node<V>, probe: Key)
    requires WellFormed(n)
    ensures ListsPrefixes(StoredPrefixes(n, probe, 0), View(n), probe)
  {
    hide WellFormed, View, StoredPrefixes;
    PrefixesFrom(n, probe, 0);
  }

  lemma NoPrefixes<V>(probe: Key)
    ensures ListsPrefixes<V>([], map[], probe)
  {
  }

  /** The last stored prefix is the longest. */
  lemma LastIsLongest<V>(n: Node<V>, probe: Key)
    requires WellFormed(n)
    ensures match Last(StoredPrefixes(n, probe, 0))
            case None => forall k :: k in View(n) ==> !(k <= probe)
            case Some(e) =>
              && e.key <= probe && e.key in View(n) && View(n)[e.key] == e.value
              && forall k :: k in View(n) && k <= probe ==> |k| <= |e.key|
  {
    hide WellFormed, View, StoredPrefixes;
    PrefixesStored(n, probe);
    var all := StoredPrefixes(n, probe, 0);
    if all != [] {
      assert all[|all| - 1] in all;
    }
    forall k | k in View(n) && k <= probe
      ensures all != [] && |k| <= |all[|all| - 1].key|
    {
      var i :| 0 <= i < |all| && all[i] == Entry(k, View(n)[k]);
    }
  }

  /** The matches at and below the node that the first `depth` bytes of the probe lead to. */
  ghost function Ahead<V>(n: Node<V>, probe: Key, depth: nat): seq<Entry<V>>
    requires depth <= |probe|
  {
    Prepend(probe[..depth], OnTheWay(n, probe[depth..]))
  }

  lemma AheadStart<V>(n: Node<V>, probe: Key)
    requires WellFormed(n)
    ensures Ahead(n, probe, 0) == StoredPrefixes(n, probe, 0)
  {
    assert probe[0..] == probe;
    PrependNothing(OnTheWay(n, probe));
    OnTheWayStored(n, probe);
  }

  /** One node of the way: its value, then what is ahead below it. */
  lemma AheadStep<V>(n: Node<V>, probe: Key, depth: nat)
    requires depth <= |probe| && WellFormed(n)
    ensures CommonPrefix(n.prefix, probe[depth..]) != |n.prefix| ==> Ahead(n, probe, depth) == []
    ensures CommonPrefix(n.prefix, probe[depth..]) == |n.prefix| ==>
              var to := depth + |n.prefix|;
              && to <= |probe| && probe[..to] == probe[..depth] + n.prefix
              && Ahead(n, probe, depth) ==
                 (if n.value.Some? then [Entry(probe[..to], n.value.value)] else [])
                 + (if to < |probe| && probe[to] in Kids(n) then Ahead(Kids(n)[probe[to]], probe, to) else [])
              && (to < |probe| && probe[to] in Kids(n) ==> WellFormed(Kids(n)[probe[to]]))
  {
    if CommonPrefix(n.prefix, probe[depth..]) == |n.prefix| {
      AheadHit(n, probe, depth);
    }
  }

  lemma AheadHit<V>(n: Node<V>, probe: Key, depth: nat)
    requires depth <= |probe| && n.prefix <= probe[depth..]
    ensures var to := depth + |n.prefix|;
            && to <= |probe| && probe[..to] == probe[..depth] + n.prefix
            && Ahead(n, probe, depth) ==
               (if n.value.Some? then [Entry(probe[..to], n.value.value)] else [])
               + (if to < |probe| && probe[to] in Kids(n) then Ahead(Kids(n)[probe[to]], probe, to) else [])
  {
    var to := depth + |n.prefix|;
    var own := if n.value.Some? then [Entry(n.prefix, n.value.value)] else [];
    assert probe[..to] == probe[..depth] + n.prefix;
    assert probe[depth..][|n.prefix|..] == probe[to..];
    if to < |probe| && probe[to] in Kids(n) {
      var below := OnTheWay(Kids(n)[probe[to]], probe[to..]);
      PrependAppend(probe[..depth], own, Prepend(n.prefix, below));
      PrependPrepend(probe[..depth], n.prefix, below);
    }
  }

  // ----- The iterator -----

  class PrefixMatchIter<V> {
    var curNode: Option<Node<V>>
    const probe: Key
    var curKey: Key
    var depth: nat

    ghost predicate Valid()
      reads this
    {
      && depth <= |probe| && curKey == probe[..depth]
      && (curNode.Some? ==> WellFormed(curNode.value))
    }

    ghost function Remaining(): seq<Entry<V>>
      requires Valid()
      reads this
    {
      if curNode.None? then [] else Ahead(curNode.value, probe, depth)
    }

    constructor (node: Option<Node<V>>, probe: Key)
      requires node.Some? ==> WellFormed(node.value)
      ensures Valid()
      ensures Remaining() == if node.Some? then StoredPrefixes(node.value, probe, 0) else []
      ensures ListsPrefixes(Remaining(), if node.Some? then View(node.value) else map[], probe)
    {
      hide ListsPrefixes, View;
      curNode, this.probe, curKey, depth := node, probe, [], 0;
      new;
      if node.Some? {
        AheadStart(node.value, probe);
        PrefixesStored(node.value, probe);
      } else {
        NoPrefixes<V>(probe);
      }
    }

    ghost function Work(): nat
      reads this
    {
      if curNode.Some? then F.Size(curNode.value) else 0
    }

    method Next() returns (r: Option<Entry<V>>)
      requires Valid()
      modifies this
      ensures Valid()
      ensures I.Yields(old(Remaining()), r, Remaining())
    {
      hide Valid, Remaining, Work;
      while curNode.Some?
        invariant Valid() && Remaining() == old(Remaining())
        decreases Work()
      {
        var value := Advance();
        if value.Some? {
          return Some(Entry(curKey, value.value));
        }
      }
      NothingAhead();
      r := None;
    }

    lemma NothingAhead()
      requires Valid() && curNode.None?
      ensures Remaining() == []
    {
    }

    /** Moves one node down the way of the probe and reports the value of the node it leaves. */
    method Advance() returns (value: Option<V>)
      requires Valid() && curNode.Some?
      modifies this
      ensures Valid() && Work() < old(Work())
      ensures if value.Some? then old(Remaining()) == [Entry(curKey, value.value)] + Remaining()
              else old(Remaining()) == Remaining()
    {
      hide WellFormed, Ahead, F.Size;
      var node := curNode.value;
      var prefixLen, remainingLen := |node.prefix|, |probe| - depth;
      AheadStep(node, probe, depth);
      F.KidsSmaller(node);
      if CommonPrefix(node.prefix, probe[depth..]) != prefixLen {
        curNode := None;
        return None;
      }
      curKey := curKey + node.prefix;
      depth := depth + prefixLen;
      curNode := if prefixLen == remainingLen || probe[depth] !in Kids(node) then None
                 else Some(Kids(node)[probe[depth]]);
      value := node.value;
      if value.None? {
        assert [] + Remaining() == Remaining();
      }
    }
  }

  /** Visits the stored prefixes; the callback is lent a slice of the probe. */
  method PrefixMatchForEach<V>(root: Node<V>, key: Key) returns (visited: seq<Entry<V>>)
    requires WellFormed(root)
    ensures visited == StoredPrefixes(root, key, 0)
    ensures ListsPrefixes(visited, View(root), key)
  {
    hide Ahead, StoredPrefixes, View, ListsPrefixes;
    var cur := root;
    var depth: nat := 0;
    visited := [];
    AheadStart(root, key);
    while true
      invariant depth <= |key| && WellFormed(cur)
      invariant visited + Ahead(cur, key, depth) == StoredPrefixes(root, key, 0)
      decreases cur
    {
      hide WellFormed;
      AheadStep(cur, key, depth);
      if CommonPrefix(cur.prefix, key[depth..]) != |cur.prefix| {
        break;
      }
      var matchedLen := depth + |cur.prefix|;
      if cur.value.Some? {
        visited := visited + [Entry(key[..matchedLen], cur.value.value)];
      }
      if matchedLen == |key| || key[matchedLen] !in Kids(cur) {
        break;
      }
      depth, cur := matchedLen, Kids(cur)[key[matchedLen]];
    }
    PrefixesStored(root, key);
  }

  // ----- The longest match -----

  function Last<T>(s: seq<T>): Option<T> {
    if s == [] then None else Some(s[|s| - 1])
  }

  /** The last of what is known and what follows. */
  function LastOf<T>(best: Option<T>, s: seq<T>): Option<T> {
    if s == [] then best else Last(s)
  }

  method LongestPrefixMatch<V>(root: Node<V>, key: Key) returns (best: Option<Entry<V>>)
    requires WellFormed(root)
    ensures best == Last(StoredPrefixes(root, key, 0))
    ensures best.None? ==> forall k :: k in View(root) ==> !(k <= key)
    ensures best.Some? ==>
              best.value.key <= key && best.value.key in View(root) && View(root)[best.value.key] == best.value.value
    ensures best.Some? ==> forall k :: k in View(root) && k <= key ==> |k| <= |best.value.key|
  {
    hide Ahead, StoredPrefixes, View;
    var cur := root;
    var curKey := cur.prefix;
    var depth: nat := 0;
    best := None;
    AheadStart(root, key);
    while true
      invariant depth <= |key| && WellFormed(cur) && curKey == key[..depth] + cur.prefix
      invariant LastOf(best, Ahead(cur, key, depth)) == Last(StoredPrefixes(root, key, 0))
      decreases cur
    {
      hide WellFormed;
      AheadStep(cur, key, depth);
      if CommonPrefix(cur.prefix, key[depth..]) != |cur.prefix| {
        break;
      }
      if cur.value.Some? {
        best := Some(Entry(curKey, cur.value.value));
      }
      if |cur.prefix| == |key| - depth {
        break;
      }
      var k := key[depth + |cur.prefix|];
      depth := depth + |cur.prefix|;
      if k !in Kids(cur) {
        break;
      }
      cur := Kids(cur)[k];
      curKey := curKey + cur.prefix;
    }
    LastIsLongest(root, key);
  }

  /** The value alone, without a key buffer. */
  method LongestPrefixValue<V>(root: Node<V>, key: Key) returns (best: Option<V>)
    requires WellFormed(root)
    ensures best == match Last(StoredPrefixes(root, key, 0)) case None => None case Some(e) => Some(e.value)
    ensures best.None? ==> forall k :: k in View(root) ==> !(k <= key)
    ensures best.Some? ==>
              exists longest ::
                && longest in View(root) && longest <= key && View(root)[longest] == best.value
                && forall k :: k in View(root) && k <= key ==> |k| <= |longest|
  {
    hide Ahead, StoredPrefixes, View;
    var cur := root;
    var depth: nat := 0;
    best := None;
    ghost var found: Option<Entry<V>> := None;
    AheadStart(root, key);
    while true
      invariant depth <= |key| && WellFormed(cur)
      invariant LastOf(found, Ahead(cur, key, depth)) == Last(StoredPrefixes(root, key, 0))
      invariant best == match found case None => None case Some(e) => Some(e.value)
      decreases cur
    {
      hide WellFormed;
      AheadStep(cur, key, depth);
      if CommonPrefix(cur.prefix, key[depth..]) != |cur.prefix| {
        break;
      }
      if cur.value.Some? {
        best := cur.value;
        found := Some(Entry(key[..depth] + cur.prefix, cur.value.value));
      }
      if |cur.prefix| == |key| - depth {
        break;
      }
      var k := key[depth + |cur.prefix|];
      depth := depth + |cur.prefix|;
      if k !in Kids(cur) {
        break;
      }
      cur := Kids(cur)[k];
    }
    LastIsLongest(root, key);
  }

  /** The match as segments: the list goes on growing after the best match was noted. */
  method LongestPrefixMatchLending<V>(root: Node<V>, key: Key) returns (shown: Option<L.View<V>>)
    requires WellFormed(root)
    ensures match Last(StoredPrefixes(root, key, 0))
            case None => shown.None?
            case Some(e) =>
              shown.Some? && Entry(L.Join(shown.value.segments), shown.value.value) == e && shown.value.len == |e.key|
    ensures shown.None? ==> forall k :: k in View(root) ==> !(k <= key)
    ensures shown.Some? ==>
              var found := L.Join(shown.value.segments);
              && found <= key && found in View(root) && View(root)[found] == shown.value.value
              && forall k :: k in View(root) && k <= key ==> |k| <= |found|
  {
    hide Ahead, StoredPrefixes, L.Join, L.Pushed, View;
    var cur := root;
    var curSegments, curLen := L.Pushed([], root.prefix), |root.prefix|;
    var depth: nat := 0;
    var best: Option<(nat, nat, V)> := None;
    ghost var found: Option<Entry<V>> := None;
    L.FirstSegment(root.prefix);
    AheadStart(root, key);
    while true
      invariant depth <= |key| && WellFormed(cur)
      invariant L.Join(curSegments) == key[..depth] + cur.prefix && curLen == |L.Join(curSegments)|
      invariant LastOf(found, Ahead(cur, key, depth)) == Last(StoredPrefixes(root, key, 0))
      invariant found.None? <==> best.None?
      invariant best.Some? ==>
                  && best.value.0 <= |curSegments| && best.value.1 == |found.value.key|
                  && best.value.2 == found.value.value
                  && L.Join(curSegments[..best.value.0]) == found.value.key
      decreases cur
    {
      hide WellFormed;
      AheadStep(cur, key, depth);
      if CommonPrefix(cur.prefix, key[depth..]) != |cur.prefix| {
        break;
      }
      if cur.value.Some? {
        best := Some((|curSegments|, curLen, cur.value.value));
        found := Some(Entry(key[..depth] + cur.prefix, cur.value.value));
        assert curSegments[..|curSegments|] == curSegments;
      }
      if |cur.prefix| == |key| - depth {
        break;
      }
      var k := key[depth + |cur.prefix|];
      depth := depth + |cur.prefix|;
      if k !in Kids(cur) {
        break;
      }
      cur := Kids(cur)[k];
      L.JoinPush(curSegments, cur.prefix);
      ghost var before := curSegments;
      curSegments, curLen := curSegments + [cur.prefix], curLen + |cur.prefix|;
      assert best.Some? ==> curSegments[..best.value.0] == before[..best.value.0];
    }
    LastIsLongest(root, key);
    shown := None;
    if best.Some? {
      shown := Some(L.View(curSegments[..best.value.0], best.value.1, best.value.2));
    }
  }

}
