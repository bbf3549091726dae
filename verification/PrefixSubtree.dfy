/** Entries below a prefix, including a prefix that ends inside a compressed edge. */
module PrefixSubtree {
  import opened Wrappers
  import opened Bytes
  import opened Node
  import opened Entries
  import I = Iter
  import L = Lending
  import R = Range
  import T = Tree
  import VI = ValuesIter

  /** The entries of a listing whose keys start with `prefix`. */
  ghost function Under<V>(es: seq<Entry<V>>, prefix: Key): seq<Entry<V>> {
    if es == [] then []
    else (if prefix <= es[0].key then [es[0]] else []) + Under(es[1..], prefix)
  }

  lemma {:induction false} UnderAppend<V>(s: seq<Entry<V>>, t: seq<Entry<V>>, prefix: Key)
    ensures Under(s + t, prefix) == Under(s, prefix) + Under(t, prefix)
  {
    if s == [] {
      assert s + t == t;
    } else {
      assert (s + t)[1..] == s[1..] + t;
      UnderAppend(s[1..], t, prefix);
    }
  }

  lemma {:induction false} UnderAll<V>(es: seq<Entry<V>>, prefix: Key)
    requires forall i :: 0 <= i < |es| ==> prefix <= es[i].key
    ensures Under(es, prefix) == es
  {
    if es != [] {
      UnderAll(es[1..], prefix);
    }
  }

  lemma {:induction false} UnderNone<V>(es: seq<Entry<V>>, prefix: Key)
    requires forall i :: 0 <= i < |es| ==> !(prefix <= es[i].key)
    ensures Under(es, prefix) == []
  {
    if es != [] {
      UnderNone(es[1..], prefix);
    }
  }

  lemma {:induction false} UnderPrepend<V>(p: Key, es: seq<Entry<V>>, prefix: Key)
    ensures Under(Prepend(p, es), p + prefix) == Prepend(p, Under(es, prefix))
  {
    if es != [] {
      assert Prepend(p, es)[1..] == Prepend(p, es[1..]);
      UnderPrepend(p, es[1..], prefix);
      var k := es[0].key;
      assert p + prefix <= p + k <==> prefix <= k by {
        assert (p + k)[|p|..] == k && (p + prefix)[|p|..] == prefix;
        if p + prefix <= p + k {
          assert (p + k)[..|p + prefix|] == p + prefix;
          assert k[..|prefix|] == (p + k)[|p|..|p + prefix|] == prefix;
        }
        if prefix <= k {
          assert p + k == p + prefix + k[|prefix|..];
        }
      }
    }
  }

  lemma {:induction false} UnderIn<V>(es: seq<Entry<V>>, prefix: Key, e: Entry<V>)
    ensures e in Under(es, prefix) <==> e in es && prefix <= e.key
  {
    if es != [] {
      UnderIn(es[1..], prefix, e);
      assert es == [es[0]] + es[1..];
    }
  }

  lemma {:induction false} UnderSorted<V>(es: seq<Entry<V>>, prefix: Key)
    requires Sorted(es)
    ensures Sorted(Under(es, prefix))
    decreases |es|
  {
    if es != [] {
      UnderSorted(es[1..], prefix);
      forall e | e in Under(es[1..], prefix)
        ensures Less(es[0].key, e.key)
      {
        UnderIn(es[1..], prefix, e);
      }
      FirstSorted(es[0], Under(es[1..], prefix));
    }
  }

  lemma FirstSorted<V>(first: Entry<V>, rest: seq<Entry<V>>)
    requires Sorted(rest) && forall e :: e in rest ==> Less(first.key, e.key)
    ensures Sorted([first] + rest)
  {
  }

  /** `es` lists, in ascending order, exactly the part of `m` whose keys start with `prefix`. */
  ghost predicate ListsUnder<V>(es: seq<Entry<V>>, m: map<Key, V>, prefix: Key) {
    && Sorted(es)
    && (forall e :: e in es ==> e.key in m && m[e.key] == e.value && prefix <= e.key)
    && (forall k :: k in m && prefix <= k ==> Entry(k, m[k]) in es)
  }

  /** The entries of a tree under a prefix are the part of the stored map under it. */
  lemma UnderStored<V>(root: Option<Node<V>>, prefix: Key)
    requires root.Some? ==> WellFormed(root.value)
    ensures ListsUnder(Under(R.Listing(root), prefix), T.RootView(root), prefix)
  {
    hide WellFormed, Under, View, Lookup, Entries.Entries;
    var es, m := R.Listing(root), T.RootView(root);
    if root.None? {
      UnderNone(es, prefix);
      return;
    }
    EntriesSorted(root.value);
    UnderSorted(es, prefix);
    forall e | e in Under(es, prefix)
      ensures e.key in m && m[e.key] == e.value && prefix <= e.key
    {
      UnderIn(es, prefix, e);
      EntriesLookup(root.value, e.key, e.value);
      ViewLookup(root.value, e.key);
    }
    forall k | k in m && prefix <= k
      ensures Entry(k, m[k]) in Under(es, prefix)
    {
      UnderIn(es, prefix, Entry(k, m[k]));
      EntriesLookup(root.value, k, m[k]);
      ViewLookup(root.value, k);
    }
  }

  lemma EntriesSplit<V>(n: Node<V>)
    ensures Entries.Entries(n) == Prepend(n.prefix, Own(n) + ChildEntries(n, 0))
  {
  }

  /** The prefix ends within the node's own: everything below the node is under it. */
  lemma Covered<V>(n: Node<V>, prefix: Key)
    requires CommonPrefix(n.prefix, prefix) == |prefix|
    ensures Under(Entries.Entries(n), prefix) == Entries.Entries(n)
  {
    hide CommonPrefix, ChildEntries, Entries.Entries, Own;
    assert prefix <= n.prefix;
    EntriesSplit(n);
    CoveredPart(n.prefix, Own(n) + ChildEntries(n, 0), prefix);
  }

  lemma CoveredPart<V>(p: Key, es: seq<Entry<V>>, prefix: Key)
    requires prefix <= p
    ensures Under(Prepend(p, es), prefix) == Prepend(p, es)
  {
    forall i | 0 <= i < |es|
      ensures prefix <= Prepend(p, es)[i].key
    {
      assert Prepend(p, es)[i].key == p + es[i].key;
    }
    UnderAll(Prepend(p, es), prefix);
  }

  /** The prefix parts from the node's own: nothing below the node is under it. */
  lemma Disjoint<V>(n: Node<V>, prefix: Key)
    requires CommonPrefix(n.prefix, prefix) < |n.prefix| && CommonPrefix(n.prefix, prefix) < |prefix|
    ensures Under(Entries.Entries(n), prefix) == []
  {
    var es, at := Entries.Entries(n), CommonPrefix(n.prefix, prefix);
    forall i | 0 <= i < |es|
      ensures !(prefix <= es[i].key)
    {
      assert es[i].key[at] == n.prefix[at];
    }
    UnderNone(es, prefix);
  }

  /** The prefix goes on beyond the node: only the child under its next byte counts. */
  lemma Beyond<V>(n: Node<V>, prefix: Key)
    requires WellFormed(n) && n.prefix < prefix
    ensures var k, rest := prefix[|n.prefix|], prefix[|n.prefix|..];
            Under(Entries.Entries(n), prefix) ==
            if k in Kids(n) then Prepend(n.prefix, Under(Entries.Entries(Kids(n)[k]), rest)) else []
  {
    hide WellFormed, Entries.Entries, ChildEntries;
    var k, rest := prefix[|n.prefix|], prefix[|n.prefix|..];
    assert prefix == n.prefix + rest;
    EntriesSplit(n);
    UnderPrepend(n.prefix, Own(n) + ChildEntries(n, 0), rest);
    UnderAppend(Own(n), ChildEntries(n, 0), rest);
    UnderNone(Own(n), rest);
    UnderChild(n, 0, rest);
  }

  lemma {:induction false} UnderChild<V>(n: Node<V>, from: nat, rest: Key)
    requires WellFormed(n) && from <= 256 && rest != []
    ensures Under(ChildEntries(n, from), rest) ==
            if rest[0] in Kids(n) && from <= rest[0] then Under(Entries.Entries(Kids(n)[rest[0]]), rest) else []
    decreases 256 - from
  {
    hide WellFormed, Entries.Entries;
    if from < 256 {
      UnderChild(n, from + 1, rest);
      if from in Kids(n) {
        var child := Kids(n)[from];
        KidOk(n, from);
        UnderAppend(Entries.Entries(child), ChildEntries(n, from + 1), rest);
        if from != rest[0] {
          EntriesEdge(child, from);
          UnderNone(Entries.Entries(child), rest);
        }
      } else {
        assert [] + ChildEntries(n, from + 1) == ChildEntries(n, from + 1);
      }
    }
  }

  // ----- The walk to the subtree -----

  /** The entries under the prefix, seen from the node that its first `depth` bytes lead to. */
  ghost function UnderFrom<V>(n: Node<V>, prefix: Key, depth: nat): seq<Entry<V>>
    requires depth <= |prefix|
  {
    Prepend(prefix[..depth], Under(Entries.Entries(n), prefix[depth..]))
  }

  lemma UnderStart<V>(n: Node<V>, prefix: Key)
    ensures UnderFrom(n, prefix, 0) == Under(Entries.Entries(n), prefix)
  {
    assert prefix[0..] == prefix;
    PrependNothing(Under(Entries.Entries(n), prefix));
  }

  lemma EntriesAt<V>(p: Key, n: Node<V>)
    ensures Prepend(p, Entries.Entries(n)) == Prepend(p + n.prefix, Own(n) + ChildEntries(n, 0))
  {
    PrependPrepend(p, n.prefix, Own(n) + ChildEntries(n, 0));
  }

  lemma UnderStep<V>(n: Node<V>, prefix: Key, depth: nat)
    requires depth <= |prefix| && WellFormed(n)
    ensures var common := CommonPrefix(n.prefix, prefix[depth..]);
            if common == |prefix| - depth then
              UnderFrom(n, prefix, depth) == Prepend(prefix[..depth] + n.prefix, Own(n) + ChildEntries(n, 0))
            else if common != |n.prefix| then
              UnderFrom(n, prefix, depth) == []
            else
              var to := depth + common;
              && prefix[..to] == prefix[..depth] + n.prefix
              && UnderFrom(n, prefix, depth) ==
                 (if prefix[to] in Kids(n) then UnderFrom(Kids(n)[prefix[to]], prefix, to) else [])
              && (prefix[to] in Kids(n) ==> WellFormed(Kids(n)[prefix[to]]))
  {
    hide Under, Entries.Entries, WellFormed, ChildEntries, Own;
    var p, q := prefix[..depth], prefix[depth..];
    var common := CommonPrefix(n.prefix, q);
    if common == |q| {
      Covered(n, q);
      EntriesAt(p, n);
    } else if common != |n.prefix| {
      Disjoint(n, q);
    } else {
      var to := depth + common;
      Beyond(n, q);
      assert prefix[..to] == p + n.prefix;
      assert q[common..] == prefix[to..];
      if prefix[to] in Kids(n) {
        KidOk(n, prefix[to]);
        PrependPrepend(p, n.prefix, Under(Entries.Entries(Kids(n)[prefix[to]]), prefix[to..]));
      }
    }
  }

  method FindPrefixSubtree<V>(root: Node<V>, prefix: Key) returns (r: Option<(Node<V>, Key)>)
    requires WellFormed(root)
    ensures match r
            case None => Under(Entries.Entries(root), prefix) == []
            case Some((node, key)) =>
              && WellFormed(node)
              && Prepend(key, Own(node) + ChildEntries(node, 0)) == Under(Entries.Entries(root), prefix)
  {
    hide Under, Entries.Entries, UnderFrom, ChildEntries;
    var cur, curKey := root, root.prefix;
    var depth: nat := 0;
    UnderStart(root, prefix);
    while true
      invariant depth <= |prefix| && WellFormed(cur) && curKey == prefix[..depth] + cur.prefix
      invariant UnderFrom(cur, prefix, depth) == Under(Entries.Entries(root), prefix)
      decreases cur
    {
      hide WellFormed;
      UnderStep(cur, prefix, depth);
      var common := CommonPrefix(cur.prefix, prefix[depth..]);
      if common != |cur.prefix| {
        if common == |prefix| - depth {
          return Some((cur, curKey));
        }
        return None;
      }
      if |cur.prefix| == |prefix| - depth {
        return Some((cur, curKey));
      }
      var k := prefix[depth + |cur.prefix|];
      depth := depth + |cur.prefix|;
      if k !in Kids(cur) {
        return None;
      }
      cur := Kids(cur)[k];
      curKey := curKey + cur.prefix;
    }
  }

  lemma SubtreeValues<V>(n: Node<V>, key: Key)
    ensures VI.ValuesOf(Prepend(key, Own(n) + ChildEntries(n, 0))) == VI.ValuesOf(Entries.Entries(n))
  {
    VI.ValuesPrepend(key, Own(n) + ChildEntries(n, 0));
    VI.ValuesPrepend(n.prefix, Own(n) + ChildEntries(n, 0));
  }

  /** A step of the walk, seen from the values alone. */
  lemma ValuesStep<V>(n: Node<V>, prefix: Key, depth: nat)
    requires depth <= |prefix| && WellFormed(n)
    ensures var common := CommonPrefix(n.prefix, prefix[depth..]);
            var values := VI.ValuesOf(UnderFrom(n, prefix, depth));
            if common == |prefix| - depth then values == VI.ValuesOf(Entries.Entries(n))
            else if common != |n.prefix| || prefix[depth + common] !in Kids(n) then values == []
            else
              var child := Kids(n)[prefix[depth + common]];
              WellFormed(child) && values == VI.ValuesOf(UnderFrom(child, prefix, depth + common))
  {
    hide UnderFrom, Entries.Entries, ChildEntries, Own, VI.ValuesOf, WellFormed;
    UnderStep(n, prefix, depth);
    SubtreeValues(n, prefix[..depth] + n.prefix);
    VI.NoEntries<V>();
  }

  method FindPrefixSubtreeNode<V>(root: Node<V>, prefix: Key) returns (r: Option<Node<V>>)
    requires WellFormed(root)
    ensures r.Some? ==> WellFormed(r.value)
    ensures VI.ValuesOf(Under(Entries.Entries(root), prefix)) ==
            if r.Some? then VI.ValuesOf(Entries.Entries(r.value)) else []
  {
    hide Under, Entries.Entries, UnderFrom, ChildEntries, VI.ValuesOf;
    var cur := root;
    var depth: nat := 0;
    UnderStart(root, prefix);
    while true
      invariant depth <= |prefix| && WellFormed(cur)
      invariant VI.ValuesOf(UnderFrom(cur, prefix, depth)) == VI.ValuesOf(Under(Entries.Entries(root), prefix))
      decreases cur
    {
      hide WellFormed;
      ValuesStep(cur, prefix, depth);
      var common := CommonPrefix(cur.prefix, prefix[depth..]);
      if common != |cur.prefix| {
        if common == |prefix| - depth {
          return Some(cur);
        }
        return None;
      }
      if |cur.prefix| == |prefix| - depth {
        return Some(cur);
      }
      var k := prefix[depth + |cur.prefix|];
      depth := depth + |cur.prefix|;
      if k !in Kids(cur) {
        return None;
      }
      cur := Kids(cur)[k];
    }
  }

  method FindPrefixSubtreeView<V>(root: Node<V>, prefix: Key) returns (r: Option<(Node<V>, seq<Key>, nat)>)
    requires WellFormed(root)
    ensures match r
            case None => Under(Entries.Entries(root), prefix) == []
            case Some((node, segments, len)) =>
              && WellFormed(node) && len == |L.Join(segments)|
              && Prepend(L.Join(segments), Own(node) + ChildEntries(node, 0)) == Under(Entries.Entries(root), prefix)
  {
    hide Under, Entries.Entries, UnderFrom, ChildEntries, L.Join;
    var cur, curSegments, curLen := root, L.Pushed([], root.prefix), |root.prefix|;
    var depth: nat := 0;
    UnderStart(root, prefix);
    L.FirstSegment(root.prefix);
    while true
      invariant depth <= |prefix| && WellFormed(cur)
      invariant L.Join(curSegments) == prefix[..depth] + cur.prefix && curLen == |L.Join(curSegments)|
      invariant UnderFrom(cur, prefix, depth) == Under(Entries.Entries(root), prefix)
      decreases cur
    {
      hide WellFormed;
      UnderStep(cur, prefix, depth);
      var common := CommonPrefix(cur.prefix, prefix[depth..]);
      if common != |cur.prefix| {
        if common == |prefix| - depth {
          return Some((cur, curSegments, curLen));
        }
        return None;
      }
      if |cur.prefix| == |prefix| - depth {
        return Some((cur, curSegments, curLen));
      }
      var k := prefix[depth + |cur.prefix|];
      depth := depth + |cur.prefix|;
      if k !in Kids(cur) {
        return None;
      }
      cur := Kids(cur)[k];
      L.PushSegment<V>([], curSegments, cur.prefix);
      curSegments, curLen := L.Pushed(curSegments, cur.prefix), curLen + |cur.prefix|;
    }
  }

  // ----- The queries -----

  /** Iterates over exactly the entries whose keys start with `prefix`. */
  method PrefixIter<V>(root: Option<Node<V>>, prefix: Key) returns (iter: I.Iter<V>)
    requires root.Some? ==> WellFormed(root.value)
    ensures iter.Valid() && fresh(iter) && fresh(iter.children)
    ensures iter.Remaining() == Under(R.Listing(root), prefix)
    ensures ListsUnder(iter.Remaining(), T.RootView(root), prefix)
  {
    hide WellFormed, ListsUnder;
    UnderStored(root, prefix);
    if root.None? {
      iter := new I.Iter<V>.New(None);
      return;
    }
    var subtree := FindPrefixSubtree(root.value, prefix);
    if subtree.None? {
      iter := new I.Iter<V>.New(None);
      return;
    }
    iter := new I.Iter<V>.NewWithPrefix(subtree.value.0, subtree.value.1);
  }

  /** Shows exactly the entries whose keys start with `prefix`, keys in segments. */
  method PrefixForEachView<V>(root: Option<Node<V>>, prefix: Key) returns (visited: seq<L.View<V>>)
    requires root.Some? ==> WellFormed(root.value)
    ensures L.LengthsOk(visited) && L.Shown(visited) == Under(R.Listing(root), prefix)
    ensures ListsUnder(L.Shown(visited), T.RootView(root), prefix)
  {
    hide WellFormed, ListsUnder;
    UnderStored(root, prefix);
    visited := [];
    if root.None? {
      return;
    }
    var subtree := FindPrefixSubtreeView(root.value, prefix);
    match subtree
    case None =>
    case Some((node, segments, len)) =>
      visited := L.ForEachWithPrefix(Some(node), segments, len);
  }

  datatype VisitControl = Continue | Stop

  /** How many of the values a callback gets to see before it stops or fails. */
  ghost function SeenBy<V, E>(values: seq<V>, callback: V -> Result<VisitControl, E>): nat {
    if values == [] then 0
    else if callback(values[0]) == Ok(Continue) then 1 + SeenBy(values[1..], callback)
    else 1
  }

  /** What the callback that ended the visit returned, if it failed. */
  ghost function Verdict<V, E>(values: seq<V>, callback: V -> Result<VisitControl, E>): Result<(), E> {
    if values == [] then Ok(())
    else
      match callback(values[0])
      case Err(e) => Err(e)
      case Ok(Stop) => Ok(())
      case Ok(Continue) => Verdict(values[1..], callback)
  }

  /** A visit that is never stopped sees everything. */
  lemma {:induction false} SeenAll<V, E>(values: seq<V>, callback: V -> Result<VisitControl, E>)
    requires forall j :: 0 <= j < |values| ==> callback(values[j]) == Ok(Continue)
    ensures SeenBy(values, callback) == |values| && Verdict(values, callback) == Ok(())
  {
    if values != [] {
      SeenAll(values[1..], callback);
    }
  }

  /** The first value that stops the visit is the last one seen. */
  lemma {:induction false} SeenUntil<V, E>(values: seq<V>, i: nat, callback: V -> Result<VisitControl, E>)
    requires i < |values| && callback(values[i]) != Ok(Continue)
    requires forall j :: 0 <= j < i ==> callback(values[j]) == Ok(Continue)
    ensures SeenBy(values, callback) == i + 1
    ensures Verdict(values, callback) == match callback(values[i]) case Err(e) => Err(e) case Ok(_) => Ok(())
  {
    if i > 0 {
      SeenUntil(values[1..], i - 1, callback);
    }
  }

  /** Offers the values of an iterator one by one until the callback stops or fails. */
  method VisitValues<V, E>(iter: VI.ValuesIter<V>, callback: V -> Result<VisitControl, E>)
    returns (visited: seq<V>, r: Result<(), E>)
    requires iter.Valid()
    modifies iter
    ensures SeenBy(old(iter.Remaining()), callback) <= |old(iter.Remaining())|
    ensures visited == old(iter.Remaining())[..SeenBy(old(iter.Remaining()), callback)]
    ensures r == Verdict(old(iter.Remaining()), callback)
  {
    hide SeenBy, Verdict, VI.ItersOk, VI.PendingValues;
    ghost var values := iter.Remaining();
    visited, r := [], Ok(());
    while true
      invariant iter.Valid() && values == visited + iter.Remaining()
      invariant forall j :: 0 <= j < |visited| ==> callback(values[j]) == Ok(Continue)
      decreases |iter.Remaining()|
    {
      ghost var seen := visited;
      var value := iter.Next();
      if value.None? {
        assert values == visited;
        SeenAll(values, callback);
        return;
      }
      assert values == seen + [value.value] + iter.Remaining();
      visited := visited + [value.value];
      var control := callback(value.value);
      if control != Ok(Continue) {
        SeenUntil(values, |seen|, callback);
        r := match control case Err(e) => Err(e) case Ok(_) => Ok(());
        return;
      }
    }
  }

  /** Visits the values under a prefix, until the callback stops or fails. */
  method TryPrefixValuesForEach<V, E>(root: Option<Node<V>>, prefix: Key, callback: V -> Result<VisitControl, E>)
    returns (visited: seq<V>, r: Result<(), E>)
    requires root.Some? ==> WellFormed(root.value)
    ensures var values := VI.ValuesOf(Under(R.Listing(root), prefix));
            && SeenBy(values, callback) <= |values|
            && visited == values[..SeenBy(values, callback)]
            && r == Verdict(values, callback)
  {
    hide WellFormed, Under, Entries.Entries;
    visited, r := [], Ok(());
    if root.None? {
      UnderNone<V>([], prefix);
      return;
    }
    var subtree := FindPrefixSubtreeNode(root.value, prefix);
    if subtree.Some? {
      var iter := new VI.ValuesIter<V>.New(subtree);
      visited, r := VisitValues(iter, callback);
    }
  }
}
