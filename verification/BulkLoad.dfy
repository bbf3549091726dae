/** Building a tree bottom-up from strictly sorted entries. */
module BulkLoad {
  import opened Wrappers
  import opened Bytes
  import opened Node
  import opened Operations
  import opened Entries
  import opened CanonicalForm
  import opened Tree

  /** The keys of items[start..end] without their first `depth` bytes are strictly ascending. */
  ghost predicate SortedFrom<V>(items: seq<Entry<V>>, start: nat, end: nat, depth: nat) {
    && start <= end <= |items|
    && (forall i :: start <= i < end ==> depth <= |items[i].key|)
    && (forall i, j :: start <= i < j < end ==> Less(items[i].key[depth..], items[j].key[depth..]))
  }

  /** The value of the key that continues with `q` after its first `depth` bytes. */
  ghost function FindIn<V>(items: seq<Entry<V>>, start: nat, end: nat, depth: nat, q: Key): Option<V>
    requires start <= end <= |items|
    decreases end - start
  {
    if start == end then None
    else if depth <= |items[start].key| && items[start].key[depth..] == q then Some(items[start].value)
    else FindIn(items, start + 1, end, depth, q)
  }

  /** `n` answers exactly from items[start..end], keys taken from `depth` on. */
  ghost predicate Holds<V>(n: Node<V>, items: seq<Entry<V>>, start: nat, end: nat, depth: nat)
    requires start <= end <= |items|
  {
    forall q :: Lookup(n, q) == FindIn(items, start, end, depth, q)
  }

  lemma {:induction false} FindInSplit<V>(items: seq<Entry<V>>, start: nat, mid: nat, end: nat, depth: nat, q: Key)
    requires start <= mid <= end <= |items|
    ensures FindIn(items, start, end, depth, q) ==
            if FindIn(items, start, mid, depth, q).Some? then FindIn(items, start, mid, depth, q)
            else FindIn(items, mid, end, depth, q)
    decreases mid - start
  {
    if start < mid {
      FindInSplit(items, start + 1, mid, end, depth, q);
    }
  }

  /** Keys that share `p` after `depth` are found by what follows it. */
  lemma {:induction false} FindInShared<V>(items: seq<Entry<V>>, start: nat, end: nat, depth: nat, p: Key, q: Key)
    requires start <= end <= |items|
    requires forall i :: start <= i < end ==>
               depth + |p| <= |items[i].key| && items[i].key[depth..][..|p|] == p
    ensures FindIn(items, start, end, depth, q) ==
            if p <= q then FindIn(items, start, end, depth + |p|, q[|p|..]) else None
    decreases end - start
  {
    if start < end {
      FindInShared(items, start + 1, end, depth, p, q);
      var x := items[start].key[depth + |p|..];
      assert items[start].key[depth..] == p + x;
      if p <= q {
        assert q == p + q[|p|..];
      }
    }
  }

  /** Only keys that continue with the first byte of `q` can match it. */
  lemma {:induction false} FindInOther<V>(items: seq<Entry<V>>, start: nat, end: nat, depth: nat, q: Key)
    requires start <= end <= |items|
    requires forall i :: start <= i < end ==>
               depth < |items[i].key| && (q == [] || items[i].key[depth] != q[0])
    ensures FindIn(items, start, end, depth, q) == None
    decreases end - start
  {
    if start < end {
      FindInOther(items, start + 1, end, depth, q);
    }
  }

  /** A key between two keys with a common start shares that start. */
  lemma {:induction false} Between(a: Key, b: Key, c: Key, n: nat)
    requires Less(a, b) && Less(b, c)
    requires n <= |a| && n <= |c| && a[..n] == c[..n]
    ensures n <= |b| && b[..n] == a[..n]
  {
    if n > 0 {
      assert a[0] == a[..n][0] == c[..n][0] == c[0];
      assert a[1..][..n - 1] == a[..n][1..] == c[..n][1..] == c[1..][..n - 1];
      Between(a[1..], b[1..], c[1..], n - 1);
      assert b[..n] == [b[0]] + b[1..][..n - 1];
      assert a[..n] == [a[0]] + a[1..][..n - 1];
    }
  }

  /** All keys share what the first and the last one share; only the first may end there. */
  lemma SharedPrefix<V>(items: seq<Entry<V>>, start: nat, end: nat, depth: nat, len: nat)
    requires SortedFrom(items, start, end, depth) && start + 1 < end
    requires var a, c := items[start].key[depth..], items[end - 1].key[depth..];
             len <= |a| && len <= |c| && a[..len] == c[..len]
    ensures forall i :: start <= i < end ==>
              depth + len <= |items[i].key| && items[i].key[depth..][..len] == items[start].key[depth..][..len]
    ensures forall i :: start < i < end ==> depth + len < |items[i].key|
    ensures SortedFrom(items, start, end, depth + len)
  {
    var a, c := items[start].key[depth..], items[end - 1].key[depth..];
    var p := a[..len];
    forall i | start <= i < end
      ensures depth + len <= |items[i].key| && items[i].key[depth..][..len] == p
    {
      if start < i < end - 1 {
        Between(a, items[i].key[depth..], c, len);
      }
    }
    forall i, j | start <= i < j < end
      ensures Less(items[i].key[depth + len..], items[j].key[depth + len..])
    {
      var x, y := items[i].key[depth + len..], items[j].key[depth + len..];
      assert items[i].key[depth..] == p + x && items[j].key[depth..] == p + y;
      LessPrepend(p, x, y);
    }
    forall i | start < i < end
      ensures depth + len < |items[i].key|
    {
      assert Less(items[start].key[depth + len..], items[i].key[depth + len..]);
    }
  }

  /** Number of runs of equal edge bytes in items[start..end]. */
  function GroupCount<V>(items: seq<Entry<V>>, start: nat, end: nat, depth: nat): (n: nat)
    requires start <= end <= |items|
    requires forall i :: start <= i < end ==> depth < |items[i].key|
    ensures n <= end - start
    decreases end - start
  {
    if start == end then 0
    else if start + 1 < end && items[start].key[depth] == items[start + 1].key[depth] then
      GroupCount(items, start + 1, end, depth)
    else 1 + GroupCount(items, start + 1, end, depth)
  }

  /** The counting loop of the program. */
  method ChildGroupCount<V>(items: seq<Entry<V>>, start: nat, end: nat, depth: nat) returns (count: nat)
    requires start <= end <= |items|
    requires forall i :: start <= i < end ==> depth < |items[i].key|
    ensures count == GroupCount(items, start, end, depth)
  {
    count := 0;
    var previous: Option<Byte> := None;
    var index := start;
    while index < end
      invariant start <= index <= end
      invariant previous == if index == start then None else Some(items[index - 1].key[depth])
      invariant count + GroupCount(items, index, end, depth) +
                  (if start < index < end && items[index - 1].key[depth] == items[index].key[depth] then -1 else 0)
                == GroupCount(items, start, end, depth)
    {
      var edge := items[index].key[depth];
      if previous != Some(edge) {
        count := count + 1;
        previous := Some(edge);
      }
      index := index + 1;
    }
  }

  /** A run of equal edges counts once. */
  lemma {:induction false} GroupRun<V>(items: seq<Entry<V>>, start: nat, stop: nat, end: nat, depth: nat)
    requires start < stop <= end <= |items|
    requires forall i :: start <= i < end ==> depth < |items[i].key|
    requires forall i :: start <= i < stop ==> items[i].key[depth] == items[start].key[depth]
    requires stop < end ==> items[stop].key[depth] != items[start].key[depth]
    ensures GroupCount(items, start, end, depth) == 1 + GroupCount(items, stop, end, depth)
    decreases stop - start
  {
    if start + 1 < stop {
      GroupRun(items, start + 1, stop, end, depth);
    }
  }

  /** Edge bytes do not decrease along sorted keys. */
  lemma EdgesAscend<V>(items: seq<Entry<V>>, start: nat, end: nat, depth: nat)
    requires SortedFrom(items, start, end, depth)
    requires forall i :: start <= i < end ==> depth < |items[i].key|
    ensures forall i, j :: start <= i <= j < end ==> items[i].key[depth] <= items[j].key[depth]
  {
    forall i, j | start <= i < j < end
      ensures items[i].key[depth] <= items[j].key[depth]
    {
      assert Less(items[i].key[depth..], items[j].key[depth..]);
    }
  }

  function AddChildSorted<V>(n: Node<V>, k: Byte, child: Node<V>): Node<V>
    requires n.content.Inner? && |Kids(n)| < Capacity(n.content.kind)
    requires forall e :: e in Kids(n) ==> e < k
  {
    WithChild(n, k, child)
  }

  ghost predicate ChildrenCanonical<V>(children: map<Byte, Node<V>>) {
    forall k :: k in children ==> EdgeOk(k, children[k]) && Canonical(children[k])
  }

  ghost function LookupChild<V>(children: map<Byte, Node<V>>, q: Key): Option<V> {
    if q != [] && q[0] in children then Lookup(children[q[0]], q) else None
  }

  /** The children answer exactly from items[first..pos]. */
  ghost predicate Built<V>(children: map<Byte, Node<V>>, items: seq<Entry<V>>, first: nat, pos: nat, depth: nat)
    requires first <= pos <= |items|
  {
    forall q :: LookupChild(children, q) == FindIn(items, first, pos, depth, q)
  }

  lemma BuiltNothing<V>(items: seq<Entry<V>>, first: nat, depth: nat)
    requires first <= |items|
    ensures Built(map[], items, first, first, depth) && ChildrenCanonical<V>(map[])
  {
  }

  /** One more run of items becomes one more child. */
  lemma BuiltStep<V>(children: map<Byte, Node<V>>, items: seq<Entry<V>>, first: nat, pos: nat, stop: nat, depth: nat,
                     child: Node<V>)
    requires first <= pos < stop <= |items|
    requires forall i :: first <= i < stop ==> depth < |items[i].key|
    requires forall i :: first <= i < pos ==> items[i].key[depth] != items[pos].key[depth]
    requires forall i :: pos <= i < stop ==> items[i].key[depth] == items[pos].key[depth]
    requires Built(children, items, first, pos, depth)
    requires EdgeOk(items[pos].key[depth], child) && Holds(child, items, pos, stop, depth)
    ensures Built(children[items[pos].key[depth] := child], items, first, stop, depth)
  {
    forall q
      ensures LookupChild(children[items[pos].key[depth] := child], q) == FindIn(items, first, stop, depth, q)
    {
      FindInSplit(items, first, pos, stop, depth, q);
      assert LookupChild(children, q) == FindIn(items, first, pos, depth, q);
      if q != [] && q[0] == items[pos].key[depth] {
        FindInOther(items, first, pos, depth, q);
        assert Lookup(child, q) == FindIn(items, pos, stop, depth, q);
      } else {
        FindInOther(items, pos, stop, depth, q);
      }
    }
  }

  /** The finished node answers from all items. */
  lemma BuiltHolds<V>(n: Node<V>, items: seq<Entry<V>>, start: nat, first: nat, end: nat, depth: nat)
    requires start <= first <= end <= |items|
    requires forall i :: start <= i < end ==>
               depth + |n.prefix| <= |items[i].key| && items[i].key[depth..][..|n.prefix|] == n.prefix
    requires forall i :: first <= i < end ==> depth + |n.prefix| < |items[i].key|
    requires Built(Kids(n), items, first, end, depth + |n.prefix|)
    requires if first == start then n.value == None
             else first == start + 1 && |items[start].key| == depth + |n.prefix| && n.value == Some(items[start].value)
    ensures Holds(n, items, start, end, depth)
  {
    forall q
      ensures Lookup(n, q) == FindIn(items, start, end, depth, q)
    {
      FindInShared(items, start, end, depth, n.prefix, q);
      if n.prefix <= q {
        var rest := q[|n.prefix|..];
        FindInSplit(items, start, first, end, depth + |n.prefix|, rest);
        assert LookupChild(Kids(n), rest) == FindIn(items, first, end, depth + |n.prefix|, rest);
        if rest == [] {
          FindInOther(items, first, end, depth + |n.prefix|, rest);
        }
        assert Lookup(n, q) == if rest == [] then n.value else LookupChild(Kids(n), rest);
      }
    }
  }

  lemma LeafHolds<V>(items: seq<Entry<V>>, start: nat, depth: nat)
    requires start < |items| && depth <= |items[start].key|
    ensures Holds(NewLeaf(items[start].key[depth..], items[start].value), items, start, start + 1, depth)
  {
    forall q
      ensures Lookup(NewLeaf(items[start].key[depth..], items[start].value), q)
              == FindIn(items, start, start + 1, depth, q)
    {
      LeafLookup(items[start].key[depth..], items[start].value, q);
    }
  }

  method CommonPrefixLen(left: Key, right: Key, depth: nat) returns (matched: nat)
    requires depth <= |left| && depth <= |right|
    ensures matched == CommonPrefix(left[depth..], right[depth..])
  {
    var commonLen := if |left| < |right| then |left| - depth else |right| - depth;
    matched := 0;
    while matched < commonLen && left[depth + matched] == right[depth + matched]
      invariant matched <= commonLen
      invariant left[depth..][..matched] == right[depth..][..matched]
    {
      assert left[depth..][..matched + 1] == left[depth..][..matched] + [left[depth + matched]];
      assert right[depth..][..matched + 1] == right[depth..][..matched] + [right[depth + matched]];
      matched := matched + 1;
    }
    CommonPrefixUnique(left[depth..], right[depth..], matched);
  }

  method RunEnd<V>(items: seq<Entry<V>>, start: nat, end: nat, depth: nat) returns (stop: nat)
    requires start < end <= |items|
    requires forall i :: start <= i < end ==> depth < |items[i].key|
    ensures start < stop <= end
    ensures forall i :: start <= i < stop ==> items[i].key[depth] == items[start].key[depth]
    ensures stop < end ==> items[stop].key[depth] != items[start].key[depth]
  {
    var edge := items[start].key[depth];
    stop := start + 1;
    while stop < end && items[stop].key[depth] == edge
      invariant start < stop <= end
      invariant forall i :: start <= i < stop ==> items[i].key[depth] == edge
    {
      stop := stop + 1;
    }
  }

  /** Builds the node for items[start..end], all of which continue from `depth`. */
  method BuildBulkNode<V>(items: seq<Entry<V>>, start: nat, end: nat, depth: nat) returns (node: Node<V>)
    requires start < end && SortedFrom(items, start, end, depth)
    ensures Canonical(node)
    ensures Holds(node, items, start, end, depth)
    ensures forall k: Byte :: (forall i :: start <= i < end ==> depth < |items[i].key| && items[i].key[depth] == k)
              ==> EdgeOk(k, node)
    decreases end - start, 1
  {
    hide Lookup, Less, FindIn, GroupCount, Built, CommonPrefix, Holds;
    if end - start == 1 {
      LeafHolds(items, start, depth);
      return NewLeaf(items[start].key[depth..], items[start].value);
    }
    var len := CommonPrefixLen(items[start].key, items[end - 1].key, depth);
    SharedPrefix(items, start, end, depth, len);
    var nodeDepth := depth + len;
    var prefix := items[start].key[depth..][..len];
    var hasValue := |items[start].key| - depth == len;
    var firstChild := if hasValue then start + 1 else start;
    var childCount := ChildGroupCount(items, firstChild, end, nodeDepth);
    node := NewInner(prefix);
    node := node.(content := Inner(KindFor(childCount), map[]));
    if hasValue {
      node := node.(value := Some(items[start].value));
    }
    node := AddRuns(node, items, firstChild, end, nodeDepth, childCount, end - start);
    BuiltHolds(node, items, start, firstChild, end, depth);
  }

  lemma NoGroups<V>(items: seq<Entry<V>>, end: nat, depth: nat)
    requires end <= |items|
    ensures GroupCount(items, end, end, depth) == 0
  {
  }

  lemma SortedPart<V>(items: seq<Entry<V>>, first: nat, start: nat, stop: nat, end: nat, depth: nat)
    requires SortedFrom(items, first, end, depth) && first <= start <= stop <= end
    ensures SortedFrom(items, start, stop, depth)
  {
    hide Less;
  }

  lemma RunAdded<V>(children: map<Byte, Node<V>>, items: seq<Entry<V>>, first: nat, pos: nat, stop: nat, depth: nat,
                    child: Node<V>)
    requires first <= pos < stop <= |items|
    requires forall i :: first <= i < stop ==> depth < |items[i].key|
    requires forall i :: first <= i < pos ==> items[i].key[depth] != items[pos].key[depth]
    requires forall i :: pos <= i < stop ==> items[i].key[depth] == items[pos].key[depth]
    requires Built(children, items, first, pos, depth) && ChildrenCanonical(children)
    requires items[pos].key[depth] !in children
    requires EdgeOk(items[pos].key[depth], child) && Canonical(child) && Holds(child, items, pos, stop, depth)
    ensures var after := children[items[pos].key[depth] := child];
            && Built(after, items, first, stop, depth) && ChildrenCanonical(after)
            && |after| == |children| + 1 && |children| < 256
  {
    hide Built, Canonical, Holds, EdgeOk;
    BuiltStep(children, items, first, pos, stop, depth, child);
    FreeEdgeCount(children, items[pos].key[depth], child);
  }

  /** The outer loop: one child per run of equal edge bytes. */
  method AddRuns<V>(empty: Node<V>, items: seq<Entry<V>>, first: nat, end: nat, depth: nat, count: nat, ghost size: nat)
    returns (node: Node<V>)
    requires first < end <= |items| && SortedFrom(items, first, end, depth)
    requires forall i :: first <= i < end ==> depth < |items[i].key|
    requires empty.content == Inner(KindFor(count), map[]) && count == GroupCount(items, first, end, depth)
    requires end - first < size || (end - first == size && items[first].key[depth] != items[end - 1].key[depth])
    ensures node == empty.(content := node.content) && node.content.Inner? && node.content.kind == KindFor(count)
    ensures |Kids(node)| == count >= 1
    ensures end - first == size ==> count >= 2
    ensures ChildrenCanonical(Kids(node)) && Built(Kids(node), items, first, end, depth)
    decreases size, 0
  {
    hide Built, Canonical, Less, FindIn, Holds, ChildrenCanonical, EdgeOk, GroupCount, SortedFrom;
    node := empty;
    NoGroups(items, end, depth);
    BuiltNothing<V>(items, first, depth);
    EdgesAscend(items, first, end, depth);
    var start := first;
    while start < end
      invariant first <= start <= end
      invariant node == empty.(content := node.content) && node.content.Inner? && node.content.kind == KindFor(count)
      invariant first < start < end ==> items[start - 1].key[depth] < items[start].key[depth]
      invariant |Kids(node)| + GroupCount(items, start, end, depth) == count
      invariant start > first ==> |Kids(node)| >= 1
      invariant start == end && end - first == size ==> |Kids(node)| >= 2
      invariant forall e :: e in Kids(node) ==> start > first && e <= items[start - 1].key[depth]
      invariant ChildrenCanonical(Kids(node)) && Built(Kids(node), items, first, start, depth)
      decreases end - start
    {
      var edge := items[start].key[depth];
      var stop := RunEnd(items, start, end, depth);
      GroupRun(items, start, stop, end, depth);
      SortedPart(items, first, start, stop, end, depth);
      var child := BuildBulkNode(items, start, stop, depth);
      RunAdded(Kids(node), items, first, start, stop, depth, child);
      node := AddChildSorted(node, edge, child);
      start := stop;
    }
  }

  // ----- Bulk loading -----

  ghost predicate NonDescending<V>(items: seq<Entry<V>>) {
    forall i :: 0 < i < |items| ==> LessEq(items[i - 1].key, items[i].key)
  }

  lemma SameKeysSorted<V>(es: seq<Entry<V>>, r: seq<Entry<V>>)
    requires Sorted(es) && |r| == |es| && forall i :: 0 <= i < |es| ==> r[i].key == es[i].key
    ensures Sorted(r)
  {
    hide Less;
    forall i, j | 0 <= i < j < |r|
      ensures Less(r[i].key, r[j].key)
    {
      assert Less(es[i].key, es[j].key);
    }
  }

  lemma ReplaceLast<V>(es: seq<Entry<V>>, e: Entry<V>)
    requires Sorted(es) && es != [] && es[|es| - 1].key == e.key
    ensures Sorted(es[..|es| - 1] + [e])
    ensures AssignAll(es[..|es| - 1] + [e]) == AssignAll(es)[e.key := e.value]
  {
    hide Less, AssignAll, Sorted;
    var init, last := es[..|es| - 1], es[|es| - 1];
    AssignSnoc(init, e);
    AssignSnoc(init, last);
    assert init + [last] == es;
    SameKeysSorted(es, init + [e]);
  }

  /** Equal neighbours are accepted; only a step down is not. */
  lemma DescendsSomewhere<V>(items: seq<Entry<V>>)
    ensures NonDescending(items) <==> forall i :: 0 < i < |items| ==> !Less(items[i].key, items[i - 1].key)
  {
    forall i | 0 < i < |items|
      ensures LessEq(items[i - 1].key, items[i].key) <==> !Less(items[i].key, items[i - 1].key)
    {
      LessTotal(items[i - 1].key, items[i].key);
      LessIrreflexive(items[i].key);
      if Less(items[i - 1].key, items[i].key) {
        LessAsymmetric(items[i - 1].key, items[i].key);
      }
    }
  }

  /** Drops all but the last of equal keys; None stands for the panic on unsorted input. */
  method UniqueSorted<V>(items: seq<Entry<V>>) returns (r: Option<seq<Entry<V>>>)
    ensures r.None? <==> exists i :: 0 < i < |items| && Less(items[i].key, items[i - 1].key)
    ensures r.Some? ==> Sorted(r.value) && AssignAll(r.value) == AssignAll(items)
  {
    hide AssignAll, Less, Sorted;
    DescendsSomewhere(items);
    var unique: seq<Entry<V>> := [];
    EmptyFacts<V>();
    assert items[..0] == [];
    for i := 0 to |items|
      invariant NonDescending(items[..i])
      invariant Sorted(unique) && AssignAll(unique) == AssignAll(items[..i])
      invariant unique == [] <==> i == 0
      invariant i > 0 ==> unique[|unique| - 1].key == items[i - 1].key
    {
      var item := items[i];
      assert items[..i + 1] == items[..i] + [item];
      assert i == 0 || LessEq(items[i - 1].key, item.key) ==> NonDescending(items[..i + 1]);
      AssignSnoc(items[..i], item);
      if unique == [] {
        AssignSnoc(unique, item);
        SingleSorted(item);
        assert unique + [item] == [item];
        unique := unique + [item];
      } else {
        var last := unique[|unique| - 1];
        LessTotal(last.key, item.key);
        if Less(item.key, last.key) {
          LessAsymmetric(item.key, last.key);
          LessIrreflexive(item.key);
          assert !LessEq(items[i - 1].key, items[i].key);
          return None;
        }
        if last.key == item.key {
          ReplaceLast(unique, item);
          unique := unique[..|unique| - 1] + [item];
        } else {
          AppendLater(unique, item);
          AssignSnoc(unique, item);
          unique := unique + [item];
        }
      }
    }
    assert items[..|items|] == items;
    r := Some(unique);
  }

  lemma EmptyFacts<V>()
    ensures var none: seq<Entry<V>> := []; Sorted(none)
  {
  }

  lemma SingleSorted<V>(e: Entry<V>)
    ensures Sorted([e])
  {
  }

  lemma AppendLater<V>(es: seq<Entry<V>>, e: Entry<V>)
    requires Sorted(es) && es != [] && Less(es[|es| - 1].key, e.key)
    ensures Sorted(es + [e])
  {
    forall i | 0 <= i < |es|
      ensures Less(es[i].key, e.key)
    {
      if i < |es| - 1 {
        LessTransitive(es[i].key, es[|es| - 1].key, e.key);
      }
    }
  }

  /** Among strictly sorted entries there is nothing to overwrite. */
  lemma {:induction false} AssignFind<V>(items: seq<Entry<V>>, end: nat, q: Key)
    requires Sorted(items) && end <= |items|
    ensures Stores(AssignAll(items[..end]), q, FindIn(items, 0, end, 0, q))
    decreases end
  {
    if end > 0 {
      AssignFind(items, end - 1, q);
      FindInSplit(items, 0, end - 1, end, 0, q);
      assert items[..end][..end - 1] == items[..end - 1];
      assert items[end - 1].key[0..] == items[end - 1].key;
      if q == items[end - 1].key {
        NotFoundBefore(items, 0, end - 1);
      }
    }
  }

  lemma {:induction false} NotFoundBefore<V>(items: seq<Entry<V>>, start: nat, end: nat)
    requires Sorted(items) && start <= end < |items|
    ensures FindIn(items, start, end, 0, items[end].key) == None
    decreases end - start
  {
    if start < end {
      NotFoundBefore(items, start + 1, end);
      LessIrreflexive(items[end].key);
      assert items[start].key[0..] == items[start].key;
    }
  }

  lemma {:induction false} AssignKeys<V>(items: seq<Entry<V>>)
    ensures AssignAll(items).Keys == KeySet(items)
    decreases |items|
  {
    if items != [] {
      var init, last := items[..|items| - 1], items[|items| - 1];
      AssignKeys(init);
      assert KeySet(items) == KeySet(init) + {last.key} by {
        assert forall i :: 0 <= i < |init| ==> items[i] == init[i];
        assert items[|items| - 1].key in KeySet(items);
        forall k | k in KeySet(init) ensures k in KeySet(items) {
          var i :| 0 <= i < |init| && init[i].key == k;
          assert items[i].key == k;
        }
      }
    }
  }

  /** A tree built bottom-up is the tree that inserting the same entries builds. */
  lemma BulkIsInsertion<V>(items: seq<Entry<V>>, ops: seq<Entry<V>>, node: Node<V>)
    requires items != [] && Sorted(items) && AssignAll(items) == AssignAll(ops)
    requires Canonical(node) && Holds(node, items, 0, |items|, 0)
    ensures InsertAll(ops) == Some(node)
    ensures View(node) == AssignAll(ops)
    ensures |items| == |AssignAll(ops)|
  {
    AssignKeys(items);
    KeySetSize(items);
    AssignedSomething(items);
    assert ops != [];
    InsertAllCorrect(ops);
    var a := InsertAll(ops).value;
    forall q
      ensures Lookup(node, q) == Lookup(a, q)
      ensures Stores(AssignAll(ops), q, Lookup(node, q))
    {
      AssignFind(items, |items|, q);
      assert items[..|items|] == items;
      assert Stores(AssignAll(ops), q, Lookup(a, q));
      assert Lookup(node, q) == FindIn(items, 0, |items|, 0, q);
    }
    CanonicalWellFormed(node);
    ViewFromLookup(node, AssignAll(ops));
    CanonicalUnique(node, a);
  }

  /** Loads non-descending entries; None stands for the panic on unsorted input. */
  method BulkLoadSorted<V>(items: seq<Entry<V>>) returns (tree: Option<AdaptiveRadixTree<V>>)
    ensures tree.None? <==> exists i :: 0 < i < |items| && Less(items[i].key, items[i - 1].key)
    ensures tree.Some? ==> fresh(tree.value) && tree.value.Valid()
    ensures tree.Some? ==> tree.value.root == InsertAll(items)
    ensures tree.Some? ==> tree.value.Contents() == AssignAll(items) && tree.value.len == |AssignAll(items)|
    ensures tree.Some? ==> LastValues(tree.value.Contents(), items)
  {
    LastAssigned(items);
    var unique := UniqueSorted(items);
    if unique.None? {
      return None;
    }
    var t := new AdaptiveRadixTree<V>();
    if unique.value != [] {
      forall i, j | 0 <= i < j < |unique.value|
        ensures Less(unique.value[i].key[0..], unique.value[j].key[0..])
      {
        assert unique.value[i].key[0..] == unique.value[i].key && unique.value[j].key[0..] == unique.value[j].key;
      }
      var node := BuildBulkNode(unique.value, 0, |unique.value|, 0);
      CanonicalWellFormed(node);
      BulkIsInsertion(unique.value, items, node);
      t.root := Some(node);
      t.len := |unique.value|;
    }
    tree := Some(t);
  }

  /** However a map is inserted, the result is the tree that bulk loading builds for it. */
  method InsertInAnyOrder<V>(ops: seq<Entry<V>>) returns (tree: AdaptiveRadixTree<V>)
    ensures fresh(tree) && tree.Valid()
    ensures tree.root == InsertAll(ops) && tree.Contents() == AssignAll(ops)
  {
    tree := new AdaptiveRadixTree<V>();
    for i := 0 to |ops|
      invariant fresh(tree) && tree.Valid()
      invariant tree.root == InsertAll(ops[..i]) && tree.Contents() == AssignAll(ops[..i])
    {
      assert ops[..i + 1][..i] == ops[..i];
      var _ := tree.Insert(ops[i].key, ops[i].value);
    }
    assert ops[..|ops|] == ops;
  }
}
