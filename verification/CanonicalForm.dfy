/**
 The canonical form of a tree is determined by the map it stores: the order in
 which keys were inserted cannot be read off its structure.
 */
module CanonicalForm {
  import opened Wrappers
  import opened Bytes
  import opened Node
  import opened Operations
  import opened Entries

  /** Some key stored below `n`. */
  ghost function SomeKey<V>(n: Node<V>): (q: Key)
    requires WellFormed(n)
    ensures Lookup(n, q).Some?
    ensures n.prefix <= q
    decreases n
  {
    if n.value.Some? then n.prefix
    else
      var k :| k in Kids(n);
      var q := SomeKey(Kids(n)[k]);
      assert (n.prefix + q)[|n.prefix|..] == q;
      n.prefix + q
  }

  ghost predicate SameMap<V>(a: Node<V>, b: Node<V>) {
    forall q :: Lookup(a, q) == Lookup(b, q)
  }

  /** A canonical prefix cannot stop short of a prefix shared by all keys. */
  lemma PrefixNotShorter<V>(a: Node<V>, b: Node<V>)
    requires Canonical(a) && WellFormed(b) && SameMap(a, b)
    ensures b.prefix <= a.prefix
  {
    CanonicalWellFormed(a);
    var q := SomeKey(a);
    assert Lookup(b, q).Some?;
    if |a.prefix| < |b.prefix| {
      var k := b.prefix[|a.prefix|];
      assert a.prefix == q[..|a.prefix|] && b.prefix == q[..|b.prefix|];
      assert Lookup(b, a.prefix).None?;
      assert a.value.None?;
      forall e | e in Kids(a)
        ensures e == k
      {
        var w := SomeKey(Kids(a)[e]);
        assert (a.prefix + w)[|a.prefix|..] == w;
        assert Lookup(a, a.prefix + w).Some?;
        assert Lookup(b, a.prefix + w).Some?;
        assert (a.prefix + w)[|a.prefix|] == b.prefix[|a.prefix|];
      }
      assert Kids(a).Keys <= {k};
      SubsetCard(Kids(a).Keys, {k});
      assert false;
    } else {
      assert b.prefix == q[..|b.prefix|] == a.prefix[..|b.prefix|];
    }
  }

  lemma SameEdges<V>(a: Node<V>, b: Node<V>, k: Byte)
    requires WellFormed(a) && WellFormed(b) && SameMap(a, b) && a.prefix == b.prefix
    requires k in Kids(a)
    ensures k in Kids(b)
    ensures SameMap(Kids(a)[k], Kids(b)[k])
  {
    var w := SomeKey(Kids(a)[k]);
    assert (a.prefix + w)[|a.prefix|..] == w;
    assert Lookup(a, a.prefix + w).Some?;
    assert Lookup(b, a.prefix + w).Some?;
    forall q
      ensures Lookup(Kids(a)[k], q) == Lookup(Kids(b)[k], q)
    {
      if q != [] && q[0] == k {
        assert (a.prefix + q)[|a.prefix|..] == q;
        assert Lookup(a, a.prefix + q) == Lookup(b, a.prefix + q);
      }
    }
  }

  /** Canonical trees that store the same map are equal node by node. */
  lemma {:induction false} CanonicalUnique<V>(a: Node<V>, b: Node<V>)
    requires Canonical(a) && Canonical(b) && SameMap(a, b)
    ensures a == b
    decreases a
  {
    CanonicalWellFormed(a);
    CanonicalWellFormed(b);
    PrefixNotShorter(a, b);
    PrefixNotShorter(b, a);
    assert a.prefix == b.prefix;
    assert Lookup(a, a.prefix) == Lookup(b, a.prefix);
    forall k: Byte
      ensures k in Kids(a) <==> k in Kids(b)
      ensures k in Kids(a) && k in Kids(b) ==> Kids(a)[k] == Kids(b)[k]
    {
      if k in Kids(a) {
        SameEdges(a, b, k);
        CanonicalUnique(Kids(a)[k], Kids(b)[k]);
      } else if k in Kids(b) {
        SameEdges(b, a, k);
      }
    }
    assert Kids(a) == Kids(b);
  }

  // ----- Insertion order -----

  /** The tree after a series of insertions into an empty one. */
  function InsertAll<V>(ops: seq<Entry<V>>): Option<Node<V>> {
    if ops == [] then None
    else
      var last := ops[|ops| - 1];
      match InsertAll(ops[..|ops| - 1])
      case None => Some(NewLeaf(last.key, last.value))
      case Some(root) => Some(Ins(root, last.key, last.value))
  }

  /** The map after assigning the entries one by one; later ones win. */
  function AssignAll<V>(ops: seq<Entry<V>>): map<Key, V> {
    if ops == [] then map[]
    else
      var last := ops[|ops| - 1];
      AssignAll(ops[..|ops| - 1])[last.key := last.value]
  }

  /** `m` has exactly the keys of the entries, each with the value of its last entry. */
  ghost predicate LastValues<V>(m: map<Key, V>, ops: seq<Entry<V>>) {
    && (forall i :: 0 <= i < |ops| ==> ops[i].key in m)
    && (forall i :: 0 <= i < |ops| && (forall j :: i < j < |ops| ==> ops[j].key != ops[i].key) ==>
          m[ops[i].key] == ops[i].value)
    && (forall k :: k in m ==> exists i :: 0 <= i < |ops| && ops[i].key == k)
  }

  lemma AssignSnoc<V>(es: seq<Entry<V>>, e: Entry<V>)
    ensures AssignAll(es + [e]) == AssignAll(es)[e.key := e.value]
  {
    assert (es + [e])[..|es|] == es;
  }

  lemma NothingAssigned<V>()
    ensures var none: seq<Entry<V>> := []; LastValues(AssignAll(none), none)
  {
  }

  lemma {:induction false} LastAssigned<V>(ops: seq<Entry<V>>)
    ensures LastValues(AssignAll(ops), ops)
  {
    hide LastValues, AssignAll;
    if ops == [] {
      NothingAssigned<V>();
    } else {
      var init, last := ops[..|ops| - 1], ops[|ops| - 1];
      assert ops == init + [last];
      LastAssigned(init);
      LastAppended(AssignAll(init), init, last);
      AssignSnoc(init, last);
    }
  }

  lemma LastAppended<V>(m: map<Key, V>, ops: seq<Entry<V>>, last: Entry<V>)
    requires LastValues(m, ops)
    ensures LastValues(m[last.key := last.value], ops + [last])
  {
    var m', all := m[last.key := last.value], ops + [last];
    assert all[|ops|] == last;
    forall i | 0 <= i < |all| && (forall j :: i < j < |all| ==> all[j].key != all[i].key)
      ensures m'[all[i].key] == all[i].value
    {
      if i < |ops| {
        assert all[|ops|].key != all[i].key;
        assert forall j :: i < j < |ops| ==> all[j] == ops[j];
      }
    }
    forall k | k in m'
      ensures exists i :: 0 <= i < |all| && all[i].key == k
    {
      if k == last.key {
        assert all[|ops|].key == k;
      } else {
        var i :| 0 <= i < |ops| && ops[i].key == k;
        assert all[i].key == k;
      }
    }
  }

  /** Any series of insertions yields a canonical tree that stores the assignments. */
  lemma {:induction false} InsertAllCorrect<V>(ops: seq<Entry<V>>)
    requires ops != []
    ensures InsertAll(ops).Some? && Canonical(InsertAll(ops).value)
    ensures forall q :: Stores(AssignAll(ops), q, Lookup(InsertAll(ops).value, q))
  {
    var init, last := ops[..|ops| - 1], ops[|ops| - 1];
    if init == [] {
      assert AssignAll(ops) == map[last.key := last.value];
      forall q
        ensures Stores(AssignAll(ops), q, Lookup(InsertAll(ops).value, q))
      {
        LeafLookup(last.key, last.value, q);
      }
    } else {
      InsertAllCorrect(init);
      var root := InsertAll(init).value;
      InsCanonical(root, last.key, last.value);
      forall q
        ensures Stores(AssignAll(ops), q, Lookup(InsertAll(ops).value, q))
      {
        InsLookup(root, last.key, last.value, q);
        assert Stores(AssignAll(init), q, Lookup(root, q));
      }
    }
  }

  /** Series of insertions that end in the same map end in the same tree. */
  lemma InsertionOrderUnobservable<V>(ops: seq<Entry<V>>, ops': seq<Entry<V>>)
    requires AssignAll(ops) == AssignAll(ops')
    ensures InsertAll(ops) == InsertAll(ops')
  {
    if ops == [] || ops' == [] {
      assert |AssignAll(ops)| == 0 && |AssignAll(ops')| == 0;
      AssignedSomething(ops);
      AssignedSomething(ops');
    } else {
      InsertAllCorrect(ops);
      InsertAllCorrect(ops');
      var a, b := InsertAll(ops).value, InsertAll(ops').value;
      forall q
        ensures Lookup(a, q) == Lookup(b, q)
      {
        assert Stores(AssignAll(ops), q, Lookup(a, q)) && Stores(AssignAll(ops'), q, Lookup(b, q));
      }
      CanonicalUnique(a, b);
    }
  }

  lemma AssignedSomething<V>(ops: seq<Entry<V>>)
    ensures AssignAll(ops) == map[] ==> ops == []
  {
    if ops != [] {
      assert ops[|ops| - 1].key in AssignAll(ops);
    }
  }

  // ----- When removal stays canonical -----

  /**
   True when the removal of `key` leaves no superfluous node behind: the node of
   the key has not exactly one child, and if it is a leaf, its parent does not
   keep a value while losing its only child.
   */
  ghost predicate RemovalStaysCanonical<V>(n: Node<V>, key: Key)
    requires Lookup(n, key).Some?
    decreases n
  {
    if |n.prefix| == |key| then n.content.Empty? || |Kids(n)| >= 2
    else
      var k := key[|n.prefix|];
      var child := Kids(n)[k];
      if child.content.Empty? then !(n.value.Some? && |Kids(n)| == 1)
      else RemovalStaysCanonical(child, key[|n.prefix|..])
  }

  lemma KidEdge<V>(n: Node<V>, k: Byte)
    requires Canonical(n) && k in Kids(n)
    ensures EdgeOk(k, Kids(n)[k]) && Canonical(Kids(n)[k]) && WellFormed(Kids(n)[k])
  {
    CanonicalWellFormed(n);
  }

  /** Removing from a canonical tree yields a canonical tree exactly under this condition. */
  lemma {:induction false} RemCanonical<V>(n: Node<V>, key: Key)
    requires Canonical(n) && Lookup(n, key).Some?
    ensures (Rem(n, key, true).None? || Canonical(Rem(n, key, true).value))
            <==> RemovalStaysCanonical(n, key)
    ensures Rem(n, key, true).None? <==> n.content.Empty?
    decreases n
  {
    CanonicalWellFormed(n);
    if |n.prefix| < |key| {
      var rest := key[|n.prefix|..];
      var k := rest[0];
      RemCanonical(Kids(n)[k], rest);
      if Kids(n)[k].content.Empty? {
        DetachCanonical(n, k);
      } else {
        KidEdge(n, k);
        RemWellFormed(Kids(n)[k], rest, true);
        ReplaceCanonical(n, k, Rem(Kids(n)[k], rest, true).value);
      }
    }
  }

  /** Deleting crosses the same layout thresholds as adding. */
  lemma ShrinkMatchesGrow(count: nat)
    requires 1 <= count < 256
    ensures Shrink(KindFor(count + 1), count) == KindFor(count)
    ensures GrowIfFull(KindFor(count), count) == KindFor(count + 1)
  {
  }

  lemma CollapseCanonical<V>(m: Node<V>)
    requires |Kids(m)| == 1 && m.value.None?
    requires forall e :: e in Kids(m) ==> Canonical(Kids(m)[e])
    ensures Canonical(Collapse(m)) && Pruned(Collapse(m)).Some?
  {
    var child := Kids(m)[OnlyEdge(Kids(m))];
    assert Canonical(child);
    assert Collapse(m).content == child.content && Collapse(m).value == child.value;
  }

  /** Detaching without a collapse. */
  lemma KeepCanonical<V>(n: Node<V>, k: Byte)
    requires Canonical(n) && k in Kids(n) && (|Kids(n)| != 2 || n.value.Some?)
    ensures Kids(DeleteChild(n, k)) == Kids(n) - {k} && DeleteChild(n, k).value == n.value
    ensures DeleteChild(n, k).content.Inner?
    ensures DeleteChild(n, k).content.kind ==
            if n.content.kind.Node4? then Node4 else Shrink(n.content.kind, |Kids(n)| - 1)
  {
    RemoveEdgeCount(Kids(n), k);
  }

  lemma CanonicalInner<V>(n: Node<V>)
    requires n.content.Inner?
    ensures Canonical(n) <==>
              && n.content.kind == KindFor(|Kids(n)|)
              && |Kids(n)| >= (if n.value.Some? then 1 else 2)
              && forall k :: k in Kids(n) ==> EdgeOk(k, Kids(n)[k]) && Canonical(Kids(n)[k])
  {
  }

  lemma DetachCanonical<V>(n: Node<V>, k: Byte)
    requires Canonical(n) && k in Kids(n)
    ensures Pruned(DeleteChild(n, k)).Some?
    ensures Canonical(DeleteChild(n, k)) <==> !(n.value.Some? && |Kids(n)| == 1)
  {
    hide Collapse, Canonical, DeleteChild;
    CanonicalInner(n);
    RemoveEdgeCount(Kids(n), k);
    var m := WithoutChild(n, k);
    assert forall e :: e in Kids(m) ==> Kids(m)[e] == Kids(n)[e];
    if |Kids(n)| == 2 && n.value.None? {
      CollapseCanonical(m);
      DetachCollapses(n, k);
    } else {
      KeepCanonical(n, k);
      CanonicalInner(DeleteChild(n, k));
      ByteSetBound(Kids(n).Keys, 256);
      if |Kids(n)| >= 2 {
        ShrinkMatchesGrow(|Kids(m)|);
      }
    }
  }

  lemma DetachCollapses<V>(n: Node<V>, k: Byte)
    requires k in Kids(n) && |Kids(n)| == 2 && n.content.kind.Node4?
    ensures |Kids(WithoutChild(n, k))| == 1 && DeleteChild(n, k) == Collapse(WithoutChild(n, k))
  {
    RemoveEdgeCount(Kids(n), k);
  }

  /** Taking the value off an inner node with one child leaves a superfluous node. */
  lemma RemovalCounterexample()
    ensures var root := Node([1], Some(10), Inner(Node4, map[2 := NewLeaf([2], 20)]));
            Canonical(root) && Lookup(root, [1]).Some? &&
            Rem(root, [1], true).Some? && !Canonical(Rem(root, [1], true).value)
  {
    var children := map[2 := NewLeaf([2], 20)];
    var root := Node([1], Some(10), Inner(Node4, children));
    assert |children| == 1;
    assert Canonical(NewLeaf([2], 20));
    assert Rem(root, [1], true) == Some(root.(value := None));
  }
}
