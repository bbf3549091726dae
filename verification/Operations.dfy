/**
 What inserting and removing do to a tree, as functions on nodes. The methods of
 the single-owner tree and of the copy-on-write tree are both proved to compute
 these functions; what the functions mean for the stored map is proved here.
 Keys are relative to the position of the node.
 */
module Operations {
  import opened Wrappers
  import opened Bytes
  import opened Node

  /** `n` moved under a new parent that takes over the first `at` bytes of its prefix. */
  function SplitAt<V>(n: Node<V>, at: nat): Node<V>
    requires at < |n.prefix|
  {
    AddChild(NewInner<V>(n.prefix[..at]), n.prefix[at], n.(prefix := n.prefix[at..]))
  }

  /** The tree after storing `v` under `key`. */
  function Ins<V>(n: Node<V>, key: Key, v: V): Node<V>
    decreases n
  {
    var lcp := CommonPrefix(n.prefix, key);
    if lcp < |n.prefix| then
      if lcp == |key| then
        SplitAt(n, lcp).(value := Some(v))
      else
        AddChild(SplitAt(n, lcp), key[lcp], NewLeaf(key[lcp..], v))
    else if lcp == |key| then
      n.(value := Some(v))
    else if key[lcp] in Kids(n) then
      WithChild(n, key[lcp], Ins(Kids(n)[key[lcp]], key[lcp..], v))
    else
      AddChild(n, key[lcp], NewLeaf(key[lcp..], v))
  }

  function Detach<V>(n: Node<V>, k: Byte, compact: bool): Node<V>
    requires n.content.Inner?
  {
    if compact then DeleteChild(n, k) else WithoutChild(n, k)
  }

  /** A node left without a value and without children is pruned by its parent. */
  function Pruned<V>(n: Node<V>): Option<Node<V>> {
    if n.value.None? && |Kids(n)| == 0 then None else Some(n)
  }

  /**
   The tree after removing `key`, or None when nothing is left of it. The
   single-owner tree also compacts the layouts on the way (`compact`), the
   copy-on-write tree does not.
   */
  function Rem<V>(n: Node<V>, key: Key, compact: bool): Option<Node<V>>
    decreases n, 1
  {
    if !(n.prefix <= key) then Some(n)
    else if |n.prefix| == |key| then Pruned(n.(value := None))
    else Pruned(RemBelow(n, key[|n.prefix|..], compact))
  }

  /** Removing the key that continues with `rest` below `n`. */
  function RemBelow<V>(n: Node<V>, rest: Key, compact: bool): Node<V>
    requires rest != []
    decreases n, 0
  {
    var k := rest[0];
    if k !in Kids(n) then n
    else
      match Rem(Kids(n)[k], rest, compact)
      case None => Detach(n, k, compact)
      case Some(child) => WithChild(n, k, child)
  }

  // ----- Inserting -----

  /** Moving a node below a new parent does not change what is stored. */
  lemma SplitLookup<V>(n: Node<V>, at: nat, q: Key)
    requires at < |n.prefix|
    ensures Lookup(SplitAt(n, at), q) == Lookup(n, q)
  {
    var lower := n.(prefix := n.prefix[at..]);
    var upper := SplitAt(n, at);
    if n.prefix[..at] <= q && |q| > at && q[at] == n.prefix[at] {
      assert Lookup(upper, q) == Lookup(lower, q[at..]);
      assert lower.prefix <= q[at..] <==> n.prefix <= q by {
        assert n.prefix == n.prefix[..at] + lower.prefix;
        assert q == q[..at] + q[at..];
      }
      if n.prefix <= q && |q| > |n.prefix| {
        assert q[at..][|lower.prefix|..] == q[|n.prefix|..];
      }
    }
  }

  lemma LeafLookup<V>(p: Key, v: V, q: Key)
    ensures Lookup(NewLeaf(p, v), q) == if q == p then Some(v) else None
  {
  }

  /** The key ends inside the prefix, or parts from it. */
  lemma InsSplitLookup<V>(n: Node<V>, key: Key, v: V, q: Key)
    requires CommonPrefix(n.prefix, key) < |n.prefix|
    ensures Lookup(Ins(n, key, v), q) == if q == key then Some(v) else Lookup(n, q)
  {
    hide CommonPrefix;
    var lcp := CommonPrefix(n.prefix, key);
    SplitLookup(n, lcp, q);
    if lcp < |key| {
      var split := SplitAt(n, lcp);
      assert key == split.prefix + key[lcp..];
      if split.prefix <= q && |q| > lcp && q[lcp] == key[lcp] {
        LeafLookup(key[lcp..], v, q[lcp..]);
        assert q == q[..lcp] + q[lcp..];
        assert !(n.prefix <= q);
      }
    } else {
      assert key == n.prefix[..lcp];
    }
  }

  lemma {:induction false} InsLookup<V>(n: Node<V>, key: Key, v: V, q: Key)
    ensures Lookup(Ins(n, key, v), q) == if q == key then Some(v) else Lookup(n, q)
    decreases n
  {
    var lcp := CommonPrefix(n.prefix, key);
    hide CommonPrefix;
    if lcp < |n.prefix| {
      InsSplitLookup(n, key, v, q);
    } else if lcp < |key| {
      var k := key[lcp];
      assert key == n.prefix + key[lcp..];
      if n.prefix <= q && |q| > lcp && q[lcp] == k {
        assert q == n.prefix + q[lcp..];
        if k in Kids(n) {
          InsLookup(Kids(n)[k], key[lcp..], v, q[lcp..]);
        } else {
          LeafLookup(key[lcp..], v, q[lcp..]);
        }
      }
    }
  }

  /** The first byte of a node under an edge survives an insertion below that edge. */
  lemma InsEdge<V>(n: Node<V>, key: Key, v: V, k: Byte)
    requires EdgeOk(k, n) && key != [] && key[0] == k
    ensures EdgeOk(k, Ins(n, key, v))
  {
    var lcp := CommonPrefix(n.prefix, key);
    assert lcp > 0;
  }

  lemma SplitWellFormed<V>(n: Node<V>, at: nat)
    requires at < |n.prefix| && WellFormed(n)
    ensures Kids(SplitAt(n, at)) == map[n.prefix[at] := n.(prefix := n.prefix[at..])]
    ensures WellFormed(n.(prefix := n.prefix[at..]))
    ensures Canonical(n) ==> Canonical(n.(prefix := n.prefix[at..]))
    ensures SplitAt(n, at).content.kind == Node4
    ensures EdgeOk(n.prefix[at], n.(prefix := n.prefix[at..]))
  {
    var children: map<Byte, Node<V>> := map[];
    assert |children| == 0;
  }

  lemma AddChildWellFormed<V>(n: Node<V>, k: Byte, child: Node<V>)
    requires k !in Kids(n) && EdgeOk(k, child) && WellFormed(child)
    requires |Kids(n)| <= (if n.content.Empty? then 0 else Capacity(n.content.kind))
    requires forall e :: e in Kids(n) ==> EdgeOk(e, Kids(n)[e]) && WellFormed(Kids(n)[e])
    ensures WellFormed(AddChild(n, k, child))
  {
    FreeEdgeCount(Kids(n), k, child);
  }

  lemma {:induction false} InsWellFormed<V>(n: Node<V>, key: Key, v: V)
    requires WellFormed(n)
    ensures WellFormed(Ins(n, key, v))
    decreases n
  {
    var lcp := CommonPrefix(n.prefix, key);
    if lcp < |n.prefix| {
      SplitWellFormed(n, lcp);
      if lcp < |key| {
        AddChildWellFormed(SplitAt(n, lcp), key[lcp], NewLeaf(key[lcp..], v));
      }
    } else if lcp < |key| {
      var k := key[lcp];
      if k in Kids(n) {
        InsWellFormed(Kids(n)[k], key[lcp..], v);
        InsEdge(Kids(n)[k], key[lcp..], v, k);
        assert n.content.children.Keys == Kids(Ins(n, key, v)).Keys;
      } else {
        AddChildWellFormed(n, k, NewLeaf(key[lcp..], v));
      }
    }
  }

  /** Growing exactly when full keeps the layout the smallest that fits. */
  lemma AddChildCanonical<V>(n: Node<V>, k: Byte, child: Node<V>)
    requires k !in Kids(n) && EdgeOk(k, child) && Canonical(child)
    requires n.content.Inner? ==> n.content.kind == KindFor(|Kids(n)|)
    requires |Kids(n)| >= 1 || n.value.Some?
    requires forall e :: e in Kids(n) ==> EdgeOk(e, Kids(n)[e]) && Canonical(Kids(n)[e])
    ensures Canonical(AddChild(n, k, child))
  {
    FreeEdgeCount(Kids(n), k, child);
  }

  lemma {:induction false} CanonicalWellFormed<V>(n: Node<V>)
    requires Canonical(n)
    ensures WellFormed(n)
    decreases n
  {
    forall k | k in Kids(n)
      ensures WellFormed(Kids(n)[k])
    {
      CanonicalWellFormed(Kids(n)[k]);
    }
    ByteSetBound(Kids(n).Keys, 256);
  }

  lemma SplitCanonical<V>(n: Node<V>, key: Key, v: V)
    requires Canonical(n) && WellFormed(n) && CommonPrefix(n.prefix, key) < |n.prefix|
    ensures Canonical(Ins(n, key, v))
  {
    hide CommonPrefix, WellFormed;
    var lcp := CommonPrefix(n.prefix, key);
    SplitWellFormed(n, lcp);
    if lcp < |key| {
      AddChildCanonical(SplitAt(n, lcp), key[lcp], NewLeaf(key[lcp..], v));
    }
  }

  /** A child can be replaced by another one exactly when that one is canonical, too. */
  lemma ReplaceCanonical<V>(n: Node<V>, k: Byte, child: Node<V>)
    requires Canonical(n) && k in Kids(n) && EdgeOk(k, child)
    ensures Canonical(WithChild(n, k, child)) <==> Canonical(child)
  {
    var m := WithChild(n, k, child);
    assert Kids(m).Keys == Kids(n).Keys;
    assert |Kids(m)| == |Kids(n)|;
    assert k in Kids(m) && Kids(m)[k] == child;
    assert forall e :: e in Kids(m) && e != k ==> e in Kids(n) && Kids(m)[e] == Kids(n)[e];
  }

  /** Insertion creates no superfluous node and picks no oversized layout. */
  lemma {:induction false} InsCanonical<V>(n: Node<V>, key: Key, v: V)
    requires Canonical(n)
    ensures Canonical(Ins(n, key, v))
    decreases n
  {
    CanonicalWellFormed(n);
    var lcp := CommonPrefix(n.prefix, key);
    hide CommonPrefix, WellFormed;
    if lcp < |n.prefix| {
      SplitCanonical(n, key, v);
    } else if lcp < |key| {
      var k := key[lcp];
      if k in Kids(n) {
        InsCanonical(Kids(n)[k], key[lcp..], v);
        InsEdge(Kids(n)[k], key[lcp..], v, k);
        ReplaceCanonical(n, k, Ins(Kids(n)[k], key[lcp..], v));
      } else {
        AddChildCanonical(n, k, NewLeaf(key[lcp..], v));
      }
    }
  }

  // ----- Removing -----

  lemma CollapseLookup<V>(n: Node<V>, q: Key)
    requires |Kids(n)| == 1
    requires forall e :: e in Kids(n) ==> EdgeOk(e, Kids(n)[e])
    ensures Lookup(Collapse(n), q) == Lookup(n, q)
  {
    if n.value.None? {
      var e := OnlyEdge(Kids(n));
      var child := Kids(n)[e];
      var whole := n.prefix + child.prefix;
      if n.prefix <= q && |q| > |n.prefix| && q[|n.prefix|] == e {
        var rest := q[|n.prefix|..];
        assert q == n.prefix + rest;
        assert whole <= q <==> child.prefix <= rest;
        if child.prefix <= rest {
          assert q[|whole|..] == rest[|child.prefix|..];
        }
      } else {
        assert whole[|n.prefix|] == e;
      }
    }
  }

  /** Detaching an edge forgets exactly the keys that go through it. */
  lemma DetachLookup<V>(n: Node<V>, k: Byte, compact: bool, q: Key)
    requires n.content.Inner?
    requires forall e :: e in Kids(n) ==> EdgeOk(e, Kids(n)[e])
    ensures Lookup(Detach(n, k, compact), q) ==
            if n.prefix <= q && |q| > |n.prefix| && q[|n.prefix|] == k then None else Lookup(n, q)
  {
    var m := WithoutChild(n, k);
    if compact && n.content.kind.Node4? && |Kids(m)| == 1 {
      assert forall e :: e in Kids(m) ==> Kids(m)[e] == Kids(n)[e];
      CollapseLookup(m, q);
    }
  }

  lemma {:induction false} RemLookup<V>(n: Node<V>, key: Key, compact: bool, q: Key)
    requires WellFormed(n)
    ensures match Rem(n, key, compact)
            case None => q != key ==> Lookup(n, q) == None
            case Some(m) => Lookup(m, q) == if q == key then None else Lookup(n, q)
    decreases n, 1
  {
    if n.prefix <= key && |n.prefix| < |key| {
      var rest := key[|n.prefix|..];
      assert key == n.prefix + rest;
      RemBelowLookup(n, rest, compact, q);
    }
  }

  lemma {:induction false} RemBelowLookup<V>(n: Node<V>, rest: Key, compact: bool, q: Key)
    requires WellFormed(n) && rest != []
    ensures Lookup(RemBelow(n, rest, compact), q) == if q == n.prefix + rest then None else Lookup(n, q)
    decreases n, 0
  {
    var k := rest[0];
    if n.prefix <= q && |q| > |n.prefix| {
      assert q == n.prefix + q[|n.prefix|..];
    }
    if k in Kids(n) {
      var child := Kids(n)[k];
      if n.prefix <= q && |q| > |n.prefix| && q[|n.prefix|] == k {
        RemLookup(child, rest, compact, q[|n.prefix|..]);
      }
      if Rem(child, rest, compact).None? {
        DetachLookup(n, k, compact, q);
      }
    }
  }

  /** A collapsed node is its only child under a longer prefix. */
  lemma CollapseWellFormed<V>(n: Node<V>)
    requires |Kids(n)| == 1
    requires WellFormed(n)
    ensures WellFormed(Collapse(n))
    ensures n.prefix <= Collapse(n).prefix
  {
    var child := Kids(n)[OnlyEdge(Kids(n))];
    assert WellFormed(child);
  }

  lemma DetachWellFormed<V>(n: Node<V>, k: Byte, compact: bool)
    requires WellFormed(n) && k in Kids(n)
    ensures Pruned(Detach(n, k, compact)).Some? ==> WellFormed(Detach(n, k, compact))
    ensures n.prefix <= Detach(n, k, compact).prefix
  {
    RemoveEdgeCount(Kids(n), k);
    var m := WithoutChild(n, k);
    if compact && n.content.kind.Node4? && |Kids(m)| == 1 {
      CollapseWellFormed(m);
    }
  }

  lemma {:induction false} RemWellFormed<V>(n: Node<V>, key: Key, compact: bool)
    requires WellFormed(n)
    ensures Rem(n, key, compact).Some? ==> WellFormed(Rem(n, key, compact).value)
    ensures Rem(n, key, compact).Some? ==> n.prefix <= Rem(n, key, compact).value.prefix
    decreases n
  {
    if n.prefix <= key && |n.prefix| < |key| {
      var rest := key[|n.prefix|..];
      var k := rest[0];
      if k in Kids(n) {
        RemWellFormed(Kids(n)[k], rest, compact);
        if Rem(Kids(n)[k], rest, compact).None? {
          DetachWellFormed(n, k, compact);
        } else {
          assert Kids(RemBelow(n, rest, compact)).Keys == Kids(n).Keys;
        }
      }
    }
  }

  /** A deletion merges a node with its last child exactly when a Node4 without a value keeps one child. */
  lemma MergeExactly<V>(n: Node<V>, k: Byte)
    requires WellFormed(n) && k in Kids(n)
    ensures DeleteChild(n, k).prefix != n.prefix <==> n.content.kind.Node4? && |Kids(n)| == 2 && n.value.None?
    ensures DeleteChild(n, k).prefix == n.prefix ==>
              DeleteChild(n, k).value == n.value && Kids(DeleteChild(n, k)) == Kids(n) - {k}
  {
    RemoveEdgeCount(Kids(n), k);
    var m := WithoutChild(n, k);
    if |Kids(m)| == 1 && n.value.None? {
      var e := OnlyEdge(Kids(m));
      assert e in Kids(n) && EdgeOk(e, Kids(n)[e]);
      assert |Collapse(m).prefix| > |n.prefix|;
    }
  }

  /** Without compaction a removal keeps every layout, and every subtree off the path of the key. */
  lemma RemKeepsLayout<V>(n: Node<V>, key: Key)
    requires WellFormed(n) && Lookup(n, key).Some? && Rem(n, key, false).Some?
    ensures var m := Rem(n, key, false).value;
            && m.prefix == n.prefix && (m.content.Inner? <==> n.content.Inner?)
            && (n.content.Inner? ==> m.content.kind == n.content.kind)
            && (if |n.prefix| == |key| then m.value.None? && Kids(m) == Kids(n)
                else
                  var k, rest := key[|n.prefix|], key[|n.prefix|..];
                  && m.value == n.value && k in Kids(n)
                  && Kids(m) - {k} == Kids(n) - {k}
                  && (if k in Kids(m) then Rem(Kids(n)[k], rest, false) == Some(Kids(m)[k])
                      else Rem(Kids(n)[k], rest, false) == None))
  {
  }

  /** Removing an absent key leaves the tree as it is. */
  lemma {:induction false} RemAbsent<V>(n: Node<V>, key: Key, compact: bool)
    requires WellFormed(n) && Lookup(n, key).None?
    ensures Rem(n, key, compact) == Some(n)
    decreases n
  {
    if n.prefix <= key && |n.prefix| < |key| {
      var rest := key[|n.prefix|..];
      var k := rest[0];
      if k in Kids(n) {
        RemAbsent(Kids(n)[k], rest, compact);
        assert Kids(n)[k := Kids(n)[k]] == Kids(n);
      }
    }
  }
}
