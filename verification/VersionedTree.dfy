/**
 The copy-on-write tree: any number of handles over one reference-counted memory.

 `Arc::try_unwrap` takes a singly referenced node out of memory, `Arc::new` puts a
 node in at a fresh address; both are steps of the memory. The ghost parameter
 `ext` lists the references held outside the memory when a method is called.
 */
module VersionedTree {
  import opened Wrappers
  import opened Bytes
  import N = Node
  import opened Operations
  import opened Entries
  import opened Tree
  import opened ArcHeap
  import opened Handles
  import opened PathCopy
  import Bags

  /** Nodes that outlive a step are untouched by it; new nodes have new addresses. */
  ghost predicate Kept<V>(mem: Memory<V>, trees: map<Addr, N.Node<V>>, mem': Memory<V>, trees': map<Addr, N.Node<V>>) {
    && mem.next <= mem'.next
    && (forall a :: a in mem.nodes && a in mem'.nodes ==>
          a in trees && a in trees' && mem'.nodes[a] == mem.nodes[a] && trees'[a] == trees[a])
    && (forall a :: a in mem'.nodes ==> a in mem.nodes || a >= mem.next)
  }

  lemma KeptTransitive<V>(mem: Memory<V>, trees: map<Addr, N.Node<V>>,
                          mem1: Memory<V>, trees1: map<Addr, N.Node<V>>,
                          mem2: Memory<V>, trees2: map<Addr, N.Node<V>>)
    requires forall a :: a in mem.nodes ==> a < mem.next
    requires Kept(mem, trees, mem1, trees1) && Kept(mem1, trees1, mem2, trees2)
    ensures Kept(mem, trees, mem2, trees2)
  {
  }

  lemma KeptRefl<V>(mem: Memory<V>, trees: map<Addr, N.Node<V>>, ext: multiset<Addr>)
    requires Sound(mem, trees, ext)
    ensures Kept(mem, trees, mem, trees)
  {
  }

  lemma NodesBelowNext<V>(mem: Memory<V>, trees: map<Addr, N.Node<V>>, ext: multiset<Addr>)
    requires Sound(mem, trees, ext)
    ensures forall a :: a in mem.nodes ==> a < mem.next
    ensures mem.next !in mem.nodes
  {
  }

  lemma NewerNodes<V>(mem: Memory<V>, trees: map<Addr, N.Node<V>>, mem': Memory<V>, trees': map<Addr, N.Node<V>>)
    requires Kept(mem, trees, mem', trees')
    ensures mem.next <= mem'.next && forall x :: x in mem'.nodes ==> x in mem.nodes || x >= mem.next
  {
  }

  class VersionedForest<V> {
    var mem: Memory<V>
    ghost var trees: map<Addr, N.Node<V>>
    var handles: map<Id, Handle>
    var nextId: Id

    ghost predicate Valid()
      reads this
    {
      && ForestOk(mem, trees, handles)
      && forall h :: h in handles ==> h < nextId
    }

    /** The finite map behind every handle. */
    ghost function Maps(): map<Id, map<Key, V>>
      reads this
    {
      Model(handles, trees)
    }

    constructor ()
      ensures Valid() && Maps() == map[] && handles == map[] && nextId == 0
    {
      mem := Memory(map[], map[], 0);
      trees := map[];
      handles := map[];
      nextId := 0;
      new;
      assert RootsOf(handles) == map[];
      RefsEmpty<Id>();
    }

    // ----- Reference-counted nodes -----

    /** `Arc::new`. */
    method NewArc(n: VNode<V>, ghost ext: multiset<Addr>) returns (a: Addr)
      requires Sound(mem, trees, ext) && KidRefs(n) <= ext
      requires Owned(n, mem, trees) && N.WellFormed(Erase(n, trees))
      modifies `mem, `trees
      ensures Sound(mem, trees, ext - KidRefs(n) + multiset{a})
      ensures a == old(mem.next) && mem == Stored(old(mem), n) && trees == old(trees)[a := Erase(n, old(trees))]
      ensures a !in old(mem.nodes)
      ensures Kept(old(mem), old(trees), mem, trees)
    {
      hide Sound, KidRefs, Erase;
      NodesBelowNext(mem, trees, ext);
      PlaceSound(mem, trees, ext, mem.next, n, mem.next + 1);
      KeptRefl(mem, trees, ext);
      a := mem.next;
      trees := trees[a := Erase(n, trees)];
      mem := Memory(mem.nodes[a := n], mem.counts[a := 1], a + 1);
    }

    /** `Arc::try_unwrap`: takes the node out when this is the only reference. */
    method TryUnwrap(a: Addr, ghost ext: multiset<Addr>) returns (n: Option<VNode<V>>)
      requires Sound(mem, trees, ext) && a in ext
      modifies `mem, `trees
      ensures a in old(mem.nodes) && a in old(mem.counts) && a in old(trees)
      ensures n.Some? <==> old(mem.counts)[a] == 1
      ensures n.None? ==> mem == old(mem) && trees == old(trees)
      ensures n.Some? ==>
                && n.value == old(mem.nodes)[a]
                && mem == Taken(old(mem), a) && trees == old(trees) - {a}
                && Sound(mem, trees, ext - multiset{a} + KidRefs(n.value))
                && Owned(n.value, mem, trees)
                && Erase(n.value, trees) == old(trees)[a]
      ensures Kept(old(mem), old(trees), mem, trees)
    {
      hide Sound, KidRefs, Owned, Erase;
      ExtAlive(mem, trees, ext, a);
      KeptRefl(mem, trees, ext);
      if mem.counts[a] != 1 {
        return None;
      }
      TakeSound(mem, trees, ext, a);
      n := Some(mem.nodes[a]);
      trees := trees - {a};
      mem := Memory(mem.nodes - {a}, mem.counts - {a}, mem.next);
    }

    /** `Arc::clone`. */
    method CloneArc(a: Addr, ghost ext: multiset<Addr>)
      requires Sound(mem, trees, ext) && a in mem.counts
      modifies `mem
      ensures Sound(mem, trees, ext + multiset{a})
      ensures mem == Recounted(old(mem), a, old(mem.counts)[a] + 1)
    {
      hide Sound;
      CloneSound(mem, trees, ext, a);
      mem := Memory(mem.nodes, mem.counts[a := mem.counts[a] + 1], mem.next);
    }

    /** Dropping a reference frees the node with the last one, and then drops its children. */
    method DropArc(a: Addr, ghost ext: multiset<Addr>)
      requires Sound(mem, trees, ext) && a in ext && a in trees
      modifies `mem, `trees
      ensures Sound(mem, trees, ext - multiset{a})
      ensures Kept(old(mem), old(trees), mem, trees)
      ensures mem.next == old(mem.next)
      ensures a in old(mem.counts) && old(mem.counts)[a] > 1 ==>
                mem == Recounted(old(mem), a, old(mem.counts)[a] - 1) && trees == old(trees)
      ensures forall x :: x in mem.nodes ==> x in old(mem.nodes)
      decreases trees[a]
    {
      hide Sound, Owned, Erase;
      ghost var mem0, trees0 := mem, trees;
      NodesBelowNext(mem, trees, ext);
      ExtAlive(mem, trees, ext, a);
      var n := TryUnwrap(a, ext);
      if n.None? {
        DropSound(mem, trees, ext, a);
        KeptRefl(mem, trees, ext);
        mem := Memory(mem.nodes, mem.counts[a := mem.counts[a] - 1], mem.next);
        return;
      }
      KidTreesSmaller(mem0, trees0, ext, a);
      DropKids(VKids(n.value), mem0, trees0, a, ext - multiset{a});
    }

    method DropKids(children: map<Byte, Addr>, ghost mem0: Memory<V>, ghost trees0: map<Addr, N.Node<V>>, ghost a: Addr,
                    ghost ext: multiset<Addr>)
      requires Sound(mem, trees, ext + Refs<Byte>(children))
      requires a in trees0 && a in mem0.nodes && Kept(mem0, trees0, mem, trees) && mem0.next == mem.next
      requires VKids(mem0.nodes[a]) == children
      requires forall k :: k in children ==>
                 children[k] in trees0 && children[k] in mem0.nodes && trees0[children[k]] < trees0[a]
      requires forall x :: x in mem0.nodes ==> x < mem0.next
      requires forall x :: x in mem.nodes ==> x in mem0.nodes
      modifies `mem, `trees
      ensures Sound(mem, trees, ext)
      ensures Kept(mem0, trees0, mem, trees) && mem0.next == mem.next
      ensures forall x :: x in mem.nodes ==> x in mem0.nodes
      decreases trees0[a], 0
    {
      hide Sound, KidRefs, Owned, Erase, Refs;
      var rest := children;
      for k := 0 to 256
        invariant forall e :: e in rest <==> e in children && e >= k
        invariant forall e :: e in rest ==> rest[e] == children[e]
        invariant forall x :: x in mem.nodes ==> x in mem0.nodes
        invariant Sound(mem, trees, ext + Refs<Byte>(rest))
        invariant Kept(mem0, trees0, mem, trees) && mem0.next == mem.next
      {
        if k in rest {
          var edge: Byte := k;
          var child := rest[edge];
          RefsRemove<Byte>(rest, edge);
          ghost var ext1 := ext + Refs<Byte>(rest);
          assert child in ext1;
          ExtAlive(mem, trees, ext1, child);
          ghost var mem1, trees1 := mem, trees;
          DropArc(child, ext1);
          assert ext1 - multiset{child} == ext + Refs<Byte>(rest - {edge});
          KeptTransitive(mem0, trees0, mem1, trees1, mem, trees);
          rest := rest - {edge};
        }
      }
      assert forall e: Byte :: e !in rest.Keys;
      assert rest.Keys == {};
      RefsEmpty<Byte>();
      Bags.AddNothing(ext);
    }

    /** A copy of the node for a new version, sharing the children. */
    method CowCloneInner(a: Addr, version: nat, ghost ext: multiset<Addr>) returns (n: VNode<V>)
      requires Sound(mem, trees, ext) && a in mem.nodes && a in trees && mem.nodes[a].version <= version
      modifies `mem
      ensures Sound(mem, trees, ext + KidRefs(n))
      ensures n == old(mem.nodes)[a].(version := version)
      ensures mem.nodes == old(mem.nodes) && mem.next == old(mem.next)
      ensures forall x :: x in old(mem.counts) ==> x in mem.counts && mem.counts[x] >= old(mem.counts)[x]
      ensures Owned(n, mem, trees) && Erase(n, trees) == trees[a]
    {
      hide Sound, Refs, HeapRefs, Erase, NodeOk;
      var source := mem.nodes[a];
      CopyOwned(mem, trees, ext, a, version);
      assert VKids(source.(version := version)) == VKids(source);
      var children := CloneKids(VKids(source), ext);
      n := VNode(source.prefix, source.value,
                 if source.content.VEmpty? then VEmpty else VInner(source.content.kind, children), version);
      assert n == source.(version := version);
    }

    method CloneKids(source: map<Byte, Addr>, ghost ext: multiset<Addr>) returns (children: map<Byte, Addr>)
      requires Sound(mem, trees, ext)
      requires forall k :: k in source ==> source[k] in mem.nodes
      modifies `mem
      ensures Sound(mem, trees, ext + Refs<Byte>(children))
      ensures children == source
      ensures mem.nodes == old(mem.nodes) && mem.next == old(mem.next)
      ensures forall x :: x in old(mem.counts) ==> x in mem.counts && mem.counts[x] >= old(mem.counts)[x]
    {
      hide Sound, Refs;
      children := map[];
      RefsEmpty<Byte>();
      Bags.AddNothing(ext);
      for k := 0 to 256
        invariant forall e :: e in children <==> e in source && e < k
        invariant forall e :: e in children ==> children[e] == source[e]
        invariant Sound(mem, trees, ext + Refs<Byte>(children))
        invariant mem.nodes == old(mem.nodes) && mem.next == old(mem.next)
        invariant forall x :: x in old(mem.counts) ==> x in mem.counts && mem.counts[x] >= old(mem.counts)[x]
      {
        if k in source {
          var edge: Byte := k;
          var child := source[edge];
          SoundCounts(mem, trees, ext + Refs<Byte>(children));
          CloneArc(child, ext + Refs<Byte>(children));
          RefsAdd<Byte>(children, edge, child);
          Bags.AddAssoc(ext, Refs<Byte>(children), multiset{child});
          children := children[edge := child];
        }
      }
      assert children.Keys == source.Keys;
    }

    /** Afterwards the node has the target version and is referenced once. */
    method EnsureCowNode(node: Addr, target: nat, ghost ext: multiset<Addr>) returns (a: Addr)
      requires Sound(mem, trees, ext) && node in ext && node in mem.nodes && node in mem.counts && node in trees
      requires mem.nodes[node].version <= target
      requires mem.nodes[node].version == target ==> mem.counts[node] == 1
      modifies `mem, `trees
      ensures Sound(mem, trees, ext - multiset{node} + multiset{a})
      ensures a in mem.nodes && a in mem.counts && mem.counts[a] == 1
      ensures mem.nodes[a] == old(mem.nodes)[node].(version := target)
      ensures a in trees && trees[a] == old(trees)[node]
      ensures Kept(old(mem), old(trees), mem, trees)
      ensures forall x :: x in mem.nodes && x != a ==> x in old(mem.nodes)
    {
      hide Sound, KidRefs, N.WellFormed, Kept, Erase, Owned;
      CopyOwned(mem, trees, ext, node, target);
      ExtAlive(mem, trees, ext, node);
      NodesBelowNext(mem, trees, ext);
      KeptRefl(mem, trees, ext);
      ghost var mem0, trees0 := mem, trees;
      if mem.nodes[node].version == target {
        Bags.RemoveAdd(ext, multiset{node});
        return node;
      }
      var owned := TryUnwrap(node, ext);
      if owned.Some? {
        var n := owned.value.(version := target);
        ghost var mem1, trees1 := mem, trees;
        NewerOwned(owned.value, mem, trees, target);
        Bags.Includes(ext - multiset{node}, KidRefs(n));
        a := NewArc(n, ext - multiset{node} + KidRefs(n));
        KeptTransitive(mem0, trees0, mem1, trees1, mem, trees);
        Bags.AddRemove(ext - multiset{node}, KidRefs(n));
      } else {
        var n := CowCloneInner(node, target, ext);
        ghost var mem1 := mem;
        Bags.Includes(ext, KidRefs(n));
        a := NewArc(n, ext + KidRefs(n));
        KeptCounts(mem0, mem1, trees0, mem, trees);
        Bags.AddRemove(ext, KidRefs(n));
        ghost var mem2, trees2 := mem, trees;
        DropArc(node, ext + multiset{a});
        KeptTransitive(mem0, trees0, mem2, trees2, mem, trees);
        Bags.AddThenRemove(ext, multiset{a}, multiset{node});
      }
    }

    /** `ensure_cow_node` followed by `Arc::try_unwrap`, which therefore cannot fail. */
    method OwnNode(node: Addr, target: nat, ghost ext: multiset<Addr>) returns (n: VNode<V>)
      requires Sound(mem, trees, ext) && node in ext && node in mem.nodes && node in mem.counts && node in trees
      requires mem.nodes[node].version < target
      modifies `mem, `trees
      ensures Sound(mem, trees, ext - multiset{node} + KidRefs(n))
      ensures n == old(mem.nodes)[node].(version := target)
      ensures Owned(n, mem, trees) && Erase(n, trees) == old(trees)[node]
      ensures Kept(old(mem), old(trees), mem, trees)
      ensures forall x :: x in mem.nodes ==> x in old(mem.nodes)
    {
      NodesBelowNext(mem, trees, ext);
      hide Sound, KidRefs, Owned, Erase, Kept;
      ghost var mem0, trees0 := mem, trees;
      var a := EnsureCowNode(node, target, ext);
      ghost var mem1, trees1 := mem, trees;
      var owned := TryUnwrap(a, ext - multiset{node} + multiset{a});
      KeptTransitive(mem0, trees0, mem1, trees1, mem, trees);
      Bags.AddRemove(ext - multiset{node}, multiset{a});
      n := owned.value;
    }

    // ----- Inserting -----

    /** The copied node with the first `at` bytes of its prefix cut off. */
    method SplitLower(cur: Addr, at: nat, version: nat, ghost ext: multiset<Addr>) returns (low: Addr)
      requires Sound(mem, trees, ext) && cur in mem.nodes && cur in trees
      requires mem.nodes[cur].version <= version && at < |mem.nodes[cur].prefix|
      modifies `mem, `trees
      ensures Sound(mem, trees, ext + multiset{low})
      ensures low in mem.nodes && mem.nodes[low].version == version
      ensures trees == old(trees)[low := old(trees)[cur].(prefix := old(mem.nodes)[cur].prefix[at..])]
      ensures mem.nodes == old(mem.nodes)[low := mem.nodes[low]] && VKids(mem.nodes[low]) == VKids(old(mem.nodes)[cur])
      ensures Kept(old(mem), old(trees), mem, trees)
    {
      hide Sound, KidRefs, Kept, Erase, Owned, N.WellFormed;
      CopyOwned(mem, trees, ext, cur, version);
      ghost var mem0, trees0, tree := mem, trees, trees[cur];
      var lower := CowCloneInner(cur, version, ext);
      ghost var mem1 := mem;
      CutPrefix(lower, mem, trees, at);
      lower := lower.(prefix := lower.prefix[at..]);
      Bags.Includes(ext, KidRefs(lower));
      low := NewArc(lower, ext + KidRefs(lower));
      KeptCounts(mem0, mem1, trees0, mem, trees);
      Bags.AddRemove(ext, KidRefs(lower));
    }

    method PlaceLeaf(prefix: Key, value: V, version: nat, ghost ext: multiset<Addr>) returns (leaf: Addr)
      requires Sound(mem, trees, ext)
      modifies `mem, `trees
      ensures Sound(mem, trees, ext + multiset{leaf})
      ensures leaf in mem.nodes && mem.nodes[leaf].version == version
      ensures leaf in trees && trees[leaf] == N.NewLeaf(prefix, value)
      ensures leaf == old(mem.next) && leaf !in old(mem.nodes)
      ensures mem.nodes == old(mem.nodes)[leaf := mem.nodes[leaf]]
      ensures Kept(old(mem), old(trees), mem, trees)
    {
      hide Sound, Kept, Refs;
      RefsEmpty<Byte>();
      leaf := NewArc(VNewLeaf(prefix, value, version), ext);
      assert ext - multiset{} == ext;
    }

    /** The new parent of a split node, next to the node it is made from. */
    method BuildSplit(cur: Addr, key: Key, value: V, depth: nat, version: nat, ghost ext: multiset<Addr>)
      returns (res: Addr, ghost low: Addr, ghost created: set<Addr>)
      requires Sound(mem, trees, ext) && cur in mem.nodes && cur in trees
      requires mem.nodes[cur].version < version && depth <= |key|
      requires CommonPrefix(mem.nodes[cur].prefix, key[depth..]) < |mem.nodes[cur].prefix|
      modifies `mem, `trees
      ensures Sound(mem, trees, ext + multiset{res})
      ensures res in mem.nodes && mem.nodes[res].version == version
      ensures res in trees && trees[res] == Ins(old(trees)[cur], key[depth..], value)
      ensures SplitInto(old(mem), cur, key[depth..], mem, res, low, created)
      ensures Kept(old(mem), old(trees), mem, trees)
    {
      hide Sound, KidRefs, Kept, Erase, Owned, N.WellFormed, SplitInto;
      ghost var mem0, trees0, tree := mem, trees, trees[cur];
      NodesBelowNext(mem, trees, ext);
      CopyOwned(mem, trees, ext, cur, version);
      var prefix := mem.nodes[cur].prefix;
      var lcp := CommonPrefix(prefix, key[depth..]);
      var lower := SplitLower(cur, lcp, version, ext);
      ghost var mem1, trees1 := mem, trees;
      low := lower;
      ghost var upper;
      res, upper, created := PlaceUpper(tree, prefix, lower, key, value, depth, version, ext, mem0, trees0);
      SplitPlaced(mem0, cur, key[depth..], mem1, mem, upper, res, low, created);
    }

    /** The upper part of a split prefix: with the value when the key ends there, else with a leaf. */
    method PlaceUpper(ghost tree: N.Node<V>, prefix: Key, low: Addr, key: Key, value: V, depth: nat, version: nat,
                      ghost ext: multiset<Addr>, ghost mem0: Memory<V>, ghost trees0: map<Addr, N.Node<V>>)
      returns (res: Addr, ghost upper: VNode<V>, ghost created: set<Addr>)
      requires Sound(mem, trees, ext + multiset{low}) && Kept(mem0, trees0, mem, trees)
      requires forall a :: a in mem0.nodes ==> a < mem0.next
      requires depth <= |key| && prefix == tree.prefix && CommonPrefix(prefix, key[depth..]) < |prefix|
      requires low in mem.nodes && mem.nodes[low].version == version && N.WellFormed(tree)
      requires low in trees && trees[low] == tree.(prefix := prefix[CommonPrefix(prefix, key[depth..])..])
      modifies `mem, `trees
      ensures Sound(mem, trees, ext + multiset{res})
      ensures res in mem.nodes && mem.nodes[res] == upper && upper.version == version
      ensures res in trees && trees[res] == Ins(tree, key[depth..], value)
      ensures Kept(mem0, trees0, mem, trees)
      ensures forall x :: x in old(mem.nodes) ==> x in mem.nodes && mem.nodes[x] == old(mem.nodes)[x]
      ensures forall x :: x in mem.nodes ==> x in old(mem.nodes) || x in created
      ensures low in created && |created| <= (if CommonPrefix(prefix, key[depth..]) == |key| - depth then 2 else 3)
      ensures prefix[CommonPrefix(prefix, key[depth..])] in VKids(upper)
      ensures VKids(upper)[prefix[CommonPrefix(prefix, key[depth..])]] == low
    {
      hide Sound, KidRefs, Kept, Erase, Owned, N.WellFormed, Ins, SplitAt, N.AddChild;
      InsSplits(tree, key[depth..], value);
      ghost var mem1, trees1 := mem, trees;
      var lcp := CommonPrefix(prefix, key[depth..]);
      var inner := VAddChild(VNewInner(prefix[..lcp], version), prefix[lcp], low);
      UpperOwned(tree, lcp, version, low, mem, trees);
      InsWellFormed(tree, key[depth..], value);
      if lcp == |key| - depth {
        Bags.Includes(ext, multiset{low});
        Bags.AddRemove(ext, multiset{low});
        ValueOwned(inner, Some(value), mem, trees);
        res := NewArc(inner.(value := Some(value)), ext + multiset{low});
        KeptTransitive(mem0, trees0, mem1, trees1, mem, trees);
        upper, created := inner.(value := Some(value)), {low, res};
      } else {
        assert key[depth..][lcp..] == key[depth + lcp..];
        ghost var leaf;
        res, leaf := UpperWithLeaf(inner, low, key[depth + lcp], key[depth + lcp..], value, ext, mem0, trees0);
        upper, created := VAddChild(inner, key[depth + lcp], leaf), {low, leaf, res};
      }
    }

    /** A new leaf next to the lower part. */
    method UpperWithLeaf(inner: VNode<V>, ghost low: Addr, edge: Byte, prefix: Key, value: V, ghost ext: multiset<Addr>,
                         ghost mem0: Memory<V>, ghost trees0: map<Addr, N.Node<V>>)
      returns (res: Addr, ghost leaf: Addr)
      requires Sound(mem, trees, ext + multiset{low}) && Kept(mem0, trees0, mem, trees)
      requires forall a :: a in mem0.nodes ==> a < mem0.next
      requires Owned(inner, mem, trees) && KidRefs(inner) == multiset{low} && edge !in VKids(inner)
      requires edge !in N.Kids(Erase(inner, trees))
      requires N.WellFormed(N.AddChild(Erase(inner, trees), edge, N.NewLeaf(prefix, value)))
      modifies `mem, `trees
      ensures Sound(mem, trees, ext + multiset{res})
      ensures res in mem.nodes && mem.nodes[res] == VAddChild(inner, edge, leaf)
      ensures res in trees && trees[res] == N.AddChild(Erase(inner, old(trees)), edge, N.NewLeaf(prefix, value))
      ensures Kept(mem0, trees0, mem, trees)
      ensures forall x :: x in old(mem.nodes) ==> x in mem.nodes && mem.nodes[x] == old(mem.nodes)[x]
      ensures forall x :: x in mem.nodes ==> x in old(mem.nodes) || x == leaf || x == res
    {
      hide Sound, KidRefs, Kept, Erase, Owned, N.WellFormed, N.AddChild;
      ghost var mem1, trees1 := mem, trees;
      NodesBelowNext(mem, trees, ext + multiset{low});
      var added := PlaceLeaf(prefix, value, inner.version, ext + multiset{low});
      leaf := added;
      KeptTransitive(mem0, trees0, mem1, trees1, mem, trees);
      res := AttachChild(inner, edge, added, ext, mem0, trees0, mem1, trees1);
    }

    /** Adds a child to a node in hand and puts the node into memory. */
    method AttachChild(n: VNode<V>, edge: Byte, child: Addr, ghost ext: multiset<Addr>,
                      ghost mem0: Memory<V>, ghost trees0: map<Addr, N.Node<V>>,
                      ghost mem1: Memory<V>, ghost trees1: map<Addr, N.Node<V>>) returns (res: Addr)
      requires Sound(mem, trees, ext + KidRefs(n) + multiset{child})
      requires Kept(mem0, trees0, mem, trees) && (forall a :: a in mem0.nodes ==> a < mem0.next)
      requires Kept(mem1, trees1, mem, trees) && Owned(n, mem1, trees1)
      requires child in mem.nodes && child in trees && mem.nodes[child].version <= n.version
      requires edge !in VKids(n)
      requires edge !in N.Kids(Erase(n, trees1)) ==> N.WellFormed(N.AddChild(Erase(n, trees1), edge, trees[child]))
      modifies `mem, `trees
      ensures Sound(mem, trees, ext + multiset{res})
      ensures res in mem.nodes && mem.nodes[res].version == n.version
      ensures edge !in N.Kids(Erase(n, trees1)) && child in old(trees)
      ensures res in trees && trees[res] == N.AddChild(Erase(n, trees1), edge, old(trees)[child])
      ensures Kept(mem0, trees0, mem, trees)
      ensures mem == Stored(old(mem), VAddChild(n, edge, child)) && res == old(mem.next)
      ensures trees == old(trees)[res := trees[res]] && res !in old(mem.nodes)
    {
      hide Sound, KidRefs, Kept, Erase, Owned, N.WellFormed;
      ghost var mem2, trees2 := mem, trees;
      ghost var refs := KidRefs(n) + multiset{child};
      Bags.AddAssoc(ext, KidRefs(n), multiset{child});
      Bags.AddSwap(ext, KidRefs(n), multiset{child});
      Bags.Includes(ext + multiset{child}, KidRefs(n));
      OwnedFrame(n, mem1, trees1, mem, trees, ext + KidRefs(n) + multiset{child});
      AddOwned(n, edge, child, mem, trees);
      Bags.Includes(ext, refs);
      Bags.AddRemove(ext, refs);
      res := NewArc(VAddChild(n, edge, child), ext + refs);
      KeptTransitive(mem0, trees0, mem2, trees2, mem, trees);
    }

    /** The key ends inside the prefix, or parts from it. */
    method InsertSplit(cur: Addr, key: Key, value: V, depth: nat, version: nat, ghost ext: multiset<Addr>)
      returns (res: Addr)
      requires Sound(mem, trees, ext) && cur in ext && cur in mem.nodes && cur in trees
      requires mem.nodes[cur].version < version && depth <= |key|
      requires CommonPrefix(mem.nodes[cur].prefix, key[depth..]) < |mem.nodes[cur].prefix|
      modifies `mem, `trees
      ensures Sound(mem, trees, ext - multiset{cur} + multiset{res})
      ensures res in mem.nodes && mem.nodes[res].version == version
      ensures res in trees && trees[res] == Ins(old(trees)[cur], key[depth..], value)
      ensures PathCopied(old(mem), old(trees), cur, key[depth..], mem, Some(res))
      ensures Kept(old(mem), old(trees), mem, trees)
    {
      hide Sound, Kept, Ins, PathCopied, SplitInto;
      ghost var mem0, trees0 := mem, trees;
      NodesBelowNext(mem, trees, ext);
      ghost var low, created;
      res, low, created := BuildSplit(cur, key, value, depth, version, ext);
      SplitCopied(mem0, trees0, cur, key[depth..], mem, res, low, created);
      ghost var mem1, trees1 := mem, trees;
      ExtAlive(mem, trees, ext + multiset{res}, cur);
      DropOther(cur, res, ext, mem0, trees0);
      CopiedAfterDrop(mem0, trees0, cur, key[depth..], mem1, trees1, mem, trees, ext - multiset{cur} + multiset{res},
                      Some(res));
    }

    /** Drops one reference while another one is in hand. */
    method DropOther(dropped: Addr, res: Addr, ghost ext: multiset<Addr>,
                     ghost mem0: Memory<V>, ghost trees0: map<Addr, N.Node<V>>)
      requires Sound(mem, trees, ext + multiset{res}) && dropped in ext && dropped in trees
      requires res in mem.nodes && res in trees
      requires Kept(mem0, trees0, mem, trees) && (forall a :: a in mem0.nodes ==> a < mem0.next)
      modifies `mem, `trees
      ensures Sound(mem, trees, ext - multiset{dropped} + multiset{res})
      ensures res in mem.nodes && mem.nodes[res] == old(mem.nodes)[res]
      ensures res in trees && trees[res] == old(trees)[res]
      ensures Kept(mem0, trees0, mem, trees)
      ensures Kept(old(mem), old(trees), mem, trees)
      ensures forall x :: x in mem.nodes ==> x in old(mem.nodes)
    {
      hide Sound;
      ghost var mem1, trees1 := mem, trees;
      DropArc(dropped, ext + multiset{res});
      KeptTransitive(mem0, trees0, mem1, trees1, mem, trees);
      Bags.AddThenRemove(ext, multiset{res}, multiset{dropped});
      ExtAlive(mem, trees, ext - multiset{dropped} + multiset{res}, res);
    }

    /** The key ends at the node: its slot is overwritten. */
    method InsertExact(cur: Addr, value: V, version: nat, ghost ext: multiset<Addr>)
      returns (res: Addr, previous: Option<V>)
      requires Sound(mem, trees, ext) && cur in ext && cur in mem.nodes && cur in trees && cur in mem.counts
      requires mem.nodes[cur].version < version
      modifies `mem, `trees
      ensures Sound(mem, trees, ext - multiset{cur} + multiset{res})
      ensures res in mem.nodes && mem.nodes[res].version == version
      ensures res in trees && trees[res] == old(trees)[cur].(value := Some(value))
      ensures previous == old(mem.nodes)[cur].value
      ensures VKids(mem.nodes[res]) == VKids(old(mem.nodes)[cur])
      ensures forall x :: x in mem.nodes ==> x in old(mem.nodes) || x == res
      ensures Kept(old(mem), old(trees), mem, trees)
    {
      hide Sound, KidRefs, Kept, Erase, Owned;
      ghost var mem0, trees0 := mem, trees;
      NodesBelowNext(mem, trees, ext);
      CopyOwned(mem, trees, ext, cur, version);
      var n := OwnNode(cur, version, ext);
      ghost var mem1, trees1 := mem, trees;
      previous := n.value;
      ValueOwned(n, Some(value), mem, trees);
      n := n.(value := Some(value));
      Bags.Includes(ext - multiset{cur}, KidRefs(n));
      res := NewArc(n, ext - multiset{cur} + KidRefs(n));
      KeptTransitive(mem0, trees0, mem1, trees1, mem, trees);
      Bags.AddRemove(ext - multiset{cur}, KidRefs(n));
    }

    /** The key continues under an edge that the node does not have. */
    method InsertEdge(cur: Addr, key: Key, value: V, depth: nat, version: nat, ghost ext: multiset<Addr>)
      returns (res: Addr, ghost leaf: Addr)
      requires Sound(mem, trees, ext) && cur in ext && cur in mem.nodes && cur in trees && cur in mem.counts
      requires mem.nodes[cur].version < version && depth < |key| && key[depth] !in VKids(mem.nodes[cur])
      modifies `mem, `trees
      ensures Sound(mem, trees, ext - multiset{cur} + multiset{res})
      ensures res in mem.nodes && mem.nodes[res].version == version
      ensures key[depth] !in N.Kids(old(trees)[cur])
      ensures res in trees && trees[res] == N.AddChild(old(trees)[cur], key[depth], N.NewLeaf(key[depth..], value))
      ensures VKids(mem.nodes[res]) == VKids(old(mem.nodes)[cur])[key[depth] := leaf]
      ensures forall x :: x in mem.nodes ==> x in old(mem.nodes) || x == res || x == leaf
      ensures Kept(old(mem), old(trees), mem, trees)
    {
      hide Sound, KidRefs, Kept, Erase, Owned, N.WellFormed;
      ghost var mem0, trees0, tree := mem, trees, trees[cur];
      NodesBelowNext(mem, trees, ext);
      CopyOwned(mem, trees, ext, cur, version);
      var n := OwnNode(cur, version, ext);
      ghost var mem1, trees1 := mem, trees;
      ghost var rest := ext - multiset{cur};
      var added := PlaceLeaf(key[depth..], value, version, rest + KidRefs(n));
      KeptTransitive(mem0, trees0, mem1, trees1, mem, trees);
      EdgeWellFormed(tree, key[depth..], value);
      leaf := added;
      res := AttachChild(n, key[depth], added, rest, mem0, trees0, mem1, trees1);
    }

    /** Takes the child under `k` out of the owned node `cur`, ready to be replaced. */
    method DetachChild(cur: Addr, k: Byte, version: nat, ghost ext: multiset<Addr>)
      returns (n: VNode<V>, child: Addr)
      requires Sound(mem, trees, ext) && cur in ext && cur in mem.nodes && cur in trees && cur in mem.counts
      requires mem.nodes[cur].version < version && k in VKids(mem.nodes[cur])
      modifies `mem, `trees
      ensures n == VDeleteChild(old(mem.nodes)[cur].(version := version), k)
      ensures k !in VKids(n)
      ensures Sound(mem, trees, ext - multiset{cur} + KidRefs(n) + multiset{child})
      ensures Owned(n, mem, trees)
      ensures k in N.Kids(old(trees)[cur]) && old(trees)[cur].content.Inner?
      ensures Erase(n, trees) == N.WithoutChild(old(trees)[cur], k)
      ensures child in mem.nodes && child in mem.counts && child in trees && mem.nodes[child].version < version
      ensures trees[child] == N.Kids(old(trees)[cur])[k] && trees[child] < old(trees)[cur]
      ensures child == VKids(old(mem.nodes)[cur])[k]
      ensures Kept(old(mem), old(trees), mem, trees)
      ensures forall x :: x in mem.nodes ==> x in old(mem.nodes)
    {
      hide Sound, KidRefs, Erase, Owned, Kept, N.WellFormed;
      ghost var mem0, trees0 := mem, trees;
      n := OwnNode(cur, version, ext);
      child := VKids(n)[k];
      DeleteOwned(n, k, mem, trees);
      ghost var rest := ext - multiset{cur};
      Bags.AddAssoc(rest, KidRefs(VDeleteChild(n, k)), multiset{child});
      n := VDeleteChild(n, k);
      Bags.Includes(rest + KidRefs(n), multiset{child});
      ExtAlive(mem, trees, rest + KidRefs(n) + multiset{child}, child);
      KidFacts(mem0, trees0, ext, cur, k, mem, trees);
    }

    /** Inserts below `cur`; the slot's previous value is handed back. */
    method InsertRecurse(cur: Addr, key: Key, value: V, depth: nat, version: nat, ghost ext: multiset<Addr>)
      returns (res: Addr, previous: Option<V>)
      requires Sound(mem, trees, ext) && cur in ext && cur in mem.nodes && cur in trees && cur in mem.counts
      requires mem.nodes[cur].version < version && depth <= |key|
      modifies `mem, `trees
      ensures Sound(mem, trees, ext - multiset{cur} + multiset{res})
      ensures res in mem.nodes && mem.nodes[res].version == version
      ensures res in trees && trees[res] == Ins(old(trees)[cur], key[depth..], value)
      ensures previous == N.Lookup(old(trees)[cur], key[depth..])
      ensures PathCopied(old(mem), old(trees), cur, key[depth..], mem, Some(res))
      ensures Kept(old(mem), old(trees), mem, trees)
      decreases trees[cur]
    {
      hide Sound, KidRefs, Kept, Erase, Owned, N.WellFormed, PathCopied;
      ghost var mem0, trees0, tree := mem, trees, trees[cur];
      NodesBelowNext(mem, trees, ext);
      CopyOwned(mem, trees, ext, cur, version);
      var prefix := mem.nodes[cur].prefix;
      var lcp := CommonPrefix(prefix, key[depth..]);
      previous := None;
      if lcp < |prefix| {
        res := InsertSplit(cur, key, value, depth, version, ext);
        return;
      }
      assert prefix <= key[depth..];
      assert key[depth..][lcp..] == key[depth + lcp..];
      if lcp == |key| - depth {
        res, previous := InsertExact(cur, value, version, ext);
        HereCopied(mem0, trees0, cur, key[depth..], mem, Some(res), {res});
        return;
      }
      var k := key[depth + lcp];
      if k !in VKids(mem.nodes[cur]) {
        ghost var leaf;
        res, leaf := InsertEdge(cur, key, value, depth + lcp, version, ext);
        HereCopied(mem0, trees0, cur, key[depth..], mem, Some(res), {res, leaf});
        return;
      }
      res, previous := InsertBelow(cur, k, key, value, depth, version, ext);
    }

    /** The key continues below a child: the child is detached, changed, and put back. */
    method InsertBelow(cur: Addr, k: Byte, key: Key, value: V, depth: nat, version: nat, ghost ext: multiset<Addr>)
      returns (res: Addr, previous: Option<V>)
      requires Sound(mem, trees, ext) && cur in ext && cur in mem.nodes && cur in trees && cur in mem.counts
      requires mem.nodes[cur].version < version && depth <= |key|
      requires var prefix := mem.nodes[cur].prefix;
               prefix < key[depth..] && k == key[depth + |prefix|] && k in VKids(mem.nodes[cur])
      modifies `mem, `trees
      ensures Sound(mem, trees, ext - multiset{cur} + multiset{res})
      ensures res in mem.nodes && mem.nodes[res].version == version
      ensures res in trees && trees[res] == Ins(old(trees)[cur], key[depth..], value)
      ensures previous == N.Lookup(old(trees)[cur], key[depth..])
      ensures PathCopied(old(mem), old(trees), cur, key[depth..], mem, Some(res))
      ensures Kept(old(mem), old(trees), mem, trees)
      decreases trees[cur], 0
    {
      hide Sound, KidRefs, Kept, Erase, Owned, N.WellFormed, PathCopied, Ins, N.Lookup;
      ghost var mem0, trees0, tree := mem, trees, trees[cur];
      NodesBelowNext(mem, trees, ext);
      CopyOwned(mem, trees, ext, cur, version);
      var at := depth + |mem.nodes[cur].prefix|;
      assert key[depth..][at - depth..] == key[at..];
      DescendLookup(tree, key[depth..]);
      DescendIns(tree, key[depth..], value);
      var n, child := DetachChild(cur, k, version, ext);
      ghost var mem1, trees1 := mem, trees;
      ghost var rest := ext - multiset{cur};
      Bags.Includes(rest + KidRefs(n), multiset{child});
      var newChild;
      newChild, previous := InsertRecurse(child, key, value, at, version, rest + KidRefs(n) + multiset{child});
      KeptTransitive(mem0, trees0, mem1, trees1, mem, trees);
      Bags.AddRemove(rest + KidRefs(n), multiset{child});
      Reattach(tree, k, trees[newChild]);
      InsWellFormed(tree, key[depth..], value);
      ghost var mem2 := mem;
      NewerNodes(mem1, trees1, mem, trees);
      res := AttachChild(n, k, newChild, rest, mem0, trees0, mem1, trees1);
      CopiedBelow(mem0, trees0, ext, cur, key[depth..], k, child, mem1, trees1, mem2, Some(newChild), n, mem, trees,
                  rest + multiset{res}, Some(res));
    }

    // ----- Removing -----

    /** Puts a node in hand back, unless it has neither value nor children left. */
    method PutOrPrune(n: VNode<V>, ghost ext: multiset<Addr>) returns (res: Option<Addr>)
      requires Sound(mem, trees, ext + KidRefs(n)) && Owned(n, mem, trees)
      requires Pruned(Erase(n, trees)).Some? ==> N.WellFormed(Erase(n, trees))
      modifies `mem, `trees
      ensures Sound(mem, trees, ext + RootRef(res))
      ensures Located(Pruned(Erase(n, old(trees))), res, n.version, mem, trees)
      ensures res.Some? ==> old(mem.next) !in old(mem.nodes)
      ensures if res.Some? then mem == Stored(old(mem), n) && res.value == old(mem.next)
              else mem == old(mem) && VKids(n) == map[]
      ensures Kept(old(mem), old(trees), mem, trees)
    {
      hide Sound, Kept, Erase, N.WellFormed, Refs;
      OwnedShape(n, mem, trees);
      if |VKids(n)| == 0 && n.value.None? {
        assert VKids(n) == map[];
        RefsEmpty<Byte>();
        KeptRefl(mem, trees, ext + KidRefs(n));
        return None;
      }
      Bags.Includes(ext, KidRefs(n));
      Bags.AddRemove(ext, KidRefs(n));
      var a := NewArc(n, ext + KidRefs(n));
      res := Some(a);
    }

    /**
     Removes a key that is present below `cur`. The early exits of the program for
     absent keys are not taken then.
     */
    method RemoveRecurse(cur: Addr, key: Key, depth: nat, version: nat, ghost ext: multiset<Addr>)
      returns (res: Option<Addr>, removed: V)
      requires Sound(mem, trees, ext) && cur in ext && cur in mem.nodes && cur in trees && cur in mem.counts
      requires mem.nodes[cur].version < version && depth <= |key|
      requires N.Lookup(trees[cur], key[depth..]).Some?
      modifies `mem, `trees
      ensures Sound(mem, trees, ext - multiset{cur} + RootRef(res))
      ensures Located(Rem(old(trees)[cur], key[depth..], false), res, version, mem, trees)
      ensures removed == N.Lookup(old(trees)[cur], key[depth..]).value
      ensures PathCopied(old(mem), old(trees), cur, key[depth..], mem, res)
      ensures Kept(old(mem), old(trees), mem, trees)
      decreases trees[cur]
    {
      hide Sound, KidRefs, Kept, Erase, Owned, N.WellFormed, RemBelow, PathCopied;
      ghost var mem0, trees0, tree := mem, trees, trees[cur];
      NodesBelowNext(mem, trees, ext);
      CopyOwned(mem, trees, ext, cur, version);
      var node := mem.nodes[cur];
      ghost var rest := ext - multiset{cur};
      if |node.prefix| == |key| - depth {
        assert node.prefix == key[depth..];
        res, removed := RemoveHere(cur, version, ext);
        HereCopied(mem0, trees0, cur, key[depth..], mem, res, if res.Some? then {res.value} else {});
        return;
      }
      var k := key[depth + |node.prefix|];
      var n, child := DetachChild(cur, k, version, ext);
      ghost var mem1, trees1 := mem, trees;
      Bags.Includes(rest + KidRefs(n), multiset{child});
      Bags.AddRemove(rest + KidRefs(n), multiset{child});
      assert key[depth..][|node.prefix|..] == key[depth + |node.prefix|..];
      var newChild;
      newChild, removed :=
        RemoveRecurse(child, key, depth + |node.prefix|, version, rest + KidRefs(n) + multiset{child});
      res := JoinRemoved(cur, key, depth, k, child, version, n, newChild, ext, mem0, trees0, mem1, trees1);
    }

    /** Puts the node together again around what a removal has left of its child. */
    method JoinRemoved(cur: Addr, ghost key: Key, ghost depth: nat, k: Byte, ghost child: Addr, ghost version: nat,
                       n: VNode<V>, newChild: Option<Addr>, ghost ext: multiset<Addr>,
                       ghost mem0: Memory<V>, ghost trees0: map<Addr, N.Node<V>>,
                       ghost mem1: Memory<V>, ghost trees1: map<Addr, N.Node<V>>) returns (res: Option<Addr>)
      requires Sound(mem0, trees0, ext) && cur in ext && cur in mem0.nodes && cur in trees0 && depth <= |key|
      requires var prefix := mem0.nodes[cur].prefix;
               prefix < key[depth..] && k == key[depth + |prefix|] && k in VKids(mem0.nodes[cur])
      requires child == VKids(mem0.nodes[cur])[k] && n == VDeleteChild(mem0.nodes[cur].(version := version), k)
      requires k !in VKids(n) && Owned(n, mem1, trees1) && child in mem1.nodes && child in trees1
      requires k in N.Kids(trees0[cur]) && trees0[cur].content.Inner?
      requires Erase(n, trees1) == N.WithoutChild(trees0[cur], k) && trees1[child] == N.Kids(trees0[cur])[k]
      requires Kept(mem0, trees0, mem1, trees1) && Kept(mem1, trees1, mem, trees)
      requires forall x :: x in mem1.nodes ==> x in mem0.nodes
      requires Sound(mem, trees, ext - multiset{cur} + KidRefs(n) + RootRef(newChild))
      requires var rest := key[depth + |mem0.nodes[cur].prefix|..];
               && Located(Rem(trees1[child], rest, false), newChild, version, mem, trees)
               && PathCopied(mem1, trees1, child, rest, mem, newChild)
      modifies `mem, `trees
      ensures Sound(mem, trees, ext - multiset{cur} + RootRef(res))
      ensures Located(Rem(trees0[cur], key[depth..], false), res, version, mem, trees)
      ensures PathCopied(mem0, trees0, cur, key[depth..], mem, res)
      ensures Kept(mem0, trees0, mem, trees)
    {
      hide Sound, KidRefs, Kept, Erase, Owned, N.WellFormed, RemBelow, Rem, PathCopied;
      ghost var tree, rest, at := trees0[cur], ext - multiset{cur}, depth + |mem0.nodes[cur].prefix|;
      NodesBelowNext(mem0, trees0, ext);
      CopyOwned(mem0, trees0, ext, cur, mem0.nodes[cur].version);
      assert key[depth..][at - depth..] == key[at..];
      RemWellFormed(tree, key[depth..], false);
      RemJoined(tree, key[depth..], if newChild.None? then None else Some(trees[newChild.value]));
      ghost var mem2, trees2 := mem, trees;
      KeptTransitive(mem0, trees0, mem1, trees1, mem, trees);
      NewerNodes(mem1, trees1, mem, trees);
      res := Rejoin(n, k, newChild, RemBelow(tree, key[at..], false), rest, mem1, trees1);
      KeptTransitive(mem0, trees0, mem2, trees2, mem, trees);
      CopiedBelow(mem0, trees0, ext, cur, key[depth..], k, child, mem1, trees1, mem2, newChild, n, mem, trees,
                  rest + RootRef(res), res);
    }

    /** Removes the value of the node itself. */
    method RemoveHere(cur: Addr, version: nat, ghost ext: multiset<Addr>) returns (res: Option<Addr>, removed: V)
      requires Sound(mem, trees, ext) && cur in ext && cur in mem.nodes && cur in trees && cur in mem.counts
      requires mem.nodes[cur].version < version && mem.nodes[cur].value.Some?
      modifies `mem, `trees
      ensures Sound(mem, trees, ext - multiset{cur} + RootRef(res))
      ensures Located(Pruned(old(trees)[cur].(value := None)), res, version, mem, trees)
      ensures Some(removed) == old(trees)[cur].value
      ensures KidsAt(mem, res) == VKids(old(mem.nodes)[cur])
      ensures forall x :: x in mem.nodes ==> x in old(mem.nodes) || res == Some(x)
      ensures Kept(old(mem), old(trees), mem, trees)
    {
      hide Sound, KidRefs, Kept, Erase, Owned, N.WellFormed, Rem;
      ghost var mem0, trees0, tree := mem, trees, trees[cur];
      ghost var rest := ext - multiset{cur};
      NodesBelowNext(mem, trees, ext);
      CopyOwned(mem, trees, ext, cur, version);
      NodeShape(mem, trees, ext, cur);
      ValueTaken(tree);
      removed := mem.nodes[cur].value.value;
      if mem.nodes[cur].content.VEmpty? {
        DropArc(cur, ext);
        Bags.AddNothing(rest);
        return None, removed;
      }
      var n := OwnNode(cur, version, ext);
      ghost var mem1, trees1 := mem, trees;
      ValueOwned(n, None, mem, trees);
      n := n.(value := None);
      res := PutOrPrune(n, rest);
      KeptTransitive(mem0, trees0, mem1, trees1, mem, trees);
    }

    /** Deletes a key that is present below `cur`; the value is dropped where it is. */
    method DeleteRecurse(cur: Addr, key: Key, depth: nat, version: nat, ghost ext: multiset<Addr>)
      returns (res: Option<Addr>)
      requires Sound(mem, trees, ext) && cur in ext && cur in mem.nodes && cur in trees && cur in mem.counts
      requires mem.nodes[cur].version < version && depth <= |key|
      requires N.Lookup(trees[cur], key[depth..]).Some?
      modifies `mem, `trees
      ensures Sound(mem, trees, ext - multiset{cur} + RootRef(res))
      ensures Located(Rem(old(trees)[cur], key[depth..], false), res, version, mem, trees)
      ensures PathCopied(old(mem), old(trees), cur, key[depth..], mem, res)
      ensures Kept(old(mem), old(trees), mem, trees)
      decreases trees[cur]
    {
      hide Sound, KidRefs, Kept, Erase, Owned, N.WellFormed, RemBelow, PathCopied;
      ghost var mem0, trees0, tree := mem, trees, trees[cur];
      NodesBelowNext(mem, trees, ext);
      CopyOwned(mem, trees, ext, cur, version);
      var node := mem.nodes[cur];
      ghost var rest := ext - multiset{cur};
      if |node.prefix| == |key| - depth {
        assert node.prefix == key[depth..];
        res := DeleteHere(cur, version, ext);
        HereCopied(mem0, trees0, cur, key[depth..], mem, res, if res.Some? then {res.value} else {});
        return;
      }
      var k := key[depth + |node.prefix|];
      var n, child := DetachChild(cur, k, version, ext);
      ghost var mem1, trees1 := mem, trees;
      Bags.Includes(rest + KidRefs(n), multiset{child});
      Bags.AddRemove(rest + KidRefs(n), multiset{child});
      assert key[depth..][|node.prefix|..] == key[depth + |node.prefix|..];
      var newChild := DeleteRecurse(child, key, depth + |node.prefix|, version, rest + KidRefs(n) + multiset{child});
      res := JoinRemoved(cur, key, depth, k, child, version, n, newChild, ext, mem0, trees0, mem1, trees1);
    }

    /** Drops the value of the node itself; a leaf goes with its value. */
    method DeleteHere(cur: Addr, version: nat, ghost ext: multiset<Addr>) returns (res: Option<Addr>)
      requires Sound(mem, trees, ext) && cur in ext && cur in mem.nodes && cur in trees && cur in mem.counts
      requires mem.nodes[cur].version < version && mem.nodes[cur].value.Some?
      modifies `mem, `trees
      ensures Sound(mem, trees, ext - multiset{cur} + RootRef(res))
      ensures Located(Pruned(old(trees)[cur].(value := None)), res, version, mem, trees)
      ensures KidsAt(mem, res) == VKids(old(mem.nodes)[cur])
      ensures forall x :: x in mem.nodes ==> x in old(mem.nodes) || res == Some(x)
      ensures Kept(old(mem), old(trees), mem, trees)
    {
      hide Sound, KidRefs, Kept, Erase, Owned, N.WellFormed, Rem;
      ghost var mem0, trees0, tree := mem, trees, trees[cur];
      ghost var rest := ext - multiset{cur};
      NodesBelowNext(mem, trees, ext);
      CopyOwned(mem, trees, ext, cur, version);
      NodeShape(mem, trees, ext, cur);
      ValueTaken(tree);
      if mem.nodes[cur].content.VEmpty? {
        DropArc(cur, ext);
        Bags.AddNothing(rest);
        return None;
      }
      var n := OwnNode(cur, version, ext);
      ghost var mem1, trees1 := mem, trees;
      ValueOwned(n, None, mem, trees);
      n := n.(value := None);
      res := PutOrPrune(n, rest);
      KeptTransitive(mem0, trees0, mem1, trees1, mem, trees);
    }

    /** Hangs what is left of the child back under `n` and puts `n` back. */
    method Rejoin(n: VNode<V>, k: Byte, child: Option<Addr>, ghost joined: N.Node<V>, ghost ext: multiset<Addr>,
                  ghost mem1: Memory<V>, ghost trees1: map<Addr, N.Node<V>>) returns (res: Option<Addr>)
      requires Sound(mem, trees, ext + KidRefs(n) + RootRef(child))
      requires Kept(mem1, trees1, mem, trees) && Owned(n, mem1, trees1) && k !in VKids(n)
      requires child.Some? ==>
                 child.value in mem.nodes && child.value in trees && mem.nodes[child.value].version <= n.version
      requires k !in N.Kids(Erase(n, trees1))
      requires joined == if child.None? then Erase(n, trees1) else N.AddChild(Erase(n, trees1), k, trees[child.value])
      requires Pruned(joined).Some? ==> N.WellFormed(joined)
      modifies `mem, `trees
      ensures Sound(mem, trees, ext + RootRef(res))
      ensures Located(Pruned(joined), res, n.version, mem, trees)
      ensures PutAround(n, k, child, old(mem), mem, res)
      ensures Kept(old(mem), old(trees), mem, trees)
    {
      hide Sound, KidRefs, Kept, Erase, Owned, N.WellFormed;
      Bags.AddAssoc(ext, KidRefs(n), RootRef(child));
      Bags.AddSwap(ext, KidRefs(n), RootRef(child));
      Bags.Includes(ext + RootRef(child), KidRefs(n));
      OwnedFrame(n, mem1, trees1, mem, trees, ext + KidRefs(n) + RootRef(child));
      if child.None? {
        Bags.AddNothing(ext + KidRefs(n));
        res := PutOrPrune(n, ext);
      } else {
        AddOwned(n, k, child.value, mem, trees);
        res := PutOrPrune(VAddChild(n, k, child.value), ext);
      }
    }

    // ----- Writing in place -----

    /**
     Makes every node on the path of a present key singly owned. The tree stays the
     same; its path is rebuilt from nodes of the new version.
     */
    method CowPathToKey(cur: Addr, key: Key, depth: nat, version: nat, ghost ext: multiset<Addr>) returns (res: Addr)
      requires Sound(mem, trees, ext) && cur in ext && cur in mem.nodes && cur in trees && cur in mem.counts
      requires mem.nodes[cur].version < version && depth <= |key|
      requires N.Lookup(trees[cur], key[depth..]).Some?
      modifies `mem, `trees
      ensures Sound(mem, trees, ext - multiset{cur} + multiset{res})
      ensures res in mem.nodes && mem.nodes[res].version == version
      ensures res in trees && trees[res] == old(trees)[cur]
      ensures PathUnique(mem, trees, res, key[depth..])
      ensures PathCopied(old(mem), old(trees), cur, key[depth..], mem, Some(res))
      ensures Kept(old(mem), old(trees), mem, trees)
      decreases trees[cur]
    {
      hide Sound, KidRefs, Kept, Erase, Owned, N.WellFormed, PathCopied;
      ghost var mem0, trees0, tree := mem, trees, trees[cur];
      NodesBelowNext(mem, trees, ext);
      CopyOwned(mem, trees, ext, cur, version);
      var node := mem.nodes[cur];
      if |node.prefix| == |key| - depth {
        res := RenewNode(cur, version, ext);
        HereCopied(mem0, trees0, cur, key[depth..], mem, Some(res), {res});
        return;
      }
      assert key[depth..][|node.prefix|..] == key[depth + |node.prefix|..];
      res := CowBelow(cur, key[depth + |node.prefix|], key, depth, version, ext);
    }

    method CowBelow(cur: Addr, k: Byte, key: Key, depth: nat, version: nat, ghost ext: multiset<Addr>)
      returns (res: Addr)
      requires Sound(mem, trees, ext) && cur in ext && cur in mem.nodes && cur in trees && cur in mem.counts
      requires mem.nodes[cur].version < version && depth <= |key|
      requires var prefix := mem.nodes[cur].prefix;
               prefix < key[depth..] && k == key[depth + |prefix|] && k in VKids(mem.nodes[cur])
      requires N.Lookup(trees[cur], key[depth..]).Some?
      modifies `mem, `trees
      ensures Sound(mem, trees, ext - multiset{cur} + multiset{res})
      ensures res in mem.nodes && mem.nodes[res].version == version
      ensures res in trees && trees[res] == old(trees)[cur]
      ensures PathUnique(mem, trees, res, key[depth..])
      ensures PathCopied(old(mem), old(trees), cur, key[depth..], mem, Some(res))
      ensures Kept(old(mem), old(trees), mem, trees)
      decreases trees[cur], 0
    {
      hide Sound, KidRefs, Kept, Erase, Owned, N.WellFormed, N.Lookup, PathUnique, PathCopied;
      ghost var mem0, trees0, tree := mem, trees, trees[cur];
      NodesBelowNext(mem, trees, ext);
      CopyOwned(mem, trees, ext, cur, version);
      var prefix, at := mem.nodes[cur].prefix, depth + |mem.nodes[cur].prefix|;
      assert key[depth..][|prefix|..] == key[at..];
      DescendLookup(tree, key[depth..]);
      var n, child := DetachChild(cur, k, version, ext);
      ghost var mem1, trees1, rest := mem, trees, ext - multiset{cur};
      Bags.Includes(rest + KidRefs(n), multiset{child});
      Bags.AddRemove(rest + KidRefs(n), multiset{child});
      var newChild := CowPathToKey(child, key, at, version, rest + KidRefs(n) + multiset{child});
      KeptTransitive(mem0, trees0, mem1, trees1, mem, trees);
      Reattach(tree, k, trees[newChild]);
      SameChild(tree, k);
      ghost var mem2, trees2 := mem, trees;
      NewerNodes(mem1, trees1, mem, trees);
      res := AttachChild(n, k, newChild, rest, mem0, trees0, mem1, trees1);
      CopiedBelow(mem0, trees0, ext, cur, key[depth..], k, child, mem1, trees1, mem2, Some(newChild), n, mem, trees,
                  rest + multiset{res}, Some(res));
      PathUp(mem2, trees2, rest + KidRefs(n) + multiset{newChild}, n, k, newChild, key[depth..], tree, mem, trees, res);
    }

    method RenewNode(cur: Addr, version: nat, ghost ext: multiset<Addr>) returns (res: Addr)
      requires Sound(mem, trees, ext) && cur in ext && cur in mem.nodes && cur in trees && cur in mem.counts
      requires mem.nodes[cur].version < version
      modifies `mem, `trees
      ensures Sound(mem, trees, ext - multiset{cur} + multiset{res})
      ensures res in mem.nodes && mem.nodes[res] == old(mem.nodes)[cur].(version := version)
      ensures res in trees && trees[res] == old(trees)[cur]
      ensures res in mem.counts && mem.counts[res] == 1
      ensures forall x :: x in mem.nodes ==> x in old(mem.nodes) || x == res
      ensures Kept(old(mem), old(trees), mem, trees)
    {
      hide Sound, KidRefs, Kept, Erase, Owned, N.WellFormed;
      ghost var mem0, trees0 := mem, trees;
      NodesBelowNext(mem, trees, ext);
      CopyOwned(mem, trees, ext, cur, version);
      var n := OwnNode(cur, version, ext);
      ghost var mem1, trees1 := mem, trees;
      Bags.Includes(ext - multiset{cur}, KidRefs(n));
      res := NewArc(n, ext - multiset{cur} + KidRefs(n));
      KeptTransitive(mem0, trees0, mem1, trees1, mem, trees);
      Bags.AddRemove(ext - multiset{cur}, KidRefs(n));
    }

    /** `Arc::get_mut`: granted, because the count is one. The node is out of memory meanwhile. */
    method BorrowMut(cur: Addr, ghost ext: multiset<Addr>) returns (n: VNode<V>)
      requires Sound(mem, trees, ext) && cur in ext && cur in mem.counts && mem.counts[cur] == 1
      modifies `mem, `trees
      ensures cur in old(mem.nodes) && n == old(mem.nodes)[cur] && cur in old(trees)
      ensures mem == Taken(old(mem), cur) && trees == old(trees) - {cur}
      ensures Sound(mem, trees, ext - multiset{cur} + KidRefs(n))
      ensures Owned(n, mem, trees) && Erase(n, trees) == old(trees)[cur]
      ensures cur < mem.next && cur !in ext - multiset{cur} && ext - multiset{cur} + multiset{cur} == ext
      ensures OthersKept(ext - multiset{cur}, old(mem), old(trees), mem, trees)
    {
      hide Sound, KidRefs, Erase, Owned, Kept, OthersKept;
      ghost var mem0, trees0 := mem, trees;
      SoleOwner(mem, trees, ext, cur);
      NodesBelowNext(mem, trees, ext);
      Bags.RemoveAdd(ext, multiset{cur});
      var borrowed := TryUnwrap(cur, ext);
      n := borrowed.value;
      Bags.Includes(KidRefs(n), ext - multiset{cur});
      TakenOthers(ext - multiset{cur}, cur, mem0, trees0, mem, trees, ext - multiset{cur} + KidRefs(n));
    }

    method WriteHere(cur: Addr, value: V, ghost ext: multiset<Addr>)
      requires Sound(mem, trees, ext) && cur in ext && cur in mem.nodes && cur in trees
      requires cur in mem.counts && mem.counts[cur] == 1
      modifies `mem, `trees
      ensures Sound(mem, trees, ext)
      ensures cur in mem.nodes && mem.nodes[cur].version == old(mem.nodes)[cur].version
      ensures cur in trees && trees[cur] == old(trees)[cur].(value := Some(value))
      ensures OthersKept(ext - multiset{cur}, old(mem), old(trees), mem, trees)
      ensures SameKids(old(mem), mem) && mem.next == old(mem.next)
    {
      hide Sound, KidRefs, Erase, Owned, OthersKept;
      ghost var mem0, trees0 := mem, trees;
      CopyOwned(mem, trees, ext, cur, mem.nodes[cur].version);
      var n := BorrowMut(cur, ext);
      ValueOwned(n, Some(value), mem, trees);
      PutBack(cur, n.(value := Some(value)), ext - multiset{cur}, mem0, trees0);
    }

    /**
     Writes through the path that `CowPathToKey` has made singly owned. Each node on
     it keeps its address.
     */
    method WriteReady(cur: Addr, key: Key, depth: nat, value: V, ghost ext: multiset<Addr>)
      requires Sound(mem, trees, ext) && cur in ext && cur in mem.nodes && cur in trees && cur in mem.counts
      requires depth <= |key| && N.Lookup(trees[cur], key[depth..]).Some?
      requires PathUnique(mem, trees, cur, key[depth..])
      modifies `mem, `trees
      ensures Sound(mem, trees, ext)
      ensures cur in mem.nodes && mem.nodes[cur].version == old(mem.nodes)[cur].version
      ensures cur in trees && trees[cur] == Ins(old(trees)[cur], key[depth..], value)
      ensures OthersKept(ext - multiset{cur}, old(mem), old(trees), mem, trees)
      ensures SameKids(old(mem), mem) && mem.next == old(mem.next)
      decreases trees[cur]
    {
      hide Sound, KidRefs, Erase, Owned, OthersKept, N.WellFormed, PathUnique, N.Lookup, Ins;
      ghost var mem0, trees0, tree := mem, trees, trees[cur];
      CopyOwned(mem, trees, ext, cur, mem.nodes[cur].version);
      PathCount(mem, trees, cur, key[depth..]);
      LookupStep(tree, key[depth..], value);
      if |mem.nodes[cur].prefix| == |key| - depth {
        WriteHere(cur, value, ext);
        return;
      }
      var n := BorrowMut(cur, ext);
      ghost var rest := ext - multiset{cur};
      ghost var mem1, trees1 := mem, trees;
      assert key[depth..][|n.prefix|..] == key[depth + |n.prefix|..];
      var k := key[depth + |n.prefix|];
      Bags.Includes(rest, KidRefs(n));
      BorrowDown(mem0, trees0, cur, key[depth..], k, rest + KidRefs(n), mem, trees);
      OwnedKids(n, k, mem, trees);
      WriteReady(VKids(n)[k], key, depth + |n.prefix|, value, rest + KidRefs(n));
      SameKidsAround(mem0, cur, mem1, mem);
      WriteBack(cur, n, k, key[depth..], value, rest, mem0, trees0, mem1, trees1);
    }

    /** Ends the borrow of a node whose child under `k` was written to. */
    method WriteBack(cur: Addr, n: VNode<V>, k: Byte, ghost key: Key, ghost value: V, ghost rest: multiset<Addr>,
                     ghost mem0: Memory<V>, ghost trees0: map<Addr, N.Node<V>>,
                     ghost mem1: Memory<V>, ghost trees1: map<Addr, N.Node<V>>)
      requires Sound(mem, trees, rest + KidRefs(n)) && cur !in mem.nodes && cur < mem.next && cur !in rest
      requires Owned(n, mem1, trees1) && k in VKids(n) && (rest + KidRefs(n))[VKids(n)[k]] == 1
      requires OthersKept(rest, mem0, trees0, mem1, trees1)
      requires OthersKept(rest + KidRefs(n) - multiset{VKids(n)[k]}, mem1, trees1, mem, trees)
      requires var child := VKids(n)[k];
               && child in mem.nodes && child in trees && mem.nodes[child].version == mem1.nodes[child].version
               && n.prefix < key && k == key[|n.prefix|] && trees[child] == Ins(trees1[child], key[|n.prefix|..], value)
      requires N.WellFormed(Erase(n, trees1))
      modifies `mem, `trees
      ensures Sound(mem, trees, rest + multiset{cur})
      ensures cur in mem.nodes && mem.nodes[cur] == n
      ensures cur in trees && trees[cur] == Ins(Erase(n, trees1), key, value)
      ensures OthersKept(rest, mem0, trees0, mem, trees)
      ensures mem.nodes == old(mem.nodes)[cur := n] && mem.next == old(mem.next)
    {
      hide Sound, KidRefs, Erase, OthersKept, N.WellFormed, Ins;
      BorrowBack(n, k, rest, mem1, trees1, mem, trees);
      OthersTransitive(rest, mem0, trees0, mem1, trees1, mem, trees);
      OwnedKids(n, k, mem1, trees1);
      DescendIns(Erase(n, trees1), key, value);
      InsWellFormed(Erase(n, trees1), key, value);
      PutBack(cur, n, rest, mem0, trees0);
    }

    method PutBack(a: Addr, n: VNode<V>, ghost ext: multiset<Addr>, ghost mem0: Memory<V>,
                   ghost trees0: map<Addr, N.Node<V>>)
      requires Sound(mem, trees, ext + KidRefs(n)) && a !in mem.nodes && a < mem.next
      requires Owned(n, mem, trees) && N.WellFormed(Erase(n, trees))
      requires a !in ext && OthersKept(ext, mem0, trees0, mem, trees)
      modifies `mem, `trees
      ensures Sound(mem, trees, ext + multiset{a})
      ensures a in mem.nodes && mem.nodes[a] == n && a in trees && trees[a] == Erase(n, old(trees))
      ensures OthersKept(ext, mem0, trees0, mem, trees)
      ensures mem.nodes == old(mem.nodes)[a := n] && mem.next == old(mem.next)
    {
      hide Sound, KidRefs, Erase, N.WellFormed;
      Bags.Includes(ext, KidRefs(n));
      Bags.AddRemove(ext, KidRefs(n));
      PlaceSound(mem, trees, ext + KidRefs(n), a, n, mem.next);
      trees := trees[a := Erase(n, trees)];
      mem := Memory(mem.nodes[a := n], mem.counts[a := 1], mem.next);
    }

    // ----- Slot updates -----

    /** The slot of the key is at `cur` and occupied. */
    method UpdateOccupied(cur: Addr, version: nat, update: CallOnce<V, SlotUpdate<V>>, ghost key: Key,
                          ghost ext: multiset<Addr>)
      returns (res: Option<Addr>)
      requires Sound(mem, trees, ext) && cur in ext && cur in mem.nodes && cur in trees && cur in mem.counts
      requires mem.nodes[cur].version < version && mem.nodes[cur].value.Some? && key == mem.nodes[cur].prefix
      requires update.callback.Some?
      modifies `mem, `trees, update
      ensures update.callback.None? && update.calls == old(update.calls) + [old(mem.nodes)[cur].value]
      ensures Sound(mem, trees, ext - multiset{cur} + RootRef(res))
      ensures Located(UpdatedTree(old(trees)[cur], key, old(update.callback).value, false), res, version, mem, trees)
      ensures KidsAt(mem, res) == VKids(old(mem.nodes)[cur])
      ensures forall x :: x in mem.nodes ==> x in old(mem.nodes) || res == Some(x)
      ensures Kept(old(mem), old(trees), mem, trees)
    {
      hide Sound, KidRefs, Kept, Erase, Owned, N.WellFormed;
      ghost var mem0, trees0, tree := mem, trees, trees[cur];
      NodesBelowNext(mem, trees, ext);
      CopyOwned(mem, trees, ext, cur, version);
      UpdatedHere(tree, update.callback.value);
      var n := OwnNode(cur, version, ext);
      ghost var mem1, trees1 := mem, trees;
      var left, action := update.RunOccupied(n.value.value);
      var value := match action case Keep => Some(left) case Insert(v) => Some(v) case Remove => None;
      ValueOwned(n, value, mem, trees);
      n := n.(value := value);
      res := PutOrPrune(n, ext - multiset{cur});
      KeptTransitive(mem0, trees0, mem1, trees1, mem, trees);
    }

    /** The slot of the key does not exist below `cur` and is created. */
    method InsertVacant(cur: Addr, key: Key, value: V, depth: nat, version: nat, ghost ext: multiset<Addr>)
      returns (res: Addr)
      requires Sound(mem, trees, ext) && cur in ext && cur in mem.nodes && cur in trees && cur in mem.counts
      requires mem.nodes[cur].version < version && depth <= |key|
      requires var prefix := mem.nodes[cur].prefix;
               var lcp := CommonPrefix(prefix, key[depth..]);
               lcp == |prefix| < |key| - depth ==> key[depth + lcp] !in VKids(mem.nodes[cur])
      modifies `mem, `trees
      ensures Sound(mem, trees, ext - multiset{cur} + multiset{res})
      ensures Located(Some(Ins(old(trees)[cur], key[depth..], value)), Some(res), version, mem, trees)
      ensures PathCopied(old(mem), old(trees), cur, key[depth..], mem, Some(res))
      ensures Kept(old(mem), old(trees), mem, trees)
    {
      hide Sound, Kept, N.WellFormed, PathCopied;
      ghost var mem0, trees0 := mem, trees;
      NodesBelowNext(mem, trees, ext);
      CopyOwned(mem, trees, ext, cur, version);
      var prefix := mem.nodes[cur].prefix;
      var lcp := CommonPrefix(prefix, key[depth..]);
      if lcp < |prefix| {
        res := InsertSplit(cur, key, value, depth, version, ext);
        return;
      }
      assert key[depth..][lcp..] == key[depth + lcp..];
      if lcp == |key| - depth {
        var previous;
        res, previous := InsertExact(cur, value, version, ext);
        HereCopied(mem0, trees0, cur, key[depth..], mem, Some(res), {res});
      } else {
        ghost var leaf;
        res, leaf := InsertEdge(cur, key, value, depth + lcp, version, ext);
        HereCopied(mem0, trees0, cur, key[depth..], mem, Some(res), {res, leaf});
      }
    }

    /** Runs the callback on a vacant slot. */
    static method VersionedVacantUpdate(update: CallOnce<V, SlotUpdate<V>>) returns (r: Option<V>)
      requires update.callback.Some?
      modifies update
      ensures update.callback.None? && update.calls == old(update.calls) + [None]
      ensures r == match old(update.callback).value.vacant case Insert(v) => Some(v) case _ => None
    {
      var answer := update.RunVacant();
      match answer
      case Insert(value) => r := Some(value);
      case Keep => r := None;
      case Remove => r := None;
    }

    /**
     Runs the callback once, on the slot of the key. `changed` is false exactly when the
     slot is vacant and the callback leaves it so; then nothing is copied.
     */
    method UpdateRecurse(cur: Addr, key: Key, depth: nat, version: nat, update: CallOnce<V, SlotUpdate<V>>,
                         ghost ext: multiset<Addr>)
      returns (res: Option<Addr>, changed: bool)
      requires Sound(mem, trees, ext) && cur in ext && cur in mem.nodes && cur in trees && cur in mem.counts
      requires mem.nodes[cur].version < version && depth <= |key| && update.callback.Some?
      modifies `mem, `trees, update
      ensures update.callback.None? && update.calls == old(update.calls) + [N.Lookup(old(trees)[cur], key[depth..])]
      ensures changed <==> N.Lookup(old(trees)[cur], key[depth..]).Some? || old(update.callback).value.vacant.Insert?
      ensures Sound(mem, trees, ext - multiset{cur} + RootRef(res))
      ensures if changed then
                && Located(UpdatedTree(old(trees)[cur], key[depth..], old(update.callback).value, false), res, version,
                           mem, trees)
                && PathCopied(old(mem), old(trees), cur, key[depth..], mem, res)
              else
                res == Some(cur) && forall x :: x in mem.nodes ==> x in old(mem.nodes)
      ensures Kept(old(mem), old(trees), mem, trees)
      decreases trees[cur]
    {
      hide Sound, KidRefs, Kept, Erase, Owned, N.WellFormed, N.Lookup, Ins, Rem, PathCopied;
      ghost var mem0, trees0, tree := mem, trees, trees[cur];
      NodesBelowNext(mem, trees, ext);
      CopyOwned(mem, trees, ext, cur, version);
      var node := mem.nodes[cur];
      var lcp := CommonPrefix(node.prefix, key[depth..]);
      if lcp == |node.prefix| == |key| - depth && node.value.Some? {
        assert node.prefix == key[depth..];
        ExactLookup(tree, key[depth..]);
        res := UpdateOccupied(cur, version, update, key[depth..], ext);
        HereCopied(mem0, trees0, cur, key[depth..], mem, res, if res.Some? then {res.value} else {});
        return res, true;
      }
      if lcp < |node.prefix| || lcp == |key| - depth || key[depth + lcp] !in VKids(node) {
        VacantSlot(tree, key[depth..]);
        res, changed := UpdateVacant(cur, key, depth, version, update, ext);
        return;
      }
      var k := key[depth + lcp];
      assert key[depth..][lcp..] == key[depth + lcp..];
      res, changed := UpdateBelowChild(cur, k, key, depth, version, update, ext);
    }

    /** Runs the callback on the slot that `cur` does not have, and creates the slot if it is told to. */
    method UpdateVacant(cur: Addr, key: Key, depth: nat, version: nat, update: CallOnce<V, SlotUpdate<V>>,
                        ghost ext: multiset<Addr>)
      returns (res: Option<Addr>, changed: bool)
      requires Sound(mem, trees, ext) && cur in ext && cur in mem.nodes && cur in trees && cur in mem.counts
      requires mem.nodes[cur].version < version && depth <= |key| && update.callback.Some?
      requires var prefix := mem.nodes[cur].prefix;
               var lcp := CommonPrefix(prefix, key[depth..]);
               lcp == |prefix| < |key| - depth ==> key[depth + lcp] !in VKids(mem.nodes[cur])
      modifies `mem, `trees, update
      ensures update.callback.None? && update.calls == old(update.calls) + [None]
      ensures changed <==> old(update.callback).value.vacant.Insert?
      ensures Sound(mem, trees, ext - multiset{cur} + RootRef(res))
      ensures if changed then
                && Located(Some(Ins(old(trees)[cur], key[depth..], old(update.callback).value.vacant.value)), res,
                           version, mem, trees)
                && PathCopied(old(mem), old(trees), cur, key[depth..], mem, res)
              else
                res == Some(cur) && mem == old(mem) && trees == old(trees)
      ensures Kept(old(mem), old(trees), mem, trees)
    {
      hide Sound, Kept, Ins, PathCopied;
      var value := VersionedVacantUpdate(update);
      if value.None? {
        KeptRefl(mem, trees, ext);
        Bags.RemoveAdd(ext, multiset{cur});
        return Some(cur), false;
      }
      var a := InsertVacant(cur, key, value.value, depth, version, ext);
      return Some(a), true;
    }

    /** The child is updated through a second reference to it, then replaced. */
    method UpdateBelowChild(cur: Addr, k: Byte, key: Key, depth: nat, version: nat, update: CallOnce<V, SlotUpdate<V>>,
                            ghost ext: multiset<Addr>)
      returns (res: Option<Addr>, changed: bool)
      requires Sound(mem, trees, ext) && cur in ext && cur in mem.nodes && cur in trees && cur in mem.counts
      requires mem.nodes[cur].version < version && depth <= |key| && update.callback.Some?
      requires var prefix := mem.nodes[cur].prefix;
               prefix < key[depth..] && k == key[depth + |prefix|] && k in VKids(mem.nodes[cur])
      modifies `mem, `trees, update
      ensures update.callback.None? && update.calls == old(update.calls) + [N.Lookup(old(trees)[cur], key[depth..])]
      ensures changed <==> N.Lookup(old(trees)[cur], key[depth..]).Some? || old(update.callback).value.vacant.Insert?
      ensures Sound(mem, trees, ext - multiset{cur} + RootRef(res))
      ensures if changed then
                && Located(UpdatedTree(old(trees)[cur], key[depth..], old(update.callback).value, false), res, version,
                           mem, trees)
                && PathCopied(old(mem), old(trees), cur, key[depth..], mem, res)
              else
                res == Some(cur) && forall x :: x in mem.nodes ==> x in old(mem.nodes)
      ensures Kept(old(mem), old(trees), mem, trees)
      decreases trees[cur], 0
    {
      hide Sound, KidRefs, Kept, Erase, Owned, N.WellFormed, UpdatedTree, N.Lookup, PathCopied;
      ghost var mem0, trees0, tree, updater := mem, trees, trees[cur], update.callback.value;
      NodesBelowNext(mem, trees, ext);
      CopyOwned(mem, trees, ext, cur, version);
      KidCloned(mem, trees, ext, cur, k);
      var node := mem.nodes[cur];
      var child := VKids(node)[k];
      assert key[depth..][|node.prefix|..] == key[depth + |node.prefix|..];
      DescendLookup(tree, key[depth..]);
      CloneArc(child, ext);
      Bags.Includes(ext, multiset{child});
      Bags.AddRemove(ext, multiset{child});
      ghost var mem1 := mem;
      var newChild;
      newChild, changed := UpdateRecurse(child, key, depth + |node.prefix|, version, update, ext + multiset{child});
      KeptCounts(mem0, mem1, trees0, mem, trees);
      ExtAlive(mem, trees, ext + RootRef(newChild), cur);
      if !changed {
        DropClone(newChild.value, ext, mem0, trees0);
        Bags.RemoveAdd(ext, multiset{cur});
        return Some(cur), false;
      }
      KeptNode(mem0, trees0, mem, trees, cur);
      UpdatedJoined(tree, key[depth..], updater);
      ghost var mem2, trees2 := mem, trees;
      res := ReplaceChild(cur, k, newChild, UpdatedTree(tree, key[depth..], updater, false), version, ext);
      ReplacedCopied(mem0, trees0, ext, cur, key[depth..], k, child, mem1, mem2, trees2, newChild, mem, trees,
                     ext - multiset{cur} + RootRef(res), res);
      KeptTransitive(mem0, trees0, mem2, trees2, mem, trees);
    }

    method DropClone(clone: Addr, ghost ext: multiset<Addr>, ghost mem0: Memory<V>, ghost trees0: map<Addr, N.Node<V>>)
      requires Sound(mem, trees, ext + multiset{clone})
      requires Kept(mem0, trees0, mem, trees) && forall a :: a in mem0.nodes ==> a < mem0.next
      modifies `mem, `trees
      ensures Sound(mem, trees, ext)
      ensures forall x :: x in mem.nodes ==> x in old(mem.nodes)
      ensures Kept(mem0, trees0, mem, trees)
    {
      hide Sound, Kept;
      ghost var mem1, trees1 := mem, trees;
      Bags.AddRemove(ext, multiset{clone});
      assert clone in ext + multiset{clone};
      ExtAlive(mem, trees, ext + multiset{clone}, clone);
      DropArc(clone, ext + multiset{clone});
      KeptTransitive(mem0, trees0, mem1, trees1, mem, trees);
    }

    /** Replaces the child of `cur` under `k` by what an update has left of it. */
    method ReplaceChild(cur: Addr, k: Byte, newChild: Option<Addr>, ghost updated: Option<N.Node<V>>, version: nat,
                        ghost ext: multiset<Addr>)
      returns (res: Option<Addr>)
      requires Sound(mem, trees, ext + RootRef(newChild)) && cur in ext
      requires cur in mem.nodes && cur in trees && cur in mem.counts && mem.nodes[cur].version < version
      requires k in VKids(mem.nodes[cur])
      requires newChild.Some? ==>
                 newChild.value in mem.nodes && newChild.value in trees && mem.nodes[newChild.value].version == version
      requires k in N.Kids(trees[cur]) && trees[cur].content.Inner?
      requires updated ==
               Pruned(JoinedChild(trees[cur], k, if newChild.None? then None else Some(trees[newChild.value])))
      requires updated.Some? ==> N.WellFormed(updated.value)
      modifies `mem, `trees
      ensures Sound(mem, trees, ext - multiset{cur} + RootRef(res))
      ensures Located(updated, res, version, mem, trees)
      ensures KidsAt(mem, res) - {k} == VKids(old(mem.nodes)[cur]) - {k} && KidUnder(KidsAt(mem, res), k) == newChild
      ensures forall x :: x in mem.nodes ==> x in old(mem.nodes) || res == Some(x)
      ensures Kept(old(mem), old(trees), mem, trees)
    {
      hide Sound, KidRefs, Kept, Erase, Owned, N.WellFormed;
      ghost var mem1, trees1, tree := mem, trees, trees[cur];
      ghost var rest, added := ext - multiset{cur}, RootRef(newChild);
      NodesBelowNext(mem, trees, ext + added);
      var n, oldChild := DetachChild(cur, k, version, ext + added);
      ghost var mem2, trees2 := mem, trees;
      RearrangeRefs(ext, cur, added, KidRefs(n), multiset{oldChild});
      KeptRefl(mem, trees, rest + multiset{oldChild} + KidRefs(n) + added);
      NodesBelowNext(mem, trees, rest + multiset{oldChild} + KidRefs(n) + added);
      if newChild.Some? {
        Bags.Includes(rest + multiset{oldChild} + KidRefs(n), multiset{newChild.value});
        ExtAlive(mem, trees, rest + multiset{oldChild} + KidRefs(n) + added, newChild.value);
        KeptNode(mem1, trees1, mem, trees, newChild.value);
      }
      res := Rejoin(n, k, newChild, JoinedChild(tree, k, if newChild.None? then None else Some(trees[newChild.value])),
                    rest + multiset{oldChild}, mem2, trees2);
      KidsAround(mem1.nodes[cur], version, n, k, newChild, mem2, mem, res);
      KeptTransitive(mem1, trees1, mem2, trees2, mem, trees);
      DropReplaced(oldChild, res, updated, version, rest, mem1, trees1);
    }

    method DropReplaced(a: Addr, res: Option<Addr>, ghost updated: Option<N.Node<V>>, ghost version: nat,
                        ghost rest: multiset<Addr>, ghost mem0: Memory<V>, ghost trees0: map<Addr, N.Node<V>>)
      requires Sound(mem, trees, rest + multiset{a} + RootRef(res)) && Located(updated, res, version, mem, trees)
      requires Kept(mem0, trees0, mem, trees) && forall x :: x in mem0.nodes ==> x < mem0.next
      modifies `mem, `trees
      ensures Sound(mem, trees, rest + RootRef(res)) && Located(updated, res, version, mem, trees)
      ensures KidsAt(mem, res) == KidsAt(old(mem), res) && forall x :: x in mem.nodes ==> x in old(mem.nodes)
      ensures Kept(mem0, trees0, mem, trees)
    {
      hide Sound, Kept;
      ghost var mem1, trees1, ext := mem, trees, rest + multiset{a} + RootRef(res);
      Bags.AddSwap(rest, multiset{a}, RootRef(res));
      Bags.AddRemove(rest + RootRef(res), multiset{a});
      assert a in ext;
      ExtAlive(mem, trees, ext, a);
      DropArc(a, ext);
      KeptTransitive(mem0, trees0, mem1, trees1, mem, trees);
      if res.Some? {
        assert res.value in rest + RootRef(res);
        ExtAlive(mem, trees, rest + RootRef(res), res.value);
        KeptNode(mem1, trees1, mem, trees, res.value);
      }
    }

    // ----- Operations on handles -----

    /** The read loop: follows the key from node to node. */
    method GetIterate(root: Addr, key: Key, ghost ext: multiset<Addr>) returns (r: Option<V>)
      requires Sound(mem, trees, ext) && root in mem.nodes && root in trees
      ensures r == N.Lookup(trees[root], key)
    {
      hide Sound, N.WellFormed, Erase;
      var cur := root;
      var depth := 0;
      while true
        invariant 0 <= depth <= |key| && cur in mem.nodes && cur in trees
        invariant N.Lookup(trees[root], key) == N.Lookup(trees[cur], key[depth..])
        decreases trees[cur]
      {
        hide N.Lookup;
        KidLookup(mem, trees, ext, cur);
        KidTreesSmaller(mem, trees, ext, cur);
        LookupCases(trees[cur], key[depth..]);
        var node := mem.nodes[cur];
        if CommonPrefix(node.prefix, key[depth..]) != |node.prefix| {
          return None;
        }
        if |node.prefix| == |key| - depth {
          return node.value;
        }
        var k := key[depth + |node.prefix|];
        assert key[depth..][|node.prefix|..] == key[depth + |node.prefix|..];
        depth := depth + |node.prefix|;
        if k !in VKids(node) {
          return None;
        }
        cur := VKids(node)[k];
      }
    }

    method Get(h: Id, key: Key) returns (r: Option<V>)
      requires Valid() && h in handles
      ensures r == Find(Maps()[h], key)
    {
      RootFacts(mem, trees, handles, h);
      if handles[h].root.None? {
        return None;
      }
      FindLookup(trees[handles[h].root.value], key);
      r := GetIterate(handles[h].root.value, key, HandleRefs(handles));
    }

    /** Stores the outcome of an operation in its handle. */
    method StoreRoot(h: Id, res: Option<Addr>, version: nat, ghost mem0: Memory<V>, ghost trees0: map<Addr, N.Node<V>>)
      requires ForestOk(mem0, trees0, handles) && h in handles
      requires Sound(mem, trees, HandleRefs(handles - {h}) + RootRef(res))
      requires OthersKept(HandleRefs(handles - {h}), mem0, trees0, mem, trees)
      requires res.Some? ==> res.value in mem.nodes && mem.nodes[res.value].version <= version
      modifies `handles
      ensures handles == old(handles)[h := Handle(res, version)]
      ensures ForestOk(mem, trees, handles)
      ensures Model(handles, trees) == Model(old(handles), trees0)[h := Denoted(Handle(res, version), trees)]
    {
      hide Sound, ForestOk, HandleRefs, OthersKept, Model, Denoted;
      RootAlive(mem, trees, HandleRefs(handles - {h}), res);
      HandleStep(mem0, trees0, handles, h, mem, trees, Handle(res, version));
      handles := handles[h := Handle(res, version)];
    }

    /** Inserts into one tree; every other handle keeps its map. */
    method Insert(h: Id, key: Key, value: V) returns (previous: Option<V>)
      requires Valid() && h in handles
      modifies this
      ensures Valid() && nextId == old(nextId)
      ensures Maps() == old(Maps())[h := old(Maps())[h][key := value]]
      ensures previous == Find(old(Maps())[h], key)
      ensures h in handles && handles == old(handles)[h := handles[h]]
      ensures handles[h].version == old(handles)[h].version + 1 && handles[h].root.Some?
      ensures var root := old(handles)[h].root;
              root.Some? ==>
                && root.value in old(trees)
                && Located(Some(Ins(old(trees)[root.value], key, value)), handles[h].root, handles[h].version, mem,
                           trees)
      ensures |NewNodes(old(mem.next), mem)| <= |key| + 2
      ensures RootCopied(old(mem), old(trees), old(handles)[h].root, key, mem, handles[h].root)
    {
      hide ForestOk, Sound, Ins, View, N.WellFormed, N.Lookup, HandleRefs, Kept, PathCopied;
      RootFacts(mem, trees, handles, h);
      ghost var mem0, trees0 := mem, trees;
      ghost var others := HandleRefs(handles - {h});
      var version := handles[h].version + 1;
      var root := handles[h].root;
      var res;
      if root.None? {
        ViewLeaf(key, value);
        Bags.AddNothing(others);
        NodesBelowNext(mem, trees, others);
        res := PlaceLeaf(key, value, version, others);
        NewNodesBound(mem0, mem, {res});
        previous := None;
      } else {
        ViewIns(trees[root.value], key, value);
        FindLookup(trees[root.value], key);
        assert key[0..] == key;
        res, previous := InsertRecurse(root.value, key, value, 0, version, others + multiset{root.value});
        CopiedAtRoot(mem0, trees0, root.value, key, mem, Some(res));
        Bags.AddRemove(others, multiset{root.value});
      }
      KeptOthers(others, Some(res), mem0, trees0, mem, trees);
      StoreRoot(h, Some(res), version, mem0, trees0);
    }

    /** Removes a key from one tree; every other handle keeps its map. */
    method Remove(h: Id, key: Key) returns (removed: Option<V>)
      requires Valid() && h in handles
      modifies this
      ensures Valid() && nextId == old(nextId)
      ensures Maps() == old(Maps())[h := old(Maps())[h] - {key}]
      ensures removed == Find(old(Maps())[h], key)
      ensures h in handles && handles == old(handles)[h := handles[h]]
      ensures if removed.Some? then
                && old(handles)[h].root.Some? && old(handles)[h].root.value in old(trees)
                && Located(Rem(old(trees)[old(handles)[h].root.value], key, false), handles[h].root, handles[h].version,
                           mem, trees)
                && handles[h].version == old(handles)[h].version + 1
                && |NewNodes(old(mem.next), mem)| <= |key| + 2
                && RootCopied(old(mem), old(trees), old(handles)[h].root, key, mem, handles[h].root)
              else mem == old(mem) && handles == old(handles)
    {
      hide ForestOk, Sound, Rem, View, N.WellFormed, N.Lookup, HandleRefs, Kept, PathCopied;
      removed := Get(h, key);
      if removed.None? {
        UnchangedEntry(Maps(), h, Maps()[h] - {key});
        assert handles == handles[h := handles[h]];
        return;
      }
      RootFacts(mem, trees, handles, h);
      ghost var mem0, trees0 := mem, trees;
      ghost var others := HandleRefs(handles - {h});
      var version := handles[h].version + 1;
      var root := handles[h].root.value;
      ViewRem(trees[root], key, false);
      FindLookup(trees[root], key);
      assert key[0..] == key;
      var res, _ := RemoveRecurse(root, key, 0, version, others + multiset{root});
      CopiedAtRoot(mem0, trees0, root, key, mem, res);
      Bags.AddRemove(others, multiset{root});
      KeptOthers(others, res, mem0, trees0, mem, trees);
      StoreRoot(h, res, version, mem0, trees0);
    }

    /** Deletes a key from one tree; every other handle keeps its map. */
    method Delete(h: Id, key: Key) returns (existed: bool)
      requires Valid() && h in handles
      modifies this
      ensures Valid() && nextId == old(nextId)
      ensures Maps() == old(Maps())[h := old(Maps())[h] - {key}]
      ensures existed <==> key in old(Maps())[h]
      ensures h in handles && handles == old(handles)[h := handles[h]]
      ensures if existed then
                && old(handles)[h].root.Some? && old(handles)[h].root.value in old(trees)
                && Located(Rem(old(trees)[old(handles)[h].root.value], key, false), handles[h].root, handles[h].version,
                           mem, trees)
                && handles[h].version == old(handles)[h].version + 1
                && |NewNodes(old(mem.next), mem)| <= |key| + 2
                && RootCopied(old(mem), old(trees), old(handles)[h].root, key, mem, handles[h].root)
              else mem == old(mem) && handles == old(handles)
    {
      hide ForestOk, Sound, Rem, View, N.WellFormed, N.Lookup, HandleRefs, Kept, PathCopied;
      var current := Get(h, key);
      existed := current.Some?;
      if !existed {
        UnchangedEntry(Maps(), h, Maps()[h] - {key});
        assert handles == handles[h := handles[h]];
        return;
      }
      RootFacts(mem, trees, handles, h);
      ghost var mem0, trees0 := mem, trees;
      ghost var others := HandleRefs(handles - {h});
      var version := handles[h].version + 1;
      var root := handles[h].root.value;
      ViewRem(trees[root], key, false);
      FindLookup(trees[root], key);
      var res := DeleteRoot(root, key, version, others);
      KeptOthers(others, res, mem0, trees0, mem, trees);
      StoreRoot(h, res, version, mem0, trees0);
    }

    /** Deletes a present key: at the root itself, a leaf or not, or below it. */
    method DeleteRoot(root: Addr, key: Key, version: nat, ghost others: multiset<Addr>) returns (res: Option<Addr>)
      requires Sound(mem, trees, others + multiset{root}) && root in mem.nodes && root in trees && root in mem.counts
      requires mem.nodes[root].version < version && N.Lookup(trees[root], key).Some?
      modifies `mem, `trees
      ensures Sound(mem, trees, others + RootRef(res))
      ensures Located(Rem(old(trees)[root], key, false), res, version, mem, trees)
      ensures RootCopied(old(mem), old(trees), Some(root), key, mem, res)
      ensures Kept(old(mem), old(trees), mem, trees)
    {
      hide Sound, N.WellFormed, Kept, PathCopied, RemBelow;
      ghost var mem0, trees0, ext := mem, trees, others + multiset{root};
      assert key[0..] == key && root in ext;
      NodesBelowNext(mem, trees, ext);
      CopyOwned(mem, trees, ext, root, version);
      NodeShape(mem, trees, ext, root);
      Bags.AddRemove(others, multiset{root});
      if mem.nodes[root].content.VEmpty? || |mem.nodes[root].prefix| == |key| {
        assert mem.nodes[root].prefix == key;
        res := DeleteHere(root, version, ext);
        HereCopied(mem0, trees0, root, key, mem, res, if res.Some? then {res.value} else {});
      } else {
        res := DeleteRecurse(root, key, 0, version, ext);
      }
      CopiedAtRoot(mem0, trees0, root, key, mem, res);
    }

    // ----- Mutable references to values -----

    /** The path of the key belongs to handle `h` alone, so its value may be written in place. */
    ghost predicate Writable(h: Id, key: Key)
      reads this
    {
      h in handles && handles[h].root.Some? && handles[h].root.value in trees
      && PathUnique(mem, trees, handles[h].root.value, key)
    }

    /** Takes a mutable reference to a present value: copies its path where it is shared, and reads it. */
    method BorrowValue(h: Id, key: Key) returns (current: Option<V>)
      requires Valid() && h in handles
      modifies this
      ensures Valid() && nextId == old(nextId)
      ensures Maps() == old(Maps()) && current == Find(old(Maps())[h], key)
      ensures h in handles && handles == old(handles)[h := handles[h]]
      ensures if current.Some? then
                && Writable(h, key) && handles[h].root.Some? && handles[h].root.value in mem.nodes
                && old(handles)[h].root.Some? && old(handles)[h].root.value in old(trees)
                && trees[handles[h].root.value] == old(trees)[old(handles)[h].root.value]
                && handles[h].version == old(handles)[h].version + 1
                && |NewNodes(old(mem.next), mem)| <= |key| + 2
                && RootCopied(old(mem), old(trees), old(handles)[h].root, key, mem, handles[h].root)
              else mem == old(mem) && handles == old(handles)
    {
      hide ForestOk, Sound, View, N.WellFormed, N.Lookup, HandleRefs, Kept, PathCopied, PathUnique;
      current := Get(h, key);
      if current.None? {
        assert handles == handles[h := handles[h]];
        return;
      }
      RootFacts(mem, trees, handles, h);
      ghost var mem0, trees0 := mem, trees;
      ghost var others := HandleRefs(handles - {h});
      var version := handles[h].version + 1;
      var root := handles[h].root.value;
      FindLookup(trees[root], key);
      assert key[0..] == key;
      assert root in others + multiset{root};
      Bags.AddRemove(others, multiset{root});
      var res := CowPathToKey(root, key, 0, version, others + multiset{root});
      CopiedAtRoot(mem0, trees0, root, key, mem, Some(res));
      KeptOthers(others, Some(res), mem0, trees0, mem, trees);
      UnchangedEntry(Model(handles, trees0), h, Denoted(Handle(Some(res), version), trees));
      StoreRoot(h, Some(res), version, mem0, trees0);
    }

    /** Writes through a mutable reference; no node moves and no snapshot sees the write. */
    method WriteBorrowed(h: Id, key: Key, value: V)
      requires Valid() && Writable(h, key) && key in Maps()[h]
      modifies this
      ensures Valid() && nextId == old(nextId) && handles == old(handles)
      ensures Maps() == old(Maps())[h := old(Maps())[h][key := value]]
      ensures handles[h].root.value in old(trees) && handles[h].root.value in trees
      ensures trees[handles[h].root.value] == Ins(old(trees)[handles[h].root.value], key, value)
      ensures SameKids(old(mem), mem) && Sound(mem, trees, HandleRefs(handles))
    {
      hide ForestOk, Sound, Ins, View, N.WellFormed, N.Lookup, HandleRefs, OthersKept, PathUnique, SameKids;
      RootFacts(mem, trees, handles, h);
      ghost var mem0, trees0 := mem, trees;
      ghost var others := HandleRefs(handles - {h});
      var root := handles[h].root.value;
      FindLookup(trees[root], key);
      ViewIns(trees[root], key, value);
      assert key[0..] == key;
      Bags.AddRemove(others, multiset{root});
      WriteReady(root, key, 0, value, others + multiset{root});
      StoreRoot(h, Some(root), handles[h].version, mem0, trees0);
      assert handles == old(handles);
      ForestSound(mem, trees, handles);
    }

    /** Lets the caller write to the value of a present key; no snapshot sees the write. */
    method GetMut(h: Id, key: Key, write: V -> V) returns (found: bool)
      requires Valid() && h in handles
      modifies this
      ensures Valid() && nextId == old(nextId)
      ensures found <==> key in old(Maps())[h]
      ensures Maps() == if found then old(Maps())[h := old(Maps())[h][key := write(old(Maps())[h][key])]]
                        else old(Maps())
      ensures h in handles && handles == old(handles)[h := handles[h]]
      ensures if found then
                && handles[h].version == old(handles)[h].version + 1
                && |NewNodes(old(mem.next), mem)| <= |key| + 2
                && RootCopied(old(mem), old(trees), old(handles)[h].root, key, mem, handles[h].root)
              else mem == old(mem) && handles == old(handles)
    {
      hide ForestOk, Sound, View, HandleRefs, RootCopied, PathUnique, SameKids, Model;
      var current := BorrowValue(h, key);
      found := current.Some?;
      if !found {
        return;
      }
      ghost var mem1, root := mem, handles[h].root.value;
      WriteBorrowed(h, key, write(current.value));
      RootKept(mem1, mem, root);
      WrittenCopied(old(mem), old(trees), old(handles)[h].root, key, mem1, root, mem, trees, HandleRefs(handles));
      CopyLimit(old(mem), old(trees), old(handles)[h].root, key, mem, Some(root));
    }

    // ----- Slot updates through handles -----

    /** Runs a callback that cannot fail once, on the slot of a key. */
    method Update(h: Id, key: Key, updater: Updater<V>) returns (changed: bool, calls: seq<Option<V>>)
      requires Valid() && h in handles
      modifies this
      ensures Valid() && nextId == old(nextId)
      ensures calls == [Find(old(Maps())[h], key)]
      ensures h in handles && handles == old(handles)[h := handles[h]]
      ensures Maps() == old(Maps())[h := Maps()[h]]
      ensures SlotUpdated(old(Maps())[h], key, Lift(updater), Maps()[h], Ok(changed))
      ensures var root := old(handles)[h].root;
              changed && root.Some? ==>
                && root.value in old(trees)
                && Located(UpdatedTree(old(trees)[root.value], key, updater, false), handles[h].root,
                           handles[h].version, mem, trees)
      ensures if changed then
                && handles[h].version == old(handles)[h].version + 1
                && |NewNodes(old(mem.next), mem)| <= |key| + 2
                && RootCopied(old(mem), old(trees), old(handles)[h].root, key, mem, handles[h].root)
              else handles == old(handles) && NewNodes(old(mem.next), mem) == {}
    {
      hide ForestOk, Sound, View, N.WellFormed, HandleRefs, OthersKept, SlotUpdated, RootCopied;
      RootFacts(mem, trees, handles, h);
      ghost var mem0, trees0 := mem, trees;
      var version := handles[h].version + 1;
      var root := handles[h].root;
      var update := new CallOnce(updater);
      if root.None? {
        changed := UpdateEmpty(h, key, update);
        calls := update.calls;
        return;
      }
      var res;
      res, changed := UpdateRoot(root.value, key, version, update, HandleRefs(handles - {h}));
      calls := update.calls;
      if changed {
        CopyLimit(mem0, trees0, root, key, mem, res);
      }
      StoreRoot(h, res, if changed then version else version - 1, mem0, trees0);
    }

    method UpdateRoot(root: Addr, key: Key, version: nat, update: CallOnce<V, SlotUpdate<V>>,
                      ghost others: multiset<Addr>)
      returns (res: Option<Addr>, changed: bool)
      requires Sound(mem, trees, others + multiset{root}) && root in mem.nodes && root in trees && root in mem.counts
      requires mem.nodes[root].version < version && update.callback.Some?
      modifies `mem, `trees, update
      ensures update.callback.None? && update.calls == old(update.calls) + [Find(View(old(trees)[root]), key)]
      ensures Sound(mem, trees, others + RootRef(res)) && OthersKept(others, old(mem), old(trees), mem, trees)
      ensures res.Some? ==> res.value in mem.nodes && res.value in trees
      ensures SlotUpdated(View(old(trees)[root]), key, Lift(old(update.callback).value),
                          if res.None? then map[] else View(trees[res.value]), Ok(changed))
      ensures if changed then
                && RootCopied(old(mem), old(trees), Some(root), key, mem, res)
                && (res.Some? ==> mem.nodes[res.value].version == version)
                && Located(UpdatedTree(old(trees)[root], key, old(update.callback).value, false), res, version, mem,
                           trees)
              else
                res == Some(root) && mem.nodes[root] == old(mem.nodes)[root] && NewNodes(old(mem.next), mem) == {}
    {
      hide Sound, View, N.WellFormed, N.Lookup, Kept, OthersKept, UpdatedTree, PathCopied, SlotUpdated;
      ghost var mem0, trees0, tree, updater := mem, trees, trees[root], update.callback.value;
      NodesBelowNext(mem, trees, others + multiset{root});
      CopyOwned(mem, trees, others + multiset{root}, root, version);
      assert key[0..] == key && root in others + multiset{root};
      FindLookup(tree, key);
      UpdatedMeaning(tree, key, updater);
      res, changed := UpdateRecurse(root, key, 0, version, update, others + multiset{root});
      Bags.AddRemove(others, multiset{root});
      KeptOthers(others, res, mem0, trees0, mem, trees);
      RootAlive(mem, trees, others, res);
      if changed {
        CopiedAtRoot(mem0, trees0, root, key, mem, res);
      } else {
        KeptNode(mem0, trees0, mem, trees, root);
        UnchangedSlot(tree, key, updater);
      }
    }

    method UpdateEmpty(h: Id, key: Key, update: CallOnce<V, SlotUpdate<V>>) returns (changed: bool)
      requires Valid() && h in handles && handles[h].root.None? && update.callback.Some?
      modifies this, update
      ensures update.callback.None? && update.calls == old(update.calls) + [Find(old(Maps())[h], key)]
      ensures Valid() && nextId == old(nextId)
      ensures h in handles && handles == old(handles)[h := handles[h]]
      ensures Maps() == old(Maps())[h := Maps()[h]]
      ensures SlotUpdated(old(Maps())[h], key, Lift(old(update.callback).value), Maps()[h], Ok(changed))
      ensures if changed then
                && handles[h].version == old(handles)[h].version + 1
                && |NewNodes(old(mem.next), mem)| <= |key| + 2
                && RootCopied(old(mem), old(trees), old(handles)[h].root, key, mem, handles[h].root)
              else handles == old(handles) && NewNodes(old(mem.next), mem) == {}
    {
      hide ForestOk, Sound, View, N.WellFormed, N.Lookup, HandleRefs, Kept;
      RootFacts(mem, trees, handles, h);
      ghost var mem0, trees0 := mem, trees;
      ghost var others := HandleRefs(handles - {h});
      Bags.AddNothing(others);
      NodesBelowNext(mem, trees, others);
      var value := VersionedVacantUpdate(update);
      if value.None? {
        UnchangedEntry(Maps(), h, Maps()[h]);
        assert handles == handles[h := handles[h]];
        return false;
      }
      var version := handles[h].version + 1;
      ViewLeaf(key, value.value);
      var res := PlaceLeaf(key, value.value, version, others);
      NewNodesBound(mem0, mem, {res});
      KeptOthers(others, Some(res), mem0, trees0, mem, trees);
      StoreRoot(h, Some(res), version, mem0, trees0);
      return true;
    }

    /**
     Runs a callback that may fail once, on the slot of a key. The callback works on the
     value in place; after a failure the original value is written back.
     */
    method TryUpdate<E>(h: Id, key: Key, callback: Callback<V, E>)
      returns (r: Result<bool, E>, calls: seq<Option<V>>)
      requires Valid() && h in handles
      modifies this
      ensures Valid() && nextId == old(nextId)
      ensures calls == [Find(old(Maps())[h], key)]
      ensures h in handles && handles == old(handles)[h := handles[h]]
      ensures Maps() == old(Maps())[h := Maps()[h]]
      ensures SlotUpdated(old(Maps())[h], key, callback, Maps()[h], r)
      ensures handles[h].version - old(handles)[h].version ==
              if key !in old(Maps())[h] then
                if callback.vacant.Ok? && callback.vacant.value.Insert? then 1 else 0
              else if callback.occupied(old(Maps())[h][key]).1 == Ok(Keep) then 1 else 2
    {
      hide ForestOk, View, RootCopied;
      var update := new CallOnce(callback);
      var oldValue := Get(h, key);
      if oldValue.None? {
        r := TryUpdateVacant(h, key, update);
      } else {
        r := TryUpdateOccupied(h, key, update, oldValue.value);
      }
      calls := update.calls;
    }

    method TryUpdateVacant<E>(h: Id, key: Key, update: CallOnce<V, Result<SlotUpdate<V>, E>>)
      returns (r: Result<bool, E>)
      requires Valid() && h in handles && key !in Maps()[h] && update.callback.Some?
      modifies this, update
      ensures update.callback.None? && update.calls == old(update.calls) + [None]
      ensures Valid() && nextId == old(nextId)
      ensures h in handles && handles == old(handles)[h := handles[h]]
      ensures Maps() == old(Maps())[h := Maps()[h]]
      ensures SlotUpdated(old(Maps())[h], key, old(update.callback).value, Maps()[h], r)
      ensures var vacant := old(update.callback).value.vacant;
              handles[h].version ==
              old(handles)[h].version + (if vacant.Ok? && vacant.value.Insert? then 1 else 0)
    {
      hide ForestOk, View, RootCopied;
      var answer := update.RunVacant();
      match answer {
        case Err(e) =>
          r := Err(e);
        case Ok(Insert(value)) =>
          var _ := Insert(h, key, value);
          r := Ok(true);
        case Ok(_) =>
          r := Ok(false);
      }
    }

    method TryUpdateOccupied<E>(h: Id, key: Key, update: CallOnce<V, Result<SlotUpdate<V>, E>>, oldValue: V)
      returns (r: Result<bool, E>)
      requires Valid() && h in handles && Find(Maps()[h], key) == Some(oldValue) && update.callback.Some?
      modifies this, update
      ensures update.callback.None? && update.calls == old(update.calls) + [Some(oldValue)]
      ensures Valid() && nextId == old(nextId)
      ensures h in handles && handles == old(handles)[h := handles[h]]
      ensures Maps() == old(Maps())[h := Maps()[h]]
      ensures SlotUpdated(old(Maps())[h], key, old(update.callback).value, Maps()[h], r)
      ensures handles[h].version ==
              old(handles)[h].version + (if old(update.callback).value.occupied(oldValue).1 == Ok(Keep) then 1 else 2)
    {
      hide ForestOk, View, Model, RootCopied, PathUnique, SlotUpdated, Settled, SameKids, Sound, HandleRefs;
      hide Ins, NewNodes, N.Lookup, N.WellFormed;
      ModelKeys(handles, trees);
      ghost var m := Maps()[h];
      var current := BorrowValue(h, key);
      var left, verdict := update.RunOccupied(current.value);
      WriteBorrowed(h, key, left);
      assert Maps()[h] == m[key := left];
      r := SettleUpdate(h, key, left, verdict, oldValue, m);
      SettledSlot(m, key, old(update.callback).value, Maps()[h], r);
    }

    /** Carries out the verdict of a callback that has left `left` in the slot. */
    method SettleUpdate<E>(h: Id, key: Key, left: V, verdict: Result<SlotUpdate<V>, E>, oldValue: V,
                           ghost m: map<Key, V>)
      returns (r: Result<bool, E>)
      requires Valid() && h in handles && key in m && m[key] == oldValue && Maps()[h] == m[key := left]
      modifies this
      ensures Valid() && nextId == old(nextId)
      ensures h in handles && handles == old(handles)[h := handles[h]]
      ensures Maps() == old(Maps())[h := Maps()[h]]
      ensures Settled(m, key, left, verdict, Maps()[h], r)
      ensures handles[h].version == old(handles)[h].version + (if verdict == Ok(Keep) then 0 else 1)
    {
      hide ForestOk, View, Model, RootCopied;
      ModelKeys(handles, trees);
      match verdict {
        case Err(e) =>
          var _ := GetMut(h, key, _ => oldValue);
          assert m[key := left][key := oldValue] == m;
          r := Err(e);
        case Ok(Keep) =>
          assert Maps() == Maps()[h := Maps()[h]];
          r := Ok(true);
        case Ok(Remove) =>
          var existed := Delete(h, key);
          assert m[key := left] - {key} == m - {key};
          r := Ok(existed);
        case Ok(Insert(value)) =>
          var _ := GetMut(h, key, _ => value);
          assert m[key := left][key := value] == m[key := value];
          r := Ok(true);
      }
    }

    // ----- Creating and dropping handles -----

    method New() returns (h: Id)
      requires Valid()
      modifies this
      ensures Valid() && h == old(nextId) && nextId == h + 1 && h !in old(handles)
      ensures handles == old(handles)[h := Handle(None, 0)]
      ensures Maps() == old(Maps())[h := map[]]
    {
      hide Sound, View, HandleRefs, N.WellFormed;
      h := nextId;
      Bags.AddNothing(HandleRefs(handles));
      NewHandle(mem, trees, handles, h, mem, Handle(None, 0));
      handles := handles[h := Handle(None, 0)];
      nextId := nextId + 1;
    }

    /** A handle on the same root: a snapshot is one version ahead, a clone is not. */
    method Share(g: Id, ahead: nat) returns (h: Id)
      requires Valid() && g in handles
      modifies this
      ensures Valid() && h == old(nextId) && nextId == h + 1 && h !in old(handles)
      ensures handles == old(handles)[h := Handle(old(handles)[g].root, old(handles)[g].version + ahead)]
      ensures Maps() == old(Maps())[h := old(Maps())[g]]
      ensures mem.nodes == old(mem.nodes)
    {
      hide Sound, View, HandleRefs, N.WellFormed;
      RootFacts(mem, trees, handles, g);
      ghost var mem0 := mem;
      h := nextId;
      var handle := Handle(handles[g].root, handles[g].version + ahead);
      if handle.root.Some? {
        CloneArc(handle.root.value, HandleRefs(handles));
      } else {
        Bags.AddNothing(HandleRefs(handles));
      }
      NewHandle(mem0, trees, handles, h, mem, handle);
      handles := handles[h := handle];
      nextId := nextId + 1;
    }

    method Snapshot(g: Id) returns (h: Id)
      requires Valid() && g in handles
      modifies this
      ensures Valid() && h == old(nextId) && nextId == h + 1 && h !in old(handles)
      ensures handles == old(handles)[h := Handle(old(handles)[g].root, old(handles)[g].version + 1)]
      ensures Maps() == old(Maps())[h := old(Maps())[g]]
      ensures mem.nodes == old(mem.nodes)
    {
      h := Share(g, 1);
    }

    method Clone(g: Id) returns (h: Id)
      requires Valid() && g in handles
      modifies this
      ensures Valid() && h == old(nextId) && nextId == h + 1 && h !in old(handles)
      ensures handles == old(handles)[h := old(handles)[g]]
      ensures Maps() == old(Maps())[h := old(Maps())[g]]
      ensures mem.nodes == old(mem.nodes)
    {
      h := Share(g, 0);
    }

    method Drop(h: Id)
      requires Valid() && h in handles
      modifies this
      ensures Valid() && nextId == old(nextId)
      ensures handles == old(handles) - {h}
      ensures Maps() == old(Maps()) - {h}
    {
      hide Sound, View, HandleRefs, N.WellFormed, Kept, OthersKept;
      RootFacts(mem, trees, handles, h);
      ghost var mem0, trees0 := mem, trees;
      ghost var others := HandleRefs(handles - {h});
      NodesBelowNext(mem, trees, HandleRefs(handles));
      KeptRefl(mem, trees, HandleRefs(handles));
      Bags.AddNothing(others);
      if handles[h].root.Some? {
        DropClone(handles[h].root.value, others, mem0, trees0);
      }
      KeptOthers(others, None, mem0, trees0, mem, trees);
      DropHandle(mem0, trees0, handles, h, mem, trees);
      handles := handles - {h};
    }

    // ----- Conversion to a single-owner tree -----

    /** Unwraps the nodes that nobody else holds and copies the shared ones. */
    method Convert(a: Addr, ghost ext: multiset<Addr>) returns (node: N.Node<V>)
      requires Sound(mem, trees, ext) && a in ext && a in mem.nodes && a in trees && a in mem.counts
      modifies `mem, `trees
      ensures Sound(mem, trees, ext - multiset{a})
      ensures node == old(trees)[a]
      ensures Kept(old(mem), old(trees), mem, trees)
      decreases trees[a]
    {
      hide Sound, Refs, Kept, Erase, Owned;
      ghost var mem0, trees0, tree := mem, trees, trees[a];
      NodesBelowNext(mem, trees, ext);
      KidTreesSmaller(mem, trees, ext, a);
      var source := mem.nodes[a];
      var children;
      var owned := TryUnwrap(a, ext);
      if owned.Some? {
        children := ConvertOwned(VKids(source), a, mem0, trees0, ext - multiset{a});
      } else {
        KeptRefl(mem, trees, ext);
        children := ConvertShared(VKids(source), a, mem0, trees0, ext);
        DropShared(a, ext, mem0, trees0);
      }
      TreeFromKids(mem0, trees0, ext, a, children);
      node := N.Node(source.prefix, source.value,
                     if source.content.VEmpty? then N.Empty else N.Inner(source.content.kind, children));
    }

    method ConvertOwned(kids: map<Byte, Addr>, ghost a: Addr, ghost mem0: Memory<V>, ghost trees0: map<Addr, N.Node<V>>,
                        ghost ext: multiset<Addr>)
      returns (children: map<Byte, N.Node<V>>)
      requires Sound(mem, trees, ext + Refs<Byte>(kids)) && Kept(mem0, trees0, mem, trees)
      requires a in trees0 && KidsBelow(kids, a, mem0, trees0)
      requires forall x :: x in mem0.nodes ==> x < mem0.next
      modifies `mem, `trees
      ensures Sound(mem, trees, ext) && Kept(mem0, trees0, mem, trees)
      ensures children.Keys == kids.Keys && forall k :: k in kids ==> children[k] == trees0[kids[k]]
      decreases trees0[a], 0
    {
      hide Sound, Refs, Kept;
      children := map[];
      var rest := kids;
      for k := 0 to 256
        invariant forall e :: e in rest <==> e in kids && e >= k
        invariant forall e :: e in rest ==> rest[e] == kids[e]
        invariant forall e :: e in children <==> e in kids && e < k
        invariant forall e :: e in children ==> children[e] == trees0[kids[e]]
        invariant Sound(mem, trees, ext + Refs<Byte>(rest)) && Kept(mem0, trees0, mem, trees)
      {
        if k in rest {
          var edge: Byte := k;
          var child := rest[edge];
          RefsRemove<Byte>(rest, edge);
          SplitFirst(ext, Refs<Byte>(rest), child, Refs<Byte>(rest - {edge}));
          ghost var ext1 := ext + Refs<Byte>(rest);
          ExtAlive(mem, trees, ext1, child);
          KeptNode(mem0, trees0, mem, trees, child);
          ghost var mem1, trees1 := mem, trees;
          var converted := Convert(child, ext1);
          KeptTransitive(mem0, trees0, mem1, trees1, mem, trees);
          children := children[edge := converted];
          rest := rest - {edge};
        }
      }
      assert forall e: Byte :: e !in rest.Keys;
      assert rest.Keys == {};
      RefsEmpty<Byte>();
      Bags.AddNothing(ext);
    }

    method ConvertShared(kids: map<Byte, Addr>, ghost a: Addr, ghost mem0: Memory<V>,
                         ghost trees0: map<Addr, N.Node<V>>, ghost ext: multiset<Addr>)
      returns (children: map<Byte, N.Node<V>>)
      requires Sound(mem, trees, ext) && Kept(mem0, trees0, mem, trees) && a in ext
      requires a in trees0 && a in mem0.nodes && VKids(mem0.nodes[a]) == kids && KidsBelow(kids, a, mem0, trees0)
      requires forall x :: x in mem0.nodes ==> x < mem0.next
      modifies `mem, `trees
      ensures Sound(mem, trees, ext) && Kept(mem0, trees0, mem, trees)
      ensures children.Keys == kids.Keys && forall k :: k in kids ==> children[k] == trees0[kids[k]]
      decreases trees0[a], 0
    {
      hide Sound, Refs, Kept;
      children := map[];
      for k := 0 to 256
        invariant forall e :: e in children <==> e in kids && e < k
        invariant forall e :: e in children ==> children[e] == trees0[kids[e]]
        invariant Sound(mem, trees, ext) && Kept(mem0, trees0, mem, trees)
      {
        if k in kids {
          var edge: Byte := k;
          var child := kids[edge];
          ExtAlive(mem, trees, ext, a);
          KeptNode(mem0, trees0, mem, trees, a);
          KidCloned(mem, trees, ext, a, edge);
          KeptNode(mem0, trees0, mem, trees, child);
          ghost var mem1 := mem;
          ghost var trees1 := trees;
          KeptRefl(mem, trees, ext);
          CloneArc(child, ext);
          Bags.AddRemove(ext, multiset{child});
          ghost var mem2 := mem;
          var converted := Convert(child, ext + multiset{child});
          KeptCounts(mem1, mem2, trees1, mem, trees);
          KeptTransitive(mem0, trees0, mem1, trees1, mem, trees);
          children := children[edge := converted];
        }
      }
      assert children.Keys == kids.Keys;
    }

    method DropShared(a: Addr, ghost ext: multiset<Addr>, ghost mem0: Memory<V>, ghost trees0: map<Addr, N.Node<V>>)
      requires Sound(mem, trees, ext) && a in ext
      requires Kept(mem0, trees0, mem, trees) && forall x :: x in mem0.nodes ==> x < mem0.next
      modifies `mem, `trees
      ensures Sound(mem, trees, ext - multiset{a})
      ensures Kept(mem0, trees0, mem, trees)
    {
      hide Sound, Kept;
      ghost var mem1, trees1 := mem, trees;
      ExtAlive(mem, trees, ext, a);
      DropArc(a, ext);
      KeptTransitive(mem0, trees0, mem1, trees1, mem, trees);
    }

    /** Counts the values below a node, children in edge order. */
    method CountValues(a: Addr, ghost ext: multiset<Addr>) returns (count: nat)
      requires Sound(mem, trees, ext) && a in mem.nodes && a in trees
      ensures count == |Entries.Entries(trees[a])|
      decreases trees[a]
    {
      hide Sound, Erase, Entries.Entries, ChildEntries;
      KidLookup(mem, trees, ext, a);
      KidTreesSmaller(mem, trees, ext, a);
      var n := mem.nodes[a];
      ghost var tree := trees[a];
      EntriesSize(tree);
      count := if n.value.Some? then 1 else 0;
      for k := 0 to 256
        invariant count + |ChildEntries(tree, k)| == |Entries.Entries(tree)|
      {
        ChildEntriesStep(tree, k);
        if k in VKids(n) {
          KidCloned(mem, trees, ext, a, k);
          var below := CountValues(VKids(n)[k], ext);
          count := count + below;
        }
      }
    }

    /** Gives up a handle for the tree below it and the number of its entries. */
    method TakeTree(h: Id) returns (root: Option<N.Node<V>>, len: nat)
      requires Valid() && h in handles
      modifies this
      ensures Valid() && nextId == old(nextId) && handles == old(handles) - {h}
      ensures Maps() == old(Maps()) - {h}
      ensures root == if old(handles)[h].root.None? then None else Some(old(trees)[old(handles)[h].root.value])
      ensures root.Some? ==> N.WellFormed(root.value)
      ensures RootView(root) == old(Maps())[h] && len == |old(Maps())[h]|
    {
      hide Sound, View, HandleRefs, N.WellFormed, Kept, OthersKept, Entries.Entries;
      RootFacts(mem, trees, handles, h);
      ghost var mem0, trees0 := mem, trees;
      ghost var others := HandleRefs(handles - {h});
      Bags.AddNothing(others);
      var shared := handles[h].root;
      if shared.Some? {
        ViewSize(trees[shared.value]);
        root, len := ConvertRoot(shared.value, others);
      } else {
        KeptRefl(mem, trees, others);
        root, len := None, 0;
      }
      KeptOthers(others, None, mem0, trees0, mem, trees);
      DropHandle(mem0, trees0, handles, h, mem, trees);
      handles := handles - {h};
    }

    /** Turns a handle into a single-owner tree; the other handles keep their maps. */
    method IntoUnversioned(h: Id) returns (tree: AdaptiveRadixTree<V>)
      requires Valid() && h in handles
      modifies this
      ensures Valid() && nextId == old(nextId) && handles == old(handles) - {h}
      ensures Maps() == old(Maps()) - {h}
      ensures fresh(tree) && tree.Valid()
      ensures tree.Contents() == old(Maps())[h] && tree.len == |old(Maps())[h]|
      ensures tree.root == if old(handles)[h].root.None? then None else Some(old(trees)[old(handles)[h].root.value])
    {
      hide ForestOk, Model, RootView, N.WellFormed;
      var root, len := TakeTree(h);
      tree := new AdaptiveRadixTree<V>();
      tree.root, tree.len := root, len;
    }

    method ConvertRoot(root: Addr, ghost others: multiset<Addr>) returns (node: Option<N.Node<V>>, len: nat)
      requires Sound(mem, trees, others + multiset{root}) && root in mem.nodes && root in trees && root in mem.counts
      modifies `mem, `trees
      ensures Sound(mem, trees, others)
      ensures node == Some(old(trees)[root]) && len == |Entries.Entries(old(trees)[root])|
      ensures Kept(old(mem), old(trees), mem, trees)
    {
      hide Sound, Kept, Entries.Entries;
      len := CountValues(root, others + multiset{root});
      assert root in others + multiset{root};
      var n := Convert(root, others + multiset{root});
      Bags.AddRemove(others, multiset{root});
      node := Some(n);
    }
  }

  /** Every node on the path of `key` is referenced exactly once. */
  ghost predicate PathUnique<V>(mem: Memory<V>, trees: map<Addr, N.Node<V>>, a: Addr, key: Key)
    requires a in trees
    decreases trees[a]
  {
    && a in mem.nodes && a in mem.counts && mem.counts[a] == 1
    && var n := mem.nodes[a];
       n.prefix < key && key[|n.prefix|] in VKids(n) ==>
         var child := VKids(n)[key[|n.prefix|]];
         child in trees && trees[child] < trees[a] && PathUnique(mem, trees, child, key[|n.prefix|..])
  }

  lemma SameChild<V>(tree: N.Node<V>, k: Byte)
    requires k in N.Kids(tree)
    ensures N.WithChild(tree, k, N.Kids(tree)[k]) == tree
  {
    assert N.Kids(tree)[k := N.Kids(tree)[k]] == N.Kids(tree);
  }

  /** A fresh node above a singly owned path makes a longer one. */
  lemma PathUp<V>(mem: Memory<V>, trees: map<Addr, N.Node<V>>, ext: multiset<Addr>, n: VNode<V>, k: Byte, child: Addr,
                  key: Key, tree: N.Node<V>, mem': Memory<V>, trees': map<Addr, N.Node<V>>, res: Addr)
    requires Sound(mem, trees, ext) && n.prefix < key && k == key[|n.prefix|] && k !in VKids(n)
    requires child in trees && PathUnique(mem, trees, child, key[|n.prefix|..])
    requires mem' == Stored(mem, VAddChild(n, k, child)) && res == mem.next
    requires res in trees' && trees' == trees[res := tree] && trees[child] < tree
    ensures res in trees' && PathUnique(mem', trees', res, key)
  {
    hide Sound, PathUnique;
    PathStored(mem, trees, ext, VAddChild(n, k, child), child, key[|n.prefix|..], mem', trees', tree);
    SoundCounts(mem, trees, ext);
    NodesBelowNext(mem, trees, ext);
    PathOneUp(mem', trees', res, VAddChild(n, k, child), child, key);
  }

  lemma PathStored<V>(mem: Memory<V>, trees: map<Addr, N.Node<V>>, ext: multiset<Addr>, n: VNode<V>, a: Addr, key: Key,
                      mem': Memory<V>, trees': map<Addr, N.Node<V>>, tree: N.Node<V>)
    requires Sound(mem, trees, ext) && a in trees && PathUnique(mem, trees, a, key)
    requires mem' == Stored(mem, n) && trees' == trees[mem.next := tree]
    ensures a in trees' && trees'[a] == trees[a] && PathUnique(mem', trees', a, key)
  {
    hide Sound, PathUnique;
    SoundCounts(mem, trees, ext);
    NodesBelowNext(mem, trees, ext);
    PathUniqueFrame(mem, trees, a, key, mem', trees');
  }

  lemma PathOneUp<V>(mem: Memory<V>, trees: map<Addr, N.Node<V>>, a: Addr, n: VNode<V>, child: Addr, key: Key)
    requires a in trees && a in mem.nodes && a in mem.counts && mem.counts[a] == 1 && mem.nodes[a] == n
    requires n.prefix < key && key[|n.prefix|] in VKids(n) && VKids(n)[key[|n.prefix|]] == child
    requires child in trees && trees[child] < trees[a] && PathUnique(mem, trees, child, key[|n.prefix|..])
    ensures PathUnique(mem, trees, a, key)
  {
  }

  lemma {:induction false} PathUniqueFrame<V>(mem: Memory<V>, trees: map<Addr, N.Node<V>>, a: Addr, key: Key,
                                              mem': Memory<V>, trees': map<Addr, N.Node<V>>)
    requires a in trees && PathUnique(mem, trees, a, key)
    requires forall x :: x in mem.nodes && x in mem.counts && x in trees && (x == a || trees[x] < trees[a]) ==>
               && x in mem'.nodes && mem'.nodes[x] == mem.nodes[x]
               && x in mem'.counts && mem'.counts[x] == mem.counts[x]
               && x in trees' && trees'[x] == trees[x]
    ensures PathUnique(mem', trees', a, key)
    decreases trees[a]
  {
    var n := mem.nodes[a];
    if n.prefix < key && key[|n.prefix|] in VKids(n) {
      PathUniqueFrame(mem, trees, VKids(n)[key[|n.prefix|]], key[|n.prefix|..], mem', trees');
    }
  }

  /** Taking out a singly owned node leaves everything else that is referenced. */
  lemma TakenOthers<V>(rest: multiset<Addr>, cur: Addr, mem: Memory<V>, trees: map<Addr, N.Node<V>>,
                       mem': Memory<V>, trees': map<Addr, N.Node<V>>, ext': multiset<Addr>)
    requires cur !in rest && mem' == Taken(mem, cur) && trees' == trees - {cur}
    requires Sound(mem', trees', ext') && rest <= ext'
    ensures OthersKept(rest, mem, trees, mem', trees')
  {
    forall a | a in rest
      ensures a in mem'.counts
    {
      ExtAlive(mem', trees', ext', a);
    }
  }

  lemma OwnedKids<V>(n: VNode<V>, k: Byte, mem: Memory<V>, trees: map<Addr, N.Node<V>>)
    requires Owned(n, mem, trees) && k in VKids(n)
    ensures Erase(n, trees).prefix == n.prefix
    ensures k in N.Kids(Erase(n, trees)) && VKids(n)[k] in trees && N.Kids(Erase(n, trees))[k] == trees[VKids(n)[k]]
    ensures trees[VKids(n)[k]] < Erase(n, trees)
  {
    EraseShape(n, trees);
  }

  /** Borrowing a node leaves its child on the path singly owned. */
  lemma BorrowDown<V>(mem: Memory<V>, trees: map<Addr, N.Node<V>>, cur: Addr, key: Key, k: Byte, ext1: multiset<Addr>,
                      mem1: Memory<V>, trees1: map<Addr, N.Node<V>>)
    requires cur in trees && PathUnique(mem, trees, cur, key)
    requires var n := mem.nodes[cur];
             && n.prefix < key && k == key[|n.prefix|] && k in VKids(n)
             && KidRefs(n) <= ext1
    requires mem1 == Taken(mem, cur) && trees1 == trees - {cur} && Sound(mem1, trees1, ext1)
    ensures var n := mem.nodes[cur];
            var child := VKids(n)[k];
            && child in mem1.nodes && child in trees1 && child in mem1.counts && child in ext1
            && ext1[child] == 1 && trees1[child] < trees[cur]
            && PathUnique(mem1, trees1, child, key[|n.prefix|..])
  {
    hide Sound, KidRefs;
    var n := mem.nodes[cur];
    var child := VKids(n)[k];
    KidInRefs(n, k);
    ExtAlive(mem1, trees1, ext1, child);
    PathUniqueFrame(mem, trees, child, key[|n.prefix|..], mem1, trees1);
    SoleOwner(mem1, trees1, ext1, child);
  }

  lemma LookupStep<V>(tree: N.Node<V>, key: Key, value: V)
    requires N.Lookup(tree, key).Some?
    ensures tree.prefix <= key
    ensures |tree.prefix| == |key| ==> Ins(tree, key, value) == tree.(value := Some(value))
    ensures |tree.prefix| < |key| ==>
              var k := key[|tree.prefix|];
              k in N.Kids(tree) && N.Lookup(N.Kids(tree)[k], key[|tree.prefix|..]).Some?
  {
    assert |tree.prefix| == |key| ==> tree.prefix == key;
  }

  lemma PathCount<V>(mem: Memory<V>, trees: map<Addr, N.Node<V>>, a: Addr, key: Key)
    requires a in trees && PathUnique(mem, trees, a, key)
    ensures a in mem.nodes && a in mem.counts && mem.counts[a] == 1
  {
  }

  lemma OthersTransitive<V>(rest: multiset<Addr>, mem0: Memory<V>, trees0: map<Addr, N.Node<V>>,
                            mem1: Memory<V>, trees1: map<Addr, N.Node<V>>,
                            mem2: Memory<V>, trees2: map<Addr, N.Node<V>>)
    requires OthersKept(rest, mem0, trees0, mem1, trees1) && OthersKept(rest, mem1, trees1, mem2, trees2)
    ensures OthersKept(rest, mem0, trees0, mem2, trees2)
  {
  }

  /** A borrowed parent fits around a child that was written to in place. */
  lemma OneKidChanged<V>(n: VNode<V>, k: Byte, mem1: Memory<V>, trees1: map<Addr, N.Node<V>>,
                         mem2: Memory<V>, trees2: map<Addr, N.Node<V>>)
    requires Owned(n, mem1, trees1) && k in VKids(n)
    requires forall e :: e in VKids(n) ==>
               && VKids(n)[e] in mem2.nodes && VKids(n)[e] in trees2
               && mem2.nodes[VKids(n)[e]].version == mem1.nodes[VKids(n)[e]].version
               && (e != k ==> trees2[VKids(n)[e]] == trees1[VKids(n)[e]])
    ensures Owned(n, mem2, trees2)
    ensures k in N.Kids(Erase(n, trees1)) && Erase(n, trees1).content.Inner?
    ensures Erase(n, trees2) == N.WithChild(Erase(n, trees1), k, trees2[VKids(n)[k]])
  {
    hide Erase;
    EraseShape(n, trees1);
    EraseShape(n, trees2);
    assert N.Kids(Erase(n, trees2)) == N.Kids(Erase(n, trees1))[k := trees2[VKids(n)[k]]];
  }

  /** After a write below a singly owned child, the borrowed parent fits around it again. */
  lemma BorrowBack<V>(n: VNode<V>, k: Byte, rest: multiset<Addr>,
                      mem1: Memory<V>, trees1: map<Addr, N.Node<V>>, mem2: Memory<V>, trees2: map<Addr, N.Node<V>>)
    requires Owned(n, mem1, trees1) && k in VKids(n) && (rest + KidRefs(n))[VKids(n)[k]] == 1
    requires OthersKept(rest + KidRefs(n) - multiset{VKids(n)[k]}, mem1, trees1, mem2, trees2)
    requires var child := VKids(n)[k];
             child in mem2.nodes && child in trees2 && mem2.nodes[child].version == mem1.nodes[child].version
    ensures Owned(n, mem2, trees2)
    ensures k in N.Kids(Erase(n, trees1)) && Erase(n, trees1).content.Inner?
    ensures Erase(n, trees2) == N.WithChild(Erase(n, trees1), k, trees2[VKids(n)[k]])
    ensures OthersKept(rest, mem1, trees1, mem2, trees2)
  {
    hide KidRefs, Erase;
    SiblingRefs(n, k, rest);
    OneKidChanged(n, k, mem1, trees1, mem2, trees2);
  }

  lemma SiblingRefs<V>(n: VNode<V>, k: Byte, rest: multiset<Addr>)
    requires k in VKids(n) && (rest + KidRefs(n))[VKids(n)[k]] == 1
    ensures forall e :: e in VKids(n) && e != k ==> VKids(n)[e] in rest + KidRefs(n) - multiset{VKids(n)[k]}
    ensures forall a :: a in rest ==> a in rest + KidRefs(n) - multiset{VKids(n)[k]}
  {
    var child := VKids(n)[k];
    RefsRemove<Byte>(VKids(n), k);
    forall e | e in VKids(n) && e != k
      ensures VKids(n)[e] in rest + KidRefs(n) - multiset{child}
    {
      KidInRefs(n.(content := VInner(N.Node4, VKids(n) - {k})), e);
    }
  }

  /** A slot update of the node's own value. */
  lemma UpdatedHere<V>(tree: N.Node<V>, updater: Updater<V>)
    requires N.WellFormed(tree) && tree.value.Some?
    ensures var (left, action) := updater.occupied(tree.value.value);
            var value := match action case Keep => Some(left) case Insert(v) => Some(v) case Remove => None;
            && UpdatedTree(tree, tree.prefix, updater, false) == Pruned(tree.(value := value))
            && (Pruned(tree.(value := value)).Some? ==> N.WellFormed(tree.(value := value)))
  {
    UpdatedWellFormed(tree, tree.prefix, updater, false);
    assert CommonPrefix(tree.prefix, tree.prefix) == |tree.prefix|;
  }

  ghost function JoinedChild<V>(tree: N.Node<V>, k: Byte, child: Option<N.Node<V>>): N.Node<V>
    requires tree.content.Inner?
  {
    match child
    case None => N.WithoutChild(tree, k)
    case Some(c) => N.AddChild(N.WithoutChild(tree, k), k, c)
  }

  /** A slot update below a node, put together from the update of the child on the path. */
  lemma UpdatedJoined<V>(tree: N.Node<V>, key: Key, updater: Updater<V>)
    requires N.WellFormed(tree) && tree.prefix < key && key[|tree.prefix|] in N.Kids(tree)
    ensures var k := key[|tree.prefix|];
            UpdatedTree(tree, key, updater, false) ==
            Pruned(JoinedChild(tree, k, UpdatedTree(N.Kids(tree)[k], key[|tree.prefix|..], updater, false)))
    ensures var t := UpdatedTree(tree, key, updater, false); t.Some? ==> N.WellFormed(t.value)
  {
    hide N.WellFormed, N.Lookup, Ins, Rem, RemBelow;
    var k, rest := key[|tree.prefix|], key[|tree.prefix|..];
    var kid := N.Kids(tree)[k];
    UpdatedWellFormed(tree, key, updater, false);
    DescendLookup(tree, key);
    RemJoined(tree, key, Rem(kid, rest, false));
    ReattachSame(tree, k);
    match N.Lookup(kid, rest) {
      case None =>
        if updater.vacant.Insert? {
          InsJoined(tree, key, updater.vacant.value);
        }
      case Some(v) =>
        var (left, action) := updater.occupied(v);
        InsJoined(tree, key, left);
        if action.Insert? {
          InsJoined(tree, key, action.value);
        }
    }
  }

  lemma InsJoined<V>(tree: N.Node<V>, key: Key, v: V)
    requires N.WellFormed(tree) && tree.prefix < key && key[|tree.prefix|] in N.Kids(tree)
    ensures var k := key[|tree.prefix|];
            Some(Ins(tree, key, v)) == Pruned(JoinedChild(tree, k, Some(Ins(N.Kids(tree)[k], key[|tree.prefix|..], v))))
  {
    hide Ins;
    var k := key[|tree.prefix|];
    DescendIns(tree, key, v);
    Reattach(tree, k, Ins(N.Kids(tree)[k], key[|tree.prefix|..], v));
    assert k in N.Kids(Ins(tree, key, v));
  }

  lemma ReattachSame<V>(tree: N.Node<V>, k: Byte)
    requires N.WellFormed(tree) && k in N.Kids(tree)
    ensures Pruned(JoinedChild(tree, k, Some(N.Kids(tree)[k]))) == Some(tree)
  {
    hide N.WellFormed, N.AddChild;
    Reattach(tree, k, N.Kids(tree)[k]);
    assert N.Kids(tree)[k := N.Kids(tree)[k]] == N.Kids(tree);
    assert N.WithChild(tree, k, N.Kids(tree)[k]) == tree;
    assert Pruned(tree) == Some(tree);
  }

  lemma KidCloned<V>(mem: Memory<V>, trees: map<Addr, N.Node<V>>, ext: multiset<Addr>, a: Addr, k: Byte)
    requires Sound(mem, trees, ext) && a in mem.nodes && a in trees && k in VKids(mem.nodes[a])
    ensures var child := VKids(mem.nodes[a])[k];
            && child in mem.nodes && child in mem.counts && child in trees
            && mem.nodes[child].version <= mem.nodes[a].version
            && trees[a].content.Inner? && k in N.Kids(trees[a])
            && trees[child] == N.Kids(trees[a])[k] && trees[child] < trees[a]
  {
    SoundNode(mem, trees, ext, a);
    EraseShape(mem.nodes[a], trees);
    KidTreesSmaller(mem, trees, ext, a);
  }

  lemma KeptNode<V>(mem: Memory<V>, trees: map<Addr, N.Node<V>>, mem': Memory<V>, trees': map<Addr, N.Node<V>>, a: Addr)
    requires Kept(mem, trees, mem', trees') && a in mem.nodes && a in mem'.nodes && a in trees && a in trees'
    ensures mem'.nodes[a] == mem.nodes[a] && trees'[a] == trees[a]
  {
  }

  lemma RearrangeRefs(ext: multiset<Addr>, cur: Addr, added: multiset<Addr>, kids: multiset<Addr>,
                      detached: multiset<Addr>)
    requires cur in ext
    ensures ext + added - multiset{cur} + kids + detached == ext - multiset{cur} + detached + kids + added
  {
  }

  ghost predicate KidsBelow<V>(kids: map<Byte, Addr>, a: Addr, mem: Memory<V>, trees: map<Addr, N.Node<V>>)
    requires a in trees
  {
    forall k :: k in kids ==> kids[k] in mem.nodes && kids[k] in trees && trees[kids[k]] < trees[a]
  }

  /** A node is put together again from the trees of its children. */
  lemma TreeFromKids<V>(mem: Memory<V>, trees: map<Addr, N.Node<V>>, ext: multiset<Addr>, a: Addr,
                        children: map<Byte, N.Node<V>>)
    requires Sound(mem, trees, ext) && a in mem.nodes && a in trees
    requires forall k :: k in VKids(mem.nodes[a]) ==> VKids(mem.nodes[a])[k] in trees
    requires children.Keys == VKids(mem.nodes[a]).Keys
    requires forall k :: k in VKids(mem.nodes[a]) ==> children[k] == trees[VKids(mem.nodes[a])[k]]
    ensures var n := mem.nodes[a];
            trees[a] == N.Node(n.prefix, n.value,
                               if n.content.VEmpty? then N.Empty else N.Inner(n.content.kind, children))
  {
    hide Sound, Erase;
    KidLookup(mem, trees, ext, a);
    NodeShape(mem, trees, ext, a);
    assert N.Kids(trees[a]) == children;
  }

  lemma NodeShape<V>(mem: Memory<V>, trees: map<Addr, N.Node<V>>, ext: multiset<Addr>, a: Addr)
    requires Sound(mem, trees, ext) && a in mem.nodes && a in trees
    ensures trees[a].content.Empty? <==> mem.nodes[a].content.VEmpty?
    ensures trees[a].content.Inner? ==> trees[a].content.kind == mem.nodes[a].content.kind
  {
    SoundNode(mem, trees, ext, a);
    EraseShape(mem.nodes[a], trees);
  }

  lemma EntriesSize<V>(n: N.Node<V>)
    ensures |Entries.Entries(n)| == (if n.value.Some? then 1 else 0) + |ChildEntries(n, 0)|
    ensures ChildEntries(n, 256) == []
  {
  }

  lemma ChildEntriesStep<V>(n: N.Node<V>, k: nat)
    requires k < 256
    ensures |ChildEntries(n, k)| ==
            (if k in N.Kids(n) then |Entries.Entries(N.Kids(n)[k])| else 0) + |ChildEntries(n, k + 1)|
  {
  }

  lemma SplitFirst(ext: multiset<Addr>, refs: multiset<Addr>, a: Addr, others: multiset<Addr>)
    requires refs == multiset{a} + others
    ensures a in ext + refs && ext + refs - multiset{a} == ext + others
  {
  }

  // ----- Path copying -----

  lemma SplitPlaced<V>(mem: Memory<V>, cur: Addr, key: Key, mem1: Memory<V>, mem': Memory<V>, upper: VNode<V>,
                       res: Addr, low: Addr, created: set<Addr>)
    requires cur in mem.nodes && low in mem1.nodes && mem1.nodes == mem.nodes[low := mem1.nodes[low]]
    requires VKids(mem1.nodes[low]) == VKids(mem.nodes[cur])
    requires forall x :: x in mem1.nodes ==> x in mem'.nodes && mem'.nodes[x] == mem1.nodes[x]
    requires forall x :: x in mem'.nodes ==> x in mem1.nodes || x in created
    requires res in mem'.nodes && mem'.nodes[res] == upper && low in created
    requires var n := mem.nodes[cur];
             var lcp := CommonPrefix(n.prefix, key);
             && lcp < |n.prefix| && |created| <= (if lcp == |key| then 2 else 3)
             && n.prefix[lcp] in VKids(upper) && VKids(upper)[n.prefix[lcp]] == low
    ensures SplitInto(mem, cur, key, mem', res, low, created)
  {
  }

  lemma SoundClosed<V>(mem: Memory<V>, trees: map<Addr, N.Node<V>>, ext: multiset<Addr>)
    requires Sound(mem, trees, ext)
    ensures Closed(mem)
  {
    forall x, k | x in mem.nodes && k in VKids(mem.nodes[x])
      ensures VKids(mem.nodes[x])[k] in mem.nodes
    {
      assert NodeOk(mem.nodes[x], trees[x], mem.nodes, trees);
    }
  }

  /** Dropping another reference keeps the new nodes, because they are referenced. */
  lemma CopiedAfterDrop<V>(mem: Memory<V>, trees: map<Addr, N.Node<V>>, a: Addr, key: Key,
                           mem1: Memory<V>, trees1: map<Addr, N.Node<V>>,
                           mem': Memory<V>, trees': map<Addr, N.Node<V>>, ext: multiset<Addr>, res: Option<Addr>)
    requires PathCopied(mem, trees, a, key, mem1, res) && Kept(mem1, trees1, mem', trees')
    requires Sound(mem', trees', ext) && (res.Some? ==> res.value in mem'.nodes)
    requires forall x :: x in mem'.nodes ==> x in mem1.nodes
    ensures PathCopied(mem, trees, a, key, mem', res)
  {
    hide PathCopied, Sound;
    SoundClosed(mem', trees', ext);
    CopiedLater(mem, trees, a, key, mem1, res, mem');
  }

  /** `n` goes back into memory around what is left of its child, unless nothing is left at all. */
  ghost predicate PutAround<V>(n: VNode<V>, k: Byte, child: Option<Addr>, mem: Memory<V>, mem': Memory<V>,
                               res: Option<Addr>)
    requires k !in VKids(n)
  {
    var m := if child.None? then n else VAddChild(n, k, child.value);
    if res.Some? then mem' == Stored(mem, m) && res.value == mem.next && mem.next !in mem.nodes
    else mem' == mem && VKids(m) == map[]
  }

  lemma KidsAround<V>(node: VNode<V>, version: nat, n: VNode<V>, k: Byte, child: Option<Addr>,
                      mem: Memory<V>, mem': Memory<V>, res: Option<Addr>)
    requires n == VDeleteChild(node.(version := version), k) && k !in VKids(n)
    requires PutAround(n, k, child, mem, mem', res)
    ensures KidsAt(mem', res) - {k} == VKids(node) - {k} && KidUnder(KidsAt(mem', res), k) == child
    ensures forall x :: x in mem'.nodes ==> x in mem.nodes || res == Some(x)
    ensures forall x :: x in mem.nodes ==> x in mem'.nodes && mem'.nodes[x] == mem.nodes[x]
    ensures res.Some? ==> res.value in mem'.nodes
  {
    var m := if child.None? then n else VAddChild(n, k, child.value);
    assert KidsAt(mem', res) == VKids(m);
    KidsDeleted(node, version, k);
    if child.Some? {
      KidsAdded(n, k, child.value);
    }
  }

  lemma KidsDeleted<V>(node: VNode<V>, version: nat, k: Byte)
    ensures VKids(VDeleteChild(node.(version := version), k)) == VKids(node) - {k}
    ensures VKids(node) - {k} - {k} == VKids(node) - {k}
  {
  }

  lemma KidsAdded<V>(n: VNode<V>, k: Byte, child: Addr)
    requires k !in VKids(n)
    ensures VKids(VAddChild(n, k, child)) - {k} == VKids(n) - {k}
    ensures KidUnder(VKids(VAddChild(n, k, child)), k) == Some(child)
  {
  }

  lemma KidEdge<V>(mem: Memory<V>, trees: map<Addr, N.Node<V>>, ext: multiset<Addr>, a: Addr, k: Byte)
    requires Sound(mem, trees, ext) && a in mem.nodes && a in trees && k in VKids(mem.nodes[a])
    ensures var child := VKids(mem.nodes[a])[k];
            && child in mem.nodes && child in trees
            && N.EdgeOk(k, trees[child]) && trees[child].prefix == mem.nodes[child].prefix
  {
    KidCloned(mem, trees, ext, a, k);
    CopyOwned(mem, trees, ext, a, mem.nodes[a].version);
    var child := VKids(mem.nodes[a])[k];
    CopyOwned(mem, trees, ext, child, mem.nodes[child].version);
  }

  lemma CopiedBelow<V>(mem: Memory<V>, trees: map<Addr, N.Node<V>>, ext: multiset<Addr>, cur: Addr, key: Key,
                       k: Byte, kid: Addr, mem1: Memory<V>, trees1: map<Addr, N.Node<V>>,
                       mem2: Memory<V>, child: Option<Addr>, n: VNode<V>,
                       mem': Memory<V>, trees': map<Addr, N.Node<V>>, ext': multiset<Addr>, res: Option<Addr>)
    requires Sound(mem, trees, ext) && cur in mem.nodes && cur in trees
    requires mem.nodes[cur].prefix < key && k == key[|mem.nodes[cur].prefix|]
    requires k in VKids(mem.nodes[cur]) && kid == VKids(mem.nodes[cur])[k]
    requires Kept(mem, trees, mem1, trees1) && mem1.next <= mem2.next
    requires forall x :: x in mem1.nodes ==> x in mem.nodes
    requires forall x :: x in mem2.nodes ==> x in mem1.nodes || x >= mem1.next
    requires PathCopied(mem1, trees1, kid, key[|mem.nodes[cur].prefix|..], mem2, child)
    requires n == VDeleteChild(mem.nodes[cur].(version := n.version), k) && k !in VKids(n)
    requires PutAround(n, k, child, mem2, mem', res) && Sound(mem', trees', ext')
    ensures PathCopied(mem, trees, cur, key, mem', res)
  {
    hide Sound, Erase, N.WellFormed, Rebuilt, CopyBound, NodeOk, PutAround;
    ghost var rest := key[|mem.nodes[cur].prefix|..];
    NodesBelowNext(mem, trees, ext);
    KidCloned(mem, trees, ext, cur, k);
    KidEdge(mem, trees, ext, cur, k);
    KidsAround(mem.nodes[cur], n.version, n, k, child, mem2, mem', res);
    SoundClosed(mem', trees', ext');
    RebuiltEnd(mem1, trees1, kid, rest, mem2, child);
    RebuiltFrame(mem1, trees1, kid, rest, mem2, child, mem, trees, mem');
    DeeperCopied(mem, trees, cur, key, kid, mem1.next, mem2, child, mem', res);
  }

  lemma RebuiltEnd<V>(mem: Memory<V>, trees: map<Addr, N.Node<V>>, a: Addr, key: Key, mem': Memory<V>,
                      res: Option<Addr>)
    requires a in trees && Rebuilt(mem, trees, a, key, mem', res)
    ensures res.Some? ==> res.value in mem'.nodes
  {
  }

  /** An update below a child, made on a second reference to it, and the child replaced. */
  lemma ReplacedCopied<V>(mem: Memory<V>, trees: map<Addr, N.Node<V>>, ext: multiset<Addr>, cur: Addr, key: Key,
                          k: Byte, kid: Addr, mem1: Memory<V>, mem2: Memory<V>, trees2: map<Addr, N.Node<V>>,
                          child: Option<Addr>,
                          mem': Memory<V>, trees': map<Addr, N.Node<V>>, ext': multiset<Addr>, res: Option<Addr>)
    requires Sound(mem, trees, ext) && cur in mem.nodes && cur in trees
    requires mem.nodes[cur].prefix < key && k == key[|mem.nodes[cur].prefix|]
    requires k in VKids(mem.nodes[cur]) && kid == VKids(mem.nodes[cur])[k]
    requires mem1.nodes == mem.nodes && mem1.next == mem.next && Kept(mem, trees, mem2, trees2)
    requires PathCopied(mem1, trees, kid, key[|mem.nodes[cur].prefix|..], mem2, child)
    requires KidsAt(mem', res) - {k} == VKids(mem.nodes[cur]) - {k} && KidUnder(KidsAt(mem', res), k) == child
    requires Kept(mem2, trees2, mem', trees') && Sound(mem', trees', ext')
    requires forall x :: x in mem'.nodes ==> x in mem2.nodes || res == Some(x)
    requires res.Some? ==> res.value in mem'.nodes
    ensures PathCopied(mem, trees, cur, key, mem', res)
  {
    hide Sound, Erase, N.WellFormed, Rebuilt, CopyBound, NodeOk;
    ghost var rest := key[|mem.nodes[cur].prefix|..];
    NodesBelowNext(mem, trees, ext);
    KidCloned(mem, trees, ext, cur, k);
    KidEdge(mem, trees, ext, cur, k);
    SoundClosed(mem', trees', ext');
    RebuiltFrame(mem1, trees, kid, rest, mem2, child, mem, trees, mem');
    DeeperCopied(mem, trees, cur, key, kid, mem.next, mem2, child, mem', res);
  }

  /** The same nodes with the same children. */
  ghost predicate SameKids<V>(mem: Memory<V>, mem': Memory<V>) {
    && mem'.nodes.Keys == mem.nodes.Keys
    && forall x :: x in mem.nodes && x in mem'.nodes ==> VKids(mem'.nodes[x]) == VKids(mem.nodes[x])
  }

  lemma SameKidsAround<V>(mem: Memory<V>, a: Addr, mem1: Memory<V>, mem2: Memory<V>)
    requires a in mem.nodes && mem1.nodes == mem.nodes - {a} && SameKids(mem1, mem2)
    ensures a !in mem2.nodes && SameKids(mem, Memory(mem2.nodes[a := mem.nodes[a]], mem2.counts, mem2.next))
  {
  }

  /** Writing to values in place takes nothing back of what was shared. */
  lemma WrittenCopied<V>(mem: Memory<V>, trees: map<Addr, N.Node<V>>, root: Option<Addr>, key: Key,
                         mem': Memory<V>, res: Addr, later: Memory<V>, laterTrees: map<Addr, N.Node<V>>,
                         ext: multiset<Addr>)
    requires RootCopied(mem, trees, root, key, mem', Some(res)) && SameKids(mem', later)
    requires Sound(later, laterTrees, ext) && res in later.nodes
    ensures RootCopied(mem, trees, root, key, later, Some(res))
  {
    hide Sound, PathCopied;
    SoundClosed(later, laterTrees, ext);
    assert NewNodes(mem.next, later) == NewNodes(mem.next, mem');
    if root.Some? {
      CopiedLater(mem, trees, root.value, key, mem', Some(res), later);
    }
  }

  /** The verdict of a callback that has left `left` in the slot of `m` was carried out. */
  ghost predicate Settled<V, E>(m: map<Key, V>, key: Key, left: V, verdict: Result<SlotUpdate<V>, E>,
                                m': map<Key, V>, r: Result<bool, E>)
  {
    match verdict
    case Err(e) => m' == m && r == Err(e)
    case Ok(Keep) => m' == m[key := left] && r == Ok(true)
    case Ok(Insert(w)) => m' == m[key := w] && r == Ok(true)
    case Ok(Remove) => m' == m - {key} && r == Ok(true)
  }

  lemma SettledSlot<V, E>(m: map<Key, V>, key: Key, callback: Callback<V, E>, m': map<Key, V>, r: Result<bool, E>)
    requires key in m
    requires var (left, verdict) := callback.occupied(m[key]); Settled(m, key, left, verdict, m', r)
    ensures SlotUpdated(m, key, callback, m', r)
  {
  }

  lemma UnchangedSlot<V>(n: N.Node<V>, key: Key, updater: Updater<V>)
    requires N.WellFormed(n) && N.Lookup(n, key).None? && !updater.vacant.Insert?
    ensures SlotUpdated(View(n), key, Lift(updater), View(n), Ok(false))
  {
    hide View, N.Lookup, N.WellFormed;
    FindLookup(n, key);
  }

  lemma ExactLookup<V>(n: N.Node<V>, key: Key)
    requires n.prefix == key
    ensures N.Lookup(n, key) == n.value
  {
  }

  lemma CopyLimit<V>(mem: Memory<V>, trees: map<Addr, N.Node<V>>, root: Option<Addr>, key: Key, mem': Memory<V>,
                     root': Option<Addr>)
    requires RootCopied(mem, trees, root, key, mem', root')
    ensures |NewNodes(mem.next, mem')| <= |key| + 2
  {
  }

  lemma RootKept<V>(mem: Memory<V>, later: Memory<V>, root: Addr)
    requires SameKids(mem, later) && root in mem.nodes
    ensures root in later.nodes
  {
  }

  lemma ForestSound<V>(mem: Memory<V>, trees: map<Addr, N.Node<V>>, handles: map<Id, Handle>)
    requires ForestOk(mem, trees, handles)
    ensures Sound(mem, trees, HandleRefs(handles))
  {
  }

  lemma CopiedAtRoot<V>(mem: Memory<V>, trees: map<Addr, N.Node<V>>, root: Addr, key: Key, mem': Memory<V>,
                        res: Option<Addr>)
    requires PathCopied(mem, trees, root, key, mem', res)
    ensures RootCopied(mem, trees, Some(root), key, mem', res)
  {
    hide Rebuilt;
  }

  lemma ValueTaken<V>(tree: N.Node<V>)
    requires N.WellFormed(tree)
    ensures Pruned(tree.(value := None)).Some? ==> N.WellFormed(tree.(value := None))
    ensures tree.content.Empty? ==> Pruned(tree.(value := None)).None?
  {
  }

  lemma InsSplits<V>(tree: N.Node<V>, key: Key, value: V)
    requires CommonPrefix(tree.prefix, key) < |tree.prefix|
    ensures var lcp := CommonPrefix(tree.prefix, key);
            if lcp == |key| then Ins(tree, key, value) == SplitAt(tree, lcp).(value := Some(value))
            else
              && key[lcp] !in N.Kids(SplitAt(tree, lcp))
              && Ins(tree, key, value) == N.AddChild(SplitAt(tree, lcp), key[lcp], N.NewLeaf(key[lcp..], value))
  {
  }

  lemma OwnedShape<V>(n: VNode<V>, mem: Memory<V>, trees: map<Addr, N.Node<V>>)
    requires Owned(n, mem, trees)
    ensures Erase(n, trees).value == n.value && |N.Kids(Erase(n, trees))| == |VKids(n)|
  {
    EraseShape(n, trees);
  }

  /** Removal below a node, put together from what is left of the child on the path. */
  lemma RemJoined<V>(tree: N.Node<V>, key: Key, child: Option<N.Node<V>>)
    requires N.WellFormed(tree) && tree.prefix < key && key[|tree.prefix|] in N.Kids(tree)
    requires Rem(N.Kids(tree)[key[|tree.prefix|]], key[|tree.prefix|..], false) == child
    ensures var k := key[|tree.prefix|];
            && k !in N.Kids(N.WithoutChild(tree, k))
            && Rem(tree, key, false) == Pruned(RemBelow(tree, key[|tree.prefix|..], false))
            && RemBelow(tree, key[|tree.prefix|..], false) ==
               if child.None? then N.WithoutChild(tree, k)
               else N.AddChild(N.WithoutChild(tree, k), k, child.value)
  {
    if child.Some? {
      Reattach(tree, key[|tree.prefix|], child.value);
    }
  }

  /** Where the tree that an operation leaves behind is found. */
  ghost predicate Located<V>(tree: Option<N.Node<V>>, res: Option<Addr>, version: nat,
                            mem: Memory<V>, trees: map<Addr, N.Node<V>>) {
    if res.None? then tree.None?
    else res.value in mem.nodes && res.value in trees && tree == Some(trees[res.value])
         && mem.nodes[res.value].version == version
  }

  lemma KidLookup<V>(mem: Memory<V>, trees: map<Addr, N.Node<V>>, ext: multiset<Addr>, a: Addr)
    requires Sound(mem, trees, ext) && a in mem.nodes && a in trees
    ensures var n := mem.nodes[a];
            && trees[a].prefix == n.prefix && trees[a].value == n.value
            && N.Kids(trees[a]).Keys == VKids(n).Keys
            && forall k :: k in VKids(n) ==> VKids(n)[k] in trees && N.Kids(trees[a])[k] == trees[VKids(n)[k]]
  {
    SoundNode(mem, trees, ext, a);
    EraseShape(mem.nodes[a], trees);
  }

  lemma KeptOthers<V>(others: multiset<Addr>, res: Option<Addr>, mem: Memory<V>, trees: map<Addr, N.Node<V>>,
                      mem': Memory<V>, trees': map<Addr, N.Node<V>>)
    requires Kept(mem, trees, mem', trees') && Sound(mem', trees', others + RootRef(res))
    ensures OthersKept(others, mem, trees, mem', trees')
  {
    forall a | a in others
      ensures a in mem'.nodes && a in mem'.counts && a in trees'
    {
      assert a in others + RootRef(res);
      ExtAlive(mem', trees', others + RootRef(res), a);
    }
  }

  lemma RootAlive<V>(mem: Memory<V>, trees: map<Addr, N.Node<V>>, others: multiset<Addr>, res: Option<Addr>)
    requires Sound(mem, trees, others + RootRef(res))
    ensures res.Some? ==>
              && res.value in others + RootRef(res)
              && res.value in mem.nodes && res.value in mem.counts && res.value in trees
              && N.WellFormed(trees[res.value])
  {
    if res.Some? {
      assert res.value in others + RootRef(res);
      ExtAlive(mem, trees, others + RootRef(res), res.value);
      SoundNode(mem, trees, others + RootRef(res), res.value);
    }
  }

  lemma UnchangedEntry<V>(m: map<Id, map<Key, V>>, h: Id, entry: map<Key, V>)
    requires h in m && entry == m[h]
    ensures m == m[h := entry]
  {
  }

  lemma DeleteOwned<V>(n: VNode<V>, k: Byte, mem: Memory<V>, trees: map<Addr, N.Node<V>>)
    requires Owned(n, mem, trees) && k in VKids(n)
    ensures Owned(VDeleteChild(n, k), mem, trees)
    ensures k !in VKids(VDeleteChild(n, k))
    ensures Erase(n, trees).content.Inner? && k in N.Kids(Erase(n, trees))
    ensures Erase(VDeleteChild(n, k), trees) == N.WithoutChild(Erase(n, trees), k)
    ensures KidRefs(n) == KidRefs(VDeleteChild(n, k)) + multiset{VKids(n)[k]}
    ensures VKids(n)[k] in trees && N.Kids(Erase(n, trees))[k] == trees[VKids(n)[k]]
  {
    hide Erase;
    EraseDeleteChild(n, k, trees);
  }

  /** A child is older than the next version and smaller than its parent. */
  lemma KidFacts<V>(mem: Memory<V>, trees: map<Addr, N.Node<V>>, ext: multiset<Addr>, a: Addr, k: Byte,
                    mem': Memory<V>, trees': map<Addr, N.Node<V>>)
    requires Sound(mem, trees, ext) && a in mem.nodes && a in trees && k in VKids(mem.nodes[a])
    requires Kept(mem, trees, mem', trees')
    ensures var child := VKids(mem.nodes[a])[k];
            child in mem'.nodes && child in trees' ==>
              mem'.nodes[child].version <= mem.nodes[a].version && trees'[child] < trees[a]
  {
    SoundNode(mem, trees, ext, a);
    KidTreesSmaller(mem, trees, ext, a);
  }

  /** A child that was just taken out fits back in without growing the layout. */
  lemma Reattach<V>(tree: N.Node<V>, k: Byte, child: N.Node<V>)
    requires N.WellFormed(tree) && k in N.Kids(tree)
    ensures N.AddChild(N.WithoutChild(tree, k), k, child) == N.WithChild(tree, k, child)
  {
    N.RemoveEdgeCount(N.Kids(tree), k);
    assert (N.Kids(tree) - {k})[k := child] == N.Kids(tree)[k := child];
  }

  lemma EdgeWellFormed<V>(tree: N.Node<V>, rest: Key, value: V)
    requires N.WellFormed(tree) && rest != [] && rest[0] !in N.Kids(tree)
    ensures N.WellFormed(N.AddChild(tree, rest[0], N.NewLeaf(rest, value)))
  {
    AddChildWellFormed(tree, rest[0], N.NewLeaf(rest, value));
  }

  lemma CutPrefix<V>(n: VNode<V>, mem: Memory<V>, trees: map<Addr, N.Node<V>>, at: nat)
    requires Owned(n, mem, trees) && N.WellFormed(Erase(n, trees)) && at < |n.prefix|
    ensures Owned(n.(prefix := n.prefix[at..]), mem, trees)
    ensures Erase(n.(prefix := n.prefix[at..]), trees) == Erase(n, trees).(prefix := n.prefix[at..])
    ensures N.WellFormed(Erase(n.(prefix := n.prefix[at..]), trees))
    ensures KidRefs(n.(prefix := n.prefix[at..])) == KidRefs(n)
  {
    assert VKids(n.(prefix := n.prefix[at..])) == VKids(n);
    SplitWellFormed(Erase(n, trees), at);
  }

  /** The new parent of a split node. */
  lemma UpperOwned<V>(tree: N.Node<V>, at: nat, version: nat, low: Addr, mem: Memory<V>, trees: map<Addr, N.Node<V>>)
    requires at < |tree.prefix| && low in mem.nodes && mem.nodes[low].version <= version
    requires low in trees && trees[low] == tree.(prefix := tree.prefix[at..])
    ensures var upper: VNode<V> := VAddChild(VNewInner(tree.prefix[..at], version), tree.prefix[at], low);
            && Owned(upper, mem, trees)
            && Erase(upper, trees) == SplitAt(tree, at)
            && KidRefs(upper) == multiset{low}
            && upper.version == version
  {
    var inner: VNode<V> := VNewInner(tree.prefix[..at], version);
    EraseAddChild(inner, tree.prefix[at], low, trees);
    assert N.Kids(Erase(inner, trees)) == map[];
    RefsEmpty<Byte>();
    assert KidRefs(inner) == multiset{};
  }

  lemma AddOwned<V>(n: VNode<V>, k: Byte, child: Addr, mem: Memory<V>, trees: map<Addr, N.Node<V>>)
    requires Owned(n, mem, trees) && k !in VKids(n)
    requires child in mem.nodes && child in trees && mem.nodes[child].version <= n.version
    ensures Owned(VAddChild(n, k, child), mem, trees)
    ensures k !in N.Kids(Erase(n, trees))
    ensures Erase(VAddChild(n, k, child), trees) == N.AddChild(Erase(n, trees), k, trees[child])
    ensures KidRefs(VAddChild(n, k, child)) == KidRefs(n) + multiset{child}
    ensures VAddChild(n, k, child).version == n.version
  {
    hide Erase;
    EraseAddChild(n, k, child, trees);
  }

  lemma ValueOwned<V>(n: VNode<V>, value: Option<V>, mem: Memory<V>, trees: map<Addr, N.Node<V>>)
    requires Owned(n, mem, trees)
    ensures Owned(n.(value := value), mem, trees)
    ensures Erase(n.(value := value), trees) == Erase(n, trees).(value := value)
    ensures KidRefs(n.(value := value)) == KidRefs(n)
  {
    assert VKids(n.(value := value)) == VKids(n);
  }

  /** Steps that keep the references of a node in hand keep what it stands for. */
  lemma OwnedFrame<V>(n: VNode<V>, mem: Memory<V>, trees: map<Addr, N.Node<V>>,
                      mem': Memory<V>, trees': map<Addr, N.Node<V>>, ext': multiset<Addr>)
    requires Owned(n, mem, trees) && Kept(mem, trees, mem', trees')
    requires Sound(mem', trees', ext') && KidRefs(n) <= ext'
    ensures Owned(n, mem', trees')
    ensures Erase(n, trees') == Erase(n, trees)
  {
    hide Sound, KidRefs, N.WellFormed;
    OwnedAlive(mem', trees', ext', n);
    if n.content.VInner? {
      assert (map k | k in VKids(n) :: trees[VKids(n)[k]]) == (map k | k in VKids(n) :: trees'[VKids(n)[k]]);
    }
  }

  lemma SoundNode<V>(mem: Memory<V>, trees: map<Addr, N.Node<V>>, ext: multiset<Addr>, a: Addr)
    requires Sound(mem, trees, ext) && a in mem.nodes && a in trees
    ensures NodeOk(mem.nodes[a], trees[a], mem.nodes, trees)
  {
  }

  lemma CopyOwned<V>(mem: Memory<V>, trees: map<Addr, N.Node<V>>, ext: multiset<Addr>, a: Addr, version: nat)
    requires Sound(mem, trees, ext) && a in mem.nodes && a in trees && mem.nodes[a].version <= version
    ensures Owned(mem.nodes[a].(version := version), mem, trees)
    ensures Erase(mem.nodes[a].(version := version), trees) == trees[a]
    ensures N.WellFormed(trees[a])
    ensures trees[a].prefix == mem.nodes[a].prefix && trees[a].value == mem.nodes[a].value
    ensures N.Kids(trees[a]).Keys == VKids(mem.nodes[a]).Keys
  {
    assert NodeOk(mem.nodes[a], trees[a], mem.nodes, trees);
    EraseShape(mem.nodes[a], trees);
  }

  lemma NewerOwned<V>(n: VNode<V>, mem: Memory<V>, trees: map<Addr, N.Node<V>>, version: nat)
    requires Owned(n, mem, trees) && n.version <= version
    ensures Owned(n.(version := version), mem, trees)
    ensures Erase(n.(version := version), trees) == Erase(n, trees)
    ensures KidRefs(n.(version := version)) == KidRefs(n)
  {
    assert VKids(n.(version := version)) == VKids(n);
  }

  /** Counting references does not touch the nodes. */
  lemma KeptCounts<V>(mem: Memory<V>, mem1: Memory<V>, trees: map<Addr, N.Node<V>>,
                      mem2: Memory<V>, trees2: map<Addr, N.Node<V>>)
    requires mem1.nodes == mem.nodes && mem1.next == mem.next
    requires Kept(mem1, trees, mem2, trees2)
    ensures Kept(mem, trees, mem2, trees2)
  {
  }

  lemma SoundCounts<V>(mem: Memory<V>, trees: map<Addr, N.Node<V>>, ext: multiset<Addr>)
    requires Sound(mem, trees, ext)
    ensures mem.counts.Keys == mem.nodes.Keys == trees.Keys
  {
  }

  lemma KidTreesSmaller<V>(mem: Memory<V>, trees: map<Addr, N.Node<V>>, ext: multiset<Addr>, a: Addr)
    requires Sound(mem, trees, ext) && a in mem.nodes && a in trees
    ensures forall k :: k in VKids(mem.nodes[a]) ==>
              && VKids(mem.nodes[a])[k] in trees && VKids(mem.nodes[a])[k] in mem.nodes
              && trees[VKids(mem.nodes[a])[k]] < trees[a]
  {
    SoundNode(mem, trees, ext, a);
    hide Sound, NodeOk;
    forall k | k in VKids(mem.nodes[a])
      ensures VKids(mem.nodes[a])[k] in trees && VKids(mem.nodes[a])[k] in mem.nodes
      ensures trees[VKids(mem.nodes[a])[k]] < trees[a]
    {
      KidTreeSmaller(mem.nodes[a], trees[a], mem.nodes, trees, k);
    }
  }

  lemma KidTreeSmaller<V>(n: VNode<V>, tree: N.Node<V>, nodes: map<Addr, VNode<V>>, trees: map<Addr, N.Node<V>>,
                          k: Byte)
    requires NodeOk(n, tree, nodes, trees) && k in VKids(n)
    ensures VKids(n)[k] in trees && VKids(n)[k] in nodes && trees[VKids(n)[k]] < tree
  {
    EraseShape(n, trees);
    hide Erase, N.WellFormed;
    assert tree.content.Inner?;
    assert tree.content.children[k] < tree;
  }

  lemma RefsEmpty<K>()
    ensures var none: map<K, Addr> := map[]; Refs<K>(none) == multiset{}
  {
  }
}
