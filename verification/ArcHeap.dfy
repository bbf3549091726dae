/**
 Reference-counted nodes of the copy-on-write tree.

 A node sits at an address together with its strong count. References to it are
 held by other nodes in memory and by the outside: tree handles, and the local
 variables of a running operation. The outside references are kept as a multiset
 `ext`; an operation trades them as the program moves, clones and drops them.
 */
module ArcHeap {
  import opened Wrappers
  import opened Bytes
  import N = Node

  type Addr = nat

  datatype VContent =
    | VEmpty
    | VInner(kind: N.Kind, children: map<Byte, Addr>)

  datatype VNode<+V> = VNode(prefix: Key, value: Option<V>, content: VContent, version: nat)

  datatype Memory<+V> = Memory(nodes: map<Addr, VNode<V>>, counts: map<Addr, nat>, next: Addr)

  function VKids<V>(n: VNode<V>): map<Byte, Addr> {
    match n.content
    case VEmpty => map[]
    case VInner(_, children) => children
  }

  function VNewLeaf<V>(prefix: Key, value: V, version: nat): VNode<V> {
    VNode(prefix, Some(value), VEmpty, version)
  }

  function VNewInner<V>(prefix: Key, version: nat): VNode<V> {
    VNode(prefix, None, VInner(N.Node4, map[]), version)
  }

  function VAddChild<V>(n: VNode<V>, k: Byte, child: Addr): VNode<V>
    requires k !in VKids(n)
  {
    var kind := if n.content.VEmpty? then N.Node4 else N.GrowIfFull(n.content.kind, |VKids(n)|);
    n.(content := VInner(kind, VKids(n)[k := child]))
  }

  /** Deleting a child never shrinks the layout and never collapses the node. */
  function VDeleteChild<V>(n: VNode<V>, k: Byte): VNode<V> {
    match n.content
    case VEmpty => n
    case VInner(kind, children) => n.(content := VInner(kind, children - {k}))
  }

  // ----- References as multisets -----

  ghost function Refs<K>(m: map<K, Addr>): multiset<Addr> {
    if m == map[] then multiset{}
    else
      var k :| k in m;
      multiset{m[k]} + Refs(m - {k})
  }

  lemma RefsFirst<K>(m: map<K, Addr>) returns (first: K)
    requires m != map[]
    ensures first in m && Refs(m) == multiset{m[first]} + Refs(m - {first})
  {
    first :| first in m && Refs(m) == multiset{m[first]} + Refs(m - {first});
  }

  lemma {:induction false} RefsRemove<K>(m: map<K, Addr>, k: K)
    requires k in m
    ensures Refs(m) == multiset{m[k]} + Refs(m - {k})
    decreases |m|
  {
    hide Refs;
    var first := RefsFirst(m);
    if first != k {
      RefsRemove(m - {first}, k);
      RefsRemove(m - {k}, first);
      assert m - {first} - {k} == m - {k} - {first};
    }
  }

  lemma RefsAdd<K>(m: map<K, Addr>, k: K, a: Addr)
    requires k !in m
    ensures Refs(m[k := a]) == Refs(m) + multiset{a}
  {
    RefsRemove(m[k := a], k);
    assert m[k := a] - {k} == m;
  }

  ghost function KidRefs<V>(n: VNode<V>): multiset<Addr> {
    Refs<Byte>(VKids(n))
  }

  ghost function HeapRefs<V>(nodes: map<Addr, VNode<V>>): multiset<Addr> {
    if nodes == map[] then multiset{}
    else
      var a :| a in nodes;
      KidRefs(nodes[a]) + HeapRefs(nodes - {a})
  }

  lemma {:induction false} HeapRefsRemove<V>(nodes: map<Addr, VNode<V>>, a: Addr)
    requires a in nodes
    ensures HeapRefs(nodes) == KidRefs(nodes[a]) + HeapRefs(nodes - {a})
    decreases |nodes|
  {
    hide KidRefs;
    var first :| first in nodes && HeapRefs(nodes) == KidRefs(nodes[first]) + HeapRefs(nodes - {first});
    if first != a {
      HeapRefsRemove(nodes - {first}, a);
      HeapRefsRemove(nodes - {a}, first);
      assert nodes - {first} - {a} == nodes - {a} - {first};
    }
  }

  lemma HeapRefsAdd<V>(nodes: map<Addr, VNode<V>>, a: Addr, n: VNode<V>)
    requires a !in nodes
    ensures HeapRefs(nodes[a := n]) == HeapRefs(nodes) + KidRefs(n)
  {
    HeapRefsRemove(nodes[a := n], a);
    assert nodes[a := n] - {a} == nodes;
  }

  lemma KidCounted<V>(nodes: map<Addr, VNode<V>>, a: Addr, k: Byte)
    requires a in nodes && k in VKids(nodes[a])
    ensures VKids(nodes[a])[k] in HeapRefs(nodes)
  {
    HeapRefsRemove(nodes, a);
    RefsRemove<Byte>(VKids(nodes[a]), k);
  }

  lemma KidInRefs<V>(n: VNode<V>, k: Byte)
    requires k in VKids(n)
    ensures VKids(n)[k] in KidRefs(n)
  {
    RefsRemove<Byte>(VKids(n), k);
  }

  // ----- What the memory stands for -----

  /** The tree below a node, given the trees below its children. */
  ghost function Erase<V>(n: VNode<V>, trees: map<Addr, N.Node<V>>): N.Node<V>
    requires forall k :: k in VKids(n) ==> VKids(n)[k] in trees
  {
    N.Node(n.prefix, n.value,
      match n.content
      case VEmpty => N.Empty
      case VInner(kind, children) => N.Inner(kind, map k | k in children :: trees[children[k]]))
  }

  /**
   A node in memory: its children are in memory and not newer, and the tree it
   stands for is put together from theirs. As trees are finite, there is no cycle.
   */
  ghost predicate NodeOk<V>(n: VNode<V>, tree: N.Node<V>, nodes: map<Addr, VNode<V>>, trees: map<Addr, N.Node<V>>) {
    && (forall k :: k in VKids(n) ==> VKids(n)[k] in trees && VKids(n)[k] in nodes)
    && (forall k :: k in VKids(n) ==> nodes[VKids(n)[k]].version <= n.version)
    && tree == Erase(n, trees)
    && N.WellFormed(tree)
  }

  /** Every strong count is the number of references, from nodes and from outside. */
  ghost predicate CountsOk<V>(mem: Memory<V>, ext: multiset<Addr>) {
    forall a: Addr :: (ext + HeapRefs(mem.nodes))[a] == if a in mem.counts then mem.counts[a] else 0
  }

  ghost predicate Sound<V>(mem: Memory<V>, trees: map<Addr, N.Node<V>>, ext: multiset<Addr>) {
    && mem.counts.Keys == mem.nodes.Keys && trees.Keys == mem.nodes.Keys
    && (forall a :: a in mem.counts ==> mem.counts[a] >= 1 && a < mem.next)
    && (forall a :: a in mem.nodes ==> NodeOk(mem.nodes[a], trees[a], mem.nodes, trees))
    && CountsOk(mem, ext)
  }

  /** Outside references point to nodes in memory. */
  lemma ExtAlive<V>(mem: Memory<V>, trees: map<Addr, N.Node<V>>, ext: multiset<Addr>, a: Addr)
    requires Sound(mem, trees, ext) && a in ext
    ensures a in mem.nodes && a in mem.counts && a in trees
    ensures mem.counts[a] >= ext[a]
  {
    assert (ext + HeapRefs(mem.nodes))[a] == if a in mem.counts then mem.counts[a] else 0;
  }

  /** A strong count of one belongs to the reference in hand: nothing else points there. */
  lemma SoleOwner<V>(mem: Memory<V>, trees: map<Addr, N.Node<V>>, ext: multiset<Addr>, a: Addr)
    requires Sound(mem, trees, ext) && a in ext && a in mem.counts && mem.counts[a] == 1
    ensures ext[a] == 1 && a !in HeapRefs(mem.nodes)
    ensures forall x, k :: x in mem.nodes && k in VKids(mem.nodes[x]) ==> VKids(mem.nodes[x])[k] != a
  {
    assert (ext + HeapRefs(mem.nodes))[a] == if a in mem.counts then mem.counts[a] else 0;
    forall x, k | x in mem.nodes && k in VKids(mem.nodes[x])
      ensures VKids(mem.nodes[x])[k] != a
    {
      KidCounted(mem.nodes, x, k);
    }
  }

  /** Trees of nodes depend only on the trees of their children. */
  lemma NodeOkFrame<V>(n: VNode<V>, tree: N.Node<V>, nodes: map<Addr, VNode<V>>, trees: map<Addr, N.Node<V>>,
                       nodes': map<Addr, VNode<V>>, trees': map<Addr, N.Node<V>>)
    requires NodeOk(n, tree, nodes, trees)
    requires forall k :: k in VKids(n) ==>
               && VKids(n)[k] in nodes' && VKids(n)[k] in trees'
               && nodes'[VKids(n)[k]] == nodes[VKids(n)[k]] && trees'[VKids(n)[k]] == trees[VKids(n)[k]]
    ensures NodeOk(n, tree, nodes', trees')
  {
    if n.content.VInner? {
      assert (map k | k in VKids(n) :: trees[VKids(n)[k]]) == (map k | k in VKids(n) :: trees'[VKids(n)[k]]);
    }
  }

  // ----- The four elementary moves -----

  /** A node in hand whose children are all referenced from outside. */
  ghost predicate Owned<V>(n: VNode<V>, mem: Memory<V>, trees: map<Addr, N.Node<V>>) {
    && (forall k :: k in VKids(n) ==> VKids(n)[k] in trees && VKids(n)[k] in mem.nodes)
    && (forall k :: k in VKids(n) ==> mem.nodes[VKids(n)[k]].version <= n.version)
  }

  /** Memory with `n` at a free address below `next`, referenced once. */
  ghost function Placed<V>(mem: Memory<V>, a: Addr, n: VNode<V>, next: Addr): Memory<V> {
    Memory(mem.nodes[a := n], mem.counts[a := 1], next)
  }

  ghost function Stored<V>(mem: Memory<V>, n: VNode<V>): Memory<V> {
    Placed(mem, mem.next, n, mem.next + 1)
  }

  lemma PlaceCounts<V>(mem: Memory<V>, ext: multiset<Addr>, a: Addr, n: VNode<V>, next: Addr)
    requires CountsOk(mem, ext) && KidRefs(n) <= ext && a !in mem.nodes && a !in mem.counts
    ensures CountsOk(Placed(mem, a, n, next), ext - KidRefs(n) + multiset{a})
  {
    hide KidRefs, HeapRefs;
    var mem' := Placed(mem, a, n, next);
    HeapRefsAdd(mem.nodes, a, n);
    var ext' := ext - KidRefs(n) + multiset{a};
    forall x: Addr
      ensures (ext' + HeapRefs(mem'.nodes))[x] == if x in mem'.counts then mem'.counts[x] else 0
    {
      assert (ext + HeapRefs(mem.nodes))[x] == if x in mem.counts then mem.counts[x] else 0;
    }
  }

  lemma OwnedOk<V>(n: VNode<V>, mem: Memory<V>, trees: map<Addr, N.Node<V>>)
    requires Owned(n, mem, trees) && N.WellFormed(Erase(n, trees))
    ensures NodeOk(n, Erase(n, trees), mem.nodes, trees)
  {
    hide Erase, N.WellFormed;
  }

  lemma KidsElsewhere<V>(n: VNode<V>, tree: N.Node<V>, nodes: map<Addr, VNode<V>>, trees: map<Addr, N.Node<V>>)
    requires NodeOk(n, tree, nodes, trees)
    ensures forall k :: k in VKids(n) ==> VKids(n)[k] in nodes && VKids(n)[k] in trees
  {
    hide Erase, N.WellFormed;
  }

  lemma PlaceSound<V>(mem: Memory<V>, trees: map<Addr, N.Node<V>>, ext: multiset<Addr>, a: Addr, n: VNode<V>,
                      next: Addr)
    requires Sound(mem, trees, ext) && KidRefs(n) <= ext
    requires Owned(n, mem, trees) && N.WellFormed(Erase(n, trees))
    requires a !in mem.nodes && a < next && mem.next <= next
    ensures Sound(Placed(mem, a, n, next), trees[a := Erase(n, trees)], ext - KidRefs(n) + multiset{a})
  {
    hide KidRefs, HeapRefs, Erase, CountsOk, N.WellFormed, NodeOk;
    var mem', trees' := Placed(mem, a, n, next), trees[a := Erase(n, trees)];
    PlaceCounts(mem, ext, a, n, next);
    OwnedOk(n, mem, trees);
    KidsElsewhere(n, trees'[a], mem.nodes, trees);
    NodeOkFrame(n, trees'[a], mem.nodes, trees, mem'.nodes, trees');
    forall x | x in mem.nodes
      ensures NodeOk(mem'.nodes[x], trees'[x], mem'.nodes, trees')
    {
      KidsElsewhere(mem.nodes[x], trees[x], mem.nodes, trees);
      NodeOkFrame(mem.nodes[x], trees[x], mem.nodes, trees, mem'.nodes, trees');
    }
  }

  ghost function Taken<V>(mem: Memory<V>, a: Addr): Memory<V> {
    mem.(nodes := mem.nodes - {a}, counts := mem.counts - {a})
  }

  lemma TakeCounts<V>(mem: Memory<V>, ext: multiset<Addr>, a: Addr)
    requires CountsOk(mem, ext) && a in ext && a in mem.nodes && a in mem.counts && mem.counts[a] == 1
    ensures CountsOk(Taken(mem, a), ext - multiset{a} + KidRefs(mem.nodes[a]))
  {
    hide KidRefs, HeapRefs;
    HeapRefsRemove(mem.nodes, a);
    var ext' := ext - multiset{a} + KidRefs(mem.nodes[a]);
    forall x: Addr
      ensures (ext' + HeapRefs(mem.nodes - {a}))[x] == if x in mem.counts - {a} then mem.counts[x] else 0
    {
      assert (ext + HeapRefs(mem.nodes))[x] == if x in mem.counts then mem.counts[x] else 0;
    }
  }

  lemma OkOwned<V>(n: VNode<V>, tree: N.Node<V>, mem: Memory<V>, trees: map<Addr, N.Node<V>>)
    requires NodeOk(n, tree, mem.nodes, trees)
    ensures Owned(n, mem, trees) && tree == Erase(n, trees)
  {
    hide Erase, N.WellFormed;
  }

  lemma TakeSound<V>(mem: Memory<V>, trees: map<Addr, N.Node<V>>, ext: multiset<Addr>, a: Addr)
    requires Sound(mem, trees, ext) && a in ext && a in mem.counts && mem.counts[a] == 1
    ensures a in mem.nodes
    ensures Sound(Taken(mem, a), trees - {a}, ext - multiset{a} + KidRefs(mem.nodes[a]))
    ensures Owned(mem.nodes[a], Taken(mem, a), trees - {a})
    ensures trees[a] == Erase(mem.nodes[a], trees - {a})
  {
    hide KidRefs, HeapRefs, Erase, CountsOk, NodeOk;
    var mem', trees' := Taken(mem, a), trees - {a};
    SoleOwner(mem, trees, ext, a);
    TakeCounts(mem, ext, a);
    forall x | x in mem.nodes
      ensures NodeOk(mem.nodes[x], trees[x], mem'.nodes, trees')
    {
      KidsElsewhere(mem.nodes[x], trees[x], mem.nodes, trees);
      NodeOkFrame(mem.nodes[x], trees[x], mem.nodes, trees, mem'.nodes, trees');
    }
    OkOwned(mem.nodes[a], trees[a], mem', trees');
  }

  ghost function Recounted<V>(mem: Memory<V>, a: Addr, count: nat): Memory<V> {
    mem.(counts := mem.counts[a := count])
  }

  lemma CloneSound<V>(mem: Memory<V>, trees: map<Addr, N.Node<V>>, ext: multiset<Addr>, a: Addr)
    requires Sound(mem, trees, ext) && a in mem.counts
    ensures Sound(Recounted(mem, a, mem.counts[a] + 1), trees, ext + multiset{a})
  {
    hide HeapRefs, NodeOk;
    var mem' := Recounted(mem, a, mem.counts[a] + 1);
    forall x: Addr
      ensures (ext + multiset{a} + HeapRefs(mem'.nodes))[x] == if x in mem'.counts then mem'.counts[x] else 0
    {
      assert (ext + HeapRefs(mem.nodes))[x] == if x in mem.counts then mem.counts[x] else 0;
    }
  }

  lemma DropSound<V>(mem: Memory<V>, trees: map<Addr, N.Node<V>>, ext: multiset<Addr>, a: Addr)
    requires Sound(mem, trees, ext) && a in ext && a in mem.counts && mem.counts[a] > 1
    ensures Sound(Recounted(mem, a, mem.counts[a] - 1), trees, ext - multiset{a})
  {
    hide HeapRefs, NodeOk;
    var mem' := Recounted(mem, a, mem.counts[a] - 1);
    forall x: Addr
      ensures (ext - multiset{a} + HeapRefs(mem'.nodes))[x] == if x in mem'.counts then mem'.counts[x] else 0
    {
      assert (ext + HeapRefs(mem.nodes))[x] == if x in mem.counts then mem.counts[x] else 0;
    }
  }

  // ----- Owned nodes -----

  lemma EraseShape<V>(n: VNode<V>, trees: map<Addr, N.Node<V>>)
    requires forall k :: k in VKids(n) ==> VKids(n)[k] in trees
    ensures var t := Erase(n, trees);
            && t.prefix == n.prefix && t.value == n.value
            && (t.content.Empty? <==> n.content.VEmpty?)
            && (t.content.Inner? ==> t.content.kind == n.content.kind)
            && N.Kids(t).Keys == VKids(n).Keys
            && |N.Kids(t)| == |VKids(n)|
            && forall k :: k in VKids(n) ==> N.Kids(t)[k] == trees[VKids(n)[k]]
  {
    var kids := N.Kids(Erase(n, trees));
    assert kids.Keys == VKids(n).Keys;
    assert |kids| == |kids.Keys| && |VKids(n)| == |VKids(n).Keys|;
  }

  lemma EraseAddChild<V>(n: VNode<V>, k: Byte, child: Addr, trees: map<Addr, N.Node<V>>)
    requires forall e :: e in VKids(n) ==> VKids(n)[e] in trees
    requires k !in VKids(n) && child in trees
    ensures k !in N.Kids(Erase(n, trees))
    ensures Erase(VAddChild(n, k, child), trees) == N.AddChild(Erase(n, trees), k, trees[child])
    ensures KidRefs(VAddChild(n, k, child)) == KidRefs(n) + multiset{child}
  {
    hide Erase, Refs;
    EraseShape(n, trees);
    EraseShape(VAddChild(n, k, child), trees);
    RefsAdd<Byte>(VKids(n), k, child);
    assert N.Kids(Erase(VAddChild(n, k, child), trees)) == N.Kids(Erase(n, trees))[k := trees[child]];
  }

  lemma EraseDeleteChild<V>(n: VNode<V>, k: Byte, trees: map<Addr, N.Node<V>>)
    requires forall e :: e in VKids(n) ==> VKids(n)[e] in trees
    requires k in VKids(n)
    ensures Erase(n, trees).content.Inner?
    ensures Erase(VDeleteChild(n, k), trees) == N.WithoutChild(Erase(n, trees), k)
    ensures KidRefs(n) == KidRefs(VDeleteChild(n, k)) + multiset{VKids(n)[k]}
    ensures k in N.Kids(Erase(n, trees)) && N.Kids(Erase(n, trees))[k] == trees[VKids(n)[k]]
  {
    hide Erase, Refs;
    EraseShape(n, trees);
    EraseShape(VDeleteChild(n, k), trees);
    RefsRemove<Byte>(VKids(n), k);
    assert N.Kids(Erase(VDeleteChild(n, k), trees)) == N.Kids(Erase(n, trees)) - {k};
  }

  lemma OwnedAlive<V>(mem: Memory<V>, trees: map<Addr, N.Node<V>>, ext: multiset<Addr>, n: VNode<V>)
    requires Sound(mem, trees, ext) && KidRefs(n) <= ext
    ensures forall k :: k in VKids(n) ==> VKids(n)[k] in trees && VKids(n)[k] in mem.nodes
  {
    forall k | k in VKids(n)
      ensures VKids(n)[k] in trees && VKids(n)[k] in mem.nodes
    {
      KidInRefs(n, k);
      ExtAlive(mem, trees, ext, VKids(n)[k]);
    }
  }
}
