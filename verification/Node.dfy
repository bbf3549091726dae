/**
 Nodes of the adaptive radix tree.

 A node is owned by exactly one parent, so it is a value here: what the program
 does through `&mut node` is a function from the old node to the new one. The
 four child layouts are represented by their kind and the map from edge byte to
 child that each of them implements.
 */
module Node {
  import opened Wrappers
  import opened Bytes

  datatype Kind = Node4 | Node16 | Node48 | Node256

  datatype Content<+V> =
    | Empty
    | Inner(kind: Kind, children: map<Byte, Node<V>>)

  datatype Node<+V> = Node(prefix: Key, value: Option<V>, content: Content<V>)

  function Kids<V>(n: Node<V>): map<Byte, Node<V>> {
    match n.content
    case Empty => map[]
    case Inner(_, children) => children
  }

  function Capacity(kind: Kind): nat {
    match kind
    case Node4 => 4
    case Node16 => 16
    case Node48 => 48
    case Node256 => 256
  }

  function NewLeaf<V>(prefix: Key, value: V): Node<V> {
    Node(prefix, Some(value), Empty)
  }

  function NewInner<V>(prefix: Key): Node<V> {
    Node(prefix, None, Inner(Node4, map[]))
  }

  function WithChild<V>(n: Node<V>, k: Byte, child: Node<V>): Node<V>
    requires n.content.Inner?
  {
    n.(content := n.content.(children := n.content.children[k := child]))
  }

  function WithoutChild<V>(n: Node<V>, k: Byte): Node<V>
    requires n.content.Inner?
  {
    n.(content := n.content.(children := n.content.children - {k}))
  }

  /** The next larger layout; a Node256 is never grown. */
  function Grow(kind: Kind): Kind {
    match kind
    case Node4 => Node16
    case Node16 => Node48
    case Node48 => Node256
    case Node256 => Node256
  }

  function GrowIfFull(kind: Kind, count: nat): Kind {
    if count >= Capacity(kind) then Grow(kind) else kind
  }

  /** Adds a child under a new edge, promoting an empty node and growing a full one. */
  function AddChild<V>(n: Node<V>, k: Byte, child: Node<V>): Node<V>
    requires k !in Kids(n)
  {
    var kind := if n.content.Empty? then Node4 else GrowIfFull(n.content.kind, |Kids(n)|);
    n.(content := Inner(kind, Kids(n)[k := child]))
  }

  /** Smallest edge at or after `from`. */
  function NextEdge<V>(children: map<Byte, Node<V>>, from: nat): (r: Option<Byte>)
    requires from <= 256
    ensures r.Some? ==> from <= r.value && r.value in children
    ensures forall e :: e in children && from <= e ==> r.Some? && r.value <= e
    decreases 256 - from
  {
    if from == 256 then None
    else if from in children then Some(from)
    else NextEdge(children, from + 1)
  }

  /** The edge of an only child. */
  function OnlyEdge<V>(children: map<Byte, Node<V>>): (k: Byte)
    requires |children| == 1
    ensures children.Keys == {k}
  {
    assert |children.Keys| == 1;
    assert exists e :: e in children;
    assert |children.Keys - {NextEdge(children, 0).value}| == 0;
    NextEdge(children, 0).value
  }

  /** A value-less node with one child becomes that child, its prefix extended. */
  function Collapse<V>(n: Node<V>): Node<V>
    requires |Kids(n)| == 1
  {
    if n.value.Some? then n
    else
      var child := Kids(n)[OnlyEdge(Kids(n))];
      Node(n.prefix + child.prefix, child.value, child.content)
  }

  /** Layout after deleting a child; `count` children are left. */
  function Shrink(kind: Kind, count: nat): Kind {
    match kind
    case Node4 => Node4
    case Node16 => if count < 5 then Node4 else Node16
    case Node48 => if count < 17 then Node16 else Node48
    case Node256 => if count < 49 then Node48 else Node256
  }

  /** Deletes the child under `k`, shrinking the layout; a Node4 may collapse. */
  function DeleteChild<V>(n: Node<V>, k: Byte): Node<V>
    requires n.content.Inner?
  {
    var m := WithoutChild(n, k);
    var count := |Kids(m)|;
    if n.content.kind.Node4? then
      if count == 1 then Collapse(m) else m
    else
      m.(content := m.content.(kind := Shrink(n.content.kind, count)))
  }

  /** The value stored under `key`, relative to the position of `n`. */
  ghost function Lookup<V>(n: Node<V>, key: Key): Option<V>
    decreases n
  {
    if !(n.prefix <= key) then None
    else if |n.prefix| == |key| then n.value
    else
      var k := key[|n.prefix|];
      if k in Kids(n) then Lookup(Kids(n)[k], key[|n.prefix|..]) else None
  }

  /** A child starts with the byte of the edge that leads to it. */
  ghost predicate EdgeOk<V>(k: Byte, child: Node<V>) {
    child.prefix != [] && child.prefix[0] == k
  }

  /** What every operation keeps. */
  ghost predicate WellFormed<V>(n: Node<V>)
    decreases n
  {
    match n.content
    case Empty => n.value.Some?
    case Inner(kind, children) =>
      && |children| <= Capacity(kind)
      && (n.value.Some? || children != map[])
      && forall k :: k in children ==> EdgeOk(k, children[k]) && WellFormed(children[k])
  }

  lemma KidOk<V>(n: Node<V>, k: Byte)
    requires WellFormed(n) && k in Kids(n)
    ensures EdgeOk(k, Kids(n)[k]) && WellFormed(Kids(n)[k])
  {
  }

  function KindFor(count: nat): Kind {
    if count <= 4 then Node4
    else if count <= 16 then Node16
    else if count <= 48 then Node48
    else Node256
  }

  /** No superfluous node, and every layout is the smallest that fits. */
  ghost predicate Canonical<V>(n: Node<V>)
    decreases n
  {
    match n.content
    case Empty => n.value.Some?
    case Inner(kind, children) =>
      && kind == KindFor(|children|)
      && (if n.value.Some? then |children| >= 1 else |children| >= 2)
      && forall k :: k in children ==> EdgeOk(k, children[k]) && Canonical(children[k])
  }

  lemma {:induction false} ByteSetBound(s: set<Byte>, n: nat)
    requires n <= 256
    requires forall b :: b in s ==> b < n
    ensures |s| <= n
  {
    if n == 0 {
      assert s == {};
    } else {
      var t := s - {n - 1};
      ByteSetBound(t, n - 1);
      assert s <= t + {n - 1};
      SubsetCard(s, t + {n - 1});
    }
  }

  lemma {:induction false} SubsetCard<T>(s: set<T>, t: set<T>)
    requires s <= t
    ensures |s| <= |t|
    decreases s
  {
    if s != {} {
      var x :| x in s;
      SubsetCard(s - {x}, t - {x});
    }
  }

  /** A free edge leaves at most 255 children, so a Node256 is never full. */
  lemma FreeEdgeCount<V>(children: map<Byte, Node<V>>, k: Byte, child: Node<V>)
    requires k !in children
    ensures |children| < 256
    ensures |children[k := child]| == |children| + 1
  {
    var keys := children.Keys + {k};
    ByteSetBound(keys, 256);
    assert |keys| == |children.Keys| + 1;
    assert children[k := child].Keys == keys;
  }

  lemma RemoveEdgeCount<V>(children: map<Byte, Node<V>>, k: Byte)
    requires k in children
    ensures |children - {k}| == |children| - 1
  {
    assert (children - {k}).Keys == children.Keys - {k};
  }
}
