/**
 How much a change of the copy-on-write tree copies: a bounded number of new nodes
 along the path of the key, with every subtree that hangs off the path still at its
 old address.
 */
module PathCopy {
  import opened Wrappers
  import opened Bytes
  import N = Node
  import opened ArcHeap
  import H = Handles

  /** The children below `res`; where nothing is left there are none. */
  ghost function KidsAt<V>(mem: Memory<V>, res: Option<Addr>): map<Byte, Addr> {
    if res.Some? && res.value in mem.nodes then VKids(mem.nodes[res.value]) else map[]
  }

  ghost function KidUnder(kids: map<Byte, Addr>, k: Byte): Option<Addr> {
    if k in kids then Some(kids[k]) else None
  }

  /**
   What stands at `res` (nothing, if None) took the place of `a`: apart from the edge
   the key takes, its children are the children of `a`, at the same addresses; below
   that edge the same holds again. When the prefix of `a` was split, they are the
   children of the lower part.
   */
  ghost predicate Rebuilt<V>(mem: Memory<V>, trees: map<Addr, N.Node<V>>, a: Addr, key: Key,
                             mem': Memory<V>, res: Option<Addr>)
    requires a in trees
    decreases trees[a]
  {
    && a in mem.nodes && (res.Some? ==> res.value in mem'.nodes)
    && var n, kids := mem.nodes[a], KidsAt(mem', res);
       var lcp := CommonPrefix(n.prefix, key);
       if lcp < |n.prefix| then
         && n.prefix[lcp] in kids && kids[n.prefix[lcp]] in mem'.nodes
         && VKids(mem'.nodes[kids[n.prefix[lcp]]]) == VKids(n)
       else if lcp == |key| then
         kids == VKids(n)
       else
         var k := key[lcp];
         && kids - {k} == VKids(n) - {k}
         && (k in VKids(n) ==>
               var kid := VKids(n)[k];
               && kid in trees && trees[kid] < trees[a]
               && Rebuilt(mem, trees, kid, key[lcp..], mem', KidUnder(kids, k)))
  }

  /** Nodes in memory that were created since `next`. */
  ghost function NewNodes<V>(next: Addr, mem: Memory<V>): set<Addr> {
    set x | x in mem.nodes && x >= next
  }

  /** Below an edge that the key takes, one copy less is needed. */
  function CopyBound(prefix: Key, key: Key): nat {
    if prefix != [] && key != [] && prefix[0] == key[0] then |key| + 1 else |key| + 2
  }

  ghost predicate PathCopied<V>(mem: Memory<V>, trees: map<Addr, N.Node<V>>, a: Addr, key: Key,
                                mem': Memory<V>, res: Option<Addr>)
  {
    && a in trees && a in mem.nodes && Rebuilt(mem, trees, a, key, mem', res)
    && |NewNodes(mem.next, mem')| <= CopyBound(mem.nodes[a].prefix, key)
  }

  /** What an operation on `key` copies when it turns the tree at `root` into the tree at `root'`. */
  ghost predicate RootCopied<V>(mem: Memory<V>, trees: map<Addr, N.Node<V>>, root: Option<Addr>, key: Key,
                                mem': Memory<V>, root': Option<Addr>)
  {
    && |NewNodes(mem.next, mem')| <= |key| + 2
    && (root.Some? ==> PathCopied(mem, trees, root.value, key, mem', root'))
  }

  lemma NewNodesBound<V>(mem: Memory<V>, mem': Memory<V>, created: set<Addr>)
    requires forall a :: a in mem.nodes ==> a < mem.next
    requires forall x :: x in mem'.nodes ==> x in mem.nodes || x in created
    ensures |NewNodes(mem.next, mem')| <= |created|
  {
    assert NewNodes(mem.next, mem') <= created;
    N.SubsetCard(NewNodes(mem.next, mem'), created);
  }

  /** The nodes that splitting the prefix of `a` creates: two, or three when a leaf comes with them. */
  ghost predicate SplitInto<V>(mem: Memory<V>, a: Addr, key: Key, mem': Memory<V>, res: Addr, low: Addr,
                               created: set<Addr>)
  {
    && a in mem.nodes && res in mem'.nodes && low in mem'.nodes
    && (forall x :: x in mem'.nodes ==> x in mem.nodes || x in created)
    && var n := mem.nodes[a];
       var lcp := CommonPrefix(n.prefix, key);
       && lcp < |n.prefix| && |created| <= (if lcp == |key| then 2 else 3)
       && VKids(mem'.nodes[low]) == VKids(n)
       && n.prefix[lcp] in VKids(mem'.nodes[res]) && VKids(mem'.nodes[res])[n.prefix[lcp]] == low
  }

  lemma SplitCopied<V>(mem: Memory<V>, trees: map<Addr, N.Node<V>>, a: Addr, key: Key,
                       mem': Memory<V>, res: Addr, low: Addr, created: set<Addr>)
    requires a in trees && SplitInto(mem, a, key, mem', res, low, created)
    requires forall x :: x in mem.nodes ==> x < mem.next
    ensures PathCopied(mem, trees, a, key, mem', Some(res))
  {
    NewNodesBound(mem, mem', created);
  }

  /** Changing the node's slot, or adding a leaf to it. */
  lemma HereCopied<V>(mem: Memory<V>, trees: map<Addr, N.Node<V>>, a: Addr, key: Key,
                      mem': Memory<V>, res: Option<Addr>, created: set<Addr>)
    requires a in trees && a in mem.nodes && mem.nodes[a].prefix <= key && (res.Some? ==> res.value in mem'.nodes)
    requires forall x :: x in mem.nodes ==> x < mem.next
    requires forall x :: x in mem'.nodes ==> x in mem.nodes || x in created
    requires var n, kids := mem.nodes[a], KidsAt(mem', res);
             if |n.prefix| == |key| then kids == VKids(n) && |created| <= 1
             else
               var k := key[|n.prefix|];
               |created| <= 2 && k !in VKids(n) && kids - {k} == VKids(n) - {k}
    ensures PathCopied(mem, trees, a, key, mem', res)
  {
    NewNodesBound(mem, mem', created);
    CommonPrefixUnique(mem.nodes[a].prefix, key, |mem.nodes[a].prefix|);
  }

  /** Children of nodes in memory are in memory. */
  ghost predicate Closed<V>(mem: Memory<V>) {
    forall x, k :: x in mem.nodes && k in VKids(mem.nodes[x]) ==> VKids(mem.nodes[x])[k] in mem.nodes
  }

  /** A rebuilt path is still there as long as its upper end is, whatever else comes and goes. */
  lemma {:induction false} RebuiltFrame<V>(
      mem: Memory<V>, trees: map<Addr, N.Node<V>>, a: Addr, key: Key, mem': Memory<V>, res: Option<Addr>,
      earlier: Memory<V>, earlierTrees: map<Addr, N.Node<V>>, later: Memory<V>)
    requires a in trees && a in mem.nodes && Rebuilt(mem, trees, a, key, mem', res)
    requires forall x :: x in mem.nodes && x in trees ==>
               && x in earlier.nodes && x in earlierTrees
               && earlier.nodes[x] == mem.nodes[x] && earlierTrees[x] == trees[x]
    requires forall x :: x in mem'.nodes && x in later.nodes ==> VKids(later.nodes[x]) == VKids(mem'.nodes[x])
    requires Closed(later) && (res.Some? ==> res.value in later.nodes)
    ensures a in earlierTrees && Rebuilt(earlier, earlierTrees, a, key, later, res)
    decreases trees[a]
  {
    var n, kids := mem.nodes[a], KidsAt(mem', res);
    var lcp := CommonPrefix(n.prefix, key);
    assert KidsAt(later, res) == kids;
    if lcp == |n.prefix| < |key| && key[lcp] in VKids(n) {
      RebuiltFrame(mem, trees, VKids(n)[key[lcp]], key[lcp..], mem', KidUnder(kids, key[lcp]),
                   earlier, earlierTrees, later);
    }
  }

  /** A path of edges that turns off the path of the key with its last edge. */
  ghost predicate TurnsOff<V>(mem: Memory<V>, a: Addr, key: Key, path: seq<Byte>)
    decreases |path|
  {
    && path != [] && a in mem.nodes && path[0] in VKids(mem.nodes[a])
    && var prefix := mem.nodes[a].prefix;
       var along := prefix < key && key[|prefix|] == path[0];
       if |path| == 1 then !along
       else along && TurnsOff(mem, VKids(mem.nodes[a])[path[0]], key[|prefix|..], path[1..])
  }

  /** The path with one edge more before its last one. */
  function Detour(path: seq<Byte>, e: Byte): seq<Byte>
    requires path != []
  {
    path[..|path| - 1] + [e, path[|path| - 1]]
  }

  lemma DetourDown(path: seq<Byte>, e: Byte)
    requires |path| > 1
    ensures Detour(path, e)[0] == path[0] && Detour(path, e)[1..] == Detour(path[1..], e)
  {
  }

  /** `x` is reached along the path, or with one edge more where a prefix was split. */
  ghost predicate Reaches<V>(mem: Memory<V>, a: Addr, path: seq<Byte>, x: Option<Addr>)
    requires path != []
  {
    H.Follow(mem, a, path) == x || exists e :: H.Follow(mem, a, Detour(path, e)) == x
  }

  /** Every subtree that hangs off the path of the key is still reached, at its old address. */
  lemma {:induction false} SharedOffPath<V>(mem: Memory<V>, trees: map<Addr, N.Node<V>>, a: Addr, key: Key,
                                            mem': Memory<V>, res: Option<Addr>, path: seq<Byte>)
    requires a in trees && Rebuilt(mem, trees, a, key, mem', res) && TurnsOff(mem, a, key, path)
    requires Closed(mem) && Closed(mem')
    ensures res.Some? && H.Follow(mem, a, path).Some?
    ensures Reaches(mem', res.value, path, H.Follow(mem, a, path))
    decreases |path|
  {
    var n, kids := mem.nodes[a], KidsAt(mem', res);
    var lcp := CommonPrefix(n.prefix, key);
    if n.prefix < key && key[|n.prefix|] == path[0] {
      CommonPrefixUnique(n.prefix, key, |n.prefix|);
      hide Reaches, Rebuilt;
      RebuiltAlong(mem, trees, a, key, mem', res);
      SharedOffPath(mem, trees, VKids(n)[path[0]], key[lcp..], mem', KidUnder(kids, path[0]), path[1..]);
      ReachesUp(mem, a, mem', res.value, path);
    } else {
      hide H.Follow, Reaches;
      TurnHere(mem, a, path);
      if lcp < |n.prefix| {
        TurnBelowSplit(mem', res.value, n.prefix[lcp], path, VKids(n)[path[0]]);
      } else {
        if lcp < |key| {
          assert path[0] in kids - {key[lcp]} && kids[path[0]] == (kids - {key[lcp]})[path[0]];
        }
        ReachesHere(mem', res.value, path, VKids(n)[path[0]]);
      }
    }
  }

  lemma RebuiltAlong<V>(mem: Memory<V>, trees: map<Addr, N.Node<V>>, a: Addr, key: Key, mem': Memory<V>,
                        res: Option<Addr>)
    requires a in trees && Rebuilt(mem, trees, a, key, mem', res)
    requires mem.nodes[a].prefix < key && key[|mem.nodes[a].prefix|] in VKids(mem.nodes[a])
    ensures var k := key[|mem.nodes[a].prefix|];
            var kid := VKids(mem.nodes[a])[k];
            && kid in trees && trees[kid] < trees[a] && (res.Some? ==> res.value in mem'.nodes)
            && Rebuilt(mem, trees, kid, key[|mem.nodes[a].prefix|..], mem', KidUnder(KidsAt(mem', res), k))
  {
    CommonPrefixUnique(mem.nodes[a].prefix, key, |mem.nodes[a].prefix|);
  }

  lemma TurnHere<V>(mem: Memory<V>, a: Addr, path: seq<Byte>)
    requires |path| == 1 && a in mem.nodes && path[0] in VKids(mem.nodes[a])
    requires VKids(mem.nodes[a])[path[0]] in mem.nodes
    ensures H.Follow(mem, a, path) == Some(VKids(mem.nodes[a])[path[0]])
  {
    assert path[1..] == [];
  }

  lemma ReachesHere<V>(mem: Memory<V>, a: Addr, path: seq<Byte>, x: Addr)
    requires |path| == 1 && a in mem.nodes && path[0] in VKids(mem.nodes[a]) && VKids(mem.nodes[a])[path[0]] == x
    requires x in mem.nodes
    ensures Reaches(mem, a, path, Some(x))
  {
    TurnHere(mem, a, path);
  }

  lemma TurnBelowSplit<V>(mem: Memory<V>, a: Addr, e: Byte, path: seq<Byte>, x: Addr)
    requires |path| == 1 && a in mem.nodes && e in VKids(mem.nodes[a]) && VKids(mem.nodes[a])[e] in mem.nodes
    requires var low := VKids(mem.nodes[a])[e];
             path[0] in VKids(mem.nodes[low]) && VKids(mem.nodes[low])[path[0]] == x && x in mem.nodes
    ensures Reaches(mem, a, path, Some(x))
  {
    TurnHere(mem, VKids(mem.nodes[a])[e], path);
    var longer := Detour(path, e);
    assert longer[0] == e && longer[1..] == path;
    assert H.Follow(mem, a, longer) == Some(x);
  }

  lemma ReachesUp<V>(mem: Memory<V>, a: Addr, mem': Memory<V>, res: Addr, path: seq<Byte>)
    requires |path| > 1 && a in mem.nodes && path[0] in VKids(mem.nodes[a])
    requires res in mem'.nodes && path[0] in VKids(mem'.nodes[res])
    requires Reaches(mem', VKids(mem'.nodes[res])[path[0]], path[1..],
                     H.Follow(mem, VKids(mem.nodes[a])[path[0]], path[1..]))
    ensures Reaches(mem', res, path, H.Follow(mem, a, path))
  {
    var child, x := VKids(mem'.nodes[res])[path[0]], H.Follow(mem, VKids(mem.nodes[a])[path[0]], path[1..]);
    if H.Follow(mem', child, path[1..]) != x {
      var e :| H.Follow(mem', child, Detour(path[1..], e)) == x;
      DetourDown(path, e);
      assert H.Follow(mem', res, Detour(path, e)) == x;
    }
  }

  /** Freeing other nodes, or writing to values in place, takes nothing back of what was shared. */
  lemma CopiedLater<V>(mem: Memory<V>, trees: map<Addr, N.Node<V>>, a: Addr, key: Key,
                       mem': Memory<V>, res: Option<Addr>, later: Memory<V>)
    requires PathCopied(mem, trees, a, key, mem', res)
    requires forall x :: x in later.nodes ==> x in mem'.nodes && VKids(later.nodes[x]) == VKids(mem'.nodes[x])
    requires Closed(later) && (res.Some? ==> res.value in later.nodes)
    ensures PathCopied(mem, trees, a, key, later, res)
  {
    hide Rebuilt, CopyBound;
    RebuiltFrame(mem, trees, a, key, mem', res, mem, trees, later);
    assert NewNodes(mem.next, later) <= NewNodes(mem.next, mem');
    N.SubsetCard(NewNodes(mem.next, later), NewNodes(mem.next, mem'));
  }

  /**
   One level up: the node at `a` is copied around its child `kid`, which the operation
   has replaced by `child`. The copies below were created from address `next` on.
   */
  lemma DeeperCopied<V>(mem: Memory<V>, trees: map<Addr, N.Node<V>>, a: Addr, key: Key, kid: Addr, next: Addr,
                        mem2: Memory<V>, child: Option<Addr>, mem': Memory<V>, res: Option<Addr>)
    requires a in trees && a in mem.nodes && mem.nodes[a].prefix < key
    requires key[|mem.nodes[a].prefix|] in VKids(mem.nodes[a]) && kid == VKids(mem.nodes[a])[key[|mem.nodes[a].prefix|]]
    requires mem.next <= next && forall x :: x in mem.nodes ==> x < mem.next
    requires forall x :: x in mem2.nodes ==> x in mem.nodes || x >= next
    requires forall x :: x in mem'.nodes ==> x in mem2.nodes || res == Some(x)
    requires res.Some? ==> res.value in mem'.nodes
    requires var k, kids := key[|mem.nodes[a].prefix|], KidsAt(mem', res);
             kids - {k} == VKids(mem.nodes[a]) - {k} && child == KidUnder(kids, k)
    requires kid in trees && kid in mem.nodes && trees[kid] < trees[a]
    requires N.EdgeOk(key[|mem.nodes[a].prefix|], trees[kid]) && trees[kid].prefix == mem.nodes[kid].prefix
    requires Rebuilt(mem, trees, kid, key[|mem.nodes[a].prefix|..], mem', child)
    requires |NewNodes(next, mem2)| <= CopyBound(mem.nodes[kid].prefix, key[|mem.nodes[a].prefix|..])
    ensures PathCopied(mem, trees, a, key, mem', res)
  {
    CommonPrefixUnique(mem.nodes[a].prefix, key, |mem.nodes[a].prefix|);
    var below, all := NewNodes(next, mem2), NewNodes(mem.next, mem');
    var here := if res.Some? then {res.value} else {};
    assert all <= below + here;
    N.SubsetCard(all, below + here);
  }
}
