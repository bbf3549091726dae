/** Tree handles: the owners of the roots, and what the handles denote. */
module Handles {
  import opened Wrappers
  import opened Bytes
  import N = Node
  import opened Entries
  import opened ArcHeap

  type Id = nat

  datatype Handle = Handle(root: Option<Addr>, version: nat)

  function RootsOf(handles: map<Id, Handle>): map<Id, Addr> {
    map h | h in handles && handles[h].root.Some? :: handles[h].root.value
  }

  ghost function HandleRefs(handles: map<Id, Handle>): multiset<Addr> {
    Refs<Id>(RootsOf(handles))
  }

  ghost function RootRef(root: Option<Addr>): multiset<Addr> {
    if root.Some? then multiset{root.value} else multiset{}
  }

  /** The references of all handles are those of one handle and those of the others. */
  lemma HandleSplit(handles: map<Id, Handle>, h: Id)
    requires h in handles
    ensures HandleRefs(handles) == HandleRefs(handles - {h}) + RootRef(handles[h].root)
  {
    hide Refs;
    var roots := RootsOf(handles);
    if h in roots {
      RefsRemove<Id>(roots, h);
      assert RootsOf(handles - {h}) == roots - {h};
    } else {
      assert RootsOf(handles - {h}) == roots;
    }
  }

  lemma HandlePut(handles: map<Id, Handle>, h: Id, handle: Handle)
    ensures HandleRefs(handles[h := handle]) == HandleRefs(handles - {h}) + RootRef(handle.root)
  {
    HandleSplit(handles[h := handle], h);
    assert handles[h := handle] - {h} == handles - {h};
  }

  lemma HandleRefIn(handles: map<Id, Handle>, h: Id)
    requires h in handles && handles[h].root.Some?
    ensures handles[h].root.value in HandleRefs(handles)
  {
    HandleSplit(handles, h);
  }

  /** The handle's root is in memory and not newer than the handle. */
  ghost predicate HandleOk<V>(handle: Handle, mem: Memory<V>, trees: map<Addr, N.Node<V>>) {
    handle.root.Some? ==>
      && handle.root.value in mem.nodes && handle.root.value in mem.counts && handle.root.value in trees
      && mem.nodes[handle.root.value].version <= handle.version
      && N.WellFormed(trees[handle.root.value])
  }

  ghost predicate ForestOk<V>(mem: Memory<V>, trees: map<Addr, N.Node<V>>, handles: map<Id, Handle>) {
    && Sound(mem, trees, HandleRefs(handles))
    && forall h :: h in handles ==> HandleOk(handles[h], mem, trees)
  }

  /** The map a handle denotes. */
  ghost function Denoted<V>(handle: Handle, trees: map<Addr, N.Node<V>>): map<Key, V> {
    if handle.root.Some? && handle.root.value in trees then View(trees[handle.root.value]) else map[]
  }

  /** What the whole collection of handles stands for. */
  ghost function Model<V>(handles: map<Id, Handle>, trees: map<Addr, N.Node<V>>): map<Id, map<Key, V>> {
    map h | h in handles :: Denoted(handles[h], trees)
  }

  /** Every outside reference other than the one in hand keeps its node and its tree. */
  ghost predicate OthersKept<V>(ext: multiset<Addr>, mem: Memory<V>, trees: map<Addr, N.Node<V>>,
                                mem': Memory<V>, trees': map<Addr, N.Node<V>>)
  {
    forall a :: a in ext && a in mem.nodes && a in trees ==>
      && a in mem'.nodes && a in mem'.counts && a in trees'
      && mem'.nodes[a] == mem.nodes[a] && trees'[a] == trees[a]
  }

  /**
   An operation on handle `h` that keeps the trees of all other references leaves a
   proper state, and changes the meaning of no other handle.
   */
  lemma HandleStep<V>(mem: Memory<V>, trees: map<Addr, N.Node<V>>, handles: map<Id, Handle>, h: Id,
                      mem': Memory<V>, trees': map<Addr, N.Node<V>>, handle: Handle)
    requires ForestOk(mem, trees, handles)
    requires OthersKept(HandleRefs(handles - {h}), mem, trees, mem', trees')
    requires Sound(mem', trees', HandleRefs(handles - {h}) + RootRef(handle.root))
    requires HandleOk(handle, mem', trees')
    ensures ForestOk(mem', trees', handles[h := handle])
    ensures Model(handles[h := handle], trees') == Model(handles, trees)[h := Denoted(handle, trees')]
  {
    hide Sound, HandleRefs, N.WellFormed, View;
    HandlePut(handles, h, handle);
    forall g | g in handles && g != h
      ensures HandleOk(handles[g], mem', trees')
      ensures Denoted(handles[g], trees') == Denoted(handles[g], trees)
    {
      if handles[g].root.Some? {
        assert g in handles - {h};
        HandleRefIn(handles - {h}, g);
      }
    }
  }

  lemma RootFacts<V>(mem: Memory<V>, trees: map<Addr, N.Node<V>>, handles: map<Id, Handle>, h: Id)
    requires ForestOk(mem, trees, handles) && h in handles
    ensures HandleOk(handles[h], mem, trees)
    ensures Sound(mem, trees, HandleRefs(handles - {h}) + RootRef(handles[h].root))
    ensures handles[h].root.Some? ==> handles[h].root.value in HandleRefs(handles - {h}) + RootRef(handles[h].root)
  {
    HandleSplit(handles, h);
  }

  lemma NewHandle<V>(mem: Memory<V>, trees: map<Addr, N.Node<V>>, handles: map<Id, Handle>, h: Id,
                     mem': Memory<V>, handle: Handle)
    requires ForestOk(mem, trees, handles) && h !in handles
    requires Sound(mem', trees, HandleRefs(handles) + RootRef(handle.root))
    requires mem'.nodes == mem.nodes && mem'.counts.Keys == mem.counts.Keys && HandleOk(handle, mem', trees)
    ensures ForestOk(mem', trees, handles[h := handle])
    ensures Model(handles[h := handle], trees) == Model(handles, trees)[h := Denoted(handle, trees)]
  {
    hide Sound, HandleRefs, N.WellFormed, View;
    HandlePut(handles, h, handle);
    assert handles - {h} == handles;
  }

  lemma DropHandle<V>(mem: Memory<V>, trees: map<Addr, N.Node<V>>, handles: map<Id, Handle>, h: Id,
                      mem': Memory<V>, trees': map<Addr, N.Node<V>>)
    requires ForestOk(mem, trees, handles) && h in handles
    requires OthersKept(HandleRefs(handles - {h}), mem, trees, mem', trees')
    requires Sound(mem', trees', HandleRefs(handles - {h}))
    ensures ForestOk(mem', trees', handles - {h})
    ensures Model(handles - {h}, trees') == Model(handles, trees) - {h}
  {
    hide Sound, HandleRefs, N.WellFormed, View;
    forall g | g in handles && g != h
      ensures HandleOk(handles[g], mem', trees')
      ensures Denoted(handles[g], trees') == Denoted(handles[g], trees)
    {
      if handles[g].root.Some? {
        assert g in handles - {h};
        HandleRefIn(handles - {h}, g);
      }
    }
  }

  lemma ModelKeys<V>(handles: map<Id, Handle>, trees: map<Addr, N.Node<V>>)
    ensures Model(handles, trees).Keys == handles.Keys
  {
  }

  // ----- Versions -----

  /** The node that a path of edge bytes leads to. */
  ghost function Follow<V>(mem: Memory<V>, a: Addr, path: seq<Byte>): Option<Addr>
    decreases |path|
  {
    if a !in mem.nodes then None
    else if path == [] then Some(a)
    else if path[0] in VKids(mem.nodes[a]) then Follow(mem, VKids(mem.nodes[a])[path[0]], path[1..])
    else None
  }

  lemma {:induction false} OlderBelow<V>(mem: Memory<V>, trees: map<Addr, N.Node<V>>, ext: multiset<Addr>, a: Addr,
                                         path: seq<Byte>)
    requires Sound(mem, trees, ext) && a in mem.nodes && Follow(mem, a, path).Some?
    ensures Follow(mem, a, path).value in mem.nodes
    ensures mem.nodes[Follow(mem, a, path).value].version <= mem.nodes[a].version
    decreases |path|
  {
    if path != [] {
      assert NodeOk(mem.nodes[a], trees[a], mem.nodes, trees);
      OlderBelow(mem, trees, ext, VKids(mem.nodes[a])[path[0]], path[1..]);
    }
  }

  /**
   No node reachable from a handle is newer than the handle. The version of its next
   change is therefore newer than everything it can reach.
   */
  lemma VersionsBound<V>(mem: Memory<V>, trees: map<Addr, N.Node<V>>, handles: map<Id, Handle>, h: Id, path: seq<Byte>)
    requires ForestOk(mem, trees, handles) && h in handles && handles[h].root.Some?
    requires Follow(mem, handles[h].root.value, path).Some?
    ensures Follow(mem, handles[h].root.value, path).value in mem.nodes
    ensures mem.nodes[Follow(mem, handles[h].root.value, path).value].version < handles[h].version + 1
  {
    OlderBelow(mem, trees, HandleRefs(handles), handles[h].root.value, path);
  }
}
