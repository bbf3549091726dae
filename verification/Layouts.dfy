/**
 The conversions between child layouts, and the layout of a node as it grows and
 shrinks. The layout's kind and map are what the tree modules work with.
 */
module Layouts {
  import opened Wrappers
  import opened Bytes
  import opened ChildMap
  import N = Node
  import A = BitArray
  import opened D = DirectMapping
  import opened I = IndexedMapping
  import opened S = SortedKeyedMapping

  /** An entry moves from one map to another; together they stay the same. */
  lemma MoveOver<T>(from: map<Byte, T>, to: map<Byte, T>, k: Byte)
    requires k in from && from.Keys !! to.Keys
    ensures (from - {k}).Keys !! to[k := from[k]].Keys
    ensures (from - {k}) + to[k := from[k]] == from + to
  {
  }

  lemma NothingLeft<T>(from: map<Byte, T>, to: map<Byte, T>)
    requires from == map[]
    ensures from + to == to
  {
  }

  // ----- Conversions -----

  /** Both arrays are copied slot by slot. */
  method FromResized<T>(km: SortedKeyedMapping<T>, width: nat) returns (mapping: SortedKeyedMapping<T>)
    requires km.Valid() && km.numChildren <= width
    modifies km, km.children
    ensures mapping.Valid() && fresh(mapping) && fresh(mapping.keys) && fresh(mapping.children)
    ensures mapping.Contents() == old(km.Contents()) && mapping.numChildren == old(km.numChildren)
    ensures mapping.keys.Length == width
  {
    hide Assoc;
    mapping := new SortedKeyedMapping<T>(width);
    ghost var ks, cs := km.keys[..km.numChildren], km.children[..km.numChildren];
    assert mapping.keys[..0] == ks[..0] && mapping.children[..0] == cs[..0];
    for i := 0 to km.numChildren
      invariant km.numChildren == |ks| <= mapping.keys.Length == mapping.children.Length && |cs| == |ks|
      invariant mapping.keys[..i] == ks[..i] && mapping.children[..i] == cs[..i]
      invariant forall j :: i <= j < width ==> mapping.children[j].None?
      invariant forall j :: i <= j < km.numChildren ==> km.children[j] == cs[j] && km.keys[j] == ks[j]
    {
      mapping.keys[i] := km.keys[i];
      mapping.children[i] := km.children[i];
      km.children[i] := None;
    }
    mapping.numChildren := km.numChildren;
    km.numChildren := 0;
    assert mapping.keys[..mapping.numChildren] == ks && mapping.children[..mapping.numChildren] == cs;
  }

  /** The keys of the sorted array go into the table, their children into consecutive slots. */
  method FromSortedKeyed<T>(km: SortedKeyedMapping<T>, width: nat, words: nat, bits: nat)
    returns (mapping: IndexedMapping<T>)
    requires km.Valid() && km.numChildren <= width && bits > 0 && width <= words * bits
    modifies km, km.children
    ensures mapping.Valid() && fresh(mapping) && fresh(mapping.childPtrIndexes.Repr()) && fresh(mapping.children.Repr())
    ensures mapping.Contents() == old(km.Contents()) && mapping.numChildren == old(km.numChildren)
    ensures mapping.children.storage.Length == width
  {
    hide Assoc, A.BitArray.Valid, A.BitArray.Slots, SortedKeyedMapping.Contents, IndexedMapping.Valid;
    hide IndexedMapping.Contents;
    mapping := new IndexedMapping<T>(width, words, bits);
    FillFromSorted(km, mapping);
    km.numChildren := 0;
  }

  method FillFromSorted<T>(km: SortedKeyedMapping<T>, mapping: IndexedMapping<T>)
    requires km.Valid() && mapping.Valid() && mapping.numChildren == 0
    requires km.numChildren <= mapping.children.storage.Length
    requires {km, km.keys, km.children} !! {mapping} + mapping.childPtrIndexes.Repr() + mapping.children.Repr()
    modifies km.children, mapping, mapping.childPtrIndexes.Repr(), mapping.children.Repr()
    ensures mapping.Valid() && mapping.Contents() == old(km.Contents()) && mapping.numChildren == km.numChildren
  {
    hide Assoc, IndexedMapping.Valid, IndexedMapping.Contents, A.BitArray.Slots;
    ghost var ks, cs := km.keys[..km.numChildren], km.children[..km.numChildren];
    AssocNothing(ks, cs);
    EmptyIndexed(mapping);
    for i := 0 to km.numChildren
      invariant km.numChildren == |ks| == |cs|
      invariant mapping.Valid() && mapping.numChildren == i
      invariant mapping.Contents() == Assoc(ks[..i], cs[..i])
      invariant forall p :: p in mapping.children.Slots() ==> p < i
      invariant forall j :: i <= j < km.numChildren ==> km.children[j] == cs[j]
      invariant forall j :: 0 <= j < km.numChildren ==> km.keys[j] == ks[j]
    {
      AssocNext(ks, cs, i);
      var stolen := km.children[i].value;
      km.children[i] := None;
      mapping.AddChildSorted(km.keys[i], stolen);
    }
    AssocAll(ks, cs);
  }

  lemma EmptyIndexed<T>(mapping: IndexedMapping<T>)
    requires mapping.Valid() && mapping.numChildren == 0
    ensures mapping.Contents() == map[] && mapping.children.Slots() == map[]
  {
  }

  lemma AssocNothing<T>(ks: seq<Byte>, cs: seq<Option<T>>)
    requires |ks| == |cs| && Strict(ks) && AllSome(cs)
    ensures Assoc(ks[..0], cs[..0]) == map[]
  {
  }

  lemma AssocAll<T>(ks: seq<Byte>, cs: seq<Option<T>>)
    requires |ks| == |cs| && Strict(ks) && AllSome(cs)
    ensures Assoc(ks[..|ks|], cs[..|cs|]) == Assoc(ks, cs)
  {
    assert ks[..|ks|] == ks && cs[..|cs|] == cs;
  }

  lemma AssocNext<T>(ks: seq<Byte>, cs: seq<Option<T>>, i: nat)
    requires |ks| == |cs| && Strict(ks) && AllSome(cs) && i < |ks|
    ensures ks[i] !in Assoc(ks[..i], cs[..i])
    ensures Assoc(ks[..i + 1], cs[..i + 1]) == Assoc(ks[..i], cs[..i])[ks[i] := cs[i].value]
  {
    hide Assoc;
    AssocInsert(ks[..i], cs[..i], i, ks[i], cs[i].value);
    assert InsertAt(ks[..i], i, ks[i]) == ks[..i + 1];
    assert InsertAt(cs[..i], i, Some(cs[i].value)) == cs[..i + 1];
  }

  // ----- Draining one layout into another -----

  /** `contents` is on its way from an indexed layout to slots by edge. */
  ghost predicate Spreading<T>(index: map<nat, nat>, slots: map<nat, T>, target: map<nat, T>, contents: map<Byte, T>,
                               count: nat)
  {
    && IndexOk(index, slots) && Edges(target)
    && Through(index, slots).Keys !! ByEdge(target).Keys && Through(index, slots) + ByEdge(target) == contents
    && |index| + |target| == count
  }

  lemma SpreadKey<T>(index: map<nat, nat>, slots: map<nat, T>, target: map<nat, T>, contents: map<Byte, T>, count: nat,
                     key: Byte)
    requires Spreading(index, slots, target, contents, count) && key in index
    ensures index[key] in slots
    ensures Spreading(index - {key as nat}, slots - {index[key]}, target[key := slots[index[key]]], contents, count)
    ensures |index - {key as nat}| < |index|
  {
    hide IndexOk, Through, ByEdge;
    ThroughHas(index, slots, key);
    ThroughRemove(index, slots, key);
    AddedSize(index, key, 0);
    MoveOver(Through(index, slots), ByEdge(target), key);
    ByEdgeSet(target, key, slots[index[key as nat]]);
    NotInEdges(target, key);
    AddedSize(target, key, slots[index[key as nat]]);
  }

  lemma SpreadStart<T>(index: map<nat, nat>, slots: map<nat, T>)
    requires IndexOk(index, slots)
    ensures Spreading(index, slots, map[], Through(index, slots), |index|)
  {
    var none: map<nat, T> := map[];
    assert ByEdge(none) == map[];
    assert Through(index, slots) + map[] == Through(index, slots);
  }

  lemma SpreadDone<T>(index: map<nat, nat>, slots: map<nat, T>, target: map<nat, T>, contents: map<Byte, T>, count: nat)
    requires Spreading(index, slots, target, contents, count)
    ensures forall k :: k in index ==> k < 256
    ensures index == map[] ==> ByEdge(target) == contents && |target| == count
  {
    if index == map[] {
      assert Through(index, slots) == map[];
      NothingLeft(Through(index, slots), ByEdge(target));
    }
  }

  lemma NotInEdges<T>(slots: map<nat, T>, key: Byte)
    ensures key in slots <==> key in ByEdge(slots)
    ensures key in slots ==> ByEdge(slots)[key] == slots[key]
  {
  }

  /** The table is drained from the smallest key on. */
  method DirectFromIndexed<T>(im: IndexedMapping<T>) returns (mapping: DirectMapping<T>)
    requires im.Valid()
    modifies im, im.childPtrIndexes.Repr(), im.children.Repr()
    ensures mapping.Valid() && fresh(mapping) && fresh(mapping.children) && fresh(mapping.children.Repr())
    ensures mapping.Contents() == old(im.Contents()) && mapping.numChildren == old(im.numChildren)
  {
    hide IndexOk, Through, ByEdge, Spreading, A.BitArray.Valid, A.BitArray.Slots;
    ghost var contents := im.Contents();
    SpreadStart(im.childPtrIndexes.Slots(), im.children.Slots());
    var target := new A.BitArray<T>(256, 4, 64);
    SpreadAll(im.childPtrIndexes, im.children, target, contents, im.numChildren);
    mapping := new DirectMapping<T>.FromParts(target, im.numChildren);
    im.numChildren := 0;
  }

  method SpreadAll<T>(index: A.BitArray<nat>, slots: A.BitArray<T>, target: A.BitArray<T>, ghost contents: map<Byte, T>,
                      ghost count: nat)
    requires index.Valid() && slots.Valid() && target.Valid() && index.storage.Length == 256
    requires target.storage.Length == 256
    requires index.Repr() !! slots.Repr() && index.Repr() !! target.Repr() && slots.Repr() !! target.Repr()
    requires Spreading(index.Slots(), slots.Slots(), target.Slots(), contents, count)
    modifies index.Repr(), slots.Repr(), target.Repr()
    ensures target.Valid() && ByEdge(target.Slots()) == contents && |target.Slots()| == count
  {
    hide IndexOk, Through, ByEdge, Spreading, A.BitArray.Valid, A.BitArray.Slots;
    while true
      invariant index.Valid() && slots.Valid() && target.Valid()
      invariant Spreading(index.Slots(), slots.Slots(), target.Slots(), contents, count)
      decreases |index.Slots()|
    {
      SpreadDone(index.Slots(), slots.Slots(), target.Slots(), contents, count);
      var used := index.FirstUsed();
      if used.None? {
        return;
      }
      SpreadOne(index, slots, target, used.value, contents, count);
    }
  }

  /** A live table entry is erased together with its slot, and the child set under its key. */
  method SpreadOne<T>(index: A.BitArray<nat>, slots: A.BitArray<T>, target: A.BitArray<T>, key: Byte,
                      ghost contents: map<Byte, T>, ghost count: nat)
    requires index.Valid() && slots.Valid() && target.Valid() && index.storage.Length == 256
    requires target.storage.Length == 256
    requires index.Repr() !! slots.Repr() && index.Repr() !! target.Repr() && slots.Repr() !! target.Repr()
    requires Spreading(index.Slots(), slots.Slots(), target.Slots(), contents, count) && key in index.Slots()
    modifies index.Repr(), slots.Repr(), target.Repr()
    ensures index.Valid() && slots.Valid() && target.Valid()
    ensures Spreading(index.Slots(), slots.Slots(), target.Slots(), contents, count)
    ensures |index.Slots()| < |old(index.Slots())|
  {
    hide IndexOk, Through, ByEdge, Spreading, A.BitArray.Valid, A.BitArray.Slots;
    SpreadKey(index.Slots(), slots.Slots(), target.Slots(), contents, count, key);
    SlotInRange(slots, index.Slots()[key as nat]);
    var pos := index.Erase(key);
    var child := slots.Erase(pos.value);
    target.Set(key, child.value);
  }

  lemma SlotInRange<T>(slots: A.BitArray<T>, pos: nat)
    requires slots.Valid() && pos in slots.Slots()
    ensures pos < slots.storage.Length
  {
  }

  /** `contents` is on its way from slots by edge to an indexed layout with consecutive slots. */
  ghost predicate Packing<T>(source: map<nat, T>, index: map<nat, nat>, slots: map<nat, T>, contents: map<Byte, T>,
                             count: nat)
  {
    Splits(source, index, slots, contents) && PackCounts(source, index, slots, count)
  }

  ghost predicate Splits<T>(source: map<nat, T>, index: map<nat, nat>, slots: map<nat, T>, contents: map<Byte, T>) {
    && IndexOk(index, slots) && Edges(source)
    && ByEdge(source).Keys !! Through(index, slots).Keys && ByEdge(source) + Through(index, slots) == contents
  }

  ghost predicate PackCounts<T>(source: map<nat, T>, index: map<nat, nat>, slots: map<nat, T>, count: nat) {
    && |source| + |index| == count && |index| == |slots|
    && forall p :: p in slots ==> p < |slots|
  }

  lemma PackKey<T>(source: map<nat, T>, index: map<nat, nat>, slots: map<nat, T>, contents: map<Byte, T>, count: nat,
                   key: Byte)
    requires Packing(source, index, slots, contents, count) && key in source
    ensures |index| < count && |index[key as nat := |index|]| == |index| + 1
    ensures Packing(source - {key as nat}, index[key as nat := |index|], slots[|index| := source[key]], contents, count)
    ensures |source - {key as nat}| < |source|
  {
    hide Splits, PackCounts;
    PackedKey(source, index, slots, contents, key);
    PackedCounts(source, index, slots, count, key);
    PackedMaps(source, index, slots, contents, key, |index|);
  }

  lemma PackedKey<T>(source: map<nat, T>, index: map<nat, nat>, slots: map<nat, T>, contents: map<Byte, T>, key: Byte)
    requires Splits(source, index, slots, contents) && key in source
    ensures key !in index
  {
    NotInEdges(source, key);
    ThroughHas(index, slots, key);
  }

  lemma PackedCounts<T>(source: map<nat, T>, index: map<nat, nat>, slots: map<nat, T>, count: nat, key: Byte)
    requires PackCounts(source, index, slots, count) && key in source && key !in index
    ensures |index| !in slots && |index| < count && |index[key as nat := |index|]| == |index| + 1
    ensures PackCounts(source - {key as nat}, index[key as nat := |index|], slots[|index| := source[key]], count)
    ensures |source - {key as nat}| < |source|
  {
    AddedSize(index, key, |index|);
    AddedSize(source, key, source[key as nat]);
    AddedSize(slots, |index|, source[key as nat]);
  }

  lemma PackedMaps<T>(source: map<nat, T>, index: map<nat, nat>, slots: map<nat, T>, contents: map<Byte, T>, key: Byte,
                      pos: nat)
    requires Splits(source, index, slots, contents) && key in source && key !in index && pos !in slots
    ensures Splits(source - {key as nat}, index[key as nat := pos], slots[pos := source[key]], contents)
  {
    hide IndexOk, Through, ByEdge;
    NotInEdges(source, key);
    var x := source[key as nat];
    ThroughHas(index, slots, key);
    ThroughAdd(index, slots, key, pos, x);
    MoveOver(ByEdge(source), Through(index, slots), key);
    ByEdgeSet(source, key, x);
  }

  lemma PackStart<T>(source: map<nat, T>, index: map<nat, nat>, slots: map<nat, T>)
    requires Edges(source) && index == map[] && slots == map[]
    ensures Packing(source, index, slots, ByEdge(source), |source|)
  {
    hide IndexOk, Through, ByEdge;
    EmptyIndex(index, slots);
    assert ByEdge(source) + Through(index, slots) == ByEdge(source);
  }

  lemma EmptyIndex<T>(index: map<nat, nat>, slots: map<nat, T>)
    requires index == map[] && slots == map[]
    ensures IndexOk(index, slots) && Through(index, slots) == map[] && |index| == |slots| == 0
    ensures forall p :: p in slots ==> p < |slots|
  {
  }

  lemma PackDone<T>(source: map<nat, T>, index: map<nat, nat>, slots: map<nat, T>, contents: map<Byte, T>, count: nat)
    requires Packing(source, index, slots, contents, count)
    ensures forall k :: k in source ==> k < 256
    ensures |index| <= count && IndexOk(index, slots)
    ensures source == map[] ==> Through(index, slots) == contents && |index| == |slots| == count
  {
    if source == map[] {
      assert ByEdge(source) == map[];
      NothingLeft(ByEdge(source), Through(index, slots));
    }
  }

  /** The slots are drained from the smallest key on, into consecutive child slots. */
  method IndexedFromDirect<T>(dm: DirectMapping<T>, width: nat, words: nat, bits: nat)
    returns (mapping: IndexedMapping<T>)
    requires dm.Valid() && dm.numChildren <= width && bits > 0 && width <= words * bits
    modifies dm, dm.children.Repr()
    ensures mapping.Valid() && fresh(mapping) && fresh(mapping.childPtrIndexes.Repr()) && fresh(mapping.children.Repr())
    ensures mapping.Contents() == old(dm.Contents()) && mapping.numChildren == old(dm.numChildren)
    ensures mapping.children.storage.Length == width
  {
    hide IndexOk, Through, ByEdge, Packing, A.BitArray.Valid, A.BitArray.Slots;
    var childCount := dm.numChildren;
    ghost var contents := dm.Contents();
    SlotEdges(dm);
    var table := new A.BitArray<nat>(256, 4, 64);
    var slots := new A.BitArray<T>(width, words, bits);
    PackStart(dm.children.Slots(), table.Slots(), slots.Slots());
    var nextSlot, moved := 0, true;
    while moved
      invariant dm.children.Valid() && table.Valid() && slots.Valid() && fresh(table.Repr()) && fresh(slots.Repr())
      invariant Packing(dm.children.Slots(), table.Slots(), slots.Slots(), contents, childCount)
      invariant nextSlot == |table.Slots()|
      invariant !moved ==> dm.children.Slots() == map[]
      decreases |dm.children.Slots()|, moved
    {
      moved := PackSmallest(dm.children, table, slots, nextSlot, contents, childCount);
      nextSlot := if moved then nextSlot + 1 else nextSlot;
    }
    PackDone(dm.children.Slots(), table.Slots(), slots.Slots(), contents, childCount);
    mapping := new IndexedMapping<T>.FromParts(table, slots, childCount);
    dm.numChildren := 0;
  }

  method PackSmallest<T>(source: A.BitArray<T>, table: A.BitArray<nat>, slots: A.BitArray<T>, nextSlot: nat,
                         ghost contents: map<Byte, T>, ghost count: nat) returns (moved: bool)
    requires source.Valid() && table.Valid() && slots.Valid() && source.storage.Length == 256
    requires table.storage.Length == 256
    requires source.Repr() !! table.Repr() && source.Repr() !! slots.Repr() && table.Repr() !! slots.Repr()
    requires Packing(source.Slots(), table.Slots(), slots.Slots(), contents, count)
    requires nextSlot == |table.Slots()| && count <= slots.storage.Length
    modifies source.Repr(), table.Repr(), slots.Repr()
    ensures source.Valid() && table.Valid() && slots.Valid()
    ensures Packing(source.Slots(), table.Slots(), slots.Slots(), contents, count)
    ensures if moved then |source.Slots()| < |old(source.Slots())| && |table.Slots()| == nextSlot + 1
            else source.Slots() == map[] && |table.Slots()| == nextSlot
  {
    hide IndexOk, Through, ByEdge, Packing, A.BitArray.Valid, A.BitArray.Slots;
    PackDone(source.Slots(), table.Slots(), slots.Slots(), contents, count);
    var used := source.FirstUsed();
    if used.None? {
      return false;
    }
    PackOne(source, table, slots, used.value, nextSlot, contents, count);
    moved := true;
  }

  /** A live slot is erased and its child put into the next slot of the indexed layout. */
  method PackOne<T>(source: A.BitArray<T>, table: A.BitArray<nat>, slots: A.BitArray<T>, key: Byte, nextSlot: nat,
                    ghost contents: map<Byte, T>, ghost count: nat)
    requires source.Valid() && table.Valid() && slots.Valid() && source.storage.Length == 256
    requires table.storage.Length == 256
    requires source.Repr() !! table.Repr() && source.Repr() !! slots.Repr() && table.Repr() !! slots.Repr()
    requires Packing(source.Slots(), table.Slots(), slots.Slots(), contents, count) && key in source.Slots()
    requires nextSlot == |table.Slots()| && count <= slots.storage.Length
    modifies source.Repr(), table.Repr(), slots.Repr()
    ensures source.Valid() && table.Valid() && slots.Valid()
    ensures Packing(source.Slots(), table.Slots(), slots.Slots(), contents, count)
    ensures |source.Slots()| < |old(source.Slots())| && |table.Slots()| == nextSlot + 1
  {
    hide IndexOk, Through, ByEdge, Packing, A.BitArray.Valid, A.BitArray.Slots;
    PackKey(source.Slots(), table.Slots(), slots.Slots(), contents, count, key);
    var child := source.Erase(key);
    table.Set(key, nextSlot);
    slots.Set(nextSlot, child.value);
  }

  lemma SlotEdges<T>(dm: DirectMapping<T>)
    requires dm.Valid()
    ensures Edges(dm.children.Slots()) && dm.Contents() == ByEdge(dm.children.Slots())
  {
  }

  /** `contents` is on its way from an indexed layout to sorted arrays, smallest key first. */
  ghost predicate Gathering<T>(index: map<nat, nat>, slots: map<nat, T>, keys: seq<Byte>, children: seq<Option<T>>,
                               contents: map<Byte, T>, count: nat)
  {
    && IndexOk(index, slots) && |keys| == |children| && Strict(keys) && AllSome(children)
    && (forall i, k :: 0 <= i < |keys| && k in index ==> keys[i] < k)
    && Through(index, slots).Keys !! Assoc(keys, children).Keys
    && Through(index, slots) + Assoc(keys, children) == contents
    && |index| + |keys| == count
  }

  lemma GatherKey<T>(index: map<nat, nat>, slots: map<nat, T>, keys: seq<Byte>, children: seq<Option<T>>,
                     contents: map<Byte, T>, count: nat, key: Byte)
    requires Gathering(index, slots, keys, children, contents, count) && key in index
    requires forall k :: k in index ==> key <= k
    ensures index[key] in slots
    ensures Gathering(index - {key as nat}, slots - {index[key]}, keys + [key], children + [Some(slots[index[key]])],
                      contents, count)
    ensures |index - {key as nat}| == |index| - 1
  {
    hide IndexOk, Through, Assoc, Strict;
    ThroughHas(index, slots, key);
    ThroughRemove(index, slots, key);
    AddedSize(index, key, 0);
    AssocPush(keys, children, key, slots[index[key as nat]]);
    MoveOver(Through(index, slots), Assoc(keys, children), key);
  }

  lemma AssocPush<T>(keys: seq<Byte>, children: seq<Option<T>>, key: Byte, child: T)
    requires |keys| == |children| && Strict(keys) && AllSome(children)
    requires forall i :: 0 <= i < |keys| ==> keys[i] < key
    ensures Strict(keys + [key]) && AllSome(children + [Some(child)])
    ensures Assoc(keys + [key], children + [Some(child)]) == Assoc(keys, children)[key := child]
  {
    hide Assoc;
    AssocInsert(keys, children, |keys|, key, child);
    assert InsertAt(keys, |keys|, key) == keys + [key];
    assert InsertAt(children, |keys|, Some(child)) == children + [Some(child)];
  }

  lemma GatherStart<T>(index: map<nat, nat>, slots: map<nat, T>)
    requires IndexOk(index, slots)
    ensures Gathering(index, slots, [], [], Through(index, slots), |index|)
  {
    var none: seq<Option<T>> := [];
    assert Assoc([], none) == map[];
    assert Through(index, slots) + Assoc([], none) == Through(index, slots);
  }

  lemma GatherDone<T>(index: map<nat, nat>, slots: map<nat, T>, keys: seq<Byte>, children: seq<Option<T>>,
                      contents: map<Byte, T>, count: nat)
    requires Gathering(index, slots, keys, children, contents, count)
    ensures |keys| == |children| <= count && Strict(keys) && AllSome(children)
    ensures forall k :: k in index ==> k < 256
    ensures |keys| < count ==> index != map[]
    ensures |keys| == count ==> Assoc(keys, children) == contents
  {
    if |keys| == count {
      assert index.Keys == {};
      assert Through(index, slots) == map[];
      NothingLeft(Through(index, slots), Assoc(keys, children));
    }
  }

  /** The table is drained from the smallest key on, into the sorted arrays. */
  method SortedFromIndexed<T>(im: IndexedMapping<T>, width: nat) returns (mapping: SortedKeyedMapping<T>)
    requires im.Valid() && im.numChildren <= width
    modifies im, im.childPtrIndexes.Repr(), im.children.Repr()
    ensures mapping.Valid() && fresh(mapping) && fresh(mapping.keys) && fresh(mapping.children)
    ensures mapping.Contents() == old(im.Contents()) && mapping.numChildren == old(im.numChildren)
    ensures mapping.keys.Length == width
  {
    hide IndexOk, Through, Gathering, Assoc, Strict, A.BitArray.Valid, A.BitArray.Slots;
    var childCount := im.numChildren;
    ghost var contents := im.Contents();
    GatherStart(im.childPtrIndexes.Slots(), im.children.Slots());
    mapping := new SortedKeyedMapping<T>(width);
    Gather(im.childPtrIndexes, im.children, mapping.keys, mapping.children, contents, childCount);
    mapping.numChildren := childCount;
    im.numChildren := 0;
  }

  method Gather<T>(index: A.BitArray<nat>, slots: A.BitArray<T>, keys: array<Byte>, children: array<Option<T>>,
                   ghost contents: map<Byte, T>, count: nat)
    requires index.Valid() && slots.Valid() && index.storage.Length == 256 && index.Repr() !! slots.Repr()
    requires keys !in index.Repr() + slots.Repr() && children !in index.Repr() + slots.Repr()
    requires keys.Length == children.Length >= count && forall j :: 0 <= j < children.Length ==> children[j].None?
    requires Gathering(index.Slots(), slots.Slots(), [], [], contents, count)
    modifies index.Repr(), slots.Repr(), keys, children
    ensures Strict(keys[..count]) && AllSome(children[..count]) && Assoc(keys[..count], children[..count]) == contents
    ensures forall j :: count <= j < children.Length ==> children[j].None?
  {
    hide IndexOk, Through, Gathering, Assoc, Strict, A.BitArray.Valid, A.BitArray.Slots;
    for dst := 0 to count
      invariant index.Valid() && slots.Valid()
      invariant Gathering(index.Slots(), slots.Slots(), keys[..dst], children[..dst], contents, count)
      invariant forall j :: dst <= j < children.Length ==> children[j].None?
    {
      ghost var ks, cs := keys[..dst], children[..dst];
      GatherDone(index.Slots(), slots.Slots(), ks, cs, contents, count);
      var key := index.FirstUsed();
      GatherKey(index.Slots(), slots.Slots(), ks, cs, contents, count, key.value);
      SlotInRange(slots, index.Slots()[key.value]);
      var pos := index.Erase(key.value);
      var child := slots.Erase(pos.value);
      keys[dst] := key.value;
      children[dst] := child;
      assert keys[..dst + 1] == ks + [key.value as Byte] && children[..dst + 1] == cs + [child];
    }
    GatherDone(index.Slots(), slots.Slots(), keys[..count], children[..count], contents, count);
  }

  // ----- A node's children in whichever layout -----

  datatype Layout<T> =
    | Four(km4: SortedKeyedMapping<T>)
    | Sixteen(km16: SortedKeyedMapping<T>)
    | FortyEight(im: IndexedMapping<T>)
    | Full(dm: DirectMapping<T>)

  function KindOf<T>(layout: Layout<T>): N.Kind {
    match layout
    case Four(_) => N.Node4
    case Sixteen(_) => N.Node16
    case FortyEight(_) => N.Node48
    case Full(_) => N.Node256
  }

  ghost function Objects<T>(layout: Layout<T>): set<object> {
    match layout
    case Four(km) => {km, km.keys, km.children}
    case Sixteen(km) => {km, km.keys, km.children}
    case FortyEight(im) => {im, im.childPtrIndexes, im.children} + im.childPtrIndexes.Repr() + im.children.Repr()
    case Full(dm) => {dm, dm.children} + dm.children.Repr()
  }

  ghost predicate LayoutOk<T>(layout: Layout<T>)
    reads Objects(layout)
  {
    match layout
    case Four(km) => km.Valid() && km.keys.Length == 4
    case Sixteen(km) => km.Valid() && km.keys.Length == 16
    case FortyEight(im) => im.Valid() && im.children.storage.Length == 48
    case Full(dm) => dm.Valid()
  }

  ghost function ChildrenOf<T>(layout: Layout<T>): map<Byte, T>
    requires LayoutOk(layout)
    reads Objects(layout)
  {
    match layout
    case Four(km) => km.Contents()
    case Sixteen(km) => km.Contents()
    case FortyEight(im) => im.Contents()
    case Full(dm) => dm.Contents()
  }

  /** The counter of the layout is the number of its children, and the layout holds that many. */
  lemma WithinCapacity<T>(layout: Layout<T>)
    requires LayoutOk(layout)
    ensures |ChildrenOf(layout)| <= N.Capacity(KindOf(layout))
    ensures match layout
            case Four(km) => |ChildrenOf(layout)| == km.numChildren
            case Sixteen(km) => |ChildrenOf(layout)| == km.numChildren
            case FortyEight(im) => |ChildrenOf(layout)| == im.numChildren
            case Full(dm) => |ChildrenOf(layout)| == dm.numChildren
  {
    hide A.BitArray.Valid, A.BitArray.Slots, SortedKeyedMapping.Contents, IndexedMapping.Contents;
    hide DirectMapping.Contents, IndexOk, Strict;
    match layout
    case Four(km) => km.CountOk();
    case Sixteen(km) => km.CountOk();
    case FortyEight(im) =>
      im.CountOk();
      SlotsBound(im.children);
    case Full(dm) =>
      dm.CountOk();
      SlotsBound(dm.children);
  }

  method NumChildren<T>(layout: Layout<T>) returns (count: nat)
    requires LayoutOk(layout)
    ensures count == |ChildrenOf(layout)|
  {
    WithinCapacity(layout);
    match layout
    case Four(km) => count := km.numChildren;
    case Sixteen(km) => count := km.numChildren;
    case FortyEight(im) => count := im.numChildren;
    case Full(dm) => count := dm.numChildren;
  }

  lemma SlotsBound<T>(slots: A.BitArray<T>)
    requires slots.Valid()
    ensures |slots.Slots()| <= slots.storage.Length
  {
    KeysBound(slots.Slots().Keys, slots.storage.Length);
    assert |slots.Slots()| == |slots.Slots().Keys|;
  }

  lemma {:induction false} KeysBound(keys: set<nat>, n: nat)
    requires forall k :: k in keys ==> k < n
    ensures |keys| <= n
    decreases n
  {
    if n == 0 {
      assert keys == {};
    } else {
      KeysBound(keys - {n - 1}, n - 1);
      assert keys <= (keys - {n - 1}) + {n - 1};
      N.SubsetCard(keys, (keys - {n - 1}) + {n - 1});
    }
  }

  /** The next larger layout holds the same children. */
  method Grow<T>(layout: Layout<T>) returns (grown: Layout<T>)
    requires LayoutOk(layout) && !layout.Full?
    modifies Objects(layout)
    ensures LayoutOk(grown) && fresh(Objects(grown)) && KindOf(grown) == N.Grow(KindOf(layout))
    ensures ChildrenOf(grown) == old(ChildrenOf(layout))
  {
    hide SortedKeyedMapping.Valid, SortedKeyedMapping.Contents, IndexedMapping.Valid, IndexedMapping.Contents;
    hide DirectMapping.Valid, DirectMapping.Contents;
    WithinCapacity(layout);
    match layout
    case Four(km) =>
      var wider := FromResized(km, 16);
      grown := Sixteen(wider);
    case Sixteen(km) =>
      var indexed := FromSortedKeyed(km, 48, 1, 64);
      grown := FortyEight(indexed);
    case FortyEight(im) =>
      var direct := DirectFromIndexed(im);
      grown := Full(direct);
  }

  function Smaller(kind: N.Kind): N.Kind {
    match kind
    case Node4 => N.Node4
    case Node16 => N.Node4
    case Node48 => N.Node16
    case Node256 => N.Node48
  }

  /** The next smaller layout holds the same children, when they are few enough for it. */
  method Shrink<T>(layout: Layout<T>) returns (shrunk: Layout<T>)
    requires LayoutOk(layout) && !layout.Four?
    requires |ChildrenOf(layout)| <= N.Capacity(Smaller(KindOf(layout)))
    modifies Objects(layout)
    ensures LayoutOk(shrunk) && fresh(Objects(shrunk)) && KindOf(shrunk) == Smaller(KindOf(layout))
    ensures ChildrenOf(shrunk) == old(ChildrenOf(layout))
  {
    hide SortedKeyedMapping.Valid, SortedKeyedMapping.Contents, IndexedMapping.Valid, IndexedMapping.Contents;
    hide DirectMapping.Valid, DirectMapping.Contents;
    WithinCapacity(layout);
    match layout
    case Sixteen(km) =>
      var narrower := FromResized(km, 4);
      shrunk := Four(narrower);
    case FortyEight(im) =>
      var sorted := SortedFromIndexed(im, 16);
      shrunk := Sixteen(sorted);
    case Full(dm) =>
      var indexed := IndexedFromDirect(dm, 48, 1, 64);
      shrunk := FortyEight(indexed);
  }

  /** Adds a child to a layout that has room for it. */
  method AddToLayout<T>(layout: Layout<T>, key: Byte, node: T)
    requires LayoutOk(layout) && key !in ChildrenOf(layout) && |ChildrenOf(layout)| < N.Capacity(KindOf(layout))
    modifies Objects(layout)
    ensures LayoutOk(layout) && ChildrenOf(layout) == old(ChildrenOf(layout))[key := node]
  {
    hide SortedKeyedMapping.Valid, SortedKeyedMapping.Contents, IndexedMapping.Valid, IndexedMapping.Contents;
    hide DirectMapping.Valid, DirectMapping.Contents;
    WithinCapacity(layout);
    match layout
    case Four(km) => km.AddChild(key, node);
    case Sixteen(km) => km.AddChild(key, node);
    case FortyEight(im) => im.AddChild(key, node);
    case Full(dm) => dm.AddChild(key, node);
  }

  /** The child map gains an entry; the kind grows exactly when the layout was full. */
  method AddChild<T>(layout: Layout<T>, key: Byte, node: T) returns (after: Layout<T>)
    requires LayoutOk(layout) && key !in ChildrenOf(layout)
    modifies Objects(layout)
    ensures LayoutOk(after) && (after == layout || fresh(Objects(after)))
    ensures ChildrenOf(after) == old(ChildrenOf(layout))[key := node]
    ensures match layout
            case Four(_) => if |old(ChildrenOf(layout))| < 4 then after.Four? else after.Sixteen?
            case Sixteen(_) => if |old(ChildrenOf(layout))| < 16 then after.Sixteen? else after.FortyEight?
            case FortyEight(_) => if |old(ChildrenOf(layout))| < 48 then after.FortyEight? else after.Full?
            case Full(_) => after.Full?
  {
    hide LayoutOk, ChildrenOf;
    WithinCapacity(layout);
    FreeByte(ChildrenOf(layout), key, node);
    after := layout;
    var count := NumChildren(layout);
    if count >= N.Capacity(KindOf(layout)) {
      after := Grow(layout);
    }
    AddToLayout(after, key, node);
  }

  lemma FreeByte<T>(children: map<Byte, T>, key: Byte, child: T)
    requires key !in children
    ensures |children| < 256 && |children[key := child]| == |children| + 1
  {
    N.ByteSetBound(children.Keys + {key}, 256);
    assert |children.Keys + {key}| == |children.Keys| + 1;
    assert children[key := child].Keys == children.Keys + {key};
  }

  method DeleteFromLayout<T>(layout: Layout<T>, key: Byte) returns (removed: Option<T>)
    requires LayoutOk(layout)
    modifies Objects(layout)
    ensures LayoutOk(layout) && ChildrenOf(layout) == old(ChildrenOf(layout)) - {key}
    ensures removed == if key in old(ChildrenOf(layout)) then Some(old(ChildrenOf(layout))[key]) else None
  {
    hide SortedKeyedMapping.Valid, SortedKeyedMapping.Contents, IndexedMapping.Valid, IndexedMapping.Contents;
    hide DirectMapping.Valid, DirectMapping.Contents;
    match layout
    case Four(km) => removed := km.DeleteChild(key);
    case Sixteen(km) => removed := km.DeleteChild(key);
    case FortyEight(im) => removed := im.DeleteChild(key);
    case Full(dm) => removed := dm.DeleteChild(key);
  }

  /**
   The child map loses an entry; the kind shrinks at its threshold. Collapsing a Node4
   with one child is not a matter of the layout.
   */
  method DeleteChild<T>(layout: Layout<T>, key: Byte) returns (after: Layout<T>, removed: Option<T>)
    requires LayoutOk(layout)
    modifies Objects(layout)
    ensures LayoutOk(after) && (after == layout || fresh(Objects(after)))
    ensures ChildrenOf(after) == old(ChildrenOf(layout)) - {key}
    ensures removed == if key in old(ChildrenOf(layout)) then Some(old(ChildrenOf(layout))[key]) else None
    ensures match layout
            case Four(_) => after.Four?
            case Sixteen(_) => if |ChildrenOf(after)| < 5 then after.Four? else after.Sixteen?
            case FortyEight(_) => if |ChildrenOf(after)| < 17 then after.Sixteen? else after.FortyEight?
            case Full(_) => if |ChildrenOf(after)| < 49 then after.FortyEight? else after.Full?
  {
    hide LayoutOk, ChildrenOf, Objects;
    removed := DeleteFromLayout(layout, key);
    after := ShrinkIfSparse(layout);
  }

  method ShrinkIfSparse<T>(layout: Layout<T>) returns (after: Layout<T>)
    requires LayoutOk(layout)
    modifies Objects(layout)
    ensures LayoutOk(after) && (after == layout || fresh(Objects(after)))
    ensures ChildrenOf(after) == old(ChildrenOf(layout))
    ensures match layout
            case Four(_) => after.Four?
            case Sixteen(_) => if |ChildrenOf(after)| < 5 then after.Four? else after.Sixteen?
            case FortyEight(_) => if |ChildrenOf(after)| < 17 then after.Sixteen? else after.FortyEight?
            case Full(_) => if |ChildrenOf(after)| < 49 then after.FortyEight? else after.Full?
  {
    hide LayoutOk, ChildrenOf;
    var count := NumChildren(layout);
    var threshold := match layout case Four(_) => 0 case Sixteen(_) => 5 case FortyEight(_) => 17 case Full(_) => 49;
    if count >= threshold {
      return layout;
    }
    after := Shrink(layout);
  }

  method SeekChild<T>(layout: Layout<T>, key: Byte) returns (child: Option<T>)
    requires LayoutOk(layout)
    ensures child == if key in ChildrenOf(layout) then Some(ChildrenOf(layout)[key]) else None
  {
    match layout
    case Four(km) => child := km.SeekChild(key);
    case Sixteen(km) => child := km.SeekChild(key);
    case FortyEight(im) => child := im.SeekChild(key);
    case Full(dm) => child := dm.SeekChild(key);
  }

  /** Whatever the layout, the children are listed in ascending edge order. */
  method Iter<T>(layout: Layout<T>) returns (items: seq<(Byte, T)>)
    requires LayoutOk(layout)
    ensures items == Listing(ChildrenOf(layout), 0)
  {
    match layout
    case Four(km) => items := km.Iter();
    case Sixteen(km) => items := km.Iter();
    case FortyEight(im) => items := im.Iter();
    case Full(dm) => items := dm.Iter();
  }

  /**
   Tree nodes use the layouts in the same way: a full one grows, a sparse one shrinks
   at the same counts, and none is ever over its capacity.
   */
  lemma NodeLayouts<V>(n: N.Node<V>, k: Byte, child: N.Node<V>)
    requires N.WellFormed(n) && n.content.Inner?
    ensures k !in N.Kids(n) ==>
              var kind, count := n.content.kind, |N.Kids(n)|;
              && |N.Kids(N.AddChild(n, k, child))| <= N.Capacity(N.AddChild(n, k, child).content.kind)
              && N.AddChild(n, k, child).content.kind ==
                 if kind == N.Node4 && count == 4 then N.Node16
                 else if kind == N.Node16 && count == 16 then N.Node48
                 else if kind == N.Node48 && count == 48 then N.Node256
                 else kind
    ensures k in N.Kids(n) && !n.content.kind.Node4? ==>
              var kind, count := n.content.kind, |N.Kids(n)| - 1;
              && N.DeleteChild(n, k).content.Inner?
              && |N.Kids(N.DeleteChild(n, k))| <= N.Capacity(N.DeleteChild(n, k).content.kind)
              && N.DeleteChild(n, k).content.kind ==
                 if kind == N.Node16 && count < 5 then N.Node4
                 else if kind == N.Node48 && count < 17 then N.Node16
                 else if kind == N.Node256 && count < 49 then N.Node48
                 else kind
  {
    FitsLayout(n);
    hide N.WellFormed, N.Collapse;
    if k !in N.Kids(n) {
      N.FreeEdgeCount(N.Kids(n), k, child);
      assert N.Kids(N.AddChild(n, k, child)) == N.Kids(n)[k := child];
    } else {
      N.RemoveEdgeCount(N.Kids(n), k);
      assert !n.content.kind.Node4? ==> N.Kids(N.DeleteChild(n, k)) == N.Kids(n) - {k};
    }
  }

  /** The layout of a count is the smallest that holds so many children. */
  lemma SmallestLayout(count: nat, other: N.Kind)
    requires count <= 256
    ensures count <= N.Capacity(N.KindFor(count))
    ensures count <= N.Capacity(other) ==> N.Capacity(N.KindFor(count)) <= N.Capacity(other)
  {
  }

  /**
   A node may come in with too large a layout, as nodes of the copy-on-write tree do.
   Each removal takes it one layout down, unless it has the layout of its count.
   */
  lemma RemovalSettles(kind: N.Kind, count: nat)
    requires 0 < count <= N.Capacity(kind)
    ensures N.Shrink(kind, count - 1) == N.KindFor(count - 1) ||
            N.Capacity(N.KindFor(count - 1)) < N.Capacity(N.Shrink(kind, count - 1)) < N.Capacity(kind)
    ensures count - 1 <= N.Capacity(N.Shrink(kind, count - 1))
  {
  }

  /** After three removals every node has the smallest layout that fits. */
  lemma ThreeRemovalsSettle(kind: N.Kind, count: nat)
    requires 3 <= count <= N.Capacity(kind)
    ensures N.Shrink(N.Shrink(N.Shrink(kind, count - 1), count - 2), count - 3) == N.KindFor(count - 3)
  {
    RemovalSettles(kind, count);
    RemovalSettles(N.Shrink(kind, count - 1), count - 1);
    RemovalSettles(N.Shrink(N.Shrink(kind, count - 1), count - 2), count - 2);
  }

  lemma FitsLayout<V>(n: N.Node<V>)
    requires N.WellFormed(n) && n.content.Inner?
    ensures |N.Kids(n)| <= N.Capacity(n.content.kind)
  {
  }
}
