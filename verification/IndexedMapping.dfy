/** The layout of mid-sized nodes: a table from edge byte to one of a few child slots. */
module IndexedMapping {
  import opened Wrappers
  import opened Bytes
  import opened ChildMap
  import B = Bitset
  import A = BitArray
  import D = DirectMapping

  /** The index table is injective onto exactly the live slots. */
  ghost predicate IndexOk<N>(index: map<nat, nat>, slots: map<nat, N>) {
    && D.Edges(index)
    && (forall k :: k in index ==> index[k] in slots)
    && (forall k, l :: k in index && l in index && index[k] == index[l] ==> k == l)
    && (forall p :: p in slots ==> exists k :: k in index && index[k] == p)
  }

  /** The children as seen through the table. */
  ghost function Through<N>(index: map<nat, nat>, slots: map<nat, N>): map<Byte, N> {
    map k: Byte | k in index && index[k] in slots :: slots[index[k]]
  }

  lemma ThroughAdd<N>(index: map<nat, nat>, slots: map<nat, N>, key: Byte, pos: nat, child: N)
    requires IndexOk(index, slots) && key !in index && pos !in slots
    ensures IndexOk(index[key := pos], slots[pos := child])
    ensures Through(index[key := pos], slots[pos := child]) == Through(index, slots)[key := child]
  {
    var index', slots' := index[key as nat := pos], slots[pos := child];
    forall p | p in slots'
      ensures exists k :: k in index' && index'[k] == p
    {
      if p == pos {
        assert index'[key as nat] == p;
      } else {
        var k :| k in index && index[k] == p;
        assert index'[k] == p;
      }
    }
  }

  lemma ThroughRemove<N>(index: map<nat, nat>, slots: map<nat, N>, key: Byte)
    requires IndexOk(index, slots) && key in index
    ensures IndexOk(index - {key as nat}, slots - {index[key]})
    ensures Through(index - {key as nat}, slots - {index[key]}) == Through(index, slots) - {key}
    ensures key in Through(index, slots) && Through(index, slots)[key] == slots[index[key]]
  {
    var index', slots' := index - {key as nat}, slots - {index[key]};
    forall p | p in slots'
      ensures exists k :: k in index' && index'[k] == p
    {
      var k :| k in index && index[k] == p;
      assert k in index' && index'[k] == p;
    }
  }

  /** An edge is mapped exactly when the table has it. */
  lemma ThroughHas<N>(index: map<nat, nat>, slots: map<nat, N>, key: Byte)
    requires IndexOk(index, slots)
    ensures key in Through(index, slots) <==> key in index
    ensures key !in index ==> Through(index, slots) - {key} == Through(index, slots)
    ensures key in index ==> index[key] in slots
  {
  }

  lemma AddedSize<N>(m: map<nat, N>, k: nat, x: N)
    ensures |m[k := x]| == if k in m then |m| else |m| + 1
    ensures k in m ==> |m - {k}| == |m| - 1
  {
    assert m[k := x].Keys == m.Keys + {k};
    if k in m {
      assert m.Keys == (m - {k}).Keys + {k};
    }
  }

  /** Slots below `n` that are all taken are at least `n`. */
  lemma {:induction false} FullSlots<N>(slots: map<nat, N>, n: nat)
    requires forall q :: 0 <= q < n ==> q in slots
    ensures |slots| >= n
    decreases n
  {
    if n > 0 {
      var rest := slots - {n - 1};
      AddedSize(slots, n - 1, slots[n - 1]);
      FullSlots(rest, n - 1);
    }
  }

  class IndexedMapping<N> {
    const childPtrIndexes: A.BitArray<nat>
    const children: A.BitArray<N>
    var numChildren: nat

    ghost predicate Valid()
      reads this, childPtrIndexes, childPtrIndexes.Repr(), children, children.Repr()
    {
      && childPtrIndexes.Valid() && children.Valid() && childPtrIndexes.Repr() !! children.Repr()
      && childPtrIndexes.storage.Length == 256
      && IndexOk(childPtrIndexes.Slots(), children.Slots())
      && numChildren == |childPtrIndexes.Slots()| == |children.Slots()|
    }

    ghost function Contents(): map<Byte, N>
      reads childPtrIndexes.Repr(), children.Repr()
    {
      Through(childPtrIndexes.Slots(), children.Slots())
    }

    /** `width` child slots under a bitset of `words` words of `bits` bits. */
    constructor (width: nat, words: nat, bits: nat)
      requires bits > 0 && width <= words * bits
      ensures Valid() && Contents() == map[] && numChildren == 0 && children.storage.Length == width
      ensures fresh(childPtrIndexes) && fresh(childPtrIndexes.Repr()) && fresh(children) && fresh(children.Repr())
    {
      childPtrIndexes := new A.BitArray<nat>(256, 4, 64);
      children := new A.BitArray<N>(width, words, bits);
      numChildren := 0;
    }

    constructor FromParts(childPtrIndexes: A.BitArray<nat>, children: A.BitArray<N>, numChildren: nat)
      ensures this.childPtrIndexes == childPtrIndexes && this.children == children && this.numChildren == numChildren
    {
      this.childPtrIndexes, this.children, this.numChildren := childPtrIndexes, children, numChildren;
    }

    lemma CountOk()
      requires Valid()
      ensures |Contents()| == numChildren
    {
      var index, slots := childPtrIndexes.Slots(), children.Slots();
      assert Contents().Keys == D.ByEdge(index).Keys;
      D.ByEdgeSize(index);
    }

    method SeekChild(key: Byte) returns (r: Option<N>)
      requires Valid()
      ensures r == if key in Contents() then Some(Contents()[key]) else None
    {
      var pos := childPtrIndexes.Get(key);
      if pos.None? {
        return None;
      }
      InRange(pos.value);
      r := children.Get(pos.value);
    }

    lemma InRange(pos: nat)
      requires children.Valid() && pos in children.Slots()
      ensures pos < children.storage.Length
    {
    }

    /** While there are fewer children than slots, one is free. */
    method FreeSlot() returns (pos: nat)
      requires children.Valid() && |children.Slots()| < children.storage.Length
      ensures pos !in children.Slots() && pos < children.storage.Length
    {
      hide A.BitArray.Valid, A.BitArray.Slots;
      var free := children.FirstEmpty();
      if free.None? {
        FullSlots(children.Slots(), children.storage.Length);
      }
      pos := free.value;
    }

    /** Takes the first free slot. */
    method AddChild(key: Byte, node: N)
      requires Valid() && key !in Contents() && numChildren < children.storage.Length
      modifies this, childPtrIndexes.Repr(), children.Repr()
      ensures Valid() && Contents() == old(Contents())[key := node] && numChildren == old(numChildren) + 1
    {
      ghost var index, slots := childPtrIndexes.Slots(), children.Slots();
      hide IndexOk, Through, B.Ones, A.BitArray.Valid, A.BitArray.Slots;
      ThroughHas(index, slots, key);
      var pos := FreeSlot();
      ThroughAdd(index, slots, key, pos, node);
      AddedSize(index, key, pos);
      AddedSize(slots, pos, node);
      PutAt(key, pos, node);
    }

    /** Adds keys in ascending order into consecutive slots. */
    method AddChildSorted(key: Byte, node: N)
      requires Valid() && key !in Contents() && numChildren < children.storage.Length
      requires numChildren !in children.Slots()
      modifies this, childPtrIndexes.Repr(), children.Repr()
      ensures Valid() && Contents() == old(Contents())[key := node] && numChildren == old(numChildren) + 1
      ensures children.Slots() == old(children.Slots())[old(numChildren) := node]
    {
      ghost var index, slots := childPtrIndexes.Slots(), children.Slots();
      hide IndexOk, Through, B.Ones, A.BitArray.Valid, A.BitArray.Slots;
      ThroughHas(index, slots, key);
      var pos := numChildren;
      ThroughAdd(index, slots, key, pos, node);
      AddedSize(index, key, pos);
      AddedSize(slots, pos, node);
      PutAt(key, pos, node);
    }

    method PutAt(key: Byte, pos: nat, node: N)
      requires childPtrIndexes.Valid() && children.Valid() && childPtrIndexes.Repr() !! children.Repr()
      requires childPtrIndexes.storage.Length == 256 && pos < children.storage.Length
      modifies this, childPtrIndexes.Repr(), children.Repr()
      ensures childPtrIndexes.Valid() && children.Valid() && numChildren == old(numChildren) + 1
      ensures childPtrIndexes.Slots() == old(childPtrIndexes.Slots())[key as nat := pos]
      ensures children.Slots() == old(children.Slots())[pos := node]
    {
      childPtrIndexes.Set(key, pos);
      children.Set(pos, node);
      numChildren := numChildren + 1;
    }

    method DeleteChild(key: Byte) returns (r: Option<N>)
      requires Valid()
      modifies this, childPtrIndexes.Repr(), children.Repr()
      ensures Valid() && Contents() == old(Contents()) - {key}
      ensures r == if key in old(Contents()) then Some(old(Contents())[key]) else None
      ensures numChildren == if r.Some? then old(numChildren) - 1 else old(numChildren)
    {
      hide IndexOk, Through, B.Ones, A.BitArray.Valid, A.BitArray.Slots;
      ThroughHas(childPtrIndexes.Slots(), children.Slots(), key);
      var present := childPtrIndexes.Check(key);
      if !present {
        return None;
      }
      var child := DeletePresent(key);
      r := Some(child);
    }

    method DeletePresent(key: Byte) returns (child: N)
      requires Valid() && key in childPtrIndexes.Slots()
      modifies this, childPtrIndexes.Repr(), children.Repr()
      ensures Valid() && Contents() == old(Contents()) - {key}
      ensures key in old(Contents()) && child == old(Contents())[key]
      ensures numChildren == old(numChildren) - 1
    {
      hide IndexOk, Through, B.Ones, A.BitArray.Valid, A.BitArray.Slots;
      ghost var index, slots := childPtrIndexes.Slots(), children.Slots();
      ThroughHas(index, slots, key);
      ThroughRemove(index, slots, key);
      AddedSize(index, key, 0);
      AddedSize(slots, index[key as nat], slots[index[key as nat]]);
      child := TakeAt(key);
      numChildren := numChildren - 1;
    }

    /** Erases a live table entry and the slot it points at. */
    method TakeAt(key: Byte) returns (child: N)
      requires childPtrIndexes.Valid() && children.Valid() && childPtrIndexes.Repr() !! children.Repr()
      requires childPtrIndexes.storage.Length == 256
      requires key in childPtrIndexes.Slots() && childPtrIndexes.Slots()[key] in children.Slots()
      modifies childPtrIndexes.Repr(), children.Repr()
      ensures childPtrIndexes.Valid() && children.Valid()
      ensures childPtrIndexes.Slots() == old(childPtrIndexes.Slots()) - {key as nat}
      ensures children.Slots() == old(children.Slots()) - {old(childPtrIndexes.Slots())[key as nat]}
      ensures child == old(children.Slots())[old(childPtrIndexes.Slots())[key as nat]]
    {
      InRange(childPtrIndexes.Slots()[key as nat]);
      var pos := childPtrIndexes.Erase(key);
      var erased := children.Erase(pos.value);
      child := erased.value;
    }

    method GetLive(key: nat) returns (child: N)
      requires Valid() && key in childPtrIndexes.Slots()
      ensures key < 256 && childPtrIndexes.Slots()[key] in children.Slots()
      ensures child == children.Slots()[childPtrIndexes.Slots()[key]]
    {
      var pos := childPtrIndexes.Get(key);
      InRange(pos.value);
      var found := children.Get(pos.value);
      child := found.value;
    }

    /** Follows the ones of the table's bitset: ascending edges, whatever the slots. */
    method Iter() returns (items: seq<(Byte, N)>)
      requires Valid()
      ensures items == Listing(Contents(), 0)
    {
      hide B.Ones, IndexOk, Through, A.BitArray.Valid, A.BitArray.Slots;
      ghost var index, slots := childPtrIndexes.Slots(), children.Slots();
      TableEdges(index, slots);
      childPtrIndexes.LiveSlots();
      var ones := B.Positions(childPtrIndexes.bitset);
      items := [];
      for i := 0 to |ones|
        invariant |items| == i
        invariant forall j :: 0 <= j < i ==>
                    ones[j] in index && index[ones[j]] in slots && items[j] == (ones[j], slots[index[ones[j]]])
      {
        assert ones[i] in ones;
        var child := GetLive(ones[i]);
        items := items + [(ones[i], child)];
      }
      IndexListed(items, ones, index, slots);
    }

    method CloneMapping() returns (copy: IndexedMapping<N>)
      requires Valid()
      ensures copy.Valid() && fresh(copy) && fresh(copy.childPtrIndexes.Repr()) && fresh(copy.children.Repr())
      ensures copy.Contents() == Contents() && copy.numChildren == numChildren
    {
      hide IndexOk, Through, B.Ones, A.BitArray.Valid, A.BitArray.Slots;
      var index := childPtrIndexes.CloneLiveSlots();
      var slots := children.CloneLiveSlots();
      copy := new IndexedMapping<N>.FromParts(index, slots, numChildren);
    }
  }

  lemma TableEdges<N>(index: map<nat, nat>, slots: map<nat, N>)
    requires IndexOk(index, slots)
    ensures D.Edges(index)
  {
  }

  lemma IndexListed<N>(items: seq<(Byte, N)>, ones: seq<nat>, index: map<nat, nat>, slots: map<nat, N>)
    requires B.Ascending(ones) && |items| == |ones| && D.Edges(index)
    requires forall p :: p in ones <==> p in index
    requires forall i :: 0 <= i < |items| ==>
               ones[i] in index && index[ones[i]] in slots && items[i] == (ones[i], slots[index[ones[i]]])
    ensures items == Listing(Through(index, slots), 0)
  {
    var m := Through(index, slots);
    forall k | k in m
      ensures (k, m[k]) in items
    {
      var i :| 0 <= i < |ones| && ones[i] == k;
      assert items[i] == (k, m[k]);
    }
    ListingUnique(items, Through(index, slots), 0);
  }
}
