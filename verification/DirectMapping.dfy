/** The layout of the largest nodes: a slot for every byte. */
module DirectMapping {
  import opened Wrappers
  import opened Bytes
  import opened ChildMap
  import B = Bitset
  import A = BitArray

  /** Slots as edges. */
  ghost function ByEdge<N>(slots: map<nat, N>): map<Byte, N> {
    map k: Byte | k in slots :: slots[k]
  }

  ghost predicate Edges<N>(slots: map<nat, N>) {
    forall k :: k in slots ==> k < 256
  }

  lemma ByEdgeSet<N>(slots: map<nat, N>, key: Byte, child: N)
    ensures ByEdge(slots[key := child]) == ByEdge(slots)[key := child]
    ensures ByEdge(slots - {key}) == ByEdge(slots) - {key}
  {
  }

  lemma AbsentEdge<N>(slots: map<nat, N>, key: Byte)
    requires key !in slots
    ensures key !in ByEdge(slots) && ByEdge(slots) - {key} == ByEdge(slots)
  {
  }

  /** Sizes of the slot map and of the edge map agree. */
  lemma {:induction false} ByEdgeSize<N>(slots: map<nat, N>)
    requires Edges(slots)
    ensures |ByEdge(slots)| == |slots|
    decreases |slots|
  {
    if slots == map[] {
      assert ByEdge(slots) == map[];
    } else {
      var k :| k in slots;
      var key: Byte := k;
      ByEdgeSize(slots - {k});
      ByEdgeSet(slots, key, slots[k]);
      assert ByEdge(slots).Keys == ByEdge(slots - {k}).Keys + {key};
      assert slots.Keys == (slots - {k}).Keys + {k};
    }
  }

  class DirectMapping<N> {
    const children: A.BitArray<N>
    var numChildren: nat

    ghost predicate Valid()
      reads this, children, children.Repr()
    {
      && children.Valid() && children.storage.Length == 256
      && numChildren == |children.Slots()|
    }

    ghost function Contents(): map<Byte, N>
      reads children.Repr()
    {
      ByEdge(children.Slots())
    }

    constructor ()
      ensures Valid() && Contents() == map[] && numChildren == 0
      ensures fresh(children) && fresh(children.Repr())
    {
      children := new A.BitArray<N>(256, 4, 64);
      numChildren := 0;
    }

    lemma CountOk()
      requires Valid()
      ensures |Contents()| == numChildren
    {
      ByEdgeSize(children.Slots());
    }

    method SeekChild(key: Byte) returns (r: Option<N>)
      requires Valid()
      ensures r == if key in Contents() then Some(Contents()[key]) else None
    {
      r := children.Get(key);
    }

    method AddChild(key: Byte, node: N)
      requires Valid() && key !in Contents()
      modifies this, children.Repr()
      ensures Valid() && Contents() == old(Contents())[key := node] && numChildren == old(numChildren) + 1
    {
      ghost var slots := children.Slots();
      ByEdgeSet(slots, key, node);
      children.Set(key, node);
      numChildren := numChildren + 1;
      assert slots[key as nat := node].Keys == slots.Keys + {key as nat};
    }

    method DeleteChild(key: Byte) returns (r: Option<N>)
      requires Valid()
      modifies this, children.Repr()
      ensures Valid() && Contents() == old(Contents()) - {key}
      ensures r == if key in old(Contents()) then Some(old(Contents())[key]) else None
      ensures numChildren == if r.Some? then old(numChildren) - 1 else old(numChildren)
    {
      hide B.Ones, A.BitArray.Valid;
      var present := children.Check(key);
      if !present {
        AbsentEdge(children.Slots(), key);
        return None;
      }
      var child := DeletePresent(key);
      r := Some(child);
    }

    method DeletePresent(key: Byte) returns (child: N)
      requires Valid() && key in children.Slots()
      modifies this, children.Repr()
      ensures Valid() && Contents() == old(Contents()) - {key} && numChildren == old(numChildren) - 1
      ensures key in old(Contents()) && child == old(Contents())[key]
    {
      hide B.Ones, A.BitArray.Valid, A.BitArray.Slots;
      ghost var slots := children.Slots();
      ByEdgeSet(slots, key, slots[key as nat]);
      assert slots.Keys == (slots - {key as nat}).Keys + {key as nat};
      numChildren := numChildren - 1;
      var erased := children.Erase(key);
      child := erased.value;
    }

    /** Follows the ones of the bitset: ascending edges. */
    method Iter() returns (items: seq<(Byte, N)>)
      requires Valid()
      ensures items == Listing(Contents(), 0)
    {
      hide B.Ones;
      var ones := B.Positions(children.bitset);
      items := [];
      for i := 0 to |ones|
        invariant |items| == i
        invariant forall j :: 0 <= j < i ==>
                    ones[j] in children.Slots() && items[j] == (ones[j], children.Slots()[ones[j]])
      {
        assert ones[i] in ones;
        var child := children.Get(ones[i]);
        items := items + [(ones[i], child.value)];
      }
      SlotsListed(items, ones, children.Slots());
    }

    method CloneMapping() returns (copy: DirectMapping<N>)
      requires Valid()
      ensures copy.Valid() && fresh(copy) && fresh(copy.children) && fresh(copy.children.Repr())
      ensures copy.Contents() == Contents() && copy.numChildren == numChildren
    {
      var slots := children.CloneLiveSlots();
      copy := new DirectMapping<N>.FromParts(slots, numChildren);
    }

    constructor FromParts(children: A.BitArray<N>, numChildren: nat)
      requires children.Valid() && children.storage.Length == 256 && numChildren == |children.Slots()|
      ensures this.children == children && this.numChildren == numChildren
      ensures Valid() && Contents() == ByEdge(children.Slots())
    {
      this.children, this.numChildren := children, numChildren;
    }
  }

  lemma SlotsListed<N>(items: seq<(Byte, N)>, ones: seq<nat>, slots: map<nat, N>)
    requires B.Ascending(ones) && |items| == |ones| && Edges(slots)
    requires forall p :: p in ones <==> p in slots
    requires forall i :: 0 <= i < |items| ==> ones[i] in slots && items[i] == (ones[i], slots[ones[i]])
    ensures items == Listing(ByEdge(slots), 0)
  {
    var m := ByEdge(slots);
    forall k | k in m
      ensures (k, m[k]) in items
    {
      var i :| 0 <= i < |ones| && ones[i] == k;
      assert items[i] == (k, m[k]);
    }
    ListingUnique(items, ByEdge(slots), 0);
  }
}
