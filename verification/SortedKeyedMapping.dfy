/** The layout of small nodes: a sorted key array and a child array, shifted in parallel. */
module SortedKeyedMapping {
  import opened Wrappers
  import opened Bytes
  import opened ChildMap
  import U = U8Keys

  class SortedKeyedMapping<N> {
    const keys: array<Byte>
    const children: array<Option<N>>
    var numChildren: nat

    ghost predicate Valid()
      reads this, keys, children
    {
      && keys.Length == children.Length && numChildren <= keys.Length
      && Strict(keys[..numChildren]) && AllSome(children[..numChildren])
      && (forall i :: numChildren <= i < children.Length ==> children[i].None?)
    }

    /** The map that the live parts of the two arrays form. */
    ghost function Contents(): map<Byte, N>
      requires Valid()
      reads this, keys, children
    {
      Assoc(keys[..numChildren], children[..numChildren])
    }

    constructor (width: nat)
      ensures Valid() && Contents() == map[] && keys.Length == width && numChildren == 0
      ensures fresh(keys) && fresh(children)
    {
      keys := new Byte[width](_ => 255);
      children := new Option<N>[width](_ => None);
      numChildren := 0;
    }

    /** The count is the size of the map. */
    lemma CountOk()
      requires Valid()
      ensures |Contents()| == numChildren
    {
      AssocSize(keys[..numChildren], children[..numChildren]);
    }

    method FindKey(key: Byte) returns (r: Option<nat>)
      requires Valid()
      ensures r.Some? <==> key in Contents()
      ensures r.Some? ==> r.value < numChildren && keys[r.value] == key && children[r.value] == Some(Contents()[key])
    {
      hide Assoc;
      assert forall i :: 0 <= i < numChildren ==> keys[i] == keys[..numChildren][i];
      r := U.FindKeyPositionSorted(keys.Length, key, keys, numChildren);
      ghost var at := AssocHas(keys[..numChildren], children[..numChildren], key);
      if r.Some? {
        AssocEntry(keys[..numChildren], children[..numChildren], r.value);
      }
    }

    method SeekChild(key: Byte) returns (r: Option<N>)
      requires Valid()
      ensures r == if key in Contents() then Some(Contents()[key]) else None
    {
      hide Assoc;
      var idx := FindKey(key);
      r := if idx.Some? then children[idx.value] else None;
    }

    method AddChild(key: Byte, node: N)
      requires Valid() && numChildren < keys.Length && key !in Contents()
      modifies this, keys, children
      ensures Valid() && Contents() == old(Contents())[key := node] && numChildren == old(numChildren) + 1
    {
      hide Assoc, Strict, InsertAt;
      ghost var ks, cs := keys[..numChildren], children[..numChildren];
      assert forall i :: 0 <= i < numChildren ==> keys[i] == ks[i];
      KeysSorted();
      var idx := U.FindInsertPositionSorted(key, keys, numChildren);
      ghost var at := AssocHas(ks, cs, key);
      assert Between(ks, idx, key);
      AssocInsert(ks, cs, idx, key, node);
      InsertSlot(idx, key, node);
    }

    /** Appends a key that is larger than all others. */
    method AddChildSorted(key: Byte, node: N)
      requires Valid() && numChildren < keys.Length
      requires numChildren == 0 || keys[numChildren - 1] < key
      modifies this, keys, children
      ensures Valid() && Contents() == old(Contents())[key := node] && numChildren == old(numChildren) + 1
    {
      ghost var ks, cs := keys[..numChildren], children[..numChildren];
      LastLargest(ks, key);
      hide Assoc, Strict;
      AssocInsert(ks, cs, numChildren, key, node);
      var idx := numChildren;
      keys[idx] := key;
      children[idx] := Some(node);
      numChildren := numChildren + 1;
      assert keys[..numChildren] == InsertAt(ks, idx, key);
      assert children[..numChildren] == InsertAt(cs, idx, Some(node));
    }

    lemma KeysSorted()
      requires numChildren <= keys.Length && Strict(keys[..numChildren])
      ensures U.SortedKeys(keys[..], numChildren)
    {
      assert forall i :: 0 <= i < numChildren ==> keys[i] == keys[..numChildren][i];
    }

    /** Moves the slots from `idx` on up by one and fills the gap. */
    method InsertSlot(idx: nat, key: Byte, node: N)
      requires keys.Length == children.Length && idx <= numChildren < keys.Length
      modifies this, keys, children
      ensures numChildren == old(numChildren) + 1
      ensures keys[..numChildren] == InsertAt(old(keys[..numChildren]), idx, key)
      ensures children[..numChildren] == InsertAt(old(children[..numChildren]), idx, Some(node))
      ensures forall j :: numChildren <= j < children.Length ==> children[j] == old(children[j])
    {
      ghost var ks, cs := keys[..numChildren], children[..numChildren];
      ShiftRight(idx);
      keys[idx] := key;
      children[idx] := Some(node);
      numChildren := numChildren + 1;
      InsertedSeq(ks, keys[..numChildren], idx, key);
      InsertedSeq(cs, children[..numChildren], idx, Some(node));
    }

    method ShiftRight(idx: nat)
      requires keys.Length == children.Length && idx <= numChildren < keys.Length
      modifies keys, children
      ensures forall j :: 0 <= j < keys.Length && (j < idx || j > numChildren) ==>
                keys[j] == old(keys[j]) && children[j] == old(children[j])
      ensures forall j :: idx < j <= numChildren ==> keys[j] == old(keys[j - 1]) && children[j] == old(children[j - 1])
    {
      for i := numChildren downto idx
        invariant forall j :: 0 <= j < keys.Length && (j < i || j > numChildren) ==>
                    keys[j] == old(keys[j]) && children[j] == old(children[j])
        invariant forall j :: i < j <= numChildren ==>
                    keys[j] == old(keys[j - 1]) && children[j] == old(children[j - 1])
      {
        keys[i + 1] := keys[i];
        children[i + 1] := children[i];
        children[i] := None;
      }
    }

    method DeleteChild(key: Byte) returns (r: Option<N>)
      requires Valid()
      modifies this, keys, children
      ensures Valid() && Contents() == old(Contents()) - {key}
      ensures r == if key in old(Contents()) then Some(old(Contents())[key]) else None
      ensures numChildren == if r.Some? then old(numChildren) - 1 else old(numChildren)
    {
      hide Assoc, Strict, RemoveAt;
      ghost var ks, cs, before := keys[..numChildren], children[..numChildren], Contents();
      var found := FindKey(key);
      if found.None? {
        assert before - {key} == before;
        return None;
      }
      AssocRemove(ks, cs, found.value);
      r := RemoveSlot(found.value);
    }

    /** Takes a slot out, moves those behind it down by one and clears the last. */
    method RemoveSlot(idx: nat) returns (r: Option<N>)
      requires keys.Length == children.Length && idx < numChildren <= keys.Length
      requires forall j :: numChildren <= j < children.Length ==> children[j].None?
      modifies this, keys, children
      ensures r == old(children[idx]) && numChildren == old(numChildren) - 1
      ensures keys[..numChildren] == RemoveAt(old(keys[..numChildren]), idx)
      ensures children[..numChildren] == RemoveAt(old(children[..numChildren]), idx)
      ensures forall j :: numChildren <= j < children.Length ==> children[j].None?
    {
      ghost var ks, cs := keys[..numChildren], children[..numChildren];
      r := children[idx];
      children[idx] := None;
      ShiftLeft(idx);
      keys[keys.Length - 1] := 255;
      children[keys.Length - 1] := None;
      numChildren := numChildren - 1;
      RemovedSeq(ks, keys[..numChildren], idx);
      RemovedSeq(cs, children[..numChildren], idx);
    }

    method ShiftLeft(idx: nat)
      requires keys.Length == children.Length && idx < keys.Length
      modifies keys, children
      ensures forall j :: 0 <= j < idx ==> keys[j] == old(keys[j]) && children[j] == old(children[j])
      ensures forall j :: idx <= j < keys.Length - 1 ==>
                keys[j] == old(keys[j + 1]) && children[j] == old(children[j + 1])
    {
      for i := idx to keys.Length - 1
        invariant forall j :: 0 <= j < keys.Length && (j < idx || j > i) ==>
                    keys[j] == old(keys[j]) && children[j] == old(children[j])
        invariant forall j :: idx <= j < i ==> keys[j] == old(keys[j + 1]) && children[j] == old(children[j + 1])
      {
        keys[i] := keys[i + 1];
        children[i] := children[i + 1];
        children[i + 1] := None;
      }
    }

    /** The only child is taken out together with its key. */
    method TakeValueForLeaf() returns (key: Byte, child: N)
      requires Valid() && numChildren == 1
      modifies this, children
      ensures old(Contents()) == map[key := child]
      ensures Valid() && Contents() == map[]
    {
      AssocEntry(keys[..1], children[..1], 0);
      child := children[0].value;
      children[0] := None;
      key := keys[0];
      numChildren := 0;
    }

    /** Lists the children by position, which is ascending by key. */
    method Iter() returns (items: seq<(Byte, N)>)
      requires Valid()
      ensures items == Listing(Contents(), 0)
    {
      items := [];
      for i := 0 to numChildren
        invariant |items| == i
        invariant forall j :: 0 <= j < i ==> items[j] == (keys[j], children[j].value)
      {
        items := items + [(keys[i], children[i].value)];
      }
      assert forall j :: 0 <= j < numChildren ==> items[j].0 == keys[..numChildren][j];
      assert forall j :: 0 <= j < numChildren ==> items[j].1 == children[..numChildren][j].value;
      ItemsListed(keys[..numChildren], children[..numChildren], items);
    }
  }

  lemma LastLargest(keys: seq<Byte>, key: Byte)
    requires Strict(keys) && (keys == [] || keys[|keys| - 1] < key)
    ensures Between(keys, |keys|, key)
  {
    assert forall i :: 0 <= i < |keys| - 1 ==> keys[i] < keys[|keys| - 1];
  }

  lemma InsertedSeq<T>(before: seq<T>, after: seq<T>, at: nat, x: T)
    requires at <= |before| && |after| == |before| + 1 && after[at] == x
    requires forall j :: 0 <= j < at ==> after[j] == before[j]
    requires forall j :: at < j < |after| ==> after[j] == before[j - 1]
    ensures after == InsertAt(before, at, x)
  {
  }

  lemma RemovedSeq<T>(before: seq<T>, after: seq<T>, at: nat)
    requires at < |before| && |after| == |before| - 1
    requires forall j :: 0 <= j < at ==> after[j] == before[j]
    requires forall j :: at <= j < |after| ==> after[j] == before[j + 1]
    ensures after == RemoveAt(before, at)
  {
  }

  lemma ItemsListed<N>(keys: seq<Byte>, children: seq<Option<N>>, items: seq<(Byte, N)>)
    requires |keys| == |children| == |items| && Strict(keys) && AllSome(children)
    requires forall j :: 0 <= j < |items| ==> items[j].0 == keys[j] && items[j].1 == children[j].value
    ensures items == Listing(Assoc(keys, children), 0)
  {
    hide Assoc;
    var m := Assoc(keys, children);
    forall j | 0 <= j < |items|
      ensures items[j].0 in m && items[j].1 == m[items[j].0]
    {
      AssocEntry(keys, children, j);
    }
    forall k | k in m
      ensures (k, m[k]) in items
    {
      var at := AssocHas(keys, children, k);
      assert items[at.value] == (k, m[k]);
    }
    ListingUnique(items, Assoc(keys, children), 0);
  }
}
