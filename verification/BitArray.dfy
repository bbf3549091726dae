/** An array of slots in which a bitset marks the live ones. */
module BitArray {
  import opened Wrappers
  import B = Bitset

  class BitArray<X> {
    const bitset: B.Bitset
    const storage: array<Option<X>>

    /** The objects behind the slots. */
    ghost function Repr(): set<object> {
      {bitset, bitset.bitset, storage}
    }

    /** A slot is initialized exactly when its bit is set; the bitset may be wider than the array. */
    ghost predicate Valid()
      reads this, bitset, bitset.bitset, storage
    {
      && bitset.Valid() && storage.Length <= bitset.Capacity()
      && (forall i :: 0 <= i < storage.Length ==> (storage[i].Some? <==> i in bitset.Contents()))
      && (forall p :: p in bitset.Contents() ==> p < storage.Length)
    }

    /** The live slots. */
    ghost function Slots(): map<nat, X>
      reads storage
    {
      map i: nat | i < storage.Length && storage[i].Some? :: storage[i].value
    }

    /** The set positions are the live slots. */
    lemma LiveSlots()
      requires Valid()
      ensures bitset.Valid() && forall p :: p in bitset.Contents() <==> p in Slots()
    {
    }

    constructor (range: nat, words: nat, width: nat)
      requires width > 0 && range <= words * width
      ensures Valid() && Slots() == map[] && storage.Length == range && bitset.Capacity() == words * width
      ensures fresh(bitset) && fresh(bitset.bitset) && fresh(storage)
    {
      bitset := new B.Bitset(words, width);
      storage := new Option<X>[range](_ => None);
    }

    method Check(pos: nat) returns (r: bool)
      requires Valid() && pos < storage.Length
      ensures r <==> pos in Slots()
    {
      r := bitset.Check(pos);
    }

    method Get(pos: nat) returns (r: Option<X>)
      requires Valid() && pos < storage.Length
      ensures r == if pos in Slots() then Some(Slots()[pos]) else None
    {
      var present := bitset.Check(pos);
      r := if present then storage[pos] else None;
    }

    method Set(pos: nat, x: X)
      requires Valid() && pos < storage.Length
      modifies bitset.bitset, storage
      ensures Valid() && Slots() == old(Slots())[pos := x]
    {
      storage[pos] := Some(x);
      bitset.Set(pos);
    }

    /** Takes the value out of the slot, if there is one. */
    method TakeInternal(pos: nat) returns (taken: Option<X>)
      requires Valid() && pos < storage.Length
      modifies storage
      ensures taken == old(storage[pos])
      ensures storage[..] == old(storage[..])[pos := None]
    {
      var present := bitset.Check(pos);
      taken := if present then storage[pos] else None;
      storage[pos] := None;
    }

    method Update(pos: nat, x: X) returns (previous: Option<X>)
      requires Valid() && pos < storage.Length
      modifies bitset.bitset, storage
      ensures Valid() && Slots() == old(Slots())[pos := x]
      ensures previous == if pos in old(Slots()) then Some(old(Slots())[pos]) else None
    {
      previous := TakeInternal(pos);
      storage[pos] := Some(x);
      bitset.Set(pos);
    }

    method Erase(pos: nat) returns (previous: Option<X>)
      requires Valid() && pos < storage.Length
      modifies bitset.bitset, storage
      ensures Valid() && Slots() == old(Slots()) - {pos}
      ensures previous == if pos in old(Slots()) then Some(old(Slots())[pos]) else None
    {
      ghost var slots := storage[..];
      previous := TakeInternal(pos);
      if previous.None? {
        assert storage[..] == slots;
        return;
      }
      bitset.Unset(pos);
    }

    /** The smallest live slot. */
    method FirstUsed() returns (r: Option<nat>)
      requires Valid()
      ensures r.Some? ==> r.value in Slots() && forall q :: q in Slots() ==> r.value <= q
      ensures r.None? ==> Slots() == map[]
    {
      r := bitset.FirstSet();
    }

    /** The smallest free slot within the range, however wide the bitset is. */
    method FirstEmpty() returns (r: Option<nat>)
      requires Valid()
      ensures r.Some? ==> r.value < storage.Length && r.value !in Slots()
      ensures r.Some? ==> forall q :: 0 <= q < r.value ==> q in Slots()
      ensures r.None? ==> forall q :: 0 <= q < storage.Length ==> q in Slots()
    {
      r := bitset.FirstEmpty();
      if r.Some? && r.value >= storage.Length {
        r := None;
      }
      var bound := if r.None? then storage.Length else r.value;
      forall q: nat | q < bound
        ensures q in Slots()
      {
        assert q in bitset.Contents();
      }
    }

    /** Takes the last live slot. */
    method Pop() returns (r: Option<X>)
      requires Valid()
      modifies bitset.bitset, storage
      ensures Valid()
      ensures r.None? ==> old(Slots()) == map[] && Slots() == map[]
      ensures r.Some? ==>
                exists pos :: pos in old(Slots()) && (forall q :: q in old(Slots()) ==> q <= pos)
                  && r.value == old(Slots())[pos] && Slots() == old(Slots()) - {pos}
    {
      var last := bitset.Last();
      if last.None? {
        return None;
      }
      ghost var slots := Slots();
      assert last.value in slots;
      r := TakeInternal(last.value);
      bitset.Unset(last.value);
      assert Slots() == slots - {last.value};
    }

    method Clear()
      requires Valid()
      modifies bitset.bitset, storage
      ensures Valid() && Slots() == map[]
    {
      ghost var positions := bitset.Contents();
      for i := 0 to storage.Length
        invariant bitset.Valid() && bitset.Contents() == positions
        invariant forall j :: 0 <= j < i ==> storage[j].None?
        invariant forall j :: i <= j < storage.Length ==> storage[j] == old(storage[j])
      {
        var present := bitset.Check(i);
        if present {
          storage[i] := None;
        }
      }
      bitset.Clear();
    }

    /** A copy of the live slots; the two share nothing. */
    method CloneLiveSlots() returns (cloned: BitArray<X>)
      requires Valid()
      ensures cloned.Valid() && fresh(cloned) && fresh(cloned.bitset) && fresh(cloned.bitset.bitset)
      ensures fresh(cloned.storage)
      ensures cloned.Slots() == Slots() && cloned.storage.Length == storage.Length
      ensures cloned.bitset.Capacity() == bitset.Capacity()
    {
      cloned := new BitArray<X>(storage.Length, bitset.bitset.Length, bitset.width);
      hide Valid, Slots;
      for pos := 0 to storage.Length
        invariant Valid() && cloned.Valid() && fresh(cloned.bitset.bitset) && fresh(cloned.storage)
        invariant cloned.Slots() == Below(Slots(), pos)
      {
        var x := Get(pos);
        if x.Some? {
          cloned.Set(pos, x.value);
        }
        BelowNext(Slots(), pos);
      }
      AllBelow();
    }

    lemma AllBelow()
      ensures Below(Slots(), storage.Length) == Slots()
    {
    }
  }

  ghost function Below<X>(m: map<nat, X>, n: nat): map<nat, X> {
    map k | k in m && k < n :: m[k]
  }

  lemma BelowNext<X>(m: map<nat, X>, n: nat)
    ensures Below(m, n + 1) == if n in m then Below(m, n)[n := m[n]] else Below(m, n)
  {
  }
}
