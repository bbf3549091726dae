/** Searches in the sorted key array of a small node. */
module U8Keys {
  import opened Wrappers
  import opened Bytes

  /** The first `count` keys are strictly ascending. */
  ghost predicate SortedKeys(keys: seq<Byte>, count: nat) {
    count <= |keys| && forall i, j :: 0 <= i < j < count ==> keys[i] < keys[j]
  }

  /** The position of a key among the first `count`. */
  ghost predicate FoundAt(keys: seq<Byte>, count: nat, key: Byte, r: Option<nat>)
    requires count <= |keys|
  {
    match r
    case Some(i) => i < count && keys[i] == key
    case None => forall i :: 0 <= i < count ==> keys[i] != key
  }

  method BinaryFindKey(key: Byte, keys: array<Byte>, count: nat) returns (r: Option<nat>)
    requires SortedKeys(keys[..], count)
    ensures FoundAt(keys[..], count, key, r)
  {
    var left: nat, right: nat := 0, count;
    while left < right
      invariant left <= right <= count
      invariant forall i :: 0 <= i < left ==> keys[i] < key
      invariant forall i :: right <= i < count ==> keys[i] > key
    {
      var mid := (left + right) / 2;
      if keys[mid] < key {
        left := mid + 1;
      } else if keys[mid] == key {
        return Some(mid);
      } else {
        right := mid;
      }
    }
    r := None;
  }

  /** Linear search for narrow nodes, binary search for the others. */
  method FindKeyPositionSorted(width: nat, key: Byte, keys: array<Byte>, count: nat) returns (r: Option<nat>)
    requires SortedKeys(keys[..], count)
    ensures FoundAt(keys[..], count, key, r)
  {
    if width > 4 {
      r := BinaryFindKey(key, keys, count);
      return;
    }
    for i := 0 to count
      invariant forall j :: 0 <= j < i ==> keys[j] != key
    {
      if keys[i] == key {
        return Some(i);
      }
    }
    r := None;
  }

  /** The position before which a new key goes: keys below it stay left, larger ones go right. */
  method FindInsertPositionSorted(key: Byte, keys: array<Byte>, count: nat) returns (r: nat)
    requires SortedKeys(keys[..], count)
    ensures r <= count
    ensures forall i :: 0 <= i < r ==> keys[i] <= key
    ensures forall i :: r <= i < count ==> key < keys[i]
  {
    for i := 0 to count
      invariant forall j :: 0 <= j < i ==> keys[j] <= key
    {
      if key < keys[i] {
        assert forall j :: i <= j < count ==> keys[..][i] <= keys[..][j];
        return i;
      }
    }
    r := count;
  }
}
