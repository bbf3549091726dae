/**
 Comparing a key that is shown in segments with a slice. Equality is exact. The order
 is decided as soon as one segment ends before the slice does, although the segments
 after it may still put the key above the slice.
 */
module SegmentOrder {
  import opened Bytes
  import L = Lending

  datatype Order = Before | Same | After

  /** The order of the joined keys. */
  function Compare(a: Key, b: Key): (r: Order)
    ensures r.Before? <==> Less(a, b)
    ensures r.Same? <==> a == b
    ensures r.After? <==> Less(b, a)
  {
    LessTotal(a, b);
    LessIrreflexive(a);
    assert Less(a, b) ==> !Less(b, a) by {
      if Less(a, b) {
        LessAsymmetric(a, b);
      }
    }
    if a == b then Same else if Less(a, b) then Before else After
  }

  /** Does the first segment end within the slice, with nothing in between to tell them apart? */
  predicate EndsWithin(segments: seq<Key>, slice: Key) {
    segments != [] && segments[0] < slice
  }

  /** What the segment-wise comparison answers. */
  function Verdict(segments: seq<Key>, slice: Key): Order {
    if EndsWithin(segments, slice) then Before else Compare(L.Join(segments), slice)
  }

  lemma FirstOfJoin(segments: seq<Key>)
    requires segments != []
    ensures segments[0] <= L.Join(segments) && L.Join(segments[..1]) == segments[0]
  {
    L.JoinTake(segments, 1);
    assert segments[..1][..0] == [];
    assert L.Join(segments[..1]) == [] + segments[0];
  }

  /**
   The comparison is right if and only if the first segment does not end within the
   slice, or what follows it in the key stays below what follows it in the slice.
   */
  lemma VerdictExact(segments: seq<Key>, slice: Key)
    ensures Verdict(segments, slice) == Compare(L.Join(segments), slice) <==>
            (EndsWithin(segments, slice) ==>
               segments[0] <= L.Join(segments)
               && Less(L.Join(segments)[|segments[0]|..], slice[|segments[0]|..]))
  {
    if EndsWithin(segments, slice) {
      var first, key := segments[0], L.Join(segments);
      FirstOfJoin(segments);
      LessPrepend(first, key[|first|..], slice[|first|..]);
      assert first + key[|first|..] == key && first + slice[|first|..] == slice;
      LessIrreflexive(key);
    }
  }

  /** The key ac, shown as a and c, is above the slice ab, but is said to be below it. */
  lemma VerdictCounterexample()
    ensures var segments, slice := [[97], [99]], [97, 98];
            Compare(L.Join(segments), slice) == After && Verdict(segments, slice) == Before
  {
    var segments: seq<Key> := [[97], [99]];
    assert segments[..1] == [[97]];
    assert [[97]][..0] == [];
    assert L.Join([[97]]) == [97];
    assert L.Join(segments) == [97, 99];
    var key: Key := [97, 99];
    assert key[1..] == [99];
  }

  /** A key shown in one segment is always compared correctly. */
  lemma OneSegmentExact(segment: Key, slice: Key)
    ensures Verdict([segment], slice) == Compare(segment, slice)
  {
    FirstOfJoin([segment]);
    assert [segment][..1] == [segment];
    if segment < slice {
      LessPrepend(segment, [], slice[|segment|..]);
      assert segment + [] == segment && segment + slice[|segment|..] == slice;
    }
  }

  /** Where two keys part within equally long first parts, those parts decide. */
  lemma PartsDecide(a: Key, b: Key, n: nat)
    requires n <= |a| && n <= |b| && a[..n] != b[..n]
    ensures Compare(a, b) == Compare(a[..n], b[..n])
  {
    hide Less;
    var at := CommonPrefix(a[..n], b[..n]);
    var p := a[..n][..at];
    assert a[..n][..n] == a[..n] && b[..n][..n] == b[..n];
    assert a == p + a[at..] && b == p + b[at..];
    assert a[..n] == p + a[at..n] && b[..n] == p + b[at..n];
    FirstByteDecides(p, a[at..], b[at..]);
    FirstByteDecides(p, a[at..n], b[at..n]);
  }

  lemma FirstByteDecides(p: Key, a: Key, b: Key)
    requires a != [] && b != [] && a[0] != b[0]
    ensures Less(p + a, p + b) <==> a[0] < b[0]
    ensures p + a != p + b
  {
    LessPrepend(p, a, b);
    assert (p + a)[|p|] != (p + b)[|p|];
  }

  lemma LongerIsAfter(key: Key, slice: Key)
    requires slice < key
    ensures Compare(key, slice) == After
  {
    LessPrepend(slice, key[|slice|..], []);
    assert slice + key[|slice|..] == key && slice + [] == slice;
  }

  lemma SameParts(a: Key, b: Key)
    ensures Compare(a, b) == Same <==> a == b
  {
  }

  lemma NoSegments(segments: seq<Key>)
    ensures segments[..0] == [] && L.Join(segments[..0]) == []
  {
  }

  /** The segments compared so far, and the next one. */
  lemma NextSegment(segments: seq<Key>, i: nat)
    requires i < |segments|
    ensures L.Join(segments[..i + 1]) == L.Join(segments[..i]) + segments[i]
  {
    var next := segments[..i + 1];
    assert next[..i] == segments[..i] && next[i] == segments[i];
  }

  lemma FirstParts(segments: seq<Key>, slice: Key, common: nat)
    requires segments != [] && common <= |segments[0]| && common <= |slice|
    requires common == |segments[0]| || common == |slice|
    requires segments[0][..common] != slice[..common]
    ensures Verdict(segments, slice) == Compare(segments[0][..common], slice[..common])
  {
    hide L.Join, Compare;
    var key := L.Join(segments);
    FirstOfJoin(segments);
    assert key[..common] == segments[0][..common];
    PartsDecide(key, slice, common);
  }

  /** A segment that reaches beyond the end of the slice. */
  lemma Overhang(segments: seq<Key>, i: nat, offset: nat, slice: Key)
    requires i < |segments| && offset <= |slice| && L.Join(segments[..i]) == slice[..offset]
    requires slice[offset..] < segments[i] && !EndsWithin(segments, slice)
    ensures Verdict(segments, slice) == After
  {
    hide L.Join, Compare;
    NextSegment(segments, i);
    L.JoinTake(segments, i + 1);
    var reached := L.Join(segments[..i + 1]);
    assert reached[..|slice|] == slice[..offset] + slice[offset..] == slice;
    assert slice < reached <= L.Join(segments);
    LongerIsAfter(L.Join(segments), slice);
  }

  method EqSlice(segments: seq<Key>, len: nat, slice: Key) returns (equal: bool)
    requires len == |L.Join(segments)|
    ensures equal <==> L.Join(segments) == slice
  {
    if len != |slice| {
      return false;
    }
    var offset := 0;
    for i := 0 to |segments|
      invariant offset == |L.Join(segments[..i])| && L.Join(segments[..i]) <= L.Join(segments)
      invariant offset <= |slice| && L.Join(segments[..i]) == slice[..offset]
    {
      hide L.Join;
      NextSegment(segments, i);
      L.JoinTake(segments, i + 1);
      ghost var key := L.Join(segments);
      var end := offset + |segments[i]|;
      assert key[..end] == L.Join(segments[..i + 1]);
      if slice[offset..end] != segments[i] {
        assert key[offset..end] == segments[i];
        return false;
      }
      assert slice[..end] == slice[..offset] + slice[offset..end];
      offset := end;
    }
    assert segments[..|segments|] == segments;
    equal := true;
  }

  method CmpSlice(segments: seq<Key>, len: nat, slice: Key) returns (order: Order)
    requires len == |L.Join(segments)|
    ensures order == Verdict(segments, slice)
  {
    var offset := 0;
    NoSegments(segments);
    for i := 0 to |segments|
      invariant offset <= |slice| && L.Join(segments[..i]) == slice[..offset] && offset <= len
      invariant i > 0 ==> offset == |slice| && !EndsWithin(segments, slice)
    {
      hide L.Join, Compare, Less;
      FirstOfJoin(segments);
      NextSegment(segments, i);
      L.JoinTake(segments, i + 1);
      assert i == 0 ==> segments[..i] == [] && offset == 0 by {
        NoSegments(segments);
      }
      var segment, remaining := segments[i], slice[offset..];
      var common := if |segment| <= |remaining| then |segment| else |remaining|;
      var parts := Compare(segment[..common], remaining[..common]);
      if parts != Same {
        FirstParts(segments, slice, common);
        return parts;
      }
      SameParts(segment[..common], remaining[..common]);
      assert slice[offset..][..common] == slice[offset..offset + common];
      if |segment| != common {
        Overhang(segments, i, offset, slice);
        return After;
      }
      if |remaining| != common {
        return Before;
      }
      assert segment == remaining;
      offset := offset + common;
    }
    assert segments[..|segments|] == segments;
    order := if len < |slice| then Before else if len == |slice| then Same else After;
  }
}
