/** Range queries: an iterator that seeks to the start and is cut at the end bound. */
module Range {
  import opened Wrappers
  import opened Bytes
  import opened Node
  import opened Entries
  import opened Frames
  import opened Iter
  import T = Tree

  class Range<V> {
    const iter: Iter<V>
    const end: Bound

    ghost predicate Valid()
      reads this, iter, iter.children
    {
      iter.Valid()
    }

    /** The entries still to come: those of the iterator that meet the end bound. */
    ghost function Remaining(): seq<Entry<V>>
      requires Valid()
      reads this, iter, iter.children
    {
      Within(iter.Remaining(), Unbounded, end)
    }

    constructor ForIter(iter: Iter<V>, end: Bound)
      requires iter.Valid()
      ensures Valid() && this.iter == iter && this.end == end
    {
      this.iter, this.end := iter, end;
    }

    /** After the first None there are only Nones, although the inner iterator moves on. */
    method Next() returns (r: Option<Entry<V>>)
      requires Valid()
      modifies iter, iter.children
      ensures Valid()
      ensures Yields(old(Remaining()), r, Remaining())
      ensures r.Some? ==>
                && (end.Included? ==> r.value.key == end.key || Less(r.value.key, end.key))
                && (end.Excluded? ==> Less(r.value.key, end.key))
      ensures r.None? ==>
                forall e :: e in old(iter.Remaining()) ==>
                  && (end.Included? ==> Less(end.key, e.key))
                  && (end.Excluded? ==> e.key == end.key || Less(end.key, e.key))
                  && !end.Unbounded?
    {
      hide Sorted, Within;
      ghost var before := iter.Remaining();
      var next := iter.Next();
      ghost var after := iter.Remaining();
      CutHead(before, next, after, end);
      BeyondEnd(before, end);
      if next.None? || !BeforeEnd(end, next.value.key) {
        return None;
      }
      r := next;
    }
  }

  /** When nothing is left within the end bound, every entry lies beyond it. */
  lemma BeyondEnd<V>(es: seq<Entry<V>>, end: Bound)
    ensures Within(es, Unbounded, end) == [] ==>
              forall e :: e in es ==>
                && (end.Included? ==> Less(end.key, e.key))
                && (end.Excluded? ==> e.key == end.key || Less(end.key, e.key))
                && !end.Unbounded?
  {
    hide Within, Less;
    if Within(es, Unbounded, end) == [] {
      forall e | e in es
        ensures !BeforeEnd(end, e.key)
        ensures !end.Unbounded? ==> (e.key == end.key || Less(end.key, e.key) || Less(e.key, end.key))
      {
        WithinIn(es, Unbounded, end, e);
        if !end.Unbounded? {
          LessTotal(e.key, end.key);
        }
      }
    }
  }

  lemma CutHead<V>(before: seq<Entry<V>>, next: Option<Entry<V>>, after: seq<Entry<V>>, end: Bound)
    requires Sorted(before) && Yields(before, next, after)
    ensures next.None? ==> Within(before, Unbounded, end) == [] && Within(after, Unbounded, end) == []
    ensures next.Some? && BeforeEnd(end, next.value.key) ==>
              Within(before, Unbounded, end) == [next.value] + Within(after, Unbounded, end)
    ensures next.Some? && !BeforeEnd(end, next.value.key) ==>
              Within(before, Unbounded, end) == [] && Within(after, Unbounded, end) == []
  {
    if next.Some? {
      assert before[0] == next.value && before[1..] == after;
      if !BeforeEnd(end, next.value.key) {
        EndOnce(before, Unbounded, end);
      }
    }
  }

  lemma {:induction false} WithinTwice<V>(es: seq<Entry<V>>, start: Bound, end: Bound)
    ensures Within(Within(es, start, Unbounded), Unbounded, end) == Within(es, start, end)
  {
    if es != [] {
      var tail := Within(es[1..], start, Unbounded);
      WithinTwice(es[1..], start, end);
      if AfterStart(start, es[0].key) {
        assert ([es[0]] + tail)[1..] == tail;
      } else {
        assert [] + tail == tail;
      }
    }
  }

  /** All entries of a tree that may be empty. */
  ghost function Listing<V>(root: Option<Node<V>>): seq<Entry<V>> {
    if root.Some? then Entries.Entries(root.value) else []
  }

  /** `range` on a tree. */
  method RangeOf<V>(root: Option<Node<V>>, start: Bound, end: Bound) returns (range: Range<V>)
    requires root.Some? ==> WellFormed(root.value)
    ensures range.Valid() && fresh(range) && fresh(range.iter) && fresh(range.iter.children)
    ensures range.Remaining() == Within(Listing(root), start, end)
    ensures ListsWithin(range.Remaining(), T.RootView(root), start, end)
  {
    hide Sorted, Within, WellFormed, Entries.Entries, ListsWithin, T.RootView;
    InRange(root, start, end);
    ghost var all := Listing(root);
    WithinTwice(all, start, end);
    if start.Unbounded? {
      WithinAll(all, Unbounded, Unbounded);
      var iter := new Iter<V>.New(root);
      range := new Range<V>.ForIter(iter, end);
    } else {
      if root.None? {
        WithinNone(all, start, Unbounded);
      }
      var iter := new Iter<V>.NewWithStartBound(root, start);
      range := new Range<V>.ForIter(iter, end);
    }
  }

  method Drain<V>(range: Range<V>) returns (entries: seq<Entry<V>>)
    requires range.Valid()
    modifies range.iter, range.iter.children
    ensures entries == old(range.Remaining())
  {
    hide Within, Sorted, Pending, StackOk, IterInner.Remaining, IterInner.Valid, Iter.Remaining, Iter.Valid;
    entries := [];
    while true
      invariant range.Valid()
      invariant entries + range.Remaining() == old(range.Remaining())
      decreases |range.Remaining()|
    {
      ghost var before := range.Remaining();
      var next := range.Next();
      if next.None? {
        return;
      }
      assert entries + before == entries + [next.value] + range.Remaining();
      entries := entries + [next.value];
    }
  }

  /**
   An ascending listing of exactly the part of a map that lies within the bounds: an
   included bound admits its own key, an excluded one does not.
   */
  ghost predicate ListsWithin<V>(es: seq<Entry<V>>, m: map<Key, V>, start: Bound, end: Bound) {
    && (forall i, j :: 0 <= i < j < |es| ==> Less(es[i].key, es[j].key))
    && (forall e :: e in es ==>
          && e.key in m && m[e.key] == e.value
          && (start.Included? ==> e.key == start.key || Less(start.key, e.key))
          && (start.Excluded? ==> Less(start.key, e.key))
          && (end.Included? ==> e.key == end.key || Less(e.key, end.key))
          && (end.Excluded? ==> Less(e.key, end.key)))
    && (forall k ::
          (&& k in m
           && (start.Included? ==> k == start.key || Less(start.key, k))
           && (start.Excluded? ==> Less(start.key, k))
           && (end.Included? ==> k == end.key || Less(k, end.key))
           && (end.Excluded? ==> Less(k, end.key))) ==>
          Entry(k, m[k]) in es)
  }

  /** Running a range to its end yields exactly the entries within the bounds, in ascending order. */
  method Collect<V>(root: Option<Node<V>>, start: Bound, end: Bound) returns (entries: seq<Entry<V>>)
    requires root.Some? ==> WellFormed(root.value)
    ensures ListsWithin(entries, T.RootView(root), start, end)
  {
    hide ListsWithin, Within, Listing, T.RootView, WellFormed;
    var range := RangeOf(root, start, end);
    entries := Drain(range);
  }

  lemma InRange<V>(root: Option<Node<V>>, start: Bound, end: Bound)
    requires root.Some? ==> WellFormed(root.value)
    ensures ListsWithin(Within(Listing(root), start, end), T.RootView(root), start, end)
  {
    hide WellFormed, Within, View, Lookup, Entries.Entries, Less;
    var all, m := Listing(root), T.RootView(root);
    var es := Within(all, start, end);
    if root.None? {
      WithinNone(all, start, end);
      return;
    }
    EntriesSorted(root.value);
    WithinSorted(all, start, end);
    forall e | e in es
      ensures e.key in m && m[e.key] == e.value && AfterStart(start, e.key) && BeforeEnd(end, e.key)
    {
      WithinIn(all, start, end, e);
      EntriesLookup(root.value, e.key, e.value);
      ViewLookup(root.value, e.key);
    }
    forall k | k in m && AfterStart(start, k) && BeforeEnd(end, k)
      ensures Entry(k, m[k]) in es
    {
      WithinIn(all, start, end, Entry(k, m[k]));
      EntriesLookup(root.value, k, m[k]);
      ViewLookup(root.value, k);
    }
  }

}
