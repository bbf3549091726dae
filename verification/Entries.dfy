/**
 The entries of a tree in ascending key order, and the finite map they form.
 This is what every traversal is compared with.
 */
module Entries {
  import opened Wrappers
  import opened Bytes
  import opened Node

  datatype Entry<+V> = Entry(key: Key, value: V)

  function Prepend<V>(p: Key, es: seq<Entry<V>>): (r: seq<Entry<V>>)
    ensures |r| == |es|
    ensures forall i :: 0 <= i < |es| ==> r[i] == Entry(p + es[i].key, es[i].value)
  {
    seq(|es|, i requires 0 <= i < |es| => Entry(p + es[i].key, es[i].value))
  }

  function Own<V>(n: Node<V>): seq<Entry<V>> {
    if n.value.Some? then [Entry([], n.value.value)] else []
  }

  /** All entries below `n`: its own value first, then its children by edge byte. */
  ghost function Entries<V>(n: Node<V>): seq<Entry<V>>
    decreases n, 257
  {
    Prepend(n.prefix, Own(n) + ChildEntries(n, 0))
  }

  /** The entries of the children under edges from `from` on, relative to the end of `n`. */
  ghost function ChildEntries<V>(n: Node<V>, from: nat): seq<Entry<V>>
    requires from <= 256
    decreases n, 256 - from
  {
    if from == 256 then []
    else (if from in Kids(n) then Entries(Kids(n)[from]) else []) + ChildEntries(n, from + 1)
  }

  lemma {:induction false} SameContent<V>(n: Node<V>, m: Node<V>, from: nat)
    requires n.content == m.content && from <= 256
    ensures ChildEntries(n, from) == ChildEntries(m, from)
    decreases 256 - from
  {
    if from < 256 {
      SameContent(n, m, from + 1);
    }
  }

  ghost predicate Sorted<V>(es: seq<Entry<V>>) {
    forall i, j :: 0 <= i < j < |es| ==> Less(es[i].key, es[j].key)
  }

  lemma PrependIn<V>(p: Key, es: seq<Entry<V>>, q: Key, v: V)
    ensures Entry(q, v) in Prepend(p, es) <==> p <= q && Entry(q[|p|..], v) in es
  {
    var r := Prepend(p, es);
    if Entry(q, v) in r {
      var i :| 0 <= i < |r| && r[i] == Entry(q, v);
      assert q[|p|..] == es[i].key;
    }
    if p <= q && Entry(q[|p|..], v) in es {
      var i :| 0 <= i < |es| && es[i] == Entry(q[|p|..], v);
      assert r[i].key == q;
    }
  }

  lemma PrependAppend<V>(p: Key, s: seq<Entry<V>>, t: seq<Entry<V>>)
    ensures Prepend(p, s + t) == Prepend(p, s) + Prepend(p, t)
  {
  }

  lemma PrependPrepend<V>(p: Key, q: Key, es: seq<Entry<V>>)
    ensures Prepend(p, Prepend(q, es)) == Prepend(p + q, es)
  {
    assert forall i :: 0 <= i < |es| ==> p + (q + es[i].key) == (p + q) + es[i].key;
  }

  lemma PrependNothing<V>(es: seq<Entry<V>>)
    ensures Prepend([], es) == es
  {
    assert forall i :: 0 <= i < |es| ==> [] + es[i].key == es[i].key;
  }

  lemma PrependSorted<V>(p: Key, es: seq<Entry<V>>)
    ensures Sorted(Prepend(p, es)) <==> Sorted(es)
  {
    var r := Prepend(p, es);
    forall i, j | 0 <= i < j < |es|
      ensures Less(r[i].key, r[j].key) <==> Less(es[i].key, es[j].key)
    {
      LessPrepend(p, es[i].key, es[j].key);
    }
  }

  lemma AppendSorted<V>(s: seq<Entry<V>>, t: seq<Entry<V>>)
    requires Sorted(s) && Sorted(t)
    requires forall i, j :: 0 <= i < |s| && 0 <= j < |t| ==> Less(s[i].key, t[j].key)
    ensures Sorted(s + t)
  {
  }

  /** An entry is listed exactly when looking up its key finds its value. */
  lemma {:induction false} EntriesLookup<V>(n: Node<V>, q: Key, v: V)
    requires WellFormed(n)
    ensures Entry(q, v) in Entries(n) <==> Lookup(n, q) == Some(v)
    decreases n, 257
  {
    PrependIn(n.prefix, Own(n) + ChildEntries(n, 0), q, v);
    if n.prefix <= q {
      ChildEntriesLookup(n, 0, q[|n.prefix|..], v);
    }
  }

  lemma {:induction false} ChildEntriesLookup<V>(n: Node<V>, from: nat, q: Key, v: V)
    requires WellFormed(n) && from <= 256
    ensures Entry(q, v) in ChildEntries(n, from) <==>
            q != [] && q[0] >= from && q[0] in Kids(n) && Lookup(Kids(n)[q[0]], q) == Some(v)
    decreases n, 256 - from
  {
    if from < 256 {
      ChildEntriesLookup(n, from + 1, q, v);
      if from in Kids(n) {
        EntriesLookup(Kids(n)[from], q, v);
      }
    }
  }

  /** The entries are listed in strictly ascending key order. */
  lemma {:induction false} EntriesSorted<V>(n: Node<V>)
    requires WellFormed(n)
    ensures Sorted(Entries(n))
    decreases n, 257
  {
    ChildEntriesSorted(n, 0);
    AppendSorted(Own(n), ChildEntries(n, 0));
    PrependSorted(n.prefix, Own(n) + ChildEntries(n, 0));
  }

  lemma {:induction false} ChildEntriesSorted<V>(n: Node<V>, from: nat)
    requires WellFormed(n) && from <= 256
    ensures Sorted(ChildEntries(n, from))
    ensures forall i :: 0 <= i < |ChildEntries(n, from)| ==>
              ChildEntries(n, from)[i].key != [] && ChildEntries(n, from)[i].key[0] >= from
    decreases n, 256 - from
  {
    if from < 256 {
      ChildEntriesSorted(n, from + 1);
      if from in Kids(n) {
        EntriesSorted(Kids(n)[from]);
        EntriesEdge(Kids(n)[from], from);
        AppendSorted(Entries(Kids(n)[from]), ChildEntries(n, from + 1));
      }
    }
  }

  lemma EntriesEdge<V>(n: Node<V>, k: Byte)
    requires EdgeOk(k, n)
    ensures forall i :: 0 <= i < |Entries(n)| ==> Entries(n)[i].key != [] && Entries(n)[i].key[0] == k
  {
  }

  // ----- The map a tree stores -----

  ghost function KeySet<V>(es: seq<Entry<V>>): set<Key> {
    set i | 0 <= i < |es| :: es[i].key
  }

  lemma {:induction false} KeySetSize<V>(es: seq<Entry<V>>)
    requires Sorted(es)
    ensures |KeySet(es)| == |es|
    decreases |es|
  {
    if es == [] {
      assert KeySet(es) == {};
    } else {
      var init := es[..|es| - 1];
      var last := es[|es| - 1];
      KeySetSize(init);
      KeySetSnoc(init, last);
      assert init + [last] == es;
      forall i | 0 <= i < |init|
        ensures init[i].key != last.key
      {
        LessIrreflexive(last.key);
        assert Less(es[i].key, es[|es| - 1].key);
      }
    }
  }

  lemma KeySetSnoc<V>(es: seq<Entry<V>>, e: Entry<V>)
    ensures KeySet(es + [e]) == KeySet(es) + {e.key}
  {
    var all := es + [e];
    assert all[|es|].key in KeySet(all);
    forall k | k in KeySet(es)
      ensures k in KeySet(all)
    {
      var i :| 0 <= i < |es| && es[i].key == k;
      assert all[i].key == k;
    }
  }

  /** The finite map stored in a tree. */
  ghost function View<V>(n: Node<V>): map<Key, V> {
    map q | q in KeySet(Entries(n)) && Lookup(n, q).Some? :: Lookup(n, q).value
  }

  ghost predicate Stores<V>(m: map<Key, V>, q: Key, o: Option<V>) {
    if q in m then o == Some(m[q]) else o == None
  }

  lemma ViewLookup<V>(n: Node<V>, q: Key)
    requires WellFormed(n)
    ensures Stores(View(n), q, Lookup(n, q))
  {
    if Lookup(n, q).Some? {
      EntriesLookup(n, q, Lookup(n, q).value);
      var i :| 0 <= i < |Entries(n)| && Entries(n)[i] == Entry(q, Lookup(n, q).value);
      assert Entries(n)[i].key in KeySet(Entries(n));
    }
  }

  /** The number of entries is the size of the map. */
  lemma ViewSize<V>(n: Node<V>)
    requires WellFormed(n)
    ensures |View(n)| == |Entries(n)|
  {
    EntriesSorted(n);
    KeySetSize(Entries(n));
    forall q | q in KeySet(Entries(n))
      ensures Lookup(n, q).Some?
    {
      var i :| 0 <= i < |Entries(n)| && Entries(n)[i].key == q;
      assert Entries(n)[i] == Entry(q, Entries(n)[i].value);
      EntriesLookup(n, q, Entries(n)[i].value);
    }
    assert View(n).Keys == KeySet(Entries(n));
  }

  /** A tree is described by what it answers: equal answers, equal maps. */
  lemma ViewFromLookup<V>(n: Node<V>, m: map<Key, V>)
    requires WellFormed(n)
    requires forall q :: Stores(m, q, Lookup(n, q))
    ensures View(n) == m
  {
    forall q
      ensures q in View(n) <==> q in m
      ensures q in m ==> View(n)[q] == m[q]
    {
      ViewLookup(n, q);
      assert Stores(m, q, Lookup(n, q));
    }
  }
}
