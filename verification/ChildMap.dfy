/** What all child layouts stand for: a map from edge byte to child, listed by ascending edge. */
module ChildMap {
  import opened Wrappers
  import opened Bytes

  /** The children under edges from `from` on, in ascending edge order. */
  ghost function Listing<N>(m: map<Byte, N>, from: nat): seq<(Byte, N)>
    requires from <= 256
    decreases 256 - from
  {
    if from == 256 then []
    else (if from in m then [(from, m[from])] else []) + Listing(m, from + 1)
  }

  ghost predicate AscendingEdges<N>(items: seq<(Byte, N)>) {
    forall i, j :: 0 <= i < j < |items| ==> items[i].0 < items[j].0
  }

  ghost predicate EntriesFrom<N>(items: seq<(Byte, N)>, m: map<Byte, N>, from: nat) {
    && (forall i :: 0 <= i < |items| ==> from <= items[i].0 && items[i].0 in m && items[i].1 == m[items[i].0])
    && (forall k :: k in m && from <= k ==> (k, m[k]) in items)
  }

  /** The entry of the smallest edge comes first. */
  lemma SmallestFirst<N>(items: seq<(Byte, N)>, m: map<Byte, N>, from: nat)
    requires from < 256 && from in m && AscendingEdges(items) && EntriesFrom(items, m, from)
    ensures items != [] && items[0] == (from, m[from])
  {
    var i :| 0 <= i < |items| && items[i] == (from, m[from]);
    assert from <= items[0].0;
    assert i == 0;
  }

  lemma EdgeIsByte<N>(items: seq<(Byte, N)>)
    requires items != []
    ensures items[0].0 < 256
  {
  }

  lemma NoneListed<N>(items: seq<(Byte, N)>, m: map<Byte, N>)
    requires EntriesFrom(items, m, 256)
    ensures items == []
  {
    if items != [] {
      EdgeIsByte(items);
    }
  }

  lemma SkipListed<N>(items: seq<(Byte, N)>, m: map<Byte, N>, from: nat)
    requires from < 256 && from !in m && EntriesFrom(items, m, from)
    ensures EntriesFrom(items, m, from + 1)
  {
  }

  lemma RestListed<N>(items: seq<(Byte, N)>, m: map<Byte, N>, from: nat)
    requires from < 256 && from in m && AscendingEdges(items) && EntriesFrom(items, m, from)
    requires items != [] && items[0] == (from, m[from])
    ensures AscendingEdges(items[1..]) && EntriesFrom(items[1..], m, from + 1)
  {
    RestAscends(items);
    hide AscendingEdges;
    forall k | k in m && from + 1 <= k
      ensures (k, m[k]) in items[1..]
    {
      InRest(items, (k, m[k]));
    }
  }

  lemma RestAscends<N>(items: seq<(Byte, N)>)
    requires items != [] && AscendingEdges(items)
    ensures AscendingEdges(items[1..])
    ensures forall i :: 0 <= i < |items[1..]| ==> items[1..][i] == items[i + 1] && items[0].0 < items[1..][i].0
  {
  }

  lemma InRest<T>(s: seq<T>, e: T)
    requires e in s && e != s[0]
    ensures e in s[1..]
  {
    var i :| 0 <= i < |s| && s[i] == e;
    assert s[1..][i - 1] == e;
  }

  /** An ascending list of exactly the entries is the listing. */
  lemma {:induction false} ListingUnique<N>(items: seq<(Byte, N)>, m: map<Byte, N>, from: nat)
    requires from <= 256 && AscendingEdges(items) && EntriesFrom(items, m, from)
    ensures items == Listing(m, from)
    decreases 256 - from
  {
    hide AscendingEdges, EntriesFrom;
    if from == 256 {
      NoneListed(items, m);
    } else if from in m {
      SmallestFirst(items, m, from);
      RestListed(items, m, from);
      ListingUnique(items[1..], m, from + 1);
      assert items == [items[0]] + items[1..];
    } else {
      SkipListed(items, m, from);
      ListingUnique(items, m, from + 1);
    }
  }

  /** The listing has exactly the entries of the map, by ascending edge. */
  lemma {:induction false} ListingMeaning<N>(m: map<Byte, N>, from: nat)
    requires from <= 256
    ensures AscendingEdges(Listing(m, from)) && EntriesFrom(Listing(m, from), m, from)
    decreases 256 - from
  {
    hide AscendingEdges, EntriesFrom;
    if from == 256 {
      EmptyListed(m);
    } else {
      ListingMeaning(m, from + 1);
      if from in m {
        FirstListed(Listing(m, from + 1), m, from);
      } else {
        assert [] + Listing(m, from + 1) == Listing(m, from + 1);
        LaterListed(Listing(m, from + 1), m, from);
      }
    }
  }

  lemma EmptyListed<N>(m: map<Byte, N>)
    ensures AscendingEdges<N>([]) && EntriesFrom([], m, 256)
  {
  }

  lemma FirstListed<N>(rest: seq<(Byte, N)>, m: map<Byte, N>, from: nat)
    requires from < 256 && from in m && AscendingEdges(rest) && EntriesFrom(rest, m, from + 1)
    ensures AscendingEdges([(from as Byte, m[from])] + rest) && EntriesFrom([(from as Byte, m[from])] + rest, m, from)
  {
    var all := [(from as Byte, m[from])] + rest;
    assert all[0] == (from, m[from]);
    forall k | k in m && from < k
      ensures (k, m[k]) in all
    {
      assert (k, m[k]) in rest;
    }
  }

  lemma LaterListed<N>(rest: seq<(Byte, N)>, m: map<Byte, N>, from: nat)
    requires from < 256 && from !in m && EntriesFrom(rest, m, from + 1)
    ensures EntriesFrom(rest, m, from)
  {
  }

  ghost predicate Strict(keys: seq<Byte>) {
    forall i, j :: 0 <= i < j < |keys| ==> keys[i] < keys[j]
  }

  ghost predicate AllSome<N>(children: seq<Option<N>>) {
    forall i :: 0 <= i < |children| ==> children[i].Some?
  }

  /** The map of two parallel sequences. */
  ghost function Assoc<N>(keys: seq<Byte>, children: seq<Option<N>>): map<Byte, N>
    requires |keys| == |children| && Strict(keys) && AllSome(children)
  {
    map i | 0 <= i < |keys| :: keys[i] := children[i].value
  }

  lemma AssocEntry<N>(keys: seq<Byte>, children: seq<Option<N>>, i: nat)
    requires |keys| == |children| && Strict(keys) && AllSome(children) && i < |keys|
    ensures keys[i] in Assoc(keys, children) && Assoc(keys, children)[keys[i]] == children[i].value
  {
  }

  lemma AssocHas<N>(keys: seq<Byte>, children: seq<Option<N>>, k: Byte) returns (at: Option<nat>)
    requires |keys| == |children| && Strict(keys) && AllSome(children)
    ensures k in Assoc(keys, children) <==> at.Some?
    ensures at.Some? ==>
              at.value < |keys| && keys[at.value] == k && Assoc(keys, children)[k] == children[at.value].value
    ensures at.None? ==> forall i :: 0 <= i < |keys| ==> keys[i] != k
  {
    if i :| 0 <= i < |keys| && keys[i] == k {
      AssocEntry(keys, children, i);
      return Some(i);
    }
    at := None;
  }

  lemma {:induction false} AssocSize<N>(keys: seq<Byte>, children: seq<Option<N>>)
    requires |keys| == |children| && Strict(keys) && AllSome(children)
    ensures |Assoc(keys, children)| == |keys|
    decreases |keys|
  {
    hide Assoc;
    var m := Assoc(keys, children);
    if keys == [] {
      forall k: Byte
        ensures k !in m
      {
        var _ := AssocHas(keys, children, k);
      }
      assert m.Keys == {};
    } else {
      var last := |keys| - 1;
      var key, child := keys[last], children[last].value;
      AssocSize(keys[..last], children[..last]);
      AssocInsert(keys[..last], children[..last], last, key, child);
      assert InsertAt(keys[..last], last, key) == keys;
      assert InsertAt(children[..last], last, Some(child)) == children;
      var at := AssocHas(keys[..last], children[..last], key);
      assert m.Keys == Assoc(keys[..last], children[..last]).Keys + {key};
    }
  }

  function InsertAt<T>(s: seq<T>, at: nat, x: T): seq<T>
    requires at <= |s|
  {
    s[..at] + [x] + s[at..]
  }

  function RemoveAt<T>(s: seq<T>, at: nat): seq<T>
    requires at < |s|
  {
    s[..at] + s[at + 1..]
  }

  ghost predicate Between(keys: seq<Byte>, at: nat, key: Byte)
    requires at <= |keys|
  {
    && (forall i :: 0 <= i < at ==> keys[i] < key)
    && (forall i :: at <= i < |keys| ==> key < keys[i])
  }

  lemma StrictInsert(keys: seq<Byte>, at: nat, key: Byte)
    requires Strict(keys) && at <= |keys| && Between(keys, at, key)
    ensures Strict(InsertAt(keys, at, key))
  {
    var keys' := InsertAt(keys, at, key);
    forall i, j | 0 <= i < j < |keys'|
      ensures keys'[i] < keys'[j]
    {
      assert keys'[i] == if i < at then keys[i] else if i == at then key else keys[i - 1];
      assert keys'[j] == if j < at then keys[j] else if j == at then key else keys[j - 1];
    }
  }

  lemma StrictRemove(keys: seq<Byte>, at: nat)
    requires Strict(keys) && at < |keys|
    ensures Strict(RemoveAt(keys, at)) && Between(RemoveAt(keys, at), at, keys[at])
    ensures InsertAt(RemoveAt(keys, at), at, keys[at]) == keys
  {
    var keys' := RemoveAt(keys, at);
    forall i, j | 0 <= i < j < |keys'|
      ensures keys'[i] < keys'[j]
    {
      assert keys'[i] == keys[if i < at then i else i + 1];
      assert keys'[j] == keys[if j < at then j else j + 1];
    }
    forall i | 0 <= i < |keys'|
      ensures if i < at then keys'[i] < keys[at] else keys[at] < keys'[i]
    {
      assert keys'[i] == keys[if i < at then i else i + 1];
    }
  }

  /** Inserting between the smaller and the larger keys adds one entry. */
  lemma AssocInsert<N>(keys: seq<Byte>, children: seq<Option<N>>, at: nat, key: Byte, child: N)
    requires |keys| == |children| && Strict(keys) && AllSome(children)
    requires at <= |keys| && Between(keys, at, key)
    ensures var keys', children' := InsertAt(keys, at, key), InsertAt(children, at, Some(child));
            && Strict(keys') && AllSome(children')
            && key !in Assoc(keys, children)
            && Assoc(keys', children') == Assoc(keys, children)[key := child]
  {
    hide Assoc, Strict;
    var keys', children' := InsertAt(keys, at, key), InsertAt(children, at, Some(child));
    StrictInsert(keys, at, key);
    var m, m' := Assoc(keys, children), Assoc(keys', children');
    forall k: Byte
      ensures k in m' <==> k in m || k == key
      ensures k in m' ==> m'[k] == if k == key then child else m[k]
      ensures k == key ==> k !in m
    {
      var i := AssocHas(keys, children, k);
      var j := AssocHas(keys', children', k);
      AssocEntry(keys', children', at);
      if i.Some? {
        AssocEntry(keys', children', if i.value < at then i.value else i.value + 1);
      }
      if j.Some? && j.value != at {
        AssocEntry(keys, children, if j.value < at then j.value else j.value - 1);
      }
    }
  }

  lemma AssocRemove<N>(keys: seq<Byte>, children: seq<Option<N>>, at: nat)
    requires |keys| == |children| && Strict(keys) && AllSome(children) && at < |keys|
    ensures var keys', children' := RemoveAt(keys, at), RemoveAt(children, at);
            && Strict(keys') && AllSome(children')
            && Assoc(keys', children') == Assoc(keys, children) - {keys[at]}
  {
    hide Assoc, Strict, Between;
    var keys', children' := RemoveAt(keys, at), RemoveAt(children, at);
    StrictRemove(keys, at);
    AssocInsert(keys', children', at, keys[at], children[at].value);
    assert InsertAt(children', at, Some(children[at].value)) == children;
    assert Assoc(keys', children')[keys[at] := children[at].value] - {keys[at]} == Assoc(keys', children');
  }
}
