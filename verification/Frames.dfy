/**
 The explicit stacks of the tree iterators: which entries a stack of suspended child
 iterators still stands for, and how that changes as nodes are pulled from it.
 */
module Frames {
  import opened Wrappers
  import opened Bytes
  import opened Node
  import opened Entries

  /** The children of a node from an edge on, in ascending edge order. */
  datatype ChildIter<+V> = ChildIter(node: Node<V>, from: nat)

  datatype FrameIter<+V> =
    | Plain(rest: ChildIter<V>)
    | Leading(first: Option<(Byte, Node<V>)>, rest: ChildIter<V>)

  /** A child iterator, and the length of the key of the node whose children it lists. */
  datatype Frame<+V> = Frame(depth: nat, iter: FrameIter<V>)

  /** The next child, and the iterator after it. */
  function NextChild<V>(iter: FrameIter<V>): Option<(Byte, Node<V>, FrameIter<V>)>
    requires iter.rest.from <= 256
  {
    if iter.Leading? && iter.first.Some? then
      Some((iter.first.value.0, iter.first.value.1, Leading(None, iter.rest)))
    else
      match NextEdge(Kids(iter.rest.node), iter.rest.from)
      case None => None
      case Some(k) =>
        var rest := iter.rest.(from := k + 1);
        Some((k, Kids(iter.rest.node)[k], if iter.Plain? then Plain(rest) else Leading(None, rest)))
  }

  ghost predicate IterOk<V>(iter: FrameIter<V>) {
    && WellFormed(iter.rest.node) && iter.rest.from <= 256
    && (iter.Leading? && iter.first.Some? ==>
          EdgeOk(iter.first.value.0, iter.first.value.1) && WellFormed(iter.first.value.1))
  }

  /** The entries a child iterator still stands for, relative to the end of its node. */
  ghost function Items<V>(iter: FrameIter<V>): seq<Entry<V>>
    requires iter.rest.from <= 256
  {
    (if iter.Leading? && iter.first.Some? then Entries.Entries(iter.first.value.1) else [])
    + ChildEntries(iter.rest.node, iter.rest.from)
  }

  lemma {:induction false} NextEdgeEntries<V>(n: Node<V>, from: nat)
    requires from <= 256
    ensures ChildEntries(n, from) ==
            match NextEdge(Kids(n), from)
            case None => []
            case Some(k) => Entries.Entries(Kids(n)[k]) + ChildEntries(n, k + 1)
    decreases 256 - from
  {
    if from < 256 && from !in Kids(n) {
      NextEdgeEntries(n, from + 1);
    }
  }

  lemma NextChildItems<V>(iter: FrameIter<V>)
    requires IterOk(iter)
    ensures match NextChild(iter)
            case None => Items(iter) == []
            case Some((k, child, iter')) =>
              && IterOk(iter') && EdgeOk(k, child) && WellFormed(child)
              && Items(iter) == Entries.Entries(child) + Items(iter')
  {
    hide ChildEntries, Entries.Entries;
    NextEdgeEntries(iter.rest.node, iter.rest.from);
    KidsOk(iter.rest.node);
    hide WellFormed;
    if iter.Leading? && iter.first.Some? {
      assert Items(Leading(None, iter.rest)) == ChildEntries(iter.rest.node, iter.rest.from);
    }
  }

  lemma KidsOk<V>(n: Node<V>)
    requires WellFormed(n)
    ensures forall k :: k in Kids(n) ==> EdgeOk(k, Kids(n)[k]) && WellFormed(Kids(n)[k])
  {
  }

  // ----- Work left to do -----

  ghost function Size<V>(n: Node<V>): nat
    decreases n, 257
  {
    1 + KidsSize(n, 0)
  }

  ghost function KidsSize<V>(n: Node<V>, from: nat): nat
    requires from <= 256
    decreases n, 256 - from
  {
    if from == 256 then 0
    else (if from in Kids(n) then 1 + Size(Kids(n)[from]) else 0) + KidsSize(n, from + 1)
  }

  lemma {:induction false} KidSmaller<V>(n: Node<V>, from: nat, k: Byte)
    requires from <= k && k in Kids(n)
    ensures Size(Kids(n)[k]) < KidsSize(n, from)
    decreases 256 - from
  {
    if from < k {
      KidSmaller(n, from + 1, k);
    }
  }

  lemma KidsSmaller<V>(n: Node<V>)
    ensures Size(n) > 0
    ensures forall k :: k in Kids(n) ==> Size(Kids(n)[k]) < Size(n)
  {
    forall k | k in Kids(n)
      ensures Size(Kids(n)[k]) < Size(n)
    {
      KidSmaller(n, 0, k);
    }
  }

  ghost function IterWork<V>(iter: FrameIter<V>): nat
    requires iter.rest.from <= 256
  {
    1 + (if iter.Leading? && iter.first.Some? then 1 + Size(iter.first.value.1) else 0)
    + KidsSize(iter.rest.node, iter.rest.from)
  }

  lemma {:induction false} NextEdgeSize<V>(n: Node<V>, from: nat)
    requires from <= 256
    ensures KidsSize(n, from) ==
            match NextEdge(Kids(n), from)
            case None => 0
            case Some(k) => 1 + Size(Kids(n)[k]) + KidsSize(n, k + 1)
    decreases 256 - from
  {
    if from < 256 && from !in Kids(n) {
      NextEdgeSize(n, from + 1);
    }
  }

  lemma NextChildWork<V>(iter: FrameIter<V>)
    requires IterOk(iter)
    ensures match NextChild(iter)
            case None => true
            case Some((k, child, iter')) => IterWork(iter') + IterWork(Plain(ChildIter(child, 0))) < IterWork(iter)
  {
    NextEdgeSize(iter.rest.node, iter.rest.from);
  }

  ghost function StackWork<V>(stack: seq<Frame<V>>): nat
    requires forall i :: 0 <= i < |stack| ==> stack[i].iter.rest.from <= 256
  {
    if stack == [] then 0 else IterWork(stack[|stack| - 1].iter) + StackWork(stack[..|stack| - 1])
  }

  // ----- Stacks -----

  /** Frames nest: each belongs to a node whose key extends the key of the one below. */
  ghost predicate StackOk<V>(stack: seq<Frame<V>>, key: Key) {
    && (forall i :: 0 <= i < |stack| ==> IterOk(stack[i].iter) && stack[i].depth <= |key|)
    && (forall i, j :: 0 <= i < j < |stack| ==> stack[i].depth <= stack[j].depth)
  }

  /** The entries a stack still stands for; `key` is the key buffer. */
  ghost function Pending<V>(stack: seq<Frame<V>>, key: Key): seq<Entry<V>>
    requires forall i :: 0 <= i < |stack| ==> stack[i].iter.rest.from <= 256 && stack[i].depth <= |key|
  {
    if stack == [] then []
    else
      var top := stack[|stack| - 1];
      Prepend(key[..top.depth], Items(top.iter)) + Pending(stack[..|stack| - 1], key)
  }

  /** The key buffer matters only up to the depth of the top frame. */
  lemma {:induction false} PendingTruncate<V>(stack: seq<Frame<V>>, key: Key, key': Key)
    requires StackOk(stack, key) && StackOk(stack, key')
    requires stack != [] ==> key[..stack[|stack| - 1].depth] == key'[..stack[|stack| - 1].depth]
    ensures Pending(stack, key) == Pending(stack, key')
  {
    if stack != [] {
      var below := stack[..|stack| - 1];
      if below != [] {
        var d, e := below[|below| - 1].depth, stack[|stack| - 1].depth;
        assert key[..d] == key[..e][..d] && key'[..d] == key'[..e][..d];
      }
      PendingTruncate(below, key, key');
    }
  }

  /** A finished frame stands for nothing. */
  lemma PopPending<V>(stack: seq<Frame<V>>, key: Key)
    requires StackOk(stack, key) && stack != [] && NextChild(stack[|stack| - 1].iter).None?
    ensures StackOk(stack[..|stack| - 1], key)
    ensures Pending(stack, key) == Pending(stack[..|stack| - 1], key)
    ensures StackWork(stack[..|stack| - 1]) < StackWork(stack)
  {
    NextChildItems(stack[|stack| - 1].iter);
  }

  /** The stack after pulling a child: its own children are suspended on top. */
  function Pulled<V>(stack: seq<Frame<V>>, child: Node<V>, iter: FrameIter<V>, key: Key): seq<Frame<V>>
    requires stack != []
  {
    stack[|stack| - 1 := Frame(stack[|stack| - 1].depth, iter)]
    + (if child.content.Inner? then [Frame(|key|, Plain(ChildIter(child, 0)))] else [])
  }

  /** A child's own entry comes first, then those below it, then those of its siblings. */
  lemma PullItems<V>(p: Key, iter: FrameIter<V>, child: Node<V>, rest: FrameIter<V>)
    requires iter.rest.from <= 256 && rest.rest.from <= 256 && Items(iter) == Entries.Entries(child) + Items(rest)
    ensures Prepend(p, Items(iter)) ==
            Prepend(p + child.prefix, Own(child))
            + (Prepend(p + child.prefix, ChildEntries(child, 0)) + Prepend(p, Items(rest)))
  {
    hide ChildEntries, Items;
    PrependAppend(p, Entries.Entries(child), Items(rest));
    PrependPrepend(p, child.prefix, Own(child) + ChildEntries(child, 0));
    PrependAppend(p + child.prefix, Own(child), ChildEntries(child, 0));
  }

  /** One more frame at the top, for the node whose key the buffer holds. */
  lemma PushPending<V>(stack: seq<Frame<V>>, key: Key, iter: FrameIter<V>)
    requires StackOk(stack, key) && IterOk(iter)
    ensures StackOk(stack + [Frame(|key|, iter)], key)
    ensures Pending(stack + [Frame(|key|, iter)], key) == Prepend(key, Items(iter)) + Pending(stack, key)
    ensures StackWork(stack + [Frame(|key|, iter)]) == IterWork(iter) + StackWork(stack)
  {
    hide IterOk, Items, IterWork;
    var pushed := stack + [Frame(|key|, iter)];
    assert pushed[..|pushed| - 1] == stack;
    assert key[..|key|] == key;
  }

  /** The top frame moved on while the buffer grew beyond it. */
  lemma AdvancePending<V>(stack: seq<Frame<V>>, key: Key, iter: FrameIter<V>, key': Key)
    requires StackOk(stack, key) && stack != [] && IterOk(iter) && key[..stack[|stack| - 1].depth] <= key'
    ensures var top := stack[|stack| - 1];
            var advanced := stack[|stack| - 1 := Frame(top.depth, iter)];
            && StackOk(advanced, key')
            && Pending(advanced, key') == Prepend(key[..top.depth], Items(iter)) + Pending(stack[..|stack| - 1], key)
            && StackWork(advanced) == IterWork(iter) + StackWork(stack[..|stack| - 1])
  {
    hide IterOk, Items, IterWork;
    var top, below := stack[|stack| - 1], stack[..|stack| - 1];
    assert key'[..top.depth] == key[..top.depth];
    if below != [] {
      assert key[..below[|below| - 1].depth] == key[..top.depth][..below[|below| - 1].depth];
      assert key'[..below[|below| - 1].depth] == key'[..top.depth][..below[|below| - 1].depth];
    }
    PendingTruncate(below, key, key');
    var advanced := stack[|stack| - 1 := Frame(top.depth, iter)];
    assert advanced[..|advanced| - 1] == below;
  }

  lemma PulledPending<V>(stack: seq<Frame<V>>, key: Key, child: Node<V>, iter: FrameIter<V>)
    requires StackOk(stack, key) && stack != [] && IterOk(iter) && WellFormed(child)
    ensures var top := stack[|stack| - 1];
            var key' := key[..top.depth] + child.prefix;
            && StackOk(Pulled(stack, child, iter, key'), key')
            && Pending(Pulled(stack, child, iter, key'), key') ==
               Prepend(key', ChildEntries(child, 0))
               + (Prepend(key[..top.depth], Items(iter)) + Pending(stack[..|stack| - 1], key))
            && StackWork(Pulled(stack, child, iter, key')) <=
               IterWork(iter) + IterWork(Plain(ChildIter(child, 0))) + StackWork(stack[..|stack| - 1])
  {
    hide WellFormed, ChildEntries, Prepend, KidsSize, Pending, StackWork, StackOk, IterWork;
    var top := stack[|stack| - 1];
    TopDepth(stack, key);
    var key' := key[..top.depth] + child.prefix;
    AdvancePending(stack, key, iter, key');
    var advanced := stack[|stack| - 1 := Frame(top.depth, iter)];
    if child.content.Inner? {
      PushPending(advanced, key', Plain(ChildIter(child, 0)));
      assert Items(Plain(ChildIter(child, 0))) == ChildEntries(child, 0);
    } else {
      NoKids(child, 0);
      assert Pulled(stack, child, iter, key') == advanced;
    }
  }

  lemma TopDepth<V>(stack: seq<Frame<V>>, key: Key)
    requires StackOk(stack, key) && stack != []
    ensures stack[|stack| - 1].depth <= |key|
  {
  }

  lemma TopPending<V>(stack: seq<Frame<V>>, key: Key)
    requires StackOk(stack, key) && stack != []
    ensures var top := stack[|stack| - 1];
            && top.depth <= |key| && StackOk(stack[..|stack| - 1], key)
            && Pending(stack, key) == Prepend(key[..top.depth], Items(top.iter)) + Pending(stack[..|stack| - 1], key)
            && StackWork(stack) == IterWork(top.iter) + StackWork(stack[..|stack| - 1])
  {
    hide Items, IterWork, IterOk, Prepend, StackOk;
    BelowOk(stack, key);
  }

  lemma BelowOk<V>(stack: seq<Frame<V>>, key: Key)
    requires StackOk(stack, key) && stack != []
    ensures stack[|stack| - 1].depth <= |key| && StackOk(stack[..|stack| - 1], key)
  {
    hide IterOk;
    var below := stack[..|stack| - 1];
    assert forall i :: 0 <= i < |below| ==> below[i] == stack[i];
  }

  /** Pulling a child releases its own entry and suspends those below it. */
  lemma PullPending<V>(stack: seq<Frame<V>>, key: Key)
    requires StackOk(stack, key) && stack != [] && NextChild(stack[|stack| - 1].iter).Some?
    ensures var top := stack[|stack| - 1];
            var (k, child, iter) := NextChild(top.iter).value;
            var key' := key[..top.depth] + child.prefix;
            && WellFormed(child) && EdgeOk(k, child)
            && StackOk(Pulled(stack, child, iter, key'), key')
            && Pending(stack, key) == Prepend(key', Own(child)) + Pending(Pulled(stack, child, iter, key'), key')
            && StackWork(Pulled(stack, child, iter, key')) < StackWork(stack)
  {
    hide WellFormed, Entries.Entries, ChildEntries, Prepend, IterWork, Items, Pulled, Pending, StackWork;
    var top := stack[|stack| - 1];
    TopPending(stack, key);
    var (k, child, iter) := NextChild(top.iter).value;
    NextChildItems(top.iter);
    NextChildWork(top.iter);
    PullItems(key[..top.depth], top.iter, child, iter);
    PulledPending(stack, key, child, iter);
  }

  lemma {:induction false} NoKids<V>(n: Node<V>, from: nat)
    requires n.content.Empty? && from <= 256
    ensures ChildEntries(n, from) == []
    decreases 256 - from
  {
    if from < 256 {
      NoKids(n, from + 1);
    }
  }

  // ----- Bounds -----

  datatype Bound = Included(key: Key) | Excluded(key: Key) | Unbounded

  predicate AfterStart(start: Bound, key: Key) {
    match start
    case Included(s) => LessEq(s, key)
    case Excluded(s) => Less(s, key)
    case Unbounded => true
  }

  predicate BeforeEnd(end: Bound, key: Key) {
    match end
    case Included(e) => LessEq(key, e)
    case Excluded(e) => Less(key, e)
    case Unbounded => true
  }

  /** Which keys a bound admits, for every key: its own key exactly when it is included. */
  lemma BoundMeaning(bound: Key, k: Key)
    ensures AfterStart(Included(bound), k) <==> k == bound || Less(bound, k)
    ensures AfterStart(Excluded(bound), k) <==> Less(bound, k)
    ensures BeforeEnd(Included(bound), k) <==> k == bound || Less(k, bound)
    ensures BeforeEnd(Excluded(bound), k) <==> Less(k, bound)
    ensures AfterStart(Unbounded, k) && BeforeEnd(Unbounded, k)
  {
  }

  /** An end bound cuts off exactly what a start bound of the other kind lets through. */
  lemma BoundsComplement(bound: Key, k: Key)
    ensures AfterStart(Included(bound), k) <==> !BeforeEnd(Excluded(bound), k)
    ensures AfterStart(Excluded(bound), k) <==> !BeforeEnd(Included(bound), k)
  {
    LessTotal(bound, k);
    LessIrreflexive(k);
    if Less(bound, k) {
      LessAsymmetric(bound, k);
    }
  }

  /** The entries whose keys lie within the bounds. */
  ghost function Within<V>(es: seq<Entry<V>>, start: Bound, end: Bound): seq<Entry<V>> {
    if es == [] then []
    else
      (if AfterStart(start, es[0].key) && BeforeEnd(end, es[0].key) then [es[0]] else [])
      + Within(es[1..], start, end)
  }

  lemma {:induction false} WithinAppend<V>(s: seq<Entry<V>>, t: seq<Entry<V>>, start: Bound, end: Bound)
    ensures Within(s + t, start, end) == Within(s, start, end) + Within(t, start, end)
  {
    if s == [] {
      assert s + t == t;
    } else {
      assert (s + t)[1..] == s[1..] + t;
      WithinAppend(s[1..], t, start, end);
    }
  }

  lemma {:induction false} WithinAll<V>(es: seq<Entry<V>>, start: Bound, end: Bound)
    requires forall i :: 0 <= i < |es| ==> AfterStart(start, es[i].key) && BeforeEnd(end, es[i].key)
    ensures Within(es, start, end) == es
  {
    if es != [] {
      WithinAll(es[1..], start, end);
    }
  }

  lemma {:induction false} WithinNone<V>(es: seq<Entry<V>>, start: Bound, end: Bound)
    requires forall i :: 0 <= i < |es| ==> !(AfterStart(start, es[i].key) && BeforeEnd(end, es[i].key))
    ensures Within(es, start, end) == []
  {
    if es != [] {
      WithinNone(es[1..], start, end);
    }
  }

  /** In a sorted listing everything after an entry that meets the start bound meets it. */
  lemma StartOnce<V>(es: seq<Entry<V>>, start: Bound)
    requires Sorted(es) && es != [] && AfterStart(start, es[0].key)
    ensures Within(es, start, Unbounded) == es
  {
    forall i | 0 <= i < |es|
      ensures AfterStart(start, es[i].key)
    {
      if i > 0 {
        StartMonotone(start, es[0].key, es[i].key);
      }
    }
    WithinAll(es, start, Unbounded);
  }

  /** In a sorted listing everything after an entry beyond the end bound is beyond it. */
  lemma EndOnce<V>(es: seq<Entry<V>>, start: Bound, end: Bound)
    requires Sorted(es) && es != [] && !BeforeEnd(end, es[0].key)
    ensures Within(es, start, end) == []
  {
    forall i | 0 <= i < |es|
      ensures !BeforeEnd(end, es[i].key)
    {
      if i > 0 && BeforeEnd(end, es[i].key) {
        EndMonotone(end, es[0].key, es[i].key);
      }
    }
    WithinNone(es, start, end);
  }

  lemma {:induction false} WithinIn<V>(es: seq<Entry<V>>, start: Bound, end: Bound, e: Entry<V>)
    ensures e in Within(es, start, end) <==> e in es && AfterStart(start, e.key) && BeforeEnd(end, e.key)
  {
    if es != [] {
      WithinIn(es[1..], start, end, e);
      assert es == [es[0]] + es[1..];
    }
  }

  lemma {:induction false} WithinSorted<V>(es: seq<Entry<V>>, start: Bound, end: Bound)
    requires Sorted(es)
    ensures Sorted(Within(es, start, end))
  {
    if es != [] {
      var tail := Within(es[1..], start, end);
      WithinSorted(es[1..], start, end);
      var head: seq<Entry<V>> := if AfterStart(start, es[0].key) && BeforeEnd(end, es[0].key) then [es[0]] else [];
      forall i, j | 0 <= i < |head| && 0 <= j < |tail|
        ensures Less(head[i].key, tail[j].key)
      {
        WithinIn(es[1..], start, end, tail[j]);
      }
      AppendSorted(head, tail);
    }
  }

  lemma StartMonotone(start: Bound, a: Key, b: Key)
    requires AfterStart(start, a) && Less(a, b)
    ensures AfterStart(start, b)
  {
    if !start.Unbounded? && start.key != a {
      LessTransitive(start.key, a, b);
    }
  }

  lemma EndMonotone(end: Bound, a: Key, b: Key)
    requires BeforeEnd(end, b) && Less(a, b)
    ensures BeforeEnd(end, a)
  {
    if !end.Unbounded? && end.key != b {
      LessTransitive(a, b, end.key);
    }
  }
}
