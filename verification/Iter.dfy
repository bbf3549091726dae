/** Iterators over a single-owner tree. */
module Iter {
  import opened Wrappers
  import opened Bytes
  import opened Node
  import opened Entries
  import opened Frames

  /** What an iterator will still yield: nothing more, or the head followed by the rest. */
  ghost predicate Yields<V>(before: seq<Entry<V>>, r: Option<Entry<V>>, after: seq<Entry<V>>) {
    match r
    case None => before == [] && after == []
    case Some(e) => before == [e] + after
  }

  /** Iterates the entries strictly below a node, with a stack and a key buffer. */
  class IterInner<V> {
    var nodeIterStack: seq<Frame<V>>
    var curKey: Key
    var startBound: Option<Bound>

    ghost predicate Valid()
      reads this
    {
      && StackOk(nodeIterStack, curKey)
      && Sorted(Pending(nodeIterStack, curKey))
    }

    /** The entries still to come. */
    ghost function Remaining(): seq<Entry<V>>
      requires Valid()
      reads this
    {
      var all := Pending(nodeIterStack, curKey);
      if startBound.Some? then Within(all, startBound.value, Unbounded) else all
    }

    constructor Empty()
      ensures Valid() && Remaining() == []
    {
      nodeIterStack, curKey, startBound := [], [], None;
    }

    /** Below `node`, whose full key is `key`. */
    constructor FromNodeAndKey(node: Node<V>, key: Key)
      requires WellFormed(node)
      ensures Valid() && Remaining() == Prepend(key, ChildEntries(node, 0))
    {
      nodeIterStack, curKey, startBound := [Frame(|key|, Plain(ChildIter(node, 0)))], key, None;
      new;
      WholeSubtree(node, key);
    }

    constructor NewWithStartBound(node: Node<V>, start: Bound)
      requires WellFormed(node)
      ensures Valid() && Remaining() == Within(Prepend(node.prefix, ChildEntries(node, 0)), start, Unbounded)
    {
      if start.Unbounded? {
        nodeIterStack, curKey, startBound := [Frame(|node.prefix|, Plain(ChildIter(node, 0)))], node.prefix, None;
      } else {
        var stack := BuildPositionedStack(node, start);
        nodeIterStack, curKey, startBound := stack, node.prefix, Some(start);
      }
      new;
      if start.Unbounded? {
        WholeSubtree(node, node.prefix);
        WithinAll(Remaining(), start, Unbounded);
      }
    }

    /** Cuts the key buffer back to the node of the top frame. */
    method TruncateToTop()
      requires Valid()
      modifies `curKey
      ensures Valid() && Pending(nodeIterStack, curKey) == old(Pending(nodeIterStack, curKey))
      ensures nodeIterStack != [] ==> curKey == old(curKey)[..nodeIterStack[|nodeIterStack| - 1].depth]
    {
      hide Pending;
      if nodeIterStack != [] {
        var depth := nodeIterStack[|nodeIterStack| - 1].depth;
        PendingTruncate(nodeIterStack, curKey, curKey[..depth]);
        curKey := curKey[..depth];
      }
    }

    /** Pulls the next child from the top frame and suspends its children, or drops a finished frame. */
    method Pull() returns (pulled: Option<Node<V>>)
      requires Valid() && nodeIterStack != []
      modifies `nodeIterStack, `curKey
      ensures Valid() && StackWork(nodeIterStack) < old(StackWork(nodeIterStack))
      ensures old(Pending(nodeIterStack, curKey)) ==
              (if pulled.Some? then Prepend(curKey, Own(pulled.value)) else []) + Pending(nodeIterStack, curKey)
    {
      hide NextChild, Sorted, Pending, StackWork, Pulled, Prepend, Own;
      ghost var before := Pending(nodeIterStack, curKey);
      TruncateToTop();
      var top := nodeIterStack[|nodeIterStack| - 1];
      match NextChild(top.iter)
      case None =>
        PopPending(nodeIterStack, curKey);
        nodeIterStack := nodeIterStack[..|nodeIterStack| - 1];
        TruncateToTop();
        pulled := None;
        assert [] + before == before;
      case Some((_, node, iter)) =>
        PullPending(nodeIterStack, curKey);
        assert curKey[..top.depth] == curKey;
        curKey := curKey + node.prefix;
        nodeIterStack := Pulled(nodeIterStack, node, iter, curKey);
        ReleaseSorted(curKey, node, Pending(nodeIterStack, curKey));
        pulled := Some(node);
    }

    method Next() returns (r: Option<Entry<V>>)
      requires Valid()
      modifies this
      ensures Valid()
      ensures Yields(old(Remaining()), r, Remaining())
    {
      while nodeIterStack != []
        invariant Valid() && Remaining() == old(Remaining())
        decreases StackWork(nodeIterStack)
      {
        hide StackOk, Sorted, Pending, StackWork, Within, Prepend, Own;
        ghost var before := Pending(nodeIterStack, curKey);
        var node := Pull();
        ghost var later := Pending(nodeIterStack, curKey);
        if node.None? {
          assert [] + later == later;
          continue;
        }
        if node.value.value.Some? {
          var entry := Entry(curKey, node.value.value.value);
          OwnEntry(curKey, node.value);
          if startBound.Some? {
            FirstWithin(entry, later, startBound.value);
            if !AfterStart(startBound.value, curKey) {
              continue;
            }
            startBound := None;
          }
          return Some(entry);
        }
        OwnEntry(curKey, node.value);
        assert [] + later == later;
        if !node.value.content.Inner? {
          TruncateToTop();
        }
      }
      r := None;
    }
  }

  /** Iterates a whole tree: the root's own entry, then the entries below it. */
  class Iter<V> {
    var root: Option<Entry<V>>
    const children: IterInner<V>

    ghost predicate Valid()
      reads this, children
    {
      children.Valid() && Sorted(Remaining())
    }

    ghost function Remaining(): seq<Entry<V>>
      requires children.Valid()
      reads this, children
    {
      (if root.Some? then [root.value] else []) + children.Remaining()
    }

    constructor New(node: Option<Node<V>>)
      requires node.Some? ==> WellFormed(node.value)
      ensures Valid() && fresh(children)
      ensures Remaining() == if node.Some? then Entries.Entries(node.value) else []
    {
      hide Pending, StackOk, ChildEntries, WellFormed;
      root := None;
      var below;
      if node.None? || node.value.content.Empty? {
        below := new IterInner<V>.Empty();
      } else {
        below := new IterInner<V>.FromNodeAndKey(node.value, node.value.prefix);
      }
      if node.Some? && node.value.value.Some? {
        root := Some(Entry(node.value.prefix, node.value.value.value));
      }
      children := below;
      new;
      if node.Some? {
        WholeTree(node.value, node.value.prefix);
      }
    }

    /** The tree below `node`, whose full key is `key`. */
    constructor NewWithPrefix(node: Node<V>, key: Key)
      requires WellFormed(node)
      ensures Valid() && fresh(children)
      ensures Remaining() == Prepend(key, Own(node) + ChildEntries(node, 0))
    {
      hide Pending, StackOk, ChildEntries, WellFormed;
      root := None;
      var below;
      if node.content.Empty? {
        below := new IterInner<V>.Empty();
      } else {
        below := new IterInner<V>.FromNodeAndKey(node, key);
      }
      if node.value.Some? {
        root := Some(Entry(key, node.value.value));
      }
      children := below;
      new;
      WholeTree(node, key);
    }

    /** Seeks to the first child of the root that can reach the start bound. */
    constructor NewWithStartBound(node: Option<Node<V>>, start: Bound)
      requires node.Some? ==> WellFormed(node.value)
      ensures Valid() && fresh(children)
      ensures Remaining() == if node.Some? then Within(Entries.Entries(node.value), start, Unbounded) else []
      ensures node.Some? ==>
                forall e :: e in Remaining() <==>
                  && e in Entries.Entries(node.value)
                  && (start.Included? ==> e.key == start.key || Less(start.key, e.key))
                  && (start.Excluded? ==> Less(start.key, e.key))
    {
      hide Pending, StackOk, ChildEntries, WellFormed;
      root := None;
      var below;
      if node.None? || node.value.content.Empty? {
        below := new IterInner<V>.Empty();
      } else {
        below := new IterInner<V>.NewWithStartBound(node.value, start);
      }
      if node.Some? && node.value.value.Some? && AfterStart(start, node.value.prefix) {
        root := Some(Entry(node.value.prefix, node.value.value.value));
      }
      children := below;
      new;
      if node.Some? {
        WholeTree(node.value, node.value.prefix);
        WithinTree(node.value, start);
        FromStart(Entries.Entries(node.value), start);
      }
    }

    method Next() returns (r: Option<Entry<V>>)
      requires Valid()
      modifies this, children
      ensures Valid()
      ensures Yields(old(Remaining()), r, Remaining())
    {
      hide Within, Pending, StackOk;
      if root.Some? {
        r := root;
        root := None;
      } else {
        r := children.Next();
      }
      TailSorted(old(Remaining()), r, Remaining());
    }
  }

  lemma TailSorted<V>(before: seq<Entry<V>>, r: Option<Entry<V>>, after: seq<Entry<V>>)
    requires Sorted(before) && (before == [] + after || Yields(before, r, after))
    ensures Sorted(after)
  {
    if r.Some? && before == [r.value] + after {
      forall i, j | 0 <= i < j < |after|
        ensures Less(after[i].key, after[j].key)
      {
        assert before[i + 1] == after[i] && before[j + 1] == after[j];
      }
    } else {
      assert before == after;
    }
  }

  lemma WholeTree<V>(node: Node<V>, key: Key)
    requires WellFormed(node)
    ensures Prepend(key, Own(node) + ChildEntries(node, 0)) ==
            (if node.value.Some? then [Entry(key, node.value.value)] else []) + Prepend(key, ChildEntries(node, 0))
    ensures Sorted(Prepend(key, Own(node) + ChildEntries(node, 0)))
    ensures node.content.Empty? ==> ChildEntries(node, 0) == []
  {
    PrependAppend(key, Own(node), ChildEntries(node, 0));
    OwnEntry(key, node);
    EntriesSorted(node.(prefix := []));
    SameContent(node, node.(prefix := []), 0);
    PrependSorted([], Own(node) + ChildEntries(node, 0));
    PrependSorted(key, Own(node) + ChildEntries(node, 0));
    if node.content.Empty? {
      NoKids(node, 0);
    }
  }

  /** Exactly the entries that a start bound admits. */
  lemma FromStart<V>(es: seq<Entry<V>>, start: Bound)
    ensures forall e :: e in Within(es, start, Unbounded) <==>
              && e in es
              && (start.Included? ==> e.key == start.key || Less(start.key, e.key))
              && (start.Excluded? ==> Less(start.key, e.key))
  {
    hide Within;
    forall e
      ensures e in Within(es, start, Unbounded) <==> e in es && AfterStart(start, e.key)
    {
      WithinIn(es, start, Unbounded, e);
    }
  }

  lemma WithinTree<V>(node: Node<V>, start: Bound)
    requires WellFormed(node)
    ensures Within(Entries.Entries(node), start, Unbounded) ==
            (if node.value.Some? && AfterStart(start, node.prefix) then [Entry(node.prefix, node.value.value)] else [])
            + Within(Prepend(node.prefix, ChildEntries(node, 0)), start, Unbounded)
    ensures Sorted(Within(Entries.Entries(node), start, Unbounded))
  {
    var own := if node.value.Some? then [Entry(node.prefix, node.value.value)] else [];
    WholeTree(node, node.prefix);
    WithinAppend(own, Prepend(node.prefix, ChildEntries(node, 0)), start, Unbounded);
    EntriesSorted(node);
    WithinSorted(Entries.Entries(node), start, Unbounded);
  }

  lemma OwnEntry<V>(key: Key, node: Node<V>)
    ensures Prepend(key, Own(node)) == if node.value.Some? then [Entry(key, node.value.value)] else []
  {
    assert key + [] == key;
  }

  /** The head of a sorted listing is kept together with the whole rest, or dropped. */
  lemma FirstWithin<V>(entry: Entry<V>, later: seq<Entry<V>>, start: Bound)
    requires Sorted([entry] + later)
    ensures Within([entry] + later, start, Unbounded) ==
            if AfterStart(start, entry.key) then [entry] + later else Within(later, start, Unbounded)
  {
    assert ([entry] + later)[1..] == later;
    if AfterStart(start, entry.key) {
      StartOnce([entry] + later, start);
    }
  }

  lemma WholeSubtree<V>(node: Node<V>, key: Key)
    requires WellFormed(node)
    ensures var stack := [Frame(|key|, Plain(ChildIter(node, 0)))];
            && StackOk(stack, key)
            && Pending(stack, key) == Prepend(key, ChildEntries(node, 0))
            && Sorted(Pending(stack, key))
  {
    var stack := [Frame(|key|, Plain(ChildIter(node, 0)))];
    assert key[..|key|] == key;
    assert stack[..0] == [];
    assert Items(Plain(ChildIter(node, 0))) == ChildEntries(node, 0);
    ChildEntriesSorted(node, 0);
    PrependSorted(key, ChildEntries(node, 0));
  }

  lemma ReleaseSorted<V>(key: Key, node: Node<V>, later: seq<Entry<V>>)
    requires Sorted(Prepend(key, Own(node)) + later)
    ensures Sorted(later)
    ensures node.value.None? ==> Prepend(key, Own(node)) + later == later
  {
    hide Sorted, Prepend;
    SortedTail(Prepend(key, Own(node)), later);
    if node.value.None? {
      OwnEntry(key, node);
      assert [] + later == later;
    }
  }

  lemma SortedTail<V>(own: seq<Entry<V>>, later: seq<Entry<V>>)
    requires Sorted(own + later)
    ensures Sorted(later)
  {
    hide Less;
    var all := own + later;
    forall i, j | 0 <= i < j < |later|
      ensures Less(later[i].key, later[j].key)
    {
      assert Less(all[|own| + i].key, all[|own| + j].key);
    }
  }

  /** A stack for the children of the root from the first one that can reach the start bound. */
  method BuildPositionedStack<V>(node: Node<V>, start: Bound) returns (stack: seq<Frame<V>>)
    requires WellFormed(node) && !start.Unbounded?
    ensures StackOk(stack, node.prefix) && Sorted(Pending(stack, node.prefix))
    ensures Within(Pending(stack, node.prefix), start, Unbounded) ==
            Within(Prepend(node.prefix, ChildEntries(node, 0)), start, Unbounded)
  {
    hide ChildEntries, WellFormed, Pending, StackOk, Within;
    var prefix, seek := node.prefix, start.key;
    var common := CommonPrefix(prefix, seek);
    WholeSubtree(node, prefix);
    var whole := [Frame(|prefix|, Plain(ChildIter(node, 0)))];
    if common != |prefix| {
      if common >= |seek| || prefix[common] >= seek[common] {
        return whole;
      }
      BelowSeek(node, start, common);
      EmptyStack(node);
      return [];
    }
    if |seek| == |prefix| {
      return whole;
    }
    var target := seek[|prefix|];
    var from := 0;
    ghost var all := Within(Prepend(prefix, ChildEntries(node, 0)), start, Unbounded);
    while true
      invariant 0 <= from <= 256
      invariant Within(Prepend(prefix, ChildEntries(node, from)), start, Unbounded) == all
      decreases 256 - from
    {
      NextEdgeEntries(node, from);
      match NextEdge(Kids(node), from)
      case None =>
        EmptyStack(node);
        assert Prepend(prefix, ChildEntries(node, from)) == [];
        return [];
      case Some(k) =>
        if k < target {
          SkipChild(node, k, from, start);
          from := k + 1;
        } else {
          PositionedAt(node, k, from);
          return [Frame(|prefix|, Leading(Some((k, Kids(node)[k])), ChildIter(node, k + 1)))];
        }
    }
  }

  lemma EmptyStack<V>(node: Node<V>)
    ensures var stack: seq<Frame<V>> := [];
            && StackOk(stack, node.prefix)
            && Sorted(Pending(stack, node.prefix)) && Pending(stack, node.prefix) == []
    ensures var none: seq<Entry<V>> := []; forall start, end :: Within(none, start, end) == []
  {
  }

  /** The prefix parts downwards from the seek key: everything below it is too small. */
  lemma BelowSeek<V>(node: Node<V>, start: Bound, at: nat)
    requires !start.Unbounded? && at == CommonPrefix(node.prefix, start.key)
    requires at < |node.prefix| && at < |start.key| && node.prefix[at] < start.key[at]
    ensures Within(Prepend(node.prefix, ChildEntries(node, 0)), start, Unbounded) == []
  {
    hide ChildEntries, CommonPrefix, Less;
    var es := Prepend(node.prefix, ChildEntries(node, 0));
    forall i | 0 <= i < |es|
      ensures !AfterStart(start, es[i].key)
    {
      PartsBelow(es[i].key, start.key, at);
      NotAfter(start, es[i].key);
    }
    WithinNone(es, start, Unbounded);
  }

  lemma PartsBelow(key: Key, seek: Key, at: nat)
    requires at < |key| && at < |seek| && key[..at] == seek[..at] && key[at] < seek[at]
    ensures Less(key, seek)
  {
    assert key == key[..at] + key[at..] && seek == key[..at] + seek[at..];
    LessAtSplit(key[..at], key[at..], seek[at..]);
  }

  lemma NotAfter(start: Bound, key: Key)
    requires !start.Unbounded? && Less(key, start.key)
    ensures !AfterStart(start, key)
  {
    LessAsymmetric(key, start.key);
    LessIrreflexive(key);
  }

  lemma SkipChild<V>(node: Node<V>, k: Byte, from: nat, start: Bound)
    requires WellFormed(node) && k in Kids(node) && from <= k
    requires ChildEntries(node, from) == Entries.Entries(Kids(node)[k]) + ChildEntries(node, k + 1)
    requires !start.Unbounded? && node.prefix < start.key && k < start.key[|node.prefix|]
    ensures Within(Prepend(node.prefix, ChildEntries(node, from)), start, Unbounded) ==
            Within(Prepend(node.prefix, ChildEntries(node, k + 1)), start, Unbounded)
  {
    hide ChildEntries, Entries.Entries;
    var child, p, seek := Kids(node)[k], node.prefix, start.key;
    var skipped := Prepend(p, Entries.Entries(child));
    PrependAppend(p, Entries.Entries(child), ChildEntries(node, k + 1));
    WithinAppend(skipped, Prepend(p, ChildEntries(node, k + 1)), start, Unbounded);
    EntriesEdge(child, k);
    forall i | 0 <= i < |skipped|
      ensures !AfterStart(start, skipped[i].key)
    {
      assert seek == p + seek[|p|..];
      LessAtSplit(p, Entries.Entries(child)[i].key, seek[|p|..]);
      NotAfter(start, skipped[i].key);
    }
    WithinNone(skipped, start, Unbounded);
  }

  lemma PositionedAt<V>(node: Node<V>, k: Byte, from: nat)
    requires WellFormed(node) && k in Kids(node) && from <= 256
    requires ChildEntries(node, from) == Entries.Entries(Kids(node)[k]) + ChildEntries(node, k + 1)
    ensures var stack := [Frame(|node.prefix|, Leading(Some((k, Kids(node)[k])), ChildIter(node, k + 1)))];
            && StackOk(stack, node.prefix) && Sorted(Pending(stack, node.prefix))
            && Pending(stack, node.prefix) == Prepend(node.prefix, ChildEntries(node, from))
  {
    hide ChildEntries, Entries.Entries;
    var stack := [Frame(|node.prefix|, Leading(Some((k, Kids(node)[k])), ChildIter(node, k + 1)))];
    assert stack[..0] == [];
    assert node.prefix[..|node.prefix|] == node.prefix;
    ChildEntriesSorted(node, from);
    PrependSorted(node.prefix, ChildEntries(node, from));
  }
}
