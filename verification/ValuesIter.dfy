/** The iterator that yields values only and keeps no key buffer. */
module ValuesIter {
  import opened Wrappers
  import opened Bytes
  import opened Node
  import opened Entries
  import opened Frames

  function ValuesOf<V>(es: seq<Entry<V>>): (r: seq<V>)
    ensures |r| == |es| && forall i :: 0 <= i < |es| ==> r[i] == es[i].value
  {
    seq(|es|, i requires 0 <= i < |es| => es[i].value)
  }

  lemma ValuesAppend<V>(s: seq<Entry<V>>, t: seq<Entry<V>>)
    ensures ValuesOf(s + t) == ValuesOf(s) + ValuesOf(t)
  {
  }

  lemma ValuesPrepend<V>(p: Key, es: seq<Entry<V>>)
    ensures ValuesOf(Prepend(p, es)) == ValuesOf(es)
  {
  }

  ghost predicate ItersOk<V>(stack: seq<ChildIter<V>>) {
    forall i :: 0 <= i < |stack| ==> stack[i].from <= 256
  }

  /** The values a stack of child iterators still stands for. */
  ghost function PendingValues<V>(stack: seq<ChildIter<V>>): seq<V>
    requires ItersOk(stack)
  {
    if stack == [] then []
    else
      var top := stack[|stack| - 1];
      ValuesOf(ChildEntries(top.node, top.from)) + PendingValues(stack[..|stack| - 1])
  }

  ghost function ValuesWork<V>(stack: seq<ChildIter<V>>): nat
    requires ItersOk(stack)
  {
    if stack == [] then 0
    else 1 + KidsSize(stack[|stack| - 1].node, stack[|stack| - 1].from) + ValuesWork(stack[..|stack| - 1])
  }

  class ValuesIter<V> {
    var rootValue: Option<V>
    var nodeIterStack: seq<ChildIter<V>>

    ghost predicate Valid()
      reads this
    {
      ItersOk(nodeIterStack)
    }

    ghost function Remaining(): seq<V>
      requires Valid()
      reads this
    {
      (if rootValue.Some? then [rootValue.value] else []) + PendingValues(nodeIterStack)
    }

    /** The values come in the order of the entries. */
    constructor New(node: Option<Node<V>>)
      ensures Valid()
      ensures Remaining() == if node.Some? then ValuesOf(Entries.Entries(node.value)) else []
    {
      rootValue := if node.Some? then node.value.value else None;
      nodeIterStack := if node.Some? then [ChildIter(node.value, 0)] else [];
      new;
      if node.Some? {
        var n := node.value;
        OwnValues(n);
        AdvanceValues(nodeIterStack, ChildIter(n, 0));
        assert nodeIterStack[0 := ChildIter(n, 0)] == nodeIterStack;
        assert nodeIterStack[..0] == [];
      }
    }

    method Next() returns (r: Option<V>)
      requires Valid()
      modifies this
      ensures Valid()
      ensures if r.Some? then old(Remaining()) == [r.value] + Remaining()
              else old(Remaining()) == [] && Remaining() == []
    {
      hide ChildEntries, ValuesOf, KidsSize, PendingValues, ValuesWork;
      if rootValue.Some? {
        r := rootValue;
        rootValue := None;
        assert [] + PendingValues(nodeIterStack) == PendingValues(nodeIterStack);
        return;
      }
      while nodeIterStack != []
        invariant Valid() && rootValue.None?
        invariant PendingValues(nodeIterStack) == old(PendingValues(nodeIterStack))
        decreases ValuesWork(nodeIterStack)
      {
        var last := |nodeIterStack| - 1;
        var top := nodeIterStack[last];
        PullValues(nodeIterStack);
        match NextEdge(Kids(top.node), top.from)
        case None =>
          nodeIterStack := nodeIterStack[..last];
        case Some(k) =>
          var node := Kids(top.node)[k];
          nodeIterStack := nodeIterStack[last := ChildIter(top.node, k + 1)];
          if node.content.Inner? {
            nodeIterStack := nodeIterStack + [ChildIter(node, 0)];
          }
          if node.value.Some? {
            return node.value;
          }
      }
      NoValues<V>();
      r := None;
    }
  }

  lemma NoValues<V>()
    ensures var none: seq<ChildIter<V>> := []; PendingValues(none) == []
  {
  }

  lemma AdvanceValues<V>(stack: seq<ChildIter<V>>, iter: ChildIter<V>)
    requires ItersOk(stack) && stack != [] && iter.from <= 256
    ensures var advanced := stack[|stack| - 1 := iter];
            && ItersOk(advanced)
            && PendingValues(advanced) ==
               ValuesOf(ChildEntries(iter.node, iter.from)) + PendingValues(stack[..|stack| - 1])
            && ValuesWork(advanced) == 1 + KidsSize(iter.node, iter.from) + ValuesWork(stack[..|stack| - 1])
  {
    var advanced := stack[|stack| - 1 := iter];
    assert advanced[..|advanced| - 1] == stack[..|stack| - 1];
  }

  lemma PushValues<V>(stack: seq<ChildIter<V>>, iter: ChildIter<V>)
    requires ItersOk(stack) && iter.from <= 256
    ensures ItersOk(stack + [iter])
    ensures PendingValues(stack + [iter]) == ValuesOf(ChildEntries(iter.node, iter.from)) + PendingValues(stack)
    ensures ValuesWork(stack + [iter]) == 1 + KidsSize(iter.node, iter.from) + ValuesWork(stack)
  {
    var pushed := stack + [iter];
    assert pushed[..|pushed| - 1] == stack;
  }

  lemma OwnValues<V>(n: Node<V>)
    ensures ValuesOf(Entries.Entries(n)) ==
            (if n.value.Some? then [n.value.value] else []) + ValuesOf(ChildEntries(n, 0))
  {
    ValuesPrepend(n.prefix, Own(n) + ChildEntries(n, 0));
    ValuesAppend(Own(n), ChildEntries(n, 0));
  }

  /** Pulling a child releases its own value and suspends those below it. */
  lemma PullValues<V>(stack: seq<ChildIter<V>>)
    requires ItersOk(stack) && stack != []
    ensures var top := stack[|stack| - 1];
            match NextEdge(Kids(top.node), top.from)
            case None =>
              ItersOk(stack[..|stack| - 1]) && PendingValues(stack) == PendingValues(stack[..|stack| - 1])
              && ValuesWork(stack[..|stack| - 1]) < ValuesWork(stack)
            case Some(k) =>
              var child := Kids(top.node)[k];
              var advanced := stack[|stack| - 1 := ChildIter(top.node, k + 1)];
              var pulled := if child.content.Inner? then advanced + [ChildIter(child, 0)] else advanced;
              && ItersOk(pulled) && ValuesWork(pulled) < ValuesWork(stack)
              && PendingValues(stack) == (if child.value.Some? then [child.value.value] else []) + PendingValues(pulled)
  {
    hide ChildEntries, ValuesOf, KidsSize, Entries.Entries, PendingValues, ValuesWork;
    var top := stack[|stack| - 1];
    TopValues(stack);
    NextEdgeEntries(top.node, top.from);
    NextEdgeSize(top.node, top.from);
    match NextEdge(Kids(top.node), top.from)
    case None =>
      NoEntries<V>();
      assert [] + PendingValues(stack[..|stack| - 1]) == PendingValues(stack[..|stack| - 1]);
    case Some(k) =>
      PullChildValues(stack, k);
  }

  lemma TopValues<V>(stack: seq<ChildIter<V>>)
    requires ItersOk(stack) && stack != []
    ensures var top, below := stack[|stack| - 1], stack[..|stack| - 1];
            && ItersOk(below)
            && PendingValues(stack) == ValuesOf(ChildEntries(top.node, top.from)) + PendingValues(below)
            && ValuesWork(stack) == 1 + KidsSize(top.node, top.from) + ValuesWork(below)
  {
  }

  lemma PullChildValues<V>(stack: seq<ChildIter<V>>, k: Byte)
    requires ItersOk(stack) && stack != []
    requires var top := stack[|stack| - 1];
             && k in Kids(top.node)
             && ChildEntries(top.node, top.from) == Entries.Entries(Kids(top.node)[k]) + ChildEntries(top.node, k + 1)
             && KidsSize(top.node, top.from) == 1 + Size(Kids(top.node)[k]) + KidsSize(top.node, k + 1)
    ensures var top := stack[|stack| - 1];
            var child := Kids(top.node)[k];
            var advanced := stack[|stack| - 1 := ChildIter(top.node, k + 1)];
            var pulled := if child.content.Inner? then advanced + [ChildIter(child, 0)] else advanced;
            && ItersOk(pulled) && ValuesWork(pulled) < ValuesWork(stack)
            && PendingValues(stack) == (if child.value.Some? then [child.value.value] else []) + PendingValues(pulled)
  {
    hide ChildEntries, ValuesOf, KidsSize, Entries.Entries, PendingValues, ValuesWork;
    var top, below := stack[|stack| - 1], stack[..|stack| - 1];
    var child, rest := Kids(top.node)[k], ChildIter(top.node, k + 1);
    var own := if child.value.Some? then [child.value.value] else [];
    TopValues(stack);
    OwnValues(child);
    ValuesAppend(Entries.Entries(child), ChildEntries(top.node, k + 1));
    AdvanceValues(stack, rest);
    PushValues(stack[|stack| - 1 := rest], ChildIter(child, 0));
    if child.content.Empty? {
      NoKids(child, 0);
      NoEntries<V>();
      assert own + [] == own;
    }
  }

  lemma NoEntries<V>()
    ensures var none: seq<Entry<V>> := []; ValuesOf(none) == []
  {
  }
}
