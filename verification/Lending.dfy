/**
 The lending traversal: a callback sees each key as the list of the prefixes on its
 path, so that no key is ever put together.
 */
module Lending {
  import opened Wrappers
  import opened Bytes
  import opened Node
  import opened Entries
  import opened Frames
  import I = Iter

  /** What the callback is shown: the key in segments with its length, and the value. */
  datatype View<+V> = View(segments: seq<Key>, len: nat, value: V)

  datatype LendFrame<+V> = LendFrame(segmentDepth: nat, keyLen: nat, iter: FrameIter<V>)

  function Join(segments: seq<Key>): Key {
    if segments == [] then [] else Join(segments[..|segments| - 1]) + segments[|segments| - 1]
  }

  lemma JoinPush(segments: seq<Key>, segment: Key)
    ensures Join(segments + [segment]) == Join(segments) + segment
  {
    assert (segments + [segment])[..|segments|] == segments;
  }

  lemma {:induction false} JoinTake(segments: seq<Key>, n: nat)
    requires n <= |segments|
    ensures Join(segments[..n]) <= Join(segments)
  {
    if n == |segments| {
      assert segments[..n] == segments;
    } else {
      JoinTake(segments[..|segments| - 1], n);
      assert segments[..|segments| - 1][..n] == segments[..n];
    }
  }

  /** The entries shown to the callback. */
  ghost function Shown<V>(views: seq<View<V>>): seq<Entry<V>> {
    seq(|views|, i requires 0 <= i < |views| => Entry(Join(views[i].segments), views[i].value))
  }

  ghost predicate LengthsOk<V>(views: seq<View<V>>) {
    forall i :: 0 <= i < |views| ==> views[i].len == |Join(views[i].segments)|
  }

  ghost function Plainly<V>(stack: seq<LendFrame<V>>): seq<Frame<V>> {
    seq(|stack|, i requires 0 <= i < |stack| => Frame(stack[i].keyLen, stack[i].iter))
  }

  /** Every frame knows how many segments, and how many bytes, belong to its node. */
  ghost predicate SegmentsOk<V>(stack: seq<LendFrame<V>>, segments: seq<Key>) {
    && (forall i :: 0 <= i < |stack| ==>
          stack[i].segmentDepth <= |segments| && |Join(segments[..stack[i].segmentDepth])| == stack[i].keyLen)
    && (forall i, j :: 0 <= i < j < |stack| ==> stack[i].segmentDepth <= stack[j].segmentDepth)
  }

  lemma TruncateSegments<V>(stack: seq<LendFrame<V>>, segments: seq<Key>, n: nat)
    requires SegmentsOk(stack, segments) && n <= |segments|
    requires forall i :: 0 <= i < |stack| ==> stack[i].segmentDepth <= n
    ensures SegmentsOk(stack, segments[..n])
  {
    forall i | 0 <= i < |stack|
      ensures segments[..n][..stack[i].segmentDepth] == segments[..stack[i].segmentDepth]
    {
    }
  }

  lemma ExtendSegments<V>(stack: seq<LendFrame<V>>, segments: seq<Key>, segment: Key)
    requires SegmentsOk(stack, segments)
    ensures SegmentsOk(stack, segments + [segment])
  {
    forall i | 0 <= i < |stack|
      ensures (segments + [segment])[..stack[i].segmentDepth] == segments[..stack[i].segmentDepth]
    {
    }
  }

  class LendingIterInner<V> {
    var nodeIterStack: seq<LendFrame<V>>
    var curSegments: seq<Key>
    var curLen: nat

    ghost predicate Valid()
      reads this
    {
      && SegmentsOk(nodeIterStack, curSegments)
      && curLen == |Join(curSegments)|
      && StackOk(Plainly(nodeIterStack), Join(curSegments))
    }

    ghost function Remaining(): seq<Entry<V>>
      requires Valid()
      reads this
    {
      Pending(Plainly(nodeIterStack), Join(curSegments))
    }

    ghost function Work(): nat
      requires Valid()
      reads this
    {
      StackWork(Plainly(nodeIterStack))
    }

    /** Below `node`, whose key is made of `segments`. */
    constructor Below(node: Node<V>, segments: seq<Key>, len: nat)
      requires WellFormed(node) && len == |Join(segments)|
      ensures Valid() && Remaining() == Prepend(Join(segments), ChildEntries(node, 0))
    {
      nodeIterStack := [LendFrame(|segments|, len, Plain(ChildIter(node, 0)))];
      curSegments, curLen := segments, len;
      new;
      I.WholeSubtree(node, Join(segments));
      assert segments[..|segments|] == segments;
      assert Plainly(nodeIterStack) == [Frame(len, Plain(ChildIter(node, 0)))];
    }

    /** Cuts the segments back to the node of the top frame. */
    method TruncateToTop()
      requires Valid()
      modifies `curSegments, `curLen
      ensures Valid() && Remaining() == old(Remaining()) && Work() == old(Work())
      ensures nodeIterStack != [] ==>
                var top := nodeIterStack[|nodeIterStack| - 1];
                && top.segmentDepth <= |old(curSegments)| && curSegments == old(curSegments)[..top.segmentDepth]
                && Join(curSegments) <= old(Join(curSegments)) && curLen == top.keyLen
    {
      hide Pending, IterOk;
      if nodeIterStack != [] {
        var top := nodeIterStack[|nodeIterStack| - 1];
        JoinTake(curSegments, top.segmentDepth);
        TruncateSegments(nodeIterStack, curSegments, top.segmentDepth);
        TruncatedStack(Plainly(nodeIterStack), Join(curSegments), Join(curSegments[..top.segmentDepth]));
        curSegments, curLen := curSegments[..top.segmentDepth], top.keyLen;
      }
    }

    /** Shows every remaining entry to the callback. */
    method VisitEach() returns (visited: seq<View<V>>)
      requires Valid()
      modifies this
      ensures Shown(visited) == old(Remaining()) && LengthsOk(visited)
    {
      visited := [];
      assert Shown(visited) + Remaining() == Remaining();
      hide Valid, Remaining, Work, Shown, Join, LengthsOk;
      var more := true;
      while more
        invariant Valid() && LengthsOk(visited)
        invariant Shown(visited) + Remaining() == old(Remaining())
        invariant !more ==> Remaining() == []
        decreases Work(), more
      {
        ghost var before := Remaining();
        var view;
        more, view := VisitNext();
        if view.Some? {
          ShowOne(visited, view.value, Remaining());
          visited := visited + [view.value];
        }
      }
      assert Shown(visited) + [] == Shown(visited);
    }

    /** One round of the loop: at most one entry is shown. */
    method VisitNext() returns (more: bool, view: Option<View<V>>)
      requires Valid()
      modifies this
      ensures Valid()
      ensures !more ==> view.None? && old(Remaining()) == Remaining() == [] && Work() == old(Work())
      ensures more ==> Work() < old(Work())
      ensures view.None? ==> old(Remaining()) == Remaining()
      ensures view.Some? ==>
                && view.value.len == |Join(view.value.segments)|
                && old(Remaining()) == [Entry(Join(view.value.segments), view.value.value)] + Remaining()
    {
      hide Remaining, Work, Join, StackOk, SegmentsOk;
      if nodeIterStack == [] {
        EmptyStack();
        return false, None;
      }
      var node := Pull();
      more, view := true, None;
      if node.Some? && node.value.value.Some? {
        view := Some(View(curSegments, curLen, node.value.value.value));
      } else {
        assert [] + Remaining() == Remaining();
      }
      if node.Some? && !node.value.content.Inner? && node.value.prefix != [] {
        TruncateToTop();
      }
    }

    lemma EmptyStack()
      requires Valid() && nodeIterStack == []
      ensures Remaining() == []
    {
    }

    /** Pulls the next child from the top frame and suspends its children, or drops a finished frame. */
    method Pull() returns (pulled: Option<Node<V>>)
      requires Valid() && nodeIterStack != []
      modifies this
      ensures Valid() && Work() < old(Work())
      ensures old(Remaining()) ==
              (if pulled.Some? && pulled.value.value.Some? then [Entry(Join(curSegments), pulled.value.value.value)]
               else [])
              + Remaining()
    {
      hide Pending, StackWork, NextChild, Join, Plainly, Pulled;
      ghost var before := Remaining();
      TruncateToTop();
      var top := nodeIterStack[|nodeIterStack| - 1];
      ghost var frames, key := Plainly(nodeIterStack), Join(curSegments);
      TopFrame(nodeIterStack);
      match NextChild(top.iter)
      case None =>
        PopPending(frames, key);
        nodeIterStack := nodeIterStack[..|nodeIterStack| - 1];
        TruncateToTop();
        pulled := None;
        assert [] + before == before;
      case Some((_, node, iter)) =>
        PullPending(frames, key);
        assert key[..top.keyLen] == key;
        I.OwnEntry(key + node.prefix, node);
        PushNode(node, iter);
        pulled := Some(node);
    }

    /** The segment of a pulled node joins the list, and the node's children the stack. */
    method PushNode(node: Node<V>, iter: FrameIter<V>)
      requires Valid() && nodeIterStack != [] && nodeIterStack[|nodeIterStack| - 1].keyLen == |Join(curSegments)|
      requires nodeIterStack[|nodeIterStack| - 1].segmentDepth == |curSegments|
      requires var key := Join(curSegments) + node.prefix;
               StackOk(Pulled(Plainly(nodeIterStack), node, iter, key), key)
      modifies this
      ensures Valid() && Join(curSegments) == old(Join(curSegments)) + node.prefix
      ensures Plainly(nodeIterStack) == Pulled(old(Plainly(nodeIterStack)), node, iter, Join(curSegments))
    {
      hide Pending, StackOk, Join, SegmentsOk, Pulled, Plainly;
      var last := |nodeIterStack| - 1;
      ghost var frames := Plainly(nodeIterStack);
      PushSegment(nodeIterStack, curSegments, node.prefix);
      PushFrame(nodeIterStack, curSegments, node, iter);
      nodeIterStack := nodeIterStack[last := nodeIterStack[last].(iter := iter)];
      if node.prefix != [] {
        curSegments := curSegments + [node.prefix];
        curLen := curLen + |node.prefix|;
      }
      if node.content.Inner? {
        nodeIterStack := nodeIterStack + [LendFrame(|curSegments|, curLen, Plain(ChildIter(node, 0)))];
      }
    }
  }

  function Pushed(segments: seq<Key>, segment: Key): seq<Key> {
    if segment == [] then segments else segments + [segment]
  }

  lemma PushSegment<V>(stack: seq<LendFrame<V>>, segments: seq<Key>, segment: Key)
    requires SegmentsOk(stack, segments)
    ensures SegmentsOk(stack, Pushed(segments, segment))
    ensures Join(Pushed(segments, segment)) == Join(segments) + segment
  {
    if segment == [] {
      assert Join(segments) + segment == Join(segments);
    } else {
      JoinPush(segments, segment);
      ExtendSegments(stack, segments, segment);
    }
  }

  /** The stack after a pull, in step with the plain stack. */
  lemma PushFrame<V>(stack: seq<LendFrame<V>>, segments: seq<Key>, node: Node<V>, iter: FrameIter<V>)
    requires SegmentsOk(stack, Pushed(segments, node.prefix)) && stack != []
    requires stack[|stack| - 1].segmentDepth <= |segments|
    ensures var after := Pushed(segments, node.prefix);
            var len := |Join(after)|;
            var advanced := stack[|stack| - 1 := stack[|stack| - 1].(iter := iter)];
            var pulled := if node.content.Inner? then advanced + [LendFrame(|after|, len, Plain(ChildIter(node, 0)))]
                          else advanced;
            && SegmentsOk(pulled, after)
            && Plainly(pulled) == Pulled(Plainly(stack), node, iter, Join(after))
  {
    hide Join, Pushed;
    var after := Pushed(segments, node.prefix);
    var len := |Join(after)|;
    PushedLonger(segments, node.prefix);
    AdvanceFrame(stack, after, iter);
    var advanced := stack[|stack| - 1 := stack[|stack| - 1].(iter := iter)];
    if node.content.Inner? {
      AddFrame(advanced, after, Plain(ChildIter(node, 0)));
    }
  }

  lemma PushedLonger(segments: seq<Key>, segment: Key)
    ensures |segments| <= |Pushed(segments, segment)|
  {
  }

  lemma AdvanceFrame<V>(stack: seq<LendFrame<V>>, segments: seq<Key>, iter: FrameIter<V>)
    requires SegmentsOk(stack, segments) && stack != []
    ensures var advanced := stack[|stack| - 1 := stack[|stack| - 1].(iter := iter)];
            && SegmentsOk(advanced, segments) && |advanced| == |stack|
            && advanced[|stack| - 1].segmentDepth == stack[|stack| - 1].segmentDepth
            && Plainly(advanced) == Plainly(stack)[|stack| - 1 := Frame(stack[|stack| - 1].keyLen, iter)]
  {
  }

  lemma AddFrame<V>(stack: seq<LendFrame<V>>, segments: seq<Key>, iter: FrameIter<V>)
    requires SegmentsOk(stack, segments)
    ensures var len := |Join(segments)|;
            var added := stack + [LendFrame(|segments|, len, iter)];
            SegmentsOk(added, segments) && Plainly(added) == Plainly(stack) + [Frame(len, iter)]
  {
    assert segments[..|segments|] == segments;
  }

  lemma TopFrame<V>(stack: seq<LendFrame<V>>)
    requires stack != []
    ensures |Plainly(stack)| == |stack|
    ensures Plainly(stack)[|stack| - 1] == Frame(stack[|stack| - 1].keyLen, stack[|stack| - 1].iter)
    ensures Plainly(stack[..|stack| - 1]) == Plainly(stack)[..|stack| - 1]
  {
  }

  lemma TruncatedStack<V>(stack: seq<Frame<V>>, key: Key, key': Key)
    requires StackOk(stack, key) && stack != [] && key' <= key && |key'| == stack[|stack| - 1].depth
    ensures StackOk(stack, key') && Pending(stack, key') == Pending(stack, key)
  {
    assert key'[..|key'|] == key[..|key'|];
    PendingTruncate(stack, key, key');
  }

  lemma ShowOne<V>(visited: seq<View<V>>, view: View<V>, later: seq<Entry<V>>)
    ensures Shown(visited + [view]) == Shown(visited) + [Entry(Join(view.segments), view.value)]
    ensures Shown(visited) + ([Entry(Join(view.segments), view.value)] + later) == Shown(visited + [view]) + later
    ensures LengthsOk(visited) && view.len == |Join(view.segments)| ==> LengthsOk(visited + [view])
  {
  }

  lemma FirstSegment(prefix: Key)
    ensures Join(Pushed([], prefix)) == prefix
  {
    JoinPush([], prefix);
  }

  /** The callback sees the root's value first, then everything below the root. */
  method ForEachWithPrefix<V>(node: Option<Node<V>>, segments: seq<Key>, len: nat) returns (visited: seq<View<V>>)
    requires node.Some? ==> WellFormed(node.value) && len == |Join(segments)|
    ensures LengthsOk(visited)
    ensures Shown(visited) ==
            if node.Some? then Prepend(Join(segments), Own(node.value) + ChildEntries(node.value, 0)) else []
  {
    hide Pending, StackOk;
    visited := [];
    if node.None? {
      return;
    }
    var root := node.value;
    I.WholeTree(root, Join(segments));
    if root.value.Some? {
      visited := [View(segments, len, root.value.value)];
    }
    if root.content.Inner? {
      var inner := new LendingIterInner<V>.Below(root, segments, len);
      var below := inner.VisitEach();
      visited := visited + below;
    }
  }

  method ForEach<V>(node: Option<Node<V>>) returns (visited: seq<View<V>>)
    requires node.Some? ==> WellFormed(node.value)
    ensures LengthsOk(visited)
    ensures Shown(visited) == if node.Some? then Entries.Entries(node.value) else []
  {
    if node.None? {
      return [];
    }
    var segments := if node.value.prefix == [] then [] else [node.value.prefix];
    assert Join(segments) == node.value.prefix by {
      JoinPush([], node.value.prefix);
      assert [] + [node.value.prefix] == [node.value.prefix];
      assert [] + node.value.prefix == node.value.prefix;
    }
    visited := ForEachWithPrefix(node, segments, |node.value.prefix|);
  }
}
