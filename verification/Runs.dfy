/**
 Whole runs of operations on any number of handles. A run over the shared memory
 replies, and leaves behind, what the same run does on plain maps, one per handle,
 where nothing is shared; hence no operation on one handle is ever seen through another.
 */
module Runs {
  import opened Wrappers
  import opened Bytes
  import opened Tree
  import opened Handles
  import opened VersionedTree

  datatype Op<!V, +E> =
    | NewTree
    | TakeSnapshot(h: Id)
    | CloneTree(h: Id)
    | DropTree(h: Id)
    | ReadKey(h: Id, key: Key)
    | InsertKey(h: Id, key: Key, value: V)
    | RemoveKey(h: Id, key: Key)
    | DeleteKey(h: Id, key: Key)
    | WriteValue(h: Id, key: Key, write: V -> V)
    | UpdateSlot(h: Id, key: Key, updater: Updater<V>)
    | TryUpdateSlot(h: Id, key: Key, callback: Callback<V, E>)
    | ConvertTree(h: Id)

  /** What an operation returns; for a slot update also what its callback was run on. */
  datatype Reply<+V, +E> =
    | Nothing
    | Opened(h: Id)
    | Value(value: Option<V>)
    | Answer(yes: bool)
    | Updated(result: Result<bool, E>, calls: seq<Option<V>>)
    | Converted(len: nat)

  /** The handles as independent maps, and the next handle to be given out. */
  datatype State<!V> = State(maps: map<Id, map<Key, V>>, next: Id)

  /** Does `op` write to, or consume, the tree of handle `h`? */
  predicate Targets<V, E>(op: Op<V, E>, h: Id) {
    Through(op, h) && !op.ReadKey?
  }

  /** Is `op` a read, a write or the end of the tree of handle `h`? */
  predicate Through<V, E>(op: Op<V, E>, h: Id) {
    match op
    case NewTree => false
    case TakeSnapshot(_) => false
    case CloneTree(_) => false
    case _ => op.h == h
  }

  /** One operation on maps; an operation on a handle that does not exist cannot be asked for. */
  ghost function Step<V, E>(s: State<V>, op: Op<V, E>): State<V> {
    if !op.NewTree? && op.h !in s.maps then s
    else
      match op
      case NewTree => State(s.maps[s.next := map[]], s.next + 1)
      case TakeSnapshot(h) => State(s.maps[s.next := s.maps[h]], s.next + 1)
      case CloneTree(h) => State(s.maps[s.next := s.maps[h]], s.next + 1)
      case DropTree(h) => s.(maps := s.maps - {h})
      case ReadKey(_, _) => s
      case InsertKey(h, key, value) => s.(maps := s.maps[h := s.maps[h][key := value]])
      case RemoveKey(h, key) => s.(maps := s.maps[h := s.maps[h] - {key}])
      case DeleteKey(h, key) => s.(maps := s.maps[h := s.maps[h] - {key}])
      case WriteValue(h, key, write) =>
        if key in s.maps[h] then s.(maps := s.maps[h := s.maps[h][key := write(s.maps[h][key])]]) else s
      case UpdateSlot(h, key, updater) => s.(maps := s.maps[h := SlotMap(s.maps[h], key, Lift(updater))])
      case TryUpdateSlot(h, key, callback) => s.(maps := s.maps[h := SlotMap(s.maps[h], key, callback)])
      case ConvertTree(h) => s.(maps := s.maps - {h})
  }

  /** What the operation returns on maps. */
  ghost function ReplyTo<V, E>(s: State<V>, op: Op<V, E>): Reply<V, E> {
    if !op.NewTree? && op.h !in s.maps then Nothing
    else
      match op
      case NewTree => Opened(s.next)
      case TakeSnapshot(_) => Opened(s.next)
      case CloneTree(_) => Opened(s.next)
      case DropTree(_) => Nothing
      case ReadKey(h, key) => Value(Find(s.maps[h], key))
      case InsertKey(h, key, _) => Value(Find(s.maps[h], key))
      case RemoveKey(h, key) => Value(Find(s.maps[h], key))
      case DeleteKey(h, key) => Answer(key in s.maps[h])
      case WriteValue(h, key, _) => Answer(key in s.maps[h])
      case UpdateSlot(h, key, updater) =>
        Updated(Ok(SlotResult(s.maps[h], key, Lift(updater)) == Ok(true)), [Find(s.maps[h], key)])
      case TryUpdateSlot(h, key, callback) => Updated(SlotResult(s.maps[h], key, callback), [Find(s.maps[h], key)])
      case ConvertTree(h) => Converted(|s.maps[h]|)
  }

  ghost function After<V, E>(s: State<V>, ops: seq<Op<V, E>>): State<V>
    decreases |ops|
  {
    if ops == [] then s else After(Step(s, ops[0]), ops[1..])
  }

  ghost function Replies<V, E>(s: State<V>, ops: seq<Op<V, E>>): seq<Reply<V, E>>
    decreases |ops|
  {
    if ops == [] then [] else [ReplyTo(s, ops[0])] + Replies(Step(s, ops[0]), ops[1..])
  }

  // ----- The shared memory does the same -----

  method Execute<V, E>(forest: VersionedForest<V>, op: Op<V, E>) returns (reply: Reply<V, E>)
    requires forest.Valid()
    modifies forest
    ensures forest.Valid()
    ensures State(forest.Maps(), forest.nextId) == Step(State(old(forest.Maps()), old(forest.nextId)), op)
    ensures reply == ReplyTo(State(old(forest.Maps()), old(forest.nextId)), op)
  {
    hide ForestOk, Model, SlotMap, SlotResult;
    ModelKeys(forest.handles, forest.trees);
    if op.NewTree? {
      var h := forest.New();
      return Opened(h);
    }
    if op.h !in forest.handles {
      return Nothing;
    }
    if op.UpdateSlot? || op.TryUpdateSlot? {
      reply := ExecuteUpdate(forest, op);
      return;
    }
    match op
    case TakeSnapshot(h) =>
      var g := forest.Snapshot(h);
      reply := Opened(g);
    case CloneTree(h) =>
      var g := forest.Clone(h);
      reply := Opened(g);
    case DropTree(h) =>
      forest.Drop(h);
      reply := Nothing;
    case ReadKey(h, key) =>
      var value := forest.Get(h, key);
      reply := Value(value);
    case InsertKey(h, key, value) =>
      var previous := forest.Insert(h, key, value);
      reply := Value(previous);
    case RemoveKey(h, key) =>
      var removed := forest.Remove(h, key);
      reply := Value(removed);
    case DeleteKey(h, key) =>
      var existed := forest.Delete(h, key);
      reply := Answer(existed);
    case WriteValue(h, key, write) =>
      var found := forest.GetMut(h, key, write);
      reply := Answer(found);
    case ConvertTree(h) =>
      var tree := forest.IntoUnversioned(h);
      reply := Converted(tree.len);
  }

  method ExecuteUpdate<V, E>(forest: VersionedForest<V>, op: Op<V, E>) returns (reply: Reply<V, E>)
    requires forest.Valid() && (op.UpdateSlot? || op.TryUpdateSlot?) && op.h in forest.handles
    modifies forest
    ensures forest.Valid()
    ensures State(forest.Maps(), forest.nextId) == Step(State(old(forest.Maps()), old(forest.nextId)), op)
    ensures reply == ReplyTo(State(old(forest.Maps()), old(forest.nextId)), op)
  {
    hide ForestOk, Model, SlotMap, SlotResult;
    ModelKeys(forest.handles, forest.trees);
    match op
    case UpdateSlot(h, key, updater) =>
      var changed, calls := forest.Update(h, key, updater);
      reply := Updated(Ok(changed), calls);
    case TryUpdateSlot(h, key, callback) =>
      var r, calls := forest.TryUpdate(h, key, callback);
      reply := Updated(r, calls);
  }

  lemma RunStep<V, E>(s: State<V>, ops: seq<Op<V, E>>, i: nat)
    requires i < |ops|
    ensures After(s, ops[i..]) == After(Step(s, ops[i]), ops[i + 1..])
    ensures Replies(s, ops[i..]) == [ReplyTo(s, ops[i])] + Replies(Step(s, ops[i]), ops[i + 1..])
  {
    hide Step, ReplyTo;
    assert ops[i..][1..] == ops[i + 1..];
  }

  /** Every run, of any length, over any number of handles. */
  method Run<V, E>(ops: seq<Op<V, E>>) returns (forest: VersionedForest<V>, replies: seq<Reply<V, E>>)
    ensures fresh(forest) && forest.Valid()
    ensures State(forest.Maps(), forest.nextId) == After(State(map[], 0), ops)
    ensures replies == Replies(State(map[], 0), ops)
  {
    forest := new VersionedForest<V>();
    replies := [];
    var i := 0;
    assert ops[0..] == ops;
    while i < |ops|
      invariant 0 <= i <= |ops| && fresh(forest) && forest.Valid()
      invariant After(State(forest.Maps(), forest.nextId), ops[i..]) == After(State(map[], 0), ops)
      invariant replies + Replies(State(forest.Maps(), forest.nextId), ops[i..]) == Replies(State(map[], 0), ops)
    {
      hide ForestOk, Model, Step, ReplyTo, After, Replies;
      RunStep(State(forest.Maps(), forest.nextId), ops, i);
      ghost var s, done := State(forest.Maps(), forest.nextId), replies;
      var reply := Execute(forest, ops[i]);
      ghost var later := Replies(Step(s, ops[i]), ops[i + 1..]);
      assert done + ([reply] + later) == done + [reply] + later;
      replies := replies + [reply];
      i := i + 1;
    }
  }

  // ----- Isolation over whole runs -----

  ghost predicate Numbered<V>(s: State<V>) {
    forall h :: h in s.maps ==> h < s.next
  }

  lemma StepFrame<V, E>(s: State<V>, op: Op<V, E>, h: Id)
    requires Numbered(s) && h in s.maps && !Targets(op, h)
    ensures Numbered(Step(s, op)) && h in Step(s, op).maps && Step(s, op).maps[h] == s.maps[h]
  {
  }

  /** A run that does not write to a tree leaves its map, whatever it does elsewhere. */
  lemma {:induction false} Isolation<V, E>(s: State<V>, ops: seq<Op<V, E>>, h: Id)
    requires Numbered(s) && h in s.maps
    requires forall i :: 0 <= i < |ops| ==> !Targets(ops[i], h)
    ensures h in After(s, ops).maps && After(s, ops).maps[h] == s.maps[h]
    decreases |ops|
  {
    if ops != [] {
      StepFrame(s, ops[0], h);
      Isolation(Step(s, ops[0]), ops[1..], h);
    }
  }

  /** The operations of a run that read, write or end one tree. */
  function OnlyOn<V, E>(ops: seq<Op<V, E>>, h: Id): (r: seq<Op<V, E>>)
    ensures forall op :: op in r ==> Through(op, h)
    decreases |ops|
  {
    if ops == [] then []
    else (if Through(ops[0], h) then [ops[0]] else []) + OnlyOn(ops[1..], h)
  }

  /** What the run returns through the handle of one tree. */
  ghost function RepliesOn<V, E>(s: State<V>, ops: seq<Op<V, E>>, h: Id): seq<Reply<V, E>>
    decreases |ops|
  {
    if ops == [] then []
    else (if Through(ops[0], h) then [ReplyTo(s, ops[0])] else []) + RepliesOn(Step(s, ops[0]), ops[1..], h)
  }

  ghost predicate Agree<V>(s: State<V>, t: State<V>, h: Id) {
    (h in s.maps <==> h in t.maps) && (h in s.maps ==> s.maps[h] == t.maps[h])
  }

  lemma StepAgree<V, E>(s: State<V>, t: State<V>, op: Op<V, E>, h: Id)
    requires h < s.next && h < t.next && Agree(s, t, h)
    ensures h < Step(s, op).next
    ensures !Through(op, h) ==> Agree(Step(s, op), t, h)
    ensures Through(op, h) ==>
              h < Step(t, op).next && Agree(Step(s, op), Step(t, op), h) && ReplyTo(s, op) == ReplyTo(t, op)
  {
    hide SlotMap, SlotResult;
  }

  /**
   What becomes of a tree, and everything that is returned through its handle, depends
   only on the operations on that tree: whatever a run does through other handles may
   as well not happen.
   */
  lemma {:induction false} NonInterference<V, E>(s: State<V>, t: State<V>, ops: seq<Op<V, E>>, h: Id)
    requires h < s.next && h < t.next && Agree(s, t, h)
    ensures Agree(After(s, ops), After(t, OnlyOn(ops, h)), h)
    ensures RepliesOn(s, ops, h) == Replies(t, OnlyOn(ops, h))
    decreases |ops|
  {
    if ops != [] {
      hide Step, ReplyTo, Agree;
      StepAgree(s, t, ops[0], h);
      if Through(ops[0], h) {
        assert OnlyOn(ops, h)[1..] == OnlyOn(ops[1..], h);
        NonInterference(Step(s, ops[0]), Step(t, ops[0]), ops[1..], h);
      } else {
        assert OnlyOn(ops, h) == OnlyOn(ops[1..], h);
        NonInterference(Step(s, ops[0]), t, ops[1..], h);
        assert RepliesOn(s, ops, h) == RepliesOn(Step(s, ops[0]), ops[1..], h);
      }
    }
  }

  lemma {:induction false} AfterNumbered<V, E>(s: State<V>, ops: seq<Op<V, E>>)
    requires Numbered(s)
    ensures Numbered(After(s, ops))
    decreases |ops|
  {
    if ops != [] {
      AfterNumbered(Step(s, ops[0]), ops[1..]);
    }
  }

  lemma {:induction false} AfterAppend<V, E>(s: State<V>, first: seq<Op<V, E>>, second: seq<Op<V, E>>)
    ensures After(s, first + second) == After(After(s, first), second)
    decreases |first|
  {
    if first == [] {
      assert first + second == second;
    } else {
      assert (first + second)[1..] == first[1..] + second;
      AfterAppend(Step(s, first[0]), first[1..], second);
    }
  }

  // ----- What reads return -----

  /** Does `op` leave what the tree of handle `h` has for `key`? */
  predicate Leaves<V, E>(op: Op<V, E>, h: Id, key: Key) {
    !Targets(op, h) || (!op.DropTree? && !op.ConvertTree? && op.key != key)
  }

  lemma StepLeaves<V, E>(s: State<V>, op: Op<V, E>, h: Id, key: Key)
    requires Numbered(s) && h in s.maps && Leaves(op, h, key)
    ensures Numbered(Step(s, op)) && h in Step(s, op).maps
    ensures Find(Step(s, op).maps[h], key) == Find(s.maps[h], key)
  {
    hide SlotMap;
    if op.UpdateSlot? && op.h == h {
      SlotMeaning(s.maps[h], op.key, Lift(op.updater));
    } else if op.TryUpdateSlot? && op.h == h {
      SlotMeaning(s.maps[h], op.key, op.callback);
    }
  }

  /** A read at the end of a run sees through whatever the run does to other keys and other trees. */
  lemma {:induction false} ReadsThrough<V, E>(s: State<V>, ops: seq<Op<V, E>>, h: Id, key: Key)
    requires Numbered(s) && h in s.maps
    requires forall i :: 0 <= i < |ops| ==> Leaves(ops[i], h, key)
    ensures |Replies(s, ops + [ReadKey(h, key)])| == |ops| + 1
    ensures Replies(s, ops + [ReadKey(h, key)])[|ops|] == Value(Find(s.maps[h], key))
    decreases |ops|
  {
    var run := ops + [ReadKey(h, key)];
    if ops == [] {
      assert run[1..] == [];
    } else {
      StepLeaves(s, ops[0], h, key);
      assert run[1..] == ops[1..] + [ReadKey(h, key)];
      ReadsThrough(Step(s, ops[0]), ops[1..], h, key);
    }
  }

  /** The reply to a read at the end of a run that starts with `first`. */
  ghost function ReadAfter<V, E>(s: State<V>, first: Op<V, E>, ops: seq<Op<V, E>>, h: Id, key: Key): Reply<V, E> {
    var replies := Replies(s, [first] + ops + [ReadKey(h, key)]);
    if replies == [] then Nothing else replies[|replies| - 1]
  }

  /**
   A read returns what was last written: after an insertion the value inserted, after
   a removal nothing, after a write the value written, and through a snapshot what the
   tree it was taken from had at that moment.
   */
  lemma ReadsLastWrite<V, E>(s: State<V>, ops: seq<Op<V, E>>, h: Id, key: Key, value: V, write: V -> V)
    requires Numbered(s) && h in s.maps
    requires forall i :: 0 <= i < |ops| ==> Leaves(ops[i], h, key)
    ensures ReadAfter(s, InsertKey(h, key, value), ops, h, key) == Value(Some(value))
    ensures ReadAfter(s, RemoveKey(h, key), ops, h, key) == Value(None)
    ensures ReadAfter(s, DeleteKey(h, key), ops, h, key) == Value(None)
    ensures key in s.maps[h] ==>
              ReadAfter(s, WriteValue(h, key, write), ops, h, key) == Value(Some(write(s.maps[h][key])))
  {
    ReadsAfterFirst(s, InsertKey(h, key, value), ops, h, key);
    ReadsAfterFirst(s, RemoveKey(h, key), ops, h, key);
    ReadsAfterFirst(s, DeleteKey(h, key), ops, h, key);
    ReadsAfterFirst(s, WriteValue(h, key, write), ops, h, key);
  }

  lemma SnapshotReads<V, E>(s: State<V>, ops: seq<Op<V, E>>, g: Id, key: Key)
    requires Numbered(s) && g in s.maps
    requires forall i :: 0 <= i < |ops| ==> Leaves(ops[i], s.next, key)
    ensures ReadAfter(s, TakeSnapshot(g), ops, s.next, key) == Value(Find(s.maps[g], key))
  {
    ReadsAfterFirst(s, TakeSnapshot(g), ops, s.next, key);
  }

  lemma ReadsAfterFirst<V, E>(s: State<V>, first: Op<V, E>, ops: seq<Op<V, E>>, h: Id, key: Key)
    requires Numbered(Step(s, first)) && h in Step(s, first).maps
    requires forall i :: 0 <= i < |ops| ==> Leaves(ops[i], h, key)
    ensures ReadAfter(s, first, ops, h, key) == Value(Find(Step(s, first).maps[h], key))
  {
    hide Step, ReplyTo, Leaves;
    var run := [first] + ops + [ReadKey(h, key)];
    assert run[0] == first && run[1..] == ops + [ReadKey(h, key)];
    ReadsThrough(Step(s, first), ops, h, key);
  }

  /**
   A snapshot taken in the middle of a run still holds, at the end of it, the map its
   tree had at that moment, unless the run wrote to the snapshot itself; and writing
   to the snapshot leaves the tree it was taken from.
   */
  lemma SnapshotFrozen<V, E>(before: seq<Op<V, E>>, g: Id, later: seq<Op<V, E>>)
    requires g in After(State(map[], 0), before).maps
    ensures var s := After(State(map[], 0), before);
            var end := After(State(map[], 0), before + [TakeSnapshot(g)] + later);
            && ((forall i :: 0 <= i < |later| ==> !Targets(later[i], s.next)) ==>
                  s.next in end.maps && end.maps[s.next] == s.maps[g])
            && ((forall i :: 0 <= i < |later| ==> !Targets(later[i], g)) ==>
                  g in end.maps && end.maps[g] == s.maps[g])
  {
    var start: State<V> := State(map[], 0);
    var s := After(start, before);
    AfterNumbered(start, before);
    AfterAppend(start, before + [TakeSnapshot(g)], later);
    AfterAppend(start, before, [TakeSnapshot(g)]);
    var op: Op<V, E> := TakeSnapshot(g);
    var taken := Step(s, op);
    assert After(s, [op]) == After(taken, [op][1..]);
    if forall i :: 0 <= i < |later| ==> !Targets(later[i], s.next) {
      Isolation(taken, later, s.next);
    }
    if forall i :: 0 <= i < |later| ==> !Targets(later[i], g) {
      Isolation(taken, later, g);
    }
  }
}
