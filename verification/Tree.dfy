/** The single-owner tree: its root, its entry count and the operations on them. */
module Tree {
  import opened Wrappers
  import opened Bytes
  import opened Node
  import opened Operations
  import opened Entries

  datatype InsertResult<+V> = Inserted | Replaced(previous: V) | Occupied(rejected: V, current: V)

  /** What a slot callback decides. */
  datatype SlotUpdate<+V> = Keep | Remove | Insert(value: V)

  /**
   A slot callback: its answer on a vacant slot, and for an occupied one the value
   it leaves in the slot together with its answer.
   */
  datatype SlotCallback<!V, +A> = SlotCallback(vacant: A, occupied: V -> (V, A))

  /** A slot callback that may fail. */
  type Callback<!V, +E> = SlotCallback<V, Result<SlotUpdate<V>, E>>

  /** A slot callback that cannot fail. */
  type Updater<!V> = SlotCallback<V, SlotUpdate<V>>

  /**
   A callback that is used up by running it. `calls` records what it was run on: None
   for a vacant slot, otherwise the value in the slot.
   */
  class CallOnce<V, A> {
    var callback: Option<SlotCallback<V, A>>
    var calls: seq<Option<V>>

    constructor (callback: SlotCallback<V, A>)
      ensures this.callback == Some(callback) && calls == []
    {
      this.callback, calls := Some(callback), [];
    }

    method RunVacant() returns (answer: A)
      requires callback.Some?
      modifies this
      ensures callback.None? && calls == old(calls) + [None]
      ensures answer == old(callback).value.vacant
    {
      answer := callback.value.vacant;
      callback, calls := None, calls + [None];
    }

    method RunOccupied(value: V) returns (left: V, answer: A)
      requires callback.Some?
      modifies this
      ensures callback.None? && calls == old(calls) + [Some(value)]
      ensures (left, answer) == old(callback).value.occupied(value)
    {
      var (v, a) := callback.value.occupied(value);
      left, answer := v, a;
      callback, calls := None, calls + [Some(value)];
    }
  }

  datatype UpdateOutcome = Unchanged | Changed | InsertedEntry | RemovedEntry | RemoveCurrent

  // ----- What the operations mean for the stored map -----

  lemma ViewIns<V>(n: Node<V>, key: Key, v: V)
    requires WellFormed(n)
    ensures WellFormed(Ins(n, key, v))
    ensures View(Ins(n, key, v)) == View(n)[key := v]
  {
    InsWellFormed(n, key, v);
    forall q
      ensures Stores(View(n)[key := v], q, Lookup(Ins(n, key, v), q))
    {
      InsLookup(n, key, v, q);
      ViewLookup(n, q);
    }
    ViewFromLookup(Ins(n, key, v), View(n)[key := v]);
  }

  lemma ViewRem<V>(n: Node<V>, key: Key, compact: bool)
    requires WellFormed(n)
    ensures match Rem(n, key, compact)
            case None => View(n) - {key} == map[]
            case Some(m) => WellFormed(m) && View(m) == View(n) - {key}
  {
    RemWellFormed(n, key, compact);
    match Rem(n, key, compact)
    case None =>
      forall q | q in View(n)
        ensures q == key
      {
        ViewLookup(n, q);
        RemLookup(n, key, compact, q);
      }
    case Some(m) =>
      forall q
        ensures Stores(View(n) - {key}, q, Lookup(m, q))
      {
        RemLookup(n, key, compact, q);
        ViewLookup(n, q);
      }
      ViewFromLookup(m, View(n) - {key});
  }

  lemma ViewLeaf<V>(key: Key, v: V)
    ensures WellFormed(NewLeaf(key, v))
    ensures View(NewLeaf(key, v)) == map[key := v]
  {
    forall q
      ensures Stores(map[key := v], q, Lookup(NewLeaf(key, v), q))
    {
      LeafLookup(key, v, q);
    }
    ViewFromLookup(NewLeaf(key, v), map[key := v]);
  }

  lemma AssignSize<V>(m: map<Key, V>, key: Key, v: V)
    ensures |m[key := v]| == if key in m then |m| else |m| + 1
  {
    assert m[key := v].Keys == m.Keys + {key};
  }

  lemma RemoveSize<V>(m: map<Key, V>, key: Key)
    ensures |m - {key}| == if key in m then |m| - 1 else |m|
  {
    assert (m - {key}).Keys == m.Keys - {key};
  }

  // ----- Recursive helpers; `cur` is rewritten to `node` -----

  /** Where a key can be: nowhere, at the node, or below one of its edges. */
  lemma LookupCases<V>(n: Node<V>, key: Key)
    ensures Lookup(n, key) ==
            if CommonPrefix(n.prefix, key) != |n.prefix| then None
            else if |n.prefix| == |key| then n.value
            else if key[|n.prefix|] in Kids(n) then Lookup(Kids(n)[key[|n.prefix|]], key[|n.prefix|..])
            else None
  {
    if n.prefix <= key {
      CommonPrefixUnique(n.prefix, key, |n.prefix|);
    }
  }

  method GetBytesIterate<V>(root: Node<V>, key: Key) returns (r: Option<V>)
    ensures r == Lookup(root, key)
  {
    var cur := root;
    var depth := 0;
    while true
      invariant depth <= |key|
      invariant Lookup(root, key) == Lookup(cur, key[depth..])
      decreases cur
    {
      hide Lookup;
      LookupCases(cur, key[depth..]);
      var prefixLen := |cur.prefix|;
      var remaining := |key| - depth;
      var common := CommonPrefix(cur.prefix, key[depth..]);
      if common != prefixLen {
        return None;
      }
      if prefixLen == remaining {
        return cur.value;
      }
      var k := key[depth + prefixLen];
      assert key[depth..][prefixLen..] == key[depth + prefixLen..];
      depth := depth + prefixLen;
      if k !in Kids(cur) {
        return None;
      }
      cur := Kids(cur)[k];
    }
  }

  /**
   The structural cases of an insertion that ends at `cur`: an empty slot, a key
   that ends inside the prefix, a split prefix, and a new edge. `lcp` is the part
   of the prefix that the key shares.
   */
  method InsertHere<V>(cur: Node<V>, key: Key, value: V, depth: nat, lcp: nat) returns (node: Node<V>)
    requires depth <= |key| && lcp == CommonPrefix(cur.prefix, key[depth..])
    requires lcp == |cur.prefix| < |key| - depth ==> key[depth + lcp] !in Kids(cur)
    ensures node == Ins(cur, key[depth..], value)
  {
    var remaining := |key| - depth;
    if lcp == |cur.prefix| == remaining {
      return cur.(value := Some(value));
    }
    if lcp == remaining {
      var lower := cur.(prefix := cur.prefix[lcp..]);
      node := NewInner(cur.prefix[..lcp]);
      node := node.(value := Some(value));
      node := AddChild(node, cur.prefix[lcp], lower);
      return;
    }
    assert key[depth..][lcp..] == key[depth + lcp..];
    var leaf := NewLeaf(key[depth + lcp..], value);
    if lcp < |cur.prefix| {
      var lower := cur.(prefix := cur.prefix[lcp..]);
      node := NewInner(cur.prefix[..lcp]);
      node := AddChild(node, cur.prefix[lcp], lower);
      node := AddChild(node, key[depth + lcp], leaf);
      return;
    }
    node := AddChild(cur, key[depth + lcp], leaf);
  }

  method InsertRecurse<V>(cur: Node<V>, key: Key, value: V, depth: nat, replace: bool)
    returns (node: Node<V>, result: InsertResult<V>)
    requires depth <= |key|
    ensures match Lookup(cur, key[depth..])
            case None => node == Ins(cur, key[depth..], value) && result == Inserted
            case Some(current) =>
              if replace then node == Ins(cur, key[depth..], value) && result == Replaced(current)
              else node == cur && result == Occupied(value, current)
    decreases cur
  {
    hide Ins, Lookup;
    var lcp := CommonPrefix(cur.prefix, key[depth..]);
    var remaining := |key| - depth;
    if lcp == |cur.prefix| == remaining && cur.value.Some? {
      ExactSlot(cur, key[depth..], value);
      if replace {
        return cur.(value := Some(value)), Replaced(cur.value.value);
      }
      return cur, Occupied(value, cur.value.value);
    }
    if lcp < |cur.prefix| || lcp == remaining || key[depth + lcp] !in Kids(cur) {
      VacantSlot(cur, key[depth..]);
      node := InsertHere(cur, key, value, depth, lcp);
      return node, Inserted;
    }
    assert cur.prefix <= key[depth..];
    assert key[depth..][lcp..] == key[depth + lcp..];
    var k := key[depth + lcp];
    DescendLookup(cur, key[depth..]);
    DescendIns(cur, key[depth..], value);
    var child;
    child, result := InsertRecurse(Kids(cur)[k], key, value, depth + lcp, replace);
    node := WithChild(cur, k, child);
    assert Kids(cur)[k := Kids(cur)[k]] == Kids(cur);
  }

  lemma VacantSlot<V>(n: Node<V>, key: Key)
    requires var lcp := CommonPrefix(n.prefix, key);
             lcp < |n.prefix| || (lcp == |key| && n.value.None?) || (lcp < |key| && key[lcp] !in Kids(n))
    ensures Lookup(n, key).None?
  {
  }

  lemma ExactSlot<V>(n: Node<V>, key: Key, value: V)
    requires CommonPrefix(n.prefix, key) == |n.prefix| == |key|
    ensures Lookup(n, key) == n.value && Ins(n, key, value) == n.(value := Some(value))
  {
    assert n.prefix == key;
  }

  lemma RemBelowAbsent<V>(parent: Node<V>, rest: Key)
    requires WellFormed(parent) && rest != []
    requires rest[0] in Kids(parent) ==> Lookup(Kids(parent)[rest[0]], rest).None?
    ensures RemBelow(parent, rest, true) == parent
  {
    if rest[0] in Kids(parent) {
      var child := Kids(parent)[rest[0]];
      RemAbsent(child, rest, true);
      assert Kids(parent)[rest[0] := child] == Kids(parent);
    }
  }

  /** What removing the key of a child amounts to for its parent. */
  lemma RemBelowHere<V>(parent: Node<V>, rest: Key)
    requires rest != [] && rest[0] in Kids(parent)
    requires var child := Kids(parent)[rest[0]]; child.prefix == rest && child.value.Some?
    ensures var child := Kids(parent)[rest[0]];
            RemBelow(parent, rest, true) ==
            if |Kids(child)| == 0 then DeleteChild(parent, rest[0])
            else WithChild(parent, rest[0], child.(value := None))
  {
  }

  /** What removing a key further below amounts to for the parent. */
  lemma RemBelowDeeper<V>(parent: Node<V>, rest: Key)
    requires rest != [] && rest[0] in Kids(parent)
    requires var child := Kids(parent)[rest[0]]; child.prefix < rest
    ensures var child := Kids(parent)[rest[0]];
            var below := RemBelow(child, rest[|child.prefix|..], true);
            RemBelow(parent, rest, true) ==
            if Pruned(below).None? then DeleteChild(parent, rest[0])
            else WithChild(parent, rest[0], below)
  {
  }

  /** Whatever is left at the parent, a node without child storage has a value. */
  lemma RemBelowLeaf<V>(n: Node<V>, rest: Key)
    requires WellFormed(n) && rest != []
    ensures RemBelow(n, rest, true).content.Empty? ==> RemBelow(n, rest, true).value.Some?
  {
    var k := rest[0];
    if k in Kids(n) && Rem(Kids(n)[k], rest, true).None? {
      var m := WithoutChild(n, k);
      if n.content.kind.Node4? && |Kids(m)| == 1 {
        RemoveEdgeCount(Kids(n), k);
        CollapseWellFormed(m);
      }
    }
  }

  method RemoveRecurse<V>(parent: Node<V>, key: Key, depth: nat)
    returns (node: Node<V>, result: Option<V>)
    requires WellFormed(parent) && depth < |key|
    ensures node == RemBelow(parent, key[depth..], true)
    ensures result == if key[depth] in Kids(parent) then Lookup(Kids(parent)[key[depth]], key[depth..]) else None
    ensures result.None? ==> node == parent
    decreases parent
  {
    hide RemBelow, Rem, DeleteChild, Lookup, WellFormed;
    var c := key[depth];
    node, result := parent, None;
    if c !in Kids(parent) {
      RemBelowAbsent(parent, key[depth..]);
      return;
    }
    var child := Kids(parent)[c];
    ghost var rest := key[depth..];
    ChildLookup(parent, rest);
    if Lookup(child, rest).None? {
      RemBelowAbsent(parent, rest);
    }

    var common := CommonPrefix(child.prefix, key[depth..]);
    if common != |child.prefix| {
      return;
    }
    assert child.prefix <= rest;
    if |child.prefix| == |key| - depth {
      assert child.prefix == rest;
      node, result := RemoveChildValue(parent, rest, c);
      return;
    }
    if child.content.Empty? {
      return;
    }
    RemBelowDeeper(parent, rest);
    RemBelowLeaf(child, rest[|child.prefix|..]);
    assert rest[|child.prefix|..] == key[depth + |child.prefix|..];
    var below;
    below, result := RemoveRecurse(child, key, depth + |child.prefix|);
    if result.Some? && below.content.Inner? && |Kids(below)| == 0 && below.value.None? {
      return DeleteChild(parent, c), result;
    }
    node := WithChild(parent, c, below);
    assert Kids(parent)[c := Kids(parent)[c]] == Kids(parent);
  }

  lemma ChildLookup<V>(parent: Node<V>, rest: Key)
    requires WellFormed(parent) && rest != [] && rest[0] in Kids(parent)
    ensures var child := Kids(parent)[rest[0]];
            && WellFormed(child) && child.prefix != []
            && Lookup(child, rest) ==
               if CommonPrefix(child.prefix, rest) != |child.prefix| then None
               else if |child.prefix| == |rest| then child.value
               else if rest[|child.prefix|] in Kids(child) then
                 Lookup(Kids(child)[rest[|child.prefix|]], rest[|child.prefix|..])
               else None
  {
    LookupCases(Kids(parent)[rest[0]], rest);
  }

  /** Takes the value off the child that the key ends at. */
  method RemoveChildValue<V>(parent: Node<V>, ghost rest: Key, c: Byte) returns (node: Node<V>, result: Option<V>)
    requires WellFormed(parent) && rest != [] && rest[0] == c && c in Kids(parent) && Kids(parent)[c].prefix == rest
    ensures node == RemBelow(parent, rest, true)
    ensures result == Kids(parent)[c].value && (result.None? ==> node == parent)
  {
    hide RemBelow, Rem, DeleteChild;
    var child := Kids(parent)[c];
    if child.value.Some? {
      RemBelowHere(parent, rest);
    } else {
      RemBelowAbsent(parent, rest);
    }
    if child.content.Empty? {
      return DeleteChild(parent, c), child.value;
    }
    result := child.value;
    child := child.(value := None);
    if result.Some? && |Kids(child)| == 0 {
      return DeleteChild(parent, c), result;
    }
    assert Kids(parent)[c := Kids(parent)[c]] == Kids(parent);
    node := WithChild(parent, c, child);
  }

  method RemoveRoot<V>(root: Node<V>, key: Key) returns (left: Option<Node<V>>, removed: Option<V>)
    requires WellFormed(root)
    ensures left == Rem(root, key, true)
    ensures removed == Lookup(root, key)
  {
    hide RemBelow, DeleteChild;
    var common := CommonPrefix(root.prefix, key);
    if common != |root.prefix| {
      return Some(root), None;
    }
    assert root.prefix <= key;
    var node := root;
    if |node.prefix| == |key| {
      if node.content.Empty? {
        return None, node.value;
      }
      removed := node.value;
      node := node.(value := None);
      left := if |Kids(node)| == 0 then None else Some(node);
      return;
    }
    RemBelowLeaf(root, key[common..]);
    node, removed := RemoveRecurse(node, key, common);
    left := Some(node);
    if node.content.Inner? && |Kids(node)| == 0 && node.value.None? {
      left := None;
    }
  }

  // ----- Slot updates -----

  /** What one callback does to the slot of `key`, whichever tree holds it. */
  ghost predicate UpdateSpec<V, E>(cur: Node<V>, key: Key, callback: Callback<V, E>, rollback: bool,
                                   node: Node<V>, outcome: Result<UpdateOutcome, E>)
  {
    match Lookup(cur, key)
    case None => (
      match callback.vacant
      case Err(e) => node == cur && outcome == Err(e)
      case Ok(Insert(v)) => node == Ins(cur, key, v) && outcome == Ok(InsertedEntry)
      case Ok(_) => node == cur && outcome == Ok(Unchanged))
    case Some(v) =>
      var (left, verdict) := callback.occupied(v);
      match verdict
      case Err(e) => node == (if rollback then cur else Ins(cur, key, left)) && outcome == Err(e)
      case Ok(Keep) => node == Ins(cur, key, left) && outcome == Ok(Changed)
      case Ok(Insert(w)) => node == Ins(cur, key, w) && outcome == Ok(Changed)
      case Ok(Remove) =>
        match Rem(cur, key, true)
        case None => outcome == Ok(RemoveCurrent)
        case Some(m) => node == m && outcome == Ok(RemovedEntry)
  }

  /** Runs the callback on a vacant slot. */
  method VacantUpdate<V, E>(update: CallOnce<V, Result<SlotUpdate<V>, E>>) returns (r: Result<Option<V>, E>)
    requires update.callback.Some?
    modifies update
    ensures update.callback.None? && update.calls == old(update.calls) + [None]
    ensures r == match old(update.callback).value.vacant
                 case Err(e) => Err(e)
                 case Ok(Insert(v)) => Ok(Some(v))
                 case Ok(_) => Ok(None)
  {
    var answer := update.RunVacant();
    match answer
    case Err(e) => r := Err(e);
    case Ok(Insert(v)) => r := Ok(Some(v));
    case Ok(Keep) => r := Ok(None);
    case Ok(Remove) => r := Ok(None);
  }

  /** Runs the callback on the occupied slot of `cur`. */
  method ApplyOccupiedUpdate<V, E>(cur: Node<V>, update: CallOnce<V, Result<SlotUpdate<V>, E>>, rollback: bool)
    returns (node: Node<V>, r: Result<UpdateOutcome, E>)
    requires update.callback.Some? && cur.value.Some?
    modifies update
    ensures update.callback.None? && update.calls == old(update.calls) + [cur.value]
    ensures UpdateSpec(cur, cur.prefix, old(update.callback).value, rollback, node, r)
  {
    assert CommonPrefix(cur.prefix, cur.prefix) == |cur.prefix|;
    var oldValue := cur.value;
    var left, answer := update.RunOccupied(cur.value.value);
    node := cur.(value := Some(left));
    match answer
    case Err(e) =>
      if rollback {
        node := node.(value := oldValue);
      }
      r := Err(e);
    case Ok(Keep) =>
      r := Ok(Changed);
    case Ok(Insert(v)) =>
      node := node.(value := Some(v));
      r := Ok(Changed);
    case Ok(Remove) =>
      node := node.(value := None);
      r := Ok(if |Kids(node)| == 0 then RemoveCurrent else RemovedEntry);
  }

  /** A slot below a child is updated by updating it in the child. */
  lemma UpdateBelow<V, E>(cur: Node<V>, key: Key, callback: Callback<V, E>, rollback: bool,
                          child: Node<V>, outcome: Result<UpdateOutcome, E>)
    requires cur.prefix < key && key[|cur.prefix|] in Kids(cur)
    requires var k := key[|cur.prefix|];
             UpdateSpec(Kids(cur)[k], key[|cur.prefix|..], callback, rollback, child, outcome)
    ensures var k := key[|cur.prefix|];
            if outcome == Ok(RemoveCurrent) then
              match Pruned(DeleteChild(cur, k))
              case None => UpdateSpec(cur, key, callback, rollback, cur, Ok(RemoveCurrent))
              case Some(m) => UpdateSpec(cur, key, callback, rollback, m, Ok(RemovedEntry))
            else UpdateSpec(cur, key, callback, rollback, WithChild(cur, k, child), outcome)
  {
    hide DeleteChild, Ins, Rem, Lookup;
    var k := key[|cur.prefix|];
    var rest := key[|cur.prefix|..];
    DescendLookup(cur, key);
    match Lookup(cur, key) {
      case None =>
        if callback.vacant.Ok? && callback.vacant.value.Insert? {
          DescendIns(cur, key, callback.vacant.value.value);
        }
      case Some(v) =>
        var (left, verdict) := callback.occupied(v);
        DescendIns(cur, key, left);
        DescendRem(cur, key);
        if verdict.Ok? && verdict.value.Insert? {
          DescendIns(cur, key, verdict.value.value);
        }
    }
    assert Kids(cur)[k := Kids(cur)[k]] == Kids(cur);
  }

  lemma DescendLookup<V>(n: Node<V>, key: Key)
    requires n.prefix < key && key[|n.prefix|] in Kids(n)
    ensures Lookup(n, key) == Lookup(Kids(n)[key[|n.prefix|]], key[|n.prefix|..])
  {
  }

  lemma DescendIns<V>(n: Node<V>, key: Key, v: V)
    requires n.prefix < key && key[|n.prefix|] in Kids(n)
    ensures var k := key[|n.prefix|];
            Ins(n, key, v) == WithChild(n, k, Ins(Kids(n)[k], key[|n.prefix|..], v))
  {
    assert CommonPrefix(n.prefix, key) == |n.prefix|;
  }

  lemma DescendRem<V>(n: Node<V>, key: Key)
    requires n.prefix < key && key[|n.prefix|] in Kids(n)
    ensures var k := key[|n.prefix|];
            Rem(n, key, true) ==
            match Rem(Kids(n)[k], key[|n.prefix|..], true)
            case None => Pruned(DeleteChild(n, k))
            case Some(child) => Some(WithChild(n, k, child))
  {
  }

  method TryUpdateRecurse<V, E>(cur: Node<V>, key: Key, depth: nat, update: CallOnce<V, Result<SlotUpdate<V>, E>>,
                                rollback: bool)
    returns (node: Node<V>, r: Result<UpdateOutcome, E>)
    requires depth <= |key| && update.callback.Some?
    modifies update
    ensures update.callback.None? && update.calls == old(update.calls) + [Lookup(cur, key[depth..])]
    ensures UpdateSpec(cur, key[depth..], old(update.callback).value, rollback, node, r)
    decreases cur
  {
    hide DeleteChild, Ins;
    ghost var callback := update.callback.value;
    node := cur;
    var lcp := CommonPrefix(cur.prefix, key[depth..]);
    var remaining := |key| - depth;
    if lcp == |cur.prefix| == remaining && cur.value.Some? {
      assert cur.prefix == key[depth..];
      node, r := ApplyOccupiedUpdate(cur, update, rollback);
      return;
    }
    if lcp < |cur.prefix| || lcp == remaining || key[depth + lcp] !in Kids(cur) {
      var inserted := VacantUpdate(update);
      match inserted {
        case Err(e) => r := Err(e);
        case Ok(None) => r := Ok(Unchanged);
        case Ok(Some(value)) =>
          node := InsertHere(cur, key, value, depth, lcp);
          r := Ok(InsertedEntry);
      }
      return;
    }
    assert key[depth..][lcp..] == key[depth + lcp..];
    var k := key[depth + lcp];
    var child;
    child, r := TryUpdateRecurse(Kids(cur)[k], key, depth + lcp, update, rollback);
    UpdateBelow(cur, key[depth..], callback, rollback, child, r);
    if r == Ok(RemoveCurrent) {
      node := DeleteChild(cur, k);
      r := Ok(if |Kids(node)| == 0 && node.value.None? then RemoveCurrent else RemovedEntry);
      return;
    }
    node := WithChild(cur, k, child);
  }

  /** The tree that an infallible slot callback leaves behind. */
  ghost function UpdatedTree<V>(n: Node<V>, key: Key, updater: Updater<V>, compact: bool): Option<Node<V>> {
    match Lookup(n, key)
    case None => Some(if updater.vacant.Insert? then Ins(n, key, updater.vacant.value) else n)
    case Some(v) =>
      var (left, action) := updater.occupied(v);
      match action
      case Keep => Some(Ins(n, key, left))
      case Insert(w) => Some(Ins(n, key, w))
      case Remove => Rem(n, key, compact)
  }

  lemma UpdatedWellFormed<V>(n: Node<V>, key: Key, updater: Updater<V>, compact: bool)
    requires WellFormed(n)
    ensures var t := UpdatedTree(n, key, updater, compact); t.Some? ==> WellFormed(t.value)
  {
    hide Ins, Rem, WellFormed, Lookup;
    RemWellFormed(n, key, compact);
    match Lookup(n, key) {
      case None =>
        if updater.vacant.Insert? {
          InsWellFormed(n, key, updater.vacant.value);
        }
      case Some(v) =>
        var (left, action) := updater.occupied(v);
        InsWellFormed(n, key, left);
        if action.Insert? {
          InsWellFormed(n, key, action.value);
        }
    }
  }

  // ----- The tree object -----

  ghost function RootView<V>(root: Option<Node<V>>): map<Key, V> {
    if root.None? then map[] else View(root.value)
  }

  ghost predicate RootCanonical<V>(root: Option<Node<V>>) {
    root.Some? ==> Canonical(root.value)
  }

  ghost function Find<V>(m: map<Key, V>, key: Key): Option<V> {
    if key in m then Some(m[key]) else None
  }

  lemma FindLookup<V>(n: Node<V>, key: Key)
    requires WellFormed(n)
    ensures Find(View(n), key) == Lookup(n, key)
  {
    ViewLookup(n, key);
  }

  lemma RemoveFromEmpty<V>(key: Key)
    ensures var none: Option<Node<V>> := None; RootView(none) == map[] && RootView(none) - {key} == map[]
  {
  }

  lemma RemoveMeaning<V>(n: Node<V>, key: Key)
    requires WellFormed(n)
    ensures RootView(Some(n)) == View(n) && Find(View(n), key) == Lookup(n, key)
    ensures RootView(Rem(n, key, true)) == View(n) - {key}
    ensures Rem(n, key, true).Some? ==> WellFormed(Rem(n, key, true).value)
    ensures |View(n) - {key}| == if Lookup(n, key).Some? then |View(n)| - 1 else |View(n)|
  {
    hide Rem, View, Lookup, WellFormed;
    ViewRem(n, key, true);
    FindLookup(n, key);
    RemoveSize(View(n), key);
  }

  class AdaptiveRadixTree<V> {
    var root: Option<Node<V>>
    var len: nat

    ghost predicate Valid()
      reads this
    {
      && (root.Some? ==> WellFormed(root.value))
      && len == |RootView(root)|
    }

    ghost function Contents(): map<Key, V>
      reads this
    {
      RootView(root)
    }

    constructor ()
      ensures Valid() && Contents() == map[] && root == None
    {
      root, len := None, 0;
    }

    method Get(key: Key) returns (r: Option<V>)
      requires Valid()
      ensures r == Find(Contents(), key)
    {
      if root.None? {
        return None;
      }
      FindLookup(root.value, key);
      r := GetBytesIterate(root.value, key);
    }

    method Insert(key: Key, value: V) returns (previous: Option<V>)
      requires Valid()
      modifies this
      ensures Valid()
      ensures Contents() == old(Contents())[key := value] && len == |Contents()|
      ensures previous == Find(old(Contents()), key)
      ensures root == Some(if old(root).None? then NewLeaf(key, value) else Ins(old(root).value, key, value))
      ensures old(RootCanonical(root)) ==> RootCanonical(root)
    {
      hide Ins;
      if root.None? {
        ViewLeaf(key, value);
        root := Some(NewLeaf(key, value));
        len := 1;
        return None;
      }
      ghost var before := root.value;
      ViewIns(before, key, value);
      FindLookup(before, key);
      AssignSize(View(before), key, value);
      if Canonical(before) {
        InsCanonical(before, key, value);
      }
      var node, result := InsertRecurse(root.value, key, value, 0, true);
      assert key[0..] == key;
      root := Some(node);
      match result
      case Inserted =>
        len := len + 1;
        previous := None;
      case Replaced(v) =>
        previous := Some(v);
    }

    /** Inserts only into a vacant slot; otherwise hands the value back with the current one. */
    method TryInsert(key: Key, value: V) returns (r: Result<(), (V, V)>)
      requires Valid()
      modifies this
      ensures Valid()
      ensures match Find(old(Contents()), key)
              case None =>
                && r == Ok(()) && Contents() == old(Contents())[key := value] && len == old(len) + 1
                && root == Some(if old(root).None? then NewLeaf(key, value) else Ins(old(root).value, key, value))
              case Some(current) => r == Err((value, current)) && root == old(root) && len == old(len)
      ensures old(RootCanonical(root)) ==> RootCanonical(root)
    {
      hide Ins;
      if root.None? {
        ViewLeaf(key, value);
        root := Some(NewLeaf(key, value));
        len := 1;
        return Ok(());
      }
      ghost var before := root.value;
      ViewIns(before, key, value);
      FindLookup(before, key);
      AssignSize(View(before), key, value);
      if Canonical(before) {
        InsCanonical(before, key, value);
      }
      var node, result := InsertRecurse(root.value, key, value, 0, false);
      assert key[0..] == key;
      root := Some(node);
      match result
      case Inserted =>
        len := len + 1;
        r := Ok(());
      case Occupied(rejected, current) =>
        r := Err((rejected, current));
    }

    method Remove(key: Key) returns (removed: Option<V>)
      requires Valid()
      modifies this
      ensures Valid()
      ensures Contents() == old(Contents()) - {key} && len == |Contents()|
      ensures removed == Find(old(Contents()), key)
      ensures root == if old(root).None? then None else Rem(old(root).value, key, true)
    {
      hide Rem, View, Lookup, WellFormed, RootView;
      if root.None? {
        RemoveFromEmpty<V>(key);
        return None;
      }
      ghost var before := root.value;
      RemoveMeaning(before, key);
      root, removed := RemoveRoot(root.value, key);
      if removed.Some? {
        len := len - 1;
      }
    }

    method Delete(key: Key) returns (existed: bool)
      requires Valid()
      modifies this
      ensures Valid()
      ensures Contents() == old(Contents()) - {key} && len == |Contents()|
      ensures existed == (key in old(Contents()))
    {
      var removed := Remove(key);
      existed := removed.Some?;
    }

    /**
     Runs the callback once, on the slot of `key`. An occupied slot that the callback
     has changed before failing is restored.
     */
    method TryUpdate<E>(key: Key, callback: Callback<V, E>) returns (r: Result<bool, E>, calls: seq<Option<V>>)
      requires Valid()
      modifies this
      ensures Valid()
      ensures calls == [Find(old(Contents()), key)]
      ensures SlotUpdated(old(Contents()), key, callback, Contents(), r)
      ensures root == SlotRoot(old(root), key, callback) && len == |Contents()|
      ensures r.Err? ==> root == old(root) && len == old(len)
    {
      hide Ins, Rem, RemBelow, DeleteChild, View, Lookup, WellFormed, UpdateSpec;
      var update := new CallOnce(callback);
      if root.None? {
        var inserted := VacantUpdate(update);
        calls := update.calls;
        match inserted {
          case Err(e) => return Err(e), calls;
          case Ok(None) => return Ok(false), calls;
          case Ok(Some(value)) =>
            ViewLeaf(key, value);
            root := Some(NewLeaf(key, value));
            len := 1;
            return Ok(true), calls;
        }
      }
      ghost var before := root.value;
      assert key[0..] == key;
      FindLookup(before, key);
      var node, outcome := TryUpdateRecurse(root.value, key, 0, update, true);
      calls := update.calls;
      UpdateMeaning(before, key, callback, node, outcome);
      SpecRoot(before, key, callback, node, outcome);
      r := StoreOutcome(node, outcome);
    }

    /** Runs a callback that cannot fail once, on the slot of `key`; nothing is kept to roll back to. */
    method Update(key: Key, updater: Updater<V>) returns (changed: bool, calls: seq<Option<V>>)
      requires Valid()
      modifies this
      ensures Valid()
      ensures calls == [Find(old(Contents()), key)]
      ensures SlotUpdated(old(Contents()), key, Lift(updater), Contents(), Ok(changed))
      ensures root == SlotRoot(old(root), key, Lift(updater)) && len == |Contents()|
    {
      hide Ins, Rem, RemBelow, DeleteChild, View, Lookup, WellFormed, UpdateSpec;
      var callback := Lift(updater);
      var update := new CallOnce(callback);
      if root.None? {
        var inserted := VacantUpdate(update);
        calls := update.calls;
        if inserted.value.None? {
          return false, calls;
        }
        ViewLeaf(key, inserted.value.value);
        root := Some(NewLeaf(key, inserted.value.value));
        len := 1;
        return true, calls;
      }
      ghost var before := root.value;
      assert key[0..] == key;
      FindLookup(before, key);
      var node, outcome := TryUpdateRecurse(root.value, key, 0, update, false);
      calls := update.calls;
      InfallibleSpec(before, key, updater, node, outcome);
      UpdateMeaning(before, key, callback, node, outcome);
      SpecRoot(before, key, callback, node, outcome);
      var r := StoreOutcome(node, outcome);
      changed := r.value;
    }

    /** Writes the outcome of the recursion to the root and the entry count. */
    method StoreOutcome<E>(node: Node<V>, outcome: Result<UpdateOutcome, E>) returns (r: Result<bool, E>)
      requires outcome == Ok(RemovedEntry) || outcome == Ok(RemoveCurrent) ==> len > 0
      modifies this
      ensures root == if outcome == Ok(RemoveCurrent) then None else Some(node)
      ensures len == old(len) + (if outcome == Ok(InsertedEntry) then 1
                                 else if outcome == Ok(RemovedEntry) || outcome == Ok(RemoveCurrent) then -1 else 0)
      ensures r == if outcome.Err? then Err(outcome.error) else Ok(outcome != Ok(Unchanged))
    {
      root := Some(node);
      match outcome {
        case Err(e) => r := Err(e);
        case Ok(Unchanged) => r := Ok(false);
        case Ok(Changed) => r := Ok(true);
        case Ok(InsertedEntry) =>
          len := len + 1;
          r := Ok(true);
        case Ok(RemovedEntry) =>
          len := len - 1;
          r := Ok(true);
        case Ok(RemoveCurrent) =>
          root := None;
          len := len - 1;
          r := Ok(true);
      }
    }
  }

  /** Without failures there is nothing to roll back. */
  lemma InfallibleSpec<V>(n: Node<V>, key: Key, updater: Updater<V>, node: Node<V>, outcome: Result<UpdateOutcome, ()>)
    requires UpdateSpec(n, key, Lift(updater), false, node, outcome)
    ensures UpdateSpec(n, key, Lift(updater), true, node, outcome) && outcome.Ok?
  {
    hide Ins, Rem, Lookup;
  }

  /** What a slot callback means for the map; a failure means nothing at all. */
  ghost function SlotMap<V, E>(m: map<Key, V>, key: Key, callback: Callback<V, E>): map<Key, V> {
    if key !in m then
      match callback.vacant
      case Ok(Insert(v)) => m[key := v]
      case _ => m
    else
      var (left, verdict) := callback.occupied(m[key]);
      match verdict
      case Err(_) => m
      case Ok(Keep) => m[key := left]
      case Ok(Insert(w)) => m[key := w]
      case Ok(Remove) => m - {key}
  }

  /** Visiting an occupied slot counts as a change, leaving a vacant one vacant does not. */
  ghost function SlotResult<V, E>(m: map<Key, V>, key: Key, callback: Callback<V, E>): Result<bool, E> {
    if key !in m then
      match callback.vacant
      case Err(e) => Err(e)
      case Ok(action) => Ok(action.Insert?)
    else
      match callback.occupied(m[key]).1
      case Err(e) => Err(e)
      case Ok(_) => Ok(true)
  }

  /** The root of the single-owner tree after a slot callback. */
  ghost function SlotRoot<V, E>(root: Option<Node<V>>, key: Key, callback: Callback<V, E>): Option<Node<V>> {
    if root.None? || Lookup(root.value, key).None? then
      match callback.vacant
      case Ok(Insert(v)) => Some(if root.None? then NewLeaf(key, v) else Ins(root.value, key, v))
      case _ => root
    else
      var (left, verdict) := callback.occupied(Lookup(root.value, key).value);
      match verdict
      case Err(_) => root
      case Ok(Keep) => Some(Ins(root.value, key, left))
      case Ok(Insert(w)) => Some(Ins(root.value, key, w))
      case Ok(Remove) => Rem(root.value, key, true)
  }

  lemma SpecRoot<V, E>(n: Node<V>, key: Key, callback: Callback<V, E>, node: Node<V>, outcome: Result<UpdateOutcome, E>)
    requires UpdateSpec(n, key, callback, true, node, outcome)
    ensures SlotRoot(Some(n), key, callback) == if outcome == Ok(RemoveCurrent) then None else Some(node)
  {
    hide Ins, Rem, Lookup;
  }

  /** A slot callback has its say over one key; every other key keeps what it has. */
  lemma SlotMeaning<V, E>(m: map<Key, V>, key: Key, callback: Callback<V, E>)
    ensures forall q :: q != key ==>
              && (q in SlotMap(m, key, callback) <==> q in m)
              && (q in m ==> SlotMap(m, key, callback)[q] == m[q])
    ensures key !in m ==>
              match callback.vacant
              case Ok(Insert(v)) =>
                && key in SlotMap(m, key, callback) && SlotMap(m, key, callback)[key] == v
                && SlotResult(m, key, callback) == Ok(true)
              case Ok(_) => key !in SlotMap(m, key, callback) && SlotResult(m, key, callback) == Ok(false)
              case Err(e) => key !in SlotMap(m, key, callback) && SlotResult(m, key, callback) == Err(e)
    ensures key in m ==>
              match callback.occupied(m[key]).1
              case Ok(Remove) => key !in SlotMap(m, key, callback) && SlotResult(m, key, callback) == Ok(true)
              case Ok(Insert(w)) =>
                && key in SlotMap(m, key, callback) && SlotMap(m, key, callback)[key] == w
                && SlotResult(m, key, callback) == Ok(true)
              case Ok(Keep) =>
                && key in SlotMap(m, key, callback) && SlotMap(m, key, callback)[key] == callback.occupied(m[key]).0
                && SlotResult(m, key, callback) == Ok(true)
              case Err(e) =>
                && key in SlotMap(m, key, callback) && SlotMap(m, key, callback)[key] == m[key]
                && SlotResult(m, key, callback) == Err(e)
  {
  }

  ghost predicate SlotUpdated<V, E>(m: map<Key, V>, key: Key, callback: Callback<V, E>,
                                    m': map<Key, V>, r: Result<bool, E>)
  {
    m' == SlotMap(m, key, callback) && r == SlotResult(m, key, callback)
  }

  /** The root and the change of size that an outcome stands for. */
  ghost predicate OutcomeMeans<V, E>(n: Node<V>, key: Key, callback: Callback<V, E>, node: Node<V>,
                                     outcome: Result<UpdateOutcome, E>)
  {
    var root := if outcome == Ok(RemoveCurrent) then None else Some(node);
    && (root.Some? ==> WellFormed(node))
    && RootView(root) == SlotMap(View(n), key, callback)
    && (if outcome.Err? then Err(outcome.error) else Ok(outcome != Ok(Unchanged))) == SlotResult(View(n), key, callback)
    && |RootView(root)| == |View(n)| +
         (if outcome == Ok(InsertedEntry) then 1
          else if outcome == Ok(RemovedEntry) || outcome == Ok(RemoveCurrent) then -1
          else 0)
    && (outcome.Err? ==> node == n)
  }

  /** The structural outcome of a slot update tells the new map and its size. */
  lemma UpdateMeaning<V, E>(n: Node<V>, key: Key, callback: Callback<V, E>,
                            node: Node<V>, outcome: Result<UpdateOutcome, E>)
    requires WellFormed(n) && UpdateSpec(n, key, callback, true, node, outcome)
    ensures OutcomeMeans(n, key, callback, node, outcome)
  {
    hide WellFormed, OutcomeMeans, UpdateSpec, Lookup;
    if Lookup(n, key).None? {
      VacantMeaning(n, key, callback, node, outcome);
    } else {
      OccupiedMeaning(n, key, callback, node, outcome);
    }
  }

  lemma VacantMeaning<V, E>(n: Node<V>, key: Key, callback: Callback<V, E>,
                            node: Node<V>, outcome: Result<UpdateOutcome, E>)
    requires WellFormed(n) && UpdateSpec(n, key, callback, true, node, outcome) && Lookup(n, key).None?
    ensures OutcomeMeans(n, key, callback, node, outcome)
  {
    hide Ins, Rem, Lookup, WellFormed, View, RootView;
    UnchangedMeaning(n, key);
    if callback.vacant.Ok? && callback.vacant.value.Insert? {
      InsertMeaning(n, key, callback.vacant.value.value);
    }
  }

  lemma OccupiedMeaning<V, E>(n: Node<V>, key: Key, callback: Callback<V, E>,
                              node: Node<V>, outcome: Result<UpdateOutcome, E>)
    requires WellFormed(n) && UpdateSpec(n, key, callback, true, node, outcome) && Lookup(n, key).Some?
    ensures OutcomeMeans(n, key, callback, node, outcome)
  {
    hide OutcomeMeans, UpdateSpec, Lookup, WellFormed;
    if callback.occupied(Lookup(n, key).value).1 == Ok(Remove) {
      RemovedMeaning(n, key, callback, node, outcome);
    } else {
      ReplacedMeaning(n, key, callback, node, outcome);
    }
  }

  lemma RemovedMeaning<V, E>(n: Node<V>, key: Key, callback: Callback<V, E>,
                             node: Node<V>, outcome: Result<UpdateOutcome, E>)
    requires WellFormed(n) && UpdateSpec(n, key, callback, true, node, outcome)
    requires Lookup(n, key).Some? && callback.occupied(Lookup(n, key).value).1 == Ok(Remove)
    ensures OutcomeMeans(n, key, callback, node, outcome)
  {
    hide UpdateSpec, SlotMap, SlotResult, Rem, Lookup, WellFormed, View, RootView;
    RemovedCase(n, key, callback, node, outcome);
    UnchangedMeaning(n, key);
    SlotRemoved(View(n), key, callback);
    RemoveMeaning(n, key);
  }

  lemma RemovedCase<V, E>(n: Node<V>, key: Key, callback: Callback<V, E>,
                          node: Node<V>, outcome: Result<UpdateOutcome, E>)
    requires UpdateSpec(n, key, callback, true, node, outcome)
    requires Lookup(n, key).Some? && callback.occupied(Lookup(n, key).value).1 == Ok(Remove)
    ensures Rem(n, key, true) == if outcome == Ok(RemoveCurrent) then None else Some(node)
    ensures outcome == Ok(RemoveCurrent) || outcome == Ok(RemovedEntry)
  {
    hide Ins, Rem, Lookup;
  }

  lemma SlotRemoved<V, E>(m: map<Key, V>, key: Key, callback: Callback<V, E>)
    requires key in m && callback.occupied(m[key]).1 == Ok(Remove)
    ensures SlotMap(m, key, callback) == m - {key} && SlotResult(m, key, callback) == Ok(true)
  {
  }

  lemma ReplacedMeaning<V, E>(n: Node<V>, key: Key, callback: Callback<V, E>,
                              node: Node<V>, outcome: Result<UpdateOutcome, E>)
    requires WellFormed(n) && UpdateSpec(n, key, callback, true, node, outcome)
    requires Lookup(n, key).Some? && callback.occupied(Lookup(n, key).value).1 != Ok(Remove)
    ensures OutcomeMeans(n, key, callback, node, outcome)
  {
    hide Ins, Rem, Lookup, WellFormed, View, RootView;
    UnchangedMeaning(n, key);
    var (left, verdict) := callback.occupied(Lookup(n, key).value);
    match verdict
    case Err(_) =>
    case Ok(Keep) => InsertMeaning(n, key, left);
    case Ok(Insert(w)) => InsertMeaning(n, key, w);
  }

  lemma UnchangedMeaning<V>(n: Node<V>, key: Key)
    requires WellFormed(n)
    ensures RootView(Some(n)) == View(n) && (key in View(n) <==> Lookup(n, key).Some?)
    ensures key in View(n) ==> View(n)[key] == Lookup(n, key).value
  {
    hide View, Lookup, WellFormed;
    FindLookup(n, key);
  }

  lemma InsertMeaning<V>(n: Node<V>, key: Key, v: V)
    requires WellFormed(n)
    ensures WellFormed(Ins(n, key, v)) && RootView(Some(Ins(n, key, v))) == View(n)[key := v]
    ensures |View(n)[key := v]| == if Lookup(n, key).Some? then |View(n)| else |View(n)| + 1
  {
    hide Ins, View, Lookup, WellFormed;
    ViewIns(n, key, v);
    AssignSize(View(n), key, v);
    FindLookup(n, key);
  }

  /** An infallible callback as a fallible one. */
  function Lift<V>(updater: Updater<V>): Callback<V, ()> {
    SlotCallback(Ok(updater.vacant), v => var (left, action) := updater.occupied(v); (left, Ok(action)))
  }

  /** What an infallible slot update means for the map. */
  lemma UpdatedMeaning<V>(n: Node<V>, key: Key, updater: Updater<V>)
    requires WellFormed(n)
    ensures SlotUpdated(View(n), key, Lift(updater), RootView(UpdatedTree(n, key, updater, false)),
                        Ok(Lookup(n, key).Some? || updater.vacant.Insert?))
  {
    hide Ins, Rem, Lookup, WellFormed, View;
    FindLookup(n, key);
    match Lookup(n, key) {
      case None =>
        if updater.vacant.Insert? {
          ViewIns(n, key, updater.vacant.value);
        }
      case Some(v) =>
        var (left, action) := updater.occupied(v);
        ViewIns(n, key, left);
        ViewRem(n, key, false);
        if action.Insert? {
          ViewIns(n, key, action.value);
        }
    }
  }
}
