# Adaptive radix tree: a verified model

`rart` is an ordered map from byte strings to values. Keys are stored in a radix tree
with compressed prefixes and four child layouts that grow and shrink with the number
of children. There are two trees: one with a single owner, and a copy-on-write tree
whose snapshots share reference-counted nodes. This project models both and proves
what they promise, in four layers.

- **Child layouts and bits** (`Bits`, `Bitset`, `BitArray`, `U8Keys`, `ChildMap`,
  `SortedKeyedMapping`, `IndexedMapping`, `DirectMapping`, `Layouts`, `WordMatch`,
  `IntegerKeys`). Arrays and bitsets are proved to implement maps from edge byte to
  child that are listed by ascending edge; the conversions at the thresholds keep them.
- **Single-owner tree** (`Bytes`, `Node`, `Operations`, `Entries`, `CanonicalForm`,
  `Tree`, `BulkLoad`). A node is owned by one parent, so it is a value here, and what the
  program does through a mutable reference takes the old node and gives the new one; the
  tree itself is a class. `Operations.Ins` and `Operations.Rem` say what insertion and
  removal do to a tree, and what that means for the stored map is proved about them.
  `Node.WellFormed` is what every operation keeps; `Node.Canonical` is the stronger form
  that insertion and bulk loading reach and that removal may leave.
- **Traversals** (`Frames`, `Iter`, `ValuesIter`, `Lending`, `Range`, `PrefixMatch`,
  `PrefixSubtree`, `Intersect`, `IntersectViews`, `SegmentOrder`). Each is compared with the sorted entry
  list of the tree. An iterator object has a function `Remaining`, the entries still to
  come; `Next` takes the first of them.
- **Copy-on-write tree** (`Bags`, `ArcHeap`, `Handles`, `VersionedTree`, `PathCopy`,
  `Runs`). Nodes live in an explicit memory with addresses and strong counts. The
  invariant `ArcHeap.Sound` says that every count is the number of references from nodes
  and from outside, that children are not newer than their parents, and which tree every
  address stands for. Operations on handles are steps over that memory; each is proved to
  change the map of its own handle and no other, and `Runs` extends this to whole runs.

Some conventions. Keys and prefixes are sequences of bytes of any length. A callback that
receives a mutable slot is a pair: the value it leaves behind and its verdict; on its way
to the slot it is an object of class `Tree.CallOnce`, which can be run only once and
records what it was run on. A callback that is invoked repeatedly is the sequence of what
it is shown. A panic on bad input is the result None. Versions, counts and lengths are
unbounded.

Removal does not restore the canonical form, as `RemovalCounterexample` shows; `RemCanonical`
gives the exact condition under which it does.

## Model

| member | source | states |
|---|---|---|
| Operations.InsLookup | rart/src/tree.rs:1741-1840 | After an insertion the inserted key has the new value and every other key answers as before, in all structural cases: exact, key ends inside a prefix, split, new edge, descent |
| Operations.InsWellFormed | rart/src/tree.rs:1741-1840 | Insertion keeps edges and first prefix bytes in step, leaves with values, and layouts within capacity |
| Operations.InsCanonical | rart/src/tree.rs:1741-1840 | Insertion leaves no superfluous node and always the smallest layout that fits |
| Operations.RemLookup | rart/src/tree.rs:1842-1905 | Removal forgets exactly the removed key, with or without compacting the layouts, also below value-less one-child nodes |
| Operations.RemWellFormed | rart/src/tree.rs:1842-1905 | Every subtree that survives a removal still holds a value, and no layout is over capacity |
| Operations.CollapseLookup | rart/src/node.rs:277-304 | Merging a value-less node with its only child preserves every lookup below it |
| Operations.MergeExactly | rart/src/node.rs:157-197 | Deleting a child merges the node into its last child exactly when it is a Node4 without a value that keeps one child; otherwise only the child is gone |
| Operations.RemKeepsLayout | rart/src/versioned_tree.rs:2793-2852 | A removal from the copy-on-write tree keeps the layout, prefix and value of every node on the way and every subtree off it, however few children are left |
| Tree.InsertRecurse | rart/src/tree.rs:1741-1840 | Computes the inserted tree and the previous value; without `replace` an occupied slot is left alone and the new value handed back |
| Tree.RemoveRecurse | rart/src/tree.rs:1842-1905 | Computes the tree without the key and the removed value; an absent key leaves the tree as it was |
| Tree.CallOnce.RunVacant | rart/src/tree.rs:1994-2005 | Running a callback on a vacant slot uses it up and is recorded |
| Tree.CallOnce.RunOccupied | rart/src/tree.rs:2007-2023 | Running a callback on an occupied slot uses it up and records the value it was shown |
| Tree.TryUpdateRecurse | rart/src/tree.rs:2114-2299 | Runs the callback exactly once, on the slot of the key, and leaves the tree that its verdict calls for; an emptied chain is reported upwards and pruned exactly; with rollback a failure leaves the tree unchanged |
| Tree.GetBytesIterate | rart/src/tree.rs:1140-1161 | The read loop finds the value of the key |
| Tree.AdaptiveRadixTree.Insert | rart/src/tree.rs:473-490 | The stored map gains the entry, the old value is returned, `len` stays the number of keys, a canonical tree stays canonical |
| Tree.AdaptiveRadixTree.TryInsert | rart/src/tree.rs:512-534 | Inserts only into a vacant slot; otherwise nothing changes and both values are handed back |
| Tree.AdaptiveRadixTree.Remove | rart/src/tree.rs:549-588 | The stored map loses the key, the old value is returned, `len` stays the number of keys |
| Tree.AdaptiveRadixTree.Delete | rart/src/tree.rs:605-607 | Removes the key and says whether it was stored |
| Tree.AdaptiveRadixTree.TryUpdate | rart/src/tree.rs:1950-1992 | The callback is run once, on what the map holds for the key; root, map and `len` change as it decides; a failure leaves root and `len` as they were |
| Tree.AdaptiveRadixTree.Update | rart/src/tree.rs:1907-1948 | The same for callbacks that cannot fail, without anything kept for a rollback |
| Tree.UpdateMeaning | rart/src/tree.rs:1950-2087 | The outcome reported by the recursion determines the new map and the change of its size |
| Tree.SlotMeaning | rart/src/tree.rs:609-614 | A slot callback has its say over one key: what it holds afterwards and what is reported, verdict by verdict; every other key keeps its value |
| CanonicalForm.CanonicalUnique | rart/src/node.rs:131-155 | Two canonical trees with the same map are equal node by node: prefixes, values, layout kinds and children |
| CanonicalForm.InsertionOrderUnobservable | rart/src/tree.rs:1741-1840 | Any two series of insertions that end in the same map end in the same tree |
| CanonicalForm.RemCanonical | rart/src/node.rs:277-304 | A removal from a canonical tree yields a canonical tree if and only if the removed key's node does not keep exactly one child, and its parent does not keep a value while losing its only child |
| CanonicalForm.RemovalCounterexample | rart/src/node.rs:280-282 | A concrete canonical tree that removal leaves with a superfluous node |
| CanonicalForm.ShrinkMatchesGrow | rart/src/node.rs:157-197 | The shrink thresholds are the grow thresholds read backwards |
| BulkLoad.BuildBulkNode | rart/src/tree.rs:969-1024 | The bottom-up builder yields a canonical subtree that answers exactly from its run of items |
| BulkLoad.ChildGroupCount | rart/src/tree.rs:1102-1114 | Counts the runs of equal next bytes, which decides the layout of a bulk-built node |
| BulkLoad.UniqueSorted | rart/src/tree.rs:125-149 | Fails exactly when some key is below its predecessor; otherwise keeps the last of equal adjacent keys |
| CanonicalForm.LastAssigned | rart/src/tree.rs:121-149 | The map of a list of entries has exactly their keys, each with the value of its last entry |
| BulkLoad.BulkIsInsertion | rart/src/tree.rs:960-1024 | A bulk-built tree is structurally the tree that any series of insertions with the same final map builds |
| BulkLoad.BulkLoadSorted | rart/src/tree.rs:125-149 | Bulk loading gives the very root that inserting the items one by one gives, with the right `len`; every key holds the value of its last item, equal neighbours included; it fails exactly when some key is below its predecessor |
| BulkLoad.InsertInAnyOrder | rart/src/tree.rs:473-490 | Insertion by insertion through the tree object reaches that root, whatever the order |
| Entries.EntriesLookup | rart/src/iter.rs:804-863 | An entry is in the in-order listing of a tree exactly when looking up its key finds its value |
| Entries.EntriesSorted | rart/src/iter.rs:804-863 | The in-order listing is strictly ascending by key |
| Entries.ViewSize | rart/src/tree.rs:913-915 | The listing is as long as the stored map is large |
| Frames.PullPending | rart/src/iter.rs:820-829 | Pulling a node from the top frame releases its own entry and suspends those below it; the rest of the stack is unaffected by the longer key buffer |
| Iter.IterInner.Next | rart/src/iter.rs:804-863 | Yields the first remaining entry, its key rebuilt from the truncated buffer; dropping the start filter after the first hit loses nothing |
| Iter.BuildPositionedStack | rart/src/iter.rs:252-301 | The seek at the root skips only entries before the start bound |
| Iter.Iter.New | rart/src/iter.rs:321-343 | Stands for all entries of the tree, the root's own first |
| Iter.Iter.NewWithPrefix | rart/src/iter.rs:346-371 | Stands for all entries of a subtree under its full key |
| Bytes.LessMeaning | rart/src/iter.rs:804-863 | Keys are ordered by the first byte at which they differ, and a proper prefix comes first |
| Frames.BoundMeaning | rart/src/iter.rs:374-424 | An included bound admits its own key and an excluded one does not, for every key and either end |
| Frames.BoundsComplement | rart/src/iter.rs:374-424 | An end bound cuts off exactly what a start bound of the other kind admits |
| Iter.Iter.NewWithStartBound | rart/src/iter.rs:374-424 | Stands for exactly the entries at or after an included start and strictly after an excluded one |
| Iter.Iter.Next | rart/src/iter.rs:796-798 | Yields the remaining entries one by one |
| ValuesIter.ValuesIter.New | rart/src/iter.rs:876-888 | Stands for the values of the entries, in entry order |
| ValuesIter.ValuesIter.Next | rart/src/iter.rs:894-918 | Yields the remaining values one by one without any key buffer |
| Lending.LendingIterInner.VisitEach | rart/src/iter.rs:509-572 | The unbounded lending traversal shows exactly the remaining entries; the segments of each view concatenate to its key and their lengths add up |
| SegmentOrder.EqSlice | rart/src/iter.rs:91-105 | Tells whether the joined segments are the slice |
| SegmentOrder.CmpSlice | rart/src/iter.rs:107-127 | Orders the joined segments and the slice, except that a first segment that ends within the slice puts the key before it |
| SegmentOrder.VerdictExact | rart/src/iter.rs:471-491 | That answer is right if and only if the first segment does not end within the slice, or the rest of the key is below the rest of the slice |
| SegmentOrder.VerdictCounterexample | rart/src/iter.rs:471-491 | A concrete key in two segments that is above the slice and is said to be below it |
| Lending.ForEach | rart/src/iter.rs:635-667 | Shows all entries of a tree in order |
| Lending.ForEachWithPrefix | rart/src/iter.rs:669-698 | Shows all entries of a subtree whose key is given in segments |
| Range.Range.Next | rart/src/range.rs:45-62 | Yields the remaining entries up to the end, which belongs to the range exactly when it is included; once it has returned None everything left lies beyond the end, although the inner iterator moves on |
| Range.RangeOf | rart/src/tree.rs:751-775 | A range stands for exactly the part of the stored map between its bounds, ascending, for every pair of bound kinds |
| Range.Collect | rart/src/tree.rs:751-775 | Running a range to its end lists, in ascending order, exactly that part of the stored map |
| Intersect.SameByte | rart/src/tree.rs:1435-1445 | Consuming a byte that both prefixes share keeps the common entries |
| Intersect.LeftLonger | rart/src/tree.rs:1449-1466 | When the left prefix is longer only the right child under its next byte can match |
| Intersect.RightLonger | rart/src/tree.rs:1468-1485 | The mirror case |
| Intersect.BothConsumed | rart/src/tree.rs:1487-1508 | When both prefixes are consumed the two values meet, then the children edge by edge |
| Intersect.IntersectNodes | rart/src/tree.rs:1420-1509 | The callback gets exactly the common entries, in order; the key buffer comes back as it was; the recursion terminates |
| Intersect.IntersectKids | rart/src/tree.rs:1495-1507 | The matches are the same along the edges of either node |
| IntersectViews.IntersectNodesValues | rart/src/tree.rs:1651-1714 | The values-only walk meets the same pairs in the same order |
| IntersectViews.IntersectNodesLending | rart/src/tree.rs:1511-1648 | The lending walk shows the same matches, keys in segments; segment list and length come back as they were |
| IntersectViews.IntersectWith | rart/src/tree.rs:688-698 | Ascending, exactly once per common key, with both values |
| IntersectViews.IntersectLendingWith | rart/src/tree.rs:704-723 | The same matches as the owned-key variant |
| IntersectViews.IntersectValuesWith | rart/src/tree.rs:728-737 | The value pairs of the same matches |
| IntersectViews.IntersectCount | rart/src/tree.rs:740-746 | The number of keys that both maps have |
| IntersectViews.JoinedMatches | rart/src/tree.rs:1420-1509 | What the walk lists is the intersection of the two stored maps, whichever way the trees cut their prefixes |
| PrefixMatch.OnTheWayStored | rart/src/tree.rs:1286-1320 | The values met on the way of a probe are exactly its stored prefixes, shortest first |
| PrefixMatch.PrefixesStored | rart/src/tree.rs:1286-1320 | The stored prefixes are exactly the entries of the stored map whose keys the probe starts with, shortest first |
| PrefixMatch.PrefixMatchIter.Next | rart/src/iter.rs:443-467 | Yields the stored prefixes of the probe one by one |
| PrefixMatch.PrefixMatchForEach | rart/src/tree.rs:1286-1320 | Visits exactly those entries of the stored map, shortest to longest |
| PrefixMatch.LongestPrefixMatch | rart/src/tree.rs:1163-1195 | Returns the entry of the stored map with the longest key that the probe starts with; None only when there is none |
| PrefixMatch.LongestPrefixValue | rart/src/tree.rs:1197-1227 | Returns the value of that longest key |
| PrefixMatch.LongestPrefixMatchLending | rart/src/tree.rs:1229-1284 | Shows that entry in segments, although the segment list grew further |
| PrefixSubtree.FindPrefixSubtree | rart/src/tree.rs:1322-1350 | Finds the subtree whose entries are exactly those that start with the prefix, also when the prefix ends inside a compressed edge |
| PrefixSubtree.FindPrefixSubtreeNode | rart/src/tree.rs:1352-1377 | The same subtree for value queries |
| PrefixSubtree.FindPrefixSubtreeView | rart/src/tree.rs:1379-1416 | The same subtree with its key in segments |
| PrefixSubtree.UnderStored | rart/src/tree.rs:416-429 | The entries of a tree that start with a prefix list, ascending, exactly the part of the stored map under it |
| PrefixSubtree.PrefixIter | rart/src/tree.rs:416-429 | Iterates, in ascending order, exactly the part of the stored map whose keys start with the prefix |
| PrefixSubtree.PrefixForEachView | rart/src/tree.rs:793-811 | Shows exactly that part of the stored map |
| PrefixSubtree.TryPrefixValuesForEach | rart/src/tree.rs:862-884 | Offers their values in order up to and including the first one at which the callback stops or fails, and returns its verdict |
| ArcHeap.SoleOwner | rart/src/versioned_tree.rs:2639-2660 | Where strong counts are numbers of references, a count of one means that nothing else points to the node |
| ArcHeap.PlaceSound | rart/src/versioned_tree.rs:2639-2660 | Putting a node into memory trades its child references for one reference to it |
| ArcHeap.TakeSound | rart/src/versioned_tree.rs:2639-2660 | Unwrapping a singly referenced node hands its child references over and touches no other tree |
| VersionedTree.VersionedForest.DropArc | rart/src/versioned_tree.rs:2639-2660 | Dropping a reference frees what only it kept alive and changes no node that stays |
| VersionedTree.VersionedForest.CowCloneInner | rart/src/versioned_tree.rs:1290-1325 | The copy has the target version, the same children, and every child is referenced once more |
| VersionedTree.VersionedForest.EnsureCowNode | rart/src/versioned_tree.rs:2639-2660 | Afterwards the node has the target version, stands for the same tree and is referenced exactly once |
| VersionedTree.VersionedForest.OwnNode | rart/src/versioned_tree.rs:2677-2681 | Unwrapping after `ensure_cow_node` cannot fail, so the exclusive ownership panics are unreachable |
| VersionedTree.VersionedForest.InsertRecurse | rart/src/versioned_tree.rs:2665-2789 | Computes the same tree as the single-owner insertion, keeps every other referenced node, and copies only along the path of the key |
| VersionedTree.VersionedForest.RemoveRecurse | rart/src/versioned_tree.rs:2793-2852 | Computes the tree without the key, never shrinking a layout; keeps every other referenced node and copies only along the path of the key |
| VersionedTree.VersionedForest.DeleteRecurse | rart/src/versioned_tree.rs:2855-2909 | The same without handing the value back |
| VersionedTree.Reattach | rart/src/versioned_tree.rs:2753-2788 | Detaching a child, changing it and attaching it again never grows the layout |
| VersionedTree.VersionedForest.CowPathToKey | rart/src/versioned_tree.rs:2603-2635 | The tree stays the same, every node on the path of the key ends up singly referenced, and everything off the path keeps its address |
| VersionedTree.VersionedForest.WriteReady | rart/src/versioned_tree.rs:2116-2135 | Writing through that path is always granted, keeps every address and changes one value |
| VersionedTree.VersionedForest.UpdateRecurse | rart/src/versioned_tree.rs:2927-3093 | Runs the callback exactly once, on the slot of the key; the tree is the one its verdict calls for, copied only along the path of the key; an untouched vacant slot leaves the root where it was and copies nothing |
| PathCopy.DeeperCopied | rart/src/versioned_tree.rs:2753-2788 | One level of an operation adds one copied node; siblings of the path keep their addresses |
| PathCopy.RebuiltFrame | rart/src/versioned_tree.rs:2639-2660 | What a copied path shares stays shared while its upper end is referenced, whatever else is freed or written |
| PathCopy.SharedOffPath | rart/src/versioned_tree.rs:2753-2788 | Every subtree that turns off the path of the key is reached at its old address afterwards, along the same edges or with one more where a prefix was split |
| Handles.HandleStep | rart/src/versioned_tree.rs:663-679 | An operation that keeps all other referenced trees changes the map of its own handle only |
| Handles.VersionsBound | rart/src/versioned_tree.rs:242-248 | In every state no node reachable from a handle is newer than the handle, so the version of its next change is strictly newer |
| VersionedTree.VersionedForest.Get | rart/src/versioned_tree.rs:261-264 | Answers from the map of the handle |
| VersionedTree.VersionedForest.Insert | rart/src/versioned_tree.rs:752-769 | The map of this handle gains the entry and all other maps stay; at most |key| + 2 nodes are new, and every subtree off the path of the key keeps its address |
| VersionedTree.VersionedForest.Remove | rart/src/versioned_tree.rs:786-846 | The map of this handle loses the key, all other maps stay, the old value is returned; the version goes up by one; at most |key| + 2 nodes are new and the rest is shared; an absent key changes nothing at all |
| VersionedTree.VersionedForest.Delete | rart/src/versioned_tree.rs:861-898 | The same, saying whether the key was stored |
| VersionedTree.VersionedForest.BorrowValue | rart/src/versioned_tree.rs:282-302 | A reference to a present value changes no map and raises the version by one; its path then belongs to this handle alone, with the same bound on copies |
| VersionedTree.VersionedForest.WriteBorrowed | rart/src/versioned_tree.rs:2116-2135 | A write through the reference changes this value in this map only, and moves no node |
| VersionedTree.VersionedForest.GetMut | rart/src/versioned_tree.rs:282-302 | Both together: one value of one map changes, at the cost of one path copy and one version |
| VersionedTree.VersionedForest.Update | rart/src/versioned_tree.rs:911-944 | The callback is run once, on what the map of this handle holds for the key; this map changes as it decides, all others stay; a change costs one version and one path copy, no change costs neither |
| VersionedTree.VersionedForest.TryUpdate | rart/src/versioned_tree.rs:960-1001 | The same for callbacks that may fail; after a failure all maps are as before; the versions it costs are given verdict by verdict |
| VersionedTree.VersionedForest.Snapshot | rart/src/versioned_tree.rs:242-248 | A new handle with the same map, one version ahead, without touching a node |
| VersionedTree.VersionedForest.Clone | rart/src/versioned_tree.rs:214-220 | A new handle with the same map and version, without touching a node |
| VersionedTree.VersionedForest.New | rart/src/versioned_tree.rs:229-235 | A new handle with the empty map |
| VersionedTree.VersionedForest.Drop | rart/src/versioned_tree.rs:172-180 | The handle is gone and all other maps stay |
| VersionedTree.VersionedForest.Convert | rart/src/versioned_tree.rs:1053-1162 | The converted node is the denoted tree, whether nodes were unwrapped or copied; other references keep theirs |
| VersionedTree.VersionedForest.IntoUnversioned | rart/src/versioned_tree.rs:1037-1049 | The single-owner tree has the map of the handle and its exact size, and is valid for all later operations; all other maps stay |
| Runs.Run | rart/src/versioned_tree.rs:229-1049 | Every run of operations over any number of handles returns, operation by operation, what the same run returns on independent maps, and leaves those maps |
| Runs.Isolation | rart/src/versioned_tree.rs:242-248 | A run that does not write through a handle leaves its map |
| Runs.NonInterference | rart/src/versioned_tree.rs:242-248 | What becomes of a handle, and everything returned through it, depends only on the operations on that handle |
| Runs.SnapshotFrozen | rart/src/versioned_tree.rs:242-248 | A snapshot taken in the middle of a run still holds at its end the map of that moment, and writing to it leaves its origin |
| Runs.ReadsLastWrite | rart/src/versioned_tree.rs:229-1049 | A read at the end of a run returns what was last written to its key through its handle, whatever the run does to other keys and other handles |
| Runs.SnapshotReads | rart/src/versioned_tree.rs:242-248 | A read through a snapshot returns what its origin had for the key when it was taken |
| Bits.ClearLowest | rart/src/utils/bitset.rs:154-164 | `w & (w - 1)` clears exactly the lowest one, for any word |
| Bitset.Bitset.Set | rart/src/utils/bitset.rs:186-192 | Adds one position and leaves the others |
| Bitset.Bitset.Unset | rart/src/utils/bitset.rs:195-201 | Takes one position out and leaves the others |
| Bitset.Bitset.Check | rart/src/utils/bitset.rs:204-208 | Tells whether a position is in the set |
| Bitset.Bitset.Clear | rart/src/utils/bitset.rs:211-213 | Leaves the empty set |
| Bitset.Bitset.FirstEmpty | rart/src/utils/bitset.rs:102-110 | The smallest position that is not set, if any |
| Bitset.Bitset.FirstSet | rart/src/utils/bitset.rs:138-143 | The smallest position that is set, if any |
| Bitset.Bitset.Last | rart/src/utils/bitset.rs:215-225 | The largest position that is set, if any |
| Bitset.OnesListed | rart/src/utils/bitset.rs:151-165 | Listing the ones word by word is ascending and complete, for any word width and count |
| Bitset.OnesIter.Next | rart/src/utils/bitset.rs:154-164 | Yields the remaining positions one by one by clearing the lowest one of the current word |
| Bitset.Positions | rart/src/utils/bitset.rs:154-164 | Running the iterator to its end lists exactly the set, ascending |
| BitArray.BitArray.Set | rart/src/utils/bitarray.rs:121-127 | Writes one live slot and leaves the others |
| BitArray.BitArray.Erase | rart/src/utils/bitarray.rs:141-145 | Takes one slot out and returns what it held |
| BitArray.BitArray.Update | rart/src/utils/bitarray.rs:131-138 | Replaces one slot and returns what it held |
| BitArray.BitArray.Pop | rart/src/utils/bitarray.rs:40-45 | Takes the last live slot out |
| BitArray.BitArray.FirstUsed | rart/src/utils/bitarray.rs:62-64 | The smallest live slot |
| BitArray.BitArray.FirstEmpty | rart/src/utils/bitarray.rs:67-77 | The smallest free slot within the range, although the bitset may be wider |
| BitArray.BitArray.CloneLiveSlots | rart/src/utils/bitarray.rs:234-247 | A copy with the same live slots that shares no storage |
| U8Keys.BinaryFindKey | rart/src/utils/u8_keys.rs:43-55 | Finds the position of a key in the sorted prefix of the array, or reports that it is not there |
| U8Keys.FindKeyPositionSorted | rart/src/utils/u8_keys.rs:57-75 | The same for narrow nodes by linear search |
| U8Keys.FindInsertPositionSorted | rart/src/utils/u8_keys.rs:77-94 | The position that separates the keys not above a new key from those above it |
| SortedKeyedMapping.SortedKeyedMapping.AddChild | rart/src/mapping/sorted_keyed_mapping.rs:197-212 | The map gains the child; shifting keeps both arrays sorted and in step |
| SortedKeyedMapping.SortedKeyedMapping.AddChildSorted | rart/src/mapping/sorted_keyed_mapping.rs:164-172 | Appending a key above all others adds its entry |
| SortedKeyedMapping.SortedKeyedMapping.DeleteChild | rart/src/mapping/sorted_keyed_mapping.rs:226-249 | The map loses the child and returns it; the arrays close the gap |
| SortedKeyedMapping.SortedKeyedMapping.SeekChild | rart/src/mapping/sorted_keyed_mapping.rs:214-218 | Looks a child up in the map |
| SortedKeyedMapping.SortedKeyedMapping.TakeValueForLeaf | rart/src/mapping/sorted_keyed_mapping.rs:109-116 | Takes the only entry out |
| SortedKeyedMapping.SortedKeyedMapping.Iter | rart/src/mapping/sorted_keyed_mapping.rs:183-192 | Lists the map by ascending edge |
| IndexedMapping.ThroughAdd | rart/src/mapping/indexed_mapping.rs:183-188 | A new table entry and a new slot keep the table injective onto exactly the live slots |
| IndexedMapping.ThroughRemove | rart/src/mapping/indexed_mapping.rs:206-215 | So does erasing a table entry together with its slot |
| IndexedMapping.IndexedMapping.AddChild | rart/src/mapping/indexed_mapping.rs:183-188 | The map gains the child in the first free slot; there is one while the layout is not full |
| IndexedMapping.IndexedMapping.AddChildSorted | rart/src/mapping/indexed_mapping.rs:138-146 | The map gains the child in the next slot |
| IndexedMapping.IndexedMapping.DeleteChild | rart/src/mapping/indexed_mapping.rs:206-215 | The map loses the child and returns it |
| IndexedMapping.IndexedMapping.SeekChild | rart/src/mapping/indexed_mapping.rs:190-196 | Looks a child up through the table |
| IndexedMapping.IndexedMapping.Iter | rart/src/mapping/indexed_mapping.rs:173-177 | Lists the map by ascending edge, whatever the order of the slots |
| IndexedMapping.IndexedMapping.CloneMapping | rart/src/mapping/indexed_mapping.rs:154-160 | A copy with the same map that shares no storage |
| DirectMapping.DirectMapping.AddChild | rart/src/mapping/direct_mapping.rs:113-116 | The map gains the child and the count follows |
| DirectMapping.DirectMapping.DeleteChild | rart/src/mapping/direct_mapping.rs:141-150 | The map loses the child and returns it |
| DirectMapping.DirectMapping.SeekChild | rart/src/mapping/direct_mapping.rs:119-127 | Looks a child up by its slot |
| DirectMapping.DirectMapping.Iter | rart/src/mapping/direct_mapping.rs:104-108 | Lists the map by ascending edge |
| DirectMapping.DirectMapping.CloneMapping | rart/src/mapping/direct_mapping.rs:88-93 | A copy with the same map that shares no storage |
| Layouts.FromResized | rart/src/mapping/sorted_keyed_mapping.rs:143-152 | Resizing keeps the map and the count |
| Layouts.SortedFromIndexed | rart/src/mapping/sorted_keyed_mapping.rs:119-141 | Draining the table smallest key first gives sorted arrays with the same map and count |
| Layouts.FromSortedKeyed | rart/src/mapping/indexed_mapping.rs:87-101 | Moving sorted arrays into a table keeps the map and the count |
| Layouts.IndexedFromDirect | rart/src/mapping/indexed_mapping.rs:71-85 | Draining the slots into consecutive child slots keeps the map and the count; the loop ends |
| Layouts.DirectFromIndexed | rart/src/mapping/direct_mapping.rs:59-76 | Draining the table into slots keeps the map and the count; the loop ends |
| Layouts.Grow | rart/src/node.rs:306-322 | The next larger layout holds the same children |
| Layouts.Shrink | rart/src/node.rs:277-304 | The next smaller layout holds the same children, given that they fit |
| Layouts.AddChild | rart/src/node.rs:131-155 | The child map gains an entry; a layout with 4, 16 or 48 children grows, any other stays |
| Layouts.DeleteChild | rart/src/node.rs:157-197 | The child map loses an entry; with fewer than 5, 17 or 49 children left the layout goes one down, otherwise it stays |
| Layouts.SeekChild | rart/src/node.rs:108-120 | Every layout answers from its map |
| ChildMap.ListingMeaning | rart/src/node.rs:329-337 | The ascending listing has exactly the entries of the child map |
| Layouts.Iter | rart/src/node.rs:329-337 | Every layout lists its map by ascending edge |
| Layouts.NodeLayouts | rart/src/node.rs:131-197 | Nodes change layout at the same counts and are never over capacity |
| Layouts.SmallestLayout | rart/src/node.rs:131-155 | The layout of a count is the smallest that holds so many children |
| Layouts.RemovalSettles | rart/src/node.rs:157-197 | A removal from a node with too large a layout takes it closer to the layout of its count, and it always fits |
| Layouts.ThreeRemovalsSettle | rart/src/node.rs:157-197 | After three removals a node has the smallest layout that fits, whatever layout it came in with |
| WordMatch.FirstDifference | rart/src/partials/mod.rs:41-46 | The trailing zeros of the XOR of two little-endian words, by eight, are the index of the first differing byte |
| WordMatch.PrefixLengthBytes | rart/src/partials/mod.rs:34-55 | The word-wise matcher returns the length of the longest common prefix |
| IntegerKeys.FlipSign | rart/src/keys/array_key.rs:224-232 | Flipping the sign bit of the two's complement pattern shifts the range of the type up to start at zero |
| IntegerKeys.BigEndianOrder | rart/src/keys/array_key.rs:190-205 | For every width, byte order of big-endian keys is numeric order |
| IntegerKeys.SignedOrder | rart/src/keys/array_key.rs:220-247 | For every width, byte order of signed keys is numeric order |
| IntegerKeys.BigEndianRoundTrip | rart/src/keys/array_key.rs:190-205 | Decoding the big-endian bytes gives the integer back |
| IntegerKeys.SignedRoundTrip | rart/src/keys/array_key.rs:220-247 | Decoding a signed key and undoing the shift gives the integer back |

## Left out

- `for_each_range_view` in both trees: ranges are modelled by the owned-key iterator. It decides its bounds by `cmp_slice`, for which `SegmentOrder.VerdictExact` says exactly when the answer is right.
- Iterators, ranges, prefix queries and intersection of the copy-on-write tree: the same loops as in the single-owner tree, over nodes that are not written meanwhile; here they are proved once.
- Nodes of the single-owner tree are values: in-place rewriting through mutable references, boxes and `mem::replace` are functions from old to new nodes, so aliasing and memory layout of nodes are not captured.
- The layouts of `Layouts` hold children of any type and are tied to `Node.AddChild` and `Node.DeleteChild` through kind and child map; the tree modules work with that map instead of the layout objects.
- `get_mut` on the single-owner tree: a write to a present value, covered by `Update`.
- VersionedTree.VersionedForest.GetMut: what the caller does with the mutable reference is a function applied to the value between borrowing and writing back.
- VersionedTree.VersionedForest.TryUpdate: has no copy bound of its own, because it runs up to two operations that have one.
- VersionedTree.VersionedForest.Drop: the order in which the program drops children is fixed to ascending edges.
- VersionedTree.VersionedForest.CountValues: counts by recursion where the program runs its values iterator.
- VersionedTree.VersionedForest.Insert: one operation for `insert` and `insert_and_replace`, which differ in what they return.
- Bulk loading by index: the same builder over index functions instead of a staged list.
- Bitset.Bitset.FirstEmpty and Bitset.Bitset.FirstSet: the unrolled variants for one and four 64-bit words, which compute the same from the same words; shifts by the word width are written as multiplication and division.
- Bitset `size`, `as_bitmask` and the unsorted search under a bitmask, SIMD search, `KeyedMapping`: foreign or unused code.
- Consuming iterators of the layouts, and the owned iteration order they share with `Iter`.
- WordMatch.PrefixLengthBytes: words are loaded in native order by the program; the result is proved for little-endian machines.
- IntegerKeys: `usize` and `isize` are covered by their width; strings, overflow and vector storage of keys and prefixes, fixed prefix capacities and the key builder are not modelled.
- Threads and atomics: operations on handles are interleaved whole. Overflow of the 64-bit version counter is not modelled.
- Uninitialized memory and drop order, tree statistics, benchmarks, and the generic wrappers that only convert their key argument.
