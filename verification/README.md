# A verified model of a small database engine

The repository is a teaching database: a B+ tree index over pages, a buffer pool with an ARC replacer and page
guards, and a block nested loop join. This project models those three components in Dafny and proves what they are for.

**The B+ tree** is modelled twice. `BPlusTrees.BPlusTree` is the program: a map from page ids to `Page` objects whose
key, record-id and child arrays are shifted slot by slot, a stack of locked ancestors, and loops that climb it. The
functions `InsertTree` and `RemoveTree` are the same algorithms on a tree value, seen through a path with one hole in
it (`Zipper`). The methods are proved to leave exactly the tree the functions compute; the functions are proved to
keep the search-tree invariant, to agree with a finite map, and to keep the occupancy bounds. `TreeRuns` lifts this to
every run from the empty tree, `TreeChain` and `Iterators` show that the leaf chain lists the contents in order,
`TreeOverfill` says exactly when `Remove` leaves a page above its maximum size, and `TreeLimits` has the runs that do
what one would not expect.

Every page of the tree is read and changed under its guard. `Latches` keeps the history of the guards: a page is
reached only by taking its guard, which nobody in the operation holds yet, or by creating the page, and every method of
`Page` asks for the guard. The public operations return that history as a ghost result and say what it is: legal,
with nothing held at the end, covering the search path and every page that changed or is new, and with the exact
number of pages held at once. What these words mean is said event by event in `LegalIs`, `HeldIs`, `AllocatedIs` and
`MostHeldIs`, and for the join's guards in `OpenIs` and `MostOpenIs`. `TreePool` puts the history on the buffer pool:
the pool serves the whole history if and only if it has that many frames.

**The buffer pool** is a state machine (`PoolModel`) with any number of guards held at once. Its invariant is kept by
every legal step, and every run of it does what a plain map from page ids to bytes does. `BufferPools` is the same
machine as objects (frames, disk, pool, guards), each method proved to make the step of its name. Beside the invariant,
every step is described completely without its own definition: which frame a page comes to, what moves in the replacer,
which counters and flags change, and that nothing else does. The ARC replacer is done in the same way (`ArcModel`,
`ArcReplacers`); `ArcHistory` says what its lists mean over whole runs, from the history of accesses alone.

**The join** (`BlockJoins`) is proved to compute the naive join for every block size from 1 up. Its rows are read through
shared page guards, whose history is returned in the same way, with the exact number held at once. The result is
stated on the tables themselves, with the order of its pairs.

What the code does was followed where it differs from what one would expect:

- A leaf split leaves `max - (max + 1) / 2` entries in the new leaf, so leaves below the root hold at least
  `leaf_max / 2` (rounded down), which is less than `GetMinSize()` when `leaf_max` is odd. `LeafMinIffEven`: the minimum
  is kept over all runs if and only if `leaf_max` is even, and falling keys break it for every odd one.
- `Remove` skips its early exit when `key_update` is set (src/b_plus_tree.cpp:626-638) and then rebalances a page that
  needed nothing, which can leave a page with more than `internal_max_size` children. `RemoveCanOverfill` is a run from
  the empty tree in which it happens, and `RemoveCapped` has the exact condition, in terms of page sizes on the search
  path before the removal.
- The rewrite of a separator at src/b_plus_tree.cpp:628-633 never happens: `OldKeyIsNoSeparator`.
- `Begin(key)` does not move on to the next leaf: `BeginAt` says exactly when the iterator it returns is a position of
  the chain, and `BeginCanStopShort` gives a run from the empty tree after which it is not.
- The ARC target is unsigned and wraps below zero: `TargetInRange` says exactly when it stays between 0 and the size,
  `TargetCanWrap` gives a run of a new replacer in which it does not. Eviction is proved correct for every value of the
  target.
- The ghost lists are never trimmed: live and ghost entries together are exactly as many as the pages ever recorded
  (`EntriesAreRecorded`), so the ARC paper's bound of twice the size holds just until more pages than that have been
  seen, and every number of entries is reached (`EntriesWithoutBound`).
- A join block takes one row of page `block_size + 1`, because the page count goes up before that row is read and is
  only checked after it: `BlockEnds`.
- A comment in tests/buffer_pool_manager_test.cpp:10 says that an evicted page reads as zeros when it comes back. The
  code writes dirty victims out first, and `RunRefines` holds without exception.

The tree needs `leaf_max >= 2` and `internal_max >= 3`. With `internal_max == 2` a page below the root can have one
child, and `Remove` then finds no sibling to merge with.

A result of `None` or `ok == false` stands for an exception, a division by zero or a wait for one's own latch in the
code.

## Model

| member | source | states |
|---|---|---|
| TreeSearch.DescendOk | src/b_plus_tree.cpp:937-955 | the descent for a key ends at a leaf whose inherited bounds contain the key; path and leaf together are the whole tree, within bounds, sized and duplicate-free |
| TreeSearch.FoundInLeaf | src/b_plus_tree.cpp:93-94 | a key is in the tree if and only if the binary search finds it in the leaf the descent ends at |
| TreeSearch.LookupIsMapLookup | src/b_plus_tree.cpp:38-59 | looking a key up in that leaf is looking it up in the finite map the tree stands for |
| TreeInsert.NodeInsertInv | src/b_plus_tree.cpp:163-275 | an internal page that takes a new child, split or not, keeps children and separators ordered within its bounds |
| TreeInsert.LeafInsertPages | src/b_plus_tree.cpp:103-145 | the pages a leaf step must leave: the items with the new one, cut behind `(leaf_max + 1) / 2` items, or one more if the new one is among them; links, ids and the key that goes up |
| TreeInsert.AscendInv | src/b_plus_tree.cpp:284-424 | the upward cascade, with or without a new root, ends in a tree that satisfies the invariant |
| TreeInsert.AscendSized | src/b_plus_tree.cpp:284-424 | every page below the root keeps its minimum occupancy through the cascade, and no page passes its maximum if none did |
| TreeInsert.InsertTreeOk | src/b_plus_tree.cpp:65-430 | `Insert` on any valid tree gives a valid tree at most one level higher, with fresh page ids only, and pages within their maximum stay so |
| TreeInsert.InsertTreeItems | src/b_plus_tree.cpp:65-430 | the contents gain exactly the new item, at one place, or stay as they are when the key is present |
| TreeInsert.InsertTreeIds | src/b_plus_tree.cpp:65-430 | `Insert` keeps every page of the tree, and every page id it takes is the id of exactly one new page |
| TreeInsert.InsertTreeDict | src/b_plus_tree.cpp:65-430 | as finite maps: the old map plus the key, or the old map when the key is present |
| TreeRemove.RepairKeeps | src/b_plus_tree.cpp:500-592 | borrow left, borrow right and merge all keep the items, and take away one page id exactly when they merge |
| TreeRemove.RebalanceInv | src/b_plus_tree.cpp:640-718 | one level of repair, whichever branch is taken, keeps bounds, order and leaf links of the parent |
| TreeRemove.RebalanceSizes | src/b_plus_tree.cpp:495-718 | which sibling pays and how much, in sizes: one entry from the left one if it is above its minimum, else one from the right one, else a merge, to the left if there is a left one; all other children as before; the flag is set exactly for the first separator |
| TreeRemove.RepairSized | src/b_plus_tree.cpp:640-718 | after one repair all children of the parent have their minimum occupancy, and the parent lost at most one child |
| TreeRemove.CollapseOk | src/b_plus_tree.cpp:601-613 | a root with a single child hands the root over to it and the tree stays valid |
| TreeRemove.AscendRemoveOk | src/b_plus_tree.cpp:597-720 | the whole ascent from any short internal page, needed repairs and needless ones, ends in a valid tree with the same items |
| TreeRemove.RemoveTreeOk | src/b_plus_tree.cpp:437-725 | `Remove` on any valid tree gives a valid tree, or none, not higher than before, with exactly the item of the key gone; without the key nothing changes |
| TreeRemove.RemoveTreeDict | src/b_plus_tree.cpp:437-725 | as finite maps: the old map minus the key |
| TreeStore.NodeInsertStore | src/b_plus_tree.cpp:163-275 | writing the pages of one split leaves every page outside them and above them as it was |
| TreeRemove.SharedPages | src/b_plus_tree.cpp:502-548 | sharing the entries of two pages out again is sharing out the entries of the subtrees behind them |
| TreeStore.BorrowStore | src/b_plus_tree.cpp:502-548 | the pages of parent and siblings after a borrow represent the repaired parent, and no other page matters |
| TreeStore.MergeStore | src/b_plus_tree.cpp:549-592 | the pages after a merge represent the repaired parent, without the emptied page |
| TreeAscent.FocusNotOnPath | src/b_plus_tree.cpp:937-955 | the page to be locked next is none of the pages locked already |
| TreeAscent.SiblingApart | src/b_plus_tree.cpp:503-528 | a sibling that is requested during repair is neither an ancestor nor part of the subtree being repaired |
| TreeAscent.NodeInsertPages | src/b_plus_tree.cpp:165-275 | the page contents a split must leave: the old slots with the new entry, cut at `(internal_max + 1) / 2`, the middle key going up |
| TreeAscent.OldKeyIsNoSeparator | src/b_plus_tree.cpp:626-635 | the `old_key` of one level is never a separator one level up |
| TreeRuns.StepOk | src/b_plus_tree.cpp:65-725 | one `Insert` or `Remove` keeps the state valid and does to the map what its name says |
| TreeRuns.RunOk | src/b_plus_tree.cpp:65-725 | every run keeps order, bounds, depth, occupancy and page ids valid and computes the finite map |
| TreeRuns.InsertRunCapped | src/b_plus_tree.cpp:163-275 | runs of `Insert` alone never leave an internal page above `internal_max` |
| TreeRuns.TallTreeIsFull | src/b_plus_tree.cpp:915-934 | a tree of h >= 2 levels holds at least 2 * ((internal_max + 1) / 2)^(h - 2) * (leaf_max / 2) keys |
| TreeOverfill.RepairCapped | src/b_plus_tree.cpp:640-718 | one repair leaves pages within their maximum if and only if it does not merge or lend into a page that is too full, and a repair that was needed never overfills |
| TreeOverfill.TurnIs | src/b_plus_tree.cpp:640-718 | the sizes of a page and its siblings tell which branch a turn takes, how full it leaves the page, and the size and flag one level up |
| TreeOverfill.AscentCapped | src/b_plus_tree.cpp:597-720 | the ascent keeps all pages within their maximum if and only if the sizes on the path say that no turn of it overfills one |
| TreeOverfill.RemoveCapped | src/b_plus_tree.cpp:437-725 | `Remove` keeps all internal pages within `internal_max` if and only if `RemoveOverfills` does not hold |
| TreeLimits.RemoveCanOverfill | src/b_plus_tree.cpp:626-638 | from the empty tree five insertions give a tree within its maxima, and one removal then leaves a page with four children where three are allowed |
| TreeLimits.LeafMinIffEven | src/b_plus_tree.cpp:103-131 | leaves below the root keep `GetMinSize()` over every run from the empty tree if and only if `leaf_max` is even; for an odd one, `leaf_max + 1` falling keys leave a leaf one item short |
| TreeChain.TreeChainOk | src/b_plus_tree.cpp:119-120 | in every valid subtree the leaves are linked in order and the last one points out of it |
| TreeChain.TreeIsChained | src/b_plus_tree.cpp:119-120 | the chain of a valid tree lists each leaf once, in order, none empty, all stored, and ends at the rightmost |
| TreeChain.LeavesHoldItems | src/b_plus_tree.cpp:804-845 | the leaves in chain order hold exactly the contents of the tree |
| TreeChain.SpotNext | src/index_iterator.cpp:38-54 | stepping to the next slot, or to slot 0 of the next leaf, goes to the next position of the contents |
| Pages.Page.LeafKeyIndex | src/b_plus_tree_leaf_page.cpp:27-43 | the binary search from slot 0 finds the first slot whose key is not below the argument |
| Pages.Page.InternalKeyIndex | src/b_plus_tree_internal_page.cpp:50-66 | the binary search from slot 1: all keys before the result are below the argument, all from it on are not |
| Pages.Page.ChildSlot | src/b_plus_tree.cpp:942-951 | the slot derived from it is the child whose range holds the key |
| Pages.Page.InsertItem | src/b_plus_tree.cpp:133-140 | the shifting loop inserts the item at the slot |
| Pages.Page.RemoveItem | src/b_plus_tree.cpp:455-462 | the shifting loop takes the slot out |
| Pages.Page.MoveItems | src/b_plus_tree.cpp:110-118 | the copying loop moves the upper slots to the end of the other page |
| Pages.Page.InsertChild | src/b_plus_tree.cpp:265-272 | the shifting loop inserts key and child at the slot, in both arrays |
| Pages.Page.RemoveChild | src/b_plus_tree.cpp:582-588 | the shifting loop takes key and child of the slot out |
| Pages.Page.SplitAt | src/b_plus_tree.cpp:176-190 | split case "equal": the two pages are the slots with the new entry inserted, cut at the middle |
| Pages.Page.SplitBelow | src/b_plus_tree.cpp:191-221 | split case "below": the same result |
| Pages.Page.SplitAbove | src/b_plus_tree.cpp:222-258 | split case "above": the same result |
| Pages.Page.InsertAndSplit | src/b_plus_tree.cpp:174-258 | all three cases: both pages together are the slots with the new entry inserted, cut at the minimum size, the key at the cut going up |
| Pages.Page.MergeFrom | src/b_plus_tree.cpp:728-750 | the left page gets the separator and all slots of the right one, and the parent loses the slot |
| Pages.Page.BorrowItemLeft | src/b_plus_tree.cpp:507-520 | the last item of the left leaf becomes the first of this one, and its key the separator |
| Pages.Page.BorrowItemRight | src/b_plus_tree.cpp:531-544 | the first item of the right leaf becomes the last of this one, and the separator is the right leaf's new first key |
| Pages.Page.MergeLeafFrom | src/b_plus_tree.cpp:569-588 | the left leaf gets all items and the next-page link of the right one, and the parent loses the slot |
| Pages.Page.TakeFromLeft | src/b_plus_tree.cpp:502-524 | for leaves and internal pages alike: the two pages are their entries shared out with one fewer on the left, and the separator follows |
| Pages.Page.TakeFromRight | src/b_plus_tree.cpp:525-548 | the same with one more on the left |
| Pages.Page.Absorb | src/b_plus_tree.cpp:549-592 | for leaves and internal pages alike: the left page is the two joined, and the parent loses separator and child |
| Pages.Page.BorrowChildLeft | src/b_plus_tree.cpp:647-662 | the last child of the left page moves over, keys rotating through the separator |
| Pages.Page.BorrowChildRight | src/b_plus_tree.cpp:671-687 | the first child of the right page moves over, keys rotating through the separator |
| BPlusTrees.BPlusTree.constructor | src/b_plus_tree.cpp:14-25 | a new tree is valid and empty |
| BPlusTrees.BPlusTree.Acquire | src/b_plus_tree.cpp:938-952 | a page is reached by taking its guard, which the operation must not hold already |
| BPlusTrees.BPlusTree.FindAndLock | src/b_plus_tree.cpp:937-955 | it locks exactly the pages from the root to the key's leaf, none twice, one guard per level |
| BPlusTrees.BPlusTree.FindLeafPage | src/b_plus_tree.cpp:915-934 | it ends at the key's leaf holding only the header and that leaf, having locked exactly the search path, two pages at once for a tree of one level and three otherwise |
| BPlusTrees.BPlusTree.GetValue | src/b_plus_tree.cpp:38-59 | the value the finite map has for the key, if any; its guards are a legal history that locks the header and the search path and nothing else, releases everything, and holds min(levels + 1, 3) pages at once |
| BPlusTrees.BPlusTree.InsertLeafEntry | src/b_plus_tree.cpp:103-145 | the exact contents and links of one or two leaf pages, the key handed up and the page that took the item; every other page as before |
| BPlusTrees.BPlusTree.InsertIntoParent | src/b_plus_tree.cpp:308-421 | the pages hold what `NodeInsert` says, with one fresh page exactly when the parent was full |
| BPlusTrees.BPlusTree.GrowRoot | src/b_plus_tree.cpp:295-306 | a fresh root over the old root and its sibling |
| BPlusTrees.BPlusTree.Climb | src/b_plus_tree.cpp:284-424 | the loop ends with the pages of the tree that `Ascend` computes |
| BPlusTrees.BPlusTree.Insert | src/b_plus_tree.cpp:65-430 | true exactly when the key was absent; the map gains it or is unchanged; the tree stays valid and is the one `InsertTree` computes; its guards are a legal history that releases everything, covers search path, changed and new pages, and holds exactly levels + 1 pages at once, or levels + 2 if it made a page |
| BPlusTrees.BPlusTree.BorrowFromLeft | src/b_plus_tree.cpp:502-524 | the three pages after the borrow, each under its guard; no other page changes |
| BPlusTrees.BPlusTree.BorrowFromRight | src/b_plus_tree.cpp:525-548 | the same for the right sibling |
| BPlusTrees.BPlusTree.MergePages | src/b_plus_tree.cpp:549-592 | the same for a merge |
| BPlusTrees.BPlusTree.RepairByLeft | src/b_plus_tree.cpp:502-524 | the pages represent the repaired parent, with `key_update`, `old_key` and the sibling's guard dropped |
| BPlusTrees.BPlusTree.RepairByRight | src/b_plus_tree.cpp:525-548 | the same for the right sibling |
| BPlusTrees.BPlusTree.RepairByMerge | src/b_plus_tree.cpp:549-592 | the same for a merge, which drops both guards |
| BPlusTrees.BPlusTree.RepairChild | src/b_plus_tree.cpp:495-592 | left, then right, then merge: the branch `Choose` names, its effect on the pages, `key_update` and `old_key`; siblings are locked one at a time, and the child's guard goes exactly when it is merged |
| BPlusTrees.BPlusTree.MendOnce | src/b_plus_tree.cpp:614-719 | one turn of the ascent: the early exit leaves the final tree, and otherwise the loop's state holds one level up |
| BPlusTrees.BPlusTree.Mend | src/b_plus_tree.cpp:597-720 | the ascent ends with the pages of the target tree and its root id, every guard dropped, and no more held at once than before it |
| BPlusTrees.BPlusTree.Remove | src/b_plus_tree.cpp:437-725 | the map loses the key; the tree stays valid and is the one `RemoveTree` computes; its guards are a legal history that releases everything, covers search path and changed pages, and holds exactly levels + 1 pages at once, or levels + 2 if a leaf below the root got too small |
| Iterators.IndexIterator.IsEnd | src/index_iterator.cpp:14-19 | true exactly at the end of the contents |
| Iterators.IndexIterator.Deref | src/index_iterator.cpp:22-35 | the item at the iterator's position, and the exception exactly at the end |
| Iterators.IndexIterator.Next | src/index_iterator.cpp:38-54 | the next position, and the exception exactly at the end |
| Iterators.Begin | src/b_plus_tree.cpp:804-815 | position 0, or the default iterator for an empty tree; a legal history of guards with min(levels + 1, 3) pages at once and none at the end |
| Iterators.End | src/b_plus_tree.cpp:832-845 | the position after the last item, or the default iterator for an empty tree; the same guards |
| Iterators.SameAsEnd | src/index_iterator.cpp:14-19 | page id and index equal those of `End()` exactly when every item has been visited |
| Iterators.Collect | src/b_plus_tree.cpp:804-845 | iterating from `Begin()` to `End()` ends and yields every item once, in key order, on the empty tree too |
| Iterators.BeginAt | src/b_plus_tree.cpp:818-829 | the iterator is at the searched slot of the searched leaf; that is the position of the first key not below the argument if and only if the leaf has such a key or is the last; the same guards |
| Iterators.LandsExactly | src/b_plus_tree.cpp:818-829 | the same for the slot found, as a fact about the tree |
| Iterators.BeginCanStopShort | src/b_plus_tree.cpp:818-829 | a run from the empty tree after which `Begin(3)` stops at the end of a leaf with a successor |
| ArcModel.SetEvictableOk | src/arc_replacer.cpp:14-29 | it throws exactly for an unknown frame, changes one flag and nothing else but the count, which is that of the evictable frames |
| ArcModel.RecordAccessOk | src/arc_replacer.cpp:31-81 | under the pool's protocol no exception, no division by zero and no nested `Evict`; the frame is alive with its page, the other frames are as before, and the pages remembered gain the recorded one and lose none |
| ArcModel.RecordPlaces | src/arc_replacer.cpp:31-81 | a frame whose page was seen goes to the front of MFU, a new one to the front of MRU; frame and page are taken out where they were, and everything else in the four lists keeps its order |
| ArcModel.RecordTarget | src/arc_replacer.cpp:49-57 | how every access moves the target, on 64 bits: up to at most the size on an MRU ghost hit, down on an MFU ghost hit, by the quotient of the ghost list lengths, at least 1; otherwise not at all |
| ArcModel.AliveFits | src/arc_replacer.cpp:68-78 | with frame ids below the size the alive map never exceeds it |
| ArcModel.TargetInRange | src/arc_replacer.cpp:49-57 | the target stays between 0 and the size if and only if no MFU ghost hit asks for a step above it, which is a comparison of the ghost list lengths with the target |
| ArcModel.LowTargetReached | src/arc_replacer.cpp:31-140 | a new replacer of size 1 that records page 7 twice and evicts it: page 7 is the only MFU ghost and the target is 0 |
| ArcModel.TargetCanWrap | src/arc_replacer.cpp:53-56 | the next access to page 7 in that state makes the target 2^64 - 1 |
| ArcModel.TryEvictOk | src/arc_replacer.cpp:88-116 | for either list: a frame is found exactly when the list has an evictable one; it is the back-most such frame, the list keeps its order without it, and the invariant is kept |
| ArcModel.EvictOk | src/arc_replacer.cpp:83-140 | for every target a frame is found exactly when one may be evicted; the victim is the back-most evictable frame of the list that pays, both lists keep their order without it, and its page moves to the front of that list's ghost |
| ArcModel.EvictPrefers | src/arc_replacer.cpp:117-137 | which list is asked first, as the target and the list sizes say |
| ArcModel.EvictKnown | src/arc_replacer.cpp:83-140 | eviction forgets no page |
| ArcModel.ArcRunOk | src/arc_replacer.cpp:14-140 | over every run that follows the protocol the lists stay duplicate-free, disjoint and in step with the maps, and remember exactly the pages ever recorded |
| ArcModel.EntriesAreRecorded | src/arc_replacer.cpp:14-140 | over every run of a new replacer live and ghost entries together number exactly the pages recorded; they are within twice the size if and only if those are |
| ArcModel.EntriesWithoutBound | src/arc_replacer.cpp:14-140 | for every m a run that follows the protocol and ends with m entries, whatever the size |
| ArcHistory.HistoryDecides | src/arc_replacer.cpp:31-140 | over every run of a new replacer MRU and its ghost list hold exactly the pages recorded once, MFU and its ghost list those recorded more often, and the frames of each list stand in the order of their last use |
| ArcHistory.EvictsLeastRecentlyUsed | src/arc_replacer.cpp:88-116 | after every run the victim is the frame used longest ago among the evictable ones of its list |
| ArcReplacers.ArcReplacer.SetEvictable | src/arc_replacer.cpp:14-29 | the object does what the function of that name says |
| ArcReplacers.ArcReplacer.RecordAccess | src/arc_replacer.cpp:31-81 | the same |
| ArcReplacers.ArcReplacer.ScanBack | src/arc_replacer.cpp:100-103 | the reverse loop stops at the last evictable frame of the list |
| ArcReplacers.ArcReplacer.TryEvict | src/arc_replacer.cpp:88-116 | the closure does what the function of that name says, for either list |
| ArcReplacers.ArcReplacer.Evict | src/arc_replacer.cpp:83-140 | the object does what the function of that name says |
| PoolModel.FetchOk | src/buffer_pool_manager.cpp:42-142 | a fetch fails exactly when the page was never allocated, or is not resident with no free and no unpinned frame; otherwise one guard more, no page's contents changed, and one hit or one miss |
| PoolModel.FetchBrings | src/buffer_pool_manager.cpp:42-142 | where a successful fetch puts its page and all that moves: its own frame, else the first free one, else that of the least recent evictable page of the list that pays; table, free list, pins, flags and all four counters; the frame at the front of MFU if the page was resident or remembered, of MRU if not, every other frame in its order, the target as for an access; a disk write exactly if the displaced page was dirty |
| PoolModel.VictimGap | src/buffer_pool_manager.cpp:71-79 | writing a dirty victim back and unmapping it changes no contents |
| PoolModel.PinOk | src/page_guard.cpp:14-19 | recording the access and pinning always succeed after a page was brought in, and close the invariant; the frame goes to the front of MFU or MRU as for any access |
| PoolModel.DropOk | src/page_guard.cpp:60-72 | dropping a guard keeps the invariant: the pin count is the number of guards left, and the frame is evictable when it is 0; one pin, one guard and at most one flag change |
| PoolModel.WriteOk | include/page_guard.h:57-60 | a write through a guard changes its page and no other, makes its frame dirty, and changes nothing else |
| PoolModel.GuardFlushOk | src/page_guard.cpp:118-128 | a guard's flush changes no contents, leaves the page's contents on disk and its frame clean, and changes no other frame, no other disk copy and no counter |
| PoolModel.GuardFlushSaves | src/page_guard.cpp:48-58 | after it neither `FlushPage` nor an eviction writes the page again, at once or when the guard is gone |
| PoolModel.FlushPageOk | src/buffer_pool_manager.cpp:167-184 | `FlushPage` changes no contents, leaves the page's contents on disk and its frame clean, counts one write exactly if the frame was dirty, and changes nothing else |
| PoolModel.FlushAllOk | src/buffer_pool_manager.cpp:186-197 | after `FlushAllPages`, in any order, the disk alone holds every page's contents, no page is dirty, and all but the disk, its count of writes and those flags is as before |
| PoolModel.InitOk | src/buffer_pool_manager.cpp:6-19 | a new pool satisfies the invariant: all frames free in the order of their numbers, everything else empty and every counter 0 |
| PoolModel.StepRefines | src/buffer_pool_manager.cpp:42-197 | every legal step keeps the invariant and does to the plain map what its name says |
| PoolModel.RunRefines | src/buffer_pool_manager.cpp:42-197 | over every run the pool is a plain map from page ids to bytes |
| PoolModel.ReadsLastWrite | src/disk_manager_memory.cpp:22-47 | over every run of a new pool a page reads as what was last written to it through a guard, and as 4096 zero bytes before that |
| PoolModel.GuardShowsPage | include/page_guard.h:21-21 | a guard shows exactly its page's contents |
| PoolModel.GuardedFrameFixed | src/buffer_pool_manager.cpp:65-80 | while a guard is held no run of other operations moves its page to another frame |
| PoolModel.RunCounts | src/buffer_pool_manager.cpp:49-85 | over every run hits plus misses are the successful fetches, and disk reads are the misses |
| PoolModel.FlushAllWrites | src/buffer_pool_manager.cpp:186-197 | `FlushAllPages` writes each dirty page once and no other |
| PoolModel.ReadsWriteNothing | src/buffer_pool_manager.cpp:71-79 | a run without writes, from a pool without dirty pages, writes nothing to disk through the pool |
| PoolModel.RoomToFetch | src/buffer_pool_manager.cpp:64-69 | with fewer live guards than frames no fetch of an allocated page fails |
| TreePool.HistoryServed | src/buffer_pool_manager.cpp:64-69 | the locks and releases of a legal tree history, on a pool without guards, are all served if and only if there are as many frames as pages held at once; then they are a legal run of the pool and its guards are those of the pages held, of the kind asked for |
| TreePool.StepsAre | src/buffer_pool_manager.cpp:42-142 | the pool steps of a tree history, event by event: `NewPage`, a fetch of the page by the kind of guard asked for, and that guard's drop |
| TreePool.OperationServed | src/buffer_pool_manager.cpp:42-142 | with two frames more than the tree has levels every tree operation is served and leaves no guard |
| BufferPools.DiskManager.ReadPage | src/disk_manager_memory.cpp:22-37 | a page never seen reads as zeros and is remembered |
| BufferPools.DiskManager.WritePage | src/disk_manager_memory.cpp:39-47 | one page changes |
| BufferPools.BufferPoolManager.constructor | src/buffer_pool_manager.cpp:6-19 | a new pool is valid, all frames free |
| BufferPools.BufferPoolManager.NewPage | include/buffer_pool_manager.h:20-20 | the next id, never handed out before, reading as zeros |
| BufferPools.BufferPoolManager.FindPage | src/buffer_pool_manager.cpp:71-79 | the loop over the page table finds a page in the frame, if there is one, in whatever order the table is stored |
| BufferPools.BufferPoolManager.BringPage | src/buffer_pool_manager.cpp:43-87 | hit, free frame or eviction with write-back: the step `Bring`, and nothing changed when it fails |
| BufferPools.BufferPoolManager.Fetch | src/buffer_pool_manager.cpp:42-142 | a guard on the page and everything `FetchBrings` says of table, lists, frames and counters, or none exactly when the fetch is refused, and then the pool is unchanged |
| BufferPools.BufferPoolManager.FlushPage | src/buffer_pool_manager.cpp:167-184 | the step `FlushPage`; false exactly when the page is not resident |
| BufferPools.BufferPoolManager.FlushAllPages | src/buffer_pool_manager.cpp:186-197 | every resident page is flushed once; the disk then holds every page's contents and no frame is dirty |
| BufferPools.BufferPoolManager.GetPinCount | src/buffer_pool_manager.cpp:199-208 | the number of live guards on the page's frame |
| BufferPools.PageGuard.constructor | src/page_guard.cpp:6-21 | the frame is pinned once more and may not be evicted |
| BufferPools.PageGuard.Drop | src/page_guard.cpp:60-72 | the step `Drop`, once; dropping again does nothing |
| BufferPools.PageGuard.SetData | include/page_guard.h:57-60 | the step `Write` |
| BufferPools.PageGuard.Flush | src/page_guard.cpp:48-58 | the step `GuardFlush`: the page is on disk, the frame is clean, and no write is counted |
| BufferPools.PageGuard.Assign | src/page_guard.cpp:33-46 | move assignment drops what the target held, transfers what the source held, and leaves the source invalid; assigning a guard to itself does nothing |
| BlockJoins.LinkedDistinct | src/bnlj.cpp:32-32 | a finite chain visits no row twice |
| BlockJoins.BlockEnds | src/bnlj.cpp:17-33 | a block ends with the chain or with the first row of its page number `block_size + 1`, and not before |
| BlockJoins.BlocksAreFull | src/bnlj.cpp:17-33 | every block of the cut turns to another page at most `block_size` times, exactly so often if it is not the last, and less often before its last row |
| BlockJoins.BlocksCover | src/bnlj.cpp:12-34 | the blocks are consecutive, none is empty, and together they are the left chain |
| BlockJoins.BlockedIsNaive | src/bnlj.cpp:35-49 | however the left chain is cut into blocks, the matches are those of the naive join, as multisets |
| BlockJoins.JoinIsExact | src/bnlj.cpp:8-51 | for every block size from 1 up a pair of rows occurs once in the result if both are in their chains and the tables have equal columns for them, and no other pair occurs |
| BlockJoins.JoinInOrder | src/bnlj.cpp:12-49 | the pairs of the result stand in the order of the blocks, then of the right chain, then of the block's rows |
| BlockJoins.BlockNestedLoopJoin.ReadBlock | src/bnlj.cpp:13-33 | the loop takes exactly that block, its columns and record ids, each row read under the guard of its page, and keeps one guard per page switch |
| BlockJoins.BlockNestedLoopJoin.ScanRight | src/bnlj.cpp:35-49 | one scan of the right chain appends the block's matches in right-then-left order, each row read under the guard of its page, the next guard taken before the last one goes |
| BlockJoins.BlockNestedLoopJoin.ExecuteJoin | src/bnlj.cpp:8-51 | the pairs of rows with equal columns in the two tables, once each and in block, right, left order; nothing for block size 0; the exception exactly when there is a block and the right page cannot be read; every guard is closed however it ends, and exactly `JoinPeak` are open at once |
| BlockJoins.JoinPeakFits | src/bnlj.cpp:12-40 | that is at most `block_size + 3`, one less if the right chain stays on its first page |
| BlockJoins.JoinPeakReached | src/bnlj.cpp:12-40 | and exactly `block_size + 3` when the left chain changes pages at least `block_size` times and the right one at all |

## Left out

- `BPlusTree::Redistribute` (src/b_plus_tree.cpp:753-798): unused and marked so.
- `DumpTree`, `Print`, `main.cpp`, the tests, `DeletePage` (declared, not implemented) and `IsEmpty` as a public call.
- The disk scheduler's thread, channel and promises: `PageSwitch` waits for the result, so a disk access is one synchronous step that does not fail.
- Thread interleavings and blocking on latches: an operation on the tree holds the header page throughout and is modelled as sequential. Bringing a page in, recording the access and pinning its frame are one step of the pool, although the code releases the pool's latch between them.
- `rwlatch_`: the pool's facts hold whichever guards are held together, so guards that would wait for each other are not ruled out. In the tree a page that is already held is never requested again: that is part of a legal history.
- The tree's pages are objects, not bytes of frames: the tree relies on the pool as a plain map from page ids to contents, which is what `RunRefines` states. Byte layout and `reinterpret_cast` are not modelled.
- Raw pointers kept across a guard's `Flush`: every write is one that sets the dirty flag, as `GetDataMut` does.
- Page ids are unbounded integers: the 32-bit counter never runs over. Keys are 32-bit.
- The arrays of a page are sequences that can grow. The code's arrays have a fixed capacity that it never checks; the sizes that pages reach are stated by `InsertRunCapped` and `RemoveCapped`.
- Key and record id of a leaf slot are one pair, since they are always moved together. The unused key in slot 0 of an internal page is kept in the page object and not part of the page's value.
- The code for the first parent of an insertion and for the loop over the others is the same and modelled once; so are the leaf and internal halves of the repair in `Remove`, and the read and write halves of fetching and of guards.
- BPlusTrees.BPlusTree.FindShort: the rewrite of a separator in the ascent is a dead branch there, by `OldKeyIsNoSeparator`.
- Iterators.BeginAt: for a key past the end of a leaf that has a successor it is said where the iterator stands, not what using it does. In the code `operator*` then throws, the first `operator++` moves the index one past the size without complaint, and every later use throws.
- BufferPools.PageGuard.Flush: the disk write of a guard's flush is not counted in `disk_writes_`, as in the code.
- BlockJoins.BlockNestedLoopJoin.ExecuteJoin: rows lie on pages that can be read, and there are enough frames for the guards its history holds; the pool's own failures are not threaded through the join.
- Memory for the maps and lists of the replacer is unbounded; their sizes are compared with 2^64 only where `TargetInRange` says so.
