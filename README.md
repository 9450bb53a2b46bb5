# rangetree-rs in Dafny

rangetree-rs keeps track of which integers in an inclusive domain
`[lo, hi]` are still free ("untaken"). It stores the untaken values as
the ascending list of their maximal ranges. Each range lives in a node of a
doubly linked list. The same nodes are also indexed by a left-leaning
red-black tree, keyed on each range's minimum. The nodes come from
`MemPool`, a chunked arena. The pool never moves an element once it is
handed out, and it reuses freed elements through a free chain that is
threaded through the elements themselves.

This project models both core files:

- `src/mempool_elem.rs` is the class `MemPoolElem.MemPool` (mempool.dfy).
  Its chunks are a `seq<seq<T>>` addressed by `Ptr = Null | At(chunk, slot)`.
  The free chain is a ghost sequence `chain`.
- `src/lib.rs` is split over four files:
  - The `List` is the class `RangeList.List` (list.dfy). It holds `first`
    and `last`; the ghost `order` is the list read forwards. Every link
    update is a store into the pool.
  - The `rb` module is the datatype `RedBlack.Tree` (redblack.dfy) with
    pure functions. Keys are read through a function from node to range
    minimum, taken from the pool.
  - `RangeTree` is the class `RangeTrees.RangeTree` (rangetree.dfy). It holds
    the domain, the list, the pool and the tree root. `Untaken()` is the
    sequence of ranges read off the list.
  - Specification functions over `seq<Span>` are in spans.dfy (module
    `Spans`): `TakeAt`, `ReleaseSpans`, `Gaps`, `FindIndex` and
    `PairAround`. rangeindex.dfy (module `RangeIndex`) connects the tree and
    the list to them.

`RangeTree.Valid()` is the invariant. It states:

- the list is linked;
- the tree is a balanced LLRB with a black root whose in-order sequence is
  the list;
- the ranges are ascending, disjoint, non-adjacent and inside the domain.

Every public operation keeps `Valid()` and states its new `Untaken()`
exactly. Lemmas in `Spans` then give what that means for the set of
untaken values. scenarios.dfy replays `test_mempool` and
`test_basic_take_release` against the contracts.

## Model

| member | source | states |
|---|---|---|
| MemPoolElem.Store | src/mempool_elem.rs:95-102 | a store through a pointer keeps every chunk's size and changes only the addressed element |
| MemPoolElem.AppendedSpec | src/mempool_elem.rs:69-78 | a fresh element lands at `NextSlot`, which is the next slot of the last chunk or slot 0 of a new one; the layout is kept; a chunk is opened exactly when the last one was full; every earlier element keeps its address and value |
| MemPoolElem.NoDupPairs | src/mempool_elem.rs:36-38 | the recursive no-repeats definition of the free chain implies that all positions hold distinct addresses |
| MemPoolElem.PairsNoDup | src/mempool_elem.rs:36-38 | the converse: distinct positions imply no repeats |
| MemPoolElem.NoDupAt | src/mempool_elem.rs:36-38 | two positions of a chain without repeats hold different addresses |
| MemPoolElem.StoreKeepsChain | src/mempool_elem.rs:95-102 | writing an element that is not on the free chain keeps the chain intact |
| MemPoolElem.ChainTail | src/mempool_elem.rs:79-81 | when `free` is not null it heads the chain, and the rest of the chain starts at its link |
| MemPoolElem.ChainPush | src/mempool_elem.rs:108-116 | an element linked to the old `free` becomes the head of a longer valid chain |
| MemPoolElem.MemPool.constructor | src/mempool_elem.rs:42-54 | `new`: one empty chunk, an empty free chain, and the given chunk size |
| MemPoolElem.MemPool.Clear | src/mempool_elem.rs:56-63 | `clear`: back to one empty chunk and an empty free chain |
| MemPoolElem.MemPool.AllocElem | src/mempool_elem.rs:66-83 | with an empty free chain it appends a default element at `NextSlot`; otherwise it hands out the chain head and drops it from the chain; the result is live either way |
| MemPoolElem.MemPool.AllocElemFrom | src/mempool_elem.rs:85-106 | as `AllocElem`, but the element holds `from`, in both the appended and the reused case |
| MemPoolElem.MemPool.FreeElem | src/mempool_elem.rs:108-116 | the element is relinked to the old head and becomes the new head of the chain (LIFO); no chunk changes size |
| MemPoolElem.MemPool.Write | src/mempool_elem.rs:95-102 | a store through a live pointer: only that element changes; `free` and the chain stay |
| RangeList.Blank | src/lib.rs:114-125 | `Node::default()`: null links and the range `[0, 0]`; the pool uses it to fill unused slots |
| RangeList.FreeLink | src/lib.rs:100-104 | `free_ptr_get`: the free chain continues through `next`; with `RangeList.FreeRelink` it satisfies the pool's law that reading back a stored link gives that link |
| RangeList.FreeRelink | src/lib.rs:105-111 | `free_ptr_set`: `next` becomes the chain link, `prev` points at the node itself (the freed tag), and the range is kept |
| RangeList.IndexOf | src/lib.rs:141-150 | the position of a node in the list order |
| RangeList.InsertAt | src/lib.rs:195-235 | inserting at a position lengthens the order by one and puts the node there |
| RangeList.InsertAtEnds | src/lib.rs:157-193 | inserting at position 0 or at the end is prepending or appending |
| RangeList.SetNext | src/lib.rs:195-235 | the store `(*p).next = x`; only `p` changes |
| RangeList.SetPrev | src/lib.rs:195-235 | the store `(*p).prev = x`; only `p` changes |
| RangeList.Link | src/lib.rs:195-235 | linking a node between its predecessor and successor yields a linked list with the node at position `i`, and touches only the three nodes |
| RangeList.LinkNeighbours | src/lib.rs:211-233 | the neighbour half of `push_after`/`push_before`: after the node's own links are set, setting the neighbours' links yields the linked list with the node inserted |
| RangeList.LinkFirst | src/lib.rs:203-209 | a single unlinked node forms a one-element list |
| RangeList.Unlink | src/lib.rs:278-304 | `remove`'s stores leave the neighbours linked past the removed node |
| RangeList.RangesOf | src/lib.rs:1142-1164 | the ranges of the nodes in list order, one per node |
| RangeList.List.constructor | src/lib.rs:794-808 | an empty list: `first` and `last` are null |
| RangeList.List.PushFront | src/lib.rs:157-174 | the node is prepended, the list stays linked, and only the node and its new neighbour change |
| RangeList.List.PushBack | src/lib.rs:176-193 | the node is appended; the same framing holds |
| RangeList.List.PushAfter | src/lib.rs:195-235 | the node goes right after `prev`, or first when `prev` is null; the list stays linked and only nodes around it change |
| RangeList.List.PushBefore | src/lib.rs:237-276 | the node goes right before `next`, or last when `next` is null; the same framing holds |
| RangeList.List.Remove | src/lib.rs:278-304 | the node leaves the order; its neighbours are linked to each other; nothing else changes |
| RangeList.List.Clear | src/lib.rs:306-311 | the list becomes empty |
| RangeList.LinkedConsistent | src/lib.rs:141-150 | in a linked list, the `next` of a node is a node whose `prev` is that node, and back; `next` is null exactly at `last` and `prev` exactly at `first` |
| RangeList.LinkedNeighbours | src/lib.rs:141-150 | a node's `next`/`prev` are the successor/predecessor in order; they are null exactly at the ends |
| RangeList.IndexOfEnds | src/lib.rs:141-150 | a node is first (last) exactly when its index is 0 (the last index) |
| RangeList.IndexOfUnique | src/lib.rs:141-150 | when there are no repeats, the index of the node at `i` is `i` |
| RangeList.FramedRefl | src/lib.rs:195-235 | a pool is within the frame of itself |
| RangeList.FramedMono | src/lib.rs:195-235 | a frame may always be widened |
| RangeList.InsertDistinct | src/lib.rs:195-235 | inserting a node that is new to the list keeps the no-repeats property and puts it at `i` |
| RangeList.InsertLinkAt | src/lib.rs:195-235 | after the insertion stores, each position has the right `next`/`prev` |
| RangeList.LinkedInsert | src/lib.rs:195-235 | the insertion stores produce a linked list with the node at `i`, touching only the nodes around it |
| RangeList.InsertLinks | src/lib.rs:195-235 | all positions after insertion are linked to their new neighbours |
| RangeList.RemoveDistinct | src/lib.rs:278-304 | removing a position keeps the no-repeats property |
| RangeList.InsertOffChain | src/lib.rs:195-235 | inserting a live node keeps every listed node off the free chain |
| RangeList.RemoveEnds | src/lib.rs:278-304 | after removal, the new first and last are the right nodes, and every listed node is still off the free chain |
| RangeList.RemoveFinal | src/lib.rs:278-304 | the removal stores leave a linked list whose ends are the old ends, or the removed node's neighbours |
| RangeList.RemoveLinkAt | src/lib.rs:278-304 | after removal, each position has the right `next`/`prev` |
| RangeList.LinkedRemove | src/lib.rs:278-304 | the removal stores produce a linked list of the remaining order |
| RedBlack.KeyCmp | src/lib.rs:342-353 | the result is -1, 0 or 1 exactly when the first key is less than, equal to or greater than the second |
| RedBlack.RotateLeft | src/lib.rs:355-365 | keeps the in-order sequence and the top colour; the old top becomes a red left child |
| RedBlack.RotateRight | src/lib.rs:367-377 | keeps the in-order sequence and the top colour; the old top becomes a red right child |
| RedBlack.FlipColor | src/lib.rs:379-388 | keeps the in-order sequence and the shape |
| RedBlack.MoveRedToLeft | src/lib.rs:390-404 | keeps the in-order sequence |
| RedBlack.MoveRedToRight | src/lib.rs:406-417 | keeps the in-order sequence |
| RedBlack.InsertFixup | src/lib.rs:444-455 | the rebalancing after an insertion step keeps the in-order sequence |
| RedBlack.InsertRec | src/lib.rs:423-456 | needs the key to be absent (the duplicate branch is unreachable), and yields a node |
| RedBlack.InsertRoot | src/lib.rs:419-464 | `insert_root`: black root; keeps the LLRB invariant; the in-order sequence is the old one with the node inserted in key order |
| RedBlack.FixupRemove | src/lib.rs:466-481 | keeps the in-order sequence |
| RedBlack.BorrowLeft | src/lib.rs:489-495 | `move_red_to_left` when the left spine is 2-nodes; keeps the in-order sequence |
| RedBlack.TiltRight | src/lib.rs:522-524 | `rotate_right` when the left child is red; keeps the in-order sequence |
| RedBlack.BorrowRight | src/lib.rs:530-534 | `move_red_to_right` when the right spine is 2-nodes; keeps the in-order sequence |
| RedBlack.PopMin | src/lib.rs:483-501 | `pop_min_recursive`: (Leaf, None) on an empty tree; otherwise it returns the minimum node, and the in-order sequence is that node followed by the rest |
| RedBlack.PopParts | src/lib.rs:497-499 | replacing the left subtree by the popped remainder removes the minimum from the front |
| RedBlack.RemoveRoot | src/lib.rs:503-565 | `remove_root`: keeps the LLRB invariant (balance, no right-leaning or double red, black root) and the order; the in-order sequence loses exactly that node |
| RedBlack.GetOrLowerRec | src/lib.rs:571-597 | the node with the greatest key `<= k` in a non-empty subtree, or none when every key is `> k` |
| RedBlack.GetOrLower | src/lib.rs:567-605 | `get_or_lower`: the node with the greatest key `<= k`, or none exactly when all keys exceed `k` |
| RedBlack.GetOrUpperRec | src/lib.rs:612-638 | the node with the least key `>= k` in a non-empty subtree, or none when every key is `< k` |
| RedBlack.GetOrUpper | src/lib.rs:608-646 | `get_or_upper`: the node with the least key `>= k`, or none exactly when all keys are below `k` |
| RedBlack.SetBlack | src/lib.rs:558-562 | the root recolouring of `remove_root` (and of `insert_root`, src/lib.rs:461): a non-empty root becomes black with the same children and payload, an empty tree stays empty, and the in-order sequence is unchanged |
| RedBlack.BalancedRec | src/lib.rs:652-664 | `is_balanced_recursive`; its meaning, true exactly when the subtree is balanced with black height `black`, is proved in `RedBlack.BalancedRecSpec` |
| RedBlack.IsBalanced | src/lib.rs:648-675 | `is_balanced`: true exactly when every path has the same number of black nodes |
| RedBlack.BalancedRecSpec | src/lib.rs:652-664 | the recursive check succeeds exactly when the subtree is balanced with black height `black` |
| RedBlack.RotateInverse | src/lib.rs:355-377 | rotating left and then right, or right and then left, over a red link gives back the tree |
| RedBlack.FlipInvolution | src/lib.rs:379-388 | flipping colours twice gives back the tree |
| RedBlack.OrderedSplit | src/lib.rs:342-353 | in an ordered tree, left keys are below the top key and right keys above it |
| RedBlack.Locate | src/lib.rs:516-521 | comparing keys tells which subtree holds a node |
| RedBlack.BlackSiblingExists | src/lib.rs:517-533 | in a balanced tree, a black child has a sibling |
| RedBlack.LeftLeafAlone | src/lib.rs:489-490 | a node with no left child in the minimum path has no right child either |
| RedBlack.BorrowLeftShape | src/lib.rs:491-495 | after `move_red_to_left`, the left child or its left child is red; balance is kept |
| RedBlack.TiltRightShape | src/lib.rs:522-524 | `rotate_right` over a red left child keeps the balance and the black height, and makes the right side red |
| RedBlack.BorrowRightShape | src/lib.rs:530-534 | after `move_red_to_right`, the right path has a red node to delete; balance is kept |
| RedBlack.BorrowRightRotates | src/lib.rs:406-417 | the rotation case of `move_red_to_right` |
| RedBlack.BorrowRightFlips | src/lib.rs:406-417 | the colour-flip-only case of `move_red_to_right` |
| RedBlack.RemoveLeftStep | src/lib.rs:516-520 | the left descent of `remove_recursive` meets its own precondition |
| RedBlack.RemoveRightStep | src/lib.rs:521-552 | the right descent of `remove_recursive` meets its own precondition, including the `debug_assert` that the right child exists at line 529 |
| RedBlack.FixupRemoveOk | src/lib.rs:466-481 | `fixup_remove` restores the no-red-right and no-double-red shape and keeps the black height |
| RedBlack.PopMinBalance | src/lib.rs:483-501 | `pop_min_recursive` keeps the balance and the black height |
| RedBlack.RemoveRec | src/lib.rs:508-556 | `remove_recursive`, defined with the source's three-way key comparison, borrowing and fixup; what it computes is proved in `RedBlack.RemoveRecInorder` (the in-order sequence loses exactly the node) and `RedBlack.RemoveRecBalance` (balance, colours and black height are kept) |
| RedBlack.RemoveRecBalance | src/lib.rs:508-556 | `remove_recursive` keeps the balance, the colour invariants and the black height |
| RedBlack.RemoveBalanceLeft | src/lib.rs:516-520 | the same, in the left-descent case |
| RedBlack.RemoveBalanceRight | src/lib.rs:521-555 | the same, in the right case |
| RedBlack.ToggleCommutesRotate | src/lib.rs:355-388 | rotations and colour flips commute with toggling the top node's colour |
| RedBlack.ToggleCommutesFixup | src/lib.rs:466-481 | `fixup_remove` commutes with toggling the top colour |
| RedBlack.ToggleCommutesBorrow | src/lib.rs:390-417 | both borrow steps commute with toggling the top colour |
| RedBlack.RemoveRecToggle | src/lib.rs:558-562 | deleting from a black root behaves like deleting from a red one, up to the root colour (the source never reddens the root first) |
| RedBlack.WithoutConcat | src/lib.rs:503-565 | removing a node from a concatenation removes it from each part |
| RedBlack.WithoutAbsent | src/lib.rs:503-565 | removing an absent node changes nothing |
| RedBlack.WithoutSubset | src/lib.rs:503-565 | what remains after removal is a subset, without the node |
| RedBlack.WithoutIncreasing | src/lib.rs:503-565 | removal keeps the keys ascending |
| RedBlack.WithoutAt | src/lib.rs:718-724 | in an ascending sequence, removing the node at `i` is cutting out position `i` |
| RedBlack.IncreasingApart | src/lib.rs:718-724 | in an ascending sequence, the node at `i` occurs nowhere else |
| RedBlack.WithoutCut | src/lib.rs:503-565 | removing a node that occurs once cuts it out |
| RedBlack.WithoutSingle | src/lib.rs:503-565 | removing a node from the sequence holding only it leaves nothing |
| RedBlack.WithoutOther | src/lib.rs:503-565 | removing a different node from a one-element sequence leaves it |
| RedBlack.WithoutParts | src/lib.rs:503-565 | removal distributes over a three-part concatenation |
| RedBlack.WithoutInLeft | src/lib.rs:516-520 | removal of a node in the left subtree only changes the left part |
| RedBlack.WithoutInRight | src/lib.rs:551 | removal of a node in the right subtree only changes the right part |
| RedBlack.WithoutTop | src/lib.rs:536-549 | removing the top node leaves left then right |
| RedBlack.RemoveRecInorder | src/lib.rs:508-556 | `remove_recursive` yields exactly the old in-order sequence minus the node |
| RedBlack.RemoveInorderLeft | src/lib.rs:516-520 | the same, in the left-descent case |
| RedBlack.RemoveInorderRight | src/lib.rs:521-555 | the same, in the right case, where the successor replaces the removed node |
| RedBlack.PopTop | src/lib.rs:539-549 | putting the popped successor on top in place of the removed node keeps left, then the right remainder |
| RedBlack.RemoveRootOk | src/lib.rs:558-562 | the root call meets `remove_recursive`'s precondition; blackening the result gives a valid LLRB holding the old nodes minus one |
| RedBlack.KeyAbsentParts | src/lib.rs:432-442 | an absent key is absent from both subtrees and differs from the top key |
| RedBlack.InsertRecBalance | src/lib.rs:423-456 | `insert_recursive` keeps the balance and the black height, and leaves at most a red top |
| RedBlack.InsertFixupLeft | src/lib.rs:433-453 | the fixup after a left insertion restores the shape |
| RedBlack.InsertFixupRight | src/lib.rs:436-453 | the fixup after a right insertion restores the shape |
| RedBlack.InsertSortedPrefix | src/lib.rs:419-464 | inserting a smaller key goes into the prefix |
| RedBlack.InsertSortedSuffix | src/lib.rs:419-464 | inserting a larger key goes into the suffix |
| RedBlack.InsertSortedElems | src/lib.rs:419-464 | insertion adds exactly the one node (as a multiset) |
| RedBlack.IncreasingTail | src/lib.rs:419-464 | the tail of an ascending sequence is ascending and above the head |
| RedBlack.IncreasingCons | src/lib.rs:419-464 | prepending a smaller key keeps a sequence ascending |
| RedBlack.InsertSortedIncreasing | src/lib.rs:419-464 | inserting a new key keeps the keys ascending |
| RedBlack.InsertRecInorder | src/lib.rs:423-456 | `insert_recursive` yields the in-order sequence with the node inserted in key order |
| RedBlack.InsertInorderLeft | src/lib.rs:433-435 | the same, for the left descent |
| RedBlack.InsertInorderRight | src/lib.rs:436-438 | the same, for the right descent |
| RedBlack.InsertSortedLeftPart | src/lib.rs:433-435 | insertion below the top lands left of it |
| RedBlack.InsertSortedRightPart | src/lib.rs:436-438 | insertion above the top lands right of it |
| RedBlack.InsertRootOk | src/lib.rs:458-463 | blackening the result of `insert_recursive` gives a valid LLRB with the node inserted in order |
| Spans.FindIndex | src/lib.rs:841-850 | the linear scan of `find_node_from_value`: the first range holding `v`, or none exactly when no range holds it |
| Spans.GapFrom | src/lib.rs:874-885 | the linear scan of `find_node_pair_around_value`: from `k` on, the first gap that `v` falls into, or none |
| Spans.Separated | src/lib.rs:1027-1091 | in a well-formed list, any two ranges are apart by at least one value |
| Spans.OnlySpan | src/lib.rs:825-852 | a value lies in at most one range |
| Spans.FindIndexUnique | src/lib.rs:825-852 | the range holding `v` is the one the scan finds |
| Spans.CoversConcat | src/lib.rs:994-1005 | a value is covered by a concatenation exactly when it is covered by one of its parts |
| Spans.CoversThree | src/lib.rs:994-1005 | the same, for three parts |
| Spans.CoversSingle | src/lib.rs:994-1005 | a one-range list covers exactly that range |
| Spans.CoversPair | src/lib.rs:994-1005 | a two-range list covers exactly the two ranges |
| Spans.CoversTriple | src/lib.rs:994-1005 | a three-range list covers exactly the three ranges |
| Spans.WellFormedAppend | src/lib.rs:1027-1091 | two well-formed lists with a gap between them join into a well-formed list |
| Spans.WellFormedWiden | src/lib.rs:893-902 | a well-formed list stays well formed in a larger domain |
| Spans.Cut | src/lib.rs:921-943 | a well-formed list cut in three: the outer parts are well formed and lie below and above the cut |
| Spans.CutLeft | src/lib.rs:921-943 | the left part of a cut is well formed and lies below the cut |
| Spans.CutRight | src/lib.rs:921-943 | the right part of a cut is well formed and lies above the cut |
| Spans.Splice | src/lib.rs:921-943 | replacing a middle part by a list that fits inside the gap keeps the list well formed, and coverage is the union of the parts |
| Spans.TakeMidSpec | src/lib.rs:921-943 | taking `v` out of one range leaves zero, one or two ranges that cover the old range without `v` |
| Spans.TakeAtSplice | src/lib.rs:921-943 | `TakeAt` only replaces the range that held `v` |
| Spans.TakeSplitShape | src/lib.rs:937-940 | the split branch (shrink the node, then add the upper part after it) gives the `TakeAt` result |
| Spans.MergeShape | src/lib.rs:1066-1069 | merging two neighbours (widen the first, drop the second) is the spliced result |
| Spans.TakeAtSpec | src/lib.rs:921-943 | `take_impl` on the ranges: the result is well formed and covers exactly the old values without `v` |
| Spans.GapFound | src/lib.rs:874-885 | when `v` falls between ranges `i` and `i + 1`, the scan finds gap `i` |
| Spans.Straddle | src/lib.rs:854-887 | an uncovered value inside the outer bounds falls into some gap |
| Spans.PairAroundSpec | src/lib.rs:854-887 | for an uncovered value, `find_node_pair_around_value` gives the ranges just below and just above it, adjacent in the list, never both absent |
| Spans.ReleaseMidSpec | src/lib.rs:1027-1091 | releasing `v` between two ranges gives a well-formed list covering both ranges plus `v` |
| Spans.PairAroundInside | src/lib.rs:862-886 | inside the outer bounds, the pair is the gap the scan finds, or none |
| Spans.ReleaseCases | src/lib.rs:1027-1091 | the four release cases (fill the gap, grow `prev`, grow `next`, add a new range) give the `ReleaseSpans` result |
| Spans.ReleaseSpec | src/lib.rs:1027-1091 | `release` on the ranges: well formed, and it covers exactly the old values plus `v` |
| Spans.ReleaseBetween | src/lib.rs:1027-1091 | the same, in the case where `v` lies between two ranges |
| Spans.ReleaseBetweenSplice | src/lib.rs:1027-1091 | between two ranges, `ReleaseSpans` only replaces those two |
| Spans.ReleaseBefore | src/lib.rs:1027-1091 | the same, in the case where `v` lies below the first range |
| Spans.ReleaseBeforeShape | src/lib.rs:1076-1083 | below the first range, `v` extends it or becomes a range in front |
| Spans.ReleaseAfter | src/lib.rs:1027-1091 | the same, in the case where `v` lies above the last range |
| Spans.ReleaseAfterShape | src/lib.rs:1072-1085 | above the last range, `v` extends it or becomes a range at the back |
| Spans.Bounds | src/lib.rs:854-887 | every covered value lies between the first minimum and the last maximum |
| Spans.ReleaseTakeAt | src/lib.rs:921-1091 | releasing a value just taken gives back exactly the ranges before the take |
| Spans.ReleaseRaisedMin | src/lib.rs:925-927 | releasing the value taken by raising a minimum lowers it back |
| Spans.ReleaseRemoved | src/lib.rs:928-930 | releasing the value of a removed one-value range puts the range back |
| Spans.ReleaseRemovedFirst | src/lib.rs:928-930 | the same, for the first range |
| Spans.ReleaseRemovedLast | src/lib.rs:928-930 | the same, for the last range |
| Spans.ReleaseRemovedInner | src/lib.rs:928-930 | the same, for an inner range |
| Spans.RemoveShape | src/lib.rs:928-930 | the neighbours and ends of a list with an inner range cut out |
| Spans.ReleaseRemovedResult | src/lib.rs:1080-1081 | a new one-value range lands in the gap where it belongs |
| Spans.RemoveWellFormed | src/lib.rs:783-792 | dropping a range keeps a list well formed |
| Spans.ReleaseLoweredMax | src/lib.rs:933-935 | releasing the value taken by lowering a maximum raises it back |
| Spans.ReleaseSplit | src/lib.rs:936-941 | releasing the value that split a range joins the two halves again |
| Spans.ReleaseSplitResult | src/lib.rs:1066-1069 | filling the gap between the two halves gives the unsplit range |
| Spans.InnerGapsStep | src/lib.rs:1114-1124 | one loop step of `ranges_taken_as_vec`: appending the gap after range `k` keeps "collected + rest = all gaps" |
| Spans.InnerGapsDone | src/lib.rs:1114-1124 | when the loop reaches the last range, the collected gaps are all of them |
| Spans.InnerGapsDrop | src/lib.rs:1114-1124 | the gaps from range `k` on are the gap after `k`, followed by the gaps from `k + 1` on |
| Spans.InnerGapsAt | src/lib.rs:1114-1124 | there is one gap per pair of neighbours, and gap `i` spans from `max + 1` of range `i` to `min - 1` of range `i + 1` |
| Spans.InnerGapsWellFormed | src/lib.rs:1114-1124 | the gaps between ranges form a well-formed list |
| Spans.InnerGapsCovers | src/lib.rs:1114-1124 | the gaps cover exactly the uncovered values between the first and the last range |
| Spans.GapsParts | src/lib.rs:1103-1133 | the taken ranges are the part below, the inner gaps and the part above |
| Spans.GapsSpec | src/lib.rs:1095-1137 | `ranges_taken_as_vec` is well formed and covers exactly the domain values that are not untaken, so the two vectors partition the domain |
| Spans.GapsWellFormed | src/lib.rs:1103-1133 | the taken ranges of a non-empty list are well formed |
| Spans.GapsInner | src/lib.rs:1114-1124 | the inner gaps of two or more ranges are non-empty, well formed, and bounded by the outer ranges |
| Spans.GapsPieces | src/lib.rs:1103-1133 | the part below, the inner gaps and the part above join into a well-formed list |
| Spans.InnerGapsEnds | src/lib.rs:1114-1124 | the first gap starts right after the first range; the last ends before the last range |
| Spans.WellFormedAppend3 | src/lib.rs:1103-1133 | three well-formed lists with gaps between them join into a well-formed list |
| Spans.GapsCovers | src/lib.rs:1103-1133 | for a non-empty list, a value is taken exactly when it is in the domain and not untaken |
| Spans.IsEmptySpec | src/lib.rs:1008-1017 | `is_empty` holds exactly when every domain value is untaken |
| Spans.Uncovered | src/lib.rs:1008-1017 | when `is_empty` fails, some domain value is taken |
| Spans.IsFullSpec | src/lib.rs:1020-1024 | no ranges means no value in the domain is untaken, and back |
| Spans.TakeAnyLeast | src/lib.rs:974-991 | the first range's minimum is untaken and is the least untaken value |
| RangeIndex.IncreasingFromMins | src/lib.rs:342-353 | when the tree's keys are the minimums of a well-formed list, the list order is ascending in the key |
| RangeIndex.WidenedKeys | src/lib.rs:1066-1079 | changing a range's maximum (`release` cases 1 and 2) keeps the tree keys ascending |
| RangeIndex.RangesPrefix | src/lib.rs:1153-1160 | the ranges read up to node `k` are those before `k`, followed by the range of `k` |
| RangeIndex.KeysAre | src/lib.rs:342-353 | the tree key of each node is its range minimum |
| RangeIndex.SpansOrder | src/lib.rs:342-353 | well-formed ranges make the list order ascending in the tree key |
| RangeIndex.InsertSortedAt | src/lib.rs:708-716 | inserting in key order puts the node at the list position where it was pushed |
| RangeIndex.InsertKeys | src/lib.rs:708-716 | the key of a node pushed in order is absent from the tree, as `insert_recursive` needs |
| RangeIndex.RangesSame | src/lib.rs:195-311 | list operations do not change any node's range |
| RangeIndex.RangesInsert | src/lib.rs:737-781 | adding a node at position `j` inserts its range at `j` |
| RangeIndex.RangesRemove | src/lib.rs:783-792 | removing the node at `i` removes range `i` |
| RangeIndex.StoreOutside | src/lib.rs:698-703 | writing a node that is not in the list changes neither the links nor the ranges |
| RangeIndex.StoreRange | src/lib.rs:925-1079 | writing a node's range keeps the links and changes exactly that position's range |
| RangeIndex.StoreRanges | src/lib.rs:925-1079 | writing a node's range changes exactly that position's range |
| RangeIndex.LinksSame | src/lib.rs:925-1079 | when the `next`/`prev` fields are unchanged the list stays linked |
| RangeIndex.StoreAt | src/lib.rs:925-1079 | a store at a listed node changes only that node |
| RangeIndex.RangesSameElems | src/lib.rs:691-696 | unchanged elements give unchanged ranges |
| RangeIndex.AllocFresh | src/lib.rs:691-696 | a freshly appended node is not in the list, and appending changes neither links nor ranges |
| RangeIndex.AllocReused | src/lib.rs:691-696 | reusing the free-chain head does not touch any listed node |
| RangeIndex.RemovedAbsent | src/lib.rs:783-792 | the removed node no longer occurs in the list |
| RangeIndex.FreedOffChain | src/lib.rs:783-792 | after `node_remove` the remaining nodes are still off the free chain, which now starts with the removed node |
| RangeIndex.IndexOfAt | src/lib.rs:141-150 | with no repeats, the index of the node at `k` is `k` |
| RangeIndex.PushedAt | src/lib.rs:737-781 | pushing a node at `j` inserts its range at `j` |
| RangeIndex.PushedFront | src/lib.rs:737-746 | pushing at the front prepends its range |
| RangeIndex.PushedBack | src/lib.rs:748-757 | pushing at the back appends its range |
| RangeIndex.RemovedRanges | src/lib.rs:783-792 | unlinking position `i` drops range `i` |
| RangeIndex.TreeInsertAt | src/lib.rs:708-716 | a node linked at position `j` of a well-formed list has a key absent from the tree, and inserting it gives a valid LLRB whose in-order sequence is the new list |
| RangeIndex.TreeRemoveAt | src/lib.rs:718-724 | removing the node at `i` from the tree keeps a valid LLRB whose in-order sequence is the list without position `i` |
| RangeIndex.AllSeparated | src/lib.rs:825-887 | any two ranges of a well-formed list are separated |
| RangeIndex.LowerSpan | src/lib.rs:829-839 | only the range with the greatest minimum `<= v` can hold `v` |
| RangeIndex.UpperSpan | src/lib.rs:862-872 | the gap around `v`, if any, is just below the range with the least minimum `>= v` |
| RangeIndex.NoUpperSpan | src/lib.rs:862-872 | when every minimum is below `v`, there is no gap above |
| RangeIndex.SeparatedAfter | src/lib.rs:825-887 | each range lies below all later ones |
| RangeIndex.LowerFinds | src/lib.rs:825-852 | the tree lookup of `find_node_from_value` finds exactly the node the linear scan at lines 841-850 finds, and a node is found exactly when `v` is untaken |
| RangeIndex.LowerIndex | src/lib.rs:567-605 | the position of `get_or_lower`'s answer in the in-order sequence |
| RangeIndex.LowerAt | src/lib.rs:829-839 | the range at that position holds `v` exactly when the scan finds it |
| RangeIndex.UpperPairs | src/lib.rs:862-872 | the tree lookup finds a gap exactly when the scan does, at the same place |
| RangeIndex.IncreasingIndex | src/lib.rs:342-353 | in an ascending order, the index of the node at `k` is `k` |
| RangeIndex.TreePair | src/lib.rs:854-887 | the tree path of `find_node_pair_around_value` returns exactly the nodes of the scan's pair, or nulls when the scan finds no gap |
| RangeIndex.PairNodes | src/lib.rs:854-887 | the pair's nodes are listed, hold the ranges around `v`, are adjacent, and are never both null for an uncovered value |
| RangeIndex.ReleaseNodes | src/lib.rs:1031-1091 | the touch tests on the pair's nodes choose the `ReleaseSpans` case |
| RangeIndex.PrevAt | src/lib.rs:866-867 | the `prev` of a listed node is the node before it, and the ranges at both positions |
| RangeIndex.UpperIndex | src/lib.rs:608-646 | the position of `get_or_upper`'s answer in the in-order sequence |
| RangeIndex.UpperAt | src/lib.rs:862-872 | the node at that position is never the first; it is preceded by the gap around `v` exactly when the scan finds one |
| RangeTrees.NewNode | src/lib.rs:810-822 | `new_node`: an unlinked node (both list links null) holding the given range; `RangeTrees.RangeTree.NodeAlloc` proves the allocated element equals it |
| RangeTrees.RangeTree.constructor | src/lib.rs:893-902 | `new`: only the whole domain is untaken, or nothing when `full` |
| RangeTrees.RangeTree.Clear | src/lib.rs:907-919 | `clear`: the same two outcomes as `new`; when `full`, the pool is also back to one empty chunk with an empty free chain |
| RangeTrees.RangeTree.NodeAlloc | src/lib.rs:691-696 | `node_alloc`: a live, unlisted node holding the new range; the untaken ranges are unchanged |
| RangeTrees.RangeTree.TreeInsert | src/lib.rs:708-716 | `tree_insert`: the tree again matches the list and keeps the LLRB invariant |
| RangeTrees.RangeTree.TreeRemove | src/lib.rs:718-724 | `tree_remove`: the tree's in-order sequence loses that node; it stays a valid LLRB |
| RangeTrees.RangeTree.NodeAddFront | src/lib.rs:737-746 | the range is prepended |
| RangeTrees.RangeTree.NodeAddBack | src/lib.rs:748-757 | the range is appended |
| RangeTrees.RangeTree.NodeAddAfter | src/lib.rs:771-781 | the range goes right after `prev`'s |
| RangeTrees.RangeTree.NodeAddBefore | src/lib.rs:759-769 | the range goes right before `next`'s |
| RangeTrees.RangeTree.NodeRemove | src/lib.rs:783-792 | the node's range is dropped, and the node heads the free chain |
| RangeTrees.RangeTree.NodeFree | src/lib.rs:698-703 | `node_free`: the node heads the free chain; the list is unchanged |
| RangeTrees.RangeTree.WriteRange | src/lib.rs:925-1079 | writing a listed node's range changes exactly that position of `Untaken()` |
| RangeTrees.RangeTree.FindNodeFromValue | src/lib.rs:825-852 | the node whose range holds `v`, the same as the linear scan finds, or null exactly when `v` is taken |
| RangeTrees.RangeTree.FindNodePairAroundValue | src/lib.rs:854-887 | the nodes just below and just above `v`, as `PairAround` gives them |
| RangeTrees.RangeTree.TakeImpl | src/lib.rs:921-943 | `take_impl`: the untaken ranges become `TakeAt` of the old ones at that node |
| RangeTrees.RangeTree.TakeSplit | src/lib.rs:936-941 | the split branch gives the same `TakeAt` result |
| RangeTrees.RangeTree.Take | src/lib.rs:949-956 | `take`: `v` is no longer untaken and every other value keeps its state |
| RangeTrees.RangeTree.Retake | src/lib.rs:960-971 | `retake`: true exactly when `v` was untaken; then as `take`; otherwise nothing changes |
| RangeTrees.RangeTree.TakeAny | src/lib.rs:974-991 | `take_any`: none exactly when nothing is untaken; otherwise the least untaken value, now taken |
| RangeTrees.RangeTree.TakeFirst | src/lib.rs:976-987 | the branch of `take_any` on a non-empty list: it takes the first range's minimum |
| RangeTrees.RangeTree.Has | src/lib.rs:994-1005 | `has`: true exactly when `v` is outside the domain or untaken |
| RangeTrees.RangeTree.IsEmpty | src/lib.rs:1008-1017 | `is_empty`: true exactly when no domain value is taken |
| RangeTrees.RangeTree.IsFull | src/lib.rs:1020-1024 | `is_full`: true exactly when no domain value is untaken |
| RangeTrees.RangeTree.Release | src/lib.rs:1027-1091 | `release`: the untaken ranges become `ReleaseSpans` of the old ones; the untaken values are the old ones plus `v` |
| RangeTrees.RangeTree.ReleaseAt | src/lib.rs:1064-1090 | given the pair around `v`, the case analysis gives `ReleaseSpans` |
| RangeTrees.RangeTree.ReleaseTouching | src/lib.rs:1066-1077 | cases 1 to 3: merge, grow `prev`, or grow `next` |
| RangeTrees.RangeTree.ReleaseGrow | src/lib.rs:1070-1077 | cases 2 and 3: storing the span widened by `v` at one end of `prev` or `next` yields the requested untaken list and keeps every invariant |
| RangeTrees.RangeTree.ReleaseApart | src/lib.rs:1076-1089 | case 4: a new one-value range after `prev`, before `next`, or alone |
| RangeTrees.RangeTree.ReleaseMerge | src/lib.rs:1066-1069 | case 1: `prev` takes `next`'s maximum and `next` is removed |
| RangeTrees.RangeTree.RemoveJoined | src/lib.rs:1069 | removing the absorbed node leaves the merged list |
| RangeTrees.RangeTree.RangesTakenAsVec | src/lib.rs:1095-1137 | `ranges_taken_as_vec`: exactly `Gaps`, which is well formed and covers exactly the taken domain values |
| RangeTrees.RangeTree.GapsOfList | src/lib.rs:1103-1133 | the non-empty-list branch: the part below, the inner gaps, and the part above |
| RangeTrees.RangeTree.InnerGapsOfList | src/lib.rs:1114-1124 | the loop over neighbour pairs collects exactly `InnerGaps` |
| RangeTrees.RangeTree.RangesUntakenAsVec | src/lib.rs:1142-1164 | `ranges_untaken_as_vec`: exactly the untaken ranges, well formed |
| RangeTrees.RangeTree.RangesOfList | src/lib.rs:1153-1160 | the loop from `first` collects the ranges in list order |
| Scenarios.Addrs | src/tests_mempool.rs:33-57 | the first `n` fresh addresses with chunks of 2, in allocation order |
| Scenarios.AddrDistinct | src/tests_mempool.rs:33-57 | distinct allocation indices give distinct addresses |
| Scenarios.NotInTail | src/tests_mempool.rs:51-56 | the address freed next is not yet on the free chain |
| Scenarios.FreshFull | src/tests_mempool.rs:40-49 | 128 fresh allocations fill 64 chunks of 2 |
| Scenarios.FreshStep | src/tests_mempool.rs:40-49 | fresh allocation `i` lands at `Addr(i)` and moves the layout on by one |
| Scenarios.StoreShape | src/tests_mempool.rs:40-56 | a store keeps the chunk layout |
| Scenarios.BuiltStep | src/tests_mempool.rs:44-48 | writing element `i` extends the built prefix |
| Scenarios.BuiltKept | src/tests_mempool.rs:51-56 | relinking element `i` keeps the elements before it |
| Scenarios.ChainFront | src/tests_mempool.rs:51-56 | freeing element `k - 1` extends the chain of later ones at the front |
| Scenarios.AllocAt | src/tests_mempool.rs:41-45 | allocation `i` of a round is at `Addr(i)`: a fresh slot in the first round, the chain head in the second |
| Scenarios.Place | src/tests_mempool.rs:44-48 | one step of the allocation loop |
| Scenarios.Build | src/tests_mempool.rs:41-49 | the allocation half of a round: 64 full chunks, each element holding its index and linked to the one before |
| Scenarios.Retire | src/tests_mempool.rs:51-56 | one step of the release loop: the element holds its index and is freed to the front of the chain |
| Scenarios.Unwind | src/tests_mempool.rs:51-56 | the release half: every element ends on the free chain in allocation order |
| Scenarios.Round | src/tests_mempool.rs:40-57 | one round, from an empty pool or from a pool whose chain holds all 128 addresses |
| Scenarios.MemPoolScenario | src/tests_mempool.rs:33-57 | `test_mempool`: after two rounds there are still exactly 64 chunks of 2 (no growth, no compaction) and all 128 addresses are free, the first-allocated one at the head |
| Scenarios.TakeFront | tests/rangetree.rs:8-23 | taking the first range's minimum shrinks or drops that range |
| Scenarios.TakeLeast | tests/rangetree.rs:12-13 | `take_any` hands out the first range's minimum |
| Scenarios.HasZero | tests/rangetree.rs:14 | `has(0)` is false once 0 is taken |
| Scenarios.ReleaseZero | tests/rangetree.rs:18 | releasing 0 below `[2, 10]` adds `[0, 0]` in front |
| Scenarios.RangesAfter | tests/rangetree.rs:8-23 | with `[2, 10]` untaken, the taken ranges are `[0, 1]` |
| Scenarios.Start | tests/rangetree.rs:10-14 | a new tree over `[0, 10]`; `take_any` gives 0, and 0 is taken |
| Scenarios.Middle | tests/rangetree.rs:16-18 | `take_any` gives 1; then 0 is released |
| Scenarios.Finish | tests/rangetree.rs:20-22 | `take_any` gives 0 again, and 0 is taken |
| Scenarios.BasicTakeRelease | tests/rangetree.rs:8-23 | `test_basic_take_release`: the values 0, 1, 0 and `has` false, then `[0, 1]` taken and `[2, 10]` untaken |

## Left out

- Generic element type: the `Zero`, `One` and `RType` traits (src/lib.rs:22-82) are replaced by `int`.
- Integer width: the model uses unbounded `int`. Under the modelled preconditions every `+ one()`/`- one()` in the source stays within `[lo, hi]`, but the model does not itself prove that no machine type overflows.
- `print` (src/lib.rs:1167-1179) does console output only.
- The linear-scan branches of `find_node_from_value` and `find_node_pair_around_value` (src/lib.rs:841-850 and 874-885) are not modelled as code. They run only when the constant `USE_BTREE` (src/lib.rs:12, set to `true`) is false. `Spans.FindIndex` and `Spans.GapFrom` state what these scans compute, and the tree path is proved equal to them.
- `tree_clear` (src/lib.rs:726-732) is folded into `RangeTrees.RangeTree.Clear` as `root := Leaf`.
- Raw pointers are `Ptr` values into `seq<seq<T>>`. `Vec` capacity and address stability become the fact that `Store` and `Appended` never move an element. The `debug_assert` on the first chunk's capacity in `clear` is not modelled.
- The MemElemUtils trait becomes the two function fields `link` and `relink` of the pool. Its law `link(relink(e, s, p)) == p` is required at construction.
- The `debug_assert!(rb::is_balanced(self.root))` calls in `tree_insert` and `tree_remove` (src/lib.rs:715 and 723) are not modelled as calls. The LLRB invariant, which implies them, is part of `RangeTree.Valid()`.
- The tree nodes' `left`, `right` and `color` fields are kept in the `RedBlack.Tree` value rather than in the pool elements. The tree is therefore a value the methods reassign, not a structure updated in place.
- RangeTrees.RangeTree.Take: requires `v` to be untaken. For a taken `v` the source debug-asserts and then dereferences a null node (src/lib.rs:953-955).
- RangeTrees.RangeTree.Release: requires `v` to be taken and within the domain. The source debug-asserts the first, and releasing a value outside the domain would leave the list ill formed (src/lib.rs:1043).
- RangeTrees.RangeTree.FindNodePairAroundValue: requires a non-empty list and `v` different from the first range's minimum. Otherwise the source dereferences a null node, either `first` itself or `prev` of the first node (src/lib.rs:858 and 866). `release` only calls it in those conditions.
- RangeTrees.RangeTree.constructor: requires `lo <= hi`. The source does not check this: `new` with `range[0] > range[1]` builds a single ill-formed node (src/lib.rs:893-902). The model rules that input out instead of describing the broken state.
- MemPoolElem.MemPool.FreeElem: requires `p` to be a live element. The source does not check this: freeing an element that is already free, or was never allocated, corrupts the free chain (src/mempool_elem.rs:108-116). The range tree only frees nodes it has just unlinked from its list.
- RangeList.List.PushFront: requires the node's links to be null, which the source debug-asserts (src/lib.rs:162, 181, 208 and 249); `PushBack` likewise, and `PushAfter` and `PushBefore` when the list is empty.
- RangeTrees.RangeTree.TakeFirst: the branch of `take_any` on a non-empty list is modelled by handing its first node and minimum to `TakeImpl`. `take_impl` takes the same two branches for that value: remove a one-value node, else raise the minimum.
