# A Dafny model of `btree.rs`, the early Rust B-tree

This project models the insertion path of the B-tree in
`src/libcollections/btree.rs`. It covers:

- the tree, its nodes and their key/value elements;
- `BTree::new` and `BTree::insert`;
- the node helpers `split_child`, `insert_nonfull` and `bsearch_node`;
- the eight unit tests of the file.

The model follows the code as written, including where the code departs
from a conventional B-tree. Only the first of the expectations below is
written down in the source: the doc comment of `bsearch_node` (line 187)
says it finds the index at which to insert a key. The other three are those
of the conventional B-tree design that the code follows in outline (a root
"full" check at line 56, a split of a full child, a descent into one child):

- a binary search that finds the insertion point;
- a split that replaces a full child by its two halves;
- a descent into the child whose key range holds the new key;
- a root that splits when it holds exactly `2t - 1` elements.

The code does something else in each case:

- The search's `Less` and `Greater` arms are swapped.
- `split_child` inserts the two halves but never removes the drained child.
- The descent steps right when the separator is greater than the key.
- Both split triggers use `>=`.
- `min_deg` is stored unchecked.

A sixth gap is a missing case. At a leaf, the value is updated in place
when the search index holds the key (lines 148-149); since the search is
swapped, it can miss a key the leaf already holds, which is then stored
again (`Scenarios.DuplicateKey`). A branch compares the key with
the element at the search index (line 170), but only to adjust the descent:
by design it hands an equal key on to the leaves (the comment at line 174).
No leaf below holds a separator's key, so inserting a key that is already a
separator stores it a second time in a leaf instead of updating its value.

Each departure is pinned down by lemmas. Corrected versions of the search,
the split and the descent, with the intended properties proved, live in the
`Corrected` module. `CorrectedTree` puts them together, with a value
overwrite at branches when the key is a separator, into a corrected
`insert_nonfull` and `insert`. It proves
that, on a well-formed tree with a capacity of at least 3 (`t >= 2`, or a degree whose `2t - 1` wraps), the corrected insertion never
panics, keeps the tree well formed and adds exactly the new key.
`CorrectedValues` proves, over the key/value view defined in `KeyValues`,
that it is an upsert: the key ends up holding the new value and no other,
and every other key keeps its values. `KeyValues` also proves what the
as-written insertion does to values.
"Well formed" is defined in `Ordering`, independently of any operation:

- keys in search order between the separators;
- node sizes between `t - 1` and `2t - 1`, and the root non-empty;
- one child more than elements in every branch;
- every leaf at the same depth.

Modules:

| file | module | contents |
|---|---|---|
| `outcomes.dfy` | `Outcomes` | `Result` with a `Panic(Fault)` arm: the four ways the code can panic (index past the end of a vector, `unwrap` on `None`) |
| `nodes.dfy` | `Nodes` | `Elt`, `Node` (`Leaf` = `children: None`, `Branch` = `children: Some(..)`), `BTree`, the 64-bit `Word` for `uint`, keys, contents (`Bag`), height, key order (`Ascending`, `IsSlot`) |
| `search.dfy` | `Search` | `bsearch_node` as a function and as the source's loop |
| `split.dfy` | `Split` | `split_child`, with the pop-and-reverse loops as slices |
| `insert.dfy` | `NodeInsert` | `insert_nonfull` at leaves and branches |
| `tree.dfy` | `Tree` | `BTree::new` and `BTree::insert` |
| `scenarios.dfy` | `Scenarios` | the unit tests, and concrete runs that exhibit the departures |
| `corrected.dfy` | `Corrected` | corrected search, split and descent |
| `ordering.dfy` | `Ordering` | what a well-formed B-tree is (search order within separator bounds, node sizes), and that the corrected split keeps it |
| `corrected_tree.dfy` | `CorrectedTree` | the corrected `insert_nonfull` and `insert`, and that they keep a tree well formed and add exactly the new key |
| `key_values.dfy` | `KeyValues` | every element stored under a node, values included (`Entries`); both splits keep it, and the as-written insertion stores the new element without touching other keys |
| `corrected_values.dfy` | `CorrectedValues` | the corrected insertion on a well-formed tree maps the key to the new value alone and every other key as before |

Modelling choices:

- A panic in the source is a `Panic(fault)` result. A function that can
  panic returns `Result`, and a panic in a callee propagates.
- Keys are `int` in place of a `TotalOrd` type parameter. Values are an
  arbitrary type parameter `V`.
- `min_deg * 2 - 1` is computed in wrapping 64-bit arithmetic, as `uint`
  was in the Rust of that time.
- The pop-then-reverse loops of `insert` and `split_child` move a suffix of
  a vector to a new vector in its original order, so they are slices here.

## Model

| member | source | states |
|---|---|---|
| Tree.New | src/libcollections/btree.rs:45-53 | `new` makes a one-element leaf root holding exactly the given key; the degree is stored as given |
| Tree.Capacity | src/libcollections/btree.rs:57 | the full-node bound `min_deg * 2 - 1` is always odd; it is `2t - 1` for `1 <= t < 2^63`, and a degree of 0 wraps to `2^64 - 1` |
| Tree.Insert | src/libcollections/btree.rs:55-84 | `insert` never changes the degree; when it succeeds, the tree grows by one level exactly when the root held `2t - 1` or more elements |
| Tree.GrowRoot | src/libcollections/btree.rs:57-77 | the root split panics only when the capacity is 0 and the root is empty; below the capacity the old root just becomes the only child of a fresh empty branch; at or above it the fresh root holds one element over three children, the last of them the empty drained old root |
| Tree.GrowRootFull | src/libcollections/btree.rs:57-77 | a root split of a root with exactly `2t - 1` elements never panics; the new root holds only the median `elts[t-1]`, then the two halves of `t - 1` elements, then the empty drained old root |
| Tree.GrowRootOk | src/libcollections/btree.rs:74-77 | the root split of a full root never panics |
| Tree.InsertFullRoot | src/libcollections/btree.rs:57-79 | after inserting into an exactly full root, the new root's only element is the old root's median, and it has three children |
| Tree.InsertContents | src/libcollections/btree.rs:55-84 | a successful insertion adds exactly one copy of `k` to the stored keys, or leaves the keys unchanged when `k` was already stored |
| Tree.InsertUniform | src/libcollections/btree.rs:55-84 | insertion keeps all leaves at one depth; that depth grows by one exactly when the root was full |
| Tree.InsertLeafRootOk | src/libcollections/btree.rs:55-84 | with a capacity above 1 (`t >= 2`, or a degree whose `2t - 1` wraps), inserting into a non-empty leaf root of any size never panics, over-full roots included |
| Tree.LeafChildrenOk | src/libcollections/btree.rs:162-182 | with a capacity of at least 3, the branch step over non-empty leaf children never panics, whether or not it splits the child it enters |
| Tree.NewThenInsert | src/libcollections/btree.rs:45-84 | with a capacity above 1 (`t >= 2`, or a degree whose `2t - 1` wraps), one insertion after `new` gives the single leaf `[k2, k]`, `[k]` with the new value, or `[k, k2]`, by the order of the keys |
| Tree.UnitDegreePanics | src/libcollections/btree.rs:57-78 | with `t = 1` the very first insertion after `new` panics on an empty node |
| Tree.ZeroDegreeNeverSplits | src/libcollections/btree.rs:57-82 | with `t = 0` a leaf root below `2^64 - 1` elements is never split and stays a leaf |
| Split.Splits | src/libcollections/btree.rs:89 | the split fires at `ub` elements or more, so an exactly full child splits, and so does an over-full one; with `ub >= 1` a child that splits is never empty |
| Split.Carve | src/libcollections/btree.rs:95-130 | the carve loops split a child of `n` elements: the last `n/2` go right, the element before them is the median, the rest go left, and left + median + right is the old run; of `g` grandchildren the last `g/2` go right and the rest left; the child is left empty |
| Split.SplitChild | src/libcollections/btree.rs:88-134 | `split_child` panics exactly on a leaf parent, an index past the children, or a real split of an empty child or at an index past the elements; it is a no-op below the bound and always yields a branch |
| Split.SplitChildParent | src/libcollections/btree.rs:131-133 | after a real split the median enters the parent's elements at `i`, the halves sit at `i` and `i + 1`, the drained child follows empty at `i + 2`, and all other elements and children keep their order |
| Split.CarveFull | src/libcollections/btree.rs:97-127 | a child of exactly `2t - 1` elements (and `2t` children) splits into halves of `t - 1` elements (and `t` children) around `elts[t-1]` |
| Split.CarveOverfullMisaligns | src/libcollections/btree.rs:106-127 | an over-full branch of even size `n` with `n + 1` children gives its left half two more children than elements and its right half as many children as elements |
| Split.SplitChildBreaksFanout | src/libcollections/btree.rs:131-133 | a split turns a parent with one more child than elements into one with two more children than elements |
| Split.CarveKeepsContents | src/libcollections/btree.rs:95-130 | the three carved nodes plus the median hold exactly the child's keys |
| Split.SplitChildKeepsContents | src/libcollections/btree.rs:88-134 | a successful split keeps the parent's keys as a multiset |
| Split.SplitChildHeight | src/libcollections/btree.rs:88-134 | a successful split keeps the height of the parent's children |
| Split.SplitChildUniform | src/libcollections/btree.rs:88-134 | a successful split keeps every leaf at the same depth |
| Search.BSearch | src/libcollections/btree.rs:188-217 | the search panics exactly on an empty node, and otherwise returns an index between 0 and the length |
| Search.Probe | src/libcollections/btree.rs:201-216 | the bisection loop from `(min, max, mid)` ends with an index in `[min, max)` |
| Search.BSearchNode | src/libcollections/btree.rs:188-217 | the source's `while` loop computes the same answer as `BSearch` |
| Search.BSearchEarlyExits | src/libcollections/btree.rs:192-199 | for ascending keys, the two early exits return the insertion point |
| Search.BSearchSingle | src/libcollections/btree.rs:188-217 | on one element the answer is always the insertion point |
| Search.BSearchPair | src/libcollections/btree.rs:201-216 | on keys `[a, b]` with `a < k <= b` the answer is 1, the insertion point |
| Search.BSearchTiny | src/libcollections/btree.rs:188-217 | on at most two ascending keys, the answer is the insertion point exactly unless `k` equals the first of two keys |
| Search.BSearchMissesFirstOfTwo | src/libcollections/btree.rs:203-213 | on keys `[1, 2]` the search for 1 answers 1, which is not where 1 belongs |
| Search.BSearchFiveKeys | src/libcollections/btree.rs:203-213 | on keys `[1, 2, 3, 4, 5]` the search for 4 answers 0, the wrong end of the node |
| NodeInsert.InsertNonfull | src/libcollections/btree.rs:136-185 | `insert_nonfull` panics at a leaf exactly when the leaf is empty; success never changes a node's kind or height |
| NodeInsert.LeafPut | src/libcollections/btree.rs:143-156 | the leaf step keeps the length when the element at the search index has key `k` (the value is overwritten in place), and otherwise grows the leaf by one |
| NodeInsert.LeafPutKeeps | src/libcollections/btree.rs:143-156 | whatever index the search hands it, the leaf step stores `(k, v)` and keeps every element under another key |
| NodeInsert.LeafPutUpsert | src/libcollections/btree.rs:147-152 | when the search index holds `k`, only that element's value changes |
| NodeInsert.LeafPutAdds | src/libcollections/btree.rs:143-156 | otherwise the new element appears at the index (at the end past it), and the old elements keep their order around it |
| NodeInsert.LeafPutContents | src/libcollections/btree.rs:139-161 | the leaf step adds exactly one `k`, or keeps the keys when `k` was present |
| NodeInsert.LeafPutAscending | src/libcollections/btree.rs:139-161 | on ascending keys the leaf step keeps them ascending if and only if the index is the insertion point of `k` |
| NodeInsert.InsertAtAscending | src/libcollections/btree.rs:155 | inserting an element into ascending keys keeps them ascending if and only if the position is its insertion point and the key is not there already |
| NodeInsert.DescentIndex | src/libcollections/btree.rs:167-177 | the descent moves at most one child to the right of the search index, and stays within the element count whenever the search index does |
| NodeInsert.DescentIndexReversed | src/libcollections/btree.rs:167-177 | whenever the element at the search index is not `k`, the adjusted index is not the child range where `k` belongs |
| NodeInsert.InsertNonfullLeafOrder | src/libcollections/btree.rs:139-161 | on a non-empty ascending leaf, insertion succeeds, and the leaf stays ascending if and only if the search returned the insertion point |
| NodeInsert.InsertNonfullBranchStep | src/libcollections/btree.rs:162-183 | a successful branch step is the split parent with the chosen, strictly lower child replaced by that child's own insertion result |
| NodeInsert.ReplaceChildContents | src/libcollections/btree.rs:179-182 | when the chosen child gains `k`, or only has a value overwritten, the parent's keys change in the same way |
| NodeInsert.InsertNonfullContents | src/libcollections/btree.rs:136-185 | a successful insertion adds exactly one copy of `k` to the subtree's keys, or keeps them when `k` was present |
| NodeInsert.InsertNonfullUniform | src/libcollections/btree.rs:136-185 | insertion keeps every leaf of the subtree at the same depth |
| Scenarios.SplitChildTest1And2 | src/libcollections/btree.rs:224-258 | splitting child 1 with bound 2 gives the parent `[3 5 7]` over `[1 2] [4] [6] [] [8 9]` |
| Scenarios.SplitChildTest3 | src/libcollections/btree.rs:260-283 | splitting a branch child passes its first two leaves to the left half, so the first grandchild starts with 4 |
| Scenarios.InsertTest1 | src/libcollections/btree.rs:285-293 | `[1 3]` plus 2 gives `[1 2 3]` |
| Scenarios.InsertTest2 | src/libcollections/btree.rs:295-303 | `[1 2]` plus 3 gives `[1 2 3]` |
| Scenarios.InsertTest3 | src/libcollections/btree.rs:305-313 | `[2 3]` plus 1 gives `[1 2 3]` |
| Scenarios.InsertTest4 | src/libcollections/btree.rs:315-325 | the over-full root `[1 2 3 4]` splits around 2 before 5 is inserted into `[3 4]` |
| Scenarios.InsertTest5 | src/libcollections/btree.rs:327-346 | the root's second key becomes 4, and 5 lands in the child `[3 5]`, left of the separator 4 |
| Scenarios.DuplicateKey | src/libcollections/btree.rs:139-157 | inserting 1 into `[1 2]` adds a second 1, which breaks the ascending order |
| Scenarios.DrainedChildPanic | src/libcollections/btree.rs:131-133 | with `t = 2`, `new(1)` and then inserting 2, 3, 5, 6, 4, 7, 8 succeeds; the next insert, 9, panics on a drained child |
| Corrected.SlotUnique | src/libcollections/btree.rs:188 | a node has at most one insertion point for a key |
| Corrected.Bisect | src/libcollections/btree.rs:201-216 | bisection with the arms the right way round stays within its range and, when everything left of it is below `k` and everything right of it at least `k`, returns the insertion point |
| Corrected.LowerBound | src/libcollections/btree.rs:187-217 | the corrected search never panics, not even on an empty node, and on ascending keys returns the one and only insertion point of `k` |
| Corrected.LowerBoundLoop | src/libcollections/btree.rs:188-217 | the corrected search as a loop computes `LowerBound` |
| Corrected.SplitChildReplacing | src/libcollections/btree.rs:88-134 | the corrected split panics in the same cases as the source; a real split adds one element and one child to the parent |
| Corrected.CarveKeepsFanout | src/libcollections/btree.rs:106-129 | halving a well-formed child with an odd number of elements gives two well-formed halves |
| Corrected.SplitChildReplacingFanout | src/libcollections/btree.rs:131-133 | the corrected split keeps every branch one child wider than it has elements |
| Corrected.SplitChildReplacingKeepsContents | src/libcollections/btree.rs:88-134 | the corrected split keeps the parent's keys |
| Corrected.DescentIndexFixed | src/libcollections/btree.rs:167-177 | the corrected adjustment stays at the index or moves one past it |
| Corrected.DescentIndexFixedSlot | src/libcollections/btree.rs:167-177 | after a split at the insertion point, the corrected adjustment picks exactly the child range where `k` belongs |
| Corrected.SplitChildReplacingHeight | src/libcollections/btree.rs:88-134 | the corrected split keeps the height of the parent's children |
| Corrected.SplitChildReplacingUniform | src/libcollections/btree.rs:88-134 | the corrected split keeps every leaf at the same depth |
| Tree.StartNode | src/libcollections/btree.rs:57-78 | the node `insert` descends from is one level taller than the root exactly when the root held `2t - 1` or more elements |
| Tree.StartNodeUniform | src/libcollections/btree.rs:57-78 | that node keeps every leaf at one depth, one level deeper after a root split |
| Scenarios.SeparatorDuplicate | src/libcollections/btree.rs:162-183 | inserting 2 under the separator 2 stores a second 2 in the leaf `[1]`; the separator keeps its old value |
| Scenarios.RunSplitsForFour | src/libcollections/btree.rs:88-134 | the split that inserting 4 makes in the `t = 2` run leaves an empty drained leaf after the two halves |
| Ordering.CarveWindows | src/libcollections/btree.rs:95-130 | for an odd number of elements, the median is the middle element and the halves are the elements and children on either side of it |
| Ordering.CarveOrdered | src/libcollections/btree.rs:95-130 | carving an ordered node gives a median within the node's bounds, a left half below it and a right half above it, both in search order |
| Ordering.SeparatorFits | src/libcollections/btree.rs:131 | a key between the separators around slot `i` keeps the elements ascending when it enters at `i` |
| Ordering.SeparatorBounds | src/libcollections/btree.rs:131-133 | after the median enters at `i`, children before `i` keep their separators, the two halves are bounded by the median, and later children keep theirs shifted by one |
| Ordering.InsertSeparatorOrdered | src/libcollections/btree.rs:131-133 | putting the median into an ordered parent, with the two halves in place of the child, keeps the parent in search order |
| Ordering.SplitChildReplacingOrdered | src/libcollections/btree.rs:88-134 | the corrected split of a child with an odd number of elements never panics and keeps the parent in search order |
| Ordering.SplitChildReplacingSized | src/libcollections/btree.rs:88-134 | splitting a full child of a parent with room keeps every node within its size bounds |
| CorrectedTree.PutValue | src/libcollections/btree.rs:150-152 | overwriting a value keeps the length and the keys, changes only the element at `i`, and gives it the new value |
| CorrectedTree.PutValueOrdered | src/libcollections/btree.rs:150-152 | overwriting a value keeps a node in search order |
| CorrectedTree.InsertNonfull | src/libcollections/btree.rs:136-185 | the corrected `insert_nonfull` never changes a node's kind or height when it succeeds |
| CorrectedTree.SlotNotStored | src/libcollections/btree.rs:143-157 | at the insertion point of ascending keys, if the element there is not `k` then `k` is nowhere in the node |
| CorrectedTree.DescentTarget | src/libcollections/btree.rs:162-183 | after the corrected split and adjustment, the chosen child exists, has room, and its separators admit `k`, which is not in the parent's elements |
| CorrectedTree.DescentChildReady | src/libcollections/btree.rs:162-183 | the split parent stays ordered and sized, and the chosen child meets everything the recursive insertion requires |
| CorrectedTree.DescentStep | src/libcollections/btree.rs:162-183 | the descent is the split parent with the chosen, strictly lower child replaced by its own insertion result |
| CorrectedTree.SeparatorOverwrite | src/libcollections/btree.rs:162-177 | when the search index holds `k`, the corrected branch step only overwrites that value and keeps the keys |
| CorrectedTree.MedianOverwrite | src/libcollections/btree.rs:164-177 | when the median just brought up holds `k`, only its value is overwritten |
| CorrectedTree.LeafPutValid | src/libcollections/btree.rs:139-161 | the leaf step at the corrected index keeps a leaf ordered and within size |
| CorrectedTree.LeafPutExact | src/libcollections/btree.rs:139-161 | the leaf step at the corrected index adds `k` exactly when it is absent |
| CorrectedTree.InsertNonfullValid | src/libcollections/btree.rs:136-185 | insertion into an ordered, sized node with room whose bounds admit `k` never panics and keeps it ordered and sized |
| CorrectedTree.OrderedBagInRange | src/libcollections/btree.rs:162-183 | every key stored under an ordered node lies within its bounds |
| CorrectedTree.OnlyChildHolds | src/libcollections/btree.rs:179-182 | in an ordered parent whose elements lack `k`, `k` is stored under the parent exactly when it is stored under the chosen child |
| CorrectedTree.ReplaceChildExact | src/libcollections/btree.rs:179-182 | when the only child that can hold `k` gains it exactly when it was absent, so does the parent |
| CorrectedTree.InsertNonfullContents | src/libcollections/btree.rs:136-185 | in that setting the keys change by exactly one new `k` when `k` was absent, and not at all when it was present |
| CorrectedTree.InsertNonfullUniform | src/libcollections/btree.rs:136-185 | the corrected insertion keeps every leaf of the subtree at the same depth |
| CorrectedTree.BranchStepUniform | src/libcollections/btree.rs:162-183 | a successful branch step either only overwrites a value, or rebuilds the uniformly deep split parent around the chosen child's insertion result |
| CorrectedTree.StartNode | src/libcollections/btree.rs:57-78 | the corrected start node is one level taller than the root exactly when the root was full |
| CorrectedTree.Insert | src/libcollections/btree.rs:55-84 | the corrected `insert` keeps the degree and grows the tree by one level exactly when the root was full |
| CorrectedTree.NewValid | src/libcollections/btree.rs:45-53 | `new` gives a well-formed tree whenever the capacity `2t - 1`, computed with wrap-around, is at least 3: for `t >= 2`, and also for `t = 0` and `t >= 2^63` |
| CorrectedTree.GrowRootReady | src/libcollections/btree.rs:57-77 | splitting a full well-formed root gives a one-element root that is ordered, sized and holds the same keys |
| CorrectedTree.StartNodeReady | src/libcollections/btree.rs:55-78 | the start node of a well-formed tree is well formed, has room and holds the tree's keys |
| CorrectedTree.RootInsertValid | src/libcollections/btree.rs:79-83 | insertion from a well-formed root with room keeps it well formed and adds exactly `k` |
| CorrectedTree.InsertValid | src/libcollections/btree.rs:55-84 | on a well-formed tree the corrected `insert` never panics, keeps the tree well formed, and adds `k` exactly when it was absent |
| CorrectedTree.InsertKeySet | src/libcollections/btree.rs:55-84 | afterwards the tree holds exactly its old keys and `k` |
| CorrectedTree.InsertKeepsKeysUnique | src/libcollections/btree.rs:55-84 | a tree that stores each key at most once still does so afterwards |
| CorrectedTree.InsertAllValid | src/libcollections/btree.rs:55-84 | any sequence of corrected insertions into a well-formed tree succeeds and leaves it well formed |
| CorrectedTree.InsertAllKeys | src/libcollections/btree.rs:55-84 | after a sequence of insertions the tree holds exactly its old keys and the inserted ones |
| CorrectedTree.CorrectedRunSucceeds | src/libcollections/btree.rs:131-133 | the run `new(1)` then 2, 3, 5, 6, 4, 7, 8, 9 with `t = 2` succeeds and leaves a well-formed tree holding exactly 1 to 9 |
| CorrectedTree.SeparatorKeyOverwritten | src/libcollections/btree.rs:162-177 | inserting 2 under the separator 2 overwrites the separator's value and changes nothing else |
| KeyValues.CarveHalvesEntries | src/libcollections/btree.rs:95-130 | the two halves and the median hold exactly the split child's elements, values included |
| KeyValues.SplitChildKeepsEntries | src/libcollections/btree.rs:88-134 | the as-written split neither loses, adds nor changes a stored element |
| KeyValues.SplitChildReplacingKeepsEntries | src/libcollections/btree.rs:131-133 | the corrected split keeps every stored element with its value |
| KeyValues.EntryKeyStored | src/libcollections/btree.rs:29-39 | every element stored under a node has its key among the node's keys |
| KeyValues.LeafPutPuts | src/libcollections/btree.rs:139-158 | the leaf step at any index stores `(k, v)` and leaves every element under another key as often as before |
| KeyValues.ReplaceChildPuts | src/libcollections/btree.rs:179-182 | a child that had `(k, v)` stored, put back in its parent, does the same to the parent |
| KeyValues.InsertNonfullPuts | src/libcollections/btree.rs:136-185 | every successful as-written insertion stores `(k, v)` and adds, loses or changes no element under another key; an older element under `k` may remain |
| KeyValues.StartNodeEntries | src/libcollections/btree.rs:56-77 | the as-written root split keeps every element of the old root |
| KeyValues.InsertPuts | src/libcollections/btree.rs:55-84 | every successful as-written `insert` stores `(k, v)` and leaves the elements under every other key as they were |
| CorrectedValues.PutValueUpserts | src/libcollections/btree.rs:148-152 | in ascending elements, updating the value at a key's position leaves that key holding the new value exactly once and every other element as it was |
| CorrectedValues.LeafPutUpserts | src/libcollections/btree.rs:139-158 | at the corrected index the leaf step is an upsert: `k` holds `v` exactly once and no other value, and other keys are unchanged |
| CorrectedValues.SeparatorChildrenLack | src/libcollections/btree.rs:162-177 | in an ordered branch no child holds the key of one of the branch's own elements |
| CorrectedValues.BranchOverwriteUpserts | src/libcollections/btree.rs:162-177 | overwriting a separator's value in an ordered branch is an upsert of that key for the whole subtree |
| CorrectedValues.ReplaceChildUpserts | src/libcollections/btree.rs:179-182 | when the branch's elements and its other children do not hold `k`, an upsert in the child entered is an upsert in the parent |
| CorrectedValues.InsertNonfullUpserts | src/libcollections/btree.rs:136-185 | the corrected insertion into a well-formed node with room is an upsert of `k` to `v` |
| CorrectedValues.StartNodeKeepsEntries | src/libcollections/btree.rs:56-77 | the corrected root split keeps every element of the old root |
| CorrectedValues.InsertUpserts | src/libcollections/btree.rs:55-84 | on a well-formed tree the corrected `insert` never panics and is an upsert: `k` holds `v` exactly once and no other value, and every other key's elements are as they were |
| CorrectedValues.InsertMapsKey | src/libcollections/btree.rs:148-149 | after the corrected `insert` on a well-formed tree, `k` maps to `v` and to nothing else, and every other key maps to exactly the values it mapped to before |

## Left out

- `TotalOrd` keys: keys are `int`. Only the outcome of `cmp` matters to the code.
- Rust ownership, `~` boxes and `&mut`: the model is functional. `insert` and `insert_nonfull` return the new tree or node instead of mutating in place.
- Partial mutation before a panic is not modelled: the Rust code may have changed the node when it panics, but the model only reports the panic.
- The commented-out fields `len`, `lower_bound` and `upper_bound` of `BTree` are not modelled, because the code never reads them.
- The `#[cfg(test)]` harness is not modelled: each test's fixture and assertion became a lemma, and the assertions are stated as the full resulting nodes.
- A `uint` is taken as 64 bits. Lengths and indices are unbounded `nat`s, since no vector can hold `2^64` elements.
- Search.BSearch: its contract does not claim that the answer is an insertion point, because it is not one. The lemmas in `Search` state exactly when it is and is not.
- Tree.Insert: its own contract covers only the degree and the height. Contents, depth and panics are stated by the lemmas in `Tree`.
- CorrectedTree.InsertNonfull: its own contract covers only the node kind and the height. Panics, order, sizes and contents are stated by the lemmas in `CorrectedTree`.
- CorrectedTree.InsertValid: stated for a capacity of at least 3 (`t >= 2`, or a degree whose `2t - 1` wraps) only. With `t = 1` the capacity is 1, and every split leaves two empty halves, which is not a B-tree.
- Tree.ZeroDegreeNeverSplits: states that the leaf does not shrink, not its exact new contents. `NodeInsert.LeafPutUpsert` and `NodeInsert.LeafPutAdds` give those.

## Findings

| source | as written | input that shows it | evidently intended | confidence | as-written member | corrected member |
|---|---|---|---|---|---|---|
| src/libcollections/btree.rs:207-212 | `Less` sets `max = mid` and `Greater` sets `min = mid` | keys `[1, 2, 3, 4, 5]`, searching for 4 answers 0 | `Less` moves the lower bound up and `Greater` the upper bound down, giving the insertion point | not executed | Search.BSearchFiveKeys | Corrected.LowerBound |
| src/libcollections/btree.rs:131-133 | the two halves are inserted at `i` and `i + 1`, and the drained child stays behind at `i + 2` | `t = 2`: `new(1)`, then insert 2, 3, 5, 6, 4, 7, 8, 9; the last insertion panics reading `elts[0]` of an empty node | the halves replace the child, so every branch keeps one more child than elements | not executed | Scenarios.DrainedChildPanic | Corrected.SplitChildReplacingFanout |
| src/libcollections/btree.rs:170-173 | the index moves right when the element there is `Greater` than the key | insert_test_5: 5 lands in `[3]`, left of the separator 4 | move right when the element is `Less` than the key | not executed | Scenarios.InsertTest5 | Corrected.DescentIndexFixedSlot |
| src/libcollections/btree.rs:162-183 | a branch compares `k` with the element at the search index only to adjust the descent, and passes an equal key on to the leaves (comment at line 174); no leaf below holds that separator's key | branch `[2]` over `[1]` and `[3 5]`: inserting 2 stores a second 2 in `[1]` | a key already held in the branch has its value overwritten there. The comment at line 174 leaves equal keys to the leaves, so this is inferred from the update-in-place promise at lines 148-149, which the code keeps only when the search index holds the key | not executed | Scenarios.SeparatorDuplicate | CorrectedValues.InsertMapsKey |
