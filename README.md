# Persistent PATRICIA trie maps with shared, reference-counted nodes

This project models `EML::SharedRadixTree` and its predecessor
`EML::shared_scalar_map`. Both are maps from integer keys to values. They are
big-endian PATRICIA tries: a binary radix tree with path compression, where
a branch holds a prefix and a single-bit mask. Nodes are held through
intrusive reference-counted handles (`intrusive_shared_ptr` / `shared_ptr`
over a `control_block` with a use count). Copying a container copies one
handle, so copies share every node. `SharedRadixTree` mutates a branch in
place only when the handle's `unique()` holds, and otherwise copies the
path to the key. `shared_scalar_map` always copies the path.

The model has these layers.

- **`Bits`** (`bits.dfy`): `not_mem`, `left`, `make_mask`, `make_prefix` and
  the highest-set-bit function that stands for the `log2` intrinsics. They
  work on 32-bit unsigned patterns (`bv32`) and are proved against their
  meaning: the most significant differing bit, agreement above the mask, and
  clearing at and below it.
- **`Trie`** (`trie.dfy`): the node structure as a datatype. It has the
  well-formedness invariant documented on `fPrefix`/`fMask`, the map a node
  stands for (`Contents`), and the copy-on-write `Insert`, `Find` and
  `Erase`. Each is proved against `map<Key, V>`. This is the algorithm of
  `shared_scalar_map` and of the `_shared` paths.
- **`Heap`** (`heap.dfy`): the arena of nodes as a map from addresses to cells
  with per-node use counts. `HeapOk` is the counting invariant: each count
  equals the handles held outside any node plus the child slots pointing at
  the node from live nodes. From it follow liveness and the isolation
  lemmas. The nodes a handle owns exclusively (`Owned`: reachable through
  count-1 nodes only) are never reachable from any other outside handle.
- **`Arena`** (`arena.dfy`): class `NodeHeap`. It holds the handle operations:
  copy, destruction with recursive deletion, `make_shared` of a leaf or
  branch, and assignment into a child field.
- **`Nodes`** (`nodes.dfy`): the node operations `insert_unique`,
  `insert_shared`, `erase_unique`, `erase_shared` and `find_impl`, with their
  helpers, as methods on the arena. Every one of them refines the pure
  `Trie.Insert` / `Trie.Erase`: the destructive and the copying path compute
  the same map. The `_shared` methods change no existing cell. The `_unique`
  methods change only cells the handle owns exclusively, all of which have
  count 1, and they keep every cell's head.
- **`RadixTree`**, **`ScalarMap`** (`radix_tree.dfy`, `scalar_map.dfy`): the
  containers. Each is specified by the map it stands for. Each mutation also
  states that every other outside handle, including every other container's
  root on the same arena, still stands for the same trie (`Persists`).
- **`Scenario`** (`scenario.dfy`): the program `main.cpp` with its output lines,
  and the copy-independence scenarios.

## Model

| member | source | states |
|---|---|---|
| Bits.HighestBit | SharedRadixTree.hpp:54-79 | for a nonzero pattern, the result has exactly one bit set: a bit of the input, with no input bit above it |
| Bits.MakeMask | SharedRadixTree.hpp:369-376 | for distinct prefixes, the result is a single-bit mask at a bit where they differ, and they agree on every bit above it |
| Bits.SplitsAtUnique | SharedRadixTree.hpp:369-376 | any single-bit mask with that property is `MakeMask`'s result, so the most significant differing bit is unique |
| Bits.HighBitsAbove | SharedRadixTree.hpp:339-346 | for a single-bit mask, `~(mask - 1) ^ mask` is exactly the complement of the mask's bit and every bit below it, the bits strictly above it |
| Bits.LeftFlips | SharedRadixTree.hpp:348-354 | flipping the key's bit at the mask flips `left` |
| Bits.LeftIgnoresOthers | SharedRadixTree.hpp:348-354 | flipping any other single bit of the key leaves `left` unchanged |
| Bits.NotMemAgrees | SharedRadixTree.hpp:339-346 | against a well-formed prefix, `not_mem` is false exactly when the key agrees with the prefix on `HighBits` of the mask, the bits `Bits.HighBitsAbove` pins down as those strictly above the mask's bit (both directions) |
| Bits.NotMemBitAbove | SharedRadixTree.hpp:339-346 | a key that differs from a well-formed prefix at any single bit strictly above the mask's bit is rejected by `not_mem` |
| Bits.NotMemIgnoresLow | SharedRadixTree.hpp:339-346 | flipping a key bit at or below the mask's bit does not change `not_mem` |
| Bits.NotMemDiffers | SharedRadixTree.hpp:339-346 | a key that `not_mem` rejects differs from the prefix |
| Bits.MakePrefixIsPrefix | SharedRadixTree.hpp:378-384 | `make_prefix` is idempotent: its result is a well-formed prefix for the mask |
| Bits.MakePrefixClearsLow | SharedRadixTree.hpp:378-384 | for a mask, `make_prefix` clears every bit at and below the mask's bit |
| Bits.MakePrefixKeepsHigh | SharedRadixTree.hpp:378-384 | `make_prefix` keeps the key's value at every single bit more significant than the mask's bit |
| Bits.MakePrefixMem | SharedRadixTree.hpp:378-384 | `not_mem(k, make_prefix(k, m), m)` is false for every key and mask |
| Bits.SplitMem2 | SharedRadixTree.hpp:386-407 | the second prefix also passes `not_mem` against the branch prefix built from the first |
| Bits.SplitOpposite | SharedRadixTree.hpp:386-407 | the two prefixes fall on opposite sides of the new mask |
| Bits.SplitAbove | SharedRadixTree.hpp:549-558 | a key outside a branch splits from the branch prefix at a mask strictly more significant than the branch's |
| Bits.SplitBelow | SharedRadixTree.hpp:717-725 | two keys on the same side of a branch split at a bit strictly below the branch's mask |
| Trie.MakeBranch | SharedRadixTree.hpp:386-407 | mask is `make_mask`, prefix is `make_prefix` of the first prefix; both prefixes pass `not_mem`; `node1` goes left exactly when the first prefix has 0 at the mask, otherwise right |
| Trie.MakeBranchValid | SharedRadixTree.hpp:386-407 | a branch over two well-formed subtries whose masks lie below the new one is well formed |
| Trie.MakeBranchContents | SharedRadixTree.hpp:386-407 | the branch stands for the union of its two disjoint operands' maps |
| Trie.KeysCovered | SharedRadixTree.hpp:717-725 | every key under a well-formed node passes `not_mem` for that node's prefix and mask, as `fPrefix` documents |
| Trie.ChildKeys | SharedRadixTree.hpp:717-725 | keys under `fLeft` have 0 at the mask and keys under `fRight` have 1, both matching the prefix above it |
| Trie.ChildrenDisjoint | SharedRadixTree.hpp:717-725 | the two children of a branch hold disjoint key sets |
| Trie.FindCorrect | shared_scalar_map.hpp:383-393 | find returns the stored value of a present key and none for an absent key |
| Trie.InsertValid | shared_scalar_map.hpp:323-374 | insertion keeps the trie well formed |
| Trie.InsertContents | shared_scalar_map.hpp:323-374 | insertion adds an absent key with its value and leaves the map unchanged for a present key |
| Trie.InsertReports | shared_scalar_map.hpp:422-431 | the reported flag is true exactly for an absent key; the reported value is the stored one, or the new one |
| Trie.InsertPresent | shared_scalar_map.hpp:422-431 | inserting a present key returns the very same trie, with no overwrite |
| Trie.InsertEdge | SharedRadixTree.hpp:571-580 | inserting a key that belongs under a branch edge keeps the result's head valid for that edge, so a child may be replaced in place |
| Trie.EraseValid | SharedRadixTree.hpp:656-667 | erasure keeps the trie well formed, including the collapse to the sibling |
| Trie.EraseEdge | SharedRadixTree.hpp:643-654 | what erasure leaves under a branch edge still fits that edge |
| Trie.EraseContents | SharedRadixTree.hpp:537-546 | erasure removes the key and nothing else; the empty handle stands for the empty map |
| Trie.EraseRemoved | SharedRadixTree.hpp:781-787 | the reported count is 1 for a present key and 0 for an absent one |
| Trie.EraseAbsent | SharedRadixTree.hpp:628-632 | erasing an absent key returns the same trie |
| Trie.NonEmpty | SharedRadixTree.hpp:999-1002 | every node stands for a nonempty map, so a container is empty exactly when its root is null |
| Heap.Abs | SharedRadixTree.hpp:717-725 | every node of a shaped arena stands for a well-formed trie with the node's own head |
| Heap.ExtLive | SharedRadixTree.hpp:120-147 | a node held by an outside handle has not been deleted (its count is positive) |
| Heap.ChildLive | SharedRadixTree.hpp:120-147 | the children of a live node are live |
| Heap.OwnedCount | SharedRadixTree.hpp:134-137 | every node a handle owns exclusively has use count 1 |
| Heap.SoleParent | SharedRadixTree.hpp:134-137 | a node of count 1 has one live parent at most |
| Heap.RootIsolation | SharedRadixTree.hpp:247-253 | no node reachable from another outside handle is owned exclusively by this one, which is why the `unique()` test makes in-place change safe |
| Heap.SiblingIsolation | SharedRadixTree.hpp:571-580 | nothing reachable from one child of a branch is owned exclusively through the other |
| Heap.AbsFrame | SharedRadixTree.hpp:581-592 | a node's trie depends on the cells it reaches only, so a shared child keeps its meaning |
| Heap.CopyOk | SharedRadixTree.hpp:167-173 | a handle copy that increments the use count keeps the counting invariant |
| Heap.DecOk | SharedRadixTree.hpp:203-212 | destroying a handle to a node of count above 1 by decrementing keeps the invariant |
| Heap.FreeOk | SharedRadixTree.hpp:203-212 | deleting a node of count 1 keeps the invariant, with its child handles becoming handles to destroy |
| Heap.LeafAllocOk | SharedRadixTree.hpp:270-279 | a new leaf with count 1 and one outside handle keeps the invariant |
| Heap.BranchAllocOk | SharedRadixTree.hpp:281-294 | a new branch that takes over two handles (moved in) keeps the invariant |
| Heap.SetChildOk | SharedRadixTree.hpp:197-201 | assigning a handle into a child field by swap keeps the invariant, with the old child's handle to destroy |
| Arena.NodeHeap.IsUnique | SharedRadixTree.hpp:247-253 | `unique()` is true for a null handle, and for a node exactly when the handle owns that node exclusively (count 1) |
| Arena.NodeHeap.Copy | SharedRadixTree.hpp:167-173 | the copy increments the node's count by one, adds one outside handle and changes no cell |
| Arena.NodeHeap.Release | SharedRadixTree.hpp:203-212 | the destructor decrements a count above 1, or brings count 1 to 0; no cell changes, and counts outside the node's reach are kept |
| Arena.NodeHeap.Free | SharedRadixTree.hpp:203-212 | deleting a node of count 1 also destroys its child handles, and changes only counts within its reach |
| Arena.NodeHeap.ReleaseKids | SharedRadixTree.hpp:203-212 | a deleted branch's two child handles are destroyed, with counts outside its reach kept |
| Arena.NodeHeap.NewLeaf | SharedRadixTree.hpp:270-279 | a fresh leaf at a fresh address with count 1 and one outside handle |
| Arena.NodeHeap.NewBranch | SharedRadixTree.hpp:281-294 | a fresh branch with count 1 that takes over the two child handles |
| Arena.NodeHeap.SetChild | SharedRadixTree.hpp:197-201 | only the branch's child field changes; the new child's handle moves in, and the old child's is destroyed |
| Arena.SwapRoot | SharedRadixTree.hpp:197-201 | assigning a new handle over an old one leaves the other handles as they were |
| Nodes.MakeBranch | SharedRadixTree.hpp:386-407 | the new node stands for `Trie.MakeBranch` of the two operands' tries; it is a branch with mask `make_mask(p1, p2)` and prefix `make_prefix(p1, mask)`, holding the first operand on `left(p1, mask)`'s side and the second on the other; no existing cell changes |
| Nodes.InsertNotMem | SharedRadixTree.hpp:549-558 | a fresh branch holds the old subtree on the side the key does not take and a fresh leaf with the key and value on the other, as in `Trie.Insert`; no existing cell changes |
| Nodes.LeafInsert | SharedRadixTree.hpp:755-764 | the result equals `Trie.Insert` on the leaf; the same handle is returned exactly when nothing was inserted, and a fresh node otherwise |
| Nodes.InsertShared | SharedRadixTree.hpp:505-514 | the result is `Trie.Insert` of the old trie, and no existing cell changes |
| Nodes.InsertSideShared | SharedRadixTree.hpp:581-592 | a fresh branch with the old prefix and mask holds the updated child and the same sibling handle; as `Trie.Insert`, with no existing cell changed |
| Nodes.NewSide | SharedRadixTree.hpp:581-592 | the fresh branch's cell is the old one with one side replaced, and stands for that trie |
| Nodes.Relink | SharedRadixTree.hpp:571-580 | the child field is replaced in place, and the branch then stands for the join with the new child |
| Nodes.InsertUnique | SharedRadixTree.hpp:494-503 | the result is `Trie.Insert` of the old trie; only cells owned exclusively by the handle change, and no head changes |
| Nodes.InsertSideUnique | SharedRadixTree.hpp:560-580 | on a count-1 branch, the same handle comes back standing for `Trie.Insert`, with its prefix, mask and sibling unchanged; cells outside the exclusive part are unchanged |
| Nodes.LeafErase | SharedRadixTree.hpp:776-787 | the result equals `Trie.Erase` on the leaf; the same handle is returned exactly when nothing was removed |
| Nodes.EraseNotMem | SharedRadixTree.hpp:628-632 | a key outside the branch returns the same handle with count 0 |
| Nodes.EraseShared | SharedRadixTree.hpp:537-546 | the result is `Trie.Erase` of the old trie, and no existing cell changes |
| Nodes.EraseSideShared | SharedRadixTree.hpp:656-667 | the result is the sibling handle, or a fresh branch with the old prefix, mask and sibling; as `Trie.Erase`, with no cell changed |
| Nodes.EraseUnique | SharedRadixTree.hpp:526-535 | the result is `Trie.Erase` of the old trie; only cells owned exclusively by the handle change |
| Nodes.EraseSideUnique | SharedRadixTree.hpp:634-654 | on a count-1 branch, the result is the sibling handle, or the same handle with its prefix, mask and sibling unchanged; as `Trie.Erase` |
| Nodes.FindAt | SharedRadixTree.hpp:705-715 | the lookup through the arena returns the value under the key in the node's map, none when absent |
| Nodes.PersistsOutside | SharedRadixTree.hpp:560-569 | when only cells owned exclusively by one handle change, every other outside handle keeps its trie |
| Nodes.PersistsAll | SharedRadixTree.hpp:581-592 | when no existing cell changes, every outside handle keeps its trie |
| RadixTree.SharedRadixTree.constructor | SharedRadixTree.hpp:934-935 | a new container stands for the empty map |
| RadixTree.SharedRadixTree.Copy | SharedRadixTree.hpp:167-173 | the copy shares the root, stands for the same map, and leaves the original's map as it was |
| RadixTree.SharedRadixTree.Insert | SharedRadixTree.hpp:938-949 | an absent key is added and a present one left alone; the flag and value are reported; every other handle keeps its trie |
| RadixTree.SharedRadixTree.Find | SharedRadixTree.hpp:952-961 | the stored value of a present key, none (`end()`) for an absent key or an empty container |
| RadixTree.SharedRadixTree.Erase | SharedRadixTree.hpp:964-972 | the key is removed and nothing else; 1 or 0 is returned by presence; every other handle keeps its trie |
| RadixTree.SharedRadixTree.Clear | SharedRadixTree.hpp:993-996 | the container becomes empty, and no node or other handle changes |
| RadixTree.SharedRadixTree.Empty | SharedRadixTree.hpp:999-1002 | true exactly when the container stands for the empty map |
| ScalarMap.SharedScalarMap.constructor | shared_scalar_map.hpp:527-529 | a new container stands for the empty map |
| ScalarMap.SharedScalarMap.Copy | shared_scalar_map.hpp:95-101 | the copy shares the root and stands for the same map |
| ScalarMap.SharedScalarMap.Insert | shared_scalar_map.hpp:531-542 | as `SharedRadixTree`'s insert; in addition every outside handle, the old root included, keeps its trie |
| ScalarMap.SharedScalarMap.Find | shared_scalar_map.hpp:587-594 | the stored value of a present key, none for an absent key or an empty container |
| ScalarMap.SharedScalarMap.Clear | shared_scalar_map.hpp:569-572 | the container becomes empty, and no node changes |
| ScalarMap.SharedScalarMap.Empty | shared_scalar_map.hpp:574-577 | true exactly when the container stands for the empty map |
| Scenario.MainOutput | main.cpp:5-29 | the lines `main` is written to print are 1, 0, 0, 1, 0, 0, 1, 2, 3, 0, 0, the last two under the scalar-map reading described under "Left out" |
| Scenario.FirstLines | main.cpp:7-13 | empty, then the value 0 found, not empty, and empty after `clear()` |
| Scenario.Fill | main.cpp:14-17 | four insertions give the map {0:0, 1:1, 2:2, 3:3} |
| Scenario.FindLines | main.cpp:18-22 | not empty, and each key finds itself as value |
| Scenario.LastLines | main.cpp:23-28 | a copy of a nonempty container is not empty, nor is a scalar map after one insertion |
| Scenario.InsertAfterCopy | SharedRadixTree.hpp:1018-1021 | inserting into a container after copying it leaves the copy with the old map |
| Scenario.EraseAfterCopy | SharedRadixTree.hpp:1018-1021 | erasing from a container after copying it leaves the copy with the old map |
| Scenario.EraseFromCopyOf | SharedRadixTree.hpp:964-972 | erasing from the copy leaves the original with its map |
| Scenario.EraseFromCopy | SharedRadixTree.hpp:964-972 | after erasing 2 from a copy of {0..3}, the copy lacks 2, the original finds 2, and neither is empty |
| Scenario.EmptyContainer | SharedRadixTree.hpp:938-1002 | on an empty container `erase` returns 0, `insert` inserts, `find` then finds, and `clear()` makes it empty |

## Left out

- Pointer keys (`ptr_prefix`, `ptr_mask`, SharedRadixTree.hpp:813-898) are
  conversion glue. In `main.cpp` the scalar map's key is the address of a
  local variable, which `Scenario.MainOutput` takes as a parameter.
- `shared_scalar_map`'s default `Prefix = T` and `Mask = T` (the mapped type)
  are not modelled. The model uses the key's own bits as the prefix, which
  is what the keyed operations need when key and mapped type coincide.
- `map3` in main.cpp:25-27, a `shared_scalar_map<int*, int>`, plausibly does
  not instantiate as written: with `Prefix = Mask = int`
  (shared_scalar_map.hpp:506-511), the call to `make_branch` from
  `leaf::insert` (shared_scalar_map.hpp:429) deduces `Prefix` as `int*` from
  the key and as `int` from the node type (shared_scalar_map.hpp:486-491).
  `Scenario.MainOutput` models the map with its keys as prefixes instead, so
  its last two lines are what `main` is written to print, not a compiled
  program's output.
- Signed keys: `SharedRadixTree<int, int>` would shift into the sign bit.
  Keys are 32-bit unsigned patterns only, and other widths are not modelled.
- The `log2` intrinsics and `std::log2` are replaced by `Bits.HighestBit`,
  their integer meaning. The floating-point computation is not modelled.
- Iterators are modelled as the stored value (`Option` for `find`, with none
  for `end()`). Writing through an iterator is not modelled; it would
  change a leaf shared between copies. `end()` and `cend()` have no members
  of their own.
- Deletion is modelled as a count of 0. An address is never reused, and
  freeing memory is not modelled.
- Moves are modelled as transfers of one outside handle. Transient copies of
  by-value handle parameters are netted out: each operation is modelled by
  its net effect on the counts.
- `fUseCount` is `unsigned int`, and its 32-bit overflow is not modelled; the
  count is a natural number.
- Virtual dispatch, templates and SFINAE traits are not modelled. A node is
  a cell that is either a leaf or a branch.
- Thread safety and allocation failure are not modelled.
- That a key set has only one trie shape is not stated.
- Nodes.InsertUnique, Nodes.EraseUnique: the frame says which cells may
  change (those the handle owns exclusively), not that each of them does.
