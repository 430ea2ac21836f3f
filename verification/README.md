# Brufs, modelled and proved

Brufs is a user-space file system. This project models its hard parts in Dafny and proves what they keep: the Bm+tree on
disk, the space allocator that stores its free extents in such a tree and feeds the tree's own blocks, the contents of
files over extents, the streaming hash, the messages between client and daemon, the namespace, and paths.

`dafny verify dfyconfig.toml` checks everything.

## How it is laid out

| files | what they hold |
|---|---|
| `BmTree.dfy` | the tree as a class over a disk of blocks and a pool of free ones; every node operation as a method |
| `BmTreeModel`, `BmTreeShape`, `BmTreeBlocks`, `BmTreeLocate`, `BmTreeInsert`, `BmTreeRemove`, `BmTreeSubtree`, `BmTreeLeaves`, `BmTreeNodes`, `BmTreeNodeRows`, `BmTreeCounts`, `BmTreeSteps`, `BmTreeConsumers` | well-formed trees as levels of nodes from left to right, what one step does to rows, leaves and links, reference definitions of the lists of entries that an insertion or a removal leaves in the nodes of all levels, how many blocks it takes or frees, and handing entries to a consumer |
| `BmTreeOrder`, `BmTreeOrderRemove`, `BmTreeSearch`, `BmTreeAscending`, `BmTreeDescent`, `BmTreeLostKeys`, `BmTreeTwoLeaves`, `BmTreeRuns`, `BmTreeExamples` | keys and separators, what searches find and miss, whole runs, inputs on which the tree is no ordered map |
| `FreeSpace`, `RefillRounds`, `RefillEnds`, `Allocator`, `AllocatorRuns`, `RefillSpin`, `AllocatorSpin` | the books of the allocator, the rounds of refilling and how they end, the allocator on top of the very same tree class, its runs, and a state in which refilling never ends |
| `Volume`, `FileExtents`, `File`, `FileRuns`, `FileLookups` | a device, the extent index of one file, the file as a class, runs of writes and truncations, and what becomes of lookups when the index is more than one leaf |
| `XXHashStripes`, `XXHash64`, `XXHash32`, `XXHash64Known`, `XXHash32Known`, `XXHashCanonical` | the hash in pieces and as a whole, known digests (xxHash fast digest algorithm specification, steps 1 to 6 of either width) |
| `Bytes`, `Pieces`, `Multiples`, `Message`, `MessageIO`, `MountRequest` | digits, the message buffer, framing, the mount request |
| `Namespace`, `Root`, `Mkdir`, `Directories`, `Text`, `PathParser` | inodes and entries, the root's operations, `mkdir`, directories as trees keyed by hash, strings, paths |

What changes in place in the program is a class here, and its methods are tied to functions of the old state; what the
program promises is proved about those functions.

## Terms

- A tree is *valid* when level 0 holds exactly the leaves, every child is one level below its parent, each level's
  children are the nodes of the level below in order, an inner root has two children or more, every other node is between
  half full and full, the `prev` links run through the leaves backwards, and no block is used twice.
- The *contents* of a tree are the entries of its leaves from left to right. Its *blocks* are its nodes and the pool.
- A valid tree is *ordered* when its leaves are sorted and lie between their separators, and every inner node ends with
  the separator to its right.
- An insertion *misplaces* its key when a node on its way up is full and splits right at the index of the entry waiting
  to go in, whose key is not the separator. This can be read off the nodes before the call.
- The *written prefix* of a file is what was written from its start without a gap.

## What the code does that its callers may not expect

- The tree is no ordered map once it has split: the separator is fixed before the waiting entry is placed, and an entry
  for the very middle goes left of it (`btree-def-node.hpp:401-411`). Exactly these insertions break the order
  (`BmTree.Insert`), and in a tree of any height with distinct keys exactly these make a stored key impossible to find
  (`BmTreeLostKeys.InsertKeepsFound`). Input: 10, 20, 30, 40, 25 with leaves of four (`BmTreeExamples.LoseTwenty`).
- A strict removal looks only into the leaf it lands in and misses a key that is stored just before the separator equal
  to it (`btree-def-node.hpp:795`, `StrictRemovalExact`, `BmTreeExamples.MissTwenty`).
- A non-strict search returns a lower key whenever the key is not stored and the leaf it lands in has one before it
  (`btree-def-node.hpp:258`, `LooseSearchExact`, `BmTreeExamples.AnswerTwenty`).
- A non-strict removal looks only into the leaf it lands in as well, and finds nothing when all keys there are lower,
  whatever the next leaf holds (`btree-def-node.hpp:794-802`, `LooseRemovalExact`, `BmTreeExamples.TurnDown`). The
  allocator then turns down a request although longer extents are free (`Allocator.AllocateBlocks`).
- The refill loop of the allocator need not end (`Brufs.cpp:190-213`). A round moves nothing exactly when the blocks that
  the tree frees by giving up the extent reach the low mark by themselves (`RefillOnce`), and filing the extent again may
  take them all back. For every cluster size, even leaf capacity and pair of marks `AllocatorSpin` reaches a state from
  which this goes on for ever, by filing extents, handing out one cluster and allocating one extent. A tree of one leaf
  always stops, and one whose first extent suffices and needs no block for its rest stops after one round (`RefillEnds`).
- When refilling finds no cluster, the program returns an error although the extent asked for has left the tree
  (`Brufs.cpp:181-193`), and its callers forget that extent (`File.cpp:216-217`): it is neither free nor used from then
  on. The model keeps it among those handed out (`Allocator.AllocateBlocks` with `NotFound`).
- A file whose extent index outgrew one leaf is read from the wrong place: offsets are looked up with the non-strict
  search, which answers with an extent that ends before the offset unless the offset is in the first leaf or is the last
  byte of an extent (`File.cpp:166`, `File.cpp:254`, `FileLookups.LookUpExact`, `FileLookups.LookUpMisses`).
- A directory loses sight of a label when its hash is misplaced in the tree or more than 32 labels share it
  (`Directory.cpp:56-86`, `Directories.Directory`).
- `previous_multiple_of` is a base lower than its name says in most cases (`internal.hpp:82`), so that extents overlap in
  the index; the contents are right nevertheless (`SoundExtend`).
- An insertion that runs out of blocks in the middle loses entries: every node on the way up that had already parted keeps
  only its upper half (`btree-def-node.hpp:400-422`, `BmTree.Insert`, `BmTreeNodeRows.FailedInsertLoses`).
- Making a directory with its parents fails for a path such as `a/./b` where `a` is missing: once `a` is made, its `.` is
  there already (`MkdirAction.cpp:86-100`, `Mkdir.MakeDirectory`).
- The 64-bit hash in pieces counts its bytes modulo 2^64: where that count is below a stripe again, the digest starts from
  the third lane instead of all four (`xxhash.c:842-855`, `XXHash64.State.Digest`). The 32-bit one remembers that it has
  seen a stripe.
- Creating an entity whose name exists leaves an inode behind that no entry names (`EntityCreator.cpp:55-62`).

## Model

| member | source | states |
|---|---|---|
| `BmTreeContainer.BmTree.Init` | libbrufs/include/BmTree/btree-def-container.hpp:88-107 | an empty tree of one leaf, ordered, in the block that was on top of the pool, that owns exactly the blocks the pool and tree owned before; fails exactly when the pool is empty, and then changes nothing |
| `BmTreeContainer.BmTree.Insert` | libbrufs/include/BmTree/btree-def-container.hpp:143-148 | from any valid tree: stays valid (levels, occupancy between half and full, leaf chain), keeps every block, puts the entry at exactly the in-order position the search of its leaf names; on every level exactly which nodes part where, which entries their parents get, in which blocks the halves lie and what root comes on top; succeeds if and only if the pool has the blocks that the full nodes on the way up ask for, and takes exactly those; otherwise exactly which nodes have lost their lower halves to blocks that are free again, and nothing changes if none was free; an ordered tree stays ordered if and only if the insertion does not misplace its key |
| `BmTreeContainer.BmTree.InsertNode` | libbrufs/include/BmTree/btree-def-node.hpp:492-521 | the same for an insertion below any node, through every level |
| `BmTreeContainer.BmTree.InsertDirectAt` | libbrufs/include/BmTree/btree-def-node.hpp:462-489 | inserting into a node of any level, full or not, adds one entry to its row at the given place, keeps rows, links and blocks of all levels above, and leaves exactly the nodes that its splits make on all of them, also when it runs out of blocks; the order above survives if and only if nothing is misfiled |
| `BmTreeContainer.BmTree.Split` | libbrufs/include/BmTree/btree-def-node.hpp:354-448 | a full node becomes exactly its lower and its upper half with the pending entry in one of them: same in-order row, one more node, separator filed in the parent or in a new root, and the same for every node above that parts |
| `BmTreeContainer.BmTree.Halve` | libbrufs/include/BmTree/btree-def-node.hpp:360-436 | the part of the split before the pending entry is placed: the left half moves to a new sibling that precedes the node in its row and in the chain; when the levels above run out of blocks the block of the sibling is free again and its entries are gone |
| `BmTreeContainer.BmTree.Crown` | libbrufs/include/BmTree/btree-def-node.hpp:412-447 | a root in two halves gets a root above them in one more block, or gives its lower half up |
| `BmTreeContainer.BmTree.GrowParent` | libbrufs/include/BmTree/btree-def-node.hpp:400-408 | the parent of a node in two halves files the lower one under its last key, in front of the node, or the lower half is given up with all that was lost above |
| `BmTreeContainer.BmTree.Remove` | libbrufs/include/BmTree/btree-def-container.hpp:159-164 | from any valid tree: stays valid, never fails other than with not-found, and then changes nothing; takes out exactly the entry that the search of the target leaf names, with the asked key (strict) or at least it, and finds one if and only if that leaf holds one; on every level exactly which entries each node is left with and which separator is rewritten, and exactly which blocks go back to the pool in which order: one for each join on the way up and one for a root that is left with one child; keeps an ordered tree ordered |
| `BmTreeContainer.BmTree.RemoveNode` | libbrufs/include/BmTree/btree-def-node.hpp:762-803 | the same for a removal below any node |
| `BmTreeContainer.BmTree.RemoveFromLeaf` | libbrufs/include/BmTree/btree-def-node.hpp:794-802 | the same for a removal that has reached a leaf, including the last entry of a leaf of one |
| `BmTreeContainer.BmTree.RemoveDirect` | libbrufs/include/BmTree/btree-def-node.hpp:682-759 | taking an entry out of a node of any level removes exactly that entry from its row, restores half-full nodes all the way up, or makes the last child the root, and leaves exactly the nodes and free blocks that the neighbours turned to make; the failure at the end is never reached |
| `BmTreeContainer.BmTree.Refill` | libbrufs/include/BmTree/btree-def-node.hpp:721-758 | a node one short of half full is joined with its left neighbour, as a first child with its right one, or else takes exactly one entry from it; a neighbour always exists, and the nodes of all levels are exactly those that follow |
| `BmTreeContainer.BmTree.Adopt` | libbrufs/include/BmTree/btree-def-node.hpp:586-615 | two neighbours become one exactly when they fit, with the entries of both in order; their row loses nothing, the emptied block goes back to the pool once, the parent loses just the entry of the left one, and so on upwards |
| `BmTreeContainer.BmTree.AbductHighest` | libbrufs/include/BmTree/btree-def-node.hpp:619-648 | exactly the last entry of the left neighbour moves to the front of the other, and the separator becomes the new last key of the left one; all other nodes stay; rows, order and blocks as demanded of a removal |
| `BmTreeContainer.BmTree.AbductLowest` | libbrufs/include/BmTree/btree-def-node.hpp:652-677 | exactly the first entry of the right neighbour moves to the end of the first child, and the separator becomes its key; all other nodes stay; rows, order and blocks as demanded of a removal |
| `BmTreeContainer.BmTree.Search` | libbrufs/include/BmTree/btree-def-container.hpp:110-115 | what is found is stored, with the asked key if strict; in an ordered tree a strict search finds an entry if and only if the key is stored |
| `BmTreeContainer.BmTree.SearchAll` | libbrufs/include/BmTree/btree-def-container.hpp:119-124 | at most the limit, each stored entry at most once, only asked keys if strict; in an ordered tree a strict search returns exactly the entries with the key, last first, up to the limit |
| `BmTreeContainer.BmTree.SearchNode` | libbrufs/include/BmTree/btree-def-node.hpp:209-247 | the way down ends at one leaf, and the result is that of the walk back from there |
| `BmTreeContainer.BmTree.CopyWhile` | libbrufs/include/BmTree/btree-def-node.hpp:250-287 | the recursion over the chain of leaves collects what the specification of the walk back says |
| `BmTreeContainer.BmTree.GetLastLeaf` | libbrufs/include/BmTree/btree-def-node.hpp:806-828 | the last leaf in order |
| `BmTreeContainer.BmTree.CountValues` | libbrufs/include/BmTree/btree-def-container.hpp:167-189 | the chain from the last leaf ends, and the count is the number of stored entries |
| `BmTreeContainer.BmTree.Walk` | libbrufs/include/BmTree/btree-def-container.hpp:224-251 | whatever a consumer answers, also by what it was handed before: it is handed the stored entries in reverse order, each until it does not ask for it again, up to the one at which it ends the walk or fails, and nothing after that |
| `BmTreeContainer.BmTree.CountUsedSpace` | libbrufs/include/BmTree/btree-def-container.hpp:192-200 | node length times the number of nodes |
| `BmTreeContainer.BmTree.CountSpaceBelow` | libbrufs/include/BmTree/btree-def-node.hpp:865-885 | adds node length times the number of nodes of the subtree |
| `BmTreeContainer.BmTree.Destroy` | libbrufs/include/BmTree/btree-def-container.hpp:203-208 | hands every entry to the consumer in order in the same way, taking no notice of its errors, and frees the blocks in order, each node before its subtrees: each exactly once, or up to the leaf with the entry at which the consumer stops it |
| `BmTreeContainer.BmTree.DestroyBelow` | libbrufs/include/BmTree/btree-def-node.hpp:832-862 | the same for a subtree |
| `BmTreeOrder.PlacedKept` | libbrufs/include/BmTree/btree-def-node.hpp:476-488 | putting an entry that fits into a node with room keeps the order; nothing is misfiled |
| `BmTreeOrder.SplitKept` | libbrufs/include/BmTree/btree-def-node.hpp:400-446 | after a split the order survives placing the pending entry if and only if the entry does not go to the very middle with another key than the separator, and the split misfiles nothing above |
| `BmTreeOrder.SplitMisfiles` | libbrufs/include/BmTree/btree-def-node.hpp:411-415 | a misfiled pending entry, at whatever level, leaves a tree that is not ordered |
| `BmTreeOrder.MidKeyFits` | libbrufs/include/BmTree/btree-def-node.hpp:401-403 | the middle key of a full node fits where the parent files it |
| `BmTreeOrder.RouteStep` | libbrufs/include/BmTree/btree-def-node.hpp:155-165 | following the separators down keeps the key between those of the node reached |
| `BmTreeOrder.RoutedFits` | libbrufs/include/BmTree/btree-def-node.hpp:167-182 | where the search of the target leaf stops is where the key fits |
| `BmTreeOrderRemove.JoinedKept` | libbrufs/include/BmTree/btree-def-node.hpp:586-615 | joining two neighbours keeps the order of an ordered tree |
| `BmTreeOrderRemove.SharedKept` | libbrufs/include/BmTree/btree-def-node.hpp:619-678 | moving an entry between neighbours and rewriting the separator keeps the order of an ordered tree |
| `BmTreeSearch.StrictSearchExact` | libbrufs/include/BmTree/btree-def-node.hpp:208-287 | in an ordered tree of any height the strict search yields all entries with the key up to the limit, also for keys equal to a separator, found by walking back |
| `BmTreeSearch.LooseSearchExact` | libbrufs/include/BmTree/btree-def-node.hpp:258-287 | in an ordered tree a non-strict search fails exactly when all keys up to the target leaf are below the asked one, and else yields the least key at or above it if and only if the target leaf is the first one or the key is stored |
| `BmTreeSearch.StrictRemovalExact` | libbrufs/include/BmTree/btree-def-node.hpp:795-796 | in an ordered tree a strict removal finds the key if and only if it is stored other than only behind the separator, in the leaf before the one reached |
| `BmTreeSearch.LooseRemovalExact` | libbrufs/include/BmTree/btree-def-node.hpp:794-802 | in an ordered tree a removal that is not strict misses keys at or above the asked one if and only if the leaf reached is all below it and not the last leaf; what it takes is the least such key if and only if the asked key is not stored only behind the separator |
| `BmTreeSearch.FoundWhole` | libbrufs/include/BmTree/btree-def-node.hpp:250-287 | in any valid tree, ordered or not, a search yields only stored entries, none more often than it is stored |
| `BmTreeAscending.OrderedSorted` | libbrufs/include/BmTree/btree-def-node.hpp:155-182 | the leaves of an ordered tree, read in order, are sorted |
| `BmTreeAscending.TopKeyFits` | libbrufs/include/BmTree/btree-def-node.hpp:400-446 | a key that is not below any stored one is never misplaced, at any height |
| `BmTreeOrder.SplitLeans` | libbrufs/include/BmTree/btree-def-node.hpp:400-446 | a misfiled entry at any inner level leaves its mark: a node whose last key is above its separator while the key before equals it; all other separators up the tree stay sorted and at or below the last key on their left |
| `BmTreeDescent.TargetBeyond` | libbrufs/include/BmTree/btree-def-node.hpp:155-165 | in a tree with a misfiled entry, a key not below the separator of a node is looked for behind every leaf of that node |
| `BmTreeDescent.MisfiledLeaf` | libbrufs/include/BmTree/btree-def-node.hpp:155-165 | so none of the keys in the last leaf below the misfiled entry is looked for there |
| `BmTreeLostKeys.InsertKeepsFound` | libbrufs/include/BmTree/btree-def-node.hpp:401-446 | for an ordered tree of any height with distinct keys: after a successful insertion every stored key is found by a strict search if and only if the insertion did not misplace its key |
| `BmTreeLostKeys.MisplacedLoses` | libbrufs/include/BmTree/btree-def-node.hpp:401-446 | the harder half: a misplaced key leaves some stored key that no strict search finds, whichever level was misfiled |
| `BmTreeLostKeys.OrderedFinds` | libbrufs/include/BmTree/btree-def-node.hpp:208-247 | the other half: in an ordered tree every stored key is found |
| `BmTreeExamples.LoseTwenty` | libbrufs/include/BmTree/btree-def-node.hpp:439-440 | after 10, 20, 30, 40 and 25 with leaves of four, key 20 is stored and a strict search does not find it |
| `BmTreeExamples.MissTwenty` | libbrufs/include/BmTree/btree-def-node.hpp:795-796 | after 10, 20, 30, 40 and 50 key 20 is stored and a strict removal does not find it |
| `BmTreeExamples.AnswerTwenty` | libbrufs/include/BmTree/btree-def-node.hpp:258-287 | after the same insertions a search for 25 that is not strict answers with the value of 20, although 30 is stored |
| `BmTreeExamples.TurnDown` | libbrufs/include/BmTree/btree-def-node.hpp:794-802 | after the same insertions, that of 5 and one removal from 15 on, another removal from 15 on finds nothing although 30 is stored |
| `BmTreeRuns.Run` | libbrufs/include/BmTree/btree-def-node.hpp:352-521 | over every run of insertions and removals, any height, along the trees it went through: what is stored and what was reported removed together are what was stored at first and what was inserted; every report has the asked key or at least it; no block is lost or used twice; the run stops early only at an insertion that takes more blocks than there are |
| `BmTreeRuns.InsertAscending` | libbrufs/include/BmTree/btree-def-node.hpp:400-446 | strictly ascending insertions append in order and keep the tree ordered, hence every later strict search exact; each step is exactly what an insertion promises, and they stop early only at one that takes more blocks than there are |
| `BmTreeRuns.AscendingThenSearch` | libbrufs/include/BmTree/btree-def-node.hpp:208-287 | into any ordered tree, insertions with ascending keys above all stored ones and then a strict search: it returns the value of every stored or inserted key, and not-found for any other key |
| `BmTreeRuns.AscendingMatch` | libbrufs/include/BmTree/btree-def-node.hpp:250-287 | why it is that one value: among entries with ascending keys the specification of the strict search picks the one with the key, or none |
| `BmTreeRuns.OneLeafMap` | libbrufs/include/BmTree/btree-def-node.hpp:167-182 | a root leaf is a sorted multimap: insertions with room keep it ordered; non-strict search starts at the least key at or above the asked one and returns it and the entries before it up to the limit; non-strict removal takes that entry, and finds none only if there is none; strict removal finds a key if and only if it is stored |
| `BmTreeConsumers.HandOver` | libbrufs/include/BmTree/btree-def-node.hpp:855-856 | one entry is handed over again and again until the consumer gives another answer |
| `BmTreeConsumers.SettledInTurn` | libbrufs/include/BmTree/btree-def-container.hpp:235-245 | what handing over amounts to, for any consumer: the entries it did not ask for again are the first ones in order, none twice and none passed over, and all of them unless its last answer ended the walk |
| `BmTreeConsumers.HandedAll` | libbrufs/include/BmTree/btree-def-container.hpp:239-245 | a consumer that always goes on gets every entry exactly once |
| `BmTreeLeaves.PlacedInLeaf` | libbrufs/include/BmTree/btree-def-node.hpp:476-488 | an entry that goes into a leaf with room changes that leaf only |
| `BmTreeLeaves.SplitInLeaf` | libbrufs/include/BmTree/btree-def-node.hpp:357-446 | a full leaf becomes exactly its lower and its upper half with the entry in one of them, at whatever height of tree; all other leaves and the separators around stay |
| `BmTreeLeaves.DroppedInLeaf` | libbrufs/include/BmTree/btree-def-node.hpp:687-693 | a leaf that can spare an entry loses it and nothing else changes |
| `BmTreeNodes.JoiningTrims` | libbrufs/include/BmTree/btree-def-node.hpp:586-615 | joining two neighbours, dropping the left one from the parent and freeing its block leaves on all levels exactly what the reference definition of a removal says |
| `BmTreeNodes.SharingTrims` | libbrufs/include/BmTree/btree-def-node.hpp:619-677 | so does moving one entry between them and rewriting the key in the parent |
| `BmTreeNodes.HalvedGrows` | libbrufs/include/BmTree/btree-def-node.hpp:400-408 | and so, for an insertion, does filing the lower half of a split node in its parent |
| `BmTreeNodes.HolderOf` | libbrufs/include/BmTree/btree-def-node.hpp:155-165 | the parent of a node and its place there are found by counting the entries of the level above |
| `BmTreeNodeRows.TrimmedEntries` | libbrufs/include/BmTree/btree-def-node.hpp:682-759 | the reference definition of a removal takes exactly the entry asked for out of the entries of a level, whichever neighbour is turned to |
| `BmTreeNodeRows.NodeSpares` | libbrufs/include/BmTree/btree-def-node.hpp:682-704 | at any level: a node that stays half full, or the root, loses the entry and nothing else changes from there upwards; an inner root with two entries goes |
| `BmTreeNodeRows.TurnsSomewhere` | libbrufs/include/BmTree/btree-def-node.hpp:707-745 | every node but the root has a sibling under its own parent, to its left or, for a first child, to its right |
| `BmTreeNodeRows.NodesJoined` | libbrufs/include/BmTree/btree-def-node.hpp:586-615 | at any level: a node that can spare no entry and fits into one node with the sibling it turns to becomes one with it, holding the entries of both in order; all other nodes and separators of the level stay, and the parent is trimmed in its turn |
| `BmTreeNodeRows.NodesShared` | libbrufs/include/BmTree/btree-def-node.hpp:619-677 | at any level: if they do not fit, exactly one entry moves, the last of the left one or, to a first child, the first of the right one; the separator between them becomes the new last key on its left, all other nodes and separators stay, and so do the levels above the parent |
| `BmTreeNodeRows.FailedInsertLoses` | libbrufs/include/BmTree/btree-def-node.hpp:400-422 | an insertion that runs out of blocks although one was free has lost the lower half of the leaf it was for, no more and no less, and no other leaf has changed |
| `BmTreeCounts.SplitsAbove` | libbrufs/include/BmTree/btree-def-node.hpp:360-398 | halving a node takes one block and leaves what its parent takes, or takes two at the root |
| `BmTreeCounts.CountBounds` | libbrufs/include/BmTree/btree-def-node.hpp:354-448 | a removal frees at most one block for each level, an insertion takes at most one for each and a root |
| `BmTreeSteps.FirstSplit` | libbrufs/include/BmTree/btree-def-node.hpp:357-446 | the exact two leaves, separator and pool after the first split of a root leaf |
| `BmTreeSteps.OneLeafTook` | libbrufs/include/BmTree/btree-def-node.hpp:699-704 | a root leaf gives up an entry without a block changing hands, and has room afterwards |
| `BmTreeSteps.OneLeafPut` | libbrufs/include/BmTree/btree-def-node.hpp:476-488 | a root leaf with room takes an entry without a block |
| `BmTreeTwoLeaves.TwoLeavesRelease` | libbrufs/include/BmTree/btree-def-node.hpp:586-615 | a removal from one of two leaves frees two blocks if and only if that leaf is half full and the other no more than one above |
| `Allocators.Allocator.AllocateBlocks` | libbrufs/src/Brufs.cpp:171-216 | misaligned exactly as the code says; turned down as not fitting if and only if the removal from the tree finds nothing of the length, and then nothing changes; otherwise exactly which extent is cut, that its front of exactly the length is handed out and its rest filed again, out of space for that exactly when the tree lacks the blocks to file it; after that the outcome is exactly that of refilling; on success at least the low mark of spares; bytes are conserved and the new extent is apart from everything in use, free, spare or in the tree; from a root leaf nothing but success or too few free extents for the spares |
| `Allocators.Allocator.TakeFree` | libbrufs/src/Brufs.cpp:177-179 | finds an extent if and only if the removal from the tree does; the entry taken is exactly the one the removal names, at least as long as asked; no byte changes hands otherwise, although the tree may free blocks to the spares |
| `Allocators.Allocator.GiveBack` | libbrufs/src/Brufs.cpp:183-187 | an extent goes back into the tree under its length, if and only if there are spares for the blocks that the tree asks for; if not, the tree is left as a failed insertion leaves it |
| `Allocators.Allocator.Refill` | libbrufs/src/Brufs.cpp:189-213 | refilling goes through rounds that each start below the low mark and do exactly what a round does; it ends well if and only if the low mark is reached, given up if and only if more rounds were idle than it had patience for, and else for the reason the tree then gives: no extent of a cluster, a block freed at the high mark, or a rest that no block is left to file; bytes are conserved and no cluster is owned twice |
| `Allocators.Allocator.RefillOnce` | libbrufs/src/Brufs.cpp:190-213 | the extent taken is the one the removal names, so many of its clusters become spares as fit below the low mark, and its rest is filed: each of the four ends has its exact condition on the tree; a round moves no cluster if and only if the blocks that the tree releases reach the low mark by themselves, and never while the spares are more below the low mark than the tree has levels; every cluster moved makes the free bytes fewer |
| `RefillRounds.RoundPool` | libbrufs/src/Brufs.cpp:190-213 | the spares after a round are those before with what the tree released and what was moved, less what filing the rest took |
| `RefillRounds.IdleRound` | libbrufs/src/Brufs.cpp:190-213 | a round is idle exactly when what the tree releases reaches the low mark, and then files the extent as it was |
| `RefillEnds.EndsInOneRound` | libbrufs/src/Brufs.cpp:190-213 | at any height: if the extent taken first has the clusters that are missing after the release, and its rest takes no block, refilling ends well with its first round, at the low mark |
| `RefillEnds.LeavesEndWell` | libbrufs/src/Brufs.cpp:190-213 | the same under a condition on the leaves of the first tree alone: the leaf turned to can spare an entry, and the rest goes back there or into a leaf with room |
| `RefillEnds.OneLeafEnds` | libbrufs/src/Brufs.cpp:190-213 | from one leaf refilling always ends: well if and only if the spares and the whole clusters of all free extents together reach the low mark |
| `RefillEnds.BusyRounds` | libbrufs/src/Brufs.cpp:190-213 | at any height the rounds that move something are no more than the whole clusters there are: all others are idle |
| `RefillEnds.IdlesStalled` | libbrufs/src/Brufs.cpp:190-213 | where the rounds idle on, no patience is enough |
| `Allocators.Allocator.MoveClusters` | libbrufs/src/Brufs.cpp:195-204 | clusters are cut off the replacement, each becomes a spare, until it is too short or the low mark is reached |
| `Allocators.Allocator.AllocateTreeBlocks` | libbrufs/src/Brufs.cpp:218-226 | one spare cluster changes to the caller, or there is none |
| `Allocators.Allocator.FreeBlocks` | libbrufs/src/Brufs.cpp:228-249 | below the high mark the first cluster of the extent becomes the topmost spare and what is left of it is filed under its length; at the high mark, or if shorter than a cluster, the whole extent is filed; it fails exactly when that takes more blocks than are spare; no byte is lost or owned twice |
| `Allocators.Allocator.CountFreeBlocks` | libbrufs/src/Brufs.cpp:251-270 | the four numbers, and that reserved, available, tree-owned and handed-out bytes together are the total that every operation keeps |
| `AllocatorRuns.Run` | libbrufs/src/Brufs.cpp:171-249 | over every run of allocations of either kind and of releases of extents in use: everything stays apart and inside the device, the total is constant, spares never exceed the high mark; each step of the run is what the operation promises, and it stops early only where the next operation, from the state reached, must fail |
| `FreeSpace.SaneApart` | libbrufs/src/Brufs.cpp:171-249 | no byte with two owners means: free extents, handed-out extents and clusters are pairwise disjoint |
| `FreeSpace.SaneClusters` | libbrufs/src/Brufs.cpp:171-249 | and the clusters of the tree and the spares are disjoint and inside the device |
| `FreeSpace.FreeToHeld` | libbrufs/src/Brufs.cpp:177-181 | taking an extent out of the tree leaves every byte with the same number of owners |
| `FreeSpace.HeldSplit` | libbrufs/src/Brufs.cpp:181-184 | cutting an extent in two leaves every byte with the same number of owners |
| `FreeSpace.HeldToSpare` | libbrufs/src/Brufs.cpp:234-239 | turning an extent of one cluster into a spare leaves every byte with the same number of owners |
| `RefillSpin.SpinTake` | libbrufs/src/Brufs.cpp:192-193 | two leaves, one entry above half full and half full, with three clusters in a row at their boundary: taking a cluster joins the leaves and frees two blocks |
| `RefillSpin.SpinGive` | libbrufs/src/Brufs.cpp:209-212 | filing it again splits the leaf as it was and takes the two blocks |
| `RefillSpin.SpinRound` | libbrufs/src/Brufs.cpp:190-213 | a whole round from such a tree ends in such a tree with the same number of spares |
| `RefillSpin.SpinIdles` | libbrufs/src/Brufs.cpp:190-213 | with spares below the low mark, and no more than two below the high one, such a tree idles for any number of rounds |
| `RefillSpin.PlusTake` | libbrufs/src/Brufs.cpp:177-179 | the same leaves with one longer extent at the end: taking that one out leaves such a tree |
| `AllocatorSpin.Make` | libbrufs/src/Brufs.cpp:111-171 | for every cluster size, even leaf capacity and pair of marks: an allocator in order over free extents that lie one behind the other, filed one by one into an empty tree, which holds the clusters behind the header |
| `AllocatorSpin.Spun` | libbrufs/src/Brufs.cpp:189-213 | from there, after handing out one cluster, allocating one extent goes on refilling for any number of rounds: the loop does not end |
| `AllocatorSpin.SpunByDefault` | libbrufs/src/Brufs.cpp:189-213 | the same with clusters of 4096 bytes, their 170 free extents in a leaf, and the marks 12 and 24 |
| `Files.File.Read` | libbrufs/src/File.cpp:232-275 | beyond the end it is an error; otherwise no byte behind the end is read, and from an inode exactly those asked for and there; from extents exactly as many as are left of the extent found or of the hole before it, zeros in the hole and the bytes of the device in the extent, at least one below the end; those inside the written prefix are the last written |
| `Files.File.Truncate` | libbrufs/src/File.cpp:39-55 | the size is the new one and the contents are the written prefix cut to it, through all four transitions; within the inode the bytes kept and the zeros behind them are exact, from extents to extents nothing but the size changes; bytes of other owners on the device do not change |
| `Files.File.ResizeSmallToSmall` | libbrufs/src/File.cpp:57-62 | the prefix is cut |
| `Files.File.ResizeSmallToBig` | libbrufs/src/File.cpp:84-106 | the prefix moves from the inode to a block and is kept |
| `Files.File.ResizeBigToSmall` | libbrufs/src/File.cpp:64-82 | the prefix is read back from the extents into the inode, however many reads that takes |
| `Files.File.ResizeBigToBig` | libbrufs/src/File.cpp:108-140 | the extents stay and the prefix is cut |
| `Files.File.Write` | libbrufs/src/File.cpp:142-230 | the file grows to the end of the whole buffer, or keeps its size; a file that stays in its inode takes all of the buffer, exactly there, and never fails; one in extents takes exactly as many bytes as are left of the extent that counts, or all of them; a write at or before the end of the written prefix changes exactly the bytes it reports, and the rest of the prefix and the bytes of other owners are kept |
| `Files.File.WriteBig` | libbrufs/src/File.cpp:161-230 | the same for a file in extents: up to the end of the extent that holds the offset, also the last one once it is a cluster, or all of the buffer into a new one |
| `Files.File.ReadBig` | libbrufs/src/File.cpp:249-275 | one read of a file in extents: the exact number of bytes, zeros in a hole and the device bytes of the extent otherwise, a disk error exactly where these lie outside the device |
| `Files.File.Promote` | libbrufs/src/File.cpp:172-197 | the first block becomes a cluster with the same contents |
| `Files.File.Insert` | libbrufs/src/File.cpp:226-227 | a new extent is filed under its last byte |
| `Files.File.WriteNewExtent` | libbrufs/src/File.cpp:208-229 | the new extent has exactly the planned start and length, is filed under its last byte, is in use from then on, and gets all of the buffer at its place; behind the last one it starts a cluster early, overlaps nothing that is looked up, and holds what is written |
| `FileRuns.Run` | libbrufs/src/File.cpp:39-275 | over every run of writes and truncations the file holds the replay of the bytes each write reported, and its size is the replay of the sizes; an operation that fits fails only because the disk turned a request down, the index is full, or the greatest extent length is no whole number of clusters |
| `FileRuns.ReadAll` | libbrufs/src/File.cpp:67-72 | the reading loop reads the contents back exactly |
| `FileRuns.WriteAll` | libbrufs/src/File.cpp:142-230 | a loop that resumes after partial writes stores the whole buffer and leaves the size that takes, or fails for one of these reasons |
| `FileExtents.PreviousMultipleExact` | libbrufs/include/internal.hpp:81-83 | the multiple at or below the argument for arguments right below a multiple, and the multiple before that one for all others, wrapping below the first |
| `FileExtents.NewExtentAtEnd` | libbrufs/src/File.cpp:211-213 | a new extent at the cluster end starts one cluster before the offset and is long enough |
| `FileExtents.SoundWrite` | libbrufs/src/File.cpp:199-205 | writing inside the extent found changes exactly the bytes written, seen through the index |
| `FileExtents.SoundPromote` | libbrufs/src/File.cpp:174-196 | promotion keeps what the index shows |
| `FileExtents.SoundExtend` | libbrufs/src/File.cpp:211-227 | adding an extent at the end extends what the index shows by exactly the bytes written, although the extents overlap |
| `FileExtents.SlotContains` | libbrufs/src/File.cpp:165-168 | looking an offset up by last byte in one leaf finds the extent that contains it, for every offset below the end |
| `FileLookups.LookUpInOneLeaf` | libbrufs/src/File.cpp:254-266 | and the search of the tree answers with that extent as long as the index is one leaf |
| `FileLookups.LookUpExact` | libbrufs/src/File.cpp:254-266 | in an index of any height the search of the tree answers an offset below the end with that extent if and only if the leaf reached has a last byte at or above the offset and is the first leaf or the offset is itself a last byte; any other answer is an extent that ends before the offset |
| `FileLookups.AppendedByWrite` | libbrufs/src/File.cpp:211-213 | a write of up to a cluster at the end of a file of whole clusters gets an extent of two clusters that starts one early |
| `FileLookups.LookUpMisses` | libbrufs/src/File.cpp:254-266 | for every cluster size and leaf capacity, a file of such extents: once there is one more than a leaf takes, no offset from the parting of the leaves on is looked up right but the last bytes of extents, and those in the first cluster there are answered with the extent before their own |
| `FileLookups.LookUpMissesByDefault` | libbrufs/src/File.cpp:254-266 | the same for clusters of 4096 bytes, their 127 extents in a leaf, and a file of 128 clusters |
| `XXHash64.XXH64` | libbrufs/src/xxhash/xxhash.c:642-708 | the loop over the input computes the hash defined stripe by stripe |
| `XXHash64.State.Reset` | libbrufs/src/xxhash/xxhash.c:754-765 | the state of an empty input |
| `XXHash64.State.Update` | libbrufs/src/xxhash/xxhash.c:768-824 | whatever the chunk, the lanes are the fold of all full stripes, the buffer holds the rest, the total is the length modulo 2^64 |
| `XXHash64.State.FillBuffer` | libbrufs/src/xxhash/xxhash.c:788-796 | the waiting bytes and the first of the chunk make up one stripe |
| `XXHash64.State.TakeStripes` | libbrufs/src/xxhash/xxhash.c:798-816 | full stripes are folded straight from the chunk |
| `XXHash64.State.Digest` | libbrufs/src/xxhash/xxhash.c:836-885 | for inputs of any length: the hash of everything fed in so far, unless the count of it modulo 2^64 has wrapped to less than a stripe; then exactly what comes of taking the third lane for the seed |
| `XXHash64.DigestedIsHash` | libbrufs/src/xxhash/xxhash.c:842-855 | a digest is the hash of the whole for every count that has not wrapped to less than a stripe |
| `XXHash64.HashPieces` | libbrufs/src/xxhash/xxhash.c:754-885 | for every way of cutting an input of any length: reset, updates and digest give the one-shot hash of the whole, or under the same condition what the digest makes of it |
| `XXHash64Known.Empty` | libbrufs/src/xxhash/xxhash.c:620-708 | the hash of no bytes is EF46DB3751D8E999 |
| `XXHash64Known.One` | libbrufs/src/xxhash/xxhash.c:620-708 | the hashes of the one byte 61 with the seeds 0 and 1 are the known ones: the step for single bytes and the last mixing |
| `XXHash64Known.Four` | libbrufs/src/xxhash/xxhash.c:688-693 | the hash of four bytes is the known one: the step for half words |
| `XXHash64Known.Eight` | libbrufs/src/xxhash/xxhash.c:682-687 | the hash of eight bytes is the known one: the step for words |
| `XXHash64Known.FortyFive` | libbrufs/src/xxhash/xxhash.c:657-708 | the hash of the bytes from 0 to 44 is the known one: four lanes, their merging, and the rest in words, half words and bytes |
| `XXHash64Known.RoundIs` | libbrufs/src/xxhash/xxhash.c:626-632 | a round multiplies, turns by 31 bits as a product and a quotient, and multiplies, all modulo the word |
| `XXHash64Known.MergeRoundIs` | libbrufs/src/xxhash/xxhash.c:634-640 | merging a lane takes a round of it, a product and a sum |
| `XXHash64Known.ConvergeIs` | libbrufs/src/xxhash/xxhash.c:670-675 | the lanes are turned by 1, 7, 12 and 18 bits, added and merged in turn |
| `XXHash64Known.Take8Is` | libbrufs/src/xxhash/xxhash.c:682-686 | taking in a word, in sums, products and quotients |
| `XXHash64Known.Take4Is` | libbrufs/src/xxhash/xxhash.c:689-692 | taking in a half word |
| `XXHash64Known.AvalancheIs` | libbrufs/src/xxhash/xxhash.c:700-706 | the last mixing: quotients by 2 to the 33, 29 and 32 folded in between two products |
| `XXHash32.XXH32` | libbrufs/src/xxhash/xxhash.c:271-325 | the loop over the input computes the hash defined stripe by stripe |
| `XXHash32.State.Update` | libbrufs/src/xxhash/xxhash.c:388-447 | as for 64 bits, with the total modulo 2^32 and large_len telling for ever that 16 bytes were reached |
| `XXHash32.State.Reset` | libbrufs/src/xxhash/xxhash.c:373-384 | the state of an empty input |
| `XXHash32.State.Digest` | libbrufs/src/xxhash/xxhash.c:461-497 | the hash of everything fed in so far, whatever its length |
| `XXHash32.HashPieces` | libbrufs/src/xxhash/xxhash.c:388-497 | for every way of cutting an input of any length, also 2^32 bytes and more |
| `XXHash32Known.Empty` | libbrufs/src/xxhash/xxhash.c:257-325 | the hash of no bytes is 02CC5D05 |
| `XXHash32Known.One` | libbrufs/src/xxhash/xxhash.c:257-325 | the hashes of the one byte 61 with the seeds 0 and 1 are the known ones |
| `XXHash32Known.Four` | libbrufs/src/xxhash/xxhash.c:306-311 | the hash of four bytes is the known one: the step for words |
| `XXHash32Known.TwentyOne` | libbrufs/src/xxhash/xxhash.c:286-325 | the hash of the bytes from 0 to 20 is the known one: four lanes, and the rest in words and bytes |
| `XXHash32Known.RoundIs` | libbrufs/src/xxhash/xxhash.c:263-269 | a round multiplies, turns by 13 bits as a product and a quotient, and multiplies, all modulo the word |
| `XXHash32Known.AvalancheIs` | libbrufs/src/xxhash/xxhash.c:318-323 | the last mixing: quotients by 2 to the 15, 13 and 16 folded in between two products |
| `XXHashStripes.TookBuffer` | libbrufs/src/xxhash/xxhash.c:788-796 | completing the buffer extends the fold by one stripe |
| `XXHashStripes.TookAll` | libbrufs/src/xxhash/xxhash.c:798-821 | when less than a stripe is left the fold covers all full stripes |
| `XXHashCanonical.RoundTrip32` | libbrufs/src/xxhash/xxhash.c:519-529 | reading the canonical form gives the hash back, and its first byte is the most significant |
| `XXHashCanonical.RoundTrip64` | libbrufs/src/xxhash/xxhash.c:900-910 | reading the canonical form gives the hash back |
| `XXHashCanonical.AllForms32` | libbrufs/src/xxhash/xxhash.c:519-529 | every four bytes are the canonical form of the hash they are read as |
| `MessageIO.Reader.ReadSize` | brufuse/src/Message.hpp:176-181 | the size is the big-endian number of the bytes of it that came so far, however they were cut, and no byte behind it is consumed |
| `Messages.Message.SetDataSize` | brufuse/src/Message.hpp:210-218 | the buffer has the size the header states, whatever it was before |
| `Messages.Message.SetDataSizeAtLeast` | brufuse/src/Message.hpp:350-353 | never shrinks, keeps header and contents |
| `Messages.Message.Fill` | brufuse/src/Message.hpp:274-284 | takes what fits, drops the rest, and is full exactly when all is present |
| `Messages.Message.WriteInt` | brufuse/src/Message.hpp:362-372 | big-endian digits at the index, growing the message with its header size; the rest of the body and of the header is kept |
| `Messages.Message.WriteString` | brufuse/src/Message.hpp:380-389 | length, then contents; the rest is kept |
| `Messages.Message.ReadInt` | brufuse/src/Message.hpp:398-409 | the number at the index, or a truncation error |
| `Messages.Message.ReadString` | brufuse/src/Message.hpp:417-427 | the string at the index, or a truncation error |
| `MessageIO.Reader.OnRead` | brufuse/src/message-io.cpp:84-122 | whatever part of a message came before: the message is delivered on exactly the read that brings its last byte, equal to the one sent |
| `MessageIO.Receive` | brufuse/src/message-io.cpp:104-121 | for every fragmentation of the bytes of a message: delivered once, on the right read, byte for byte |
| `MessageIO.SizeArrived` | brufuse/src/Message.hpp:176-181 | once four bytes are there the size is that of the whole message |
| `MountRequests.Encode` | brufuse/src/client/mount-request.cpp:63-77 | for every request whose encoding fits 32 bits the body is root name, mount point, count and arguments, and the size bytes are those of the whole; all other bytes of the header by value: sequence 0, type 2, status 1, padding 0 |
| `MountRequests.Decode` | brufuse/src/server/mount-request.cpp:46-64 | the loop reads what the parse of the body says, truncation included |
| `MountRequests.MountRoundTrip` | brufuse/src/server/mount-request.cpp:46-64 | parsing what was encoded gives the request back and ends at the data size |
| `MountRequests.MountCanonical` | brufuse/src/server/mount-request.cpp:46-64 | and a body parses as a request only if it starts with the encoding of it: no two requests share one |
| `MountRequests.Exchange` | brufuse/src/client/mount-request.cpp:63-79 | encoded, cut anyhow, received and decoded, a request arrives as it was sent |
| `Roots.Root.constructor` | libbrufs/src/Root.cpp:49-92 | a root directory that holds itself under both dots: a tree |
| `Roots.Root.InsertInode` | libbrufs/src/Root.cpp:103-107 | exactly when the number is new |
| `Roots.Root.OpenDirectory` | libbrufs/src/Root.cpp:192-206 | the loop opens what the recursive definition says |
| `Roots.Root.LookUp` | libbrufs/src/Directory.cpp:56-76 | by label, cut to 256 characters |
| `Directories.Directory.LookUp` | libbrufs/src/Directory.cpp:56-76 | on the tree of entries filed by hash, whatever the hash and the tree: found if and only if the label is among the entries that the search of the tree goes through, and then the first of these; in an ordered tree those are the last 32 entries with its hash; if the entries stand for a map from labels and that many at most share a hash, the answer is that of the map |
| `Directories.Directory.Insert` | libbrufs/src/Directory.cpp:78-86 | on that tree, whatever the tree: exists if and only if the look-up finds the label, full if and only if it does not and filing takes more blocks than there are, and otherwise the entry is filed, at exactly its place; when full the tree is left as a failed insertion leaves it; for a map: a label of it exists and any other is filed if and only if there are blocks, after which the entries stand for the map with it; the tree goes on answering for the map if and only if the hash is not misplaced and fewer than 32 labels had it |
| `Directories.NewLabel` | libbrufs/src/Directory.cpp:63-64 | why 32: with one label more than a look-up goes through, the entries are no map to it |
| `Roots.Root.InsertEntry` | libbrufs/src/Directory.cpp:78-86 | exactly when the label is new |
| `Roots.Root.CreateDirectory` | libbrufs/src/EntityCreator.cpp:74-117 | from every tree: succeeds if and only if the parent opens as a directory, the number that comes up is new and so is the label; the result is a tree in which everything that opened still opens; on success the path opens and exactly the one entry was added; if the name or the number exists nothing any path opens changes, and the namespace is as before but for the inode left behind; if the parent does not open nothing changes |
| `Roots.Root.CreateInode` | libbrufs/src/EntityCreator.cpp:25-63 | the same for other inodes, success exactly under the same condition |
| `Namespace.UpAgain` | libbrufs/src/Root.cpp:196-203 | in a tree, opening p/name/.. opens what p opens, and p/name/. what p/name opens, for ordinary names |
| `Namespace.ExactlyOnePath` | libbrufs/src/EntityCreator.cpp:50-62 | in a tree every linked inode has exactly one path without dots |
| `Namespace.AddedKeepsTree` | libbrufs/src/EntityCreator.cpp:107-116 | adding a new inode under a new name, with its dots if it is a directory, keeps the tree |
| `Namespace.OrphanKeepsTree` | libbrufs/src/EntityCreator.cpp:107-111 | the inode left behind when the name exists keeps the tree |
| `Namespace.StillOpens` | libbrufs/src/Root.cpp:192-206 | in a namespace that only grew every path that opened opens the same |
| `Mkdir.MakeDirectory` | brufscli/src/MkdirAction.cpp:80-101 | for every path: ends; succeeds if and only if the first missing component has no entry at all where it belongs, is the last one or parents are made, all after it are ordinary names, and no number that came up is in use or came up twice; without an error every prefix of the path opens and the new directory has nothing but its dots; the inodes are those before and those of the numbers; every directory that opened before still opens the same |
| `Mkdir.ParentFails` | brufscli/src/MkdirAction.cpp:86-90 | what going on to the parent means: with a parent that is no directory, or without parents being made, the path cannot be made; otherwise it can be if and only if its parent can and its last name is an ordinary one |
| `PathParser.Parse` | libbrufs/src/PathParser.cpp:26-61 | the loops compute the parse of the specification |
| `PathParser.ParseComponents` | libbrufs/src/PathParser.cpp:50-58 | the loop yields the components |
| `PathParser.Unparse` | libbrufs/src/PathParser.cpp:63-83 | the loop writes prefix and slashed components |
| `PathParser.RoundTrip` | libbrufs/src/PathParser.cpp:26-83 | parsing what was written gives the path back if and only if the path is one of a class a caller can check: no colons in partition and root, no partition without root, components without slashes, none empty but the first of several, colons in them only behind both |
| `Text.Find` | libbrufs/include/String.hpp:110-115 | the first occurrence at or after the position |
| `Text.Split` | libbrufs/include/String.hpp:130-147 | pieces without the separator that rejoin to the string |
| `Text.SplitUnique` | libbrufs/include/String.hpp:130-147 | no other pieces do |

## Left out

- Allocators.Allocator.AllocateBlocks: refilling is followed for as many idle rounds as the parameter `patience` says, any number, and then ends with `Stalled`, where the program goes on; a run ends with `Reentrant` when the tree frees a block while the spares are at the high mark, which the program answers by changing the tree inside its own removal.
- Allocators.Allocator.Refill: the same two ends. Which rounds come is stated exactly, one by one; on the first tree alone it is told for one leaf, for a first extent that suffices, and for the trees of `RefillSpin`.
- Allocators.Allocator.AllocateTreeBlocks: a spare is one cluster at its offset; the longer length that refilling may have recorded for it is not modelled.
- AllocatorRuns.Run: starts from any tree whose keys are the lengths of its extents; the device tail that `Brufs::init` files under another length, and `init` itself, are left out.
- Files.File.Write: contents are claimed for writes that start at or before the end of the written prefix, in chunks of at most the maximum extent length less a cluster, ending four clusters below 2^64, with inode data of at most 512 bytes and clusters of at least 512; zeros in gaps are not claimed, since the program does not write them.
- Files.File.Insert: the extent index is one leaf with its sorted search and filing; when it is full a run ends with `IndexFull`, where the program splits the leaf. The contents are not kept beyond that: `FileLookups.LookUpExact` says which offsets are still looked up right.
- Files.File.ResizeBigToBig: claims contents, not space; the loop that should free extents never runs.
- Volumes.Volume.Allocate: stands for the allocator by what `Allocator.dfy` proves of it: the exact length, apart from all else in use.
- BmTreeContainer.BmTree.Insert: after it ran out of blocks, the links between leaves are not stated; the program leaves one that goes to a free block.
- BmTreeContainer.BmTree.Walk: a consumer that asks for the same entry for ever, with which the program does not end.
- BmTreeContainer.BmTree.Destroy: the same; after a consumer stopped it the tree is not used further.
- Roots.Root.LookUp: directories are maps from labels here; `Directories.Directory` proves when the program's trees are, with hash collisions and MAX_COLLISIONS.
- Roots.Root.InsertEntry: the same.
- Mkdir.MakeDirectory: an error is the result `false` instead of an exception; log lines and the parsing of the path before it are left out.
- Roots.Root.GenerateInodeId: inode numbers are any numbers, also used ones, instead of the clock and the random generator.
- PathParser.Parse: strings without NUL, not empty, shorter than 2^64 - 2; for an empty string the program reads before its first character.
- Tree `update`, insertion with the collide flag, `get_first` and `get_last`: the first two are not exact in the code, the last two follow one edge of the tree.
- Disk errors and failing allocation of memory. What a tree is left with when it runs out of blocks is stated but for the links between its leaves; what else was half done then is not followed.
- The byte layout of nodes, headers and inodes; node capacities below four; keys are integers with their usual order.
- Inode tables as trees: they are finite maps here.
- Opening inodes and files by path, removal of entries and inodes, link counts, modes, owners and time stamps.
- FUSE callbacks, the inode cache, sockets and the event loop, read errors in `on_read`, options, logging and the other commands.
- Null input of the hash functions, big-endian processors, and the memory alignment variants.
