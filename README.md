# Interval tree: a Dafny model

This project models `IntervalTree`, the augmented red-black tree of the tinloaf/intervaltree
Java library. The tree stores entries under closed intervals `[begin, end]`.

- Nodes are ordered lexicographically by their interval: begin first, then end.
- Each node holds the set of entries that share its interval.
- Each node keeps `max`, the largest interval end in its subtree. The overlap search prunes with it.
- Insertion and deletion rebalance with the classical red-black case analyses, `fixTreeAt` and
  `fixTreeForDeletion`. Both use `rotateLeft` and `rotateRight`, which refresh `max` with
  `updateMax`.

## How the model is built

- **The heap as an arena.** The TreeNode objects are an arena: `TreeNodes.Nodes` is a record of
  parallel sequences, one per TreeNode field (`interval`, `max`, `values`, `left`, `right`,
  `parent`, `color`). A node is its index, and `NIL` (-1) is the null reference. Nodes cut out of
  the tree keep their slot.
- **The class.** `IntervalTrees.IntervalTree` is a class with the fields `nodes`, `root` and
  `count`. Every method of the Java class that changes the tree is a method that reassigns them.
  Every loop of the source is a `while` loop, with the same branches, in the same order.
- **Ghost state.** A ghost field `sub` gives the node ids of each node's subtree.
  `Live() = sub[root]` is the set of nodes reachable from the root. What the tree stores is
  `Entries()`: the pairs (interval, entry) over the live nodes. Entries are opaque ids (`Id`).
  An entry's interval, which Java reads with `getInterval()`, is passed beside it.
- **Ghost black heights.** A ghost field `bh` gives, for each node, the number of black nodes
  on every path below it (the node itself not counted).
- **The invariant.** `Valid()` is what the `verify*` checks of the source test, stated one node
  at a time:
  - the live nodes form a binary tree whose parent links agree with its child links (`Linked`);
  - every node is strictly ordered with respect to all the nodes of its subtrees (`Ordered`);
  - every `max` is what `updateMax` would store (`MaxesUpToDate`);
  - no live node has an empty value set;
  - the root is black;
  - the tree is red-black (`RedBlack`): at every live node both children have the height
    `bh` records, and no red node has a red child. `BlackHeights.BlackPathsEqual` and
    `BlackHeights.NoRedRed` derive from it the two properties `verifyBlackLength` and
    `verifyNoConsecutiveRed` check.
- **Temporary breaks.** While a deletion is in progress, the invariant is relaxed at one node `d`,
  the node about to be spliced out. `Sound(…, d)` lets `d` carry a copy of an ancestor's key and
  lets the maxes above `d` be stale, and the colour rules are read with `d` replaced by its only
  child. While `fixTreeAt(n)` runs, the red rule may fail between `n` and its parent
  (`InsertFixups.Fixable`); while `fixTreeForDeletion(n)` runs, `n`'s side is one black node
  short (`DeleteColors.Mendable`).
- **Methods against functions.** Each rebalancing method is proved equal to a ghost function of
  the old state: `RotateLeft` to `LeftRotated`, `FixTreeAt` to `FixedAt`, `FixTreeForDeletion` to
  `DeleteFixedAt`. The contracts of those functions and the lemmas about their cases then prove
  what the source promises: the tree stays a sound search tree over the same entries, with a
  correct `max` everywhere and a black root, and it is a red-black tree again
  (`InsertFixups.Repaired`, `DeleteColors.Mended`).
- **How delete repairs colours.** The Java `delete` differs from the textbook. A black node `d`
  with at most one child first takes its child's colour. `fixTreeForDeletion(d)` then runs even
  when that child is red, and only afterwards does `replaceNode` take `d` out. The model follows
  that order. `DeleteEnds.StartShort` proves that the repaint leaves `d`'s side one black node
  short. `DeleteEnds.SplicedRedBlack` proves that the splice then leaves a red-black tree.
- **Public operations.** The contracts of the public operations talk about `Entries()`:
  - `Insert` adds `(key, value)`;
  - `Delete` removes what `Deletions.Erased` describes;
  - `Lookup`, `FindOverlapping`, `GetAll` and `GetMaximum` return exactly the matching entries,
    or the largest end.

Bounds (`E extends Comparable<E>`) are modelled by `int`. Only their total order is used.

Three behaviours of the code, rather than of the prose description of the library, are modelled:

- **`delete` of a key that holds a single entry.** Java assertions are off by default, so
  `assert(n.values.contains(value))` at IntervalTree.java line 543 is not evaluated. The node
  goes whichever entry was named. `Deletions.Erased` states this.
- **`count`.** The public `delete` decrements `count` on every call, even when nothing was
  removed. The public `insert` increments it even when the entry was already stored.
  `IntervalTrees.IntervalTree.Delete` and `.Insert` state exactly that, with `count` a Java
  `int` that wraps (`IntervalTrees.Int32`).
- **`findOverlapping` with a negative `count`.** The result list is created with capacity
  `Math.round(count * 0.5f)` (line 282). Once deletes of entries that were never stored bring
  `count` to -2 or below, that capacity is negative and `new ArrayList` throws
  IllegalArgumentException. `IntervalTrees.IntervalTree.FindOverlapping` returns `None` exactly
  then.

## Model

| member | source | states |
|---|---|---|
| Intervals.GetMax | src/de/tinloaf/intervaltree/IntervalTree.java:101-108 | the result is at least each argument and equal to one of them |
| Intervals.AreIntervalsOverlapping | src/de/tinloaf/intervaltree/IntervalTree.java:263-273 | true exactly when the closed intervals share a point (a.begin <= b.end and b.begin <= a.end); touching end-points overlap |
| Intervals.OverlapSymmetric | src/de/tinloaf/intervaltree/IntervalTree.java:263-273 | the overlap test gives the same answer with its arguments swapped |
| Intervals.LessIsStrictTotalOrder | src/de/tinloaf/intervaltree/IntervalTree.java:227-243 | the key order of lookupNode and insert (begin, then end) is irreflexive, transitive, total and asymmetric |
| TreeNodes.UpdatedMaxIsLargest | src/de/tinloaf/intervaltree/IntervalTree.java:58-70 | the max updateMax stores is at least the node's end and each existing child's max, and equal to one of them |
| TreeNodes.Adopted | src/de/tinloaf/intervaltree/IntervalTree.java:61-68 | after updateMax every existing child points back to the node; links that already did are unchanged |
| TreeNodes.MaxUpdated | src/de/tinloaf/intervaltree/IntervalTree.java:58-70 | updateMax changes only max and parent links, and leaves the node's max correct |
| TreeNodes.Replaced | src/de/tinloaf/intervaltree/IntervalTree.java:340-352 | replaceNode relinks only: keys, maxes, value sets and colours are unchanged |
| TreeNodes.MaxIsSubtreeMax | src/de/tinloaf/intervaltree/IntervalTree.java:153-176 | in a sound tree, every node's max is the largest interval end in its subtree, attained by one of its nodes |
| TreeNodes.KeysDistinct | src/de/tinloaf/intervaltree/IntervalTree.java:128-151 | in an ordered tree, two live nodes with the same interval are the same node |
| TreeNodes.Family | src/de/tinloaf/intervaltree/IntervalTree.java:72-94 | for a live non-root node: the parent is live and has it as a child; the sibling is the parent's other child; the grandparent and uncle are likewise related when the parent is not the root |
| TreeNodes.SoundIgnoresColor | src/de/tinloaf/intervaltree/IntervalTree.java:482-484 | recolouring any node keeps the search-tree invariant |
| BlackHeights.BlackPathsEqual | src/de/tinloaf/intervaltree/IntervalTree.java:192-208 | in a red-black tree every path from the root to a missing child passes as many black nodes as the root's height, the count verifyBlackLength compares |
| BlackHeights.NoRedRed | src/de/tinloaf/intervaltree/IntervalTree.java:178-190 | in a red-black tree a red live node has black children and a black (or missing) parent, what verifyNoConsecutiveRed asserts |
| Searches.OverlapValuesAt | src/de/tinloaf/intervaltree/IntervalTree.java:289-307 | the overlapping entries of a subtree are the root's (if it overlaps) and those of its two subtrees |
| Searches.LeftPruned | src/de/tinloaf/intervaltree/IntervalTree.java:299-301 | when the left child's max is below q.begin, no entry of the left subtree overlaps q |
| Searches.RightPruned | src/de/tinloaf/intervaltree/IntervalTree.java:304-306 | when the node begins after q.end, no entry of the right subtree overlaps q |
| Searches.AllValuesAt | src/de/tinloaf/intervaltree/IntervalTree.java:309-319 | a subtree's entries are the root's and those of its two subtrees |
| Searches.AllValuesAreEntries | src/de/tinloaf/intervaltree/IntervalTree.java:326-333 | the values of the live nodes are exactly the stored entries |
| Searches.OverlapValuesAreEntries | src/de/tinloaf/intervaltree/IntervalTree.java:281-287 | the values of the overlapping live nodes are exactly the stored entries whose interval overlaps q |
| Rotations.RefreshStep | src/de/tinloaf/intervaltree/IntervalTree.java:365-368 | one updateMax on a node whose children point back to it changes only that node's max, which becomes correct |
| LeftRotations.LeftRotatableLinked | src/de/tinloaf/intervaltree/IntervalTree.java:354-362 | in a linked tree every live node with a right child can be rotated left: every pointer rotateLeft dereferences exists |
| LeftRotations.LeftLinkedAround | src/de/tinloaf/intervaltree/IntervalTree.java:355-362 | after the pointer assignments of rotateLeft, n's children are its old left child and c's old left child, and c's children are n and c's old right child |
| LeftRotations.LeftRotatedIsLeftRotation | src/de/tinloaf/intervaltree/IntervalTree.java:354-369 | rotateLeft(n) in a linked tree does a left rotation: c takes n's place under n's parent, n becomes c's left child with c's old left subtree, nothing else is relinked, and n, c and c's parent get fresh maxes |
| LeftRotations.LeftRotationLive | src/de/tinloaf/intervaltree/IntervalTree.java:354-369 | a left rotation keeps the set of reachable nodes |
| LeftRotations.LeftRotationLinked | src/de/tinloaf/intervaltree/IntervalTree.java:354-363 | a left rotation leaves a linked tree |
| LeftRotations.LeftRotationOrdered | src/de/tinloaf/intervaltree/IntervalTree.java:354-363 | a left rotation keeps every node in key order with its subtrees |
| LeftRotations.LeftRotationMax | src/de/tinloaf/intervaltree/IntervalTree.java:364-368 | after the three updateMax calls of a left rotation every max is correct again (outside the stale path of the exception node) |
| LeftRotations.LeftRotationSound | src/de/tinloaf/intervaltree/IntervalTree.java:354-369 | a left rotation keeps the search-tree invariant, with the same exception node, over the same nodes |
| LeftRotations.LeftRotatedSound | src/de/tinloaf/intervaltree/IntervalTree.java:354-369 | rotateLeft in a sound tree applies wherever n has a right child, keeps the tree sound over the same nodes, and keeps keys, values and colours |
| RightRotations.RightRotatableLinked | src/de/tinloaf/intervaltree/IntervalTree.java:371-379 | mirror image of LeftRotatableLinked for rotateRight |
| RightRotations.RightLinkedAround | src/de/tinloaf/intervaltree/IntervalTree.java:372-379 | mirror image of LeftLinkedAround |
| RightRotations.RightRotatedIsRightRotation | src/de/tinloaf/intervaltree/IntervalTree.java:371-386 | rotateRight(n) does a right rotation, mirror image of LeftRotatedIsLeftRotation |
| RightRotations.RightRotationLive | src/de/tinloaf/intervaltree/IntervalTree.java:371-386 | a right rotation keeps the set of reachable nodes |
| RightRotations.RightRotationLinked | src/de/tinloaf/intervaltree/IntervalTree.java:371-380 | a right rotation leaves a linked tree |
| RightRotations.RightRotationOrdered | src/de/tinloaf/intervaltree/IntervalTree.java:371-380 | a right rotation keeps key order |
| RightRotations.RightRotationMax | src/de/tinloaf/intervaltree/IntervalTree.java:381-385 | after the three updateMax calls of a right rotation every max is correct again |
| RightRotations.RightRotationSound | src/de/tinloaf/intervaltree/IntervalTree.java:371-386 | a right rotation keeps the search-tree invariant over the same nodes |
| RightRotations.RightRotatedSound | src/de/tinloaf/intervaltree/IntervalTree.java:371-386 | rotateRight in a sound tree applies wherever n has a left child, keeps the tree sound, keys, values and colours |
| Insertions.NewNode | src/de/tinloaf/intervaltree/IntervalTree.java:44-56 | the new node takes the next free slot, and its max is what updateMax stores |
| Insertions.FitsStep | src/de/tinloaf/intervaltree/IntervalTree.java:411-452 | descending to the child on the key's side keeps the new key between the keys of all ancestors, on the right sides |
| Insertions.DuplicateKeepsMax | src/de/tinloaf/intervaltree/IntervalTree.java:412-419 | when the descent meets the key itself, raising the maxes on the path by its end changes none of them |
| Insertions.ValueAdded | src/de/tinloaf/intervaltree/IntervalTree.java:418 | adding a value to an existing node keeps the invariant and adds exactly that entry |
| Insertions.Planted | src/de/tinloaf/intervaltree/IntervalTree.java:406-407 | in an empty tree the new node alone is a sound tree holding exactly the one entry |
| Insertions.AttachedLinked | src/de/tinloaf/intervaltree/IntervalTree.java:422-454 | hanging the new leaf leaves a linked tree whose live nodes are the old ones plus the new one |
| Insertions.AttachedOrderedAt | src/de/tinloaf/intervaltree/IntervalTree.java:411-452 | after hanging the new leaf every live node is in key order with its subtrees |
| Insertions.AttachedMaxAt | src/de/tinloaf/intervaltree/IntervalTree.java:412 | the maxes raised on the way down are exactly what updateMax stores once the leaf hangs below |
| Insertions.AttachedSound | src/de/tinloaf/intervaltree/IntervalTree.java:409-455 | hanging the new leaf keeps the search-tree invariant, adds one live node and exactly the entry (key, value) |
| Insertions.AttachedEntries | src/de/tinloaf/intervaltree/IntervalTree.java:422-454 | the stored entries after the attachment are the old ones plus (key, value) |
| Insertions.AttachedKeyNew | src/de/tinloaf/intervaltree/IntervalTree.java:411-452 | when the descent ends at a missing child, key is stored in no live node: the duplicate branch of line 417 is the only one for a stored key |
| Insertions.AttachedFixable | src/de/tinloaf/intervaltree/IntervalTree.java:403-457 | hanging the new red leaf in a red-black tree keeps the black-height rule everywhere and breaks the red rule at most below the leaf's parent: fixTreeAt may start at the leaf |
| Insertions.PlantedFixable | src/de/tinloaf/intervaltree/IntervalTree.java:403-407 | in an empty tree the new red node alone may be handed to fixTreeAt |
| InsertFixups.RepairedEntries | src/de/tinloaf/intervaltree/IntervalTree.java:462-517 | a repaired tree stores the same entries as before |
| InsertFixups.RecolorUp | src/de/tinloaf/intervaltree/IntervalTree.java:481-486 | in case 3 (red parent and uncle) the recoloured tree, with the grandparent's black height one higher, keeps the black-height rule everywhere and breaks the red rule at most between the grandparent and its parent, so fixTreeAt may go on at the grandparent, which lies strictly closer to the root |
| InsertFixups.InnerLeft | src/de/tinloaf/intervaltree/IntervalTree.java:498-500 | case 4.1 for a right child of a left child: rotating the parent left keeps the tree sound, the root, nodes, keys, values and colours, and makes the pair outer |
| InsertFixups.InnerRight | src/de/tinloaf/intervaltree/IntervalTree.java:501-503 | mirror image of InnerLeft |
| InsertFixups.InnerRotatedFacts | src/de/tinloaf/intervaltree/IntervalTree.java:498-504 | case 4.1 keeps the tree sound over the same nodes, keys, values and colours, and leaves an outer red pair |
| InsertFixups.OuterRight | src/de/tinloaf/intervaltree/IntervalTree.java:509-512 | case 4 for two left children: painting the parent black and the grandparent red and rotating the grandparent right gives a sound red-black tree with a black root over the same nodes, keys and values |
| InsertFixups.OuterLeft | src/de/tinloaf/intervaltree/IntervalTree.java:509-515 | case 4 for two right children: mirror image of OuterRight, with a left rotation |
| InsertFixups.OuterRotatedFacts | src/de/tinloaf/intervaltree/IntervalTree.java:509-516 | case 4 proper, whichever side, leaves a sound red-black tree with a black root over the same nodes, keys and values |
| InsertFixups.RotationsRepair | src/de/tinloaf/intervaltree/IntervalTree.java:498-516 | with a red parent and a black uncle, case 4.1 and the grandparent rotation both apply and together leave a sound red-black tree with a black root over the same nodes, keys and values |
| InsertFixups.FixedAt | src/de/tinloaf/intervaltree/IntervalTree.java:462-517 | fixTreeAt in every case, started where the only broken rule is a red n below a red parent, leaves a sound red-black tree with a black root over the same nodes, keys and values |
| InsertFixups.RecolorThenFixed | src/de/tinloaf/intervaltree/IntervalTree.java:481-486 | in case 3 the repair from n is the repair from the recoloured grandparent, which fixTreeAt may start at and which lies strictly closer to the root |
| InsertFixups.RotationsThenFixed | src/de/tinloaf/intervaltree/IntervalTree.java:498-516 | in case 4 the repair from n is exactly the inner rotation (if any) followed by the outer one, and both apply |
| Deletions.Erased | src/de/tinloaf/intervaltree/IntervalTree.java:533-583 | delete removes only entries under key; when key holds several entries exactly (key, value) goes, and nothing when it is not stored; a key with one entry loses it whatever value is named; an absent key loses nothing |
| Deletions.DeleteUndoesInsert | src/de/tinloaf/intervaltree/IntervalTree.java:528-531 | deleting an entry just inserted gives back the entries from before |
| Deletions.ErasedPairs | src/de/tinloaf/intervaltree/IntervalTree.java:538-543 | when the entries under key are its node's values, more than one value means only (key, value) goes, otherwise all of them go |
| Deletions.ErasedAt | src/de/tinloaf/intervaltree/IntervalTree.java:538-543 | for the node that holds key, the size of its value set decides which branch of Erased applies |
| Deletions.KeyedAbsent | src/de/tinloaf/intervaltree/IntervalTree.java:534-536 | a key that no live node holds has no entries |
| Deletions.ValueRemoved | src/de/tinloaf/intervaltree/IntervalTree.java:538-541 | removing a value from a node that holds others keeps the invariant and removes exactly (key, value) |
| Deletions.PredecessorBelow | src/de/tinloaf/intervaltree/IntervalTree.java:550-551 | the predecessor lies strictly inside n's subtree and has a parent |
| Deletions.CopiedSound | src/de/tinloaf/intervaltree/IntervalTree.java:550-557 | copying the predecessor's key and values into n keeps the tree sound except at the predecessor |
| Deletions.CopiedEntries | src/de/tinloaf/intervaltree/IntervalTree.java:550-557 | after the copy, the tree without the predecessor stores what the tree without n stored before |
| Deletions.NodeRemovedEntries | src/de/tinloaf/intervaltree/IntervalTree.java:545-568 | the entries without node n are the entries less exactly n's pairs |
| Deletions.SpliceNeighbours | src/de/tinloaf/intervaltree/IntervalTree.java:559-560 | the child that replaces d is d's only subtree, and d's parent is absent exactly when d is the root |
| Deletions.SplicedLinked | src/de/tinloaf/intervaltree/IntervalTree.java:568 | replaceNode(d, child) leaves a linked tree over the remaining nodes |
| Deletions.SplicedOrdered | src/de/tinloaf/intervaltree/IntervalTree.java:568 | replaceNode(d, child) keeps the remaining nodes in key order, with no exception |
| Deletions.SplicedMax | src/de/tinloaf/intervaltree/IntervalTree.java:568 | after replaceNode(d, child) every max is correct except at d's former parent and above |
| Deletions.SplicedSound | src/de/tinloaf/intervaltree/IntervalTree.java:568 | the splice leaves a sound tree (but for stale maxes on the path above) over the old nodes less d, storing the old entries less d's |
| Deletions.Excepted | src/de/tinloaf/intervaltree/IntervalTree.java:559-568 | a sound tree is sound except at any one of its nodes |
| Deletions.ClimbStep | src/de/tinloaf/intervaltree/IntervalTree.java:575-579 | one updateMax and one step up keep the climb's invariant and shrink the set of nodes still to refresh |
| Deletions.ClimbMax | src/de/tinloaf/intervaltree/IntervalTree.java:576 | after updateMax on c, every live node not above c's parent has a correct max |
| Deletions.ClimbDone | src/de/tinloaf/intervaltree/IntervalTree.java:574-580 | once the climb passes the root no max is stale and the tree is sound |
| DeleteFixups.Orphan | src/de/tinloaf/intervaltree/IntervalTree.java:590 | among live nodes, exactly the root has no parent |
| DeleteFixups.PaintedKept | src/de/tinloaf/intervaltree/IntervalTree.java:591 | recolouring keeps soundness, nodes, keys, values and d's children |
| DeleteFixups.SiblingInRange | src/de/tinloaf/intervaltree/IntervalTree.java:79-87 | while the repair is pending at n, n has a parent, and its sibling is NIL or a node |
| DeleteFixups.LeftLifted | src/de/tinloaf/intervaltree/IntervalTree.java:602 | rotating p left keeps the tree sound except at d below p's left child n, keeps nodes, keys, values and colours, and leaves n below p on the same side with the same subtree |
| DeleteFixups.RightLifted | src/de/tinloaf/intervaltree/IntervalTree.java:604 | mirror image of LeftLifted |
| DeleteFixups.LiftApplies | src/de/tinloaf/intervaltree/IntervalTree.java:598-605 | the rotation of case 2 is possible wherever the repair is pending |
| DeleteFixups.LiftLeft | src/de/tinloaf/intervaltree/IntervalTree.java:598-602 | case 2 for a left child keeps the repair pending at n with the same parent and subtree |
| DeleteFixups.LiftRight | src/de/tinloaf/intervaltree/IntervalTree.java:598-604 | mirror image of LiftLeft |
| DeleteFixups.LiftFacts | src/de/tinloaf/intervaltree/IntervalTree.java:598-605 | case 2 applies and keeps the repair pending at n |
| DeleteFixups.ClimbFacts | src/de/tinloaf/intervaltree/IntervalTree.java:610-618 | case 3, structurally: painting the sibling red keeps the tree sound except at d over the same nodes, keys and values, and the repair can go on at the parent, strictly closer to the root; the colour side is DeleteColors.CarryStep |
| DeleteFixups.RecolorFacts | src/de/tinloaf/intervaltree/IntervalTree.java:623-631 | case 4, structurally: the two recolourings keep the tree sound except at d, with a black root, the same nodes, keys and values, and d's children in place; the colour side is DeleteColors.RecolorStep |
| DeleteFixups.RightLowered | src/de/tinloaf/intervaltree/IntervalTree.java:643 | rotating the sibling right keeps the tree sound except at d, keeps the root, and makes the sibling's left child n's sibling |
| DeleteFixups.LeftLowered | src/de/tinloaf/intervaltree/IntervalTree.java:652 | mirror image of RightLowered |
| DeleteFixups.NephewApplies | src/de/tinloaf/intervaltree/IntervalTree.java:636-653 | the rotation of case 5 is possible wherever the repair is pending with a sibling |
| DeleteFixups.NephewLeft | src/de/tinloaf/intervaltree/IntervalTree.java:636-644 | case 5 for a left child keeps the repair pending at n, which still has a sibling |
| DeleteFixups.NephewRight | src/de/tinloaf/intervaltree/IntervalTree.java:645-653 | mirror image of NephewLeft |
| DeleteFixups.NephewFacts | src/de/tinloaf/intervaltree/IntervalTree.java:636-653 | case 5, whether it rotates or not, keeps the repair pending at n with a sibling |
| DeleteFixups.FarApplies | src/de/tinloaf/intervaltree/IntervalTree.java:658-670 | the rotation of case 6 is possible wherever the repair is pending with a sibling |
| DeleteFixups.FarLeft | src/de/tinloaf/intervaltree/IntervalTree.java:658-664 | case 6 for a left child, structurally: the recolouring and the rotation keep the tree sound except at d, with a black root, the same nodes, keys and values, and d's children in place; the colour side is DeleteColors.FarStep |
| DeleteFixups.FarRight | src/de/tinloaf/intervaltree/IntervalTree.java:658-670 | mirror image of FarLeft |
| DeleteFixups.FarFacts | src/de/tinloaf/intervaltree/IntervalTree.java:658-670 | case 6, whichever side: the rotation applies and the tree keeps what FarLeft states; the colour side is DeleteColors.FarStep |
| DeleteColors.SiblingExists | src/de/tinloaf/intervaltree/IntervalTree.java:610-613 | while n's side is one black node short, n has a parent and a sibling, so the dereferences of n.sibling() never meet null |
| DeleteColors.RootMended | src/de/tinloaf/intervaltree/IntervalTree.java:590-593 | case 1: painting the root n black ends the repair with a red-black tree (read with d replaced by its child) |
| DeleteColors.LiftStep | src/de/tinloaf/intervaltree/IntervalTree.java:598-605 | case 2: the rotation applies, n's side stays one black node short below the same parent, and n's sibling is now black |
| DeleteColors.CarryStep | src/de/tinloaf/intervaltree/IntervalTree.java:610-618 | case 3 with a black parent: painting the sibling red, with the parent's black height one lower, leaves the parent's side one black node short, so the repair may go on at the parent, strictly closer to the root |
| DeleteColors.RecolorStep | src/de/tinloaf/intervaltree/IntervalTree.java:623-631 | case 4 with a red parent: painting the sibling red and the parent black ends the repair with a red-black tree |
| DeleteColors.NephewStep | src/de/tinloaf/intervaltree/IntervalTree.java:636-653 | case 5, whether it rotates or not, keeps n's side one black node short and leaves n a black sibling whose far child is red |
| DeleteColors.FarStep | src/de/tinloaf/intervaltree/IntervalTree.java:658-670 | case 6 with a red far nephew: the recolouring and the rotation about the parent end the repair with a red-black tree |
| DeleteColors.MendedAfter | src/de/tinloaf/intervaltree/IntervalTree.java:616 | a step of the repair that keeps nodes, keys, values and d's children, followed by a repair that mends the tree, mends it |
| DeleteColors.DeleteFixedAt | src/de/tinloaf/intervaltree/IntervalTree.java:585-671 | fixTreeForDeletion in every case, started where n's side is one black node short, leaves a tree sound except at d, with a black root, the same nodes, keys and values and d's children in place, that read with d replaced by its child is a red-black tree |
| DeleteColors.SiblingBlackFixed | src/de/tinloaf/intervaltree/IntervalTree.java:610-670 | cases 3 to 6, below a black sibling, keep that same promise |
| DeleteEnds.RedLeafGone | src/de/tinloaf/intervaltree/IntervalTree.java:562-567 | a red node with at most one child has none, and the tree read without it is already red-black, so delete skips the repair |
| DeleteEnds.StartShort | src/de/tinloaf/intervaltree/IntervalTree.java:564-566 | `n.color = nodeColor(child)` on a black node with at most one child leaves its side one black node short: fixTreeForDeletion may start there |
| DeleteEnds.SplicedRedBlack | src/de/tinloaf/intervaltree/IntervalTree.java:568 | replaceNode(d, child) turns the tree read with d replaced by its child into that tree: it is red-black with the same black heights |
| DeleteEnds.RootBlackened | src/de/tinloaf/intervaltree/IntervalTree.java:570-572 | painting the root of a red-black tree black keeps it red-black |
| IntervalTrees.Int32 | src/de/tinloaf/intervaltree/IntervalTree.java:26 | the value of a Java int expression: in [-2^31, 2^31), equal to the exact result modulo 2^32, and equal to it when it fits |
| IntervalTrees.InitialCapacity | src/de/tinloaf/intervaltree/IntervalTree.java:282 | Math.round(count * ALLOCATION_FACTOR) with the factor 0.5 of line 23: twice it is count or count + 1, and it is negative exactly when count is -2 or less |
| IntervalTrees.IntervalTree.constructor | src/de/tinloaf/intervaltree/IntervalTree.java:689-693 | a new tree is valid, stores no entries and counts 0 |
| IntervalTrees.IntervalTree.LookupNode | src/de/tinloaf/intervaltree/IntervalTree.java:224-247 | returns the one live node whose interval is key, or NIL exactly when no live node holds key |
| IntervalTrees.IntervalTree.Lookup | src/de/tinloaf/intervaltree/IntervalTree.java:255-261 | returns exactly the entries stored under key (none when key is absent) |
| IntervalTrees.IntervalTree.GetMaximum | src/de/tinloaf/intervaltree/IntervalTree.java:700-705 | None exactly when the tree is empty; otherwise an end of some stored interval, at least every stored end |
| IntervalTrees.IntervalTree.FindOverlapping | src/de/tinloaf/intervaltree/IntervalTree.java:281-287 | fails (None, for the IllegalArgumentException) exactly when count is -2 or less; otherwise an entry is in the result exactly when it is stored under an interval that overlaps q |
| IntervalTrees.IntervalTree.FindOverlappingAt | src/de/tinloaf/intervaltree/IntervalTree.java:289-307 | the collector only grows and gains exactly the entries of r's subtree that overlap q: the pruning loses none |
| IntervalTrees.IntervalTree.AccumulateAll | src/de/tinloaf/intervaltree/IntervalTree.java:309-319 | the accumulator gains exactly the entries of n's subtree |
| IntervalTrees.IntervalTree.GetAll | src/de/tinloaf/intervaltree/IntervalTree.java:326-333 | returns exactly the stored entries |
| IntervalTrees.IntervalTree.UpdateMax | src/de/tinloaf/intervaltree/IntervalTree.java:58-70 | the new arena is MaxUpdated of the old one, and the node's max is correct |
| IntervalTrees.IntervalTree.ReplaceNode | src/de/tinloaf/intervaltree/IntervalTree.java:340-352 | the new arena and root are Replaced and ReplacedRoot of the old ones |
| IntervalTrees.IntervalTree.RotateLeft | src/de/tinloaf/intervaltree/IntervalTree.java:354-369 | the new arena, root and subtrees are LeftRotated, ReplacedRoot and LeftRotatedSub of the old ones |
| IntervalTrees.IntervalTree.RotateRight | src/de/tinloaf/intervaltree/IntervalTree.java:371-386 | mirror image of RotateLeft |
| IntervalTrees.IntervalTree.Insert | src/de/tinloaf/intervaltree/IntervalTree.java:397-400 | the tree stays valid (a sound search tree and a red-black tree with a black root), stores the old entries plus (key, value), and count grows by one as a wrapping Java int; a key already stored leaves root, links, colours, keys and maxes unchanged, only value sets change |
| IntervalTrees.IntervalTree.InsertEntry | src/de/tinloaf/intervaltree/IntervalTree.java:402-460 | the tree stays valid, red-black rules included, and stores the old entries plus (key, value); when key is already stored (lines 417-419) nothing but the value sets changes |
| IntervalTrees.IntervalTree.Descend | src/de/tinloaf/intervaltree/IntervalTree.java:409-454 | either the value joins the node already holding key, or a new red leaf for key hangs where the key order puts it, with the maxes on the path raised |
| IntervalTrees.IntervalTree.FixTreeAt | src/de/tinloaf/intervaltree/IntervalTree.java:462-517 | the new tree is FixedAt of the old one, hence a sound red-black tree with a black root over the same nodes, keys and values |
| IntervalTrees.IntervalTree.FixTreeAtUncle | src/de/tinloaf/intervaltree/IntervalTree.java:481-486 | case 3 as code: recolouring and the repair from the grandparent give FixedAt of the old tree |
| IntervalTrees.IntervalTree.FixTreeAtInner | src/de/tinloaf/intervaltree/IntervalTree.java:498-504 | the new tree and the node the repair goes on with are InnerRotated of the old tree |
| IntervalTrees.IntervalTree.FixTreeAtOuter | src/de/tinloaf/intervaltree/IntervalTree.java:509-516 | the new tree is OuterRotated of the old one |
| IntervalTrees.IntervalTree.Delete | src/de/tinloaf/intervaltree/IntervalTree.java:528-531 | the tree stays valid (a sound search tree and a red-black tree with a black root), stores Erased of the old entries, and count drops by one as a wrapping Java int, even when key is absent and the tree is untouched; a node holding key with several values only loses value, nothing else changes |
| IntervalTrees.IntervalTree.DeleteEntry | src/de/tinloaf/intervaltree/IntervalTree.java:533-583 | the tree stays valid, red-black rules included, and stores Erased of the old entries; a key that is not stored (lines 534-536) leaves the arena, root, subtrees and black heights untouched; a node holding key with several values (lines 538-541) only loses value from its set, and nothing else changes |
| IntervalTrees.IntervalTree.MaximumNode | src/de/tinloaf/intervaltree/IntervalTree.java:673-679 | returns the node of l's subtree with no right child, whose key is larger than every other key of that subtree |
| IntervalTrees.IntervalTree.RemoveNode | src/de/tinloaf/intervaltree/IntervalTree.java:559-582 | removing a node with at most one child from a red-black tree, repainting and repairing first when it is black, leaves a valid tree, red-black rules included, storing the old entries less that node's |
| IntervalTrees.IntervalTree.Splice | src/de/tinloaf/intervaltree/IntervalTree.java:568-580 | when the tree read with d replaced by its child is red-black, the splice, the root repaint and the climb leave a valid tree, red-black rules included, storing the old entries less d's |
| IntervalTrees.IntervalTree.Climb | src/de/tinloaf/intervaltree/IntervalTree.java:574-580 | refreshing the maxes from c up to the root makes the tree valid, with keys, values and the red-black rules unchanged |
| IntervalTrees.IntervalTree.FixTreeForDeletion | src/de/tinloaf/intervaltree/IntervalTree.java:585-671 | the new tree is DeleteFixedAt of the old one, hence mended: sound except at d, black root, same nodes and entries, red-black once d is replaced by its child |
| IntervalTrees.IntervalTree.FixBlackSibling | src/de/tinloaf/intervaltree/IntervalTree.java:610-670 | the new tree is SiblingBlackFixed of the old one, hence mended |
| IntervalTrees.IntervalTree.FixSiblingRed | src/de/tinloaf/intervaltree/IntervalTree.java:598-605 | the new tree is SiblingLifted of the old one |
| IntervalTrees.IntervalTree.FixNephew | src/de/tinloaf/intervaltree/IntervalTree.java:636-653 | the new tree is NephewRotated of the old one |
| IntervalTrees.IntervalTree.FixFarNephew | src/de/tinloaf/intervaltree/IntervalTree.java:658-670 | the new tree is FarRotated of the old one |

## Left out

- The `verify*` methods and the `VERIFY` switch (lines 118-218) are debug checks, off in the
  source; the invariant they test is `Valid()`, with `BlackHeights.BlackPathsEqual` and
  `BlackHeights.NoRedRed` for the two colour checks. `verifySearchTree` recurses into
  `root.right` on line 139 where the left child is meant, so it checks less than `Ordered` states.
- The Java `assert` statements (lines 73-74, 80, 90-91, 445, 514, 543, 559, 661, 667, 674) are not
  evaluated, as with assertions disabled.
- `printHelper` and `printTree` (lines 707-738): console output.
- IntervalTrees.InitialCapacity: computed on integers. For |count| above 2^24 the float product
  of line 282 rounds differently, but its sign, the only thing the model observes, is the same.
- IntervalTrees.IntervalTree.FindOverlapping: returns a multiset of entries, but its contract
  states only which entries are in it, not how often each appears or in which order the Java list
  holds them.
- Generic bounds and entries: `E` is modelled by `int` (only `compareTo` is used), entries by
  opaque ids, and `HashSet` by `set`. `IInterval.java`, `HasInterval.java` and the test classes
  are not part of this model.
- IntervalTrees.IntervalTree.Lookup: returns a set value, while `lookup` (line 260) returns the
  node's own `HashSet`. A caller that changes that set changes the tree; this aliasing is not
  modelled.
- Memory: nodes removed from the tree keep their slot in the arena; garbage collection is not
  modelled.
- Concurrency: the class is single-threaded and the model is sequential.
