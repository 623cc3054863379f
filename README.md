# rbt::RedBlackTree in Dafny

A model of `rbt::RedBlackTree<int, int>` (src/red_black_tree.h, src/red_black_tree.cpp): a top-down red-black tree that maps `int` keys to `int` values, with top-down insertion and top-down deletion. There is no parent pointer. Every node a walk needs to change is reached through the `parent_node`, `grand_parent_node` and `grand_grand_parent_node` pointers that trail the current node.

The model has three layers:

- **The value view.** `RbSpec` defines trees of pairs and colours, in-order order, the stored map (`Content`) and the three rules that `RedBlackTreeRulesCheck` tests. `TreeZipper` defines the path from the root to the current node (a zipper). `TopDownInsert` and `TopDownErase` state the two algorithms as functions on that path, one loop turn at a time. These modules prove the ordering, content and red-black properties.
- **The node store.** `NodeStore` keeps the nodes as records at addresses in a `heap` map, with pointers as addresses or null. A ghost `Shape` names the address at every position of a subtree. `InsertPointers`, `ErasePointers` and `TreeWalks` prove that the pointer writes of the C++ code produce exactly the states the value view steps through.
- **The class.** `Rbt.RedBlackTree` has the fields `root`, `size` and `heap`. Its methods perform the source's pointer and colour writes with the same branches, loops and stacks. Each method is proved against the value view: its `ensures` tie the new nodes to a function of the old ones, and the value view's lemmas give that function its meaning.

`Erase` follows the code as the authors evidently intended. The code as written has two defects, listed under "## Findings"; it is modelled as `TopDownErase.EraseAsWritten` and exhibited by lemmas on concrete trees.

## Model

| member | source | states |
|---|---|---|
| Rbt.RedBlackTree.constructor | src/red_black_tree.h:41 | A new tree has a null root, size 0 and no nodes; it holds the empty map and meets the class invariant. |
| Rbt.RedBlackTree.IsEmpty | src/red_black_tree.h:84 | The answer is whether the root is null, and equally whether the tree stores no pair. |
| Rbt.RedBlackTree.Size | src/red_black_tree.h:90 | `size_` is the number of keys stored. |
| Rbt.RedBlackTree.GetValue | src/red_black_tree.cpp:196-209 | Found exactly when `key` is stored; then the value is the stored one, otherwise the default value 0. |
| Rbt.RedBlackTree.Clear | src/red_black_tree.cpp:213-238 | Every node is deleted; the root is null, the size 0, and the tree is empty and valid. |
| Rbt.RedBlackTree.DeleteAll | src/red_black_tree.cpp:219-234 | The stack walk deletes every node of the tree: no allocated node is left. |
| Rbt.RedBlackTree.RedBlackTreeRulesCheck | src/red_black_tree.cpp:285-320 | True exactly when the tree meets the red-black rules: black root, no red node with a red child, and equal black counts on all paths. |
| Rbt.RedBlackTree.RedRuleCheck | src/red_black_tree.cpp:297-314 | The stack walk succeeds exactly when no red node has a red child. |
| Rbt.RedBlackTree.ComputeAllBlackPathHeight | src/red_black_tree.cpp:317-319 | Appends one black count per null position, left to right (`BlackCounts`). |
| RbSpec.BlackCountsUniform | src/red_black_tree.cpp:316-320 | The recorded black counts are all equal exactly when every path has the same number of black nodes. |
| RbSpec.BlackCounts | src/red_black_tree.cpp:319 | There is one count per null position: one more than the number of nodes. |
| TreeWalks.ClearStep | src/red_black_tree.cpp:222-234 | Popping a node, pushing its children and deleting it keeps the stack holding exactly the remaining nodes, and the number of nodes falls. |
| TreeWalks.RedStep | src/red_black_tree.cpp:300-314 | Popping a node and pushing its children keeps the red rule of the remaining subtrees equivalent to the red rule of the popped ones; the stack's weight falls. |
| Rbt.RedBlackTree.Insert | src/red_black_tree.cpp:31-77 | The nodes hold `TopDownInsert.Insert` of the tree before. True exactly for a new key; the map gains the pair, or is unchanged for an existing key. The tree stays valid and `size_` grows by one exactly on success. |
| Rbt.RedBlackTree.SearchSlot | src/red_black_tree.cpp:44-62 | The search stops at the node holding `key` or at the null position where `key` belongs. Inserting there still yields `TopDownInsert.Insert` of the tree before. |
| Rbt.RedBlackTree.SearchTurn | src/red_black_tree.cpp:49-61 | One turn of the search: on values, `TopDownInsert.Step`. |
| Rbt.RedBlackTree.ReorientFour | src/red_black_tree.cpp:53-56 | A node with two red children is reoriented, any other is left alone; the ancestor pointers still match the path. |
| Rbt.RedBlackTree.InsertLeaf | src/red_black_tree.cpp:64-76 | The new red leaf is hung and reoriented. The nodes form the whole tree of `TopDownInsert.Insert` again, and `size_` grows by one. |
| Rbt.RedBlackTree.HangLeaf | src/red_black_tree.cpp:65-72 | A fresh node with the pair hangs on `key`'s side of the parent; nothing else changes. |
| Rbt.RedBlackTree.ReorientLeaf | src/red_black_tree.cpp:74 | Reorienting the new leaf leaves one tree holding `TopDownInsert.AttachLeaf` of the path. |
| Rbt.RedBlackTree.HandleReorient | src/red_black_tree.cpp:331-364 | The pointer and colour writes produce `TopDownInsert.Reorient` of the descent state. The node still heads its subtree, and the ancestor pointers stay right unless a double rotation happened. |
| Rbt.RedBlackTree.BlackenChildren | src/red_black_tree.cpp:334-339 | The node's children, where present, turn black. |
| Rbt.RedBlackTree.RebalanceAt | src/red_black_tree.cpp:345-363 | Under a red parent, the single or double rotation and the recolouring produce `TopDownInsert.Rebalance`. |
| Rbt.RedBlackTree.SingleRotate | src/red_black_tree.cpp:358-362 | The parent rises above the grandparent and turns black; on values, `Rebalance`. |
| Rbt.RedBlackTree.DoubleRotate | src/red_black_tree.cpp:352-362 | The node rises above the parent and then the grandparent and turns black; on values, `Rebalance`. |
| Rbt.RedBlackTree.HandleRotation | src/red_black_tree.cpp:368-386 | `sup` rises above `root` on the side its key sorts to, and `root` adopts `sup`'s inner child; a null `sup` changes nothing. |
| Rbt.RedBlackTree.HandleReconnection | src/red_black_tree.cpp:390-399 | `node` becomes the child of `parent` on the side its key sorts to, or the root when `parent` is null. |
| NodeStore.RotatedLinks | src/red_black_tree.cpp:374-385 | A rotation rewrites the links of exactly the two nodes it names. Every other node, key, value and colour stays, and the rotated skeleton is linked. |
| NodeStore.RotSVal | src/red_black_tree.cpp:374-385 | The rotated nodes denote the rotated tree. |
| TopDownErase.RotateUp | src/red_black_tree.cpp:374-385 | A rotation keeps the in-order sequence of pairs. |
| TopDownInsert.Insert | src/red_black_tree.cpp:31-77 | The result is ordered and red-black, the flag is true exactly for a new key, and the map gains the pair exactly then. |
| TopDownInsert.InsertLoop | src/red_black_tree.cpp:48-74 | From any state of the descent invariant, the loop ends in an ordered red-black tree that stores the pair exactly when the key is new. |
| TopDownInsert.StepKeepsInv | src/red_black_tree.cpp:48-62 | One turn keeps the descent invariant and the pairs, and brings the search closer to its end. |
| TopDownInsert.AttachLeafCorrect | src/red_black_tree.cpp:64-74 | The red leaf attached at the search's end and reoriented gives an ordered red-black tree whose map is the old one plus the new pair. |
| TopDownInsert.RebalanceRedBlack | src/red_black_tree.cpp:345-363 | Rebalancing a red node under a red parent restores the red-black rules. |
| TopDownInsert.FlipChildren | src/red_black_tree.cpp:334-339 | The colour flip keeps the node's colour and its pairs. |
| Rbt.RedBlackTree.Erase | src/red_black_tree.cpp:81-192 | The corrected reading, with the grandparent refreshed after line 112 and line 123's side told by position. The nodes hold `TopDownErase.Erase` of the tree before. True exactly when `key` was stored; the map loses `key` and keeps every other pair; the tree stays valid and `size_` falls by one exactly on success. |
| Rbt.RedBlackTree.Walk | src/red_black_tree.cpp:99-188 | The walk ends at the red leaf holding `key`, or at an empty position; either way the outcome of `TopDownErase.Loop` is unchanged. |
| Rbt.RedBlackTree.MakeRedTurn | src/red_black_tree.cpp:102-150 | A black node under a red sibling is rotated (`RotateRedSibling`). Otherwise, on values, the turn is `MakeRed`: borrow or colour flip. |
| Rbt.RedBlackTree.RedSiblingTurn | src/red_black_tree.cpp:105-112 | The red sibling rises above the parent and turns black, and the parent turns red; on values, `RotateRedSibling`. |
| Rbt.RedBlackTree.BorrowTurn | src/red_black_tree.cpp:117-139 | A sibling with a red child lends it through a single or double rotation; on values, `Borrow`. |
| Rbt.RedBlackTree.BorrowSingle | src/red_black_tree.cpp:129-139 | The single rotation and the recolouring of the unique-rotate case. |
| Rbt.RedBlackTree.BorrowDouble | src/red_black_tree.cpp:122-139 | The double rotation and the recolouring of the other case. |
| Rbt.RedBlackTree.FlipTurn | src/red_black_tree.cpp:140-148 | The parent turns black, and the node and the sibling (if any) red; on values, `Flip`. |
| Rbt.RedBlackTree.Descend | src/red_black_tree.cpp:152-187 | A found internal node swaps its pair with its neighbour, then the walk steps down; on values, `Advance`. |
| Rbt.RedBlackTree.SwapWithNeighbour | src/red_black_tree.cpp:175-181 | The node trades its pair with its successor, or its predecessor when it has no right child; on values, `Swap`. |
| Rbt.RedBlackTree.FindMinLeaf | src/red_black_tree.cpp:83-88 | The left pointers lead to the node holding the least pair of the subtree. |
| Rbt.RedBlackTree.FindMaxLeaf | src/red_black_tree.cpp:89-94 | The right pointers lead to the node holding the greatest pair of the subtree. |
| Rbt.RedBlackTree.SwapPairs | src/red_black_tree.cpp:179-180 | The two nodes exchange keys and values and nothing else. |
| Rbt.RedBlackTree.DeleteLeaf | src/red_black_tree.cpp:153-172 | The leaf holding `key` is unlinked and deleted, `size_` falls by one, and the remaining tree's root is black. |
| Rbt.RedBlackTree.Unwind | src/red_black_tree.cpp:153-191 | After the walk, the nodes hold `TopDownErase.Erase`, the map lost exactly `key`, and `size_` counts the pairs. |
| Rbt.EraseCounted | src/red_black_tree.cpp:166 | `size_` falls by one exactly when a key is removed, so it keeps counting the pairs. |
| Rbt.InsertCounted | src/red_black_tree.cpp:65 | `size_` grows by one exactly when a key is stored, so it keeps counting the pairs. |
| Rbt.DescentStart | src/red_black_tree.cpp:97-100 | With the root painted red, the walk starts at the root with no ancestors. |
| TopDownErase.EraseCorrect | src/red_black_tree.cpp:81-192 | The corrected erase of a red-black tree returns an ordered red-black tree without `key` and with every other pair, and the flag says whether `key` was there. |
| TopDownErase.LoopCorrect | src/red_black_tree.cpp:101-188 | From any state of the loop invariant, the loop's outcome meets that promise. |
| TopDownErase.EraseStart | src/red_black_tree.cpp:97-100 | The tree with its root painted red satisfies the loop invariant. |
| TopDownErase.StepRedSibling | src/red_black_tree.cpp:105-113 | The red-sibling rotation keeps the invariant and the outcome. |
| TopDownErase.StepMakeRed | src/red_black_tree.cpp:115-150 | Borrowing or flipping keeps the invariant, and leaves the current node red or with a red child. |
| TopDownErase.RotateRedSibling | src/red_black_tree.cpp:105-112 | The current node stays the same while its sibling shrinks, so the turn that follows makes progress. |
| TopDownErase.MakeRed | src/red_black_tree.cpp:115-149 | Borrowing or flipping keeps the current node's key, children, pairs and height. |
| TopDownErase.SwapShape | src/red_black_tree.cpp:175-181 | The swap with the successor or predecessor moves no node. |
| TopDownErase.AdvanceOrder | src/red_black_tree.cpp:184-187 | Stepping down, after a swap by the displaced key, keeps `key`'s pairs to the left and right of the path in order. |
| TopDownErase.LeafEnd | src/red_black_tree.cpp:153-172 | Unlinking the red leaf holding `key` leaves an ordered red-black tree with the old map minus `key`. |
| TopDownErase.EmptyEnd | src/red_black_tree.cpp:188-191 | Falling off the tree means `key` was absent; the blackened tree is the old map, red-black and ordered. |
| EraseFindings.StaleGrandparentRun | src/red_black_tree.cpp:105-131 | `TopDownErase.EraseAsWritten` on the stale-grandparent tree: after the red-sibling rotation, the borrow is hung under the stale grandparent. |
| EraseFindings.StaleGrandparentLosesKey | src/red_black_tree.cpp:108-112 | The code as written loses key 80, which was stored and not erased. |
| EraseFindings.SideTestUnbalanced | src/red_black_tree.cpp:123 | The code as written takes the single rotation after the swap and leaves unequal black counts. |
| EraseFindings.CorrectedOnFindings | src/red_black_tree.cpp:81-192 | On both inputs, the corrected erase keeps the tree red-black and ordered and every other key stored. |
| EraseFindings.SideTestTreeBuilt | src/red_black_tree.cpp:31-77 | Inserting 0, 20, 30, 10 into the empty tree builds the side-test tree. |
| EraseFindings.StaleGrandparentTreeBuilt | src/red_black_tree.cpp:31-77 | Inserting 50, 20, 80, 60, 90, 55 into the empty tree builds the stale-grandparent tree. |

## Left out

- Rbt.RedBlackTree.Erase: requires a non-empty tree, because line 100 of red_black_tree.cpp writes `root_->color` before any null test, so an erase from an empty tree dereferences null.
- Nodes are records at addresses in a `heap: map<nat, NodeRec>`, not heap objects: `new` is an insert at a fresh address and `delete` a removal from the map. A dangling pointer cannot be formed and is not modelled.
- The template is fixed to `RedBlackTree<int, int>` with `std::less<int>`, the only instantiation compiled (red_black_tree.cpp:401). Keys are unbounded integers and compare with `<`.
- `size_` is a `nat`; the wrap-around of `size_t` is not modelled, as it cannot be reached before memory runs out.
- The definitions of `IsBlackNode` and `ComputeAllBlackPathHeight` are not part of this model. Both are defined here from their uses at red_black_tree.cpp:102, 115, 119, 304 and 319: a null position counts as black unless the second argument is `false`, and the counts are one entry per null position.
- `PrintTree` (DEBUG only; I/O), the destructor (red_black_tree.cpp:24-27, which only calls `Clear`) and the deleted copy and move operations are left out.
- `HandleRotationWithRoot`, `SingleRotationWithLeft`, `SingleRotationWithRight` and the one-argument `HandleReorient(key)` are declared in red_black_tree.h but never defined. The member fields `node_`, `parent_node_`, `grand_parent_node_` and `grand_grand_parent_node_` are never used. None of these is part of this model.
- TopDownErase.EraseAsWritten carries no contract of its own: what the code as written does is stated by the lemmas of `EraseFindings` on the two inputs, not for all trees.

## Findings

| source | as written | input that shows it | evidently intended | confidence | as-written member | corrected member |
|---|---|---|---|---|---|---|
| src/red_black_tree.cpp:108-112 | After the rotation toward a red sibling, `continue` keeps `grand_parent_node` at the node that was above the parent. The reconnection at line 131 then overwrites the risen sibling's slot, and that subtree is lost. | Insert 50, 20, 80, 60, 90, 55, then Erase(20): only 50, 55 and 60 remain; 80 and 90 are gone. | After the rotation the grandparent is the risen sibling, so later reconnections hang under it and every other key stays stored. | not executed | EraseFindings.StaleGrandparentLosesKey | TopDownErase.EraseCorrect |
| src/red_black_tree.cpp:123 | The node's side is tested by comparing its key with its parent's. After the swap at line 179 the node holding the key being erased can be the right child of a node with a larger key, so the test picks the single rotation where the double one was needed. | Insert 0, 20, 30, 10, then Erase(20): the result 0(B)[-, 30(B)[10(B), -]] has unequal black counts: 1 on the left path, 2 and 3 on the right ones. | The side is told by the node's position under its parent; the tree stays red-black. | not executed | EraseFindings.SideTestUnbalanced | Rbt.RedBlackTree.Erase |
