# Insert-only left-leaning red-black tree, modelled in Dafny

This project models `RBTree`. It is a set of `int` keys kept in a
left-leaning red-black tree (LLRB), in the 2-3 form where colour flips happen
on the way back up. The tree holds a root link and a `size` counter. Its
public operations are `add(value) → boolean`, `getSize()`,
`getBlackHeight()` and `getTotalHeight()`.

The model has five modules:

- `RedBlack` (`tree.dfy`): the nodes and the invariants that every completed
  `add` must leave behind. `Tree` is `Leaf` (a null link) or
  `Node(color, left, key, right)`. The invariants are search-tree order,
  `LeftLeaning` (no red right link and no red node with a red left child),
  `BlackBalanced`, and a root that is not red (`IsRedBlack`). The module also
  holds `BlackHeight`, the model of the private `getBlackHeight(Node)`.
- `Rotations` (`rotations.dfy`): `leftTurn`, `rightTurn` and `flipColors` as
  functions on subtrees. `Pass` is one pass of the do-while loop in
  `rebalance`.
- `Insertion` (`insertion.dfy`): `InsertInto` is the `addTo` recursion and
  `Insert` is all of `add`. The lemmas show that one insertion keeps every
  invariant, adds exactly the new key, and leaves the tree unchanged when
  the key is already there.
- `Heights` (`heights.dfy`): the two height recursions and what they measure.
  A root-to-null path is a sequence of left/right steps. The module also
  proves the logarithmic height bound.
- `RBTreeModel` (`rbtree.dfy`): the class `RBTree`, with fields `root` and
  `size` that `Add` updates in place. `AddTo` is a recursive method that bumps
  `size` as the Java code does. `Rebalance` is the do-while loop written as a
  `while` loop. Each method is proved equal to the pure function that
  specifies it.

`getBlackHeight` counts the black nodes on the left spine, and it also adds
one for the null link that ends the spine, because `getBlackHeight(null)`
returns 1 (src/RBTree.java:69). Separately, `add` paints the root black, so
the root always contributes its own 1. A one-key tree therefore reports 2,
and the tree {1, 2, 3} reports 3 (`ThreeAscendingKeys`). A count of black
nodes alone would give 1 and 2 for these two trees; this model follows the
code, which counts the null link.

## Model

| member | source | states |
|---|---|---|
| `RBTreeModel.RBTree.constructor` | src/RBTree.java:2-4 | a new tree has no root and size 0, and satisfies the invariant |
| `RBTreeModel.RBTree.GetSize` | src/RBTree.java:6-8 | on a valid tree the counter equals the number of distinct keys held |
| `RBTreeModel.RBTree.Add` | src/RBTree.java:15-26 | on an empty tree it makes a single black root, sets size to 1 and returns true; otherwise it returns true exactly when the key was absent, the key set becomes old keys ∪ {value}, size grows by exactly one on success, a duplicate leaves the very same tree, and the red-black invariant is kept |
| `RBTreeModel.RBTree.AddTo` | src/RBTree.java:83-113 | the descent returns the subtree and flag of `InsertInto` and bumps the counter exactly when a leaf was attached |
| `RBTreeModel.RBTree.Rebalance` | src/RBTree.java:120-147 | the loop returns the result of one pass, at which none of the three repairs is due; it runs one pass when nothing was due and exactly two otherwise |
| `RBTreeModel.RBTree.GetBlackHeight` | src/RBTree.java:32-36 | 0 for an empty tree; on a valid non-empty tree at least 2 (black root plus null link), and equal to the black count, null link included, of every root-to-null path |
| `RBTreeModel.RBTree.GetTotalHeight` | src/RBTree.java:42-46 | 0 for an empty tree; otherwise no root-to-null path has more than h + 1 nodes and one has exactly h + 1, so h is the edge count of the longest downward path |
| `RBTreeModel.ThreeAscendingKeys` | src/RBTree.java:15-26 | adding 1, 2, 3 gives B1; then B2 over a red 1; then a black 2 over black 1 and black 3, with black heights 2, 2, 3 and total heights 0, 1, 1 |
| `Rotations.LeftTurn` | src/RBTree.java:154-161 | the in-order key sequence is unchanged; the promoted right child takes the old top's colour and the old top becomes its red left child |
| `Rotations.RightTurn` | src/RBTree.java:168-176 | the in-order key sequence is unchanged; the promoted left child takes the old top's colour and the old top becomes its red right child |
| `Rotations.FlipColors` | src/RBTree.java:182-186 | the top becomes red and both children black; no key moves and no link changes |
| `Rotations.Turned` | src/RBTree.java:126-136 | the two turns of a pass keep the in-order sequence and the colour at the top |
| `Rotations.Pass` | src/RBTree.java:125-143 | one pass of the loop keeps the in-order key sequence |
| `Rotations.PassIdle` | src/RBTree.java:124-144 | a pass at a node where no trigger holds changes nothing |
| `Rotations.TurnsExclusive` | src/RBTree.java:126-136 | after a left turn the right-turn trigger never holds, so no pass does both turns |
| `Rotations.RightTurnThenFlip` | src/RBTree.java:132-142 | after a right turn the flip trigger always holds, so a right turn is always followed by a flip in the same pass |
| `Rotations.PassSettles` | src/RBTree.java:124-146 | after one pass no trigger holds, and a second pass changes nothing |
| `Rotations.PassKeepsKeys` | src/RBTree.java:120-147 | rebalancing keeps the key set and search-tree order |
| `Rotations.PassIdentityOnLeftLeaning` | src/RBTree.java:120-147 | rebalancing a left-leaning node is the identity |
| `Rotations.LeftTurnBalanced` | src/RBTree.java:154-161 | a left turn over a red right link keeps black balance and black height |
| `Rotations.RightTurnBalanced` | src/RBTree.java:168-176 | a right turn over a red left link keeps black balance and black height |
| `Rotations.FlipBalanced` | src/RBTree.java:182-186 | a flip keeps black balance; it keeps the black height under a black top and adds one under a red top |
| `Insertion.InsertInto` | src/RBTree.java:83-113 | the node handed to `addTo` stays on top with its own colour and key |
| `Insertion.Insert` | src/RBTree.java:15-26 | the root after `add` is black and holds the added key |
| `Insertion.InsertIntoKeys` | src/RBTree.java:83-113 | the descent adds exactly `value`, keeps search-tree order (left when the node's key is larger, right otherwise), and returns true exactly when `value` was absent |
| `Insertion.BlackenKeepsShape` | src/RBTree.java:24 | painting the root black keeps black balance, and makes the tree left-leaning when only the top was at fault |
| `Insertion.GrownLeftStep` | src/RBTree.java:88-93 | rebalancing the parent after an insertion down its left link restores the invariants at the parent's level |
| `Insertion.GrownRightStep` | src/RBTree.java:102-106 | rebalancing the parent after an insertion down its right link restores the invariants at the parent's level |
| `Insertion.GrownShape` | src/RBTree.java:88-112 | what a link receives after the insertion is balanced with the same black height and left-leaning below its top, and fully left-leaning when the old subtree's top was not red |
| `Insertion.InsertKeepsInvariants` | src/RBTree.java:15-26 | `add` keeps search order, the left-leaning shape, black balance and a black root; it adds exactly `value` and returns true exactly when `value` was absent |
| `Insertion.InsertIntoPresent` | src/RBTree.java:84-112 | when the key is present, the descent and the passes along its path change nothing and return false |
| `Insertion.InsertDuplicate` | src/RBTree.java:22-25 | adding a present key returns false and leaves the tree identical |
| `Insertion.InsertIdempotent` | src/RBTree.java:15-26 | adding the same key twice gives the same tree as adding it once |
| `RedBlack.SearchTreeIffSorted` | src/RBTree.java:88-112 | search-tree order holds exactly when the in-order sequence is strictly increasing |
| `RedBlack.IsRed` | src/RBTree.java:206-208 | a null link is never red; a node is red exactly when its colour is Red (the `!= null` guards at src/RBTree.java:126-139 folded in) |
| `Heights.NodeHeight` | src/RBTree.java:53-61 | the height is 0 exactly for a null link, so every node counts at least itself; `Heights.NodeHeightIsLongest` shows it is the node count of a longest root-to-null path |
| `RedBlack.BlackHeight` | src/RBTree.java:68-75 | a black height always counts at least the null link |
| `Heights.LeftSpineBlack` | src/RBTree.java:68-75 | `getBlackHeight(Node)` is the black count, null link included, of the left-spine path |
| `Heights.BalancedIffUniform` | src/RBTree.java:32-36 | black balance holds exactly when every root-to-null path has the same black count as the left spine |
| `Heights.NodeHeightIsLongest` | src/RBTree.java:53-61 | `getTotalHeight(Node)` is the node count of a longest root-to-null path |
| `Heights.HeightWithinTwiceBlack` | src/RBTree.java:53-61 | in a left-leaning balanced tree the height is at most twice the black height |
| `Heights.KeysAtLeast` | src/RBTree.java:68-75 | a balanced search tree of black height h holds at least 2^(h-1) - 1 keys |
| `Heights.LogarithmicHeight` | src/RBTree.java:42-46 | a valid tree with n keys has 2^ceil(node height / 2) <= n + 1, so the node height is at most 2 log2(n + 1) and `getTotalHeight` at most 2 log2(n + 1) - 1 |

## Left out

- `src/Main.java`: it reads integers from standard input and prints the four query results after each one. That is input and output only.
- `Node.toString` (src/RBTree.java:238-244): string formatting only.
- Object identity and in-place mutation of `Node`: subtrees are values. Every Java node is reached through exactly one parent link, so rewiring links in place and building the rewired value give the same tree. Aliasing between nodes is not modelled.
- The uninitialised colour of a bare `new Node(value)` (src/RBTree.java:202-204): every node that `add` creates gets its colour at once.
- RBTreeModel.RBTree.Add: does not model the 32-bit wrap-around of `size++`; `size` is an unbounded `nat`. Keys are only compared, never combined, so `int` keys are exact.
- Java's 32-bit `int` results of the two height queries: they are unbounded naturals here.
