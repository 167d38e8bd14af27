# AVL search tree, binary tree, counting sort and binary search in Dafny

This project models four pieces of the C library that accompanies
*Mastering Algorithms with C*:

- the plain binary tree (`bitree`): nodes are inserted into an empty left or
  right slot, or at the root of an empty tree. Whole subtrees are removed
  post-order. Two trees merge under a new root;
- the AVL-balanced binary search tree (`bistree`) built on it. Every node
  carries an `AvlNode` envelope: the caller's data, a `hidden` flag and a
  balance factor. Insertion rebalances with LL/LR/RR/RL rotations. Removal is
  lazy and only hides the node. A hidden key is revived by inserting it again;
- counting sort over an `int` array (`ctsort`);
- iterative binary search over a sorted array (`bisearch`).

The modules are:

- `Optional`: the option type;
- `Comparator`: the three-valued comparison and sortedness;
- `BinaryTree` (bitree.dfy);
- `SearchTree` (bistree.dfy);
- `CountingSort` (ctsort.dfy);
- `BinarySearch` (bisearch.dfy).

How the trees are represented:

- The linked nodes of a tree are a datatype value, held in the `root` field of
  a class whose methods update it, together with `size` and the destroy
  callback.
- A `BiTreeNode *` argument is the path from the root to that node, and NULL
  is `None`.
- Writing a child slot through `BiTreeNode **` is `Graft`: replacing the
  subtree at a path.
- Every call of the destroy callback is appended to a ghost log `destroyed`.
- The recursive AVL helpers (`_insert`, `_hide`, `_lookup`, the rotations) work
  on subtrees as values and return the new subtree. `_insert`'s `*balanced`
  out-flag is a returned boolean.

The contents of a search tree are specified through `Items`, its in-order
sequence of entries (record and hidden flag). Three reference operations work
on that sequence:

- `FindEntry`: a linear scan for a key;
- `Upsert`: ordered insertion that replaces an entry with the same key;
- `MarkHidden`: hides the entry with a key.

The array algorithms work on Dafny arrays in place, with loop invariants. The
sort's result is proved equal to `Blocks`: each value of `[0, k)` in turn,
repeated as often as it occurs. Lemmas then prove that `Blocks` is sorted and
is a permutation of the input.

## Model

| member | source | states |
|---|---|---|
| BinaryTree.IsEob | includes/bitree.h:177 | a node marks the end of a branch exactly when no node is there (the subtree has no nodes) |
| BinaryTree.IsLeaf | includes/bitree.h:183 | a node is a leaf exactly when it is the only node of its subtree, i.e. both children are NULL |
| BinaryTree.GraftAt | src/bitree.c:65 | after writing a subtree into a slot, the slot holds exactly that subtree and is still reachable |
| BinaryTree.GraftSame | src/bitree.c:128 | writing back the subtree already in a slot changes nothing (the empty-slot case of removal) |
| BinaryTree.GraftSize | src/bitree.c:65-68 | replacing the subtree in a slot changes the node count by the new subtree's count minus the old one's |
| BinaryTree.PruneSteps | src/bitree.c:127-143 | emptying the left child slot, then the right one, then the slot itself, yields the tree with the whole subtree removed and its node count subtracted |
| BinaryTree.RemovalLog | src/bitree.c:129-136 | the destroy calls of one removal, first the left subtree's, then the right subtree's, then the node's own (each only when destroy is set), add up to the post-order of the removed subtree |
| BinaryTree.BiTree.constructor | src/bitree.c:13-21 | a freshly allocated tree set up as by `bitree_init`: size 0, NULL root, the given destroy callback, nothing destroyed |
| BinaryTree.BiTree.Init | src/bitree.c:13-21 | size 0, NULL root, the given destroy callback, nothing destroyed |
| BinaryTree.BiTree.Destroy | src/bitree.c:23-32 | every node removed, destroy called on their data in post-order when set, structure cleared |
| BinaryTree.BiTree.InsLeft | src/bitree.c:34-72 | -1 exactly when inserting at the root of a non-empty tree, into an occupied left slot, or when allocation fails, leaving the tree unchanged; otherwise 0 with one new leaf holding `data` at exactly that slot, size + 1, nothing else changed |
| BinaryTree.BiTree.InsRight | src/bitree.c:74-111 | the mirror image of InsLeft for the right slot |
| BinaryTree.BiTree.RemLeft | src/bitree.c:113-147 | the subtree in the left slot (the whole tree for NULL) is removed, the slot left NULL, size reduced by its node count, destroy called on each removed node's data once, post-order, only when set; nothing else changes |
| BinaryTree.BiTree.RemRight | src/bitree.c:149-184 | the mirror image of RemLeft for the right slot |
| BinaryTree.BiTree.RemoveAt | src/bitree.c:127-144 | the removal once the slot is known: both children removed first, then destroy on the node's data, then the slot emptied and size decremented |
| BinaryTree.BiTree.Merge | src/bitree.c:186-213 | -1 exactly when allocating the root fails (merge left empty, inputs untouched); otherwise a root holding `data` over the former left and right trees, size 1 + both sizes, destroy taken from left, and both inputs left with a NULL root and size 0 |
| Comparator.Compare | includes/bistree.h:40 | returns 1, 0 or -1 exactly when key1 is greater than, equal to or less than key2 |
| SearchTree.ShapeFixes | src/bistree.c:350 | trees with the same structure, keys and factors have the same keys, height, size, order and balance, so changing only data and hidden flags keeps the invariants |
| SearchTree.ItemsInKeys | src/bistree.c:232-329 | every key in the in-order sequence is a key of the tree |
| SearchTree.KeyPosition | src/bistree.c:232-329 | every key of the tree occurs in the in-order sequence, at the returned position |
| SearchTree.OrderedSides | src/bistree.c:232-329 | in a search-ordered tree, the left subtree's keys lie below the root's key and the right subtree's above it |
| SearchTree.ItemsAbsent | src/bistree.c:363-367 | a key not in the tree appears nowhere in its in-order sequence |
| SearchTree.OrderedItemsAscend | src/bistree.c:232-329 | the in-order sequence of a search-ordered tree is strictly ascending by key |
| SearchTree.FindEntryNone | src/bistree.c:395-399 | the scan finds nothing exactly when no entry has the key |
| SearchTree.FindEntryDescends | src/bistree.c:401-426 | in an ordered tree, descending by comparison (left when smaller, right when larger, this node when equal) finds the same entry as scanning the in-order sequence |
| SearchTree.UpsertAscending | src/bistree.c:209-357 | insertion into an ascending sequence keeps it ascending |
| SearchTree.UpsertFinds | src/bistree.c:209-357 | after insertion the inserted key has exactly the new entry and every other key keeps its entry |
| SearchTree.UpsertLength | includes/bistree.h:81-82 | on an ascending sequence, insertion adds one entry exactly when the key was absent and otherwise replaces one |
| SearchTree.UpsertReplaces | src/bistree.c:347-348 | inserting a key that is already there, after only smaller keys, replaces that entry in place |
| SearchTree.MarkHiddenNode | src/bistree.c:383-384 | hiding on a node's sequence is hiding on both subtrees plus on the node's own entry |
| SearchTree.MarkHiddenAbsent | src/bistree.c:363-367 | hiding a key that does not occur changes nothing |
| SearchTree.MarkHiddenFinds | src/bistree.c:381-385 | after hiding, the key's entry keeps its record and is hidden, and every other key's entry is unchanged |
| SearchTree.RotateLeft | src/bistree.c:15-73 | the LL rotation when the left child is left-heavy, the LR rotation otherwise, with the new factors of the old root and its left child taken from the grandchild's factor by `LrFactors` (src/bistree.c:43-64); the result is a node |
| SearchTree.RotateRight | src/bistree.c:75-131 | the RR rotation when the right child is right-heavy, the RL rotation otherwise, with the new factors of the old root and its right child taken from the grandchild's factor by `RlFactors` (src/bistree.c:103-122); the result is a node |
| SearchTree.SingleRotationItems | src/bistree.c:26-30 | a single rotation between two nodes keeps the in-order sequence |
| SearchTree.DoubleRotationItemsLeft | src/bistree.c:37-41 | the LR relinking keeps the in-order sequence |
| SearchTree.DoubleRotationItemsRight | src/bistree.c:97-101 | the RL relinking keeps the in-order sequence |
| SearchTree.RotateLeftKeepsItems | src/bistree.c:15-73 | the left rotation keeps the in-order sequence of entries |
| SearchTree.RotateRightKeepsItems | src/bistree.c:75-131 | the right rotation keeps the in-order sequence of entries |
| SearchTree.RotateLeftKeepsOrder | src/bistree.c:15-73 | the left rotation keeps the keys and the search order |
| SearchTree.RotateRightKeepsOrder | src/bistree.c:75-131 | the right rotation keeps the keys and the search order |
| SearchTree.RotateLeftRebalances | src/bistree.c:21-69 | when the left subtree is two levels higher and its root leans to one side, the LL/LR relinking and factor assignments leave every factor equal to the real height difference, within [-1, 1], and the subtree one level lower than the higher side made it |
| SearchTree.RotateRightRebalances | src/bistree.c:81-126 | the mirror image for RR/RL |
| SearchTree.GrowLeft | src/bistree.c:233-256 | once the left subtree has received the entry, the node over it is ordered, its keys gain the key and its in-order sequence is the insertion into the old one |
| SearchTree.GrowRight | src/bistree.c:281-304 | the mirror image for the right subtree |
| SearchTree.LeafInserted | src/bistree.c:220-227 | a fresh leaf (factor BALANCED, not hidden) is ordered and balanced, has height 1, and holds exactly the inserted entry |
| SearchTree.BalanceLeft | src/bistree.c:258-279 | the switch after an insertion into the left subtree: when the flag is already set the node comes back unchanged; otherwise the result has the same entries and keys, is ordered and AVL-balanced (every factor the real height difference), is one level higher exactly when the flag stays clear (and then leans to one side), and rotates at most once, only together with setting the flag |
| SearchTree.BalanceRight | src/bistree.c:306-328 | the mirror image of BalanceLeft |
| SearchTree.InsertNode | src/bistree.c:209-357 | 1 exactly when a visible node has the key; -1 exactly when the key is absent and allocation fails (subtree unchanged); 0 otherwise. On 0: the entries become the ordered insertion of the new visible entry, order and AVL balance hold, a hidden node is revived in place (same shape, old record handed to destroy, no rotation), or one node is added (height + 1 exactly when `*balanced` stays 0). At most one rotation |
| SearchTree.InsertLeft | src/bistree.c:233-280 | the same promise for the move-to-the-left branch |
| SearchTree.InsertRight | src/bistree.c:281-329 | the same promise for the move-to-the-right branch |
| SearchTree.HideNode | src/bistree.c:359-389 | 0 exactly when some node has the key (hidden already or not), -1 otherwise with the subtree unchanged; the key's entry becomes hidden, and structure, factors and order are unchanged |
| SearchTree.LookupNode | src/bistree.c:391-429 | 0 exactly when a node that is not hidden has the key, passing back its stored record; -1 with the probe unchanged for a hidden or absent key |
| SearchTree.BisTree.constructor | src/bistree.c:431-439 | a freshly allocated tree set up as by `bistree_init`: empty, ordered and balanced, with the given destroy callback |
| SearchTree.BisTree.Init | src/bistree.c:431-439 | an empty, ordered, balanced tree with the given destroy callback |
| SearchTree.BisTree.Destroy | src/bistree.c:441-450 | every node, hidden ones included, destroyed in post-order with destroy called once per record when set; size 0 and NULL root |
| SearchTree.BisTree.DestroyLeft | src/bistree.c:133-169 | the subtree in the left slot removed, size reduced by its node count, destroy called on each record post-order when set |
| SearchTree.BisTree.DestroyRight | src/bistree.c:171-207 | the mirror image of DestroyLeft |
| SearchTree.BisTree.DestroyAt | src/bistree.c:148-166 | both children destroyed first, then destroy on the node's record, then the slot emptied and size decremented |
| SearchTree.DestroyLog | src/bistree.c:150-157 | the destroy calls of one removal (left subtree's records, right subtree's, then the node's own record, only when destroy is set) add up to the post-order records of the removed subtree |
| SearchTree.BisTree.Insert | src/bistree.c:452-457 | the return codes of includes/bistree.h:81-82 in terms of the old contents; the contents become the ordered insertion of the new entry; size + 1 for a new key, unchanged for a revived one (whose old record is destroyed); order, balance and node count preserved |
| SearchTree.BisTree.Remove | src/bistree.c:459-462 | 0 exactly when the key is in the tree, and then its entry is hidden; size, shape, factors and the other entries unchanged |
| SearchTree.BisTree.Lookup | src/bistree.c:464-467 | 0 and the stored record exactly when a visible node has the key; otherwise -1 and the probe unchanged |
| CountingSort.BelowStep | src/ctsort.c:30-31 | the number of elements below v + 1 is the number below v plus the occurrences of v |
| CountingSort.BelowEnds | includes/sort.h:70 | for values in [0, k), no element is below 0 and all are below k |
| CountingSort.BlocksLength | src/ctsort.c:34-37 | the blocks of values v..k-1 fill exactly the positions between the running totals of v and k |
| CountingSort.BlocksAt | src/ctsort.c:34-37 | position i of the sorted result holds w exactly when i lies between the number of elements below w and below w + 1 |
| CountingSort.BlocksSorted | includes/sort.h:68 | the reference result is in ascending order |
| CountingSort.BlocksCount | src/ctsort.c:34-40 | the reference result holds each value of [v, k) as often as the input does, and nothing else |
| CountingSort.BlocksPermutation | src/ctsort.c:34-40 | for input values in [0, k), the reference result is a permutation of the input |
| CountingSort.TallyStep | src/ctsort.c:26-27 | counting one more element increments exactly its value's count |
| CountingSort.TallyTotals | src/ctsort.c:30 | on entry to the prefix loop (i = 1) the counts already are the running totals up to 0 |
| CountingSort.TotalsStep | src/ctsort.c:31 | adding counts[i - 1] to counts[i] turns the count of i into the number of elements up to i |
| CountingSort.CursorInside | src/ctsort.c:35 | the slot `counts[data[j]] - 1` lies inside the block of `data[j]`, within the output |
| CountingSort.CursorStep | src/ctsort.c:36 | decrementing `counts[data[j]]` is exactly the bookkeeping of having placed `data[j]` |
| CountingSort.PlacedStep | src/ctsort.c:35-36 | writing the value into its slot keeps every block filled from its count up to its end |
| CountingSort.FilledIsBlocks | src/ctsort.c:34-37 | once every element is placed, the output is the reference result |
| CountingSort.CountValues | src/ctsort.c:23-27 | after the counting loop, counts[v] is the number of occurrences of v |
| CountingSort.RunningTotals | src/ctsort.c:29-31 | after the prefix loop, counts[v] is the number of elements up to v |
| CountingSort.PlaceValues | src/ctsort.c:33-37 | after the placement loop, the output is the reference result |
| CountingSort.CopyBack | src/ctsort.c:40 | the first `size` elements are copied back and the rest of the array is untouched |
| CountingSort.CtSort | src/ctsort.c:6-46 | -1 exactly when allocation fails, leaving the data untouched; otherwise 0 with `data[0..size)` sorted ascending, a permutation of the original, equal to the reference result, and the rest of the array untouched |
| BinarySearch.BiSearch | src/bisearch.c:6-31 | the result is -1 or an index in [0, size) (always -1 when size <= 0); a non-negative result holds the target; on a sorted array, -1 means no element equals the target |

## Left out

- Memory management: `malloc` success is the `allocOk` parameter (one flag per operation, covering every allocation the C code makes there), and `free` is not modelled. `memset` on a freshly allocated counts array is its zero initialisation. The `memset` that clears a destroyed tree is the reset of size, root and callback.
- Function pointers: `compare` is the fixed comparison of module Comparator, on an integer key of the record. `destroy` is the flag `hasDestroy` plus the ghost log `destroyed`, and no callback code runs.
- Pointers and aliasing: a node pointer is a path from the root, and a tree is a value, so callers that keep node pointers across updates, and nodes shared between trees, are not captured. The rotations and `_insert` rewrite links in place in C; here they return the rebuilt subtree.
- SearchTree.InsertNode: the leak of the `AvlNode` envelope when `bitree_ins_left` or `bitree_ins_right` fails after the envelope was allocated (src/bistree.c:245-246, 293-294), and when `bitree_ins_left` fails in the empty-tree case (src/bistree.c:219-227) is not modelled. Both allocations are covered by the one `allocOk` flag.
- SearchTree.InsertNode: `_insert` is one function in C. The model splits it into InsertNode (the empty-tree case and the equal-key case), InsertLeft and InsertRight (the two descents), and BalanceLeft and BalanceRight (the two rebalancing switches). They are called in the same order.
- SearchTree.RotateLeft: the `default:` branches of the factor switches, which keep the old factors, are only reachable with a corrupt factor. The model keeps the old factors there too.
- CountingSort.CtSort: the three loops of `ctsort` are the helper methods CountValues, RunningTotals and PlaceValues, and the `memcpy` is CopyBack. CtSort calls them in the source's order.
- CountingSort.CtSort: `int` overflow of `k * sizeof(int)` and `size * sizeof(int)`, and what `malloc(0)` returns, are not modelled; they fall under `allocOk`.
- BinarySearch.BiSearch: does not model the 32-bit overflow of `left + right` (src/bisearch.c:14) for arrays of more than 2^30 elements; the model's integers are unbounded.
- BinarySearch.BiSearch: `esize` and the `char *` address arithmetic are not modelled. The array holds `int` values.
- SearchTree.BisTree: in C, `BisTree` is a typedef of `BiTree` (includes/bistree.h:32), and `bistree_init` calls `bitree_init` (src/bistree.c:435). The model declares `BisTree` as a class of its own over trees of `AvlNode` envelopes, with its own Init, DestroyLeft, DestroyRight and DestroyAt. There are two reasons. Its contracts carry the search-tree invariant (order and AVL balance) that the generic tree knows nothing of. Its destroy calls receive the record inside each envelope (src/bistree.c:153-157) rather than the envelope itself. The bistree functions' direct use of the generic tree's fields is therefore written out rather than shared. `PostOrderData` is defined as `PostOrder` with each envelope opened.
- The comparator's return type differs between the header (`void`, includes/bistree.h:54) and the implementation (`int`, src/bistree.c:431); the `int` version is modelled.
- src/rxsort.c is not part of this model: it computes digit positions with floating-point `pow` (src/rxsort.c:31), and its prefix loop starts at `i = 0`, reading `counts[-1]` (src/rxsort.c:40-41).
- The median and directory-listing demonstration programs, `src/main.c`, the other data structures whose headers declare interfaces here, and `includes/traverse.h` are not part of this model.

## Notes on the source

- `bistree_remove` on a key whose node is already hidden finds the node, marks it hidden again and returns 0 (src/bistree.c:381-385). The model follows the code: `Remove` returns 0 exactly when the key is in the tree, hidden or not.
- includes/bitree.h:143-144 says the merged inputs end up as if `bitree_destroy` had been called on them. The code only sets their root to NULL and their size to 0 and keeps their destroy callbacks (src/bitree.c:207-210). The model follows the code.
