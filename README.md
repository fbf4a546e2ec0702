# Threaded AVL tree (`avlt`) in Dafny

This project models `avlt<KeyT, ValueT>`, the threaded AVL tree of `avlt.h`, and proves
properties of the model. In the class, each key sits in a heap-allocated `NODE`. A node has a
left child and a right pointer. For a node with no real right child, `isThreaded` is set and the
right pointer is a *thread* to the node's inorder successor (nullptr for the largest key).
Every node caches the height of its subtree. Insertion rebalances with the four AVL rotation
cases. Copying clones the node graph in one post-order pass. Range search and the `begin`/`next`
cursor walk along the threads instead of using a stack.

The model has three modules, one per layer:

- `tree.dfy` (module `AvlTree`): the algebraic tree (`Tree`), with each node's arena index as
  its identity. It gives the reference definitions that the imperative code is proved
  against:
  - inorder `Keys`/`Ids`, `Height`, `Ordered`, `Balanced`, `ToMap`;
  - the rotations, `Rebalance` (the four cases of `_insert`) and `Insert`;
  - `Find` (`_search`), `Successor`, and `InRange` (the result of `range_search`).

  It proves that insertion keeps the tree ordered, balanced (AVL) and free of duplicates, and
  that it implements map insertion.
- `arena.dfy` (module `Arena`): the `NODE` record (`NodeRec`) and `Rep(a, t, s)`. That
  predicate says the arena `a` (a sequence of records; an index is a pointer, -1 is nullptr)
  stores the tree `t`:
  - keys, values and left links;
  - real right links;
  - exact cached heights;
  - on every node without a right child, `isThreaded` set and a thread to its inorder
    successor (`s` for the last node of the subtree).

  It proves the arena effect of each rotation, of the linking steps of `_insert` and of
  `_copy`, and that following a thread or a real right child's leftmost path reaches the next
  inorder node (`ThreadStep`).
- `avlt.dfy` (module `Avlt`): the class itself, with the fields `nodes` (the heap), `root`,
  `size`, `next` (the cursor) and the ghost `tree`. The methods are imperative and follow the
  C++ member functions statement by statement, loops included. Each is proved against the
  definitions of `AvlTree`, with the class invariant `Valid()`.

Keys and values are `int`. `KeyT{}` and `ValueT{}` are 0 (`DefaultKey`, `DefaultValue`).
`operator=` calls `clear()` before copying, and `clear()` sets `Root` to nullptr. So assigning
a tree to itself copies an empty tree and leaves it empty. `Assign` states this for `other ==
this`.

## Model

| member | source | states |
|---|---|---|
| `AvlTree.Max` | avlt.h:34-37 | the result is the larger of the two arguments |
| `AvlTree.Height` | avlt.h:27 | the height is -1 exactly for the empty tree and at least 0 otherwise |
| `AvlTree.RotateRight` | avlt.h:109-123 | a right rotation keeps the inorder keys and the inorder node order |
| `AvlTree.RotateLeft` | avlt.h:125-142 | a left rotation keeps the inorder keys and the inorder node order |
| `AvlTree.Rebalance` | avlt.h:182-203 | every one of the four rotation cases keeps the inorder keys and nodes |
| `AvlTree.Insert` | avlt.h:144-204 | after insertion the key set is the old one plus the key, and at most the one new node is added |
| `AvlTree.GrowLeft` | avlt.h:159-192 | after inserting on the left, with the subtree grown by at most one, the selected rotation yields a balanced tree at most one taller, leaning toward the new key when it grew |
| `AvlTree.GrowRight` | avlt.h:166-201 | mirror of `GrowLeft` for insertion on the right |
| `AvlTree.InsertBalanced` | avlt.h:144-204 | `_insert` keeps the AVL balance condition and raises the height by at most one |
| `AvlTree.InsertOrdered` | avlt.h:159-176 | `_insert` keeps the search-tree order |
| `AvlTree.InsertDistinct` | avlt.h:146-157 | the new node is distinct from every existing node |
| `AvlTree.InsertPresent` | avlt.h:177-178 | inserting a key that is present leaves the tree unchanged |
| `AvlTree.InsertSize` | avlt.h:155 | the node count grows by one exactly when the key was absent |
| `AvlTree.InsertNewId` | avlt.h:146-157 | an absent key gets the newly created node |
| `AvlTree.InsertShape` | avlt.h:414-416 | insertion keeps the tree ordered, balanced and duplicate-free; a present key changes nothing; an absent one adds one node |
| `AvlTree.KeysCardinality` | avlt.h:31 | in an ordered tree the number of nodes equals the number of distinct keys |
| `AvlTree.RotateRightMap` | avlt.h:109-123 | a right rotation keeps the key-to-value map |
| `AvlTree.RotateLeftMap` | avlt.h:125-142 | a left rotation keeps the key-to-value map |
| `AvlTree.RebalanceMap` | avlt.h:184-203 | rebalancing keeps the key-to-value map |
| `AvlTree.InsertMapLeft` | avlt.h:159-165 | insertion into the left subtree is map insertion on the whole tree |
| `AvlTree.InsertMapRight` | avlt.h:166-176 | insertion into the right subtree is map insertion on the whole tree |
| `AvlTree.InsertMap` | avlt.h:414-423 | `insert` adds the pair when the key is absent and leaves the map unchanged otherwise |
| `AvlTree.Find` | avlt.h:51-62 | the search result holds the key, and in an ordered tree it is found exactly when the key is present |
| `AvlTree.FindValue` | avlt.h:56-57 | the node found holds the value the map gives the key |
| `AvlTree.Successor` | avlt.h:444-452 | the key to the right is either the default key or a larger key of the tree |
| `AvlTree.SuccessorAt` | avlt.h:456-464 | in increasing keys the successor of position i is the key at i+1, or the default key after the last |
| `AvlTree.InRangeMembers` | avlt.h:345-347 | a key is returned exactly when it is in the tree and within [lower..upper] |
| `AvlTree.InRangeIncreasing` | avlt.h:387-406 | the returned keys are in increasing order |
| `AvlTree.InRangeStep` | avlt.h:389-390 | one scanned key is appended exactly when it lies within the bounds |
| `AvlTree.InRangeBelow` | avlt.h:363-385 | keys before the starting position, all below `lower`, contribute nothing |
| `AvlTree.InRangeAbove` | avlt.h:387 | in increasing keys, stopping at the first key above `upper` loses nothing |
| `AvlTree.CongruentShape` | avlt.h:238-240 | an exact copy has the same keys, heights, size and balance |
| `AvlTree.CongruentAgree` | avlt.h:238-240 | an exact copy holds the same map and is ordered exactly when the original is |
| `Arena.ActualChildren` | avlt.h:39-49 | in a stored tree, a node's left pointer and its actual right pointer (a thread counting as none) are its real children, and the node is threaded exactly when it has no right child |
| `Arena.RootHeight` | avlt.h:102-107 | the height cached at the root of a stored subtree is its true height |
| `Arena.HeightCache` | avlt.h:180 | every cached height is one more than the larger cached height of the actual children |
| `Arena.BalanceCache` | avlt.h:182 | in a balanced stored tree, every node's height difference is between -1 and 1 |
| `Arena.KeyAt` | avlt.h:20-28 | the record at a given inorder position holds the key at that position |
| `Arena.RepFrame` | avlt.h:109-142 | writes to records outside a subtree leave that subtree stored |
| `Arena.RotateRightRecords` | avlt.h:111-120 | the two records `_rightRotate` writes get their new links and recomputed heights; nothing else changes |
| `Arena.RotateRightRep` | avlt.h:109-123 | after `_rightRotate`'s writes the arena stores the rotated tree with the same outer thread |
| `Arena.RotateLeftRecords` | avlt.h:127-139 | the two records `_leftRotate` writes, including the new thread when the moved subtree is empty; nothing else changes |
| `Arena.RotateLeftRep` | avlt.h:125-142 | after `_leftRotate`'s writes the arena stores the rotated tree with the same outer thread |
| `Arena.ThreadStep` | avlt.h:538-545 | a threaded node points to the next inorder node (or the subtree's successor); an unthreaded one has a real right subtree that starts at the next inorder position |
| `Arena.ThreadNull` | avlt.h:460-463 | in a whole stored search tree, a threaded node's right pointer is null exactly when its key is the largest key |
| `Arena.Retarget` | avlt.h:94-95 | redirecting the thread of a subtree's last node makes it thread to the new successor |
| `Arena.SearchFrom` | avlt.h:51-62 | `_search` returns the node of the key in the stored tree, or null when absent |
| `Arena.DescendLeft` | avlt.h:371-375 | moving left keeps: every key before the subtree is below `lower`, and the last visited node is its successor |
| `Arena.DescendRight` | avlt.h:377-381 | moving right keeps the same facts, with the last visited node now the predecessor of the subtree |
| `Arena.DescendFound` | avlt.h:365-369 | at the node holding `lower`, every earlier key is below `lower` |
| `Arena.DescendEnd` | avlt.h:384-385 | when the descent runs off the tree, the last visited node sits at an inorder position before which every key is below `lower` (with no node visited, every key is below `lower`) |
| `Arena.CopyLink` | avlt.h:82-99 | one `_copy` step appends an exact copy of the subtree with fresh nodes and patches the left copy's thread to the new node |
| `Arena.CopyJoin` | avlt.h:86-97 | the new node with its copied subtrees and the patched thread stores the copied subtree |
| `Arena.CopyStores` | avlt.h:241-248 | a full copy stores a tree with the same map and keys as the source |
| `Arena.PatchLeft` | avlt.h:162-163 | the returned left subtree's thread is pointed at its parent |
| `Arena.PatchRight` | avlt.h:169-174 | a leaf hung where the node had a thread inherits that thread |
| `Arena.LinkLeft` | avlt.h:161-180 | after the left branch's writes the node stores its tree with the new left subtree |
| `Arena.LinkRight` | avlt.h:168-180 | after the right branch's writes the node stores its tree with the new right subtree |
| `Arena.InsertStores` | avlt.h:420-423 | after `_insert` at the root, the arena stores exactly the new tree, and a present key changes nothing |
| `Arena.Relocate` | avlt.h:32 | a node of the old tree still has an inorder position in the grown tree, and a cursor past the end stays past the end |
| `Avlt.Avlt.constructor` | avlt.h:228-233 | a new tree is empty, with null root and cursor and size 0 |
| `Avlt.Avlt.RightRotate` | avlt.h:109-123 | returns the left child as the new subtree root, and the arena stores the right-rotated subtree |
| `Avlt.Avlt.LeftRotate` | avlt.h:125-142 | returns the right child as the new subtree root, and the arena stores the left-rotated subtree |
| `Avlt.Avlt.LeftRightRotate` | avlt.h:188-192 | case 2: the arena stores the double-rotated subtree and its new root is returned |
| `Avlt.Avlt.RightLeftRotate` | avlt.h:194-198 | case 3: the arena stores the double-rotated subtree and its new root is returned |
| `Avlt.Avlt.RebalanceAt` | avlt.h:182-203 | the cached height difference selects the rotation case of `Rebalance` |
| `Avlt.Avlt.InsertAt` | avlt.h:144-204 | `_insert` on a stored subtree stores `Insert` of it; it appends one record exactly for an absent key and increments `Size` with it |
| `Avlt.Avlt.InsertLeft` | avlt.h:159-165 | the left branch followed by rebalancing stores `Insert` of the subtree |
| `Avlt.Avlt.AttachLeft` | avlt.h:161-164 | patching the thread and linking the left child stores the subtree with the new left child |
| `Avlt.Avlt.InsertRight` | avlt.h:166-176 | the right branch followed by rebalancing stores `Insert` of the subtree |
| `Avlt.Avlt.AttachRight` | avlt.h:168-175 | handing over the thread and linking the right child stores the subtree with the new right child |
| `Avlt.Avlt.CopyTree` | avlt.h:74-100 | `_copy` appends an exact copy (same shape, keys, values, heights) made of fresh records, and returns its root and the node whose thread the caller patches |
| `Avlt.Avlt.CopyAll` | avlt.h:246-247 | copying a whole stored tree into an empty arena stores an exact copy with the same map |
| `Avlt.Avlt.CopyFrom` | avlt.h:243-247 | the copied tree is valid, congruent to the source, holds the same map, and has the source's size and a null cursor |
| `Avlt.Avlt.Copy` | avlt.h:241-248 | the copy constructor yields a valid exact copy of `other` with the same map and size |
| `Avlt.Avlt.Clear` | avlt.h:287-293 | the tree becomes empty, with size 0 and a null cursor |
| `Avlt.Avlt.Assign` | avlt.h:270-280 | the tree becomes an exact copy of `other`; assigning a tree to itself empties it |
| `Avlt.Avlt.Size` | avlt.h:302-305 | the result is the number of nodes and of keys in the map |
| `Avlt.Avlt.Height` | avlt.h:314-320 | the result is the tree's height, -1 when empty |
| `Avlt.Avlt.Search` | avlt.h:331-340 | true exactly when the key is present, yielding its value; the value is left alone otherwise |
| `Avlt.Avlt.Get` | avlt.h:433-441 | the key's value, or the default value when absent |
| `Avlt.Avlt.RightKey` | avlt.h:456-464 | the key of the real right child, or through the thread the next larger key; the default key when absent or last |
| `Avlt.Avlt.HeightOf` | avlt.h:476-484 | the height of the key's subtree, -1 when absent |
| `Avlt.Avlt.Located` | avlt.h:51-62 | the search finds a node exactly for a present key, and that record holds the key, its value and its subtree's height |
| `Avlt.Avlt.ThreadOf` | avlt.h:460-463 | a node's right pointer leads to its right child or to its successor key, and a thread is null exactly when the key is the largest in the tree |
| `Avlt.Avlt.Leftmost` | avlt.h:506-508 | following left links from a subtree's root reaches the subtree's first inorder node |
| `Avlt.Avlt.Advance` | avlt.h:538-545 | one step of the walk goes from inorder position j to position j+1, or to null after the last node |
| `Avlt.Avlt.Begin` | avlt.h:502-509 | the cursor is on the first key, so the remaining traversal is all keys in order; an empty tree leaves the cursor alone |
| `Avlt.Avlt.Next` | avlt.h:531-547 | yields the key at the cursor and advances by one inorder position; false with nothing changed once the traversal is over |
| `Avlt.Avlt.RangeSearch` | avlt.h:356-409 | returns exactly the keys within [lower..upper], in increasing order |
| `Avlt.Avlt.Scan` | avlt.h:387-406 | the walk from the start position collects exactly the in-range keys of the whole tree |
| `Avlt.Avlt.StartOfRange` | avlt.h:360-385 | the start node is at an inorder position before which every key is below `lower` (null past the end) |
| `Avlt.Avlt.Probe` | avlt.h:365-381 | one descent step either stops at `lower` or moves to a strictly smaller subtree, keeping the descent invariant |
| `Avlt.Avlt.Insert` | avlt.h:420-423 | the new tree is exactly `AvlTree.Insert` of the old one (so its shape, heights and threads are determined); the map gains the pair exactly when the key was absent; the tree stays valid (ordered, balanced, threaded, sized) and the cursor stays on its node |
| `Avlt.Avlt.InsertRoot` | avlt.h:422 | `_insert` at the root stores exactly `AvlTree.Insert` of the current tree, with the updated map and size, and changes nothing for a present key |
| `Avlt.Avlt.Install` | avlt.h:422 | assigning the new root makes the stored tree current and keeps the cursor on the same node |

## Left out

- `_free`, the destructor, and the release of nodes in `clear` and `operator=`: the arena never
  frees records, so `Clear` starts from an empty arena and the old records are simply dropped.
  Memory ownership and leaks are not modelled.
- `_dump` and `dump`: they only write to an output stream. I/O is not modelled.
- The template parameters: keys and values are `int`, and `KeyT{}`/`ValueT{}` are 0.
  Comparisons are integer comparisons.
- `_max` and the `int` fields `Size` and `Height` are unbounded integers. A 32-bit overflow
  would need more than 2^31 nodes, so it is not modelled.
- The time-complexity claims (O(lg N) search and insert, O(lg N + M) range search) are not
  modelled.
- `range_search`'s stores to `flag` inside the scan loop (lines 395 and 400) are never read,
  and are left out.
- `range_search`'s `if(cur == nullptr) break;` (lines 401-402) cannot fire: a node with a real
  right child has a non-null `Right`, as `ThreadStep` shows. `Advance` therefore has no such
  branch.
- `range_search` assumes `lower <= upper`. The model needs no such precondition: for
  `lower > upper` it proves the result is empty, like the code.
- The reference parameters of `search` and `next` are modelled as an input (`value0`, `key0`)
  that is returned unchanged when nothing is found.
- `Avlt.Avlt.StartOfRange`: its contract states only that every key before the start position
  is below `lower`. It does not state that the start is `lower`'s node or its neighbour in key
  order. The scan's cost (the O(lg N + M) claim) depends on that, but the result of
  `range_search` does not.
- `Arena.DescendEnd`: like `StartOfRange`, it does not state that the last visited node is
  adjacent to `lower` in key order; it states only that every key before that node's inorder
  position is below `lower`.
