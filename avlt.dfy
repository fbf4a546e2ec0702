/**
 * The `avlt` container: a threaded AVL tree whose nodes live in an arena.
 *
 * The C++ class keeps heap-allocated NODE records reachable from `Root`;
 * here the records are the sequence `nodes`, a pointer is an index into it
 * and -1 is nullptr. The ghost field `tree` is the algebraic tree the
 * records store (see `Arena.Rep`); every public operation is specified by
 * the pure definitions of module `AvlTree` applied to it.
 */
module Avlt {
  import opened AvlTree
  import opened Arena

  class Avlt {
    var nodes: seq<NodeRec>
    var root: int
    var size: int
    var next: int
    ghost var tree: Tree
    /** The inorder position of the node `next` points to; the number of nodes when it is null. */
    ghost var pos: int

    /**
     * The class invariant: the records hold an ordered, balanced, threaded
     * tree and nothing else, `size` counts its nodes and `next` points to
     * the node at inorder position `pos`.
     */
    ghost predicate Valid()
      reads this
    {
      Stores(nodes, tree) && root == RootId(tree) && size == |Keys(tree)| &&
      0 <= pos <= |Ids(tree)| && next == (if pos < |Ids(tree)| then Ids(tree)[pos] else Null)
    }

    /** The ordered map the container holds. */
    ghost function Map(): (m: map<int, int>)
      reads this
      ensures m.Keys == KeySet(tree)
    {
      ToMap(tree)
    }

    /** Default constructor: an empty tree. */
    constructor ()
      ensures Valid() && tree == Nil && Map() == map[]
      ensures nodes == [] && root == Null && size == 0 && next == Null
    {
      nodes := [];
      root := Null;
      size := 0;
      next := Null;
      tree := Nil;
      pos := 0;
    }

    /** The keys an inorder traversal driven by `Next` has still to deliver. */
    ghost function Remaining(): (ks: seq<int>)
      requires Valid()
      reads this
      ensures |ks| == |Keys(tree)| - pos
    {
      Keys(tree)[pos..]
    }

    // -------------------------------------------------------------------
    // Rotations and insertion (the private helpers)
    // -------------------------------------------------------------------

    /**
     * `_rightRotate`: the left child `L` becomes the subtree root, its old
     * right subtree moves under `node`, and both cached heights are
     * recomputed. The cached height of `node` may be stale on entry.
     */
    method RightRotate(node: int, ghost t: Tree, ghost s: int) returns (q: int)
      requires t.Node? && t.left.Node? && node == t.id && DistinctIds(t)
      requires Links(nodes, t, s) && Rep(nodes, t.left, t.id) && Rep(nodes, t.right, s)
      modifies this`nodes
      ensures q == t.left.id
      ensures Rep(nodes, RotateRight(t), s)
      ensures Unchanged(old(nodes), nodes, {t.id, t.left.id}) && |nodes| == old(|nodes|)
    {
      ghost var a0 := nodes;
      var L := nodes[node].left;
      var B := ActualRight(nodes, L);
      var recL := nodes[L].(isThreaded := false, right := node);
      var recN := nodes[node].(left := B);
      recN := recN.(height := 1 + Max(GetHeight(nodes, B), GetHeight(nodes, ActualRight(nodes, node))));
      recL := recL.(height := 1 + Max(GetHeight(nodes, recL.left), recN.height));
      nodes := nodes[node := recN][L := recL];
      RotateRightRep(a0, nodes, t, s);
      q := L;
    }

    /**
     * `_leftRotate`: the real right child `R` becomes the subtree root and
     * its old left subtree moves under `node`; when that subtree is empty,
     * `node` gets a thread to `R`, its new inorder successor.
     */
    method LeftRotate(node: int, ghost t: Tree, ghost s: int) returns (q: int)
      requires t.Node? && t.right.Node? && node == t.id && DistinctIds(t)
      requires Links(nodes, t, s) && Rep(nodes, t.left, t.id) && Rep(nodes, t.right, s)
      modifies this`nodes
      ensures q == t.right.id
      ensures Rep(nodes, RotateLeft(t), s)
      ensures Unchanged(old(nodes), nodes, {t.id, t.right.id}) && |nodes| == old(|nodes|)
    {
      ghost var a0 := nodes;
      var R := ActualRight(nodes, node);
      var B := nodes[R].left;
      var recR := nodes[R].(left := node);
      var recN := nodes[node].(right := B);
      if B == Null {
        recN := recN.(right := R, isThreaded := true);
      }
      recN := recN.(height := 1 + Max(GetHeight(nodes, recN.left), GetHeight(nodes, B)));
      recR := recR.(height := 1 + Max(recN.height, GetHeight(nodes, ActualRight(nodes, R))));
      nodes := nodes[node := recN][R := recR];
      RotateLeftRep(a0, nodes, t, s);
      q := R;
    }

    /** Case 2 of `_insert`: rotate the left child left, then the node right. */
    method LeftRightRotate(node: int, ghost u: Tree, ghost s: int) returns (q: int)
      requires u.Node? && u.left.Node? && u.left.right.Node? && node == u.id
      requires Rep(nodes, u, s) && DistinctIds(u)
      modifies this`nodes
      ensures q == RotateRight(u.(left := RotateLeft(u.left))).id
      ensures Rep(nodes, RotateRight(u.(left := RotateLeft(u.left))), s)
      ensures Unchanged(old(nodes), nodes, IdSet(u)) && |nodes| == old(|nodes|)
    {
      ghost var a0 := nodes;
      ghost var u' := u.(left := RotateLeft(u.left));
      DistinctIffNoDuplicates(u);
      DistinctIffNoDuplicates(u');
      var l := LeftRotate(nodes[node].left, u.left, node);
      ghost var a1 := nodes;
      nodes := nodes[node := nodes[node].(left := l)];
      RepFrame(a1, nodes, {node}, u'.left, node);
      RepFrame(a0, nodes, IdSet(u.left) + {node}, u.right, s);
      ghost var a2 := nodes;
      q := RightRotate(node, u', s);
      UnchangedTrans(a0, a1, a2, {u.left.id, u.left.right.id}, {node}, IdSet(u));
      UnchangedTrans(a0, a2, nodes, IdSet(u), {node, l}, IdSet(u));
    }

    /** Case 3 of `_insert`: rotate the right child right, then the node left. */
    method RightLeftRotate(node: int, ghost u: Tree, ghost s: int) returns (q: int)
      requires u.Node? && u.right.Node? && u.right.left.Node? && node == u.id
      requires Rep(nodes, u, s) && DistinctIds(u)
      modifies this`nodes
      ensures q == RotateLeft(u.(right := RotateRight(u.right))).id
      ensures Rep(nodes, RotateLeft(u.(right := RotateRight(u.right))), s)
      ensures Unchanged(old(nodes), nodes, IdSet(u)) && |nodes| == old(|nodes|)
    {
      ghost var a0 := nodes;
      ghost var u' := u.(right := RotateRight(u.right));
      DistinctIffNoDuplicates(u);
      DistinctIffNoDuplicates(u');
      var r := RightRotate(nodes[node].right, u.right, s);
      ghost var a1 := nodes;
      nodes := nodes[node := nodes[node].(right := r)];
      RepFrame(a1, nodes, {node}, u'.right, s);
      RepFrame(a0, nodes, IdSet(u.right) + {node}, u.left, node);
      ghost var a2 := nodes;
      q := LeftRotate(node, u', s);
      UnchangedTrans(a0, a1, a2, {u.right.id, u.right.left.id}, {node}, IdSet(u));
      UnchangedTrans(a0, a2, nodes, IdSet(u), {node, r}, IdSet(u));
    }

    /**
     * The tail of `_insert`: with the cached height of `node` already
     * exact, compare the heights of its actual children and apply the
     * rotation case selected by the inserted key.
     */
    method RebalanceAt(node: int, key: int, ghost u: Tree, ghost s: int) returns (q: int)
      requires u.Node? && node == u.id && Rep(nodes, u, s) && DistinctIds(u) && RotationsDefined(u, key)
      modifies this`nodes
      ensures q == Rebalance(u, key).id
      ensures Rep(nodes, Rebalance(u, key), s)
      ensures Unchanged(old(nodes), nodes, IdSet(u)) && |nodes| == old(|nodes|)
      ensures size == old(size)
    {
      ghost var a0 := nodes;
      RootHeight(nodes, u.left, u.id);
      RootHeight(nodes, u.right, s);
      var heightDiff := GetHeight(nodes, nodes[node].left) - GetHeight(nodes, ActualRight(nodes, node));
      assert heightDiff == AvlTree.Height(u.left) - AvlTree.Height(u.right);
      if heightDiff > 1 && key < nodes[nodes[node].left].key {
        q := RightRotate(node, u, s);
      } else if heightDiff > 1 && key > nodes[nodes[node].left].key {
        q := LeftRightRotate(node, u, s);
      } else if heightDiff < -1 && key < nodes[nodes[node].right].key {
        q := RightLeftRotate(node, u, s);
      } else if heightDiff < -1 && key > nodes[nodes[node].right].key {
        q := LeftRotate(node, u, s);
      } else {
        q := node;
      }
    }

    /**
     * `_insert(node, key, value)` on the subtree `t` rooted at `node`, whose
     * last node threads to `s`. A new record is appended for an absent key
     * (with a null thread, which the caller patches); the returned index is
     * the root of the rebalanced subtree.
     */
    method InsertAt(node: int, key: int, value: int, ghost t: Tree, ghost s: int) returns (q: int, ghost t': Tree)
      requires Rep(nodes, t, s) && node == RootId(t) && Balanced(t) && DistinctIds(t)
      modifies this`nodes, this`size
      decreases t, 1
      ensures t' == AvlTree.Insert(t, key, value, old(|nodes|))
      ensures q == t'.id
      ensures Rep(nodes, t', if t.Nil? then Null else s)
      ensures Unchanged(old(nodes), nodes, IdSet(t))
      ensures |nodes| == old(|nodes|) + |Ids(t')| - |Ids(t)|
      ensures size == old(size) + |nodes| - old(|nodes|)
    {
      if node == Null {
        q := |nodes|;
        nodes := nodes + [NodeRec(key, value, Null, Null, true, 0)];
        size := size + 1;
        t' := Node(Nil, q, key, value, Nil);
      } else if key < nodes[node].key {
        q, t' := InsertLeft(node, key, value, t, s);
      } else if key > nodes[node].key {
        q, t' := InsertRight(node, key, value, t, s);
      } else {
        q, t' := node, t;
      }
    }

    /** The `key < node->Key` branch of `_insert`, then height update and rebalancing. */
    method InsertLeft(node: int, key: int, value: int, ghost t: Tree, ghost s: int) returns (q: int, ghost t': Tree)
      requires Rep(nodes, t, s) && t.Node? && node == t.id && key < t.key && Balanced(t) && DistinctIds(t)
      modifies this`nodes, this`size
      decreases t, 0
      ensures t' == AvlTree.Insert(t, key, value, old(|nodes|))
      ensures q == t'.id
      ensures Rep(nodes, t', s)
      ensures Unchanged(old(nodes), nodes, IdSet(t))
      ensures |nodes| == old(|nodes|) + |Ids(t')| - |Ids(t)|
      ensures size == old(size) + |nodes| - old(|nodes|)
    {
      ghost var a0 := nodes;
      var insertNode, l' := InsertAt(nodes[node].left, key, value, t.left, node);
      ghost var sz, n1 := size, |nodes|;
      AttachLeft(node, insertNode, t, s, l', a0);
      InsertBalanced(t.left, key, value, |a0|);
      GrowLeft(t, l', key);
      InsertFresh(a0, t, s, key, value);
      ghost var u, a4 := t.(left := l'), nodes;
      q := RebalanceAt(node, key, u, s);
      t' := Rebalance(u, key);
      UnchangedTrans(a0, a4, nodes, IdSet(t), IdSet(u), IdSet(t));
      assert size == sz && |nodes| == n1;
    }

    /**
     * The rest of the left branch: patch the thread of the returned root,
     * link it as the left child and recompute the cached height.
     */
    method AttachLeft(node: int, insertNode: int, ghost t: Tree, ghost s: int, ghost l': Tree, ghost a0: seq<NodeRec>)
      requires t.Node? && node == t.id && Rep(a0, t, s) && DistinctIds(t)
      requires l'.Node? && insertNode == l'.id && IdSet(l') <= IdSet(t.left) + {|a0|}
      requires t.left.Nil? ==> l'.left.Nil? && l'.right.Nil?
      requires Unchanged(a0, nodes, IdSet(t.left)) && Rep(nodes, l', if t.left.Nil? then Null else t.id)
      modifies this`nodes
      ensures Rep(nodes, t.(left := l'), s)
      ensures Unchanged(a0, nodes, IdSet(t)) && |nodes| == old(|nodes|)
      ensures size == old(size)
    {
      ghost var a1 := nodes;
      if nodes[insertNode].isThreaded {
        nodes := nodes[insertNode := nodes[insertNode].(right := node)];
      }
      ghost var a2 := nodes;
      nodes := nodes[node := nodes[node].(left := insertNode)];
      ghost var a3 := nodes;
      nodes := nodes[node := nodes[node].(height := 1 + Max(GetHeight(nodes, nodes[node].left), GetHeight(nodes, ActualRight(nodes, node))))];
      LinkLeft(a0, a1, a2, a3, nodes, t, s, l', |a0|);
    }

    /** The `key > node->Key` branch of `_insert`, then height update and rebalancing. */
    method InsertRight(node: int, key: int, value: int, ghost t: Tree, ghost s: int) returns (q: int, ghost t': Tree)
      requires Rep(nodes, t, s) && t.Node? && node == t.id && t.key < key && Balanced(t) && DistinctIds(t)
      modifies this`nodes, this`size
      decreases t, 0
      ensures t' == AvlTree.Insert(t, key, value, old(|nodes|))
      ensures q == t'.id
      ensures Rep(nodes, t', s)
      ensures Unchanged(old(nodes), nodes, IdSet(t))
      ensures |nodes| == old(|nodes|) + |Ids(t')| - |Ids(t)|
      ensures size == old(size) + |nodes| - old(|nodes|)
    {
      ghost var a0 := nodes;
      var insertNode, r' := InsertAt(ActualRight(nodes, node), key, value, t.right, s);
      ghost var sz, n1 := size, |nodes|;
      AttachRight(node, insertNode, t, s, r', a0);
      InsertBalanced(t.right, key, value, |a0|);
      GrowRight(t, r', key);
      InsertFresh(a0, t, s, key, value);
      ghost var u, a4 := t.(right := r'), nodes;
      q := RebalanceAt(node, key, u, s);
      t' := Rebalance(u, key);
      UnchangedTrans(a0, a4, nodes, IdSet(t), IdSet(u), IdSet(t));
      assert size == sz && |nodes| == n1;
    }

    /**
     * The rest of the right branch: when `node` had only a thread, hand it
     * to the new leaf; link the returned root as the real right child and
     * recompute the cached height.
     */
    method AttachRight(node: int, insertNode: int, ghost t: Tree, ghost s: int, ghost r': Tree, ghost a0: seq<NodeRec>)
      requires t.Node? && node == t.id && Rep(a0, t, s) && DistinctIds(t)
      requires r'.Node? && insertNode == r'.id && IdSet(r') <= IdSet(t.right) + {|a0|}
      requires t.right.Nil? ==> r'.left.Nil? && r'.right.Nil?
      requires Unchanged(a0, nodes, IdSet(t.right)) && Rep(nodes, r', if t.right.Nil? then Null else s)
      modifies this`nodes
      ensures Rep(nodes, t.(right := r'), s)
      ensures Unchanged(a0, nodes, IdSet(t)) && |nodes| == old(|nodes|)
      ensures size == old(size)
    {
      ghost var a1 := nodes;
      RepInRange(a0, t, s);
      if nodes[node].isThreaded {
        nodes := nodes[insertNode := nodes[insertNode].(right := nodes[node].right, isThreaded := true)];
        nodes := nodes[node := nodes[node].(isThreaded := false)];
      }
      ghost var a2 := nodes;
      nodes := nodes[node := nodes[node].(right := insertNode)];
      ghost var a3 := nodes;
      nodes := nodes[node := nodes[node].(height := 1 + Max(GetHeight(nodes, nodes[node].left), GetHeight(nodes, ActualRight(nodes, node))))];
      LinkRight(a0, a1, a2, a3, nodes, t, s, r', |a0|);
    }

    // -------------------------------------------------------------------
    // Copying
    // -------------------------------------------------------------------

    /**
     * `_copy`: appends a copy of the subtree `t` of arena `src` (children
     * first, then the node itself) and returns the new root and the copied
     * node that carries the outermost thread. That thread is left null; the
     * caller redirects it, as the node does for its left subtree.
     */
    method CopyTree(src: seq<NodeRec>, cur: int, ghost t: Tree, ghost s: int) returns (node: int, threadNode: int, ghost u: Tree)
      requires Rep(src, t, s) && cur == RootId(t)
      modifies this`nodes
      decreases t
      ensures Congruent(t, u) && DistinctIds(u) && Rep(nodes, u, Null)
      ensures node == RootId(u) && threadNode == (if u.Nil? then Null else LastId(u))
      ensures Unchanged(old(nodes), nodes, {})
      ensures (forall p :: p in IdSet(u) ==> old(|nodes|) <= p < |nodes|) && |nodes| == old(|nodes|) + |Ids(u)|
    {
      if cur == Null {
        return Null, Null, Nil;
      }
      ghost var a0 := nodes;
      var threadFromLeftNode, leftChild, rightChild;
      ghost var l, r;
      leftChild, threadFromLeftNode, l := CopyTree(src, src[cur].left, t.left, cur);
      ghost var a1 := nodes;
      rightChild, threadNode, r := CopyTree(src, ActualRight(src, cur), t.right, s);
      ghost var a2 := nodes;
      node := |nodes|;
      nodes := nodes + [NodeRec(src[cur].key, src[cur].value, leftChild, rightChild, src[cur].isThreaded, src[cur].height)];
      ghost var a3 := nodes;
      if threadFromLeftNode != Null {
        nodes := nodes[threadFromLeftNode := nodes[threadFromLeftNode].(right := node)];
      }
      if nodes[node].isThreaded {
        threadNode := node;
      }
      u := Node(l, node, t.key, t.value, r);
      CopyLink(src, a0, a1, a2, a3, nodes, t, s, l, r);
    }

    /**
     * The shared tail of copy construction and assignment: `Root =
     * _copy(other.Root, threadNode)` into an empty arena, `Size =
     * other.Size`, `Next = nullptr`.
     */
    method CopyFrom(src: seq<NodeRec>, srcRoot: int, srcSize: int, ghost t: Tree)
      requires Stores(src, t) && srcRoot == RootId(t) && srcSize == |Keys(t)| && nodes == []
      modifies this
      ensures Valid() && Congruent(t, tree) && ToMap(tree) == ToMap(t)
      ensures size == srcSize && next == Null
    {
      var r, u := CopyAll(src, srcRoot, t);
      root, tree, size, next, pos := r, u, srcSize, Null, |Ids(u)|;
    }

    /** `_copy` of a whole stored tree into an empty arena. */
    method CopyAll(src: seq<NodeRec>, srcRoot: int, ghost t: Tree) returns (r: int, ghost u: Tree)
      requires Stores(src, t) && srcRoot == RootId(t) && nodes == []
      modifies this`nodes
      ensures Stores(nodes, u) && r == RootId(u) && Congruent(t, u)
      ensures ToMap(u) == ToMap(t) && |Keys(u)| == |Keys(t)|
    {
      var threadNode;
      r, threadNode, u := CopyTree(src, srcRoot, t, Null);
      CopyStores(src, t, nodes, u);
    }

    /**
     * Copy constructor: an exact copy of `other`'s tree, same shape and
     * cached heights, without rotations; the cursor is reset.
     */
    constructor Copy(other: Avlt)
      requires other.Valid()
      ensures Valid() && Congruent(other.tree, tree) && Map() == other.Map()
      ensures size == other.size && next == Null
    {
      nodes := [];
      new;
      CopyFrom(other.nodes, other.root, other.size, other.tree);
    }

    /** `clear`: the tree becomes empty. */
    method Clear()
      modifies this
      ensures Valid() && tree == Nil && Map() == map[]
      ensures nodes == [] && root == Null && size == 0 && next == Null
    {
      nodes := [];
      root := Null;
      size := 0;
      next := Null;
      tree := Nil;
      pos := 0;
    }

    /**
     * `operator=`: clears this tree, then copies `other`. The clear comes
     * first, so assigning a tree to itself leaves it empty.
     */
    method Assign(other: Avlt)
      requires other.Valid()
      modifies this
      ensures Valid() && next == Null
      ensures other == this ==> tree == Nil && size == 0
      ensures other != this ==> Congruent(old(other.tree), tree) && Map() == old(other.Map()) && size == old(other.size)
    {
      Clear();
      CopyFrom(other.nodes, other.root, other.size, other.tree);
    }

    // -------------------------------------------------------------------
    // Queries
    // -------------------------------------------------------------------

    /** `size`: the number of nodes. */
    method Size() returns (n: int)
      requires Valid()
      ensures n == |Keys(tree)| && n == |Map()|
    {
      KeysCardinality(tree);
      n := size;
    }

    /** `height`: the cached height of the root, which is the height of the tree (-1 when empty). */
    method Height() returns (h: int)
      requires Valid()
      ensures h == AvlTree.Height(tree)
    {
      RootHeight(nodes, tree, Null);
      if root == Null {
        h := -1;
      } else {
        h := nodes[root].height;
      }
    }

    /** `search`: reports whether `key` is present and, if so, yields its value; otherwise `value0` is kept. */
    method Search(key: int, value0: int) returns (found: bool, value: int)
      requires Valid()
      ensures found <==> key in Map()
      ensures value == if found then Map()[key] else value0
    {
      var node := SearchFrom(nodes, root, key, tree, Null);
      Located(key);
      if node == Null {
        return false, value0;
      }
      found, value := true, nodes[node].value;
    }

    /** `operator[]`: the value of `key`, or `ValueT{}` when it is absent. */
    method Get(key: int) returns (value: int)
      requires Valid()
      ensures value == if key in Map() then Map()[key] else DefaultValue
    {
      var node := SearchFrom(nodes, root, key, tree, Null);
      Located(key);
      if node == Null {
        return DefaultValue;
      }
      value := nodes[node].value;
    }

    /**
     * `operator()`: the key the right pointer of `key`'s node leads to:
     * its real right child, or through the thread its inorder successor;
     * `KeyT{}` when the key is absent or it is the largest key.
     */
    method RightKey(key: int) returns (k: int)
      requires Valid()
      ensures var f := Find(tree, key);
        k == if f.Nil? then DefaultKey
             else if f.right.Node? then f.right.key
             else Successor(Keys(tree), key)
    {
      var node := SearchFrom(nodes, root, key, tree, Null);
      Located(key);
      if node != Null {
        ThreadOf(key);
      }
      if node == Null || nodes[node].right == Null {
        return DefaultKey;
      }
      k := nodes[nodes[node].right].key;
    }

    /** `operator%`: the cached height of `key`'s node, which is its subtree's height; -1 when absent. */
    method HeightOf(key: int) returns (h: int)
      requires Valid()
      ensures h == AvlTree.Height(Find(tree, key))
      ensures key !in Map() ==> h == -1
    {
      var node := SearchFrom(nodes, root, key, tree, Null);
      Located(key);
      if node == Null {
        return -1;
      }
      h := nodes[node].height;
    }

    /**
     * `_search` finds a node exactly when the key is present, and the
     * record it reaches stores the key, its value and the height of the
     * found subtree.
     */
    lemma Located(key: int)
      requires Valid()
      ensures var f := Find(tree, key);
        (f.Node? <==> key in Map()) &&
        (f.Node? ==> 0 <= f.id < |nodes| && nodes[f.id].key == key &&
                     nodes[f.id].value == Map()[key] && nodes[f.id].height == AvlTree.Height(f))
    {
      var f := Find(tree, key);
      if f.Node? {
        var ss, off := FindSub(tree, Null, key);
        SubOfRep(nodes, f, ss, off, tree, Null);
        FindValue(tree, key);
      }
    }

    /**
     * The right pointer of `key`'s node: a real child, or a thread to the
     * successor key, which is null exactly when `key` is the largest key.
     */
    lemma ThreadOf(key: int)
      requires Valid() && Find(tree, key).Node?
      ensures var f := Find(tree, key);
        0 <= f.id < |nodes| &&
        (f.right.Node? ==> nodes[f.id].right == f.right.id && 0 <= f.right.id < |nodes| && nodes[f.right.id].key == f.right.key)
      ensures var f := Find(tree, key);
        f.right.Nil? ==> (nodes[f.id].right == Null <==> KeysAtMost(tree, key))
      ensures var f := Find(tree, key);
        f.right.Nil? ==> nodes[f.id].right == Null ==> Successor(Keys(tree), key) == DefaultKey
      ensures var f := Find(tree, key);
        f.right.Nil? ==> nodes[f.id].right != Null ==>
          0 <= nodes[f.id].right < |nodes| && nodes[nodes[f.id].right].key == Successor(Keys(tree), key)
    {
      var f := Find(tree, key);
      var ss, off := FindSub(tree, Null, key);
      SubOfRep(nodes, f, ss, off, tree, Null);
      SubOfRoot(f, ss, off, tree, Null);
      var i := off + |Ids(f.left)|;
      var sub, ss' := ThreadStep(nodes, tree, Null, i);
      if i + 1 < |Ids(tree)| {
        KeyAt(nodes, tree, Null, i + 1);
      }
      OrderedIffIncreasing(tree);
      SuccessorAt(Keys(tree), i);
      ThreadNull(nodes, tree, i);
    }

    // -------------------------------------------------------------------
    // Inorder walks along the threads
    // -------------------------------------------------------------------

    /** Follows left links from the root of subtree `x` down to its first node in inorder. */
    method Leftmost(node: int, ghost t: Tree, ghost x: Tree, ghost xs: int, ghost off: int) returns (p: int)
      requires Rep(nodes, t, Null) && x.Node? && node == x.id && SubOf(x, xs, off, t, Null)
      ensures 0 <= off < |Ids(t)| && p == Ids(t)[off]
    {
      SubOfRep(nodes, x, xs, off, t, Null);
      p := node;
      ghost var y, ys := x, xs;
      while nodes[p].left != Null
        invariant y.Node? && p == y.id && SubOf(y, ys, off, t, Null) && Rep(nodes, y, ys)
        decreases y
      {
        SubOfChildren(y, ys, off, t, Null);
        p := nodes[p].left;
        y, ys := y.left, y.id;
      }
      SubOfRoot(y, ys, off, t, Null);
    }

    /** One step of an inorder walk: a thread leads to the successor directly, a real right child to its leftmost node. */
    method Advance(cur: int, ghost t: Tree, ghost j: int) returns (q: int)
      requires Rep(nodes, t, Null) && 0 <= j < |Ids(t)| && cur == Ids(t)[j]
      ensures q == if j + 1 < |Ids(t)| then Ids(t)[j + 1] else Null
    {
      ghost var sub, ss := ThreadStep(nodes, t, Null, j);
      if nodes[cur].isThreaded {
        q := nodes[cur].right;
      } else {
        q := Leftmost(nodes[cur].right, t, sub, ss, j + 1);
      }
    }

    /** `begin`: positions the cursor on the first key in order. */
    method Begin()
      requires Valid()
      modifies this`next, this`pos
      ensures Valid() && pos == 0 && Remaining() == Keys(tree)
      ensures tree.Nil? ==> next == old(next)
    {
      if root == Null {
        return;
      }
      next := Leftmost(root, tree, tree, Null, 0);
      pos := 0;
    }

    /**
     * `next`: yields the key under the cursor and advances it; false once
     * the traversal is over, leaving `key0` in place.
     */
    method Next(key0: int) returns (ok: bool, key: int)
      requires Valid()
      modifies this`next, this`pos
      ensures Valid()
      ensures ok <==> old(pos) < |Keys(tree)|
      ensures ok ==> key == Keys(tree)[old(pos)] && pos == old(pos) + 1
      ensures !ok ==> key == key0 && pos == old(pos) && next == old(next)
      ensures old(Remaining()) == if ok then [key] + Remaining() else []
    {
      if pos < |Ids(tree)| {
        KeyAt(nodes, tree, Null, pos);
      }
      if next == Null {
        return false, key0;
      }
      key := nodes[next].key;
      next := Advance(next, tree, pos);
      pos := pos + 1;
      ok := true;
    }

    /**
     * `range_search`: descends towards `lower`, starts from the node found
     * or from the last node visited, then follows the inorder walk while
     * keys do not exceed `upper`, collecting those within the bounds.
     */
    method RangeSearch(lower: int, upper: int) returns (keys: seq<int>)
      requires Valid()
      ensures keys == InRange(Keys(tree), lower, upper)
      ensures forall x :: x in keys <==> x in Map() && lower <= x <= upper
      ensures Increasing(keys)
    {
      var cur, start := StartOfRange(lower, tree);
      keys := Scan(cur, tree, start, lower, upper);
      OrderedIffIncreasing(tree);
      InRangeMembers(Keys(tree), lower, upper);
      InRangeIncreasing(Keys(tree), lower, upper);
      KeySetKeys(tree);
    }

    /**
     * The second loop of `range_search`: walks the in-order successors
     * from position `start`, collecting the keys within the bounds, until
     * it passes `upper` or runs off the end of the tree.
     */
    method Scan(cur: int, ghost t: Tree, ghost start: int, lower: int, upper: int) returns (keys: seq<int>)
      requires Rep(nodes, t, Null) && Ordered(t)
      requires 0 <= start <= |Ids(t)| && cur == (if start < |Ids(t)| then Ids(t)[start] else Null)
      requires forall m :: 0 <= m < start ==> Keys(t)[m] < lower
      ensures keys == InRange(Keys(t), lower, upper)
    {
      ghost var ks, ids := Keys(t), Ids(t);
      OrderedIffIncreasing(t);
      var p := cur;
      ghost var j := start;
      if j < |ids| {
        KeyAt(nodes, t, Null, j);
      }
      InRangeBelow(ks, j, lower, upper);
      keys := [];
      while p != Null && nodes[p].key <= upper
        invariant 0 <= j <= |ids| && p == (if j < |ids| then ids[j] else Null)
        invariant j < |ids| ==> 0 <= ids[j] < |nodes| && nodes[ids[j]].key == ks[j]
        invariant keys == InRange(ks[..j], lower, upper)
        decreases |ids| - j
      {
        var k := nodes[p].key;
        InRangeStep(ks, j, lower, upper);
        if k >= lower && k <= upper {
          keys := keys + [k];
        }
        p := Advance(p, t, j);
        j := j + 1;
        if j < |ids| {
          KeyAt(nodes, t, Null, j);
        }
      }
      if j < |ids| {
        InRangeAbove(ks, j, lower, upper);
      } else {
        assert ks[..j] == ks;
      }
    }

    /**
     * The first loop of `range_search`: the node holding `lower`, or else
     * the last node on the search path, which is the predecessor or the
     * successor of `lower`. Every key before the returned position is
     * below `lower`.
     */
    method StartOfRange(lower: int, ghost t: Tree) returns (cur: int, ghost start: int)
      requires Rep(nodes, t, Null) && Ordered(t) && root == RootId(t)
      ensures 0 <= start <= |Ids(t)| && cur == (if start < |Ids(t)| then Ids(t)[start] else Null)
      ensures forall m :: 0 <= m < start ==> Keys(t)[m] < lower
    {
      cur := root;
      var prev := Null;
      var found := false;
      ghost var x, xs, off, jp := t, Null, 0, 0;
      start := 0;
      while cur != Null
        invariant Descent(t, lower, x, xs, off, prev, jp)
        invariant cur == RootId(x) && (x.Nil? <==> cur == Null)
        invariant !found
        decreases |Ids(x)|
      {
        var hit, child;
        ghost var y, ys, o, j;
        hit, child, y, ys, o, j := Probe(lower, cur, t, x, xs, off, prev, jp);
        if hit {
          found := true;
          start := off + |Ids(x.left)|;
          break;
        }
        prev := cur;
        cur := child;
        x, xs, off, jp := y, ys, o, j;
      }
      if !found {
        DescendEnd(t, lower, xs, off, prev, jp);
        cur := prev;
        start := if prev == Null then |Ids(t)| else jp;
      }
    }

    /**
     * One turn of the first loop of `range_search` at the record `cur` of
     * subtree `x`: a hit when it holds `lower`, else a step to its left
     * child when `lower` is smaller and to its real right child otherwise.
     */
    method Probe(lower: int, cur: int, ghost t: Tree, ghost x: Tree, ghost xs: int, ghost off: int, ghost prev: int, ghost jp: int)
      returns (hit: bool, child: int, ghost y: Tree, ghost ys: int, ghost off': int, ghost jp': int)
      requires Rep(nodes, t, Null) && Ordered(t) && Descent(t, lower, x, xs, off, prev, jp)
      requires x.Node? && cur == RootId(x)
      ensures hit ==> (var i := off + |Ids(x.left)|;
        0 <= i < |Ids(t)| && Ids(t)[i] == cur && forall m :: 0 <= m < i ==> Keys(t)[m] < lower)
      ensures !hit ==> Descent(t, lower, y, ys, off', cur, jp') && |Ids(y)| < |Ids(x)|
      ensures !hit ==> child == RootId(y) && (y.Nil? <==> child == Null)
    {
      DescendRecord(nodes, t, x, xs, off);
      if lower == nodes[cur].key {
        DescendFound(t, lower, x, xs, off, prev, jp);
        hit, child := true, Null;
        y, ys, off', jp' := x, xs, off, jp;
      } else if lower < nodes[cur].key {
        DescendLeft(t, lower, x, xs, off, prev, jp);
        hit := false;
        child := nodes[cur].left;
        y, ys, off', jp' := x.left, x.id, off, off + |Ids(x.left)|;
      } else {
        DescendRight(t, lower, x, xs, off, prev, jp);
        hit := false;
        child := ActualRight(nodes, cur);
        y, ys, off', jp' := x.right, xs, off + |Ids(x.left)| + 1, off + |Ids(x.left)|;
      }
    }

    // -------------------------------------------------------------------
    // Insertion (the public operation)
    // -------------------------------------------------------------------

    /**
     * `insert`: adds `key` with `value` when the key is absent, keeping the
     * tree ordered and balanced; a present key leaves the tree unchanged.
     * The cursor keeps pointing to the same node.
     */
    method Insert(key: int, value: int)
      requires Valid()
      modifies this
      ensures Valid()
      ensures Map() == if key in old(Map()) then old(Map()) else old(Map())[key := value]
      ensures next == old(next)
      ensures tree == AvlTree.Insert(old(tree), key, value, old(|nodes|))
      ensures key in old(Map()) ==> nodes == old(nodes) && root == old(root) && tree == old(tree)
    {
      ghost var t0, n0 := tree, |nodes|;
      var q, t' := InsertRoot(key, value);
      assert t' == AvlTree.Insert(t0, key, value, n0);
      Install(q, t');
    }

    /** Makes the stored tree `t'` the current one, keeping the cursor on its node. */
    method Install(q: int, ghost t': Tree)
      requires Stores(nodes, t') && q == RootId(t') && size == |Keys(t')| && IdSet(tree) <= IdSet(t')
      requires 0 <= pos <= |Ids(tree)| && next == (if pos < |Ids(tree)| then Ids(tree)[pos] else Null)
      modifies this`root, this`tree, this`pos
      ensures Valid() && root == q && tree == t'
    {
      ghost var p := Relocate(tree, t', pos);
      root, tree, pos := q, t', p;
    }

    /** `_insert` called on the root, with what it does to the stored tree. */
    method InsertRoot(key: int, value: int) returns (q: int, ghost t': Tree)
      requires Valid()
      modifies this`nodes, this`size
      ensures t' == AvlTree.Insert(tree, key, value, old(|nodes|))
      ensures Stores(nodes, t') && q == RootId(t') && size == |Keys(t')| && IdSet(tree) <= IdSet(t')
      ensures ToMap(t') == if key in old(Map()) then old(Map()) else old(Map())[key := value]
      ensures key in old(Map()) ==> t' == tree && nodes == old(nodes)
    {
      ghost var a0 := nodes;
      q, t' := InsertAt(root, key, value, tree, Null);
      InsertStores(a0, nodes, tree, t', key, value);
      InsertMap(tree, key, value, |a0|);
    }
  }
}
