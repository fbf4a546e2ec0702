/**
 * The NODE records of the threaded tree and how an arena of them stores an
 * algebraic `Tree`.
 *
 * A pointer is an index into the arena; -1 plays the part of nullptr.
 * `Rep(a, t, s)` says that the records of `a` at the indices of `t` hold
 * exactly `t`: keys, values, cached heights, left links, real right links,
 * and, for every node without a real right child, `isThreaded` set and
 * `right` holding the thread. The thread of a node is its inorder
 * successor: inside a left subtree that is the parent, and the last node of
 * the whole subtree threads to `s`, the successor of the subtree itself
 * (-1 at the top, where the largest key has a null thread).
 */
module Arena {
  import opened AvlTree

  const Null: int := -1

  datatype NodeRec = NodeRec(key: int, value: int, left: int, right: int, isThreaded: bool, height: int)

  function RootId(t: Tree): (p: int)
    ensures t.Nil? ==> p == Null
    ensures t.Node? ==> p == t.id
  {
    if t.Nil? then Null else t.id
  }

  /** `_getActualRight`: a thread counts as no right child. */
  function ActualRight(a: seq<NodeRec>, p: int): (q: int)
    requires 0 <= p < |a|
    ensures a[p].isThreaded ==> q == Null
    ensures !a[p].isThreaded ==> q == a[p].right
  {
    if a[p].isThreaded then Null else a[p].right
  }

  /** `_getHeight`: the cached height, -1 for a null pointer. */
  function GetHeight(a: seq<NodeRec>, p: int): (h: int)
    ensures p == Null ==> h == -1
  {
    if 0 <= p < |a| then a[p].height else -1
  }

  /** The record of `t`'s root links to its children and, without a real right child, threads to `s`. */
  ghost predicate Links(a: seq<NodeRec>, t: Tree, s: int)
    requires t.Node?
  {
    0 <= t.id < |a| &&
    a[t.id].key == t.key && a[t.id].value == t.value &&
    a[t.id].left == RootId(t.left) &&
    a[t.id].isThreaded == t.right.Nil? &&
    a[t.id].right == (if t.right.Nil? then s else t.right.id)
  }

  /** Arena `a` stores `t`, whose last node threads to `s`; every cached height is exact. */
  ghost predicate Rep(a: seq<NodeRec>, t: Tree, s: int)
  {
    match t
    case Nil => true
    case Node(l, p, _, _, r) =>
      Links(a, t, s) && a[p].height == Height(t) && Rep(a, l, p) && Rep(a, r, s)
  }

  /** `b` agrees with `a` everywhere except at the indices in `changed`, and may be longer. */
  ghost predicate Unchanged(a: seq<NodeRec>, b: seq<NodeRec>, changed: set<int>)
  {
    |a| <= |b| && forall i :: 0 <= i < |a| && i !in changed ==> b[i] == a[i]
  }

  /** Two steps that each change only records in `ch` (or records added since) together change only those. */
  lemma UnchangedTrans(a: seq<NodeRec>, b: seq<NodeRec>, c: seq<NodeRec>, ch1: set<int>, ch2: set<int>, ch: set<int>)
    requires Unchanged(a, b, ch1) && Unchanged(b, c, ch2) && ch1 <= ch
    requires forall i :: i in ch2 && 0 <= i < |a| ==> i in ch
    ensures Unchanged(a, c, ch)
  {
  }

  /** Rewriting one record of an index in `ch`, or of a record added since, keeps "only `ch` changed". */
  lemma UnchangedWrite(a: seq<NodeRec>, b: seq<NodeRec>, ch: set<int>, i: int, r: NodeRec)
    requires Unchanged(a, b, ch) && (i in ch || i >= |a|) && 0 <= i < |b|
    ensures Unchanged(a, b[i := r], ch)
  {
  }

  lemma {:induction false} RepInRange(a: seq<NodeRec>, t: Tree, s: int)
    requires Rep(a, t, s)
    ensures forall p :: p in IdSet(t) ==> 0 <= p < |a|
  {
    match t
    case Nil =>
    case Node(l, p, _, _, r) =>
      RepInRange(a, l, p);
      RepInRange(a, r, s);
  }

  /** Records outside the tree may change freely. */
  lemma {:induction false} RepFrame(a: seq<NodeRec>, b: seq<NodeRec>, changed: set<int>, t: Tree, s: int)
    requires Rep(a, t, s) && Unchanged(a, b, changed) && IdSet(t) !! changed
    ensures Rep(b, t, s)
  {
    match t
    case Nil =>
    case Node(l, p, _, _, r) =>
      assert b[p] == a[p];
      RepFrame(a, b, changed, l, p);
      RepFrame(a, b, changed, r, s);
  }

  /** The tree fixes every field of every record it uses. */
  lemma {:induction false} RepDetermines(a: seq<NodeRec>, b: seq<NodeRec>, t: Tree, s: int)
    requires Rep(a, t, s) && Rep(b, t, s)
    ensures forall p :: p in IdSet(t) ==> 0 <= p < |a| && 0 <= p < |b| && a[p] == b[p]
  {
    match t
    case Nil =>
    case Node(l, p, _, _, r) =>
      RepDetermines(a, b, l, p);
      RepDetermines(a, b, r, s);
  }

  /** The record at in-order position `j` holds the `j`-th key. */
  lemma {:induction false} KeyAt(a: seq<NodeRec>, t: Tree, s: int, j: int)
    requires Rep(a, t, s) && 0 <= j < |Ids(t)|
    ensures 0 <= Ids(t)[j] < |a| && a[Ids(t)[j]].key == Keys(t)[j]
    decreases t
  {
    var Node(l, p, _, _, r) := t;
    var n := |Ids(l)|;
    if j < n {
      KeyAt(a, l, p, j);
      InorderLeft(t, j);
    } else if j == n {
      InorderRoot(t);
    } else {
      KeyAt(a, r, s, j - n - 1);
      InorderRight(t, j, j - n - 1);
    }
  }

  /** In a whole stored search tree, a thread is null exactly at the node with the largest key. */
  lemma ThreadNull(a: seq<NodeRec>, t: Tree, i: int)
    requires Rep(a, t, Null) && Ordered(t) && 0 <= i < |Ids(t)|
    ensures 0 <= Ids(t)[i] < |a|
    ensures a[Ids(t)[i]].isThreaded ==> (a[Ids(t)[i]].right == Null <==> KeysAtMost(t, Keys(t)[i]))
  {
    var sub, ss := ThreadStep(a, t, Null, i);
    var ks := Keys(t);
    assert Increasing(ks) by { OrderedIffIncreasing(t); }
    if i + 1 < |Ids(t)| {
      // the next key in order is larger, and the thread to it is not null
      KeyAt(a, t, Null, i + 1);
      assert ks[i + 1] in KeySet(t) by { KeySetKeys(t); }
      assert ks[i] < ks[i + 1];
    } else {
      forall x | x in KeySet(t) ensures x <= ks[i] {
        assert x in ks by { KeySetKeys(t); }
        LastKey(ks, i);
      }
    }
  }

  /** `_getActualLeft` and `_getActualRight` of a stored node are its real children; a thread counts as none. */
  lemma ActualChildren(a: seq<NodeRec>, t: Tree, s: int)
    requires Rep(a, t, s) && t.Node?
    ensures 0 <= t.id < |a|
    ensures a[t.id].left == RootId(t.left) && ActualRight(a, t.id) == RootId(t.right)
    ensures a[t.id].isThreaded <==> t.right.Nil?
  {
  }

  /** `_getHeight` of a subtree's root pointer is the subtree's height. */
  lemma RootHeight(a: seq<NodeRec>, t: Tree, s: int)
    requires Rep(a, t, s)
    ensures GetHeight(a, RootId(t)) == Height(t)
  {
  }

  /**
   * The arena side of `_rightRotate(p)`: `b` is `a` after the writes the
   * rotation makes to the records of `p` and of its left child `lp`.
   */
  lemma RotateRightRep(a: seq<NodeRec>, b: seq<NodeRec>, t: Tree, s: int)
    requires t.Node? && t.left.Node? && DistinctIds(t)
    requires Links(a, t, s) && Rep(a, t.left, t.id) && Rep(a, t.right, s)
    requires var p, lp := t.id, t.left.id;
      var recN := a[p].(left := ActualRight(a, lp),
                        height := 1 + Max(GetHeight(a, ActualRight(a, lp)), GetHeight(a, ActualRight(a, p))));
      var recL := a[lp].(isThreaded := false, right := p,
                         height := 1 + Max(GetHeight(a, a[lp].left), recN.height));
      b == a[p := recN][lp := recL]
    ensures Rep(b, RotateRight(t), s)
    ensures Unchanged(a, b, {t.id, t.left.id}) && |b| == |a|
  {
    var Node(Node(x, lp, lk, lv, y), p, k, v, z) := t;
    RotateRightRecords(a, b, t, s);
    RepFrame(a, b, {p, lp}, x, lp);
    RepFrame(a, b, {p, lp}, y, p);
    RepFrame(a, b, {p, lp}, z, s);
    assert Rep(b, Node(y, p, k, v, z), s);
    assert RotateRight(t) == Node(x, lp, lk, lv, Node(y, p, k, v, z));
  }

  /** The two records `_rightRotate` rewrites, in terms of the tree; no other record changes. */
  lemma RotateRightRecords(a: seq<NodeRec>, b: seq<NodeRec>, t: Tree, s: int)
    requires t.Node? && t.left.Node? && DistinctIds(t)
    requires Links(a, t, s) && Rep(a, t.left, t.id) && Rep(a, t.right, s)
    requires var p, lp := t.id, t.left.id;
      var recN := a[p].(left := ActualRight(a, lp),
                        height := 1 + Max(GetHeight(a, ActualRight(a, lp)), GetHeight(a, ActualRight(a, p))));
      var recL := a[lp].(isThreaded := false, right := p,
                         height := 1 + Max(GetHeight(a, a[lp].left), recN.height));
      b == a[p := recN][lp := recL]
    ensures |b| == |a| && Unchanged(a, b, {t.id, t.left.id})
    ensures var x, y, z := t.left.left, t.left.right, t.right;
      b[t.id] == NodeRec(t.key, t.value, RootId(y), a[t.id].right, a[t.id].isThreaded, 1 + Max(Height(y), Height(z))) &&
      b[t.left.id] == NodeRec(t.left.key, t.left.value, RootId(x), t.id, false, 1 + Max(Height(x), 1 + Max(Height(y), Height(z))))
    ensures IdSet(t.left.left) !! {t.id, t.left.id} && IdSet(t.left.right) !! {t.id, t.left.id} && IdSet(t.right) !! {t.id, t.left.id}
  {
    var Node(Node(x, lp, lk, lv, y), p, k, v, z) := t;
    assert lp in IdSet(t.left) && p != lp;
    RootHeight(a, x, lp);
    RootHeight(a, y, p);
    RootHeight(a, z, s);
  }

  /**
   * The arena side of `_leftRotate(p)`: `b` is `a` after the writes the
   * rotation makes to the records of `p` and of its real right child `rp`.
   */
  lemma RotateLeftRep(a: seq<NodeRec>, b: seq<NodeRec>, t: Tree, s: int)
    requires t.Node? && t.right.Node? && DistinctIds(t)
    requires Links(a, t, s) && Rep(a, t.left, t.id) && Rep(a, t.right, s)
    requires var p, rp := t.id, t.right.id;
      var y := a[rp].left;
      var recN := if y == Null then a[p].(right := rp, isThreaded := true) else a[p].(right := y);
      var recN' := recN.(height := 1 + Max(GetHeight(a, recN.left), GetHeight(a, y)));
      var recR := a[rp].(left := p, height := 1 + Max(recN'.height, GetHeight(a, ActualRight(a, rp))));
      b == a[p := recN'][rp := recR]
    ensures Rep(b, RotateLeft(t), s)
    ensures Unchanged(a, b, {t.id, t.right.id}) && |b| == |a|
  {
    var Node(x, p, k, v, Node(y, rp, rk, rv, z)) := t;
    RotateLeftRecords(a, b, t, s);
    RepFrame(a, b, {p, rp}, x, p);
    RepFrame(a, b, {p, rp}, y, rp);
    RepFrame(a, b, {p, rp}, z, s);
    assert Rep(b, Node(x, p, k, v, y), rp);
    assert RotateLeft(t) == Node(Node(x, p, k, v, y), rp, rk, rv, z);
  }

  /** The two records `_leftRotate` rewrites, in terms of the tree; no other record changes. */
  lemma RotateLeftRecords(a: seq<NodeRec>, b: seq<NodeRec>, t: Tree, s: int)
    requires t.Node? && t.right.Node? && DistinctIds(t)
    requires Links(a, t, s) && Rep(a, t.left, t.id) && Rep(a, t.right, s)
    requires var p, rp := t.id, t.right.id;
      var y := a[rp].left;
      var recN := if y == Null then a[p].(right := rp, isThreaded := true) else a[p].(right := y);
      var recN' := recN.(height := 1 + Max(GetHeight(a, recN.left), GetHeight(a, y)));
      var recR := a[rp].(left := p, height := 1 + Max(recN'.height, GetHeight(a, ActualRight(a, rp))));
      b == a[p := recN'][rp := recR]
    ensures |b| == |a| && Unchanged(a, b, {t.id, t.right.id})
    ensures var x, y, z := t.left, t.right.left, t.right.right;
      b[t.id] == NodeRec(t.key, t.value, RootId(x), if y.Nil? then t.right.id else y.id, y.Nil?, 1 + Max(Height(x), Height(y))) &&
      b[t.right.id] == NodeRec(t.right.key, t.right.value, t.id, a[t.right.id].right, a[t.right.id].isThreaded,
                               1 + Max(1 + Max(Height(x), Height(y)), Height(z)))
    ensures IdSet(t.left) !! {t.id, t.right.id} && IdSet(t.right.left) !! {t.id, t.right.id} && IdSet(t.right.right) !! {t.id, t.right.id}
  {
    var Node(x, p, k, v, Node(y, rp, rk, rv, z)) := t;
    assert rp in IdSet(t.right) && p != rp;
    RootHeight(a, x, p);
    RootHeight(a, y, rp);
    RootHeight(a, z, s);
  }

  /** Every cached height is one more than the larger cached height of the actual children (-1 for none). */
  lemma {:induction false} HeightCache(a: seq<NodeRec>, t: Tree, s: int)
    requires Rep(a, t, s)
    ensures forall p :: p in IdSet(t) ==>
      0 <= p < |a| && a[p].height == 1 + Max(GetHeight(a, a[p].left), GetHeight(a, ActualRight(a, p)))
  {
    match t
    case Nil =>
    case Node(l, p, _, _, r) =>
      HeightCache(a, l, p);
      HeightCache(a, r, s);
  }

  /** In a balanced tree the actual children of every record differ in cached height by at most one. */
  lemma {:induction false} BalanceCache(a: seq<NodeRec>, t: Tree, s: int)
    requires Rep(a, t, s) && Balanced(t)
    ensures forall p :: p in IdSet(t) ==>
      0 <= p < |a| && -1 <= GetHeight(a, a[p].left) - GetHeight(a, ActualRight(a, p)) <= 1
  {
    match t
    case Nil =>
    case Node(l, p, _, _, r) =>
      BalanceCache(a, l, p);
      BalanceCache(a, r, s);
  }

  // ---------------------------------------------------------------------
  // Subtrees, inorder positions and threads
  // ---------------------------------------------------------------------

  /** `sub` occurs in `t` at inorder offset `off`, and its last node threads to `ss`. */
  ghost predicate SubOf(sub: Tree, ss: int, off: int, t: Tree, s: int)
    decreases t
  {
    (sub == t && ss == s && off == 0) ||
    (t.Node? &&
     (SubOf(sub, ss, off, t.left, t.id) ||
      SubOf(sub, ss, off - |Ids(t.left)| - 1, t.right, s)))
  }

  /** A subtree is stored by the same arena, and its nodes are nodes of the whole tree. */
  lemma {:induction false} SubOfRep(a: seq<NodeRec>, sub: Tree, ss: int, off: int, t: Tree, s: int)
    requires Rep(a, t, s) && SubOf(sub, ss, off, t, s)
    ensures Rep(a, sub, ss)
    ensures IdSet(sub) <= IdSet(t)
    decreases t
  {
    if sub == t && ss == s && off == 0 {
    } else if SubOf(sub, ss, off, t.left, t.id) {
      SubOfRep(a, sub, ss, off, t.left, t.id);
    } else {
      SubOfRep(a, sub, ss, off - |Ids(t.left)| - 1, t.right, s);
    }
  }

  /** Inorder position `i` of the left subtree is position `i` of the tree. */
  lemma InorderLeft(t: Tree, i: int)
    requires t.Node? && 0 <= i < |Ids(t.left)|
    ensures Ids(t)[i] == Ids(t.left)[i] && Keys(t)[i] == Keys(t.left)[i]
  {
    var Node(l, p, k, _, r) := t;
    assert Ids(t)[i] == (Ids(l) + [p])[i] && Keys(t)[i] == (Keys(l) + [k])[i];
  }

  /** The root sits at the inorder position after its left subtree. */
  lemma InorderRoot(t: Tree)
    requires t.Node?
    ensures |Ids(t.left)| < |Ids(t)|
    ensures Ids(t)[|Ids(t.left)|] == t.id && Keys(t)[|Ids(t.left)|] == t.key
  {
    var Node(l, p, k, _, r) := t;
    var i := |Ids(l)|;
    assert Ids(t)[i] == (Ids(l) + [p])[i] && Keys(t)[i] == (Keys(l) + [k])[i];
  }

  /** Position `j` of the right subtree is inorder position `i = |Ids(t.left)| + 1 + j` of the tree. */
  lemma InorderRight(t: Tree, i: int, j: int)
    requires t.Node? && 0 <= j < |Ids(t.right)| && i == |Ids(t.left)| + 1 + j
    ensures 0 <= i < |Ids(t)|
    ensures Ids(t)[i] == Ids(t.right)[j] && Keys(t)[i] == Keys(t.right)[j]
  {
    var Node(l, p, k, _, r) := t;
    var li, lk := Ids(l) + [p], Keys(l) + [k];
    assert |li| == |lk| == i - j;
    assert Ids(t)[i] == (li + Ids(r))[i] == Ids(r)[j];
    assert Keys(t)[i] == (lk + Keys(r))[i] == Keys(r)[j];
  }

  /**
   * The root of a subtree sits at inorder position offset + size of its
   * left subtree, with its id and its key there.
   */
  lemma SubOfRoot(sub: Tree, ss: int, off: int, t: Tree, s: int)
    requires SubOf(sub, ss, off, t, s) && sub.Node?
    ensures 0 <= off + |Ids(sub.left)| < |Ids(t)|
    ensures Ids(t)[off + |Ids(sub.left)|] == sub.id && Keys(t)[off + |Ids(sub.left)|] == sub.key
  {
    SubOfRootId(sub, ss, off, t, s);
    SubOfRootKey(sub, ss, off, t, s);
  }

  lemma {:induction false} SubOfRootId(sub: Tree, ss: int, off: int, t: Tree, s: int)
    requires SubOf(sub, ss, off, t, s) && sub.Node?
    ensures 0 <= off + |Ids(sub.left)| < |Ids(t)| && Ids(t)[off + |Ids(sub.left)|] == sub.id
    decreases t
  {
    var Node(l, p, _, _, r) := t;
    var i := off + |Ids(sub.left)|;
    if sub == t && ss == s && off == 0 {
      InorderRoot(t);
    } else if SubOf(sub, ss, off, l, p) {
      SubOfRootId(sub, ss, off, l, p);
      InorderLeft(t, i);
    } else {
      var o := off - |Ids(l)| - 1;
      SubOfRootId(sub, ss, o, r, s);
      InorderRight(t, i, o + |Ids(sub.left)|);
    }
  }

  lemma {:induction false} SubOfRootKey(sub: Tree, ss: int, off: int, t: Tree, s: int)
    requires SubOf(sub, ss, off, t, s) && sub.Node?
    ensures 0 <= off + |Ids(sub.left)| < |Keys(t)| && Keys(t)[off + |Ids(sub.left)|] == sub.key
    decreases t
  {
    var Node(l, p, _, _, r) := t;
    var i := off + |Ids(sub.left)|;
    if sub == t && ss == s && off == 0 {
      InorderRoot(t);
    } else if SubOf(sub, ss, off, l, p) {
      SubOfRootKey(sub, ss, off, l, p);
      InorderLeft(t, i);
    } else {
      var o := off - |Ids(l)| - 1;
      SubOfRootKey(sub, ss, o, r, s);
      InorderRight(t, i, o + |Ids(sub.left)|);
    }
  }

  lemma {:induction false} SubOfTrans(x: Tree, xs: int, o1: int, sub: Tree, ss: int, o2: int, t: Tree, s: int)
    requires SubOf(x, xs, o1, sub, ss) && SubOf(sub, ss, o2, t, s)
    ensures SubOf(x, xs, o1 + o2, t, s)
    decreases t
  {
    if sub == t && ss == s && o2 == 0 {
    } else if SubOf(sub, ss, o2, t.left, t.id) {
      SubOfTrans(x, xs, o1, sub, ss, o2, t.left, t.id);
    } else {
      SubOfTrans(x, xs, o1, sub, ss, o2 - |Ids(t.left)| - 1, t.right, s);
    }
  }

  /** The children of a subtree are subtrees, at the offsets inorder gives them. */
  lemma SubOfChildren(sub: Tree, ss: int, off: int, t: Tree, s: int)
    requires SubOf(sub, ss, off, t, s) && sub.Node?
    ensures SubOf(sub.left, sub.id, off, t, s)
    ensures SubOf(sub.right, ss, off + |Ids(sub.left)| + 1, t, s)
  {
    assert SubOf(sub.left, sub.id, 0, sub, ss);
    SubOfTrans(sub.left, sub.id, 0, sub, ss, off, t, s);
    assert SubOf(sub.right, ss, 0, sub.right, ss);
    assert SubOf(sub.right, ss, |Ids(sub.left)| + 1, sub, ss);
    SubOfTrans(sub.right, ss, |Ids(sub.left)| + 1, sub, ss, off, t, s);
  }

  /**
   * Where the right pointer of the node at inorder position `i` leads: a
   * thread goes to the node at position `i + 1` (to `s` after the last
   * one); a real right child is the root of a subtree that starts at
   * position `i + 1`, whose leftmost node is therefore the successor.
   */
  lemma {:induction false} ThreadStep(a: seq<NodeRec>, t: Tree, s: int, i: int) returns (sub: Tree, ss: int)
    requires Rep(a, t, s) && 0 <= i < |Ids(t)|
    ensures 0 <= Ids(t)[i] < |a|
    ensures var p := Ids(t)[i];
      a[p].isThreaded ==> a[p].right == (if i + 1 < |Ids(t)| then Ids(t)[i + 1] else s)
    ensures var p := Ids(t)[i];
      !a[p].isThreaded ==> sub.Node? && a[p].right == sub.id && SubOf(sub, ss, i + 1, t, s)
  {
    var Node(l, p, _, _, r) := t;
    var n := |Ids(l)|;
    if i < n {
      sub, ss := ThreadStep(a, l, p, i);
      assert Ids(t)[i] == Ids(l)[i];
      if i + 1 < n {
        assert Ids(t)[i + 1] == Ids(l)[i + 1];
      } else {
        assert Ids(t)[i + 1] == p;
      }
    } else if i == n {
      assert Ids(t)[i] == p;
      sub, ss := r, s;
      assert SubOf(r, s, 0, r, s);
    } else {
      sub, ss := ThreadStep(a, r, s, i - n - 1);
      assert Ids(t)[i] == Ids(r)[i - n - 1];
      if i + 1 < |Ids(t)| {
        assert Ids(t)[i + 1] == Ids(r)[i - n];
      }
    }
  }

  /** The index of the last node in inorder; it has no real right child. */
  function LastId(t: Tree): (p: int)
    requires t.Node?
    ensures p in IdSet(t)
    ensures |Ids(t)| > 0 && p == Ids(t)[|Ids(t)| - 1]
  {
    if t.right.Nil? then t.id else LastId(t.right)
  }

  /** Redirecting the thread of the last node re-targets the whole subtree. */
  lemma {:induction false} Retarget(a: seq<NodeRec>, t: Tree, s: int, s': int)
    requires Rep(a, t, s) && t.Node? && DistinctIds(t)
    ensures 0 <= LastId(t) < |a|
    ensures Rep(a[LastId(t) := a[LastId(t)].(right := s')], t, s')
  {
    var q := LastId(t);
    RepInRange(a, t, s);
    var b := a[q := a[q].(right := s')];
    var Node(l, p, _, _, r) := t;
    if r.Nil? {
      RepFrame(a, b, {q}, l, p);
    } else {
      Retarget(a, r, s, s');
      RepFrame(a, b, {q}, l, p);
    }
  }

  // ---------------------------------------------------------------------
  // Point lookup
  // ---------------------------------------------------------------------

  /** `_search`: descend by key, treating a thread as no right child. */
  function SearchFrom(a: seq<NodeRec>, cur: int, k: int, ghost t: Tree, ghost s: int): (r: int)
    requires Rep(a, t, s) && cur == RootId(t)
    ensures r == RootId(Find(t, k))
    decreases t
  {
    if cur == Null then Null
    else if a[cur].key == k then cur
    else if a[cur].key < k then SearchFrom(a, ActualRight(a, cur), k, t.right, s)
    else SearchFrom(a, a[cur].left, k, t.left, cur)
  }

  /**
   * The state of a descent by key from the root towards `lower`: `x` is
   * the subtree still to search, at inorder offset `off`, and every key
   * before `off` is below `lower`; `prev` is the last record visited
   * (`Null` before the first step), at inorder position `jp` just before
   * or just after `x`.
   */
  ghost predicate Descent(t: Tree, lower: int, x: Tree, xs: int, off: int, prev: int, jp: int)
  {
    SubOf(x, xs, off, t, Null) && 0 <= off <= |Ids(t)| &&
    (forall m :: 0 <= m < off ==> Keys(t)[m] < lower) &&
    (prev == Null ==> x == t && off == 0) &&
    (prev != Null ==> 0 <= jp < |Ids(t)| && Ids(t)[jp] == prev && (jp == off - 1 || jp == off + |Ids(x)|))
  }

  /** The record of a subtree root reached by a descent holds its key and links. */
  lemma DescendRecord(a: seq<NodeRec>, t: Tree, x: Tree, xs: int, off: int)
    requires Rep(a, t, Null) && SubOf(x, xs, off, t, Null) && x.Node?
    ensures 0 <= x.id < |a| && a[x.id].key == x.key && RootId(x) == x.id
    ensures a[x.id].left == RootId(x.left) && ActualRight(a, x.id) == RootId(x.right)
    ensures (x.left.Nil? <==> RootId(x.left) == Null) && (x.right.Nil? <==> RootId(x.right) == Null)
  {
    SubOfRep(a, x, xs, off, t, Null);
    RepInRange(a, x, xs);
  }

  /** Stepping left from a root whose key is above `lower`. */
  lemma DescendLeft(t: Tree, lower: int, x: Tree, xs: int, off: int, prev: int, jp: int)
    requires Descent(t, lower, x, xs, off, prev, jp) && x.Node? && x.id != Null && lower < x.key
    ensures Descent(t, lower, x.left, x.id, off, x.id, off + |Ids(x.left)|)
  {
    SubOfRoot(x, xs, off, t, Null);
    SubOfChildren(x, xs, off, t, Null);
  }

  /** Stepping right from a root whose key is below `lower`: the root and its left subtree are passed. */
  lemma DescendRight(t: Tree, lower: int, x: Tree, xs: int, off: int, prev: int, jp: int)
    requires Ordered(t) && Descent(t, lower, x, xs, off, prev, jp) && x.Node? && x.id != Null && x.key < lower
    ensures Descent(t, lower, x.right, xs, off + |Ids(x.left)| + 1, x.id, off + |Ids(x.left)|)
  {
    var i := off + |Ids(x.left)|;
    SubOfRoot(x, xs, off, t, Null);
    SubOfChildren(x, xs, off, t, Null);
    OrderedIffIncreasing(t);
    assert forall m :: off <= m < i ==> Keys(t)[m] < Keys(t)[i];
  }

  /** A root holding `lower` itself: every key before it is below `lower`. */
  lemma DescendFound(t: Tree, lower: int, x: Tree, xs: int, off: int, prev: int, jp: int)
    requires Ordered(t) && Descent(t, lower, x, xs, off, prev, jp) && x.Node? && x.key == lower
    ensures var i := off + |Ids(x.left)|;
      0 <= i < |Ids(t)| && Ids(t)[i] == x.id && forall m :: 0 <= m < i ==> Keys(t)[m] < lower
  {
    var i := off + |Ids(x.left)|;
    SubOfRoot(x, xs, off, t, Null);
    OrderedIffIncreasing(t);
    assert forall m :: off <= m < i ==> Keys(t)[m] < Keys(t)[i];
  }

  /**
   * A descent that ran off the tree: the last record visited is at
   * position `jp` (or the tree is empty), and every key before that
   * position is below `lower`.
   */
  lemma DescendEnd(t: Tree, lower: int, xs: int, off: int, prev: int, jp: int)
    requires Descent(t, lower, Nil, xs, off, prev, jp)
    ensures var start := if prev == Null then |Ids(t)| else jp;
      0 <= start <= |Ids(t)| && prev == (if start < |Ids(t)| then Ids(t)[start] else Null) &&
      forall m :: 0 <= m < start ==> Keys(t)[m] < lower
  {
  }

  /** The subtree `Find` reaches is a subtree of `t`, at some offset and with some thread. */
  lemma {:induction false} FindSub(t: Tree, s: int, k: int) returns (ss: int, off: int)
    ensures SubOf(Find(t, k), ss, off, t, s)
    decreases t
  {
    match t
    case Nil =>
      ss, off := s, 0;
    case Node(l, p, key, _, r) =>
      if key == k {
        ss, off := s, 0;
      } else if key < k {
        var o;
        ss, o := FindSub(r, s, k);
        off := o + |Ids(l)| + 1;
      } else {
        ss, off := FindSub(l, p, k);
      }
  }

  /**
   * The end of `_copy`: the copied node is appended after the copies of
   * its subtrees, and the null thread of the left copy is redirected to it.
   * The copy stores a congruent tree on exactly the appended indices.
   */
  lemma CopyLink(src: seq<NodeRec>, a0: seq<NodeRec>, a1: seq<NodeRec>, a2: seq<NodeRec>, a3: seq<NodeRec>, b: seq<NodeRec>,
                 t: Tree, s: int, l: Tree, r: Tree)
    requires t.Node? && Rep(src, t, s)
    requires Congruent(t.left, l) && DistinctIds(l) && Rep(a1, l, Null) && Unchanged(a0, a1, {})
    requires (forall p :: p in IdSet(l) ==> |a0| <= p < |a1|) && |a1| == |a0| + |Ids(l)|
    requires Congruent(t.right, r) && DistinctIds(r) && Rep(a2, r, Null) && Unchanged(a1, a2, {})
    requires (forall p :: p in IdSet(r) ==> |a1| <= p < |a2|) && |a2| == |a1| + |Ids(r)|
    requires a3 == a2 + [NodeRec(src[t.id].key, src[t.id].value, RootId(l), RootId(r), src[t.id].isThreaded, src[t.id].height)]
    requires b == if l.Nil? then a3 else a3[LastId(l) := a3[LastId(l)].(right := |a2|)]
    ensures var u := Node(l, |a2|, t.key, t.value, r);
      Congruent(t, u) && DistinctIds(u) && Rep(b, u, Null) && Unchanged(a0, b, {}) &&
      (forall p :: p in IdSet(u) ==> |a0| <= p < |b|) && |b| == |a0| + |Ids(u)|
  {
    var u := Node(l, |a2|, t.key, t.value, r);
    CopyIds(l, r, t.key, t.value, |a0|, |a1|, |a2|);
    CongruentShape(t, u);
    CongruentShape(t.right, r);
    assert Links(src, t, s);
    RepFrame(a1, a2, {}, l, Null);
    assert a3[..|a2|] == a2;
    CopyJoin(a2, a3, b, u);
    UnchangedTrans(a0, a1, a2, {}, {}, {});
    assert Unchanged(a2, a3, {});
    UnchangedTrans(a0, a2, a3, {}, {}, {});
    if l.Node? {
      UnchangedWrite(a0, a3, {}, LastId(l), a3[LastId(l)].(right := |a2|));
    }
  }

  /**
   * Appending the root record of `u` after its two stored subtrees, and
   * pointing the left subtree's last thread at it, stores all of `u`.
   */
  lemma CopyJoin(a2: seq<NodeRec>, a3: seq<NodeRec>, b: seq<NodeRec>, u: Tree)
    requires u.Node? && u.id == |a2| && DistinctIds(u)
    requires Rep(a2, u.left, Null) && Rep(a2, u.right, Null)
    requires forall p :: p in IdSet(u.left) ==> 0 <= p < |a2|
    requires |a3| == |a2| + 1 && a3[..|a2|] == a2
    requires a3[|a2|] == NodeRec(u.key, u.value, RootId(u.left), RootId(u.right), u.right.Nil?, Height(u))
    requires b == if u.left.Nil? then a3 else a3[LastId(u.left) := a3[LastId(u.left)].(right := |a2|)]
    ensures Rep(b, u, Null)
  {
    var l, r := u.left, u.right;
    assert Unchanged(a2, a3, {});
    RepFrame(a2, a3, {}, l, Null);
    RepFrame(a2, a3, {}, r, Null);
    if l.Node? {
      Retarget(a3, l, Null, |a2|);
      RepFrame(a3, b, {LastId(l)}, r, Null);
    }
    assert b[|a2|] == a3[|a2|];
  }

  /** Copies of two subtrees on consecutive index ranges, joined under the next index. */
  lemma CopyIds(l: Tree, r: Tree, k: int, v: int, n0: int, n1: int, n2: int)
    requires DistinctIds(l) && DistinctIds(r) && n0 <= n1 <= n2
    requires forall p :: p in IdSet(l) ==> n0 <= p < n1
    requires forall p :: p in IdSet(r) ==> n1 <= p < n2
    ensures DistinctIds(Node(l, n2, k, v, r))
    ensures forall p :: p in IdSet(Node(l, n2, k, v, r)) ==> n0 <= p <= n2
  {
    forall p | p in IdSet(l) ensures p !in IdSet(r) {
      assert p < n1;
    }
  }

  /**
   * The arena and tree a container holds: an ordered, balanced tree with
   * one record per node (indices are distinct and, by `Rep`, in range, so
   * every record is a node).
   */
  ghost predicate Stores(a: seq<NodeRec>, t: Tree)
  {
    Rep(a, t, Null) && Ordered(t) && Balanced(t) && DistinctIds(t) && |a| == |Ids(t)|
  }

  /**
   * After `_insert` at the root, the arena stores the inserted tree `t`,
   * which has one more node exactly when the arena grew; a present key
   * leaves tree and arena alone.
   */
  lemma InsertStores(a0: seq<NodeRec>, a: seq<NodeRec>, t0: Tree, t: Tree, k: int, v: int)
    requires Stores(a0, t0) && t == Insert(t0, k, v, |a0|)
    requires Rep(a, t, Null) && Unchanged(a0, a, IdSet(t0)) && |a| == |a0| + |Ids(t)| - |Ids(t0)|
    ensures Stores(a, t) && IdSet(t0) <= IdSet(t) && |Keys(t)| == |Keys(t0)| + |a| - |a0|
    ensures k in KeySet(t0) ==> t == t0 && a == a0
  {
    var f := |a0|;
    RepInRange(a0, t0, Null);
    InsertShape(t0, k, v, f);
    if k in KeySet(t0) {
      RepDetermines(a0, a, t0, Null);
      assert a == a0;
    }
  }

  /**
   * A cursor position in `t0` carried over to a tree `t` that kept all of
   * `t0`'s nodes: a node of `t0` has an inorder position in `t`, and the
   * position past the end stays past the end.
   */
  lemma Relocate(t0: Tree, t: Tree, i0: int) returns (i: int)
    requires IdSet(t0) <= IdSet(t) && 0 <= i0 <= |Ids(t0)|
    ensures 0 <= i <= |Ids(t)|
    ensures i0 < |Ids(t0)| ==> i < |Ids(t)| && Ids(t)[i] == Ids(t0)[i0]
    ensures i0 == |Ids(t0)| ==> i == |Ids(t)|
  {
    if i0 == |Ids(t0)| {
      i := |Ids(t)|;
    } else {
      IdSetIds(t0);
      IdSetIds(t);
      assert Ids(t0)[i0] in IdSet(t0);
      i :| 0 <= i < |Ids(t)| && Ids(t)[i] == Ids(t0)[i0];
    }
  }

  /** A congruent copy, stored on exactly the indices of a fresh arena, is stored like the original. */
  lemma CopyStores(src: seq<NodeRec>, t: Tree, a: seq<NodeRec>, u: Tree)
    requires Stores(src, t)
    requires Congruent(t, u) && DistinctIds(u) && Rep(a, u, Null)
    requires |a| == |Ids(u)|
    ensures Stores(a, u) && ToMap(u) == ToMap(t) && Keys(u) == Keys(t) && |Ids(u)| == |Ids(t)|
  {
    CongruentShape(t, u);
    CongruentAgree(t, u);
  }

  // ---------------------------------------------------------------------
  // The steps of `_insert` after the recursive call
  // ---------------------------------------------------------------------

  /**
   * The thread patch of the left branch: a returned subtree root without a
   * real right child is the last node of the new left subtree, so it
   * threads to the parent `p`. A freshly created leaf had a null thread;
   * any other root already threads to `p`.
   */
  lemma PatchLeft(a1: seq<NodeRec>, a2: seq<NodeRec>, l: Tree, l': Tree, p: int)
    requires l'.Node? && (l.Nil? ==> l'.left.Nil? && l'.right.Nil?)
    requires Rep(a1, l', if l.Nil? then Null else p)
    requires a2 == if a1[l'.id].isThreaded then a1[l'.id := a1[l'.id].(right := p)] else a1
    ensures Rep(a2, l', p)
  {
    if l.Node? {
      assert a1[l'.id].isThreaded ==> a1[l'.id].(right := p) == a1[l'.id];
      assert a2 == a1;
    } else {
      assert Rep(a2, l'.left, l'.id) && Rep(a2, l'.right, p);
    }
  }

  /**
   * Linking the new left subtree `l'` under `p` and recomputing the height
   * of `p` leaves the arena storing `t.(left := l')`.
   */
  lemma LinkLeft(a0: seq<NodeRec>, a1: seq<NodeRec>, a2: seq<NodeRec>, a3: seq<NodeRec>, b: seq<NodeRec>,
                 t: Tree, s: int, l': Tree, f: int)
    requires t.Node? && Rep(a0, t, s) && DistinctIds(t) && f == |a0|
    requires l'.Node? && IdSet(l') <= IdSet(t.left) + {f} && (t.left.Nil? ==> l'.left.Nil? && l'.right.Nil?)
    requires Unchanged(a0, a1, IdSet(t.left)) && Rep(a1, l', if t.left.Nil? then Null else t.id)
    requires a2 == if a1[l'.id].isThreaded then a1[l'.id := a1[l'.id].(right := t.id)] else a1
    requires t.id < |a2| && a3 == a2[t.id := a2[t.id].(left := l'.id)]
    requires b == a3[t.id := a3[t.id].(height := 1 + Max(GetHeight(a3, a3[t.id].left), GetHeight(a3, ActualRight(a3, t.id))))]
    ensures Rep(b, t.(left := l'), s)
    ensures Unchanged(a0, b, IdSet(t)) && |b| == |a1|
  {
    var Node(l, p, k, v, r) := t;
    RepInRange(a0, t, s);
    assert f !in IdSet(l) && f !in IdSet(r) by {
      assert f !in IdSet(t);
    }
    PatchLeft(a1, a2, l, l', p);
    UnchangedWrite(a0, a1, IdSet(l), l'.id, a2[l'.id]);
    assert Unchanged(a0, a2, IdSet(l));
    UnchangedWrite(a0, a2, IdSet(l) + {p}, p, a3[p]);
    UnchangedWrite(a0, a3, IdSet(l) + {p}, p, b[p]);
    assert Unchanged(a0, b, IdSet(l) + {p});
    RepFrame(a0, a3, IdSet(l) + {p}, r, s);
    RepFrame(a0, b, IdSet(l) + {p}, r, s);
    RepFrame(a2, b, {p}, l', p);
    RootHeight(a3, r, s);
    RepFrame(a2, a3, {p}, l', p);
    RootHeight(a3, l', p);
  }

  /**
   * The thread hand-over of the right branch: when `p` had no real right
   * child, the new leaf takes over the thread of `p`.
   */
  lemma LinkRight(a0: seq<NodeRec>, a1: seq<NodeRec>, a2: seq<NodeRec>, a3: seq<NodeRec>, b: seq<NodeRec>,
                  t: Tree, s: int, r': Tree, f: int)
    requires t.Node? && Rep(a0, t, s) && DistinctIds(t) && f == |a0|
    requires r'.Node? && IdSet(r') <= IdSet(t.right) + {f} && (t.right.Nil? ==> r'.left.Nil? && r'.right.Nil?)
    requires Unchanged(a0, a1, IdSet(t.right)) && Rep(a1, r', if t.right.Nil? then Null else s)
    requires t.id < |a1| && a2 == if a1[t.id].isThreaded then
      (var x := a1[r'.id := a1[r'.id].(right := a1[t.id].right, isThreaded := true)];
       x[t.id := x[t.id].(isThreaded := false)])
      else a1
    requires a3 == a2[t.id := a2[t.id].(right := r'.id)]
    requires b == a3[t.id := a3[t.id].(height := 1 + Max(GetHeight(a3, a3[t.id].left), GetHeight(a3, ActualRight(a3, t.id))))]
    ensures Rep(b, t.(right := r'), s)
    ensures Unchanged(a0, b, IdSet(t)) && |b| == |a1|
  {
    var Node(l, p, k, v, r) := t;
    RepInRange(a0, t, s);
    assert f !in IdSet(l) && f !in IdSet(r) by {
      assert f !in IdSet(t);
    }
    assert a1[p] == a0[p];
    PatchRight(a1, a2, r, r', p, s);
    assert Unchanged(a0, a2, IdSet(r) + {p});
    UnchangedWrite(a0, a2, IdSet(r) + {p}, p, a3[p]);
    UnchangedWrite(a0, a3, IdSet(r) + {p}, p, b[p]);
    RepFrame(a0, a3, IdSet(r) + {p}, l, p);
    RepFrame(a0, b, IdSet(r) + {p}, l, p);
    RepFrame(a2, b, {p}, r', s);
    RootHeight(a3, l, p);
    RepFrame(a2, a3, {p}, r', s);
    RootHeight(a3, r', s);
  }

  /** The first half of `LinkRight`: the new subtree of `p` ends at `s`. */
  lemma PatchRight(a1: seq<NodeRec>, a2: seq<NodeRec>, r: Tree, r': Tree, p: int, s: int)
    requires r'.Node? && (r.Nil? ==> r'.left.Nil? && r'.right.Nil?) && p !in IdSet(r')
    requires Rep(a1, r', if r.Nil? then Null else s)
    requires 0 <= p < |a1| && a1[p].isThreaded == r.Nil? && (r.Nil? ==> a1[p].right == s)
    requires a2 == if a1[p].isThreaded then
      (var x := a1[r'.id := a1[r'.id].(right := a1[p].right, isThreaded := true)];
       x[p := x[p].(isThreaded := false)])
      else a1
    ensures Rep(a2, r', s) && |a2| == |a1|
    ensures forall i :: 0 <= i < |a1| && i != p && i != r'.id ==> a2[i] == a1[i]
  {
    if r.Nil? {
      assert Rep(a2, r'.left, r'.id) && Rep(a2, r'.right, s);
    }
  }

  /**
   * Inserting below a node of a stored tree with the next free index keeps
   * indices distinct, and the new subtree on either side uses only the old
   * indices of that side and the new one.
   */
  lemma InsertFresh(a: seq<NodeRec>, t: Tree, s: int, k: int, v: int)
    requires Rep(a, t, s) && t.Node? && DistinctIds(t)
    ensures var f := |a|;
      var l', r' := Insert(t.left, k, v, f), Insert(t.right, k, v, f);
      DistinctIds(t.(left := l')) && DistinctIds(t.(right := r')) &&
      IdSet(t.(left := l')) <= IdSet(t) + {f} && IdSet(t.(right := r')) <= IdSet(t) + {f}
  {
    var Node(l, p, _, _, r) := t;
    var f := |a|;
    RepInRange(a, t, s);
    assert f !in IdSet(t);
    InsertDistinct(l, k, v, f);
    InsertDistinct(r, k, v, f);
  }
}
