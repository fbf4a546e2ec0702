/**
 * The algebraic view of a threaded AVL tree.
 *
 * A `Tree` records the owned edges only (left child and real right child);
 * every node carries `id`, the index of the arena record that stores it
 * (see module Arena), with its key and value. Threads are not part of this
 * view: they are determined by the shape (module Arena, `Rep`).
 *
 * Keys and values are fixed to `int`; the value-initialised `KeyT{}` and
 * `ValueT{}` of the generic container are therefore both 0.
 */
module AvlTree {

  const DefaultKey: int := 0
  const DefaultValue: int := 0

  datatype Tree = Nil | Node(left: Tree, id: int, key: int, value: int, right: Tree)

  /** `_max` */
  function Max(a: int, b: int): (m: int)
    ensures a <= m && b <= m && (m == a || m == b)
  {
    if a > b then a else b
  }

  /** Height of a subtree; the empty subtree has height -1. */
  function Height(t: Tree): (h: int)
    ensures -1 <= h
    ensures h == -1 <==> t.Nil?
  {
    match t
    case Nil => -1
    case Node(l, _, _, _, r) => 1 + Max(Height(l), Height(r))
  }

  /** The keys in inorder. */
  function Keys(t: Tree): seq<int>
  {
    match t
    case Nil => []
    case Node(l, _, k, _, r) => Keys(l) + [k] + Keys(r)
  }

  /** The arena indices of the nodes, in inorder. */
  function Ids(t: Tree): (s: seq<int>)
    ensures |s| == |Keys(t)|
  {
    match t
    case Nil => []
    case Node(l, p, _, _, r) => Ids(l) + [p] + Ids(r)
  }

  function KeySet(t: Tree): set<int>
  {
    match t
    case Nil => {}
    case Node(l, _, k, _, r) => KeySet(l) + {k} + KeySet(r)
  }

  lemma {:induction false} KeySetKeys(t: Tree)
    ensures forall x :: x in KeySet(t) <==> x in Keys(t)
  {
    match t
    case Nil =>
    case Node(l, _, _, _, r) =>
      KeySetKeys(l);
      KeySetKeys(r);
  }

  function IdSet(t: Tree): set<int>
  {
    match t
    case Nil => {}
    case Node(l, p, _, _, r) => IdSet(l) + {p} + IdSet(r)
  }

  lemma {:induction false} IdSetIds(t: Tree)
    ensures IdSet(t) == set p | p in Ids(t)
  {
    match t
    case Nil =>
    case Node(l, p, _, _, r) =>
      IdSetIds(l);
      IdSetIds(r);
  }

  /** The ordered map the tree represents. */
  function ToMap(t: Tree): (m: map<int, int>)
    ensures m.Keys == KeySet(t)
  {
    match t
    case Nil => map[]
    case Node(l, _, k, v, r) => (ToMap(l) + ToMap(r))[k := v]
  }

  /** Binary-search-tree order, keys unique. */
  predicate Ordered(t: Tree)
  {
    match t
    case Nil => true
    case Node(l, _, k, _, r) =>
      Ordered(l) && Ordered(r) &&
      (forall x :: x in KeySet(l) ==> x < k) &&
      (forall x :: x in KeySet(r) ==> k < x)
  }

  /** The AVL condition at every node. */
  predicate Balanced(t: Tree)
  {
    match t
    case Nil => true
    case Node(l, _, _, _, r) =>
      -1 <= Height(l) - Height(r) <= 1 && Balanced(l) && Balanced(r)
  }

  /** No arena record is used by two nodes. */
  predicate DistinctIds(t: Tree)
  {
    match t
    case Nil => true
    case Node(l, p, _, _, r) =>
      DistinctIds(l) && DistinctIds(r) &&
      p !in IdSet(l) && p !in IdSet(r) && IdSet(l) !! IdSet(r)
  }

  predicate Increasing(s: seq<int>)
  {
    forall i, j :: 0 <= i < j < |s| ==> s[i] < s[j]
  }

  /** No key of `t` is above `k`. */
  predicate KeysAtMost(t: Tree, k: int)
  {
    forall x :: x in KeySet(t) ==> x <= k
  }

  predicate NoDuplicates(s: seq<int>)
  {
    forall i, j :: 0 <= i < j < |s| ==> s[i] != s[j]
  }

  /** Strict increase of `a + [k] + b`, split at `k`. */
  lemma IncreasingSplit(a: seq<int>, k: int, b: seq<int>)
    ensures Increasing(a + [k] + b) <==>
      Increasing(a) && Increasing(b) &&
      (forall x :: x in a ==> x < k) && (forall x :: x in b ==> k < x)
  {
    var s := a + [k] + b;
    var n := |a|;
    if Increasing(s) {
      forall i, j | 0 <= i < j < n ensures a[i] < a[j] {
        assert s[i] == a[i] && s[j] == a[j];
      }
      forall i, j | 0 <= i < j < |b| ensures b[i] < b[j] {
        assert s[n + 1 + i] == b[i] && s[n + 1 + j] == b[j];
      }
      forall x | x in a ensures x < k {
        var i :| 0 <= i < n && a[i] == x;
        assert s[i] == x && s[n] == k;
      }
      forall x | x in b ensures k < x {
        var i :| 0 <= i < |b| && b[i] == x;
        assert s[n + 1 + i] == x && s[n] == k;
      }
    }
    if Increasing(a) && Increasing(b) &&
       (forall x :: x in a ==> x < k) && (forall x :: x in b ==> k < x)
    {
      forall i, j | 0 <= i < j < |s| ensures s[i] < s[j] {
        if j < n {
          assert s[i] == a[i] && s[j] == a[j];
        } else if i < n {
          assert s[i] == a[i] && a[i] in a;
          if j > n { assert s[j] == b[j - n - 1] && b[j - n - 1] in b; }
        } else if i == n {
          assert s[j] == b[j - n - 1] && b[j - n - 1] in b;
        } else {
          assert s[i] == b[i - n - 1] && s[j] == b[j - n - 1];
        }
      }
    }
  }

  /** No duplicates in `a + [p] + b`, split at `p`. */
  lemma NoDuplicatesSplit(a: seq<int>, p: int, b: seq<int>)
    ensures NoDuplicates(a + [p] + b) <==>
      NoDuplicates(a) && NoDuplicates(b) &&
      p !in a && p !in b && (forall x :: x in a ==> x !in b)
  {
    var s := a + [p] + b;
    var n := |a|;
    if NoDuplicates(s) {
      forall i, j | 0 <= i < j < n ensures a[i] != a[j] {
        assert s[i] == a[i] && s[j] == a[j];
      }
      forall i, j | 0 <= i < j < |b| ensures b[i] != b[j] {
        assert s[n + 1 + i] == b[i] && s[n + 1 + j] == b[j];
      }
      forall i, j | 0 <= i < n && 0 <= j < |b| ensures a[i] != b[j] {
        assert s[i] == a[i] && s[n + 1 + j] == b[j];
      }
      forall x | x in a ensures x != p {
        var i :| 0 <= i < n && a[i] == x;
        assert s[i] == x && s[n] == p;
      }
      forall x | x in b ensures x != p {
        var j :| 0 <= j < |b| && b[j] == x;
        assert s[n + 1 + j] == x && s[n] == p;
      }
    }
    if NoDuplicates(a) && NoDuplicates(b) &&
       p !in a && p !in b && (forall x :: x in a ==> x !in b)
    {
      forall i, j | 0 <= i < j < |s| ensures s[i] != s[j] {
        if j < n {
          assert s[i] == a[i] && s[j] == a[j];
        } else if i < n {
          assert s[i] == a[i] && a[i] in a;
          if j > n { assert s[j] == b[j - n - 1]; }
        } else if i == n {
          assert s[j] == b[j - n - 1] && b[j - n - 1] in b;
        } else {
          assert s[i] == b[i - n - 1] && s[j] == b[j - n - 1];
        }
      }
    }
  }

  /** Search-tree order is exactly "the inorder keys increase strictly". */
  lemma {:induction false} OrderedIffIncreasing(t: Tree)
    ensures Ordered(t) <==> Increasing(Keys(t))
  {
    match t
    case Nil =>
    case Node(l, _, k, _, r) =>
      OrderedIffIncreasing(l);
      OrderedIffIncreasing(r);
      IncreasingSplit(Keys(l), k, Keys(r));
      KeySetKeys(l);
      KeySetKeys(r);
  }

  lemma DisjointElements(a: seq<int>, b: seq<int>)
    ensures (set x | x in a) !! (set x | x in b) <==> forall x :: x in a ==> x !in b
  {
    var sa, sb := set x | x in a, set x | x in b;
    if sa !! sb {
      forall x | x in a ensures x !in b {
        assert x in sa;
      }
    }
    if forall x :: x in a ==> x !in b {
      forall x | x in sa ensures x !in sb {
      }
    }
  }

  /** Distinct arena indices is exactly "the inorder index sequence has no duplicates". */
  lemma {:induction false} DistinctIffNoDuplicates(t: Tree)
    ensures DistinctIds(t) <==> NoDuplicates(Ids(t))
  {
    match t
    case Nil =>
    case Node(l, p, _, _, r) =>
      DistinctIffNoDuplicates(l);
      DistinctIffNoDuplicates(r);
      NoDuplicatesSplit(Ids(l), p, Ids(r));
      IdSetIds(l);
      IdSetIds(r);
      assert (p in IdSet(l) <==> p in Ids(l)) && (p in IdSet(r) <==> p in Ids(r));
      DisjointElements(Ids(l), Ids(r));
  }

  // ---------------------------------------------------------------------
  // Rotations and insertion (`_rightRotate`, `_leftRotate`, `_insert`)
  // ---------------------------------------------------------------------

  /** `_rightRotate`: the left child becomes the root of the subtree. */
  function RotateRight(t: Tree): (r: Tree)
    ensures Keys(r) == Keys(t) && Ids(r) == Ids(t)
    ensures KeySet(r) == KeySet(t) && IdSet(r) == IdSet(t)
  {
    match t
    case Node(Node(a, lp, lk, lv, b), p, k, v, c) => Node(a, lp, lk, lv, Node(b, p, k, v, c))
    case _ => t
  }

  /** `_leftRotate`: the real right child becomes the root of the subtree. */
  function RotateLeft(t: Tree): (r: Tree)
    ensures Keys(r) == Keys(t) && Ids(r) == Ids(t)
    ensures KeySet(r) == KeySet(t) && IdSet(r) == IdSet(t)
  {
    match t
    case Node(a, p, k, v, Node(b, rp, rk, rv, c)) => Node(Node(a, p, k, v, b), rp, rk, rv, c)
    case _ => t
  }

  /**
   * The four rotation cases of `_insert`, chosen by the balance factor
   * and by comparing the inserted key `k` with the key of the heavy child.
   */
  function Rebalance(t: Tree, k: int): (r: Tree)
    requires t.Node?
    ensures Keys(r) == Keys(t) && Ids(r) == Ids(t)
    ensures KeySet(r) == KeySet(t) && IdSet(r) == IdSet(t)
  {
    var hd := Height(t.left) - Height(t.right);
    if hd > 1 && k < t.left.key then RotateRight(t)
    else if hd > 1 && k > t.left.key then RotateRight(t.(left := RotateLeft(t.left)))
    else if hd < -1 && k < t.right.key then RotateLeft(t.(right := RotateRight(t.right)))
    else if hd < -1 && k > t.right.key then RotateLeft(t)
    else t
  }

  /**
   * `_insert`: places a node with arena index `newId` for an absent key,
   * rebalancing on the way back up; a present key leaves its node alone.
   */
  function Insert(t: Tree, k: int, v: int, newId: int): (r: Tree)
    ensures r.Node?
    ensures KeySet(r) == KeySet(t) + {k}
    ensures IdSet(t) <= IdSet(r) <= IdSet(t) + {newId}
  {
    match t
    case Nil => Node(Nil, newId, k, v, Nil)
    case Node(l, p, key, val, rt) =>
      if k < key then Rebalance(Node(Insert(l, k, v, newId), p, key, val, rt), k)
      else if k > key then Rebalance(Node(l, p, key, val, Insert(rt, k, v, newId)), k)
      else t
  }

  /** The rotation a case selects finds the children it needs. */
  predicate RotationsDefined(t: Tree, k: int)
    requires t.Node?
  {
    var hd := Height(t.left) - Height(t.right);
    (hd > 1 && k > t.left.key ==> t.left.right.Node?) &&
    (hd < -1 && k < t.right.key ==> t.right.left.Node?)
  }

  /** A subtree that grew by one level is one level taller on the side of the new key. */
  predicate Leans(t: Tree, k: int)
  {
    t.Node? &&
    ((k < t.key && Height(t.left) == Height(t.right) + 1) ||
     (t.key < k && Height(t.right) == Height(t.left) + 1))
  }

  /**
   * Rebalancing after the left subtree of a balanced node took an insertion:
   * when the left side became two taller, the lean of the grown subtree picks
   * the single (case 1) or the double (case 2) rotation, which restores the
   * old height; otherwise nothing rotates.
   */
  lemma GrowLeft(t: Tree, l': Tree, k: int)
    requires t.Node? && Balanced(t) && k < t.key
    requires l'.Node? && Balanced(l')
    requires Height(t.left) <= Height(l') <= Height(t.left) + 1
    requires t.left.Node? && Height(l') == Height(t.left) + 1 ==> Leans(l', k)
    ensures RotationsDefined(t.(left := l'), k)
    ensures var r := Rebalance(t.(left := l'), k);
      Balanced(r) && Height(t) <= Height(r) <= Height(t) + 1 &&
      (Height(r) == Height(t) + 1 ==> Leans(r, k))
  {
    var u := t.(left := l');
    var c := t.right;
    if Height(l') - Height(c) > 1 {
      assert t.left.Node? && Leans(l', k);
      var Node(a, lp, lk, lv, b) := l';
      if k < lk {
        assert Rebalance(u, k) == Node(a, lp, lk, lv, Node(b, t.id, t.key, t.value, c));
      } else {
        var Node(b1, bp, bk, bv, b2) := b;
        assert Balanced(b1) && Balanced(b2);
        assert Rebalance(u, k) == Node(Node(a, lp, lk, lv, b1), bp, bk, bv, Node(b2, t.id, t.key, t.value, c));
      }
    } else {
      assert Rebalance(u, k) == u;
    }
  }

  /** Rebalancing after the right subtree of a balanced node took an insertion (cases 3 and 4). */
  lemma GrowRight(t: Tree, r': Tree, k: int)
    requires t.Node? && Balanced(t) && t.key < k
    requires r'.Node? && Balanced(r')
    requires Height(t.right) <= Height(r') <= Height(t.right) + 1
    requires t.right.Node? && Height(r') == Height(t.right) + 1 ==> Leans(r', k)
    ensures RotationsDefined(t.(right := r'), k)
    ensures var r := Rebalance(t.(right := r'), k);
      Balanced(r) && Height(t) <= Height(r) <= Height(t) + 1 &&
      (Height(r) == Height(t) + 1 ==> Leans(r, k))
  {
    var u := t.(right := r');
    var a := t.left;
    if Height(r') - Height(a) > 1 {
      assert t.right.Node? && Leans(r', k);
      var Node(b, rp, rk, rv, c) := r';
      if rk < k {
        assert Rebalance(u, k) == Node(Node(a, t.id, t.key, t.value, b), rp, rk, rv, c);
      } else {
        var Node(b1, bp, bk, bv, b2) := b;
        assert Balanced(b1) && Balanced(b2);
        assert Rebalance(u, k) == Node(Node(a, t.id, t.key, t.value, b1), bp, bk, bv, Node(b2, rp, rk, rv, c));
      }
    } else {
      assert Rebalance(u, k) == u;
    }
  }

  /**
   * AVL insertion: the result is balanced, at most one level taller, and
   * when it did grow, it leans towards the inserted key.
   */
  lemma {:induction false} InsertBalanced(t: Tree, k: int, v: int, f: int)
    requires Balanced(t)
    ensures var r := Insert(t, k, v, f);
      Balanced(r) && Height(t) <= Height(r) <= Height(t) + 1 &&
      (t.Node? && Height(r) == Height(t) + 1 ==> Leans(r, k))
  {
    match t
    case Nil =>
    case Node(l, p, key, val, rt) =>
      if k < key {
        InsertBalanced(l, k, v, f);
        GrowLeft(t, Insert(l, k, v, f), k);
      } else if k > key {
        InsertBalanced(rt, k, v, f);
        GrowRight(t, Insert(rt, k, v, f), k);
      }
  }

  /** Insertion keeps search-tree order. */
  lemma {:induction false} InsertOrdered(t: Tree, k: int, v: int, f: int)
    requires Ordered(t)
    ensures Ordered(Insert(t, k, v, f))
  {
    match t
    case Nil =>
    case Node(l, p, key, val, rt) =>
      if k < key {
        InsertOrdered(l, k, v, f);
        var u := Node(Insert(l, k, v, f), p, key, val, rt);
        assert Ordered(u);
        OrderedIffIncreasing(u);
        OrderedIffIncreasing(Rebalance(u, k));
      } else if k > key {
        InsertOrdered(rt, k, v, f);
        var u := Node(l, p, key, val, Insert(rt, k, v, f));
        assert Ordered(u);
        OrderedIffIncreasing(u);
        OrderedIffIncreasing(Rebalance(u, k));
      }
  }

  /** Insertion uses the arena index `f` only for a new node, so indices stay distinct. */
  lemma {:induction false} InsertDistinct(t: Tree, k: int, v: int, f: int)
    requires DistinctIds(t) && f !in IdSet(t)
    ensures DistinctIds(Insert(t, k, v, f))
  {
    match t
    case Nil =>
    case Node(l, p, key, val, rt) =>
      if k < key {
        InsertDistinct(l, k, v, f);
        var u := Node(Insert(l, k, v, f), p, key, val, rt);
        assert DistinctIds(u);
        DistinctIffNoDuplicates(u);
        DistinctIffNoDuplicates(Rebalance(u, k));
      } else if k > key {
        InsertDistinct(rt, k, v, f);
        var u := Node(l, p, key, val, Insert(rt, k, v, f));
        assert DistinctIds(u);
        DistinctIffNoDuplicates(u);
        DistinctIffNoDuplicates(Rebalance(u, k));
      }
  }

  /** Inserting a key that is present changes nothing: same shape, same value. */
  lemma {:induction false} InsertPresent(t: Tree, k: int, v: int, f: int)
    requires Ordered(t) && Balanced(t) && k in KeySet(t)
    ensures Insert(t, k, v, f) == t
  {
    match t
    case Node(l, p, key, val, rt) =>
      if k < key {
        InsertPresent(l, k, v, f);
        assert Rebalance(t, k) == t;
      } else if k > key {
        InsertPresent(rt, k, v, f);
        assert Rebalance(t, k) == t;
      }
  }

  /** Each insertion of an absent key adds exactly one node. */
  lemma {:induction false} InsertSize(t: Tree, k: int, v: int, f: int)
    requires Ordered(t)
    ensures |Keys(Insert(t, k, v, f))| == |Keys(t)| + (if k in KeySet(t) then 0 else 1)
  {
    match t
    case Nil =>
    case Node(l, p, key, val, rt) =>
      if k < key {
        InsertSize(l, k, v, f);
        assert k in KeySet(t) <==> k in KeySet(l);
      } else if k > key {
        InsertSize(rt, k, v, f);
        assert k in KeySet(t) <==> k in KeySet(rt);
      }
  }

  /** Keys are unique in an ordered tree, so the tree holds as many keys as nodes. */
  lemma {:induction false} KeysCardinality(t: Tree)
    requires Ordered(t)
    ensures |KeySet(t)| == |Keys(t)|
  {
    match t
    case Nil =>
    case Node(l, _, k, _, r) =>
      KeysCardinality(l);
      KeysCardinality(r);
      Separated(KeySet(l), KeySet(r), k);
      assert k !in KeySet(l) + KeySet(r);
  }

  /** An absent key is stored in a node that uses the fresh arena index. */
  lemma {:induction false} InsertNewId(t: Tree, k: int, v: int, f: int)
    requires k !in KeySet(t)
    ensures f in IdSet(Insert(t, k, v, f))
  {
    match t
    case Nil =>
    case Node(l, p, key, val, rt) =>
      if k < key {
        InsertNewId(l, k, v, f);
      } else {
        InsertNewId(rt, k, v, f);
      }
  }

  /** What insertion does to a search tree: everything `insert` needs to keep its invariant. */
  lemma InsertShape(t: Tree, k: int, v: int, f: int)
    requires Ordered(t) && Balanced(t) && DistinctIds(t) && f !in IdSet(t)
    ensures var r := Insert(t, k, v, f);
      Ordered(r) && Balanced(r) && DistinctIds(r) &&
      (k in KeySet(t) ==> r == t) &&
      (k !in KeySet(t) ==> f in IdSet(r) && |Keys(r)| == |Keys(t)| + 1)
  {
    InsertOrdered(t, k, v, f);
    InsertBalanced(t, k, v, f);
    InsertDistinct(t, k, v, f);
    InsertSize(t, k, v, f);
    if k in KeySet(t) {
      InsertPresent(t, k, v, f);
    } else {
      InsertNewId(t, k, v, f);
    }
  }

  /** The map identity behind both rotations. */
  lemma MapRotation(a: map<int, int>, b: map<int, int>, c: map<int, int>, lk: int, lv: int, k: int, v: int)
    requires lk != k && lk !in c && k !in a
    requires a.Keys !! b.Keys && a.Keys !! c.Keys && b.Keys !! c.Keys
    ensures ((a + b)[lk := lv] + c)[k := v] == (a + (b + c)[k := v])[lk := lv]
  {
    var m1 := ((a + b)[lk := lv] + c)[k := v];
    var m2 := (a + (b + c)[k := v])[lk := lv];
    assert m1.Keys == m2.Keys;
    forall x | x in m1 ensures m1[x] == m2[x] {
      if x == k {
      } else if x == lk {
      } else if x in c {
      } else if x in b {
      } else {
      }
    }
  }

  /** Two key sets separated by a pivot are disjoint. */
  lemma Separated(s1: set<int>, s2: set<int>, m: int)
    requires forall x :: x in s1 ==> x < m
    requires forall x :: x in s2 ==> m < x
    ensures s1 !! s2
  {
    forall x | x in s1 ensures x !in s2 {
      assert x < m;
    }
  }

  lemma RotateRightMap(t: Tree)
    requires Ordered(t)
    ensures ToMap(RotateRight(t)) == ToMap(t)
  {
    match t
    case Node(Node(a, lp, lk, lv, b), p, k, v, c) =>
      var A, B, C := ToMap(a), ToMap(b), ToMap(c);
      assert ToMap(t) == ((A + B)[lk := lv] + C)[k := v];
      assert ToMap(RotateRight(t)) == (A + (B + C)[k := v])[lk := lv];
      assert lk != k && lk !in C && k !in A;
      assert Ordered(Node(a, lp, lk, lv, b));
      Separated(KeySet(a), KeySet(b), lk);
      Separated(KeySet(a), KeySet(c), k);
      Separated(KeySet(b), KeySet(c), k);
      MapRotation(A, B, C, lk, lv, k, v);
    case _ =>
  }

  lemma RotateLeftMap(t: Tree)
    requires Ordered(t)
    ensures ToMap(RotateLeft(t)) == ToMap(t)
  {
    match t
    case Node(a, p, k, v, Node(b, rp, rk, rv, c)) =>
      var A, B, C := ToMap(a), ToMap(b), ToMap(c);
      assert ToMap(t) == (A + (B + C)[rk := rv])[k := v];
      assert ToMap(RotateLeft(t)) == ((A + B)[k := v] + C)[rk := rv];
      assert Ordered(Node(b, rp, rk, rv, c));
      Separated(KeySet(a), KeySet(b), k);
      Separated(KeySet(a), KeySet(c), k);
      Separated(KeySet(b), KeySet(c), rk);
      MapRotation(A, B, C, k, v, rk, rv);
    case _ =>
  }

  /** Rebalancing keeps the represented map. */
  lemma RebalanceMap(t: Tree, k: int)
    requires t.Node? && Ordered(t)
    ensures ToMap(Rebalance(t, k)) == ToMap(t)
  {
    var hd := Height(t.left) - Height(t.right);
    var r := Rebalance(t, k);
    if hd > 1 && k < t.left.key {
      assert r == RotateRight(t);
      RotateRightMap(t);
    } else if hd > 1 && k > t.left.key {
      var u := t.(left := RotateLeft(t.left));
      assert r == RotateRight(u);
      RotateLeftMap(t.left);
      assert ToMap(u) == ToMap(t);
      OrderedIffIncreasing(t);
      OrderedIffIncreasing(u);
      RotateRightMap(u);
    } else if hd < -1 && k < t.right.key {
      var u := t.(right := RotateRight(t.right));
      assert r == RotateLeft(u);
      RotateRightMap(t.right);
      assert ToMap(u) == ToMap(t);
      OrderedIffIncreasing(t);
      OrderedIffIncreasing(u);
      RotateLeftMap(u);
    } else if hd < -1 && k > t.right.key {
      assert r == RotateLeft(t);
      RotateLeftMap(t);
    } else {
      assert r == t;
    }
  }

  lemma MapInsertLeft(a: map<int, int>, c: map<int, int>, key: int, val: int, k: int, v: int)
    requires k != key && k !in c
    ensures (a[k := v] + c)[key := val] == ((a + c)[key := val])[k := v]
  {
  }

  lemma MapInsertRight(a: map<int, int>, c: map<int, int>, key: int, val: int, k: int, v: int)
    requires k != key
    ensures (a + c[k := v])[key := val] == ((a + c)[key := val])[k := v]
  {
  }

  /** One step of `InsertMap`, descending left. */
  lemma InsertMapLeft(t: Tree, k: int, v: int, f: int)
    requires t.Node? && Ordered(t) && k < t.key
    requires var l := t.left; ToMap(Insert(l, k, v, f)) == if k in ToMap(l) then ToMap(l) else ToMap(l)[k := v]
    ensures ToMap(Insert(t, k, v, f)) == if k in ToMap(t) then ToMap(t) else ToMap(t)[k := v]
  {
    var Node(l, p, key, val, rt) := t;
    var m := ToMap(Insert(l, k, v, f));
    assert ToMap(Insert(t, k, v, f)) == (m + ToMap(rt))[key := val] by {
      InsertOrdered(l, k, v, f);
      var u := Node(Insert(l, k, v, f), p, key, val, rt);
      assert Insert(t, k, v, f) == Rebalance(u, k);
      RebalanceMap(u, k);
    }
    assert ToMap(t) == (ToMap(l) + ToMap(rt))[key := val];
    assert k !in ToMap(rt) && (k in ToMap(t) <==> k in ToMap(l));
    if k !in ToMap(l) {
      MapInsertLeft(ToMap(l), ToMap(rt), key, val, k, v);
    }
  }

  /** One step of `InsertMap`, descending right. */
  lemma InsertMapRight(t: Tree, k: int, v: int, f: int)
    requires t.Node? && Ordered(t) && t.key < k
    requires var r := t.right; ToMap(Insert(r, k, v, f)) == if k in ToMap(r) then ToMap(r) else ToMap(r)[k := v]
    ensures ToMap(Insert(t, k, v, f)) == if k in ToMap(t) then ToMap(t) else ToMap(t)[k := v]
  {
    var Node(l, p, key, val, rt) := t;
    var m := ToMap(Insert(rt, k, v, f));
    assert ToMap(Insert(t, k, v, f)) == (ToMap(l) + m)[key := val] by {
      InsertOrdered(rt, k, v, f);
      var u := Node(l, p, key, val, Insert(rt, k, v, f));
      assert Insert(t, k, v, f) == Rebalance(u, k);
      RebalanceMap(u, k);
    }
    assert ToMap(t) == (ToMap(l) + ToMap(rt))[key := val];
    assert k !in ToMap(l) && (k in ToMap(t) <==> k in ToMap(rt));
    if k !in ToMap(rt) {
      MapInsertRight(ToMap(l), ToMap(rt), key, val, k, v);
    }
  }

  /** Insertion is a map insertion that never overwrites: an absent key gets `v`, a present one keeps its value. */
  lemma {:induction false} InsertMap(t: Tree, k: int, v: int, f: int)
    requires Ordered(t)
    ensures ToMap(Insert(t, k, v, f)) == if k in ToMap(t) then ToMap(t) else ToMap(t)[k := v]
  {
    match t
    case Nil =>
    case Node(l, p, key, val, rt) =>
      if k < key {
        InsertMap(l, k, v, f);
        InsertMapLeft(t, k, v, f);
      } else if k > key {
        InsertMap(rt, k, v, f);
        InsertMapRight(t, k, v, f);
      }
  }

  // ---------------------------------------------------------------------
  // Point lookup (`_search`)
  // ---------------------------------------------------------------------

  /** The subtree whose root holds key `k`, or Nil: the descent of `_search`. */
  function Find(t: Tree, k: int): (r: Tree)
    ensures r.Node? ==> r.key == k
    ensures Ordered(t) ==> (r.Node? <==> k in KeySet(t))
  {
    match t
    case Nil => Nil
    case Node(l, _, key, _, rt) =>
      if key == k then t
      else if key < k then Find(rt, k)
      else Find(l, k)
  }

  /** The node `Find` reaches holds the value the map associates with the key. */
  lemma {:induction false} FindValue(t: Tree, k: int)
    requires Ordered(t) && k in KeySet(t)
    ensures Find(t, k).value == ToMap(t)[k]
  {
    match t
    case Node(l, _, key, _, rt) =>
      if key < k {
        FindValue(rt, k);
        assert k !in KeySet(l);
      } else if k < key {
        FindValue(l, k);
        assert k !in KeySet(rt);
      }
  }

  /** The first element of `ks` above `k`, or `DefaultKey` when there is none. */
  function Successor(ks: seq<int>, k: int): (r: int)
    ensures r == DefaultKey || (r in ks && k < r)
  {
    if ks == [] then DefaultKey
    else if k < ks[0] then ks[0]
    else Successor(ks[1..], k)
  }

  /** In an increasing sequence the successor of an element is the next element. */
  lemma {:induction false} SuccessorAt(ks: seq<int>, i: int)
    requires Increasing(ks) && 0 <= i < |ks|
    ensures Successor(ks, ks[i]) == if i + 1 < |ks| then ks[i + 1] else DefaultKey
  {
    if i > 0 {
      assert ks[0] < ks[i];
      assert Increasing(ks[1..]);
      SuccessorAt(ks[1..], i - 1);
    } else if |ks| > 1 {
      assert Successor(ks, ks[0]) == Successor(ks[1..], ks[0]);
      assert ks[0] < ks[1..][0];
    }
  }

  // ---------------------------------------------------------------------
  // Range filter (`range_search`)
  // ---------------------------------------------------------------------

  /** In increasing keys, position `i` is the last one exactly when its key is the largest. */
  lemma LastKey(ks: seq<int>, i: int)
    requires Increasing(ks) && 0 <= i < |ks|
    ensures i + 1 == |ks| <==> forall x :: x in ks ==> x <= ks[i]
  {
    if i + 1 < |ks| {
      assert ks[i + 1] in ks;
    } else {
      forall x | x in ks ensures x <= ks[i] {
        var m :| 0 <= m < |ks| && ks[m] == x;
      }
    }
  }

  /** The elements of `ks` within `[lower, upper]`, in their order in `ks`. */
  function InRange(ks: seq<int>, lower: int, upper: int): (r: seq<int>)
    ensures |r| <= |ks|
  {
    if ks == [] then []
    else
      var x := ks[|ks| - 1];
      InRange(ks[..|ks| - 1], lower, upper) + (if lower <= x <= upper then [x] else [])
  }

  /** `InRange` keeps exactly the elements within the bounds. */
  lemma {:induction false} InRangeMembers(ks: seq<int>, lower: int, upper: int)
    ensures forall x :: x in InRange(ks, lower, upper) <==> x in ks && lower <= x <= upper
  {
    if ks != [] {
      InRangeMembers(ks[..|ks| - 1], lower, upper);
      assert ks == ks[..|ks| - 1] + [ks[|ks| - 1]];
    }
  }

  /** Filtering an increasing sequence gives an increasing sequence. */
  lemma {:induction false} InRangeIncreasing(ks: seq<int>, lower: int, upper: int)
    requires Increasing(ks)
    ensures Increasing(InRange(ks, lower, upper))
  {
    if ks != [] {
      var n := |ks| - 1;
      var front := ks[..n];
      assert Increasing(front);
      InRangeIncreasing(front, lower, upper);
      InRangeMembers(front, lower, upper);
      var f := InRange(front, lower, upper);
      forall y | y in f ensures y < ks[n] {
        var i :| 0 <= i < n && front[i] == y;
      }
      var r := InRange(ks, lower, upper);
      forall i, j | 0 <= i < j < |r| ensures r[i] < r[j] {
        if j < |f| {
          assert r[i] == f[i] && r[j] == f[j];
        } else {
          assert r[i] == f[i] && f[i] in f;
        }
      }
    }
  }

  /** One more element scanned. */
  lemma InRangeStep(ks: seq<int>, j: int, lower: int, upper: int)
    requires 0 <= j < |ks|
    ensures InRange(ks[..j + 1], lower, upper) ==
      InRange(ks[..j], lower, upper) + (if lower <= ks[j] <= upper then [ks[j]] else [])
  {
    assert ks[..j + 1][..j] == ks[..j];
  }

  /** A prefix below `lower` contributes nothing. */
  lemma {:induction false} InRangeBelow(ks: seq<int>, j: int, lower: int, upper: int)
    requires 0 <= j <= |ks|
    requires forall m :: 0 <= m < j ==> ks[m] < lower
    ensures InRange(ks[..j], lower, upper) == []
  {
    if j > 0 {
      InRangeBelow(ks, j - 1, lower, upper);
      InRangeStep(ks, j - 1, lower, upper);
    }
  }

  /** In an increasing sequence nothing after an element above `upper` is kept. */
  lemma {:induction false} InRangeAbove(ks: seq<int>, j: int, lower: int, upper: int)
    requires Increasing(ks) && 0 <= j < |ks| && upper < ks[j]
    ensures InRange(ks, lower, upper) == InRange(ks[..j], lower, upper)
    decreases |ks| - j
  {
    var n := |ks| - 1;
    if j == n {
      assert ks[..n] == ks[..j];
    } else {
      var front := ks[..n];
      assert Increasing(front);
      InRangeAbove(front, j, lower, upper);
      assert front[..j] == ks[..j];
      assert upper < ks[n];
    }
  }

  // ---------------------------------------------------------------------
  // Structural copy (`_copy`)
  // ---------------------------------------------------------------------

  /** Same shape, keys and values; arena indices may differ. */
  predicate Congruent(t: Tree, u: Tree)
  {
    match t
    case Nil => u.Nil?
    case Node(l, _, k, v, r) =>
      u.Node? && u.key == k && u.value == v && Congruent(l, u.left) && Congruent(r, u.right)
  }

  /** A congruent tree has the same inorder keys, size and height, and is balanced alike. */
  lemma {:induction false} CongruentShape(t: Tree, u: Tree)
    requires Congruent(t, u)
    ensures Keys(t) == Keys(u) && Height(t) == Height(u) && |Ids(t)| == |Ids(u)|
    ensures Balanced(t) <==> Balanced(u)
  {
    match t
    case Nil =>
    case Node(l, _, k, v, r) =>
      CongruentShape(l, u.left);
      CongruentShape(r, u.right);
  }

  /** A congruent tree represents the same map and is ordered alike. */
  lemma {:induction false} CongruentAgree(t: Tree, u: Tree)
    requires Congruent(t, u)
    ensures KeySet(t) == KeySet(u) && ToMap(t) == ToMap(u)
    ensures Ordered(t) <==> Ordered(u)
  {
    CongruentShape(t, u);
    OrderedIffIncreasing(t);
    OrderedIffIncreasing(u);
    match t
    case Nil =>
    case Node(l, _, k, v, r) =>
      CongruentAgree(l, u.left);
      CongruentAgree(r, u.right);
  }
}
