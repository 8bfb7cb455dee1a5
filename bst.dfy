/**
 * The unbalanced binary search tree of src/bst.c.
 *
 * The source orders keys by comparing the key pointers themselves with `<`
 * and `>`, never through the tree's comparator, so keys are naturals under
 * their order. A subtree is a value of `Tree`; the recursive `_impl` helpers,
 * which relink a node's children and return the new subtree root, are
 * functions from subtree to subtree, and the tree object holding `root` is a
 * class whose methods reassign that field.
 */
module BinarySearchTree {
  import opened Common

  datatype Tree<V> = Leaf | Node(left: Tree<V>, key: nat, value: V, right: Tree<V>)

  // ---------------------------------------------------------------------
  // Abstraction: the keys, the map and the ordering invariant.

  function Keys<V>(t: Tree<V>): set<nat>
  {
    match t
    case Leaf => {}
    case Node(l, k, _, r) => Keys(l) + {k} + Keys(r)
  }

  /** The key/value pairs of a subtree. */
  function MapOf<V>(t: Tree<V>): (m: map<nat, V>)
    ensures m.Keys == Keys(t)
  {
    match t
    case Leaf => map[]
    case Node(l, k, v, r) => (MapOf(l) + MapOf(r))[k := v]
  }

  /** Every key of the left subtree is smaller than the node's, every key of the right one greater. */
  ghost predicate IsBst<V>(t: Tree<V>)
  {
    match t
    case Leaf => true
    case Node(l, k, _, r) =>
      && IsBst(l) && IsBst(r)
      && (forall x :: x in Keys(l) ==> x < k)
      && (forall x :: x in Keys(r) ==> k < x)
  }

  /** The same nodes in the same places holding the same keys; only values may differ. */
  predicate SameShape<V>(t: Tree<V>, u: Tree<V>)
  {
    match (t, u)
    case (Leaf, Leaf) => true
    case (Node(l, k, _, r), Node(l', k', _, r')) => k == k' && SameShape(l, l') && SameShape(r, r')
    case _ => false
  }

  /** upo_bst_size_impl: the number of nodes. */
  function SizeImpl<V>(t: Tree<V>): nat
  {
    match t
    case Leaf => 0
    case Node(l, _, _, r) => 1 + SizeImpl(l) + SizeImpl(r)
  }

  /** In a search tree the node count is the number of keys. */
  lemma {:induction false} SizeIsCount<V>(t: Tree<V>)
    requires IsBst(t)
    ensures SizeImpl(t) == |Keys(t)|
  {
    match t
    case Leaf =>
    case Node(l, k, _, r) =>
      SizeIsCount(l);
      SizeIsCount(r);
      assert Keys(l) !! Keys(r) && k !in Keys(l) && k !in Keys(r);
      DisjointCount(Keys(l), Keys(r), k);
  }

  /** Two disjoint key sets and one further key. */
  lemma DisjointCount(a: set<nat>, b: set<nat>, k: nat)
    requires a !! b && k !in a && k !in b
    ensures |a + {k} + b| == |a| + |b| + 1
  {
    assert |a + b| == |a| + |b|;
    assert a + {k} + b == (a + b) + {k};
  }

  /** The key of a node binds its own value; other keys are looked up on their side. */
  lemma MapOfNode<V>(l: Tree<V>, k: nat, v: V, r: Tree<V>, x: nat)
    requires IsBst(Node(l, k, v, r)) && x in Keys(Node(l, k, v, r))
    ensures x < k ==> x in Keys(l) && MapOf(Node(l, k, v, r))[x] == MapOf(l)[x]
    ensures k < x ==> x in Keys(r) && MapOf(Node(l, k, v, r))[x] == MapOf(r)[x]
  {
  }

  // ---------------------------------------------------------------------
  // The recursive helpers.

  /** upo_bst_get_impl, returning the value of the node found, or NULL. */
  function GetImpl<V>(t: Tree<V>, k: nat): (r: Option<V>)
    ensures IsBst(t) ==> r == Lookup(MapOf(t), k)
  {
    match t
    case Leaf => None
    case Node(l, x, v, rt) =>
      if k < x then GetImpl(l, k) else if k > x then GetImpl(rt, k) else Some(v)
  }

  /**
   * upo_bst_put_impl: a new leaf where the descent falls off the tree, the
   * value replaced where it finds the key.
   */
  function PutImpl<V>(t: Tree<V>, k: nat, v: V): (r: Tree<V>)
    ensures Keys(r) == Keys(t) + {k}
    ensures IsBst(t) ==> IsBst(r) && MapOf(r) == MapOf(t)[k := v]
  {
    match t
    case Leaf => Node(Leaf, k, v, Leaf)
    case Node(l, x, w, rt) =>
      if k < x then
        var l' := PutImpl(l, k, v);
        GrowLeft(l, l', x, w, rt, k, v);
        Node(l', x, w, rt)
      else if k > x then
        var r' := PutImpl(rt, k, v);
        GrowRight(l, x, w, rt, r', k, v);
        Node(l, x, w, r')
      else
        Node(l, x, v, rt)
  }

  /** Put of a present key changes only that node's value; of an absent key, it adds one node. */
  lemma {:induction false} PutImplShape<V>(t: Tree<V>, k: nat, v: V)
    requires IsBst(t)
    ensures k in Keys(t) ==> SameShape(t, PutImpl(t, k, v))
    ensures SizeImpl(PutImpl(t, k, v)) == SizeImpl(t) + (if k in Keys(t) then 0 else 1)
  {
    SizeIsCount(t);
    SizeIsCount(PutImpl(t, k, v));
    if k in Keys(t) {
      match t
      case Node(l, x, w, rt) =>
        if k < x {
          MapOfNode(l, x, w, rt, k);
          PutImplShape(l, k, v);
          SameShapeRefl(rt);
        } else if k > x {
          MapOfNode(l, x, w, rt, k);
          PutImplShape(rt, k, v);
          SameShapeRefl(l);
        } else {
          SameShapeRefl(l);
          SameShapeRefl(rt);
        }
    }
  }

  /** upo_bst_insert_impl: a new leaf for an absent key; a present key leaves the subtree as it is. */
  function InsertImpl<V>(t: Tree<V>, k: nat, v: V): (r: Tree<V>)
    ensures Keys(r) == Keys(t) + {k}
    ensures IsBst(t) ==> IsBst(r)
    ensures IsBst(t) && k !in Keys(t) ==> MapOf(r) == MapOf(t)[k := v]
  {
    match t
    case Leaf => Node(Leaf, k, v, Leaf)
    case Node(l, x, w, rt) =>
      if k < x then
        var l' := InsertImpl(l, k, v);
        GrowLeft(l, l', x, w, rt, k, v);
        Node(l', x, w, rt)
      else if k > x then
        var r' := InsertImpl(rt, k, v);
        GrowRight(l, x, w, rt, r', k, v);
        Node(l, x, w, r')
      else
        t
  }

  /** Insert of a present key leaves the tree as it is; of an absent key, it adds one node. */
  lemma {:induction false} InsertImplPresent<V>(t: Tree<V>, k: nat, v: V)
    requires IsBst(t)
    ensures k in Keys(t) ==> InsertImpl(t, k, v) == t
    ensures SizeImpl(InsertImpl(t, k, v)) == SizeImpl(t) + (if k in Keys(t) then 0 else 1)
  {
    SizeIsCount(t);
    SizeIsCount(InsertImpl(t, k, v));
    if k in Keys(t) {
      match t
      case Node(l, x, w, rt) =>
        MapOfNode(l, x, w, rt, k);
        if k < x {
          InsertImplPresent(l, k, v);
        } else if k > x {
          InsertImplPresent(rt, k, v);
        }
    }
  }

  /** upo_bst_max_impl on a non-empty subtree: the rightmost node's key and value. */
  function MaxImpl<V>(t: Tree<V>): (r: Entry<nat, V>)
    requires t.Node?
    ensures r.key in Keys(t)
    ensures IsBst(t) ==> MapOf(t)[r.key] == r.value && forall x :: x in Keys(t) ==> x <= r.key
  {
    if t.right.Leaf? then Entry(t.key, t.value) else MaxImpl(t.right)
  }

  /**
   * upo_bst_delete_impl: descend to the key; a node with two children takes
   * the key and value of its left subtree's maximum, which is then deleted
   * from the left subtree; a node with at most one child is replaced by its
   * left child if it has one, else by its right child.
   */
  function DeleteImpl<V>(t: Tree<V>, k: nat): (r: Tree<V>)
    ensures Keys(r) <= Keys(t)
    ensures IsBst(t) ==> IsBst(r) && MapOf(r) == MapOf(t) - {k}
    ensures k !in Keys(t) ==> r == t
    decreases t
  {
    match t
    case Leaf => Leaf
    case Node(l, x, w, rt) =>
      if k < x then
        var l' := DeleteImpl(l, k);
        assert IsBst(t) ==> MapOf(Node(l', x, w, rt)) == MapOf(t) - {k} by {
          if IsBst(t) { NodeRemoveLeft(l, l', x, w, rt, k); }
        }
        Node(l', x, w, rt)
      else if k > x then
        var r' := DeleteImpl(rt, k);
        assert IsBst(t) ==> MapOf(Node(l, x, w, r')) == MapOf(t) - {k} by {
          if IsBst(t) { NodeRemoveRight(l, x, w, rt, r', k); }
        }
        Node(l, x, w, r')
      else if l.Node? && rt.Node? then
        Delete2c(t)
      else
        Delete1c(t)
  }

  /** upo_bst_delete_2c_impl: Hibbard deletion with the in-order predecessor. */
  function Delete2c<V>(t: Tree<V>): (r: Tree<V>)
    requires t.Node? && t.left.Node?
    ensures Keys(r) <= Keys(t)
    ensures IsBst(t) ==> IsBst(r) && MapOf(r) == MapOf(t) - {t.key}
    decreases t, 0
  {
    var m := MaxImpl(t.left);
    var l' := DeleteImpl(t.left, m.key);
    assert IsBst(t) ==> IsBst(Node(l', m.key, m.value, t.right)) && MapOf(Node(l', m.key, m.value, t.right)) == MapOf(t) - {t.key} by {
      if IsBst(t) { PredecessorReplaces(t, m, l'); }
    }
    Node(l', m.key, m.value, t.right)
  }

  /** upo_bst_delete_1c_impl: the node is replaced by its left child if any, else its right. */
  function Delete1c<V>(t: Tree<V>): (r: Tree<V>)
    requires t.Node? && (t.left.Leaf? || t.right.Leaf?)
    ensures IsBst(t) ==> IsBst(r) && MapOf(r) == MapOf(t) - {t.key}
  {
    if t.left.Node? then
      assert IsBst(t) ==> MapOf(t.left) == MapOf(t) - {t.key} by {
        if IsBst(t) { assert MapOf(t.right) == map[]; }
      }
      t.left
    else
      assert IsBst(t) ==> MapOf(t.right) == MapOf(t) - {t.key} by {
        if IsBst(t) { assert MapOf(t.left) == map[]; }
      }
      t.right
  }

  // ---------------------------------------------------------------------
  // Lemmas behind the recursive helpers.

  lemma {:induction false} SameShapeRefl<V>(t: Tree<V>)
    ensures SameShape(t, t)
  {
    match t
    case Leaf =>
    case Node(l, _, _, r) =>
      SameShapeRefl(l);
      SameShapeRefl(r);
  }

  /** A node whose left subtree gained key k, below the node's key, gains k and keeps its order. */
  lemma GrowLeft<V>(l: Tree<V>, l': Tree<V>, x: nat, w: V, rt: Tree<V>, k: nat, v: V)
    requires k < x && Keys(l') == Keys(l) + {k} && (IsBst(l) ==> IsBst(l'))
    ensures Keys(Node(l', x, w, rt)) == Keys(Node(l, x, w, rt)) + {k}
    ensures IsBst(Node(l, x, w, rt)) ==> IsBst(Node(l', x, w, rt))
    ensures IsBst(Node(l, x, w, rt)) && MapOf(l') == MapOf(l)[k := v] ==>
              MapOf(Node(l', x, w, rt)) == MapOf(Node(l, x, w, rt))[k := v]
  {
    AddedOnLeft(Keys(l), {x}, Keys(rt), k);
    if IsBst(Node(l, x, w, rt)) {
      assert forall y :: y in Keys(l') ==> y < x;
      if MapOf(l') == MapOf(l)[k := v] {
        NodeUpdateLeft(l, l', x, w, rt, k, v);
      }
    }
  }

  /** A node whose right subtree gained key k, above the node's key, gains k and keeps its order. */
  lemma GrowRight<V>(l: Tree<V>, x: nat, w: V, rt: Tree<V>, r': Tree<V>, k: nat, v: V)
    requires x < k && Keys(r') == Keys(rt) + {k} && (IsBst(rt) ==> IsBst(r'))
    ensures Keys(Node(l, x, w, r')) == Keys(Node(l, x, w, rt)) + {k}
    ensures IsBst(Node(l, x, w, rt)) ==> IsBst(Node(l, x, w, r'))
    ensures IsBst(Node(l, x, w, rt)) && MapOf(r') == MapOf(rt)[k := v] ==>
              MapOf(Node(l, x, w, r')) == MapOf(Node(l, x, w, rt))[k := v]
  {
    AddedOnRight(Keys(l), {x}, Keys(rt), k);
    if IsBst(Node(l, x, w, rt)) {
      assert forall y :: y in Keys(r') ==> x < y;
      if MapOf(r') == MapOf(rt)[k := v] {
        NodeUpdateRight(l, x, w, rt, r', k, v);
      }
    }
  }

  lemma AddedOnLeft(a: set<nat>, b: set<nat>, c: set<nat>, k: nat)
    ensures (a + {k}) + b + c == (a + b + c) + {k}
  {
  }

  lemma AddedOnRight(a: set<nat>, b: set<nat>, c: set<nat>, k: nat)
    ensures a + b + (c + {k}) == (a + b + c) + {k}
  {
  }

  lemma NodeUpdateLeft<V>(l: Tree<V>, l': Tree<V>, x: nat, w: V, r: Tree<V>, k: nat, v: V)
    requires IsBst(Node(l, x, w, r)) && k < x && MapOf(l') == MapOf(l)[k := v]
    ensures MapOf(Node(l', x, w, r)) == MapOf(Node(l, x, w, r))[k := v]
  {
    assert k !in Keys(r);
    UpdateLeftOfUnion(MapOf(l), MapOf(l'), MapOf(r), x, w, k, v);
  }

  lemma NodeUpdateRight<V>(l: Tree<V>, x: nat, w: V, r: Tree<V>, r': Tree<V>, k: nat, v: V)
    requires IsBst(Node(l, x, w, r)) && x < k && MapOf(r') == MapOf(r)[k := v]
    ensures MapOf(Node(l, x, w, r')) == MapOf(Node(l, x, w, r))[k := v]
  {
    UpdateRightOfUnion(MapOf(l), MapOf(r), MapOf(r'), x, w, k, v);
  }

  lemma NodeRemoveLeft<V>(l: Tree<V>, l': Tree<V>, x: nat, w: V, r: Tree<V>, k: nat)
    requires IsBst(Node(l, x, w, r)) && k < x && MapOf(l') == MapOf(l) - {k}
    ensures MapOf(Node(l', x, w, r)) == MapOf(Node(l, x, w, r)) - {k}
  {
    assert k !in Keys(r);
    RemoveLeftOfUnion(MapOf(l), MapOf(l'), MapOf(r), x, w, k);
  }

  lemma NodeRemoveRight<V>(l: Tree<V>, x: nat, w: V, r: Tree<V>, r': Tree<V>, k: nat)
    requires IsBst(Node(l, x, w, r)) && x < k && MapOf(r') == MapOf(r) - {k}
    ensures MapOf(Node(l, x, w, r')) == MapOf(Node(l, x, w, r)) - {k}
  {
    RemoveRightOfUnion(MapOf(l), MapOf(r), MapOf(r'), x, w, k);
  }

  // The map identities behind the four lemmas above, free of trees.

  lemma UpdateLeftOfUnion<V>(a: map<nat, V>, a': map<nat, V>, b: map<nat, V>, x: nat, w: V, k: nat, v: V)
    requires k !in b && k != x && a' == a[k := v]
    ensures (a' + b)[x := w] == (a + b)[x := w][k := v]
  {
  }

  lemma UpdateRightOfUnion<V>(a: map<nat, V>, b: map<nat, V>, b': map<nat, V>, x: nat, w: V, k: nat, v: V)
    requires k != x && b' == b[k := v]
    ensures (a + b')[x := w] == (a + b)[x := w][k := v]
  {
  }

  lemma RemoveLeftOfUnion<V>(a: map<nat, V>, a': map<nat, V>, b: map<nat, V>, x: nat, w: V, k: nat)
    requires k !in b && k != x && a' == a - {k}
    ensures (a' + b)[x := w] == (a + b)[x := w] - {k}
  {
  }

  lemma RemoveRightOfUnion<V>(a: map<nat, V>, b: map<nat, V>, b': map<nat, V>, x: nat, w: V, k: nat)
    requires k !in a && k != x && b' == b - {k}
    ensures (a + b')[x := w] == (a + b)[x := w] - {k}
  {
  }

  /** Moving the left maximum into a two-child node and deleting it below removes the node's key. */
  lemma PredecessorReplaces<V>(t: Tree<V>, m: Entry<nat, V>, l': Tree<V>)
    requires t.Node? && t.left.Node? && IsBst(t)
    requires m == MaxImpl(t.left)
    requires IsBst(l') && MapOf(l') == MapOf(t.left) - {m.key}
    ensures IsBst(Node(l', m.key, m.value, t.right))
    ensures MapOf(Node(l', m.key, m.value, t.right)) == MapOf(t) - {t.key}
  {
    var Node(l, k, v, r) := t;
    assert Keys(l') == Keys(l) - {m.key};
    PredecessorOrders(t, m, l');
    var lhs := MapOf(Node(l', m.key, m.value, r));
    var rhs := MapOf(t) - {k};
    PredecessorKeys(t, m.key, l');
    assert lhs.Keys == rhs.Keys;
    forall x | x in lhs.Keys
      ensures lhs[x] == rhs[x]
    {
      PredecessorValue(t, m, l', x);
    }
  }

  /** The keys after the move are the node's keys without its own. */
  lemma PredecessorKeys<V>(t: Tree<V>, mk: nat, l': Tree<V>)
    requires t.Node? && IsBst(t) && mk in Keys(t.left) && Keys(l') == Keys(t.left) - {mk}
    ensures Keys(l') + {mk} + Keys(t.right) == Keys(t) - {t.key}
  {
    assert t.key !in Keys(t.left) && t.key !in Keys(t.right);
    assert Keys(t) == Keys(t.left) + {t.key} + Keys(t.right);
  }

  lemma PredecessorOrders<V>(t: Tree<V>, m: Entry<nat, V>, l': Tree<V>)
    requires t.Node? && t.left.Node? && IsBst(t)
    requires m == MaxImpl(t.left)
    requires IsBst(l') && Keys(l') == Keys(t.left) - {m.key}
    ensures IsBst(Node(l', m.key, m.value, t.right))
  {
    assert m.key in Keys(t.left) && m.key < t.key;
    assert forall x :: x in Keys(l') ==> x < m.key;
    assert forall x :: x in Keys(t.right) ==> m.key < x;
  }

  lemma PredecessorValue<V>(t: Tree<V>, m: Entry<nat, V>, l': Tree<V>, x: nat)
    requires t.Node? && t.left.Node? && IsBst(t)
    requires m == MaxImpl(t.left)
    requires IsBst(l') && MapOf(l') == MapOf(t.left) - {m.key}
    requires x in Keys(l') + {m.key} + Keys(t.right)
    ensures x != t.key && x in MapOf(t)
    ensures MapOf(Node(l', m.key, m.value, t.right))[x] == MapOf(t)[x]
  {
    var Node(l, k, v, r) := t;
    if x in Keys(r) {
      assert x !in Keys(l);
      assert x !in Keys(l') && x != m.key;
    } else if x == m.key {
      assert MapOf(t)[x] == MapOf(l)[x];
    } else {
      assert x in Keys(l);
      assert x !in Keys(r);
      assert MapOf(t)[x] == MapOf(l)[x];
    }
  }

  // ---------------------------------------------------------------------
  // Height.

  /**
   * upo_bst_height_impl as written: 0 for an empty subtree or a leaf,
   * otherwise one more than the larger of the left height and the left
   * height; the right subtree is never looked at.
   */
  function HeightImpl<V>(t: Tree<V>): nat
  {
    match t
    case Leaf => 0
    case Node(Leaf, _, _, Leaf) => 0
    case Node(l, _, _, _) =>
      var hl := HeightImpl(l);
      var hl' := HeightImpl(l);
      1 + (if hl < hl' then hl' else hl)
  }

  /** The evidently intended height: the number of edges on the longest root-to-leaf path. */
  function IntendedHeight<V>(t: Tree<V>): nat
  {
    match t
    case Leaf => 0
    case Node(Leaf, _, _, Leaf) => 0
    case Node(l, _, _, r) =>
      var hl := IntendedHeight(l);
      var hr := IntendedHeight(r);
      1 + (if hl < hr then hr else hl)
  }

  /** A chain of n nodes has height n - 1 at most, and a tree of height h holds at most 2^(h+1) - 1 nodes. */
  lemma {:induction false} HeightBounds<V>(t: Tree<V>)
    requires t.Node?
    ensures IntendedHeight(t) < SizeImpl(t) && SizeImpl(t) < Pow2(IntendedHeight(t) + 1)
  {
    var Node(l, _, _, r) := t;
    var h := IntendedHeight(t);
    assert Pow2(h + 1) == 2 * Pow2(h);
    assert SizeImpl(t) == 1 + SizeImpl(l) + SizeImpl(r);
    if l.Node? {
      HeightBounds(l);
      Pow2Monotone(IntendedHeight(l) + 1, h);
    }
    if r.Node? {
      HeightBounds(r);
      Pow2Monotone(IntendedHeight(r) + 1, h);
    }
    assert SizeImpl(l) < Pow2(h) && SizeImpl(r) < Pow2(h);
  }

  /** The height as written never exceeds the intended one. */
  lemma {:induction false} HeightImplBelow<V>(t: Tree<V>)
    ensures HeightImpl(t) <= IntendedHeight(t)
  {
    match t
    case Leaf =>
    case Node(l, _, _, r) =>
      HeightImplBelow(l);
  }

  /** A node whose only child is on the right: the right chain 1, 2, 3 has height 1 as written, 2 as intended. */
  lemma HeightImplMissesRightChain<V>(v: V)
    ensures var t := Node(Leaf, 1, v, Node(Leaf, 2, v, Node(Leaf, 3, v, Leaf)));
            IsBst(t) && HeightImpl(t) == 1 && IntendedHeight(t) == 2
  {
    var c := Node(Leaf, 3, v, Leaf);
    var b := Node(Leaf, 2, v, c);
    assert Keys(c) == {3};
    assert Keys(b) == {} + {2} + {3};
    assert IntendedHeight(b) == 1;
  }

  function Pow2(n: nat): (r: nat)
    ensures 0 < r
  {
    if n == 0 then 1 else 2 * Pow2(n - 1)
  }

  lemma {:induction false} Pow2Monotone(a: nat, b: nat)
    requires a <= b
    ensures Pow2(a) <= Pow2(b)
  {
    if a < b { Pow2Monotone(a, b - 1); }
  }

  // ---------------------------------------------------------------------
  // The tree object.

  /** upo_bst_t: a handle on the root of the tree. */
  class Bst<V> {
    var root: Tree<V>

    ghost predicate Valid()
      reads this
    {
      IsBst(root)
    }

    /** The key/value pairs stored in the tree. */
    ghost function Contents(): map<nat, V>
      reads this
    {
      MapOf(root)
    }

    /** upo_bst_create: an empty tree. */
    constructor ()
      ensures Valid() && root == Leaf && Contents() == map[]
    {
      root := Leaf;
    }

    /** upo_bst_clear: the root becomes NULL. */
    method Clear()
      modifies this
      ensures Valid() && root == Leaf && Contents() == map[]
    {
      root := Leaf;
    }

    /** upo_bst_put: it has no return statement, so no value reaches the caller. */
    method Put(k: nat, v: V)
      requires Valid()
      modifies this
      ensures Valid() && root == PutImpl(old(root), k, v)
      ensures Contents() == old(Contents())[k := v]
      ensures k in old(Contents()) ==> SameShape(old(root), root)
    {
      PutImplShape(root, k, v);
      root := PutImpl(root, k, v);
    }

    /** upo_bst_insert */
    method Insert(k: nat, v: V)
      requires Valid()
      modifies this
      ensures Valid() && root == InsertImpl(old(root), k, v)
      ensures Contents() == if k in old(Contents()) then old(Contents()) else old(Contents())[k := v]
    {
      InsertImplPresent(root, k, v);
      root := InsertImpl(root, k, v);
    }

    /** upo_bst_delete */
    method Delete(k: nat)
      requires Valid()
      modifies this
      ensures Valid() && root == DeleteImpl(old(root), k)
      ensures Contents() == old(Contents()) - {k}
      ensures SizeImpl(root) == SizeImpl(old(root)) - (if k in old(Contents()) then 1 else 0)
    {
      SizeIsCount(root);
      root := DeleteImpl(root, k);
      SizeIsCount(root);
    }

    /** upo_bst_get */
    method Get(k: nat) returns (r: Option<V>)
      requires Valid()
      ensures r == Lookup(Contents(), k)
    {
      r := GetImpl(root, k);
    }

    /** upo_bst_size */
    method Size() returns (n: nat)
      requires Valid()
      ensures n == |Contents()|
    {
      SizeIsCount(root);
      n := SizeImpl(root);
    }

    /** upo_bst_height, as written. */
    method Height() returns (h: nat)
      ensures h == HeightImpl(root) && h <= IntendedHeight(root)
    {
      HeightImplBelow(root);
      h := HeightImpl(root);
    }

    /** upo_bst_is_empty */
    method IsEmpty() returns (r: bool)
      requires Valid()
      ensures r <==> Contents() == map[]
    {
      r := root.Leaf?;
    }
  }

  /** upo_bst_contains: 0 for a NULL tree, otherwise whether the key is stored. */
  method Contains<V>(tree: Bst?<V>, k: nat) returns (r: bool)
    requires tree != null ==> tree.Valid()
    ensures r <==> tree != null && k in tree.Contents()
  {
    if tree == null {
      return false;
    }
    r := GetImpl(tree.root, k).Some?;
  }

  /** upo_bst_size on a possibly NULL tree: 0 for NULL. */
  method SizeOf<V>(tree: Bst?<V>) returns (n: nat)
    requires tree != null ==> tree.Valid()
    ensures n == if tree == null then 0 else |tree.Contents()|
  {
    if tree == null {
      return 0;
    }
    n := tree.Size();
  }

  /** Keys 5, 3, 8, 1, 4, 7, 9 inserted in that order give a complete tree of height 2 rooted at 5. */
  lemma InsertExample(v: nat)
    ensures InsertImpl(InsertImpl(InsertImpl(InsertImpl(InsertImpl(InsertImpl(InsertImpl(
              Leaf, 5, v), 3, v), 8, v), 1, v), 4, v), 7, v), 9, v) == ExampleTree(v)
  {
    var n1, n4, n7 := Node(Leaf, 1, v, Leaf), Node(Leaf, 4, v, Leaf), Node(Leaf, 7, v, Leaf);
    InsertFirstThree(v);
    InsertLeftLeft(Leaf, 3, Leaf, 5, Node(Leaf, 8, v, Leaf), 1, v);
    InsertLeftRight(n1, 3, Leaf, 5, Node(Leaf, 8, v, Leaf), 4, v);
    InsertRightLeft(Node(n1, 3, v, n4), 5, Leaf, 8, Leaf, 7, v);
    InsertRightRight(Node(n1, 3, v, n4), 5, n7, 8, Leaf, 9, v);
  }

  /** The first three keys of the example make a root with two leaves. */
  lemma InsertFirstThree(v: nat)
    ensures InsertImpl(InsertImpl(InsertImpl(Leaf, 5, v), 3, v), 8, v) == Node(Node(Leaf, 3, v, Leaf), 5, v, Node(Leaf, 8, v, Leaf))
  {
    var t1 := InsertImpl(Leaf, 5, v);
    assert t1 == Node(Leaf, 5, v, Leaf);
    var t2 := InsertImpl(t1, 3, v);
    assert t2 == Node(Node(Leaf, 3, v, Leaf), 5, v, Leaf);
  }

  /** A key below the root and below its left child goes into the left child's left subtree. */
  lemma InsertLeftLeft(ll: Tree<nat>, y: nat, lr: Tree<nat>, x: nat, r: Tree<nat>, k: nat, v: nat)
    requires ll == Leaf && k < y < x
    ensures InsertImpl(Node(Node(ll, y, v, lr), x, v, r), k, v) == Node(Node(Node(Leaf, k, v, Leaf), y, v, lr), x, v, r)
  {
    assert InsertImpl(Node(ll, y, v, lr), k, v) == Node(Node(Leaf, k, v, Leaf), y, v, lr);
  }

  /** A key below the root and above its left child goes into the left child's right subtree. */
  lemma InsertLeftRight(ll: Tree<nat>, y: nat, lr: Tree<nat>, x: nat, r: Tree<nat>, k: nat, v: nat)
    requires lr == Leaf && y < k < x
    ensures InsertImpl(Node(Node(ll, y, v, lr), x, v, r), k, v) == Node(Node(ll, y, v, Node(Leaf, k, v, Leaf)), x, v, r)
  {
    assert InsertImpl(Node(ll, y, v, lr), k, v) == Node(ll, y, v, Node(Leaf, k, v, Leaf));
  }

  /** A key above the root and below its right child goes into the right child's left subtree. */
  lemma InsertRightLeft(l: Tree<nat>, x: nat, rl: Tree<nat>, y: nat, rr: Tree<nat>, k: nat, v: nat)
    requires rl == Leaf && x < k < y
    ensures InsertImpl(Node(l, x, v, Node(rl, y, v, rr)), k, v) == Node(l, x, v, Node(Node(Leaf, k, v, Leaf), y, v, rr))
  {
    assert InsertImpl(Node(rl, y, v, rr), k, v) == Node(Node(Leaf, k, v, Leaf), y, v, rr);
  }

  /** A key above the root and above its right child goes into the right child's right subtree. */
  lemma InsertRightRight(l: Tree<nat>, x: nat, rl: Tree<nat>, y: nat, rr: Tree<nat>, k: nat, v: nat)
    requires rr == Leaf && x < y < k
    ensures InsertImpl(Node(l, x, v, Node(rl, y, v, rr)), k, v) == Node(l, x, v, Node(rl, y, v, Node(Leaf, k, v, Leaf)))
  {
    assert InsertImpl(Node(rl, y, v, rr), k, v) == Node(rl, y, v, Node(Leaf, k, v, Leaf));
  }

  function ExampleTree(v: nat): Tree<nat>
  {
    Node(Node(Node(Leaf, 1, v, Leaf), 3, v, Node(Leaf, 4, v, Leaf)), 5, v,
         Node(Node(Leaf, 7, v, Leaf), 8, v, Node(Leaf, 9, v, Leaf)))
  }

  /** The example tree is a search tree of height 2 both as written and as intended. */
  lemma ExampleTreeHeight(v: nat)
    ensures IsBst(ExampleTree(v)) && Keys(ExampleTree(v)) == {1, 3, 4, 5, 7, 8, 9}
    ensures HeightImpl(ExampleTree(v)) == 2 && IntendedHeight(ExampleTree(v)) == 2
  {
    var a := Triple(1, 3, 4, v);
    var b := Triple(7, 8, 9, v);
    assert ExampleTree(v) == Node(a, 5, v, b);
    assert Keys(ExampleTree(v)) == {1, 3, 4} + {5} + {7, 8, 9};
  }

  /** Three keys as a complete tree. */
  function Triple<V>(x: nat, y: nat, z: nat, v: V): (t: Tree<V>)
    requires x < y < z
    ensures IsBst(t) && Keys(t) == {x, y, z} && HeightImpl(t) == 1 && IntendedHeight(t) == 1
  {
    var a := Node(Leaf, x, v, Leaf);
    var b := Node(Leaf, z, v, Leaf);
    assert Keys(a) == {} + {x} + {} == {x};
    assert Keys(b) == {} + {z} + {} == {z};
    assert IsBst(a) && IsBst(b);
    assert IntendedHeight(a) == 0 && IntendedHeight(b) == 0;
    Node(a, y, v, b)
  }
}
