/** The four rotations of AVLTree.java and the rebalancing step that
    chooses among them. A rotation rebuilds at most three nodes, recomputes
    their cached heights from their children, and adjusts the left-subtree
    count of the pivot pair. */
module Rotations {
  import opened Trees

  /** `leftRotate`: the right child `ee` becomes the subtree root, the old
      root `e` its left child; `ee.count += e.count + 1`. */
  function RotateLeft<V>(t: Tree<V>): (r: Tree<V>)
    requires t.Node? && t.right.Node?
    ensures r.Node? && r.left.Node?
  {
    var ee := t.right;
    var e := Node(t.left, t.key, t.value, t.count, Max(H(t.left), H(ee.left)) + 1, ee.left);
    Node(e, ee.key, ee.value, ee.count + t.count + 1, Max(H(e), H(ee.right)) + 1, ee.right)
  }

  /** `rightRotate`: the left child `ee` becomes the subtree root, the old
      root `e` its right child; `e.count -= ee.count + 1`. */
  function RotateRight<V>(t: Tree<V>): (r: Tree<V>)
    requires t.Node? && t.left.Node?
    ensures r.Node? && r.right.Node?
  {
    var ee := t.left;
    var e := Node(ee.right, t.key, t.value, t.count - (ee.count + 1), Max(H(ee.right), H(t.right)) + 1, t.right);
    Node(ee.left, ee.key, ee.value, ee.count, Max(H(ee.left), H(e)) + 1, e)
  }

  /** `leftRightRotate`: a left rotation of the left child, then a right
      rotation of the node. */
  function RotateLeftRight<V>(t: Tree<V>): (r: Tree<V>)
    requires t.Node? && t.left.Node? && t.left.right.Node?
    ensures r.Node?
  {
    RotateRight(t.(left := RotateLeft(t.left)))
  }

  /** `rightLeftRotate`: a right rotation of the right child, then a left
      rotation of the node. */
  function RotateRightLeft<V>(t: Tree<V>): (r: Tree<V>)
    requires t.Node? && t.right.Node? && t.right.left.Node?
    ensures r.Node?
  {
    RotateLeft(t.(right := RotateRight(t.right)))
  }

  /** The imbalance both upward passes test for: one child exactly two
      taller than the other, by the cached heights. */
  predicate Imbalanced<V>(t: Tree<V>)
    requires t.Node?
  {
    H(t.left) == H(t.right) + 2 || H(t.left) + 2 == H(t.right)
  }

  /** One step of an upward pass at node `t`, whose children are already
      final: rotate if `t` is imbalanced, otherwise recompute `t.h`. The
      rotation is single when the outer grandchild is at least as tall as
      the inner one, double when the inner one is strictly taller; the
      insertion pass and the deletion pass of the source state this rule
      with opposite comparisons but agree on every input. */
  function Restructure<V>(t: Tree<V>): (r: Tree<V>)
    requires t.Node? && HeightsOk(t.left) && HeightsOk(t.right)
    ensures r.Node?
  {
    HeightAtLeastEmpty(t.left);
    HeightAtLeastEmpty(t.right);
    if H(t.left) == H(t.right) + 2 then
      HeightAtLeastEmpty(t.left.left);
      HeightAtLeastEmpty(t.left.right);
      if H(t.left.left) < H(t.left.right) then RotateLeftRight(t) else RotateRight(t)
    else if H(t.left) + 2 == H(t.right) then
      HeightAtLeastEmpty(t.right.left);
      HeightAtLeastEmpty(t.right.right);
      if H(t.right.right) < H(t.right.left) then RotateRightLeft(t) else RotateLeft(t)
    else
      t.(h := Max(H(t.left), H(t.right)) + 1)
  }

  // ----- what a rotation keeps -------------------------------------------

  /** A left rotation keeps the in-order entries, the key set, the size,
      the ordering and the map, keeps the counts correct, and computes
      correct heights for the two nodes it rebuilds. */
  lemma {:induction false} RotateLeftPreserves<V>(t: Tree<V>)
    requires t.Node? && t.right.Node?
    ensures Elements(RotateLeft(t)) == Elements(t)
    ensures Keys(RotateLeft(t)) == Keys(t)
    ensures Size(RotateLeft(t)) == Size(t)
    ensures Ordered(t) ==> Ordered(RotateLeft(t)) && Contents(RotateLeft(t)) == Contents(t)
    ensures CountsOk(t) ==> CountsOk(RotateLeft(t))
    ensures HeightsOk(t.left) && HeightsOk(t.right.left) && HeightsOk(t.right.right) ==>
      HeightsOk(RotateLeft(t))
  {
    RotateLeftElements(t);
    RotateLeftCounts(t);
    RotateLeftHeights(t);
    if Ordered(t) {
      RotateLeftOrdered(t);
    }
  }

  lemma {:induction false} RotateLeftElements<V>(t: Tree<V>)
    requires t.Node? && t.right.Node?
    ensures Elements(RotateLeft(t)) == Elements(t)
    ensures Keys(RotateLeft(t)) == Keys(t)
  {
    match t
    case Node(a, x, vx, cx, _, Node(b, y, vy, cy, _, c)) =>
      var e := Node(a, x, vx, cx, Max(H(a), H(b)) + 1, b);
      assert RotateLeft(t) == Node(e, y, vy, cy + cx + 1, Max(H(e), H(c)) + 1, c);
  }

  /** `ee.count += e.count + 1` leaves the new root counting its new left
      subtree, the old root with its left-subtree part. */
  lemma {:induction false} RotateLeftCounts<V>(t: Tree<V>)
    requires t.Node? && t.right.Node?
    ensures Size(RotateLeft(t)) == Size(t)
    ensures CountsOk(t) ==> CountsOk(RotateLeft(t))
  {
    match t
    case Node(a, x, vx, cx, _, Node(b, y, vy, cy, _, c)) =>
      var e := Node(a, x, vx, cx, Max(H(a), H(b)) + 1, b);
      assert RotateLeft(t) == Node(e, y, vy, cy + cx + 1, Max(H(e), H(c)) + 1, c);
      assert Size(e) == Size(a) + 1 + Size(b);
      if CountsOk(t) {
        assert CountsOk(t.right);
        assert CountsOk(e);
      }
  }

  lemma {:induction false} RotateLeftHeights<V>(t: Tree<V>)
    requires t.Node? && t.right.Node?
    ensures HeightsOk(t.left) && HeightsOk(t.right.left) && HeightsOk(t.right.right) ==>
      HeightsOk(RotateLeft(t))
  {
    match t
    case Node(a, x, vx, cx, _, Node(b, y, vy, cy, _, c)) =>
      var e := Node(a, x, vx, cx, Max(H(a), H(b)) + 1, b);
      assert RotateLeft(t) == Node(e, y, vy, cy + cx + 1, Max(H(e), H(c)) + 1, c);
  }

  lemma {:induction false} RotateLeftOrdered<V>(t: Tree<V>)
    requires t.Node? && t.right.Node? && Ordered(t)
    ensures Ordered(RotateLeft(t)) && Contents(RotateLeft(t)) == Contents(t)
  {
    match t
    case Node(a, x, vx, cx, _, Node(b, y, vy, cy, _, c)) =>
      var e := Node(a, x, vx, cx, Max(H(a), H(b)) + 1, b);
      assert RotateLeft(t) == Node(e, y, vy, cy + cx + 1, Max(H(e), H(c)) + 1, c);
      assert y in Keys(t.right);
      assert Ordered(e);
      KeysAreContentsDomain(a);
      KeysAreContentsDomain(c);
      assert x !in Keys(c);
      assert y !in Keys(a);
      MapRotation(Contents(a), x, vx, Contents(b), y, vy, Contents(c));
  }

  /** A right rotation keeps what a left rotation keeps. */
  lemma {:induction false} RotateRightPreserves<V>(t: Tree<V>)
    requires t.Node? && t.left.Node?
    ensures Elements(RotateRight(t)) == Elements(t)
    ensures Keys(RotateRight(t)) == Keys(t)
    ensures Size(RotateRight(t)) == Size(t)
    ensures Ordered(t) ==> Ordered(RotateRight(t)) && Contents(RotateRight(t)) == Contents(t)
    ensures CountsOk(t) ==> CountsOk(RotateRight(t))
    ensures HeightsOk(t.left.left) && HeightsOk(t.left.right) && HeightsOk(t.right) ==>
      HeightsOk(RotateRight(t))
  {
    RotateRightElements(t);
    RotateRightCounts(t);
    RotateRightHeights(t);
    if Ordered(t) {
      RotateRightOrdered(t);
    }
  }

  lemma {:induction false} RotateRightElements<V>(t: Tree<V>)
    requires t.Node? && t.left.Node?
    ensures Elements(RotateRight(t)) == Elements(t)
    ensures Keys(RotateRight(t)) == Keys(t)
  {
    match t
    case Node(Node(a, x, vx, cx, _, b), y, vy, cy, _, c) =>
      var e := Node(b, y, vy, cy - (cx + 1), Max(H(b), H(c)) + 1, c);
      var r := Node(a, x, vx, cx, Max(H(a), H(e)) + 1, e);
      assert RotateRight(t) == r;
      assert Elements(r) == Elements(t) by {
        assert Elements(e) == Elements(b) + [Entry(y, vy)] + Elements(c);
      }
      assert Keys(r) == Keys(t) by {
        assert Keys(e) == Keys(b) + {y} + Keys(c);
      }
  }

  /** `e.count -= ee.count + 1` leaves the demoted root counting only the
      subtree it inherits from the pivot. */
  lemma {:induction false} RotateRightCounts<V>(t: Tree<V>)
    requires t.Node? && t.left.Node?
    ensures Size(RotateRight(t)) == Size(t)
    ensures CountsOk(t) ==> CountsOk(RotateRight(t))
  {
    match t
    case Node(Node(a, x, vx, cx, _, b), y, vy, cy, _, c) =>
      var e := Node(b, y, vy, cy - (cx + 1), Max(H(b), H(c)) + 1, c);
      assert RotateRight(t) == Node(a, x, vx, cx, Max(H(a), H(e)) + 1, e);
      assert Size(e) == Size(b) + 1 + Size(c);
      if CountsOk(t) {
        assert CountsOk(t.left);
        assert cy == Size(a) + 1 + Size(b);
        assert CountsOk(e);
      }
  }

  lemma {:induction false} RotateRightHeights<V>(t: Tree<V>)
    requires t.Node? && t.left.Node?
    ensures HeightsOk(t.left.left) && HeightsOk(t.left.right) && HeightsOk(t.right) ==>
      HeightsOk(RotateRight(t))
  {
    match t
    case Node(Node(a, x, vx, cx, _, b), y, vy, cy, _, c) =>
      var e := Node(b, y, vy, cy - (cx + 1), Max(H(b), H(c)) + 1, c);
      assert RotateRight(t) == Node(a, x, vx, cx, Max(H(a), H(e)) + 1, e);
  }

  lemma {:induction false} RotateRightOrdered<V>(t: Tree<V>)
    requires t.Node? && t.left.Node? && Ordered(t)
    ensures Ordered(RotateRight(t)) && Contents(RotateRight(t)) == Contents(t)
  {
    match t
    case Node(Node(a, x, vx, cx, _, b), y, vy, cy, _, c) =>
      var e := Node(b, y, vy, cy - (cx + 1), Max(H(b), H(c)) + 1, c);
      assert RotateRight(t) == Node(a, x, vx, cx, Max(H(a), H(e)) + 1, e);
      assert x in Keys(t.left);
      assert Ordered(e);
      KeysAreContentsDomain(a);
      KeysAreContentsDomain(c);
      assert x !in Keys(c);
      assert y !in Keys(a);
      MapRotation(Contents(a), x, vx, Contents(b), y, vy, Contents(c));
  }

  lemma {:induction false} RotateLeftRightPreserves<V>(t: Tree<V>)
    requires t.Node? && t.left.Node? && t.left.right.Node?
    ensures Elements(RotateLeftRight(t)) == Elements(t)
    ensures Keys(RotateLeftRight(t)) == Keys(t)
    ensures Size(RotateLeftRight(t)) == Size(t)
    ensures Ordered(t) ==> Ordered(RotateLeftRight(t)) && Contents(RotateLeftRight(t)) == Contents(t)
    ensures CountsOk(t) ==> CountsOk(RotateLeftRight(t))
    ensures HeightsOk(t.left) && HeightsOk(t.right) ==> HeightsOk(RotateLeftRight(t))
  {
    var l' := RotateLeft(t.left);
    RotateLeftPreserves(t.left);
    var t' := Node(l', t.key, t.value, t.count, t.h, t.right);
    assert RotateLeftRight(t) == RotateRight(t');
    RotateRightPreserves(t');
    SameLeftEntries(t, l');
    if HeightsOk(t.left) {
      assert HeightsOk(t.left.right);
    }
  }

  lemma {:induction false} RotateRightLeftPreserves<V>(t: Tree<V>)
    requires t.Node? && t.right.Node? && t.right.left.Node?
    ensures Elements(RotateRightLeft(t)) == Elements(t)
    ensures Keys(RotateRightLeft(t)) == Keys(t)
    ensures Size(RotateRightLeft(t)) == Size(t)
    ensures Ordered(t) ==> Ordered(RotateRightLeft(t)) && Contents(RotateRightLeft(t)) == Contents(t)
    ensures CountsOk(t) ==> CountsOk(RotateRightLeft(t))
    ensures HeightsOk(t.left) && HeightsOk(t.right) ==> HeightsOk(RotateRightLeft(t))
  {
    var r' := RotateRight(t.right);
    RotateRightPreserves(t.right);
    var t' := Node(t.left, t.key, t.value, t.count, t.h, r');
    assert RotateRightLeft(t) == RotateLeft(t');
    RotateLeftPreserves(t');
    SameRightEntries(t, r');
    if HeightsOk(t.right) {
      assert HeightsOk(t.right.left);
    }
  }

  /** Replacing a left subtree by one with the same entries, size and
      ordering changes nothing the invariants look at above it. */
  lemma {:induction false} SameLeftEntries<V>(t: Tree<V>, l': Tree<V>)
    requires t.Node?
    requires Elements(l') == Elements(t.left) && Keys(l') == Keys(t.left) && Size(l') == Size(t.left)
    requires Ordered(t.left) ==> Ordered(l') && Contents(l') == Contents(t.left)
    requires CountsOk(t.left) ==> CountsOk(l')
    ensures var t' := Node(l', t.key, t.value, t.count, t.h, t.right);
      && Elements(t') == Elements(t) && Keys(t') == Keys(t) && Size(t') == Size(t)
      && (Ordered(t) ==> Ordered(t') && Contents(t') == Contents(t))
      && (CountsOk(t) ==> CountsOk(t'))
  {
  }

  lemma {:induction false} SameRightEntries<V>(t: Tree<V>, r': Tree<V>)
    requires t.Node?
    requires Elements(r') == Elements(t.right) && Keys(r') == Keys(t.right) && Size(r') == Size(t.right)
    requires Ordered(t.right) ==> Ordered(r') && Contents(r') == Contents(t.right)
    requires CountsOk(t.right) ==> CountsOk(r')
    ensures var t' := Node(t.left, t.key, t.value, t.count, t.h, r');
      && Elements(t') == Elements(t) && Keys(t') == Keys(t) && Size(t') == Size(t)
      && (Ordered(t) ==> Ordered(t') && Contents(t') == Contents(t))
      && (CountsOk(t) ==> CountsOk(t'))
  {
  }

  /** A rebalancing step changes neither the entries nor the map, keeps
      the ordering and the counts, and leaves every cached height correct. */
  lemma {:induction false} RestructurePreserves<V>(t: Tree<V>)
    requires t.Node? && HeightsOk(t.left) && HeightsOk(t.right)
    ensures Elements(Restructure(t)) == Elements(t)
    ensures Keys(Restructure(t)) == Keys(t)
    ensures Size(Restructure(t)) == Size(t)
    ensures Ordered(t) ==> Ordered(Restructure(t)) && Contents(Restructure(t)) == Contents(t)
    ensures CountsOk(t) ==> CountsOk(Restructure(t))
    ensures HeightsOk(Restructure(t))
  {
    HeightAtLeastEmpty(t.left);
    HeightAtLeastEmpty(t.right);
    if H(t.left) == H(t.right) + 2 {
      HeightAtLeastEmpty(t.left.left);
      HeightAtLeastEmpty(t.left.right);
      if H(t.left.left) < H(t.left.right) {
        RotateLeftRightPreserves(t);
      } else {
        RotateRightPreserves(t);
      }
    } else if H(t.left) + 2 == H(t.right) {
      HeightAtLeastEmpty(t.right.left);
      HeightAtLeastEmpty(t.right.right);
      if H(t.right.right) < H(t.right.left) {
        RotateRightLeftPreserves(t);
      } else {
        RotateLeftPreserves(t);
      }
    }
  }

  /** The parts of `RestructurePreserves` most callers need, stated alone
      to keep their proofs small. */
  lemma {:induction false} RestructureKeepsElements<V>(t: Tree<V>)
    requires t.Node? && HeightsOk(t.left) && HeightsOk(t.right)
    ensures Elements(Restructure(t)) == Elements(t)
    ensures Keys(Restructure(t)) == Keys(t)
  {
    RestructurePreserves(t);
  }

  lemma {:induction false} RestructureKeepsContents<V>(t: Tree<V>)
    requires t.Node? && HeightsOk(t.left) && HeightsOk(t.right) && Ordered(t)
    ensures Ordered(Restructure(t)) && Contents(Restructure(t)) == Contents(t)
    ensures Keys(Restructure(t)) == Keys(t)
  {
    RestructurePreserves(t);
  }

  // ----- what a rotation repairs -----------------------------------------

  /** Rebalancing a node whose AVL children differ in height by at most
      two yields an AVL tree. Without a rotation its height is one more
      than the taller child; with one it is the taller child's height or
      one more, and exactly the taller child's height when that child's
      own children differ in height (the situation an insertion creates). */
  lemma {:induction false} RestructureRebalances<V>(t: Tree<V>)
    requires t.Node? && Avl(t.left) && Avl(t.right)
    requires -2 <= H(t.left) - H(t.right) <= 2
    ensures Avl(Restructure(t))
    ensures -1 <= H(t.left) - H(t.right) <= 1 ==>
      H(Restructure(t)) == Max(H(t.left), H(t.right)) + 1
    ensures H(t.left) == H(t.right) + 2 ==>
      && H(t.left) <= H(Restructure(t)) <= H(t.left) + 1
      && (t.left.Node? && H(t.left.left) != H(t.left.right) ==> H(Restructure(t)) == H(t.left))
    ensures H(t.left) + 2 == H(t.right) ==>
      && H(t.right) <= H(Restructure(t)) <= H(t.right) + 1
      && (t.right.Node? && H(t.right.left) != H(t.right.right) ==> H(Restructure(t)) == H(t.right))
  {
    RestructurePreserves(t);
    HeightAtLeastEmpty(t.left);
    HeightAtLeastEmpty(t.right);
    if H(t.left) == H(t.right) + 2 {
      HeightAtLeastEmpty(t.left.left);
      HeightAtLeastEmpty(t.left.right);
      if H(t.left.left) < H(t.left.right) {
        LeftRightBalances(t);
      } else {
        RightBalances(t);
      }
    } else if H(t.left) + 2 == H(t.right) {
      HeightAtLeastEmpty(t.right.left);
      HeightAtLeastEmpty(t.right.right);
      if H(t.right.right) < H(t.right.left) {
        RightLeftBalances(t);
      } else {
        LeftBalances(t);
      }
    }
  }

  lemma {:induction false} RightBalances<V>(t: Tree<V>)
    requires t.Node? && t.left.Node? && Avl(t.left) && Avl(t.right)
    requires H(t.left) == H(t.right) + 2 && H(t.left.left) >= H(t.left.right)
    ensures Avl(RotateRight(t))
    ensures H(t.left) <= H(RotateRight(t)) <= H(t.left) + 1
    ensures H(t.left.left) != H(t.left.right) ==> H(RotateRight(t)) == H(t.left)
  {
    RotateRightPreserves(t);
    match t
    case Node(Node(a, x, vx, cx, _, b), y, vy, cy, _, c) =>
      var e := Node(b, y, vy, cy - (cx + 1), Max(H(b), H(c)) + 1, c);
      assert RotateRight(t) == Node(a, x, vx, cx, Max(H(a), H(e)) + 1, e);
      assert H(a) == H(c) + 1;
  }

  lemma {:induction false} LeftBalances<V>(t: Tree<V>)
    requires t.Node? && t.right.Node? && Avl(t.left) && Avl(t.right)
    requires H(t.left) + 2 == H(t.right) && H(t.right.right) >= H(t.right.left)
    ensures Avl(RotateLeft(t))
    ensures H(t.right) <= H(RotateLeft(t)) <= H(t.right) + 1
    ensures H(t.right.left) != H(t.right.right) ==> H(RotateLeft(t)) == H(t.right)
  {
    RotateLeftPreserves(t);
    match t
    case Node(a, x, vx, cx, _, Node(b, y, vy, cy, _, c)) =>
      var e := Node(a, x, vx, cx, Max(H(a), H(b)) + 1, b);
      assert RotateLeft(t) == Node(e, y, vy, cy + cx + 1, Max(H(e), H(c)) + 1, c);
      assert H(c) == H(a) + 1;
  }

  lemma {:induction false} LeftRightBalances<V>(t: Tree<V>)
    requires t.Node? && t.left.Node? && t.left.right.Node? && Avl(t.left) && Avl(t.right)
    requires H(t.left) == H(t.right) + 2 && H(t.left.left) < H(t.left.right)
    ensures Avl(RotateLeftRight(t))
    ensures H(RotateLeftRight(t)) == H(t.left)
  {
    RotateLeftRightPreserves(t);
    match t
    case Node(Node(a, x, vx, cx, hx, Node(b, y, vy, cy, hy, c)), z, vz, cz, _, d) =>
      assert Avl(Node(b, y, vy, cy, hy, c));
      HeightAtLeastEmpty(b);
      HeightAtLeastEmpty(c);
      assert H(a) == H(d);
      var e1 := Node(a, x, vx, cx, Max(H(a), H(b)) + 1, b);
      var l' := Node(e1, y, vy, cy + cx + 1, Max(H(e1), H(c)) + 1, c);
      assert RotateLeft(t.left) == l';
      var e2 := Node(c, z, vz, cz - (cy + cx + 2), Max(H(c), H(d)) + 1, d);
      assert RotateLeftRight(t) == Node(e1, y, vy, cy + cx + 1, Max(H(e1), H(e2)) + 1, e2);
      assert Balanced(e1) && Balanced(e2);
  }

  lemma {:induction false} RightLeftBalances<V>(t: Tree<V>)
    requires t.Node? && t.right.Node? && t.right.left.Node? && Avl(t.left) && Avl(t.right)
    requires H(t.left) + 2 == H(t.right) && H(t.right.right) < H(t.right.left)
    ensures Avl(RotateRightLeft(t))
    ensures H(RotateRightLeft(t)) == H(t.right)
  {
    RotateRightLeftPreserves(t);
    match t
    case Node(a, x, vx, cx, _, Node(Node(b, y, vy, cy, hy, c), z, vz, cz, hz, d)) =>
      assert Avl(Node(b, y, vy, cy, hy, c));
      HeightAtLeastEmpty(b);
      HeightAtLeastEmpty(c);
      assert H(a) == H(d);
      var e2 := Node(c, z, vz, cz - (cy + 1), Max(H(c), H(d)) + 1, d);
      var r' := Node(b, y, vy, cy, Max(H(b), H(e2)) + 1, e2);
      assert RotateRight(t.right) == r';
      var e1 := Node(a, x, vx, cx, Max(H(a), H(b)) + 1, b);
      assert RotateRightLeft(t) == Node(e1, y, vy, cy + cx + 1, Max(H(e1), H(e2)) + 1, e2);
      assert Balanced(e1) && Balanced(e2);
  }

  /** The map identity behind both rotations: with `x` outside `c` and `y`
      outside `a`, grouping `a x b` under `y` or `b y c` under `x` gives the
      same map. */
  lemma {:induction false} MapRotation<V>(a: map<int, V>, x: int, vx: V, b: map<int, V>, y: int, vy: V, c: map<int, V>)
    requires x != y && x !in c && y !in a
    ensures ((a + b)[x := vx] + c)[y := vy] == (a + (b + c)[y := vy])[x := vx]
  {
    var m1 := ((a + b)[x := vx] + c)[y := vy];
    var m2 := (a + (b + c)[y := vy])[x := vx];
    assert m1.Keys == m2.Keys;
    forall z | z in m1 ensures m1[z] == m2[z] {
      if z == x {
      } else if z == y {
      } else if z in c {
      } else if z in b {
      }
    }
  }
}
