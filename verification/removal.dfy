/** `remove`: descend to the key; unlink its node by one of `removeImpl`'s
    three cases (no child, one child, two children); subtract one from the
    count of every ancestor of the unlinked node entered through its left
    child; then walk up from the unlinked node's parent to the root,
    recomputing heights and rotating wherever a node is two out of balance.
    Unlike the insertion walk, this one never stops early. The walk is the
    unwinding of the recursion. */
module Removal {
  import opened Wrappers
  import opened Trees
  import opened Rotations

  datatype Removed<V> = Removed(tree: Tree<V>, removed: Option<V>)

  datatype MinRemoved<V> = MinRemoved(tree: Tree<V>, entry: Entry<V>)

  /** Remove `k` below `t`, reporting the value it was bound to. The tree
      that comes back is an AVL tree at most one lower than `t`, and `t`
      itself when `k` is absent. */
  function RemoveAt<V>(t: Tree<V>, k: int): (r: Removed<V>)
    requires Avl(t)
    ensures Avl(r.tree) && H(t) - 1 <= H(r.tree) <= H(t)
    ensures r.removed.None? ==> r.tree == t
    decreases t
  {
    match t
    case Leaf => Removed(Leaf, None)
    case Node(l, key, value, c, h, right) =>
      if k < key then
        var sub := RemoveAt(l, k);
        if sub.removed.None? then Removed(t, None)
        else
          var c' := if sub.tree.Leaf? then 0 else c - 1;
          ShrunkLeftRebalances(t, sub.tree, c');
          Removed(Restructure(Node(sub.tree, key, value, c', h, right)), sub.removed)
      else if key < k then
        var sub := RemoveAt(right, k);
        if sub.removed.None? then Removed(t, None)
        else
          ShrunkRightRebalances(t, sub.tree, key, value);
          Removed(Restructure(Node(l, key, value, c, h, sub.tree)), sub.removed)
      else
        Removed(Unlink(t), Some(value))
  }

  /** `removeImpl` on the node `t` holding the key, followed by the walk up
      to `t` itself: a leaf is dropped, a node with one child is replaced
      by that child, and a node with two children takes over the key and
      value of its in-order successor, which is unlinked from the right
      subtree instead. */
  function Unlink<V>(t: Tree<V>): (r: Tree<V>)
    requires t.Node? && Avl(t)
    ensures Avl(r) && H(t) - 1 <= H(r) <= H(t)
  {
    var Node(l, key, value, c, h, right) := t;
    HeightAtLeastEmpty(l);
    HeightAtLeastEmpty(right);
    if l.Leaf? && right.Leaf? then Leaf
    else if l.Leaf? || right.Leaf? then (if !l.Leaf? then l else right)
    else
      var m := RemoveMin(right);
      ShrunkRightRebalances(t, m.tree, m.entry.key, m.entry.value);
      Restructure(Node(l, m.entry.key, m.entry.value, c, h, m.tree))
  }

  /** Unlink the leftmost node of `t` (it has no left child; its right
      child takes its place), subtract one from the count of each node
      above it, and rebalance each of those nodes on the way back up. */
  function RemoveMin<V>(t: Tree<V>): (r: MinRemoved<V>)
    requires t.Node? && Avl(t)
    ensures Avl(r.tree) && H(t) - 1 <= H(r.tree) <= H(t)
    decreases t
  {
    var Node(l, key, value, c, h, right) := t;
    HeightAtLeastEmpty(right);
    if l.Leaf? then MinRemoved(right, Entry(key, value))
    else
      var sub := RemoveMin(l);
      ShrunkLeftRebalances(t, sub.tree, c - 1);
      MinRemoved(Restructure(Node(sub.tree, key, value, c - 1, h, right)), sub.entry)
  }

  /** The deletion walk at a node whose left subtree lost at most one
      level: the node's children are AVL trees at most two apart, and
      rebalancing leaves an AVL tree at most one lower than before. */
  lemma {:induction false} ShrunkLeftRebalances<V>(t: Tree<V>, l': Tree<V>, c': int)
    requires t.Node? && Avl(t) && Avl(l') && H(t.left) - 1 <= H(l') <= H(t.left)
    ensures var n := Node(l', t.key, t.value, c', t.h, t.right);
      && HeightsOk(n.left) && HeightsOk(n.right)
      && Avl(Restructure(n)) && H(t) - 1 <= H(Restructure(n)) <= H(t)
  {
    RestructureRebalances(Node(l', t.key, t.value, c', t.h, t.right));
  }

  /** The same at a node whose right subtree lost at most one level; the
      node may meanwhile have taken over another key and value. */
  lemma {:induction false} ShrunkRightRebalances<V>(t: Tree<V>, r': Tree<V>, key: int, value: V)
    requires t.Node? && Avl(t) && Avl(r') && H(t.right) - 1 <= H(r') <= H(t.right)
    ensures var n := Node(t.left, key, value, t.count, t.h, r');
      && HeightsOk(n.left) && HeightsOk(n.right)
      && Avl(Restructure(n)) && H(t) - 1 <= H(Restructure(n)) <= H(t)
  {
    RestructureRebalances(Node(t.left, key, value, t.count, t.h, r'));
  }

  // ----- what removal does to the entries ----------------------------------

  /** The unlinked minimum is the first in-order entry, and what remains
      holds the other entries in order, with correct counts. */
  lemma {:induction false} RemoveMinEntries<V>(t: Tree<V>)
    requires t.Node? && Avl(t)
    ensures var m := RemoveMin(t);
      && Elements(t) == [m.entry] + Elements(m.tree)
      && Keys(t) == Keys(m.tree) + {m.entry.key}
      && Size(m.tree) == Size(t) - 1
      && (CountsOk(t) ==> CountsOk(m.tree))
  {
    RemoveMinElements(t);
    RemoveMinCounts(t);
  }

  lemma {:induction false} RemoveMinElements<V>(t: Tree<V>)
    requires t.Node? && Avl(t)
    ensures var m := RemoveMin(t);
      && Elements(t) == [m.entry] + Elements(m.tree)
      && Keys(t) == Keys(m.tree) + {m.entry.key}
    decreases t
  {
    if t.left.Node? {
      RemoveMinElements(t.left);
      var sub := RemoveMin(t.left);
      var n := Node(sub.tree, t.key, t.value, t.count - 1, t.h, t.right);
      RemoveMinUnfold(t);
      assert Elements(t) == [sub.entry] + Elements(n) by {
        FirstMovesOut(t, sub.entry, n);
      }
      assert Keys(t) == Keys(n) + {sub.entry.key} by {
        FirstKeyMovesOut(t, sub.entry, n);
      }
      RestructureKeepsElements(n);
    }
  }

  /** Replacing the left subtree of `t` by one without its first entry `e`
      takes `e` off the front of the whole tree. */
  lemma {:induction false} FirstMovesOut<V>(t: Tree<V>, e: Entry<V>, n: Tree<V>)
    requires t.Node? && n.Node? && n.key == t.key && n.value == t.value && n.right == t.right
    requires Elements(t.left) == [e] + Elements(n.left)
    ensures Elements(t) == [e] + Elements(n)
  {
  }

  lemma {:induction false} FirstKeyMovesOut<V>(t: Tree<V>, e: Entry<V>, n: Tree<V>)
    requires t.Node? && n.Node? && n.key == t.key && n.right == t.right
    requires Keys(t.left) == Keys(n.left) + {e.key}
    ensures Keys(t) == Keys(n) + {e.key}
  {
  }

  /** One level of `RemoveMin` at a node with a left child. */
  lemma {:induction false} RemoveMinUnfold<V>(t: Tree<V>)
    requires t.Node? && t.left.Node? && Avl(t)
    ensures var sub := RemoveMin(t.left);
      RemoveMin(t) == MinRemoved(Restructure(Node(sub.tree, t.key, t.value, t.count - 1, t.h, t.right)), sub.entry)
  {
  }

  lemma {:induction false} RemoveMinCounts<V>(t: Tree<V>)
    requires t.Node? && Avl(t)
    ensures var m := RemoveMin(t);
      && Size(m.tree) == Size(t) - 1
      && (CountsOk(t) ==> CountsOk(m.tree))
    decreases t
  {
    var Node(l, key, value, c, h, right) := t;
    if l.Node? {
      RemoveMinCounts(l);
      var sub := RemoveMin(l);
      var n := Node(sub.tree, key, value, c - 1, h, right);
      assert RemoveMin(t).tree == Restructure(n);
      RestructurePreserves(n);
      if CountsOk(t) {
        assert CountsOk(n);
      }
    }
  }

  /** In an ordered tree the unlinked minimum is a binding whose key is
      below every key that remains, and the remainder is ordered and
      represents the map without that key. */
  lemma {:induction false} RemoveMinContents<V>(t: Tree<V>)
    requires t.Node? && Avl(t) && Ordered(t)
    ensures MinSplit(t, RemoveMin(t).entry, RemoveMin(t).tree)
    decreases t
  {
    if t.left.Leaf? {
      MinAtRoot(t);
    } else {
      RemoveMinContents(t.left);
      RemoveMinElements(t.left);
      var sub := RemoveMin(t.left);
      var n := Node(sub.tree, t.key, t.value, t.count - 1, t.h, t.right);
      RemoveMinUnfold(t);
      assert MinSplit(t, sub.entry, n) by {
        MinBelow(t, sub.entry, n);
      }
      RestructureKeepsContents(n);
    }
  }

  /** `e` is the least binding of the ordered tree `t`, and `rest` is an
      ordered tree holding exactly the other bindings. */
  ghost predicate MinSplit<V>(t: Tree<V>, e: Entry<V>, rest: Tree<V>) {
    && Ordered(rest)
    && e.key in Contents(t) && Contents(t)[e.key] == e.value
    && (forall x :: x in Keys(rest) ==> e.key < x)
    && Contents(rest) == Contents(t) - {e.key}
  }

  lemma {:induction false} MinAtRoot<V>(t: Tree<V>)
    requires t.Node? && t.left.Leaf? && Ordered(t)
    ensures MinSplit(t, Entry(t.key, t.value), t.right)
  {
    KeysAreContentsDomain(t.right);
    assert Contents(t) - {t.key} == Contents(t.right);
  }

  /** Splitting the least binding off the left subtree splits it off the
      whole tree. */
  lemma {:induction false} MinBelow<V>(t: Tree<V>, e: Entry<V>, n: Tree<V>)
    requires t.Node? && n.Node? && Ordered(t)
    requires n.key == t.key && n.value == t.value && n.right == t.right
    requires MinSplit(t.left, e, n.left)
    ensures MinSplit(t, e, n)
  {
    var Node(l, key, value, c, h, right) := t;
    KeysAreContentsDomain(l);
    KeysAreContentsDomain(n.left);
    KeysAreContentsDomain(right);
    assert e.key < key;
    assert Ordered(n);
    assert Contents(n) == Contents(t) - {e.key} by {
      assert e.key !in Contents(right);
      MapRemoveBelow(Contents(l), Contents(right), key, value, e.key);
    }
  }

  /** Unlinking the node `t` leaves the entries of its two subtrees, in
      order, with correct counts. */
  lemma {:induction false} UnlinkEntries<V>(t: Tree<V>)
    requires t.Node? && Avl(t)
    ensures Elements(Unlink(t)) == Elements(t.left) + Elements(t.right)
    ensures Keys(Unlink(t)) == Keys(t.left) + Keys(t.right)
    ensures Size(Unlink(t)) == Size(t) - 1
    ensures CountsOk(t) ==> CountsOk(Unlink(t))
  {
    if t.left.Node? && t.right.Node? {
      SuccessorEntries(t);
    }
  }

  /** The two-child case: the successor's entry moves into the node. */
  lemma {:induction false} SuccessorEntries<V>(t: Tree<V>)
    requires t.Node? && t.left.Node? && t.right.Node? && Avl(t)
    ensures Elements(Unlink(t)) == Elements(t.left) + Elements(t.right)
    ensures Keys(Unlink(t)) == Keys(t.left) + Keys(t.right)
    ensures Size(Unlink(t)) == Size(t) - 1
    ensures CountsOk(t) ==> CountsOk(Unlink(t))
  {
    var m := RemoveMin(t.right);
    var n := Node(t.left, m.entry.key, m.entry.value, t.count, t.h, m.tree);
    UnlinkUnfold(t);
    assert Elements(n) == Elements(t.left) + Elements(t.right) by {
      RemoveMinElements(t.right);
      SuccessorElementsMove(t, m.entry, n);
    }
    assert Keys(n) == Keys(t.left) + Keys(t.right) by {
      RemoveMinElements(t.right);
      SuccessorKeysMove(t, m.entry, n);
    }
    assert CountsOk(t) ==> CountsOk(n) by {
      RemoveMinCounts(t.right);
    }
    RestructurePreserves(n);
  }

  /** The two-child case of `Unlink`, one level unfolded. */
  lemma {:induction false} UnlinkUnfold<V>(t: Tree<V>)
    requires t.Node? && t.left.Node? && t.right.Node? && Avl(t)
    ensures var m := RemoveMin(t.right);
      Unlink(t) == Restructure(Node(t.left, m.entry.key, m.entry.value, t.count, t.h, m.tree))
  {
  }

  lemma {:induction false} SuccessorElementsMove<V>(t: Tree<V>, e: Entry<V>, n: Tree<V>)
    requires t.Node? && n.Node? && n.left == t.left && n.key == e.key && n.value == e.value
    requires Elements(t.right) == [e] + Elements(n.right)
    ensures Elements(n) == Elements(t.left) + Elements(t.right)
  {
  }

  lemma {:induction false} SuccessorKeysMove<V>(t: Tree<V>, e: Entry<V>, n: Tree<V>)
    requires t.Node? && n.Node? && n.left == t.left && n.key == e.key
    requires Keys(t.right) == Keys(n.right) + {e.key}
    ensures Keys(n) == Keys(t.left) + Keys(t.right)
  {
  }

  /** In an ordered tree, unlinking the node `t` leaves an ordered tree
      that represents the map without `t.key`. */
  lemma {:induction false} UnlinkContents<V>(t: Tree<V>)
    requires t.Node? && Avl(t) && Ordered(t)
    ensures Ordered(Unlink(t))
    ensures Contents(Unlink(t)) == Contents(t) - {t.key}
  {
    if t.left.Node? && t.right.Node? {
      SuccessorContents(t);
    } else {
      var Node(l, key, value, c, h, right) := t;
      KeysAreContentsDomain(l);
      KeysAreContentsDomain(right);
      assert Contents(t) - {key} == Contents(l) + Contents(right);
    }
  }

  /** The two-child case: the successor's entry moves into the node. */
  lemma {:induction false} SuccessorContents<V>(t: Tree<V>)
    requires t.Node? && t.left.Node? && t.right.Node? && Avl(t) && Ordered(t)
    ensures Ordered(Unlink(t))
    ensures Contents(Unlink(t)) == Contents(t) - {t.key}
  {
    var m := RemoveMin(t.right);
    var n := Node(t.left, m.entry.key, m.entry.value, t.count, t.h, m.tree);
    UnlinkUnfold(t);
    assert Ordered(n) && Contents(n) == Contents(t) - {t.key} by {
      RemoveMinContents(t.right);
      SuccessorMoves(t, m.entry, n);
    }
    RestructureKeepsContents(n);
  }

  /** Moving the least binding of the right subtree into the node drops the
      node's own binding and keeps the ordering. */
  lemma {:induction false} SuccessorMoves<V>(t: Tree<V>, e: Entry<V>, n: Tree<V>)
    requires t.Node? && n.Node? && Ordered(t)
    requires n.left == t.left && n.key == e.key && n.value == e.value
    requires MinSplit(t.right, e, n.right)
    ensures Ordered(n) && Contents(n) == Contents(t) - {t.key}
  {
    var Node(l, key, value, c, h, right) := t;
    var s := e.key;
    KeysAreContentsDomain(l);
    KeysAreContentsDomain(right);
    assert s in Keys(right);
    assert Ordered(n) by {
      KeysAreContentsDomain(n.right);
    }
    assert s !in Contents(l) && key !in Contents(l) && key !in Contents(right);
    MapSuccessor(Contents(l), Contents(right), s);
    assert Contents(t) - {key} == Contents(l) + Contents(right);
  }

  /** Removal shrinks the size by one exactly when something was removed,
      and keeps the counts correct. */
  lemma {:induction false} RemoveAtEntries<V>(t: Tree<V>, k: int)
    requires Avl(t)
    ensures var r := RemoveAt(t, k);
      && Size(r.tree) == Size(t) - (if r.removed.Some? then 1 else 0)
      && (CountsOk(t) ==> CountsOk(r.tree))
    decreases t
  {
    match t
    case Leaf =>
    case Node(l, key, value, c, h, right) =>
      if k < key {
        RemoveAtEntries(l, k);
        var sub := RemoveAt(l, k);
        if sub.removed.Some? {
          var c' := if sub.tree.Leaf? then 0 else c - 1;
          var n := Node(sub.tree, key, value, c', h, right);
          assert RemoveAt(t, k).tree == Restructure(n);
          RestructurePreserves(n);
          if CountsOk(t) {
            assert CountsOk(n);
          }
        }
      } else if key < k {
        RemoveAtEntries(right, k);
        var sub := RemoveAt(right, k);
        if sub.removed.Some? {
          var n := Node(l, key, value, c, h, sub.tree);
          assert RemoveAt(t, k).tree == Restructure(n);
          RestructurePreserves(n);
        }
      } else {
        UnlinkEntries(t);
      }
  }

  /** On an ordered tree, removal keeps the ordering, unbinds `k` and
      leaves every other binding alone, and reports the value `k` was
      bound to, or nothing when it was unbound. */
  lemma {:induction false} RemoveAtContents<V>(t: Tree<V>, k: int)
    requires Avl(t) && Ordered(t)
    ensures RemovedFrom(t, k, RemoveAt(t, k))
    decreases t
  {
    match t
    case Leaf =>
    case Node(l, key, value, c, h, right) =>
      if k < key {
        RemoveAtContents(l, k);
        RemoveBelowStep(t, k);
      } else if key < k {
        RemoveAtContents(right, k);
        RemoveAboveStep(t, k);
      } else {
        UnlinkContents(t);
        KeysAreContentsDomain(t);
      }
  }

  /** `r` is what removing `k` from the ordered tree `t` should give. */
  ghost predicate RemovedFrom<V>(t: Tree<V>, k: int, r: Removed<V>) {
    && Ordered(r.tree)
    && Contents(r.tree) == Contents(t) - {k}
    && r.removed == (if k in Contents(t) then Some(Contents(t)[k]) else None)
  }

  lemma {:induction false} RemoveBelowStep<V>(t: Tree<V>, k: int)
    requires t.Node? && Avl(t) && Ordered(t) && k < t.key
    requires RemovedFrom(t.left, k, RemoveAt(t.left, k))
    ensures RemovedFrom(t, k, RemoveAt(t, k))
  {
    var Node(l, key, value, c, h, right) := t;
    KeysAreContentsDomain(right);
    var sub := RemoveAt(l, k);
    assert k !in Contents(right);
    assert k in Contents(t) <==> k in Contents(l);
    if sub.removed.Some? {
      var c' := if sub.tree.Leaf? then 0 else c - 1;
      var n := Node(sub.tree, key, value, c', h, right);
      assert RemoveAt(t, k) == Removed(Restructure(n), sub.removed);
      RestructurePreserves(n);
      KeysAreContentsDomain(l);
      KeysAreContentsDomain(sub.tree);
      assert Ordered(n);
      MapRemoveBelow(Contents(l), Contents(right), key, value, k);
    } else {
      assert Contents(t) - {k} == Contents(t);
    }
  }

  lemma {:induction false} RemoveAboveStep<V>(t: Tree<V>, k: int)
    requires t.Node? && Avl(t) && Ordered(t) && t.key < k
    requires RemovedFrom(t.right, k, RemoveAt(t.right, k))
    ensures RemovedFrom(t, k, RemoveAt(t, k))
  {
    var Node(l, key, value, c, h, right) := t;
    KeysAreContentsDomain(l);
    var sub := RemoveAt(right, k);
    assert k !in Contents(l);
    assert k in Contents(t) <==> k in Contents(right);
    if sub.removed.Some? {
      var n := Node(l, key, value, c, h, sub.tree);
      assert RemoveAt(t, k) == Removed(Restructure(n), sub.removed);
      RestructurePreserves(n);
      KeysAreContentsDomain(right);
      KeysAreContentsDomain(sub.tree);
      assert Ordered(n);
      MapRemoveAbove(Contents(l), Contents(right), key, value, k);
    } else {
      assert Contents(t) - {k} == Contents(t);
    }
  }

  lemma {:induction false} MapRemoveBelow<V>(a: map<int, V>, b: map<int, V>, x: int, vx: V, k: int)
    requires k != x && k !in b
    ensures ((a - {k}) + b)[x := vx] == (a + b)[x := vx] - {k}
  {
  }

  lemma {:induction false} MapRemoveAbove<V>(a: map<int, V>, b: map<int, V>, x: int, vx: V, k: int)
    requires k != x && k !in a
    ensures (a + (b - {k}))[x := vx] == (a + b)[x := vx] - {k}
  {
  }

  /** Re-adding the successor binding `s` to the right part it was taken
      from restores the union. */
  lemma {:induction false} MapSuccessor<V>(a: map<int, V>, b: map<int, V>, s: int)
    requires s in b && s !in a
    ensures (a + (b - {s}))[s := b[s]] == a + b
  {
  }
}
