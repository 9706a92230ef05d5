/** `put` on a non-empty tree: descend to the key; overwrite in place when
    it is found; otherwise attach a new leaf, add one to the count of every
    ancestor entered through its left child, and walk back up recomputing
    heights until the first rotation, after which only the rotated
    subtree's parent has its height recomputed and the walk stops. The
    walk is the unwinding of the recursion; `Status` tells each level what
    the walk is doing when it arrives there. */
module Insertion {
  import opened Trees
  import opened Rotations

  datatype Status<V> =
    | Replaced(previous: V)  // the key was present: its value was overwritten, nothing else changed
    | Climbing               // a node was added and the walk is still checking balance
    | Rotated                // this subtree was just rotated: its parent recomputes its own height
    | Settled                // the walk has stopped: ancestors are only relinked

  datatype Inserted<V> = Inserted(tree: Tree<V>, status: Status<V>)

  /** The AVL argument for stopping after one rotation, as a relation
      between a subtree `t` and what insertion made of it: the result is an
      AVL tree; a subtree whose walk has rotated or stopped (or that only
      had a value overwritten) has kept its height, so no ancestor can have
      become imbalanced and every stale cached height above it is still
      right; a subtree still climbing grew by at most one, and when a node
      grew, its two children now differ in height. */
  ghost predicate Grown<V>(t: Tree<V>, r: Inserted<V>) {
    && Avl(r.tree) && r.tree.Node?
    && (!r.status.Climbing? ==> H(r.tree) == H(t))
    && (r.status.Climbing? ==> H(t) <= H(r.tree) <= H(t) + 1)
    && (r.status.Climbing? && t.Node? && H(r.tree) == H(t) + 1 ==>
          H(r.tree.left) != H(r.tree.right))
  }

  /** Insert-or-overwrite of `k := v` below `t`. */
  function InsertAt<V>(t: Tree<V>, k: int, v: V): (r: Inserted<V>)
    requires Avl(t)
    ensures Grown(t, r)
    decreases t
  {
    match t
    case Leaf => Inserted(Node(Leaf, k, v, 0, 0, Leaf), Climbing)
    case Node(l, key, value, c, h, r) =>
      if k < key then AboveLeft(t, InsertAt(l, k, v))
      else if key < k then AboveRight(t, InsertAt(r, k, v))
      else Inserted(Node(l, key, v, c, h, r), Replaced(value))
  }

  /** The walk arriving at node `t` from its left child, whose insertion
      result is `sub`. A new node below adds one to `t.count` (the count is
      set to 1 when the new node is `t`'s own left child). */
  function AboveLeft<V>(t: Tree<V>, sub: Inserted<V>): (r: Inserted<V>)
    requires t.Node? && Avl(t) && Grown(t.left, sub)
    ensures Grown(t, r)
    ensures r.status.Replaced? ==> sub.status.Replaced?
    ensures sub.status.Replaced? ==> r.status == sub.status
  {
    var Node(l, key, value, c, h, right) := t;
    HeightAtLeastEmpty(l);
    HeightAtLeastEmpty(right);
    var c' := if l.Leaf? then 1 else c + 1;
    match sub.status
    case Replaced(_) => Inserted(Node(sub.tree, key, value, c, h, right), sub.status)
    case Climbing =>
      var n := Node(sub.tree, key, value, c', h, right);
      RestructureRebalances(n);
      Inserted(Restructure(n), if Imbalanced(n) then Rotated else Climbing)
    case Rotated => Inserted(Node(sub.tree, key, value, c', Max(H(sub.tree), H(right)) + 1, right), Settled)
    case Settled => Inserted(Node(sub.tree, key, value, c', h, right), Settled)
  }

  /** The walk arriving at node `t` from its right child; counts are not
      touched. */
  function AboveRight<V>(t: Tree<V>, sub: Inserted<V>): (r: Inserted<V>)
    requires t.Node? && Avl(t) && Grown(t.right, sub)
    ensures Grown(t, r)
    ensures r.status.Replaced? ==> sub.status.Replaced?
    ensures sub.status.Replaced? ==> r.status == sub.status
  {
    var Node(l, key, value, c, h, right) := t;
    HeightAtLeastEmpty(l);
    HeightAtLeastEmpty(right);
    match sub.status
    case Replaced(_) => Inserted(Node(l, key, value, c, h, sub.tree), sub.status)
    case Climbing =>
      var n := Node(l, key, value, c, h, sub.tree);
      RestructureRebalances(n);
      Inserted(Restructure(n), if Imbalanced(n) then Rotated else Climbing)
    case Rotated => Inserted(Node(l, key, value, c, Max(H(l), H(sub.tree)) + 1, sub.tree), Settled)
    case Settled => Inserted(Node(l, key, value, c, h, sub.tree), Settled)
  }

  // ----- what insertion does to the entries --------------------------------

  /** One level of the walk changes nothing but the left child: the result
      represents what `t` with its left child replaced represents, and its
      counts are correct when the child's size changed by the one node
      added. */
  lemma {:induction false} AboveLeftKeeps<V>(t: Tree<V>, sub: Inserted<V>)
    requires t.Node? && Avl(t) && Grown(t.left, sub)
    ensures SameEntries(Node(sub.tree, t.key, t.value, t.count, t.h, t.right), AboveLeft(t, sub).tree)
    ensures CountsOk(t) && CountsOk(sub.tree)
            && Size(sub.tree) == Size(t.left) + (if sub.status.Replaced? then 0 else 1)
            ==> CountsOk(AboveLeft(t, sub).tree)
  {
    AboveLeftEntries(t, sub);
    if CountsOk(t) && CountsOk(sub.tree)
       && Size(sub.tree) == Size(t.left) + (if sub.status.Replaced? then 0 else 1) {
      AboveLeftCounts(t, sub);
    }
  }

  lemma {:induction false} AboveLeftEntries<V>(t: Tree<V>, sub: Inserted<V>)
    requires t.Node? && Avl(t) && Grown(t.left, sub)
    ensures SameEntries(Node(sub.tree, t.key, t.value, t.count, t.h, t.right), AboveLeft(t, sub).tree)
  {
    var n := Node(sub.tree, t.key, t.value, t.count, t.h, t.right);
    var n' := Node(sub.tree, t.key, t.value, if t.left.Leaf? then 1 else t.count + 1, t.h, t.right);
    var r := AboveLeft(t, sub).tree;
    if sub.status.Replaced? {
      assert r == n;
    } else {
      assert SameEntries(n, n') by {
        RecountKeepsEntries(n, n'.count, n'.h);
      }
      assert SameEntries(n', r) by {
        if sub.status.Climbing? {
          assert r == Restructure(n');
          RestructurePreserves(n');
        } else {
          assert r == n'.(h := r.h);
          RecountKeepsEntries(n', n'.count, r.h);
        }
      }
      SameEntriesTransitive(n, n', r);
    }
  }

  lemma {:induction false} AboveLeftCounts<V>(t: Tree<V>, sub: Inserted<V>)
    requires t.Node? && Avl(t) && Grown(t.left, sub)
    requires CountsOk(t) && CountsOk(sub.tree)
    requires Size(sub.tree) == Size(t.left) + (if sub.status.Replaced? then 0 else 1)
    ensures CountsOk(AboveLeft(t, sub).tree)
  {
    var n' := Node(sub.tree, t.key, t.value, if t.left.Leaf? then 1 else t.count + 1, t.h, t.right);
    var r := AboveLeft(t, sub).tree;
    if sub.status.Replaced? {
      assert r == Node(sub.tree, t.key, t.value, t.count, t.h, t.right);
    } else {
      assert CountsOk(n');
      if sub.status.Climbing? {
        assert r == Restructure(n');
        RestructurePreserves(n');
      } else {
        assert r == n'.(h := r.h);
      }
    }
  }

  lemma {:induction false} AboveRightKeeps<V>(t: Tree<V>, sub: Inserted<V>)
    requires t.Node? && Avl(t) && Grown(t.right, sub)
    ensures SameEntries(Node(t.left, t.key, t.value, t.count, t.h, sub.tree), AboveRight(t, sub).tree)
    ensures CountsOk(t) && CountsOk(sub.tree) ==> CountsOk(AboveRight(t, sub).tree)
  {
    var Node(l, key, value, c, h, right) := t;
    var n := Node(l, key, value, c, h, sub.tree);
    var r := AboveRight(t, sub);
    if sub.status.Replaced? {
      assert r.tree == n;
    } else if sub.status.Climbing? {
      assert r.tree == Restructure(n);
      RestructurePreserves(n);
    } else {
      assert r.tree == n.(h := r.tree.h);
      RecountKeepsEntries(n, c, r.tree.h);
    }
  }

  /** Insertion adds `k` to the key set, grows the size by one exactly when
      `k` was new, and keeps the counts correct. */
  lemma {:induction false} InsertAtKeys<V>(t: Tree<V>, k: int, v: V)
    requires Avl(t)
    ensures var r := InsertAt(t, k, v);
      && Keys(r.tree) == Keys(t) + {k}
      && Size(r.tree) == Size(t) + (if r.status.Replaced? then 0 else 1)
      && (CountsOk(t) ==> CountsOk(r.tree))
    decreases t
  {
    match t
    case Leaf =>
    case Node(l, key, value, c, h, r) =>
      if k < key {
        InsertAtKeys(l, k, v);
        AboveLeftKeeps(t, InsertAt(l, k, v));
      } else if key < k {
        InsertAtKeys(r, k, v);
        AboveRightKeeps(t, InsertAt(r, k, v));
      }
  }

  /** On an ordered tree, insertion keeps the ordering, binds `k` to `v`
      and leaves every other binding alone; it reports an overwrite exactly
      when `k` was bound, together with the value it replaced. */
  lemma {:induction false} InsertAtContents<V>(t: Tree<V>, k: int, v: V)
    requires Avl(t) && Ordered(t)
    ensures Stores(t, k, v, InsertAt(t, k, v))
    decreases t
  {
    match t
    case Leaf =>
    case Node(l, key, value, c, h, right) =>
      if k < key {
        InsertAtContents(l, k, v);
        InsertLeftStep(t, k, v);
      } else if key < k {
        InsertAtContents(right, k, v);
        InsertRightStep(t, k, v);
      } else {
        OverwriteAtRoot(t, v);
      }
  }

  lemma {:induction false} OverwriteAtRoot<V>(t: Tree<V>, v: V)
    requires t.Node? && Avl(t) && Ordered(t)
    ensures Stores(t, t.key, v, InsertAt(t, t.key, v))
  {
    KeysAreContentsDomain(t.left);
    KeysAreContentsDomain(t.right);
  }

  lemma {:induction false} InsertLeftStep<V>(t: Tree<V>, k: int, v: V)
    requires t.Node? && Avl(t) && Ordered(t) && k < t.key
    requires Stores(t.left, k, v, InsertAt(t.left, k, v))
    ensures Stores(t, k, v, InsertAt(t, k, v))
  {
    var sub := InsertAt(t.left, k, v);
    assert InsertAt(t, k, v) == AboveLeft(t, sub);
    var n := Node(sub.tree, t.key, t.value, t.count, t.h, t.right);
    assert Ordered(n) && Contents(n) == Contents(t)[k := v]
           && (sub.status.Replaced? <==> k in Contents(t))
           && (sub.status.Replaced? ==> sub.status.previous == Contents(t)[k]) by {
      InsertAtKeys(t.left, k, v);
      StoreBelow(t, k, v, sub.tree);
    }
    AboveLeftKeeps(t, sub);
  }

  lemma {:induction false} InsertRightStep<V>(t: Tree<V>, k: int, v: V)
    requires t.Node? && Avl(t) && Ordered(t) && t.key < k
    requires Stores(t.right, k, v, InsertAt(t.right, k, v))
    ensures Stores(t, k, v, InsertAt(t, k, v))
  {
    var sub := InsertAt(t.right, k, v);
    assert InsertAt(t, k, v) == AboveRight(t, sub);
    var n := Node(t.left, t.key, t.value, t.count, t.h, sub.tree);
    assert Ordered(n) && Contents(n) == Contents(t)[k := v]
           && (sub.status.Replaced? <==> k in Contents(t))
           && (sub.status.Replaced? ==> sub.status.previous == Contents(t)[k]) by {
      InsertAtKeys(t.right, k, v);
      StoreAbove(t, k, v, sub.tree);
    }
    AboveRightKeeps(t, sub);
  }

  /** `r` is what inserting `k := v` into the ordered tree `t` should
      give. */
  ghost predicate Stores<V>(t: Tree<V>, k: int, v: V, r: Inserted<V>) {
    && Ordered(r.tree)
    && Contents(r.tree) == Contents(t)[k := v]
    && (r.status.Replaced? <==> k in Contents(t))
    && (r.status.Replaced? ==> r.status.previous == Contents(t)[k])
  }

  /** Storing `k` in the left subtree stores it in the whole tree. */
  lemma {:induction false} StoreBelow<V>(t: Tree<V>, k: int, v: V, l': Tree<V>)
    requires t.Node? && Ordered(t) && k < t.key
    requires Ordered(l') && Keys(l') == Keys(t.left) + {k}
    requires Contents(l') == Contents(t.left)[k := v]
    ensures var n := Node(l', t.key, t.value, t.count, t.h, t.right);
      Ordered(n) && Contents(n) == Contents(t)[k := v]
    ensures k in Contents(t) <==> k in Contents(t.left)
    ensures k in Contents(t.left) ==> Contents(t)[k] == Contents(t.left)[k]
  {
    var Node(l, key, value, c, h, right) := t;
    KeysAreContentsDomain(l);
    KeysAreContentsDomain(right);
    assert k !in Contents(right);
    MapUpdateBelow(Contents(l), Contents(right), key, value, k, v);
  }

  /** Storing `k` in the right subtree stores it in the whole tree. */
  lemma {:induction false} StoreAbove<V>(t: Tree<V>, k: int, v: V, r': Tree<V>)
    requires t.Node? && Ordered(t) && t.key < k
    requires Ordered(r') && Keys(r') == Keys(t.right) + {k}
    requires Contents(r') == Contents(t.right)[k := v]
    ensures var n := Node(t.left, t.key, t.value, t.count, t.h, r');
      Ordered(n) && Contents(n) == Contents(t)[k := v]
    ensures k in Contents(t) <==> k in Contents(t.right)
    ensures k in Contents(t.right) ==> Contents(t)[k] == Contents(t.right)[k]
  {
    var Node(l, key, value, c, h, right) := t;
    KeysAreContentsDomain(l);
    KeysAreContentsDomain(right);
    assert k !in Contents(l);
    MapUpdateAbove(Contents(l), Contents(right), key, value, k, v);
  }

  lemma {:induction false} MapUpdateBelow<V>(a: map<int, V>, b: map<int, V>, x: int, vx: V, k: int, v: V)
    requires k != x && k !in b
    ensures (a[k := v] + b)[x := vx] == (a + b)[x := vx][k := v]
  {
  }

  lemma {:induction false} MapUpdateAbove<V>(a: map<int, V>, b: map<int, V>, x: int, vx: V, k: int, v: V)
    requires k != x
    ensures (a + b[k := v])[x := vx] == (a + b)[x := vx][k := v]
  {
  }

  /** Overwriting an existing key changes no key, link, count or height. */
  lemma {:induction false} InsertAtReplacedShape<V>(t: Tree<V>, k: int, v: V)
    requires Avl(t)
    requires InsertAt(t, k, v).status.Replaced?
    ensures SameShape(InsertAt(t, k, v).tree, t)
    decreases t
  {
    match t
    case Node(l, key, value, c, h, r) =>
      SameShapeReflexive(l);
      SameShapeReflexive(r);
      if k < key {
        InsertAtReplacedShape(l, k, v);
      } else if key < k {
        InsertAtReplacedShape(r, k, v);
      }
  }

  lemma {:induction false} SameShapeReflexive<V>(t: Tree<V>)
    ensures SameShape(t, t)
  {
    match t
    case Leaf =>
    case Node(l, _, _, _, _, r) =>
      SameShapeReflexive(l);
      SameShapeReflexive(r);
  }
}
