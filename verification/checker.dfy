/**
 * The self-check of the tree: recomputing heights and left-subtree counts,
 * with a sentinel for "inconsistent", and the combined health check.
 */
module Checker {
  import opened Wrappers
  import opened Trees

  /** The sentinel both recomputations return on an inconsistency: the
      least 32-bit signed integer. */
  const IntMin: int := -0x8000_0000

  /** Recompute heights bottom-up; give up with the sentinel as soon as a
      node's cached height differs from the recomputed one. */
  function CheckHeight<V>(t: Tree<V>): (r: int)
    ensures r == IntMin || r >= -1
  {
    match t
    case Leaf => -1
    case Node(left, _, _, _, h, right) =>
      var l := CheckHeight(left);
      if l == IntMin then l
      else
        var r := CheckHeight(right);
        if r == IntMin then r
        else
          var m := Max(l, r) + 1;
          if m != h then IntMin else m
  }

  /** The recomputation succeeds exactly on trees whose cached heights are
      all correct, and then yields the true height. */
  lemma {:induction false} CheckHeightSpec<V>(t: Tree<V>)
    ensures CheckHeight(t) == (if HeightsOk(t) then Height(t) else IntMin)
  {
    match t
    case Leaf =>
    case Node(left, _, _, _, h, right) =>
      CheckHeightSpec(left);
      CheckHeightSpec(right);
      if HeightsOk(left) && HeightsOk(right) {
        CachedHeightIsHeight(left);
        CachedHeightIsHeight(right);
        HeightAtLeastEmpty(left);
        HeightAtLeastEmpty(right);
      }
  }

  /** The root check of cached heights; `None` stands for the null
      dereference an empty tree causes. */
  function HeightFieldsOk<V>(t: Tree<V>): (r: Option<bool>)
    ensures r.None? <==> t.Leaf?
  {
    if t.Leaf? then None else Some(CheckHeight(t) == t.h)
  }

  /** The root check accepts exactly the trees with correct cached heights,
      plus those whose root height happens to hold the sentinel itself. */
  lemma {:induction false} HeightFieldsOkSpec<V>(t: Tree<V>)
    requires t.Node?
    ensures HeightFieldsOk(t) == Some(HeightsOk(t) || t.h == IntMin)
  {
    CheckHeightSpec(t);
    if HeightsOk(t) {
      CachedHeightIsHeight(t);
      HeightAtLeastEmpty(t);
    }
  }

  /** AVL balance measured on the real heights of the subtrees. */
  predicate HeightBalanced<V>(t: Tree<V>) {
    match t
    case Leaf => true
    case Node(l, _, _, _, _, r) =>
      -1 <= Height(l) - Height(r) <= 1 && HeightBalanced(l) && HeightBalanced(r)
  }

  /** With correct cached heights, the balance check on cached heights is
      the AVL balance condition on the real heights. */
  lemma {:induction false} BalancedIsHeightBalanced<V>(t: Tree<V>)
    requires HeightsOk(t)
    ensures Balanced(t) <==> HeightBalanced(t)
  {
    match t
    case Leaf =>
    case Node(l, _, _, _, _, r) =>
      BalancedIsHeightBalanced(l);
      BalancedIsHeightBalanced(r);
      CachedHeightIsHeight(l);
      CachedHeightIsHeight(r);
  }

  /** Recompute subtree sizes bottom-up, comparing each node's count with
      the recomputed size of its left subtree; the sentinel reports the
      first mismatch. */
  function CountLeft<V>(t: Tree<V>): (r: int)
  {
    match t
    case Leaf => 0
    case Node(left, _, _, c, _, right) =>
      var l := CountLeft(left);
      if l != c then IntMin
      else
        var r := CountLeft(right);
        if r == IntMin then IntMin else l + r + 1
  }

  /** No node stores the sentinel as its count. */
  predicate NoSentinelCounts<V>(t: Tree<V>) {
    match t
    case Leaf => true
    case Node(l, _, _, c, _, r) => c != IntMin && NoSentinelCounts(l) && NoSentinelCounts(r)
  }

  /** When no count holds the sentinel, the recomputation succeeds exactly
      on trees with correct counts, and then yields the size. */
  lemma {:induction false} CountLeftSpec<V>(t: Tree<V>)
    requires NoSentinelCounts(t)
    ensures CountLeft(t) == (if CountsOk(t) then Size(t) else IntMin)
  {
    match t
    case Leaf =>
    case Node(left, _, _, _, _, right) =>
      CountLeftSpec(left);
      CountLeftSpec(right);
  }

  /** The index check as written: the root's count against the recomputed
      size of its left subtree. The root's right subtree is never
      examined. */
  function WellIndexedAsWritten<V>(t: Tree<V>): (r: Option<bool>)
    ensures r.None? <==> t.Leaf?
  {
    if t.Leaf? then None else Some(t.count == CountLeft(t.left))
  }

  /** The as-written index check accepts a tree whose right subtree has a
      wrong count. */
  lemma {:induction false} WellIndexedAsWrittenMissesRight()
    ensures var t := Node(Leaf, 1, 10, 0, 1, Node(Leaf, 2, 20, 5, 0, Leaf));
      WellIndexedAsWritten(t) == Some(true) && !CountsOk(t)
  {
  }

  /** The index check as intended: the whole tree recounts without a
      mismatch. */
  function WellIndexed<V>(t: Tree<V>): (r: Option<bool>)
    ensures r.None? <==> t.Leaf?
  {
    if t.Leaf? then None else Some(CountLeft(t) != IntMin)
  }

  /** The corrected index check accepts exactly the trees with correct
      counts. */
  lemma {:induction false} WellIndexedSpec<V>(t: Tree<V>)
    requires t.Node? && NoSentinelCounts(t)
    ensures WellIndexed(t) == Some(CountsOk(t))
  {
    CountLeftSpec(t);
  }

  /** Everything the corrected index check accepts, the as-written one
      accepts too. */
  lemma {:induction false} WellIndexedCoversAsWritten<V>(t: Tree<V>)
    requires WellIndexed(t) == Some(true)
    ensures WellIndexedAsWritten(t) == Some(true)
  {
  }

  /** The combined health check as written: cached heights, balance, and
      the root-only index check. The cycle check is left out: a tree value
      has no cycles. */
  function IsHealthyAsWritten<V>(t: Tree<V>): (r: Option<bool>)
    ensures r.None? <==> t.Leaf?
  {
    if t.Leaf? then None
    else Some(HeightFieldsOk(t).value && Balanced(t) && WellIndexedAsWritten(t).value)
  }

  /** The as-written health check passes a tree with correct heights and
      balance whose right subtree has a wrong count; the corrected one
      rejects it. */
  lemma {:induction false} IsHealthyAsWrittenMissesRight()
    ensures var t := Node(Leaf, 1, 10, 0, 1, Node(Leaf, 2, 20, 5, 0, Leaf));
      IsHealthyAsWritten(t) == Some(true) && IsHealthy(t) == Some(false)
  {
  }

  /** The combined health check as intended: cached heights, balance and
      every count. */
  function IsHealthy<V>(t: Tree<V>): (r: Option<bool>)
    ensures r.None? <==> t.Leaf?
  {
    if t.Leaf? then None
    else Some(HeightFieldsOk(t).value && Balanced(t) && WellIndexed(t).value)
  }

  /** Barring sentinel values stored in the tree, the health check accepts
      exactly the trees with correct heights, balance and counts. */
  lemma {:induction false} IsHealthySpec<V>(t: Tree<V>)
    requires t.Node? && NoSentinelCounts(t) && t.h != IntMin
    ensures IsHealthy(t) == Some(HeightsOk(t) && Balanced(t) && CountsOk(t))
  {
    HeightFieldsOkSpec(t);
    WellIndexedSpec(t);
  }

  /** Correct counts are sizes, never the sentinel. */
  lemma {:induction false} CountsAreNotSentinel<V>(t: Tree<V>)
    requires CountsOk(t)
    ensures NoSentinelCounts(t)
  {
    match t
    case Leaf =>
    case Node(l, _, _, _, _, r) =>
      CountsAreNotSentinel(l);
      CountsAreNotSentinel(r);
  }

  /** A nonempty tree that keeps the AVL invariants passes the health
      check, both as intended and as written. */
  lemma {:induction false} ValidTreesAreHealthy<V>(t: Tree<V>)
    requires t.Node? && Avl(t) && CountsOk(t)
    ensures IsHealthy(t) == Some(true)
    ensures IsHealthyAsWritten(t) == Some(true)
  {
    CountsAreNotSentinel(t);
    HeightAtLeastEmpty(t);
    IsHealthySpec(t);
    WellIndexedCoversAsWritten(t);
  }
}
