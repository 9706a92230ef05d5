/** The counted AVL tree: its node datatype, the abstractions the rest of
    the model is stated against (in-order entries, key set, finite map,
    size), and the four invariants the map keeps (ordering, cached
    heights, balance, left-subtree counts). */
module Trees {

  /** A key/value pair as an entry handle exposes it. */
  datatype Entry<V> = Entry(key: int, value: V)

  /** A node caches `count`, the size of its LEFT subtree, and `h`, the
      height of the subtree it roots. */
  datatype Tree<V> =
    | Leaf
    | Node(left: Tree<V>, key: int, value: V, count: int, h: int, right: Tree<V>)

  function Max(a: int, b: int): int {
    if a < b then b else a
  }

  /** Cached height of a subtree; an empty subtree has height -1. */
  function H<V>(t: Tree<V>): int {
    if t.Leaf? then -1 else t.h
  }

  /** Number of entries, counted node by node. */
  function Size<V>(t: Tree<V>): nat {
    match t
    case Leaf => 0
    case Node(l, _, _, _, _, r) => Size(l) + 1 + Size(r)
  }

  /** Height recomputed from the shape alone, ignoring the cached fields. */
  function Height<V>(t: Tree<V>): int {
    match t
    case Leaf => -1
    case Node(l, _, _, _, _, r) => Max(Height(l), Height(r)) + 1
  }

  ghost function Keys<V>(t: Tree<V>): set<int> {
    match t
    case Leaf => {}
    case Node(l, k, _, _, _, r) => Keys(l) + {k} + Keys(r)
  }

  /** The finite map a tree represents. */
  ghost function Contents<V>(t: Tree<V>): map<int, V> {
    match t
    case Leaf => map[]
    case Node(l, k, v, _, _, r) => (Contents(l) + Contents(r))[k := v]
  }

  /** The entries in in-order (left subtree, node, right subtree), one per
      node. */
  ghost function Elements<V>(t: Tree<V>): (r: seq<Entry<V>>)
    ensures |r| == Size(t)
  {
    match t
    case Leaf => []
    case Node(l, k, v, _, _, r) => Elements(l) + [Entry(k, v)] + Elements(r)
  }

  /** Binary-search-tree ordering: left keys below, right keys above. */
  ghost predicate Ordered<V>(t: Tree<V>) {
    match t
    case Leaf => true
    case Node(l, k, _, _, _, r) =>
      && Ordered(l) && Ordered(r)
      && (forall x :: x in Keys(l) ==> x < k)
      && (forall x :: x in Keys(r) ==> k < x)
  }

  /** Every cached height is one more than the larger cached height of the
      node's children. */
  predicate HeightsOk<V>(t: Tree<V>) {
    match t
    case Leaf => true
    case Node(l, _, _, _, h, r) => h == Max(H(l), H(r)) + 1 && HeightsOk(l) && HeightsOk(r)
  }

  /** AVL balance on the cached heights: the two children of every node
      differ in height by at most one. */
  predicate Balanced<V>(t: Tree<V>) {
    match t
    case Leaf => true
    case Node(l, _, _, _, _, r) => -1 <= H(l) - H(r) <= 1 && Balanced(l) && Balanced(r)
  }

  /** Every node's `count` is the size of its left subtree. */
  predicate CountsOk<V>(t: Tree<V>) {
    match t
    case Leaf => true
    case Node(l, _, _, c, _, r) => c == Size(l) && CountsOk(l) && CountsOk(r)
  }

  /** Correct cached heights and AVL balance: what the rebalancing code
      relies on to find the children it rotates. */
  predicate Avl<V>(t: Tree<V>) {
    HeightsOk(t) && Balanced(t)
  }

  /** The full invariant of a counted AVL tree. */
  ghost predicate Valid<V>(t: Tree<V>) {
    Ordered(t) && Avl(t) && CountsOk(t)
  }

  /** Two trees with the same keys, counts, heights and links; only the
      stored values may differ. */
  predicate SameShape<V>(a: Tree<V>, b: Tree<V>) {
    match a
    case Leaf => b.Leaf?
    case Node(l, k, _, c, h, r) =>
      b.Node? && b.key == k && b.count == c && b.h == h
      && SameShape(l, b.left) && SameShape(r, b.right)
  }

  lemma {:induction false} HeightAtLeastEmpty<V>(t: Tree<V>)
    requires HeightsOk(t)
    ensures H(t) >= -1
    ensures t.Node? ==> H(t) >= 0
  {
    match t
    case Leaf =>
    case Node(l, _, _, _, _, r) =>
      HeightAtLeastEmpty(l);
      HeightAtLeastEmpty(r);
  }

  /** With correct cached heights, `H` agrees with the recomputed height. */
  lemma {:induction false} CachedHeightIsHeight<V>(t: Tree<V>)
    requires HeightsOk(t)
    ensures H(t) == Height(t)
  {
    match t
    case Leaf =>
    case Node(l, _, _, _, _, r) =>
      CachedHeightIsHeight(l);
      CachedHeightIsHeight(r);
  }

  lemma {:induction false} KeysAreContentsDomain<V>(t: Tree<V>)
    ensures Contents(t).Keys == Keys(t)
  {
    match t
    case Leaf =>
    case Node(l, _, _, _, _, r) =>
      KeysAreContentsDomain(l);
      KeysAreContentsDomain(r);
  }

  /** In an ordered tree the node count is the number of bindings of the
      represented map. */
  lemma {:induction false} SizeIsKeyCount<V>(t: Tree<V>)
    requires Ordered(t)
    ensures Size(t) == |Contents(t)|
  {
    SizeIsKeySetSize(t);
    KeysAreContentsDomain(t);
    assert |Contents(t)| == |Contents(t).Keys|;
  }

  /** In an ordered tree no key occurs twice, so the node count is the
      number of distinct keys. */
  lemma {:induction false} SizeIsKeySetSize<V>(t: Tree<V>)
    requires Ordered(t)
    ensures Size(t) == |Keys(t)|
  {
    match t
    case Leaf =>
    case Node(l, k, _, _, _, r) =>
      SizeIsKeySetSize(l);
      SizeIsKeySetSize(r);
      var kl, kr := Keys(l), Keys(r);
      assert kl !! kr by {
        forall x | x in kl ensures x !in kr {
          assert x < k;
        }
      }
      assert |kl + kr| == |kl| + |kr|;
      assert k !in kl + kr;
      assert |(kl + kr) + {k}| == |kl + kr| + 1;
      assert Keys(t) == (kl + kr) + {k};
  }

  /** Every in-order entry carries a key of the tree. */
  lemma {:induction false} ElementKeysAreKeys<V>(t: Tree<V>)
    ensures forall i :: 0 <= i < |Elements(t)| ==> Elements(t)[i].key in Keys(t)
  {
    match t
    case Leaf =>
    case Node(l, k, v, _, _, r) =>
      ElementKeysAreKeys(l);
      ElementKeysAreKeys(r);
      var el, er := Elements(l), Elements(r);
      assert Elements(t) == el + [Entry(k, v)] + er;
      forall i | 0 <= i < |Elements(t)|
        ensures Elements(t)[i].key in Keys(t)
      {
        if i < |el| {
          assert Elements(t)[i] == el[i];
        } else if i > |el| {
          assert Elements(t)[i] == er[i - |el| - 1];
        }
      }
  }

  /** Every in-order entry is a binding of the represented map. */
  lemma {:induction false} ElementsAreBindings<V>(t: Tree<V>)
    requires Ordered(t)
    ensures forall i :: 0 <= i < |Elements(t)| ==>
      Elements(t)[i].key in Contents(t) && Contents(t)[Elements(t)[i].key] == Elements(t)[i].value
  {
    match t
    case Leaf =>
    case Node(l, k, v, _, _, r) =>
      ElementsAreBindings(l);
      ElementsAreBindings(r);
      ElementKeysAreKeys(l);
      ElementKeysAreKeys(r);
      KeysAreContentsDomain(l);
      KeysAreContentsDomain(r);
      var el, er := Elements(l), Elements(r);
      assert Elements(t) == el + [Entry(k, v)] + er;
      forall i | 0 <= i < |Elements(t)|
        ensures Elements(t)[i].key in Contents(t)
        ensures Contents(t)[Elements(t)[i].key] == Elements(t)[i].value
      {
        if i < |el| {
          assert Elements(t)[i] == el[i];
          assert el[i].key in Keys(l);
          assert el[i].key !in Keys(r);
        } else if i > |el| {
          assert Elements(t)[i] == er[i - |el| - 1];
        }
      }
  }

  /** In an ordered tree the keys strictly increase along the in-order
      sequence. */
  lemma {:induction false} OrderedElementsIncrease<V>(t: Tree<V>)
    requires Ordered(t)
    ensures forall i, j :: 0 <= i < j < |Elements(t)| ==> Elements(t)[i].key < Elements(t)[j].key
  {
    match t
    case Leaf =>
    case Node(l, k, v, _, _, r) =>
      OrderedElementsIncrease(l);
      OrderedElementsIncrease(r);
      ElementKeysAreKeys(l);
      ElementKeysAreKeys(r);
      var el, er := Elements(l), Elements(r);
      var e := Elements(t);
      assert e == el + [Entry(k, v)] + er;
      forall i, j | 0 <= i < j < |e|
        ensures e[i].key < e[j].key
      {
        if i < |el| {
          assert e[i] == el[i];
          if j < |el| {
            assert e[j] == el[j];
          } else if j > |el| {
            assert e[j] == er[j - |el| - 1];
          }
        } else if i == |el| {
          assert e[j] == er[j - |el| - 1];
        } else {
          assert e[i] == er[i - |el| - 1];
          assert e[j] == er[j - |el| - 1];
        }
      }
  }

  /** The cached count and height of a node do not enter its entries, its
      keys, its size, its ordering or its map. */
  lemma {:induction false} RecountKeepsEntries<V>(t: Tree<V>, c: int, h: int)
    requires t.Node?
    ensures var t' := t.(count := c, h := h);
      && Elements(t') == Elements(t) && Keys(t') == Keys(t) && Size(t') == Size(t)
      && Ordered(t') == Ordered(t) && Contents(t') == Contents(t)
  {
  }

  /** `b` represents what `a` represents: the same in-order entries, keys
      and size, and, when `a` is ordered, the same ordering and map. */
  ghost predicate SameEntries<V>(a: Tree<V>, b: Tree<V>) {
    && Elements(b) == Elements(a) && Keys(b) == Keys(a) && Size(b) == Size(a)
    && (Ordered(a) ==> Ordered(b) && Contents(b) == Contents(a))
  }

  lemma {:induction false} SameEntriesTransitive<V>(a: Tree<V>, b: Tree<V>, c: Tree<V>)
    requires SameEntries(a, b) && SameEntries(b, c)
    ensures SameEntries(a, c)
  {
  }
}
