/**
 * The map object: a tree root together with the entry count the object
 * keeps beside it, and the public operations on the pair.
 */
module CountedMap {
  import opened Wrappers
  import opened Trees
  import opened Insertion
  import opened Removal
  import opened Lookup
  import opened Checker

  datatype AvlMap<V> = AvlMap(root: Tree<V>, size: int)

  /** A rejected call. */
  datatype Fault = NullKey

  /** The map after a change, and the value the changed key held before. */
  datatype Update<V> = Update(next: AvlMap<V>, previous: Option<V>)

  /** The object invariant: a valid counted AVL tree whose entry count is
      the one kept beside it. */
  ghost predicate Invariant<V>(m: AvlMap<V>) {
    Valid(m.root) && m.size == Size(m.root)
  }

  /** What `m` maps `k` to, if anything. */
  ghost function ValueOf<V>(m: AvlMap<V>, k: int): Option<V> {
    if k in Contents(m.root) then Some(Contents(m.root)[k]) else None
  }

  function Empty<V>(): (r: AvlMap<V>)
    ensures Invariant(r) && Contents(r.root) == map[] && r.size == 0
  {
    AvlMap(Leaf, 0)
  }

  /** The entry count, which under the invariant is the number of keys. */
  function Count<V>(m: AvlMap<V>): (r: int)
    requires Invariant(m)
    ensures r == |Contents(m.root)|
  {
    SizeIsKeyCount(m.root);
    m.size
  }

  /** `u` is the outcome of binding `k` to `v` in `m`. */
  ghost predicate Stored<V>(m: AvlMap<V>, k: int, v: V, u: Update<V>) {
    && Invariant(u.next)
    && Contents(u.next.root) == Contents(m.root)[k := v]
    && u.previous == ValueOf(m, k)
    && u.next.size == m.size + (if k in Contents(m.root) then 0 else 1)
    && (k in Contents(m.root) ==> SameShape(u.next.root, m.root))
  }

  /** Bind `key` to `value`: an absent key is rejected, an empty map gets a
      single root, a bound key has its value overwritten in place, and a
      new key is attached as a leaf and the tree rebalanced. */
  function Put<V>(m: AvlMap<V>, key: Option<int>, value: V): (r: Result<Update<V>, Fault>)
    requires Invariant(m)
    ensures r.Failure? <==> key.None?
    ensures key.Some? ==> Stored(m, key.value, value, r.value)
  {
    if key.None? then Failure(NullKey)
    else
      var k := key.value;
      if m.root.Leaf? then
        Success(Update(AvlMap(Node(Leaf, k, value, 0, 0, Leaf), 1), None))
      else
        var ins := InsertAt(m.root, k, value);
        InsertAtKeys(m.root, k, value);
        InsertAtContents(m.root, k, value);
        match ins.status
        case Replaced(previous) =>
          InsertAtReplacedShape(m.root, k, value);
          Success(Update(AvlMap(ins.tree, m.size), Some(previous)))
        case _ =>
          Success(Update(AvlMap(ins.tree, m.size + 1), None))
  }

  /** Unbind `k`, returning what it was bound to; an unbound key leaves the
      map as it was. */
  function Remove<V>(m: AvlMap<V>, k: int): (r: Update<V>)
    requires Invariant(m)
    ensures Invariant(r.next)
    ensures Contents(r.next.root) == Contents(m.root) - {k}
    ensures r.previous == ValueOf(m, k)
    ensures r.next.size == m.size - (if k in Contents(m.root) then 1 else 0)
    ensures k !in Contents(m.root) ==> r.next == m
  {
    var sub := RemoveAt(m.root, k);
    RemoveAtEntries(m.root, k);
    RemoveAtContents(m.root, k);
    match sub.removed
    case None => Update(m, None)
    case Some(previous) => Update(AvlMap(sub.tree, m.size - 1), Some(previous))
  }

  method Get<V>(m: AvlMap<V>, k: int) returns (r: Option<V>)
    requires Invariant(m)
    ensures r == ValueOf(m, k)
  {
    r := Find(m.root, k);
  }

  /** Every put and every remove on a map keeping the invariant leaves a
      tree that passes the health check, as intended and as written,
      unless the removal emptied it. */
  lemma {:induction false} UpdatesKeepHealth<V>(m: AvlMap<V>, k: int, v: V)
    requires Invariant(m)
    ensures var p := Put(m, Some(k), v).value.next;
      IsHealthy(p.root) == Some(true) && IsHealthyAsWritten(p.root) == Some(true)
    ensures var d := Remove(m, k).next;
      d.root.Node? ==> IsHealthy(d.root) == Some(true) && IsHealthyAsWritten(d.root) == Some(true)
  {
    var p := Put(m, Some(k), v).value.next;
    assert k in Contents(p.root);
    ValidTreesAreHealthy(p.root);
    var d := Remove(m, k).next;
    if d.root.Node? {
      ValidTreesAreHealthy(d.root);
    }
  }

  /** The entry at in-order position `i`, or nothing when `i` is out of
      range. */
  method EntryAt<V>(m: AvlMap<V>, i: int) returns (r: Option<Entry<V>>)
    requires Invariant(m)
    ensures r == (if 0 <= i < m.size then Some(Elements(m.root)[i]) else None)
  {
    if i < 0 || i >= m.size {
      return None;
    }
    r := Select(m.root, i);
  }

  /** Positions enumerate the map: each position holds a binding and keys
      increase with the position; with `Count`, there are as many positions
      as keys. */
  lemma {:induction false} EntriesEnumerate<V>(m: AvlMap<V>)
    requires Invariant(m)
    ensures forall i :: 0 <= i < m.size ==>
      ValueOf(m, Elements(m.root)[i].key) == Some(Elements(m.root)[i].value)
    ensures forall i, j :: 0 <= i < j < m.size ==>
      Elements(m.root)[i].key < Elements(m.root)[j].key
  {
    ElementsAreBindings(m.root);
    OrderedElementsIncrease(m.root);
  }

  /** The identity map on 0 .. n-1, built one key at a time. */
  ghost function Identity(n: nat): map<int, int> {
    if n == 0 then map[] else Identity(n - 1)[n - 1 := n - 1]
  }

  lemma {:induction false} IdentityBindsRange(n: nat, k: int)
    ensures k in Identity(n) <==> 0 <= k < n
    ensures k in Identity(n) ==> Identity(n)[k] == k
  {
    if n > 0 {
      IdentityBindsRange(n - 1, k);
    }
  }

  /** Putting key n, bound to itself, into a map holding exactly 0 .. n-1
      bound to themselves extends it by that one binding: by induction from
      the empty map, every map built by ascending puts of 0 .. n-1 is the
      identity map on 0 .. n-1. */
  lemma {:induction false} AscendingPutExtends(m: AvlMap<int>, n: nat)
    requires Invariant(m) && Contents(m.root) == Identity(n) && m.size == n
    ensures var u := Put(m, Some(n), n).value;
      && Invariant(u.next) && Contents(u.next.root) == Identity(n + 1)
      && u.next.size == n + 1 && u.previous == None
  {
    IdentityBindsRange(n, n);
  }

  /** The map built from the empty map by putting 0, 1, .. n-1 in
      ascending order, each bound to itself: the identity map on 0 .. n-1. */
  ghost function Ascending(n: nat): (r: AvlMap<int>)
    ensures Invariant(r) && Contents(r.root) == Identity(n) && r.size == n
    decreases n
  {
    if n == 0 then Empty() else PutNext(Ascending(n - 1), n - 1)
  }

  /** The map after putting key n, bound to itself, into the identity map
      on 0 .. n-1. */
  ghost function PutNext(m: AvlMap<int>, n: nat): (r: AvlMap<int>)
    requires Invariant(m) && Contents(m.root) == Identity(n) && m.size == n
    ensures Invariant(r) && Contents(r.root) == Identity(n + 1) && r.size == n + 1
  {
    AscendingPutExtends(m, n);
    Put(m, Some(n), n).value.next
  }

  /** A map whose keys are exactly 0 .. size-1, each bound to itself, holds
      key i at position i. */
  lemma {:induction false} DenseEntries(m: AvlMap<int>)
    requires Invariant(m) && Contents(m.root) == Identity(m.size)
    ensures forall i :: 0 <= i < m.size ==> Elements(m.root)[i] == Entry(i, i)
  {
    var s := Elements(m.root);
    EntriesEnumerate(m);
    forall i | 0 <= i < m.size ensures s[i] == Entry(i, i) {
      assert ValueOf(m, s[i].key) == Some(s[i].value);
      forall a | 0 <= a < |s| ensures 0 <= s[a].key < |s| {
        assert ValueOf(m, s[a].key).Some?;
        IdentityBindsRange(m.size, s[a].key);
      }
      IdentityBindsRange(m.size, s[i].key);
      KeyAtLeast(s, i, 0);
      KeyAtMost(s, i, |s|);
    }
  }

  /** In a sequence of increasing keys, all at least `lo`, the key at
      position `i` is at least `lo + i`. */
  lemma {:induction false} KeyAtLeast(s: seq<Entry<int>>, i: int, lo: int)
    requires forall a, b :: 0 <= a < b < |s| ==> s[a].key < s[b].key
    requires forall a :: 0 <= a < |s| ==> lo <= s[a].key
    requires 0 <= i < |s|
    ensures lo + i <= s[i].key
    decreases i
  {
    if i > 0 {
      KeyAtLeast(s, i - 1, lo);
      assert s[i - 1].key < s[i].key;
    }
  }

  /** In a sequence of increasing keys, all below `hi`, the key at
      position `i` is at most `hi - (|s| - i)`. */
  lemma {:induction false} KeyAtMost(s: seq<Entry<int>>, i: int, hi: int)
    requires forall a, b :: 0 <= a < b < |s| ==> s[a].key < s[b].key
    requires forall a :: 0 <= a < |s| ==> s[a].key < hi
    requires 0 <= i < |s|
    ensures s[i].key <= hi - (|s| - i)
    decreases |s| - i
  {
    if i < |s| - 1 {
      KeyAtMost(s, i + 1, hi);
      assert s[i].key < s[i + 1].key;
    }
  }

  /** The same bound, one tighter, for a key below a value `g` that no
      key takes. */
  lemma {:induction false} KeyAtMostBelowGap(s: seq<Entry<int>>, i: int, hi: int, g: int)
    requires forall a, b :: 0 <= a < b < |s| ==> s[a].key < s[b].key
    requires forall a :: 0 <= a < |s| ==> s[a].key < hi && s[a].key != g
    requires 0 <= i < |s| && s[i].key < g < hi
    ensures s[i].key <= hi - 1 - (|s| - i)
    decreases |s| - i
  {
    if i < |s| - 1 {
      assert s[i].key < s[i + 1].key;
      if s[i + 1].key < g {
        KeyAtMostBelowGap(s, i + 1, hi, g);
      } else {
        KeyAtMost(s, i + 1, hi);
      }
    }
  }

  /** The same bound, one tighter, for a key above a value `g` that no
      key takes. */
  lemma {:induction false} KeyAtLeastAboveGap(s: seq<Entry<int>>, i: int, lo: int, g: int)
    requires forall a, b :: 0 <= a < b < |s| ==> s[a].key < s[b].key
    requires forall a :: 0 <= a < |s| ==> lo <= s[a].key && s[a].key != g
    requires 0 <= i < |s| && g < s[i].key && lo <= g
    ensures lo + i + 1 <= s[i].key
    decreases i
  {
    if i > 0 {
      assert s[i - 1].key < s[i].key;
      if g < s[i - 1].key {
        KeyAtLeastAboveGap(s, i - 1, lo, g);
      } else {
        KeyAtLeast(s, i - 1, lo);
      }
    }
  }

  /** A map holding 0 .. n-1 but `g`, each bound to itself, holds key i at
      position i below `g`, and key i + 1 at position i from `g` on: the
      positions after the missing key shift down by one. */
  lemma {:induction false} GapEntries(m: AvlMap<int>, n: nat, g: int)
    requires Invariant(m) && 0 <= g < n && Contents(m.root) == Identity(n) - {g}
    ensures m.size == n - 1
    ensures forall i :: 0 <= i < m.size && i < g ==> Elements(m.root)[i] == Entry(i, i)
    ensures forall i :: 0 <= i < m.size && g <= i ==> Elements(m.root)[i] == Entry(i + 1, i + 1)
  {
    var s := Elements(m.root);
    GapSize(m, n, g);
    EntriesEnumerate(m);
    forall a | 0 <= a < |s| ensures 0 <= s[a].key < n && s[a].key != g {
      assert ValueOf(m, s[a].key).Some?;
      IdentityBindsRange(n, s[a].key);
    }
    forall i | 0 <= i < m.size
      ensures i < g ==> s[i] == Entry(i, i)
      ensures g <= i ==> s[i] == Entry(i + 1, i + 1)
    {
      GapKey(s, n, g, i);
      var k := s[i].key;
      assert ValueOf(m, k) == Some(s[i].value);
      IdentityBindsRange(n, k);
      assert s[i].value == Contents(m.root)[k] == Identity(n)[k] == k;
      assert s[i] == Entry(k, k);
    }
  }

  lemma {:induction false} GapSize(m: AvlMap<int>, n: nat, g: int)
    requires Invariant(m) && 0 <= g < n && Contents(m.root) == Identity(n) - {g}
    ensures m.size == n - 1
  {
    IdentityBindsRange(n, g);
    IdentitySize(n);
    SizeIsKeyCount(m.root);
    assert Identity(n).Keys == Contents(m.root).Keys + {g};
  }

  /** Increasing keys drawn from 0 .. n-1 but `g`, n - 1 of them, are i
      below `g` and i + 1 from `g` on. */
  lemma {:induction false} GapKey(s: seq<Entry<int>>, n: int, g: int, i: int)
    requires forall a, b :: 0 <= a < b < |s| ==> s[a].key < s[b].key
    requires forall a :: 0 <= a < |s| ==> 0 <= s[a].key < n && s[a].key != g
    requires 0 <= g < n && |s| == n - 1 && 0 <= i < |s|
    ensures s[i].key == (if i < g then i else i + 1)
  {
    KeyAtLeast(s, i, 0);
    KeyAtMost(s, i, n);
    if s[i].key < g {
      KeyAtMostBelowGap(s, i, n, g);
    } else {
      KeyAtLeastAboveGap(s, i, 0, g);
    }
  }

  lemma {:induction false} IdentitySize(n: nat)
    ensures |Identity(n)| == n
  {
    if n > 0 {
      IdentitySize(n - 1);
      IdentityBindsRange(n - 1, n - 1);
    }
  }

  /** The demonstration, for ten keys or any other number above five: a
      map holding 0 .. n-1, each bound to itself, is healthy (as intended
      and as written) and holds key i at position i; overwriting key 5
      with 55 keeps the size and returns 5; removing key 5 then shrinks the
      size by one, returns 55 and leaves a healthy map in which position i
      holds key i below 5 and key i+1 from 5 up to n-2. */
  lemma {:induction false} Demonstration(m: AvlMap<int>, n: nat)
    requires Invariant(m) && Contents(m.root) == Identity(n) && m.size == n && 5 < n
    ensures IsHealthy(m.root) == Some(true) && IsHealthyAsWritten(m.root) == Some(true)
    ensures forall i :: 0 <= i < n ==> Elements(m.root)[i] == Entry(i, i)
    ensures var u := Put(m, Some(5), 55).value;
      && u.next.size == n && u.previous == Some(5)
      && var d := Remove(u.next, 5);
      && d.next.size == n - 1 && d.previous == Some(55)
      && IsHealthy(d.next.root) == Some(true) && IsHealthyAsWritten(d.next.root) == Some(true)
      && (forall i :: 0 <= i < 5 ==> Elements(d.next.root)[i] == Entry(i, i))
      && (forall i :: 5 <= i < n - 1 ==> Elements(d.next.root)[i] == Entry(i + 1, i + 1))
  {
    DenseEntries(m);
    IdentityBindsRange(n, 5);
    ValidTreesAreHealthy(m.root);
    var u := Put(m, Some(5), 55).value;
    assert u.next.size == n && u.previous == Some(5);
    var d := Remove(u.next, 5);
    assert d.next.size == n - 1 && d.previous == Some(55);
    ValidTreesAreHealthy(d.next.root);
    assert Contents(d.next.root) == Identity(n)[5 := 55] - {5} == Identity(n) - {5};
    GapEntries(d.next, n, 5);
  }

  /** The demonstration on the map the source builds: ascending puts of
      0 .. n-1 into an empty map, ten of them in the source. */
  lemma {:induction false} AscendingDemonstration(n: nat)
    requires 5 < n
    ensures var m := Ascending(n);
      && m.size == n
      && IsHealthy(m.root) == Some(true) && IsHealthyAsWritten(m.root) == Some(true)
      && (forall i :: 0 <= i < n ==> Elements(m.root)[i] == Entry(i, i))
      && var u := Put(m, Some(5), 55).value;
      && u.next.size == n && u.previous == Some(5)
      && var d := Remove(u.next, 5);
      && d.next.size == n - 1 && d.previous == Some(55)
      && IsHealthy(d.next.root) == Some(true) && IsHealthyAsWritten(d.next.root) == Some(true)
      && (forall i :: 0 <= i < 5 ==> Elements(d.next.root)[i] == Entry(i, i))
      && (forall i :: 5 <= i < n - 1 ==> Elements(d.next.root)[i] == Entry(i + 1, i + 1))
  {
    Demonstration(Ascending(n), n);
  }
}
