/**
 * The read-only walks over a tree: lookup by key, selection by in-order
 * position (through the left-subtree counts), the leftmost entry, and the
 * in-order successor of a key.
 */
module Lookup {
  import opened Wrappers
  import opened Trees

  /** Descend from `t` comparing `k` with each key: left when smaller,
      right when larger, and stop at the equal key with its value. */
  method Find<V>(t: Tree<V>, k: int) returns (r: Option<V>)
    ensures r.Some? ==> k in Keys(t)
    ensures Ordered(t) ==> r == (if k in Contents(t) then Some(Contents(t)[k]) else None)
  {
    var e := t;
    while e.Node?
      invariant Keys(e) <= Keys(t)
      invariant Ordered(t) ==> Ordered(e) && Bound(t, e, k)
      decreases e
    {
      KeysAreContentsDomain(e.left);
      KeysAreContentsDomain(e.right);
      if k < e.key {
        e := e.left;
      } else if e.key < k {
        e := e.right;
      } else {
        assert Ordered(t) ==> Contents(e)[k] == e.value;
        return Some(e.value);
      }
    }
    return None;
  }

  /** `k` is bound in the whole tree `t` exactly when it is bound in the
      subtree `e`, and to the same value. */
  ghost predicate Bound<V>(t: Tree<V>, e: Tree<V>, k: int) {
    && (k in Contents(t) <==> k in Contents(e))
    && (k in Contents(e) ==> Contents(t)[k] == Contents(e)[k])
  }

  /** Descend from `t` looking for in-order position `i`: left when `i` is
      below the node's left-subtree count, right (with `i` reduced by that
      count plus one) when above, and stop when equal. Only wrong counts or
      an out-of-range `i` can make the descent run off the tree; the model
      gives `None` there, where the source would dereference null.
      `CountedMap.EntryAt` screens out the second case by its range check. */
  method Select<V>(t: Tree<V>, i: int) returns (r: Option<Entry<V>>)
    ensures CountsOk(t) && 0 <= i < Size(t) ==> r == Some(Elements(t)[i])
  {
    var e := t;
    var j := i;
    while e.Node?
      invariant CountsOk(t) && 0 <= i < Size(t) ==>
        && CountsOk(e) && 0 <= j < Size(e)
        && Elements(e)[j] == Elements(t)[i]
      decreases e
    {
      if j < e.count {
        e := e.left;
      } else if j > e.count {
        j := j - (e.count + 1);
        e := e.right;
      } else {
        return Some(Entry(e.key, e.value));
      }
    }
    return None;
  }

  /** The leftmost entry of a nonempty tree is its first in-order entry. */
  function MinEntry<V>(t: Tree<V>): (r: Entry<V>)
    requires t.Node?
    ensures |Elements(t)| > 0 && r == Elements(t)[0]
    ensures r.key in Keys(t)
  {
    if t.left.Leaf? then Entry(t.key, t.value) else MinEntry(t.left)
  }

  /** In an ordered tree the leftmost entry is a binding with the least key. */
  lemma {:induction false} MinEntryIsLeast<V>(t: Tree<V>)
    requires t.Node? && Ordered(t)
    ensures MinEntry(t).key in Contents(t)
    ensures Contents(t)[MinEntry(t).key] == MinEntry(t).value
    ensures forall x :: x in Keys(t) ==> MinEntry(t).key <= x
  {
    KeysAreContentsDomain(t);
    ElementsAreBindings(t);
    OrderedElementsIncrease(t);
    forall x | x in Keys(t) ensures MinEntry(t).key <= x {
      LeastKey(t, x);
    }
  }

  lemma {:induction false} LeastKey<V>(t: Tree<V>, x: int)
    requires t.Node? && Ordered(t) && x in Keys(t)
    ensures MinEntry(t).key <= x
    decreases t
  {
    if t.left.Node? {
      if x in Keys(t.left) {
        LeastKey(t.left, x);
      } else {
        assert MinEntry(t.left).key in Keys(t.left);
      }
    }
  }

  /** The in-order successor of key `k` within `t`: the leftmost entry of
      the right subtree at the node holding `k`, otherwise the nearest node
      on the path at which the search went left. On an ordered tree this
      is also the least entry above `k` when `k` is absent. */
  function Successor<V>(t: Tree<V>, k: int): (r: Option<Entry<V>>)
    ensures r.Some? ==> r.value.key in Keys(t)
  {
    match t
    case Leaf => None
    case Node(l, key, value, _, _, right) =>
      if k < key then
        (match Successor(l, k)
         case None => Some(Entry(key, value))
         case Some(e) => Some(e))
      else if key < k then Successor(right, k)
      else if right.Node? then Some(MinEntry(right))
      else None
  }

  /** Reference definition: the first entry of `s` whose key exceeds `k`. */
  function FirstAbove<V>(s: seq<Entry<V>>, k: int): (r: Option<Entry<V>>)
    ensures r.Some? ==> r.value in s && k < r.value.key
  {
    if |s| == 0 then None
    else if k < s[0].key then Some(s[0])
    else FirstAbove(s[1..], k)
  }

  lemma {:induction false} FirstAboveConcat<V>(a: seq<Entry<V>>, b: seq<Entry<V>>, k: int)
    ensures FirstAbove(a + b, k) ==
      (if FirstAbove(a, k).Some? then FirstAbove(a, k) else FirstAbove(b, k))
    decreases |a|
  {
    if |a| > 0 {
      assert (a + b)[0] == a[0];
      assert (a + b)[1..] == a[1..] + b;
      FirstAboveConcat(a[1..], b, k);
    } else {
      assert a + b == b;
    }
  }

  lemma {:induction false} FirstAboveNone<V>(s: seq<Entry<V>>, k: int)
    requires forall i :: 0 <= i < |s| ==> s[i].key <= k
    ensures FirstAbove(s, k).None?
    decreases |s|
  {
    if |s| > 0 {
      FirstAboveNone(s[1..], k);
    }
  }

  /** On an ordered tree the successor walk finds the first in-order entry
      whose key exceeds `k`. */
  lemma {:induction false} SuccessorIsFirstAbove<V>(t: Tree<V>, k: int)
    requires Ordered(t)
    ensures Successor(t, k) == FirstAbove(Elements(t), k)
    decreases t
  {
    match t
    case Leaf =>
    case Node(l, key, value, _, _, right) =>
      var x := Entry(key, value);
      ElementKeysAreKeys(l);
      assert Elements(t) == Elements(l) + ([x] + Elements(right));
      FirstAboveConcat(Elements(l), [x] + Elements(right), k);
      assert ([x] + Elements(right))[1..] == Elements(right);
      if k < key {
        SuccessorIsFirstAbove(l, k);
      } else {
        FirstAboveNone(Elements(l), k);
        if key < k {
          SuccessorIsFirstAbove(right, k);
        } else if right.Node? {
          assert FirstAbove(Elements(right), k) == Some(Elements(right)[0]) by {
            MinEntryIsLeast(right);
          }
        }
      }
  }

  /** In a sequence with increasing keys, the first entry above the key at
      position `i` is the entry at position `i + 1`, if there is one. */
  lemma {:induction false} FirstAboveAfter<V>(s: seq<Entry<V>>, i: int)
    requires forall a, b :: 0 <= a < b < |s| ==> s[a].key < s[b].key
    requires 0 <= i < |s|
    ensures FirstAbove(s, s[i].key) == (if i + 1 < |s| then Some(s[i + 1]) else None)
    decreases i
  {
    if i > 0 {
      assert s[0].key < s[i].key;
      assert s[1..][i - 1] == s[i];
      FirstAboveAfter(s[1..], i - 1);
    } else if i + 1 < |s| {
      assert s[1..][0] == s[1];
    }
  }

  /** Following an entry's successor in an ordered tree visits the next
      entry in key order, and the last entry has none. */
  lemma {:induction false} SuccessorIsNextElement<V>(t: Tree<V>, i: int)
    requires Ordered(t) && 0 <= i < |Elements(t)|
    ensures Successor(t, Elements(t)[i].key) ==
      (if i + 1 < |Elements(t)| then Some(Elements(t)[i + 1]) else None)
  {
    OrderedElementsIncrease(t);
    SuccessorIsFirstAbove(t, Elements(t)[i].key);
    FirstAboveAfter(Elements(t), i);
  }
}
