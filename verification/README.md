# Counted AVL map

A Dafny model of `AVLTree`, a "counted" AVL-tree map. It is a
self-balancing binary search tree. Every node caches its height `h` and the
number of entries in its left subtree (`count`). The cached counts let
`entryAt(i)` find the entry with the i-th smallest key in logarithmic time.
The model covers the map object and its operations `put`, `get`, `remove`,
`entryAt` and `size`. It also covers the four rotations, the two upward
rebalancing walks, the entry navigation `min` and `next`, and the
self-check `isHealthy` with its helpers.

The model is functional. A tree is an immutable datatype
`Node(left, key, value, count, h, right)`. An operation returns a new tree
instead of relinking nodes. The source's parent pointers exist to walk back
up after a change, and for `next`. Here that walk is the unwinding of the recursion:
each level does, on the way back, what the loop does when it reaches that
node.

- `Trees` holds the datatype and the abstractions the properties are
  stated in: the key set, the map a tree represents (`Contents`), the
  in-order entry sequence (`Elements`) and the invariants (`Ordered`,
  `HeightsOk`, `Balanced`, `CountsOk`).
- `Rotations` holds the four rotations and `Restructure`. `Restructure` is
  one step of either upward walk: rotate when a node is two out of balance,
  otherwise recompute its height.
- `Insertion` models `put` below the root. The insertion walk stops after
  its first rotation. Only the parent of the rotated subtree has its height
  recomputed. A `Status` passed upward records where the walk stands.
  `Grown` states the AVL argument that makes stopping there correct.
- `Removal` models `remove` and `removeImpl`, whose walk never stops early.
- `Lookup` models `get` and `entryAt` as loops, and also `min` and `next`.
- `Checker` models `checkHeight`, `countLeft` and the checks built from
  them.
- `CountedMap` is the object: the root together with the `size` field.

Keys are mathematical integers, standing in for the source's `Comparable`
keys. A missing (`null`) key is `None` in `Put`'s `Option<int>` key.

The insertion walk and the deletion walk write the single-or-double
rotation choice with opposite comparisons. The insertion walk rotates
singly when `h(p.left.left) >= h(p.left.right)` (line 154, mirrored at
174). The deletion walk rotates doubly when `h(p.left.left) <
h(p.left.right)` (line 280, mirrored at 286). Each comparison is the
negation of the other, so the two walks follow one rule. The model defines
it once, in `Restructure`. The deletion branch marked `//?` (line 287) is
proved to rebalance correctly (`Rotations.RestructureRebalances`, used by
`Removal.RemoveAt`).

Two count updates are modelled literally, as written:

- Attaching a new left child sets the parent's count to 1.
- Unlinking a leaf that is a left child sets the parent's count to 0.

On a tree with correct counts, the first agrees with incrementing (0 to 1)
and the second with decrementing (1 to 0). The lemmas
prove the counts stay correct.

## Model

| member | source | states |
|---|---|---|
| Trees.CachedHeightIsHeight | src/com/mureakuha/util/AVLTree.java:454-456 | when every cached `h` is correct, `H` (the model of `h()`: −1 for an empty tree, else the cached field) is the tree's real height |
| Trees.SizeIsKeySetSize | src/com/mureakuha/util/AVLTree.java:14-15 | in an ordered tree the number of nodes equals the number of distinct keys, so a size field matching the node count counts the keys |
| Trees.OrderedElementsIncrease | src/com/mureakuha/util/AVLTree.java:3-7 | in an ordered tree the in-order entries have strictly increasing keys, which is what makes an in-order index a rank |
| Trees.ElementsAreBindings | src/com/mureakuha/util/AVLTree.java:223-228 | in an ordered tree every in-order entry is a binding of the represented map |
| Rotations.RotateLeftPreserves | src/com/mureakuha/util/AVLTree.java:464-480 | `RotateLeft` models `leftRotate`. A left rotation keeps the in-order entries, keys, size, ordering and map; keeps left-subtree counts correct; and leaves correct heights on the two nodes it rebuilds |
| Rotations.RotateRightPreserves | src/com/mureakuha/util/AVLTree.java:488-504 | `RotateRight` models `rightRotate`. It keeps the same things as a left rotation; its count adjustment subtracts the new root's count plus one from the old root |
| Rotations.RotateLeftRightPreserves | src/com/mureakuha/util/AVLTree.java:512-516 | `RotateLeftRight` models `leftRightRotate`. The left-right double rotation keeps entries, keys, size, ordering, map and correct counts, and leaves correct heights |
| Rotations.RotateRightLeftPreserves | src/com/mureakuha/util/AVLTree.java:524-528 | `RotateRightLeft` models `rightLeftRotate`. It keeps the same things as the left-right double rotation |
| Rotations.RestructurePreserves | src/com/mureakuha/util/AVLTree.java:150-195 | `Restructure` models one step of either upward walk. Rotating or not, the step keeps entries, keys, size, ordering, map and correct counts, and leaves every cached height correct |
| Rotations.RestructureRebalances | src/com/mureakuha/util/AVLTree.java:279-295 | a node whose AVL children differ in height by at most two becomes an AVL tree; without rotation its height is one above the taller child; with one it is the taller child's height or one more, and exactly that height when the taller child's own children differ in height |
| Insertion.InsertAt | src/com/mureakuha/util/AVLTree.java:108-195 | insert-or-overwrite below an AVL tree yields an AVL tree; once the walk rotated or stopped, or a value was overwritten, the subtree kept its height; a growing subtree grew by at most one, with unequal children when it grew |
| Insertion.AboveLeft | src/com/mureakuha/util/AVLTree.java:128-195 | the walk arriving from a left child keeps the AVL growth relation one level up, including the single recomputation of the rotated subtree's parent height and the early stop |
| Insertion.AboveRight | src/com/mureakuha/util/AVLTree.java:128-195 | the same for arrival from a right child, which leaves counts alone |
| Insertion.InsertAtKeys | src/com/mureakuha/util/AVLTree.java:126-148 | insertion adds exactly the key, grows the size by one exactly when the key was new, and keeps every left-subtree count correct |
| Insertion.InsertAtContents | src/com/mureakuha/util/AVLTree.java:112-133 | on an ordered tree insertion keeps the order, binds the key to the value and leaves every other binding; it reports an overwrite exactly when the key was bound, with the old value |
| Insertion.InsertAtReplacedShape | src/com/mureakuha/util/AVLTree.java:119-122 | overwriting a present key changes no key, link, count or height |
| Removal.RemoveAt | src/com/mureakuha/util/AVLTree.java:257-316 | removal from an AVL tree yields an AVL tree that is at most one level lower, and gives back the tree unchanged when the key is absent |
| Removal.RemoveAtEntries | src/com/mureakuha/util/AVLTree.java:266-269 | removal shrinks the size by one exactly when a value was removed and keeps every left-subtree count correct |
| Removal.RemoveAtContents | src/com/mureakuha/util/AVLTree.java:257-316 | on an ordered tree removal keeps the order, unbinds the key, leaves every other binding, and reports the key's old value or nothing when it was unbound |
| Removal.Unlink | src/com/mureakuha/util/AVLTree.java:357-446 | unlinking a node by the no-child, one-child or successor case, then rebalancing up to it, leaves an AVL tree at most one level lower |
| Removal.UnlinkEntries | src/com/mureakuha/util/AVLTree.java:357-446 | unlinking leaves exactly the two subtrees' entries in order, one fewer node, and correct counts |
| Removal.UnlinkContents | src/com/mureakuha/util/AVLTree.java:417-445 | on an ordered tree unlinking the node leaves an ordered tree representing the map without the node's key, even though the successor's entry moves into the node |
| Removal.RemoveMin | src/com/mureakuha/util/AVLTree.java:418-443 | unlinking the leftmost node of a subtree and rebalancing above it leaves an AVL tree at most one level lower |
| Removal.RemoveMinEntries | src/com/mureakuha/util/AVLTree.java:418-443 | the unlinked node is the first in-order entry; the rest keeps the other entries in order, with one fewer node and correct counts |
| Removal.RemoveMinContents | src/com/mureakuha/util/AVLTree.java:418-443 | in an ordered tree the unlinked node is the least binding; the rest is ordered and represents the map without that key |
| Lookup.Find | src/com/mureakuha/util/AVLTree.java:206-221 | the search only returns values of keys in the tree, and on an ordered tree returns the key's value exactly when the key is bound |
| Lookup.Select | src/com/mureakuha/util/AVLTree.java:234-246 | with correct counts, the descent by counts returns the entry at the requested in-order position |
| Lookup.MinEntry | src/com/mureakuha/util/AVLTree.java:71-79 | the leftmost entry is the first in-order entry, and its key is in the tree |
| Lookup.MinEntryIsLeast | src/com/mureakuha/util/AVLTree.java:71-79 | in an ordered tree the leftmost entry is a binding whose key is the least key |
| Lookup.SuccessorIsFirstAbove | src/com/mureakuha/util/AVLTree.java:47-69 | on an ordered tree the successor walk finds the first in-order entry whose key exceeds the given key |
| Lookup.SuccessorIsNextElement | src/com/mureakuha/util/AVLTree.java:47-69 | following an entry's successor visits the next in-order entry, and the last entry has none |
| Checker.CheckHeightSpec | src/com/mureakuha/util/AVLTree.java:553-577 | `CheckHeight` models `checkHeight`. It returns the real height when every cached height is correct, and the sentinel otherwise |
| Checker.HeightFieldsOkSpec | src/com/mureakuha/util/AVLTree.java:339-341 | `HeightFieldsOk` models `heightFieldsOK`. It accepts a nonempty tree exactly when its cached heights are correct or the root's cached height is the sentinel itself |
| Checker.BalancedIsHeightBalanced | src/com/mureakuha/util/AVLTree.java:579-597 | `Trees.Balanced` models `isBalanced(e)`, which `isBalanced()` (343-345) applies to the root. With correct cached heights, the check on cached heights is AVL balance on real heights |
| Checker.CountLeftSpec | src/com/mureakuha/util/AVLTree.java:599-616 | `CountLeft` models `countLeft`. When no count holds the sentinel, it returns the size exactly when every count is correct, and the sentinel otherwise |
| Checker.WellIndexedAsWrittenMissesRight | src/com/mureakuha/util/AVLTree.java:347-349 | `WellIndexedAsWritten` models `isWellIndexed` as written. It accepts a tree whose right subtree holds a wrong count |
| Checker.WellIndexedSpec | src/com/mureakuha/util/AVLTree.java:347-349 | when no count holds the sentinel, the corrected index check `WellIndexed` accepts exactly the trees whose every count is correct |
| Checker.IsHealthyAsWrittenMissesRight | src/com/mureakuha/util/AVLTree.java:328-333 | `IsHealthyAsWritten` models `isHealthy` as written. It passes a tree with correct heights and balance but a wrong count in the root's right subtree, which the corrected `IsHealthy` rejects |
| Checker.IsHealthySpec | src/com/mureakuha/util/AVLTree.java:328-333 | `IsHealthy` is the health check with the corrected index check. Barring sentinel values stored in the tree, it holds exactly for correct heights, balance and counts |
| Checker.ValidTreesAreHealthy | src/com/mureakuha/util/AVLTree.java:328-333 | every nonempty tree keeping the AVL and count invariants passes both the corrected `IsHealthy` and the as-written `IsHealthyAsWritten` |
| CountedMap.Empty | src/com/mureakuha/util/AVLTree.java:14-15 | the new map keeps the object invariant, is empty and has size 0 |
| CountedMap.Count | src/com/mureakuha/util/AVLTree.java:318-320 | the size field is the number of keys of the map |
| CountedMap.Put | src/com/mureakuha/util/AVLTree.java:95-198 | a null key is rejected and nothing else is; otherwise the result keeps the invariant, binds the key to the value, returns the old value, grows the size only for a new key, and keeps the shape on overwrite |
| CountedMap.Remove | src/com/mureakuha/util/AVLTree.java:257-316 | the result keeps the invariant, unbinds the key, returns its old value, shrinks the size only when it was bound, and is the same map when it was not |
| CountedMap.Get | src/com/mureakuha/util/AVLTree.java:206-221 | returns the value the map binds the key to, or nothing |
| CountedMap.EntryAt | src/com/mureakuha/util/AVLTree.java:229-247 | returns the entry at in-order position i when 0 ≤ i < size, and nothing otherwise |
| CountedMap.UpdatesKeepHealth | src/com/mureakuha/util/AVLTree.java:328-333 | after any put, and after any remove that leaves the map nonempty, the tree passes both the corrected and the as-written health check |
| CountedMap.AscendingPutExtends | src/com/mureakuha/util/AVLTree.java:793-795 | putting key n bound to itself into the identity map on 0 .. n−1 gives the identity map on 0 .. n, with size n+1 and no old value |
| CountedMap.DenseEntries | src/com/mureakuha/util/AVLTree.java:800-807 | in the identity map on 0 .. size−1, position i holds key i bound to i |
| CountedMap.Ascending | src/com/mureakuha/util/AVLTree.java:791-795 | putting 0, 1, .. n−1, each bound to itself, into an empty map gives a map that keeps the invariant, binds exactly each i < n to i, and has size n |
| CountedMap.AscendingDemonstration | src/com/mureakuha/util/AVLTree.java:788-825 | on the map built by n ascending puts, ten in the source, with n above five: the size is n, both health checks pass, key i sits at position i, putting 5 ↦ 55 returns 5 and keeps the size, and removing 5 returns 55, shrinks the size by one and leaves a map passing both checks, with key i at position i below 5 and key i+1 at position i from 5 up to n−2 (so, for n above six, as with the source's ten, key 6 at position 5) |
| CountedMap.Demonstration | src/com/mureakuha/util/AVLTree.java:788-825 | for the identity map on 0 .. n−1 with n above five: the map passes both health checks and holds key i at position i; putting 5 ↦ 55 keeps the size and returns 5; removing 5 then shrinks the size by one, returns 55 and leaves a map passing both health checks, in which position i holds key i below 5 and key i+1 from 5 up to n−2, so for n above six (ten in the source) `entryAt(5)` gives the entry 6 ↦ 6 |
| CountedMap.GapEntries | src/com/mureakuha/util/AVLTree.java:818-821 | in the identity map on 0 .. n−1 with the key g removed, the size is n−1, positions below g hold key i bound to i, and positions from g on hold key i+1 bound to i+1 |

## Left out

- `main`, `profile1` and the printing in `profile2`: benchmark and demo output against a library map. Only `profile2`'s assertions are modelled, as `CountedMap.AscendingDemonstration`.
- `hasCycles`: a datatype value cannot contain a cycle, so the check always holds. `Checker.IsHealthy` and `Checker.IsHealthyAsWritten` omit it.
- Parent pointers and node identity: the model has no node handles. The two-child removal moves the successor's key and value into the deleted node, and that node identity is not modelled. `Removal.Unlink` models only its effect on the map.
- `Entry.getKey`, `getValue`, `setValue` and `toString`: accessors on node handles, which the model does not have.
- `Lookup.Successor`: models `next` as a descent from the root to the key instead of a walk up parent pointers. The two reach the same entry.
- Java `int` overflow: the `size`, `count` and `h` fields are unbounded integers. A map with more than 2^31 − 1 entries is not modelled.
- `Checker.IsHealthySpec`: requires that no stored count or root height equals `Integer.MIN_VALUE`. The source uses that value as the "inconsistent" sentinel, and a stored sentinel would make the checks disagree with the invariants. `Checker.HeightFieldsOkSpec` states that case exactly.
- `Checker.IsHealthySpec`: states the health check built on the corrected index check `Checker.WellIndexed`, not on `isWellIndexed` as written (see Findings). The source's check as written is `Checker.IsHealthyAsWritten`; `Checker.ValidTreesAreHealthy` proves that valid trees pass it too, but it also passes some trees with wrong counts (`Checker.IsHealthyAsWrittenMissesRight`).
- `Checker.IsHealthy` and the root checks: the source's checks dereference the root and throw on an empty tree. The model returns `None` there.
- `CountedMap.Get` and `CountedMap.Remove`: a `null` key is not modelled for `get` and `remove`, where the source throws a `NullPointerException` on a nonempty map and returns null on an empty one. Only `put` checks for a null key, and `Put` models that check.
- `CountedMap.Get`, `CountedMap.EntryAt`, `CountedMap.Put` and `CountedMap.Remove`: require the object invariant, which every map built by `Empty`, `Put` and `Remove` keeps. Their behaviour on corrupted trees is not stated. `Lookup.Find` does state its own.
- `Lookup.Select`: states nothing for trees with wrong counts. On such a tree the descent can run off the tree; the model returns `None` there, where `entryAt` would dereference null and throw a `NullPointerException`.
- Logarithmic running time and the logarithmic height bound: not stated. The model proves balance, but not the height bound that follows from it.
- Generic `Comparable` keys: keys are integers compared by `<`. A comparator inconsistent with equality is not modelled.

## Findings

| source | as written | input that shows it | evidently intended | confidence | as-written member | corrected member |
|---|---|---|---|---|---|---|
| src/com/mureakuha/util/AVLTree.java:347-349 | `isWellIndexed` compares the root's count with `countLeft(root.left)`. `countLeft` checks every count inside the left subtree, but nothing examines the root's right subtree. | root key 1 with count 0 and no left child; right child key 2 with a wrong count of 5 | the whole tree is recounted, so a wrong count in the right subtree fails the check | not executed | Checker.WellIndexedAsWrittenMissesRight | Checker.WellIndexedSpec |
