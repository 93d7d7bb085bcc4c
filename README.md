# CustomTreeMapImpl in Dafny

A model of `CustomTreeMapImpl<K,V>`, an ordered map built on an unbalanced
binary search tree. Each `Node` has a key, a value, and `left`, `right` and
`parent` links. The map holds a `root` and a `size` counter. Keys are `int`,
ordered by `<`, the order `Integer::compareTo` gives the test class.

The model has four modules:

- `Shapes` (shapes.dfy) is the tree as a value: `Shape<V>`, with each node's
  arena slot, key and value. Pure functions there say what the imperative
  code computes:
  - `Insert` is `append`.
  - `Delete` is `removeBefore`.
  - `SpliceOut` is the four cases of `siftAfter`.
  - `MinOf`, `MinParentRef` and `RemoveMin` describe the successor walk.
  - `Entries` is the in-order flattening of `fillRecursive`.

  Lemmas there state the map and order properties of each operation.
- `Arena` (arena.dfy) is the heap. Slot `i` of a `seq<Node<V>>` is one `Node`
  object, a link is a slot number, and `Nil` (-1) is null.
  - `Linked(ns, p, t)` says the arena links exactly the tree `t` below a node
    whose parent is `p`, children and parent fields alike.
  - The link updates `setLeftChild`, `setRightChild` and `exchange` are
    functions on the arena.
  - `search` is a function on the arena, proved against the `Shapes` view.
  - Case lemmas show that each `siftAfter` case turns a linked tree into the
    linked `SpliceOut` tree (`Spliced`).
- `TreeMap` (treemap.dfy) is the class `CustomTreeMap`. Its fields are
  `nodes`, `root`, `size` and a ghost `shape`.
  - `Valid()` is the invariant: linked, BST-ordered, no slot used twice, and
    `size` equal to the node count.
  - `Model()` is the map the tree stands for.
  - Every method of the source except `toString` is a method or function
    here. The successor walk is a `while` loop with its invariants. Where the
    model departs from the source's branches (the value test for line 205,
    `setLeftChild` for lines 297-301, the leaf case's fall-through proved
    unreachable), "## Left out" says so.
- `Fixture` (fixture.dfy) holds the scenarios of the JUnit test class as
  verified client code.

## Model

| member | source | states |
|---|---|---|
| TreeMap.CustomTreeMap.constructor | src/main/java/Laptenkov/CustomTreeMapImpl.java:52-54 | a new map is valid, empty and of size 0 |
| TreeMap.CustomTreeMap.Size | src/main/java/Laptenkov/CustomTreeMapImpl.java:63-65 | `size` is the number of keys in the map |
| TreeMap.CustomTreeMap.IsEmpty | src/main/java/Laptenkov/CustomTreeMapImpl.java:75-77 | true exactly when the map has no key |
| TreeMap.CustomTreeMap.Get | src/main/java/Laptenkov/CustomTreeMapImpl.java:88-96 | the value bound to the key when present, null (`None`) when absent, including on an empty map |
| Arena.Search | src/main/java/Laptenkov/CustomTreeMapImpl.java:106-126 | the descent returns null iff the key is absent from the subtree, otherwise a node of the subtree holding that key and its bound value |
| TreeMap.CustomTreeMap.ContainsKey | src/main/java/Laptenkov/CustomTreeMapImpl.java:341-349 | true exactly when the key is bound |
| TreeMap.CustomTreeMap.Put | src/main/java/Laptenkov/CustomTreeMapImpl.java:141-151 | keeps the invariant; returns the previous value or null; afterwards the key maps to the new value and every other pair is unchanged; `size` grows by one exactly when the key was new |
| TreeMap.CustomTreeMap.Append | src/main/java/Laptenkov/CustomTreeMapImpl.java:161-189 | either overwrites the equal key's value in place or appends one node in a fresh slot whose parent is the attachment node; the result links `Insert(t, ...)`; slots outside the subtree are untouched; returns the old value |
| Shapes.InsertMap | src/main/java/Laptenkov/CustomTreeMapImpl.java:161-189 | after `append` the key maps to the new value and all other pairs are as before |
| Shapes.InsertOrdered | src/main/java/Laptenkov/CustomTreeMapImpl.java:161-189 | `append` keeps BST order |
| Shapes.InsertKeys | src/main/java/Laptenkov/CustomTreeMapImpl.java:161-189 | the key set gains exactly the inserted key |
| Shapes.InsertNodes | src/main/java/Laptenkov/CustomTreeMapImpl.java:170-188 | the node count grows by one, with the new slot, iff the key was absent; no slot is used twice afterwards |
| TreeMap.CustomTreeMap.Remove | src/main/java/Laptenkov/CustomTreeMapImpl.java:200-216 | keeps the invariant; returns the removed value or null; afterwards the key is unbound and every other pair unchanged; `size` drops by one iff the key was present; an absent key leaves the arena, the root and the tree untouched |
| TreeMap.CustomTreeMap.RemoveBefore | src/main/java/Laptenkov/CustomTreeMapImpl.java:226-247 | returns true iff the key is in the subtree; if so the subtree is replaced by `Delete(t, key)` under the same parent link and `size` drops by one; if not nothing changes |
| TreeMap.CustomTreeMap.SiftAfter | src/main/java/Laptenkov/CustomTreeMapImpl.java:254-308 | the subtree rooted at the node is replaced by `SpliceOut(t)` under the same parent (or as the root), no slot outside it and its parent changes, and `size` drops by one, including `size = 0` for a single root; the leaf case's fall-through, where neither parent link holds the node, is proved unreachable |
| TreeMap.CustomTreeMap.Exchange | src/main/java/Laptenkov/CustomTreeMapImpl.java:316-330 | the replacement takes the node's place in the root or in the one parent link that held it, its parent field is set accordingly, `size` drops by one |
| TreeMap.CustomTreeMap.SetLeftChild | src/main/java/Laptenkov/CustomTreeMapImpl.java:30-35 | the arena after `setLeftChild` is `SetLeft` of the arena before |
| TreeMap.CustomTreeMap.SetRightChild | src/main/java/Laptenkov/CustomTreeMapImpl.java:37-42 | the arena after `setRightChild` is `SetRight` of the arena before |
| Arena.SetLeft | src/main/java/Laptenkov/CustomTreeMapImpl.java:30-35 | the left link becomes the child, the child's parent becomes the node unless the child is null, nothing else changes |
| Arena.SetRight | src/main/java/Laptenkov/CustomTreeMapImpl.java:37-42 | the same for the right link |
| Arena.ReplaceChild | src/main/java/Laptenkov/CustomTreeMapImpl.java:320-326 | the left link is replaced if it held the node, else the right link if it did, else nothing |
| Arena.Exchanged | src/main/java/Laptenkov/CustomTreeMapImpl.java:316-330 | when the parent holds the node, the replacement gets that parent and the parent's link is replaced; every other slot is unchanged |
| Arena.LeafSpliced | src/main/java/Laptenkov/CustomTreeMapImpl.java:256-273 | cutting a leaf (root to null, or the parent link that held it to null) splices the empty tree in its place |
| Arena.LiftSpliced | src/main/java/Laptenkov/CustomTreeMapImpl.java:276-279 | without a right child, `exchange(node, node.left)` splices the left subtree in its place |
| Arena.PromoteSpliced | src/main/java/Laptenkov/CustomTreeMapImpl.java:283-287 | a right child without a left child adopts the left subtree and takes the node's place: the result links `SpliceOut(t)` |
| Arena.MinLinked | src/main/java/Laptenkov/CustomTreeMapImpl.java:290-295 | the walk's `tmpLeft` is the leftmost node (no left child, parent `tmpPrev`) and `tmpPrev` holds it in its left link |
| Arena.DetachMin | src/main/java/Laptenkov/CustomTreeMapImpl.java:297-301 | moving the leftmost node's right subtree into its parent's left link with `setLeftChild` links the subtree without its leftmost node |
| Arena.Graft | src/main/java/Laptenkov/CustomTreeMapImpl.java:302-304 | the detached successor adopts both subtrees and takes the node's place under its parent |
| Arena.SuccessorSpliced | src/main/java/Laptenkov/CustomTreeMapImpl.java:289-306 | the whole successor case links `SpliceOut(t)` in the node's place and changes no slot outside the subtree and its parent |
| Arena.SplicedLeft | src/main/java/Laptenkov/CustomTreeMapImpl.java:234-239 | a splice in the left subtree is a splice of `Delete(t, key)` for the whole subtree |
| Arena.SplicedRight | src/main/java/Laptenkov/CustomTreeMapImpl.java:240-246 | the same for the right subtree |
| Arena.PlacedChildren | src/main/java/Laptenkov/CustomTreeMapImpl.java:234-246 | the recursive calls of `removeBefore` are made on removable subtrees |
| Shapes.Insert | src/main/java/Laptenkov/CustomTreeMapImpl.java:161-189 | the tree after `append`: the equal key's value overwritten, or a new leaf where the descent runs off; its properties are InsertMap, InsertOrdered, InsertKeys and InsertNodes |
| Shapes.Delete | src/main/java/Laptenkov/CustomTreeMapImpl.java:226-247 | the tree after `removeBefore`: the descent by comparison and `SpliceOut` at the equal key; its properties are DeleteMap, DeleteOrdered, DeleteAbsent, DeleteNodes and DeleteEntries |
| Shapes.SpliceOut | src/main/java/Laptenkov/CustomTreeMapImpl.java:254-308 | the subtree that replaces the removed node in each of the four cases of `siftAfter`; its properties are SpliceOutMap, SpliceOutOrdered, SpliceOutEntries and SpliceOutNodes |
| Shapes.RemoveMin | src/main/java/Laptenkov/CustomTreeMapImpl.java:297-301 | the right subtree after the successor is detached, its own right subtree moving into its place; its properties are MinFacts, RemoveMinMap, RemoveMinOrdered and RemoveMinNodes |
| Shapes.MinParentRef | src/main/java/Laptenkov/CustomTreeMapImpl.java:291-295 | `tmpPrev` at the end of the walk; MinLinked shows it is the slot whose left link holds the successor |
| Shapes.Entries | src/main/java/Laptenkov/CustomTreeMapImpl.java:454-462 | the in-order list `fillRecursive` builds; its properties are CountEntries, KeysOfEntries, OrderedAscending and EntriesMap |
| Shapes.MinOf | src/main/java/Laptenkov/CustomTreeMapImpl.java:292-295 | the walk stops at a node without a left child |
| Shapes.MinFacts | src/main/java/Laptenkov/CustomTreeMapImpl.java:290-295 | the leftmost node is the first in-order entry, and removing it drops exactly that entry |
| Shapes.RemoveMinOrdered | src/main/java/Laptenkov/CustomTreeMapImpl.java:289-301 | the leftmost key is smaller than every other key, and removing that node drops exactly that key and keeps BST order |
| Shapes.RemoveMinMap | src/main/java/Laptenkov/CustomTreeMapImpl.java:289-301 | removing the leftmost node unbinds exactly its key |
| Shapes.RemoveMinNodes | src/main/java/Laptenkov/CustomTreeMapImpl.java:289-301 | removing the leftmost node frees exactly its slot |
| Shapes.SpliceOutOrdered | src/main/java/Laptenkov/CustomTreeMapImpl.java:254-308 | every case of `siftAfter` keeps BST order and drops exactly the removed key |
| Shapes.SuccessorOrdered | src/main/java/Laptenkov/CustomTreeMapImpl.java:289-305 | the successor in the removed node's place keeps BST order |
| Shapes.SpliceOutMap | src/main/java/Laptenkov/CustomTreeMapImpl.java:254-308 | `siftAfter` unbinds exactly the removed key and keeps every other pair |
| Shapes.SpliceOutEntries | src/main/java/Laptenkov/CustomTreeMapImpl.java:254-308 | the in-order sequence after the splice is the left entries followed by the right entries |
| Shapes.SpliceOutNodes | src/main/java/Laptenkov/CustomTreeMapImpl.java:254-308 | one node fewer, exactly the removed slot freed |
| Shapes.DeleteOrdered | src/main/java/Laptenkov/CustomTreeMapImpl.java:226-247 | `removeBefore` keeps BST order and removes exactly the key from the key set |
| Shapes.DeleteMap | src/main/java/Laptenkov/CustomTreeMapImpl.java:200-247 | `remove(key)` unbinds the key and keeps every other pair |
| Shapes.DeleteAbsent | src/main/java/Laptenkov/CustomTreeMapImpl.java:234-246 | an absent key leaves the tree as it was |
| Shapes.DeleteNodes | src/main/java/Laptenkov/CustomTreeMapImpl.java:226-247 | one node fewer iff the key is present; no new slots |
| Shapes.DeleteEntries | src/main/java/Laptenkov/CustomTreeMapImpl.java:226-247 | the in-order sequence afterwards is the old one with the removed key's entry taken out |
| TreeMap.CustomTreeMap.FillRecursive | src/main/java/Laptenkov/CustomTreeMapImpl.java:454-462 | appends the nodes of the subtree to the list in order: left subtree, node, right subtree |
| TreeMap.CustomTreeMap.Collect | src/main/java/Laptenkov/CustomTreeMapImpl.java:387-390 | the node list of `keys`, `values`, `containsValue` is the in-order list of the whole tree (empty when `root` is null) |
| Arena.LinkedEntries | src/main/java/Laptenkov/CustomTreeMapImpl.java:454-462 | each collected slot holds the key and value of its in-order entry |
| Shapes.CountEntries | src/main/java/Laptenkov/CustomTreeMapImpl.java:392 | the flattening has one entry per node, which is what `new Object[size]` relies on |
| Shapes.KeysOfEntries | src/main/java/Laptenkov/CustomTreeMapImpl.java:454-462 | the flattening meets exactly the keys of the tree |
| Shapes.OrderedAscending | src/main/java/Laptenkov/CustomTreeMapImpl.java:454-462 | in a BST the flattening's keys are strictly ascending |
| Shapes.CountKeys | src/main/java/Laptenkov/CustomTreeMapImpl.java:46 | in a BST, the number of keys equals the number of nodes |
| Shapes.EntriesMap | src/main/java/Laptenkov/CustomTreeMapImpl.java:394-418 | every collected entry is a pair of the map, so `keys()[i]` and `values()[i]` belong together |
| Shapes.ValuesOfMap | src/main/java/Laptenkov/CustomTreeMapImpl.java:370-374 | a value is met by the scan iff some key is bound to it |
| Shapes.MapDescend | src/main/java/Laptenkov/CustomTreeMapImpl.java:108-125 | in a BST a smaller key is bound iff it is bound on the left, a larger one iff on the right |
| TreeMap.CustomTreeMap.Keys | src/main/java/Laptenkov/CustomTreeMapImpl.java:386-399 | a fresh array of length `size` holding the keys in order, strictly ascending, exactly the key set |
| TreeMap.CustomTreeMap.Values | src/main/java/Laptenkov/CustomTreeMapImpl.java:408-422 | a fresh array of length `size` holding the values in key order; cell `i` is the value bound to the `i`-th key |
| TreeMap.CustomTreeMap.ContainsValue | src/main/java/Laptenkov/CustomTreeMapImpl.java:360-377 | true exactly when some key is bound to the value (false on an empty map) |
| Arena.DetachMinAsWritten | src/main/java/Laptenkov/CustomTreeMapImpl.java:297-301 | lines 297-301 as written: only `tmpPrev.left` changes; the moved child keeps its parent field |
| Arena.AsWrittenUnlinked | src/main/java/Laptenkov/CustomTreeMapImpl.java:297-301 | for every linked tree whose successor has a right child, the as-written detach leaves an arena that does not link the tree without the successor |
| Arena.RemoveMinParent | src/main/java/Laptenkov/CustomTreeMapImpl.java:297-301 | in any arena linking the tree without its leftmost node, the moved right child's parent is the leftmost node's old parent |
| Arena.MinSubLinked | src/main/java/Laptenkov/CustomTreeMapImpl.java:290-295 | the node where the walk stops is the parent of its own right subtree |
| Arena.AsWrittenLosesParent | src/main/java/Laptenkov/CustomTreeMapImpl.java:297-301 | on the test fixture, the as-written detach leaves key 3 under key 4 with a parent field naming key 2, so the subtree is not linked; `setLeftChild` links it |
| Fixture.NotEmptyMap | src/test/java/Laptenkov/CustomTreeMapImplTest.java:28-37 | five puts give the map 1→first, 99→last, 4→fourth, 2→second, 3→third |
| Fixture.SizeTest | src/test/java/Laptenkov/CustomTreeMapImplTest.java:69-86 | the empty map has size 0 and is empty; the filled map has size 5 and is not empty |
| Fixture.GetTest | src/test/java/Laptenkov/CustomTreeMapImplTest.java:94-110 | get(1) = first, get(99) = last, get(999) = null on the filled map and on the empty map |
| Fixture.ContainsTest | src/test/java/Laptenkov/CustomTreeMapImplTest.java:170-209 | containsKey(1), containsKey(99), not containsKey(999) on either map; containsValue of first and last, not of none on either map |
| Fixture.KeysTest | src/test/java/Laptenkov/CustomTreeMapImplTest.java:217-219 | keys() is [1, 2, 3, 4, 99] |
| Fixture.ValuesTest | src/test/java/Laptenkov/CustomTreeMapImplTest.java:227-230 | values() is [first, second, third, fourth, last] |
| Fixture.PutTest | src/test/java/Laptenkov/CustomTreeMapImplTest.java:118-123 | put(1, notFirst) returns first, and the size is 5 before and after |
| Fixture.PutEmptyTest | src/test/java/Laptenkov/CustomTreeMapImplTest.java:131-136 | the empty map has size 0, and put(15, …) and put(99, …) into it return null |
| Fixture.RemoveTest | src/test/java/Laptenkov/CustomTreeMapImplTest.java:144-149 | remove(1) returns first and leaves size 4 |
| Fixture.RemoveMissingTest | src/test/java/Laptenkov/CustomTreeMapImplTest.java:157-161 | remove(999) returns null on the filled map, leaving size 5, and on the empty map |

## Left out

- `toString` (src/main/java/Laptenkov/CustomTreeMapImpl.java:432-448) is not modelled. It is string building over `Object.toString` of arbitrary keys and values.
- The comparator is not modelled. Keys are `int`, compared by `<` and `==`, as `Integer::compareTo` orders them. Comparator exceptions and inconsistent comparators are out of scope, and the constructor takes no comparator.
- TreeMap.CustomTreeMap.Remove: the shortcut at line 205 compares keys by value. The source compares references, so for boxed integers outside the small-value cache it can miss and fall through to `get`/`removeBefore`, which give the same result.
- Null values are not modelled. A Java `null` result is `None`, and stored values are never null, so "absent" and "bound to null" are not told apart.
- The untyped `Object` interface and its unchecked casts are replaced by typed signatures.
- `size` is an unbounded integer, so Java `int` overflow is not modelled. It would need 2^31 nodes.
- Removed nodes stay in the arena as unreachable slots. Garbage collection is not modelled.
- TreeMap.CustomTreeMap.SiftAfter: lines 297-301 are modelled with `setLeftChild`, so the moved child's parent is set (see Findings). The as-written form is `Arena.DetachMinAsWritten`.
- TreeMap.CustomTreeMap.SiftAfter: in the leaf case, the source falls through to `exchange(node, null)` when neither parent link holds the node. Under the invariant that cannot happen, so the model has `assert false` there instead of the fall-through.
- The `toString` assertion of the test class (src/test/java/Laptenkov/CustomTreeMapImplTest.java:55-60) is not modelled, for the reason given for `toString` above. Its size-0 assertion is in Fixture.SizeTest.

## Findings

| source | as written | input that shows it | evidently intended | confidence | as-written member | corrected member |
|---|---|---|---|---|---|---|
| src/main/java/Laptenkov/CustomTreeMapImpl.java:297-301 | `tmpPrev.left = tmpLeft.right` moves the successor's right child into `tmpPrev`'s left link with a plain field write. The moved child's `parent` still names the successor, which is now elsewhere in the tree. | puts 1, 99, 4, 2, 3, then `remove(1)`: key 3 becomes the left child of key 4 with a parent field still naming key 2 (Arena.AsWrittenLosesParent). In general, whenever the successor has a right child, the result is not a linked tree (Arena.AsWrittenUnlinked). By hand trace (not proved here), a later `remove(3)` finds neither parent link holding the node, decrements `size` without unlinking it, and `keys()` then overflows its array. | `tmpPrev.setLeftChild(tmpLeft.right)`, which also sets the parent | not executed | Arena.AsWrittenUnlinked | Arena.DetachMin |
