/**
 The tree of a CustomTreeMapImpl as a value: which node sits where, with its
 key and its value. Each node also carries `ref`, its slot in the node arena,
 so that the arena can be tied to this view (module Arena). The functions here
 say what the imperative operations compute: Insert is `append`, Delete is
 `removeBefore`, SpliceOut is `siftAfter`, MinOf and RemoveMin describe the
 in-order-successor walk, and Entries is the in-order flattening done by
 `fillRecursive`. Keys are ordered by `<`, the order of Integer::compareTo.
 */
module Shapes {

  /** The absent link, Java's `null`. */
  const Nil: int := -1

  datatype Option<T> = None | Some(value: T)

  datatype Shape<V> =
    | Empty
    | Branch(left: Shape<V>, ref: int, key: int, value: V, right: Shape<V>)

  /** One visited node, as `fillRecursive` collects it. */
  datatype Entry<V> = Entry(ref: int, key: int, value: V)

  function RootRef<V>(t: Shape<V>): int
  {
    if t.Empty? then Nil else t.ref
  }

  function Count<V>(t: Shape<V>): nat
  {
    match t
    case Empty => 0
    case Branch(l, _, _, _, r) => Count(l) + 1 + Count(r)
  }

  function Refs<V>(t: Shape<V>): set<int>
  {
    match t
    case Empty => {}
    case Branch(l, n, _, _, r) => Refs(l) + {n} + Refs(r)
  }

  function KeySet<V>(t: Shape<V>): set<int>
  {
    match t
    case Empty => {}
    case Branch(l, _, k, _, r) => KeySet(l) + {k} + KeySet(r)
  }

  /** The map the tree stands for. */
  function ToMap<V>(t: Shape<V>): map<int, V>
  {
    match t
    case Empty => map[]
    case Branch(l, _, k, v, r) => (ToMap(l) + ToMap(r))[k := v]
  }

  /** In-order flattening: left subtree, the node, right subtree. */
  function Entries<V>(t: Shape<V>): seq<Entry<V>>
  {
    match t
    case Empty => []
    case Branch(l, n, k, v, r) => Entries(l) + [Entry(n, k, v)] + Entries(r)
  }

  function KeysOf<V>(es: seq<Entry<V>>): seq<int>
  {
    seq(|es|, i requires 0 <= i < |es| => es[i].key)
  }

  function ValuesOf<V>(es: seq<Entry<V>>): seq<V>
  {
    seq(|es|, i requires 0 <= i < |es| => es[i].value)
  }

  function RefsOf<V>(es: seq<Entry<V>>): seq<int>
  {
    seq(|es|, i requires 0 <= i < |es| => es[i].ref)
  }

  /** The entries of `es` except those whose key is `key`. */
  function Without<V>(es: seq<Entry<V>>, key: int): seq<Entry<V>>
  {
    if es == [] then []
    else (if es[0].key == key then [] else [es[0]]) + Without(es[1..], key)
  }

  /** No arena slot is used by two nodes of the tree. */
  ghost predicate Distinct<V>(t: Shape<V>)
  {
    match t
    case Empty => true
    case Branch(l, n, _, _, r) =>
      Distinct(l) && Distinct(r) && n !in Refs(l) && n !in Refs(r) && Refs(l) !! Refs(r)
  }

  /** The BST order: every key on the left is smaller, every key on the right larger. */
  ghost predicate Ordered<V>(t: Shape<V>)
  {
    match t
    case Empty => true
    case Branch(l, _, k, _, r) =>
      Ordered(l) && Ordered(r) &&
      (forall x :: x in KeySet(l) ==> x < k) &&
      (forall x :: x in KeySet(r) ==> k < x)
  }

  ghost predicate StrictlyAscending(s: seq<int>)
  {
    forall i, j :: 0 <= i < j < |s| ==> s[i] < s[j]
  }

  /** `append`: overwrite the value of the node whose key compares equal, or hang a new leaf at slot `slot`. */
  function Insert<V>(t: Shape<V>, key: int, value: V, slot: int): Shape<V>
  {
    match t
    case Empty => Branch(Empty, slot, key, value, Empty)
    case Branch(l, n, k, v, r) =>
      if key == k then Branch(l, n, k, value, r)
      else if key < k then Branch(Insert(l, key, value, slot), n, k, v, r)
      else Branch(l, n, k, v, Insert(r, key, value, slot))
  }

  /** The leftmost node of a non-empty tree: where the successor walk stops. */
  function MinOf<V>(t: Shape<V>): (m: Shape<V>)
    requires t.Branch?
    ensures m.Branch? && m.left.Empty?
  {
    if t.left.Empty? then t else MinOf(t.left)
  }

  /** The slot of the parent of the leftmost node, when that node is not the root. */
  function MinParentRef<V>(t: Shape<V>): int
    requires t.Branch? && t.left.Branch?
  {
    if t.left.left.Empty? then t.ref else MinParentRef(t.left)
  }

  /** The tree with its leftmost node replaced by that node's right subtree. */
  function RemoveMin<V>(t: Shape<V>): Shape<V>
    requires t.Branch?
  {
    if t.left.Empty? then t.right
    else Branch(RemoveMin(t.left), t.ref, t.key, t.value, t.right)
  }

  /** `siftAfter`: the tree that replaces a node, in the four cases of the source. */
  function SpliceOut<V>(t: Shape<V>): Shape<V>
    requires t.Branch?
  {
    if t.left.Empty? && t.right.Empty? then Empty
    else if t.right.Empty? then t.left
    else if t.right.left.Empty? then Branch(t.left, t.right.ref, t.right.key, t.right.value, t.right.right)
    else
      var m := MinOf(t.right);
      Branch(t.left, m.ref, m.key, m.value, RemoveMin(t.right))
  }

  /** `removeBefore`: descend by comparison and splice out the node whose key compares equal. */
  function Delete<V>(t: Shape<V>, key: int): Shape<V>
  {
    match t
    case Empty => Empty
    case Branch(l, n, k, v, r) =>
      if key == k then SpliceOut(t)
      else if key < k then Branch(Delete(l, key), n, k, v, r)
      else Branch(l, n, k, v, Delete(r, key))
  }

  // ---------------------------------------------------------------------------
  // Flattening

  lemma {:induction false} CountEntries<V>(t: Shape<V>)
    ensures |Entries(t)| == Count(t)
  {
    match t
    case Empty =>
    case Branch(l, _, _, _, r) => CountEntries(l); CountEntries(r);
  }

  lemma KeysOfConcat<V>(a: seq<Entry<V>>, b: seq<Entry<V>>)
    ensures KeysOf(a + b) == KeysOf(a) + KeysOf(b)
  {
    assert |KeysOf(a + b)| == |KeysOf(a) + KeysOf(b)|;
    forall i | 0 <= i < |a + b| ensures KeysOf(a + b)[i] == (KeysOf(a) + KeysOf(b))[i] {
      if i < |a| {
        assert (a + b)[i] == a[i];
      } else {
        assert (a + b)[i] == b[i - |a|];
      }
    }
  }

  /** The keys met by the flattening are exactly the keys of the tree. */
  lemma {:induction false} KeysOfEntries<V>(t: Shape<V>)
    ensures forall x :: x in KeySet(t) <==> x in KeysOf(Entries(t))
  {
    match t
    case Empty =>
    case Branch(l, n, k, v, r) =>
      KeysOfEntries(l);
      KeysOfEntries(r);
      KeysOfBranch(l, n, k, v, r);
  }

  lemma KeysOfBranch<V>(l: Shape<V>, n: int, k: int, v: V, r: Shape<V>)
    ensures KeysOf(Entries(Branch(l, n, k, v, r))) == KeysOf(Entries(l)) + [k] + KeysOf(Entries(r))
  {
    KeysOfConcat(Entries(l) + [Entry(n, k, v)], Entries(r));
    KeysOfConcat(Entries(l), [Entry(n, k, v)]);
    assert KeysOf([Entry(n, k, v)]) == [k];
  }

  lemma RefsOfBranch<V>(l: Shape<V>, n: int, k: int, v: V, r: Shape<V>)
    ensures RefsOf(Entries(Branch(l, n, k, v, r))) == RefsOf(Entries(l)) + [n] + RefsOf(Entries(r))
  {
    var a, b := Entries(l), Entries(r);
    var es := a + [Entry(n, k, v)] + b;
    assert |RefsOf(es)| == |RefsOf(a) + [n] + RefsOf(b)|;
    forall i | 0 <= i < |es| ensures RefsOf(es)[i] == (RefsOf(a) + [n] + RefsOf(b))[i] {
      if i < |a| {
        assert es[i] == a[i];
      } else if i > |a| {
        assert es[i] == b[i - |a| - 1];
      }
    }
  }

  lemma AscendingConcat(a: seq<int>, k: int, b: seq<int>)
    requires StrictlyAscending(a) && StrictlyAscending(b)
    requires forall x :: x in a ==> x < k
    requires forall x :: x in b ==> k < x
    ensures StrictlyAscending(a + [k] + b)
  {
    var s := a + [k] + b;
    forall i, j | 0 <= i < j < |s| ensures s[i] < s[j] {
      if j < |a| {
        assert s[i] == a[i] && s[j] == a[j];
      } else if j == |a| {
        assert s[i] == a[i] && a[i] in a;
      } else if i > |a| {
        assert s[i] == b[i - |a| - 1] && s[j] == b[j - |a| - 1];
      } else if i == |a| {
        assert s[j] == b[j - |a| - 1] && b[j - |a| - 1] in b;
      } else {
        assert s[i] == a[i] && a[i] in a;
        assert s[j] == b[j - |a| - 1] && b[j - |a| - 1] in b;
      }
    }
  }

  /** BST order makes the in-order flattening strictly ascending in its keys. */
  lemma {:induction false} OrderedAscending<V>(t: Shape<V>)
    requires Ordered(t)
    ensures StrictlyAscending(KeysOf(Entries(t)))
  {
    match t
    case Empty =>
    case Branch(l, n, k, v, r) =>
      OrderedAscending(l);
      OrderedAscending(r);
      KeysOfEntries(l);
      KeysOfEntries(r);
      KeysOfBranch(l, n, k, v, r);
      AscendingConcat(KeysOf(Entries(l)), k, KeysOf(Entries(r)));
  }

  /** Two strictly ascending sequences with the same elements are equal. */
  lemma {:induction false} AscendingUnique(a: seq<int>, b: seq<int>)
    requires StrictlyAscending(a) && StrictlyAscending(b)
    requires forall x :: x in a <==> x in b
    ensures a == b
    decreases |a|
  {
    assert |b| > 0 ==> b[0] in b;
    if a != [] {
      assert a[0] in a;
      assert a[0] in b;
      assert b[0] in a;
      assert a[0] == b[0];
      forall x ensures x in a[1..] <==> x in b[1..] {
        if x in a[1..] {
          var i :| 1 <= i < |a| && a[i] == x;
          assert x in b;
        }
        if x in b[1..] {
          var i :| 1 <= i < |b| && b[i] == x;
          assert x in a;
        }
      }
      AscendingUnique(a[1..], b[1..]);
      assert a == [a[0]] + a[1..] && b == [b[0]] + b[1..];
    }
  }

  // ---------------------------------------------------------------------------
  // The map a tree stands for

  lemma {:induction false} MapKeys<V>(t: Shape<V>)
    ensures ToMap(t).Keys == KeySet(t)
  {
    match t
    case Empty =>
    case Branch(l, _, _, _, r) => MapKeys(l); MapKeys(r);
  }

  /** Below a node, a smaller key is looked up on the left and a larger one on the right. */
  lemma MapDescend<V>(t: Shape<V>, key: int)
    requires t.Branch? && Ordered(t)
    ensures key == t.key ==> key in ToMap(t) && ToMap(t)[key] == t.value
    ensures key < t.key ==> (key in ToMap(t) <==> key in ToMap(t.left))
    ensures key < t.key && key in ToMap(t.left) ==> ToMap(t)[key] == ToMap(t.left)[key]
    ensures t.key < key ==> (key in ToMap(t) <==> key in ToMap(t.right))
    ensures t.key < key && key in ToMap(t.right) ==> ToMap(t)[key] == ToMap(t.right)[key]
  {
    MapKeys(t.left);
    MapKeys(t.right);
  }

  /** Every visited entry is a pair of the map. */
  lemma {:induction false} EntriesMap<V>(t: Shape<V>)
    requires Ordered(t)
    ensures forall i :: 0 <= i < |Entries(t)| ==>
      Entries(t)[i].key in ToMap(t) && ToMap(t)[Entries(t)[i].key] == Entries(t)[i].value
  {
    match t
    case Empty =>
    case Branch(l, n, k, v, r) =>
      EntriesMap(l);
      EntriesMap(r);
      MapKeys(l);
      MapKeys(r);
      var es := Entries(t);
      forall i | 0 <= i < |es| ensures es[i].key in ToMap(t) && ToMap(t)[es[i].key] == es[i].value {
        if i < |Entries(l)| {
          assert es[i] == Entries(l)[i];
          assert es[i].key in KeySet(l);
        } else if i > |Entries(l)| {
          assert es[i] == Entries(r)[i - |Entries(l)| - 1];
          assert es[i].key in KeySet(r);
        }
      }
  }

  /** Some key of `m` is bound to `value`. */
  ghost predicate HasValue<V>(m: map<int, V>, value: V)
  {
    exists x :: x in m && m[x] == value
  }

  /** A value is stored in the tree iff the map binds some key to it: what `containsValue` scans for. */
  lemma ValuesOfMap<V>(t: Shape<V>, value: V)
    requires Ordered(t)
    ensures value in ValuesOf(Entries(t)) <==> HasValue(ToMap(t), value)
  {
    EntriesMap(t);
    var es := Entries(t);
    if value in ValuesOf(es) {
      var i :| 0 <= i < |es| && ValuesOf(es)[i] == value;
      assert ToMap(t)[es[i].key] == value;
    }
    var m := ToMap(t);
    if HasValue(m, value) {
      var x :| x in m && m[x] == value;
      MapKeys(t);
      KeysOfEntries(t);
      assert x in KeysOf(es);
      var i :| 0 <= i < |KeysOf(es)| && KeysOf(es)[i] == x;
      assert ValuesOf(es)[i] == value;
    }
  }

  /** An ordered tree holds as many keys as nodes: `size` is the number of keys. */
  lemma {:induction false} CountKeySet<V>(t: Shape<V>)
    requires Ordered(t)
    ensures |KeySet(t)| == Count(t)
  {
    match t
    case Empty =>
    case Branch(l, _, k, _, r) =>
      CountKeySet(l);
      CountKeySet(r);
      forall x | x in KeySet(l) ensures x !in KeySet(r) {
        assert x < k;
      }
      assert KeySet(l) * KeySet(r) == {};
      assert |KeySet(l) + KeySet(r)| == |KeySet(l)| + |KeySet(r)|;
      assert k !in KeySet(l) + KeySet(r);
  }

  lemma CountKeys<V>(t: Shape<V>)
    requires Ordered(t)
    ensures |ToMap(t)| == Count(t)
  {
    CountKeySet(t);
    MapKeys(t);
    assert |ToMap(t)| == |ToMap(t).Keys|;
  }

  // ---------------------------------------------------------------------------
  // Insertion

  lemma {:induction false} InsertKeys<V>(t: Shape<V>, key: int, value: V, slot: int)
    ensures KeySet(Insert(t, key, value, slot)) == KeySet(t) + {key}
  {
    match t
    case Empty =>
    case Branch(l, _, k, _, r) =>
      if key < k { InsertKeys(l, key, value, slot); }
      else if key > k { InsertKeys(r, key, value, slot); }
  }

  /** `append` keeps the BST order. */
  lemma {:induction false} InsertOrdered<V>(t: Shape<V>, key: int, value: V, slot: int)
    requires Ordered(t)
    ensures Ordered(Insert(t, key, value, slot))
  {
    match t
    case Empty =>
    case Branch(l, _, k, _, r) =>
      if key < k {
        InsertOrdered(l, key, value, slot);
        InsertKeys(l, key, value, slot);
      } else if key > k {
        InsertOrdered(r, key, value, slot);
        InsertKeys(r, key, value, slot);
      }
  }

  /** `append` binds the key to the new value and leaves every other pair as it was. */
  lemma {:induction false} InsertMap<V>(t: Shape<V>, key: int, value: V, slot: int)
    requires Ordered(t)
    ensures ToMap(Insert(t, key, value, slot)) == ToMap(t)[key := value]
  {
    match t
    case Empty =>
    case Branch(l, _, k, v, r) =>
      MapKeys(l);
      MapKeys(r);
      if key < k {
        InsertMap(l, key, value, slot);
        assert key !in ToMap(r);
        MapUpdateLeft(ToMap(l), ToMap(r), k, v, key, value);
      } else if key > k {
        InsertMap(r, key, value, slot);
        MapUpdateRight(ToMap(l), ToMap(r), k, v, key, value);
      }
  }

  lemma MapUpdateLeft<V>(ml: map<int, V>, mr: map<int, V>, k: int, v: V, key: int, value: V)
    requires key != k && key !in mr
    ensures (ml[key := value] + mr)[k := v] == ((ml + mr)[k := v])[key := value]
  {
  }

  lemma MapUpdateRight<V>(ml: map<int, V>, mr: map<int, V>, k: int, v: V, key: int, value: V)
    requires key != k
    ensures (ml + mr[key := value])[k := v] == ((ml + mr)[k := v])[key := value]
  {
  }

  /** `append` adds a node, in slot `slot`, exactly when the key was absent. */
  lemma {:induction false} InsertNodes<V>(t: Shape<V>, key: int, value: V, slot: int)
    requires Ordered(t)
    ensures Count(Insert(t, key, value, slot)) == Count(t) + (if key in KeySet(t) then 0 else 1)
    ensures Refs(Insert(t, key, value, slot)) == Refs(t) + (if key in KeySet(t) then {} else {slot})
    ensures Distinct(t) && slot !in Refs(t) ==> Distinct(Insert(t, key, value, slot))
  {
    match t
    case Empty =>
    case Branch(l, _, k, _, r) =>
      if key < k {
        InsertNodes(l, key, value, slot);
      } else if key > k {
        InsertNodes(r, key, value, slot);
      }
  }


  // ---------------------------------------------------------------------------
  // The successor walk

  lemma {:induction false} MinFacts<V>(t: Shape<V>)
    requires t.Branch?
    ensures Entries(t)[0] == Entry(MinOf(t).ref, MinOf(t).key, MinOf(t).value)
    ensures Entries(RemoveMin(t)) == Entries(t)[1..]
    ensures MinOf(t).ref in Refs(t) && MinOf(t).key in KeySet(t)
    ensures Refs(MinOf(t).right) <= Refs(t)
    ensures t.left.Branch? ==> MinOf(t) == MinOf(t.left) && MinOf(t).ref in Refs(t.left)
    ensures KeySet(RemoveMin(t)) <= KeySet(t)
  {
    if t.left.Branch? {
      MinFacts(t.left);
      assert Entries(t) == Entries(t.left) + ([Entry(t.ref, t.key, t.value)] + Entries(t.right));
      assert Entries(RemoveMin(t)) ==
        Entries(RemoveMin(t.left)) + ([Entry(t.ref, t.key, t.value)] + Entries(t.right));
    }
  }

  /** The leftmost key is the smallest one, and removing that node deletes exactly that key. */
  lemma {:induction false} RemoveMinOrdered<V>(t: Shape<V>)
    requires t.Branch? && Ordered(t)
    ensures Ordered(RemoveMin(t))
    ensures KeySet(RemoveMin(t)) == KeySet(t) - {MinOf(t).key}
    ensures forall x :: x in KeySet(RemoveMin(t)) ==> MinOf(t).key < x
  {
    if t.left.Branch? {
      RemoveMinOrdered(t.left);
      MinFacts(t.left);
    }
  }

  lemma {:induction false} RemoveMinMap<V>(t: Shape<V>)
    requires t.Branch? && Ordered(t)
    ensures MinOf(t).key in ToMap(t) && ToMap(t)[MinOf(t).key] == MinOf(t).value
    ensures ToMap(RemoveMin(t)) == ToMap(t) - {MinOf(t).key}
  {
    match t
    case Branch(l, n, k, v, r) =>
      MapKeys(l);
      MapKeys(r);
      if l.Branch? {
        RemoveMinMap(l);
        MinFacts(l);
        var m := MinOf(l).key;
        assert m in KeySet(l);
        assert m != k && m !in ToMap(r);
        MapUpdateMinus(ToMap(l), ToMap(r), k, v, m);
      } else {
        assert k !in ToMap(r);
        MapUpdateMinus(map[], ToMap(r), k, v, k);
      }
  }

  lemma MapUpdateMinus<V>(a: map<int, V>, b: map<int, V>, k: int, v: V, m: int)
    requires m !in b
    ensures k == m && m !in a ==> ((a + b)[k := v]) - {m} == a + b
    ensures k != m ==> ((a + b)[k := v]) - {m} == ((a - {m}) + b)[k := v]
  {
  }

  lemma {:induction false} RemoveMinNodes<V>(t: Shape<V>)
    requires t.Branch?
    ensures Count(RemoveMin(t)) == Count(t) - 1
    ensures Distinct(t) ==> Distinct(RemoveMin(t)) && Refs(RemoveMin(t)) == Refs(t) - {MinOf(t).ref}
  {
    if t.left.Branch? {
      RemoveMinNodes(t.left);
      MinFacts(t.left);
    }
  }

  // ---------------------------------------------------------------------------
  // Deletion

  /** Splicing a node out leaves its two subtrees, in order, and nothing else. */
  lemma SpliceOutEntries<V>(t: Shape<V>)
    requires t.Branch?
    ensures Entries(SpliceOut(t)) == Entries(t.left) + Entries(t.right)
  {
    var l, r := t.left, t.right;
    if r.Branch? && r.left.Branch? {
      var m := MinOf(r);
      MinFacts(r);
      assert Entries(r) == [Entries(r)[0]] + Entries(r)[1..];
      assert Entries(SpliceOut(t)) == Entries(l) + ([Entry(m.ref, m.key, m.value)] + Entries(RemoveMin(r)));
    }
  }

  lemma SpliceOutNodes<V>(t: Shape<V>)
    requires t.Branch?
    ensures Count(SpliceOut(t)) == Count(t) - 1
    ensures Distinct(t) ==> Distinct(SpliceOut(t)) && Refs(SpliceOut(t)) == Refs(t) - {t.ref}
  {
    var r := t.right;
    if r.Branch? && r.left.Branch? {
      MinFacts(r);
      RemoveMinNodes(r);
      if Distinct(t) {
        assert Distinct(r);
        assert Distinct(RemoveMin(r));
      }
    } else if r.Branch? {
      if Distinct(t) {
        assert Distinct(r) && Distinct(r.right) && Refs(r) == {r.ref} + Refs(r.right);
      }
    }
  }

  lemma SpliceOutOrdered<V>(t: Shape<V>)
    requires t.Branch? && Ordered(t)
    ensures Ordered(SpliceOut(t))
    ensures KeySet(SpliceOut(t)) == KeySet(t) - {t.key}
  {
    var l, k, r := t.left, t.key, t.right;
    assert k !in KeySet(l) && k !in KeySet(r);
    if r.Branch? && r.left.Branch? {
      SuccessorOrdered(t);
    } else if r.Branch? {
      assert KeySet(SpliceOut(t)) == KeySet(l) + {r.key} + KeySet(r.right);
      assert r.key in KeySet(r);
    }
  }

  /** The two-children case: the in-order successor takes the removed node's place. */
  lemma SuccessorOrdered<V>(t: Shape<V>)
    requires t.Branch? && Ordered(t) && t.right.Branch? && t.right.left.Branch?
    ensures Ordered(SpliceOut(t))
    ensures KeySet(SpliceOut(t)) == KeySet(t) - {t.key}
  {
    var l, k, r := t.left, t.key, t.right;
    var m := MinOf(r);
    MinFacts(r);
    RemoveMinOrdered(r);
    assert k < m.key;
    var a, b, c := KeySet(l), KeySet(r), KeySet(RemoveMin(r));
    assert forall x :: x in a ==> x < m.key;
    assert Ordered(Branch(l, m.ref, m.key, m.value, RemoveMin(r)));
    assert k !in a && k !in b && m.key in b && c == b - {m.key};
    SetShuffle(a, b, k, m.key);
  }

  lemma SetShuffle(a: set<int>, b: set<int>, k: int, m: int)
    requires k !in a && k !in b && m in b
    ensures a + {m} + (b - {m}) == (a + {k} + b) - {k}
  {
  }

  lemma SpliceOutMap<V>(t: Shape<V>)
    requires t.Branch? && Ordered(t)
    ensures ToMap(SpliceOut(t)) == ToMap(t) - {t.key}
  {
    match t
    case Branch(l, n, k, v, r) =>
      MapKeys(l);
      MapKeys(r);
      var a, b := ToMap(l), ToMap(r);
      assert k !in a && k !in b;
      MapUpdateMinus(a, b, k, v, k);
      if r.Branch? && r.left.Branch? {
        var m := MinOf(r);
        MinFacts(r);
        RemoveMinMap(r);
        assert m.key !in a;
        MapRestore(a, b, m.key, m.value);
      } else if r.Branch? {
        MapKeys(r.right);
        assert r.key !in a;
        assert b == (map[] + ToMap(r.right))[r.key := r.value];
        assert map[] + ToMap(r.right) == ToMap(r.right);
        MapShift(a, ToMap(r.right), r.key, r.value);
      } else {
        assert a + b == a;
      }
  }

  lemma MapRestore<V>(a: map<int, V>, b: map<int, V>, m: int, w: V)
    requires m in b && b[m] == w && m !in a
    ensures (a + (b - {m}))[m := w] == a + b
  {
  }

  lemma MapShift<V>(a: map<int, V>, c: map<int, V>, k: int, v: V)
    requires k !in a
    ensures a + c[k := v] == (a + c)[k := v]
  {
  }

  lemma MapUpdateMinusRight<V>(a: map<int, V>, b: map<int, V>, k: int, v: V, m: int)
    requires m !in a && k != m
    ensures ((a + b)[k := v]) - {m} == (a + (b - {m}))[k := v]
  {
  }

  lemma {:induction false} WithoutConcat<V>(a: seq<Entry<V>>, b: seq<Entry<V>>, key: int)
    ensures Without(a + b, key) == Without(a, key) + Without(b, key)
    decreases |a|
  {
    if a != [] {
      WithoutConcat(a[1..], b, key);
      assert (a + b)[0] == a[0];
      assert (a + b)[1..] == a[1..] + b;
    } else {
      assert a + b == b;
    }
  }

  lemma {:induction false} WithoutAbsent<V>(a: seq<Entry<V>>, key: int)
    requires key !in KeysOf(a)
    ensures Without(a, key) == a
    decreases |a|
  {
    if a != [] {
      assert KeysOf(a)[0] == a[0].key;
      forall x | x in KeysOf(a[1..]) ensures x in KeysOf(a) {
        var i :| 0 <= i < |a[1..]| && KeysOf(a[1..])[i] == x;
        assert KeysOf(a)[i + 1] == x;
      }
      WithoutAbsent(a[1..], key);
      assert a == [a[0]] + a[1..];
    }
  }

  /** `removeBefore` keeps the BST order and takes exactly the key out of the key set. */
  lemma {:induction false} DeleteOrdered<V>(t: Shape<V>, key: int)
    requires Ordered(t)
    ensures Ordered(Delete(t, key))
    ensures KeySet(Delete(t, key)) == KeySet(t) - {key}
  {
    match t
    case Empty =>
    case Branch(l, n, k, v, r) =>
      if key == k {
        SpliceOutOrdered(t);
      } else if key < k {
        DeleteOrdered(l, key);
      } else {
        DeleteOrdered(r, key);
      }
  }

  /** `remove(key)` unbinds the key and leaves every other pair as it was. */
  lemma {:induction false} DeleteMap<V>(t: Shape<V>, key: int)
    requires Ordered(t)
    ensures ToMap(Delete(t, key)) == ToMap(t) - {key}
  {
    match t
    case Empty =>
    case Branch(l, n, k, v, r) =>
      MapKeys(l);
      MapKeys(r);
      if key == k {
        SpliceOutMap(t);
      } else if key < k {
        DeleteMap(l, key);
        assert key !in ToMap(r);
        MapUpdateMinus(ToMap(l), ToMap(r), k, v, key);
      } else {
        DeleteMap(r, key);
        assert key !in ToMap(l);
        MapUpdateMinusRight(ToMap(l), ToMap(r), k, v, key);
      }
  }

  /** Removing an absent key changes nothing. */
  lemma {:induction false} DeleteAbsent<V>(t: Shape<V>, key: int)
    requires key !in KeySet(t)
    ensures Delete(t, key) == t
  {
    match t
    case Empty =>
    case Branch(l, n, k, v, r) =>
      if key < k {
        DeleteAbsent(l, key);
      } else if key > k {
        DeleteAbsent(r, key);
      }
  }

  /** `remove` takes exactly one node out iff the key is present. */
  lemma {:induction false} DeleteNodes<V>(t: Shape<V>, key: int)
    requires Ordered(t)
    ensures Count(Delete(t, key)) == Count(t) - (if key in KeySet(t) then 1 else 0)
    ensures Distinct(t) ==> Distinct(Delete(t, key)) && Refs(Delete(t, key)) <= Refs(t)
  {
    match t
    case Empty =>
    case Branch(l, n, k, v, r) =>
      if key == k {
        SpliceOutNodes(t);
      } else if key < k {
        DeleteNodes(l, key);
      } else {
        DeleteNodes(r, key);
      }
  }

  /** The in-order sequence after `remove(key)` is the old one with the key's entry taken out. */
  lemma {:induction false} DeleteEntries<V>(t: Shape<V>, key: int)
    requires Ordered(t)
    ensures Entries(Delete(t, key)) == Without(Entries(t), key)
  {
    match t
    case Empty =>
    case Branch(l, n, k, v, r) =>
      KeysOfEntries(l);
      KeysOfEntries(r);
      WithoutConcat(Entries(l) + [Entry(n, k, v)], Entries(r), key);
      WithoutConcat(Entries(l), [Entry(n, k, v)], key);
      assert Without([Entry(n, k, v)], key) == (if k == key then [] else [Entry(n, k, v)]);
      if key == k {
        SpliceOutEntries(t);
        WithoutAbsent(Entries(l), key);
        WithoutAbsent(Entries(r), key);
      } else if key < k {
        DeleteEntries(l, key);
        WithoutAbsent(Entries(r), key);
      } else {
        DeleteEntries(r, key);
        WithoutAbsent(Entries(l), key);
      }
  }
}
