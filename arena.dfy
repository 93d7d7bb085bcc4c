/**
 The heap of a CustomTreeMapImpl as an arena: slot `i` of a `seq<Node<V>>`
 is one `Node` object, a link is the slot it points to, and `Nil` is null.
 `Linked(ns, p, t)` ties an arena to a tree of module Shapes: every node of
 `t` sits in its slot with exactly the key, value, children and parent the
 tree gives it. The functions here are the link updates of the source
 (`setLeftChild`, `setRightChild`, `exchange`) and the read-only `search`;
 the lemmas say when a sequence of link updates turns a linked tree into
 another linked tree, which is what `siftAfter` relies on.
 */
module Arena {
  import opened Shapes

  /** A `Node` object: its key, its value and its three links. */
  datatype Node<V> = Node(key: int, value: V, left: int, right: int, parent: int)

  /** Slot `t.ref` holds the node `t` describes, with parent `p`, and so on down the tree. */
  ghost predicate Linked<V>(ns: seq<Node<V>>, p: int, t: Shape<V>)
    decreases t
  {
    match t
    case Empty => true
    case Branch(l, n, k, v, r) =>
      0 <= n < |ns| && ns[n] == Node(k, v, RootRef(l), RootRef(r), p) &&
      Linked(ns, n, l) && Linked(ns, n, r)
  }

  /** Every node of a linked tree is a slot of the arena. */
  lemma {:induction false} LinkedRefs<V>(ns: seq<Node<V>>, p: int, t: Shape<V>)
    requires Linked(ns, p, t)
    ensures forall x :: x in Refs(t) ==> 0 <= x < |ns|
    decreases t
  {
    match t
    case Empty =>
    case Branch(l, n, _, _, r) => LinkedRefs(ns, n, l); LinkedRefs(ns, n, r);
  }

  /** Whether a tree is linked depends only on the slots it uses. */
  lemma {:induction false} Frame<V>(ns: seq<Node<V>>, ns': seq<Node<V>>, p: int, t: Shape<V>)
    requires Linked(ns, p, t)
    requires forall x :: x in Refs(t) ==> 0 <= x < |ns| && 0 <= x < |ns'| && ns'[x] == ns[x]
    ensures Linked(ns', p, t)
    decreases t
  {
    match t
    case Empty =>
    case Branch(l, n, _, _, r) =>
      assert forall x :: x in Refs(l) || x in Refs(r) ==> x in Refs(t);
      Frame(ns, ns', n, l);
      Frame(ns, ns', n, r);
  }

  /** A linked tree stays linked when only two slots outside it change. */
  lemma FrameTwo<V>(ns: seq<Node<V>>, ns': seq<Node<V>>, p: int, t: Shape<V>, a: int, b: int)
    requires Linked(ns, p, t) && |ns'| == |ns| && a !in Refs(t) && b !in Refs(t)
    requires forall x :: 0 <= x < |ns| && x != a && x != b ==> ns'[x] == ns[x]
    ensures Linked(ns', p, t)
  {
    LinkedRefs(ns, p, t);
    Frame(ns, ns', p, t);
  }

  /** A linked tree is re-hung under `q` when its root's parent field changes and one slot outside it may change. */
  lemma ReparentOne<V>(ns: seq<Node<V>>, ns': seq<Node<V>>, p: int, q: int, t: Shape<V>, b: int)
    requires t.Branch? && Linked(ns, p, t) && Distinct(t) && |ns'| == |ns| && b !in Refs(t)
    requires ns'[t.ref] == ns[t.ref].(parent := q)
    requires forall x :: 0 <= x < |ns| && x != t.ref && x != b ==> ns'[x] == ns[x]
    ensures Linked(ns', q, t)
  {
    LinkedRefs(ns, p, t);
    assert Linked(ns, t.ref, t.left) && Linked(ns, t.ref, t.right);
    FrameTwo(ns, ns', t.ref, t.left, t.ref, b);
    FrameTwo(ns, ns', t.ref, t.right, t.ref, b);
  }

  // ---------------------------------------------------------------------------
  // Link updates

  /** `setLeftChild`: `at.left := c`, and `c.parent := at` unless `c` is null. */
  function SetLeft<V>(ns: seq<Node<V>>, at: int, c: int): (ns': seq<Node<V>>)
    requires 0 <= at < |ns| && (c == Nil || 0 <= c < |ns|)
    ensures |ns'| == |ns| && ns'[at].left == c
    ensures c != at ==> ns'[at] == ns[at].(left := c)
    ensures c != Nil && c != at ==> ns'[c] == ns[c].(parent := at)
    ensures forall x :: 0 <= x < |ns| && x != at && x != c ==> ns'[x] == ns[x]
  {
    var ns1 := ns[at := ns[at].(left := c)];
    if c == Nil then ns1 else ns1[c := ns1[c].(parent := at)]
  }

  /** `setRightChild`: `at.right := c`, and `c.parent := at` unless `c` is null. */
  function SetRight<V>(ns: seq<Node<V>>, at: int, c: int): (ns': seq<Node<V>>)
    requires 0 <= at < |ns| && (c == Nil || 0 <= c < |ns|)
    ensures |ns'| == |ns| && ns'[at].right == c
    ensures c != at ==> ns'[at] == ns[at].(right := c)
    ensures c != Nil && c != at ==> ns'[c] == ns[c].(parent := at)
    ensures forall x :: 0 <= x < |ns| && x != at && x != c ==> ns'[x] == ns[x]
  {
    var ns1 := ns[at := ns[at].(right := c)];
    if c == Nil then ns1 else ns1[c := ns1[c].(parent := at)]
  }

  /** The parent slot after `exchange`: the link that pointed at `from` points at `to`. */
  function ReplaceChild<V>(nd: Node<V>, from: int, to: int): (r: Node<V>)
    ensures r.key == nd.key && r.value == nd.value && r.parent == nd.parent
    ensures nd.left == from ==> r.left == to && r.right == nd.right
    ensures nd.left != from && nd.right == from ==> r.left == nd.left && r.right == to
    ensures nd.left != from && nd.right != from ==> r == nd
  {
    if nd.left == from then nd.(left := to)
    else if nd.right == from then nd.(right := to)
    else nd
  }

  /** `exchange(n, c)` on the links: `c` takes the place of `n` under `n`'s parent. */
  function Exchanged<V>(ns: seq<Node<V>>, n: int, c: int): (ns': seq<Node<V>>)
    requires 0 <= n < |ns| && 0 <= c < |ns|
    requires ns[n].parent == Nil || 0 <= ns[n].parent < |ns|
    ensures |ns'| == |ns|
    ensures var q := ns[n].parent;
      q != c && (q == Nil || ns[q].left == n || ns[q].right == n) ==>
        ns'[c] == ns[c].(parent := q) && (q != Nil ==> ns'[q] == ReplaceChild(ns[q], n, c))
    ensures forall x :: 0 <= x < |ns| && x != c && x != ns[n].parent ==> ns'[x] == ns[x]
  {
    var q := ns[n].parent;
    if q == Nil then ns[c := ns[c].(parent := Nil)]
    else if ns[q].left == n then
      var ns1 := ns[c := ns[c].(parent := q)];
      ns1[q := ns1[q].(left := c)]
    else if ns[q].right == n then
      var ns1 := ns[c := ns[c].(parent := q)];
      ns1[q := ns1[q].(right := c)]
    else ns
  }

  // ---------------------------------------------------------------------------
  // Lookup

  /**
   `search(n, key)`: descend from `n` by comparison, returning the slot whose
   key compares equal, or `Nil` when the descent runs off the tree.
   */
  function Search<V>(ns: seq<Node<V>>, n: int, key: int, ghost p: int, ghost t: Shape<V>): (r: int)
    requires Linked(ns, p, t) && Ordered(t) && t.Branch? && n == t.ref
    ensures r == Nil <==> key !in ToMap(t)
    ensures r != Nil ==> 0 <= r < |ns| && ns[r].key == key && ns[r].value == ToMap(t)[key]
    ensures r != Nil ==> r in Refs(t)
    decreases t
  {
    MapDescend(t, key);
    assert Linked(ns, n, t.left) && Linked(ns, n, t.right);
    var node := ns[n];
    if key == node.key then n
    else if key < node.key then
      if node.left == Nil then
        MapKeys(t.left);
        Nil
      else Search(ns, node.left, key, n, t.left)
    else
      if node.right == Nil then
        MapKeys(t.right);
        Nil
      else Search(ns, node.right, key, n, t.right)
  }

  // ---------------------------------------------------------------------------
  // Flattening

  /** The node at each in-order position is the one its entry names. */
  lemma {:induction false} LinkedEntries<V>(ns: seq<Node<V>>, p: int, t: Shape<V>)
    requires Linked(ns, p, t)
    ensures forall i :: 0 <= i < |Entries(t)| ==>
      0 <= Entries(t)[i].ref < |ns| &&
      ns[Entries(t)[i].ref].key == Entries(t)[i].key && ns[Entries(t)[i].ref].value == Entries(t)[i].value
    decreases t
  {
    match t
    case Empty =>
    case Branch(l, n, k, v, r) =>
      LinkedEntries(ns, n, l);
      LinkedEntries(ns, n, r);
      var es := Entries(t);
      forall i | 0 <= i < |es|
        ensures 0 <= es[i].ref < |ns| && ns[es[i].ref].key == es[i].key && ns[es[i].ref].value == es[i].value
      {
        if i < |Entries(l)| {
          assert es[i] == Entries(l)[i];
        } else if i > |Entries(l)| {
          assert es[i] == Entries(r)[i - |Entries(l)| - 1];
        }
      }
  }

  // ---------------------------------------------------------------------------
  // Splicing a node out

  /**
   The node `t.ref` may be removed: `t` is linked under `p`, and either `p` is
   null and `t` is the whole tree (`root` points at it), or one of `p`'s child
   links points at it.
   */
  ghost predicate Placed<V>(ns: seq<Node<V>>, root: int, p: int, t: Shape<V>)
  {
    t.Branch? && Linked(ns, p, t) && Distinct(t) && p !in Refs(t) &&
    (p == Nil ==> root == t.ref) &&
    (p != Nil ==> 0 <= p < |ns| && (ns[p].left == t.ref || ns[p].right == t.ref))
  }

  /**
   `ns'`/`root'` result from `ns`/`root` by replacing the subtree `t` hung under
   `p` with `t'`: `t'` is linked under `p`, the root or `p`'s child link now
   points at `t'`, and every slot outside `t` and `p` is as it was.
   */
  ghost predicate Spliced<V>(ns: seq<Node<V>>, root: int, ns': seq<Node<V>>, root': int, p: int, t: Shape<V>, t': Shape<V>)
  {
    |ns'| == |ns| && t.Branch? && Linked(ns', p, t') &&
    (p == Nil ==> root' == RootRef(t')) &&
    (p != Nil ==> root' == root && 0 <= p < |ns| && ns'[p] == ReplaceChild(ns[p], t.ref, RootRef(t'))) &&
    (forall x :: 0 <= x < |ns| && x !in Refs(t) && x != p ==> ns'[x] == ns[x])
  }

  /** The subtrees of a removable node are removable in turn. */
  lemma PlacedChildren<V>(ns: seq<Node<V>>, root: int, p: int, t: Shape<V>)
    requires Placed(ns, root, p, t)
    ensures t.left.Branch? ==> Placed(ns, root, t.ref, t.left)
    ensures t.right.Branch? ==> Placed(ns, root, t.ref, t.right)
  {
  }

  /** A leaf is cut off: the root becomes null, or the parent link that held it does. */
  lemma LeafSpliced<V>(ns: seq<Node<V>>, root: int, p: int, t: Shape<V>)
    requires Placed(ns, root, p, t) && t.left.Empty? && t.right.Empty?
    ensures p == Nil ==> Spliced(ns, root, ns, Nil, p, t, SpliceOut(t))
    ensures p != Nil && ns[p].left == t.ref ==>
      Spliced(ns, root, ns[p := ns[p].(left := Nil)], root, p, t, SpliceOut(t))
    ensures p != Nil && ns[p].left != t.ref ==>
      Spliced(ns, root, ns[p := ns[p].(right := Nil)], root, p, t, SpliceOut(t))
  {
  }

  /** No right child: `exchange(node, node.left)` lifts the left subtree into the node's place. */
  lemma LiftSpliced<V>(ns: seq<Node<V>>, root: int, p: int, t: Shape<V>)
    requires Placed(ns, root, p, t) && t.left.Branch? && t.right.Empty?
    ensures 0 <= t.ref < |ns| && 0 <= t.left.ref < |ns| && ns[t.ref].parent == p
    ensures Spliced(ns, root, Exchanged(ns, t.ref, t.left.ref), if p == Nil then t.left.ref else root, p, t, SpliceOut(t))
  {
    var l := t.left;
    assert Linked(ns, t.ref, l);
    var ns' := Exchanged(ns, t.ref, l.ref);
    assert l.ref != p;
    ReparentOne(ns, ns', t.ref, p, l, p);
  }

  /**
   A right child without a left child: it takes over the node's left subtree
   (`setLeftChild`) and then the node's place (`exchange`).
   */
  lemma PromoteSpliced<V>(ns: seq<Node<V>>, root: int, p: int, t: Shape<V>)
    requires Placed(ns, root, p, t) && t.right.Branch? && t.right.left.Empty?
    ensures 0 <= t.ref < |ns| && 0 <= t.right.ref < |ns|
    ensures RootRef(t.left) == Nil || 0 <= RootRef(t.left) < |ns|
    ensures var ns1 := SetLeft(ns, t.right.ref, RootRef(t.left));
      ns1[t.ref].parent == p &&
      Spliced(ns, root, Exchanged(ns1, t.ref, t.right.ref), if p == Nil then t.right.ref else root, p, t, SpliceOut(t))
  {
    var l, n, r := t.left, t.ref, t.right;
    assert Linked(ns, n, l) && Linked(ns, n, r);
    assert Linked(ns, r.ref, r.right);
    LinkedRefs(ns, p, t);
    var ns1 := SetLeft(ns, r.ref, RootRef(l));
    if l.Branch? {
      ReparentOne(ns, ns1, n, r.ref, l, r.ref);
    }
    assert Distinct(r);
    FrameTwo(ns, ns1, r.ref, r.right, r.ref, RootRef(l));
    var ns2 := Exchanged(ns1, n, r.ref);
    FrameTwo(ns1, ns2, r.ref, l, r.ref, p);
    FrameTwo(ns1, ns2, r.ref, r.right, r.ref, p);
  }

  /** Where the successor walk ends: the leftmost node of `t` and the parent that holds it. */
  lemma {:induction false} MinLinked<V>(ns: seq<Node<V>>, q: int, t: Shape<V>)
    requires Linked(ns, q, t) && Distinct(t) && t.Branch? && t.left.Branch?
    ensures MinOf(t).ref in Refs(t.left) && MinParentRef(t) in Refs(t) && MinOf(t).ref != MinParentRef(t)
    ensures Refs(MinOf(t).right) <= Refs(t.left)
    ensures MinOf(t).ref !in Refs(MinOf(t).right) && MinParentRef(t) !in Refs(MinOf(t).right)
    ensures 0 <= MinOf(t).ref < |ns| && 0 <= MinParentRef(t) < |ns|
    ensures ns[MinOf(t).ref] == Node(MinOf(t).key, MinOf(t).value, Nil, RootRef(MinOf(t).right), MinParentRef(t))
    ensures ns[MinParentRef(t)].left == MinOf(t).ref
    decreases t
  {
    LinkedRefs(ns, q, t);
    MinFacts(t.left);
    assert Linked(ns, t.ref, t.left);
    if t.left.left.Branch? {
      MinLinked(ns, t.ref, t.left);
    }
  }

  /**
   The successor walk's splice (lines 297-301 with the parent link restored):
   the right subtree of the leftmost node moves into its parent's left link.
   Under the same parent `q` this links the tree without its leftmost node.
   */
  lemma {:induction false} DetachMin<V>(ns: seq<Node<V>>, q: int, t: Shape<V>)
    requires Linked(ns, q, t) && Distinct(t) && t.Branch? && t.left.Branch?
    ensures 0 <= MinParentRef(t) < |ns|
    ensures RootRef(MinOf(t).right) == Nil || 0 <= RootRef(MinOf(t).right) < |ns|
    ensures Linked(SetLeft(ns, MinParentRef(t), RootRef(MinOf(t).right)), q, RemoveMin(t))
    decreases t
  {
    MinLinked(ns, q, t);
    LinkedRefs(ns, q, t);
    var sp, m := MinParentRef(t), MinOf(t);
    var c := RootRef(m.right);
    var ns1 := SetLeft(ns, sp, c);
    assert Linked(ns, t.ref, t.left) && Linked(ns, t.ref, t.right);
    assert c == Nil || c in Refs(m.right);
    assert c == Nil || c in Refs(t.left);
    assert Nil !in Refs(t) && Refs(t.left) !! Refs(t.right);
    if t.left.left.Empty? {
      assert Linked(ns, m.ref, m.right);
      if m.right.Branch? {
        ReparentOne(ns, ns1, m.ref, t.ref, m.right, t.ref);
      }
      assert sp == t.ref;
      FrameTwo(ns, ns1, t.ref, t.right, sp, c);
    } else {
      DetachMin(ns, t.ref, t.left);
      MinFacts(t.left);
      MinLinked(ns, t.ref, t.left);
      assert sp == MinParentRef(t.left) && sp in Refs(t.left);
      FrameTwo(ns, ns1, t.ref, t.right, sp, c);
    }
  }

  /**
   Two children, and the right child has a left child: the leftmost node `s`
   of the right subtree is detached (DetachMin), takes over both subtrees
   of the removed node (`setLeftChild`, `setRightChild`) and then its place
   (`exchange`).
   */
  lemma SuccessorSpliced<V>(ns: seq<Node<V>>, root: int, p: int, t: Shape<V>)
    requires Placed(ns, root, p, t) && t.right.Branch? && t.right.left.Branch?
    ensures 0 <= t.ref < |ns| && 0 <= t.right.ref < |ns| && (RootRef(t.left) == Nil || 0 <= RootRef(t.left) < |ns|)
    ensures 0 <= MinOf(t.right).ref < |ns| && 0 <= MinParentRef(t.right) < |ns|
    ensures ns[MinOf(t.right).ref].right == RootRef(MinOf(t.right).right)
    ensures RootRef(MinOf(t.right).right) == Nil || 0 <= RootRef(MinOf(t.right).right) < |ns|
    ensures var s := MinOf(t.right).ref;
      var ns1 := SetLeft(ns, MinParentRef(t.right), RootRef(MinOf(t.right).right));
      var ns3 := SetRight(SetLeft(ns1, s, RootRef(t.left)), s, t.right.ref);
      ns3[t.ref].parent == p &&
      Spliced(ns, root, Exchanged(ns3, t.ref, s), if p == Nil then s else root, p, t, SpliceOut(t))
  {
    var l, n, R := t.left, t.ref, t.right;
    LinkedRefs(ns, p, t);
    assert Linked(ns, n, l) && Linked(ns, n, R);
    assert Distinct(R) && Distinct(l);
    MinLinked(ns, n, R);
    DetachMin(ns, n, R);
    RemoveMinNodes(R);
    var m := MinOf(R);
    var s, sp, c, M := m.ref, MinParentRef(R), RootRef(m.right), RemoveMin(R);
    assert c == Nil || c in Refs(m.right);
    assert M.Branch? && M.ref == R.ref;
    var ns1 := SetLeft(ns, sp, c);
    FrameTwo(ns, ns1, n, l, sp, c);
    assert ns1[n] == ns[n] && ns1[s] == ns[s];
    assert p != Nil ==> ns1[p] == ns[p];
    Graft(ns1, p, n, s, l, M);
    var ns3 := SetRight(SetLeft(ns1, s, RootRef(l)), s, R.ref);
    var ns4 := Exchanged(ns3, n, s);
    assert Branch(l, s, ns1[s].key, ns1[s].value, M) == SpliceOut(t);
    forall x | 0 <= x < |ns| && x !in Refs(t) && x != p
      ensures ns4[x] == ns[x]
    {
      assert x != s && x != sp && x != c && x !in Refs(l) && x !in Refs(M);
    }
  }

  /**
   The last three steps of the successor case: the detached node `s` adopts
   `l` (`setLeftChild`) and `m` (`setRightChild`), then takes the place of `n`
   under its parent `p` (`exchange`).
   */
  lemma Graft<V>(ns: seq<Node<V>>, p: int, n: int, s: int, l: Shape<V>, m: Shape<V>)
    requires 0 <= n < |ns| && 0 <= s < |ns| && m.Branch? && ns[n].parent == p
    requires Linked(ns, n, l) && Linked(ns, n, m) && Distinct(l) && Distinct(m)
    requires s != n && s !in Refs(l) && s !in Refs(m) && n !in Refs(l) && n !in Refs(m) && Refs(l) !! Refs(m)
    requires p == Nil || (0 <= p < |ns| && p != s && p != n && p !in Refs(l) && p !in Refs(m) &&
                          (ns[p].left == n || ns[p].right == n))
    ensures RootRef(l) == Nil || 0 <= RootRef(l) < |ns|
    ensures 0 <= m.ref < |ns|
    ensures var ns3 := SetRight(SetLeft(ns, s, RootRef(l)), s, m.ref);
      var ns4 := Exchanged(ns3, n, s);
      ns3[n] == ns[n] &&
      Linked(ns4, p, Branch(l, s, ns[s].key, ns[s].value, m)) &&
      (p != Nil ==> ns4[p] == ReplaceChild(ns[p], n, s)) &&
      (forall x :: 0 <= x < |ns| && x != s && x != p && x !in Refs(l) && x !in Refs(m) ==> ns4[x] == ns[x])
  {
    LinkedRefs(ns, n, l);
    LinkedRefs(ns, n, m);
    var ns2 := SetLeft(ns, s, RootRef(l));
    if l.Branch? {
      ReparentOne(ns, ns2, n, s, l, s);
    }
    FrameTwo(ns, ns2, n, m, s, RootRef(l));
    var ns3 := SetRight(ns2, s, m.ref);
    ReparentOne(ns2, ns3, n, s, m, s);
    FrameTwo(ns2, ns3, s, l, s, m.ref);
    assert ns3[n] == ns[n];
    assert p != Nil ==> ns3[p] == ns[p];
    var ns4 := Exchanged(ns3, n, s);
    FrameTwo(ns3, ns4, s, l, s, p);
    FrameTwo(ns3, ns4, s, m, s, p);
    assert ns4[s] == Node(ns[s].key, ns[s].value, RootRef(l), m.ref, p);
  }

  /** `removeBefore` going left: a splice inside the left subtree is a splice of the whole. */
  lemma SplicedLeft<V>(ns: seq<Node<V>>, root: int, ns': seq<Node<V>>, root': int, p: int, t: Shape<V>, key: int)
    requires Placed(ns, root, p, t) && Ordered(t) && t.left.Branch? && key < t.key
    requires Spliced(ns, root, ns', root', t.ref, t.left, Delete(t.left, key))
    ensures Spliced(ns, root, ns', root', p, t, Delete(t, key))
  {
    DeleteNodes(t.left, key);
    LinkedRefs(ns, p, t);
    assert Linked(ns, t.ref, t.right);
    assert Refs(t.left) !! Refs(t.right);
    FrameOutside(ns, ns', t.ref, t.right, Refs(t.left) + {t.ref});
  }

  /** `removeBefore` going right: a splice inside the right subtree is a splice of the whole. */
  lemma SplicedRight<V>(ns: seq<Node<V>>, root: int, ns': seq<Node<V>>, root': int, p: int, t: Shape<V>, key: int)
    requires Placed(ns, root, p, t) && Ordered(t) && t.right.Branch? && t.key < key
    requires Spliced(ns, root, ns', root', t.ref, t.right, Delete(t.right, key))
    ensures Spliced(ns, root, ns', root', p, t, Delete(t, key))
  {
    DeleteNodes(t.right, key);
    LinkedRefs(ns, p, t);
    assert Linked(ns, t.ref, t.left);
    assert Refs(t.left) !! Refs(t.right);
    FrameOutside(ns, ns', t.ref, t.left, Refs(t.right) + {t.ref});
  }

  /** A linked tree stays linked when the slots that change lie outside it. */
  lemma FrameOutside<V>(ns: seq<Node<V>>, ns': seq<Node<V>>, p: int, t: Shape<V>, changed: set<int>)
    requires Linked(ns, p, t) && |ns| <= |ns'| && changed !! Refs(t)
    requires forall x :: 0 <= x < |ns| && x !in changed ==> ns'[x] == ns[x]
    ensures Linked(ns', p, t)
  {
    LinkedRefs(ns, p, t);
    Frame(ns, ns', p, t);
  }

  // ---------------------------------------------------------------------------
  // Lines 297-301 as written

  /**
   The successor walk's splice as the source writes it: `tmpPrev.left` is
   assigned the successor's right child (or null) by a plain field write,
   so the moved child's `parent` field still names the successor.
   */
  function DetachMinAsWritten<V>(ns: seq<Node<V>>, sp: int, s: int): (ns': seq<Node<V>>)
    requires 0 <= sp < |ns| && 0 <= s < |ns|
    ensures |ns'| == |ns| && ns'[sp].left == ns[s].right
    ensures forall x :: 0 <= x < |ns| && x != sp ==> ns'[x] == ns[x]
  {
    if ns[s].right != Nil then ns[sp := ns[sp].(left := ns[s].right)]
    else ns[sp := ns[sp].(left := Nil)]
  }

  /** The leftmost node of a linked tree hangs its right subtree under itself. */
  lemma {:induction false} MinSubLinked<V>(ns: seq<Node<V>>, q: int, t: Shape<V>)
    requires Linked(ns, q, t) && t.Branch?
    ensures Linked(ns, MinOf(t).ref, MinOf(t).right)
    decreases t
  {
    if t.left.Branch? {
      MinSubLinked(ns, t.ref, t.left);
    }
  }

  /**
   In any arena that links the tree without its leftmost node, the node that
   moved into the leftmost node's place has the leftmost node's old parent
   as its parent.
   */
  lemma {:induction false} RemoveMinParent<V>(ns: seq<Node<V>>, q: int, t: Shape<V>)
    requires t.Branch? && t.left.Branch? && MinOf(t).right.Branch?
    requires Linked(ns, q, RemoveMin(t))
    ensures 0 <= MinOf(t).right.ref < |ns| && ns[MinOf(t).right.ref].parent == MinParentRef(t)
    decreases t
  {
    var rm := RemoveMin(t);
    assert rm.ref == t.ref && Linked(ns, t.ref, rm.left);
    if t.left.left.Branch? {
      assert rm.left == RemoveMin(t.left);
      RemoveMinParent(ns, t.ref, t.left);
    } else {
      assert rm.left == t.left.right && MinOf(t) == t.left;
    }
  }

  /**
   Lines 297-301 as written break the links whenever the successor has a
   right child: that child keeps its old parent field, the successor, while
   it now hangs under the successor's parent, so no arena produced this way
   links the tree without the successor.
   */
  lemma AsWrittenUnlinked<V>(ns: seq<Node<V>>, q: int, t: Shape<V>)
    requires Linked(ns, q, t) && Distinct(t) && t.Branch? && t.left.Branch?
    requires MinOf(t).right.Branch?
    ensures 0 <= MinParentRef(t) < |ns| && 0 <= MinOf(t).ref < |ns|
    ensures !Linked(DetachMinAsWritten(ns, MinParentRef(t), MinOf(t).ref), q, RemoveMin(t))
  {
    MinLinked(ns, q, t);
    MinSubLinked(ns, q, t);
    var sp, m := MinParentRef(t), MinOf(t);
    var c := m.right.ref;
    assert c in Refs(m.right);
    var bad := DetachMinAsWritten(ns, sp, m.ref);
    assert bad[c] == ns[c] && ns[c].parent == m.ref;
    if Linked(bad, q, RemoveMin(t)) {
      RemoveMinParent(bad, q, t);
      assert false;
    }
  }

  /** The arena after `put(1, "first")`, `put(99, "last")`, `put(4, "fourth")`, `put(2, "second")`, `put(3, "third")`. */
  function FixtureArena(): seq<Node<string>>
  {
    [ Node(1, "first", Nil, 1, Nil),
      Node(99, "last", 2, Nil, 0),
      Node(4, "fourth", 3, Nil, 1),
      Node(2, "second", Nil, 4, 2),
      Node(3, "third", Nil, Nil, 3) ]
  }

  /** The right subtree of key 1 in that arena: 99 over 4 over 2, with 3 to the right of 2. */
  function FixtureRight(): Shape<string>
  {
    Branch(
      Branch(
        Branch(Empty, 3, 2, "second", Branch(Empty, 4, 3, "third", Empty)),
        2, 4, "fourth", Empty),
      1, 99, "last", Empty)
  }

  /**
   `remove(1)` on that map takes the successor path: the walk stops at key 2
   (slot 3) under key 4 (slot 2). Written as in the source, the detach leaves
   key 3 (slot 4) as the left child of key 4 while its parent field still
   names key 2; with `setLeftChild` the subtree is linked.
   */
  lemma AsWrittenLosesParent()
    ensures Linked(FixtureArena(), 0, FixtureRight())
    ensures MinOf(FixtureRight()).ref == 3 && MinParentRef(FixtureRight()) == 2
    ensures DetachMinAsWritten(FixtureArena(), 2, 3)[2].left == 4
    ensures DetachMinAsWritten(FixtureArena(), 2, 3)[4].parent == 3
    ensures !Linked(DetachMinAsWritten(FixtureArena(), 2, 3), 0, RemoveMin(FixtureRight()))
    ensures Linked(SetLeft(FixtureArena(), 2, 4), 0, RemoveMin(FixtureRight()))
  {
    var ns, t := FixtureArena(), FixtureRight();
    assert Linked(ns, 3, t.left.left.right);
    assert Linked(ns, 2, t.left.left);
    assert Linked(ns, 1, t.left);
    var bad := DetachMinAsWritten(ns, 2, 3);
    var m := RemoveMin(t);
    assert m == Branch(Branch(Branch(Empty, 4, 3, "third", Empty), 2, 4, "fourth", Empty), 1, 99, "last", Empty);
    assert !Linked(bad, 2, m.left.left);
    FixtureDistinct();
    DetachMin(ns, 0, t);
  }

  lemma FixtureDistinct()
    ensures Distinct(FixtureRight())
  {
    var t := FixtureRight();
    assert Refs(t.left.left) == {3, 4};
    assert Refs(t.left) == {2, 3, 4};
  }
}
