/**
 CustomTreeMapImpl<Integer, V>: an unbalanced binary search tree of `Node`
 objects with parent links, a `root` and a `size` counter. The objects live
 in the arena `nodes` (module Arena); `shape` is the tree reachable from
 `root`, and `Model()` the map it stands for. `Valid()` is the invariant
 every public operation keeps: the arena links exactly the tree `shape`
 (children and parents), the tree is in BST order, no node is used twice,
 and `size` counts its nodes.
 */
module TreeMap {
  import opened Shapes
  import opened Arena

  class CustomTreeMap<V(==,0)> {
    /** Every `Node` object allocated so far; slot `i` is object `i`. */
    var nodes: seq<Node<V>>
    var root: int
    var size: int
    /** The tree reachable from `root`. */
    ghost var shape: Shape<V>

    ghost predicate Valid()
      reads this
    {
      Linked(nodes, Nil, shape) && root == RootRef(shape) &&
      Distinct(shape) && Ordered(shape) && size == Count(shape)
    }

    ghost function Model(): map<int, V>
      reads this
    {
      ToMap(shape)
    }

    constructor ()
      ensures Valid() && Model() == map[] && size == 0
    {
      nodes := [];
      root := Nil;
      size := 0;
      shape := Empty;
    }

    /** `size()`: the number of keys. */
    function Size(): (r: int)
      reads this
      requires Valid()
      ensures r == |Model()|
    {
      CountKeys(shape);
      size
    }

    /** `isEmpty()`. */
    function IsEmpty(): (r: bool)
      reads this
      requires Valid()
      ensures r <==> Model() == map[]
    {
      CountKeys(shape);
      size == 0
    }

    /** `get(key)`: the value bound to `key`, or null. */
    function Get(key: int): (r: Option<V>)
      reads this
      requires Valid()
      ensures key in Model() ==> r == Some(Model()[key])
      ensures key !in Model() ==> r == None
    {
      if size == 0 then None
      else
        var n := Search(nodes, root, key, Nil, shape);
        if n == Nil then None else Some(nodes[n].value)
    }

    /** `containsKey(key)`. */
    function ContainsKey(key: int): (r: bool)
      reads this
      requires Valid()
      ensures r <==> key in Model()
    {
      if root == Nil then false
      else Search(nodes, root, key, Nil, shape) != Nil
    }

    /** `put(key, value)`: bind `key` to `value`, returning the value it had, or null. */
    method Put(key: int, value: V) returns (prev: Option<V>)
      modifies this
      requires Valid()
      ensures Valid()
      ensures prev == (if key in old(Model()) then Some(old(Model())[key]) else None)
      ensures Model() == old(Model())[key := value]
      ensures size == old(size) + (if key in old(Model()) then 0 else 1)
      ensures shape == Insert(old(shape), key, value, old(|nodes|))
    {
      MapKeys(shape);
      InsertOrdered(shape, key, value, |nodes|);
      InsertNodes(shape, key, value, |nodes|);
      InsertMap(shape, key, value, |nodes|);
      LinkedRefs(nodes, Nil, shape);
      if root == Nil {
        nodes := nodes + [Node(key, value, Nil, Nil, Nil)];
        root := |nodes| - 1;
        size := size + 1;
        shape := Branch(Empty, root, key, value, Empty);
        return None;
      }
      ghost var slot := |nodes|;
      prev := Append(root, key, value, Nil, shape);
      shape := Insert(shape, key, value, slot);
    }

    /**
     `append(n, key, value)`: below the node `n` (the root of `t`, whose
     parent is `p`), overwrite the value of the key that compares equal, or
     hang a new leaf in the first empty child link of the descent.
     */
    method Append(n: int, key: int, value: V, ghost p: int, ghost t: Shape<V>) returns (prev: Option<V>)
      modifies this
      requires Linked(nodes, p, t) && t.Branch? && n == t.ref && Distinct(t) && Ordered(t)
      ensures Linked(nodes, p, Insert(t, key, value, old(|nodes|)))
      ensures |nodes| == old(|nodes|) + (if key in KeySet(t) then 0 else 1)
      ensures forall x :: 0 <= x < old(|nodes|) && x !in Refs(t) ==> nodes[x] == old(nodes[x])
      ensures size == old(size) + (if key in KeySet(t) then 0 else 1)
      ensures root == old(root) && shape == old(shape)
      ensures prev == (if key in ToMap(t) then Some(ToMap(t)[key]) else None)
      decreases t
    {
      MapDescend(t, key);
      MapKeys(t);
      LinkedRefs(nodes, p, t);
      assert Linked(nodes, n, t.left) && Linked(nodes, n, t.right);
      var node := nodes[n];
      if key == node.key {
        prev := Some(node.value);
        nodes := nodes[n := node.(value := value)];
        FrameOutside(old(nodes), nodes, n, t.left, {n});
        FrameOutside(old(nodes), nodes, n, t.right, {n});
        return;
      }
      if key < node.key {
        MapKeys(t.left);
        if node.left == Nil {
          var slot := |nodes|;
          nodes := nodes + [Node(key, value, Nil, Nil, Nil)];
          nodes := nodes[n := nodes[n].(left := slot)];
          nodes := nodes[slot := nodes[slot].(parent := n)];
          size := size + 1;
          FrameOutside(old(nodes), nodes, n, t.right, {n});
          return None;
        } else {
          prev := Append(node.left, key, value, n, t.left);
          InsertNodes(t.left, key, value, old(|nodes|));
          FrameOutside(old(nodes), nodes, n, t.right, Refs(t.left));
        }
      } else {
        MapKeys(t.right);
        if node.right == Nil {
          var slot := |nodes|;
          nodes := nodes + [Node(key, value, Nil, Nil, Nil)];
          nodes := nodes[n := nodes[n].(right := slot)];
          nodes := nodes[slot := nodes[slot].(parent := n)];
          size := size + 1;
          FrameOutside(old(nodes), nodes, n, t.left, {n});
          return None;
        } else {
          prev := Append(node.right, key, value, n, t.right);
          InsertNodes(t.right, key, value, old(|nodes|));
          FrameOutside(old(nodes), nodes, n, t.left, Refs(t.right));
        }
      }
    }
  
    /**
     `remove(key)`: unbind `key`, returning the value it had, or null. The
     shortcut for the root (line 205) compares keys by value.
     */
    method Remove(key: int) returns (result: Option<V>)
      modifies this
      requires Valid()
      ensures Valid()
      ensures result == (if key in old(Model()) then Some(old(Model())[key]) else None)
      ensures Model() == old(Model()) - {key}
      ensures size == old(size) - (if key in old(Model()) then 1 else 0)
      ensures key !in old(Model()) ==> nodes == old(nodes) && root == old(root) && shape == old(shape)
      ensures shape == Delete(old(shape), key)
    {
      MapKeys(shape);
      DeleteOrdered(shape, key);
      DeleteNodes(shape, key);
      DeleteMap(shape, key);
      LinkedRefs(nodes, Nil, shape);
      if key !in KeySet(shape) {
        DeleteAbsent(shape, key);
      }
      if root == Nil {
        return None;
      }
      if nodes[root].key == key {
        MapDescend(shape, key);
        result := Some(nodes[root].value);
        SiftAfter(root, Nil, shape);
        shape := SpliceOut(shape);
        return;
      }
      result := Get(key);
      var removed := RemoveBefore(root, key, Nil, shape);
      if !removed {
        result := None;
      }
      shape := Delete(shape, key);
    }

    /**
     `removeBefore(n, key)`: descend from `n` (the root of `t`, under `p`)
     by comparison and splice out the node whose key compares equal;
     report whether there was one.
     */
    method RemoveBefore(n: int, key: int, ghost p: int, ghost t: Shape<V>) returns (found: bool)
      modifies this
      requires Placed(nodes, root, p, t) && Ordered(t) && n == t.ref
      requires p == Nil ==> size == Count(t)
      ensures found <==> key in KeySet(t)
      ensures found ==> Spliced(old(nodes), old(root), nodes, root, p, t, Delete(t, key)) && size == old(size) - 1
      ensures !found ==> nodes == old(nodes) && root == old(root) && size == old(size)
      ensures shape == old(shape)
      decreases t
    {
      assert Linked(nodes, n, t.left) && Linked(nodes, n, t.right);
      PlacedChildren(nodes, root, p, t);
      var node := nodes[n];
      if key == node.key {
        SiftAfter(n, p, t);
        return true;
      }
      if key < node.key {
        if node.left == Nil {
          return false;
        }
        found := RemoveBefore(node.left, key, n, t.left);
        if found {
          SplicedLeft(old(nodes), old(root), nodes, root, p, t, key);
        }
      } else {
        if node.right == Nil {
          return false;
        }
        found := RemoveBefore(node.right, key, n, t.right);
        if found {
          SplicedRight(old(nodes), old(root), nodes, root, p, t, key);
        }
      }
    }

    /**
     `siftAfter(n)`: remove the node `n`, the root of `t` under `p`, in the
     four cases of the source: a leaf is cut off; a node without a right
     child is replaced by its left child; a right child without a left child
     adopts the left subtree and takes the node's place; otherwise the
     leftmost node of the right subtree is detached and takes the node's place.
     */
    method SiftAfter(n: int, ghost p: int, ghost t: Shape<V>)
      modifies this
      requires Placed(nodes, root, p, t) && n == t.ref
      requires p == Nil ==> size == Count(t)
      ensures Spliced(old(nodes), old(root), nodes, root, p, t, SpliceOut(t))
      ensures size == old(size) - 1
      ensures shape == old(shape)
    {
      assert Linked(nodes, n, t.left) && Linked(nodes, n, t.right);
      var node := nodes[n];
      if node.right == Nil && node.left == Nil {
        LeafSpliced(nodes, root, p, t);
        if node.parent == Nil {
          root := Nil;
          size := 0;
        } else if nodes[node.parent].left == n {
          nodes := nodes[node.parent := nodes[node.parent].(left := Nil)];
          size := size - 1;
        } else if nodes[node.parent].right == n {
          nodes := nodes[node.parent := nodes[node.parent].(right := Nil)];
          size := size - 1;
        } else {
          assert false;
        }
      } else if node.right == Nil {
        LiftSpliced(nodes, root, p, t);
        Exchange(n, node.left);
      } else if nodes[node.right].left == Nil {
        assert Linked(nodes, node.right, t.right.left);
        PromoteSpliced(nodes, root, p, t);
        SetLeftChild(node.right, node.left);
        Exchange(n, node.right);
      } else {
        assert Linked(nodes, node.right, t.right.left);
        SuccessorSpliced(nodes, root, p, t);
        ghost var r := t.right;
        assert r.left.Branch?;
        var tmpLeft := node.right;
        var tmpPrev := Nil;
        ghost var sub := r;
        while nodes[tmpLeft].left != Nil
          invariant sub.Branch? && tmpLeft == sub.ref
          invariant Linked(nodes, if tmpPrev == Nil then n else tmpPrev, sub)
          invariant MinOf(sub) == MinOf(r)
          invariant sub.left.Branch? ==> MinParentRef(sub) == MinParentRef(r)
          invariant sub.left.Empty? ==> tmpPrev == MinParentRef(r)
          decreases sub
        {
          assert Linked(nodes, sub.ref, sub.left);
          tmpPrev := tmpLeft;
          tmpLeft := nodes[tmpLeft].left;
          sub := sub.left;
        }
        SetLeftChild(tmpPrev, nodes[tmpLeft].right);
        SetLeftChild(tmpLeft, node.left);
        SetRightChild(tmpLeft, node.right);
        Exchange(n, tmpLeft);
      }
    }

    /**
     `exchange(n, c)`: `c` takes the place of `n` under `n`'s parent (or as
     the root), and `size` drops by one. The assignment `node = changeNode`
     at line 327 only rebinds a parameter and has no effect.
     */
    method Exchange(n: int, c: int)
      modifies this
      requires 0 <= n < |nodes| && 0 <= c < |nodes|
      requires nodes[n].parent == Nil || 0 <= nodes[n].parent < |nodes|
      ensures nodes == Exchanged(old(nodes), n, c)
      ensures root == (if old(nodes[n].parent) == Nil then c else old(root))
      ensures size == old(size) - 1 && shape == old(shape)
    {
      var q := nodes[n].parent;
      if q == Nil {
        nodes := nodes[c := nodes[c].(parent := Nil)];
        root := c;
      } else if nodes[q].left == n {
        nodes := nodes[c := nodes[c].(parent := q)];
        nodes := nodes[q := nodes[q].(left := c)];
      } else if nodes[q].right == n {
        nodes := nodes[c := nodes[c].(parent := q)];
        nodes := nodes[q := nodes[q].(right := c)];
      }
      size := size - 1;
    }

    /** `Node.setLeftChild`, applied to the node in slot `at`. */
    method SetLeftChild(at: int, c: int)
      modifies this
      requires 0 <= at < |nodes| && (c == Nil || 0 <= c < |nodes|)
      ensures nodes == SetLeft(old(nodes), at, c)
      ensures root == old(root) && size == old(size) && shape == old(shape)
    {
      nodes := nodes[at := nodes[at].(left := c)];
      if c != Nil {
        nodes := nodes[c := nodes[c].(parent := at)];
      }
    }

    /** `Node.setRightChild`, applied to the node in slot `at`. */
    method SetRightChild(at: int, c: int)
      modifies this
      requires 0 <= at < |nodes| && (c == Nil || 0 <= c < |nodes|)
      ensures nodes == SetRight(old(nodes), at, c)
      ensures root == old(root) && size == old(size) && shape == old(shape)
    {
      nodes := nodes[at := nodes[at].(right := c)];
      if c != Nil {
        nodes := nodes[c := nodes[c].(parent := at)];
      }
    }

    /** `fillRecursive(n, array)`: append the nodes below `n` to `acc`, in order. */
    method FillRecursive(n: int, acc: seq<int>, ghost p: int, ghost t: Shape<V>) returns (res: seq<int>)
      requires Linked(nodes, p, t) && t.Branch? && n == t.ref
      ensures res == acc + RefsOf(Entries(t))
      decreases t
    {
      assert Linked(nodes, n, t.left) && Linked(nodes, n, t.right);
      RefsOfBranch(t.left, t.ref, t.key, t.value, t.right);
      var node := nodes[n];
      res := acc;
      if node.left != Nil {
        res := FillRecursive(node.left, res, n, t.left);
      }
      res := res + [n];
      if node.right != Nil {
        res := FillRecursive(node.right, res, n, t.right);
      }
    }

    /** The nodes in order, as `keys`, `values` and `containsValue` collect them. */
    method Collect() returns (list: seq<int>)
      requires Valid()
      ensures list == RefsOf(Entries(shape))
    {
      list := [];
      if root != Nil {
        list := FillRecursive(root, [], Nil, shape);
      }
    }

    /** `keys()`: the keys in ascending order, one array cell per key. */
    method Keys() returns (a: array<int>)
      requires Valid()
      ensures fresh(a) && a[..] == KeysOf(Entries(shape))
      ensures a.Length == |Model()| && StrictlyAscending(a[..])
      ensures forall x :: x in a[..] <==> x in Model()
    {
      var list := Collect();
      LinkedEntries(nodes, Nil, shape);
      CountEntries(shape);
      a := new int[size];
      var j := 0;
      while j < |list|
        invariant 0 <= j <= |list| == a.Length
        invariant forall i :: 0 <= i < j ==> a[i] == Entries(shape)[i].key
      {
        a[j] := nodes[list[j]].key;
        j := j + 1;
      }
      assert a[..] == KeysOf(Entries(shape));
      CountKeys(shape);
      OrderedAscending(shape);
      KeysOfEntries(shape);
      MapKeys(shape);
    }

    /** `values()`: the values in the order of their keys. */
    method Values() returns (a: array<V>)
      requires Valid()
      ensures fresh(a) && a[..] == ValuesOf(Entries(shape))
      ensures a.Length == |Model()|
      ensures forall i :: 0 <= i < a.Length ==>
        Entries(shape)[i].key in Model() && Model()[Entries(shape)[i].key] == a[i]
    {
      var list := Collect();
      LinkedEntries(nodes, Nil, shape);
      CountEntries(shape);
      a := new V[size];
      var j := 0;
      while j < |list|
        invariant 0 <= j <= |list| == a.Length
        invariant forall i :: 0 <= i < j ==> a[i] == Entries(shape)[i].value
      {
        a[j] := nodes[list[j]].value;
        j := j + 1;
      }
      assert a[..] == ValuesOf(Entries(shape));
      CountKeys(shape);
      EntriesMap(shape);
    }

    /** `containsValue(value)`: whether some key is bound to `value`. */
    method ContainsValue(value: V) returns (r: bool)
      requires Valid()
      ensures r <==> HasValue(Model(), value)
    {
      ValuesOfMap(shape, value);
      if root == Nil {
        return false;
      }
      var list := Collect();
      LinkedEntries(nodes, Nil, shape);
      var es := Entries(shape);
      var i := 0;
      while i < |list|
        invariant 0 <= i <= |list| == |es|
        invariant forall j :: 0 <= j < i ==> es[j].value != value
      {
        if nodes[list[i]].value == value {
          assert ValuesOf(es)[i] == value;
          return true;
        }
        i := i + 1;
      }
      assert value !in ValuesOf(es);
      return false;
    }
  }
}
