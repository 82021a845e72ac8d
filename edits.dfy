/**
  Reference behaviour of bst.js `insert` and `delete`, written recursively,
  and the descent paths that the iterative versions in `SearchTrees` keep.

  A `Frame` records one step of a descent from a parent: the parent's value
  and the child that was not taken. A path of frames (root first) and the
  subtree reached determine the whole tree again (`Plug`); replacing that
  subtree and plugging it back is what a write to `parent.left`,
  `parent.right` or `this.root` does to the tree.
 */
module Edits {
  import opened Trees

  datatype Frame = WentLeft(value: int, right: Tree) | WentRight(left: Tree, value: int)

  /** The parent node of a frame, with `child` in the slot the descent took. */
  function Fill(f: Frame, child: Tree): Tree {
    match f
    case WentLeft(x, r) => Node(child, x, r)
    case WentRight(l, x) => Node(l, x, child)
  }

  /** The tree whose descent along `path` reaches `t`. */
  function Plug(path: seq<Frame>, t: Tree): Tree
    decreases |path|
  {
    if path == [] then t
    else Plug(path[..|path| - 1], Fill(path[|path| - 1], t))
  }

  /** Taking one more step down, then plugging, is plugging the parent. */
  lemma PlugExtend(path: seq<Frame>, f: Frame, t: Tree)
    ensures Plug(path + [f], t) == Plug(path, Fill(f, t))
  {
    assert (path + [f])[..|path|] == path;
  }

  /** Recursive insertion: a new leaf where the search for `v` falls off; nothing if `v` is present. */
  function Inserted(t: Tree, v: int): (r: Tree)
    ensures Contents(r) == Contents(t) + {v}
  {
    match t
    case Nil => Node(Nil, v, Nil)
    case Node(l, x, r) =>
      if v == x then t
      else if v < x then Node(Inserted(l, v), x, r)
      else Node(l, x, Inserted(r, v))
  }

  /** Insertion adds exactly `v`, keeps BST ordering, and changes nothing when `v` is present. */
  lemma {:induction false} InsertedCorrect(t: Tree, v: int)
    requires Ordered(t)
    ensures Contents(Inserted(t, v)) == Contents(t) + {v}
    ensures Ordered(Inserted(t, v))
    ensures v in Contents(t) ==> Inserted(t, v) == t
    ensures v !in Contents(t) ==> Size(Inserted(t, v)) == Size(t) + 1
  {
    match t
    case Nil =>
    case Node(l, x, r) =>
      if v < x {
        InsertedCorrect(l, v);
      } else if v > x {
        InsertedCorrect(r, v);
      }
  }

  /** The value of the leftmost node. */
  function Min(t: Tree): int
    requires t != Nil
  {
    if t.left == Nil then t.value else Min(t.left)
  }

  /** `t` with its leftmost node spliced out (replaced by that node's right child). */
  function RemoveMin(t: Tree): (r: Tree)
    requires t != Nil
    ensures Contents(r) + {Min(t)} == Contents(t)
  {
    if t.left == Nil then t.right else Node(RemoveMin(t.left), t.value, t.right)
  }

  /** The leftmost node is first in in-order; splicing it out drops exactly that first value. */
  lemma {:induction false} RemoveMinFlatten(t: Tree)
    requires t != Nil
    ensures Flatten(t) == [Min(t)] + Flatten(RemoveMin(t))
    ensures Size(RemoveMin(t)) == Size(t) - 1
  {
    if t.left != Nil {
      RemoveMinFlatten(t.left);
    }
  }

  /** In an ordered tree the leftmost value is the least one, and splicing it out keeps the order. */
  lemma {:induction false} RemoveMinOrdered(t: Tree)
    requires t != Nil && Ordered(t)
    ensures Ordered(RemoveMin(t))
    ensures Contents(t) == Contents(RemoveMin(t)) + {Min(t)}
    ensures forall y :: y in Contents(RemoveMin(t)) ==> Min(t) < y
  {
    if t.left != Nil {
      RemoveMinOrdered(t.left);
    }
  }

  /**
    Recursive deletion: a node with at most one child is replaced by that
    child; a node with two children keeps its place and takes the value of
    the leftmost node of its right subtree, which is spliced out.
   */
  function Deleted(t: Tree, v: int): (r: Tree)
    ensures Contents(r) <= Contents(t)
  {
    match t
    case Nil => Nil
    case Node(l, x, r) =>
      if v < x then Node(Deleted(l, v), x, r)
      else if v > x then Node(l, x, Deleted(r, v))
      else if l == Nil then r
      else if r == Nil then l
      else Node(l, Min(r), RemoveMin(r))
  }

  /** Deletion removes exactly `v` and keeps BST ordering. */
  lemma {:induction false} DeletedCorrect(t: Tree, v: int)
    requires Ordered(t)
    ensures Contents(Deleted(t, v)) == Contents(t) - {v}
    ensures Ordered(Deleted(t, v))
  {
    match t
    case Nil =>
    case Node(l, x, r) =>
      if v < x {
        DeletedCorrect(l, v);
      } else if v > x {
        DeletedCorrect(r, v);
      } else if l != Nil && r != Nil {
        RemoveMinOrdered(r);
        assert Contents(Deleted(t, v)) == Contents(l) + {Min(r)} + Contents(RemoveMin(r));
      }
  }

  /** Deleting an absent value changes nothing; deleting a present one removes exactly one node. */
  lemma {:induction false} DeletedSize(t: Tree, v: int)
    requires Ordered(t)
    ensures v !in Contents(t) ==> Deleted(t, v) == t
    ensures v in Contents(t) ==> Size(Deleted(t, v)) == Size(t) - 1
  {
    match t
    case Nil =>
    case Node(l, x, r) =>
      if v < x {
        assert v !in Contents(r);
        DeletedSize(l, v);
      } else if v > x {
        assert v !in Contents(l);
        DeletedSize(r, v);
      } else if l != Nil && r != Nil {
        RemoveMinFlatten(r);
      }
  }

  /**
    The value that replaces a deleted two-child node is its in-order
    successor: the next value after it in the in-order sequence, and the
    least stored value greater than it.
   */
  lemma InOrderSuccessor(l: Tree, x: int, r: Tree)
    requires r != Nil
    ensures |Flatten(l)| + 1 < |Flatten(Node(l, x, r))|
    ensures Flatten(Node(l, x, r))[|Flatten(l)| + 1] == Min(r)
    ensures Ordered(Node(l, x, r)) ==>
      x < Min(r) && forall y :: y in Contents(Node(l, x, r)) && x < y ==> Min(r) <= y
  {
    RemoveMinFlatten(r);
    if Ordered(Node(l, x, r)) {
      RemoveMinOrdered(r);
    }
  }
}
