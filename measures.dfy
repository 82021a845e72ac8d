/**
  Height, depth and balance queries of bst.js (`height`, `depth`,
  `isBalanced` with its inner `checkHeight`). Each takes the node to start
  from, as the source does with its `node = this.root` default.
 */
module Measures {
  import opened Trees

  function Abs(x: int): nat {
    if x < 0 then -x else x
  }

  /**
    `checkHeight`: 0 for an absent node and otherwise 1 + the larger child
    result, except that -1 reports (and propagates) an imbalance found anywhere
    below.
   */
  function CheckHeight(n: Tree): (h: int)
    ensures h == (if Balanced(n) then Height(n) + 1 else -1)
  {
    match n
    case Nil => 0
    case Node(l, _, r) =>
      var left := CheckHeight(l);
      if left == -1 then -1
      else
        var right := CheckHeight(r);
        if right == -1 then -1
        else if Abs(left - right) > 1 then -1
        else 1 + Max(left, right)
  }

  /** `isBalanced`: every node's subtrees differ in height by at most one. */
  function IsBalanced(node: Tree): (b: bool)
    ensures b <==> Balanced(node)
  {
    CheckHeight(node) != -1
  }

  /**
    `depth`: the number of edges from `current` down to the node `target`,
    searching the left subtree before the right one; -1 when `target` is not
    a node below `current`. The node is compared as a whole subtree, which
    stands in for the source's comparison by reference.
   */
  function Depth(target: Tree, current: Tree, depth: nat): (d: int)
    ensures d == -1 || d >= depth
    ensures d == -1 <==> target !in Nodes(current)
  {
    if current == Nil then -1
    else if current == target then depth
    else
      var left := Depth(target, current.left, depth + 1);
      if left != -1 then left
      else Depth(target, current.right, depth + 1)
  }

  /** Edges on the BST search path from the root of `t` to the value `v`; -1 when the search falls off. */
  function SearchDepth(t: Tree, v: int): (d: int)
    ensures -1 <= d < Size(t)
  {
    match t
    case Nil => -1
    case Node(l, x, r) =>
      if v == x then 0
      else
        var d := SearchDepth(if v < x then l else r, v);
        if d == -1 then -1 else d + 1
  }

  /** In an ordered tree the search path reaches `v` exactly when `v` is stored. */
  lemma {:induction false} SearchDepthFinds(t: Tree, v: int)
    requires Ordered(t)
    ensures SearchDepth(t, v) >= -1
    ensures SearchDepth(t, v) == -1 <==> v !in Contents(t)
  {
    match t
    case Nil =>
    case Node(l, x, r) =>
      SearchDepthFinds(l, v);
      SearchDepthFinds(r, v);
  }

  /**
    In an ordered tree, the unguided left-first search of `depth` finds a node
    at the depth of the unique BST path to its value.
   */
  lemma {:induction false} DepthFollowsSearchPath(t: Tree, n: Tree, depth: nat)
    requires Ordered(t)
    requires n in Nodes(t) && n.Node?
    ensures Depth(n, t, depth) == depth + SearchDepth(t, n.value)
  {
    match t
    case Node(l, x, r) =>
      if n != t {
        if n in Nodes(l) {
          NodesWithin(l, n);
          DepthFollowsSearchPath(l, n, depth + 1);
        } else {
          assert n in Nodes(r);
          NodesWithin(r, n);
          DepthFollowsSearchPath(r, n, depth + 1);
        }
      }
  }

  /** `depth(root) == 0`, and a node that is not below the start node has depth -1. */
  lemma DepthOfRoot(root: Tree, n: Tree)
    requires root != Nil
    ensures Depth(root, root, 0) == 0
    ensures n !in Nodes(root) ==> Depth(n, root, 0) == -1
  {
  }
}
