/**
  The node structure of the binary search tree of bst.js, as a value.

  A JavaScript `Node` owns its two children exclusively and a missing child
  is `null`; here a subtree is either `Nil` (the `null` link) or a `Node`
  holding the value and its two subtrees. The predicates below are the
  invariants the repository relies on: BST ordering (`Ordered`) and
  AVL-style balance (`Balanced`).
 */
module Trees {

  datatype Tree = Nil | Node(left: Tree, value: int, right: Tree)

  /** Number of nodes in `t`. */
  function Size(t: Tree): nat {
    match t
    case Nil => 0
    case Node(l, _, r) => Size(l) + 1 + Size(r)
  }

  /** The set of values stored in `t`. */
  function Contents(t: Tree): set<int> {
    match t
    case Nil => {}
    case Node(l, x, r) => Contents(l) + {x} + Contents(r)
  }

  /** The nodes of `t` (its non-empty subtrees, `t` itself included). */
  function Nodes(t: Tree): set<Tree> {
    match t
    case Nil => {}
    case Node(l, _, r) => {t} + Nodes(l) + Nodes(r)
  }

  /** BST ordering: left subtree < node value < right subtree, at every node. */
  predicate Ordered(t: Tree) {
    match t
    case Nil => true
    case Node(l, x, r) =>
      && Ordered(l)
      && Ordered(r)
      && (forall y :: y in Contents(l) ==> y < x)
      && (forall y :: y in Contents(r) ==> x < y)
  }

  function Elems(s: seq<int>): set<int> {
    set x | x in s
  }

  predicate StrictlyIncreasing(s: seq<int>) {
    forall i, j :: 0 <= i < j < |s| ==> s[i] < s[j]
  }

  /** The values of `t` in in-order (left, node, right). */
  function Flatten(t: Tree): (s: seq<int>)
    ensures |s| == Size(t)
  {
    match t
    case Nil => []
    case Node(l, x, r) => Flatten(l) + [x] + Flatten(r)
  }

  /** The in-order sequence lists exactly the values of the tree, one per node. */
  lemma {:induction false} FlattenContents(t: Tree)
    ensures |Flatten(t)| == Size(t)
    ensures Elems(Flatten(t)) == Contents(t)
  {
    match t
    case Nil =>
    case Node(l, x, r) =>
      FlattenContents(l);
      FlattenContents(r);
      var s := Flatten(t);
      assert forall y :: y in s <==> y in Flatten(l) || y == x || y in Flatten(r);
  }

  function Max(a: int, b: int): int {
    if a >= b then a else b
  }

  /** Height in edges; an absent node has height -1 and a single node height 0. */
  function Height(t: Tree): (h: int)
    ensures -1 <= h < Size(t)
    ensures h == -1 <==> t == Nil
  {
    match t
    case Nil => -1
    case Node(l, _, r) => 1 + Max(Height(l), Height(r))
  }

  /** AVL balance: at every node the heights of the two subtrees differ by at most one. */
  predicate Balanced(t: Tree) {
    match t
    case Nil => true
    case Node(l, _, r) =>
      && Balanced(l)
      && Balanced(r)
      && -1 <= Height(l) - Height(r) <= 1
  }

  /** In-order of an ordered tree is strictly ascending. */
  lemma {:induction false} FlattenIncreasing(t: Tree)
    requires Ordered(t)
    ensures StrictlyIncreasing(Flatten(t))
  {
    match t
    case Nil =>
    case Node(l, x, r) =>
      FlattenIncreasing(l);
      FlattenIncreasing(r);
      FlattenContents(l);
      FlattenContents(r);
      IncreasingAround(Flatten(l), x, Flatten(r));
  }

  /** Two ascending runs, all below and all above `x`, joined around `x`, ascend. */
  lemma IncreasingAround(a: seq<int>, x: int, b: seq<int>)
    requires StrictlyIncreasing(a) && StrictlyIncreasing(b)
    requires forall y :: y in Elems(a) ==> y < x
    requires forall y :: y in Elems(b) ==> x < y
    ensures StrictlyIncreasing(a + [x] + b)
  {
    var c := [x] + b;
    assert StrictlyIncreasing(c) by {
      forall i, j | 0 <= i < j < |c| ensures c[i] < c[j] {
        assert c[j] == b[j - 1];
        assert c[j] in Elems(b);
        if i > 0 {
          assert c[i] == b[i - 1];
        }
      }
    }
    forall i, j | 0 <= i < j < |a + c| ensures (a + c)[i] < (a + c)[j] {
      if j >= |a| && i < |a| {
        assert (a + c)[i] in Elems(a);
        assert (a + c)[j] == c[j - |a|];
        if j > |a| {
          assert c[j - |a|] in Elems(b);
        }
      }
    }
    assert a + [x] + b == a + c;
  }

  /** A strictly ascending sequence is determined by its set of elements. */
  lemma {:induction false} IncreasingUnique(a: seq<int>, b: seq<int>)
    requires StrictlyIncreasing(a) && StrictlyIncreasing(b)
    requires Elems(a) == Elems(b)
    ensures a == b
    decreases |a|
  {
    if a != [] { assert a[0] in Elems(a); }
    if b != [] { assert b[0] in Elems(b); }
    if a != [] {
      assert a[0] in Elems(b);
      assert b[0] in Elems(a);
      assert a[0] == b[0] by {
        var i :| 0 <= i < |b| && b[i] == a[0];
        var j :| 0 <= j < |a| && a[j] == b[0];
      }
      assert Elems(a[1..]) == Elems(b[1..]) by {
        forall y | y in Elems(a[1..]) ensures y in Elems(b[1..]) {
          var i :| 1 <= i < |a| && a[i] == y;
          assert y in Elems(b);
          var j :| 0 <= j < |b| && b[j] == y;
          assert j != 0;
        }
        forall y | y in Elems(b[1..]) ensures y in Elems(a[1..]) {
          var j :| 1 <= j < |b| && b[j] == y;
          assert y in Elems(a);
          var i :| 0 <= i < |a| && a[i] == y;
          assert i != 0;
        }
      }
      IncreasingUnique(a[1..], b[1..]);
      assert a == [a[0]] + a[1..];
      assert b == [b[0]] + b[1..];
    }
  }

  /** A node of `t` carries a value of `t`, and its own nodes are nodes of `t`. */
  lemma {:induction false} NodesWithin(t: Tree, n: Tree)
    requires n in Nodes(t)
    ensures n.Node? && n.value in Contents(t)
    ensures Nodes(n) <= Nodes(t) && Contents(n) <= Contents(t)
  {
    match t
    case Node(l, _, r) =>
      if n != t {
        if n in Nodes(l) { NodesWithin(l, n); } else { NodesWithin(r, n); }
      }
  }
}
