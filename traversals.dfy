/**
  The recursive visitor traversals of bst.js (`inOrderForEach`,
  `preOrderForEach`, `postOrderForEach`). A visitor is called once per node;
  here each traversal returns the nodes in the order the visitor would see
  them, as subtrees.
 */
module Traversals {
  import opened Trees
  import opened Edits

  /** Left subtree, node, right subtree. */
  function InOrderForEach(node: Tree): (visits: seq<Tree>)
    ensures |visits| == Size(node)
  {
    match node
    case Nil => []
    case Node(l, _, r) => InOrderForEach(l) + [node] + InOrderForEach(r)
  }

  /** Node, left subtree, right subtree. */
  function PreOrderForEach(node: Tree): (visits: seq<Tree>)
    ensures |visits| == Size(node)
  {
    match node
    case Nil => []
    case Node(l, _, r) => [node] + PreOrderForEach(l) + PreOrderForEach(r)
  }

  /** Left subtree, right subtree, node. */
  function PostOrderForEach(node: Tree): (visits: seq<Tree>)
    ensures |visits| == Size(node)
  {
    match node
    case Nil => []
    case Node(l, _, r) => PostOrderForEach(l) + PostOrderForEach(r) + [node]
  }

  /** The values a visitor reads from the nodes it is given, in order. */
  function ValuesOf(nodes: seq<Tree>): seq<int> {
    if nodes == [] then []
    else (if nodes[0].Node? then [nodes[0].value] else []) + ValuesOf(nodes[1..])
  }

  lemma {:induction false} ValuesOfAppend(a: seq<Tree>, b: seq<Tree>)
    ensures ValuesOf(a + b) == ValuesOf(a) + ValuesOf(b)
    decreases |a|
  {
    if a == [] {
      assert a + b == b;
    } else {
      assert (a + b)[0] == a[0];
      assert (a + b)[1..] == a[1..] + b;
      ValuesOfAppend(a[1..], b);
    }
  }

  /** In-order visits exactly the nodes of the tree, one visit per node. */
  lemma {:induction false} InOrderVisitsEveryNode(t: Tree)
    ensures |InOrderForEach(t)| == Size(t)
    ensures forall n :: n in InOrderForEach(t) <==> n in Nodes(t)
  {
    match t
    case Nil =>
    case Node(l, _, r) =>
      InOrderVisitsEveryNode(l);
      InOrderVisitsEveryNode(r);
      var a, b := InOrderForEach(l), InOrderForEach(r);
      assert forall n :: n in a + [t] + b <==> n in a || n == t || n in b;
  }

  /** Pre-order visits the same nodes as in-order, as often. */
  lemma {:induction false} PreOrderVisitsSameNodes(t: Tree)
    ensures multiset(PreOrderForEach(t)) == multiset(InOrderForEach(t))
  {
    match t
    case Nil =>
    case Node(l, _, r) =>
      PreOrderVisitsSameNodes(l);
      PreOrderVisitsSameNodes(r);
      var a, b := InOrderForEach(l), InOrderForEach(r);
      var p, q := PreOrderForEach(l), PreOrderForEach(r);
      assert multiset(a + [t] + b) == multiset(a) + multiset{t} + multiset(b);
      assert multiset([t] + p + q) == multiset{t} + multiset(p) + multiset(q);
  }

  /** Post-order visits the same nodes as in-order, as often. */
  lemma {:induction false} PostOrderVisitsSameNodes(t: Tree)
    ensures multiset(PostOrderForEach(t)) == multiset(InOrderForEach(t))
  {
    match t
    case Nil =>
    case Node(l, _, r) =>
      PostOrderVisitsSameNodes(l);
      PostOrderVisitsSameNodes(r);
      var a, b := InOrderForEach(l), InOrderForEach(r);
      var p, q := PostOrderForEach(l), PostOrderForEach(r);
      assert multiset(a + [t] + b) == multiset(a) + multiset{t} + multiset(b);
      assert multiset(p + q + [t]) == multiset(p) + multiset(q) + multiset{t};
  }

  /** Pre-order starts at the node it is given and post-order ends there. */
  lemma RootVisitedFirstOrLast(t: Tree)
    requires t != Nil
    ensures PreOrderForEach(t)[0] == t
    ensures PostOrderForEach(t)[|PostOrderForEach(t)| - 1] == t
  {
  }

  /** The in-order visits read exactly the in-order value sequence. */
  lemma {:induction false} InOrderVisitsValues(t: Tree)
    ensures ValuesOf(InOrderForEach(t)) == Flatten(t)
  {
    match t
    case Nil =>
    case Node(l, x, r) =>
      InOrderVisitsValues(l);
      InOrderVisitsValues(r);
      ValuesOfAppend(InOrderForEach(l) + [t], InOrderForEach(r));
      ValuesOfAppend(InOrderForEach(l), [t]);
  }

  /** In a search tree the in-order visits read ascending values, so no node is visited twice. */
  lemma InOrderVisitsOnce(t: Tree)
    requires Ordered(t)
    ensures forall i, j :: 0 <= i < j < |InOrderForEach(t)| ==>
      InOrderForEach(t)[i].Node? && InOrderForEach(t)[j].Node? &&
      InOrderForEach(t)[i].value < InOrderForEach(t)[j].value
  {
    InOrderVisitsValues(t);
    FlattenIncreasing(t);
    InOrderVisitsEveryNode(t);
    var visits := InOrderForEach(t);
    forall n | n in visits ensures n.Node? {
      NodesWithin(t, n);
    }
    ValuesOfNodes(visits);
  }

  lemma {:induction false} ValuesOfNodes(nodes: seq<Tree>)
    requires forall n :: n in nodes ==> n.Node?
    ensures |ValuesOf(nodes)| == |nodes|
    ensures forall k :: 0 <= k < |nodes| ==> ValuesOf(nodes)[k] == nodes[k].value
  {
    if nodes != [] {
      ValuesOfNodes(nodes[1..]);
    }
  }

  /** Pre-order visits read every stored value once. */
  lemma {:induction false} PreOrderValues(t: Tree)
    ensures Elems(ValuesOf(PreOrderForEach(t))) == Contents(t)
  {
    match t
    case Nil =>
    case Node(l, x, r) =>
      PreOrderValues(l);
      PreOrderValues(r);
      ValuesOfAppend([t] + PreOrderForEach(l), PreOrderForEach(r));
      ValuesOfAppend([t], PreOrderForEach(l));
      var a, b := ValuesOf(PreOrderForEach(l)), ValuesOf(PreOrderForEach(r));
      assert ValuesOf([t]) == [x];
      assert forall y :: y in [x] + a + b <==> y == x || y in a || y in b;
  }

  /** Inserting the values of `s` one by one, as repeated `insert` calls do. */
  function InsertAll(t: Tree, s: seq<int>): Tree
    decreases |s|
  {
    if s == [] then t else InsertAll(Inserted(t, s[0]), s[1..])
  }

  lemma {:induction false} InsertAllAppend(t: Tree, a: seq<int>, b: seq<int>)
    ensures InsertAll(t, a + b) == InsertAll(InsertAll(t, a), b)
    decreases |a|
  {
    if a == [] {
      assert a + b == b;
    } else {
      assert (a + b)[0] == a[0];
      assert (a + b)[1..] == a[1..] + b;
      InsertAllAppend(Inserted(t, a[0]), a[1..], b);
    }
  }

  /** Values below a node's value all go into its left subtree. */
  lemma {:induction false} InsertAllLeft(l: Tree, x: int, r: Tree, s: seq<int>)
    requires forall y :: y in s ==> y < x
    ensures InsertAll(Node(l, x, r), s) == Node(InsertAll(l, s), x, r)
    decreases |s|
  {
    if s != [] {
      assert s[0] in s;
      assert Inserted(Node(l, x, r), s[0]) == Node(Inserted(l, s[0]), x, r);
      assert forall y :: y in s[1..] ==> y in s;
      InsertAllLeft(Inserted(l, s[0]), x, r, s[1..]);
    }
  }

  /** Values above a node's value all go into its right subtree. */
  lemma {:induction false} InsertAllRight(l: Tree, x: int, r: Tree, s: seq<int>)
    requires forall y :: y in s ==> x < y
    ensures InsertAll(Node(l, x, r), s) == Node(l, x, InsertAll(r, s))
    decreases |s|
  {
    if s != [] {
      assert s[0] in s;
      assert Inserted(Node(l, x, r), s[0]) == Node(l, x, Inserted(r, s[0]));
      assert forall y :: y in s[1..] ==> y in s;
      InsertAllRight(l, x, Inserted(r, s[0]), s[1..]);
    }
  }

  /** Inserting a search tree's pre-order values into an empty tree rebuilds that same tree. */
  lemma {:induction false} PreOrderRebuilds(t: Tree)
    requires Ordered(t)
    ensures InsertAll(Nil, ValuesOf(PreOrderForEach(t))) == t
  {
    match t
    case Nil =>
    case Node(l, x, r) =>
      var a, b := ValuesOf(PreOrderForEach(l)), ValuesOf(PreOrderForEach(r));
      assert ValuesOf(PreOrderForEach(t)) == [x] + (a + b) by {
        ValuesOfAppend([t] + PreOrderForEach(l), PreOrderForEach(r));
        ValuesOfAppend([t], PreOrderForEach(l));
        assert ValuesOf([t]) == [x];
      }
      assert InsertAll(Nil, [x] + (a + b)) == InsertAll(Node(Nil, x, Nil), a + b) by {
        assert ([x] + (a + b))[1..] == a + b;
      }
      InsertAllAppend(Node(Nil, x, Nil), a, b);
      PreOrderValues(l);
      PreOrderValues(r);
      assert forall y :: y in a ==> y in Elems(a);
      assert forall y :: y in b ==> y in Elems(b);
      InsertAllLeft(Nil, x, Nil, a);
      InsertAllRight(InsertAll(Nil, a), x, Nil, b);
      PreOrderRebuilds(l);
      PreOrderRebuilds(r);
  }
}
