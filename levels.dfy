/**
  Breadth-first order (bst.js `levelOrder` and `levelOrderForEach`).

  `Drain` states what emptying the FIFO queue produces: the front node is
  visited and its present children are enqueued, left before right.
  `ByLevels` is the independent description: all nodes at depth 0, then all
  at depth 1, and so on down to the height of the tree, left to right within
  a depth. `DrainIsByLevels` proves the two agree.
 */
module Levels {
  import opened Trees
  import opened Traversals

  /** What the source pushes for a child link: nothing for `null`, the node otherwise. */
  function Enqueued(t: Tree): seq<Tree> {
    if t == Nil then [] else [t]
  }

  lemma EnqueuedOne(t: Tree, k: nat)
    ensures SizeAll(Enqueued(t)) == Size(t)
    ensures MaxHeight(Enqueued(t)) == Height(t)
    ensures LevelAll(Enqueued(t), k) == Level(t, k)
    ensures InOrderAll(Enqueued(t)) == InOrderForEach(t)
  {
    if t != Nil {
      assert Enqueued(t)[1..] == [];
    }
  }

  predicate AllNodes(q: seq<Tree>) {
    forall i :: 0 <= i < |q| ==> q[i].Node?
  }

  /** Total number of nodes in the subtrees held by a queue. */
  function SizeAll(q: seq<Tree>): nat {
    if q == [] then 0 else Size(q[0]) + SizeAll(q[1..])
  }

  lemma {:induction false} SizeAllAppend(a: seq<Tree>, b: seq<Tree>)
    ensures SizeAll(a + b) == SizeAll(a) + SizeAll(b)
    decreases |a|
  {
    if a == [] {
      assert a + b == b;
    } else {
      assert (a + b)[0] == a[0];
      assert (a + b)[1..] == a[1..] + b;
      SizeAllAppend(a[1..], b);
    }
  }

  /** The visits made while draining `queue`. */
  function Drain(queue: seq<Tree>): seq<Tree>
    decreases SizeAll(queue), |queue|
  {
    if queue == [] then []
    else match queue[0]
      case Nil => Drain(queue[1..])
      case Node(l, _, r) =>
        SizeAllAppend(queue[1..], Enqueued(l));
        SizeAllAppend(queue[1..] + Enqueued(l), Enqueued(r));
        [queue[0]] + Drain(queue[1..] + Enqueued(l) + Enqueued(r))
  }

  /** The nodes of `t` at depth `k`, left to right. */
  function Level(t: Tree, k: nat): seq<Tree> {
    match t
    case Nil => []
    case Node(l, _, r) => if k == 0 then [t] else Level(l, k - 1) + Level(r, k - 1)
  }

  /** Levels `k`, `k + 1`, ..., Height(t) of `t`, one after another. */
  function LevelsFrom(t: Tree, k: nat): seq<Tree>
    decreases Height(t) + 1 - k
  {
    if k > Height(t) then [] else Level(t, k) + LevelsFrom(t, k + 1)
  }

  /** Breadth-first order of `t`: depth by depth, from the root down. */
  function ByLevels(t: Tree): seq<Tree> {
    LevelsFrom(t, 0)
  }

  // ---- the same notions over a sequence of subtrees (a queue) ----

  function LevelAll(q: seq<Tree>, k: nat): seq<Tree> {
    if q == [] then [] else Level(q[0], k) + LevelAll(q[1..], k)
  }

  function LevelsAll(q: seq<Tree>, k: nat, n: nat): seq<Tree>
    decreases n - k
  {
    if k >= n then [] else LevelAll(q, k) + LevelsAll(q, k + 1, n)
  }

  /** The present children of the queue's nodes, in queue order, left child first. */
  function Children(q: seq<Tree>): seq<Tree> {
    if q == [] then []
    else match q[0]
      case Nil => Children(q[1..])
      case Node(l, _, r) => Enqueued(l) + Enqueued(r) + Children(q[1..])
  }

  function MaxHeight(q: seq<Tree>): int {
    if q == [] then -1 else Max(Height(q[0]), MaxHeight(q[1..]))
  }

  /** Level after level of a queue of nodes: the queue itself, then the levels of its children. */
  function AllLevels(q: seq<Tree>): seq<Tree>
    requires AllNodes(q)
    decreases SizeAll(q)
  {
    if q == [] then []
    else
      ChildrenShrink(q);
      q + AllLevels(Children(q))
  }

  lemma {:induction false} ChildrenShrink(q: seq<Tree>)
    requires AllNodes(q)
    ensures AllNodes(Children(q))
    ensures SizeAll(Children(q)) + |q| == SizeAll(q)
    ensures q != [] ==> MaxHeight(Children(q)) < MaxHeight(q)
    decreases |q|
  {
    if q != [] {
      ChildrenShrink(q[1..]);
      var Node(l, _, r) := q[0];
      var e := Enqueued(l) + Enqueued(r);
      EnqueuedOne(l, 0);
      EnqueuedOne(r, 0);
      SizeAllAppend(e, Children(q[1..]));
      SizeAllAppend(Enqueued(l), Enqueued(r));
      MaxHeightAppend(e, Children(q[1..]));
      MaxHeightAppend(Enqueued(l), Enqueued(r));
      assert AllNodes(e + Children(q[1..])) by {
        forall i | 0 <= i < |e + Children(q[1..])| ensures (e + Children(q[1..]))[i].Node? {
          if i >= |e| {
            assert (e + Children(q[1..]))[i] == Children(q[1..])[i - |e|];
          }
        }
      }
      assert AllNodes(q[1..]) by {
        forall i | 0 <= i < |q| - 1 ensures q[1..][i].Node? {
          assert q[1..][i] == q[i + 1];
        }
      }
    }
  }

  lemma {:induction false} MaxHeightAppend(a: seq<Tree>, b: seq<Tree>)
    ensures MaxHeight(a + b) == Max(MaxHeight(a), MaxHeight(b))
    decreases |a|
  {
    if a == [] {
      assert a + b == b;
    } else {
      assert (a + b)[0] == a[0];
      assert (a + b)[1..] == a[1..] + b;
      MaxHeightAppend(a[1..], b);
    }
  }

  lemma {:induction false} LevelAllAppend(a: seq<Tree>, b: seq<Tree>, k: nat)
    ensures LevelAll(a + b, k) == LevelAll(a, k) + LevelAll(b, k)
    decreases |a|
  {
    if a == [] {
      assert a + b == b;
    } else {
      assert (a + b)[0] == a[0];
      assert (a + b)[1..] == a[1..] + b;
      LevelAllAppend(a[1..], b, k);
    }
  }

  /** Level k of the children is level k + 1 of the parents. */
  lemma {:induction false} ChildrenLevel(q: seq<Tree>, k: nat)
    ensures LevelAll(Children(q), k) == LevelAll(q, k + 1)
    decreases |q|
  {
    if q != [] {
      ChildrenLevel(q[1..], k);
      match q[0]
      case Nil =>
      case Node(l, _, r) =>
        LevelAllAppend(Enqueued(l) + Enqueued(r), Children(q[1..]), k);
        LevelAllAppend(Enqueued(l), Enqueued(r), k);
        EnqueuedOne(l, k);
        EnqueuedOne(r, k);
    }
  }

  lemma {:induction false} ChildrenLevels(q: seq<Tree>, k: nat, n: nat)
    ensures LevelsAll(Children(q), k, n) == LevelsAll(q, k + 1, n + 1)
    decreases n - k
  {
    if k < n {
      ChildrenLevel(q, k);
      ChildrenLevels(q, k + 1, n);
    }
  }

  lemma {:induction false} LevelZero(q: seq<Tree>)
    requires AllNodes(q)
    ensures LevelAll(q, 0) == q
    decreases |q|
  {
    if q != [] {
      assert AllNodes(q[1..]) by {
        forall i | 0 <= i < |q| - 1 ensures q[1..][i].Node? {
          assert q[1..][i] == q[i + 1];
        }
      }
      LevelZero(q[1..]);
      assert q == [q[0]] + q[1..];
    }
  }

  lemma {:induction false} LevelsOfNothing(k: nat, n: nat)
    ensures LevelsAll([], k, n) == []
    decreases n - k
  {
    if k < n {
      LevelsOfNothing(k + 1, n);
    }
  }

  /** Draining a queue of nodes visits them level after level. */
  lemma {:induction false} AllLevelsByDepth(q: seq<Tree>, n: nat)
    requires AllNodes(q)
    requires MaxHeight(q) < n
    ensures AllLevels(q) == LevelsAll(q, 0, n)
    decreases SizeAll(q)
  {
    if q == [] {
      LevelsOfNothing(0, n);
    } else {
      ChildrenShrink(q);
      assert n >= 1 by {
        assert Height(q[0]) >= 0;
      }
      AllLevelsByDepth(Children(q), n - 1);
      ChildrenLevels(q, 0, n - 1);
      LevelZero(q);
    }
  }

  /**
    The queue invariant: with the nodes `front` still to be visited ahead of
    `next`, draining visits `front` and then drains `next` followed by the
    children of `front`.
   */
  lemma {:induction false} DrainFront(front: seq<Tree>, next: seq<Tree>)
    requires AllNodes(front)
    ensures Drain(front + next) == front + Drain(next + Children(front))
    decreases |front|
  {
    if front == [] {
      assert front + next == next;
      assert next + Children(front) == next;
    } else {
      var Node(l, _, r) := front[0];
      var next' := next + Enqueued(l) + Enqueued(r);
      assert Drain(front + next) == [front[0]] + Drain(front[1..] + next') by {
        var q := front + next;
        assert q[0] == front[0] && q[1..] == front[1..] + next;
        var rest := DrainStep(q);
        assert rest == front[1..] + next';
      }
      assert AllNodes(front[1..]) by {
        forall i | 0 <= i < |front| - 1 ensures front[1..][i].Node? {
          assert front[1..][i] == front[i + 1];
        }
      }
      DrainFront(front[1..], next');
      assert next' + Children(front[1..]) == next + Children(front) by {
        assert Children(front) == Enqueued(l) + Enqueued(r) + Children(front[1..]);
        AppendAssociative(next, Enqueued(l), Enqueued(r));
        AppendAssociative(next, Enqueued(l) + Enqueued(r), Children(front[1..]));
      }
      AppendAssociative([front[0]], front[1..], Drain(next + Children(front)));
      assert front == [front[0]] + front[1..];
    }
  }

  /** Draining a queue of nodes visits it level after level. */
  lemma {:induction false} DrainIsAllLevels(q: seq<Tree>)
    requires AllNodes(q)
    ensures Drain(q) == AllLevels(q)
    decreases SizeAll(q)
  {
    if q != [] {
      DrainFront(q, []);
      assert q + [] == q;
      assert [] + Children(q) == Children(q);
      ChildrenShrink(q);
      DrainIsAllLevels(Children(q));
    }
  }

  lemma {:induction false} LevelsAllSingle(t: Tree, k: nat)
    ensures LevelsAll(Enqueued(t), k, Height(t) + 1) == LevelsFrom(t, k)
    decreases Height(t) + 1 - k
  {
    if k <= Height(t) {
      LevelsAllSingle(t, k + 1);
      assert LevelAll(Enqueued(t), k) == Level(t, k) by {
        assert Enqueued(t) == [t];
        assert Enqueued(t)[1..] == [];
      }
    }
  }

  /** Draining the queue seeded with the root visits the tree depth by depth. */
  lemma DrainIsByLevels(t: Tree)
    ensures Drain(Enqueued(t)) == ByLevels(t)
  {
    assert AllNodes(Enqueued(t));
    DrainIsAllLevels(Enqueued(t));
    assert MaxHeight(Enqueued(t)) == Height(t) by {
      if t != Nil {
        assert Enqueued(t)[1..] == [];
      }
    }
    AllLevelsByDepth(Enqueued(t), Height(t) + 1);
    LevelsAllSingle(t, 0);
  }

  // ---- each node is visited exactly once ----

  /** The in-order visits of every subtree in a queue, one after another. */
  function InOrderAll(q: seq<Tree>): seq<Tree> {
    if q == [] then [] else InOrderForEach(q[0]) + InOrderAll(q[1..])
  }

  lemma {:induction false} InOrderAllAppend(a: seq<Tree>, b: seq<Tree>)
    ensures InOrderAll(a + b) == InOrderAll(a) + InOrderAll(b)
    decreases |a|
  {
    if a == [] {
      assert a + b == b;
    } else {
      assert (a + b)[0] == a[0];
      assert (a + b)[1..] == a[1..] + b;
      InOrderAllAppend(a[1..], b);
    }
  }

  /** Draining a queue visits exactly the nodes below it, each as often as in-order does. */
  lemma {:induction false} DrainVisitsEveryNode(q: seq<Tree>)
    ensures multiset(Drain(q)) == multiset(InOrderAll(q))
    decreases SizeAll(q), |q|
  {
    if q != [] {
      match q[0]
      case Nil =>
        DrainVisitsEveryNode(q[1..]);
      case Node(l, _, r) =>
        var rest := DrainStep(q);
        InOrderAllStep(q);
        DrainVisitsEveryNode(rest);
        var a, b, c := InOrderForEach(l), InOrderAll(q[1..]), InOrderForEach(r);
        assert multiset(InOrderAll(q)) == multiset(a) + multiset{q[0]} + multiset(c) + multiset(b);
        assert multiset(InOrderAll(rest)) == multiset(b) + multiset(a) + multiset(c);
    }
  }

  /** One step of the queue: the front node is visited and its children go to the back. */
  lemma DrainStep(q: seq<Tree>) returns (rest: seq<Tree>)
    requires q != [] && q[0].Node?
    ensures rest == q[1..] + Enqueued(q[0].left) + Enqueued(q[0].right)
    ensures AllNodes(q) ==> AllNodes(rest)
    ensures SizeAll(rest) < SizeAll(q)
    ensures Drain(q) == [q[0]] + Drain(rest)
  {
    var Node(l, _, r) := q[0];
    rest := q[1..] + Enqueued(l) + Enqueued(r);
    SizeAllAppend(q[1..], Enqueued(l));
    SizeAllAppend(q[1..] + Enqueued(l), Enqueued(r));
    EnqueuedOne(l, 0);
    EnqueuedOne(r, 0);
  }

  /** The same step, seen by the in-order visits of the queued subtrees. */
  lemma InOrderAllStep(q: seq<Tree>)
    requires q != [] && q[0].Node?
    ensures InOrderAll(q) == InOrderForEach(q[0].left) + [q[0]] + InOrderForEach(q[0].right) + InOrderAll(q[1..])
    ensures InOrderAll(q[1..] + Enqueued(q[0].left) + Enqueued(q[0].right)) ==
      InOrderAll(q[1..]) + InOrderForEach(q[0].left) + InOrderForEach(q[0].right)
  {
    var Node(l, _, r) := q[0];
    InOrderAllAppend(q[1..] + Enqueued(l), Enqueued(r));
    InOrderAllAppend(q[1..], Enqueued(l));
    EnqueuedOne(l, 0);
    EnqueuedOne(r, 0);
  }

  /** The values read while draining are those of the in-order visits, rearranged. */
  lemma {:induction false} DrainReadsEveryValue(q: seq<Tree>)
    ensures multiset(ValuesOf(Drain(q))) == multiset(ValuesOf(InOrderAll(q)))
    decreases SizeAll(q), |q|
  {
    if q != [] {
      match q[0]
      case Nil =>
        DrainReadsEveryValue(q[1..]);
        assert InOrderAll(q) == InOrderAll(q[1..]);
      case Node(l, _, r) =>
        var rest := DrainStep(q);
        InOrderAllStep(q);
        DrainReadsEveryValue(rest);
        var a, b, c := InOrderForEach(l), InOrderAll(q[1..]), InOrderForEach(r);
        ValuesOfAppend([q[0]], Drain(rest));
        ValuesOfAppend(b + a, c);
        ValuesOfAppend(b, a);
        ValuesOfAppend(a + [q[0]] + c, b);
        ValuesOfAppend(a + [q[0]], c);
        ValuesOfAppend(a, [q[0]]);
    }
  }

  /** Level by level, every node of the tree is visited exactly once, the root first. */
  lemma ByLevelsVisitsEveryNode(t: Tree)
    ensures multiset(ByLevels(t)) == multiset(InOrderForEach(t))
    ensures t != Nil ==> |ByLevels(t)| > 0 && ByLevels(t)[0] == t
  {
    DrainIsByLevels(t);
    EnqueuedOne(t, 0);
    DrainVisitsEveryNode(Enqueued(t));
    if t != Nil {
      var rest := DrainStep(Enqueued(t));
    }
  }

  /** The values read level by level are the stored values rearranged, the root's first. */
  lemma ByLevelsReadsEveryValue(t: Tree)
    ensures multiset(ValuesOf(ByLevels(t))) == multiset(Flatten(t))
    ensures t != Nil ==> |ValuesOf(ByLevels(t))| > 0 && ValuesOf(ByLevels(t))[0] == t.value
  {
    DrainIsByLevels(t);
    EnqueuedOne(t, 0);
    DrainReadsEveryValue(Enqueued(t));
    InOrderVisitsValues(t);
    if t != Nil {
      var rest := DrainStep(Enqueued(t));
      ValuesOfAppend([t], Drain(rest));
    }
  }

  lemma AppendAssociative<T>(a: seq<T>, b: seq<T>, c: seq<T>)
    ensures (a + b) + c == a + (b + c)
  {
  }
}
