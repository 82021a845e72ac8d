/**
  The `Tree` class of bst.js: one mutable link to the root node, and the
  operations that walk down from it with loops.

  The node structure is a value (`Trees.Tree`). Where the source keeps the
  parent (and the successor's parent) while it descends, the loops here keep
  the whole descent path; where it writes `parent.left`, `parent.right` or
  `this.root`, the model assigns `root := Plug(path, newSubtree)`, which is
  the old tree with exactly that link replaced. Each loop is proved against
  a recursive reference function from `Edits` or `Levels`, whose own lemmas
  carry the set and order properties.
 */
module SearchTrees {
  import opened Trees
  import opened Build
  import opened Measures
  import opened Edits
  import opened Traversals
  import opened Levels

  /** `insert` returns the tree, or `undefined` when the value is already stored. */
  datatype InsertOutcome = Added | AlreadyPresent

  /** `delete` returns the tree, `undefined` on an empty tree, or `false` when the value is absent. */
  datatype DeleteOutcome = Removed | EmptyTree | NotFound

  /** `find` returns the matching node, or `false`. */
  datatype FindOutcome = Found(node: Tree) | Absent

  /** `traverse` inside `inOrder`: pushes the values below `node` onto `result`, in order. */
  method AppendInOrder(node: Tree, result: seq<int>) returns (pushed: seq<int>)
    ensures pushed == result + Flatten(node)
    decreases node
  {
    if node == Nil {
      return result;
    }
    pushed := AppendInOrder(node.left, result);
    pushed := pushed + [node.value];
    pushed := AppendInOrder(node.right, pushed);
  }

  class SearchTree {
    var root: Tree

    /** BST ordering holds at all times; duplicates are therefore impossible. */
    ghost predicate Valid()
      reads this
    {
      Ordered(root)
    }

    /** `new Tree(array)`: the balanced tree over the array's distinct values. */
    constructor (items: seq<int>)
      ensures Valid()
      ensures root == BuildTree(items)
      ensures Balanced(root)
      ensures Contents(root) == Elems(items)
      ensures StrictlyIncreasing(Flatten(root))
    {
      root := BuildTree(items);
      BuildTreeCorrect(items);
    }

    /** `insert`: descends from the root and hangs a new leaf where the search falls off. */
    method Insert(value: int) returns (outcome: InsertOutcome)
      requires Valid()
      modifies this
      ensures Valid()
      ensures root == Inserted(old(root), value)
      ensures Contents(root) == old(Contents(root)) + {value}
      ensures outcome == (if value in old(Contents(root)) then AlreadyPresent else Added)
      ensures outcome == AlreadyPresent ==> root == old(root)
    {
      InsertedCorrect(root, value);
      var newNode := Node(Nil, value, Nil);
      if root == Nil {
        root := newNode;
        return Added;
      }
      var current := root;
      var path: seq<Frame> := [];
      while true
        invariant root == old(root)
        invariant current != Nil && Ordered(current)
        invariant Plug(path, current) == root
        invariant Plug(path, Inserted(current, value)) == Inserted(root, value)
        invariant value in Contents(root) <==> value in Contents(current)
        decreases current
      {
        if value == current.value {
          return AlreadyPresent;
        }
        if value < current.value {
          if current.left == Nil {
            // hang the new leaf as the left child
            root := Plug(path, Node(newNode, current.value, current.right));
            return Added;
          }
          PlugExtend(path, WentLeft(current.value, current.right), current.left);
          PlugExtend(path, WentLeft(current.value, current.right), Inserted(current.left, value));
          path := path + [WentLeft(current.value, current.right)];
          current := current.left;
        } else {
          if current.right == Nil {
            // hang the new leaf as the right child
            root := Plug(path, Node(current.left, current.value, newNode));
            return Added;
          }
          PlugExtend(path, WentRight(current.left, current.value), current.right);
          PlugExtend(path, WentRight(current.left, current.value), Inserted(current.right, value));
          path := path + [WentRight(current.left, current.value)];
          current := current.right;
        }
      }
    }

    /**
      `delete`: descends from the root keeping the parent; a leaf is unlinked,
      a node with one child is replaced by it, and a node with two children
      takes the value of its in-order successor, which is spliced out.
     */
    method Delete(value: int) returns (outcome: DeleteOutcome)
      requires Valid()
      modifies this
      ensures Valid()
      ensures root == Deleted(old(root), value)
      ensures Contents(root) == old(Contents(root)) - {value}
      ensures outcome == (if old(root) == Nil then EmptyTree
                          else if value in old(Contents(root)) then Removed
                          else NotFound)
      ensures outcome != Removed ==> root == old(root)
    {
      DeletedCorrect(root, value);
      DeletedSize(root, value);
      if root == Nil {
        return EmptyTree;
      }
      var current := root;
      var path: seq<Frame> := [];
      while current != Nil
        invariant root == old(root)
        invariant Ordered(current)
        invariant Plug(path, current) == root
        invariant Plug(path, Deleted(current, value)) == Deleted(root, value)
        invariant value in Contents(root) <==> value in Contents(current)
        decreases current
      {
        if value < current.value {
          PlugExtend(path, WentLeft(current.value, current.right), current.left);
          PlugExtend(path, WentLeft(current.value, current.right), Deleted(current.left, value));
          path := path + [WentLeft(current.value, current.right)];
          current := current.left;
        } else if value > current.value {
          PlugExtend(path, WentRight(current.left, current.value), current.right);
          PlugExtend(path, WentRight(current.left, current.value), Deleted(current.right, value));
          path := path + [WentRight(current.left, current.value)];
          current := current.right;
        } else {
          // leaf
          if current.left == Nil && current.right == Nil {
            root := Plug(path, Nil);
            return Removed;
          }
          // one child
          if current.left == Nil || current.right == Nil {
            var child := if current.left != Nil then current.left else current.right;
            root := Plug(path, child);
            return Removed;
          }
          // two children: the leftmost node of the right subtree, with the left turns taken to reach it
          var successor := current.right;
          var successorPath: seq<Frame> := [];
          while successor.left != Nil
            invariant successor != Nil
            invariant Min(current.right) == Min(successor)
            invariant RemoveMin(current.right) == Plug(successorPath, RemoveMin(successor))
            decreases successor
          {
            PlugExtend(successorPath, WentLeft(successor.value, successor.right), RemoveMin(successor.left));
            successorPath := successorPath + [WentLeft(successor.value, successor.right)];
            successor := successor.left;
          }
          var newRight;
          if successorPath != [] {
            // the successor's parent adopts the successor's right child
            newRight := Plug(successorPath, successor.right);
          } else {
            // the successor was the right child: its right child takes its place
            newRight := successor.right;
          }
          // the matched node keeps its place and takes the successor's value
          root := Plug(path, Node(current.left, successor.value, newRight));
          return Removed;
        }
      }
      return NotFound;
    }

    /** `find`: descends from the root; never changes the tree. */
    method Find(value: int) returns (outcome: FindOutcome)
      requires Valid()
      ensures outcome.Found? <==> value in Contents(root)
      ensures outcome.Found? ==> outcome.node in Nodes(root) && outcome.node.Node? && outcome.node.value == value
      ensures outcome.Found? ==> Depth(outcome.node, root, 0) == SearchDepth(root, value)
    {
      if root == Nil {
        return Absent;
      }
      var current := root;
      while current != Nil
        invariant Ordered(current)
        invariant current != Nil ==> current in Nodes(root)
        invariant value in Contents(root) <==> value in Contents(current)
        decreases current
      {
        NodesWithin(root, current);
        if value == current.value {
          DepthFollowsSearchPath(root, current, 0);
          return Found(current);
        }
        if value < current.value {
          current := current.left;
        } else {
          current := current.right;
        }
      }
      return Absent;
    }

    /** `levelOrderForEach`: the nodes handed to the visitor, breadth first. */
    method LevelOrderForEach() returns (visits: seq<Tree>)
      ensures visits == ByLevels(root)
    {
      var queue: seq<Tree> := [];
      if root != Nil {
        queue := queue + [root];
      }
      assert queue == Enqueued(root);
      visits := [];
      while |queue| > 0
        invariant AllNodes(queue)
        invariant visits + Drain(queue) == Drain(Enqueued(root))
        decreases SizeAll(queue)
      {
        var rest := DrainStep(queue);
        var current := queue[0];
        AppendAssociative(visits, [current], Drain(rest));
        queue := queue[1..];
        visits := visits + [current];
        if current.left != Nil {
          queue := queue + [current.left];
        }
        if current.right != Nil {
          queue := queue + [current.right];
        }
        assert queue == rest;
      }
      DrainIsByLevels(root);
    }

    /** `levelOrder`: the stored values, breadth first. */
    method LevelOrder() returns (result: seq<int>)
      ensures result == ValuesOf(ByLevels(root))
    {
      var queue: seq<Tree> := [];
      if root != Nil {
        queue := queue + [root];
      }
      assert queue == Enqueued(root);
      result := [];
      while |queue| > 0
        invariant AllNodes(queue)
        invariant result + ValuesOf(Drain(queue)) == ValuesOf(Drain(Enqueued(root)))
        decreases SizeAll(queue)
      {
        var rest := DrainStep(queue);
        var node := queue[0];
        ValuesOfAppend([node], Drain(rest));
        AppendAssociative(result, [node.value], ValuesOf(Drain(rest)));
        queue := queue[1..];
        result := result + [node.value];
        if node.left != Nil {
          queue := queue + [node.left];
        }
        if node.right != Nil {
          queue := queue + [node.right];
        }
        assert queue == rest;
      }
      DrainIsByLevels(root);
    }

    /** `inOrder`: the stored values in in-order, ascending. */
    method InOrder() returns (result: seq<int>)
      requires Valid()
      ensures result == Flatten(root)
      ensures StrictlyIncreasing(result)
      ensures Elems(result) == Contents(root)
    {
      result := AppendInOrder(root, []);
      FlattenIncreasing(root);
      FlattenContents(root);
    }

    /** `rebalance`: rebuilds the tree from its in-order values with the midpoint build. */
    method Rebalance()
      requires Valid()
      modifies this
      ensures Valid()
      ensures root == BuildTreeHelper(old(Flatten(root)))
      ensures Balanced(root)
      ensures Flatten(root) == old(Flatten(root))
      ensures Contents(root) == old(Contents(root))
    {
      var values := InOrder();
      root := BuildTreeHelper(values);
      BuildTreeHelperFlatten(values);
      BuildTreeHelperBalanced(values);
      BuildTreeHelperOrdered(values);
      FlattenContents(root);
    }
  }
}
