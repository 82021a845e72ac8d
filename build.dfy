/**
  Tree construction (bst.js `buildTree` and `buildTreeHelper`): the input is
  deduplicated with set semantics, sorted ascending, and the sorted array is
  turned into a tree by taking the element at index floor(n/2) as the root
  and building the two halves recursively.
 */
module Build {
  import opened Trees

  predicate NoDuplicates(s: seq<int>) {
    forall i, j :: 0 <= i < j < |s| ==> s[i] != s[j]
  }

  predicate NonDecreasing(s: seq<int>) {
    forall i, j :: 0 <= i < j < |s| ==> s[i] <= s[j]
  }

  /** `[...new Set(array)]`: each value once, in order of first occurrence. */
  function Dedupe(s: seq<int>): (r: seq<int>)
    ensures NoDuplicates(r)
    ensures Elems(r) == Elems(s)
    ensures |r| <= |s|
  {
    if |s| == 0 then []
    else
      var d := Dedupe(s[..|s| - 1]);
      var x := s[|s| - 1];
      assert s == s[..|s| - 1] + [x];
      assert Elems(s) == Elems(s[..|s| - 1]) + {x};
      if x in d then d
      else
        assert Elems(d + [x]) == Elems(d) + {x};
        d + [x]
  }

  /** Places `x` into the ascending sequence `s`, before the first larger-or-equal element. */
  function InsertAscending(x: int, s: seq<int>): seq<int> {
    if s == [] then [x]
    else if x <= s[0] then [x] + s
    else [s[0]] + InsertAscending(x, s[1..])
  }

  /** Inserting adds exactly one occurrence of `x` and keeps every other element. */
  lemma {:induction false} InsertAscendingCount(x: int, s: seq<int>)
    ensures multiset(InsertAscending(x, s)) == multiset(s) + multiset{x}
  {
    if s != [] && x > s[0] {
      InsertAscendingCount(x, s[1..]);
      assert s == [s[0]] + s[1..];
      assert InsertAscending(x, s) == [s[0]] + InsertAscending(x, s[1..]);
    }
  }

  /** Inserting into an ascending sequence keeps it ascending. */
  lemma {:induction false} InsertAscendingSorted(x: int, s: seq<int>)
    requires NonDecreasing(s)
    ensures NonDecreasing(InsertAscending(x, s))
  {
    if s == [] {
    } else if x <= s[0] {
      PrependAscending(x, s);
    } else {
      var tail := s[1..];
      assert NonDecreasing(tail) by {
        forall i, j | 0 <= i < j < |tail| ensures tail[i] <= tail[j] {
          assert tail[i] == s[i + 1] && tail[j] == s[j + 1];
        }
      }
      var t := InsertAscending(x, tail);
      InsertAscendingSorted(x, tail);
      InsertAscendingCount(x, tail);
      assert forall k :: 0 <= k < |t| ==> s[0] <= t[k] by {
        forall k | 0 <= k < |t| ensures s[0] <= t[k] {
          assert t[k] in multiset(t);
          if t[k] != x {
            assert t[k] in tail;
            var m :| 0 <= m < |tail| && tail[m] == t[k];
            assert tail[m] == s[m + 1];
          }
        }
      }
      PrependAscending(s[0], t);
      assert InsertAscending(x, s) == [s[0]] + t;
    }
  }

  /** A value no larger than the head of an ascending sequence can go in front of it. */
  lemma PrependAscending(x: int, s: seq<int>)
    requires NonDecreasing(s)
    requires forall k :: 0 <= k < |s| ==> x <= s[k]
    ensures NonDecreasing([x] + s)
  {
    var r := [x] + s;
    forall i, j | 0 <= i < j < |r| ensures r[i] <= r[j] {
      assert r[j] == s[j - 1];
      if i > 0 {
        assert r[i] == s[i - 1];
      }
    }
  }

  /** The numeric sort of `buildTree`: ascending order (modelled by insertion sort). */
  function Sort(s: seq<int>): (r: seq<int>)
    ensures NonDecreasing(r)
    ensures multiset(r) == multiset(s)
  {
    if s == [] then []
    else
      assert s == [s[0]] + s[1..];
      InsertAscendingSorted(s[0], Sort(s[1..]));
      InsertAscendingCount(s[0], Sort(s[1..]));
      InsertAscending(s[0], Sort(s[1..]))
  }

  /** Sorting a duplicate-free sequence gives a strictly ascending one with the same values. */
  lemma SortDistinct(s: seq<int>)
    requires NoDuplicates(s)
    ensures StrictlyIncreasing(Sort(s))
    ensures Elems(Sort(s)) == Elems(s)
  {
    var r := Sort(s);
    forall y ensures y in Elems(r) <==> y in Elems(s) {
      assert y in r <==> y in multiset(r);
      assert y in s <==> y in multiset(s);
    }
    forall i, j | 0 <= i < j < |r| ensures r[i] < r[j] {
      if r[i] == r[j] {
        TwoOccurrences(r, i, j);
        DistinctCount(s, r[i]);
      }
    }
  }

  lemma TwoOccurrences(r: seq<int>, i: nat, j: nat)
    requires i < j < |r| && r[i] == r[j]
    ensures multiset(r)[r[i]] >= 2
  {
    assert r == r[..j] + r[j..];
    assert r[i] in r[..j];
    assert r[j] in r[j..];
  }

  lemma {:induction false} DistinctCount(s: seq<int>, y: int)
    requires NoDuplicates(s)
    ensures multiset(s)[y] <= 1
  {
    if s != [] {
      assert s == [s[0]] + s[1..];
      DistinctCount(s[1..], y);
      if s[0] == y {
        assert y !in s[1..];
      }
    }
  }

  /** `buildTreeHelper`: the middle element (index floor(n/2)) becomes the root. */
  function BuildTreeHelper(a: seq<int>): (t: Tree)
    ensures t == Nil <==> |a| == 0
  {
    if |a| == 0 then Nil
    else
      var middle := |a| / 2;
      Node(BuildTreeHelper(a[..middle]), a[middle], BuildTreeHelper(a[middle + 1..]))
  }

  /** The midpoint build keeps the order of its input: its in-order sequence is the input itself. */
  lemma {:induction false} BuildTreeHelperFlatten(a: seq<int>)
    ensures Flatten(BuildTreeHelper(a)) == a
    decreases |a|
  {
    if |a| > 0 {
      var middle := |a| / 2;
      var lo, hi := a[..middle], a[middle + 1..];
      assert BuildTreeHelper(a) == Node(BuildTreeHelper(lo), a[middle], BuildTreeHelper(hi));
      BuildTreeHelperFlatten(lo);
      BuildTreeHelperFlatten(hi);
      SplitAround(a, middle);
    }
  }

  /** A sequence is its part before index `m`, the element at `m`, and its part after. */
  lemma SplitAround(a: seq<int>, m: nat)
    requires m < |a|
    ensures a == a[..m] + [a[m]] + a[m + 1..]
  {
    assert a[..m] + [a[m]] == a[..m + 1];
  }

  /** `buildTree`: deduplicate, sort, then build. */
  function BuildTree(a: seq<int>): (t: Tree)
    ensures t == Nil <==> |a| == 0
  {
    var sorted := Sort(Dedupe(a));
    assert |sorted| == |multiset(sorted)| == |multiset(Dedupe(a))| == |Dedupe(a)|;
    assert |a| > 0 ==> a[0] in Elems(Dedupe(a));
    BuildTreeHelper(sorted)
  }

  /** Height of a midpoint-built tree of `n` nodes: floor(log2 n), and -1 for no node. */
  function MidpointHeight(n: nat): (h: int)
    ensures h >= -1
  {
    if n == 0 then -1 else 1 + MidpointHeight(n / 2)
  }

  function Pow2(k: nat): nat {
    if k == 0 then 1 else 2 * Pow2(k - 1)
  }

  /** For n > 0 the midpoint height is floor(log2 n): 2^h <= n < 2^(h+1). */
  lemma {:induction false} MidpointHeightLog(n: nat)
    requires n > 0
    ensures MidpointHeight(n) >= 0
    ensures Pow2(MidpointHeight(n)) <= n < Pow2(MidpointHeight(n) + 1)
  {
    var h := MidpointHeight(n);
    if n == 1 {
      assert h == 0;
    } else {
      var k := MidpointHeight(n / 2);
      MidpointHeightLog(n / 2);
      assert h == k + 1;
      assert Pow2(h) == 2 * Pow2(k);
      assert Pow2(h + 1) == 2 * Pow2(k + 1);
    }
  }

  lemma {:induction false} MidpointHeightMonotone(m: nat, n: nat)
    requires m <= n
    ensures MidpointHeight(m) <= MidpointHeight(n)
  {
    if m > 0 {
      MidpointHeightMonotone(m / 2, n / 2);
      assert MidpointHeight(m) == 1 + MidpointHeight(m / 2);
      assert MidpointHeight(n) == 1 + MidpointHeight(n / 2);
    }
  }

  lemma {:induction false} MidpointHeightStep(n: nat)
    ensures MidpointHeight(n + 1) <= MidpointHeight(n) + 1
  {
    if n > 0 {
      if (n + 1) / 2 == n / 2 {
        MidpointHeightMonotone(n / 2, n / 2);
      } else {
        MidpointHeightStep(n / 2);
      }
    }
  }

  /** The midpoint build has height floor(log2 n), whatever the values. */
  lemma {:induction false} BuildTreeHelperHeight(a: seq<int>)
    ensures Height(BuildTreeHelper(a)) == MidpointHeight(|a|)
    decreases |a|
  {
    if |a| > 0 {
      var middle := |a| / 2;
      var lo, hi := a[..middle], a[middle + 1..];
      var l, r := BuildTreeHelper(lo), BuildTreeHelper(hi);
      assert BuildTreeHelper(a) == Node(l, a[middle], r);
      BuildTreeHelperHeight(lo);
      BuildTreeHelperHeight(hi);
      // the right half has as many elements as the left half, or one fewer
      assert |hi| <= |lo|;
      MidpointHeightMonotone(|hi|, |lo|);
      assert Height(Node(l, a[middle], r)) == 1 + Height(l);
      assert MidpointHeight(|a|) == 1 + MidpointHeight(|lo|);
    }
  }

  /** The midpoint build is AVL-balanced, whatever the values. */
  lemma {:induction false} BuildTreeHelperBalanced(a: seq<int>)
    ensures Balanced(BuildTreeHelper(a))
    decreases |a|
  {
    if |a| > 0 {
      var middle := |a| / 2;
      var lo, hi := a[..middle], a[middle + 1..];
      var l, r := BuildTreeHelper(lo), BuildTreeHelper(hi);
      assert BuildTreeHelper(a) == Node(l, a[middle], r);
      BuildTreeHelperBalanced(lo);
      BuildTreeHelperBalanced(hi);
      BuildTreeHelperHeight(lo);
      BuildTreeHelperHeight(hi);
      var n := |hi|;
      assert |lo| == n || |lo| == n + 1;
      MidpointHeightMonotone(n, |lo|);
      MidpointHeightStep(n);
      assert MidpointHeight(|lo|) <= MidpointHeight(n) + 1;
      assert -1 <= Height(l) - Height(r) <= 1;
    }
  }

  /** The midpoint build stores exactly the values of its input. */
  lemma BuildTreeHelperContents(a: seq<int>)
    ensures Contents(BuildTreeHelper(a)) == Elems(a)
  {
    BuildTreeHelperFlatten(a);
    FlattenContents(BuildTreeHelper(a));
  }

  /** The part of a strictly ascending sequence before index `m` ascends and lies below `a[m]`. */
  lemma IncreasingBefore(a: seq<int>, m: nat)
    requires StrictlyIncreasing(a) && m < |a|
    ensures StrictlyIncreasing(a[..m])
    ensures forall y :: y in Elems(a[..m]) ==> y < a[m]
  {
    var lo := a[..m];
    forall y | y in Elems(lo) ensures y < a[m] {
      var i :| 0 <= i < |lo| && lo[i] == y;
    }
  }

  /** The part of a strictly ascending sequence from index `k` on ascends and lies above `a[k - 1]`. */
  lemma IncreasingAfter(a: seq<int>, k: nat)
    requires StrictlyIncreasing(a) && 0 < k <= |a|
    ensures StrictlyIncreasing(a[k..])
    ensures forall y :: y in Elems(a[k..]) ==> a[k - 1] < y
  {
    var hi := a[k..];
    forall i, j | 0 <= i < j < |hi| ensures hi[i] < hi[j] {
      assert hi[i] == a[k + i] && hi[j] == a[k + j];
    }
    forall y | y in Elems(hi) ensures a[k - 1] < y {
      var i :| 0 <= i < |hi| && hi[i] == y;
      assert hi[i] == a[k + i];
    }
  }

  /** The midpoint build of a strictly ascending sequence satisfies BST ordering. */
  lemma {:induction false} BuildTreeHelperOrdered(a: seq<int>)
    requires StrictlyIncreasing(a)
    ensures Ordered(BuildTreeHelper(a))
    decreases |a|
  {
    if |a| > 0 {
      var middle := |a| / 2;
      var lo, hi := a[..middle], a[middle + 1..];
      assert BuildTreeHelper(a) == Node(BuildTreeHelper(lo), a[middle], BuildTreeHelper(hi));
      IncreasingBefore(a, middle);
      IncreasingAfter(a, middle + 1);
      BuildTreeHelperOrdered(lo);
      BuildTreeHelperOrdered(hi);
      BuildTreeHelperContents(lo);
      BuildTreeHelperContents(hi);
    }
  }

  /**
    Building from any array gives a balanced search tree whose in-order sequence
    holds every input value exactly once, strictly ascending.
   */
  lemma BuildTreeCorrect(a: seq<int>)
    ensures Ordered(BuildTree(a))
    ensures Balanced(BuildTree(a))
    ensures StrictlyIncreasing(Flatten(BuildTree(a)))
    ensures Contents(BuildTree(a)) == Elems(a)
  {
    SortDistinct(Dedupe(a));
    BuildTreeHelperOrdered(Sort(Dedupe(a)));
    BuildTreeHelperFlatten(Sort(Dedupe(a)));
    FlattenContents(BuildTree(a));
    BuildTreeHelperBalanced(Sort(Dedupe(a)));
  }

  /** The in-order sequence of a built tree is the only strictly ascending listing of the input's values. */
  lemma BuildTreeSortsUnique(a: seq<int>, sorted: seq<int>)
    requires StrictlyIncreasing(sorted) && Elems(sorted) == Elems(a)
    ensures Flatten(BuildTree(a)) == sorted
  {
    BuildTreeCorrect(a);
    FlattenContents(BuildTree(a));
    IncreasingUnique(Flatten(BuildTree(a)), sorted);
  }
}
