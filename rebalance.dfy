/** The tree that `rebalance` builds: `create_tree` adds the middle item of
    the sorted list, then recursively the items left of it and right of it.
    On distinct items that is the perfectly balanced tree over the list. */
module Rebalancing {
  import opened Sequences
  import opened Arith
  import opened BinaryTrees

  /** The order in which `create_tree(nodes_list)` adds the items. */
  function Medians(s: seq<int>): seq<int>
    decreases |s|
  {
    if s == [] then []
    else
      var mid := |s| / 2;
      [s[mid]] + Medians(s[..mid]) + Medians(s[mid + 1..])
  }

  /** `create_tree` adds every item of its list exactly once. */
  lemma {:induction false} MediansPermutation(s: seq<int>)
    ensures multiset(Medians(s)) == multiset(s)
    decreases |s|
  {
    if s != [] {
      var mid := |s| / 2;
      var left, m, right := s[..mid], s[mid], s[mid + 1..];
      calc {
        multiset(Medians(s));
        multiset([m] + Medians(left) + Medians(right));
        multiset([m]) + multiset(Medians(left)) + multiset(Medians(right));
        { MediansPermutation(left); MediansPermutation(right); }
        multiset([m]) + multiset(left) + multiset(right);
        multiset(left + [m] + right);
        { assert left + [m] + right == s; }
        multiset(s);
      }
    }
  }

  /** A bound on every item of a list bounds every item that `create_tree`
      adds. */
  lemma MediansBelow(s: seq<int>, m: int)
    requires forall i :: 0 <= i < |s| ==> s[i] < m
    ensures forall i :: 0 <= i < |Medians(s)| ==> Medians(s)[i] < m
  {
    MediansPermutation(s);
    forall i | 0 <= i < |Medians(s)| ensures Medians(s)[i] < m {
      assert Medians(s)[i] in multiset(s);
    }
  }

  lemma MediansAbove(s: seq<int>, m: int)
    requires forall i :: 0 <= i < |s| ==> m <= s[i]
    ensures forall i :: 0 <= i < |Medians(s)| ==> m <= Medians(s)[i]
  {
    MediansPermutation(s);
    forall i | 0 <= i < |Medians(s)| ensures m <= Medians(s)[i] {
      assert Medians(s)[i] in multiset(s);
    }
  }

  /** The tree with the middle item of s at the root and the two halves
      below it, built the same way. */
  function Balanced(s: seq<int>): Tree
    decreases |s|
  {
    if s == [] then Leaf
    else
      var mid := |s| / 2;
      Node(Balanced(s[..mid]), s[mid], Balanced(s[mid + 1..]))
  }

  lemma {:induction false} InsertAllAppend(t: Tree, a: seq<int>, b: seq<int>)
    ensures InsertAll(t, a + b) == InsertAll(InsertAll(t, a), b)
    decreases |b|
  {
    if b == [] {
      assert a + b == a;
    } else {
      assert (a + b)[..|a + b| - 1] == a + b[..|b| - 1];
      InsertAllAppend(t, a, b[..|b| - 1]);
    }
  }

  /** Items smaller than the root item all go into the left subtree. */
  lemma {:induction false} InsertAllLeft(l: Tree, d: int, r: Tree, a: seq<int>)
    requires forall i :: 0 <= i < |a| ==> a[i] < d
    ensures InsertAll(Node(l, d, r), a) == Node(InsertAll(l, a), d, r)
    decreases |a|
  {
    if a != [] {
      InsertAllLeft(l, d, r, a[..|a| - 1]);
    }
  }

  /** Items not smaller than the root item all go into the right subtree. */
  lemma {:induction false} InsertAllRight(l: Tree, d: int, r: Tree, a: seq<int>)
    requires forall i :: 0 <= i < |a| ==> d <= a[i]
    ensures InsertAll(Node(l, d, r), a) == Node(l, d, InsertAll(r, a))
    decreases |a|
  {
    if a != [] {
      InsertAllRight(l, d, r, a[..|a| - 1]);
    }
  }

  /** Adding the items of a strictly sorted list in the order of
      `create_tree` builds the balanced tree over the list. */
  lemma {:induction false} MediansBuildBalanced(s: seq<int>)
    requires StrictlySorted(s)
    ensures InsertAll(Leaf, Medians(s)) == Balanced(s)
    decreases |s|
  {
    if s != [] {
      var mid := |s| / 2;
      var left, m, right := s[..mid], s[mid], s[mid + 1..];
      var ml, mr := Medians(left), Medians(right);
      InsertAllMedians(Leaf, s);
      assert InsertAll(Node(Leaf, m, Leaf), ml) == Node(Balanced(left), m, Leaf) by {
        assert forall i :: 0 <= i < |left| ==> left[i] < m;
        MediansBelow(left, m);
        InsertAllLeft(Leaf, m, Leaf, ml);
        StrictlySortedSlices(s, 0, mid);
        MediansBuildBalanced(left);
      }
      assert InsertAll(Node(Balanced(left), m, Leaf), mr) == Balanced(s) by {
        assert forall i :: 0 <= i < |right| ==> m <= right[i];
        MediansAbove(right, m);
        InsertAllRight(Balanced(left), m, Leaf, mr);
        StrictlySortedSlices(s, mid + 1, |s|);
        MediansBuildBalanced(right);
      }
    }
  }


  /** The balanced tree lists the list again in order. */
  lemma {:induction false} BalancedInOrder(s: seq<int>)
    ensures InOrder(Balanced(s)) == s
    decreases |s|
  {
    if s != [] {
      var mid := |s| / 2;
      BalancedInOrder(s[..mid]);
      BalancedInOrder(s[mid + 1..]);
      assert s == s[..mid] + [s[mid]] + s[mid + 1..];
    }
  }

  /** Every node's left subtree has as many nodes as its right one, or one
      more. */
  ghost predicate LeftHeavy(t: Tree) {
    match t
    case Leaf => true
    case Node(l, _, r) => Size(r) <= Size(l) <= Size(r) + 1 && LeftHeavy(l) && LeftHeavy(r)
  }

  lemma {:induction false} BalancedIsLeftHeavy(s: seq<int>)
    ensures Size(Balanced(s)) == |s|
    ensures LeftHeavy(Balanced(s))
    decreases |s|
  {
    if s != [] {
      var mid := |s| / 2;
      BalancedIsLeftHeavy(s[..mid]);
      BalancedIsLeftHeavy(s[mid + 1..]);
    }
  }

  /** A left-heavy tree has the least height its size allows. */
  lemma {:induction false} LeftHeavyHeight(t: Tree)
    requires LeftHeavy(t)
    ensures TreeHeight(t) == MinHeight(Size(t))
  {
    match t
    case Leaf =>
    case Node(l, _, r) =>
      LeftHeavyHeight(l);
      LeftHeavyHeight(r);
      MinHeightOfParts(Size(l), Size(r));
  }


  /** The balanced tree has the least height any tree with |s| nodes can
      have. */
  lemma BalancedHeight(s: seq<int>)
    ensures Size(Balanced(s)) == |s|
    ensures TreeHeight(Balanced(s)) == MinHeight(|s|)
  {
    BalancedIsLeftHeavy(s);
    LeftHeavyHeight(Balanced(s));
  }

  /** Adding the items of a non-empty list in the order of `create_tree`:
      the middle item, then the items before it, then the items after it. */
  lemma InsertAllMedians(t: Tree, s: seq<int>)
    requires s != []
    ensures InsertAll(t, Medians(s))
         == InsertAll(InsertAll(Insert(t, s[|s| / 2]), Medians(s[..|s| / 2])), Medians(s[|s| / 2 + 1..]))
  {
    var mid := |s| / 2;
    assert InsertAll(t, [s[mid]]) == Insert(t, s[mid]) by {
      assert [s[mid]][..0] == [];
    }
    InsertAllAppend(t, [s[mid]] + Medians(s[..mid]), Medians(s[mid + 1..]));
    InsertAllAppend(t, [s[mid]], Medians(s[..mid]));
  }

  /** What `rebalance` builds from a tree t: the items of t collected in
      preorder, sorted, and added to an empty tree in the order of
      `create_tree`. It holds the same items as t and is ordered; when no
      item of t is stored twice it is the balanced tree over the sorted
      items, lists them again in order and has the least height possible. */
  lemma RebuildFacts(t: Tree)
    ensures Elems(InsertAll(Leaf, Medians(SortSeq(PreOrder(t))))) == Elems(t)
    ensures Size(InsertAll(Leaf, Medians(SortSeq(PreOrder(t))))) == Size(t)
    ensures Ordered(InsertAll(Leaf, Medians(SortSeq(PreOrder(t)))))
    ensures NoDuplicates(Elems(t)) ==>
      var sorted := SortSeq(PreOrder(t));
      InsertAll(Leaf, Medians(sorted)) == Balanced(sorted)
      && InOrder(Balanced(sorted)) == sorted
      && TreeHeight(Balanced(sorted)) == MinHeight(Size(t))
  {
    var sorted := SortSeq(PreOrder(t));
    var u := InsertAll(Leaf, Medians(sorted));
    PreOrderElems(t);
    MediansPermutation(sorted);
    InsertAllElems(Leaf, Medians(sorted));
    InsertAllOrdered(Leaf, Medians(sorted));
    SizeIsCardinality(u);
    SizeIsCardinality(t);
    if NoDuplicates(Elems(t)) {
      SortedDistinctIsStrict(sorted);
      MediansBuildBalanced(sorted);
      BalancedInOrder(sorted);
      BalancedHeight(sorted);
    }
  }
}
