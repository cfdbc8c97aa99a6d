/** Successor and predecessor queries on the tree value, following the
    recursive helpers `find_successor` and `find_predecessor` of
    linkedbst.py: a descent that remembers the best candidate seen on the
    way, and a walk to the extreme node of a subtree when x itself is met. */
module Neighbours {
  import opened Options
  import opened BinaryTrees

  /** The item of the leftmost node of t. */
  function Leftmost(t: Tree): (v: int)
    requires t != Leaf
    ensures v in Items(t)
  {
    if t.left == Leaf then t.data else Leftmost(t.left)
  }

  /** The item of the rightmost node of t. */
  function Rightmost(t: Tree): (v: int)
    requires t != Leaf
    ensures v in Items(t)
  {
    if t.right == Leaf then t.data else Rightmost(t.right)
  }

  lemma {:induction false} LeftmostIsLeast(t: Tree)
    requires t != Leaf && Ordered(t)
    ensures AllAtLeast(Items(t), Leftmost(t))
  {
    if t.left != Leaf {
      LeftmostIsLeast(t.left);
    }
  }

  lemma {:induction false} RightmostIsGreatest(t: Tree)
    requires t != Leaf && Ordered(t)
    ensures AllAtMost(Items(t), Rightmost(t))
  {
    if t.right != Leaf {
      RightmostIsGreatest(t.right);
    }
  }

  /** `find_successor(node, item, successor_value)`: best is the candidate
      left by the ancestors (the item of the last node where the descent
      went left). */
  function SuccessorFrom(t: Tree, x: int, best: Option<int>): (r: Option<int>)
    ensures r == best || (r.Some? && r.value in Items(t))
  {
    match t
    case Leaf => best
    case Node(l, d, r) =>
      if x < d then SuccessorFrom(l, x, Some(d))
      else if x > d then SuccessorFrom(r, x, best)
      else if r != Leaf then Some(Leftmost(r))
      else best
  }

  /** `find_predecessor(node, item, predecessor_value)`, the mirror image. */
  function PredecessorFrom(t: Tree, x: int, best: Option<int>): (r: Option<int>)
    ensures r == best || (r.Some? && r.value in Items(t))
  {
    match t
    case Leaf => best
    case Node(l, d, r) =>
      if x < d then PredecessorFrom(l, x, best)
      else if x > d then PredecessorFrom(r, x, Some(d))
      else if l != Leaf then Some(Rightmost(l))
      else best
  }

  /** v is the smallest element of s that is greater than x. */
  ghost predicate LeastAbove(s: set<int>, x: int, v: int) {
    v in s && x < v && forall y :: y in s && x < y ==> v <= y
  }

  /** v is the largest element of s that is smaller than x. */
  ghost predicate GreatestBelow(s: set<int>, x: int, v: int) {
    v in s && v < x && forall y :: y in s && y < x ==> y <= v
  }

  /** On a tree of distinct items the descent finds the least item above x;
      when there is none it returns the candidate it was given, which is
      above x and above every item of t. */
  lemma {:induction false} SuccessorFromCorrect(t: Tree, x: int, best: Option<int>)
    requires StrictOrdered(t)
    requires best.Some? ==> x < best.value && forall y :: y in Items(t) ==> y < best.value
    ensures AllAtMost(Items(t), x) ==> SuccessorFrom(t, x, best) == best
    ensures !AllAtMost(Items(t), x) ==>
      SuccessorFrom(t, x, best).Some? && LeastAbove(Items(t), x, SuccessorFrom(t, x, best).value)
  {
    match t
    case Leaf =>
    case Node(l, d, r) =>
      assert Items(l) <= Items(t) && Items(r) <= Items(t);
      if x < d {
        SuccessorFromCorrect(l, x, Some(d));
      } else if x > d {
        SuccessorFromCorrect(r, x, best);
      } else if r != Leaf {
        StrictOrderedIsOrdered(r);
        LeftmostIsLeast(r);
      }
  }

  lemma {:induction false} PredecessorFromCorrect(t: Tree, x: int, best: Option<int>)
    requires StrictOrdered(t)
    requires best.Some? ==> best.value < x && forall y :: y in Items(t) ==> best.value < y
    ensures AllAtLeast(Items(t), x) ==> PredecessorFrom(t, x, best) == best
    ensures !AllAtLeast(Items(t), x) ==>
      PredecessorFrom(t, x, best).Some? && GreatestBelow(Items(t), x, PredecessorFrom(t, x, best).value)
  {
    match t
    case Leaf =>
    case Node(l, d, r) =>
      assert Items(l) <= Items(t) && Items(r) <= Items(t);
      if x < d {
        PredecessorFromCorrect(l, x, best);
      } else if x > d {
        PredecessorFromCorrect(r, x, Some(d));
      } else if l != Leaf {
        StrictOrderedIsOrdered(l);
        RightmostIsGreatest(l);
      }
  }

  /** `successor(item)` on a tree of distinct items: the least stored item
      greater than x, or None exactly when no stored item is greater. This
      holds whether or not x itself is stored. */
  lemma SuccessorIsLeastAbove(t: Tree, x: int)
    requires StrictOrdered(t)
    ensures SuccessorFrom(t, x, None).None? <==> AllAtMost(Items(t), x)
    ensures SuccessorFrom(t, x, None).Some? ==> LeastAbove(Items(t), x, SuccessorFrom(t, x, None).value)
  {
    SuccessorFromCorrect(t, x, None);
  }

  /** `predecessor(item)` on a tree of distinct items: the greatest stored
      item smaller than x, or None exactly when no stored item is smaller. */
  lemma PredecessorIsGreatestBelow(t: Tree, x: int)
    requires StrictOrdered(t)
    ensures PredecessorFrom(t, x, None).None? <==> AllAtLeast(Items(t), x)
    ensures PredecessorFrom(t, x, None).Some? ==> GreatestBelow(Items(t), x, PredecessorFrom(t, x, None).value)
  {
    PredecessorFromCorrect(t, x, None);
  }

  /** With duplicates the promise fails: adding 5 twice gives a root 5 with a
      right child 5, and the successor of 5 is then 5 itself. */
  lemma SuccessorWithDuplicates()
    ensures InsertAll(Leaf, [5, 5]) == Node(Leaf, 5, Node(Leaf, 5, Leaf))
    ensures Ordered(InsertAll(Leaf, [5, 5]))
    ensures SuccessorFrom(InsertAll(Leaf, [5, 5]), 5, None) == Some(5)
  {
    assert [5, 5][..1] == [5];
    assert [5][..0] == [];
  }
}
