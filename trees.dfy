/** Pure binary trees of integer items: the value that the node graph of a
    linked binary search tree denotes, and reference definitions of its
    operations, each following the comparisons of the linked code. */
module BinaryTrees {
  import opened Options
  import opened Sequences
  import opened Arith

  datatype Tree = Leaf | Node(left: Tree, data: int, right: Tree)

  /** The items stored in t, with multiplicity. */
  function Elems(t: Tree): multiset<int> {
    match t
    case Leaf => multiset{}
    case Node(l, d, r) => Elems(l) + multiset{d} + Elems(r)
  }

  /** The items stored in t, as a set. */
  function Items(t: Tree): set<int> {
    match t
    case Leaf => {}
    case Node(l, d, r) => Items(l) + {d} + Items(r)
  }

  lemma {:induction false} ItemsAreElems(t: Tree)
    ensures forall y :: y in Items(t) <==> y in Elems(t)
  {
    match t
    case Leaf =>
    case Node(l, d, r) =>
      ItemsAreElems(l);
      ItemsAreElems(r);
  }

  /** Number of nodes. */
  function Size(t: Tree): nat {
    match t
    case Leaf => 0
    case Node(l, _, r) => Size(l) + 1 + Size(r)
  }

  /** The node count is the number of stored items. */
  lemma {:induction false} SizeIsCardinality(t: Tree)
    ensures Size(t) == |Elems(t)|
  {
    match t
    case Leaf =>
    case Node(l, _, r) =>
      SizeIsCardinality(l);
      SizeIsCardinality(r);
  }

  /** The tree with every item erased: its links alone. */
  function Skeleton(t: Tree): Tree {
    match t
    case Leaf => Leaf
    case Node(l, _, r) => Node(Skeleton(l), 0, Skeleton(r))
  }

  ghost predicate AllAtMost(s: set<int>, v: int) {
    forall y :: y in s ==> y <= v
  }

  ghost predicate AllAtLeast(s: set<int>, v: int) {
    forall y :: y in s ==> v <= y
  }

  /** The ordering invariant kept by insertion and deletion: every item of a
      left subtree is at most the node's item, every item of a right subtree
      at least it. Equal items may sit on either side. */
  ghost predicate Ordered(t: Tree) {
    match t
    case Leaf => true
    case Node(l, d, r) =>
      Ordered(l) && Ordered(r) && AllAtMost(Items(l), d) && AllAtLeast(Items(r), d)
  }

  /** The ordering of a tree of distinct items: left items smaller, right
      items greater. */
  ghost predicate StrictOrdered(t: Tree) {
    match t
    case Leaf => true
    case Node(l, d, r) =>
      && StrictOrdered(l) && StrictOrdered(r)
      && AllAtMost(Items(l), d) && d !in Items(l)
      && AllAtLeast(Items(r), d) && d !in Items(r)
  }

  lemma {:induction false} StrictOrderedIsOrdered(t: Tree)
    requires StrictOrdered(t)
    ensures Ordered(t)
    ensures NoDuplicates(Elems(t))
  {
    match t
    case Leaf =>
    case Node(l, d, r) =>
      StrictOrderedIsOrdered(l);
      StrictOrderedIsOrdered(r);
      ItemsAreElems(l);
      ItemsAreElems(r);
      forall v ensures Elems(t)[v] <= 1 {
        if v <= d { assert v !in Items(r); }
        if v >= d { assert v !in Items(l); }
      }
  }

  /** The converse: an ordered tree that stores no item twice is strictly
      ordered. */
  lemma {:induction false} OrderedDistinctIsStrict(t: Tree)
    requires Ordered(t) && NoDuplicates(Elems(t))
    ensures StrictOrdered(t)
  {
    match t
    case Leaf =>
    case Node(l, d, r) =>
      forall v ensures Elems(l)[v] <= 1 && Elems(r)[v] <= 1 {
        assert Elems(t)[v] == Elems(l)[v] + multiset{d}[v] + Elems(r)[v];
      }
      OrderedDistinctIsStrict(l);
      OrderedDistinctIsStrict(r);
      ItemsAreElems(l);
      ItemsAreElems(r);
      assert Elems(t)[d] == Elems(l)[d] + 1 + Elems(r)[d];
  }

  // Multiset bookkeeping for a change inside one subtree

  lemma ExchangeInLeft(a: multiset<int>, a': multiset<int>, c: multiset<int>, d: int, x: int, y: int)
    requires a' + multiset{x} == a + multiset{y}
    ensures a' + multiset{d} + c + multiset{x} == a + multiset{d} + c + multiset{y}
  {
    calc {
      a' + multiset{d} + c + multiset{x};
      (a' + multiset{x}) + multiset{d} + c;
      (a + multiset{y}) + multiset{d} + c;
      a + multiset{d} + c + multiset{y};
    }
  }

  lemma ExchangeInRight(c: multiset<int>, a: multiset<int>, a': multiset<int>, d: int, x: int, y: int)
    requires a' + multiset{x} == a + multiset{y}
    ensures c + multiset{d} + a' + multiset{x} == c + multiset{d} + a + multiset{y}
  {
    calc {
      c + multiset{d} + a' + multiset{x};
      (a' + multiset{x}) + multiset{d} + c;
      (a + multiset{y}) + multiset{d} + c;
      c + multiset{d} + a + multiset{y};
    }
  }

  lemma TakeFromLeft(a: multiset<int>, a': multiset<int>, c: multiset<int>, d: int, x: int)
    requires a == a' + multiset{x}
    ensures a + multiset{d} + c == a' + multiset{d} + c + multiset{x}
  {
    calc {
      a + multiset{d} + c;
      (a' + multiset{x}) + multiset{d} + c;
      a' + multiset{d} + c + multiset{x};
    }
  }

  lemma TakeFromRight(c: multiset<int>, a: multiset<int>, a': multiset<int>, d: int, x: int)
    requires a == a' + multiset{x}
    ensures c + multiset{d} + a == c + multiset{d} + a' + multiset{x}
  {
    calc {
      c + multiset{d} + a;
      c + multiset{d} + (a' + multiset{x});
      c + multiset{d} + a' + multiset{x};
    }
  }

  lemma LiftIntoRoot(a: multiset<int>, a': multiset<int>, c: multiset<int>, d: int, m: int)
    requires a == a' + multiset{m}
    ensures a + multiset{d} + c == a' + multiset{m} + c + multiset{d}
  {
    calc {
      a + multiset{d} + c;
      (a' + multiset{m}) + multiset{d} + c;
      a' + multiset{m} + c + multiset{d};
    }
  }

  // Search (LinkedBST.find)

  /** Walks from the root: an equal item is the answer, a smaller query goes
      left, any other goes right; falling off the tree gives None. */
  function Search(t: Tree, x: int): (found: Option<int>)
    ensures found.Some? ==> found.value == x && x in Items(t)
  {
    match t
    case Leaf => None
    case Node(l, d, r) =>
      if x == d then Some(d)
      else if x < d then Search(l, x)
      else Search(r, x)
  }

  /** On an ordered tree the search path is enough: the item is found exactly
      when it is stored. */
  lemma {:induction false} SearchComplete(t: Tree, x: int)
    requires Ordered(t)
    ensures Search(t, x).Some? <==> x in Items(t)
  {
    match t
    case Leaf =>
    case Node(l, d, r) =>
      if x < d {
        SearchComplete(l, x);
      } else if x > d {
        SearchComplete(r, x);
      }
  }

  // Insertion (LinkedBST.add)

  /** Places x in a new leaf: smaller items go left, all others right. */
  function Insert(t: Tree, x: int): (u: Tree)
  {
    match t
    case Leaf => Node(Leaf, x, Leaf)
    case Node(l, d, r) =>
      if x < d then
        var l' := Insert(l, x);
        Node(l', d, r)
      else
        var r' := Insert(r, x);
        Node(l, d, r')
  }

  /** Insertion adds exactly one occurrence of x. */
  lemma {:induction false} InsertElems(t: Tree, x: int)
    ensures Elems(Insert(t, x)) == Elems(t) + multiset{x}
  {
    match t
    case Leaf =>
    case Node(l, d, r) =>
      if x < d { InsertElems(l, x); } else { InsertElems(r, x); }
  }

  lemma {:induction false} InsertItems(t: Tree, x: int)
    ensures Items(Insert(t, x)) == Items(t) + {x}
  {
    match t
    case Leaf =>
    case Node(l, d, r) =>
      if x < d { InsertItems(l, x); } else { InsertItems(r, x); }
  }

  lemma {:induction false} InsertOrdered(t: Tree, x: int)
    requires Ordered(t)
    ensures Ordered(Insert(t, x))
  {
    match t
    case Leaf =>
    case Node(l, d, r) =>
      if x < d { InsertOrdered(l, x); InsertItems(l, x); } else { InsertOrdered(r, x); InsertItems(r, x); }
  }

  /** Whatever the tree, the search for a just-inserted item succeeds: it
      follows the insertion path until it meets an equal item. */
  lemma {:induction false} SearchAfterInsert(t: Tree, x: int)
    ensures Search(Insert(t, x), x) == Some(x)
  {
    match t
    case Leaf =>
    case Node(l, d, r) =>
      if x < d { SearchAfterInsert(l, x); }
      else if x > d { SearchAfterInsert(r, x); }
  }

  lemma {:induction false} InsertSize(t: Tree, x: int)
    ensures Size(Insert(t, x)) == Size(t) + 1
  {
    match t
    case Leaf =>
    case Node(l, d, r) =>
      if x < d {
        InsertSize(l, x);
      } else {
        InsertSize(r, x);
      }
  }

  /** Inserts the items of s one after another (the constructor's loop). */
  function InsertAll(t: Tree, s: seq<int>): Tree
    decreases |s|
  {
    if s == [] then t else Insert(InsertAll(t, s[..|s| - 1]), s[|s| - 1])
  }

  lemma {:induction false} InsertAllElems(t: Tree, s: seq<int>)
    ensures Elems(InsertAll(t, s)) == Elems(t) + multiset(s)
    decreases |s|
  {
    if s != [] {
      var init, last := s[..|s| - 1], s[|s| - 1];
      calc {
        Elems(InsertAll(t, s));
        { InsertElems(InsertAll(t, init), last); }
        Elems(InsertAll(t, init)) + multiset{last};
        { InsertAllElems(t, init); }
        Elems(t) + multiset(init) + multiset{last};
        { assert s == init + [last]; }
        Elems(t) + multiset(s);
      }
    }
  }

  lemma {:induction false} InsertAllOrdered(t: Tree, s: seq<int>)
    requires Ordered(t)
    ensures Ordered(InsertAll(t, s))
    decreases |s|
  {
    if s != [] {
      InsertAllOrdered(t, s[..|s| - 1]);
      InsertOrdered(InsertAll(t, s[..|s| - 1]), s[|s| - 1]);
    }
  }

  // Deletion (LinkedBST.remove)

  /** Detaches the rightmost node of a non-empty tree and returns the
      remaining tree with that node's item. */
  function RemoveMax(t: Tree): (res: (Tree, int))
    requires t != Leaf
    ensures Items(t) == Items(res.0) + {res.1}
  {
    if t.right == Leaf then (t.left, t.data)
    else
      var (r', m) := RemoveMax(t.right);
      (Node(t.left, t.data, r'), m)
  }

  lemma {:induction false} RemoveMaxElems(t: Tree)
    requires t != Leaf
    ensures Elems(t) == Elems(RemoveMax(t).0) + multiset{RemoveMax(t).1}
  {
    if t.right != Leaf {
      RemoveMaxElems(t.right);
    }
  }

  /** On an ordered tree the rightmost item is a maximum, and what remains is
      still ordered. */
  lemma {:induction false} RemoveMaxOrdered(t: Tree)
    requires t != Leaf && Ordered(t)
    ensures Ordered(RemoveMax(t).0)
    ensures AllAtMost(Items(t), RemoveMax(t).1)
  {
    if t.right != Leaf {
      RemoveMaxOrdered(t.right);
    }
  }

  /** Removes the first node on the search path whose item equals x. A node
      with two children takes the maximum of its left subtree; a node with at
      most one child is replaced by that child. */
  function Delete(t: Tree, x: int): (u: Tree)
    ensures Search(t, x).None? ==> u == t
    ensures Items(u) <= Items(t)
  {
    match t
    case Leaf => Leaf
    case Node(l, d, r) =>
      if d == x then
        if l != Leaf && r != Leaf then
          var (l', m) := RemoveMax(l);
          Node(l', m, r)
        else if l == Leaf then r
        else l
      else if d > x then
        var l' := Delete(l, x);
        assert Search(t, x) == Search(l, x);
        Node(l', d, r)
      else
        var r' := Delete(r, x);
        assert Search(t, x) == Search(r, x);
        Node(l, d, r')
  }

  /** A successful search means deletion removes exactly one occurrence of x. */
  lemma {:induction false} DeleteElems(t: Tree, x: int)
    requires Search(t, x).Some?
    ensures Elems(t) == Elems(Delete(t, x)) + multiset{x}
  {
    match t
    case Leaf =>
    case Node(l, d, r) =>
      if d == x {
        if l != Leaf && r != Leaf {
          RemoveMaxElems(l);
          var (l', m) := RemoveMax(l);
          LiftIntoRoot(Elems(l), Elems(l'), Elems(r), d, m);
        }
      } else if d > x {
        DeleteElems(l, x);
        TakeFromLeft(Elems(l), Elems(Delete(l, x)), Elems(r), d, x);
      } else {
        DeleteElems(r, x);
        TakeFromRight(Elems(l), Elems(r), Elems(Delete(r, x)), d, x);
      }
  }

  /** A successful deletion removes exactly one node. */
  lemma DeleteSize(t: Tree, x: int)
    requires Search(t, x).Some?
    ensures Size(Delete(t, x)) == Size(t) - 1
  {
    DeleteElems(t, x);
    SizeIsCardinality(t);
    SizeIsCardinality(Delete(t, x));
  }

  lemma {:induction false} DeleteOrdered(t: Tree, x: int)
    requires Ordered(t)
    ensures Ordered(Delete(t, x))
  {
    match t
    case Leaf =>
    case Node(l, d, r) =>
      if d == x {
        if l != Leaf && r != Leaf {
          RemoveMaxOrdered(l);
        }
      } else if d > x {
        DeleteOrdered(l, x);
      } else {
        DeleteOrdered(r, x);
      }
  }

  /** The remove/contains round trip: removing the only copy of an item
      from an ordered tree makes a later search fail. */
  lemma SearchAfterDelete(t: Tree, x: int)
    requires Ordered(t)
    requires Elems(t)[x] == 1
    ensures Search(Delete(t, x), x) == None
  {
    ItemsAreElems(t);
    SearchComplete(t, x);
    DeleteElems(t, x);
    DeleteOrdered(t, x);
    ItemsAreElems(Delete(t, x));
    SearchComplete(Delete(t, x), x);
  }

  // In-place update (LinkedBST.replace)

  /** Overwrites the item of the first node on the search path whose item
      equals x with y, keeping every link. */
  function ReplaceFirst(t: Tree, x: int, y: int): (u: Tree)
    ensures Search(t, x).None? ==> u == t
    ensures Skeleton(u) == Skeleton(t)
  {
    match t
    case Leaf => Leaf
    case Node(l, d, r) =>
      if d == x then Node(l, y, r)
      else if d > x then
        var l' := ReplaceFirst(l, x, y);
        assert Search(t, x) == Search(l, x);
        Node(l', d, r)
      else
        var r' := ReplaceFirst(r, x, y);
        assert Search(t, x) == Search(r, x);
        Node(l, d, r')
  }

  /** A successful search means exactly one occurrence of x becomes y. */
  lemma {:induction false} ReplaceElems(t: Tree, x: int, y: int)
    requires Search(t, x).Some?
    ensures Elems(ReplaceFirst(t, x, y)) + multiset{x} == Elems(t) + multiset{y}
  {
    match t
    case Leaf =>
    case Node(l, d, r) =>
      if d > x {
        ReplaceElems(l, x, y);
        ExchangeInLeft(Elems(l), Elems(ReplaceFirst(l, x, y)), Elems(r), d, x, y);
      } else if d < x {
        ReplaceElems(r, x, y);
        ExchangeInRight(Elems(l), Elems(r), Elems(ReplaceFirst(r, x, y)), d, x, y);
      }
  }

  /** Replacing an item by itself changes nothing. */
  lemma {:induction false} ReplaceBySameItem(t: Tree, x: int)
    ensures ReplaceFirst(t, x, x) == t
  {
    match t
    case Leaf =>
    case Node(l, d, r) =>
      if d > x { ReplaceBySameItem(l, x); }
      else if d < x { ReplaceBySameItem(r, x); }
  }

  /** Trees of the same shape have the same size. */
  lemma {:induction false} SkeletonSize(t: Tree, u: Tree)
    requires Skeleton(t) == Skeleton(u)
    ensures Size(t) == Size(u)
  {
    match t
    case Leaf =>
    case Node(l, _, r) =>
      SkeletonSize(l, u.left);
      SkeletonSize(r, u.right);
  }

  // Traversals

  /** Left subtree, node, right subtree (LinkedBST.inorder). */
  function InOrder(t: Tree): seq<int> {
    match t
    case Leaf => []
    case Node(l, d, r) => InOrder(l) + [d] + InOrder(r)
  }

  /** The in-order sequence lists every stored item exactly as often as it is
      stored. */
  lemma {:induction false} InOrderElems(t: Tree)
    ensures multiset(InOrder(t)) == Elems(t)
  {
    match t
    case Leaf =>
    case Node(l, d, r) =>
      InOrderElems(l);
      InOrderElems(r);
  }

  /** Every entry of the in-order sequence is a stored item. */
  lemma InOrderEntries(t: Tree)
    ensures forall i :: 0 <= i < |InOrder(t)| ==> InOrder(t)[i] in Items(t)
  {
    ItemsAreElems(t);
    InOrderElems(t);
    forall i | 0 <= i < |InOrder(t)| ensures InOrder(t)[i] in Items(t) {
      assert InOrder(t)[i] in multiset(InOrder(t));
    }
  }

  lemma {:induction false} InOrderSorted(t: Tree)
    requires Ordered(t)
    ensures Sorted(InOrder(t))
  {
    match t
    case Leaf =>
    case Node(l, d, r) =>
      InOrderSorted(l);
      InOrderSorted(r);
      InOrderEntries(l);
      InOrderEntries(r);
      SortedAround(InOrder(l), d, InOrder(r));
  }

  lemma {:induction false} InOrderStrictlySorted(t: Tree)
    requires StrictOrdered(t)
    ensures StrictlySorted(InOrder(t))
  {
    match t
    case Leaf =>
    case Node(l, d, r) =>
      InOrderStrictlySorted(l);
      InOrderStrictlySorted(r);
      InOrderEntries(l);
      InOrderEntries(r);
      StrictlySortedAround(InOrder(l), d, InOrder(r));
  }

  /** Node, left subtree, right subtree: the order of LinkedBST.__iter__. */
  function PreOrder(t: Tree): (s: seq<int>)
    ensures t.Node? ==> |s| > 0 && s[0] == t.data
  {
    match t
    case Leaf => []
    case Node(l, d, r) => [d] + PreOrder(l) + PreOrder(r)
  }

  /** The preorder walk yields each stored item exactly once per occurrence. */
  lemma {:induction false} PreOrderElems(t: Tree)
    ensures multiset(PreOrder(t)) == Elems(t)
  {
    match t
    case Leaf =>
    case Node(l, d, r) =>
      PreOrderElems(l);
      PreOrderElems(r);
  }

  // Range query (LinkedBST.range_find)

  /** In-order walk keeping the items x with low <= x <= high. */
  function InRange(t: Tree, low: int, high: int): seq<int> {
    match t
    case Leaf => []
    case Node(l, d, r) =>
      InRange(l, low, high) + (if low <= d <= high then [d] else []) + InRange(r, low, high)
  }

  /** The range query returns exactly the in-order items inside the range,
      in in-order. */
  lemma {:induction false} InRangeIsFilteredInOrder(t: Tree, low: int, high: int)
    ensures InRange(t, low, high) == Filter(InOrder(t), low, high)
  {
    match t
    case Leaf =>
    case Node(l, d, r) =>
      InRangeIsFilteredInOrder(l, low, high);
      InRangeIsFilteredInOrder(r, low, high);
      FilterAround(InOrder(l), d, InOrder(r), low, high);
  }

  /** On an ordered tree the range query is sorted and holds every stored item
      of the range. */
  lemma InRangeSortedAndComplete(t: Tree, low: int, high: int)
    requires Ordered(t)
    ensures Sorted(InRange(t, low, high))
    ensures forall x :: x in InRange(t, low, high) <==> x in Elems(t) && low <= x <= high
  {
    InRangeIsFilteredInOrder(t, low, high);
    InOrderSorted(t);
    FilterSorted(InOrder(t), low, high);
    InOrderElems(t);
    assert forall x :: x in InOrder(t) <==> x in multiset(InOrder(t));
  }

  // Height (LinkedBST.height)

  /** -1 for the empty tree, otherwise one more than the taller subtree. */
  function TreeHeight(t: Tree): (h: int)
    ensures -1 <= h < Size(t)
    ensures h == -1 <==> t == Leaf
  {
    match t
    case Leaf => -1
    case Node(l, _, r) =>
      var hl, hr := TreeHeight(l), TreeHeight(r);
      1 + if hl < hr then hr else hl
  }

  /** No tree is lower than the minimal height for its size. */
  lemma {:induction false} HeightAtLeastMinimal(t: Tree)
    ensures TreeHeight(t) >= MinHeight(Size(t))
  {
    match t
    case Leaf =>
    case Node(l, _, r) =>
      HeightAtLeastMinimal(l);
      HeightAtLeastMinimal(r);
      MinHeightOfSum(Size(l), Size(r));
      MinHeightMonotone(Size(l), if Size(l) < Size(r) then Size(r) else Size(l));
      MinHeightMonotone(Size(r), if Size(l) < Size(r) then Size(r) else Size(l));
  }

  /** Every node's left child is missing: the tree is a chain along the
      right links. */
  ghost predicate RightSpine(t: Tree) {
    match t
    case Leaf => true
    case Node(l, _, r) => l == Leaf && RightSpine(r)
  }

  /** An item at least every stored item goes right at every node, so it
      extends the chain. */
  lemma {:induction false} InsertAtSpineEnd(t: Tree, x: int)
    requires RightSpine(t) && AllAtMost(Items(t), x)
    ensures RightSpine(Insert(t, x))
  {
    match t
    case Leaf =>
    case Node(l, d, r) =>
      assert Items(r) <= Items(t);
      InsertAtSpineEnd(r, x);
  }

  lemma {:induction false} SpineHeight(t: Tree)
    requires RightSpine(t)
    ensures TreeHeight(t) == Size(t) - 1
  {
    match t
    case Leaf =>
    case Node(_, _, r) =>
      SpineHeight(r);
  }

  /** Adding the items of a sorted list one after another, as adding
      1, 2, ..., n does, gives a chain: its height is one less than the
      number of items, the greatest height a tree of that size can have. */
  lemma {:induction false} SortedInsertionIsChain(s: seq<int>)
    requires Sorted(s)
    ensures RightSpine(InsertAll(Leaf, s))
    ensures Size(InsertAll(Leaf, s)) == |s|
    ensures TreeHeight(InsertAll(Leaf, s)) == |s| - 1
    decreases |s|
  {
    if s != [] {
      var init, last := s[..|s| - 1], s[|s| - 1];
      var t := InsertAll(Leaf, init);
      SortedInsertionIsChain(init);
      InsertAllElems(Leaf, init);
      ItemsAreElems(t);
      forall y | y in Items(t) ensures y <= last {
        assert y in init;
      }
      InsertAtSpineEnd(t, last);
      InsertSize(t, last);
      SpineHeight(InsertAll(Leaf, s));
    }
  }
}
