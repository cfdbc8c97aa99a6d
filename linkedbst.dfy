/** The linked binary search tree of linkedbst.py: a root pointer and an item
    counter over heap nodes. Smaller items go to the left, all others
    (equal ones included) to the right. Every operation is proved against
    the reference tree operations of BinaryTrees through the ghost snapshot
    `shape` of the node graph. */
module LinkedBSTs {
  import opened Options
  import opened Sequences
  import opened Arith
  import opened BinaryTrees
  import opened LinkedNodes
  import opened Neighbours
  import opened Rendering
  import opened Rebalancing
  import opened NodeWalks

  class LinkedBST {
    var root: BSTNode?
    var size: int
    ghost var shape: Shape

    /** The nodes of the tree. */
    ghost function Repr(): set<BSTNode>
      reads this
    {
      Nodes(shape)
    }

    /** The tree value the nodes denote. */
    ghost function Model(): Tree
      reads this
    {
      Abs(shape)
    }

    /** The root pointer starts the described graph, the graph is a tree
        whose nodes hold the described items, and the counter is its size. */
    ghost predicate Valid()
      reads this, Repr()
    {
      root == RootOf(shape) && Linked(shape) && Distinct(shape) && size == Size(Abs(shape))
    }

    /** An empty tree to which the items of `items` are added in order. */
    constructor(items: seq<int>)
      ensures Valid() && fresh(Repr())
      ensures Model() == InsertAll(Leaf, items)
      ensures Elems(Model()) == multiset(items)
      ensures Ordered(Model())
    {
      root := null;
      size := 0;
      shape := Nil;
      new;
      label Empty:
      AddAll(items);
      forall n <- Repr() ensures !old(allocated(n)) {
        assert !old@Empty(allocated(n));
      }
      InsertAllElems(Leaf, items);
      InsertAllOrdered(Leaf, items);
    }

    /** The loop of the collection's constructor: `add` for each item of
        the source collection, in order. */
    method AddAll(items: seq<int>)
      requires Valid()
      modifies this, Repr()
      ensures Valid() && fresh(Repr() - old(Repr()))
      ensures Model() == InsertAll(old(Model()), items)
    {
      var i := 0;
      while i < |items|
        invariant 0 <= i <= |items|
        invariant Valid() && fresh(Repr() - old(Repr()))
        invariant Model() == InsertAll(old(Model()), items[..i])
      {
        label L:
        ghost var leaf := Add(items[i]);
        forall n <- Repr() | old(allocated(n)) ensures n in old(Repr()) {
          assert old@L(allocated(n));
        }
        assert items[..i + 1][..i] == items[..i];
        i := i + 1;
      }
      assert items[..i] == items;
    }

    // Accessors

    /** `find`: the matched item, or None. */
    method Find(x: int) returns (r: Option<int>)
      requires Valid()
      ensures Valid()
      ensures r == Search(Model(), x)
      ensures r.Some? ==> r.value == x
      ensures Ordered(Model()) ==> (r.Some? <==> x in Elems(Model()))
    {
      NodesAllocated(shape);
      var node := root;
      ghost var cur := shape;
      while node != null
        invariant node == RootOf(cur) && Linked(cur)
        invariant Search(Abs(cur), x) == Search(Model(), x)
        decreases cur
      {
        if x == node.data {
          r := Some(node.data);
          FoundIsContained(x);
          return;
        }
        if x < node.data {
          node := node.left;
          cur := cur.left;
        } else {
          node := node.right;
          cur := cur.right;
        }
      }
      r := None;
      FoundIsContained(x);
    }

    lemma FoundIsContained(x: int)
      ensures Ordered(Model()) ==> (Search(Model(), x).Some? <==> x in Elems(Model()))
    {
      if Ordered(Model()) {
        SearchComplete(Model(), x);
        ItemsAreElems(Model());
      }
    }

    /** `__contains__`: whether find succeeds. */
    method Contains(x: int) returns (b: bool)
      requires Valid()
      ensures Valid()
      ensures b <==> Search(Model(), x).Some?
      ensures Ordered(Model()) ==> (b <==> x in Elems(Model()))
    {
      NodesAllocated(shape);
      var r := Find(x);
      b := r.Some?;
    }

    /** `isEmpty` of the collection: the counter is zero. */
    method IsEmpty() returns (b: bool)
      requires Valid()
      ensures Valid()
      ensures b <==> Model() == Leaf
    {
      NodesAllocated(shape);
      b := size == 0;
    }

    // Mutators

    /** `clear`: forgets every node. */
    method Clear()
      modifies this
      ensures Valid() && Model() == Leaf && Repr() == {}
    {
      root := null;
      size := 0;
      shape := Nil;
    }

    /** `add`: an empty tree gets a root node; otherwise the item goes to a
        new leaf at the end of its search path. */
    method Add(x: int) returns (ghost leaf: BSTNode)
      requires Valid()
      modifies this, Repr()
      ensures Valid() && fresh(Repr() - old(Repr()))
      ensures fresh(leaf) && Repr() == old(Repr()) + {leaf}
      ensures Model() == Insert(old(Model()), x)
      ensures Elems(Model()) == old(Elems(Model())) + multiset{x}
      ensures size == old(size) + 1
      ensures old(Ordered(Model())) ==> Ordered(Model())
    {
      InsertElems(Model(), x);
      InsertSize(Model(), x);
      if Ordered(Model()) {
        InsertOrdered(Model(), x);
      }
      if size == 0 {
        SizeZeroIsNil(shape);
        root := new BSTNode(x);
        shape := Cell(Nil, root, x, Nil);
        leaf := root;
      } else {
        leaf := AddBelowRoot(x);
      }
      size := size + 1;
    }

    /** The search loop of `add` in a non-empty tree: smaller items go left,
        all others right, until the child on that side is missing; the new
        leaf becomes that child. */
    method AddBelowRoot(x: int) returns (ghost leaf: BSTNode)
      requires Valid() && root != null
      modifies this, Repr()
      ensures root == old(root) && size == old(size)
      ensures root == RootOf(shape) && Linked(shape) && Distinct(shape)
      ensures fresh(Repr() - old(Repr()))
      ensures fresh(leaf) && Repr() == old(Repr()) + {leaf}
      ensures Model() == Insert(old(Model()), x)
    {
      var node := root;
      ghost var ctx: seq<Frame> := [];
      ghost var cur := shape;
      while node != null
        invariant shape == old(shape) && root == old(root) && size == old(size)
        invariant Linked(shape) && Distinct(shape)
        invariant node != null && cur.Cell? && node == cur.node
        invariant shape == Plug(ctx, cur)
        invariant Graft(ctx, Insert(Abs(cur), x)) == Insert(old(Model()), x)
        decreases cur
      {
        LinkedPlug(ctx, cur);
        if x < node.data {
          ghost var f := WentLeft(node, cur.data, cur.right);
          if node.left == null {
            NodesPlug(ctx, cur);
            var newLeaf;
            newLeaf, shape := AttachLeaf(node, true, x, ctx, cur);
            leaf := newLeaf;
            return;
          }
          GraftSnoc(ctx, f, Insert(Abs(cur.left), x));
          PlugSnoc(ctx, f, cur.left);
          ctx := ctx + [f];
          node := node.left;
          cur := cur.left;
        } else {
          ghost var f := WentRight(cur.left, node, cur.data);
          if node.right == null {
            NodesPlug(ctx, cur);
            var newLeaf;
            newLeaf, shape := AttachLeaf(node, false, x, ctx, cur);
            leaf := newLeaf;
            return;
          }
          GraftSnoc(ctx, f, Insert(Abs(cur.right), x));
          PlugSnoc(ctx, f, cur.right);
          ctx := ctx + [f];
          node := node.right;
          cur := cur.right;
        }
      }
    }

    /** `remove`: a missing item is reported and nothing changes. Otherwise
        the descent below a sentinel pre-root node finds the first node
        holding x together with its parent and the side it hangs on; a node
        with two children takes over the maximum of its left subtree,
        any other node is replaced by its only child (or by nothing). */
    method Remove(x: int) returns (r: Result<int>)
      requires Valid()
      modifies this, Repr()
      ensures Valid() && Repr() <= old(Repr())
      ensures Search(old(Model()), x).None? ==>
        r == Err("Item not in tree.") && shape == old(shape) && root == old(root) && size == old(size)
      ensures Search(old(Model()), x).Some? ==>
        r == Ok(x) && Model() == Delete(old(Model()), x) && size == old(size) - 1
      ensures Search(old(Model()), x).Some? ==> Elems(Model()) + multiset{x} == old(Elems(Model()))
      ensures old(Ordered(Model())) ==> Ordered(Model())
      ensures root == null <==> Model() == Leaf
    {
      NodesAllocated(shape);
      var present := Contains(x);
      if !present {
        NullRootIsLeaf(shape);
        return Err("Item not in tree.");
      }
      ghost var m0 := Model();
      var preRoot := new BSTNode(0);
      preRoot.left := root;
      assert Linked(Cell(shape, preRoot, 0, Nil));
      var parent, goLeft, current, found;
      ghost var ctx, cur;
      parent, goLeft, current, found, ctx, cur := LocateBelowSentinel(preRoot, x, shape);
      NodesPlug(ctx, cur);
      ghost var rest := Unlink(preRoot, parent, goLeft, current, ctx, cur);
      DeleteSize(m0, x);
      ShrinkTo(preRoot, rest);
      r := Ok(found.value);
      DeletePreserves(m0, x);
    }

    /** The end of `remove`: the counter drops by one and the root is reset
        from the sentinel, or to nothing when the tree became empty. */
    method ShrinkTo(preRoot: BSTNode, ghost rest: Shape)
      requires Linked(rest) && Distinct(rest) && preRoot.left == RootOf(rest)
      requires size == Size(Abs(rest)) + 1
      modifies this
      ensures Valid() && shape == rest && size == old(size) - 1
      ensures root == null <==> Model() == Leaf
    {
      size := size - 1;
      shape := rest;
      if size == 0 {
        SizeZeroIsNil(shape);
        root := null;
      } else {
        root := preRoot.left;
      }
      NullRootIsLeaf(shape);
    }

    /** `replace`: the first node equal to x on the search path of x gets
        item y; nothing else changes. */
    method Replace(x: int, y: int) returns (r: Option<int>)
      requires Valid()
      modifies this, Repr()
      ensures Valid() && Repr() == old(Repr()) && root == old(root) && size == old(size)
      ensures r == Search(old(Model()), x)
      ensures Model() == ReplaceFirst(old(Model()), x, y)
      ensures r.None? ==> shape == old(shape)
      ensures r.Some? ==> r.value == x && Elems(Model()) + multiset{x} == old(Elems(Model())) + multiset{y}
      ensures SameWiring(shape, old(shape))
    {
      ghost var m0 := Model();
      var probe := root;
      ghost var ctx: seq<Frame> := [];
      ghost var cur := shape;
      while probe != null
        invariant shape == old(shape) && root == old(root) && size == old(size)
        invariant Linked(shape) && Distinct(shape)
        invariant probe == RootOf(cur) && shape == Plug(ctx, cur)
        invariant Graft(ctx, ReplaceFirst(Abs(cur), x, y)) == ReplaceFirst(old(Model()), x, y)
        invariant Search(Abs(cur), x) == Search(old(Model()), x)
        decreases cur
      {
        LinkedPlug(ctx, cur);
        if probe.data == x {
          var oldData := probe.data;
          NodesPlug(ctx, cur);
          ReplaceFound(probe, y, ctx, cur);
          r := Some(oldData);
          ReplaceElems(m0, x, y);
          return;
        } else if probe.data > x {
          ghost var f := WentLeft(probe, cur.data, cur.right);
          GraftSnoc(ctx, f, ReplaceFirst(Abs(cur.left), x, y));
          PlugSnoc(ctx, f, cur.left);
          ctx := ctx + [f];
          probe := probe.left;
          cur := cur.left;
        } else {
          ghost var f := WentRight(cur.left, probe, cur.data);
          GraftSnoc(ctx, f, ReplaceFirst(Abs(cur.right), x, y));
          PlugSnoc(ctx, f, cur.right);
          ctx := ctx + [f];
          probe := probe.right;
          cur := cur.right;
        }
      }
      r := None;
      SameWiringRefl(shape);
    }

    /** `probe.data = new_item` at the node where the search for x stopped. */
    method ReplaceFound(probe: BSTNode, y: int, ghost ctx: seq<Frame>, ghost cur: Shape)
      requires Valid() && shape == Plug(ctx, cur) && cur.Cell? && cur.node == probe
      modifies this, probe
      ensures Valid() && Repr() == old(Repr()) && root == old(root) && size == old(size)
      ensures Model() == Graft(ctx, Node(Abs(cur.left), y, Abs(cur.right)))
      ensures SameWiring(shape, old(shape))
    {
      AbsPlug(ctx, cur);
      SkeletonGraft(ctx, Abs(cur), Node(Abs(cur.left), y, Abs(cur.right)));
      SkeletonSize(Model(), Graft(ctx, Node(Abs(cur.left), y, Abs(cur.right))));
      Overwrite(probe, y, ctx, cur);
      shape := Plug(ctx, Cell(cur.left, probe, y, cur.right));
    }

    // Traversals and queries

    /** `__iter__`: the items in preorder, each stored occurrence once. */
    method Iter() returns (items: seq<int>)
      requires Valid()
      ensures Valid()
      ensures items == PreOrder(Model())
      ensures multiset(items) == Elems(Model())
    {
      NodesAllocated(shape);
      PreOrderElems(Model());
      if size == 0 {
        SizeZeroIsNil(shape);
        return [];
      }
      items := PreOrderWalk(root, shape);
    }

    /** `inorder`: the items in in-order; sorted on an ordered tree. */
    method Inorder() returns (items: seq<int>)
      requires Valid()
      ensures Valid()
      ensures items == InOrder(Model())
      ensures multiset(items) == Elems(Model())
      ensures Ordered(Model()) ==> Sorted(items)
    {
      NodesAllocated(shape);
      items := InOrderFrom(root, shape);
      InOrderElems(Model());
      if Ordered(Model()) {
        InOrderSorted(Model());
      }
    }

    /** `range_find`: the in-order items x with low <= x <= high; on an
        ordered tree that is, sorted, every stored item of the range. */
    method RangeFind(low: int, high: int) returns (items: seq<int>)
      requires Valid()
      ensures Valid()
      ensures items == Filter(InOrder(Model()), low, high)
      ensures Ordered(Model()) ==> Sorted(items)
      ensures Ordered(Model()) ==> forall x :: x in items <==> x in Elems(Model()) && low <= x <= high
    {
      NodesAllocated(shape);
      items := InRangeFrom(root, low, high, shape);
      InRangeIsFilteredInOrder(Model(), low, high);
      if Ordered(Model()) {
        InRangeSortedAndComplete(Model(), low, high);
      }
    }

    /** `height`: -1 for the empty tree, otherwise the number of links on
        the longest path down from the root; never below the least height a
        tree of this size can have. */
    method Height() returns (h: int)
      requires Valid()
      ensures Valid()
      ensures h == TreeHeight(Model())
      ensures -1 <= h < size
      ensures h == -1 <==> size == 0
      ensures h >= MinHeight(size)
    {
      NodesAllocated(shape);
      h := HeightFrom(root, shape);
      HeightAtLeastMinimal(Model());
    }

    /** `__str__`: one line per node, right subtree above, left subtree
        below, each line indented by the depth of its node. */
    method ToString() returns (text: string)
      requires Valid()
      ensures Valid()
      ensures text == Join(Rows(Model(), 0))
    {
      NodesAllocated(shape);
      text := RenderFrom(root, 0, shape);
      RenderIsRows(Model(), 0);
    }

    /** `successor`: on a tree of distinct items, the least stored item
        greater than x, or None when there is none. */
    method Successor(x: int) returns (r: Option<int>)
      requires Valid()
      ensures Valid()
      ensures r == SuccessorFrom(Model(), x, None)
      ensures Ordered(Model()) && NoDuplicates(Elems(Model())) ==>
        (r.None? <==> AllAtMost(Items(Model()), x))
      ensures Ordered(Model()) && NoDuplicates(Elems(Model())) && r.Some? ==>
        LeastAbove(Items(Model()), x, r.value)
    {
      NodesAllocated(shape);
      r := FindSuccessor(root, x, None, shape);
      if Ordered(Model()) && NoDuplicates(Elems(Model())) {
        OrderedDistinctIsStrict(Model());
        SuccessorIsLeastAbove(Model(), x);
      }
    }

    /** `predecessor`: on a tree of distinct items, the greatest stored item
        smaller than x, or None when there is none. */
    method Predecessor(x: int) returns (r: Option<int>)
      requires Valid()
      ensures Valid()
      ensures r == PredecessorFrom(Model(), x, None)
      ensures Ordered(Model()) && NoDuplicates(Elems(Model())) ==>
        (r.None? <==> AllAtLeast(Items(Model()), x))
      ensures Ordered(Model()) && NoDuplicates(Elems(Model())) && r.Some? ==>
        GreatestBelow(Items(Model()), x, r.value)
    {
      NodesAllocated(shape);
      r := FindPredecessor(root, x, None, shape);
      if Ordered(Model()) && NoDuplicates(Elems(Model())) {
        OrderedDistinctIsStrict(Model());
        PredecessorIsGreatestBelow(Model(), x);
      }
    }

    // Rebalancing

    /** `create_tree(nodes_list)`: adds the middle item of the list, then
        recursively the items before it and the items after it. */
    method CreateTree(list: seq<int>)
      requires Valid()
      modifies this, Repr()
      ensures Valid() && fresh(Repr() - old(Repr()))
      ensures Model() == InsertAll(old(Model()), Medians(list))
      decreases |list|
    {
      if list != [] {
        var mid := |list| / 2;
        InsertAllMedians(Model(), list);
        label A:
        ghost var leaf := Add(list[mid]);
        label B:
        CreateTree(list[..mid]);
        label C:
        CreateTree(list[mid + 1..]);
        forall n <- Repr() | old(allocated(n)) ensures n in old(Repr()) {
          assert old@B(allocated(n)) && old@C(allocated(n));
        }
      }
    }

    /** `rebalance`: collects the items by iteration, empties the tree,
        sorts the items and adds them back in the order of `create_tree`.
        The items and their count are kept and the result is ordered; on
        distinct items it is the balanced tree over the sorted items, of the
        least height its size allows. */
    method Rebalance()
      requires Valid()
      modifies this, Repr()
      ensures Valid() && fresh(Repr())
      ensures Elems(Model()) == old(Elems(Model())) && size == old(size)
      ensures Ordered(Model())
      ensures Model() == InsertAll(Leaf, Medians(SortSeq(PreOrder(old(Model())))))
      ensures NoDuplicates(old(Elems(Model()))) ==>
        Model() == Balanced(SortSeq(PreOrder(old(Model()))))
        && InOrder(Model()) == SortSeq(PreOrder(old(Model())))
        && TreeHeight(Model()) == MinHeight(size)
    {
      RebuildFacts(Model());
      var nodes := Iter();
      RebuildFrom(nodes);
    }

    /** The rest of `rebalance` once the items are collected: `clear`, sort,
        `create_tree`. Every node of the new tree is new. */
    method RebuildFrom(nodes: seq<int>)
      modifies this
      ensures Valid() && fresh(Repr())
      ensures Model() == InsertAll(Leaf, Medians(SortSeq(nodes)))
    {
      Clear();
      var sorted := SortSeq(nodes);
      label Empty:
      CreateTree(sorted);
      forall n <- Repr() ensures !old(allocated(n)) {
        assert !old@Empty(allocated(n));
      }
    }
  }

  /** Removing x from a tree holding it: one occurrence of x fewer, and the
      ordering is kept. */
  lemma DeletePreserves(t: Tree, x: int)
    requires Search(t, x).Some?
    ensures Elems(Delete(t, x)) + multiset{x} == Elems(t)
    ensures Ordered(t) ==> Ordered(Delete(t, x))
  {
    DeleteElems(t, x);
    if Ordered(t) {
      DeleteOrdered(t, x);
    }
  }

  /** The descent of `remove` below the sentinel preRoot: the first node
      holding x on its search path, its parent and the side it hangs on
      (the sentinel and its left side when x is at the root). */
  method LocateBelowSentinel(preRoot: BSTNode, x: int, ghost s: Shape)
    returns (parent: BSTNode, goLeft: bool, current: BSTNode?, found: Option<int>,
             ghost ctx: seq<Frame>, ghost cur: Shape)
    requires Linked(Cell(s, preRoot, 0, Nil)) && Distinct(Cell(s, preRoot, 0, Nil))
    requires Search(Abs(s), x).Some?
    ensures |ctx| >= 1 && ctx[0] == WentLeft(preRoot, 0, Nil)
    ensures parent == ctx[|ctx| - 1].node && goLeft == ctx[|ctx| - 1].WentLeft?
    ensures cur.Cell? && current == cur.node && cur.data == x && found == Some(x)
    ensures Plug(ctx, cur) == Cell(s, preRoot, 0, Nil)
    ensures Graft(ctx, Delete(Abs(cur), x)) == Node(Delete(Abs(s), x), 0, Leaf)
  {
    parent := preRoot;
    goLeft := true;
    current := preRoot.left;
    found := None;
    ctx := [WentLeft(preRoot, 0, Nil)];
    cur := s;
    while current != null
      invariant |ctx| >= 1 && ctx[0] == WentLeft(preRoot, 0, Nil)
      invariant parent == ctx[|ctx| - 1].node && goLeft == ctx[|ctx| - 1].WentLeft?
      invariant Linked(Cell(s, preRoot, 0, Nil))
      invariant current == RootOf(cur) && Plug(ctx, cur) == Cell(s, preRoot, 0, Nil)
      invariant Search(Abs(cur), x).Some? && found.None?
      invariant Graft(ctx, Delete(Abs(cur), x)) == Node(Delete(Abs(s), x), 0, Leaf)
      decreases cur
    {
      LinkedPlug(ctx, cur);
      if current.data == x {
        found := Some(current.data);
        break;
      }
      parent := current;
      if current.data > x {
        goLeft := true;
        ghost var f := WentLeft(current, cur.data, cur.right);
        GraftSnoc(ctx, f, Delete(Abs(cur.left), x));
        PlugSnoc(ctx, f, cur.left);
        ctx := ctx + [f];
        current := current.left;
        cur := cur.left;
      } else {
        goLeft := false;
        ghost var f := WentRight(cur.left, current, cur.data);
        GraftSnoc(ctx, f, Delete(Abs(cur.right), x));
        PlugSnoc(ctx, f, cur.right);
        ctx := ctx + [f];
        current := current.right;
        cur := cur.right;
      }
    }
  }

  /** The removal step of `remove` once the node holding x is found:
      `current` sits below `parent` on the side goLeft, inside a graph whose
      outermost node is the sentinel `preRoot`. The result is the graph
      below the sentinel afterwards. */
  method Unlink(preRoot: BSTNode, parent: BSTNode, goLeft: bool, current: BSTNode?,
                ghost ctx: seq<Frame>, ghost cur: Shape) returns (ghost rest: Shape)
    requires |ctx| >= 1 && ctx[0] == WentLeft(preRoot, 0, Nil)
    requires parent == ctx[|ctx| - 1].node && goLeft == ctx[|ctx| - 1].WentLeft?
    requires cur.Cell? && current == cur.node
    requires Linked(Plug(ctx, cur)) && Distinct(Plug(ctx, cur))
    modifies CtxNodes(ctx) + Nodes(cur)
    ensures Linked(rest) && Distinct(rest) && preRoot.left == RootOf(rest)
    ensures {preRoot} + Nodes(rest) <= Nodes(Plug(ctx, cur)) && preRoot !in Nodes(rest)
    ensures Node(Abs(rest), 0, Leaf) == Graft(ctx, Delete(Abs(cur), cur.data))
  {
    LinkedPlug(ctx, cur);
    DistinctPlug(ctx, cur);
    NodesPlug(ctx, cur);
    ghost var final: Shape;
    if current.left != null && current.right != null {
      final := LiftMaxInLeftSubtreeToTop(current, ctx, cur);
    } else {
      var newChild;
      if current.left == null {
        newChild := current.right;
        final := cur.right;
      } else {
        newChild := current.left;
        final := cur.left;
      }
      Relink(parent, goLeft, newChild, ctx[..|ctx| - 1], ctx[|ctx| - 1], cur, final);
    }
    NodesPlug(ctx, final);
    AbsPlug(ctx, final);
    PlugFront(ctx, final);
    rest := Plug(ctx[1..], final);
  }

  /** `lift_max_in_left_subtree_to_top(top)`: the rightmost node of top's
      left subtree gives its item to top and is replaced by its own left
      subtree. */
  method LiftMaxInLeftSubtreeToTop(top: BSTNode, ghost ctx: seq<Frame>, ghost s: Shape)
    returns (ghost s': Shape)
    requires s.Cell? && s.node == top && s.left != Nil
    requires Linked(Plug(ctx, s)) && Distinct(Plug(ctx, s))
    modifies Nodes(s)
    ensures Linked(Plug(ctx, s')) && Distinct(Plug(ctx, s'))
    ensures s'.Cell? && s'.node == top && Nodes(s') <= Nodes(s)
    ensures Abs(s') == Node(RemoveMax(Abs(s.left)).0, RemoveMax(Abs(s.left)).1, Abs(s.right))
  {
    LinkedPlug(ctx, s);
    DistinctPlug(ctx, s);
    var parent := top;
    var current := top.left;
    ghost var ctx2: seq<Frame> := [];
    ghost var cur := s.left;
    while current.right != null
      invariant Linked(Plug(ctx, s)) && Linked(s.left)
      invariant cur.Cell? && current == cur.node && Plug(ctx2, cur) == s.left
      invariant ctx2 == [] ==> parent == top
      invariant ctx2 != [] ==> parent == ctx2[|ctx2| - 1].node && ctx2[|ctx2| - 1].WentRight?
      invariant ctx2 != [] ==> parent in Nodes(s.left)
      invariant RemoveMax(Abs(s.left)) == (Graft(ctx2, RemoveMax(Abs(cur)).0), RemoveMax(Abs(cur)).1)
      decreases cur
    {
      LinkedPlug(ctx2, cur);
      NodesPlug(ctx2, cur);
      parent := current;
      ghost var f := WentRight(cur.left, current, cur.data);
      GraftSnoc(ctx2, f, RemoveMax(Abs(cur.right)).0);
      PlugSnoc(ctx2, f, cur.right);
      ctx2 := ctx2 + [f];
      current := current.right;
      cur := cur.right;
    }
    LinkedPlug(ctx2, cur);
    NodesPlug(ctx2, cur);
    NodesPlug(ctx2, cur.left);
    AbsPlug(ctx2, cur.left);
    s' := MoveMaxUp(top, parent, current, ctx, s, ctx2, cur);
  }

  /** The end of `lift_max_in_left_subtree_to_top`: `top.data =
      current_node.data`, then the left subtree of current takes its place
      below parent (as top's left child when parent is top). */
  method MoveMaxUp(top: BSTNode, parent: BSTNode, current: BSTNode, ghost ctx: seq<Frame>,
                   ghost s: Shape, ghost ctx2: seq<Frame>, ghost cur: Shape)
    returns (ghost s': Shape)
    requires s.Cell? && s.node == top
    requires Linked(Plug(ctx, s)) && Distinct(Plug(ctx, s))
    requires cur.Cell? && current == cur.node && cur.right == Nil && Plug(ctx2, cur) == s.left
    requires ctx2 == [] ==> parent == top
    requires ctx2 != [] ==> parent == ctx2[|ctx2| - 1].node && ctx2[|ctx2| - 1].WentRight? && parent != top
    modifies {top, parent}
    ensures s' == Cell(Plug(ctx2, cur.left), top, cur.data, s.right)
    ensures Linked(Plug(ctx, s')) && Distinct(Plug(ctx, s'))
  {
    LinkedPlug(ctx, s);
    LinkedPlug(ctx2, cur);
    ghost var m := cur.data;
    Overwrite(top, current.data, ctx, s);
    ghost var f := WentLeft(top, m, s.right);
    ghost var full := ctx + [f] + ctx2;
    PlugInFrame(ctx, f, ctx2, cur);
    PlugInFrame(ctx, f, ctx2, cur.left);
    DistinctPlug(full, cur);
    LinkedPlug(full, cur);
    ghost var init, last := full[..|full| - 1], full[|full| - 1];
    assert Plug(full, cur) == Plug(init, Fill(last, cur));
    assert Plug(full, cur.left) == Plug(init, Fill(last, cur.left));
    PlugSnoc(init, last, cur);
    if parent == top {
      Relink(top, true, current.left, init, last, cur, cur.left);
    } else {
      Relink(parent, false, current.left, init, last, cur, cur.left);
    }
    s' := Cell(Plug(ctx2, cur.left), top, m, s.right);
  }

  /** `node.left = BSTNode(item)` or `node.right = BSTNode(item)` at the end
      of the search path of x: the new leaf fills the missing child of the
      last node on the path. */
  method AttachLeaf(node: BSTNode, goLeft: bool, x: int, ghost ctx: seq<Frame>, ghost cur: Shape)
    returns (leaf: BSTNode, ghost s: Shape)
    requires cur.Cell? && cur.node == node && (goLeft <==> x < cur.data)
    requires if goLeft then cur.left == Nil else cur.right == Nil
    requires Linked(Plug(ctx, cur)) && Distinct(Plug(ctx, cur))
    modifies node
    ensures Linked(s) && Distinct(s)
    ensures RootOf(s) == RootOf(Plug(ctx, cur))
    ensures fresh(leaf) && Nodes(s) == Nodes(Plug(ctx, cur)) + {leaf}
    ensures Abs(s) == Graft(ctx, Insert(Abs(cur), x))
  {
    NodesPlug(ctx, cur);
    NodesAllocated(Plug(ctx, cur));
    leaf := new BSTNode(x);
    ghost var f := if goLeft then WentLeft(node, cur.data, cur.right) else WentRight(cur.left, node, cur.data);
    Relink(node, goLeft, leaf, ctx, f, if goLeft then cur.left else cur.right, Cell(Nil, leaf, x, Nil));
    s := Plug(ctx, Fill(f, Cell(Nil, leaf, x, Nil)));
  }
}
