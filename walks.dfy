/** The recursive helpers that the queries of linkedbst.py nest inside their
    methods, run on the heap nodes below a node. Each is proved to compute
    the reference function of the tree value below that node. */
module NodeWalks {
  import opened Options
  import opened BinaryTrees
  import opened LinkedNodes
  import opened Neighbours
  import opened Rendering

  /** `recurse(node)` of `inorder`: the items below node, left subtree
      first, in the order they are appended to the list. */
  function InOrderFrom(node: BSTNode?, ghost s: Shape): (items: seq<int>)
    requires Linked(s) && node == RootOf(s)
    reads Nodes(s)
    ensures items == InOrder(Abs(s))
    decreases s
  {
    if node == null then []
    else InOrderFrom(node.left, s.left) + [node.data] + InOrderFrom(node.right, s.right)
  }

  /** `find_match_elements(curr_node, low, high)` of `range_find`: the items
      x below node with low <= x <= high, in in-order. */
  function InRangeFrom(node: BSTNode?, low: int, high: int, ghost s: Shape): (items: seq<int>)
    requires Linked(s) && node == RootOf(s)
    reads Nodes(s)
    ensures items == InRange(Abs(s), low, high)
    decreases s
  {
    if node == null then []
    else
      InRangeFrom(node.left, low, high, s.left)
      + (if low <= node.data <= high then [node.data] else [])
      + InRangeFrom(node.right, low, high, s.right)
  }

  /** `height1(top)` of `height`: -1 below no node, otherwise one more than
      the larger height of the two children. */
  function HeightFrom(node: BSTNode?, ghost s: Shape): (h: int)
    requires Linked(s) && node == RootOf(s)
    reads Nodes(s)
    ensures h == TreeHeight(Abs(s))
    decreases s
  {
    if node == null then -1
    else
      var hl, hr := HeightFrom(node.left, s.left), HeightFrom(node.right, s.right);
      1 + if hl < hr then hr else hl
  }

  /** `recurse(node, level)` of `__str__`: the right subtree one level
      deeper, the node's own line, the left subtree one level deeper. */
  function RenderFrom(node: BSTNode?, level: nat, ghost s: Shape): (text: string)
    requires Linked(s) && node == RootOf(s)
    reads Nodes(s)
    ensures text == Render(Abs(s), level)
    decreases s
  {
    if node == null then ""
    else
      RenderFrom(node.right, level + 1, s.right)
      + Line((level, node.data))
      + RenderFrom(node.left, level + 1, s.left)
  }

  /** `find_successor(curr_node, item, successor_value)`: descends towards x
      remembering the last item where the descent went left; at a node
      holding x, the walk down the left spine of its right subtree ends at
      the leftmost item there. */
  method FindSuccessor(node: BSTNode?, x: int, best: Option<int>, ghost s: Shape)
    returns (r: Option<int>)
    requires Linked(s) && node == RootOf(s)
    ensures r == SuccessorFrom(Abs(s), x, best)
    decreases s
  {
    if node == null {
      return best;
    }
    if x < node.data {
      r := FindSuccessor(node.left, x, Some(node.data), s.left);
    } else if x > node.data {
      r := FindSuccessor(node.right, x, best, s.right);
    } else {
      r := best;
      if node.right != null {
        var walk := node.right;
        ghost var w := s.right;
        while walk != null
          invariant Linked(w) && walk == RootOf(w)
          invariant w != Nil ==> Leftmost(Abs(w)) == Leftmost(Abs(s.right))
          invariant w == Nil ==> r == Some(Leftmost(Abs(s.right)))
          decreases w
        {
          r := Some(walk.data);
          walk := walk.left;
          w := w.left;
        }
      }
    }
  }

  /** `find_predecessor(curr_node, item, predecessor_value)`, the mirror
      image: the last item where the descent went right, or the rightmost
      item of the left subtree of a node holding x. */
  method FindPredecessor(node: BSTNode?, x: int, best: Option<int>, ghost s: Shape)
    returns (r: Option<int>)
    requires Linked(s) && node == RootOf(s)
    ensures r == PredecessorFrom(Abs(s), x, best)
    decreases s
  {
    if node == null {
      return best;
    }
    if x < node.data {
      r := FindPredecessor(node.left, x, best, s.left);
    } else if x > node.data {
      r := FindPredecessor(node.right, x, Some(node.data), s.right);
    } else {
      r := best;
      if node.left != null {
        var walk := node.left;
        ghost var w := s.left;
        while walk != null
          invariant Linked(w) && walk == RootOf(w)
          invariant w != Nil ==> Rightmost(Abs(w)) == Rightmost(Abs(s.left))
          invariant w == Nil ==> r == Some(Rightmost(Abs(s.left)))
          decreases w
        {
          r := Some(walk.data);
          walk := walk.right;
          w := w.right;
        }
      }
    }
  }

  /** The items still to be yielded by the preorder walk of `__iter__` for a
      stack of subtrees whose top is the last entry: the top subtree in
      preorder first, then the rest of the stack. */
  ghost function Pending(stack: seq<Shape>): seq<int> {
    if stack == [] then []
    else PreOrder(Abs(stack[|stack| - 1])) + Pending(stack[..|stack| - 1])
  }

  /** The stack holds the root nodes of the subtrees gs, bottom first. */
  ghost predicate OnStack(stack: seq<BSTNode>, gs: seq<Shape>) {
    |stack| == |gs| && forall k :: 0 <= k < |gs| ==> gs[k].Cell? && stack[k] == gs[k].node
  }

  /** The body of `__iter__` once the tree is known to be non-empty: pop a
      node, yield its item, push its children; until the stack is empty. */
  method PreOrderWalk(top: BSTNode, ghost s: Shape) returns (items: seq<int>)
    requires Linked(s) && top == RootOf(s)
    ensures items == PreOrder(Abs(s))
  {
    items := [];
    var stack: seq<BSTNode> := [top];
    ghost var gs: seq<Shape> := [s];
    assert Pending(gs) == PreOrder(Abs(s)) by {
      assert gs[..0] == [];
    }
    while stack != []
      invariant OnStack(stack, gs)
      invariant forall k :: 0 <= k < |gs| ==> Linked(gs[k])
      invariant items + Pending(gs) == PreOrder(Abs(s))
      decreases |PreOrder(Abs(s))| - |items|
    {
      ghost var g, rest := gs[|gs| - 1], gs[..|gs| - 1];
      ghost var todo := Pending(rest + Children(g));
      assert items + Pending(gs) == (items + [g.data]) + todo by {
        assert gs == rest + [g];
        PopPush(rest, g);
        Regroup3(items, [g.data], todo);
      }
      var node := stack[|stack| - 1];
      stack := stack[..|stack| - 1];
      items := items + [node.data];
      stack, gs := PushChildren(node, stack, g, rest);
    }
  }

  /** `stack.push(node.right)` and then `stack.push(node.left)`, each when
      that child exists. */
  method PushChildren(node: BSTNode, stack: seq<BSTNode>, ghost g: Shape, ghost gs: seq<Shape>)
    returns (stack': seq<BSTNode>, ghost gs': seq<Shape>)
    requires g.Cell? && node == g.node && Linked(g)
    requires OnStack(stack, gs) && forall k :: 0 <= k < |gs| ==> Linked(gs[k])
    ensures OnStack(stack', gs') && forall k :: 0 <= k < |gs'| ==> Linked(gs'[k])
    ensures gs' == gs + Children(g)
  {
    stack', gs' := stack, gs;
    if node.right != null {
      stack', gs' := stack' + [node.right], gs' + [g.right];
    }
    if node.left != null {
      stack', gs' := stack' + [node.left], gs' + [g.left];
    }
  }

  /** The subtrees that popping the root of g pushes: the right one, then
      the left one, each only when it is not empty. */
  ghost function Children(g: Shape): seq<Shape>
    requires g.Cell?
  {
    (if g.right != Nil then [g.right] else []) + (if g.left != Nil then [g.left] else [])
  }

  lemma PendingPush(stack: seq<Shape>, g: Shape)
    ensures Pending(stack + [g]) == PreOrder(Abs(g)) + Pending(stack)
  {
    assert (stack + [g])[..|stack|] == stack;
  }

  lemma PendingPushNonEmpty(stack: seq<Shape>, g: Shape)
    ensures Pending(stack + (if g != Nil then [g] else [])) == PreOrder(Abs(g)) + Pending(stack)
  {
    if g != Nil {
      PendingPush(stack, g);
    } else {
      assert stack + [] == stack;
    }
  }

  /** Popping g and pushing its children leaves its preorder, minus its own
      item, still to be yielded. */
  lemma PopPush(rest: seq<Shape>, g: Shape)
    requires g.Cell?
    ensures Pending(rest + [g]) == [g.data] + Pending(rest + Children(g))
  {
    var a := if g.right != Nil then [g.right] else [];
    var b := if g.left != Nil then [g.left] else [];
    var pl, pr, p := PreOrder(Abs(g.left)), PreOrder(Abs(g.right)), Pending(rest);
    assert Pending(rest + Children(g)) == pl + (pr + p) by {
      assert rest + Children(g) == (rest + a) + b;
      PendingPushNonEmpty(rest, g.right);
      PendingPushNonEmpty(rest + a, g.left);
    }
    assert Pending(rest + [g]) == [g.data] + pl + pr + p by {
      assert PreOrder(Abs(g)) == [g.data] + pl + pr;
      PendingPush(rest, g);
    }
    Regroup(g.data, pl, pr, p);
  }

  lemma Regroup3(a: seq<int>, b: seq<int>, c: seq<int>)
    ensures a + b + c == a + (b + c)
  {
  }

  lemma Regroup(x: int, a: seq<int>, b: seq<int>, c: seq<int>)
    ensures [x] + a + b + c == [x] + (a + (b + c))
  {
  }
}
