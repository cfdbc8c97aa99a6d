/** Heap nodes of a linked binary search tree and a ghost description of the
    node graph hanging from a root pointer. A `Shape` names every node of the
    graph together with the item it holds; `Linked` says that the heap
    agrees with it, `Distinct` that no node occurs twice, and `Abs` forgets
    the nodes and leaves the tree value that the graph denotes.

    A descent from the root is described by a context: the frames passed on
    the way down, outermost first. `Plug` puts a subtree back into its
    context, and the lemmas below split the properties of the whole graph
    into those of the context and those of the subtree. */
module LinkedNodes {
  import opened BinaryTrees

  /** One node: an item and two child pointers. */
  class BSTNode {
    var data: int
    var left: BSTNode?
    var right: BSTNode?

    constructor(item: int)
      ensures data == item && left == null && right == null
    {
      data := item;
      left := null;
      right := null;
    }
  }

  datatype Shape = Nil | Cell(left: Shape, node: BSTNode, data: int, right: Shape)

  ghost function Nodes(s: Shape): set<BSTNode> {
    match s
    case Nil => {}
    case Cell(l, n, _, r) => Nodes(l) + {n} + Nodes(r)
  }

  ghost function RootOf(s: Shape): BSTNode? {
    if s.Nil? then null else s.node
  }

  /** The tree value that the graph denotes. */
  ghost function Abs(s: Shape): Tree {
    match s
    case Nil => Leaf
    case Cell(l, _, d, r) => Node(Abs(l), d, Abs(r))
  }

  /** The heap stores exactly the items and child pointers that s names. */
  ghost predicate Linked(s: Shape)
    reads Nodes(s)
  {
    match s
    case Nil => true
    case Cell(l, n, d, r) =>
      n.data == d && n.left == RootOf(l) && n.right == RootOf(r) && Linked(l) && Linked(r)
  }

  /** No node is shared: the graph is a tree. */
  ghost predicate Distinct(s: Shape) {
    match s
    case Nil => true
    case Cell(l, n, _, r) =>
      n !in Nodes(l) && n !in Nodes(r) && Nodes(l) !! Nodes(r) && Distinct(l) && Distinct(r)
  }

  /** Two graphs over the same nodes with the same child pointers; only the
      items may differ. */
  ghost predicate SameWiring(a: Shape, b: Shape) {
    match a
    case Nil => b == Nil
    case Cell(l, n, _, r) => b.Cell? && b.node == n && SameWiring(l, b.left) && SameWiring(r, b.right)
  }

  lemma {:induction false} SameWiringRefl(s: Shape)
    ensures SameWiring(s, s)
  {
    match s
    case Nil =>
    case Cell(l, _, _, r) =>
      SameWiringRefl(l);
      SameWiringRefl(r);
  }

  /** Every node named by a shape already exists, so a new node is none of them. */
  lemma {:induction false} NodesAllocated(s: Shape)
    ensures forall n <- Nodes(s) :: allocated(n)
  {
    match s
    case Nil =>
    case Cell(l, _, _, r) =>
      NodesAllocated(l);
      NodesAllocated(r);
  }

  lemma {:induction false} SizeZeroIsNil(s: Shape)
    requires Size(Abs(s)) == 0
    ensures s == Nil
  {
  }

  lemma {:induction false} NullRootIsLeaf(s: Shape)
    ensures RootOf(s) == null <==> Abs(s) == Leaf
  {
  }

  // Contexts

  /** A step of a descent: to the left child of node (whose right subtree is
      `right`) or to the right child (whose left subtree is `left`). */
  datatype Frame =
    | WentLeft(node: BSTNode, data: int, right: Shape)
    | WentRight(left: Shape, node: BSTNode, data: int)

  ghost function Fill(f: Frame, s: Shape): Shape {
    match f
    case WentLeft(n, d, r) => Cell(s, n, d, r)
    case WentRight(l, n, d) => Cell(l, n, d, s)
  }

  /** Puts s back into the context ctx (outermost frame first). */
  ghost function Plug(ctx: seq<Frame>, s: Shape): Shape
    decreases |ctx|
  {
    if ctx == [] then s else Plug(ctx[..|ctx| - 1], Fill(ctx[|ctx| - 1], s))
  }

  ghost function FrameNodes(f: Frame): set<BSTNode> {
    match f
    case WentLeft(n, _, r) => {n} + Nodes(r)
    case WentRight(l, n, _) => Nodes(l) + {n}
  }

  ghost function CtxNodes(ctx: seq<Frame>): set<BSTNode>
    decreases |ctx|
  {
    if ctx == [] then {} else CtxNodes(ctx[..|ctx| - 1]) + FrameNodes(ctx[|ctx| - 1])
  }

  /** The frame's node holds its item, its sibling subtree is linked, and the
      child pointer on the side of the descent is p. */
  ghost predicate LinkedFrame(f: Frame, p: BSTNode?)
    reads FrameNodes(f)
  {
    match f
    case WentLeft(n, d, r) => n.data == d && n.left == p && n.right == RootOf(r) && Linked(r)
    case WentRight(l, n, d) => n.data == d && n.left == RootOf(l) && n.right == p && Linked(l)
  }

  /** Every frame of ctx is linked, the innermost one to the hole pointer p. */
  ghost predicate LinkedCtx(ctx: seq<Frame>, p: BSTNode?)
    reads CtxNodes(ctx)
    decreases |ctx|
  {
    ctx != [] ==>
      LinkedFrame(ctx[|ctx| - 1], p) && LinkedCtx(ctx[..|ctx| - 1], ctx[|ctx| - 1].node)
  }

  ghost predicate DistinctFrame(f: Frame) {
    match f
    case WentLeft(n, _, r) => n !in Nodes(r) && Distinct(r)
    case WentRight(l, n, _) => n !in Nodes(l) && Distinct(l)
  }

  ghost predicate DistinctCtx(ctx: seq<Frame>)
    decreases |ctx|
  {
    ctx != [] ==>
      DistinctFrame(ctx[|ctx| - 1]) && DistinctCtx(ctx[..|ctx| - 1])
      && CtxNodes(ctx[..|ctx| - 1]) !! FrameNodes(ctx[|ctx| - 1])
  }

  /** The tree value of a context with a tree in its hole. */
  ghost function Graft(ctx: seq<Frame>, t: Tree): Tree
    decreases |ctx|
  {
    if ctx == [] then t
    else
      var f := ctx[|ctx| - 1];
      var u := match f
        case WentLeft(_, d, r) => Node(t, d, Abs(r))
        case WentRight(l, _, d) => Node(Abs(l), d, t);
      Graft(ctx[..|ctx| - 1], u)
  }

  /** Grafting trees of the same shape gives trees of the same shape. */
  lemma {:induction false} SkeletonGraft(ctx: seq<Frame>, t: Tree, u: Tree)
    requires Skeleton(t) == Skeleton(u)
    ensures Skeleton(Graft(ctx, t)) == Skeleton(Graft(ctx, u))
    decreases |ctx|
  {
    if ctx != [] {
      var f := ctx[|ctx| - 1];
      match f {
        case WentLeft(_, d, r) =>
          SkeletonGraft(ctx[..|ctx| - 1], Node(t, d, Abs(r)), Node(u, d, Abs(r)));
        case WentRight(l, _, d) =>
          SkeletonGraft(ctx[..|ctx| - 1], Node(Abs(l), d, t), Node(Abs(l), d, u));
      }
    }
  }

  lemma PlugSnoc(ctx: seq<Frame>, f: Frame, s: Shape)
    ensures Plug(ctx + [f], s) == Plug(ctx, Fill(f, s))
    ensures CtxNodes(ctx + [f]) == CtxNodes(ctx) + FrameNodes(f)
    ensures DistinctCtx(ctx + [f]) <==>
      DistinctFrame(f) && DistinctCtx(ctx) && CtxNodes(ctx) !! FrameNodes(f)
  {
    assert (ctx + [f])[..|ctx + [f]| - 1] == ctx;
  }

  lemma GraftSnoc(ctx: seq<Frame>, f: Frame, t: Tree)
    ensures f.WentLeft? ==> Graft(ctx + [f], t) == Graft(ctx, Node(t, f.data, Abs(f.right)))
    ensures f.WentRight? ==> Graft(ctx + [f], t) == Graft(ctx, Node(Abs(f.left), f.data, t))
  {
    assert (ctx + [f])[..|ctx + [f]| - 1] == ctx;
  }

  lemma {:induction false} NodesPlug(ctx: seq<Frame>, s: Shape)
    ensures Nodes(Plug(ctx, s)) == CtxNodes(ctx) + Nodes(s)
    decreases |ctx|
  {
    if ctx != [] {
      NodesPlug(ctx[..|ctx| - 1], Fill(ctx[|ctx| - 1], s));
    }
  }

  lemma {:induction false} AbsPlug(ctx: seq<Frame>, s: Shape)
    ensures Abs(Plug(ctx, s)) == Graft(ctx, Abs(s))
    decreases |ctx|
  {
    if ctx != [] {
      AbsPlug(ctx[..|ctx| - 1], Fill(ctx[|ctx| - 1], s));
    }
  }

  /** The graph is linked iff its context is linked around the subtree's
      root and the subtree itself is linked. */
  lemma {:induction false} LinkedPlug(ctx: seq<Frame>, s: Shape)
    ensures Linked(Plug(ctx, s)) <==> LinkedCtx(ctx, RootOf(s)) && Linked(s)
    decreases |ctx|
  {
    if ctx != [] {
      var f := ctx[|ctx| - 1];
      LinkedPlug(ctx[..|ctx| - 1], Fill(f, s));
    }
  }

  /** The graph is a tree iff context and subtree are, and share no node. */
  lemma {:induction false} DistinctPlug(ctx: seq<Frame>, s: Shape)
    ensures Distinct(Plug(ctx, s)) <==>
      DistinctCtx(ctx) && Distinct(s) && CtxNodes(ctx) !! Nodes(s)
    decreases |ctx|
  {
    if ctx != [] {
      var f := ctx[|ctx| - 1];
      DistinctPlug(ctx[..|ctx| - 1], Fill(f, s));
    }
  }

  /** The outermost frame is the root of the whole graph. */
  lemma {:induction false} PlugFront(ctx: seq<Frame>, s: Shape)
    requires ctx != []
    ensures Plug(ctx, s) == Fill(ctx[0], Plug(ctx[1..], s))
    decreases |ctx|
  {
    if |ctx| > 1 {
      var init := ctx[..|ctx| - 1];
      PlugFront(init, Fill(ctx[|ctx| - 1], s));
      assert init[1..] == ctx[1..][..|ctx[1..]| - 1];
    }
  }

  /** Two contexts one after the other form one context. */
  lemma {:induction false} PlugAppend(a: seq<Frame>, b: seq<Frame>, s: Shape)
    ensures Plug(a + b, s) == Plug(a, Plug(b, s))
    decreases |b|
  {
    if b == [] {
      assert a + b == a;
    } else {
      var init, f := b[..|b| - 1], b[|b| - 1];
      assert (a + b)[..|a + b| - 1] == a + init;
      assert (a + b)[|a + b| - 1] == f;
      PlugAppend(a, init, Fill(f, s));
    }
  }

  /** Rewiring-free changes of a subtree keep the whole graph's wiring. */
  lemma {:induction false} SameWiringPlug(ctx: seq<Frame>, s: Shape, s': Shape)
    requires SameWiring(s', s)
    ensures SameWiring(Plug(ctx, s'), Plug(ctx, s))
    decreases |ctx|
  {
    if ctx != [] {
      var f := ctx[|ctx| - 1];
      match f {
        case WentLeft(_, _, r) => SameWiringRefl(r);
        case WentRight(l, _, _) => SameWiringRefl(l);
      }
      SameWiringPlug(ctx[..|ctx| - 1], Fill(f, s), Fill(f, s'));
    }
  }

  /** A context seen from a frame in its middle. */
  lemma PlugInFrame(a: seq<Frame>, f: Frame, b: seq<Frame>, s: Shape)
    ensures Plug(a + [f] + b, s) == Plug(a, Fill(f, Plug(b, s)))
  {
    PlugAppend(a + [f], b, s);
    PlugSnoc(a, f, Plug(b, s));
  }

  // Heap updates

  /** Points the child pointer of the innermost frame's node at the root of
      s', which takes the place of s in the graph. Nothing outside that one
      pointer changes, so the rest of the graph stays linked. */
  method Relink(parent: BSTNode, goLeft: bool, child: BSTNode?,
                ghost ctx: seq<Frame>, ghost f: Frame, ghost s: Shape, ghost s': Shape)
    requires f.node == parent && goLeft == f.WentLeft? && child == RootOf(s')
    requires Linked(Plug(ctx, Fill(f, s))) && Distinct(Plug(ctx, Fill(f, s)))
    requires Linked(s') && Distinct(s')
    requires Nodes(s') !! CtxNodes(ctx) + FrameNodes(f)
    modifies parent
    ensures Linked(Plug(ctx, Fill(f, s'))) && Distinct(Plug(ctx, Fill(f, s')))
    ensures Nodes(Plug(ctx, Fill(f, s'))) == CtxNodes(ctx) + FrameNodes(f) + Nodes(s')
    ensures RootOf(Plug(ctx, Fill(f, s'))) == RootOf(Plug(ctx, Fill(f, s)))
    ensures Abs(Plug(ctx, Fill(f, s'))) == Graft(ctx, Abs(Fill(f, s')))
  {
    LinkedPlug(ctx, Fill(f, s));
    DistinctPlug(ctx, Fill(f, s));
    assert parent !in CtxNodes(ctx) && parent !in Nodes(s');
    if goLeft {
      parent.left := child;
    } else {
      parent.right := child;
    }
    assert Linked(Fill(f, s'));
    LinkedPlug(ctx, Fill(f, s'));
    ReplaceHole(ctx, f, s, s');
  }

  /** The graph facts of a subtree swap that do not depend on the heap. */
  lemma ReplaceHole(ctx: seq<Frame>, f: Frame, s: Shape, s': Shape)
    requires Distinct(Plug(ctx, Fill(f, s))) && Distinct(s')
    requires Nodes(s') !! CtxNodes(ctx) + FrameNodes(f)
    ensures Distinct(Plug(ctx, Fill(f, s')))
    ensures Nodes(Plug(ctx, Fill(f, s'))) == CtxNodes(ctx) + FrameNodes(f) + Nodes(s')
    ensures RootOf(Plug(ctx, Fill(f, s'))) == RootOf(Plug(ctx, Fill(f, s)))
    ensures Abs(Plug(ctx, Fill(f, s'))) == Graft(ctx, Abs(Fill(f, s')))
  {
    DistinctPlug(ctx, Fill(f, s));
    DistinctPlug(ctx, Fill(f, s'));
    NodesPlug(ctx, Fill(f, s'));
    AbsPlug(ctx, Fill(f, s'));
    if ctx != [] {
      PlugFront(ctx, Fill(f, s));
      PlugFront(ctx, Fill(f, s'));
    }
  }

  /** Overwrites the item of the subtree root of cur with v; the pointers
      and every other node stay as they were. */
  method Overwrite(node: BSTNode, v: int, ghost ctx: seq<Frame>, ghost cur: Shape)
    requires cur.Cell? && cur.node == node
    requires Linked(Plug(ctx, cur)) && Distinct(Plug(ctx, cur))
    modifies node
    ensures node.data == v && node.left == old(node.left) && node.right == old(node.right)
    ensures Linked(Plug(ctx, Cell(cur.left, node, v, cur.right)))
    ensures Distinct(Plug(ctx, Cell(cur.left, node, v, cur.right)))
    ensures Nodes(Plug(ctx, Cell(cur.left, node, v, cur.right))) == Nodes(Plug(ctx, cur))
    ensures RootOf(Plug(ctx, Cell(cur.left, node, v, cur.right))) == RootOf(Plug(ctx, cur))
    ensures SameWiring(Plug(ctx, Cell(cur.left, node, v, cur.right)), Plug(ctx, cur))
    ensures Abs(Plug(ctx, Cell(cur.left, node, v, cur.right)))
         == Graft(ctx, Node(Abs(cur.left), v, Abs(cur.right)))
  {
    var cur' := Cell(cur.left, node, v, cur.right);
    LinkedPlug(ctx, cur);
    DistinctPlug(ctx, cur);
    node.data := v;
    assert Linked(cur');
    LinkedPlug(ctx, cur');
    DistinctPlug(ctx, cur');
    NodesPlug(ctx, cur);
    NodesPlug(ctx, cur');
    AbsPlug(ctx, cur');
    SameWiringRefl(cur.left);
    SameWiringRefl(cur.right);
    SameWiringPlug(ctx, cur, cur');
    if ctx != [] {
      PlugFront(ctx, cur);
      PlugFront(ctx, cur');
    }
  }
}
