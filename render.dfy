/** The text of `LinkedBST.__str__`: the tree rotated a quarter turn
    counterclockwise, one line per node, "| " repeated once per level of
    depth before the item. Items are rendered in decimal, the way Python's
    `str` renders an int. */
module Rendering {
  import opened BinaryTrees

  function Digit(d: int): char
    requires 0 <= d < 10
  {
    "0123456789"[d]
  }

  function ShowNat(n: nat): (s: string)
    ensures |s| >= 1
    ensures forall c :: c in s ==> '0' <= c <= '9'
  {
    if n < 10 then [Digit(n)] else ShowNat(n / 10) + [Digit(n % 10)]
  }

  /** `str(item)` for an int item. */
  function Show(n: int): (s: string)
    ensures |s| >= 1 && '\n' !in s
  {
    if n < 0 then "-" + ShowNat(-n) else ShowNat(n)
  }

  function Indent(level: nat): string {
    if level == 0 then "" else Indent(level - 1) + "| "
  }

  /** `recurse(node, level)`: the right subtree one level deeper, the node's
      line, then the left subtree one level deeper. */
  function Render(t: Tree, level: nat): string {
    match t
    case Leaf => ""
    case Node(l, d, r) =>
      Render(r, level + 1) + Line((level, d)) + Render(l, level + 1)
  }

  /** The lines of the rendering as (depth, item) pairs, top line first. */
  function Rows(t: Tree, level: nat): seq<(nat, int)> {
    match t
    case Leaf => []
    case Node(l, d, r) => Rows(r, level + 1) + [(level, d)] + Rows(l, level + 1)
  }

  /** One line of the rendering: the depth as repeated "| ", the item, a
      line break. */
  function Line(row: (nat, int)): string {
    Indent(row.0) + Show(row.1) + "\n"
  }

  function Join(rows: seq<(nat, int)>): string {
    if rows == [] then "" else Line(rows[0]) + Join(rows[1..])
  }

  function RowItems(rows: seq<(nat, int)>): seq<int> {
    if rows == [] then [] else [rows[0].1] + RowItems(rows[1..])
  }

  function Reverse(s: seq<int>): seq<int> {
    if s == [] then [] else Reverse(s[1..]) + [s[0]]
  }

  lemma {:induction false} JoinAppend(a: seq<(nat, int)>, b: seq<(nat, int)>)
    ensures Join(a + b) == Join(a) + Join(b)
    decreases |a|
  {
    if a == [] {
      assert a + b == b;
    } else {
      assert (a + b)[1..] == a[1..] + b;
      JoinAppend(a[1..], b);
    }
  }

  lemma {:induction false} RowItemsAppend(a: seq<(nat, int)>, b: seq<(nat, int)>)
    ensures RowItems(a + b) == RowItems(a) + RowItems(b)
    decreases |a|
  {
    if a == [] {
      assert a + b == b;
    } else {
      assert (a + b)[1..] == a[1..] + b;
      RowItemsAppend(a[1..], b);
    }
  }

  lemma {:induction false} ReverseAppend(a: seq<int>, b: seq<int>)
    ensures Reverse(a + b) == Reverse(b) + Reverse(a)
    decreases |a|
  {
    if a == [] {
      assert a + b == b;
    } else {
      assert (a + b)[1..] == a[1..] + b;
      ReverseAppend(a[1..], b);
    }
  }

  /** The rendering is exactly its rows, one line each. */
  lemma {:induction false} RenderIsRows(t: Tree, level: nat)
    ensures Render(t, level) == Join(Rows(t, level))
  {
    match t
    case Leaf =>
    case Node(l, d, r) =>
      JoinRowsNode(l, d, r, level);
      RenderIsRows(r, level + 1);
      RenderIsRows(l, level + 1);
  }

  lemma JoinRowsNode(l: Tree, d: int, r: Tree, level: nat)
    ensures Join(Rows(Node(l, d, r), level)) == Join(Rows(r, level + 1)) + Line((level, d)) + Join(Rows(l, level + 1))
  {
    var top, bottom := Rows(r, level + 1), Rows(l, level + 1);
    var row: (nat, int) := (level, d);
    var one: seq<(nat, int)> := [row];
    assert Rows(Node(l, d, r), level) == top + one + bottom;
    assert Join(one) == Line(row) by {
      assert one[1..] == [];
    }
    JoinAppend(top + one, bottom);
    JoinAppend(top, one);
  }

  /** Read top to bottom, the lines list the items in reverse in-order: the
      greatest item first on an ordered tree. */
  lemma {:induction false} RowsAreReversedInOrder(t: Tree, level: nat)
    ensures RowItems(Rows(t, level)) == Reverse(InOrder(t))
  {
    match t
    case Leaf =>
    case Node(l, d, r) =>
      RowsAreReversedInOrder(l, level + 1);
      RowsAreReversedInOrder(r, level + 1);
      RowItemsAppend(Rows(r, level + 1) + [(level, d)], Rows(l, level + 1));
      RowItemsAppend(Rows(r, level + 1), [(level, d)]);
      ReverseAppend(InOrder(l) + [d], InOrder(r));
      ReverseAppend(InOrder(l), [d]);
  }
}
