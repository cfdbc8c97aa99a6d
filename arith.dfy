/** Powers of two and integer base-2 logarithms, used to bound tree heights. */
module Arith {

  function Pow2(n: nat): (p: nat)
    ensures p >= 1
  {
    if n == 0 then 1 else 2 * Pow2(n - 1)
  }

  lemma {:induction false} Pow2Monotone(a: nat, b: nat)
    requires a <= b
    ensures Pow2(a) <= Pow2(b)
  {
    if a < b {
      Pow2Monotone(a, b - 1);
    }
  }

  lemma Pow2Double(n: nat)
    ensures Pow2(n + 1) == 2 * Pow2(n)
  {
  }

  /** The largest k with 2^k <= n. */
  function Log2Floor(n: nat): nat
    requires n >= 1
  {
    if n == 1 then 0 else 1 + Log2Floor(n / 2)
  }

  lemma {:induction false} Log2FloorBounds(n: nat)
    requires n >= 1
    ensures Pow2(Log2Floor(n)) <= n < Pow2(Log2Floor(n) + 1)
  {
    if n > 1 {
      var k := Log2Floor(n / 2);
      Log2FloorBounds(n / 2);
      Pow2Double(k);
      Pow2Double(k + 1);
    }
  }

  /** The height of a smallest-height binary tree with n nodes:
      -1 for the empty tree, otherwise floor(log2 n). */
  function MinHeight(n: nat): (h: int)
    ensures h >= -1
    ensures n == 0 <==> h == -1
  {
    if n == 0 then -1 else Log2Floor(n)
  }

  /** A height bound determines the minimal height: whoever packs n nodes into
      height h needs h >= MinHeight(n). */
  lemma {:induction false} MinHeightIsLeast(n: nat, h: int)
    requires h >= -1
    requires n < Pow2(h + 1)
    ensures MinHeight(n) <= h
  {
    if n > 0 && MinHeight(n) > h {
      Log2FloorBounds(n);
      Pow2Monotone(h + 1, MinHeight(n));
      assert false;
    }
  }

  /** Halving a count lowers its minimal height by exactly one. */
  lemma MinHeightHalf(n: nat)
    requires n >= 2
    ensures MinHeight(n) == 1 + MinHeight(n / 2)
  {
  }

  lemma {:induction false} MinHeightMonotone(a: nat, b: nat)
    requires a <= b
    ensures MinHeight(a) <= MinHeight(b)
  {
    if a > 0 {
      Log2FloorBounds(b);
      MinHeightIsLeast(a, MinHeight(b));
    }
  }

  /** Splitting n >= 1 nodes into a root, n / 2 nodes and the rest: the
      larger part has one level less. */
  lemma MinHeightSplit(n: nat)
    requires n >= 1
    ensures MinHeight(n) == 1 + MinHeight(n / 2)
    ensures MinHeight(n - n / 2 - 1) <= MinHeight(n / 2)
  {
    MinHeightMonotone(n - n / 2 - 1, n / 2);
    if n >= 2 {
      MinHeightHalf(n);
    }
  }

  /** A root over a parts of a and b nodes, b <= a <= b + 1: the larger part
      decides the minimal height. */
  lemma MinHeightOfParts(a: nat, b: nat)
    requires b <= a <= b + 1
    ensures MinHeight(a + 1 + b) == 1 + MinHeight(a)
    ensures MinHeight(b) <= MinHeight(a)
  {
    var n := a + 1 + b;
    assert a == n / 2 && b == n - n / 2 - 1;
    MinHeightSplit(n);
  }

  /** A root over parts of a and b nodes is at most one level above the
      minimal height of the larger part. */
  lemma MinHeightOfSum(a: nat, b: nat)
    ensures MinHeight(a + 1 + b) <= 1 + MinHeight(if a < b then b else a)
  {
    var n := a + 1 + b;
    MinHeightMonotone(n / 2, if a < b then b else a);
    MinHeightSplit(n);
  }
}
