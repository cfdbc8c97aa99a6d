/** Facts about sequences of items: sortedness, filtering by a closed range,
    and a reference sort. */
module Sequences {

  ghost predicate Sorted(s: seq<int>) {
    forall i, j :: 0 <= i < j < |s| ==> s[i] <= s[j]
  }

  ghost predicate StrictlySorted(s: seq<int>) {
    forall i, j :: 0 <= i < j < |s| ==> s[i] < s[j]
  }

  /** Every value occurs at most once. */
  ghost predicate NoDuplicates(m: multiset<int>) {
    forall v :: m[v] <= 1
  }

  /** The items x of s with low <= x <= high, in the order of s. */
  function Filter(s: seq<int>, low: int, high: int): (r: seq<int>)
    ensures forall x :: x in r <==> x in s && low <= x <= high
    ensures |r| <= |s|
  {
    if s == [] then []
    else (if low <= s[0] <= high then [s[0]] else []) + Filter(s[1..], low, high)
  }

  lemma {:induction false} FilterConcat(a: seq<int>, b: seq<int>, low: int, high: int)
    ensures Filter(a + b, low, high) == Filter(a, low, high) + Filter(b, low, high)
  {
    if a == [] {
      assert a + b == b;
    } else {
      var head := if low <= a[0] <= high then [a[0]] else [];
      calc {
        Filter(a + b, low, high);
        { assert (a + b)[0] == a[0] && (a + b)[1..] == a[1..] + b; }
        head + Filter(a[1..] + b, low, high);
        { FilterConcat(a[1..], b, low, high); }
        head + (Filter(a[1..], low, high) + Filter(b, low, high));
        (head + Filter(a[1..], low, high)) + Filter(b, low, high);
        Filter(a, low, high) + Filter(b, low, high);
      }
    }
  }

  lemma SortedCons(a: int, s: seq<int>)
    requires Sorted(s)
    requires forall k :: 0 <= k < |s| ==> a <= s[k]
    ensures Sorted([a] + s)
  {
  }

  /** Inserts x before the first item not smaller than it. */
  function InsertSorted(s: seq<int>, x: int): (r: seq<int>)
    requires Sorted(s)
    ensures Sorted(r)
    ensures multiset(r) == multiset(s) + multiset{x}
  {
    if s == [] || x <= s[0] then
      SortedCons(x, s);
      [x] + s
    else
      var rest := InsertSorted(s[1..], x);
      assert forall k :: 0 <= k < |rest| ==> s[0] <= rest[k] by {
        forall k | 0 <= k < |rest| ensures s[0] <= rest[k] {
          assert rest[k] in multiset(rest);
        }
      }
      SortedCons(s[0], rest);
      assert s == [s[0]] + s[1..];
      [s[0]] + rest
  }

  /** The sorted permutation of s (Python's `list.sort`, by its result). */
  function SortSeq(s: seq<int>): (r: seq<int>)
    ensures Sorted(r)
    ensures multiset(r) == multiset(s)
  {
    if s == [] then []
    else
      assert s == [s[0]] + s[1..];
      InsertSorted(SortSeq(s[1..]), s[0])
  }

  /** Two equal entries at different positions make that value's count at least two. */
  lemma RepeatedEntryCount(s: seq<int>, i: nat, j: nat)
    requires i < j < |s|
    ensures s[i] == s[j] ==> multiset(s)[s[j]] >= 2
  {
    assert s == s[..j] + [s[j]] + s[j + 1..];
    assert s[i] in multiset(s[..j]);
    assert multiset(s) == multiset(s[..j]) + multiset{s[j]} + multiset(s[j + 1..]);
  }

  /** A sorted sequence without repeated values is strictly increasing. */
  lemma SortedDistinctIsStrict(s: seq<int>)
    requires Sorted(s)
    requires NoDuplicates(multiset(s))
    ensures StrictlySorted(s)
  {
    forall i, j | 0 <= i < j < |s| ensures s[i] < s[j] {
      RepeatedEntryCount(s, i, j);
    }
  }

  /** a, then d, then b is sorted when a and b are and d separates them. */
  lemma SortedAround(a: seq<int>, d: int, b: seq<int>)
    requires Sorted(a) && Sorted(b)
    requires forall i :: 0 <= i < |a| ==> a[i] <= d
    requires forall j :: 0 <= j < |b| ==> d <= b[j]
    ensures Sorted(a + [d] + b)
  {
  }

  lemma StrictlySortedAround(a: seq<int>, d: int, b: seq<int>)
    requires StrictlySorted(a) && StrictlySorted(b)
    requires forall i :: 0 <= i < |a| ==> a[i] < d
    requires forall j :: 0 <= j < |b| ==> d < b[j]
    ensures StrictlySorted(a + [d] + b)
  {
  }

  lemma FilterAround(a: seq<int>, d: int, b: seq<int>, low: int, high: int)
    ensures Filter(a + [d] + b, low, high)
         == Filter(a, low, high) + (if low <= d <= high then [d] else []) + Filter(b, low, high)
  {
    var mid := if low <= d <= high then [d] else [];
    calc {
      Filter(a + [d] + b, low, high);
      { FilterConcat(a + [d], b, low, high); }
      Filter(a + [d], low, high) + Filter(b, low, high);
      { FilterConcat(a, [d], low, high); }
      Filter(a, low, high) + Filter([d], low, high) + Filter(b, low, high);
      { assert [d][1..] == []; }
      Filter(a, low, high) + mid + Filter(b, low, high);
    }
  }

  lemma {:induction false} FilterSorted(s: seq<int>, low: int, high: int)
    requires Sorted(s)
    ensures Sorted(Filter(s, low, high))
  {
    if s != [] {
      FilterSorted(s[1..], low, high);
      var rest := Filter(s[1..], low, high);
      forall k | 0 <= k < |rest| ensures s[0] <= rest[k] {
        assert rest[k] in s[1..];
      }
      SortedCons(s[0], rest);
    }
  }

  lemma StrictlySortedSlices(s: seq<int>, i: nat, j: nat)
    requires StrictlySorted(s)
    requires i <= j <= |s|
    ensures StrictlySorted(s[i..j])
  {
  }
}
