/**
 * `script_array_index_rcmp`, the comparator `find` hands to `qsort` for a descending scan,
 * and the three-way descending comparison the model scans with instead.
 */
module Comparator {
  import opened Values
  import opened Ordering

  function Sign(x: int): int
  {
    if x < 0 then -1 else if x > 0 then 1 else 0
  }

  /**
   * As written: `b - a` computed on `unsigned int` and returned as `int`. A negative
   * result tells `qsort` to put `a` first.
   */
  function Rcmp(a: Index, b: Index): (r: Int32)
    ensures (b - a - r) % 0x1_0000_0000 == 0
    ensures -0x8000_0000 < b - a < 0x8000_0000 ==> r == b - a
  {
    AsInt(USub(b, a))
  }

  /** Descending three-way comparison: negative exactly when `a` belongs before `b`. */
  function RcmpFixed(a: Index, b: Index): (r: int)
    ensures r < 0 <==> a > b
    ensures r == 0 <==> a == b
    ensures r > 0 <==> a < b
  {
    if a > b then -1 else if a < b then 1 else 0
  }

  /** Where the two indices are less than 2^31 apart the as-written comparator orders correctly. */
  lemma RcmpAgreesWhenClose(a: Index, b: Index)
    requires -0x8000_0000 < a - b < 0x8000_0000
    ensures Sign(Rcmp(a, b)) == RcmpFixed(a, b)
  {
  }

  /**
   * Far apart, it is not even a consistent order: 0 and 2^31 each claim to come before the
   * other, and 0 is placed before 2^31 + 1 although it is smaller.
   */
  lemma RcmpInconsistent()
    ensures Rcmp(0, 0x8000_0000) < 0 && Rcmp(0x8000_0000, 0) < 0
    ensures Rcmp(0, 0x8000_0001) < 0 && RcmpFixed(0, 0x8000_0001) > 0
  {
  }

  /** The order `find` scans in when `reverse` is set: the ascending copy read backwards. */
  function DescendingCopy(s: seq<Index>): (r: seq<Index>)
    ensures multiset(r) == multiset(s)
    ensures forall i, j :: 0 <= i < j < |r| ==> RcmpFixed(r[i], r[j]) <= 0
  {
    var a := SortAsc(s);
    var r := Reverse(a);
    ReverseMultiset(a);
    r
  }

  /**
   * On indices below 2^31 -- every pair then lies less than 2^31 apart -- a permutation that
   * `qsort` could return with the as-written comparator is exactly the order the model uses.
   */
  lemma RcmpSortIsDescendingCopy(s: seq<Index>, r: seq<Index>)
    requires forall x :: x in s ==> x < 0x8000_0000
    requires multiset(r) == multiset(s)
    requires RcmpSorted(r)
    ensures r == DescendingCopy(s)
  {
    var a := Reverse(r);
    ReverseMultiset(r);
    RcmpSortedReversed(s, r);
    SortedUnique(a, SortAsc(s));
    ReverseTwice(r);
  }

  /** Read backwards, an order the as-written comparator accepts on small indices is ascending. */
  lemma RcmpSortedReversed(s: seq<Index>, r: seq<Index>)
    requires forall x :: x in s ==> x < 0x8000_0000
    requires multiset(r) == multiset(s)
    requires RcmpSorted(r)
    ensures Ascending(Reverse(r))
  {
    var a := Reverse(r);
    forall i, j | 0 <= i < j < |a| ensures a[i] <= a[j] {
      RcmpSortedPair(s, r, |r| - 1 - j, |r| - 1 - i);
    }
  }

  /** `r` is in an order `qsort` may return with the as-written comparator. */
  predicate RcmpSorted(r: seq<Index>)
  {
    forall i, j :: 0 <= i < j < |r| ==> Rcmp(r[i], r[j]) <= 0
  }

  lemma RcmpSortedPair(s: seq<Index>, r: seq<Index>, i: nat, j: nat)
    requires forall x :: x in s ==> x < 0x8000_0000
    requires multiset(r) == multiset(s)
    requires RcmpSorted(r)
    requires i < j < |r|
    ensures r[j] <= r[i]
  {
    assert r[i] in multiset(r) && r[j] in multiset(r);
    assert r[i] in s && r[j] in s;
    RcmpBelowHalf(r[i], r[j]);
  }

  lemma RcmpBelowHalf(x: Index, y: Index)
    requires x < 0x8000_0000 && y < 0x8000_0000
    ensures Rcmp(x, y) <= 0 <==> y <= x
  {
    RcmpAgreesWhenClose(x, y);
  }
}
