/** `array_entries`: how many members an array has at or above an offset. */
module Offsets {
  import opened Values
  import opened Ordering
  import opened Store

  /**
   * `array_entries` as written: zero for an empty array or an offset above the largest
   * member; otherwise the size minus the position `ARR_FIND` reports for the offset in the
   * sorted members. The search stops one short of the end, so an offset that is not a member
   * gets the last position and the answer 1, however many members lie above it.
   */
  function Entries(v: Var, offset: Index): (n: nat)
    ensures n <= |Members(v)|
    ensures |Members(v)| == 0 ==> n == 0
    ensures |Members(v)| > 0 && offset > MaxOf(Members(v)) ==> n == 0
    ensures |Members(v)| > 0 && offset <= MaxOf(Members(v)) ==> n >= 1
    ensures |Members(v)| > 0 && offset <= MaxOf(Members(v)) && offset !in Members(v) ==> n == 1
  {
    var list := Sorted(v);
    var size := |list|;
    if size == 0 then 0
    else
      SortedLastIsMax(Members(v));
      if offset > list[size - 1] then 0
      else
        var i := ArrFind(list, 0, size - 1, offset);
        assert i < size - 1 ==> offset in Members(v) by {
          if i < size - 1 {
            assert list[i] in list;
          }
        }
        size - i
  }

  /** What the operation is meant to return: the number of members at or above the offset. */
  function EntriesFixed(v: Var, offset: Index): (n: nat)
    ensures n <= |Members(v)|
    ensures WellFormed(v) ==> n == |set x | x in Members(v) && x >= offset|
  {
    assert WellFormed(v) ==> AtLeast(Members(v), offset) == |set x | x in Members(v) && x >= offset| by {
      if WellFormed(v) {
        AtLeastAsSet(Members(v), offset);
      }
    }
    AtLeast(Members(v), offset)
  }

  /** For an offset that is a member, the operation counts the members at or above it. */
  lemma EntriesOfMember(v: Var, offset: Index)
    requires WellFormed(v) && offset in Members(v)
    ensures Entries(v, offset) == EntriesFixed(v, offset)
  {
    var list := Sorted(v);
    EntriesFound(v, offset);
    var i := ArrFind(list, 0, |list| - 1, offset);
    FoundAtLast(list, offset);
    AtLeastFromFirst(list, i, offset);
    AtLeastPermutation(list, Members(v), offset);
  }

  /** For a member offset the operation is the size minus the position `ARR_FIND` reports. */
  lemma EntriesFound(v: Var, offset: Index)
    requires offset in Members(v)
    ensures |Sorted(v)| > 0
    ensures Entries(v, offset) == |Sorted(v)| - ArrFind(Sorted(v), 0, |Sorted(v)| - 1, offset)
  {
    SortedLastIsMax(Members(v));
  }

  /** Searching all but the last position of a list holding `x` still lands on `x`. */
  lemma FoundAtLast(s: seq<Index>, x: Index)
    requires x in s
    ensures var i := ArrFind(s, 0, |s| - 1, x); i < |s| && s[i] == x
  {
    var i := ArrFind(s, 0, |s| - 1, x);
    if i == |s| - 1 {
      var j :| 0 <= j < |s| && s[j] == x;
    }
  }

  /** Above the largest member both the operation and the intended count are zero. */
  lemma EntriesAboveAll(v: Var, offset: Index)
    requires |Members(v)| > 0 && offset > MaxOf(Members(v))
    ensures Entries(v, offset) == EntriesFixed(v, offset) == 0
  {
    AtLeastNone(Members(v), offset);
  }

  /**
   * The operation agrees with the intended count exactly when the offset is a member, or at most
   * one member lies at or above it.
   */
  lemma EntriesAgree(v: Var, offset: Index)
    requires WellFormed(v)
    ensures Entries(v, offset) == EntriesFixed(v, offset)
        <==> offset in Members(v) || EntriesFixed(v, offset) <= 1
  {
    if offset in Members(v) {
      EntriesOfMember(v, offset);
    } else if |Members(v)| == 0 {
    } else if offset > MaxOf(Members(v)) {
      EntriesAboveAll(v, offset);
    } else {
      AtLeastOfMax(Members(v), offset);
    }
  }

  lemma {:induction false} AtLeastNone(s: seq<Index>, x: Index)
    requires forall y :: y in s ==> y < x
    ensures AtLeast(s, x) == 0
  {
    if |s| > 0 {
      assert s[0] in s;
      assert forall y :: y in s[1..] ==> y in s;
      AtLeastNone(s[1..], x);
    }
  }

  /** An offset at or below the largest entry has at least that entry above it. */
  lemma {:induction false} AtLeastOfMax(s: seq<Index>, x: Index)
    requires |s| > 0 && x <= MaxOf(s)
    ensures AtLeast(s, x) >= 1
  {
    var m := MaxOf(s);
    var j :| 0 <= j < |s| && s[j] == m;
    AtLeastRemoveAt(s, j, x);
  }

  /** Members {0, 2, 5, 9} and offset 3: the operation answers 1 where two members (5 and 9) lie above. */
  lemma EntriesUndercounts(v: Var)
    requires Members(v) == [0, 2, 5, 9]
    ensures Entries(v, 3) == 1 && EntriesFixed(v, 3) == 2
  {
    assert 9 in Members(v);
    assert 3 !in Members(v);
    assert AtLeast([0, 2, 5, 9], 3) == 2;
  }
}
