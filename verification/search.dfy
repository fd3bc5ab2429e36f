/** `script_array_find` and `script_array_count`: the read-only queries. */
module Search {
  import opened Values
  import opened Ordering
  import opened Comparator
  import opened Store

  /** The slot at index `x` is one a query wants: at or above `start`, and matching. */
  predicate Selected(v: Var, x: Index, start: Index, needle: Value, neq: bool)
  {
    x >= start && Matches(Get(v, x), needle, neq)
  }

  /** The scan loop of `find`: the first position from `lo` whose index is selected, else `|order|`. */
  function ScanFrom(v: Var, order: seq<Index>, lo: nat, start: Index, needle: Value, neq: bool): (k: nat)
    requires lo <= |order|
    ensures lo <= k <= |order|
    ensures k < |order| ==> Selected(v, order[k], start, needle, neq)
    ensures forall m :: lo <= m < k ==> !Selected(v, order[m], start, needle, neq)
    decreases |order| - lo
  {
    if lo == |order| then lo
    else if Selected(v, order[lo], start, needle, neq) then lo
    else ScanFrom(v, order, lo + 1, start, needle, neq)
  }

  /**
   * `script_array_find`: the first selected member in ascending index order, or in descending
   * order when `reverse`; None stands for the C result -1.
   */
  function Find(v: Var, start: Index, needle: Value, reverse: bool, neq: bool): (r: Option<Index>)
    ensures r.None? <==> forall x :: x in Members(v) ==> !Selected(v, x, start, needle, neq)
    ensures r.Some? ==> r.value in Members(v) && Selected(v, r.value, start, needle, neq)
    ensures r.Some? && !reverse ==>
      forall x :: x in Members(v) && Selected(v, x, start, needle, neq) ==> r.value <= x
    ensures r.Some? && reverse ==>
      forall x :: x in Members(v) && Selected(v, x, start, needle, neq) ==> x <= r.value
  {
    if v.table.None? then None
    else
      var order := if reverse then DescendingCopy(Members(v)) else Sorted(v);
      var k := ScanFrom(v, order, 0, start, needle, neq);
      ScanOrderFacts(v, order, k, start, needle, reverse, neq);
      if k < |order| then Some(order[k]) else None
  }

  /** What the scan position means once `order` is known to be the sorted copy. */
  lemma ScanOrderFacts(v: Var, order: seq<Index>, k: nat, start: Index, needle: Value, reverse: bool, neq: bool)
    requires multiset(order) == multiset(Members(v))
    requires !reverse ==> Ascending(order)
    requires reverse ==> forall i, j :: 0 <= i < j < |order| ==> RcmpFixed(order[i], order[j]) <= 0
    requires k <= |order|
    requires k < |order| ==> Selected(v, order[k], start, needle, neq)
    requires forall m :: 0 <= m < k ==> !Selected(v, order[m], start, needle, neq)
    ensures k == |order| <==> forall x :: x in Members(v) ==> !Selected(v, x, start, needle, neq)
    ensures k < |order| ==> order[k] in Members(v)
    ensures k < |order| && !reverse ==>
      forall x :: x in Members(v) && Selected(v, x, start, needle, neq) ==> order[k] <= x
    ensures k < |order| && reverse ==>
      forall x :: x in Members(v) && Selected(v, x, start, needle, neq) ==> x <= order[k]
  {
    forall x | x in Members(v) && Selected(v, x, start, needle, neq)
      ensures k < |order|
      ensures !reverse ==> order[k] <= x
      ensures reverse ==> x <= order[k]
    {
      assert x in multiset(order);
      var j :| 0 <= j < |order| && order[j] == x;
      assert k <= j;
      if k < j && reverse {
        assert RcmpFixed(order[k], order[j]) <= 0;
      }
    }
    if k < |order| {
      assert order[k] in multiset(order);
    }
  }

  /** The C return value of `script_array_find`: -1, or the index converted to `int`. */
  function FindCode(v: Var, start: Index, needle: Value, reverse: bool, neq: bool): (r: Int32)
    ensures Find(v, start, needle, reverse, neq).None? ==> r == -1
    ensures forall x :: Find(v, start, needle, reverse, neq) == Some(x) && x < 0x8000_0000 ==> r == x
    ensures forall x :: Find(v, start, needle, reverse, neq) == Some(x) && x >= 0x8000_0000 ==> r < 0
  {
    match Find(v, start, needle, reverse, neq)
    case None => -1
    case Some(x) => AsInt(x)
  }

  /** The counting loop of `script_array_count`, over a list of indices. */
  function CountIn(v: Var, s: seq<Index>, start: Index, needle: Value, neq: bool): (n: nat)
    ensures n <= |s|
  {
    if |s| == 0 then 0
    else (if Selected(v, s[0], start, needle, neq) then 1 else 0) + CountIn(v, s[1..], start, needle, neq)
  }

  /**
   * `script_array_count`: the number of selected entries of `members`, walked in storage order.
   * It is zero exactly when `find` (in either direction) reports -1.
   */
  function Count(v: Var, start: Index, needle: Value, neq: bool): (n: nat)
    ensures n <= |Members(v)|
    ensures n == 0 <==> Find(v, start, needle, false, neq).None?
    ensures n == 0 <==> Find(v, start, needle, true, neq).None?
  {
    var n := CountIn(v, Members(v), start, needle, neq);
    CountZero(v, Members(v), start, needle, neq);
    n
  }

  lemma {:induction false} CountZero(v: Var, s: seq<Index>, start: Index, needle: Value, neq: bool)
    ensures CountIn(v, s, start, needle, neq) == 0 <==>
      forall x :: x in s ==> !Selected(v, x, start, needle, neq)
  {
    if |s| > 0 {
      CountZero(v, s[1..], start, needle, neq);
      assert s == [s[0]] + s[1..];
    }
  }

  lemma {:induction false} CountConcat(v: Var, a: seq<Index>, b: seq<Index>, start: Index, needle: Value, neq: bool)
    ensures CountIn(v, a + b, start, needle, neq)
         == CountIn(v, a, start, needle, neq) + CountIn(v, b, start, needle, neq)
  {
    if |a| == 0 {
      assert a + b == b;
    } else {
      assert (a + b)[0] == a[0];
      assert (a + b)[1..] == a[1..] + b;
      CountConcat(v, a[1..], b, start, needle, neq);
    }
  }

  lemma CountRemoveAt(v: Var, s: seq<Index>, j: nat, start: Index, needle: Value, neq: bool)
    requires j < |s|
    ensures CountIn(v, s, start, needle, neq)
         == (if Selected(v, s[j], start, needle, neq) then 1 else 0) + CountIn(v, RemoveAt(s, j), start, needle, neq)
  {
    assert s == s[..j] + ([s[j]] + s[j + 1..]);
    CountConcat(v, s[..j], [s[j]] + s[j + 1..], start, needle, neq);
    CountConcat(v, s[..j], s[j + 1..], start, needle, neq);
    assert ([s[j]] + s[j + 1..])[1..] == s[j + 1..];
  }

  /** The count does not depend on the order the indices are listed in. */
  lemma {:induction false} CountPermutation(v: Var, a: seq<Index>, b: seq<Index>, start: Index, needle: Value, neq: bool)
    requires multiset(a) == multiset(b)
    ensures CountIn(v, a, start, needle, neq) == CountIn(v, b, start, needle, neq)
  {
    if |a| == 0 {
      assert |multiset(b)| == 0;
    } else {
      assert a[0] in multiset(b);
      var j :| 0 <= j < |b| && b[j] == a[0];
      TailMultiset(a);
      CountPermutation(v, a[1..], RemoveAt(b, j), start, needle, neq);
      CountRemoveAt(v, b, j, start, needle, neq);
    }
  }

  /** `count` over storage order equals the count over the sorted copy the other operations walk. */
  lemma CountSorted(v: Var, start: Index, needle: Value, neq: bool)
    ensures Count(v, start, needle, neq) == CountIn(v, Sorted(v), start, needle, neq)
  {
    CountPermutation(v, Members(v), Sorted(v), start, needle, neq);
  }

  /** Counting with `neq` and without it splits the members at or above `start` between them. */
  lemma {:induction false} CountComplement(v: Var, s: seq<Index>, start: Index, needle: Value)
    ensures CountIn(v, s, start, needle, false) + CountIn(v, s, start, needle, true) == AtLeast(s, start)
  {
    if |s| > 0 {
      CountComplement(v, s[1..], start, needle);
    }
  }

  lemma CountNeqSplit(v: Var, start: Index, needle: Value)
    ensures Count(v, start, needle, false) + Count(v, start, needle, true) == AtLeast(Members(v), start)
  {
    CountComplement(v, Members(v), start, needle);
  }

  /** On a well-formed array the count is the number of distinct selected members. */
  lemma {:induction false} CountAsSet(v: Var, s: seq<Index>, start: Index, needle: Value, neq: bool)
    requires Distinct(s)
    ensures CountIn(v, s, start, needle, neq) == |set x | x in s && Selected(v, x, start, needle, neq)|
  {
    if |s| == 0 {
      assert (set x | x in s && Selected(v, x, start, needle, neq)) == {};
    } else {
      CountAsSet(v, s[1..], start, needle, neq);
      SelectedSetStep(v, s, start, needle, neq);
    }
  }

  lemma SelectedSetStep(v: Var, s: seq<Index>, start: Index, needle: Value, neq: bool)
    requires Distinct(s) && |s| > 0
    ensures Distinct(s[1..])
    ensures |set x | x in s && Selected(v, x, start, needle, neq)|
         == (if Selected(v, s[0], start, needle, neq) then 1 else 0)
          + |set x | x in s[1..] && Selected(v, x, start, needle, neq)|
  {
    var rest := set x | x in s[1..] && Selected(v, x, start, needle, neq);
    assert s[0] !in s[1..];
    if Selected(v, s[0], start, needle, neq) {
      assert (set x | x in s && Selected(v, x, start, needle, neq)) == {s[0]} + rest;
    } else {
      assert (set x | x in s && Selected(v, x, start, needle, neq)) == rest;
    }
  }

  /** Two stores that agree on the listed slots count the same. */
  lemma {:induction false} CountFrame(v: Var, w: Var, s: seq<Index>, start: Index, needle: Value, neq: bool)
    requires forall x :: x in s ==> Get(v, x) == Get(w, x)
    ensures CountIn(v, s, start, needle, neq) == CountIn(w, s, start, needle, neq)
  {
    if |s| > 0 {
      assert s[0] in s;
      CountFrame(v, w, s[1..], start, needle, neq);
    }
  }
}
