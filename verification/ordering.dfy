/** The sorted copy of an array's occupied-index list, and the `ARR_FIND` linear search. */
module Ordering {
  import opened Values

  predicate Ascending(s: seq<Index>)
  {
    forall i, j :: 0 <= i < j < |s| ==> s[i] <= s[j]
  }

  predicate StrictlyAscending(s: seq<Index>)
  {
    forall i, j :: 0 <= i < j < |s| ==> s[i] < s[j]
  }

  /** No index occurs twice: the host's invariant on an array's member list. */
  predicate Distinct(s: seq<Index>)
  {
    forall i, j :: 0 <= i < j < |s| ==> s[i] != s[j]
  }

  function Insert(x: Index, s: seq<Index>): (r: seq<Index>)
    requires Ascending(s)
    ensures Ascending(r)
    ensures multiset(r) == multiset(s) + multiset{x}
  {
    if |s| == 0 then [x]
    else if x <= s[0] then
      assert forall j :: 0 <= j < |s| ==> s[0] <= s[j];
      [x] + s
    else
      var t := Insert(x, s[1..]);
      InsertBounds(x, s, t);
      [s[0]] + t
  }

  /** Everything the recursive call of Insert returns lies above the head it is put behind. */
  lemma InsertBounds(x: Index, s: seq<Index>, t: seq<Index>)
    requires Ascending(s) && |s| > 0 && s[0] < x
    requires multiset(t) == multiset(s[1..]) + multiset{x}
    requires Ascending(t)
    ensures forall y :: y in t ==> s[0] < y || (y == s[0] && y in s[1..])
    ensures Ascending([s[0]] + t)
    ensures multiset([s[0]] + t) == multiset(s) + multiset{x}
  {
    assert s == [s[0]] + s[1..];
    forall y | y in t ensures s[0] < y || (y == s[0] && y in s[1..]) {
      assert y in multiset(t);
      assert y in s[1..] || y == x;
    }
    var r := [s[0]] + t;
    forall i, j | 0 <= i < j < |r| ensures r[i] <= r[j] {
      if i == 0 {
        assert r[j] == t[j - 1] && t[j - 1] in t;
      } else {
        assert r[i] == t[i - 1] && r[j] == t[j - 1];
      }
    }
  }

  lemma {:induction false} InsertStrict(x: Index, s: seq<Index>)
    requires StrictlyAscending(s) && x !in s
    ensures StrictlyAscending(Insert(x, s))
  {
    if |s| > 0 && x > s[0] {
      var t := Insert(x, s[1..]);
      InsertStrict(x, s[1..]);
      InsertBounds(x, s, t);
      assert s[0] !in s[1..];
    }
  }

  /**
   * The ascending copy `qsort(list, size, ..., script_array_index_cmp)` produces: a
   * permutation of the input in ascending order (unique by SortedUnique).
   */
  function SortAsc(s: seq<Index>): (r: seq<Index>)
    ensures Ascending(r)
    ensures multiset(r) == multiset(s)
    ensures |r| == |s|
    ensures forall x :: x in r <==> x in s
  {
    if |s| == 0 then []
    else
      assert s == [s[0]] + s[1..];
      var r := Insert(s[0], SortAsc(s[1..]));
      assert forall x :: x in r <==> x in multiset(r);
      r
  }

  /** Any two ascending permutations of the same indices are equal, so the sorted copy is determined. */
  lemma {:induction false} SortedUnique(a: seq<Index>, b: seq<Index>)
    requires Ascending(a) && Ascending(b)
    requires multiset(a) == multiset(b)
    ensures a == b
  {
    if |a| == 0 {
      assert |multiset(b)| == 0;
    } else {
      SortedHeads(a, b);
      SortedUnique(a[1..], b[1..]);
      assert a == [a[0]] + a[1..];
      assert b == [b[0]] + b[1..];
    }
  }

  /** Two non-empty ascending permutations of each other share their head, and their tails are permutations too. */
  lemma SortedHeads(a: seq<Index>, b: seq<Index>)
    requires Ascending(a) && Ascending(b) && |a| > 0
    requires multiset(a) == multiset(b)
    ensures |b| > 0 && a[0] == b[0]
    ensures Ascending(a[1..]) && Ascending(b[1..]) && multiset(a[1..]) == multiset(b[1..])
  {
    assert |b| == |a| by {
      assert |multiset(b)| == |multiset(a)|;
    }
    assert b[0] in multiset(a) && a[0] in multiset(b) by {
      assert b[0] in b && a[0] in a;
    }
    HeadIsLeast(a, b[0]);
    HeadIsLeast(b, a[0]);
    TailMultiset(a);
    TailMultiset(b);
  }

  lemma TailMultiset(s: seq<Index>)
    requires |s| > 0
    ensures multiset(s[1..]) == multiset(s) - multiset{s[0]}
  {
    assert s == [s[0]] + s[1..];
  }

  /** The head of a non-empty ascending list is at most any of its elements. */
  lemma HeadIsLeast(s: seq<Index>, y: Index)
    requires Ascending(s) && |s| > 0
    requires y in multiset(s)
    ensures s[0] <= y
  {
    var i :| 0 <= i < |s| && s[i] == y;
  }

  /** Sorting a duplicate-free list yields a strictly ascending one. */
  lemma {:induction false} SortStrict(s: seq<Index>)
    requires Distinct(s)
    ensures StrictlyAscending(SortAsc(s))
  {
    if |s| > 0 {
      assert s == [s[0]] + s[1..];
      SortStrict(s[1..]);
      assert s[0] !in s[1..];
      assert s[0] !in SortAsc(s[1..]);
      InsertStrict(s[0], SortAsc(s[1..]));
    }
  }

  function Reverse(s: seq<Index>): (r: seq<Index>)
    ensures |r| == |s|
    ensures forall i :: 0 <= i < |s| ==> r[i] == s[|s| - 1 - i]
  {
    seq(|s|, i requires 0 <= i < |s| => s[|s| - 1 - i])
  }

  lemma ReverseTwice(s: seq<Index>)
    ensures Reverse(Reverse(s)) == s
  {
  }

  lemma {:induction false} ReverseMultiset(s: seq<Index>)
    ensures multiset(Reverse(s)) == multiset(s)
  {
    if |s| > 0 {
      var t := s[..|s| - 1];
      ReverseMultiset(t);
      assert Reverse(s) == [s[|s| - 1]] + Reverse(t);
      assert s == t + [s[|s| - 1]];
    }
  }

  /** The largest element, computed independently of sorting. */
  function MaxOf(s: seq<Index>): (m: Index)
    requires |s| > 0
    ensures m in s
    ensures forall x :: x in s ==> x <= m
  {
    if |s| == 1 then s[0]
    else
      var t := MaxOf(s[1..]);
      assert s == [s[0]] + s[1..];
      if s[0] >= t then s[0] else t
  }

  /** The last element of the ascending copy is the largest member. */
  lemma {:induction false} SortedLastIsMax(s: seq<Index>)
    requires |s| > 0
    ensures SortAsc(s)[|s| - 1] == MaxOf(s)
  {
    var r := SortAsc(s);
    var m := MaxOf(s);
    assert r[|s| - 1] in s;
    assert m in r;
    var k :| 0 <= k < |r| && r[k] == m;
    assert r[k] <= r[|s| - 1];
  }

  /**
   * `ARR_FIND(0, hi, i, s[i] == x)`: the first position below `hi` holding `x`, or `hi`
   * when there is none.
   */
  function ArrFind(s: seq<Index>, lo: nat, hi: nat, x: Index): (k: nat)
    requires lo <= hi <= |s|
    ensures lo <= k <= hi
    ensures k < hi ==> s[k] == x
    ensures forall m :: lo <= m < k ==> s[m] != x
    decreases hi - lo
  {
    if lo == hi then hi
    else if s[lo] == x then lo
    else ArrFind(s, lo + 1, hi, x)
  }

  /** The number of entries of `s` at or above `x`. */
  function AtLeast(s: seq<Index>, x: Index): (n: nat)
    ensures n <= |s|
  {
    if |s| == 0 then 0
    else (if s[0] >= x then 1 else 0) + AtLeast(s[1..], x)
  }

  /** In an ascending list the entries at or above `x` are exactly those from its first occurrence. */
  lemma {:induction false} AtLeastFromFirst(s: seq<Index>, k: nat, x: Index)
    requires Ascending(s)
    requires k < |s| && s[k] == x
    requires forall m :: 0 <= m < k ==> s[m] != x
    ensures AtLeast(s, x) == |s| - k
  {
    if k == 0 {
      AllAtLeast(s, x);
    } else {
      assert s[0] < x;
      AtLeastFromFirst(s[1..], k - 1, x);
    }
  }

  lemma {:induction false} AllAtLeast(s: seq<Index>, x: Index)
    requires forall m :: 0 <= m < |s| ==> s[m] >= x
    ensures AtLeast(s, x) == |s|
  {
    if |s| > 0 {
      AllAtLeast(s[1..], x);
    }
  }

  /** AtLeast ignores order: it depends only on the multiset of entries. */
  lemma {:induction false} AtLeastPermutation(a: seq<Index>, b: seq<Index>, x: Index)
    requires multiset(a) == multiset(b)
    ensures AtLeast(a, x) == AtLeast(b, x)
  {
    if |a| == 0 {
      assert |multiset(b)| == 0;
    } else {
      assert a[0] in multiset(b);
      var j :| 0 <= j < |b| && b[j] == a[0];
      var b' := RemoveAt(b, j);
      assert a == [a[0]] + a[1..];
      assert multiset(a[1..]) == multiset(b');
      AtLeastPermutation(a[1..], b', x);
      AtLeastRemoveAt(b, j, x);
    }
  }

  /** `s` without its entry at position `j`. */
  function RemoveAt<T>(s: seq<T>, j: nat): (r: seq<T>)
    requires j < |s|
    ensures |r| == |s| - 1
    ensures multiset(r) == multiset(s) - multiset{s[j]}
  {
    assert s == s[..j] + [s[j]] + s[j + 1..];
    s[..j] + s[j + 1..]
  }

  lemma AtLeastRemoveAt(s: seq<Index>, j: nat, x: Index)
    requires j < |s|
    ensures AtLeast(s, x) == (if s[j] >= x then 1 else 0) + AtLeast(RemoveAt(s, j), x)
  {
    assert s == s[..j] + ([s[j]] + s[j + 1..]);
    AtLeastConcat(s[..j], [s[j]] + s[j + 1..], x);
    AtLeastConcat(s[..j], s[j + 1..], x);
    assert ([s[j]] + s[j + 1..])[1..] == s[j + 1..];
  }

  lemma {:induction false} AtLeastConcat(a: seq<Index>, b: seq<Index>, x: Index)
    ensures AtLeast(a + b, x) == AtLeast(a, x) + AtLeast(b, x)
  {
    if |a| == 0 {
      assert a + b == b;
    } else {
      assert (a + b)[0] == a[0];
      assert (a + b)[1..] == a[1..] + b;
      AtLeastConcat(a[1..], b, x);
    }
  }

  /** For a duplicate-free list AtLeast is the size of the set of entries at or above `x`. */
  lemma {:induction false} AtLeastAsSet(s: seq<Index>, x: Index)
    requires Distinct(s)
    ensures AtLeast(s, x) == |set m | m in s && m >= x|
  {
    if |s| == 0 {
      assert (set m | m in s && m >= x) == {};
    } else {
      AtLeastAsSet(s[1..], x);
      AtLeastSetStep(s, x);
    }
  }

  lemma AtLeastSetStep(s: seq<Index>, x: Index)
    requires Distinct(s) && |s| > 0
    ensures Distinct(s[1..])
    ensures |set m | m in s && m >= x| == (if s[0] >= x then 1 else 0) + |set m | m in s[1..] && m >= x|
  {
    var rest := set m | m in s[1..] && m >= x;
    assert s[0] !in s[1..];
    if s[0] >= x {
      assert (set m | m in s && m >= x) == {s[0]} + rest;
    } else {
      assert (set m | m in s && m >= x) == rest;
    }
  }
}
