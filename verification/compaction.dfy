/**
 * `script_array_shift` and `script_array_remove`: both slide the values along the sorted copy of
 * the member list down by one position and clear the slot of the largest member. Index numbers
 * are never renumbered; only values move.
 */
module Compaction {
  import opened Values
  import opened Ordering
  import opened Store
  import opened Search

  /**
   * The compaction loop both operations share: for each sorted position `k > i` the value at
   * `l[k]` is written to `l[k - 1]`, then the slot at the last position is cleared (the C code
   * clears `uid`, which after the loop names `l[|l| - 1]`, or `l[i]` itself when `i` is last).
   */
  method Compact(v: Var, l: seq<Index>, i: nat) returns (w: Var)
    requires v.table.Some?
    requires StrictlyAscending(l) && i < |l|
    ensures w.table.Some? && w.kind == v.kind && Members(w) == Members(v)
    ensures Column(w, l) == Column(v, l)[..i] + Column(v, l)[i + 1..] + [Clear(v.kind)]
    ensures forall x :: x !in l ==> Get(w, x) == Get(v, x)
  {
    w := v;
    var k := i + 1;
    while k < |l|
      invariant i + 1 <= k <= |l|
      invariant w.table.Some? && w.kind == v.kind && Members(w) == Members(v)
      invariant forall m :: 0 <= m < i ==> Get(w, l[m]) == Get(v, l[m])
      invariant forall m :: i <= m < k - 1 ==> Get(w, l[m]) == Get(v, l[m + 1])
      invariant forall m :: k - 1 <= m < |l| ==> Get(w, l[m]) == Get(v, l[m])
      invariant forall x :: x !in l ==> Get(w, x) == Get(v, x)
    {
      var next := Get(w, l[k]);
      CompactStep(v, w, l, i, k);
      w := Put(w, l[k - 1], next);
      k := k + 1;
    }
    PutAlong(w, l, |l| - 1, Clear(v.kind));
    w := Put(w, l[|l| - 1], Clear(v.kind));
    ColumnAfterCompact(v, w, l, i);
  }

  /** One iteration of the compaction loop: the value at position `k` moves down to `k - 1`. */
  lemma CompactStep(v: Var, w: Var, l: seq<Index>, i: nat, k: nat)
    requires w.table.Some? && StrictlyAscending(l) && i + 1 <= k < |l|
    requires forall m :: 0 <= m < i ==> Get(w, l[m]) == Get(v, l[m])
    requires forall m :: i <= m < k - 1 ==> Get(w, l[m]) == Get(v, l[m + 1])
    requires forall m :: k - 1 <= m < |l| ==> Get(w, l[m]) == Get(v, l[m])
    requires forall x :: x !in l ==> Get(w, x) == Get(v, x)
    ensures var w' := Put(w, l[k - 1], Get(w, l[k]));
      && (forall m :: 0 <= m < i ==> Get(w', l[m]) == Get(v, l[m]))
      && (forall m :: i <= m < k ==> Get(w', l[m]) == Get(v, l[m + 1]))
      && (forall m :: k <= m < |l| ==> Get(w', l[m]) == Get(v, l[m]))
      && (forall x :: x !in l ==> Get(w', x) == Get(v, x))
  {
    PutAlong(w, l, k - 1, Get(w, l[k]));
  }

  lemma ColumnAfterCompact(v: Var, w: Var, l: seq<Index>, i: nat)
    requires i < |l|
    requires forall m :: 0 <= m < i ==> Get(w, l[m]) == Get(v, l[m])
    requires forall m :: i <= m < |l| - 1 ==> Get(w, l[m]) == Get(v, l[m + 1])
    requires Get(w, l[|l| - 1]) == Clear(v.kind)
    ensures Column(w, l) == Column(v, l)[..i] + Column(v, l)[i + 1..] + [Clear(v.kind)]
  {
    var expected := Column(v, l)[..i] + Column(v, l)[i + 1..] + [Clear(v.kind)];
    assert forall m :: 0 <= m < |l| ==> Column(w, l)[m] == expected[m];
  }

  /** A write to the slot at one position of a duplicate-free list leaves the other positions alone. */
  lemma PutAlong(w: Var, l: seq<Index>, m: nat, x: Value)
    requires w.table.Some?
    requires StrictlyAscending(l) && m < |l|
    ensures forall n :: 0 <= n < |l| && n != m ==> Get(Put(w, l[m], x), l[n]) == Get(w, l[n])
  {
    forall n | 0 <= n < |l| && n != m ensures l[n] != l[m] {
      if n < m {
        assert l[n] < l[m];
      } else {
        assert l[m] < l[n];
      }
    }
  }

  /**
   * The sorted position `script_array_shift` removes (its `ARR_FIND`): the position of the first
   * stored member with `fifo`, else of `start`; `|members|` when there is none.
   */
  function ShiftPos(v: Var, start: Index, fifo: bool): (i: nat)
    ensures i <= |Members(v)|
    ensures i < |Members(v)| ==> Sorted(v)[i] == if fifo then Members(v)[0] else start
    ensures fifo && |Members(v)| > 0 ==> i < |Members(v)|
    ensures !fifo ==> (i < |Members(v)| <==> start in Members(v))
  {
    var l := Sorted(v);
    if fifo && |l| > 0 then
      assert Members(v)[0] in l;
      ArrFind(l, 0, |l|, Members(v)[0])
    else ArrFind(l, 0, |l|, start)
  }

  /**
   * `script_array_shift`: when the position to remove exists, its value is returned and the
   * values above it along the sorted members move down one position, the largest member's slot
   * being cleared; otherwise the placeholder comes back and nothing changes.
   */
  method Shift(v: Var, start: Index, fifo: bool) returns (out: Value, w: Var)
    requires WellFormed(v)
    ensures w.kind == v.kind && w.table.Some? == v.table.Some? && Members(w) == Members(v)
    ensures ShiftPos(v, start, fifo) == |Sorted(v)| ==> out == Clear(v.kind) && w == v
    ensures var l, i := Sorted(v), ShiftPos(v, start, fifo);
      i < |l| ==> out == Get(v, l[i]) && Column(w, l) == Column(v, l)[..i] + Column(v, l)[i + 1..] + [Clear(v.kind)]
    ensures forall x :: x !in Members(v) ==> Get(w, x) == Get(v, x)
  {
    out := Clear(v.kind);
    w := v;
    if v.table.None? {
      return;
    }
    var list := Sorted(v);
    var size := |list|;
    var i := ShiftPos(v, start, fifo);
    if size >= 1 && (fifo || i < size) {
      out := Get(w, list[i]);
      SortStrict(Members(v));
      w := Compact(w, list, i);
    }
  }

  /** The values of `cs` that do not match, in order: what `remove` keeps. */
  function Keep(cs: seq<Value>, needle: Value, neq: bool): (r: seq<Value>)
    ensures |r| <= |cs|
  {
    if |cs| == 0 then []
    else (if Matches(cs[0], needle, neq) then [] else [cs[0]]) + Keep(cs[1..], needle, neq)
  }

  /** The number of values of `cs` that match. */
  function MatchCount(cs: seq<Value>, needle: Value, neq: bool): (n: nat)
    ensures n + |Keep(cs, needle, neq)| == |cs|
  {
    if |cs| == 0 then 0
    else (if Matches(cs[0], needle, neq) then 1 else 0) + MatchCount(cs[1..], needle, neq)
  }

  /** The first sorted position whose index is at or above `start`: positions below it are skipped. */
  function FirstAtLeast(l: seq<Index>, start: Index): (p: nat)
    requires Ascending(l)
    ensures p <= |l|
    ensures forall m :: 0 <= m < p ==> l[m] < start
    ensures forall m :: p <= m < |l| ==> l[m] >= start
  {
    if |l| == 0 || l[0] >= start then 0
    else 1 + FirstAtLeast(l[1..], start)
  }

  /** The positions of `l` from `p` on are exactly those whose index is at or above `start`. */
  predicate Threshold(l: seq<Index>, start: Index, p: nat)
  {
    forall m :: 0 <= m < |l| ==> (l[m] >= start <==> m >= p)
  }

  lemma FirstAtLeastThreshold(l: seq<Index>, start: Index)
    requires Ascending(l)
    ensures Threshold(l, start, FirstAtLeast(l, start))
  {
  }

  /** Over indices all at or above `start`, counting selected slots is counting matching values. */
  lemma {:induction false} CountAboveStart(v: Var, s: seq<Index>, start: Index, needle: Value, neq: bool)
    requires forall m :: 0 <= m < |s| ==> s[m] >= start
    ensures CountIn(v, s, start, needle, neq) == MatchCount(Column(v, s), needle, neq)
  {
    if |s| > 0 {
      CountAboveStart(v, s[1..], start, needle, neq);
      assert Column(v, s)[1..] == Column(v, s[1..]);
    }
  }

  /** Over an ascending list, the count is the number of matching values from the first position at or above `start`. */
  lemma CountColumn(v: Var, l: seq<Index>, start: Index, needle: Value, neq: bool)
    requires Ascending(l)
    ensures CountIn(v, l, start, needle, neq) == MatchCount(Column(v, l)[FirstAtLeast(l, start)..], needle, neq)
  {
    var p := FirstAtLeast(l, start);
    FirstAtLeastSplit(l, start);
    SplitAt(l, p);
    CountConcat(v, l[..p], l[p..], start, needle, neq);
    CountBelow(v, l[..p], start, needle, neq);
    CountAboveStart(v, l[p..], start, needle, neq);
    ColumnSlice(v, l, p);
  }

  /** FirstAtLeast splits an ascending list into a part below `start` and a part at or above it. */
  lemma FirstAtLeastSplit(l: seq<Index>, start: Index)
    requires Ascending(l)
    ensures var p := FirstAtLeast(l, start);
      && (forall m :: 0 <= m < |l[..p]| ==> l[..p][m] < start)
      && (forall m :: 0 <= m < |l[p..]| ==> l[p..][m] >= start)
  {
    var p := FirstAtLeast(l, start);
    assert forall m :: 0 <= m < |l[p..]| ==> l[p..][m] == l[p + m];
  }

  /** Over indices all below `start`, nothing is selected. */
  lemma {:induction false} CountBelow(v: Var, s: seq<Index>, start: Index, needle: Value, neq: bool)
    requires forall m :: 0 <= m < |s| ==> s[m] < start
    ensures CountIn(v, s, start, needle, neq) == 0
  {
    if |s| > 0 {
      assert s[0] < start;
      CountBelow(v, s[1..], start, needle, neq);
    }
  }

  /** The values along a suffix of a list are the suffix of the values along it. */
  lemma ColumnSlice(v: Var, l: seq<Index>, p: nat)
    requires p <= |l|
    ensures Column(v, l)[p..] == Column(v, l[p..])
  {
    assert forall m :: 0 <= m < |l| - p ==> Column(v, l)[p..][m] == Column(v, l)[p + m];
  }

  lemma SplitAt<T>(s: seq<T>, p: nat)
    requires p <= |s|
    ensures s == s[..p] + s[p..]
  {
  }

  /**
   * The end of `remove`'s scan, deciding on the values `rest` in order: the values `pre` are
   * already decided, a matching value is removed, any other value is kept, and one clearing
   * value follows per removal, `count` of them made already. The first component is the total
   * number of removals.
   */
  function Finish(pre: seq<Value>, rest: seq<Value>, count: nat, k: Kind, needle: Value, neq: bool): (r: (nat, seq<Value>))
    ensures |r.1| == |pre| + |rest| + count && r.0 >= count
    decreases |rest|
  {
    if |rest| == 0 then (count, pre + Clears(k, count))
    else if Matches(rest[0], needle, neq) then Finish(pre, rest[1..], count + 1, k, needle, neq)
    else Finish(pre + [rest[0]], rest[1..], count, k, needle, neq)
  }

  /** The end of the scan in closed form: the kept values in order, then the clearing values. */
  lemma {:induction false} FinishClosed(pre: seq<Value>, rest: seq<Value>, count: nat, k: Kind, needle: Value, neq: bool)
    ensures var m := MatchCount(rest, needle, neq);
      Finish(pre, rest, count, k, needle, neq) == (count + m, pre + Keep(rest, needle, neq) + Clears(k, count + m))
    decreases |rest|, 1
  {
    if |rest| == 0 {
      assert pre + Keep(rest, needle, neq) == pre;
    } else if Matches(rest[0], needle, neq) {
      FinishClosedMatch(pre, rest, count, k, needle, neq);
    } else {
      FinishClosedKeep(pre, rest, count, k, needle, neq);
    }
  }

  lemma {:induction false} FinishClosedMatch(pre: seq<Value>, rest: seq<Value>, count: nat, k: Kind, needle: Value, neq: bool)
    requires |rest| > 0 && Matches(rest[0], needle, neq)
    ensures var m := MatchCount(rest, needle, neq);
      Finish(pre, rest, count, k, needle, neq) == (count + m, pre + Keep(rest, needle, neq) + Clears(k, count + m))
    decreases |rest|, 0
  {
    FinishClosed(pre, rest[1..], count + 1, k, needle, neq);
    assert Keep(rest, needle, neq) == Keep(rest[1..], needle, neq);
    assert MatchCount(rest, needle, neq) == 1 + MatchCount(rest[1..], needle, neq);
  }

  lemma {:induction false} FinishClosedKeep(pre: seq<Value>, rest: seq<Value>, count: nat, k: Kind, needle: Value, neq: bool)
    requires |rest| > 0 && !Matches(rest[0], needle, neq)
    ensures var m := MatchCount(rest, needle, neq);
      Finish(pre, rest, count, k, needle, neq) == (count + m, pre + Keep(rest, needle, neq) + Clears(k, count + m))
    decreases |rest|, 0
  {
    FinishClosed(pre + [rest[0]], rest[1..], count, k, needle, neq);
    assert pre + [rest[0]] + Keep(rest[1..], needle, neq) == pre + Keep(rest, needle, neq);
  }

  /**
   * What is left for the scan to do on the values `col` once positions below `q` are decided
   * and `count` values are removed: the values still in place are those before `|col| - count`,
   * the rest being clearing values already.
   */
  function Resume(col: seq<Value>, q: nat, count: nat, k: Kind, needle: Value, neq: bool): (r: (nat, seq<Value>))
    requires q + count <= |col|
    ensures |r.1| == |col| && r.0 >= count
  {
    Finish(col[..q], col[q..|col| - count], count, k, needle, neq)
  }

  /** A matching first value of `rest` is removed. */
  lemma FinishMatch(pre: seq<Value>, x: Value, rest: seq<Value>, count: nat, k: Kind, needle: Value, neq: bool)
    requires Matches(x, needle, neq)
    ensures Finish(pre, [x] + rest, count, k, needle, neq) == Finish(pre, rest, count + 1, k, needle, neq)
  {
    assert ([x] + rest)[1..] == rest;
  }

  /** A first value of `rest` that does not match is kept. */
  lemma FinishKeep(pre: seq<Value>, x: Value, rest: seq<Value>, count: nat, k: Kind, needle: Value, neq: bool)
    requires !Matches(x, needle, neq)
    ensures Finish(pre, [x] + rest, count, k, needle, neq) == Finish(pre + [x], rest, count, k, needle, neq)
  {
    assert ([x] + rest)[1..] == rest;
  }

  /**
   * The first position the scan has yet to decide on: positions below `p` are never touched and
   * positions below the cursor `i` are decided, up to `hi`, the end of the values still in place.
   */
  function Cursor(p: nat, i: nat, hi: nat): (q: nat)
    ensures q <= hi
  {
    var q := if i < p then p else i;
    if q > hi then hi else q
  }

  /** The outcome of `remove`'s scan from cursor `i` after `count` removals. */
  function Outcome(col: seq<Value>, p: nat, i: nat, count: nat, k: Kind, needle: Value, neq: bool): (r: (nat, seq<Value>))
    requires count <= |col|
    ensures |r.1| == |col| && r.0 >= count
  {
    Resume(col, Cursor(p, i, |col| - count), count, k, needle, neq)
  }

  /** The last `count` values along the members are clearing values moved in by compaction. */
  predicate Settled(col: seq<Value>, count: nat, k: Kind)
  {
    count <= |col| && col[|col| - count..] == Clears(k, count)
  }

  /** With nothing left in place past the cursor, the scan is finished. */
  lemma ResumeStop(col: seq<Value>, count: nat, k: Kind, needle: Value, neq: bool)
    requires Settled(col, count, k)
    ensures Resume(col, |col| - count, count, k, needle, neq) == (count, col)
  {
    var hi := |col| - count;
    assert col[hi..hi] == [];
    assert col[..hi] + [] + col[hi..] == col;
  }

  /** Deciding to keep the non-matching value at `q` changes nothing left to do. */
  lemma ResumeKeep(col: seq<Value>, q: nat, count: nat, k: Kind, needle: Value, neq: bool)
    requires q + count < |col| && !Matches(col[q], needle, neq)
    ensures Resume(col, q + 1, count, k, needle, neq) == Resume(col, q, count, k, needle, neq)
  {
    var hi := |col| - count;
    assert col[..q + 1] == col[..q] + [col[q]];
    var rest := col[q + 1..hi];
    assert col[q..hi] == [col[q]] + rest;
    FinishKeep(col[..q], col[q], rest, count, k, needle, neq);
  }

  /** Compacting away the matching value at `q` changes nothing left to do. */
  lemma ResumeDrop(col: seq<Value>, q: nat, count: nat, k: Kind, needle: Value, neq: bool)
    requires Settled(col, count, k)
    requires q + count < |col| && Matches(col[q], needle, neq)
    ensures Settled(col[..q] + col[q + 1..] + [Clear(k)], count + 1, k)
    ensures Resume(col[..q] + col[q + 1..] + [Clear(k)], q, count + 1, k, needle, neq)
         == Resume(col, q, count, k, needle, neq)
  {
    var rest := col[q + 1..|col| - count];
    DropShape(col, q, count, k);
    ResumeThree(col[..q], rest, count + 1, k, needle, neq);
    ResumeMatch(col, q, count, k, needle, neq);
  }

  /** After compacting position `q` away, the values are those before `q`, those after it still in place, then clearing values. */
  lemma DropShape(col: seq<Value>, q: nat, count: nat, k: Kind)
    requires Settled(col, count, k) && q + count < |col|
    ensures col[..q] + col[q + 1..] + [Clear(k)] == col[..q] + col[q + 1..|col| - count] + Clears(k, count + 1)
  {
    var hi := |col| - count;
    var a, rest := col[..q], col[q + 1..hi];
    assert col[q + 1..] == rest + col[hi..];
    assert Clears(k, count) + [Clear(k)] == Clears(k, count + 1);
    assert a + (rest + Clears(k, count)) + [Clear(k)] == a + rest + (Clears(k, count) + [Clear(k)]);
  }

  /** Resume on values laid out as decided ones, ones still in place, and clearing values. */
  lemma ResumeThree(a: seq<Value>, rest: seq<Value>, count: nat, k: Kind, needle: Value, neq: bool)
    ensures Settled(a + rest + Clears(k, count), count, k)
    ensures Resume(a + rest + Clears(k, count), |a|, count, k, needle, neq) == Finish(a, rest, count, k, needle, neq)
  {
    ThreeSlices(a, rest, Clears(k, count));
  }

  /** Resume at a matching value: it counts as removed and is not kept. */
  lemma ResumeMatch(col: seq<Value>, q: nat, count: nat, k: Kind, needle: Value, neq: bool)
    requires q + count < |col| && Matches(col[q], needle, neq)
    ensures Resume(col, q, count, k, needle, neq) == Finish(col[..q], col[q + 1..|col| - count], count + 1, k, needle, neq)
  {
    var rest := col[q + 1..|col| - count];
    assert col[q..|col| - count] == [col[q]] + rest;
    FinishMatch(col[..q], col[q], rest, count, k, needle, neq);
  }

  lemma ThreeSlices<T>(a: seq<T>, b: seq<T>, c: seq<T>)
    ensures (a + b + c)[..|a|] == a
    ensures (a + b + c)[|a|..|a| + |b|] == b
    ensures (a + b + c)[|a| + |b|..] == c
  {
  }

  /** Past the values still in place only clearing values remain. */
  lemma SettledAt(col: seq<Value>, count: nat, k: Kind, i: nat)
    requires Settled(col, count, k) && |col| - count <= i < |col|
    ensures col[i] == Clear(k)
  {
    assert col[i] == col[|col| - count..][i - (|col| - count)];
  }

  /**
   * The scan loop of `script_array_remove` over the values `col` along the sorted members
   * `list`, as a function of its state (cursor `i`, removals `count`), one iteration per unit of
   * `fuel`; None when the fuel runs out first. A position at or above `start` whose value
   * matches is compacted away (`clr` comes in at the end) and examined again, the C code's `--i`
   * before the loop's `i++`; otherwise the cursor moves on. As written the loop runs while
   * `i < size` and never lowers `size`; with `bounded` it stops at `size - count`, the end of the
   * values still in place.
   */
  function RemoveLoop(fuel: nat, list: seq<Index>, start: Index, col: seq<Value>, i: nat, count: nat,
                      clr: Value, needle: Value, neq: bool, bounded: bool): (r: Option<(nat, seq<Value>)>)
    requires |col| == |list|
    ensures r.Some? ==> r.value.0 >= count && |r.value.1| == |col|
    decreases fuel
  {
    if i >= (if bounded then |list| - count else |list|) then Some((count, col))
    else if fuel == 0 then None
    else if list[i] >= start && Matches(col[i], needle, neq) then
      RemoveLoop(fuel - 1, list, start, col[..i] + col[i + 1..] + [clr], i, count + 1, clr, needle, neq, bounded)
    else
      RemoveLoop(fuel - 1, list, start, col, i + 1, count, clr, needle, neq, bounded)
  }

  /** One iteration of RemoveLoop that compacts the cursor's value away. */
  lemma RemoveLoopHitStep(fuel: nat, list: seq<Index>, start: Index, col: seq<Value>, i: nat, count: nat,
                          clr: Value, needle: Value, neq: bool, bounded: bool)
    requires |col| == |list| && fuel > 0
    requires i < (if bounded then |list| - count else |list|)
    requires list[i] >= start && Matches(col[i], needle, neq)
    ensures RemoveLoop(fuel, list, start, col, i, count, clr, needle, neq, bounded)
         == RemoveLoop(fuel - 1, list, start, col[..i] + col[i + 1..] + [clr], i, count + 1, clr, needle, neq, bounded)
  {
  }

  /** One iteration of RemoveLoop that moves the cursor on. */
  lemma RemoveLoopMissStep(fuel: nat, list: seq<Index>, start: Index, col: seq<Value>, i: nat, count: nat,
                           clr: Value, needle: Value, neq: bool, bounded: bool)
    requires |col| == |list| && fuel > 0
    requires i < (if bounded then |list| - count else |list|)
    requires !(list[i] >= start && Matches(col[i], needle, neq))
    ensures RemoveLoop(fuel, list, start, col, i, count, clr, needle, neq, bounded)
         == RemoveLoop(fuel - 1, list, start, col, i + 1, count, clr, needle, neq, bounded)
  {
  }

  /** A loop that has not stopped but still reaches an outcome has fuel left. */
  lemma RemoveLoopFuel(fuel: nat, list: seq<Index>, start: Index, col: seq<Value>, i: nat, count: nat,
                       clr: Value, needle: Value, neq: bool, bounded: bool)
    requires |col| == |list|
    requires i < (if bounded then |list| - count else |list|)
    requires RemoveLoop(fuel, list, start, col, i, count, clr, needle, neq, bounded).Some?
    ensures fuel > 0
  {
  }

  /** Compacting away a matching value at the cursor, at or above `p`, does not change the outcome. */
  lemma OutcomeHit(col: seq<Value>, p: nat, i: nat, count: nat, k: Kind, needle: Value, neq: bool)
    requires Settled(col, count, k) && p <= i < |col| && Matches(col[i], needle, neq)
    requires i < |col| - count || !Matches(Clear(k), needle, neq)
    ensures i < |col| - count && |col[..i] + col[i + 1..] + [Clear(k)]| == |col|
    ensures Settled(col[..i] + col[i + 1..] + [Clear(k)], count + 1, k)
    ensures Outcome(col[..i] + col[i + 1..] + [Clear(k)], p, i, count + 1, k, needle, neq)
         == Outcome(col, p, i, count, k, needle, neq)
  {
    var hi := |col| - count;
    if i >= hi {
      SettledAt(col, count, k, i);
    }
    assert Cursor(p, i, hi) == i == Cursor(p, i, hi - 1);
    ResumeDrop(col, i, count, k, needle, neq);
  }

  /** Moving the cursor past a value it keeps does not change the outcome. */
  lemma OutcomeMiss(col: seq<Value>, p: nat, i: nat, count: nat, k: Kind, needle: Value, neq: bool)
    requires Settled(col, count, k) && i < |col|
    requires p <= i < |col| - count ==> !Matches(col[i], needle, neq)
    ensures Outcome(col, p, i + 1, count, k, needle, neq) == Outcome(col, p, i, count, k, needle, neq)
  {
    var hi := |col| - count;
    if p <= i < hi {
      ResumeKeep(col, i, count, k, needle, neq);
    } else {
      assert Cursor(p, i + 1, hi) == Cursor(p, i, hi);
    }
  }

  /**
   * From any state whose trailing values are settled, with enough fuel the loop ends as Outcome
   * says, provided the loop is bounded or the clearing value does not match.
   */
  lemma {:induction false} RemoveLoopOutcome(fuel: nat, list: seq<Index>, start: Index, p: nat,
                                             col: seq<Value>, i: nat, count: nat, k: Kind,
                                             needle: Value, neq: bool, bounded: bool)
    requires |col| == |list| && Threshold(list, start, p)
    requires Settled(col, count, k) && i <= |col|
    requires if bounded then i <= |col| - count else !Matches(Clear(k), needle, neq)
    requires fuel >= 2 * |col| - count - i
    ensures RemoveLoop(fuel, list, start, col, i, count, Clear(k), needle, neq, bounded)
         == Some(Outcome(col, p, i, count, k, needle, neq))
    decreases fuel, 1
  {
    if i >= (if bounded then |list| - count else |list|) {
      ResumeStop(col, count, k, needle, neq);
    } else if list[i] >= start && Matches(col[i], needle, neq) {
      assert i >= p;
      RemoveLoopHit(fuel, list, start, p, col, i, count, k, needle, neq, bounded);
    } else {
      assert p <= i ==> list[i] >= start;
      RemoveLoopMiss(fuel, list, start, p, col, i, count, k, needle, neq, bounded);
    }
  }

  /** The step of RemoveLoopOutcome where the cursor's value is compacted away. */
  lemma {:induction false} RemoveLoopHit(fuel: nat, list: seq<Index>, start: Index, p: nat,
                                         col: seq<Value>, i: nat, count: nat, k: Kind,
                                         needle: Value, neq: bool, bounded: bool)
    requires |col| == |list| && Threshold(list, start, p)
    requires Settled(col, count, k)
    requires if bounded then i < |col| - count else !Matches(Clear(k), needle, neq) && i < |col|
    requires fuel >= 2 * |col| - count - i
    requires list[i] >= start && i >= p && Matches(col[i], needle, neq)
    ensures RemoveLoop(fuel, list, start, col, i, count, Clear(k), needle, neq, bounded)
         == Some(Outcome(col, p, i, count, k, needle, neq))
    decreases fuel, 0
  {
    var col' := col[..i] + col[i + 1..] + [Clear(k)];
    OutcomeHit(col, p, i, count, k, needle, neq);
    RemoveLoopHitStep(fuel, list, start, col, i, count, Clear(k), needle, neq, bounded);
    RemoveLoopOutcome(fuel - 1, list, start, p, col', i, count + 1, k, needle, neq, bounded);
  }

  /** The step of RemoveLoopOutcome where the cursor moves on. */
  lemma {:induction false} RemoveLoopMiss(fuel: nat, list: seq<Index>, start: Index, p: nat,
                                          col: seq<Value>, i: nat, count: nat, k: Kind,
                                          needle: Value, neq: bool, bounded: bool)
    requires |col| == |list| && Threshold(list, start, p)
    requires Settled(col, count, k)
    requires if bounded then i < |col| - count else !Matches(Clear(k), needle, neq) && i < |col|
    requires fuel >= 2 * |col| - count - i
    requires !(list[i] >= start && Matches(col[i], needle, neq))
    requires p <= i ==> list[i] >= start
    ensures RemoveLoop(fuel, list, start, col, i, count, Clear(k), needle, neq, bounded)
         == Some(Outcome(col, p, i, count, k, needle, neq))
    decreases fuel, 0
  {
    OutcomeMiss(col, p, i, count, k, needle, neq);
    RemoveLoopMissStep(fuel, list, start, col, i, count, Clear(k), needle, neq, bounded);
    RemoveLoopOutcome(fuel - 1, list, start, p, col, i + 1, count, k, needle, neq, bounded);
  }

  /** The whole scan, from the first position with nothing removed, ends as Outcome says. */
  lemma RemoveLoopFromStart(list: seq<Index>, start: Index, orig: seq<Value>, k: Kind,
                            needle: Value, neq: bool, bounded: bool)
    requires |orig| == |list| && Ascending(list)
    requires !bounded ==> !Matches(Clear(k), needle, neq) || MatchCount(orig[FirstAtLeast(list, start)..], needle, neq) == 0
    ensures var p := FirstAtLeast(list, start); var m := MatchCount(orig[p..], needle, neq);
      RemoveLoop(2 * |list|, list, start, orig, 0, 0, Clear(k), needle, neq, bounded)
        == Some((m, orig[..p] + Keep(orig[p..], needle, neq) + Clears(k, m)))
  {
    var p := FirstAtLeast(list, start);
    FirstAtLeastThreshold(list, start);
    if !bounded && Matches(Clear(k), needle, neq) {
      RemoveLoopUntouched(list, start, orig, k, needle, neq);
      return;
    }
    assert orig[|orig|..] == Clears(k, 0);
    RemoveLoopOutcome(2 * |list|, list, start, p, orig, 0, 0, k, needle, neq, bounded);
    assert Cursor(p, 0, |orig|) == p;
    assert orig[p..|orig|] == orig[p..];
    FinishClosed(orig[..p], orig[p..], 0, k, needle, neq);
  }

  /** With no matching value at or above `start`, the loop as written only moves the cursor along. */
  lemma RemoveLoopUntouched(list: seq<Index>, start: Index, orig: seq<Value>, k: Kind, needle: Value, neq: bool)
    requires |orig| == |list| && Ascending(list)
    requires MatchCount(orig[FirstAtLeast(list, start)..], needle, neq) == 0
    ensures var p := FirstAtLeast(list, start);
      RemoveLoop(2 * |list|, list, start, orig, 0, 0, Clear(k), needle, neq, false)
        == Some((0, orig[..p] + Keep(orig[p..], needle, neq) + Clears(k, 0)))
  {
    var p := FirstAtLeast(list, start);
    MatchCountZero(orig[p..], needle, neq);
    forall m | 0 <= m < |list| && list[m] >= start
      ensures !Matches(orig[m], needle, neq)
    {
      assert orig[m] == orig[p..][m - p];
    }
    RemoveLoopNoMatch(2 * |list|, list, start, orig, 0, 0, Clear(k), needle, neq);
    assert Clears(k, 0) == [];
    SplitAt(orig, p);
    assert orig[..p] + orig[p..] + [] == orig[..p] + orig[p..];
  }

  /** A loop that ends within `fuel` iterations ends the same way with more. */
  lemma {:induction false} RemoveLoopMore(fuel: nat, more: nat, list: seq<Index>, start: Index, col: seq<Value>, i: nat,
                                          count: nat, clr: Value, needle: Value, neq: bool, bounded: bool)
    requires |col| == |list| && more >= fuel
    requires RemoveLoop(fuel, list, start, col, i, count, clr, needle, neq, bounded).Some?
    ensures RemoveLoop(more, list, start, col, i, count, clr, needle, neq, bounded)
         == RemoveLoop(fuel, list, start, col, i, count, clr, needle, neq, bounded)
    decreases fuel
  {
    if i < (if bounded then |list| - count else |list|) {
      RemoveLoopFuel(fuel, list, start, col, i, count, clr, needle, neq, bounded);
      if list[i] >= start && Matches(col[i], needle, neq) {
        RemoveLoopMore(fuel - 1, more - 1, list, start, col[..i] + col[i + 1..] + [clr], i, count + 1, clr, needle, neq, bounded);
      } else {
        RemoveLoopMore(fuel - 1, more - 1, list, start, col, i + 1, count, clr, needle, neq, bounded);
      }
    }
  }

  /** A sequence with no matching value is kept whole. */
  lemma {:induction false} MatchCountZero(cs: seq<Value>, needle: Value, neq: bool)
    requires MatchCount(cs, needle, neq) == 0
    ensures Keep(cs, needle, neq) == cs
    ensures forall m :: 0 <= m < |cs| ==> !Matches(cs[m], needle, neq)
  {
    if |cs| > 0 {
      MatchCountZero(cs[1..], needle, neq);
      assert cs == [cs[0]] + cs[1..];
      assert forall m :: 1 <= m < |cs| ==> cs[m] == cs[1..][m - 1];
    }
  }

  /** From cursor `i`, with nothing left to remove, the loop as written ends with the values unchanged. */
  lemma {:induction false} RemoveLoopNoMatch(fuel: nat, list: seq<Index>, start: Index, col: seq<Value>, i: nat,
                                             count: nat, clr: Value, needle: Value, neq: bool)
    requires |col| == |list| && i <= |list| && fuel >= |list| - i
    requires forall m :: i <= m < |list| && list[m] >= start ==> !Matches(col[m], needle, neq)
    ensures RemoveLoop(fuel, list, start, col, i, count, clr, needle, neq, false) == Some((count, col))
    decreases |list| - i
  {
    if i < |list| {
      RemoveLoopNoMatch(fuel - 1, list, start, col, i + 1, count, clr, needle, neq);
    }
  }

  /**
   * The loop as written never ends once the clearing value matches and some value at or above
   * `start`, at or after the cursor, matches: the first removal puts a matching clearing value
   * at the last position, which lies at or above `start`, and the cursor can never pass it.
   */
  lemma {:induction false} RemoveLoopDiverges(fuel: nat, list: seq<Index>, start: Index, col: seq<Value>, i: nat,
                                              count: nat, clr: Value, needle: Value, neq: bool)
    requires |col| == |list| && Ascending(list) && Matches(clr, needle, neq)
    requires exists j :: i <= j < |col| && list[j] >= start && Matches(col[j], needle, neq)
    ensures RemoveLoop(fuel, list, start, col, i, count, clr, needle, neq, false) == None
    decreases fuel
  {
    var j :| i <= j < |col| && list[j] >= start && Matches(col[j], needle, neq);
    if fuel > 0 {
      if list[i] >= start && Matches(col[i], needle, neq) {
        var col' := col[..i] + col[i + 1..] + [clr];
        var last := |col| - 1;
        assert col'[last] == clr;
        assert list[i] <= list[last];
        RemoveLoopDiverges(fuel - 1, list, start, col', i, count + 1, clr, needle, neq);
      } else {
        assert j != i;
        RemoveLoopDiverges(fuel - 1, list, start, col, i + 1, count, clr, needle, neq);
      }
    }
  }

  /**
   * `script_array_remove` as written terminates exactly when the clearing value does not match
   * or nothing is selected: otherwise its loop never ends, whatever the number of iterations.
   */
  lemma RemoveTerminatesIff(v: Var, start: Index, needle: Value, neq: bool, fuel: nat)
    requires WellFormed(v)
    requires fuel >= 2 * |Members(v)|
    ensures RemoveLoop(fuel, Sorted(v), start, Column(v, Sorted(v)), 0, 0, Clear(v.kind), needle, neq, false).Some?
        == (!Matches(Clear(v.kind), needle, neq) || Count(v, start, needle, neq) == 0)
  {
    if !Matches(Clear(v.kind), needle, neq) || Count(v, start, needle, neq) == 0 {
      RemoveEnds(v, start, needle, neq, fuel);
    } else {
      var x := Find(v, start, needle, false, neq).value;
      RemoveNeverEnds(v, start, needle, neq, x, fuel);
    }
  }

  /** With a clearing value that does not match, or nothing selected, the loop as written ends. */
  lemma RemoveEnds(v: Var, start: Index, needle: Value, neq: bool, fuel: nat)
    requires fuel >= 2 * |Members(v)|
    requires !Matches(Clear(v.kind), needle, neq) || Count(v, start, needle, neq) == 0
    ensures RemoveLoop(fuel, Sorted(v), start, Column(v, Sorted(v)), 0, 0, Clear(v.kind), needle, neq, false).Some?
  {
    var l := Sorted(v);
    CountSorted(v, start, needle, neq);
    CountColumn(v, l, start, needle, neq);
    RemoveLoopFromStart(l, start, Column(v, l), v.kind, needle, neq, false);
    RemoveLoopMore(2 * |l|, fuel, l, start, Column(v, l), 0, 0, Clear(v.kind), needle, neq, false);
  }

  /** With a matching clearing value and a selected member `x`, the loop as written never ends. */
  lemma RemoveNeverEnds(v: Var, start: Index, needle: Value, neq: bool, x: Index, fuel: nat)
    requires Matches(Clear(v.kind), needle, neq)
    requires x in Members(v) && Selected(v, x, start, needle, neq)
    ensures RemoveLoop(fuel, Sorted(v), start, Column(v, Sorted(v)), 0, 0, Clear(v.kind), needle, neq, false) == None
  {
    var l := Sorted(v);
    assert x in l;
    var j :| 0 <= j < |l| && l[j] == x;
    assert Column(v, l)[j] == Get(v, x);
    RemoveLoopDiverges(fuel, Sorted(v), start, Column(v, Sorted(v)), 0, 0, Clear(v.kind), needle, neq);
  }

  /**
   * Once the single slot holds the clearing value "" and every value other than "x" is to be
   * removed, the loop as written compacts that slot forever: no fuel is enough.
   */
  lemma {:induction false} RemoveSpins(fuel: nat, count: nat)
    ensures RemoveLoop(fuel, [0], 0, [Str("")], 0, count, Str(""), Str("x"), true, false) == None
  {
    if fuel > 0 {
      assert [Str("")][..0] + [Str("")][1..] + [Str("")] == [Str("")];
      RemoveSpins(fuel - 1, count + 1);
    }
  }

  /**
   * The Text array {0: "a"}, removing every value other than "x": the loop as written never
   * ends, while the bounded loop stops after one removal with the slot cleared.
   */
  lemma RemoveHangs(fuel: nat)
    ensures RemoveLoop(fuel, [0], 0, [Str("a")], 0, 0, Str(""), Str("x"), true, false) == None
    ensures RemoveLoop(2, [0], 0, [Str("a")], 0, 0, Str(""), Str("x"), true, true) == Some((1, [Str("")]))
  {
    assert [Str("a")][..0] + [Str("a")][1..] + [Str("")] == [Str("")];
    if fuel > 0 {
      RemoveSpins(fuel - 1, 1);
    }
  }

  /**
   * `script_array_remove`'s scan on the store: each iteration is one step of RemoveLoop on the
   * values along `list`, so the store ends as RemoveLoop says. The scan must end within
   * `2 * |list|` iterations, which RemoveLoopOutcome shows whenever the loop is bounded or the
   * clearing value does not match.
   */
  method RemoveScan(v: Var, list: seq<Index>, start: Index, needle: Value, neq: bool, bounded: bool)
    returns (count: nat, w: Var)
    requires v.table.Some? && StrictlyAscending(list)
    requires RemoveLoop(2 * |list|, list, start, Column(v, list), 0, 0, Clear(v.kind), needle, neq, bounded).Some?
    ensures w.table.Some? && w.kind == v.kind && Members(w) == Members(v)
    ensures RemoveLoop(2 * |list|, list, start, Column(v, list), 0, 0, Clear(v.kind), needle, neq, bounded)
         == Some((count, Column(w, list)))
    ensures forall x :: x !in list ==> Get(w, x) == Get(v, x)
  {
    count := 0;
    w := v;
    var size := |list|;
    var i: nat := 0;
    ghost var fuel: nat := 2 * size;
    ghost var final := RemoveLoop(fuel, list, start, Column(v, list), 0, 0, Clear(v.kind), needle, neq, bounded);
    while i < (if bounded then size - count else size)
      invariant w.table.Some? && w.kind == v.kind && Members(w) == Members(v)
      invariant forall x :: x !in list ==> Get(w, x) == Get(v, x)
      invariant final.Some?
      invariant RemoveLoop(fuel, list, start, Column(w, list), i, count, Clear(v.kind), needle, neq, bounded) == final
      decreases fuel
    {
      RemoveLoopFuel(fuel, list, start, Column(w, list), i, count, Clear(v.kind), needle, neq, bounded);
      w, i, count := RemoveStep(w, list, start, i, count, fuel, needle, neq, bounded);
      fuel := fuel - 1;
    }
  }

  /** One iteration of `remove`'s scan on the store: one step of RemoveLoop on the values along `list`. */
  method RemoveStep(w: Var, list: seq<Index>, start: Index, i: nat, count: nat, ghost fuel: nat,
                    needle: Value, neq: bool, bounded: bool)
    returns (w': Var, i': nat, count': nat)
    requires w.table.Some? && StrictlyAscending(list) && fuel > 0
    requires i < (if bounded then |list| - count else |list|)
    ensures w'.table.Some? && w'.kind == w.kind && Members(w') == Members(w)
    ensures forall x :: x !in list ==> Get(w', x) == Get(w, x)
    ensures RemoveLoop(fuel - 1, list, start, Column(w', list), i', count', Clear(w.kind), needle, neq, bounded)
         == RemoveLoop(fuel, list, start, Column(w, list), i, count, Clear(w.kind), needle, neq, bounded)
  {
    ghost var col := Column(w, list);
    if list[i] >= start && Matches(Get(w, list[i]), needle, neq) {
      RemoveLoopHitStep(fuel, list, start, col, i, count, Clear(w.kind), needle, neq, bounded);
      w' := Compact(w, list, i);
      // `--i` followed by the loop's `i++`: the same position is examined again
      i', count' := i, count + 1;
    } else {
      RemoveLoopMissStep(fuel, list, start, col, i, count, Clear(w.kind), needle, neq, bounded);
      w', i', count' := w, i + 1, count;
    }
  }

  /** RemoveScan over the sorted members, with the outcome RemoveLoopOutcome gives. */
  method RemoveSorted(v: Var, start: Index, needle: Value, neq: bool, bounded: bool) returns (count: nat, w: Var)
    requires v.table.Some? && WellFormed(v)
    requires !bounded ==> !Matches(Clear(v.kind), needle, neq) || Count(v, start, needle, neq) == 0
    ensures w.table.Some? && w.kind == v.kind && Members(w) == Members(v)
    ensures var l := Sorted(v); var orig, p := Column(v, l), FirstAtLeast(l, start);
      && count == MatchCount(orig[p..], needle, neq)
      && Column(w, l) == orig[..p] + Keep(orig[p..], needle, neq) + Clears(v.kind, count)
    ensures forall x :: x !in Members(v) ==> Get(w, x) == Get(v, x)
  {
    var list := Sorted(v);
    SortStrict(Members(v));
    CountSorted(v, start, needle, neq);
    CountColumn(v, list, start, needle, neq);
    RemoveLoopFromStart(list, start, Column(v, list), v.kind, needle, neq, bounded);
    count, w := RemoveScan(v, list, start, needle, neq, bounded);
  }

  /**
   * `script_array_remove` as written (the unbounded scan): positions below `start` keep their
   * values, the rest hold the non-matching values in their original order followed by clearing
   * values, and the result is what `count` returns.
   */
  method Remove(v: Var, start: Index, needle: Value, neq: bool) returns (count: nat, w: Var)
    requires WellFormed(v)
    requires !Matches(Clear(v.kind), needle, neq) || Count(v, start, needle, neq) == 0
    ensures w.kind == v.kind && w.table.Some? == v.table.Some? && Members(w) == Members(v)
    ensures count == Count(v, start, needle, neq)
    ensures var l := Sorted(v); var p := FirstAtLeast(l, start);
      Column(w, l) == Column(v, l)[..p] + Keep(Column(v, l)[p..], needle, neq) + Clears(v.kind, count)
    ensures forall x :: x !in Members(v) ==> Get(w, x) == Get(v, x)
  {
    count := 0;
    w := v;
    CountSorted(v, start, needle, neq);
    CountColumn(v, Sorted(v), start, needle, neq);
    if v.table.None? {
      return;
    }
    count, w := RemoveSorted(v, start, needle, neq, false);
  }

  /**
   * `script_array_remove` as evidently intended: the scan is bounded, so it terminates whatever
   * the needle, with the same outcome.
   */
  method RemoveFixed(v: Var, start: Index, needle: Value, neq: bool) returns (count: nat, w: Var)
    requires WellFormed(v)
    ensures w.kind == v.kind && w.table.Some? == v.table.Some? && Members(w) == Members(v)
    ensures count == Count(v, start, needle, neq)
    ensures var l := Sorted(v); var p := FirstAtLeast(l, start);
      Column(w, l) == Column(v, l)[..p] + Keep(Column(v, l)[p..], needle, neq) + Clears(v.kind, count)
    ensures forall x :: x !in Members(v) ==> Get(w, x) == Get(v, x)
  {
    count := 0;
    w := v;
    CountSorted(v, start, needle, neq);
    CountColumn(v, Sorted(v), start, needle, neq);
    if v.table.None? {
      return;
    }
    count, w := RemoveSorted(v, start, needle, neq, true);
  }
}
