/**
 * A named script array as the plugin sees it: its kind, and -- when the host has one -- its
 * occupied-index list `members` (storage order) with the per-slot values behind it.
 *
 * Writes go through `Put`, the stand-in for the host's `set_reg`. Writing the clearing value
 * is modelled as a value write only: `members` is never changed by the plugin's operations.
 */
module Store {
  import opened Values
  import opened Ordering

  datatype Table = Table(members: seq<Index>, vals: map<Index, Value>)

  /** `table == None` is an array the host cannot resolve (no source, no arrays, or no entry). */
  datatype Var = Var(kind: Kind, table: Option<Table>)

  function Members(v: Var): seq<Index>
  {
    if v.table.None? then [] else v.table.value.members
  }

  /** `get_val2` on one slot: an unset slot reads as the clearing value of the array's kind. */
  function Get(v: Var, i: Index): Value
  {
    if v.table.Some? && i in v.table.value.vals then v.table.value.vals[i] else Clear(v.kind)
  }

  /** `set_reg` on one slot. */
  function Put(v: Var, i: Index, x: Value): (w: Var)
    requires v.table.Some?
    ensures w.table.Some? && w.kind == v.kind && Members(w) == Members(v)
    ensures Get(w, i) == x
    ensures forall j :: j != i ==> Get(w, j) == Get(v, j)
  {
    var t := v.table.value;
    v.(table := Some(t.(vals := t.vals[i := x])))
  }

  /** The host's invariant on an array: no index is listed twice. */
  predicate WellFormed(v: Var)
  {
    Distinct(Members(v))
  }

  /** `array_cpy_list` followed by `qsort` with the ascending comparator. */
  function Sorted(v: Var): seq<Index>
  {
    SortAsc(Members(v))
  }

  /** The values read along a list of indices, one per position. */
  function Column(v: Var, l: seq<Index>): (c: seq<Value>)
    ensures |c| == |l|
    ensures forall k {:trigger c[k]} :: 0 <= k < |l| ==> c[k] == Get(v, l[k])
  {
    seq(|l|, k requires 0 <= k < |l| => Get(v, l[k]))
  }

  /** `n` copies of the clearing value. */
  function Clears(k: Kind, n: nat): (c: seq<Value>)
    ensures |c| == n
    ensures forall m :: 0 <= m < n ==> c[m] == Clear(k)
  {
    seq(n, _ => Clear(k))
  }
}
