/** `script_array_pop`: take the value at the tail of an array and clear its slot. */
module Tail {
  import opened Values
  import opened Ordering
  import opened Store

  /** `r` is the outcome of taking slot `x`: its old value is returned and only it is cleared. */
  predicate Taken(v: Var, r: (Value, Var), x: Index)
  {
    && r.0 == Get(v, x)
    && Get(r.1, x) == Clear(v.kind)
    && forall y :: y != x ==> Get(r.1, y) == Get(v, y)
  }

  /**
   * The pop the Text branch performs, for either kind: with `lifo` the last member in storage
   * order is taken; otherwise the largest member is taken if it is at or above `start`. When
   * nothing is taken the placeholder (the clearing value) comes back and nothing changes.
   */
  function PopTail(v: Var, start: Index, lifo: bool): (r: (Value, Var))
    ensures r.1.kind == v.kind && r.1.table.Some? == v.table.Some? && Members(r.1) == Members(v)
    ensures |Members(v)| == 0 ==> r == (Clear(v.kind), v)
    ensures |Members(v)| > 0 && lifo ==> Taken(v, r, Members(v)[|Members(v)| - 1])
    ensures |Members(v)| > 0 && !lifo && MaxOf(Members(v)) >= start ==> Taken(v, r, MaxOf(Members(v)))
    ensures |Members(v)| > 0 && !lifo && MaxOf(Members(v)) < start ==> r == (Clear(v.kind), v)
  {
    if v.table.None? then (Clear(v.kind), v)
    else
      var size := |Members(v)|;
      var list := if lifo then Members(v) else Sorted(v);
      if size >= 1 && (lifo || list[size - 1] >= start) then
        SortedLastIsMax(Members(v));
        var x := list[size - 1];
        (Get(v, x), Put(v, x, Clear(v.kind)))
      else
        assert size >= 1 && !lifo ==> list[size - 1] == MaxOf(Members(v)) by {
          if size >= 1 && !lifo {
            SortedLastIsMax(Members(v));
          }
        }
        (Clear(v.kind), v)
  }

  /**
   * `script_array_pop` as written: a Text array pops as PopTail describes, but the guard of the
   * Integer branch (`lifo && (!lifo && ...)`) is never true, so an Integer array always yields 0
   * and is left unchanged.
   */
  function Pop(v: Var, start: Index, lifo: bool): (r: (Value, Var))
    ensures v.kind == Integer ==> r == (Num(0), v)
    ensures v.kind == Text ==> r == PopTail(v, start, lifo)
  {
    if v.kind == Text then PopTail(v, start, lifo) else (Clear(Integer), v)
  }

  /** The Integer array {0: 1, 3: 2, 7: 3}: a LIFO pop yields 0 and keeps 3, instead of taking it. */
  lemma PopIntegerNeverFires()
    ensures var v := Var(Integer, Some(Table([0, 3, 7], map[0 := Num(1), 3 := Num(2), 7 := Num(3)])));
      && Pop(v, 0, true) == (Num(0), v)
      && Get(Pop(v, 0, true).1, 7) == Num(3)
      && PopTail(v, 0, true).0 == Num(3)
      && Get(PopTail(v, 0, true).1, 7) == Num(0)
  {
    var v := Var(Integer, Some(Table([0, 3, 7], map[0 := Num(1), 3 := Num(2), 7 := Num(3)])));
    assert Members(v)[|Members(v)| - 1] == 7;
  }
}
