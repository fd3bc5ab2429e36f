/** `script_array_replace`: overwrite every selected slot in place. */
module Rewrite {
  import opened Values
  import opened Ordering
  import opened Store
  import opened Search

  /**
   * The loop of `script_array_replace` over `s`, in order, reading each slot from the store as
   * the earlier writes left it.
   */
  function ReplaceIn(v: Var, s: seq<Index>, start: Index, needle: Value, repl: Value, neq: bool): (r: (nat, Var))
    requires v.table.Some?
    ensures r.1.table.Some? && r.1.kind == v.kind && Members(r.1) == Members(v)
    ensures forall x :: x in s && Selected(v, x, start, needle, neq) ==> Get(r.1, x) == repl
    ensures forall x :: !(x in s && Selected(v, x, start, needle, neq)) ==> Get(r.1, x) == Get(v, x)
    ensures Distinct(s) ==> r.0 == CountIn(v, s, start, needle, neq)
    decreases |s|
  {
    if |s| == 0 then (0, v)
    else if Selected(v, s[0], start, needle, neq) then
      var w := Put(v, s[0], repl);
      var r := ReplaceIn(w, s[1..], start, needle, repl, neq);
      assert s == [s[0]] + s[1..];
      assert Distinct(s) ==> CountIn(w, s[1..], start, needle, neq) == CountIn(v, s[1..], start, needle, neq) by {
        if Distinct(s) {
          assert s[0] !in s[1..];
          CountFrame(v, w, s[1..], start, needle, neq);
        }
      }
      (r.0 + 1, r.1)
    else
      assert s == [s[0]] + s[1..];
      ReplaceIn(v, s[1..], start, needle, repl, neq)
  }

  /**
   * `script_array_replace`: every selected member now holds `repl`, every other slot is as it
   * was, the member list is untouched, and on a well-formed array the result is what `count`
   * returns for the same query.
   */
  function Replace(v: Var, start: Index, needle: Value, repl: Value, neq: bool): (r: (nat, Var))
    ensures r.1.kind == v.kind && r.1.table.Some? == v.table.Some? && Members(r.1) == Members(v)
    ensures forall x :: x in Members(v) && Selected(v, x, start, needle, neq) ==> Get(r.1, x) == repl
    ensures forall x :: !(x in Members(v) && Selected(v, x, start, needle, neq)) ==> Get(r.1, x) == Get(v, x)
    ensures WellFormed(v) ==> r.0 == Count(v, start, needle, neq)
  {
    if v.table.None? then (0, v)
    else ReplaceIn(v, Members(v), start, needle, repl, neq)
  }

  /**
   * After a replace, a repeated count finds the same slots if the replacement itself matches,
   * and none otherwise.
   */
  lemma ReplaceThenCount(v: Var, start: Index, needle: Value, repl: Value, neq: bool)
    ensures Count(Replace(v, start, needle, repl, neq).1, start, needle, neq)
         == if Matches(repl, needle, neq) then Count(v, start, needle, neq) else 0
  {
    var r := Replace(v, start, needle, repl, neq);
    var w := r.1;
    CountAfterReplace(v, w, Members(v), start, needle, repl, neq);
  }

  lemma {:induction false} CountAfterReplace(v: Var, w: Var, s: seq<Index>, start: Index, needle: Value, repl: Value, neq: bool)
    requires forall x :: x in s ==>
      Get(w, x) == if Selected(v, x, start, needle, neq) then repl else Get(v, x)
    ensures CountIn(w, s, start, needle, neq)
         == if Matches(repl, needle, neq) then CountIn(v, s, start, needle, neq) else 0
  {
    if |s| > 0 {
      assert s[0] in s;
      assert forall x :: x in s[1..] ==> x in s;
      CountAfterReplace(v, w, s[1..], start, needle, repl, neq);
    }
  }
}
