# Hercules array plugin: a Dafny model of its array operations

The Hercules `array` plugin (`src/array.c`) adds script commands for sparse script arrays. A
script array is a list of occupied indices (`members`, 32-bit unsigned, in storage order)
with one value per slot. A String array (its name ends in `$`) holds strings. An Integer
array holds 32-bit `int`s. An unset slot reads as the clearing value: `""` or `0`.

This project models the plugin's operations on one array:

- `find`: the first matching member, scanning forwards or backwards.
- `count` and `replace`.
- `pop` and `shift`: take a value from an end.
- `remove`: delete matching values and compact the rest.
- the member count that `array_entries` reports.
- `script_array_index_rcmp`: the comparator used for the backward scan.

A slot is *selected* when its index is at or above `start` and "its value equals the needle"
differs from `neq`.

Modules, one per file:

| module | file | contents |
|---|---|---|
| `Values` | `values.dfy` | values, index and `int` types, the C unsigned/signed conversions |
| `Ordering` | `ordering.dfy` | sorting of index lists (the `qsort` with the ascending comparator), `ARR_FIND`, counting indices at or above a bound |
| `Store` | `store.dfy` | an array (`Var`), reading a slot (`get_val2`), writing one (`set_reg`), the sorted member copy |
| `Comparator` | `comparator.dfy` | `script_array_index_rcmp` and the descending order it is meant to give |
| `Search` | `search.dfy` | `find`, `count` |
| `Rewrite` | `rewrite.dfy` | `replace` |
| `Tail` | `tail.dfy` | `pop` |
| `Compaction` | `compaction.dfy` | `shift`, `remove` |
| `Offsets` | `entries.dfy` | `array_entries` |

Several things the host does are modelled as plain data:

- The host's lookup of the array: `array_src`, the `arrays` table and `idb_get`. Its result is a
  `Var` whose table is `None` when any step finds nothing. Every operation then returns its
  empty result.
- The array's kind. The host decides it from the array's name, so the kind exists even without
  a table.
- A write. It is `Store.Put`, which changes one slot's value.
- The member list. The plugin never changes it itself, and the model keeps it fixed. `find`,
  `count` and `array_entries` write nothing. `pop`, `shift` and `remove` read `members` and
  `size` (or a sorted copy of them) before their first write. `replace` is the exception: its
  loops read `sa->size` and `sa->members[i]` again on every iteration, after earlier writes
  (src/array.c:162-163, 178-179). What the host does with `members` when a slot is set to the
  clearing value is not part of this model; see the `Rewrite.Replace` line under "Left out".

Points where the code's behaviour is easy to misread:

- `shift` and `remove` move values down along the sorted indices. They do not renumber indices:
  an array {0: a, 5: b} shifted once holds {0: b, 5: ""}.
- A LIFO `pop` takes the member stored last. That is not necessarily the largest index.
- After a removal, `remove` examines the same position again (`--i`, then the loop's `i++`). At
  position 0 the unsigned `i` wraps to `UINT_MAX` and back, which `Compaction.RemoveLoop` models
  as staying at position 0.
- `find` returns the index converted to `int`, so an index of 2^31 or more comes back negative
  (`Search.FindCode`).

## Model

| member | source | states |
|---|---|---|
| Values.AsInt | src/array.c:38 | converting a 32-bit unsigned value to `int` keeps it modulo 2^32: unchanged below 2^31, negative from 2^31 on |
| Values.USub | src/array.c:38 | unsigned subtraction is the difference modulo 2^32, and the plain difference when it does not wrap |
| Comparator.Rcmp | src/array.c:36-39 | the as-written comparator agrees with `b - a` modulo 2^32, and equals it when the indices are less than 2^31 apart |
| Comparator.RcmpFixed | src/array.c:36-39 | the intended descending comparison: negative, zero or positive exactly when `a` is above, equal to or below `b` |
| Comparator.RcmpAgreesWhenClose | src/array.c:36-39 | for indices less than 2^31 apart, the sign of the as-written comparator is the intended descending comparison |
| Comparator.RcmpInconsistent | src/array.c:36-39 | for 0 and 2^31, each index is ordered before the other; 0 is put before 2^31 + 1 |
| Comparator.DescendingCopy | src/array.c:53-55 | the backward scan order is a permutation of the members, largest first |
| Comparator.RcmpSortIsDescendingCopy | src/array.c:55 | on indices below 2^31, any permutation `qsort` may return with the as-written comparator is exactly the descending copy |
| Ordering.SortAsc | src/array.c:53-55 | the sorted copy of the members is an ascending permutation of them |
| Ordering.SortedUnique | src/array.c:55 | two ascending permutations of the same indices are equal, so the sorted copy does not depend on how `qsort` orders |
| Ordering.SortStrict | src/array.c:313 | the sorted copy of a duplicate-free member list is strictly ascending |
| Ordering.SortedLastIsMax | src/array.c:217-220 | the last entry of the sorted copy is the largest member |
| Ordering.ArrFind | src/array.c:260-262 | `ARR_FIND` reports the first position in range holding the index, or the end of the range |
| Ordering.AtLeastPermutation | src/array.c:416-418 | the number of indices at or above a bound does not depend on their order |
| Ordering.AtLeastAsSet | src/array.c:416-418 | on a duplicate-free list, counting entries at or above a bound counts the distinct indices at or above it |
| Search.Find | src/array.c:41-94 | `find` returns nothing exactly when no member is selected; otherwise a selected member that is the smallest such one, or the largest one when `reverse` |
| Search.ScanFrom | src/array.c:58-73 | the scan stops at the first selected position, and every position before it is not selected |
| Search.FindCode | src/array.c:69-93 | the C result is -1 for no match, the index itself below 2^31, and a negative number from 2^31 on |
| Search.Count | src/array.c:96-146 | `count` is at most the number of members, and is zero exactly when `find` finds nothing, in either direction |
| Search.CountIn | src/array.c:110-125 | the counting loop counts at most one per listed index; `Count` and the lemmas below pin its value |
| Search.CountSorted | src/array.c:110-125 | counting in storage order equals counting along the sorted copy |
| Search.CountPermutation | src/array.c:110-125 | the count does not depend on the order the indices are listed in |
| Search.CountNeqSplit | src/array.c:110-125 | the counts with `neq` false and true add up to the number of members at or above `start` |
| Search.CountAsSet | src/array.c:110-125 | on a duplicate-free list, the count is the number of distinct selected members |
| Search.CountFrame | src/array.c:110-125 | two arrays that agree on the listed slots give the same count |
| Store.Put | src/array.c:173 | `set_reg` on one slot: that slot reads back the written value, every other slot and the member list are unchanged |
| Rewrite.ReplaceIn | src/array.c:161-193 | the replace loop writes `repl` to every selected slot of the list and leaves every other slot alone; on a duplicate-free list it returns the number of selected slots |
| Rewrite.Replace | src/array.c:148-197 | every selected member now holds `repl` and every other slot is unchanged; on a well-formed array the result is what `count` returns for the same query |
| Rewrite.ReplaceThenCount | src/array.c:148-197 | counting again after a replace gives the same number if `repl` itself matches, and zero otherwise |
| Tail.PopTail | src/array.c:212-226 | with `lifo`, the member stored last is taken; otherwise the largest member is taken if it is at or above `start`. Taking returns its old value and clears only that slot. Nothing is taken from an empty array |
| Tail.Pop | src/array.c:199-237 | a String array pops as `PopTail` says; an Integer array always yields 0 and is unchanged |
| Tail.PopIntegerNeverFires | src/array.c:227-232 | for an Integer array with members {0, 3, 7}, a LIFO pop yields 0 and leaves slot 7 holding 3, where the intended pop returns 3 and clears it |
| Compaction.Compact | src/array.c:266-278 | the compaction loop drops the value at one sorted position, moves every later value down one position and clears the last one; slots not listed are unchanged |
| Compaction.ShiftPos | src/array.c:259-263 | the position `shift` removes: the first stored member with `fifo`, else `start`. With `fifo` on a non-empty array it is always found; without `fifo` it is found exactly when `start` is a member |
| Compaction.Shift | src/array.c:239-296 | when the position exists, its old value is returned and the values above it move down one position, the largest member's slot being cleared; otherwise the clearing value comes back and nothing changes |
| Compaction.FirstAtLeast | src/array.c:316-319 | the positions the remove scan skips are exactly those below `start` |
| Compaction.CountColumn | src/array.c:316-337 | the count of selected members equals the number of matching values from the first position at or above `start` |
| Compaction.FinishClosed | src/array.c:316-337 | deciding the remaining values in order keeps the non-matching ones in order, then one clearing value per removal |
| Compaction.RemoveLoop | src/array.c:316-337 | the remove loop as written, one iteration per unit of fuel: when it ends, it has made at least as many removals as it started with and the values along the members keep their number |
| Compaction.RemoveStep | src/array.c:317-336 | one iteration of the remove loop on the array is one step of `RemoveLoop` on the values along the sorted members; slots not listed are unchanged |
| Compaction.RemoveLoopOutcome | src/array.c:316-337 | from any state whose trailing values are cleared, the remove loop ends with the kept values in order followed by clearing values. This needs enough iterations, and the loop bounded or the clearing value not matching |
| Compaction.RemoveLoopFromStart | src/array.c:315-337 | when the loop is bounded, the clearing value does not match, or nothing is selected, the whole remove scan ends within 2 iterations per member, with the removal count and the compacted values |
| Compaction.RemoveHangs | src/array.c:316-337 | for the String array {0: "a"} with needle "x" and `neq`, the loop as written never ends; the bounded loop stops after one removal with the slot cleared |
| Compaction.RemoveLoopDiverges | src/array.c:316-337 | once the clearing value matches and some value at or after the cursor, at or above `start`, matches, the loop as written never ends |
| Compaction.RemoveLoopNoMatch | src/array.c:316-337 | with no matching value left at or above `start`, the loop as written ends with the values unchanged |
| Compaction.RemoveEnds | src/array.c:316-337 | if the clearing value does not match, or nothing is selected, the loop as written ends within 2 iterations per member |
| Compaction.RemoveNeverEnds | src/array.c:316-337 | if the clearing value matches and something is selected, the loop as written never ends |
| Compaction.RemoveTerminatesIff | src/array.c:316-337 | the loop as written ends exactly when the clearing value does not match or nothing is selected |
| Compaction.RemoveScan | src/array.c:316-337 | the scan loop on the array ends as the loop model says, and slots not listed are unchanged |
| Compaction.Remove | src/array.c:298-367 | whenever the loop as written ends (the clearing value does not match, or nothing is selected), `remove` returns what `count` returns. Below `start` values are unchanged; from `start` on, the non-matching values stay in order followed by clearing values. Slots that are not members are unchanged |
| Compaction.RemoveFixed | src/array.c:298-367 | the bounded `remove` gives the same outcome for every needle, with no condition on the clearing value |
| Offsets.Entries | src/array.c:407-433 | `array_entries` as written is 0 for an empty array or an offset above every member, and at least 1 otherwise; it is exactly 1 for an offset that is not a member but is at most the largest member |
| Offsets.EntriesFixed | src/array.c:407-433 | the intended result is the number of distinct members at or above the offset |
| Offsets.EntriesOfMember | src/array.c:420-425 | for an offset that is a member, `array_entries` equals the intended count |
| Offsets.EntriesAboveAll | src/array.c:420-421 | above the largest member, both the operation and the intended count are 0 |
| Offsets.EntriesAgree | src/array.c:420-425 | the operation agrees with the intended count exactly when the offset is a member or at most one member lies at or above it |
| Offsets.EntriesUndercounts | src/array.c:424-425 | for members {0, 2, 5, 9} and offset 3, the operation gives 1 where the intended count is 2 |

## Left out

- The script command wrappers (`BUILDIN` functions, src/array.c:393-526) are left out. They read
  script arguments and push the results; they add no logic beyond the operations above, except
  `array_entries`, which is modelled as `Offsets.Entries`.
- Plugin registration and the hook setup (src/array.c:531-547) are left out: they are host glue.
- Host lookups are left out: `array_src`, `add_word`, `search_str`, `reference_uid`,
  `is_string_variable`. Their results are parameters: the `Var`'s table and kind.
- Memory management is left out: `aStrdup`, `aFree`, `array_cpy_list` buffers, the
  `script_removetop` stack cleanup.
- The `h64BPTRSIZE` pointer-to-integer casts are left out. An Integer value is modelled as the
  `int` it carries.
- The host's ascending comparator `script_array_index_cmp` is not part of this model. The sorted
  copy is specified as the ascending permutation of the members.
- What the host does to `members` when a slot receives the clearing value is not part of this
  model. Members stay listed.
- Compaction.Remove: requires that the clearing value does not match the query, or that
  nothing is selected. Otherwise the loop as written never ends (`Compaction.RemoveNeverEnds`),
  so there is no outcome to state; `Compaction.RemoveTerminatesIff` shows the condition is exact.
- Rewrite.Replace: assumes `members` stays fixed while the loop runs. The C loop reads
  `sa->size` and `sa->members[i]` again after each `set_reg` (src/array.c:162-163, 173,
  178-179, 189). Suppose the host drops an index from `members` when its slot gets the clearing
  value. Then a `replace` whose replacement is `""` or `0` skips the member after each one it
  replaces. The model does not cover that.
- Compaction.Shift, Compaction.Remove and Compaction.RemoveFixed: require a well-formed array
  (no index listed twice). The host keeps `members` free of duplicates, and compaction along a
  list with duplicates is not meaningful.
- Search.Find: for `reverse` the scan order is the descending copy, not the order `qsort`
  produces with the as-written comparator. The two coincide on indices below 2^31
  (`Comparator.RcmpSortIsDescendingCopy`); above that, `qsort` with an inconsistent comparator
  has no defined result.

## Findings

| source | as written | input that shows it | evidently intended | confidence | as-written member | corrected member |
|---|---|---|---|---|---|---|
| src/array.c:36-39 | the descending comparator returns `b - a` computed on `unsigned int` and converted to `int` | indices 0 and 2^31: each compares as smaller than the other; 0 and 2^31 + 1: 0 is placed first | a consistent descending order for all 32-bit indices | not executed | Comparator.RcmpInconsistent | Comparator.RcmpSortIsDescendingCopy |
| src/array.c:227 | the Integer branch of `pop` is guarded by `lifo && (!lifo && ...)`, which is never true | Integer array {0: 1, 3: 2, 7: 3}, LIFO pop: yields 0 and leaves slot 7 holding 3 | the same guard as the String branch, `lifo \|\| (!lifo && ...)` | not executed | Tail.PopIntegerNeverFires | Tail.PopTail |
| src/array.c:316-337 | after a removal `--i` re-examines the position, but the loop bound `size` is never lowered, so the clearing values moved in at the end are examined too | String array {0: "a"}, needle "x", `neq` true: the slot is cleared to "", which matches again, forever | the scan stops at the values still in place, `size - count` | not executed | Compaction.RemoveHangs | Compaction.RemoveFixed |
| src/array.c:424 | `ARR_FIND` searches positions `0 .. size - 2` for the offset, so a non-member offset gets position `size - 1` | members {0, 2, 5, 9}, offset 3: answers 1 | the number of members at or above the offset, 2 | not executed | Offsets.EntriesUndercounts | Offsets.EntriesFixed |
