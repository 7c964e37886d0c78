# Paired reference-count removal, modelled in Dafny

This project models noir's SSA optimisation pass `remove_paired_rc`, which is
in `compiler/noirc_evaluator/src/ssa/opt/rc.rs`. The pass runs on one function
at a time. It deletes an `inc_rc` of the entry block together with a
`dec_rc` of the same value in the last block. It does this only when no
reachable `array_set` writes to an array of that value's type. The pass does
not compare positions: it collects the entry block's `inc_rc`s first and then
pairs the last block's `dec_rc`s. So when one block is both the entry and the
last block, a `dec_rc v` that comes before an `inc_rc v` is still paired with
it, and both are deleted (`PairedRcTests.DecFirstRemoval`). Taint is kept
per type, not per value: the array that is written may be an alias of the
tracked one, reached through a parameter or a value loaded from a reference.

The pass has a guard and four stages. The model follows them one by one.

- **Guard.** Functions with no parameter whose type contains an array are
  left alone.
- **Population.** Each entry-block `inc_rc v` appends an untainted record
  `(id, v, false)` to the list kept for v's type.
- **Taint.** Every `array_set` of a reachable block marks every pending record
  of its array's type as possibly mutated.
- **Match.** Each last-block `dec_rc v` pops the first pending record of value
  exactly `v`. When that record is unmarked, both instruction ids are chosen
  for removal.
- **Erase.** Every reachable block keeps, in order, exactly the instructions
  that were not chosen.

Files:

- `wrappers.dfy`: `Option`.
- `types.dfy`: the SSA `Type` and `ContainsAnArray`.
- `ir.dfy`: the instructions the pass looks at, and the `Function` class. Its
  blocks are the only state the pass changes.
- `rc_spec.dfy` (module `RcSpec`): each stage as a function on values, with
  the lemmas about it.
- `rc.dfy` (module `PairedRc`): the pass as the source writes it.
  - `Context` is a class holding the pending-increment table. Its methods
    have loops, each proved equal to the stage function.
  - `PopRcFor`, `RemoveInstructions` and `RemovePairedRc` are methods.
  - The file also holds the whole-pass theorems.
- `rc_tests.dfy` (module `PairedRcTests`): the three unit tests of `rc.rs` as
  verified scenarios, plus a function that fails the guard and a block whose
  `dec_rc` comes before its `inc_rc`.

Modelling choices:

- A `Function` is a class. These are immutable fields:
  - the parameters;
  - the type of each value;
  - the instruction behind each id;
  - the entry block, the last block and the list of reachable blocks.

  `blocks` (block id to instruction ids) is the field that `remove_instructions`
  updates in place.
- `Context.incRcs` is a `map<Type, seq<RcInstruction>>`. The source's
  `HashMap` and `Vec` are mutated by `push`, by flag assignment and by
  `Vec::remove`. The model reassigns the field instead.
- `pop_rc_for` takes the table by mutable reference. `PopRcFor` returns the
  popped record and the new table.
- The comment above `find_rcs_to_remove` (`rc.rs:109`) speaks of the "most
  recent" `inc_rc`. The code's `position` takes the first matching record,
  so pairing is first-in-first-out. The model follows the code.

## Model

| member | source | states |
|---|---|---|
| PairedRc.AnyContainsAnArray | compiler/noirc_evaluator/src/ssa/opt/rc.rs:71-74 | true exactly when some parameter's type contains an array |
| PairedRc.ContainsArrayParameter | compiler/noirc_evaluator/src/ssa/opt/rc.rs:71-74 | the guard holds exactly when some parameter of the function has a type that contains an array |
| PairedRc.EntryIncRcs | compiler/noirc_evaluator/src/ssa/opt/rc.rs:62-64 | the table the first stage builds from the entry block: each type's list is that type's reference list of `inc_rc`s, and every record sits under its own value's type |
| PairedRc.MutatedTypes | compiler/noirc_evaluator/src/ssa/opt/rc.rs:65 | a type is tainted exactly when some `array_set` in some reachable block writes to an array of that type |
| PairedRc.TaintedIncRcs | compiler/noirc_evaluator/src/ssa/opt/rc.rs:62-65 | after the taint stage the table has the entry table's types, lengths, ids and values, and a record is marked exactly when its type is tainted |
| PairedRc.RemovalSet | compiler/noirc_evaluator/src/ssa/opt/rc.rs:62-66 | the ids the three stages choose; it has no contract of its own, and `PairedRc.RemovalSetOrigins`, `PairedRc.RemovalSetPairsValues` and `PairedRc.SurvivingPairIsTainted` state what it holds |
| PairedRc.RemovePairedRc | compiler/noirc_evaluator/src/ssa/opt/rc.rs:55-68 | when the guard fails the blocks are unchanged; otherwise the reachable blocks lose exactly the ids of the removal set that the three stages compute from the original blocks, and the function stays well-formed |
| PairedRc.Context.constructor | compiler/noirc_evaluator/src/ssa/opt/rc.rs:62 | a new context starts with an empty pending-increment table |
| PairedRc.Context.FindRcsInEntryBlock | compiler/noirc_evaluator/src/ssa/opt/rc.rs:77-90 | after the loop over the entry block, the table is the population of the old table by that block |
| RcSpec.IncRcsOfTypeMeaning | compiler/noirc_evaluator/src/ssa/opt/rc.rs:80-87 | every record of the reference list for a type is an untainted record of an entry-block `inc_rc` of a value of that type; every such `inc_rc` has its record in the list |
| RcSpec.RecordIncRc | compiler/noirc_evaluator/src/ssa/opt/rc.rs:81-86 | an `inc_rc v` adds a list for v's type if there was none and appends the untainted record `(id, v, false)` to it; every other list, and the whole table for any other instruction, is unchanged |
| RcSpec.Populate | compiler/noirc_evaluator/src/ssa/opt/rc.rs:80-88 | the population loop as a fold over the block; it never drops a type's list, and `RcSpec.PopulateByType` states what it appends |
| RcSpec.PopulateByType | compiler/noirc_evaluator/src/ssa/opt/rc.rs:77-90 | population appends to each type's list exactly that type's `inc_rc`s in encounter order; a list exists for a type exactly when it existed before or the block has an `inc_rc` of that type |
| RcSpec.PopulateFromEmpty | compiler/noirc_evaluator/src/ssa/opt/rc.rs:77-90 | after population from an empty table, every record sits under its own value's type, names an `inc_rc` of the block that increments its value, and is unmarked |
| PairedRc.Context.MarkPossiblyMutated | compiler/noirc_evaluator/src/ssa/opt/rc.rs:99-103 | the inner loop marks every record of one type and nothing else |
| PairedRc.Context.ScanBlockForArraySets | compiler/noirc_evaluator/src/ssa/opt/rc.rs:96-105 | scanning one block taints the types that block's `array_set`s write to |
| PairedRc.Context.ScanForArraySets | compiler/noirc_evaluator/src/ssa/opt/rc.rs:94-107 | after the scan, the table is the old table with every type written by an `array_set` of a reachable block tainted |
| RcSpec.ArraySetTypesMeaning | compiler/noirc_evaluator/src/ssa/opt/rc.rs:96-98 | a type is in a block's written-to set exactly when some `array_set` of the block has an array of that type |
| RcSpec.ArraySetTypes | compiler/noirc_evaluator/src/ssa/opt/rc.rs:96-98 | the types one block's `array_set`s write to, as a fold; `RcSpec.ArraySetTypesMeaning` states its content |
| RcSpec.ReachableArraySetTypes | compiler/noirc_evaluator/src/ssa/opt/rc.rs:94-98 | the types the `array_set`s of all reachable blocks write to; `RcSpec.ReachableArraySetTypesMeaning` states its content |
| RcSpec.MarkAll | compiler/noirc_evaluator/src/ssa/opt/rc.rs:99-103 | the inner loop's effect on one list: same length, same ids and values, every record marked |
| RcSpec.ReachableArraySetTypesMeaning | compiler/noirc_evaluator/src/ssa/opt/rc.rs:94-98 | a type is tainted exactly when some `array_set` in some reachable block has an array of that type |
| RcSpec.MarkMutated | compiler/noirc_evaluator/src/ssa/opt/rc.rs:99-103 | tainting keeps the keys, the list lengths and each record's id and value; each flag becomes old flag or type tainted, so a flag is never reset and untainted types are untouched |
| RcSpec.MarkMutatedTwice | compiler/noirc_evaluator/src/ssa/opt/rc.rs:95-106 | tainting by one set of types and then by another is tainting once by their union, so the order of the scan does not matter |
| RcSpec.MarkMutatedKeyedByType | compiler/noirc_evaluator/src/ssa/opt/rc.rs:99-103 | tainting keeps every record under its own value's type |
| RcSpec.FirstIndexOf | compiler/noirc_evaluator/src/ssa/opt/rc.rs:139 | None exactly when no record has the value; otherwise the index of the first record that has it |
| RcSpec.PopRc | compiler/noirc_evaluator/src/ssa/opt/rc.rs:131-142 | None exactly when the type has no list or the list has no record of the value, with the table unchanged; otherwise the first record of exactly that value, removed from its list alone, the rest in order, and every other list unchanged |
| PairedRc.PopRcFor | compiler/noirc_evaluator/src/ssa/opt/rc.rs:131-142 | the search loop and removal return what `RcSpec.PopRc` specifies |
| RcSpec.PopRcConserves | compiler/noirc_evaluator/src/ssa/opt/rc.rs:138-141 | a pop keeps the keys and takes exactly the popped record, once, out of its type's list |
| RcSpec.PopRcShrinks | compiler/noirc_evaluator/src/ssa/opt/rc.rs:138-141 | after a pop, each list holds only records it held before |
| RcSpec.PopRcKeeps | compiler/noirc_evaluator/src/ssa/opt/rc.rs:138-141 | a pop that does not return a record leaves that record in its list |
| PairedRc.Context.FindRcsToRemove | compiler/noirc_evaluator/src/ssa/opt/rc.rs:111-127 | the loop over the last block leaves the table and returns the removal set that the matching specification gives from the old table and an empty set |
| RcSpec.MatchConservesRecords | compiler/noirc_evaluator/src/ssa/opt/rc.rs:115-124 | matching keeps the keys; per type, the pending records plus the consumed ones are, as a multiset, exactly the records it started with, so each record is consumed at most once |
| RcSpec.MatchStep | compiler/noirc_evaluator/src/ssa/opt/rc.rs:116-122 | one instruction of the last block keeps the table's types and only adds to the removal set; anything but a `dec_rc` changes nothing, and a step that chooses ids chooses its own `dec_rc` |
| RcSpec.Match | compiler/noirc_evaluator/src/ssa/opt/rc.rs:115-124 | the matching loop as a fold over the last block; `RcSpec.MatchConservesRecords`, `RcSpec.MatchRemovesUntaintedPairs` and `RcSpec.MatchShrinks` state what it does |
| RcSpec.MatchNeverGains | compiler/noirc_evaluator/src/ssa/opt/rc.rs:115-124 | no record is consumed more often than it was pending, and no list gains records |
| RcSpec.PairingsAreDecrements | compiler/noirc_evaluator/src/ssa/opt/rc.rs:115-117 | each consumption is made by a `dec_rc` of the last block of exactly the consumed record's value |
| RcSpec.PairingsFromTable | compiler/noirc_evaluator/src/ssa/opt/rc.rs:117 | each consumed record was in the starting list of its value's type |
| RcSpec.MatchRemovesUntaintedPairs | compiler/noirc_evaluator/src/ssa/opt/rc.rs:116-121 | an id is chosen exactly when it is the `inc_rc` or the `dec_rc` of a consumption whose record was unmarked |
| RcSpec.MatchShrinks | compiler/noirc_evaluator/src/ssa/opt/rc.rs:115-124 | matching keeps the keys, lists keep only records they held, and the removal set only grows |
| RcSpec.MatchKeepsUnremoved | compiler/noirc_evaluator/src/ssa/opt/rc.rs:117-121 | an unmarked record whose `inc_rc` was not chosen is still pending at the end |
| RcSpec.MatchExhaustsUnremoved | compiler/noirc_evaluator/src/ssa/opt/rc.rs:116-121 | when a type's records are all unmarked, an unchosen `dec_rc` of that type leaves no pending record of its value |
| RcSpec.Retain | compiler/noirc_evaluator/src/ssa/opt/rc.rs:149 | a block never grows by erasure |
| RcSpec.RetainMembers | compiler/noirc_evaluator/src/ssa/opt/rc.rs:149 | an id survives exactly when it was in the block and is not in the removal set |
| RcSpec.RetainCount | compiler/noirc_evaluator/src/ssa/opt/rc.rs:149 | every occurrence of a surviving id is kept, and none of a removed id |
| RcSpec.RetainConcat | compiler/noirc_evaluator/src/ssa/opt/rc.rs:149 | retaining distributes over concatenation, so survivors keep their relative order |
| RcSpec.RetainUnchanged | compiler/noirc_evaluator/src/ssa/opt/rc.rs:149 | a block none of whose ids is in the removal set is unchanged |
| RcSpec.RetainIdempotent | compiler/noirc_evaluator/src/ssa/opt/rc.rs:149 | retaining twice by the same set is retaining once |
| RcSpec.Erase | compiler/noirc_evaluator/src/ssa/opt/rc.rs:146-150 | erasure keeps the set of blocks |
| RcSpec.EraseNothing | compiler/noirc_evaluator/src/ssa/opt/rc.rs:145 | erasing an empty removal set changes no block |
| PairedRc.RemoveInstructions | compiler/noirc_evaluator/src/ssa/opt/rc.rs:144-152 | the loop leaves the blocks equal to the erasure of the reachable blocks by the removal set, and the function stays well-formed |
| PairedRc.RemovalSetOrigins | compiler/noirc_evaluator/src/ssa/opt/rc.rs:115-124 | every removed id is an entry-block `inc_rc` or a last-block `dec_rc` of a value whose type no reachable `array_set` writes to |
| PairedRc.ArraySetBlocksRemoval | compiler/noirc_evaluator/src/ssa/opt/rc.rs:14-21 | an `array_set` anywhere in a reachable block keeps every `inc_rc` and `dec_rc` of a value of the same type |
| PairedRc.RemovalSetPairsValues | compiler/noirc_evaluator/src/ssa/opt/rc.rs:111-127 | each removed `dec_rc` has a removed entry-block `inc_rc` of exactly its value, and each removed `inc_rc` has a removed last-block `dec_rc` of exactly its value |
| PairedRc.RemovedPair | compiler/noirc_evaluator/src/ssa/opt/rc.rs:115-124 | each removed id belongs to a removed pair of one value whose type is untainted |
| PairedRc.SurvivingPairIsTainted | compiler/noirc_evaluator/src/ssa/opt/rc.rs:109-127 | an entry-block `inc_rc` and a last-block `dec_rc` of the same value both survive only when their type is tainted |
| PairedRc.ErasureKeepsMutatedTypes | compiler/noirc_evaluator/src/ssa/opt/rc.rs:144-152 | erasure keeps every `array_set`, so the tainted types after the pass include those before |
| PairedRc.NotRemovedTwice | compiler/noirc_evaluator/src/ssa/opt/rc.rs:55-68 | with the entry and last block reachable, no id is in the removal set of a second run |
| PairedRc.RemovalIdempotent | compiler/noirc_evaluator/src/ssa/opt/rc.rs:55-68 | with the entry and last block reachable, a second run chooses nothing and leaves the blocks as they are |
| PairedRc.RemovePairedRcTwice | compiler/noirc_evaluator/src/ssa/opt/rc.rs:55-68 | running the method twice leaves the same blocks as running it once |
| PairedRcTests.CountIncRcs | compiler/noirc_evaluator/src/ssa/opt/rc.rs:162-170 | the number of ids among `ids` whose instruction is an `inc_rc`, as the test helper's filter and count give it; never more than the number of ids |
| PairedRcTests.CountDecRcs | compiler/noirc_evaluator/src/ssa/opt/rc.rs:172-180 | the number of ids among `ids` whose instruction is a `dec_rc`, as the test helper's filter and count give it; never more than the number of ids |
| PairedRcTests.ReturnArrayPopulate | compiler/noirc_evaluator/src/ssa/opt/rc.rs:191-192 | the two `inc_rc v0` give two unmarked records, in order, under `[Field; 2]` |
| PairedRcTests.ReturnArrayScan | compiler/noirc_evaluator/src/ssa/opt/rc.rs:190-195 | the function taints no type |
| PairedRcTests.ReturnArrayPop | compiler/noirc_evaluator/src/ssa/opt/rc.rs:193 | popping for `v0` returns its first record and leaves the second |
| PairedRcTests.ReturnArrayDecStep | compiler/noirc_evaluator/src/ssa/opt/rc.rs:193 | the `dec_rc v0` chooses itself and the first `inc_rc` |
| PairedRcTests.ReturnArrayMatch | compiler/noirc_evaluator/src/ssa/opt/rc.rs:191-193 | `dec_rc v0` consumes the first record, and both it and the first `inc_rc` are chosen |
| PairedRcTests.ReturnArrayRemoval | compiler/noirc_evaluator/src/ssa/opt/rc.rs:183-205 | the pass chooses exactly ids 0 and 2 |
| PairedRcTests.ReturnArrayRetain | compiler/noirc_evaluator/src/ssa/opt/rc.rs:190-195 | the entry block keeps the second `inc_rc` and the `make_array` |
| PairedRcTests.ReturnArrayErase | compiler/noirc_evaluator/src/ssa/opt/rc.rs:183-205 | erasure leaves the block with the second `inc_rc` and the `make_array` |
| PairedRcTests.ReturnArrayGuard | compiler/noirc_evaluator/src/ssa/opt/rc.rs:190 | a `[Field; 2]` parameter passes the guard |
| PairedRcTests.ReturnArrayCounts | compiler/noirc_evaluator/src/ssa/opt/rc.rs:162-180 | what is left holds one `inc_rc` and no `dec_rc` |
| PairedRcTests.SingleBlockFnReturnArray | compiler/noirc_evaluator/src/ssa/opt/rc.rs:183-205 | one `inc_rc` and no `dec_rc` are left in the entry block |
| PairedRcTests.MutationRemoval | compiler/noirc_evaluator/src/ssa/opt/rc.rs:208-234 | the `array_set` on `v2` taints `[Field; 2]`, so nothing is chosen |
| PairedRcTests.MutationCounts | compiler/noirc_evaluator/src/ssa/opt/rc.rs:162-180 | the block holds one `inc_rc` and one `dec_rc` |
| PairedRcTests.SingleBlockMutation | compiler/noirc_evaluator/src/ssa/opt/rc.rs:208-234 | one `inc_rc` and one `dec_rc` are left |
| PairedRcTests.ThroughReferenceGuard | compiler/noirc_evaluator/src/ssa/opt/rc.rs:245 | a `&mut [Field; 2]` parameter passes the guard |
| PairedRcTests.ThroughReferenceRemoval | compiler/noirc_evaluator/src/ssa/opt/rc.rs:239-267 | the `array_set` on `v2` taints the `inc_rc v1`, so nothing is chosen |
| PairedRcTests.ThroughReferenceCounts | compiler/noirc_evaluator/src/ssa/opt/rc.rs:162-180 | the block holds one `inc_rc` and one `dec_rc` |
| PairedRcTests.SingleBlockMutationThroughReference | compiler/noirc_evaluator/src/ssa/opt/rc.rs:239-267 | one `inc_rc` and one `dec_rc` are left |
| PairedRcTests.NoArrayGuard | compiler/noirc_evaluator/src/ssa/opt/rc.rs:71-74 | a `Field` parameter fails the guard |
| PairedRcTests.NoArrayParameter | compiler/noirc_evaluator/src/ssa/opt/rc.rs:58-60 | when the guard fails, a removable pair is left in place |
| PairedRcTests.DecFirstRemoval | compiler/noirc_evaluator/src/ssa/opt/rc.rs:109-127 | in a block that is both entry and last, a `dec_rc v0` placed before the `inc_rc v0` is still paired with it, and both are chosen |

## Left out

- The `Ssa`-level loop over every function (`rc.rs:22-28`) and its tracing attribute are left out. The functions are independent, so the model runs the pass on one `Function`.
- `reachable_blocks` and `find_last_block` are given inputs of `Function`. The CFG analysis behind them is not part of this model.
- `Type::contains_an_array` is defined in the IR's type module, which is not part of this model. `Types.ContainsAnArray` models it as: arrays and slices contain an array, references follow their element, and numeric and function types do not.
- The SSA text parser. The scenarios build each test's function directly, numbering values `vN` as `N` and instructions in order of appearance.
- Which instructions exist besides `inc_rc`, `dec_rc` and `array_set` (they are all `Other`), the `mutable` flag of `array_set`, and the fields of `dec_rc` besides its value. The pass does not read them. The index and value of `array_set` are kept in `Ir.Instruction` as value ids, but the pass never reads them either.
- How the hash maps and sets hash. They are modelled as Dafny `map` and `set`.
- "No scan is performed" when the guard fails cannot be observed on the result. `RemovePairedRc` states only that the blocks are unchanged. `PairedRcTests.NoArrayParameter` shows the effect of the guard: a pair that the stages would remove is left in place, so the pass does no work rather than finding zero pairs.
- `RemovalIdempotent`, `NotRemovedTwice` and `RemovePairedRcTwice` need the entry and the last block to be among the reachable blocks. Without that, erasure does not touch a `dec_rc` whose `inc_rc` it removed, and a second run can pair it with another `inc_rc` of that value.
- The command-line files `check_cmd.rs` and `witness.rs` are left out. They are workspace setup, file-system I/O and printing around the compiler and serializers, which are not part of this model.
