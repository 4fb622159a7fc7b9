# aiida-submission-controller, modelled in Dafny

This project models the admission control and deduplication of `aiida-submission-controller`.
The controller submits work items to an execution engine in batches. Each work item is identified
by a tuple of *extras* values, its key. The controller keeps the processes of a managed group
that are still unsealed (active) within `max_concurrent`, and it never submits a key that some
process in the group already carries.

The model works over an abstract store:

- A process, or a node of a parent group, is a `Node`. It has a primary key, a flat map of
  extras and a `sealed` flag.
- A group is the sequence of its nodes, in query order.
- A key is a sequence of `Value`s (string, boolean or integer).
- A projected row is a sequence of `Option<Value>`: `None` where the node lacks the extra.
- Queries, the engine and the plugin registry become plain inputs.
- Submitting a process means appending a new, unsealed node, tagged with
  `dict(zip(unique keys, key))`, to the group's sequence.

Modules, one per part of the program:

- `Store` (`store.dfy`): values, nodes, projections `extras.<k>`, rows, the `zip` dictionary,
  tagging and the active count.
- `KeyOrder` (`key_order.dfy`): the order `sorted()` puts keys in, and the sorted sequence of a
  set of keys.
- `Base` (`base.dfy`): the packaged controller. The class `Controller` has the group as a field.
  Its submitted-key map, slot accounting and `submit_new_batch` are methods proved against
  specification functions. The lemmas cover deduplication, capacity and counts, and the
  scenario of the package's tests.
- `Prototype` (`prototype.dfy`): the earlier single-file controller. It is modelled side by side
  with `Base`, with lemmas that state where the two agree and where they differ.
- `FromGroup` (`from_group.dfy`): the backlog read off the members of a parent group, and the
  lookup of the parent node that carries a key.
- `AdditionTable` (`add_in_batches.dfy`): the 12x12 addition-table example. The prototype file
  carries the same backlog code.
- `Structures`, `PwBaseFromGroup`, `PwBase` (`structures.dfy`, `pw_base_from_group.dfy`,
  `pw_base.dfy`): the two quantum-espresso examples. Each keeps the `mpid` of a structure
  whose kinds the pseudopotential family covers.

The specification and the code disagree in three places. The model follows the code in each:

- **Active count.** The code counts every unsealed process of the group, with a count query
  (`aiida_submission_controller/base.py:143-146`). It does not use the size of a key map. So a
  process without its key extras, or one that repeats a key, still occupies a slot.
- **Submitted-processes map.** `get_all_submitted_processes` does not skip rows with missing
  extras (`base.py:133-135`). Only `get_all_submitted_pks` does.
- **Skipped keys.** A materialization that yields the skip result `(None, None)` is not skipped
  by `submit_new_batch` (`base.py:186-192`). Unpacking `**None` raises `TypeError` before the
  engine is called, so the real run stops at that key (see "## Left out").

## Model

| member | source | states |
|---|---|---|
| Store.Projections | aiida_submission_controller/base.py:79-90 | one projection per unique key |
| Store.ResolveProjection | aiida_submission_controller/base.py:87-90 | the projection `extras.<k>` reads the extra `k` of a node |
| Store.ProjectionsInjective | aiida_submission_controller/base.py:87-90 | the projections are distinct exactly when the unique keys are, so map keys follow the unique-key order |
| Store.KeyRowReadsExtras | aiida_submission_controller/base.py:104-109 | position `i` of a projected row is the extra named by unique key `i`, or `None` |
| Store.ZipDictKeys | aiida_submission_controller/base.py:194-195 | `dict(zip(names, values))` defines exactly the names paired with a value (zip stops at the shorter) |
| Store.ZipDictAt | aiida_submission_controller/base.py:194-195 | with distinct names, `dict(zip(names, values))[names[i]] == values[i]` |
| Store.TaggedRecordsKey | aiida_submission_controller/base.py:192-196 | tagging round trip: a node tagged with `zip(unique keys, key)` projects back to exactly `key` |
| Store.CountActiveNew | aiida_submission_controller/base.py:192-196 | the processes of a real batch are all active, one per key |
| Store.CountActiveBound | aiida_submission_controller/base.py:143-146 | the active count never exceeds the group size |
| KeyOrder.KeyLessAsym | aiida_submission_controller/base.py:174-175 | the tuple order used by `sorted()` is asymmetric |
| KeyOrder.KeyLessTrans | aiida_submission_controller/base.py:174-175 | the tuple order is transitive |
| KeyOrder.KeyLessTotal | aiida_submission_controller/base.py:174-175 | any two different keys are ordered one way or the other |
| KeyOrder.MinKey | aiida_submission_controller/base.py:174-176 | a non-empty set of keys has a least key, the first that `sorted()` yields |
| KeyOrder.SortedKeys | aiida_submission_controller/base.py:174-175 | `sorted(s)` holds every key of `s` once, in strictly increasing order |
| KeyOrder.SortedNoDup | aiida_submission_controller/base.py:174-175 | a strictly sorted sequence has no repeats |
| Base.SubmittedPksSpec | aiida_submission_controller/base.py:108-113 | a key is in the submitted map iff some process records all its extras with those values; its pk is that of the last such process |
| Base.SubmittedKeysAppendOne | aiida_submission_controller/base.py:110-113 | a process missing a unique extra adds no key; a complete one adds exactly its key |
| Base.SubmittedProcessesSpec | aiida_submission_controller/base.py:129-137 | a row is in the processes map iff some process (unsealed, when only active) projects to it, incomplete rows included; the value is such a process |
| Base.SubmittedKeysSpec | aiida_submission_controller/base.py:139-141 | a key is submitted exactly when some process of the group, active or sealed, carries it |
| Base.SubmittedKeysBound | aiida_submission_controller/base.py:164-167 | there are never more submitted keys than processes |
| Base.AvailableSlots | aiida_submission_controller/base.py:153-156 | `max(0, max_concurrent - active)`: zero iff active ≥ max_concurrent, else the difference |
| Base.Controller.GetAllSubmittedPks | aiida_submission_controller/base.py:92-115 | the loop builds the submitted map, skipping rows with a `None` and letting a later row overwrite |
| Base.Controller.GetAllSubmittedProcesses | aiida_submission_controller/base.py:117-137 | the loop builds the row-to-process map, only over unsealed processes when asked |
| Base.Controller.CheckSubmittedExtras | aiida_submission_controller/base.py:139-141 | the set of submitted keys |
| Base.Controller.NumActiveSlots | aiida_submission_controller/base.py:143-151 | the number of unsealed processes, at most the group size |
| Base.Controller.NumAvailableSlots | aiida_submission_controller/base.py:153-156 | zero iff the active count reaches `max_concurrent`, otherwise the free capacity |
| Base.Controller.NumToRun | aiida_submission_controller/base.py:158-162 | to-run plus the backlog keys already submitted (active or sealed) is the backlog size |
| Base.Controller.NumAlreadyRun | aiida_submission_controller/base.py:164-167 | the number of distinct submitted keys, at most the group size |
| Base.Controller.SelectBatch | aiida_submission_controller/base.py:171-180 | the check-then-append loop selects distinct unsubmitted backlog keys, `min(candidates, available slots)` many, the smallest in order when sorting |
| Base.Controller.SubmitNewBatch | aiida_submission_controller/base.py:169-199 | dry run: batch keys mapped to nothing, group unchanged; real run: the group gains exactly one tagged, active process per key, in order, and the keys map to their new pks |
| Base.Controller.SubmitAll | aiida_submission_controller/base.py:185-199 | the real-run loop appends exactly the tagged processes, in order, and maps each key to its pk |
| Base.NoResubmission | aiida_submission_controller/base.py:172-173 | no key carried by any process of the group, active or sealed, is in the batch |
| Base.BatchKeepsCapacity | aiida_submission_controller/base.py:176-180 | a batch raises the active count by its size, keeps it within `max_concurrent` when it was, and is empty when the group is full |
| Base.CarriesNew | aiida_submission_controller/base.py:192-196 | the new processes of a batch carry exactly the batch keys |
| Base.SubmittedKeysAfterBatch | aiida_submission_controller/base.py:185-198 | after a real batch the submitted keys are the earlier ones plus exactly the batch keys |
| Base.CountsAfterBatch | aiida_submission_controller/base.py:158-167 | a real batch raises already-run by its size (monotone) and lowers to-run by its size |
| Base.SortedBatchIsDetermined | aiida_submission_controller/base.py:174-180 | with sorting the batch is a function of candidates and active count, so repeated dry runs agree |
| Base.ProcsKeys | tests/test_base.py:51-62 | a group of processes tagged only with `idx` has exactly their `idx`s as submitted keys |
| Base.TestPksGroupKeys | tests/test_base.py:104-119 | five active processes ("0",) .. ("4",): the submitted map has five entries, keyed ("0",) .. ("4",) |
| Base.TestGroupKeys | tests/test_base.py:159-169 | the batch test's group has submitted keys ("0",) to ("4",), whether or not ("3",) is sealed |
| Base.TestAllProcesses | tests/test_base.py:143-145 | over all processes the processes map has the five rows ("0",) .. ("4",) |
| Base.TestIncompleteNodeIgnored | tests/test_base.py:121-131 | a process without `idx` leaves five keys; once tagged `idx = 6` there are six |
| Base.TestActiveProcesses | tests/test_base.py:147-150 | with three processes sealed, the active rows are ("3",) and ("4",) |
| Base.TestActiveCounts | tests/test_base.py:165-178 | two active processes, one after sealing ("3",) |
| Base.TestCandidates | tests/test_base.py:165-169 | the unsubmitted backlog is ("5",) to ("9",) |
| Base.TestInitialState | tests/test_base.py:165-173 | active 2, available 0, to run 5, already run 5, and the dry-run batch is empty |
| Base.TestAfterOneSeal | tests/test_base.py:175-182 | after one process seals, the sorted dry-run batch is exactly ("5",) |
| Base.TestLeastCandidate | tests/test_base.py:180-182 | ("5",) is the least unsubmitted key |
| Base.AllSealedInactive | aiida_submission_controller/base.py:143-146 | a group whose processes are all sealed occupies no slot |
| Base.BacklogSize | tests/test_base.py:161-163 | the test backlog ("0",) .. ("9",) has ten distinct keys |
| Base.FinalGroupKeys | tests/test_base.py:184-199 | with sealed processes for ("0",) .. ("9",), the submitted keys are the whole backlog |
| Base.TestLaterBatches | tests/test_base.py:184-195 | with every process sealed, the sorted dry runs select ("6",), ("7",) and then ("8",), ("9",) |
| Base.SortedFirstTwo | aiida_submission_controller/base.py:174-175 | `sorted()` starts with the least key, then the least of the rest |
| Base.TestFinalState | tests/test_base.py:197-204 | at the end: active 0, available 2, to run 0, already run 10, and the dry-run batch is empty |
| Prototype.AllSubmittedPksSpec | submission_controller.py:64-66 | every projected row, complete or not, is in the prototype's map, and the last process projecting to it wins |
| Prototype.SubmittedRowsSplit | submission_controller.py:59-68 | the prototype's rows are the packaged controller's keys (as rows) plus the incomplete rows of the group |
| Prototype.PrototypeCandidates | submission_controller.py:128 | the candidates are backlog keys |
| Prototype.SameCandidates | submission_controller.py:128 | prototype candidates equal the backlog minus every submitted key, active or sealed, as in the packaged controller |
| Prototype.PrototypeBatchAtExit | submission_controller.py:131-134 | when the append-then-check loop stops, its batch has the size the prototype rule gives |
| Prototype.PrototypeController.GetAllSubmittedPks | submission_controller.py:47-68 | the loop builds the row-to-pk map with no skip, a later row overwriting |
| Prototype.PrototypeController.GetAllSubmittedProcesses | submission_controller.py:70-91 | the loop builds the row-to-process map over all processes |
| Prototype.PrototypeController.CheckSubmittedExtras | submission_controller.py:93-95 | the set of submitted rows, incomplete ones included |
| Prototype.PrototypeController.NumActiveSlots | submission_controller.py:97-107 | the number of unsealed processes, at most the group size |
| Prototype.PrototypeController.NumAvailableSlots | submission_controller.py:109-112 | zero iff the active count reaches `max_concurrent`, otherwise the free capacity |
| Prototype.PrototypeController.NumToRun | submission_controller.py:114-117 | the same count as the packaged controller's: backlog minus submitted keys |
| Prototype.PrototypeController.NumAlreadyRun | submission_controller.py:119-122 | counts rows with missing extras too, so never fewer than the packaged controller's count |
| Prototype.PrototypeController.SelectBatch | submission_controller.py:127-134 | the append-then-check loop: none without candidates, else `min(candidates, max(1, max_concurrent - active))`, smallest first when sorting |
| Prototype.PrototypeController.SubmitNewBatch | submission_controller.py:124-151 | dry run maps the batch to nothing and changes nothing; real run appends one tagged active process per key |
| Prototype.PrototypeController.SubmitAll | submission_controller.py:139-151 | the real-run loop appends exactly the tagged processes, in order, and maps each key to its pk |
| Prototype.PrototypeCountsIncomplete | submission_controller.py:119-122 | every submitted key appears among the prototype's rows, so its already-run count is at least the packaged one |
| Prototype.AgreesWithBaseBelowCeiling | submission_controller.py:131-134 | below the ceiling, prototype and packaged batches are the same |
| Prototype.PrototypeOverfillsFullGroup | submission_controller.py:131-134 | with the group full and a candidate left, the prototype submits one key and the active count exceeds `max_concurrent` |
| Prototype.PrototypeOverfillsTestScenario | submission_controller.py:131-134 | in the test scenario (two active, capacity two) the prototype submits ("5",) and reaches three active |
| FromGroup.AllExtrasToSubmit | aiida_submission_controller/from_group.py:64-97 | fails iff a member misses an extra, else fails iff two members share a key; on success the set holds each member's key, one per member, each of one value per unique key |
| FromGroup.KeysOfCompleteRows | aiida_submission_controller/from_group.py:88-96 | complete member rows give distinct keys exactly when the rows are distinct, each recorded by its member |
| FromGroup.MatchingMembers | aiida_submission_controller/from_group.py:47-57 | the query returns exactly the members passing every filter: only those, and every one of them |
| FromGroup.MatchingCount | aiida_submission_controller/from_group.py:56-62 | no match iff no member passes; exactly one match iff a single member passes |
| FromGroup.ParentNodeFromExtras | aiida_submission_controller/from_group.py:39-62 | wrong arity fails first; otherwise the unique passing member, or a failure reporting 0 or (at the query limit) 2 matches |
| FromGroup.FiltersSelectRecorded | aiida_submission_controller/from_group.py:45 | filter `i` pairs projection `i` with value `i`, so a node passes iff it records the key |
| FromGroup.EnumeratedKeysLeadBack | aiida_submission_controller/from_group.py:39-97 | every enumerated key leads back to the one member carrying it |
| AdditionTable.AllExtrasToSubmit | examples/add_in_batches.py:32-41 | the nested loops yield exactly the pairs 1 ≤ l, r ≤ 12, 144 keys of two values (the same loops are at submission_controller.py:206-210) |
| AdditionTable.InputsFromExtras | examples/add_in_batches.py:43-54 | `x` is value 0 and `y` value 1 of the key; a shorter key is an index error |
| AdditionTable.InputsMatchTags | examples/add_in_batches.py:25-54 | for a table cell, `x` and `y` are the process's `left_operand` and `right_operand` tags |
| AdditionTable.InputsInjective | examples/add_in_batches.py:51-52 | distinct cells get distinct operands |
| AdditionTable.CheckCodePlugin | examples/add_in_batches.py:18-23 | the label is accepted unchanged iff the plugin type is `core.arithmetic.add` |
| Structures.Selected | examples/pw_base_from_group.py:44-49 | the query keeps exactly the group structures passing its filters |
| Structures.MpidRow | examples/pw_base_from_group.py:31-37 | a structure's row is its `mpid` extra, under the schema `('mpid',)` |
| Structures.CoveredRows | examples/pw_base_from_group.py:52-56 | a row is kept iff some structure with kinds covered by the family projects to it |
| PwBaseFromGroup.AllExtrasToSubmit | examples/pw_base_from_group.py:35-63 | fails iff a kept `(mpid,)` repeats; otherwise the set of kept rows, one per kept structure |
| PwBaseFromGroup.KeptExactlyCovered | examples/pw_base_from_group.py:53-56 | a row is kept iff a selected structure whose kinds are covered has that `mpid` |
| PwBase.SelectedHaveMpid | examples/pw_base.py:44-54 | every queried structure has an `mpid` extra and passes the user filters |
| PwBase.LiftAllFaithful | examples/pw_base.py:61-62 | keys and their rows have the same members and the same repeats |
| PwBase.CollectedKeys | examples/pw_base.py:62 | collecting into a set keeps membership and merges exactly the repeats |
| PwBase.AllExtrasToSubmit | examples/pw_base.py:40-65 | the keys of covered structures with an `mpid`; repeats merge silently (fewer keys than kept rows iff a repeat) |
| PwBase.FirstWithMpid | examples/pw_base.py:67-79 | the first structure with the given `mpid`, or an index error when there is none |
| PwBase.StructureFromExtras | examples/pw_base.py:67-79 | index error iff the key is empty or no structure has its `mpid`; else a structure with that `mpid` |
| PwBase.InputsFromExtras | examples/pw_base.py:81-129 | lookup errors propagate; a failed pseudopotential lookup gives the skip result for that `mpid` |
| PwBase.EnumeratedKeysMaterialize | examples/pw_base.py:40-86 | every enumerated key finds its structure, so only the pseudopotential lookup can skip it |

## Left out

- Query construction, `get_or_create`, `load_code`, `load_group` and the plugin factories are
  not modelled. The group's nodes, the parent group's members, the user filters and the plugin
  type of a code are inputs instead.
- The order of query rows is whatever order the store returns. The model takes it as the order
  of the input sequence.
- `engine.submit`, `set_extra_many` and `add_nodes` are modelled together as one step: appending
  a new, unsealed node tagged with `zip(unique keys, key)`. The engine's new primary keys are
  the parameter `firstPk` and the keys after it. Nothing requires them to differ from the pks
  already in the group. Materialized inputs are not passed to the engine.
- Base.Controller.SubmitAll: the real run is modelled as never raising. In the source
  (`base.py:186-197`) it aborts mid-batch when materialization raises or yields the skip result
  `(None, None)` (`**None` raises `TypeError`). The earlier keys of the batch are then already
  tagged and in the group, and the rest are not submitted. With `sort=True` such a key comes
  first again on every later call, so the controller makes no progress past it. Examples are the
  `IndexError` at `pw_base.py:78` and the lookup failure at `from_group.py:42-61`.
- Prototype.PrototypeController.SubmitAll: the real run is modelled as never raising. In the
  source (`submission_controller.py:140-149`) it aborts mid-batch in the same way, with the
  earlier keys already tagged and in the group.
- Both controllers query the group's members as `orm.ProcessNode` (`base.py:72`,
  `submission_controller.py:63,101`), so other members of the group are invisible to them.
  The `group` sequence stands for the process members only.
- The `assert` checks at `from_group.py:42,90,95` and `pw_base_from_group.py:61` are modelled
  as always running. Under `python -O` they are removed, and those failures do not happen.
- Sealing by the engine, and two controllers sharing one group, are not modelled. The sealed
  flags are given, and the active count is one snapshot per batch.
- Python equality and ordering are not modelled in full. `True == 1` and `1 == 1.0` are left
  out. Sorting keys that mix strings and integers raises `TypeError` in Python; the model
  instead ranks booleans before integers before strings. Floats are not modelled.
- Backlog keys cannot hold `None`, by their type. Extras are a flat map, so nested dotted paths
  are not modelled.
- Error messages are not modelled, except in `CheckCodePlugin`.
- PwBaseFromGroup.AllExtrasToSubmit: the `sorted()` at `pw_base_from_group.py:59` is left out.
  It changes neither the set of elements nor the length, so the duplicate check and the result
  are unaffected. Its `TypeError` on mixed value types is not modelled.
- `get_inputs_and_processclass_from_extras` in `pw_base_from_group.py:65-77` is not modelled.
  It builds inputs with a foreign protocol builder, and line 69 passes `None` (the result of
  `dict.update`) as the overrides.
- The input dictionary of `pw_base.py:88-123` is not modelled: it holds floating-point
  parameters. The pseudopotential and cutoff lookup is the input predicate `lookupSucceeds`.
- A structure without a `kinds` attribute is not modelled, in `pw_base` or in
  `pw_base_from_group` (`pw_base_from_group.py:54` raises `TypeError` on it). Neither is a user filter
  on `extras` replacing the `has_key` filter when the filter dicts are merged.
- `orm.Int` is not applied to the operands: AdditionTable.InputsFromExtras passes the raw key
  values.
- Printing, result tables and polling loops in the `__main__`/`main` sections are not
  modelled. Neither is packaging.
- `get_extras_dict` and the constructor arguments used by the tests are not modelled: they are
  not part of the base class modelled here.

## Findings

| source | as written | input that shows it | evidently intended | confidence | as-written member | corrected member |
|---|---|---|---|---|---|---|
| submission_controller.py:131-134 | the key is appended first, then `len(to_submit) + active >= max_concurrent` stops the loop | a group with two active processes, `max_concurrent = 2`, one unsubmitted backlog key: the key is submitted and three processes are active | no more than `max_concurrent` active processes, as the docstring says and as `base.py:176-180` does by checking before appending | not executed | Prototype.PrototypeOverfillsFullGroup | Base.BatchKeepsCapacity |
