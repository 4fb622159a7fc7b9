/**
 * The batch submission controller: which work items were already submitted to the managed
 * group, how many slots are free, and which keys the next batch submits.
 */
module Base {
  import opened Wrappers
  import opened Store
  import opened KeyOrder

  // ---------------------------------------------------------------------------------------
  // Query results folded into dictionaries

  /**
   * `get_all_submitted_pks` over the group's rows in query order: a row missing one of the
   * unique-key extras is skipped, and a later row overwrites an earlier one with the same key.
   */
  function SubmittedPks(group: seq<Node>, uniqueKeys: seq<string>): map<Key, nat>
    decreases |group|
  {
    if group == [] then map[]
    else
      var m := SubmittedPks(group[..|group| - 1], uniqueKeys);
      var n := group[|group| - 1];
      var row := KeyRow(n, uniqueKeys);
      if Complete(row) then m[Unwrap(row) := n.pk] else m
  }

  /** `_check_submitted_extras`: the keys of all processes in the group, active and sealed. */
  function SubmittedKeys(group: seq<Node>, uniqueKeys: seq<string>): set<Key> {
    SubmittedPks(group, uniqueKeys).Keys
  }

  /**
   * `get_all_submitted_processes`: every row of the group (only the unsealed ones when
   * `onlyActive`), keyed by its projected row with no skip of missing extras; a later row
   * overwrites an earlier one.
   */
  function SubmittedProcesses(group: seq<Node>, uniqueKeys: seq<string>, onlyActive: bool): map<Row, Node>
    decreases |group|
  {
    if group == [] then map[]
    else
      var m := SubmittedProcesses(group[..|group| - 1], uniqueKeys, onlyActive);
      var n := group[|group| - 1];
      if onlyActive && n.sealed then m else m[KeyRow(n, uniqueKeys) := n]
  }

  /** A key is in the submitted map exactly when some process of the group carries it. */
  lemma {:induction false} SubmittedPksSpec(group: seq<Node>, uniqueKeys: seq<string>, k: Key)
    ensures k in SubmittedPks(group, uniqueKeys) <==>
      exists i :: 0 <= i < |group| && RecordsKey(group[i], uniqueKeys, k)
    ensures k in SubmittedPks(group, uniqueKeys) ==>
      exists i :: 0 <= i < |group| && RecordsKey(group[i], uniqueKeys, k)
        && SubmittedPks(group, uniqueKeys)[k] == group[i].pk
        && forall j :: i < j < |group| ==> !RecordsKey(group[j], uniqueKeys, k)
    decreases |group|
  {
    if group != [] {
      var init, n := group[..|group| - 1], group[|group| - 1];
      SubmittedPksSpec(init, uniqueKeys, k);
      var row := KeyRow(n, uniqueKeys);
      if Complete(row) {
        LiftUnwrap(row);
        LiftInjective(Unwrap(row), k);
      }
      assert RecordsKey(n, uniqueKeys, k) <==> Complete(row) && Unwrap(row) == k;
      if RecordsKey(n, uniqueKeys, k) {
        assert RecordsKey(group[|group| - 1], uniqueKeys, k);
      } else if k in SubmittedPks(init, uniqueKeys) {
        var i :| 0 <= i < |init| && RecordsKey(init[i], uniqueKeys, k)
          && SubmittedPks(init, uniqueKeys)[k] == init[i].pk
          && forall j :: i < j < |init| ==> !RecordsKey(init[j], uniqueKeys, k);
        assert group[i] == init[i];
        forall j | i < j < |group| ensures !RecordsKey(group[j], uniqueKeys, k) {
          if j < |init| { assert group[j] == init[j]; }
        }
      } else {
        forall i | 0 <= i < |group| ensures !RecordsKey(group[i], uniqueKeys, k) {
          if i < |init| { assert group[i] == init[i]; }
        }
      }
    }
  }

  /** A row is in the processes map exactly when some (active, if asked) process projects to it. */
  lemma {:induction false} SubmittedProcessesSpec(group: seq<Node>, uniqueKeys: seq<string>, onlyActive: bool, row: Row)
    ensures row in SubmittedProcesses(group, uniqueKeys, onlyActive) <==>
      exists i :: 0 <= i < |group| && KeyRow(group[i], uniqueKeys) == row && (onlyActive ==> !group[i].sealed)
    ensures row in SubmittedProcesses(group, uniqueKeys, onlyActive) ==>
      var n := SubmittedProcesses(group, uniqueKeys, onlyActive)[row];
      n in group && KeyRow(n, uniqueKeys) == row && (onlyActive ==> !n.sealed)
    decreases |group|
  {
    if group != [] {
      var init, n := group[..|group| - 1], group[|group| - 1];
      SubmittedProcessesSpec(init, uniqueKeys, onlyActive, row);
      if row in SubmittedProcesses(init, uniqueKeys, onlyActive) {
        var i :| 0 <= i < |init| && KeyRow(init[i], uniqueKeys) == row && (onlyActive ==> !init[i].sealed);
        assert group[i] == init[i];
      }
      if exists i :: 0 <= i < |group| && KeyRow(group[i], uniqueKeys) == row && (onlyActive ==> !group[i].sealed) {
        var i :| 0 <= i < |group| && KeyRow(group[i], uniqueKeys) == row && (onlyActive ==> !group[i].sealed);
        if i < |init| { assert init[i] == group[i]; }
      }
      assert forall x :: x in init ==> x in group;
    }
  }

  /** There are never more submitted keys than processes in the group. */
  lemma {:induction false} SubmittedKeysBound(group: seq<Node>, uniqueKeys: seq<string>)
    ensures |SubmittedKeys(group, uniqueKeys)| <= |group|
    decreases |group|
  {
    if group != [] {
      SubmittedKeysBound(group[..|group| - 1], uniqueKeys);
    }
  }

  // ---------------------------------------------------------------------------------------
  // Slot accounting

  function Min(a: nat, b: nat): nat {
    if a <= b then a else b
  }

  /** `num_available_slots`: `max(0, max_concurrent - active)`. */
  function AvailableSlots(maxConcurrent: int, active: nat): (n: nat)
    ensures n == 0 <==> active >= maxConcurrent
    ensures active < maxConcurrent ==> n == maxConcurrent - active
  {
    if maxConcurrent - active > 0 then maxConcurrent - active else 0
  }

  /**
   * What `submit_new_batch` selects from the not-yet-submitted `candidates`, given `active`
   * unsealed processes: distinct candidates, as many as there are candidates or free slots,
   * whichever is fewer, and with `sort` the smallest ones in increasing order.
   */
  ghost predicate IsBatch(batch: seq<Key>, candidates: set<Key>, active: nat, maxConcurrent: int, sort: bool) {
    && NoDup(batch)
    && Elems(batch) <= candidates
    && |batch| == Min(|candidates|, AvailableSlots(maxConcurrent, active))
    && (sort ==> batch == SortedKeys(candidates)[..|batch|])
  }

  /** Taking the least remaining key continues `sorted()` order. */
  lemma SortedStep(all: set<Key>, done: seq<Key>, rest: set<Key>)
    requires rest != {}
    requires SortedKeys(all) == done + SortedKeys(rest)
    ensures SortedKeys(all) == (done + [MinKey(rest)]) + SortedKeys(rest - {MinKey(rest)})
  {
  }

  /** Moving one remaining candidate into the batch keeps the batch duplicate-free and exact. */
  lemma AdmitStep(all: set<Key>, done: seq<Key>, rest: set<Key>, k: Key)
    requires k in rest && rest <= all
    requires NoDup(done)
    requires forall x :: x in done <==> x in all && x !in rest
    ensures NoDup(done + [k])
    ensures forall x :: x in done + [k] <==> x in all && x !in rest - {k}
  {
  }

  /** When the admission loop stops, its batch is the one `IsBatch` describes. */
  lemma BatchAtExit(batch: seq<Key>, candidates: set<Key>, rest: set<Key>, active: nat, maxConcurrent: int, sort: bool)
    requires rest <= candidates && |batch| + |rest| == |candidates|
    requires NoDup(batch)
    requires forall k :: k in batch <==> k in candidates && k !in rest
    requires |batch| <= AvailableSlots(maxConcurrent, active)
    requires sort ==> SortedKeys(candidates) == batch + SortedKeys(rest)
    requires rest == {} || |batch| + active >= maxConcurrent
    ensures IsBatch(batch, candidates, active, maxConcurrent, sort)
  {
    assert Elems(batch) <= candidates;
  }

  // ---------------------------------------------------------------------------------------
  // The controller

  class Controller {
    /** The extras that identify a work item, in key order (`get_extra_unique_keys`). */
    const uniqueKeys: seq<string>
    const maxConcurrent: int
    /** The processes of the managed group, in query order. */
    var group: seq<Node>

    /** The managed group is fetched or created: `existing` is what it holds, empty if new. */
    constructor (uniqueKeys: seq<string>, maxConcurrent: int, existing: seq<Node>)
      ensures this.uniqueKeys == uniqueKeys && this.maxConcurrent == maxConcurrent
      ensures group == existing
    {
      this.uniqueKeys := uniqueKeys;
      this.maxConcurrent := maxConcurrent;
      group := existing;
    }

    /** `get_all_submitted_pks`: key of every complete row to its pk. */
    method GetAllSubmittedPks() returns (allSubmitted: map<Key, nat>)
      ensures allSubmitted == SubmittedPks(group, uniqueKeys)
    {
      allSubmitted := map[];
      for i := 0 to |group|
        invariant allSubmitted == SubmittedPks(group[..i], uniqueKeys)
      {
        assert group[..i + 1][..i] == group[..i];
        var row := KeyRow(group[i], uniqueKeys);
        // a row with a missing extra identifies no key: leave it out
        if exists j :: 0 <= j < |row| && row[j].None? {
          continue;
        }
        allSubmitted := allSubmitted[Unwrap(row) := group[i].pk];
      }
      assert group[..|group|] == group;
    }

    /** `get_all_submitted_processes`: projected row of every (active) process to the process. */
    method GetAllSubmittedProcesses(onlyActive: bool) returns (allSubmitted: map<Row, Node>)
      ensures allSubmitted == SubmittedProcesses(group, uniqueKeys, onlyActive)
    {
      allSubmitted := map[];
      for i := 0 to |group|
        invariant allSubmitted == SubmittedProcesses(group[..i], uniqueKeys, onlyActive)
      {
        assert group[..i + 1][..i] == group[..i];
        if onlyActive && group[i].sealed {
          continue;
        }
        allSubmitted := allSubmitted[KeyRow(group[i], uniqueKeys) := group[i]];
      }
      assert group[..|group|] == group;
    }

    /** `_check_submitted_extras`. */
    method CheckSubmittedExtras() returns (extras: set<Key>)
      ensures extras == SubmittedKeys(group, uniqueKeys)
    {
      var allSubmitted := GetAllSubmittedPks();
      extras := allSubmitted.Keys;
    }

    /** `num_active_slots`: the unsealed processes of the group, with or without key extras. */
    function NumActiveSlots(): (n: nat)
      reads this
      ensures n <= |group|
    {
      CountActiveBound(group);
      CountActive(group)
    }

    /** `num_available_slots`. */
    function NumAvailableSlots(): (n: nat)
      reads this
      ensures n == 0 <==> NumActiveSlots() >= maxConcurrent
      ensures NumActiveSlots() < maxConcurrent ==> n == maxConcurrent - NumActiveSlots()
    {
      AvailableSlots(maxConcurrent, NumActiveSlots())
    }

    /** `num_to_run`: backlog keys not yet in the group, whether active or sealed. */
    function NumToRun(backlog: set<Key>): (n: nat)
      reads this
      ensures n + |backlog * SubmittedKeys(group, uniqueKeys)| == |backlog|
    {
      var s := SubmittedKeys(group, uniqueKeys);
      assert backlog == (backlog - s) + (backlog * s);
      |backlog - s|
    }

    /** `num_already_run`: distinct keys in the group, active and sealed alike. */
    function NumAlreadyRun(): (n: nat)
      reads this
      ensures n <= |group|
    {
      SubmittedKeysBound(group, uniqueKeys);
      |SubmittedKeys(group, uniqueKeys)|
    }

    /**
     * The selection phase of `submit_new_batch`: the candidates are the backlog minus every
     * submitted key; the loop admits them in (sorted or set) order while the batch size plus
     * the active count stays below `max_concurrent`.
     */
    method SelectBatch(backlog: set<Key>, sort: bool) returns (toSubmit: seq<Key>)
      ensures IsBatch(toSubmit, backlog - SubmittedKeys(group, uniqueKeys), CountActive(group), maxConcurrent, sort)
    {
      var submitted := CheckSubmittedExtras();
      var extrasToRun := backlog - submitted;
      ghost var slots := AvailableSlots(maxConcurrent, CountActive(group));
      toSubmit := [];
      var rest := extrasToRun;
      while rest != {}
        invariant rest <= extrasToRun
        invariant |toSubmit| + |rest| == |extrasToRun|
        invariant NoDup(toSubmit)
        invariant forall k :: k in toSubmit <==> k in extrasToRun && k !in rest
        invariant |toSubmit| <= slots
        invariant sort ==> SortedKeys(extrasToRun) == toSubmit + SortedKeys(rest)
        decreases |rest|
      {
        if |toSubmit| + CountActive(group) >= maxConcurrent {
          break;
        }
        var extras: Key;
        if sort {
          extras := MinKey(rest);
          SortedStep(extrasToRun, toSubmit, rest);
        } else {
          extras :| extras in rest;
        }
        AdmitStep(extrasToRun, toSubmit, rest, extras);
        toSubmit := toSubmit + [extras];
        rest := rest - {extras};
      }
      BatchAtExit(toSubmit, extrasToRun, rest, CountActive(group), maxConcurrent, sort);
    }

    /**
     * `submit_new_batch`: a dry run returns the selected keys mapped to nothing and changes
     * nothing; a real run submits one new, unsealed process per key (primary keys from
     * `firstPk` on), tags it with `zip(unique keys, key)`, appends it to the group and
     * returns the keys mapped to the new processes.
     */
    method SubmitNewBatch(backlog: set<Key>, dryRun: bool, sort: bool, firstPk: nat)
        returns (keys: seq<Key>, submitted: map<Key, Option<nat>>)
      modifies this
      ensures IsBatch(keys, backlog - SubmittedKeys(old(group), uniqueKeys), CountActive(old(group)), maxConcurrent, sort)
      ensures submitted.Keys == Elems(keys)
      ensures dryRun ==> group == old(group) && forall k :: k in submitted ==> submitted[k] == None
      ensures !dryRun ==> group == old(group) + NewProcesses(uniqueKeys, keys, firstPk)
      ensures !dryRun ==> forall i :: 0 <= i < |keys| ==> submitted[keys[i]] == Some(firstPk + i)
    {
      keys := SelectBatch(backlog, sort);
      if dryRun {
        submitted := map k | k in keys :: None;
        return;
      }
      submitted := SubmitAll(keys, firstPk);
    }

    /**
     * The real-run loop: submit, tag and add one process per key, in order, mapping each key
     * to its new process.
     */
    method SubmitAll(keys: seq<Key>, firstPk: nat) returns (submitted: map<Key, Option<nat>>)
      requires NoDup(keys)
      modifies this
      ensures submitted.Keys == Elems(keys)
      ensures group == old(group) + NewProcesses(uniqueKeys, keys, firstPk)
      ensures forall i :: 0 <= i < |keys| ==> submitted[keys[i]] == Some(firstPk + i)
    {
      submitted := map[];
      for i := 0 to |keys|
        invariant group == old(group) + NewProcesses(uniqueKeys, keys[..i], firstPk)
        invariant submitted.Keys == Elems(keys[..i])
        invariant forall j :: 0 <= j < i ==> submitted[keys[j]] == Some(firstPk + j)
      {
        // engine.submit, then set_extra_many(dict(zip(unique keys, key)))
        var process := Tagged(firstPk + i, uniqueKeys, keys[i]);
        // group.add_nodes
        group := group + [process];
        submitted := submitted[keys[i] := Some(process.pk)];
        assert keys[..i + 1] == keys[..i] + [keys[i]];
        assert NewProcesses(uniqueKeys, keys[..i + 1], firstPk)
            == NewProcesses(uniqueKeys, keys[..i], firstPk) + [process];
      }
      assert keys[..|keys|] == keys;
    }
  }

  // ---------------------------------------------------------------------------------------
  // What a batch guarantees

  /** No key carried by a process of the group, whether active or sealed, is selected again. */
  lemma NoResubmission(group: seq<Node>, uniqueKeys: seq<string>, backlog: set<Key>, batch: seq<Key>,
                       maxConcurrent: int, sort: bool, i: nat)
    requires IsBatch(batch, backlog - SubmittedKeys(group, uniqueKeys), CountActive(group), maxConcurrent, sort)
    requires i < |group|
    ensures forall k :: RecordsKey(group[i], uniqueKeys, k) ==> k !in batch
  {
    forall k | RecordsKey(group[i], uniqueKeys, k)
      ensures k !in batch
    {
      SubmittedPksSpec(group, uniqueKeys, k);
      assert k !in Elems(batch);
    }
  }

  /**
   * Capacity: a real batch raises the active count by its size, never past `max_concurrent`
   * when the group was within it, and is empty when the group is already full.
   */
  lemma BatchKeepsCapacity(group: seq<Node>, uniqueKeys: seq<string>, batch: seq<Key>, firstPk: nat,
                           candidates: set<Key>, maxConcurrent: int, sort: bool)
    requires IsBatch(batch, candidates, CountActive(group), maxConcurrent, sort)
    ensures CountActive(group + NewProcesses(uniqueKeys, batch, firstPk)) == CountActive(group) + |batch|
    ensures CountActive(group) <= maxConcurrent ==>
      CountActive(group + NewProcesses(uniqueKeys, batch, firstPk)) <= maxConcurrent
    ensures CountActive(group) >= maxConcurrent ==> batch == []
  {
    CountActiveAppend(group, NewProcesses(uniqueKeys, batch, firstPk));
    CountActiveNew(uniqueKeys, batch, firstPk);
  }

  /** Some process of the group carries key `k`. */
  ghost predicate Carries(group: seq<Node>, uniqueKeys: seq<string>, k: Key) {
    exists i :: 0 <= i < |group| && RecordsKey(group[i], uniqueKeys, k)
  }

  lemma SubmittedKeysSpec(group: seq<Node>, uniqueKeys: seq<string>, k: Key)
    ensures k in SubmittedKeys(group, uniqueKeys) <==> Carries(group, uniqueKeys, k)
  {
    SubmittedPksSpec(group, uniqueKeys, k);
  }

  lemma CarriesAppend(a: seq<Node>, b: seq<Node>, uniqueKeys: seq<string>, k: Key)
    ensures Carries(a + b, uniqueKeys, k) <==> Carries(a, uniqueKeys, k) || Carries(b, uniqueKeys, k)
  {
    var ab := a + b;
    if Carries(ab, uniqueKeys, k) {
      var i :| 0 <= i < |ab| && RecordsKey(ab[i], uniqueKeys, k);
      if i < |a| {
        assert ab[i] == a[i];
      } else {
        assert ab[i] == b[i - |a|];
      }
    }
    if Carries(a, uniqueKeys, k) {
      var i :| 0 <= i < |a| && RecordsKey(a[i], uniqueKeys, k);
      assert ab[i] == a[i];
    }
    if Carries(b, uniqueKeys, k) {
      var i :| 0 <= i < |b| && RecordsKey(b[i], uniqueKeys, k);
      assert ab[|a| + i] == b[i];
    }
  }

  /**
   * Appending one process adds its key to the submitted keys when all its unique extras are
   * set, and adds nothing otherwise.
   */
  lemma SubmittedKeysAppendOne(group: seq<Node>, uniqueKeys: seq<string>, n: Node)
    ensures var row := KeyRow(n, uniqueKeys);
      SubmittedKeys(group + [n], uniqueKeys)
      == SubmittedKeys(group, uniqueKeys) + (if Complete(row) then {Unwrap(row)} else {})
  {
    var row := KeyRow(n, uniqueKeys);
    forall k
      ensures k in SubmittedKeys(group + [n], uniqueKeys)
          <==> k in SubmittedKeys(group, uniqueKeys) || (Complete(row) && k == Unwrap(row))
    {
      SubmittedKeysSpec(group, uniqueKeys, k);
      SubmittedKeysSpec(group + [n], uniqueKeys, k);
      CarriesAppend(group, [n], uniqueKeys, k);
      assert Carries([n], uniqueKeys, k) <==> RecordsKey(n, uniqueKeys, k) by {
        assert [n][0] == n;
      }
      if RecordsKey(n, uniqueKeys, k) {
        LiftInjective(k, Unwrap(row));
        LiftUnwrap(row);
      }
      if Complete(row) && k == Unwrap(row) {
        LiftUnwrap(row);
      }
    }
  }

  /** The processes of a real batch carry exactly the batch keys. */
  lemma CarriesNew(uniqueKeys: seq<string>, batch: seq<Key>, firstPk: nat, k: Key)
    requires NoDup(uniqueKeys)
    requires forall x :: x in batch ==> |x| == |uniqueKeys|
    ensures Carries(NewProcesses(uniqueKeys, batch, firstPk), uniqueKeys, k) <==> k in batch
  {
    var news := NewProcesses(uniqueKeys, batch, firstPk);
    if k in batch {
      var j :| 0 <= j < |batch| && batch[j] == k;
      TaggedRecordsKey(firstPk + j, uniqueKeys, k);
      assert RecordsKey(news[j], uniqueKeys, k);
    }
    if Carries(news, uniqueKeys, k) {
      var j :| 0 <= j < |news| && RecordsKey(news[j], uniqueKeys, k);
      TaggedRecordsKey(firstPk + j, uniqueKeys, batch[j]);
      LiftInjective(batch[j], k);
    }
  }

  /** After a real batch the submitted keys are the earlier ones plus exactly the batch keys. */
  lemma SubmittedKeysAfterBatch(group: seq<Node>, uniqueKeys: seq<string>, batch: seq<Key>, firstPk: nat)
    requires NoDup(uniqueKeys)
    requires forall k :: k in batch ==> |k| == |uniqueKeys|
    ensures SubmittedKeys(group + NewProcesses(uniqueKeys, batch, firstPk), uniqueKeys)
         == SubmittedKeys(group, uniqueKeys) + Elems(batch)
  {
    var news := NewProcesses(uniqueKeys, batch, firstPk);
    forall k
      ensures k in SubmittedKeys(group + news, uniqueKeys) <==> k in SubmittedKeys(group, uniqueKeys) + Elems(batch)
    {
      SubmittedKeysSpec(group + news, uniqueKeys, k);
      SubmittedKeysSpec(group, uniqueKeys, k);
      CarriesAppend(group, news, uniqueKeys, k);
      CarriesNew(uniqueKeys, batch, firstPk, k);
    }
  }

  /**
   * A real batch raises `num_already_run` by its size and lowers `num_to_run` by the same
   * amount, when every backlog key has one value per unique key.
   */
  lemma CountsAfterBatch(group: seq<Node>, uniqueKeys: seq<string>, backlog: set<Key>, batch: seq<Key>,
                         firstPk: nat, maxConcurrent: int, sort: bool)
    requires NoDup(uniqueKeys)
    requires forall k :: k in backlog ==> |k| == |uniqueKeys|
    requires IsBatch(batch, backlog - SubmittedKeys(group, uniqueKeys), CountActive(group), maxConcurrent, sort)
    ensures var before := SubmittedKeys(group, uniqueKeys);
            var after := SubmittedKeys(group + NewProcesses(uniqueKeys, batch, firstPk), uniqueKeys);
            |after| == |before| + |batch| && |backlog - after| == |backlog - before| - |batch|
  {
    var before := SubmittedKeys(group, uniqueKeys);
    SubmittedKeysAfterBatch(group, uniqueKeys, batch, firstPk);
    assert Elems(batch) <= backlog - before;
    DisjointAddCounts(backlog, before, batch);
  }

  /** Adding the keys of a duplicate-free batch of not-yet-submitted backlog keys to the submitted set. */
  lemma DisjointAddCounts(backlog: set<Key>, before: set<Key>, batch: seq<Key>)
    requires NoDup(batch) && Elems(batch) <= backlog - before
    ensures |before + Elems(batch)| == |before| + |batch|
    ensures |backlog - (before + Elems(batch))| == |backlog - before| - |batch|
  {
    var added := Elems(batch);
    DistinctCount(batch);
    assert before !! added;
    assert |before + added| == |before| + |added|;
    var todo := backlog - before;
    assert backlog - (before + added) == todo - added;
    assert todo == (todo - added) + added;
    assert (todo - added) !! added;
  }

  /** Two sorted selections from the same state agree: a repeated dry run returns the same batch. */
  lemma SortedBatchIsDetermined(b1: seq<Key>, b2: seq<Key>, candidates: set<Key>, active: nat, maxConcurrent: int)
    requires IsBatch(b1, candidates, active, maxConcurrent, true)
    requires IsBatch(b2, candidates, active, maxConcurrent, true)
    ensures b1 == b2
  {
  }

  // ---------------------------------------------------------------------------------------
  // The scenario of the controller's batch test: keys ("0",) .. ("9",), `max_concurrent` 2,
  // processes for ("0",) .. ("2",) sealed and for ("3",), ("4",) active.

  function Idx(s: string): Key {
    [Str(s)]
  }

  function Proc(pk: nat, idx: string, sealed: bool): Node {
    Node(pk, map["idx" := Str(idx)], sealed)
  }

  const IdxKeys: seq<string> := ["idx"]

  const Backlog10: set<Key> :=
    {Idx("0"), Idx("1"), Idx("2"), Idx("3"), Idx("4"), Idx("5"), Idx("6"), Idx("7"), Idx("8"), Idx("9")}

  /** The group of the test, with the process for ("3",) sealed or not. */
  function TestGroup(threeSealed: bool): seq<Node> {
    [Proc(1, "3", threeSealed), Proc(2, "4", false), Proc(3, "0", true), Proc(4, "1", true), Proc(5, "2", true)]
  }

  lemma ProcRecords(pk: nat, idx: string, sealed: bool, k: Key)
    ensures RecordsKey(Proc(pk, idx, sealed), IdxKeys, k) <==> k == Idx(idx)
  {
    KeyRowReadsExtras(Proc(pk, idx, sealed), IdxKeys);
    LiftInjective(k, Idx(idx));
  }

  /** The keys of a group of processes each tagged only with an `idx`: exactly their `idx`s. */
  lemma ProcsKeys(g: seq<Node>, names: seq<string>)
    requires |g| == |names|
    requires forall i :: 0 <= i < |g| ==> g[i].extras == map["idx" := Str(names[i])]
    ensures SubmittedKeys(g, IdxKeys) == set s | s in names :: Idx(s)
  {
    forall k ensures k in SubmittedKeys(g, IdxKeys) <==> k in (set s | s in names :: Idx(s)) {
      SubmittedPksSpec(g, IdxKeys, k);
      forall i | 0 <= i < |g| ensures RecordsKey(g[i], IdxKeys, k) <==> k == Idx(names[i]) {
        assert g[i] == Proc(g[i].pk, names[i], g[i].sealed);
        ProcRecords(g[i].pk, names[i], g[i].sealed, k);
      }
      if k in (set s | s in names :: Idx(s)) {
        var s :| s in names && k == Idx(s);
        var i :| 0 <= i < |names| && names[i] == s;
        assert RecordsKey(g[i], IdxKeys, k);
      }
    }
  }

  /** The group of the submitted-pks test: five active processes, ("0",) .. ("4",). */
  function PksTestGroup(): seq<Node> {
    [Proc(1, "0", false), Proc(2, "1", false), Proc(3, "2", false), Proc(4, "3", false), Proc(5, "4", false)]
  }

  /** The submitted-pks test: five entries, keyed ("0",) .. ("4",). */
  lemma TestPksGroupKeys()
    ensures SubmittedKeys(PksTestGroup(), IdxKeys) == {Idx("0"), Idx("1"), Idx("2"), Idx("3"), Idx("4")}
    ensures |SubmittedPks(PksTestGroup(), IdxKeys)| == 5
  {
    ProcsKeys(PksTestGroup(), ["0", "1", "2", "3", "4"]);
    FirstFiveNames();
    FirstFiveCount();
  }

  /** The keys ("0",) .. ("4",) are distinct. */
  lemma FirstFiveCount()
    ensures |{Idx("0"), Idx("1"), Idx("2"), Idx("3"), Idx("4")}| == 5
  {
  }

  /** The keys of the names "0" .. "4". */
  lemma FirstFiveNames()
    ensures (set s | s in ["0", "1", "2", "3", "4"] :: Idx(s)) == {Idx("0"), Idx("1"), Idx("2"), Idx("3"), Idx("4")}
  {
  }

  /** The batch test's group has the keys ("0",) .. ("4",), whether or not ("3",) is sealed. */
  lemma TestGroupKeys(threeSealed: bool)
    ensures SubmittedKeys(TestGroup(threeSealed), IdxKeys) == {Idx("0"), Idx("1"), Idx("2"), Idx("3"), Idx("4")}
  {
    var g := TestGroup(threeSealed);
    forall k
      ensures k in SubmittedKeys(g, IdxKeys) <==> k in {Idx("0"), Idx("1"), Idx("2"), Idx("3"), Idx("4")}
    {
      SubmittedPksSpec(g, IdxKeys, k);
      ProcRecords(1, "3", threeSealed, k);
      ProcRecords(2, "4", false, k);
      ProcRecords(3, "0", true, k);
      ProcRecords(4, "1", true, k);
      ProcRecords(5, "2", true, k);
      if k in {Idx("0"), Idx("1"), Idx("2"), Idx("3"), Idx("4")} {
        assert RecordsKey(g[0], IdxKeys, k) || RecordsKey(g[1], IdxKeys, k) || RecordsKey(g[2], IdxKeys, k)
            || RecordsKey(g[3], IdxKeys, k) || RecordsKey(g[4], IdxKeys, k);
      }
    }
  }

  lemma TestActiveCounts()
    ensures CountActive(TestGroup(false)) == 2
    ensures CountActive(TestGroup(true)) == 1
  {
    var tail := [Proc(3, "0", true), Proc(4, "1", true), Proc(5, "2", true)];
    assert CountActive(tail) == 0 by {
      assert tail[1..][1..][1..] == [];
    }
    assert TestGroup(false)[1..][1..] == tail;
    assert TestGroup(true)[1..][1..] == tail;
  }

  lemma TestCandidates(threeSealed: bool)
    ensures Backlog10 - SubmittedKeys(TestGroup(threeSealed), IdxKeys) == {Idx("5"), Idx("6"), Idx("7"), Idx("8"), Idx("9")}
  {
    TestGroupKeys(threeSealed);
  }

  /**
   * Before any sealing: 2 active slots, 0 available, 5 to run, 5 already run, and the sorted
   * dry run selects nothing.
   */
  lemma TestInitialState()
    ensures CountActive(TestGroup(false)) == 2
    ensures AvailableSlots(2, CountActive(TestGroup(false))) == 0
    ensures |Backlog10 - SubmittedKeys(TestGroup(false), IdxKeys)| == 5
    ensures |SubmittedKeys(TestGroup(false), IdxKeys)| == 5
    ensures forall b :: IsBatch(b, Backlog10 - SubmittedKeys(TestGroup(false), IdxKeys), 2, 2, true) ==> b == []
  {
    TestActiveCounts();
    TestGroupKeys(false);
    TestCandidates(false);
  }

  /** After the process for ("3",) seals: 1 active slot, and the sorted dry run selects exactly ("5",). */
  lemma TestAfterOneSeal()
    ensures CountActive(TestGroup(true)) == 1
    ensures forall b :: IsBatch(b, Backlog10 - SubmittedKeys(TestGroup(true), IdxKeys), 1, 2, true) ==> b == [Idx("5")]
  {
    TestActiveCounts();
    TestCandidates(true);
    TestLeastCandidate();
  }

  /** The smallest of the keys ("5",) .. ("9",) is ("5",). */
  lemma TestLeastCandidate()
    ensures SortedKeys({Idx("5"), Idx("6"), Idx("7"), Idx("8"), Idx("9")})[0] == Idx("5")
  {
    var candidates := {Idx("5"), Idx("6"), Idx("7"), Idx("8"), Idx("9")};
    assert IsLeast(Idx("5"), candidates);
    LeastUnique(candidates);
    assert SortedKeys(candidates)[0] == MinKey(candidates);
  }

  /**
   * A process without the `idx` extra added to the group is ignored by the submitted-key map;
   * once it carries `idx` (the integer 6) it is counted.
   */
  lemma TestIncompleteNodeIgnored()
    ensures |SubmittedKeys(PksTestGroup() + [Node(6, map[], false)], IdxKeys)| == 5
    ensures |SubmittedKeys(PksTestGroup() + [Node(6, map["idx" := Int(6)], false)], IdxKeys)| == 6
  {
    var bare, tagged := Node(6, map[], false), Node(6, map["idx" := Int(6)], false);
    TestPksGroupKeys();
    KeyRowReadsExtras(bare, IdxKeys);
    KeyRowReadsExtras(tagged, IdxKeys);
    assert !Complete(KeyRow(bare, IdxKeys));
    assert KeyRow(tagged, IdxKeys) == Lift([Int(6)]);
    LiftInjective(Unwrap(KeyRow(tagged, IdxKeys)), [Int(6)]);
    LiftUnwrap(KeyRow(tagged, IdxKeys));
    SubmittedKeysAppendOne(PksTestGroup(), IdxKeys, bare);
    SubmittedKeysAppendOne(PksTestGroup(), IdxKeys, tagged);
  }

  /** With three of the five processes sealed, only the rows ("3",) and ("4",) are active. */
  lemma TestActiveProcesses()
    ensures SubmittedProcesses(TestGroup(false), IdxKeys, true).Keys == {Lift(Idx("3")), Lift(Idx("4"))}
  {
    var g := TestGroup(false);
    forall i | 0 <= i < |g| ensures KeyRow(g[i], IdxKeys) == Lift([g[i].extras["idx"]]) {
      KeyRowReadsExtras(g[i], IdxKeys);
    }
    forall row ensures row in SubmittedProcesses(g, IdxKeys, true) <==> row == Lift(Idx("3")) || row == Lift(Idx("4")) {
      SubmittedProcessesSpec(g, IdxKeys, true, row);
      if row == Lift(Idx("3")) {
        assert KeyRow(g[0], IdxKeys) == row && !g[0].sealed;
      }
      if row == Lift(Idx("4")) {
        assert KeyRow(g[1], IdxKeys) == row && !g[1].sealed;
      }
    }
  }

  /** The group at the end of the test: one sealed process for each of ("0",) .. ("9",). */
  function FinalGroup(): seq<Node> {
    [Proc(1, "3", true), Proc(2, "4", true), Proc(3, "0", true), Proc(4, "1", true), Proc(5, "2", true),
     Proc(6, "5", true), Proc(7, "6", true), Proc(8, "7", true), Proc(9, "8", true), Proc(10, "9", true)]
  }

  /** A group of sealed processes occupies no slot. */
  lemma {:induction false} AllSealedInactive(group: seq<Node>)
    requires forall i :: 0 <= i < |group| ==> group[i].sealed
    ensures CountActive(group) == 0
  {
    if group != [] {
      AllSealedInactive(group[1..]);
    }
  }

  /**
   * Once every key of the backlog has a sealed process: no active slot, 2 available, none to
   * run, 10 already run, and the dry run selects nothing.
   */
  lemma FinalGroupKeys()
    ensures SubmittedKeys(FinalGroup(), IdxKeys) == Backlog10
  {
    var g := FinalGroup();
    forall k ensures k in SubmittedKeys(g, IdxKeys) <==> k in Backlog10 {
      FinalGroupRecords(k);
      SubmittedPksSpec(g, IdxKeys, k);
    }
  }

  lemma FinalGroupRecords(k: Key)
    ensures (exists i :: 0 <= i < |FinalGroup()| && RecordsKey(FinalGroup()[i], IdxKeys, k)) <==> k in Backlog10
  {
    var g := FinalGroup();
    forall i | 0 <= i < |g| ensures RecordsKey(g[i], IdxKeys, k) <==> k == Idx(g[i].extras["idx"].s) {
      ProcRecords(g[i].pk, g[i].extras["idx"].s, true, k);
    }
    FinalGroupNames();
    if k in Backlog10 {
      var i := FinalGroupWitness(k);
    }
  }

  lemma FinalGroupNames()
    ensures forall i :: 0 <= i < |FinalGroup()| ==> Idx(FinalGroup()[i].extras["idx"].s) in Backlog10
  {
  }

  lemma FinalGroupWitness(k: Key) returns (i: nat)
    requires k in Backlog10
    ensures i < |FinalGroup()| && k == Idx(FinalGroup()[i].extras["idx"].s)
  {
    i := if k == Idx("3") then 0 else if k == Idx("4") then 1 else if k == Idx("0") then 2
      else if k == Idx("1") then 3 else if k == Idx("2") then 4 else if k == Idx("5") then 5
      else if k == Idx("6") then 6 else if k == Idx("7") then 7 else if k == Idx("8") then 8 else 9;
  }

  lemma BacklogSize()
    ensures |Backlog10| == 10
  {
    var ks: seq<Key> := [Idx("0"), Idx("1"), Idx("2"), Idx("3"), Idx("4"), Idx("5"), Idx("6"), Idx("7"), Idx("8"), Idx("9")];
    assert Elems(ks) == Backlog10;
    forall i, j | 0 <= i < j < |ks| ensures ks[i] != ks[j] {
      assert ks[i][0].s[0] != ks[j][0].s[0];
    }
    DistinctCount(ks);
  }

  /**
   * Once every key of the backlog has a sealed process: no active slot, 2 available, none to
   * run, 10 already run, and the dry run selects nothing.
   */
  lemma TestFinalState()
    ensures CountActive(FinalGroup()) == 0
    ensures AvailableSlots(2, CountActive(FinalGroup())) == 2
    ensures |Backlog10 - SubmittedKeys(FinalGroup(), IdxKeys)| == 0
    ensures |SubmittedKeys(FinalGroup(), IdxKeys)| == 10
    ensures forall b :: IsBatch(b, Backlog10 - SubmittedKeys(FinalGroup(), IdxKeys), 0, 2, true) ==> b == []
  {
    AllSealedInactive(FinalGroup());
    FinalGroupKeys();
    BacklogSize();
  }

  /** Over all processes, sealed or not, the processes map has the five rows ("0",) .. ("4",). */
  lemma TestAllProcesses()
    ensures SubmittedProcesses(TestGroup(false), IdxKeys, false).Keys
      == {Lift(Idx("0")), Lift(Idx("1")), Lift(Idx("2")), Lift(Idx("3")), Lift(Idx("4"))}
  {
    var g := TestGroup(false);
    forall i | 0 <= i < |g| ensures KeyRow(g[i], IdxKeys) == Lift([g[i].extras["idx"]]) {
      KeyRowReadsExtras(g[i], IdxKeys);
    }
    forall row ensures row in SubmittedProcesses(g, IdxKeys, false) <==>
      row in {Lift(Idx("0")), Lift(Idx("1")), Lift(Idx("2")), Lift(Idx("3")), Lift(Idx("4"))}
    {
      SubmittedProcessesSpec(g, IdxKeys, false, row);
      if row == Lift(Idx("3")) { assert KeyRow(g[0], IdxKeys) == row; }
      if row == Lift(Idx("4")) { assert KeyRow(g[1], IdxKeys) == row; }
      if row == Lift(Idx("0")) { assert KeyRow(g[2], IdxKeys) == row; }
      if row == Lift(Idx("1")) { assert KeyRow(g[3], IdxKeys) == row; }
      if row == Lift(Idx("2")) { assert KeyRow(g[4], IdxKeys) == row; }
    }
  }

  /** The first two keys of `sorted(candidates)`, given the least and the next least. */
  lemma SortedFirstTwo(candidates: set<Key>, first: Key, second: Key)
    requires IsLeast(first, candidates) && IsLeast(second, candidates - {first})
    ensures |SortedKeys(candidates)| >= 2
    ensures SortedKeys(candidates)[..2] == [first, second]
  {
    LeastUnique(candidates);
    LeastUnique(candidates - {first});
    assert SortedKeys(candidates) == [first] + SortedKeys(candidates - {first});
    assert SortedKeys(candidates - {first})[0] == second;
  }

  /**
   * The middle of the test, with every process sealed: after ("5",) is submitted the sorted
   * dry run selects ("6",), ("7",); after those, ("8",), ("9",).
   */
  lemma TestLaterBatches()
    ensures CountActive(FinalGroup()[..6]) == 0 && CountActive(FinalGroup()[..8]) == 0
    ensures forall b :: IsBatch(b, Backlog10 - SubmittedKeys(FinalGroup()[..6], IdxKeys), 0, 2, true) ==> b == [Idx("6"), Idx("7")]
    ensures forall b :: IsBatch(b, Backlog10 - SubmittedKeys(FinalGroup()[..8], IdxKeys), 0, 2, true) ==> b == [Idx("8"), Idx("9")]
  {
    AllSealedInactive(FinalGroup()[..6]);
    AllSealedInactive(FinalGroup()[..8]);
    ThirdBatch();
    FourthBatch();
  }

  /** With ("0",) .. ("5",) sealed, the sorted dry run selects ("6",), ("7",). */
  lemma ThirdBatch()
    ensures forall b :: IsBatch(b, Backlog10 - SubmittedKeys(FinalGroup()[..6], IdxKeys), 0, 2, true) ==> b == [Idx("6"), Idx("7")]
  {
    var candidates := {Idx("6"), Idx("7"), Idx("8"), Idx("9")};
    CandidatesAfterSix();
    SortedFirstTwo(candidates, Idx("6"), Idx("7"));
  }

  /** With ("0",) .. ("7",) sealed, the sorted dry run selects ("8",), ("9",). */
  lemma FourthBatch()
    ensures forall b :: IsBatch(b, Backlog10 - SubmittedKeys(FinalGroup()[..8], IdxKeys), 0, 2, true) ==> b == [Idx("8"), Idx("9")]
  {
    var candidates := {Idx("8"), Idx("9")};
    CandidatesAfterEight();
    SortedFirstTwo(candidates, Idx("8"), Idx("9"));
  }

  /** Once ("0",) .. ("5",) are submitted, ("6",) .. ("9",) remain. */
  lemma CandidatesAfterSix()
    ensures Backlog10 - SubmittedKeys(FinalGroup()[..6], IdxKeys) == {Idx("6"), Idx("7"), Idx("8"), Idx("9")}
  {
    SealedPrefixKeys(6, ["3", "4", "0", "1", "2", "5"]);
    BacklogSplit(["3", "4", "0", "1", "2", "5"], ["6", "7", "8", "9"]);
    assert (set s | s in ["6", "7", "8", "9"] :: Idx(s)) == {Idx("6"), Idx("7"), Idx("8"), Idx("9")};
  }

  /** Once ("0",) .. ("7",) are submitted, ("8",) and ("9",) remain. */
  lemma CandidatesAfterEight()
    ensures Backlog10 - SubmittedKeys(FinalGroup()[..8], IdxKeys) == {Idx("8"), Idx("9")}
  {
    SealedPrefixKeys(8, ["3", "4", "0", "1", "2", "5", "6", "7"]);
    BacklogSplit(["3", "4", "0", "1", "2", "5", "6", "7"], ["8", "9"]);
    assert (set s | s in ["8", "9"] :: Idx(s)) == {Idx("8"), Idx("9")};
  }

  /** The `idx` values of the test backlog. */
  const TenNames: seq<string> := ["0", "1", "2", "3", "4", "5", "6", "7", "8", "9"]

  /** The test backlog is the keys of the names "0" .. "9". */
  lemma BacklogNames()
    ensures Backlog10 == set s | s in TenNames :: Idx(s)
  {
  }

  /** Splitting the test's names in two splits the backlog into the two key sets. */
  lemma BacklogSplit(done: seq<string>, rest: seq<string>)
    requires forall s :: s in done + rest <==> s in TenNames
    requires forall i, j :: 0 <= i < |done| && 0 <= j < |rest| ==> done[i] != rest[j]
    ensures Backlog10 - (set s | s in done :: Idx(s)) == set s | s in rest :: Idx(s)
  {
    BacklogNames();
    var doneKeys, restKeys := set s | s in done :: Idx(s), set s | s in rest :: Idx(s);
    forall k ensures k in Backlog10 - doneKeys <==> k in restKeys {
      if k in restKeys {
        var r :| r in rest && k == Idx(r);
        assert r in done + rest;
        forall d | d in done ensures Idx(d) != k {
          assert Idx(d)[0].s == d;
        }
      }
    }
  }

  /** The keys of the first `n` processes of the final group are their `idx`s. */
  lemma SealedPrefixKeys(n: nat, names: seq<string>)
    requires n <= 10 && names == ["3", "4", "0", "1", "2", "5", "6", "7", "8", "9"][..n]
    ensures SubmittedKeys(FinalGroup()[..n], IdxKeys) == set s | s in names :: Idx(s)
  {
    var all := ["3", "4", "0", "1", "2", "5", "6", "7", "8", "9"];
    assert forall i :: 0 <= i < 10 ==> FinalGroup()[i].extras == map["idx" := Str(all[i])];
    ProcsKeys(FinalGroup()[..n], names);
  }
}
