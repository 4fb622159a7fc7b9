/**
 * The earlier, single-file prototype of the controller. It differs from the packaged one in
 * two places: its submitted-key map keeps rows with missing extras (as rows holding `None`),
 * and its admission loop appends a key BEFORE it compares the batch with the free capacity.
 */
module Prototype {
  import opened Wrappers
  import opened Store
  import opened KeyOrder
  import opened Base

  // ---------------------------------------------------------------------------------------
  // Specification

  /**
   * The prototype's `get_all_submitted_pks`: the projected row of every process of the group,
   * complete or not, to its pk; a later row overwrites an earlier one.
   */
  function AllSubmittedPks(group: seq<Node>, uniqueKeys: seq<string>): map<Row, nat>
    decreases |group|
  {
    if group == [] then map[]
    else
      var n := group[|group| - 1];
      AllSubmittedPks(group[..|group| - 1], uniqueKeys)[KeyRow(n, uniqueKeys) := n.pk]
  }

  /** The prototype's `_check_submitted_extras`. */
  function AllSubmittedRows(group: seq<Node>, uniqueKeys: seq<string>): set<Row> {
    AllSubmittedPks(group, uniqueKeys).Keys
  }

  /** `set(backlog).difference(submitted)`: a backlog tuple equals a row holding the same values. */
  function PrototypeCandidates(backlog: set<Key>, submitted: set<Row>): (c: set<Key>)
    ensures c <= backlog
  {
    set k | k in backlog && Lift(k) !in submitted
  }

  /** At least one, otherwise `n`. */
  function AtLeastOne(n: int): nat {
    if n >= 1 then n else 1
  }

  /**
   * What the prototype's admission loop selects: distinct candidates, in sorted order when
   * `sort`; none when there is no candidate, else at least one, and up to the free capacity.
   */
  ghost predicate IsPrototypeBatch(batch: seq<Key>, candidates: set<Key>, active: nat, maxConcurrent: int, sort: bool) {
    && NoDup(batch)
    && Elems(batch) <= candidates
    && |batch| == (if candidates == {} then 0 else Min(|candidates|, AtLeastOne(maxConcurrent - active)))
    && (sort ==> batch == SortedKeys(candidates)[..|batch|])
  }

  /** A row is in the prototype's map exactly when some process projects to it; its pk is the last such process's. */
  lemma {:induction false} AllSubmittedPksSpec(group: seq<Node>, uniqueKeys: seq<string>, row: Row)
    ensures row in AllSubmittedPks(group, uniqueKeys) <==>
      exists i :: 0 <= i < |group| && KeyRow(group[i], uniqueKeys) == row
    ensures row in AllSubmittedPks(group, uniqueKeys) ==>
      exists i :: 0 <= i < |group| && KeyRow(group[i], uniqueKeys) == row
        && AllSubmittedPks(group, uniqueKeys)[row] == group[i].pk
        && forall j :: i < j < |group| ==> KeyRow(group[j], uniqueKeys) != row
    decreases |group|
  {
    if group != [] {
      var init, n := group[..|group| - 1], group[|group| - 1];
      AllSubmittedPksSpec(init, uniqueKeys, row);
      if KeyRow(n, uniqueKeys) == row {
        assert KeyRow(group[|group| - 1], uniqueKeys) == row;
      } else if row in AllSubmittedPks(init, uniqueKeys) {
        var i :| 0 <= i < |init| && KeyRow(init[i], uniqueKeys) == row
          && AllSubmittedPks(init, uniqueKeys)[row] == init[i].pk
          && forall j :: i < j < |init| ==> KeyRow(init[j], uniqueKeys) != row;
        assert group[i] == init[i];
        forall j | i < j < |group| ensures KeyRow(group[j], uniqueKeys) != row {
          if j < |init| { assert group[j] == init[j]; }
        }
      } else {
        forall i | 0 <= i < |group| ensures KeyRow(group[i], uniqueKeys) != row {
          if i < |init| { assert group[i] == init[i]; }
        }
      }
    }
  }

  /**
   * The prototype's submitted rows are the packaged controller's submitted keys, as rows, plus
   * the rows of processes that miss some unique extra.
   */
  lemma SubmittedRowsSplit(group: seq<Node>, uniqueKeys: seq<string>, row: Row)
    ensures row in AllSubmittedRows(group, uniqueKeys) <==>
      if Complete(row) then Unwrap(row) in SubmittedKeys(group, uniqueKeys)
      else exists i :: 0 <= i < |group| && KeyRow(group[i], uniqueKeys) == row
  {
    AllSubmittedPksSpec(group, uniqueKeys, row);
    if Complete(row) {
      var k := Unwrap(row);
      LiftUnwrap(row);
      SubmittedKeysSpec(group, uniqueKeys, k);
      assert forall i :: 0 <= i < |group| ==> (RecordsKey(group[i], uniqueKeys, k) <==> KeyRow(group[i], uniqueKeys) == row);
    }
  }

  /** Both controllers compute the same candidates: the incomplete rows never equal a backlog key. */
  lemma SameCandidates(group: seq<Node>, uniqueKeys: seq<string>, backlog: set<Key>)
    ensures PrototypeCandidates(backlog, AllSubmittedRows(group, uniqueKeys)) == backlog - SubmittedKeys(group, uniqueKeys)
  {
    forall k | k in backlog
      ensures Lift(k) in AllSubmittedRows(group, uniqueKeys) <==> k in SubmittedKeys(group, uniqueKeys)
    {
      SubmittedRowsSplit(group, uniqueKeys, Lift(k));
      LiftUnwrap(Lift(k));
      LiftInjective(Unwrap(Lift(k)), k);
    }
  }

  /** When the append-then-check loop stops, its batch is the one `IsPrototypeBatch` describes. */
  lemma PrototypeBatchAtExit(batch: seq<Key>, candidates: set<Key>, rest: set<Key>, active: nat, maxConcurrent: int, sort: bool)
    requires rest <= candidates && |batch| + |rest| == |candidates|
    requires NoDup(batch)
    requires forall k :: k in batch <==> k in candidates && k !in rest
    requires |batch| <= 1 || |batch| - 1 + active < maxConcurrent
    requires sort ==> SortedKeys(candidates) == batch + SortedKeys(rest)
    requires rest == {} || (|batch| >= 1 && |batch| + active >= maxConcurrent)
    ensures IsPrototypeBatch(batch, candidates, active, maxConcurrent, sort)
  {
    assert Elems(batch) <= candidates;
    if candidates == {} {
      assert |batch| == 0;
    }
  }

  // ---------------------------------------------------------------------------------------
  // The prototype controller

  class PrototypeController {
    /** The extras that identify a work item, in key order (`get_extra_unique_keys`). */
    const uniqueKeys: seq<string>
    const maxConcurrent: int
    /** The processes of the managed group, in query order. */
    var group: seq<Node>

    /** The group labelled `group_label` is fetched or created: `existing` is what it holds. */
    constructor (uniqueKeys: seq<string>, maxConcurrent: int, existing: seq<Node>)
      ensures this.uniqueKeys == uniqueKeys && this.maxConcurrent == maxConcurrent
      ensures group == existing
    {
      this.uniqueKeys := uniqueKeys;
      this.maxConcurrent := maxConcurrent;
      group := existing;
    }

    /** `get_all_submitted_pks`: projected row of every process, complete or not, to its pk. */
    method GetAllSubmittedPks() returns (allSubmitted: map<Row, nat>)
      ensures allSubmitted == AllSubmittedPks(group, uniqueKeys)
    {
      allSubmitted := map[];
      for i := 0 to |group|
        invariant allSubmitted == AllSubmittedPks(group[..i], uniqueKeys)
      {
        assert group[..i + 1][..i] == group[..i];
        allSubmitted := allSubmitted[KeyRow(group[i], uniqueKeys) := group[i].pk];
      }
      assert group[..|group|] == group;
    }

    /** `get_all_submitted_processes`: projected row of every process, sealed or not, to the process. */
    method GetAllSubmittedProcesses() returns (allSubmitted: map<Row, Node>)
      ensures allSubmitted == SubmittedProcesses(group, uniqueKeys, false)
    {
      allSubmitted := map[];
      for i := 0 to |group|
        invariant allSubmitted == SubmittedProcesses(group[..i], uniqueKeys, false)
      {
        assert group[..i + 1][..i] == group[..i];
        allSubmitted := allSubmitted[KeyRow(group[i], uniqueKeys) := group[i]];
      }
      assert group[..|group|] == group;
    }

    /** `_check_submitted_extras`. */
    method CheckSubmittedExtras() returns (extras: set<Row>)
      ensures extras == AllSubmittedRows(group, uniqueKeys)
    {
      var allSubmitted := GetAllSubmittedPks();
      extras := allSubmitted.Keys;
    }

    /** `num_active_slots`: the unsealed processes of the group. */
    function NumActiveSlots(): (n: nat)
      reads this
      ensures n <= |group|
    {
      CountActiveBound(group);
      CountActive(group)
    }

    /** `num_available_slots`: `max(0, max_concurrent - active)`. */
    function NumAvailableSlots(): (n: nat)
      reads this
      ensures n == 0 <==> NumActiveSlots() >= maxConcurrent
      ensures NumActiveSlots() < maxConcurrent ==> n == maxConcurrent - NumActiveSlots()
    {
      AvailableSlots(maxConcurrent, NumActiveSlots())
    }

    /** `num_to_run`: backlog keys whose row is not among the submitted rows. */
    function NumToRun(backlog: set<Key>): (n: nat)
      reads this
      ensures n == |backlog - SubmittedKeys(group, uniqueKeys)|
    {
      SameCandidates(group, uniqueKeys, backlog);
      |PrototypeCandidates(backlog, AllSubmittedRows(group, uniqueKeys))|
    }

    /** `num_already_run`: distinct rows in the group, incomplete ones included. */
    function NumAlreadyRun(): (n: nat)
      reads this
      ensures n >= |SubmittedKeys(group, uniqueKeys)|
    {
      PrototypeCountsIncomplete(group, uniqueKeys);
      |AllSubmittedRows(group, uniqueKeys)|
    }

    /**
     * The selection phase of the prototype's `submit_new_batch`: each candidate is appended
     * first, and the loop stops once the batch size plus the active count reaches
     * `max_concurrent`.
     */
    method SelectBatch(backlog: set<Key>, sort: bool) returns (toSubmit: seq<Key>)
      ensures IsPrototypeBatch(toSubmit, backlog - SubmittedKeys(group, uniqueKeys), CountActive(group), maxConcurrent, sort)
    {
      var submitted := CheckSubmittedExtras();
      var extrasToRun := PrototypeCandidates(backlog, submitted);
      SameCandidates(group, uniqueKeys, backlog);
      var active := CountActive(group);
      toSubmit := [];
      var rest := extrasToRun;
      while rest != {}
        invariant rest <= extrasToRun
        invariant |toSubmit| + |rest| == |extrasToRun|
        invariant NoDup(toSubmit)
        invariant forall k :: k in toSubmit <==> k in extrasToRun && k !in rest
        invariant toSubmit == [] || |toSubmit| + active < maxConcurrent
        invariant sort ==> SortedKeys(extrasToRun) == toSubmit + SortedKeys(rest)
        decreases |rest|
      {
        var workchainExtras: Key;
        if sort {
          workchainExtras := MinKey(rest);
          SortedStep(extrasToRun, toSubmit, rest);
        } else {
          workchainExtras :| workchainExtras in rest;
        }
        AdmitStep(extrasToRun, toSubmit, rest, workchainExtras);
        toSubmit := toSubmit + [workchainExtras];
        rest := rest - {workchainExtras};
        if |toSubmit| + active >= maxConcurrent {
          break;
        }
      }
      PrototypeBatchAtExit(toSubmit, extrasToRun, rest, active, maxConcurrent, sort);
    }

    /**
     * The prototype's `submit_new_batch`: a dry run maps the selected keys to nothing; a real
     * run submits, tags and adds one new, unsealed process per key.
     */
    method SubmitNewBatch(backlog: set<Key>, dryRun: bool, sort: bool, firstPk: nat)
        returns (keys: seq<Key>, submitted: map<Key, Option<nat>>)
      modifies this
      ensures IsPrototypeBatch(keys, backlog - SubmittedKeys(old(group), uniqueKeys), CountActive(old(group)), maxConcurrent, sort)
      ensures submitted.Keys == Elems(keys)
      ensures dryRun ==> group == old(group) && forall k :: k in submitted ==> submitted[k] == None
      ensures !dryRun ==> group == old(group) + NewProcesses(uniqueKeys, keys, firstPk)
      ensures !dryRun ==> forall i :: 0 <= i < |keys| ==> submitted[keys[i]] == Some(firstPk + i)
    {
      keys := SelectBatch(backlog, sort);
      if dryRun {
        submitted := map k | k in keys :: None;
        return;
      }
      submitted := SubmitAll(keys, firstPk);
    }

    /** The real-run loop: submit, tag and add one process per key, in order. */
    method SubmitAll(keys: seq<Key>, firstPk: nat) returns (submitted: map<Key, Option<nat>>)
      requires NoDup(keys)
      modifies this
      ensures submitted.Keys == Elems(keys)
      ensures group == old(group) + NewProcesses(uniqueKeys, keys, firstPk)
      ensures forall i :: 0 <= i < |keys| ==> submitted[keys[i]] == Some(firstPk + i)
    {
      submitted := map[];
      for i := 0 to |keys|
        invariant group == old(group) + NewProcesses(uniqueKeys, keys[..i], firstPk)
        invariant submitted.Keys == Elems(keys[..i])
        invariant forall j :: 0 <= j < i ==> submitted[keys[j]] == Some(firstPk + j)
      {
        var process := Tagged(firstPk + i, uniqueKeys, keys[i]);
        group := group + [process];
        submitted := submitted[keys[i] := Some(process.pk)];
        assert keys[..i + 1] == keys[..i] + [keys[i]];
        assert NewProcesses(uniqueKeys, keys[..i + 1], firstPk)
            == NewProcesses(uniqueKeys, keys[..i], firstPk) + [process];
      }
      assert keys[..|keys|] == keys;
    }
  }

  // ---------------------------------------------------------------------------------------
  // How the prototype compares with the packaged controller

  /** Every submitted key appears among the prototype's rows, so the prototype counts at least as many. */
  lemma PrototypeCountsIncomplete(group: seq<Node>, uniqueKeys: seq<string>)
    ensures forall k :: k in SubmittedKeys(group, uniqueKeys) ==> Lift(k) in AllSubmittedRows(group, uniqueKeys)
    ensures |SubmittedKeys(group, uniqueKeys)| <= |AllSubmittedRows(group, uniqueKeys)|
  {
    var keys := SubmittedKeys(group, uniqueKeys);
    var rows := AllSubmittedRows(group, uniqueKeys);
    forall k | k in keys ensures Lift(k) in rows {
      SubmittedRowsSplit(group, uniqueKeys, Lift(k));
      LiftUnwrap(Lift(k));
      LiftInjective(Unwrap(Lift(k)), k);
    }
    LiftImageSize(keys, rows);
  }

  /** Lifting is injective, so a set of rows holding every lifted key is at least as large. */
  lemma {:induction false} LiftImageSize(keys: set<Key>, rows: set<Row>)
    requires forall k :: k in keys ==> Lift(k) in rows
    ensures |keys| <= |rows|
    decreases |keys|
  {
    if keys != {} {
      var k :| k in keys;
      forall x | x in keys - {k} ensures Lift(x) in rows - {Lift(k)} {
        LiftInjective(x, k);
      }
      LiftImageSize(keys - {k}, rows - {Lift(k)});
    }
  }

  /** With free capacity and candidates left, both controllers select batches of the same size. */
  lemma AgreesWithBaseBelowCeiling(batch: seq<Key>, candidates: set<Key>, active: nat, maxConcurrent: int, sort: bool)
    requires active < maxConcurrent
    ensures IsPrototypeBatch(batch, candidates, active, maxConcurrent, sort) <==> IsBatch(batch, candidates, active, maxConcurrent, sort)
  {
  }

  /**
   * As written, the prototype admits one key into a group that is already full: the number of
   * active processes then exceeds `max_concurrent` after the batch.
   */
  lemma PrototypeOverfillsFullGroup(group: seq<Node>, uniqueKeys: seq<string>, batch: seq<Key>, candidates: set<Key>,
                                    firstPk: nat, maxConcurrent: int, sort: bool)
    requires IsPrototypeBatch(batch, candidates, CountActive(group), maxConcurrent, sort)
    requires candidates != {} && CountActive(group) >= maxConcurrent
    ensures |batch| == 1
    ensures CountActive(group + NewProcesses(uniqueKeys, batch, firstPk)) == CountActive(group) + 1 > maxConcurrent
  {
    assert |candidates| >= 1;
    CountActiveAppend(group, NewProcesses(uniqueKeys, batch, firstPk));
    CountActiveNew(uniqueKeys, batch, firstPk);
  }

  /**
   * The packaged test scenario (ten items, five submitted, two still active, capacity two), run
   * through the prototype: it submits ("5",) and leaves three processes active.
   */
  lemma PrototypeOverfillsTestScenario()
    ensures forall b ::
      IsPrototypeBatch(b, PrototypeCandidates(Backlog10, AllSubmittedRows(TestGroup(false), IdxKeys)), 2, 2, true)
      ==> b == [Idx("5")] && CountActive(TestGroup(false) + NewProcesses(IdxKeys, b, 6)) == 3
  {
    SameCandidates(TestGroup(false), IdxKeys, Backlog10);
    TestCandidates(false);
    TestActiveCounts();
    TestLeastCandidate();
    forall b | IsPrototypeBatch(b, {Idx("5"), Idx("6"), Idx("7"), Idx("8"), Idx("9")}, 2, 2, true)
      ensures b == [Idx("5")] && CountActive(TestGroup(false) + NewProcesses(IdxKeys, b, 6)) == 3
    {
      PrototypeOverfillsFullGroup(TestGroup(false), IdxKeys, b, {Idx("5"), Idx("6"), Idx("7"), Idx("8"), Idx("9")}, 6, 2, true);
    }
  }
}
