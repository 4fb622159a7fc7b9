/**
 * The quantum-espresso example built on the prototype controller: the backlog is the set of
 * `(mpid,)` of the structures with an `mpid` extra whose kinds the family covers (repeats
 * merge silently), and a structure whose pseudopotentials cannot be looked up yields the skip
 * result, which the controller does not handle.
 */
module PwBase {
  import opened Wrappers
  import opened Store
  import opened Structures

  /** The enumeration query: structures carrying an `mpid` extra that pass `structureFilters`. */
  function WithMpid(structureFilters: Structure -> bool): Structure -> bool {
    (s: Structure) => "mpid" in s.node.extras && structureFilters(s)
  }

  /** Every structure the enumeration query returns carries an `mpid` extra. */
  lemma SelectedHaveMpid(structures: seq<Structure>, structureFilters: Structure -> bool, s: Structure)
    requires s in Selected(structures, WithMpid(structureFilters))
    ensures s in structures && "mpid" in s.node.extras && structureFilters(s)
  {
    assert WithMpid(structureFilters)(s);
  }

  /** Rows of keys, one per key. */
  function LiftAll(keys: seq<Key>): (rows: seq<Row>)
    ensures |rows| == |keys|
  {
    seq(|keys|, i requires 0 <= i < |keys| => Lift(keys[i]))
  }

  /** Lifting keys one by one keeps their membership and their repeats. */
  lemma LiftAllFaithful(keys: seq<Key>)
    ensures forall k :: k in keys <==> Lift(k) in LiftAll(keys)
    ensures NoDup(keys) <==> NoDup(LiftAll(keys))
  {
    var rows := LiftAll(keys);
    forall k ensures k in keys <==> Lift(k) in rows {
      if Lift(k) in rows {
        var i :| 0 <= i < |rows| && rows[i] == Lift(k);
        LiftInjective(keys[i], k);
      }
      if k in keys {
        var i :| 0 <= i < |keys| && keys[i] == k;
        assert rows[i] == Lift(k);
      }
    }
    forall i, j | 0 <= i < j < |keys| ensures keys[i] == keys[j] <==> rows[i] == rows[j] {
      LiftInjective(keys[i], keys[j]);
    }
  }

  /**
   * `get_all_extras_to_submit`: the `(mpid,)` of every selected structure the family covers,
   * collected into a set, so that repeated `mpid`s merge without an error.
   */
  method AllExtrasToSubmit(structures: seq<Structure>, structureFilters: Structure -> bool, familyElements: set<string>)
      returns (allExtras: set<Key>)
    ensures var kept := CoveredRows(Selected(structures, WithMpid(structureFilters)), familyElements);
      && (forall k :: k in allExtras <==> Lift(k) in kept)
      && |allExtras| <= |kept|
      && (|allExtras| == |kept| <==> NoDup(kept))
    ensures forall k :: k in allExtras ==> |k| == |MpidKeys|
  {
    var qr := Selected(structures, WithMpid(structureFilters));
    var extras: seq<Key> := [];
    for i := 0 to |qr|
      invariant LiftAll(extras) == CoveredRows(qr[..i], familyElements)
    {
      CoveredRowsAppend(qr[..i], qr[i], familyElements);
      assert qr[..i + 1] == qr[..i] + [qr[i]];
      if Elems(qr[i].kindNames) <= familyElements {
        SelectedHaveMpid(structures, structureFilters, qr[i]);
        var key: Key := [qr[i].node.extras["mpid"]];
        LiftAllAppend(extras, key, MpidRow(qr[i]));
        extras := extras + [key];
      }
    }
    assert qr[..|qr|] == qr;
    allExtras := Elems(extras);
    CollectedKeys(extras, CoveredRows(qr, familyElements));
  }

  /** Appending a key appends its row. */
  lemma LiftAllAppend(keys: seq<Key>, key: Key, row: Row)
    requires row == Lift(key)
    ensures LiftAll(keys + [key]) == LiftAll(keys) + [row]
  {
  }

  /** Collecting keys into a set keeps their rows' membership and merges exactly their repeats. */
  lemma CollectedKeys(keys: seq<Key>, kept: seq<Row>)
    requires LiftAll(keys) == kept
    requires forall row :: row in kept ==> |row| == 1
    ensures forall k :: k in Elems(keys) <==> Lift(k) in kept
    ensures forall k :: k in Elems(keys) ==> |k| == 1
    ensures |Elems(keys)| <= |kept|
    ensures |Elems(keys)| == |kept| <==> NoDup(kept)
  {
    LiftAllFaithful(keys);
    DistinctCount(keys);
  }

  // ---------------------------------------------------------------------------------------
  // Materializing a key

  /** Why a key cannot be materialized: an index out of range. */
  datatype LookupError = IndexError

  /** What materializing a key yields: a structure to submit, or a skip with a warning. */
  datatype Outcome = Submit(structure: Structure) | Skip(mpid: Value)

  /** The first structure of the group whose `mpid` extra equals `mpid`. */
  function FirstWithMpid(structures: seq<Structure>, mpid: Value): (r: Result<Structure, LookupError>)
    ensures r.Err? <==> forall s :: s in structures ==> Extra(s.node, "mpid") != Some(mpid)
    ensures r.Ok? ==> r.value in structures && Extra(r.value.node, "mpid") == Some(mpid)
  {
    if structures == [] then Err(IndexError)
    else if Extra(structures[0].node, "mpid") == Some(mpid) then Ok(structures[0])
    else
      assert forall s :: s in structures <==> s == structures[0] || s in structures[1..];
      FirstWithMpid(structures[1..], mpid)
  }

  /**
   * `_get_structure_from_extras`: the first group structure whose `mpid` is the key's first
   * value; the key being empty or no structure matching are index errors.
   */
  function StructureFromExtras(structures: seq<Structure>, key: Key): (r: Result<Structure, LookupError>)
    ensures r.Err? <==> |key| == 0 || forall s :: s in structures ==> Extra(s.node, "mpid") != Some(key[0])
    ensures r.Ok? ==> r.value in structures && Extra(r.value.node, "mpid") == Some(key[0])
  {
    if |key| == 0 then Err(IndexError) else FirstWithMpid(structures, key[0])
  }

  /**
   * `get_inputs_and_processclass_from_extras`, as far as what is submitted: the structure is
   * looked up first (its errors propagate); when `lookupSucceeds` says the family has no
   * pseudopotentials or cutoffs for it (a `ValueError`), the result is the skip result
   * `(None, None)`, which the controller does not handle.
   */
  function InputsFromExtras(structures: seq<Structure>, key: Key, lookupSucceeds: Structure -> bool): (r: Result<Outcome, LookupError>)
    ensures r.Err? <==> StructureFromExtras(structures, key).Err?
    ensures r.Ok? ==> |key| > 0
    ensures r.Ok? && r.value.Skip? ==> r.value.mpid == key[0]
    ensures r.Ok? ==> var s := StructureFromExtras(structures, key).value;
      r.value == if lookupSucceeds(s) then Submit(s) else Skip(key[0])
  {
    match StructureFromExtras(structures, key)
    case Err(e) => Err(e)
    case Ok(s) => if lookupSucceeds(s) then Ok(Submit(s)) else Ok(Skip(key[0]))
  }

  /**
   * Enumeration and materialization fit together: a key of the backlog always finds its
   * structure, which carries the key's `mpid`, so only the pseudopotential lookup can stop it.
   */
  lemma EnumeratedKeysMaterialize(structures: seq<Structure>, structureFilters: Structure -> bool,
                                  familyElements: set<string>, key: Key, lookupSucceeds: Structure -> bool)
    requires Lift(key) in CoveredRows(Selected(structures, WithMpid(structureFilters)), familyElements)
    ensures InputsFromExtras(structures, key, lookupSucceeds).Ok?
    ensures match InputsFromExtras(structures, key, lookupSucceeds).value
      case Submit(s) => s in structures && Extra(s.node, "mpid") == Some(key[0]) && lookupSucceeds(s)
      case Skip(mpid) => mpid == key[0]
  {
    var s :| s in Selected(structures, WithMpid(structureFilters)) && Covered(s, familyElements) && MpidRow(s) == Lift(key);
    assert Lift(key)[0] == Some(key[0]);
    assert s in structures && Extra(s.node, "mpid") == Some(key[0]);
  }
}
