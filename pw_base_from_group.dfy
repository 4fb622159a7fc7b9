/**
 * The quantum-espresso example built on the source-group enumerator: the backlog is the
 * `(mpid,)` of every parent-group structure whose kinds the pseudopotential family covers, and
 * two such structures sharing an `mpid` make enumeration fail.
 */
module PwBaseFromGroup {
  import opened Wrappers
  import opened Store
  import opened Structures
  import FromGroup

  /**
   * `get_all_extras_to_submit`: query the parent group's structures passing `parentGroupFilters`,
   * keep the `(mpid,)` of the covered ones, and fail if one is kept twice.
   */
  method AllExtrasToSubmit(members: seq<Structure>, parentGroupFilters: Structure -> bool, familyElements: set<string>)
      returns (r: Result<set<Row>, FromGroup.Error>)
    ensures var kept := CoveredRows(Selected(members, parentGroupFilters), familyElements);
      && (r.Err? <==> !NoDup(kept))
      && (r.Err? ==> r.error == FromGroup.DuplicateExtras)
      && (r.Ok? ==> r.value == Elems(kept) && |r.value| == |kept|)
  {
    var results := Selected(members, parentGroupFilters);
    var extras: seq<Row> := [];
    for i := 0 to |results|
      invariant extras == CoveredRows(results[..i], familyElements)
    {
      CoveredRowsAppend(results[..i], results[i], familyElements);
      assert results[..i + 1] == results[..i] + [results[i]];
      if Elems(results[i].kindNames) <= familyElements {
        extras := extras + [MpidRow(results[i])];
      }
    }
    assert results[..|results|] == results;
    DistinctCount(extras);
    if |Elems(extras)| != |extras| {
      return Err(FromGroup.DuplicateExtras);
    }
    return Ok(Elems(extras));
  }

  /**
   * A successful enumeration holds exactly the `(mpid,)` of the covered, selected structures:
   * a structure with uncovered kinds contributes nothing.
   */
  lemma KeptExactlyCovered(members: seq<Structure>, parentGroupFilters: Structure -> bool, familyElements: set<string>, row: Row)
    ensures row in Elems(CoveredRows(Selected(members, parentGroupFilters), familyElements)) <==>
      exists s :: s in members && parentGroupFilters(s) && Covered(s, familyElements) && row == [Extra(s.node, "mpid")]
  {
  }
}
