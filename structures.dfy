/**
 * Crystal structures as the two quantum-espresso examples see them: a node of a group,
 * identified by its `mpid` extra, together with the names of its kinds. A structure is worth
 * running only if the pseudopotential family covers every one of its kinds.
 */
module Structures {
  import opened Wrappers
  import opened Store

  /** A structure node and the `name` of each entry of its `kinds` attribute. */
  datatype Structure = Structure(node: Node, kindNames: seq<string>)

  /** The unique-key schema of both examples: the single extra `mpid`. */
  const MpidKeys: seq<string> := ["mpid"]

  /** The set of kind names is a subset of the family's elements. */
  predicate Covered(s: Structure, familyElements: set<string>) {
    Elems(s.kindNames) <= familyElements
  }

  /** The structures of a group that pass the query's filters, in query order. */
  function Selected(structures: seq<Structure>, passes: Structure -> bool): (qr: seq<Structure>)
    ensures |qr| <= |structures|
    ensures forall s :: s in qr <==> s in structures && passes(s)
    decreases |structures|
  {
    if structures == [] then []
    else
      var init, s := structures[..|structures| - 1], structures[|structures| - 1];
      assert forall x :: x in structures <==> x in init || x == s;
      Selected(init, passes) + (if passes(s) then [s] else [])
  }

  /** The `(mpid,)` row of a structure; it holds `None` when the structure has no `mpid` extra. */
  function MpidRow(s: Structure): (row: Row)
    ensures row == [Extra(s.node, "mpid")]
  {
    KeyRowReadsExtras(s.node, MpidKeys);
    KeyRow(s.node, MpidKeys)
  }

  /**
   * The enumeration loop of both examples: the `(mpid,)` rows of the structures whose kinds
   * the family covers, in query order.
   */
  function CoveredRows(structures: seq<Structure>, familyElements: set<string>): (rows: seq<Row>)
    ensures |rows| <= |structures|
    ensures forall row :: row in rows <==>
      exists s :: s in structures && Covered(s, familyElements) && MpidRow(s) == row
    decreases |structures|
  {
    if structures == [] then []
    else
      var init, s := structures[..|structures| - 1], structures[|structures| - 1];
      assert forall x :: x in structures <==> x in init || x == s;
      CoveredRows(init, familyElements) + (if Covered(s, familyElements) then [MpidRow(s)] else [])
  }

  /** Appending one structure extends the covered rows by its row exactly when it is covered. */
  lemma CoveredRowsAppend(structures: seq<Structure>, s: Structure, familyElements: set<string>)
    ensures CoveredRows(structures + [s], familyElements)
      == CoveredRows(structures, familyElements) + (if Covered(s, familyElements) then [MpidRow(s)] else [])
  {
    assert (structures + [s])[..|structures|] == structures;
  }
}
