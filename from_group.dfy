/**
 * The source-group enumerator: the backlog is read off the members of an existing parent
 * group, one key per member, and a key leads back to the one member that carries it.
 */
module FromGroup {
  import opened Wrappers
  import opened Store

  /** Why enumeration or lookup fails (an `AssertionError` or `ValueError` raised by the Python code). */
  datatype Error =
    | MissingExtra                // a member does not define one of the unique extras
    | DuplicateExtras             // two members project to the same key
    | WrongArity(expected: nat)   // a lookup key without one value per unique extra
    | NotExactlyOne(found: nat)   // a lookup matched no member (0) or more than one (2, the query limit)

  /** The rows projected from the parent group's members, in query order. */
  function MemberRows(members: seq<Node>, uniqueKeys: seq<string>): (rows: seq<Row>)
    ensures |rows| == |members|
  {
    seq(|members|, i requires 0 <= i < |members| => KeyRow(members[i], uniqueKeys))
  }

  /** Some member lacks one of the unique extras. */
  predicate SomeMemberIncomplete(members: seq<Node>, uniqueKeys: seq<string>) {
    exists i :: 0 <= i < |members| && !Complete(KeyRow(members[i], uniqueKeys))
  }

  /** Two members project to the same row. */
  predicate SomeRowRepeated(members: seq<Node>, uniqueKeys: seq<string>) {
    exists i, j :: 0 <= i < j < |members| && KeyRow(members[i], uniqueKeys) == KeyRow(members[j], uniqueKeys)
  }

  /**
   * `get_all_extras_to_submit`: fails if a member misses an extra, then if two members share a
   * key; otherwise the set of member keys, one per member.
   */
  function AllExtrasToSubmit(members: seq<Node>, uniqueKeys: seq<string>): (r: Result<set<Key>, Error>)
    ensures r == Err(MissingExtra) <==> SomeMemberIncomplete(members, uniqueKeys)
    ensures r == Err(DuplicateExtras) <==>
      !SomeMemberIncomplete(members, uniqueKeys) && SomeRowRepeated(members, uniqueKeys)
    ensures r.Err? ==> r.error == MissingExtra || r.error == DuplicateExtras
    ensures r.Ok? ==> |r.value| == |members|
    ensures r.Ok? ==> forall k :: k in r.value <==> exists i :: 0 <= i < |members| && RecordsKey(members[i], uniqueKeys, k)
    ensures r.Ok? ==> forall k :: k in r.value ==> |k| == |uniqueKeys|
  {
    var rows := MemberRows(members, uniqueKeys);
    assert forall i :: 0 <= i < |members| ==> rows[i] == KeyRow(members[i], uniqueKeys);
    if exists i :: 0 <= i < |rows| && !Complete(rows[i]) then
      assert SomeMemberIncomplete(members, uniqueKeys) by {
        var i :| 0 <= i < |rows| && !Complete(rows[i]);
        assert !Complete(KeyRow(members[i], uniqueKeys));
      }
      Err(MissingExtra)
    else
      var keys := seq(|rows|, i requires 0 <= i < |rows| => Unwrap(rows[i]));
      KeysOfCompleteRows(members, uniqueKeys, keys);
      DistinctCount(keys);
      if |Elems(keys)| != |keys| then Err(DuplicateExtras) else Ok(Elems(keys))
  }

  /** The keys of complete member rows: distinct exactly when the rows are, and recorded by their members. */
  lemma KeysOfCompleteRows(members: seq<Node>, uniqueKeys: seq<string>, keys: seq<Key>)
    requires |keys| == |members|
    requires forall i :: 0 <= i < |members| ==> Complete(KeyRow(members[i], uniqueKeys))
    requires forall i :: 0 <= i < |members| ==> keys[i] == Unwrap(KeyRow(members[i], uniqueKeys))
    ensures !SomeMemberIncomplete(members, uniqueKeys)
    ensures NoDup(keys) <==> !SomeRowRepeated(members, uniqueKeys)
    ensures forall i :: 0 <= i < |members| ==> RecordsKey(members[i], uniqueKeys, keys[i])
    ensures forall k :: k in keys <==> exists i :: 0 <= i < |members| && RecordsKey(members[i], uniqueKeys, k)
    ensures forall k :: k in keys ==> |k| == |uniqueKeys|
  {
    forall i | 0 <= i < |members| ensures RecordsKey(members[i], uniqueKeys, keys[i]) {
      LiftUnwrap(KeyRow(members[i], uniqueKeys));
    }
    forall i, j | 0 <= i < j < |members|
      ensures keys[i] == keys[j] <==> KeyRow(members[i], uniqueKeys) == KeyRow(members[j], uniqueKeys)
    {
      LiftInjective(keys[i], keys[j]);
    }
    forall k | exists i :: 0 <= i < |members| && RecordsKey(members[i], uniqueKeys, k)
      ensures k in keys
    {
      var i :| 0 <= i < |members| && RecordsKey(members[i], uniqueKeys, k);
      LiftInjective(keys[i], k);
    }
  }

  // ---------------------------------------------------------------------------------------
  // Looking a key up in the parent group

  /** `dict(zip(projections, values))`: projection `i` filtered to value `i`. */
  function Filters(uniqueKeys: seq<string>, values: Key): map<string, Value> {
    ZipDict(Projections(uniqueKeys), values)
  }

  /** A node passes every equality filter of the lookup query. */
  predicate MatchesFilters(n: Node, filters: map<string, Value>) {
    forall path :: path in filters ==> Resolve(n, path) == Some(filters[path])
  }

  /** The members that pass the filters, in query order. */
  function MatchingMembers(members: seq<Node>, filters: map<string, Value>): (ms: seq<Node>)
    ensures |ms| <= |members|
    ensures forall n :: n in ms ==> n in members && MatchesFilters(n, filters)
    ensures forall i :: 0 <= i < |members| && MatchesFilters(members[i], filters) ==> members[i] in ms
  {
    if members == [] then []
    else
      assert forall i :: 0 < i < |members| ==> members[i] == members[1..][i - 1];
      (if MatchesFilters(members[0], filters) then [members[0]] else [])
      + MatchingMembers(members[1..], filters)
  }

  /** Member `i` is the only member passing the filters. */
  predicate UniqueMatch(members: seq<Node>, filters: map<string, Value>, i: int) {
    && 0 <= i < |members|
    && MatchesFilters(members[i], filters)
    && forall j :: 0 <= j < |members| && j != i ==> !MatchesFilters(members[j], filters)
  }

  /** No member matches exactly when none passes the filters. */
  lemma MatchingNone(members: seq<Node>, filters: map<string, Value>)
    ensures MatchingMembers(members, filters) == [] <==>
      forall i :: 0 <= i < |members| ==> !MatchesFilters(members[i], filters)
  {
    if MatchingMembers(members, filters) != [] {
      assert MatchingMembers(members, filters)[0] in MatchingMembers(members, filters);
    }
  }

  /** How many members match, as far as "none", "exactly one" and "more" are concerned. */
  lemma {:induction false} MatchingCount(members: seq<Node>, filters: map<string, Value>)
    ensures MatchingMembers(members, filters) == [] <==>
      forall i :: 0 <= i < |members| ==> !MatchesFilters(members[i], filters)
    ensures |MatchingMembers(members, filters)| == 1 <==> exists i :: UniqueMatch(members, filters, i)
    ensures |MatchingMembers(members, filters)| == 1 ==>
      exists i :: UniqueMatch(members, filters, i) && MatchingMembers(members, filters)[0] == members[i]
    decreases |members|
  {
    MatchingNone(members, filters);
    if members != [] {
      MatchingCount(members[1..], filters);
      if MatchesFilters(members[0], filters) {
        HeadMatches(members, filters);
      } else {
        HeadDoesNotMatch(members, filters);
      }
    }
  }

  /** A passing first member is the unique match exactly when no later member passes. */
  lemma HeadMatches(members: seq<Node>, filters: map<string, Value>)
    requires members != [] && MatchesFilters(members[0], filters)
    ensures |MatchingMembers(members, filters)| == 1 <==> exists i :: UniqueMatch(members, filters, i)
    ensures |MatchingMembers(members, filters)| == 1 ==>
      UniqueMatch(members, filters, 0) && MatchingMembers(members, filters)[0] == members[0]
  {
    var tail := members[1..];
    MatchingNone(tail, filters);
    assert forall j :: 0 < j < |members| ==> members[j] == tail[j - 1];
    if MatchingMembers(tail, filters) == [] {
      assert UniqueMatch(members, filters, 0);
    } else {
      var j :| 0 <= j < |tail| && MatchesFilters(tail[j], filters);
      forall i ensures !UniqueMatch(members, filters, i) {
        if i == 0 {
          assert members[j + 1] == tail[j];
        }
      }
    }
  }

  /** A first member that fails the filters leaves the count to the rest. */
  lemma HeadDoesNotMatch(members: seq<Node>, filters: map<string, Value>)
    requires members != [] && !MatchesFilters(members[0], filters)
    requires |MatchingMembers(members[1..], filters)| == 1 <==> exists i :: UniqueMatch(members[1..], filters, i)
    requires |MatchingMembers(members[1..], filters)| == 1 ==>
      exists i :: UniqueMatch(members[1..], filters, i) && MatchingMembers(members[1..], filters)[0] == members[1..][i]
    ensures |MatchingMembers(members, filters)| == 1 <==> exists i :: UniqueMatch(members, filters, i)
    ensures |MatchingMembers(members, filters)| == 1 ==>
      exists i :: UniqueMatch(members, filters, i) && MatchingMembers(members, filters)[0] == members[i]
  {
    var tail := members[1..];
    var ms := MatchingMembers(members, filters);
    assert ms == MatchingMembers(tail, filters);
    forall i ensures UniqueMatch(members, filters, i) <==> i >= 1 && UniqueMatch(tail, filters, i - 1) {
      UniqueMatchShift(members, filters, i);
    }
    if exists i :: UniqueMatch(members, filters, i) {
      var i :| UniqueMatch(members, filters, i);
      assert UniqueMatch(tail, filters, i - 1);
    }
    if |ms| == 1 {
      var i :| UniqueMatch(tail, filters, i) && MatchingMembers(tail, filters)[0] == tail[i];
      assert UniqueMatch(members, filters, i + 1);
    }
  }

  /** Past a first member that fails the filters, unique matches shift by one position. */
  lemma UniqueMatchShift(members: seq<Node>, filters: map<string, Value>, i: int)
    requires members != [] && !MatchesFilters(members[0], filters)
    ensures UniqueMatch(members, filters, i) <==> i >= 1 && UniqueMatch(members[1..], filters, i - 1)
  {
    var tail := members[1..];
    if i >= 1 && UniqueMatch(tail, filters, i - 1) {
      forall j | 0 <= j < |members| && j != i ensures !MatchesFilters(members[j], filters) {
        if j > 0 { assert members[j] == tail[j - 1]; }
      }
    }
    if UniqueMatch(members, filters, i) {
      forall j | 0 <= j < |tail| && j != i - 1 ensures !MatchesFilters(tail[j], filters) {
        assert tail[j] == members[j + 1];
      }
    }
  }

  /**
   * `get_parent_node_from_extras`: the arity must match; the query keeps at most two members
   * passing the filters, and exactly one must be found.
   */
  function ParentNodeFromExtras(members: seq<Node>, uniqueKeys: seq<string>, values: Key): (r: Result<Node, Error>)
    ensures |values| != |uniqueKeys| <==> r == Err(WrongArity(|uniqueKeys|))
    ensures r.Ok? <==> |values| == |uniqueKeys| && exists i :: UniqueMatch(members, Filters(uniqueKeys, values), i)
    ensures r.Ok? ==> exists i :: UniqueMatch(members, Filters(uniqueKeys, values), i) && r.value == members[i]
    ensures r == Err(NotExactlyOne(0)) <==>
      |values| == |uniqueKeys| && forall i :: 0 <= i < |members| ==> !MatchesFilters(members[i], Filters(uniqueKeys, values))
    ensures r.Err? ==> r.error in {WrongArity(|uniqueKeys|), NotExactlyOne(0), NotExactlyOne(2)}
  {
    if |values| != |uniqueKeys| then Err(WrongArity(|uniqueKeys|))
    else
      var filters := Filters(uniqueKeys, values);
      var matching := MatchingMembers(members, filters);
      MatchingCount(members, filters);
      // the query's limit(2)
      var results := if |matching| <= 2 then matching else matching[..2];
      if |results| != 1 then Err(NotExactlyOne(|results|)) else Ok(results[0])
  }

  /** With distinct unique keys, the lookup filters hold of a node exactly when it records the key. */
  lemma FiltersSelectRecorded(n: Node, uniqueKeys: seq<string>, values: Key)
    requires NoDup(uniqueKeys) && |values| == |uniqueKeys|
    ensures MatchesFilters(n, Filters(uniqueKeys, values)) <==> RecordsKey(n, uniqueKeys, values)
  {
    var ps := Projections(uniqueKeys);
    var filters := Filters(uniqueKeys, values);
    ProjectionsInjective(uniqueKeys);
    ZipDictKeys(ps, values);
    KeyRowReadsExtras(n, uniqueKeys);
    forall i | 0 <= i < |uniqueKeys|
      ensures ps[i] in filters && filters[ps[i]] == values[i]
      ensures Resolve(n, ps[i]) == KeyRow(n, uniqueKeys)[i]
    {
      ZipDictAt(ps, values, i);
      ResolveProjection(n, uniqueKeys[i]);
    }
    if MatchesFilters(n, filters) {
      assert KeyRow(n, uniqueKeys) == Lift(values);
    }
    if RecordsKey(n, uniqueKeys, values) {
      forall path | path in filters ensures Resolve(n, path) == Some(filters[path]) {
        var i :| 0 <= i < |ps| && i < |values| && ps[i] == path;
        assert Lift(values)[i] == Some(values[i]);
      }
    }
  }

  /**
   * Enumeration and lookup agree: with distinct unique keys, every key enumerated from the
   * parent group leads back to the one member that carries it.
   */
  lemma EnumeratedKeysLeadBack(members: seq<Node>, uniqueKeys: seq<string>, k: Key)
    requires NoDup(uniqueKeys)
    requires AllExtrasToSubmit(members, uniqueKeys).Ok? && k in AllExtrasToSubmit(members, uniqueKeys).value
    ensures ParentNodeFromExtras(members, uniqueKeys, k).Ok?
    ensures var n := ParentNodeFromExtras(members, uniqueKeys, k).value; n in members && RecordsKey(n, uniqueKeys, k)
  {
    var i :| 0 <= i < |members| && RecordsKey(members[i], uniqueKeys, k);
    var filters := Filters(uniqueKeys, k);
    forall j | 0 <= j < |members| && j != i ensures !MatchesFilters(members[j], filters) {
      FiltersSelectRecorded(members[j], uniqueKeys, k);
    }
    FiltersSelectRecorded(members[i], uniqueKeys, k);
    assert UniqueMatch(members, filters, i);
    var r := ParentNodeFromExtras(members, uniqueKeys, k);
    var j :| UniqueMatch(members, filters, j) && r.value == members[j];
    assert j == i;
  }
}
