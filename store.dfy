/**
 * The record store as the controllers see it: nodes carrying extras and a sealed flag,
 * projections of extras into query rows, and the tagging of a node with its key.
 */
module Store {
  import opened Wrappers

  /** A scalar extra value usable in a key: a string, a boolean or an integer (no floats). */
  datatype Value = Str(s: string) | Bool(b: bool) | Int(i: int)

  /** A work-item key: one value per unique extra key, in unique-key order. */
  type Key = seq<Value>

  /** A query row: one projected value per projection, `None` where the node has no such extra. */
  type Row = seq<Option<Value>>

  /**
   * A node of the store: its primary key, its extras and whether it is sealed.
   * A node that has no `sealed` attribute at all counts as not sealed.
   */
  datatype Node = Node(pk: nat, extras: map<string, Value>, sealed: bool)

  /** The path prefix under which a node's extras are projected. */
  const ExtrasPrefix: string := "extras."

  /** No element occurs twice. */
  predicate NoDup<T(==)>(s: seq<T>) {
    forall i, j :: 0 <= i < j < |s| ==> s[i] != s[j]
  }

  /** The set of elements of a sequence. */
  function Elems<T>(s: seq<T>): set<T> {
    set x | x in s
  }

  /** The extra `name` of node `n`, or `None` when the node does not have it. */
  function Extra(n: Node, name: string): Option<Value> {
    if name in n.extras then Some(n.extras[name]) else None
  }

  /** The query projections `extras.<k>` for the unique keys, in the same order. */
  function Projections(uniqueKeys: seq<string>): (ps: seq<string>)
    ensures |ps| == |uniqueKeys|
  {
    seq(|uniqueKeys|, i requires 0 <= i < |uniqueKeys| => ExtrasPrefix + uniqueKeys[i])
  }

  /**
   * The value a query projects for `path` on node `n`: a path `extras.<name>` reads the extra
   * `<name>` (`None` when absent). Other paths are not part of this model and read as `None`.
   */
  function Resolve(n: Node, path: string): Option<Value> {
    if |ExtrasPrefix| <= |path| && path[..|ExtrasPrefix|] == ExtrasPrefix then
      Extra(n, path[|ExtrasPrefix|..])
    else
      None
  }

  /** The row a query projecting the unique-key extras returns for node `n`. */
  function KeyRow(n: Node, uniqueKeys: seq<string>): (row: Row)
    ensures |row| == |uniqueKeys|
  {
    var ps := Projections(uniqueKeys);
    seq(|ps|, i requires 0 <= i < |ps| => Resolve(n, ps[i]))
  }

  /** A row in which every projected extra is present. */
  predicate Complete(row: Row) {
    forall i :: 0 <= i < |row| ==> row[i].Some?
  }

  /** The key tuple of a complete row. */
  function Unwrap(row: Row): (k: Key)
    requires Complete(row)
    ensures |k| == |row|
  {
    seq(|row|, i requires 0 <= i < |row| && Complete(row) => row[i].value)
  }

  /** A key seen as a row: every position present. */
  function Lift(k: Key): (row: Row)
    ensures |row| == |k| && Complete(row)
  {
    seq(|k|, i requires 0 <= i < |k| => Some(k[i]))
  }

  /** Node `n` carries key `k` in its unique-key extras. */
  predicate RecordsKey(n: Node, uniqueKeys: seq<string>, k: Key) {
    KeyRow(n, uniqueKeys) == Lift(k)
  }

  /**
   * The dictionary `dict(zip(names, values))`: pairs are taken up to the shorter of the two
   * sequences, and a later pair overwrites an earlier one with the same name.
   */
  function ZipDict<V>(names: seq<string>, values: seq<V>): map<string, V>
    decreases |names|
  {
    if |names| == 0 || |values| == 0 then map[]
    else
      var n := if |names| <= |values| then |names| else |values|;
      ZipDict(names[..n - 1], values[..n - 1])[names[n - 1] := values[n - 1]]
  }

  /** A newly submitted, unsealed node with primary key `pk`, tagged with `key`. */
  function Tagged(pk: nat, uniqueKeys: seq<string>, key: Key): Node {
    Node(pk, ZipDict(uniqueKeys, key), false)
  }

  /** The nodes a real batch submission adds to a group, in submission order. */
  function NewProcesses(uniqueKeys: seq<string>, keys: seq<Key>, firstPk: nat): (ns: seq<Node>)
    ensures |ns| == |keys|
  {
    seq(|keys|, i requires 0 <= i < |keys| => Tagged(firstPk + i, uniqueKeys, keys[i]))
  }

  /** Number of active (unsealed) nodes: what a query restricted to active processes counts. */
  function CountActive(group: seq<Node>): nat {
    if group == [] then 0
    else (if group[0].sealed then 0 else 1) + CountActive(group[1..])
  }

  // ---------------------------------------------------------------------------------------
  // Lemmas

  lemma LiftUnwrap(row: Row)
    requires Complete(row)
    ensures Lift(Unwrap(row)) == row
  {
  }

  lemma {:induction false} LiftInjective(a: Key, b: Key)
    ensures Lift(a) == Lift(b) <==> a == b
  {
    if Lift(a) == Lift(b) {
      assert |a| == |b|;
      forall i | 0 <= i < |a| ensures a[i] == b[i] {
        assert Lift(a)[i] == Lift(b)[i];
      }
    }
  }

  /** The projection for key `name` reads exactly the extra `name`. */
  lemma ResolveProjection(n: Node, name: string)
    ensures Resolve(n, ExtrasPrefix + name) == Extra(n, name)
  {
    var path := ExtrasPrefix + name;
    assert path[..|ExtrasPrefix|] == ExtrasPrefix;
    assert path[|ExtrasPrefix|..] == name;
  }

  /** Position `i` of a node's key row is the node's extra named by unique key `i`. */
  lemma KeyRowReadsExtras(n: Node, uniqueKeys: seq<string>)
    ensures forall i :: 0 <= i < |uniqueKeys| ==> KeyRow(n, uniqueKeys)[i] == Extra(n, uniqueKeys[i])
  {
    forall i | 0 <= i < |uniqueKeys|
      ensures KeyRow(n, uniqueKeys)[i] == Extra(n, uniqueKeys[i])
    {
      ResolveProjection(n, uniqueKeys[i]);
    }
  }

  /** Distinct unique keys give distinct projections, and conversely. */
  lemma ProjectionsInjective(uniqueKeys: seq<string>)
    ensures NoDup(Projections(uniqueKeys)) <==> NoDup(uniqueKeys)
  {
    var ps := Projections(uniqueKeys);
    forall i, j | 0 <= i < j < |ps|
      ensures ps[i] == ps[j] <==> uniqueKeys[i] == uniqueKeys[j]
    {
      assert ps[i][|ExtrasPrefix|..] == uniqueKeys[i];
      assert ps[j][|ExtrasPrefix|..] == uniqueKeys[j];
    }
  }

  /** The names of `dict(zip(names, values))` are the names paired with a value. */
  lemma {:induction false} ZipDictKeys<V>(names: seq<string>, values: seq<V>)
    ensures forall x :: x in ZipDict(names, values) <==>
      exists i :: 0 <= i < |names| && i < |values| && names[i] == x
    decreases |names|
  {
    if |names| != 0 && |values| != 0 {
      var n := if |names| <= |values| then |names| else |values|;
      ZipDictKeys(names[..n - 1], values[..n - 1]);
      forall x | x in ZipDict(names, values)
        ensures exists i :: 0 <= i < |names| && i < |values| && names[i] == x
      {
        if x != names[n - 1] {
          assert x in ZipDict(names[..n - 1], values[..n - 1]);
          var i :| 0 <= i < |names[..n - 1]| && i < |values[..n - 1]| && names[..n - 1][i] == x;
          assert names[i] == x;
        }
      }
      forall x | exists i :: 0 <= i < |names| && i < |values| && names[i] == x
        ensures x in ZipDict(names, values)
      {
        var i :| 0 <= i < |names| && i < |values| && names[i] == x;
        if i < n - 1 {
          assert names[..n - 1][i] == x;
        }
      }
    }
  }

  /** With distinct names, `dict(zip(names, values))` maps name `i` to value `i`. */
  lemma {:induction false} ZipDictAt<V>(names: seq<string>, values: seq<V>, i: nat)
    requires NoDup(names)
    requires i < |names| && i < |values|
    ensures names[i] in ZipDict(names, values) && ZipDict(names, values)[names[i]] == values[i]
    decreases |names|
  {
    var n := if |names| <= |values| then |names| else |values|;
    if i < n - 1 {
      ZipDictAt(names[..n - 1], values[..n - 1], i);
      assert names[i] != names[n - 1];
    }
  }

  /**
   * Tagging round trip: a node tagged with `dict(zip(uniqueKeys, key))` projects back to `key`,
   * when the unique keys are distinct and the key has one value per unique key.
   */
  lemma TaggedRecordsKey(pk: nat, uniqueKeys: seq<string>, key: Key)
    requires NoDup(uniqueKeys) && |key| == |uniqueKeys|
    ensures RecordsKey(Tagged(pk, uniqueKeys, key), uniqueKeys, key)
  {
    var n := Tagged(pk, uniqueKeys, key);
    KeyRowReadsExtras(n, uniqueKeys);
    forall i | 0 <= i < |uniqueKeys|
      ensures KeyRow(n, uniqueKeys)[i] == Lift(key)[i]
    {
      ZipDictAt(uniqueKeys, key, i);
    }
  }

  lemma {:induction false} CountActiveAppend(a: seq<Node>, b: seq<Node>)
    ensures CountActive(a + b) == CountActive(a) + CountActive(b)
  {
    if a == [] {
      assert a + b == b;
    } else {
      assert (a + b)[0] == a[0];
      assert (a + b)[1..] == a[1..] + b;
      CountActiveAppend(a[1..], b);
    }
  }

  /** Every newly submitted node is active. */
  lemma {:induction false} CountActiveNew(uniqueKeys: seq<string>, keys: seq<Key>, firstPk: nat)
    ensures CountActive(NewProcesses(uniqueKeys, keys, firstPk)) == |keys|
    decreases |keys|
  {
    if keys != [] {
      assert NewProcesses(uniqueKeys, keys, firstPk)[1..] == NewProcesses(uniqueKeys, keys[1..], firstPk + 1);
      CountActiveNew(uniqueKeys, keys[1..], firstPk + 1);
    }
  }

  lemma {:induction false} CountActiveBound(group: seq<Node>)
    ensures CountActive(group) <= |group|
  {
    if group != [] {
      CountActiveBound(group[1..]);
    }
  }

  /** A duplicate-free sequence has as many distinct elements as it has positions, and only then. */
  lemma {:induction false} DistinctCount<T>(s: seq<T>)
    ensures |Elems(s)| <= |s|
    ensures |Elems(s)| == |s| <==> NoDup(s)
  {
    if s != [] {
      var t := s[1..];
      DistinctCount(t);
      assert Elems(s) == Elems(t) + {s[0]};
      if s[0] in t {
        assert Elems(s) == Elems(t);
        var j :| 0 <= j < |t| && t[j] == s[0];
        assert s[0] == s[j + 1];
      } else {
        if NoDup(t) {
          forall i, j | 0 <= i < j < |s| ensures s[i] != s[j] {
            if i == 0 { assert s[j] == t[j - 1]; } else { assert s[i] == t[i - 1] && s[j] == t[j - 1]; }
          }
        }
        if NoDup(s) {
          forall i, j | 0 <= i < j < |t| ensures t[i] != t[j] {
            assert t[i] == s[i + 1] && t[j] == s[j + 1];
          }
        }
      }
    }
  }
}
