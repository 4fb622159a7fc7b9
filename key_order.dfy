/**
 * The natural order on keys that `sorted()` uses for a batch: tuples compare lexicographically
 * position by position, a proper prefix first; strings compare by character code.
 */
module KeyOrder {
  import opened Store

  /** Lexicographic order on strings by character code; a proper prefix comes first. */
  predicate StrLess(a: string, b: string)
    decreases |a|
  {
    if |a| == 0 then |b| > 0
    else if |b| == 0 then false
    else if a[0] != b[0] then a[0] < b[0]
    else StrLess(a[1..], b[1..])
  }

  /** Values of different kinds are ordered by kind: booleans, then integers, then strings. */
  function Rank(v: Value): nat {
    match v
    case Bool(_) => 0
    case Int(_) => 1
    case Str(_) => 2
  }

  predicate ValueLess(a: Value, b: Value) {
    if Rank(a) != Rank(b) then Rank(a) < Rank(b)
    else match (a, b)
      case (Bool(x), Bool(y)) => !x && y
      case (Int(x), Int(y)) => x < y
      case (Str(x), Str(y)) => StrLess(x, y)
      case _ => false
  }

  /** Lexicographic order on keys, position by position; a proper prefix comes first. */
  predicate KeyLess(a: Key, b: Key)
    decreases |a|
  {
    if |a| == 0 then |b| > 0
    else if |b| == 0 then false
    else if a[0] != b[0] then ValueLess(a[0], b[0])
    else KeyLess(a[1..], b[1..])
  }

  // ---------------------------------------------------------------------------------------
  // KeyLess is a strict total order

  lemma {:induction false} StrLessAsym(a: string, b: string)
    requires StrLess(a, b)
    ensures !StrLess(b, a)
    decreases |a|
  {
    if |a| > 0 && a[0] == b[0] {
      StrLessAsym(a[1..], b[1..]);
    }
  }

  lemma {:induction false} StrLessTrans(a: string, b: string, c: string)
    requires StrLess(a, b) && StrLess(b, c)
    ensures StrLess(a, c)
    decreases |a|
  {
    if |a| > 0 && a[0] == b[0] && b[0] == c[0] {
      StrLessTrans(a[1..], b[1..], c[1..]);
    }
  }

  lemma {:induction false} StrLessTotal(a: string, b: string)
    requires a != b
    ensures StrLess(a, b) || StrLess(b, a)
    decreases |a|
  {
    if |a| > 0 && |b| > 0 && a[0] == b[0] {
      assert a == [a[0]] + a[1..] && b == [b[0]] + b[1..];
      StrLessTotal(a[1..], b[1..]);
    }
  }

  lemma ValueLessAsym(a: Value, b: Value)
    requires ValueLess(a, b)
    ensures !ValueLess(b, a)
  {
    if a.Str? && b.Str? {
      StrLessAsym(a.s, b.s);
    }
  }

  lemma ValueLessTrans(a: Value, b: Value, c: Value)
    requires ValueLess(a, b) && ValueLess(b, c)
    ensures ValueLess(a, c)
  {
    if a.Str? && b.Str? && c.Str? {
      StrLessTrans(a.s, b.s, c.s);
    }
  }

  lemma ValueLessTotal(a: Value, b: Value)
    requires a != b
    ensures ValueLess(a, b) || ValueLess(b, a)
  {
    if a.Str? && b.Str? {
      StrLessTotal(a.s, b.s);
    }
  }

  lemma {:induction false} KeyLessAsym(a: Key, b: Key)
    requires KeyLess(a, b)
    ensures !KeyLess(b, a)
    decreases |a|
  {
    if |a| > 0 {
      if a[0] == b[0] {
        KeyLessAsym(a[1..], b[1..]);
      } else {
        ValueLessAsym(a[0], b[0]);
      }
    }
  }

  lemma {:induction false} KeyLessTrans(a: Key, b: Key, c: Key)
    requires KeyLess(a, b) && KeyLess(b, c)
    ensures KeyLess(a, c)
    decreases |a|
  {
    if |a| > 0 {
      if a[0] == b[0] && b[0] == c[0] {
        KeyLessTrans(a[1..], b[1..], c[1..]);
      } else if a[0] != b[0] && b[0] != c[0] {
        ValueLessTrans(a[0], b[0], c[0]);
        if a[0] == c[0] {
          ValueLessAsym(a[0], b[0]);
        }
      }
    }
  }

  lemma {:induction false} KeyLessTotal(a: Key, b: Key)
    requires a != b
    ensures KeyLess(a, b) || KeyLess(b, a)
    decreases |a|
  {
    if |a| > 0 && |b| > 0 {
      if a[0] == b[0] {
        assert a == [a[0]] + a[1..] && b == [b[0]] + b[1..];
        KeyLessTotal(a[1..], b[1..]);
      } else {
        ValueLessTotal(a[0], b[0]);
      }
    }
  }

  // ---------------------------------------------------------------------------------------
  // Least element and sorting

  /** `m` is the least key of `s`. */
  predicate IsLeast(m: Key, s: set<Key>) {
    m in s && forall y :: y in s && y != m ==> KeyLess(m, y)
  }

  /** Every finite non-empty set of keys has a least element. */
  lemma {:induction false} LeastExists(s: set<Key>)
    requires s != {}
    ensures exists m :: IsLeast(m, s)
    decreases |s|
  {
    var x :| x in s;
    if s == {x} {
      assert IsLeast(x, s);
    } else {
      var rest := s - {x};
      LeastExists(rest);
      var m :| IsLeast(m, rest);
      if KeyLess(x, m) {
        forall y | y in s && y != x
          ensures KeyLess(x, y)
        {
          if y != m {
            KeyLessTrans(x, m, y);
          }
        }
        assert IsLeast(x, s);
      } else {
        KeyLessTotal(x, m);
        assert IsLeast(m, s);
      }
    }
  }

  /** The least element of a set is unique. */
  lemma LeastUnique(s: set<Key>)
    ensures forall m1, m2 :: IsLeast(m1, s) && IsLeast(m2, s) ==> m1 == m2
  {
    forall m1, m2 | IsLeast(m1, s) && IsLeast(m2, s)
      ensures m1 == m2
    {
      if m1 != m2 {
        KeyLessAsym(m1, m2);
      }
    }
  }

  /** The least key of a non-empty set. */
  function MinKey(s: set<Key>): (m: Key)
    requires s != {}
    ensures IsLeast(m, s)
  {
    LeastExists(s);
    LeastUnique(s);
    var m :| IsLeast(m, s);
    m
  }

  /** Keys in strictly increasing order. */
  predicate StrictlySorted(xs: seq<Key>) {
    forall i, j :: 0 <= i < j < |xs| ==> KeyLess(xs[i], xs[j])
  }

  /** Prefixing a sorted sequence with a key below all of its elements keeps it sorted. */
  lemma ConsSorted(m: Key, s: set<Key>, rest: seq<Key>)
    requires IsLeast(m, s) && Elems(rest) == s - {m}
    requires StrictlySorted(rest)
    ensures StrictlySorted([m] + rest)
    ensures Elems([m] + rest) == {m} + Elems(rest)
  {
    var xs := [m] + rest;
    forall i, j | 0 <= i < j < |xs|
      ensures KeyLess(xs[i], xs[j])
    {
      assert xs[j] == rest[j - 1];
      assert rest[j - 1] in Elems(rest);
      if i > 0 {
        assert xs[i] == rest[i - 1];
      }
    }
  }

  /** `sorted(s)` for a set of keys: every key of `s` once, in increasing order. */
  function SortedKeys(s: set<Key>): (xs: seq<Key>)
    ensures |xs| == |s|
    ensures Elems(xs) == s
    ensures StrictlySorted(xs)
    decreases |s|
  {
    if s == {} then []
    else
      var m := MinKey(s);
      var rest := SortedKeys(s - {m});
      ConsSorted(m, s, rest);
      [m] + rest
  }

  /** A strictly sorted sequence has no repeated key. */
  lemma SortedNoDup(xs: seq<Key>)
    requires StrictlySorted(xs)
    ensures NoDup(xs)
  {
    forall i, j | 0 <= i < j < |xs|
      ensures xs[i] != xs[j]
    {
      if xs[i] == xs[j] {
        KeyLessAsym(xs[i], xs[j]);
      }
    }
  }
}
