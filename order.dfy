/**
 * The ordering the engine sorts attribute values by: Python's comparison of
 * `str` values, i.e. lexicographic on code points, with a proper prefix
 * ordered before any of its extensions. Sorted, duplicate-free sequences of
 * values are the attribute domains of the engine.
 */
module Order {

  /** Python's `a < b` on strings. */
  predicate Less(a: string, b: string)
    decreases |a|
  {
    if |a| == 0 then |b| > 0
    else if |b| == 0 then false
    else if a[0] != b[0] then a[0] < b[0]
    else Less(a[1..], b[1..])
  }

  lemma {:induction false} LessIrreflexive(a: string)
    ensures !Less(a, a)
    decreases |a|
  {
    if |a| > 0 {
      LessIrreflexive(a[1..]);
    }
  }

  lemma {:induction false} LessTransitive(a: string, b: string, c: string)
    requires Less(a, b) && Less(b, c)
    ensures Less(a, c)
    decreases |a|
  {
    if |a| > 0 && |b| > 0 && |c| > 0 && a[0] == b[0] && b[0] == c[0] {
      LessTransitive(a[1..], b[1..], c[1..]);
    }
  }

  lemma {:induction false} LessTotal(a: string, b: string)
    ensures a == b || Less(a, b) || Less(b, a)
    decreases |a|
  {
    if |a| > 0 && |b| > 0 && a[0] == b[0] {
      LessTotal(a[1..], b[1..]);
      if a[1..] == b[1..] {
        assert a == [a[0]] + a[1..];
        assert b == [b[0]] + b[1..];
      }
    }
  }

  /** The elements of a sequence, as a set (Python's `set(s)`). */
  function Elements(s: seq<string>): set<string>
  {
    set x | x in s
  }

  /** Every element is smaller than every later one: sorted and duplicate-free. */
  predicate StrictlySorted(s: seq<string>)
  {
    forall i, j :: 0 <= i < j < |s| ==> Less(s[i], s[j])
  }

  /** A strictly sorted sequence has exactly as many distinct elements as entries. */
  lemma {:induction false} SortedCardinality(s: seq<string>)
    requires StrictlySorted(s)
    ensures |Elements(s)| == |s|
    decreases |s|
  {
    if |s| > 0 {
      SortedCardinality(s[1..]);
      SortedHeadNotInTail(s);
      assert Elements(s) == {s[0]} + Elements(s[1..]);
    }
  }

  lemma SortedHeadNotInTail(s: seq<string>)
    requires StrictlySorted(s) && |s| > 0
    ensures s[0] !in Elements(s[1..])
  {
    if s[0] in Elements(s[1..]) {
      var j :| 0 <= j < |s[1..]| && s[1..][j] == s[0];
      assert Less(s[0], s[j + 1]);
      LessIrreflexive(s[0]);
    }
  }

  /** In a strictly sorted sequence an element sits at exactly one position. */
  lemma SortedDistinct(s: seq<string>, i: int, j: int)
    requires StrictlySorted(s) && 0 <= i < |s| && 0 <= j < |s| && s[i] == s[j]
    ensures i == j
  {
    if i < j || j < i {
      LessIrreflexive(s[i]);
    }
  }

  /** Two strictly sorted sequences with the same elements start alike. */
  lemma SortedHeadsEqual(s: seq<string>, t: seq<string>)
    requires StrictlySorted(s) && StrictlySorted(t)
    requires Elements(s) == Elements(t) && |s| > 0 && |t| > 0
    ensures s[0] == t[0]
  {
    assert s[0] in Elements(t);
    assert t[0] in Elements(s);
    var i :| 0 <= i < |s| && s[i] == t[0];
    var j :| 0 <= j < |t| && t[j] == s[0];
    if i > 0 && j > 0 {
      LessTransitive(s[0], s[i], s[0]);
      LessIrreflexive(s[0]);
    } else if i > 0 {
      LessIrreflexive(s[0]);
    } else if j > 0 {
      LessIrreflexive(t[0]);
    }
  }

  /**
   * The sorted, duplicate-free list of a set is unique: Python's
   * `sorted(set(...))` has exactly one possible result.
   */
  lemma {:induction false} SortedUnique(s: seq<string>, t: seq<string>)
    requires StrictlySorted(s) && StrictlySorted(t)
    requires Elements(s) == Elements(t)
    ensures s == t
    decreases |s|
  {
    SortedCardinality(s);
    SortedCardinality(t);
    if |s| > 0 {
      SortedHeadsEqual(s, t);
      var s', t' := s[1..], t[1..];
      ElementsTail(s);
      ElementsTail(t);
      SortedTail(s);
      SortedTail(t);
      SortedUnique(s', t');
      assert s == [s[0]] + s';
      assert t == [t[0]] + t';
    }
  }

  lemma SortedTail(s: seq<string>)
    requires StrictlySorted(s) && |s| > 0
    ensures StrictlySorted(s[1..])
  {
    forall i, j | 0 <= i < j < |s| - 1
      ensures Less(s[1..][i], s[1..][j])
    {
      assert s[1..][i] == s[i + 1] && s[1..][j] == s[j + 1];
    }
  }

  lemma ElementsTail(s: seq<string>)
    requires StrictlySorted(s) && |s| > 0
    ensures Elements(s[1..]) == Elements(s) - {s[0]}
  {
    SortedHeadNotInTail(s);
    assert s == [s[0]] + s[1..];
    assert Elements(s) == {s[0]} + Elements(s[1..]);
  }

  /** Every non-empty finite set of strings has a least element. */
  lemma {:induction false} MinimumExists(s: set<string>)
    requires s != {}
    ensures exists m :: m in s && forall w :: w in s ==> !Less(w, m)
    decreases |s|
  {
    var x :| x in s;
    if s == {x} {
      LessIrreflexive(x);
    } else {
      var rest := s - {x};
      MinimumExists(rest);
      var m :| m in rest && forall w :: w in rest ==> !Less(w, m);
      if Less(x, m) {
        forall w | w in s
          ensures !Less(w, x)
        {
          if w == x {
            LessIrreflexive(x);
          } else if Less(w, x) {
            LessTransitive(w, x, m);
          }
        }
      } else {
        assert forall w :: w in s ==> !Less(w, m);
      }
    }
  }

  /** Moving the least remaining value to the end keeps the loop invariant of SortValues. */
  lemma AppendMinimum(s: seq<string>, rest: set<string>, m: string)
    requires StrictlySorted(s)
    requires forall i, w :: 0 <= i < |s| && w in rest ==> Less(s[i], w)
    requires m in rest && forall w :: w in rest ==> !Less(w, m)
    ensures StrictlySorted(s + [m])
    ensures Elements(s + [m]) + (rest - {m}) == Elements(s) + rest
    ensures forall i, w :: 0 <= i < |s + [m]| && w in rest - {m} ==> Less((s + [m])[i], w)
  {
    forall w | w in rest - {m}
      ensures Less(m, w)
    {
      LessTotal(m, w);
    }
    assert Elements(s + [m]) == Elements(s) + {m};
  }

  /**
   * Python's `sorted(vals)` for a set of strings: the values in increasing
   * order, each once. Built by repeatedly moving the least remaining value.
   */
  method SortValues(vals: set<string>) returns (s: seq<string>)
    ensures StrictlySorted(s)
    ensures Elements(s) == vals
  {
    s := [];
    var rest := vals;
    while rest != {}
      invariant StrictlySorted(s)
      invariant Elements(s) + rest == vals
      invariant forall i, w :: 0 <= i < |s| && w in rest ==> Less(s[i], w)
      decreases |rest|
    {
      MinimumExists(rest);
      var m :| m in rest && forall w :: w in rest ==> !Less(w, m);
      AppendMinimum(s, rest, m);
      s := s + [m];
      rest := rest - {m};
    }
  }
}
