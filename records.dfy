/**
 * Records, partitions and the ways the engine looks at them: the values of
 * one attribute, how often a value occurs, the position of a value in a
 * domain, and the records whose position lies in a band around a median.
 */
module Records {
  import opened Order

  datatype Option<T> = None | Some(value: T)

  /** A row of the table: one string per column (Python's tuple of `str`). */
  type Record = seq<string>

  /** Every record of `ds` has a column `a`. */
  predicate HasField(ds: seq<Record>, a: nat)
  {
    forall t :: t in ds ==> a < |t|
  }

  /** Every record of `ds` has every column named in `qids`. */
  predicate HasFields(ds: seq<Record>, qids: seq<nat>)
  {
    forall t, q :: t in ds && q in qids ==> q < |t|
  }

  lemma HasFieldsField(ds: seq<Record>, qids: seq<nat>, q: nat)
    requires HasFields(ds, qids) && q in qids
    ensures HasField(ds, q)
  {
  }

  /** A partition drawn from `ds` (same records, possibly fewer copies) keeps its columns. */
  lemma HasFieldsSub(ds: seq<Record>, sub: seq<Record>, qids: seq<nat>)
    requires HasFields(ds, qids) && multiset(sub) <= multiset(ds)
    ensures HasFields(sub, qids)
  {
    forall t | t in sub
      ensures t in ds
    {
      assert t in multiset(sub);
    }
  }

  lemma HasFieldPrefix(ds: seq<Record>, a: nat, n: nat)
    requires HasField(ds, a) && n <= |ds|
    ensures HasField(ds[..n], a)
  {
    forall t | t in ds[..n]
      ensures t in ds
    {
      var i :| 0 <= i < n && ds[..n][i] == t;
      assert ds[i] == t;
    }
  }

  /**
   * The distinct values of column `a` in `ds` (Python's `set(t[a] for t in ds)`);
   * a record without that column contributes nothing.
   */
  function Values(ds: seq<Record>, a: nat): set<string>
  {
    set t | t in ds && a < |t| :: t[a]
  }

  lemma ValuesSnoc(ds: seq<Record>, a: nat)
    requires HasField(ds, a) && |ds| > 0
    ensures HasField(ds[..|ds| - 1], a)
    ensures Values(ds, a) == Values(ds[..|ds| - 1], a) + {ds[|ds| - 1][a]}
  {
    HasFieldPrefix(ds, a, |ds| - 1);
    assert ds == ds[..|ds| - 1] + [ds[|ds| - 1]];
  }

  /** Number of records of `ds` whose column `a` holds `v`. */
  function Count(ds: seq<Record>, a: nat, v: string): nat
    requires HasField(ds, a)
  {
    if ds == [] then 0
    else
      HasFieldPrefix(ds, a, |ds| - 1);
      Count(ds[..|ds| - 1], a, v) + (if ds[|ds| - 1][a] == v then 1 else 0)
  }

  /** Number of records of `ds` whose column `a` holds one of the values `vs`. */
  function CountIn(ds: seq<Record>, a: nat, vs: set<string>): nat
    requires HasField(ds, a)
  {
    if ds == [] then 0
    else
      HasFieldPrefix(ds, a, |ds| - 1);
      CountIn(ds[..|ds| - 1], a, vs) + (if ds[|ds| - 1][a] in vs then 1 else 0)
  }

  lemma {:induction false} CountInAdd(ds: seq<Record>, a: nat, vs: set<string>, v: string)
    requires HasField(ds, a) && v !in vs
    ensures CountIn(ds, a, vs + {v}) == CountIn(ds, a, vs) + Count(ds, a, v)
    decreases |ds|
  {
    if ds != [] {
      HasFieldPrefix(ds, a, |ds| - 1);
      CountInAdd(ds[..|ds| - 1], a, vs, v);
    }
  }

  lemma {:induction false} CountInNone(ds: seq<Record>, a: nat)
    requires HasField(ds, a)
    ensures CountIn(ds, a, {}) == 0
    decreases |ds|
  {
    if ds != [] {
      HasFieldPrefix(ds, a, |ds| - 1);
      CountInNone(ds[..|ds| - 1], a);
    }
  }

  /** When `vs` covers every value of the column, every record is counted. */
  lemma {:induction false} CountInAll(ds: seq<Record>, a: nat, vs: set<string>)
    requires HasField(ds, a) && Values(ds, a) <= vs
    ensures CountIn(ds, a, vs) == |ds|
    decreases |ds|
  {
    if ds != [] {
      ValuesSnoc(ds, a);
      CountInAll(ds[..|ds| - 1], a, vs);
    }
  }

  /**
   * Python's `s.index(x)`: the first position of `x` in `s`. Python raises
   * an error when `x` is absent; here the result is then `|s|`, and every
   * caller rules that case out.
   */
  function IndexOf(s: seq<string>, x: string): (r: nat)
    ensures r <= |s|
    ensures x in s ==> r < |s| && s[r] == x
    ensures x !in s ==> r == |s|
    ensures forall j :: 0 <= j < r ==> s[j] != x
  {
    if |s| == 0 then 0
    else if s[0] == x then 0
    else 1 + IndexOf(s[1..], x)
  }

  lemma IndexOfBelow(s: seq<string>, x: string, m: nat)
    requires x in s && m <= |s|
    ensures IndexOf(s, x) < m <==> x in s[..m]
  {
    if x in s[..m] {
      var j :| 0 <= j < m && s[..m][j] == x;
      assert s[j] == x;
    }
  }

  lemma IndexOfSorted(s: seq<string>, m: nat)
    requires StrictlySorted(s) && m < |s|
    ensures IndexOf(s, s[m]) == m
  {
    SortedDistinct(s, IndexOf(s, s[m]), m);
  }

  /** Where a record's domain position lies relative to the median position. */
  datatype Band = Below | AtOrBelow | At | Above

  predicate InBand(i: int, m: int, b: Band)
  {
    match b
    case Below => i < m
    case AtOrBelow => i <= m
    case At => i == m
    case Above => i > m
  }

  /**
   * The records of `ds`, in input order, whose value of column `a` sits at a
   * position of `dom` in band `b` relative to position `m`.
   */
  function Select(ds: seq<Record>, a: nat, dom: seq<string>, m: int, b: Band): seq<Record>
    requires HasField(ds, a)
  {
    if ds == [] then []
    else
      HasFieldPrefix(ds, a, |ds| - 1);
      var last := ds[|ds| - 1];
      Select(ds[..|ds| - 1], a, dom, m, b) + (if InBand(IndexOf(dom, last[a]), m, b) then [last] else [])
  }

  /** A band holds only records of `ds`, each of them in the band. */
  lemma {:induction false} SelectMembers(ds: seq<Record>, a: nat, dom: seq<string>, m: int, b: Band)
    requires HasField(ds, a)
    ensures forall t :: t in Select(ds, a, dom, m, b) ==> t in ds && InBand(IndexOf(dom, t[a]), m, b)
    decreases |ds|
  {
    if ds != [] {
      var n := |ds| - 1;
      HasFieldPrefix(ds, a, n);
      SelectMembers(ds[..n], a, dom, m, b);
      assert ds == ds[..n] + [ds[n]];
    }
  }

  /** Extending a prefix of `ds` by one record extends each band by at most that record. */
  lemma SelectSnoc(ds: seq<Record>, a: nat, dom: seq<string>, m: int, b: Band, i: nat)
    requires HasField(ds, a) && i < |ds|
    ensures HasField(ds[..i], a) && HasField(ds[..i + 1], a)
    ensures Select(ds[..i + 1], a, dom, m, b)
            == Select(ds[..i], a, dom, m, b) + (if InBand(IndexOf(dom, ds[i][a]), m, b) then [ds[i]] else [])
  {
    HasFieldPrefix(ds, a, i);
    HasFieldPrefix(ds, a, i + 1);
    assert ds[..i + 1][..i] == ds[..i];
  }

  /** The strict split loses and invents nothing. */
  lemma {:induction false} SelectSplitTwo(ds: seq<Record>, a: nat, dom: seq<string>, m: int)
    requires HasField(ds, a)
    ensures multiset(Select(ds, a, dom, m, AtOrBelow)) + multiset(Select(ds, a, dom, m, Above)) == multiset(ds)
    decreases |ds|
  {
    if ds != [] {
      var n := |ds| - 1;
      HasFieldPrefix(ds, a, n);
      SelectSplitTwo(ds[..n], a, dom, m);
      assert ds == ds[..n] + [ds[n]];
    }
  }

  /** The records below the median and those at it together are those at or below it. */
  lemma {:induction false} SelectBelowAt(ds: seq<Record>, a: nat, dom: seq<string>, m: int)
    requires HasField(ds, a)
    ensures multiset(Select(ds, a, dom, m, Below)) + multiset(Select(ds, a, dom, m, At))
            == multiset(Select(ds, a, dom, m, AtOrBelow))
    decreases |ds|
  {
    if ds != [] {
      var n := |ds| - 1;
      HasFieldPrefix(ds, a, n);
      SelectBelowAt(ds[..n], a, dom, m);
    }
  }

  /** The three bands of the relaxed split lose and invent nothing. */
  lemma SelectSplitThree(ds: seq<Record>, a: nat, dom: seq<string>, m: int)
    requires HasField(ds, a)
    ensures multiset(Select(ds, a, dom, m, Below)) + multiset(Select(ds, a, dom, m, At))
            + multiset(Select(ds, a, dom, m, Above)) == multiset(ds)
  {
    SelectBelowAt(ds, a, dom, m);
    SelectSplitTwo(ds, a, dom, m);
  }

  /** The records below position `m` are those whose value is among the first `m` of `dom`. */
  lemma {:induction false} SelectBelowCount(ds: seq<Record>, a: nat, dom: seq<string>, m: nat)
    requires HasField(ds, a) && Values(ds, a) <= Elements(dom) && m <= |dom|
    ensures |Select(ds, a, dom, m, Below)| == CountIn(ds, a, Elements(dom[..m]))
    decreases |ds|
  {
    if ds != [] {
      var n := |ds| - 1;
      ValuesSnoc(ds, a);
      SelectBelowCount(ds[..n], a, dom, m);
      assert ds[n][a] in Values(ds, a);
      IndexOfBelow(dom, ds[n][a], m);
    }
  }

  /** The records at position `m` of a sorted domain are those holding `dom[m]`. */
  lemma {:induction false} SelectAtCount(ds: seq<Record>, a: nat, dom: seq<string>, m: nat)
    requires HasField(ds, a) && StrictlySorted(dom) && m < |dom|
    ensures |Select(ds, a, dom, m, At)| == Count(ds, a, dom[m])
    decreases |ds|
  {
    if ds != [] {
      var n := |ds| - 1;
      HasFieldPrefix(ds, a, n);
      SelectAtCount(ds[..n], a, dom, m);
      IndexOfSorted(dom, m);
    }
  }

  /** When every record sits at position `m`, all of them are tied and none is below or above. */
  lemma {:induction false} SelectAllAt(ds: seq<Record>, a: nat, dom: seq<string>, m: int)
    requires HasField(ds, a) && forall t :: t in ds ==> IndexOf(dom, t[a]) == m
    ensures Select(ds, a, dom, m, At) == ds
    ensures Select(ds, a, dom, m, Below) == [] && Select(ds, a, dom, m, Above) == []
    decreases |ds|
  {
    if ds != [] {
      var n := |ds| - 1;
      HasFieldPrefix(ds, a, n);
      assert ds == ds[..n] + [ds[n]];
      SelectAllAt(ds[..n], a, dom, m);
    }
  }

  /** Python's `len(set(s))`: the number of distinct records. */
  function DistinctCount(s: seq<Record>): nat
  {
    |set t | t in s|
  }

  lemma {:induction false} DistinctCountBound(s: seq<Record>)
    ensures DistinctCount(s) <= |s|
    ensures DistinctCount(s) == 0 <==> s == []
    decreases |s|
  {
    if s != [] {
      var n := |s| - 1;
      DistinctCountBound(s[..n]);
      assert s == s[..n] + [s[n]];
      assert (set t | t in s) == (set t | t in s[..n]) + {s[n]};
    }
  }

  /** The concatenation of a sequence of groups. */
  function Flatten<T>(gs: seq<seq<T>>): seq<T>
  {
    if gs == [] then [] else Flatten(gs[..|gs| - 1]) + gs[|gs| - 1]
  }

  lemma FlattenSnoc<T>(gs: seq<seq<T>>, g: seq<T>)
    ensures Flatten(gs + [g]) == Flatten(gs) + g
  {
    assert (gs + [g])[..|gs|] == gs;
  }

  lemma {:induction false} FlattenAppend<T>(gs: seq<seq<T>>, hs: seq<seq<T>>)
    ensures Flatten(gs + hs) == Flatten(gs) + Flatten(hs)
    decreases |hs|
  {
    if hs == [] {
      assert gs + hs == gs;
    } else {
      var n := |hs| - 1;
      FlattenAppend(gs, hs[..n]);
      assert gs + hs == (gs + hs[..n]) + [hs[n]];
      assert hs == hs[..n] + [hs[n]];
      FlattenSnoc(gs + hs[..n], hs[n]);
      FlattenSnoc(hs[..n], hs[n]);
      calc {
        Flatten(gs + hs);
        Flatten(gs + hs[..n]) + hs[n];
        (Flatten(gs) + Flatten(hs[..n])) + hs[n];
        Flatten(gs) + (Flatten(hs[..n]) + hs[n]);
        Flatten(gs) + Flatten(hs);
      }
    }
  }

  lemma {:induction false} FlattenLength<T, U>(gs: seq<seq<T>>, hs: seq<seq<U>>)
    requires |gs| == |hs| && forall i :: 0 <= i < |gs| ==> |gs[i]| == |hs[i]|
    ensures |Flatten(gs)| == |Flatten(hs)|
    decreases |gs|
  {
    if gs != [] {
      FlattenLength(gs[..|gs| - 1], hs[..|hs| - 1]);
    }
  }
}
