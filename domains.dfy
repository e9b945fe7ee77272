/**
 * Attribute domains and frequency tables: the sorted distinct values of one
 * quasi-identifier within a partition, the choice of the quasi-identifier
 * with the widest domain, and the per-value counts used to find a median.
 */
module Domains {
  import opened Order
  import opened Records

  /** `dom` is the sorted list of the distinct values of column `a` in `ds`. */
  predicate IsDomain(dom: seq<string>, ds: seq<Record>, a: nat)
    requires HasField(ds, a)
  {
    StrictlySorted(dom) && Elements(dom) == Values(ds, a)
  }

  /** There is only one domain, and its length is the number of distinct values. */
  lemma DomainUnique(d1: seq<string>, d2: seq<string>, ds: seq<Record>, a: nat)
    requires HasField(ds, a) && IsDomain(d1, ds, a) && IsDomain(d2, ds, a)
    ensures d1 == d2 && |d1| == |Values(ds, a)|
  {
    SortedUnique(d1, d2);
    SortedCardinality(d1);
  }

  /** The loop of anonymise.py:40-42: gather the values of column `a` into a set. */
  method CollectValues(ds: seq<Record>, a: nat) returns (vals: set<string>)
    requires HasField(ds, a)
    ensures vals == Values(ds, a)
  {
    vals := {};
    for i := 0 to |ds|
      invariant HasField(ds[..i], a)
      invariant vals == Values(ds[..i], a)
    {
      HasFieldPrefix(ds, a, i + 1);
      ValuesSnoc(ds[..i + 1], a);
      assert ds[..i + 1][..i] == ds[..i];
      vals := vals + {ds[i][a]};
    }
    assert ds[..|ds|] == ds;
  }

  /**
   * Candidate `i` of `sq` has `n` distinct values in `ds`, no candidate has
   * more, and every earlier candidate has fewer.
   */
  predicate Widest(ds: seq<Record>, sq: seq<nat>, i: int, n: nat)
  {
    0 <= i < |sq|
    && (forall j :: 0 <= j < |sq| ==> |Values(ds, sq[j])| <= n)
    && (forall j :: 0 <= j < i ==> |Values(ds, sq[j])| < n)
  }

  /**
   * bestAttrib: the domain of every candidate quasi-identifier, then the
   * candidate whose domain is strictly larger than that of every earlier
   * candidate and at least as large as that of every later one (the first of
   * the widest wins ties). On an empty partition no candidate is chosen and
   * the result is Python's `attrib_domains[-1]`, the empty domain, with -1.
   */
  method BestAttrib(partition: seq<Record>, sq: seq<nat>) returns (dom: seq<string>, best: int)
    requires |sq| > 0 && HasFields(partition, sq)
    ensures partition == [] ==> dom == [] && best == -1
    ensures partition != [] ==> best >= 0 && best in sq
    ensures partition != [] ==> HasField(partition, best) && IsDomain(dom, partition, best)
    ensures partition != [] ==> exists i :: Widest(partition, sq, i, |dom|) && sq[i] == best
  {
    var domains: seq<seq<string>> := [];
    for i := 0 to |sq|
      invariant |domains| == i
      invariant forall j :: 0 <= j < i ==> HasField(partition, sq[j]) && IsDomain(domains[j], partition, sq[j])
      invariant forall j :: 0 <= j < i ==> |domains[j]| == |Values(partition, sq[j])|
    {
      HasFieldsField(partition, sq, sq[i]);
      var vals := CollectValues(partition, sq[i]);
      var d := SortValues(vals);
      SortedCardinality(d);
      domains := domains + [d];
    }

    best := -1;
    var bestIndex := -1;
    var bestSize := 0;
    for i := 0 to |sq|
      invariant -1 <= bestIndex < i
      invariant best == (if bestIndex == -1 then -1 else sq[bestIndex])
      invariant bestSize == (if bestIndex == -1 then 0 else |domains[bestIndex]|)
      invariant bestIndex != -1 ==> bestSize > 0
      invariant forall j :: 0 <= j < i ==> |domains[j]| <= bestSize
      invariant forall j :: 0 <= j < bestIndex ==> |domains[j]| < bestSize
    {
      if |domains[i]| > bestSize {
        best := sq[i];
        bestIndex := i;
        bestSize := |domains[i]|;
      }
    }

    if partition != [] {
      var t := partition[0];
      assert t[sq[0]] in Values(partition, sq[0]);
    } else {
      assert Values(partition, sq[|sq| - 1]) == {};
    }
    dom := if bestIndex == -1 then domains[|domains| - 1] else domains[bestIndex];
    assert partition != [] ==> Widest(partition, sq, bestIndex, |dom|);
  }

  function Sum(f: seq<nat>): nat
  {
    if f == [] then 0 else Sum(f[..|f| - 1]) + f[|f| - 1]
  }

  /** `f` holds, for each value of `dom` in order, how many records of `ds` have it in column `a`. */
  predicate IsFrequencyTable(f: seq<nat>, ds: seq<Record>, a: nat, dom: seq<string>)
    requires HasField(ds, a)
  {
    |f| == |dom| && forall i :: 0 <= i < |dom| ==> f[i] == Count(ds, a, dom[i])
  }

  /** frequencySet: one count per domain value, in domain order. */
  method FrequencySet(a: nat, dom: seq<string>, ds: seq<Record>) returns (freqs: seq<nat>)
    requires HasField(ds, a)
    ensures IsFrequencyTable(freqs, ds, a, dom)
  {
    freqs := [];
    for v := 0 to |dom|
      invariant |freqs| == v
      invariant forall i :: 0 <= i < v ==> freqs[i] == Count(ds, a, dom[i])
    {
      freqs := freqs + [0];
      for j := 0 to |ds|
        invariant |freqs| == v + 1
        invariant forall i :: 0 <= i < v ==> freqs[i] == Count(ds, a, dom[i])
        invariant HasField(ds[..j], a) && freqs[v] == Count(ds[..j], a, dom[v])
      {
        HasFieldPrefix(ds, a, j + 1);
        assert ds[..j + 1][..j] == ds[..j];
        if ds[j][a] == dom[v] {
          freqs := freqs[v := freqs[v] + 1];
        }
      }
      assert ds[..|ds|] == ds;
    }
  }

  /** The counts over a strictly sorted list of values add up to the records holding one of them. */
  lemma {:induction false} TableSum(f: seq<nat>, ds: seq<Record>, a: nat, dom: seq<string>)
    requires HasField(ds, a) && StrictlySorted(dom) && IsFrequencyTable(f, ds, a, dom)
    ensures Sum(f) == CountIn(ds, a, Elements(dom))
    decreases |dom|
  {
    if dom != [] {
      var n := |dom| - 1;
      assert StrictlySorted(dom[..n]);
      assert IsFrequencyTable(f[..n], ds, a, dom[..n]);
      TableSum(f[..n], ds, a, dom[..n]);
      assert dom == dom[..n] + [dom[n]];
      assert Elements(dom) == Elements(dom[..n]) + {dom[n]};
      if dom[n] in Elements(dom[..n]) {
        var j :| 0 <= j < n && dom[..n][j] == dom[n];
        SortedDistinct(dom, j, n);
      }
      assert dom[n] !in Elements(dom[..n]);
      CountInAdd(ds, a, Elements(dom[..n]), dom[n]);
      assert f[n] == Count(ds, a, dom[n]);
      assert Sum(f) == Sum(f[..n]) + f[n];
    } else {
      assert Elements(dom) == {};
      CountInNone(ds, a);
    }
  }

  /**
   * The counts of a frequency table over the partition's own domain add up to
   * the size of the partition: every record is counted exactly once.
   */
  lemma FrequencyTotal(f: seq<nat>, ds: seq<Record>, a: nat, dom: seq<string>)
    requires HasField(ds, a) && StrictlySorted(dom) && Values(ds, a) <= Elements(dom)
    requires IsFrequencyTable(f, ds, a, dom)
    ensures Sum(f) == |ds|
  {
    TableSum(f, ds, a, dom);
    CountInAll(ds, a, Elements(dom));
  }

  /** The first `m` counts add up to the records whose value sits before position `m`. */
  lemma FrequencyPrefix(f: seq<nat>, ds: seq<Record>, a: nat, dom: seq<string>, m: nat)
    requires HasField(ds, a) && StrictlySorted(dom) && Values(ds, a) <= Elements(dom)
    requires IsFrequencyTable(f, ds, a, dom) && m <= |dom|
    ensures Sum(f[..m]) == |Select(ds, a, dom, m, Below)|
  {
    assert StrictlySorted(dom[..m]);
    assert IsFrequencyTable(f[..m], ds, a, dom[..m]);
    TableSum(f[..m], ds, a, dom[..m]);
    SelectBelowCount(ds, a, dom, m);
  }
}
