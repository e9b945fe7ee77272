/**
 * The two splitters. Both compare each record's position in the attribute
 * domain with the position of the median value. Strict partitioning sends
 * everything at or below the median left; relaxed partitioning sends the
 * records tied at the median left one by one until the left side holds as
 * many records as the median rank, and the rest right.
 */
module Split {
  import opened Order
  import opened Records
  import opened Domains
  import opened Median

  /** partitionStrict: positions up to the median go left, the others right, in input order. */
  method PartitionStrict(a: nat, medVal: string, dom: seq<string>, ds: seq<Record>)
    returns (lhs: seq<Record>, rhs: seq<Record>)
    requires HasField(ds, a) && medVal in dom && Values(ds, a) <= Elements(dom)
    ensures lhs == Select(ds, a, dom, IndexOf(dom, medVal), AtOrBelow)
    ensures rhs == Select(ds, a, dom, IndexOf(dom, medVal), Above)
    ensures multiset(lhs) + multiset(rhs) == multiset(ds)
  {
    lhs := [];
    rhs := [];
    var medIndex := IndexOf(dom, medVal);
    for i := 0 to |ds|
      invariant HasField(ds[..i], a)
      invariant lhs == Select(ds[..i], a, dom, medIndex, AtOrBelow)
      invariant rhs == Select(ds[..i], a, dom, medIndex, Above)
    {
      SelectSnoc(ds, a, dom, medIndex, AtOrBelow, i);
      SelectSnoc(ds, a, dom, medIndex, Above, i);
      var t := ds[i];
      if IndexOf(dom, t[a]) <= medIndex {
        lhs := lhs + [t];
      } else {
        rhs := rhs + [t];
      }
    }
    assert ds[..|ds|] == ds;
    SelectSplitTwo(ds, a, dom, medIndex);
  }

  /**
   * How many of `tied` records tied at the median the relaxed split keeps on
   * the left: the counter starts at `below` and the j-th tied record (from 1)
   * goes left exactly when `below + j <= rank`. The counter only grows, so
   * these are the first `r` of them.
   */
  function TiedLeft(below: nat, tied: nat, rank: int): (r: nat)
    ensures r <= tied
    ensures r > 0 ==> below + r <= rank
    ensures r < tied ==> below + r + 1 > rank
  {
    if rank - below <= 0 then 0
    else if rank - below >= tied then tied
    else rank - below
  }

  /**
   * partitionRelaxed: records below the median go left and records above it
   * go right, in input order; the records tied at the median follow, in input
   * order, on the left while the running counter is within the rank and on
   * the right after that.
   */
  method PartitionRelaxed(rank: int, a: nat, medVal: string, dom: seq<string>, ds: seq<Record>)
    returns (lhs: seq<Record>, rhs: seq<Record>)
    requires HasField(ds, a) && medVal in dom && Values(ds, a) <= Elements(dom)
    ensures var m := IndexOf(dom, medVal);
            var below := Select(ds, a, dom, m, Below);
            var tied := Select(ds, a, dom, m, At);
            var take := TiedLeft(|below|, |tied|, rank);
            lhs == below + tied[..take] && rhs == Select(ds, a, dom, m, Above) + tied[take..]
    ensures multiset(lhs) + multiset(rhs) == multiset(ds)
  {
    lhs := [];
    rhs := [];
    var medianTuples: seq<Record> := [];
    var medIndex := IndexOf(dom, medVal);
    var counter := 0;
    for i := 0 to |ds|
      invariant HasField(ds[..i], a)
      invariant lhs == Select(ds[..i], a, dom, medIndex, Below)
      invariant rhs == Select(ds[..i], a, dom, medIndex, Above)
      invariant medianTuples == Select(ds[..i], a, dom, medIndex, At)
      invariant counter == |lhs|
    {
      SelectSnoc(ds, a, dom, medIndex, Below, i);
      SelectSnoc(ds, a, dom, medIndex, At, i);
      SelectSnoc(ds, a, dom, medIndex, Above, i);
      var t := ds[i];
      if IndexOf(dom, t[a]) < medIndex {
        lhs := lhs + [t];
        counter := counter + 1;
      } else if IndexOf(dom, t[a]) > medIndex {
        rhs := rhs + [t];
      } else {
        medianTuples := medianTuples + [t];
      }
    }
    assert ds[..|ds|] == ds;

    ghost var below, above := lhs, rhs;
    lhs, rhs := DistributeTied(medianTuples, rank, counter, lhs, rhs);
    Reassemble(below, medianTuples, above, TiedLeft(|below|, |medianTuples|, rank));
    SelectSplitThree(ds, a, dom, medIndex);
  }

  /**
   * The second loop of partitionRelaxed (anonymise.py:136-142): each tied
   * record bumps the counter, which starts at the size of the left side, and
   * goes left while the counter is within the rank, right after that.
   */
  method DistributeTied(tied: seq<Record>, rank: int, counter0: nat, lhs0: seq<Record>, rhs0: seq<Record>)
    returns (lhs: seq<Record>, rhs: seq<Record>)
    ensures var take := TiedLeft(counter0, |tied|, rank);
            lhs == lhs0 + tied[..take] && rhs == rhs0 + tied[take..]
  {
    lhs, rhs := lhs0, rhs0;
    var counter := counter0;
    ghost var take := TiedLeft(counter0, |tied|, rank);
    for j := 0 to |tied|
      invariant counter == counter0 + j
      invariant j <= take ==> lhs == lhs0 + tied[..j] && rhs == rhs0
      invariant j > take ==> lhs == lhs0 + tied[..take] && rhs == rhs0 + tied[take..j]
    {
      var t := tied[j];
      counter := counter + 1;
      TiedLeftStep(counter0, |tied|, rank, j);
      if counter <= rank {
        SnocPrefix(lhs, lhs0, tied, j);
        lhs := lhs + [t];
      } else {
        SnocSuffix(rhs, rhs0, tied, take, j);
        rhs := rhs + [t];
      }
    }
    assert tied[..|tied|] == tied && tied[|tied|..] == [];
  }

  /** The j-th tied record (from 0) goes left exactly when it lies within the first TiedLeft. */
  lemma TiedLeftStep(below: nat, tied: nat, rank: int, j: nat)
    requires j < tied
    ensures below + j + 1 <= rank <==> j < TiedLeft(below, tied, rank)
  {
  }

  lemma SnocPrefix(lhs: seq<Record>, below: seq<Record>, s: seq<Record>, j: nat)
    requires j < |s| && lhs == below + s[..j]
    ensures lhs + [s[j]] == below + s[..j + 1]
  {
    assert s[..j + 1] == s[..j] + [s[j]];
  }

  lemma SnocSuffix(rhs: seq<Record>, above: seq<Record>, s: seq<Record>, take: nat, j: nat)
    requires take <= j < |s|
    requires (j == take && rhs == above) || (j > take && rhs == above + s[take..j])
    ensures rhs + [s[j]] == above + s[take..j + 1]
  {
    assert s[take..j + 1] == s[take..j] + [s[j]];
  }

  /** Cutting the tied records in two and handing the pieces to both sides loses nothing. */
  lemma Reassemble(below: seq<Record>, tied: seq<Record>, above: seq<Record>, take: nat)
    requires take <= |tied|
    ensures tied[..|tied|] == tied && tied[|tied|..] == []
    ensures multiset(below + tied[..take]) + multiset(above + tied[take..])
            == multiset(below) + multiset(tied) + multiset(above)
  {
    assert tied == tied[..take] + tied[take..];
  }

  /**
   * With the rank and the median value that findMedian computes from the
   * frequency table of the same partition, the relaxed split puts exactly
   * `rank` records on the left.
   */
  lemma RelaxedLeftHasRank(ds: seq<Record>, a: nat, dom: seq<string>, f: seq<nat>, rank: int, i: nat)
    requires HasField(ds, a) && |ds| > 0 && IsDomain(dom, ds, a)
    requires IsFrequencyTable(f, ds, a, dom)
    requires rank == (Sum(f) + 1) / 2 && FirstReaching(f, rank, i)
    ensures var below := Select(ds, a, dom, i, Below);
            var tied := Select(ds, a, dom, i, At);
            |below| + TiedLeft(|below|, |tied|, rank) == rank
  {
    FrequencyTotal(f, ds, a, dom);
    FrequencyPrefix(f, ds, a, dom, i);
    SelectAtCount(ds, a, dom, i);
    SumSnoc(f, i);
    if i > 0 {
      assert Running(f, i - 1) < rank;
      assert f[..i - 1 + 1] == f[..i];
    }
  }
}
