/**
 * findMedian: the median rank of a frequency table and the domain value at
 * which the running total of the counts first reaches that rank.
 */
module Median {
  import opened Domains

  /** The running total of the counts at positions 0..i. */
  function Running(f: seq<nat>, i: nat): nat
    requires i < |f|
  {
    Sum(f[..i + 1])
  }

  /** Position `i` is the first position of `f` whose running total reaches `rank`. */
  predicate FirstReaching(f: seq<nat>, rank: int, i: int)
  {
    0 <= i < |f| && Running(f, i) >= rank
    && forall j :: 0 <= j < i ==> Running(f, j) < rank
  }

  /** At most one position is the first to reach a rank. */
  lemma FirstReachingUnique(f: seq<nat>, rank: int, i1: int, i2: int)
    requires FirstReaching(f, rank, i1) && FirstReaching(f, rank, i2)
    ensures i1 == i2
  {
  }

  lemma SumSnoc(f: seq<nat>, i: nat)
    requires i < |f|
    ensures Running(f, i) == Sum(f[..i]) + f[i]
  {
    assert f[..i + 1][..i] == f[..i];
  }

  /** The running total over the whole table reaches the median rank. */
  lemma RankReached(f: seq<nat>, rank: int)
    requires |f| > 0 && rank == (Sum(f) + 1) / 2
    ensures Running(f, |f| - 1) >= rank
  {
    assert f[..|f| - 1 + 1] == f;
  }

  /**
   * findMedian. The rank is (n+1)/2 for an odd total n and the floor of the
   * mean of n/2 and n/2+1 for an even one, which is (n+1) div 2 in both
   * cases; for n >= 1 it lies between 1 and n. The value is the domain entry
   * at the first position whose running total reaches the rank; such a
   * position always exists when the table is not empty. With an empty table
   * the loop never stops early and Python's `attribDom[-1]` is the result.
   */
  method FindMedian(f: seq<nat>, dom: seq<string>) returns (rank: int, val: string)
    requires |dom| > 0 && |f| <= |dom|
    ensures rank == (Sum(f) + 1) / 2
    ensures Sum(f) >= 1 ==> 1 <= rank <= Sum(f)
    ensures |f| > 0 ==> exists i :: FirstReaching(f, rank, i) && val == dom[i]
    ensures |f| == 0 ==> val == dom[|dom| - 1]
  {
    var total := 0;
    for i := 0 to |f|
      invariant total == Sum(f[..i])
    {
      SumSnoc(f, i);
      assert Sum(f[..i + 1]) == Running(f, i);
      total := total + f[i];
    }
    assert f[..|f|] == f;

    var median: int;
    if total % 2 != 0 {
      median := (total + 1) / 2;
    } else {
      var x := total / 2;
      var y := total / 2 + 1;
      median := (x + y) / 2;
    }
    rank := median;

    var medianIndex := -1;
    var index := 0;
    while index < |f|
      invariant 0 <= index <= |f|
      invariant median == rank - Sum(f[..index])
      invariant medianIndex == -1
      invariant forall j :: 0 <= j < index ==> Running(f, j) < rank
    {
      SumSnoc(f, index);
      median := median - f[index];
      if median <= 0 {
        medianIndex := index;
        break;
      }
      index := index + 1;
    }
    if |f| > 0 {
      RankReached(f, rank);
    }
    val := if medianIndex == -1 then dom[|dom| - 1] else dom[medianIndex];
    assert medianIndex != -1 ==> FirstReaching(f, rank, medianIndex);
  }
}
