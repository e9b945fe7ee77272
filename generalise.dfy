/**
 * generalise: turning one equivalence class into its published form. Every
 * quasi-identifier column of every record is replaced by the summary of that
 * column over the whole class (its single value, or the sorted list of its
 * distinct values); every other column is copied unchanged.
 */
module Generalise {
  import opened Order
  import opened Records
  import opened Domains

  /** One published cell: a plain value, or the list that replaces a non-uniform column. */
  datatype Cell = Plain(value: string) | Group(values: seq<string>)

  /** A published row (Python's tuple mixing `str` and `list` entries). */
  type GenRecord = seq<Cell>

  /** `c` summarises column `q` of `p`: the only value, or all of them sorted, each once. */
  predicate IsSummary(c: Cell, p: seq<Record>, q: nat)
    requires HasField(p, q)
  {
    match c
    case Plain(v) => Values(p, q) == {v}
    case Group(vs) => |Values(p, q)| > 1 && IsDomain(vs, p, q)
  }

  /** A column has exactly one summary. */
  lemma SummaryUnique(c1: Cell, c2: Cell, p: seq<Record>, q: nat)
    requires HasField(p, q) && IsSummary(c1, p, q) && IsSummary(c2, p, q)
    ensures c1 == c2
  {
    if c1.Group? && c2.Group? {
      DomainUnique(c1.values, c2.values, p, q);
    } else if c1.Plain? && c2.Plain? {
      assert c1.value in {c2.value};
    }
  }

  /** The cell still tells the truth about the value it replaced. */
  predicate Covers(c: Cell, v: string)
  {
    match c
    case Plain(w) => w == v
    case Group(vs) => v in vs
  }

  /**
   * `row` is the published form of record `t` of class `p`: the same width,
   * columns outside `qids` copied, columns in `qids` replaced by their
   * summary over the class.
   */
  predicate RowOf(row: GenRecord, t: Record, p: seq<Record>, qids: seq<nat>)
  {
    HasFields(p, qids)
    && |row| == |t|
    && (forall j :: 0 <= j < |t| && j !in qids ==> row[j] == Plain(t[j]))
    && (forall q :: q in qids ==> q < |row| && IsSummary(row[q], p, q))
  }

  /** `anon` is the generalisation of class `p` over `qids`: one row per record, in order. */
  predicate IsGeneralisation(anon: seq<GenRecord>, p: seq<Record>, qids: seq<nat>)
  {
    |anon| == |p| && forall n :: 0 <= n < |anon| ==> RowOf(anon[n], p[n], p, qids)
  }

  /**
   * generalise. The first loop builds one summary per quasi-identifier; the
   * second copies each record and overwrites its quasi-identifier columns.
   * Python's `attrib_set[0]` needs a non-empty class; every caller passes one.
   */
  method Generalise(partition: seq<Record>, qids: seq<nat>) returns (anon: seq<GenRecord>)
    requires |partition| > 0 && HasFields(partition, qids)
    ensures IsGeneralisation(anon, partition, qids)
  {
    var summaries: seq<Cell> := [];
    for i := 0 to |qids|
      invariant |summaries| == i
      invariant forall x :: 0 <= x < i ==> HasField(partition, qids[x]) && IsSummary(summaries[x], partition, qids[x])
    {
      var q := qids[i];
      HasFieldsField(partition, qids, q);
      var vals := CollectValues(partition, q);
      assert partition[0][q] in vals;
      if |vals| > 1 {
        var sorted := SortValues(vals);
        summaries := summaries + [Group(sorted)];
      } else {
        var v :| v in vals;
        SingletonSet(vals, v);
        summaries := summaries + [Plain(v)];
      }
    }

    anon := [];
    for n := 0 to |partition|
      invariant |anon| == n
      invariant forall x :: 0 <= x < n ==> RowOf(anon[x], partition[x], partition, qids)
    {
      var row := PublishRow(partition[n], qids, summaries, partition);
      anon := anon + [row];
    }
  }

  /**
   * The inner loop of generalise (anonymise.py:227-231): a copy of the record
   * with the i-th quasi-identifier column overwritten by the i-th summary.
   */
  method PublishRow(t: Record, qids: seq<nat>, summaries: seq<Cell>, ghost p: seq<Record>) returns (row: GenRecord)
    requires t in p && HasFields(p, qids) && |summaries| == |qids|
    requires forall x :: 0 <= x < |qids| ==> HasField(p, qids[x]) && IsSummary(summaries[x], p, qids[x])
    ensures RowOf(row, t, p, qids)
  {
    // Python's `list(t)`: every column copied as a plain cell.
    row := seq(|t|, j requires 0 <= j < |t| => Plain(t[j]));
    for i := 0 to |qids|
      invariant |row| == |t|
      invariant forall j :: 0 <= j < |t| && j !in qids[..i] ==> row[j] == Plain(t[j])
      invariant forall q :: q in qids[..i] ==> q < |row| && IsSummary(row[q], p, q)
    {
      assert qids[..i + 1] == qids[..i] + [qids[i]];
      row := row[qids[i] := summaries[i]];
    }
    assert qids[..|qids|] == qids;
  }

  /** A set with at most one element that holds `v` is `{v}`. */
  lemma SingletonSet(s: set<string>, v: string)
    requires v in s && |s| <= 1
    ensures s == {v}
  {
    assert |s - {v}| == |s| - 1;
  }

  /** All rows of a generalised class carry the same quasi-identifier cells. */
  lemma GeneralisationUniform(anon: seq<GenRecord>, p: seq<Record>, qids: seq<nat>, n: nat, m: nat, q: nat)
    requires IsGeneralisation(anon, p, qids)
    requires n < |anon| && m < |anon| && q in qids
    ensures q < |anon[n]| && q < |anon[m]| && anon[n][q] == anon[m][q]
  {
    assert RowOf(anon[n], p[n], p, qids) && RowOf(anon[m], p[m], p, qids);
    HasFieldsField(p, qids, q);
    SummaryUnique(anon[n][q], anon[m][q], p, q);
  }

  /** Each published row covers the record it came from, column by column. */
  lemma GeneralisationCovers(anon: seq<GenRecord>, p: seq<Record>, qids: seq<nat>, n: nat, j: nat)
    requires IsGeneralisation(anon, p, qids)
    requires n < |anon| && j < |p[n]|
    ensures j < |anon[n]| && Covers(anon[n][j], p[n][j])
  {
    assert RowOf(anon[n], p[n], p, qids);
    if j in qids {
      HasFieldsField(p, qids, j);
      assert p[n][j] in Values(p, j);
      if anon[n][j].Group? {
        assert p[n][j] in Elements(anon[n][j].values);
      }
    }
  }
}
