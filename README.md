# Mondrian multidimensional k-anonymity, modelled in Dafny

This project models the anonymisation engine of `anonymise.py`, a Python
implementation of Mondrian multidimensional k-anonymity (LeFevre et al.,
ICDE 2006), and proves properties of it.

The engine takes a table of records (tuples of strings), a list of
quasi-identifier (QID) column indices and a threshold K. A recursive
controller repeatedly splits a partition of the table:

1. It picks the candidate QID with the widest domain (`bestAttrib`).
2. It counts how often each domain value occurs (`frequencySet`).
3. It finds the median value (`findMedian`).
4. It cuts the partition at that value. Strict partitioning (`partitionStrict`)
   sends every record at or below the median left. Relaxed partitioning
   (`partitionRelaxed`) hands the records tied at the median out one by one
   until the left side holds as many records as the median rank.
5. It keeps a split only when both sides hold at least K distinct records.
   Otherwise it retries on the same partition without that QID; in strict
   mode it also retries when the median is the last domain value.

Whatever a child call returns is appended to the global leaf list
`PARTITIONS`. Each non-empty leaf is then generalised (`generalise`): every
QID column is replaced by the class's single value, or by the sorted list of
its distinct values. The classes are checked against K and concatenated
into the published table.

Modules, in dependency order:

- `Order` (order.dfy): Python's `str` ordering, proved a strict total order,
  and the sort of a set of values into a strictly increasing list.
- `Records` (records.dfy): records, the values and counts of a column,
  `list.index`, and the bands of records below, at or above a median position.
- `Domains` (domains.dfy): `bestAttrib` and `frequencySet`.
- `Median` (median.dfy): `findMedian`.
- `Split` (split.dfy): `partitionStrict` and `partitionRelaxed`.
- `Generalise` (generalise.dfy): `generalise`.
- `Mondrian` (mondrian.dfy): the controllers and the post-processing.
  - The module-level globals `RECORDS`, `QIDS`, `K`, `PARTITIONS` and
    `ANON_PARTITIONS` become the fields of one `Anonymiser` object.
  - The controllers are recursive methods that append to its leaf list.
  - A child that split returns Python's implicit `None`, modelled as
    `Option.None`.
  - Which entries a run leaves in the leaf list is specified recursively by `Grown` and
    `SplitInto` over a ghost tree `Cuts` of the cuts taken: the controllers
    return that tree and are proved to leave exactly the entries it describes.

The loops of the source are `for`/`while` loops in Dafny methods, proved
against specification functions: `Values`, `Count`, `Select`, `Sum`,
`FirstReaching`, `IsSummary` and `Leaves`. The properties of those functions
are proved as lemmas.

Two behaviours of the code are stated as written:

- **The top-level leaf is dropped.** `anonymise` discards the top-level
  controller's return value (anonymise.py:257-260). An input that is never
  split therefore leaves the leaf list empty and is reported as "cannot be
  anonymised", even when the whole table would be a valid single class.
  `Anonymiser.Anonymise` states this: the outcome is "cannot be anonymised"
  exactly when the whole table is `Unsplittable`, that is, it has fewer than
  2K records or no QID gives an accepted cut of it.
- **The size abort never fires.** The check at anonymise.py:269-272 would
  abort on a class with fewer than K records. But a leaf reaches the leaf
  list only as a side of an accepted split, so it holds at least K distinct
  records. `Anonymiser.Anonymise` proves `!outcome.Undersized?`.

## Model

| member | source | states |
|---|---|---|
| Order.SortValues | anonymise.py:43-44 | the list sorts the set: strictly increasing under Python's string order, holding exactly the set's values |
| Order.LessTotal | anonymise.py:44 | any two different strings are ordered one way or the other |
| Order.LessTransitive | anonymise.py:44 | the string order used by sort is transitive |
| Domains.CollectValues | anonymise.py:40-42 | the collected set is exactly the set of values of the column in the partition |
| Domains.DomainUnique | anonymise.py:40-45 | there is one sorted distinct list of a column's values, and its length equals the number of distinct values |
| Domains.BestAttrib | anonymise.py:33-57 | for a non-empty partition, the chosen QID is in the candidate list, and its domain is the sorted distinct list of that column's values; that domain is at least as large as every candidate's and strictly larger than every earlier candidate's, so the first widest wins; for an empty partition the result is the empty domain with -1 |
| Domains.FrequencySet | anonymise.py:69-78 | one count per domain value, in domain order, each the number of records holding that value |
| Domains.TableSum | anonymise.py:69-78 | the counts over a strictly sorted value list add up to the records holding one of those values |
| Domains.FrequencyTotal | anonymise.py:69-78 | over the partition's own domain the counts add up to the size of the partition |
| Domains.FrequencyPrefix | anonymise.py:69-78 | the first m counts add up to the records whose value lies before domain position m |
| Median.FindMedian | anonymise.py:80-102 | the rank is (n+1) div 2 for total n and lies in 1..n when n >= 1; for a non-empty table the value is the domain entry at the first position whose running total reaches the rank; for an empty table it is the last domain entry |
| Median.FirstReachingUnique | anonymise.py:96-100 | the loop's break position is unique: at most one position is the first whose running total reaches the rank |
| Median.RankReached | anonymise.py:96-100 | on a non-empty table the running total over the whole table reaches the rank, so the loop always breaks |
| Records.IndexOf | anonymise.py:108 | the first position of the value, every earlier entry differs, and the length of the list exactly when the value is absent |
| Records.SelectMembers | anonymise.py:110-114 | a band holds only records of the partition, each with its domain position in that band |
| Records.SelectSplitTwo | anonymise.py:110-114 | the at-or-below and above bands together are the partition as a multiset |
| Records.SelectSplitThree | anonymise.py:127-134 | the below, at and above bands together are the partition as a multiset |
| Records.SelectBelowCount | anonymise.py:127-130 | the number of records below position m equals the number holding one of the first m domain values |
| Records.SelectAtCount | anonymise.py:127-134 | the number of records at position m of a sorted domain equals the count of that domain value |
| Records.SelectAllAt | anonymise.py:127-134 | when every record sits at the median position, all of them are tied and none is below or above |
| Records.DistinctCountBound | anonymise.py:165 | the number of distinct records is at most the number of records, and zero exactly for an empty list |
| Split.PartitionStrict | anonymise.py:104-116 | left is the records at or below the median position and right the records above it, each in input order; together they are the partition as a multiset |
| Split.TiedLeft | anonymise.py:136-142 | the number of tied records kept left is at most the number tied; when positive it keeps the counter within the rank; when some go right, one more would exceed it |
| Split.DistributeTied | anonymise.py:136-142 | the first TiedLeft tied records are appended left and the rest right, in order |
| Split.PartitionRelaxed | anonymise.py:118-144 | left is the records below the median followed by the first TiedLeft tied records; right is the records above followed by the remaining tied records; together they are the partition as a multiset |
| Split.RelaxedLeftHasRank | anonymise.py:118-144 | with the rank and median that findMedian computes from the partition's own frequency table, the left side holds exactly `rank` records |
| Generalise.SummaryUnique | anonymise.py:212-224 | a column of a class has exactly one summary, whether a single value or the sorted list of distinct values |
| Generalise.Generalise | anonymise.py:206-234 | one row per record, in order; each row has the record's width; non-QID columns are unchanged; each QID column holds the class's single value, or the sorted distinct list when there are several |
| Generalise.PublishRow | anonymise.py:228-232 | the row is the record with every QID column replaced by that column's summary and every other column copied |
| Generalise.GeneralisationUniform | anonymise.py:226-232 | any two rows of a generalised class agree on every QID column |
| Generalise.GeneralisationCovers | anonymise.py:226-232 | each published cell still covers the original value: equal to it, or a list containing it |
| Mondrian.FirstPosition | anonymise.py:160 | the position `list.remove` deletes: it holds the QID and no earlier entry does |
| Mondrian.RemoveFirst | anonymise.py:159-160 | the candidate list with its first occurrence of the QID deleted and every other entry kept, in order |
| Mondrian.RemoveFirstContents | anonymise.py:159-160 | the shortened list is the old one minus one copy of the QID as a multiset; a QID remains in it exactly when it was there and is not the removed one, or occurred more than once |
| Mondrian.DomainNonEmpty | anonymise.py:153-156 | a non-empty partition has a non-empty domain, so `attribDom[-1]` exists |
| Mondrian.PlanUnique | anonymise.py:153-155 | a partition and a column determine the domain, the frequency table and the median position the controller computes |
| Mondrian.CutDecided | anonymise.py:153-169 | once the plan on a column is known, the column gives an accepted cut exactly when the cut at that plan's median position is accepted |
| Mondrian.StrictLast | anonymise.py:156-161 | a strict cut whose median is the last domain value is never accepted |
| Mondrian.StrictDecided | anonymise.py:163-169 | otherwise the sides partitionStrict returns are the strict sides of the cut, and the cut is accepted exactly when both hold at least K distinct records |
| Mondrian.RelaxedDecided | anonymise.py:189-195 | the sides partitionRelaxed returns are the relaxed sides of the cut, and the cut is accepted exactly when both hold at least K distinct records |
| Mondrian.NoCutAll | anonymise.py:146-169 | the candidate-by-candidate test agrees with "no candidate in the list gives an accepted cut" |
| Mondrian.RetryUnsplittable | anonymise.py:159-169 | dropping a candidate that gives no accepted cut does not change whether the partition ends as a leaf |
| Mondrian.CuttingMembers | anonymise.py:153-169 | every candidate kept as cutting is in the candidate list and gives an accepted cut |
| Mondrian.CuttingRemove | anonymise.py:159-169 | dropping a candidate without an accepted cut leaves the list of candidates with one, in order, unchanged |
| Mondrian.CuttingWidest | anonymise.py:48-57 | when the first widest candidate gives an accepted cut, it is also the first widest among the candidates that do |
| Mondrian.ChosenWidest | anonymise.py:153-169 | a cut taken on bestAttrib's pick, when accepted, is the chosen cut: the first widest among the candidates with an accepted cut, with the plan the controller computes |
| Mondrian.GrownLast | anonymise.py:176-177 | the entries a child call leaves end with its return value: the side alone, as one entry, exactly when it cannot be cut, else `None` after its split |
| Mondrian.GrownAppend | anonymise.py:176-177 | appending a child's return value after the entries its own run left records the whole child call |
| Mondrian.GrownExtends | anonymise.py:176-177 | later appends to the leaf list never change what its earlier entries record |
| Mondrian.CutSplits | anonymise.py:171-177 | a partition of at least 2K records with a candidate that gives an accepted cut is split, not returned |
| Mondrian.RetryCandidates | anonymise.py:159-161 | the retry's candidate list is strictly shorter and every record still has each of its columns |
| Mondrian.MedianPosition | anonymise.py:153-156 | the median findMedian returns is the domain entry at the plan's median position, lies in the domain, and is the last domain value exactly when that position is the last |
| Mondrian.TiedPairTable | anonymise.py:153-155 | two identical one-column records have the single-value domain ["a"] and the frequency table [2] |
| Mondrian.TiedPairPlan | anonymise.py:153-155 | for two identical one-column records the domain is the single value, the frequency table is [2] and the median position is 0 |
| Mondrian.TiedPairStrict | anonymise.py:156-161 | with K = 1, strict partitioning returns two identical records as one leaf |
| Mondrian.TiedPairSides | anonymise.py:186-189 | relaxed partitioning of two identical records sends one to each side: the sides are `[["a"]]` and `[["a"]]` |
| Mondrian.TiedPairRelaxed | anonymise.py:186-195 | with K = 1 that relaxed cut is accepted, so the pair is not a leaf |
| Mondrian.TiedPairChosen | anonymise.py:153-169 | the pair's only candidate is the only one with an accepted relaxed cut and is the chosen one, with its plan |
| Mondrian.TiedPairLeaves | anonymise.py:186-203 | the relaxed split of the pair, left first, leaves exactly the two leaves `Some([["a"]])`, `Some([["a"]])` |
| Mondrian.SplitSmaller | anonymise.py:165-177 | an accepted split has two non-empty sides that are both smaller than the partition, and each holds K distinct records |
| Mondrian.ClassesAppend | anonymise.py:263-265 | the classes of two concatenated leaf lists are the concatenation of their classes |
| Mondrian.LeavesAppend | anonymise.py:263-265 | the records of two concatenated leaf lists are the concatenation of their records |
| Mondrian.ChildLeaves | anonymise.py:176-177 | after a child call and the parent's append, the new entries hold exactly the child's records |
| Mondrian.AppendChild | anonymise.py:176-177 | appending a child's result keeps every stored leaf admissible, only extends the list, and adds exactly the child's records |
| Mondrian.CombineChildren | anonymise.py:176-177 | the entries both children added together hold the records of both sides |
| Mondrian.ClassesAdmissible | anonymise.py:263-265 | every generalised class comes from a non-empty leaf with at least K distinct records |
| Mondrian.Concatenate | anonymise.py:267-285 | undersized exactly when some class is smaller than K, reporting the size of the first one; not anonymisable exactly when all classes pass and their join is empty; otherwise the rows are the classes joined in order |
| Mondrian.PeersExtend | anonymise.py:274 | appending classes never removes a row's QID peers |
| Mondrian.PeersOfClass | anonymise.py:268-274 | a row of an appended class agrees on the QIDs with every row of its class |
| Mondrian.KAnonymous | anonymise.py:267-274 | when every class holds at least K rows, each row of the concatenation agrees on all QID columns with at least K rows |
| Mondrian.Publishable | anonymise.py:262-274 | the generalised classes of an admissible leaf list each hold at least K rows and together hold as many rows as the leaves hold records, and the joined table is k-anonymous |
| Mondrian.Anonymiser.constructor | anonymise.py:247-254 | the engine starts with the records, QIDs and K, and empty leaf and class lists |
| Mondrian.Anonymiser.Strict | anonymise.py:146-177 | the partition is returned unchanged, and the leaf list left as it was, exactly when it has fewer than 2K records or no candidate QID gives an accepted strict cut (median not the last domain value, both sides with at least K distinct records); otherwise the result is `None` and the new entries are exactly the recorded split of the partition: it is cut on the first widest of the candidates with an accepted cut, at that column's median, into the sides partitionStrict returns, and then, left side first, each side's entries are those of a call on it with the full QID list (the side itself when it cannot be cut, else its own split followed by `None`); the new entries hold exactly the partition's records, and every stored leaf keeps K distinct records |
| Mondrian.Anonymiser.Relaxed | anonymise.py:179-203 | as Strict, with the relaxed cut: both sides of partitionRelaxed with at least K distinct records, and those sides recursed into |
| Mondrian.Anonymiser.Recurse | anonymise.py:171-177 | the left side is processed first, with the full QID list: the entries up to `mid` are exactly those of a call on it (the side itself when no QID cuts it, else its own split followed by `None`) and hold exactly its records; the right side's entries follow in the same way |
| Mondrian.Anonymiser.Descend | anonymise.py:176-177 | the controller runs on the side with the full QID list and its result is appended after its own appends: the new entries are the side itself exactly when no QID cuts it, else its recorded split followed by `None`, and hold exactly the side's records |
| Mondrian.Anonymiser.Publish | anonymise.py:263-285 | each non-empty leaf is generalised into a class of at least K rows; the abort never happens; the outcome is "cannot be anonymised" exactly when the leaves hold no record; otherwise the published rows are the classes joined in order, as many as the leaves' records, each sharing its QID cells with at least K rows |
| Mondrian.Anonymiser.Anonymise | anonymise.py:255-285 | the abort for a class smaller than K never happens; the outcome is "cannot be anonymised" exactly when the leaf list is empty, exactly when the whole table is unsplittable (fewer than 2K records, or no QID gives an accepted cut), and always when the table is under 2K records or there are no QIDs; otherwise the leaf list is exactly the recorded split of the whole table (as for Strict and Relaxed), the leaves together are the input table as a multiset, every class is the generalisation of its leaf with at least K rows, the published table has as many rows as the input, and each row shares its QID cells with at least K rows |

## Left out

- Reading the CSV input (`importData`, anonymise.py:21-31), writing the output (`writeToCsv`, anonymise.py:236-241), the command line (anonymise.py:249-251, 316-322) and the printed messages: I/O. The records, QIDs and K are constructor parameters, and each message becomes an `Outcome` case.
- `anonymiseNoOutput` (anonymise.py:287-314): a timing duplicate of `anonymise` that reads the clock.
- `isNumericArray` (anonymise.py:59-67): never called by the engine.
- Generalise.Generalise: the model replaces the numeric branch of anonymise.py:219-220 with the sort of the distinct strings. In the source, when a column of a class has several values and the first in the set's iteration order passes `str.isnumeric`, every value goes through `int` and the integers are sorted. That changes the values themselves (`"030"` and `"30"` both become 30, so the list may repeat an entry), their order, and raises `ValueError` when a later value is not a whole number; which value comes first depends on Python's set iteration order, which the model does not have.
- Median.FindMedian: the rank is a float in the source (`/` with `//`). The model uses the integer (n+1) div 2. The float holds a whole number, so every comparison with it agrees.
- Mondrian.Anonymiser.constructor: K >= 1 is required, since K is the positive anonymity threshold. The source does not check it. With K <= 0, relaxed mode recurses without end, because a one-record partition is cut into itself and an empty side, which the test at anonymise.py:191 accepts; CPython stops it with `RecursionError`. Strict mode still terminates, but publishes only when the whole table has an accepted cut; a table with one value in every QID column is reported as "cannot be anonymised". An empty table raises at anonymise.py:102.
- Mondrian.Anonymiser.constructor: every record must have every QID column. The source raises `IndexError` at anonymise.py:42 only when a partition of at least 2K records reaches bestAttrib. A table of fewer than 2K records with a short row is returned at anonymise.py:150-151 or 183-184 before any column is read and is reported as "cannot be anonymised" at anonymise.py:285; the model does not cover such a table.
- QID indices are natural numbers. Python also accepts a negative index, counted from the end of the record (`t[-1]` is the last column); the model does not cover negative QIDs.
- Split.PartitionStrict, Split.PartitionRelaxed: the median value and every record's value must lie in the domain. The source raises `ValueError` from `list.index` otherwise, and the controllers always pass the partition's own domain.
- Python's recursion limit on deep partition trees is not modelled; the controllers are proved to terminate.
- Order.SortValues: models Python's built-in `list.sort` on the distinct values by its result (sorted, same elements), not by its algorithm.
