/**
 * The Mondrian controllers and the post-processing that turns their leaves
 * into a published table. The program's globals (the records, the
 * quasi-identifier list, K, the list of leaves and the list of generalised
 * classes) are the fields of one `Anonymiser` object.
 */
module Mondrian {
  import opened Order
  import opened Records
  import opened Domains
  import opened Median
  import opened Split
  import opened Generalise

  /** The first position of `x` in `s`. */
  function FirstPosition(s: seq<nat>, x: nat): (i: nat)
    requires x in s
    ensures i < |s| && s[i] == x && x !in s[..i]
  {
    if s[0] == x then 0
    else
      var j := FirstPosition(s[1..], x);
      assert s[..j + 1] == [s[0]] + s[1..][..j];
      j + 1
  }

  /**
   * Python's `l.remove(x)` on a copy: the list without the first occurrence
   * of `x`, the other entries in their order.
   */
  function RemoveFirst(s: seq<nat>, x: nat): (r: seq<nat>)
    requires x in s
    ensures var i := FirstPosition(s, x); r == s[..i] + s[i + 1..]
  {
    if s[0] == x then
      s[1..]
    else
      var t := s[1..];
      var r' := RemoveFirst(t, x);
      var i := FirstPosition(t, x);
      assert FirstPosition(s, x) == i + 1;
      assert s[..i + 1] == [s[0]] + t[..i];
      assert s[i + 2..] == t[i + 1..];
      [s[0]] + r'
  }

  /**
   * Removing one copy of `x` leaves every other candidate, and `x` itself
   * only when the list held it more than once.
   */
  lemma RemoveFirstContents(s: seq<nat>, x: nat)
    requires x in s
    ensures multiset(RemoveFirst(s, x)) == multiset(s) - multiset{x}
    ensures forall y :: y in RemoveFirst(s, x) <==> y in s && (y != x || multiset(s)[x] > 1)
  {
    var i := FirstPosition(s, x);
    var r := RemoveFirst(s, x);
    assert s == s[..i] + [s[i]] + s[i + 1..];
    assert multiset(r) == multiset(s) - multiset{x};
    forall y
      ensures y in r <==> y in s && (y != x || multiset(s)[x] > 1)
    {
      assert y in r <==> y in multiset(r);
      assert y in s <==> y in multiset(s);
    }
  }

  /** A leaf the engine may publish: all quasi-identifier columns present, at least k distinct records. */
  ghost predicate Admissible(d: seq<Record>, qids: seq<nat>, k: int)
  {
    HasFields(d, qids) && DistinctCount(d) >= k
  }

  /**
   * The classes the post-processing generalises: the entries of the leaf
   * list that are neither `None` nor empty, in order.
   */
  function Classes(ps: seq<Option<seq<Record>>>): seq<seq<Record>>
  {
    if ps == [] then []
    else
      var last := ps[|ps| - 1];
      Classes(ps[..|ps| - 1]) + (if last.Some? && |last.value| != 0 then [last.value] else [])
  }

  /** All records held by the leaf list, in order. */
  function Leaves(ps: seq<Option<seq<Record>>>): seq<Record>
  {
    Flatten(Classes(ps))
  }

  lemma {:induction false} ClassesAppend(ps: seq<Option<seq<Record>>>, qs: seq<Option<seq<Record>>>)
    ensures Classes(ps + qs) == Classes(ps) + Classes(qs)
    decreases |qs|
  {
    if qs == [] {
      assert ps + qs == ps;
    } else {
      var n := |qs| - 1;
      ClassesAppend(ps, qs[..n]);
      assert (ps + qs)[..|ps + qs| - 1] == ps + qs[..n];
    }
  }

  lemma LeavesAppend(ps: seq<Option<seq<Record>>>, qs: seq<Option<seq<Record>>>)
    ensures Leaves(ps + qs) == Leaves(ps) + Leaves(qs)
  {
    ClassesAppend(ps, qs);
    FlattenAppend(Classes(ps), Classes(qs));
  }

  /**
   * What a child call contributes to the leaf list: either it returned its
   * dataset and appended nothing, which the parent then appends, or it split
   * and its own appends hold the dataset; in both cases the new entries hold
   * exactly the child's records.
   */
  lemma ChildLeaves(e: seq<Option<seq<Record>>>, leaf: Option<seq<Record>>, d: seq<Record>)
    requires leaf.Some? ==> e == [] && leaf.value == d
    requires leaf.None? ==> multiset(Leaves(e)) == multiset(d)
    ensures multiset(Leaves(e + [leaf])) == multiset(d)
  {
    LeavesAppend(e, [leaf]);
    assert [leaf][..0] == [];
    assert Classes([leaf]) == Classes([]) + (if leaf.Some? && |leaf.value| != 0 then [leaf.value] else []);
    if leaf.Some? && |d| != 0 {
      assert [d][..0] == [];
      assert Flatten([d]) == Flatten([]) + d;
    }
  }

  /** Every class of a leaf list whose entries are admissible is admissible and not empty. */
  lemma {:induction false} ClassesAdmissible(ps: seq<Option<seq<Record>>>, qids: seq<nat>, k: int)
    requires forall i :: 0 <= i < |ps| && ps[i].Some? ==> Admissible(ps[i].value, qids, k)
    ensures forall c :: 0 <= c < |Classes(ps)| ==> Admissible(Classes(ps)[c], qids, k) && |Classes(ps)[c]| > 0
    decreases |ps|
  {
    if ps != [] {
      var n := |ps| - 1;
      assert forall i :: 0 <= i < n && ps[..n][i].Some? ==> ps[i] == ps[..n][i];
      ClassesAdmissible(ps[..n], qids, k);
    }
  }

  /** Two sides that together are `ds` and each hold a distinct record are both smaller than `ds`. */
  lemma SplitSmaller(ds: seq<Record>, lhs: seq<Record>, rhs: seq<Record>, qids: seq<nat>, k: int)
    requires multiset(lhs) + multiset(rhs) == multiset(ds) && HasFields(ds, qids)
    requires k >= 1 && DistinctCount(lhs) >= k && DistinctCount(rhs) >= k
    ensures |lhs| + |rhs| == |ds| && 0 < |lhs| && 0 < |rhs|
    ensures Admissible(lhs, qids, k) && Admissible(rhs, qids, k)
  {
    DistinctCountBound(lhs);
    DistinctCountBound(rhs);
    assert |multiset(lhs)| + |multiset(rhs)| == |multiset(ds)|;
    HasFieldsSub(ds, lhs, qids);
    HasFieldsSub(ds, rhs, qids);
  }

  /** A non-empty partition has a non-empty domain on every column it has. */
  lemma DomainNonEmpty(ds: seq<Record>, a: nat, dom: seq<string>)
    requires |ds| > 0 && HasField(ds, a) && IsDomain(dom, ds, a)
    ensures |dom| > 0
  {
    assert ds[0][a] in Values(ds, a);
  }

  /**
   * What the controller computes for candidate `q` before it cuts: the
   * domain of the column, its frequency table and the position of the
   * median value, as bestAttrib, frequencySet and findMedian produce them.
   */
  ghost predicate Plan(ds: seq<Record>, q: nat, dom: seq<string>, f: seq<nat>, i: int)
  {
    HasField(ds, q) && IsDomain(dom, ds, q) && IsFrequencyTable(f, ds, q, dom)
    && FirstReaching(f, (Sum(f) + 1) / 2, i)
  }

  /** A partition determines its plan on each column. */
  lemma PlanUnique(ds: seq<Record>, q: nat, d1: seq<string>, f1: seq<nat>, i1: int,
                   d2: seq<string>, f2: seq<nat>, i2: int)
    requires Plan(ds, q, d1, f1, i1) && Plan(ds, q, d2, f2, i2)
    ensures d1 == d2 && f1 == f2 && i1 == i2
  {
    DomainUnique(d1, d2, ds, q);
    assert forall j :: 0 <= j < |f1| ==> f1[j] == f2[j];
    assert f1 == f2;
    FirstReachingUnique(f1, (Sum(f1) + 1) / 2, i1, i2);
  }

  /**
   * The two sides of the cut of `ds` on column `q` at median position `i`:
   * partitionStrict's when `strict`, partitionRelaxed's otherwise. These are
   * the bands that `Split.PartitionStrict` and `Split.PartitionRelaxed`
   * promise, gathered into one value for the controllers' specification;
   * `StrictDecided` and `RelaxedDecided` prove the two agree.
   */
  ghost function Sides(ds: seq<Record>, q: nat, dom: seq<string>, f: seq<nat>, i: int, strict: bool): (seq<Record>, seq<Record>)
    requires HasField(ds, q)
  {
    if strict then (Select(ds, q, dom, i, AtOrBelow), Select(ds, q, dom, i, Above))
    else
      var below := Select(ds, q, dom, i, Below);
      var tied := Select(ds, q, dom, i, At);
      var take := TiedLeft(|below|, |tied|, (Sum(f) + 1) / 2);
      (below + tied[..take], Select(ds, q, dom, i, Above) + tied[take..])
  }

  /**
   * The cut at median position `i` is kept: both sides hold at least k
   * distinct records (anonymise.py:165, 191), and in strict mode the median
   * is not the last domain value (anonymise.py:156).
   */
  ghost predicate Accepted(ds: seq<Record>, q: nat, k: int, dom: seq<string>, f: seq<nat>, i: int, strict: bool)
  {
    HasField(ds, q) && (strict ==> i < |dom| - 1)
    && DistinctCount(Sides(ds, q, dom, f, i, strict).0) >= k
    && DistinctCount(Sides(ds, q, dom, f, i, strict).1) >= k
  }

  /** Cutting `ds` on column `q` at its median is accepted, by the strict or the relaxed rule. */
  ghost predicate Cut(ds: seq<Record>, q: nat, k: int, strict: bool)
  {
    exists dom, f, i :: Plan(ds, q, dom, f, i) && Accepted(ds, q, k, dom, f, i, strict)
  }

  /** No candidate of `sq` gives an accepted cut of `ds`. */
  ghost predicate NoCut(ds: seq<Record>, sq: seq<nat>, k: int, strict: bool)
    decreases |sq|
  {
    sq == [] || (!Cut(ds, sq[0], k, strict) && NoCut(ds, sq[1..], k, strict))
  }

  lemma {:induction false} NoCutAll(ds: seq<Record>, sq: seq<nat>, k: int, strict: bool)
    ensures NoCut(ds, sq, k, strict) <==> forall q :: q in sq ==> !Cut(ds, q, k, strict)
    decreases |sq|
  {
    if sq != [] {
      NoCutAll(ds, sq[1..], k, strict);
      assert forall q :: q in sq <==> q == sq[0] || q in sq[1..];
    }
  }

  /** The controller returns `ds` as a leaf: it is too small, or no candidate in `sq` gives an accepted cut. */
  ghost predicate Unsplittable(ds: seq<Record>, sq: seq<nat>, k: int, strict: bool)
  {
    |ds| < 2 * k || NoCut(ds, sq, k, strict)
  }

  /** Once the plan on `q` is known, whether `q` gives an accepted cut is decided by it. */
  lemma CutDecided(ds: seq<Record>, q: nat, k: int, dom: seq<string>, f: seq<nat>, i: int, strict: bool)
    requires Plan(ds, q, dom, f, i)
    ensures Cut(ds, q, k, strict) <==> Accepted(ds, q, k, dom, f, i, strict)
  {
    if Cut(ds, q, k, strict) {
      var d2, f2, i2 :| Plan(ds, q, d2, f2, i2) && Accepted(ds, q, k, d2, f2, i2, strict);
      PlanUnique(ds, q, dom, f, i, d2, f2, i2);
    }
  }

  /** A strict cut whose median is the last domain value is never accepted (anonymise.py:156-161). */
  lemma StrictLast(ds: seq<Record>, q: nat, k: int, dom: seq<string>, f: seq<nat>, m: int)
    requires Plan(ds, q, dom, f, m) && m == |dom| - 1
    ensures !Cut(ds, q, k, true)
  {
    CutDecided(ds, q, k, dom, f, m, true);
  }

  /** Otherwise the strict cut is accepted exactly when both sides of partitionStrict hold k distinct records. */
  lemma StrictDecided(ds: seq<Record>, q: nat, k: int, dom: seq<string>, f: seq<nat>, m: int,
                      lhs: seq<Record>, rhs: seq<Record>)
    requires Plan(ds, q, dom, f, m) && m < |dom| - 1
    requires lhs == Select(ds, q, dom, m, AtOrBelow) && rhs == Select(ds, q, dom, m, Above)
    ensures (lhs, rhs) == Sides(ds, q, dom, f, m, true)
    ensures Cut(ds, q, k, true) <==> DistinctCount(lhs) >= k && DistinctCount(rhs) >= k
  {
    CutDecided(ds, q, k, dom, f, m, true);
  }

  /** The relaxed cut is accepted exactly when both sides of partitionRelaxed hold k distinct records. */
  lemma RelaxedDecided(ds: seq<Record>, q: nat, k: int, dom: seq<string>, f: seq<nat>, m: int,
                       lhs: seq<Record>, rhs: seq<Record>)
    requires Plan(ds, q, dom, f, m)
    requires var below := Select(ds, q, dom, m, Below);
             var tied := Select(ds, q, dom, m, At);
             var take := TiedLeft(|below|, |tied|, (Sum(f) + 1) / 2);
             lhs == below + tied[..take] && rhs == Select(ds, q, dom, m, Above) + tied[take..]
    ensures (lhs, rhs) == Sides(ds, q, dom, f, m, false)
    ensures Cut(ds, q, k, false) <==> DistinctCount(lhs) >= k && DistinctCount(rhs) >= k
  {
    CutDecided(ds, q, k, dom, f, m, false);
  }

  /**
   * Backtracking (anonymise.py:159-161, 193-195): dropping a candidate that
   * gives no accepted cut does not change whether the partition is a leaf.
   */
  lemma RetryUnsplittable(ds: seq<Record>, sq: seq<nat>, q: nat, k: int, strict: bool)
    requires q in sq && !Cut(ds, q, k, strict)
    ensures Unsplittable(ds, RemoveFirst(sq, q), k, strict) <==> Unsplittable(ds, sq, k, strict)
  {
    RemoveFirstContents(sq, q);
    NoCutAll(ds, sq, k, strict);
    NoCutAll(ds, RemoveFirst(sq, q), k, strict);
  }

  /** A candidate that gives an accepted cut makes a large enough partition split. */
  lemma CutSplits(ds: seq<Record>, sq: seq<nat>, q: nat, k: int, strict: bool)
    requires q in sq && Cut(ds, q, k, strict) && |ds| >= 2 * k
    ensures !Unsplittable(ds, sq, k, strict)
  {
    NoCutAll(ds, sq, k, strict);
  }

  /** The candidates of `sq`, in order, whose cut of `ds` is accepted. */
  ghost function Cutting(ds: seq<Record>, sq: seq<nat>, k: int, strict: bool): seq<nat>
    decreases |sq|
  {
    if sq == [] then []
    else (if Cut(ds, sq[0], k, strict) then [sq[0]] else []) + Cutting(ds, sq[1..], k, strict)
  }

  lemma {:induction false} CuttingMembers(ds: seq<Record>, sq: seq<nat>, k: int, strict: bool)
    ensures forall x :: x in Cutting(ds, sq, k, strict) ==> x in sq && Cut(ds, x, k, strict)
    decreases |sq|
  {
    if sq != [] {
      var c' := Cutting(ds, sq[1..], k, strict);
      CuttingMembers(ds, sq[1..], k, strict);
      assert forall x :: x in sq[1..] ==> x in sq;
      if Cut(ds, sq[0], k, strict) {
        assert Cutting(ds, sq, k, strict) == [sq[0]] + c';
      } else {
        assert Cutting(ds, sq, k, strict) == c';
      }
    }
  }

  /**
   * Backtracking (anonymise.py:159-161, 193-195) drops only candidates
   * without an accepted cut, so the candidates with one stay as they were.
   */
  lemma {:induction false} CuttingRemove(ds: seq<Record>, sq: seq<nat>, x: nat, k: int, strict: bool)
    requires x in sq && !Cut(ds, x, k, strict)
    ensures Cutting(ds, RemoveFirst(sq, x), k, strict) == Cutting(ds, sq, k, strict)
    decreases |sq|
  {
    if sq[0] != x {
      assert sq == [sq[0]] + sq[1..];
      CuttingRemove(ds, sq[1..], x, k, strict);
      var r := RemoveFirst(sq, x);
      assert r[0] == sq[0] && r[1..] == RemoveFirst(sq[1..], x);
    }
  }

  /** No candidate with an accepted cut is wider than every candidate is. */
  lemma CuttingBounded(ds: seq<Record>, sq: seq<nat>, n: nat, k: int, strict: bool)
    requires forall j :: 0 <= j < |sq| ==> |Values(ds, sq[j])| <= n
    ensures forall j :: 0 <= j < |Cutting(ds, sq, k, strict)| ==> |Values(ds, Cutting(ds, sq, k, strict)[j])| <= n
  {
    var c := Cutting(ds, sq, k, strict);
    CuttingMembers(ds, sq, k, strict);
    forall j | 0 <= j < |c|
      ensures |Values(ds, c[j])| <= n
    {
      assert c[j] in c;
      var t :| 0 <= t < |sq| && sq[t] == c[j];
    }
  }

  /**
   * The first widest candidate, when its cut is accepted, is also the first
   * widest among the candidates whose cut is accepted.
   */
  lemma {:induction false} CuttingWidest(ds: seq<Record>, sq: seq<nat>, b: int, n: nat, k: int, strict: bool)
    requires Widest(ds, sq, b, n) && |Values(ds, sq[b])| == n && Cut(ds, sq[b], k, strict)
    ensures sq[b] in Cutting(ds, sq, k, strict)
    ensures Widest(ds, Cutting(ds, sq, k, strict), FirstPosition(Cutting(ds, sq, k, strict), sq[b]), n)
    decreases |sq|
  {
    var c := Cutting(ds, sq, k, strict);
    var c' := Cutting(ds, sq[1..], k, strict);
    assert c == (if Cut(ds, sq[0], k, strict) then [sq[0]] else []) + c';
    CuttingBounded(ds, sq, n, k, strict);
    if b == 0 {
      assert c[0] == sq[0];
      assert FirstPosition(c, sq[b]) == 0;
    } else {
      WidestTail(ds, sq, b, n);
      assert sq[1..][b - 1] == sq[b];
      CuttingWidest(ds, sq[1..], b - 1, n, k, strict);
      if Cut(ds, sq[0], k, strict) {
        WidestCons(ds, sq[0], c', sq[b], n);
      } else {
        assert c == c';
      }
    }
  }

  /** Past a narrower first candidate, the first widest candidate is one position earlier in the tail. */
  lemma WidestTail(ds: seq<Record>, sq: seq<nat>, b: int, n: nat)
    requires Widest(ds, sq, b, n) && b > 0
    ensures Widest(ds, sq[1..], b - 1, n) && |Values(ds, sq[0])| < n
  {
    assert forall j :: 0 <= j < |sq[1..]| ==> sq[1..][j] == sq[j + 1];
  }

  /** A candidate narrower than `n` put in front moves the first widest one a position later. */
  lemma WidestCons(ds: seq<Record>, x: nat, c: seq<nat>, y: nat, n: nat)
    requires y in c && Widest(ds, c, FirstPosition(c, y), n) && |Values(ds, x)| < n == |Values(ds, y)|
    ensures y in [x] + c && Widest(ds, [x] + c, FirstPosition([x] + c, y), n)
  {
    var c2 := [x] + c;
    assert c2[1..] == c;
    assert FirstPosition(c2, y) == FirstPosition(c, y) + 1;
    assert forall j :: 0 < j < |c2| ==> c2[j] == c[j - 1];
  }

  /**
   * The controller cuts `ds` on `q` at median position `i`: among the
   * candidates `cs` whose cut is accepted, `q` is the first of the widest,
   * which is the one bestAttrib and backtracking arrive at
   * (anonymise.py:153-169), and (dom, f, i) is its plan.
   */
  ghost predicate Chosen(ds: seq<Record>, cs: seq<nat>, k: int, strict: bool,
                         q: nat, dom: seq<string>, f: seq<nat>, i: int)
  {
    q in cs && Widest(ds, cs, FirstPosition(cs, q), |dom|)
    && Plan(ds, q, dom, f, i) && Accepted(ds, q, k, dom, f, i, strict)
  }

  /**
   * The shape of a run of the controller: a leaf, or the chosen cut of a
   * partition on column `q` (domain `dom`, frequency table `f`, median
   * position `i`), the number `mid` of leaf-list entries the left side's
   * child call made, and the shapes of the two child calls.
   */
  datatype Cuts =
    | Leaf
    | Node(q: nat, dom: seq<string>, f: seq<nat>, i: int, mid: nat, left: Cuts, right: Cuts)

  /**
   * Entries `lo..hi` of the leaf list `ps` are what
   * `PARTITIONS.append(mondrian(d, QIDS))` leaves there, in the shape `t`:
   * `d` itself when it cannot be cut, or else `d`'s split followed by the
   * `None` the splitting call returns.
   */
  ghost predicate Grown(ps: seq<Option<seq<Record>>>, lo: int, hi: int, d: seq<Record>,
                        qids: seq<nat>, k: int, strict: bool, t: Cuts)
    decreases t, 1
  {
    if Unsplittable(d, qids, k, strict) then t == Leaf && 0 <= lo && hi == lo + 1 <= |ps| && ps[lo] == Some(d)
    else 0 <= lo < hi <= |ps| && ps[hi - 1] == None
         && SplitInto(ps, lo, hi - 1, d, Cutting(d, qids, k, strict), qids, k, strict, t)
  }

  /**
   * Entries `lo..hi` of `ps` are what a call that splits `d` appends, in the
   * shape `t`: `d` is cut by the chosen candidate among `cs`, and each side,
   * left first, goes through `PARTITIONS.append(mondrian(side, QIDS))`.
   */
  ghost predicate SplitInto(ps: seq<Option<seq<Record>>>, lo: int, hi: int, d: seq<Record>, cs: seq<nat>,
                            qids: seq<nat>, k: int, strict: bool, t: Cuts)
    decreases t, 0
  {
    t.Node? && Chosen(d, cs, k, strict, t.q, t.dom, t.f, t.i) && lo <= t.mid <= hi
    && Grown(ps, lo, t.mid, Sides(d, t.q, t.dom, t.f, t.i, strict).0, qids, k, strict, t.left)
    && Grown(ps, t.mid, hi, Sides(d, t.q, t.dom, t.f, t.i, strict).1, qids, k, strict, t.right)
  }

  /** A partition that can be cut leaves its split followed by `None`. */
  lemma GrownSplit(ps: seq<Option<seq<Record>>>, lo: int, hi: int, d: seq<Record>,
                   qids: seq<nat>, k: int, strict: bool, t: Cuts)
    requires !Unsplittable(d, qids, k, strict)
    ensures Grown(ps, lo, hi, d, qids, k, strict, t)
            <==> 0 <= lo < hi <= |ps| && ps[hi - 1] == None
                 && SplitInto(ps, lo, hi - 1, d, Cutting(d, qids, k, strict), qids, k, strict, t)
  {
  }

  /** Appending to the leaf list keeps what its earlier entries record. */
  lemma {:induction false} GrownExtends(ps: seq<Option<seq<Record>>>, ps': seq<Option<seq<Record>>>, lo: int, hi: int,
                                        d: seq<Record>, qids: seq<nat>, k: int, strict: bool, t: Cuts)
    requires Extends(ps', ps) && Grown(ps, lo, hi, d, qids, k, strict, t)
    ensures Grown(ps', lo, hi, d, qids, k, strict, t)
    decreases t, 1
  {
    if !Unsplittable(d, qids, k, strict) {
      var cs := Cutting(d, qids, k, strict);
      GrownSplit(ps, lo, hi, d, qids, k, strict, t);
      GrownSplit(ps', lo, hi, d, qids, k, strict, t);
      SplitExtends(ps, ps', lo, hi - 1, d, cs, qids, k, strict, t);
      assert ps'[hi - 1] == ps[hi - 1];
    } else {
      assert ps'[lo] == ps[lo];
    }
  }

  lemma {:induction false} SplitExtends(ps: seq<Option<seq<Record>>>, ps': seq<Option<seq<Record>>>, lo: int, hi: int,
                                        d: seq<Record>, cs: seq<nat>, qids: seq<nat>, k: int, strict: bool, t: Cuts)
    requires Extends(ps', ps) && SplitInto(ps, lo, hi, d, cs, qids, k, strict, t)
    ensures SplitInto(ps', lo, hi, d, cs, qids, k, strict, t)
    decreases t, 0
  {
    var sides := Sides(d, t.q, t.dom, t.f, t.i, strict);
    GrownExtends(ps, ps', lo, t.mid, sides.0, qids, k, strict, t.left);
    GrownExtends(ps, ps', t.mid, hi, sides.1, qids, k, strict, t.right);
  }

  /**
   * What a child call leaves ends with its own return value: the side itself
   * as the one entry when it cannot be cut, `None` otherwise.
   */
  lemma GrownLast(ps: seq<Option<seq<Record>>>, lo: int, hi: int, d: seq<Record>,
                  qids: seq<nat>, k: int, strict: bool, t: Cuts)
    requires Grown(ps, lo, hi, d, qids, k, strict, t)
    ensures 0 <= lo < hi <= |ps|
    ensures ps[hi - 1] == (if Unsplittable(d, qids, k, strict) then Some(d) else None)
    ensures Unsplittable(d, qids, k, strict) <==> t == Leaf
    ensures Unsplittable(d, qids, k, strict) ==> hi == lo + 1
  {
  }

  /** Appending a child call's result after its own entries records the whole child call. */
  lemma GrownAppend(p0: seq<Option<seq<Record>>>, p1: seq<Option<seq<Record>>>, leaf: Option<seq<Record>>,
                    p: seq<Option<seq<Record>>>, d: seq<Record>, qids: seq<nat>, k: int, strict: bool, t: Cuts)
    requires p == p1 + [leaf]
    requires Extends(p1, p0) && (leaf.Some? <==> Unsplittable(d, qids, k, strict))
    requires leaf.Some? ==> leaf.value == d && p1 == p0 && t == Leaf
    requires leaf.None? ==> SplitInto(p1, |p0|, |p1|, d, Cutting(d, qids, k, strict), qids, k, strict, t)
    ensures Grown(p, |p0|, |p|, d, qids, k, strict, t)
  {
    if leaf.None? {
      SplitExtends(p1, p, |p0|, |p1|, d, Cutting(d, qids, k, strict), qids, k, strict, t);
    }
  }

  /** When bestAttrib's pick has an accepted cut, it is the chosen candidate. */
  lemma ChosenWidest(ds: seq<Record>, sq: seq<nat>, b: int, k: int, dom: seq<string>, f: seq<nat>, i: int, strict: bool)
    requires 0 <= b < |sq| && Widest(ds, sq, b, |dom|) && Plan(ds, sq[b], dom, f, i) && Cut(ds, sq[b], k, strict)
    ensures Chosen(ds, Cutting(ds, sq, k, strict), k, strict, sq[b], dom, f, i)
  {
    DomainUnique(dom, dom, ds, sq[b]);
    CutDecided(ds, sq[b], k, dom, f, i, strict);
    CuttingWidest(ds, sq, b, |dom|, k, strict);
  }

  /*
   * An example where the two controllers differ: two records with the same
   * value and K = 1. Strict partitioning keeps them together, because the
   * median is the only and so the last domain value; relaxed partitioning
   * hands one tied record to each side.
   */

  /** The pair's only value is "a", counted twice. */
  lemma TiedPairTable()
    ensures HasField([["a"], ["a"]], 0) && IsDomain(["a"], [["a"], ["a"]], 0)
    ensures IsFrequencyTable([2], [["a"], ["a"]], 0, ["a"])
  {
    var ds: seq<Record> := [["a"], ["a"]];
    var dom := ["a"];
    assert IndexOf(dom, "a") == 0;
    SelectAllAt(ds, 0, dom, 0);
    SelectAtCount(ds, 0, dom, 0);
    assert Values(ds, 0) == Elements(dom) by {
      assert ds[0][0] == "a";
    }
  }

  /** The median plan of two identical one-column records. */
  lemma TiedPairPlan()
    ensures Plan([["a"], ["a"]], 0, ["a"], [2], 0)
  {
    var f: seq<nat> := [2];
    TiedPairTable();
    assert Sum(f) == 2 by { assert f[..0] == []; }
    assert Running(f, 0) == 2 by { assert f[..1] == f; }
  }

  /** Strict partitioning cannot cut two identical records. */
  lemma TiedPairStrict()
    ensures Unsplittable([["a"], ["a"]], [0], 1, true)
  {
    TiedPairPlan();
    StrictLast([["a"], ["a"]], 0, 1, ["a"], [2], 0);
  }

  /** Relaxed partitioning sends one of two identical records to each side. */
  lemma TiedPairSides()
    ensures Sides([["a"], ["a"]], 0, ["a"], [2], 0, false) == ([["a"]], [["a"]])
  {
    var ds: seq<Record> := [["a"], ["a"]];
    var dom := ["a"];
    TiedPairTable();
    assert IndexOf(dom, "a") == 0;
    SelectAllAt(ds, 0, dom, 0);
    assert Sum([2]) == 2 by { assert [2][..0] == []; }
    assert TiedLeft(0, 2, 1) == 1;
    assert ds[..1] == [["a"]] && ds[1..] == [["a"]];
  }

  /** With K = 1 that relaxed cut is accepted, so the pair is split. */
  lemma TiedPairRelaxed()
    ensures Cut([["a"], ["a"]], 0, 1, false) && !Unsplittable([["a"], ["a"]], [0], 1, false)
  {
    var ds: seq<Record> := [["a"], ["a"]];
    TiedPairPlan();
    TiedPairSides();
    assert DistinctCount([["a"]]) == 1 by {
      assert (set t | t in [["a"]]) == {["a"]};
    }
    CutDecided(ds, 0, 1, ["a"], [2], 0, false);
    CutSplits(ds, [0], 0, 1, false);
  }

  /** The pair's one candidate has an accepted relaxed cut, so it is the chosen one. */
  lemma TiedPairChosen()
    ensures Cutting([["a"], ["a"]], [0], 1, false) == [0]
    ensures Chosen([["a"], ["a"]], [0], 1, false, 0, ["a"], [2], 0)
  {
    var ds: seq<Record> := [["a"], ["a"]];
    TiedPairPlan();
    TiedPairRelaxed();
    CutDecided(ds, 0, 1, ["a"], [2], 0, false);
    assert Cutting(ds, [0], 1, false) == [0] by {
      assert [0][1..] == [];
    }
    DomainUnique(["a"], ["a"], ds, 0);
    assert FirstPosition([0], 0) == 0;
  }

  /** The relaxed run on the pair leaves two one-record leaves, left side first. */
  lemma TiedPairLeaves()
    ensures SplitInto([Some([["a"]]), Some([["a"]])], 0, 2, [["a"], ["a"]], [0], [0], 1, false,
                      Node(0, ["a"], [2], 0, 1, Leaf, Leaf))
  {
    var ps: seq<Option<seq<Record>>> := [Some([["a"]]), Some([["a"]])];
    TiedPairSides();
    TiedPairRelaxed();
    TiedPairChosen();
    assert Grown(ps, 0, 1, [["a"]], [0], 1, false, Leaf);
    assert Grown(ps, 1, 2, [["a"]], [0], 1, false, Leaf);
  }

  /** `p` is `p0` with entries appended: the leaf list only ever grows at its end. */
  predicate Extends<T(==)>(p: seq<T>, p0: seq<T>)
  {
    |p| >= |p0| && p[..|p0|] == p0
  }

  /** Every stored leaf is admissible. */
  ghost predicate AllAdmissible(ps: seq<Option<seq<Record>>>, qids: seq<nat>, k: int)
  {
    forall i :: 0 <= i < |ps| && ps[i].Some? ==> Admissible(ps[i].value, qids, k)
  }

  /**
   * Appending what a child call on `d` returned, after the appends the child
   * made itself, keeps the leaf list admissible and makes the entries added
   * since `p0` hold exactly the records of `d`.
   */
  lemma AppendChild(p0: seq<Option<seq<Record>>>, p: seq<Option<seq<Record>>>, leaf: Option<seq<Record>>,
                    d: seq<Record>, qids: seq<nat>, k: int)
    requires Extends(p, p0) && AllAdmissible(p, qids, k) && Admissible(d, qids, k)
    requires leaf.Some? ==> leaf.value == d && p == p0
    requires leaf.None? ==> multiset(Leaves(p[|p0|..])) == multiset(d)
    ensures Extends(p + [leaf], p0) && AllAdmissible(p + [leaf], qids, k)
    ensures multiset(Leaves((p + [leaf])[|p0|..])) == multiset(d)
  {
    assert (p + [leaf])[..|p0|] == p0;
    assert (p + [leaf])[|p0|..] == p[|p0|..] + [leaf];
    if leaf.Some? {
      assert p[|p0|..] == [];
    }
    ChildLeaves(p[|p0|..], leaf, d);
  }

  /** Within a list extended twice, the entries of the first extension stay where they were. */
  lemma ExtendsSlice<T>(p0: seq<T>, p1: seq<T>, p2: seq<T>)
    requires Extends(p1, p0) && Extends(p2, p1) && |p1| > 0
    ensures p2[|p0|..|p1|] == p1[|p0|..] && p2[|p1| - 1] == p1[|p1| - 1]
  {
    assert p2[..|p1|] == p1;
  }

  /** The entries both children of an accepted split added hold the records of both sides. */
  lemma CombineChildren(p0: seq<Option<seq<Record>>>, p1: seq<Option<seq<Record>>>, p2: seq<Option<seq<Record>>>,
                        lhs: seq<Record>, rhs: seq<Record>)
    requires Extends(p1, p0) && Extends(p2, p1)
    requires multiset(Leaves(p1[|p0|..])) == multiset(lhs)
    requires multiset(Leaves(p2[|p1|..])) == multiset(rhs)
    ensures Extends(p2, p0)
    ensures multiset(Leaves(p2[|p0|..])) == multiset(lhs) + multiset(rhs)
  {
    assert p2[..|p1|][..|p0|] == p2[..|p0|];
    assert p2[|p0|..] == p1[|p0|..] + p2[|p1|..];
    LeavesAppend(p1[|p0|..], p2[|p1|..]);
  }

  /** The outcome of the post-processing of anonymise.py:269-285. */
  datatype Outcome =
    | Undersized(size: nat)          // a class smaller than K aborts the output
    | NotAnonymisable                // no record reached a class
    | Anonymised(rows: seq<GenRecord>)

  /**
   * The checking and concatenating loop: every class must hold at least K
   * rows, the first one that does not aborts with its size; otherwise the
   * classes are joined in order, and an empty join means no anonymisation.
   */
  method Concatenate(classes: seq<seq<GenRecord>>, k: int) returns (outcome: Outcome)
    ensures outcome.Undersized? <==> exists i :: 0 <= i < |classes| && |classes[i]| < k
    ensures outcome.Undersized? ==>
      exists i :: 0 <= i < |classes| && |classes[i]| < k && outcome.size == |classes[i]|
        && forall j :: 0 <= j < i ==> |classes[j]| >= k
    ensures outcome.NotAnonymisable? <==>
      (forall i :: 0 <= i < |classes| ==> |classes[i]| >= k) && Flatten(classes) == []
    ensures outcome.Anonymised? ==> outcome.rows == Flatten(classes) && |outcome.rows| > 0
  {
    var rows: seq<GenRecord> := [];
    for i := 0 to |classes|
      invariant rows == Flatten(classes[..i])
      invariant forall j :: 0 <= j < i ==> |classes[j]| >= k
    {
      assert classes[..i + 1][..i] == classes[..i];
      if |classes[i]| < k {
        return Undersized(|classes[i]|);
      }
      rows := rows + classes[i];
    }
    assert classes[..|classes|] == classes;
    if |rows| > 0 {
      outcome := Anonymised(rows);
    } else {
      outcome := NotAnonymisable;
    }
  }

  /** Each class of `anon` is the generalisation of the group of records at the same position. */
  predicate Generalised(anon: seq<seq<GenRecord>>, groups: seq<seq<Record>>, qids: seq<nat>)
  {
    |anon| == |groups| && forall c :: 0 <= c < |anon| ==> IsGeneralisation(anon[c], groups[c], qids)
  }

  lemma GeneralisedSnoc(anon: seq<seq<GenRecord>>, groups: seq<seq<Record>>, qids: seq<nat>,
                        g: seq<GenRecord>, d: seq<Record>)
    requires Generalised(anon, groups, qids) && IsGeneralisation(g, d, qids)
    ensures Generalised(anon + [g], groups + [d], qids)
  {
  }

  /** Two published rows agree on every quasi-identifier column. */
  predicate SameQids(r1: GenRecord, r2: GenRecord, qids: seq<nat>)
  {
    forall q :: q in qids ==> q < |r1| && q < |r2| && r1[q] == r2[q]
  }

  /** The positions of the rows of `rows` that agree with row `i` on the quasi-identifiers. */
  function Peers(rows: seq<GenRecord>, i: int, qids: seq<nat>): set<int>
    requires 0 <= i < |rows|
  {
    set j | 0 <= j < |rows| && SameQids(rows[j], rows[i], qids)
  }

  /** The positions lo, lo+1, ..., lo+n-1. */
  function Range(lo: int, n: nat): (r: seq<int>)
    ensures |r| == n && forall m :: 0 <= m < n ==> r[m] == lo + m
  {
    seq(n, m => lo + m)
  }

  lemma {:induction false} RangeSize(lo: int, n: nat)
    ensures |set j | j in Range(lo, n)| == n
    decreases n
  {
    if n > 0 {
      RangeSize(lo, n - 1);
      var m := n - 1;
      assert Range(lo, n) == Range(lo, m) + [lo + m];
      assert (set j | j in Range(lo, n)) == (set j | j in Range(lo, m)) + {lo + m};
    }
  }

  lemma SubsetSize(a: set<int>, b: set<int>)
    requires a <= b
    ensures |a| <= |b|
  {
    assert b == a + (b - a);
    assert a * (b - a) == {};
  }

  /** Appending rows keeps every earlier row's peers. */
  lemma PeersExtend(init: seq<GenRecord>, last: seq<GenRecord>, i: int, qids: seq<nat>)
    requires 0 <= i < |init|
    ensures |Peers(init, i, qids)| <= |Peers(init + last, i, qids)|
  {
    var rows := init + last;
    forall j | j in Peers(init, i, qids)
      ensures j in Peers(rows, i, qids)
    {
      assert rows[j] == init[j] && rows[i] == init[i];
    }
    SubsetSize(Peers(init, i, qids), Peers(rows, i, qids));
  }

  /** A row of an appended generalised class has every row of that class among its peers. */
  lemma PeersOfClass(init: seq<GenRecord>, last: seq<GenRecord>, p: seq<Record>, qids: seq<nat>, i: int)
    requires IsGeneralisation(last, p, qids) && |init| <= i < |init| + |last|
    ensures |Peers(init + last, i, qids)| >= |last|
  {
    var rows := init + last;
    var off := |init|;
    var range := set j | j in Range(off, |last|);
    RangeSize(off, |last|);
    forall j | j in range
      ensures j in Peers(rows, i, qids)
    {
      forall q | q in qids
        ensures q < |rows[j]| && q < |rows[i]| && rows[j][q] == rows[i][q]
      {
        GeneralisationUniform(last, p, qids, j - off, i - off, q);
      }
    }
    SubsetSize(range, Peers(rows, i, qids));
  }

  /**
   * k-anonymity of the published table: when every class holds at least k
   * rows and is the generalisation of a group of records, each row of the
   * concatenation agrees on all quasi-identifier columns with at least k rows
   * (itself included).
   */
  lemma {:induction false} KAnonymous(classes: seq<seq<GenRecord>>, groups: seq<seq<Record>>, qids: seq<nat>, k: int, i: int)
    requires Generalised(classes, groups, qids) && forall c :: 0 <= c < |classes| ==> |classes[c]| >= k
    requires 0 <= i < |Flatten(classes)|
    ensures |Peers(Flatten(classes), i, qids)| >= k
    decreases |classes|
  {
    var n := |classes| - 1;
    var init := Flatten(classes[..n]);
    assert Flatten(classes) == init + classes[n];
    if i < |init| {
      KAnonymous(classes[..n], groups[..n], qids, k, i);
      PeersExtend(init, classes[n], i, qids);
    } else {
      PeersOfClass(init, classes[n], groups[n], qids, i);
    }
  }

  /**
   * The generalised classes of an admissible leaf list: each holds at least
   * k rows, together they hold as many rows as the leaves hold records, and
   * their concatenation is k-anonymous.
   */
  lemma Publishable(anon: seq<seq<GenRecord>>, ps: seq<Option<seq<Record>>>, qids: seq<nat>, k: int)
    requires AllAdmissible(ps, qids, k)
    requires Generalised(anon, Classes(ps), qids)
    ensures forall c :: 0 <= c < |anon| ==> |anon[c]| >= k
    ensures |Flatten(anon)| == |Leaves(ps)|
    ensures forall i :: 0 <= i < |Flatten(anon)| ==> |Peers(Flatten(anon), i, qids)| >= k
  {
    ClassesAdmissible(ps, qids, k);
    forall c | 0 <= c < |anon|
      ensures |anon[c]| >= k
    {
      DistinctCountBound(Classes(ps)[c]);
    }
    FlattenLength(anon, Classes(ps));
    forall i | 0 <= i < |Flatten(anon)|
      ensures |Peers(Flatten(anon), i, qids)| >= k
    {
      KAnonymous(anon, Classes(ps), qids, k, i);
    }
  }

  /**
   * The median findMedian reports sits at position `m` of the domain: the
   * plan on `q` is (dom, f, m), and the value's own position is `m`.
   */
  lemma MedianPosition(ds: seq<Record>, q: nat, dom: seq<string>, f: seq<nat>, m: int, medVal: string)
    requires HasField(ds, q) && IsDomain(dom, ds, q) && IsFrequencyTable(f, ds, q, dom)
    requires FirstReaching(f, (Sum(f) + 1) / 2, m) && medVal == dom[m]
    ensures Plan(ds, q, dom, f, m)
    ensures medVal in dom && Values(ds, q) <= Elements(dom) && IndexOf(dom, medVal) == m
    ensures medVal == dom[|dom| - 1] <==> m == |dom| - 1
  {
    IndexOfSorted(dom, m);
    IndexOfSorted(dom, |dom| - 1);
    if medVal == dom[|dom| - 1] {
      assert m == IndexOf(dom, dom[|dom| - 1]);
    }
  }

  /** The retry's candidate list is shorter and still names columns every record has. */
  lemma RetryCandidates(ds: seq<Record>, sq: seq<nat>, q: nat)
    requires HasFields(ds, sq) && q in sq
    ensures HasFields(ds, RemoveFirst(sq, q)) && |RemoveFirst(sq, q)| < |sq|
  {
    RemoveFirstContents(sq, q);
  }

  class Anonymiser {
    /** RECORDS, QIDS and K. */
    const records: seq<Record>
    const qids: seq<nat>
    const k: int
    /** PARTITIONS: one entry per child call; `None` for a child that split. */
    var partitions: seq<Option<seq<Record>>>
    /** ANON_PARTITIONS: the generalised classes. */
    var anonPartitions: seq<seq<GenRecord>>

    /** K is positive, every record has every quasi-identifier, and every stored leaf is admissible. */
    ghost predicate Valid()
      reads this
    {
      k >= 1 && HasFields(records, qids) && AllAdmissible(partitions, qids, k)
    }

    constructor (records: seq<Record>, qids: seq<nat>, k: int)
      requires k >= 1 && HasFields(records, qids)
      ensures Valid()
      ensures this.records == records && this.qids == qids && this.k == k
      ensures partitions == [] && anonPartitions == []
    {
      this.records := records;
      this.qids := qids;
      this.k := k;
      partitions := [];
      anonPartitions := [];
    }

    /**
     * mondrianStrict. A partition smaller than 2K, or one with no candidate
     * quasi-identifier left, is returned as a leaf. Otherwise the widest
     * candidate is split at its median; when the median is the last domain
     * value, or a side holds fewer than K distinct records, the call retries
     * on the same partition without that candidate. An accepted split
     * recurses into both sides with the full quasi-identifier list and
     * appends what each returns to the leaf list. So the partition is
     * returned exactly when no candidate gives an accepted strict cut.
     */
    method Strict(ds: seq<Record>, sq: seq<nat>) returns (leaf: Option<seq<Record>>, ghost t: Cuts)
      requires Valid() && HasFields(ds, qids) && HasFields(ds, sq)
      modifies this
      ensures Valid() && anonPartitions == old(anonPartitions)
      ensures Extends(partitions, old(partitions))
      ensures leaf.Some? <==> Unsplittable(ds, sq, k, true)
      ensures leaf.Some? ==> leaf.value == ds && partitions == old(partitions)
      ensures leaf.Some? <==> t == Leaf
      ensures leaf.None? ==> |partitions| > |old(partitions)|
      ensures leaf.None? ==> multiset(Leaves(partitions[|old(partitions)|..])) == multiset(ds)
      ensures leaf.None? ==> SplitInto(partitions, |old(partitions)|, |partitions|, ds, Cutting(ds, sq, k, true), qids, k, true, t)
      decreases |ds|, 2, |sq|
    {
      if |ds| < 2 * k || |sq| == 0 {
        return Some(ds), Leaf;
      }
      var dom, best := BestAttrib(ds, sq);
      DomainNonEmpty(ds, best, dom);
      var freqs := FrequencySet(best, dom, ds);
      var rank, medVal := FindMedian(freqs, dom);
      ghost var m :| FirstReaching(freqs, rank, m) && medVal == dom[m];
      ghost var b :| Widest(ds, sq, b, |dom|) && sq[b] == best;
      MedianPosition(ds, best, dom, freqs, m, medVal);
      RetryCandidates(ds, sq, best);
      if medVal == dom[|dom| - 1] {
        StrictLast(ds, best, k, dom, freqs, m);
        RetryUnsplittable(ds, sq, best, k, true);
        leaf, t := Strict(ds, RemoveFirst(sq, best));
        CuttingRemove(ds, sq, best, k, true);
        return;
      }
      var lhs, rhs := PartitionStrict(best, medVal, dom, ds);
      StrictDecided(ds, best, k, dom, freqs, m, lhs, rhs);
      if DistinctCount(lhs) < k || DistinctCount(rhs) < k {
        RetryUnsplittable(ds, sq, best, k, true);
        leaf, t := Strict(ds, RemoveFirst(sq, best));
        CuttingRemove(ds, sq, best, k, true);
        return;
      }
      SplitSmaller(ds, lhs, rhs, qids, k);
      ghost var p0 := partitions;
      ghost var mid, tl, tr := Recurse(lhs, rhs, true);
      CutSplits(ds, sq, best, k, true);
      ChosenWidest(ds, sq, b, k, dom, freqs, m, true);
      t := Node(best, dom, freqs, m, mid, tl, tr);
      leaf := None;
    }

    /**
     * mondrianRelaxed: as Strict, with the relaxed split and without the
     * last-domain-value test.
     */
    method Relaxed(ds: seq<Record>, sq: seq<nat>) returns (leaf: Option<seq<Record>>, ghost t: Cuts)
      requires Valid() && HasFields(ds, qids) && HasFields(ds, sq)
      modifies this
      ensures Valid() && anonPartitions == old(anonPartitions)
      ensures Extends(partitions, old(partitions))
      ensures leaf.Some? <==> Unsplittable(ds, sq, k, false)
      ensures leaf.Some? ==> leaf.value == ds && partitions == old(partitions)
      ensures leaf.Some? <==> t == Leaf
      ensures leaf.None? ==> |partitions| > |old(partitions)|
      ensures leaf.None? ==> multiset(Leaves(partitions[|old(partitions)|..])) == multiset(ds)
      ensures leaf.None? ==> SplitInto(partitions, |old(partitions)|, |partitions|, ds, Cutting(ds, sq, k, false), qids, k, false, t)
      decreases |ds|, 2, |sq|
    {
      if |ds| < 2 * k || |sq| == 0 {
        return Some(ds), Leaf;
      }
      var dom, best := BestAttrib(ds, sq);
      DomainNonEmpty(ds, best, dom);
      var freqs := FrequencySet(best, dom, ds);
      var rank, medVal := FindMedian(freqs, dom);
      ghost var m :| FirstReaching(freqs, rank, m) && medVal == dom[m];
      ghost var b :| Widest(ds, sq, b, |dom|) && sq[b] == best;
      MedianPosition(ds, best, dom, freqs, m, medVal);
      RetryCandidates(ds, sq, best);
      var lhs, rhs := PartitionRelaxed(rank, best, medVal, dom, ds);
      RelaxedDecided(ds, best, k, dom, freqs, m, lhs, rhs);
      if DistinctCount(lhs) < k || DistinctCount(rhs) < k {
        RetryUnsplittable(ds, sq, best, k, false);
        leaf, t := Relaxed(ds, RemoveFirst(sq, best));
        CuttingRemove(ds, sq, best, k, false);
        return;
      }
      SplitSmaller(ds, lhs, rhs, qids, k);
      ghost var p0 := partitions;
      ghost var mid, tl, tr := Recurse(lhs, rhs, false);
      CutSplits(ds, sq, best, k, false);
      ChosenWidest(ds, sq, b, k, dom, freqs, m, false);
      t := Node(best, dom, freqs, m, mid, tl, tr);
      leaf := None;
    }

    /**
     * The body of `anonymise` after the input is read (anonymise.py:255-285).
     * The controller's own return value is not kept, so an input that is never
     * split leaves the leaf list empty and cannot be anonymised.
     */
    method Anonymise(strict: bool) returns (outcome: Outcome, ghost t: Cuts)
      requires Valid() && partitions == [] && anonPartitions == []
      modifies this
      ensures Valid()
      ensures !outcome.Undersized?
      ensures outcome.NotAnonymisable? <==> partitions == []
      ensures outcome.NotAnonymisable? <==> Unsplittable(records, qids, k, strict)
      ensures |records| < 2 * k || qids == [] ==> outcome == NotAnonymisable
      ensures partitions != [] ==> multiset(Leaves(partitions)) == multiset(records)
      ensures partitions != [] ==> SplitInto(partitions, 0, |partitions|, records, Cutting(records, qids, k, strict), qids, k, strict, t)
      ensures Generalised(anonPartitions, Classes(partitions), qids)
      ensures forall c :: 0 <= c < |anonPartitions| ==> |anonPartitions[c]| >= k
      ensures outcome.Anonymised? ==> outcome.rows == Flatten(anonPartitions) && |outcome.rows| == |records|
      ensures outcome.Anonymised? ==> forall i :: 0 <= i < |outcome.rows| ==> |Peers(outcome.rows, i, qids)| >= k
    {
      var top;
      if strict {
        top, t := Strict(records, qids);
      } else {
        top, t := Relaxed(records, qids);
      }
      assert partitions[0..] == partitions;
      assert top.Some? <==> partitions == [];
      outcome := Publish();
    }

    /**
     * The post-processing of anonymise.py:263-285: each leaf that is neither
     * `None` nor empty is generalised; the classes are then checked against
     * K and concatenated.
     */
    method Publish() returns (outcome: Outcome)
      requires Valid() && anonPartitions == []
      modifies this
      ensures Valid() && partitions == old(partitions)
      ensures !outcome.Undersized?
      ensures outcome.NotAnonymisable? <==> Leaves(partitions) == []
      ensures Generalised(anonPartitions, Classes(partitions), qids)
      ensures forall c :: 0 <= c < |anonPartitions| ==> |anonPartitions[c]| >= k
      ensures outcome.Anonymised? ==> outcome.rows == Flatten(anonPartitions) && |outcome.rows| == |Leaves(partitions)|
      ensures outcome.Anonymised? ==> forall i :: 0 <= i < |outcome.rows| ==> |Peers(outcome.rows, i, qids)| >= k
    {
      ghost var ps := partitions;
      assert AllAdmissible(ps, qids, k);
      for i := 0 to |partitions|
        invariant partitions == ps
        invariant Generalised(anonPartitions, Classes(ps[..i]), qids)
      {
        assert ps[..i + 1][..i] == ps[..i];
        if partitions[i].Some? && |partitions[i].value| != 0 {
          var g := Generalise.Generalise(partitions[i].value, qids);
          GeneralisedSnoc(anonPartitions, Classes(ps[..i]), qids, g, partitions[i].value);
          anonPartitions := anonPartitions + [g];
        }
      }
      assert ps[..|ps|] == ps;
      Publishable(anonPartitions, ps, qids, k);
      outcome := Concatenate(anonPartitions, k);
    }

    /**
     * The common end of both controllers once a split is accepted
     * (anonymise.py:171-177 and :197-203): the candidate list is reset to
     * the full quasi-identifier list, and each side, left first, is handed
     * to the controller. `mid` is where the left side's entries end.
     */
    method Recurse(lhs: seq<Record>, rhs: seq<Record>, strict: bool) returns (ghost mid: nat, ghost tl: Cuts, ghost tr: Cuts)
      requires Valid() && Admissible(lhs, qids, k) && Admissible(rhs, qids, k)
      modifies this
      ensures Valid() && anonPartitions == old(anonPartitions)
      ensures Extends(partitions, old(partitions))
      ensures |old(partitions)| < mid < |partitions|
      ensures multiset(Leaves(partitions[|old(partitions)|..mid])) == multiset(lhs)
      ensures multiset(Leaves(partitions[mid..])) == multiset(rhs)
      ensures multiset(Leaves(partitions[|old(partitions)|..])) == multiset(lhs) + multiset(rhs)
      ensures Grown(partitions, |old(partitions)|, mid, lhs, qids, k, strict, tl)
      ensures Grown(partitions, mid, |partitions|, rhs, qids, k, strict, tr)
      decreases |lhs| + |rhs|, 1, 0
    {
      DistinctCountBound(lhs);
      DistinctCountBound(rhs);
      ghost var p0 := partitions;
      tl := Descend(lhs, strict);
      ghost var p1 := partitions;
      mid := |p1|;
      tr := Descend(rhs, strict);
      CombineChildren(p0, p1, partitions, lhs, rhs);
      ExtendsSlice(p0, p1, partitions);
      GrownExtends(p1, partitions, |p0|, |p1|, lhs, qids, k, strict, tl);
    }

    /**
     * `PARTITIONS.append(mondrian(d, QIDS))` (anonymise.py:176, 202): the
     * controller runs on `d` with the full quasi-identifier list, and what it
     * returns is appended after whatever it appended itself.
     */
    method Descend(d: seq<Record>, strict: bool) returns (ghost t: Cuts)
      requires Valid() && Admissible(d, qids, k)
      modifies this
      ensures Valid() && anonPartitions == old(anonPartitions)
      ensures Extends(partitions, old(partitions)) && |partitions| > |old(partitions)|
      ensures multiset(Leaves(partitions[|old(partitions)|..])) == multiset(d)
      ensures Grown(partitions, |old(partitions)|, |partitions|, d, qids, k, strict, t)
      decreases |d|, 3, 0
    {
      ghost var p0 := partitions;
      var leaf;
      if strict {
        leaf, t := Strict(d, qids);
      } else {
        leaf, t := Relaxed(d, qids);
      }
      ghost var p1 := partitions;
      AppendChild(p0, p1, leaf, d, qids, k);
      partitions := partitions + [leaf];
      GrownAppend(p0, p1, leaf, partitions, d, qids, k, strict, t);
    }
  }
}
