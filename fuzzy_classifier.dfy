/**
 * `identify_fuzzy_duplicates`: every pair (i, j) with i < j, in lexicographic order,
 * is scored. A score at the removal threshold links j to i unless j already has a
 * reference; a score in the review band flags j for manual review; both are reported.
 * The specification is a left fold of one step over an ordered list of pairs.
 */
module FuzzyClassifier {
  import opened Values
  import opened Table
  import opened Scorer

  /** The two thresholds, in points (the Python defaults are 75 and 50). */
  datatype Thresholds = Thresholds(removal: int, review: int)

  /** An entry of `potential_duplicates`: the two `Sku_ID`s and the score, in quarter-points. */
  datatype Candidate = Candidate(first: Value, second: Value, score: int)

  /** The mutable columns and the report list at some point of the pass. */
  datatype FuzzyState = FuzzyState(
    refSku: seq<Option<Value>>, refItem: seq<Option<Value>>, review: seq<bool>, report: seq<Candidate>)

  /** A pair of row indices (i, j). */
  type Pair = (nat, nat)

  predicate Fits(st: FuzzyState, n: nat)
  {
    |st.refSku| == n && |st.refItem| == n && |st.review| == n
  }

  predicate InRange(ps: seq<Pair>, n: nat)
  {
    forall k :: 0 <= k < |ps| ==> ps[k].0 < n && ps[k].1 < n
  }

  function Score(rows: seq<Record>, ratio: Ratio, i: nat, j: nat): int
    requires i < |rows| && j < |rows|
  {
    CompareAttributes(rows[i], rows[j], ratio)
  }

  /** The pair reaches the removal threshold. */
  predicate IsRemoval(rows: seq<Record>, ratio: Ratio, th: Thresholds, i: nat, j: nat)
    requires i < |rows| && j < |rows|
  {
    Score(rows, ratio, i, j) >= 4 * th.removal
  }

  /** The pair lies in the review band: below the removal threshold, at or above the review one. */
  predicate IsReview(rows: seq<Record>, ratio: Ratio, th: Thresholds, i: nat, j: nat)
    requires i < |rows| && j < |rows|
  {
    !IsRemoval(rows, ratio, th, i, j) && Score(rows, ratio, i, j) >= 4 * th.review
  }

  /** The pair goes into the report. */
  predicate IsReported(rows: seq<Record>, ratio: Ratio, th: Thresholds, i: nat, j: nat)
    requires i < |rows| && j < |rows|
  {
    IsRemoval(rows, ratio, th, i, j) || IsReview(rows, ratio, th, i, j)
  }

  function CandidateOf(rows: seq<Record>, ratio: Ratio, p: Pair): Candidate
    requires p.0 < |rows| && p.1 < |rows|
  {
    Candidate(rows[p.0].skuId, rows[p.1].skuId, Score(rows, ratio, p.0, p.1))
  }

  /** The body of the inner loop for the pair `p`. */
  function PairStep(rows: seq<Record>, ratio: Ratio, th: Thresholds, st: FuzzyState, p: Pair): (r: FuzzyState)
    requires Fits(st, |rows|) && p.0 < |rows| && p.1 < |rows|
    ensures Fits(r, |rows|)
  {
    var (i, j) := p;
    var score := Score(rows, ratio, i, j);
    if score >= 4 * th.removal then
      var unset := st.refSku[j].None? && st.refItem[j].None?;
      FuzzyState(
        if unset then st.refSku[j := Some(rows[i].skuId)] else st.refSku,
        if unset then st.refItem[j := Some(rows[i].itemCode)] else st.refItem,
        st.review,
        st.report + [Candidate(rows[i].skuId, rows[j].skuId, score)])
    else if score >= 4 * th.review then
      FuzzyState(st.refSku, st.refItem, st.review[j := true],
                 st.report + [Candidate(rows[i].skuId, rows[j].skuId, score)])
    else
      st
  }

  /** The state after the pairs `ps` have been processed in order, starting from `init`. */
  function Fold(rows: seq<Record>, ratio: Ratio, th: Thresholds, ps: seq<Pair>, init: FuzzyState): (st: FuzzyState)
    requires Fits(init, |rows|) && InRange(ps, |rows|)
    ensures Fits(st, |rows|)
    decreases |ps|
  {
    if ps == [] then init
    else PairStep(rows, ratio, th, Fold(rows, ratio, th, ps[..|ps| - 1], init), ps[|ps| - 1])
  }

  lemma FoldSnoc(rows: seq<Record>, ratio: Ratio, th: Thresholds, ps: seq<Pair>, p: Pair, init: FuzzyState)
    requires Fits(init, |rows|) && InRange(ps, |rows|) && p.0 < |rows| && p.1 < |rows|
    ensures InRange(ps + [p], |rows|)
    ensures Fold(rows, ratio, th, ps + [p], init) == PairStep(rows, ratio, th, Fold(rows, ratio, th, ps, init), p)
  {
    assert (ps + [p])[..|ps|] == ps;
  }

  /** The inner loop's pairs (i, i+1), ..., (i, j-1). */
  function RowPairs(i: nat, j: nat): (ps: seq<Pair>)
    ensures |ps| == if j > i + 1 then j - i - 1 else 0
    ensures forall k :: 0 <= k < |ps| ==> ps[k] == (i, i + 1 + k)
    decreases j
  {
    if j <= i + 1 then [] else RowPairs(i, j - 1) + [(i, j - 1)]
  }

  /** Every pair (i, j) with i < k and i < j < n, in the order of the two loops. */
  function PairsBefore(n: nat, k: nat): (ps: seq<Pair>)
    requires k <= n
    ensures forall q :: 0 <= q < |ps| ==> ps[q].0 < k && ps[q].0 < ps[q].1 < n
    decreases k
  {
    if k == 0 then [] else PairsBefore(n, k - 1) + RowPairs(k - 1, n)
  }

  /** The pairs the two loops visit, in visiting order. */
  function AllPairs(n: nat): (ps: seq<Pair>)
    ensures InRange(ps, n)
  {
    PairsBefore(n, n)
  }

  /** The state on entry: references from the exact pass, `manual_review` reset to False, empty report. */
  function FuzzyInit(refSku: seq<Option<Value>>, refItem: seq<Option<Value>>): FuzzyState
  {
    FuzzyState(refSku, refItem, seq(|refSku|, _ => false), [])
  }

  /** The result of the whole classification. */
  function FuzzyOutcome(rows: seq<Record>, ratio: Ratio, th: Thresholds,
                        refSku: seq<Option<Value>>, refItem: seq<Option<Value>>): (st: FuzzyState)
    requires |refSku| == |rows| && |refItem| == |rows|
    ensures Fits(st, |rows|)
  {
    Fold(rows, ratio, th, AllPairs(|rows|), FuzzyInit(refSku, refItem))
  }

  // ---- one step ----

  /**
   * One step changes only row `p.1`; `manual_review` only goes from false to true; a reference
   * already set is never changed; and a score below the removal threshold (the review branch
   * included) leaves both reference columns alone.
   */
  lemma PairStepEffects(rows: seq<Record>, ratio: Ratio, th: Thresholds, st: FuzzyState, p: Pair)
    requires Fits(st, |rows|) && p.0 < |rows| && p.1 < |rows|
    ensures var r := PairStep(rows, ratio, th, st, p);
      (forall j :: 0 <= j < |rows| && j != p.1 ==>
         r.refSku[j] == st.refSku[j] && r.refItem[j] == st.refItem[j] && r.review[j] == st.review[j]) &&
      (forall j :: 0 <= j < |rows| && st.review[j] ==> r.review[j]) &&
      (forall j :: 0 <= j < |rows| && !(st.refSku[j].None? && st.refItem[j].None?) ==>
         r.refSku[j] == st.refSku[j] && r.refItem[j] == st.refItem[j]) &&
      (!IsRemoval(rows, ratio, th, p.0, p.1) ==> r.refSku == st.refSku && r.refItem == st.refItem)
  {
  }

  // ---- the report ----

  /** The reported pairs of `ps`, in order. */
  function Qualifying(rows: seq<Record>, ratio: Ratio, th: Thresholds, ps: seq<Pair>): (qs: seq<Pair>)
    requires InRange(ps, |rows|)
    ensures InRange(qs, |rows|) && |qs| <= |ps|
    decreases |ps|
  {
    if ps == [] then []
    else
      var last := ps[|ps| - 1];
      Qualifying(rows, ratio, th, ps[..|ps| - 1]) +
        (if IsReported(rows, ratio, th, last.0, last.1) then [last] else [])
  }

  function Candidates(rows: seq<Record>, ratio: Ratio, ps: seq<Pair>): (cs: seq<Candidate>)
    requires InRange(ps, |rows|)
  {
    seq(|ps|, k requires 0 <= k < |ps| => CandidateOf(rows, ratio, ps[k]))
  }

  /** The report gains exactly one candidate per reported pair, in processing order. */
  lemma {:induction false} FoldReport(rows: seq<Record>, ratio: Ratio, th: Thresholds, ps: seq<Pair>, init: FuzzyState)
    requires Fits(init, |rows|) && InRange(ps, |rows|)
    ensures Fold(rows, ratio, th, ps, init).report == init.report + Candidates(rows, ratio, Qualifying(rows, ratio, th, ps))
    decreases |ps|
  {
    if ps != [] {
      var front, last := ps[..|ps| - 1], ps[|ps| - 1];
      FoldReport(rows, ratio, th, front, init);
      var q := Qualifying(rows, ratio, th, front);
      if IsReported(rows, ratio, th, last.0, last.1) {
        assert Candidates(rows, ratio, q + [last]) == Candidates(rows, ratio, q) + [CandidateOf(rows, ratio, last)];
      }
    }
  }

  lemma {:induction false} QualifyingMembers(rows: seq<Record>, ratio: Ratio, th: Thresholds, ps: seq<Pair>, p: Pair)
    requires InRange(ps, |rows|)
    ensures p in Qualifying(rows, ratio, th, ps) <==>
      p in ps && p.0 < |rows| && p.1 < |rows| && IsReported(rows, ratio, th, p.0, p.1)
    decreases |ps|
  {
    if ps != [] {
      var front := ps[..|ps| - 1];
      QualifyingMembers(rows, ratio, th, front, p);
      assert ps == front + [ps[|ps| - 1]];
    }
  }

  predicate LexLess(p: Pair, q: Pair)
  {
    p.0 < q.0 || (p.0 == q.0 && p.1 < q.1)
  }

  /** Strictly increasing in lexicographic order (so also free of repetitions). */
  predicate LexSorted(ps: seq<Pair>)
  {
    forall a, b :: 0 <= a < b < |ps| ==> LexLess(ps[a], ps[b])
  }

  lemma {:induction false} QualifyingSorted(rows: seq<Record>, ratio: Ratio, th: Thresholds, ps: seq<Pair>)
    requires InRange(ps, |rows|) && LexSorted(ps)
    ensures LexSorted(Qualifying(rows, ratio, th, ps))
    decreases |ps|
  {
    if ps != [] {
      var front, last := ps[..|ps| - 1], ps[|ps| - 1];
      QualifyingSorted(rows, ratio, th, front);
      var q := Qualifying(rows, ratio, th, front);
      forall a | 0 <= a < |q| ensures LexLess(q[a], last) {
        QualifyingMembers(rows, ratio, th, front, q[a]);
        var b :| 0 <= b < |front| && front[b] == q[a];
      }
    }
  }

  // ---- the enumeration of pairs ----

  lemma RowPairsMembers(i: nat, m: nat, p: Pair)
    ensures p in RowPairs(i, m) <==> p.0 == i && i < p.1 < m
  {
    if p.0 == i && i < p.1 < m {
      assert RowPairs(i, m)[p.1 - i - 1] == p;
    }
  }

  lemma {:induction false} PairsBeforeMembers(n: nat, k: nat, p: Pair)
    requires k <= n
    ensures p in PairsBefore(n, k) <==> p.0 < k && p.0 < p.1 < n
    decreases k
  {
    if k > 0 {
      PairsBeforeMembers(n, k - 1, p);
      RowPairsMembers(k - 1, n, p);
    }
  }

  /** The two loops visit exactly the pairs i < j < n ... */
  lemma AllPairsMembers(n: nat, p: Pair)
    ensures p in AllPairs(n) <==> p.0 < p.1 < n
  {
    PairsBeforeMembers(n, n, p);
  }

  lemma {:induction false} PairsBeforeSorted(n: nat, k: nat)
    requires k <= n
    ensures LexSorted(PairsBefore(n, k))
    decreases k
  {
    if k > 0 {
      PairsBeforeSorted(n, k - 1);
      var a, b := PairsBefore(n, k - 1), RowPairs(k - 1, n);
      assert forall x, y :: 0 <= x < |a| && 0 <= y < |b| ==> LexLess(a[x], b[y]);
      var ab := a + b;
      forall x, y | 0 <= x < y < |ab| ensures LexLess(ab[x], ab[y]) {
        if y < |a| {
        } else if x >= |a| {
          assert ab[x] == b[x - |a|] && ab[y] == b[y - |a|];
        } else {
          assert ab[x] == a[x] && ab[y] == b[y - |a|];
        }
      }
    }
  }

  /** ... in strictly increasing lexicographic order ... */
  lemma AllPairsSorted(n: nat)
    ensures LexSorted(AllPairs(n))
  {
    PairsBeforeSorted(n, n);
  }

  /** The arithmetic of one outer-loop turn: (k-1)(2n-k) + 2(n-k) = k(2n-k-1). */
  lemma CountStep(n: int, k: int)
    ensures (k - 1) * (2 * n - k) + 2 * (n - k) == k * (2 * n - k - 1)
  {
    assert (k - 1) * (2 * n - k) == k * (2 * n - k) - (2 * n - k);
    assert k * (2 * n - k - 1) == k * (2 * n - k) - k;
  }

  lemma {:induction false} PairsBeforeCount(n: nat, k: nat)
    requires k <= n
    ensures 2 * |PairsBefore(n, k)| == k * (2 * n - k - 1)
    decreases k
  {
    if k > 0 {
      var m: nat := k - 1;
      PairsBeforeCount(n, m);
      assert |PairsBefore(n, k)| == |PairsBefore(n, m)| + |RowPairs(m, n)|;
      assert |RowPairs(m, n)| == n - k;
      CountStep(n, k);
    }
  }

  /** ... and there are n(n-1)/2 of them. */
  lemma AllPairsCount(n: nat)
    ensures 2 * |AllPairs(n)| == n * (n - 1)
  {
    PairsBeforeCount(n, n);
  }

  // ---- the review flag ----

  /** A row is flagged after `ps` exactly when it was flagged before or some pair of `ps` ending at it is in the review band. */
  lemma {:induction false} FoldReview(rows: seq<Record>, ratio: Ratio, th: Thresholds, ps: seq<Pair>, init: FuzzyState, j: nat)
    requires Fits(init, |rows|) && InRange(ps, |rows|) && j < |rows|
    ensures Fold(rows, ratio, th, ps, init).review[j] <==>
      init.review[j] || exists i :: i < |rows| && (i, j) in ps && IsReview(rows, ratio, th, i, j)
    decreases |ps|
  {
    if ps != [] {
      var front, last := ps[..|ps| - 1], ps[|ps| - 1];
      FoldReview(rows, ratio, th, front, init, j);
      assert ps == front + [last];
      if last.1 == j && IsReview(rows, ratio, th, last.0, j) {
        assert (last.0, j) in ps;
      }
    }
  }

  // ---- the references ----

  /** The first pair of `ps`, in order, that ends at `j` and reaches the removal threshold: its first row. */
  function FirstHit(rows: seq<Record>, ratio: Ratio, th: Thresholds, ps: seq<Pair>, j: nat): (r: Option<nat>)
    requires InRange(ps, |rows|) && j < |rows|
    ensures r.Some? ==> r.value < |rows| && (r.value, j) in ps && IsRemoval(rows, ratio, th, r.value, j)
    decreases |ps|
  {
    if ps == [] then None
    else
      var front, last := ps[..|ps| - 1], ps[|ps| - 1];
      var prev := FirstHit(rows, ratio, th, front, j);
      if prev.Some? then (assert front <= ps; prev)
      else if last.1 == j && IsRemoval(rows, ratio, th, last.0, j) then Some(last.0)
      else None
  }

  function SkuOf(rows: seq<Record>, o: Option<nat>): Option<Value>
    requires o.Some? ==> o.value < |rows|
  {
    match o
    case Some(i) => Some(rows[i].skuId)
    case None => None
  }

  function ItemOf(rows: seq<Record>, o: Option<nat>): Option<Value>
    requires o.Some? ==> o.value < |rows|
  {
    match o
    case Some(i) => Some(rows[i].itemCode)
    case None => None
  }

  /**
   * After `ps`, a row that had a reference keeps it; a row that had none references the
   * first row of the first pair that reached the removal threshold, or still has none.
   */
  lemma {:induction false} FoldRefs(rows: seq<Record>, ratio: Ratio, th: Thresholds, ps: seq<Pair>, init: FuzzyState, j: nat)
    requires Fits(init, |rows|) && InRange(ps, |rows|) && j < |rows|
    ensures var st := Fold(rows, ratio, th, ps, init);
      if init.refSku[j].None? && init.refItem[j].None? then
        st.refSku[j] == SkuOf(rows, FirstHit(rows, ratio, th, ps, j)) &&
        st.refItem[j] == ItemOf(rows, FirstHit(rows, ratio, th, ps, j))
      else
        st.refSku[j] == init.refSku[j] && st.refItem[j] == init.refItem[j]
    decreases |ps|
  {
    if ps != [] {
      var front := ps[..|ps| - 1];
      FoldRefs(rows, ratio, th, front, init, j);
    }
  }

  /** The smallest i < k whose pair (i, j) reaches the removal threshold. */
  function FirstRemoval(rows: seq<Record>, ratio: Ratio, th: Thresholds, j: nat, k: nat): (r: Option<nat>)
    requires j < |rows| && k <= |rows|
    ensures r.Some? ==> r.value < k && IsRemoval(rows, ratio, th, r.value, j)
    ensures r.Some? ==> forall i :: 0 <= i < r.value ==> !IsRemoval(rows, ratio, th, i, j)
    ensures r.None? ==> forall i :: 0 <= i < k ==> !IsRemoval(rows, ratio, th, i, j)
    decreases k
  {
    if k == 0 then None
    else
      var prev := FirstRemoval(rows, ratio, th, j, k - 1);
      if prev.Some? then prev
      else if IsRemoval(rows, ratio, th, k - 1, j) then Some(k - 1)
      else None
  }

  lemma {:induction false} FirstHitConcat(rows: seq<Record>, ratio: Ratio, th: Thresholds, a: seq<Pair>, b: seq<Pair>, j: nat)
    requires InRange(a, |rows|) && InRange(b, |rows|) && j < |rows|
    ensures InRange(a + b, |rows|)
    ensures FirstHit(rows, ratio, th, a + b, j) ==
      if FirstHit(rows, ratio, th, a, j).Some? then FirstHit(rows, ratio, th, a, j) else FirstHit(rows, ratio, th, b, j)
    decreases |b|
  {
    if b == [] {
      assert a + b == a;
    } else {
      var front := b[..|b| - 1];
      FirstHitConcat(rows, ratio, th, a, front, j);
      assert (a + b)[..|a + b| - 1] == a + front;
    }
  }

  lemma {:induction false} FirstHitRow(rows: seq<Record>, ratio: Ratio, th: Thresholds, i: nat, m: nat, j: nat)
    requires i < |rows| && m <= |rows| && j < |rows|
    ensures InRange(RowPairs(i, m), |rows|)
    ensures FirstHit(rows, ratio, th, RowPairs(i, m), j) ==
      if i < j < m && IsRemoval(rows, ratio, th, i, j) then Some(i) else None
    decreases m
  {
    if m > i + 1 {
      FirstHitRow(rows, ratio, th, i, m - 1, j);
      assert RowPairs(i, m)[..|RowPairs(i, m)| - 1] == RowPairs(i, m - 1);
    }
  }

  lemma {:induction false} FirstHitPairsBefore(rows: seq<Record>, ratio: Ratio, th: Thresholds, k: nat, j: nat)
    requires k <= |rows| && j < |rows|
    ensures InRange(PairsBefore(|rows|, k), |rows|)
    ensures FirstHit(rows, ratio, th, PairsBefore(|rows|, k), j) ==
      FirstRemoval(rows, ratio, th, j, if k < j then k else j)
    decreases k
  {
    if k > 0 {
      var i: nat := k - 1;
      var front, row := PairsBefore(|rows|, i), RowPairs(i, |rows|);
      assert PairsBefore(|rows|, k) == front + row;
      FirstHitPairsBefore(rows, ratio, th, i, j);
      FirstHitRow(rows, ratio, th, i, |rows|, j);
      FirstHitConcat(rows, ratio, th, front, row, j);
      if k <= j {
        assert FirstRemoval(rows, ratio, th, j, k) ==
          if FirstRemoval(rows, ratio, th, j, i).Some? then FirstRemoval(rows, ratio, th, j, i)
          else if IsRemoval(rows, ratio, th, i, j) then Some(i) else None;
      } else {
        assert FirstHit(rows, ratio, th, row, j) == None;
      }
    }
  }

  // ---- the whole classification ----

  /** A reference already set on entry, by the exact pass, is never changed. */
  lemma FuzzyKeepsSetReferences(rows: seq<Record>, ratio: Ratio, th: Thresholds,
                                refSku: seq<Option<Value>>, refItem: seq<Option<Value>>, j: nat)
    requires |refSku| == |rows| && |refItem| == |rows| && j < |rows|
    requires !(refSku[j].None? && refItem[j].None?)
    ensures FuzzyOutcome(rows, ratio, th, refSku, refItem).refSku[j] == refSku[j]
    ensures FuzzyOutcome(rows, ratio, th, refSku, refItem).refItem[j] == refItem[j]
  {
    FoldRefs(rows, ratio, th, AllPairs(|rows|), FuzzyInit(refSku, refItem), j);
  }

  lemma UnsetRowOutcome(rows: seq<Record>, ratio: Ratio, th: Thresholds,
                        refSku: seq<Option<Value>>, refItem: seq<Option<Value>>, j: nat)
    requires |refSku| == |rows| && |refItem| == |rows| && j < |rows|
    requires refSku[j].None? && refItem[j].None?
    ensures var st := FuzzyOutcome(rows, ratio, th, refSku, refItem);
      var first := FirstRemoval(rows, ratio, th, j, j);
      st.refSku[j] == SkuOf(rows, first) && st.refItem[j] == ItemOf(rows, first)
  {
    FoldRefs(rows, ratio, th, AllPairs(|rows|), FuzzyInit(refSku, refItem), j);
    FirstHitPairsBefore(rows, ratio, th, |rows|, j);
  }

  /**
   * First match wins: a row without a reference on entry ends up referencing the smallest
   * earlier row whose pair with it reaches the removal threshold, whatever later pairs score.
   */
  lemma FuzzyLinksToFirstMatch(rows: seq<Record>, ratio: Ratio, th: Thresholds,
                               refSku: seq<Option<Value>>, refItem: seq<Option<Value>>, i: nat, j: nat)
    requires |refSku| == |rows| && |refItem| == |rows| && i < j < |rows|
    requires refSku[j].None? && refItem[j].None?
    requires IsRemoval(rows, ratio, th, i, j)
    requires forall i' :: 0 <= i' < i ==> !IsRemoval(rows, ratio, th, i', j)
    ensures FuzzyOutcome(rows, ratio, th, refSku, refItem).refSku[j] == Some(rows[i].skuId)
    ensures FuzzyOutcome(rows, ratio, th, refSku, refItem).refItem[j] == Some(rows[i].itemCode)
  {
    UnsetRowOutcome(rows, ratio, th, refSku, refItem, j);
    var first := FirstRemoval(rows, ratio, th, j, j);
    assert first == Some(i) by {
      if first.Some? {
        assert !(first.value < i) && !(i < first.value);
      }
    }
  }

  /** A row without a reference on entry and without any earlier pair at the removal threshold stays unreferenced. */
  lemma FuzzyNoMatchNoLink(rows: seq<Record>, ratio: Ratio, th: Thresholds,
                           refSku: seq<Option<Value>>, refItem: seq<Option<Value>>, j: nat)
    requires |refSku| == |rows| && |refItem| == |rows| && j < |rows|
    requires refSku[j].None? && refItem[j].None?
    requires forall i :: 0 <= i < j ==> !IsRemoval(rows, ratio, th, i, j)
    ensures FuzzyOutcome(rows, ratio, th, refSku, refItem).refSku[j] == None
    ensures FuzzyOutcome(rows, ratio, th, refSku, refItem).refItem[j] == None
  {
    UnsetRowOutcome(rows, ratio, th, refSku, refItem, j);
  }

  /** `manual_review[j]` ends up true exactly when some earlier row's pair with j lies in the review band. */
  lemma FuzzyReviewFlag(rows: seq<Record>, ratio: Ratio, th: Thresholds,
                        refSku: seq<Option<Value>>, refItem: seq<Option<Value>>, j: nat)
    requires |refSku| == |rows| && |refItem| == |rows| && j < |rows|
    ensures FuzzyOutcome(rows, ratio, th, refSku, refItem).review[j] <==>
      exists i :: 0 <= i < j && IsReview(rows, ratio, th, i, j)
  {
    var n := |rows|;
    FoldReview(rows, ratio, th, AllPairs(n), FuzzyInit(refSku, refItem), j);
    if exists i :: 0 <= i < j && IsReview(rows, ratio, th, i, j) {
      var i :| 0 <= i < j && IsReview(rows, ratio, th, i, j);
      AllPairsMembers(n, (i, j));
    }
    if exists i :: i < n && (i, j) in AllPairs(n) && IsReview(rows, ratio, th, i, j) {
      var i :| i < n && (i, j) in AllPairs(n) && IsReview(rows, ratio, th, i, j);
      AllPairsMembers(n, (i, j));
    }
  }

  /** With the review threshold at or above the removal threshold the review band is empty: no row is flagged. */
  lemma FuzzyNoReviewWhenInverted(rows: seq<Record>, ratio: Ratio, th: Thresholds,
                                  refSku: seq<Option<Value>>, refItem: seq<Option<Value>>, j: nat)
    requires |refSku| == |rows| && |refItem| == |rows| && j < |rows|
    requires th.review >= th.removal
    ensures !FuzzyOutcome(rows, ratio, th, refSku, refItem).review[j]
  {
    FuzzyReviewFlag(rows, ratio, th, refSku, refItem, j);
  }

  /**
   * `potential_duplicates` holds one entry `(Sku_ID_i, Sku_ID_j, score)` per pair i < j whose
   * score reaches either threshold, and no other, in lexicographic (i, j) order; so it has at
   * most n(n-1)/2 entries.
   */
  lemma FuzzyReport(rows: seq<Record>, ratio: Ratio, th: Thresholds,
                    refSku: seq<Option<Value>>, refItem: seq<Option<Value>>)
    requires |refSku| == |rows| && |refItem| == |rows|
    ensures var qs := Qualifying(rows, ratio, th, AllPairs(|rows|));
      FuzzyOutcome(rows, ratio, th, refSku, refItem).report == Candidates(rows, ratio, qs) &&
      (forall p :: p in qs <==> p.0 < p.1 < |rows| && IsReported(rows, ratio, th, p.0, p.1)) &&
      LexSorted(qs) &&
      2 * |FuzzyOutcome(rows, ratio, th, refSku, refItem).report| <= |rows| * (|rows| - 1)
  {
    var n := |rows|;
    var ps := AllPairs(n);
    var qs := Qualifying(rows, ratio, th, ps);
    var report := FuzzyOutcome(rows, ratio, th, refSku, refItem).report;
    assert report == Candidates(rows, ratio, qs) by {
      FoldReport(rows, ratio, th, ps, FuzzyInit(refSku, refItem));
    }
    forall p: Pair ensures p in qs <==> p.0 < p.1 < n && IsReported(rows, ratio, th, p.0, p.1) {
      QualifyingMembers(rows, ratio, th, ps, p);
      AllPairsMembers(n, p);
    }
    assert LexSorted(qs) by {
      AllPairsSorted(n);
      QualifyingSorted(rows, ratio, th, ps);
    }
    assert 2 * |report| <= n * (n - 1) by {
      AllPairsCount(n);
      assert |report| == |qs| <= |ps|;
    }
  }

  /** Reference columns whose cells are both empty or both set to the ids of one earlier row. */
  ghost predicate RefsPointBack(rows: seq<Record>, refSku: seq<Option<Value>>, refItem: seq<Option<Value>>)
    requires |refSku| == |rows| && |refItem| == |rows|
  {
    forall j :: 0 <= j < |rows| ==>
      (refSku[j].None? <==> refItem[j].None?) &&
      (refSku[j].Some? ==> exists i :: 0 <= i < j && refSku[j] == Some(rows[i].skuId) && refItem[j] == Some(rows[i].itemCode))
  }

  /** The classification keeps references pointing strictly backwards, both cells together. */
  lemma FuzzyKeepsRefsPointingBack(rows: seq<Record>, ratio: Ratio, th: Thresholds,
                                   refSku: seq<Option<Value>>, refItem: seq<Option<Value>>)
    requires |refSku| == |rows| && |refItem| == |rows|
    requires RefsPointBack(rows, refSku, refItem)
    ensures var st := FuzzyOutcome(rows, ratio, th, refSku, refItem);
      RefsPointBack(rows, st.refSku, st.refItem)
  {
    var st := FuzzyOutcome(rows, ratio, th, refSku, refItem);
    forall j | 0 <= j < |rows|
      ensures st.refSku[j].None? <==> st.refItem[j].None?
      ensures st.refSku[j].Some? ==>
        exists i :: 0 <= i < j && st.refSku[j] == Some(rows[i].skuId) && st.refItem[j] == Some(rows[i].itemCode)
    {
      if refSku[j].None? && refItem[j].None? {
        UnsetRowOutcome(rows, ratio, th, refSku, refItem, j);
      } else {
        FuzzyKeepsSetReferences(rows, ratio, th, refSku, refItem, j);
      }
    }
  }

  /**
   * Three unreferenced rows A, B, C where only (A, B) reaches the removal threshold and
   * neither pair with C reaches the review one: B references A, C is untouched, and the
   * report holds (A, B) alone.
   */
  lemma ThreeRowScenario(rows: seq<Record>, ratio: Ratio, th: Thresholds)
    requires |rows| == 3
    requires IsRemoval(rows, ratio, th, 0, 1)
    requires !IsReported(rows, ratio, th, 0, 2) && !IsReported(rows, ratio, th, 1, 2)
    ensures var st := FuzzyOutcome(rows, ratio, th, [None, None, None], [None, None, None]);
      st.refSku == [None, Some(rows[0].skuId), None] &&
      st.refItem == [None, Some(rows[0].itemCode), None] &&
      st.review == [false, false, false] &&
      st.report == [Candidate(rows[0].skuId, rows[1].skuId, Score(rows, ratio, 0, 1))]
  {
    var ps := AllPairs(3);
    assert RowPairs(0, 3) == [(0, 1), (0, 2)];
    assert RowPairs(1, 3) == [(1, 2)];
    assert RowPairs(2, 3) == [];
    assert ps == [(0, 1), (0, 2), (1, 2)];
    var init := FuzzyInit([None, None, None], [None, None, None]);
    var s1 := PairStep(rows, ratio, th, init, (0, 1));
    assert s1 == FuzzyState([None, Some(rows[0].skuId), None], [None, Some(rows[0].itemCode), None],
                            [false, false, false],
                            [Candidate(rows[0].skuId, rows[1].skuId, Score(rows, ratio, 0, 1))]);
    var s2 := PairStep(rows, ratio, th, s1, (0, 2));
    var s3 := PairStep(rows, ratio, th, s2, (1, 2));
    assert s2 == s1;
    assert s3 == s1;
    FoldSnoc(rows, ratio, th, [], (0, 1), init);
    FoldSnoc(rows, ratio, th, [(0, 1)], (0, 2), init);
    FoldSnoc(rows, ratio, th, [(0, 1), (0, 2)], (1, 2), init);
    assert [(0, 1)] + [(0, 2)] == [(0, 1), (0, 2)];
    assert [(0, 1), (0, 2)] + [(1, 2)] == ps;
    assert FuzzyOutcome(rows, ratio, th, [None, None, None], [None, None, None]) == s3;
  }

  /** The body of the inner loop: score the pair (i, j) and act on the score. */
  method ClassifyPair(rows: seq<Record>, ratio: Ratio, th: Thresholds,
                      refSku: array<Option<Value>>, refItem: array<Option<Value>>,
                      manualReview: array<bool>, potential: seq<Candidate>, i: nat, j: nat)
    returns (potential': seq<Candidate>)
    requires refSku.Length == |rows| && refItem.Length == |rows| && manualReview.Length == |rows|
    requires refSku != refItem && i < |rows| && j < |rows|
    modifies refSku, refItem, manualReview
    ensures FuzzyState(refSku[..], refItem[..], manualReview[..], potential')
            == PairStep(rows, ratio, th,
                        FuzzyState(old(refSku[..]), old(refItem[..]), old(manualReview[..]), potential), (i, j))
  {
    potential' := potential;
    var score := CompareAttributes(rows[i], rows[j], ratio);
    if score >= 4 * th.removal {
      if refSku[j].None? && refItem[j].None? {
        refSku[j] := Some(rows[i].skuId);
        refItem[j] := Some(rows[i].itemCode);
      }
      potential' := potential' + [Candidate(rows[i].skuId, rows[j].skuId, score)];
    } else if score >= 4 * th.review {
      manualReview[j] := true;
      potential' := potential' + [Candidate(rows[i].skuId, rows[j].skuId, score)];
    }
  }

  /** The pairs the two loops have visited when the inner loop of row i reaches j. */
  function Visited(n: nat, i: nat, j: nat): (ps: seq<Pair>)
    requires i < n && j <= n
    ensures InRange(ps, n)
  {
    PairsBefore(n, i) + RowPairs(i, j)
  }

  lemma VisitedRowEnd(n: nat, i: nat)
    requires i < n
    ensures Visited(n, i, n) == PairsBefore(n, i + 1)
  {
  }

  lemma FoldVisitedStep(rows: seq<Record>, ratio: Ratio, th: Thresholds, i: nat, j: nat, init: FuzzyState)
    requires i < j < |rows| && Fits(init, |rows|)
    ensures Fold(rows, ratio, th, Visited(|rows|, i, j + 1), init)
            == PairStep(rows, ratio, th, Fold(rows, ratio, th, Visited(|rows|, i, j), init), (i, j))
  {
    var ps := Visited(|rows|, i, j);
    FoldSnoc(rows, ratio, th, ps, (i, j), init);
    assert RowPairs(i, j + 1) == RowPairs(i, j) + [(i, j)];
    assert Visited(|rows|, i, j + 1) == ps + [(i, j)];
  }

  /** The inner loop's pairs (i, i + 1), ..., (i, j - 1), applied one by one to `st`. */
  function RowFold(rows: seq<Record>, ratio: Ratio, th: Thresholds, st: FuzzyState, i: nat, j: nat): (r: FuzzyState)
    requires Fits(st, |rows|) && i < |rows| && j <= |rows|
    ensures Fits(r, |rows|)
    decreases j
  {
    if j <= i + 1 then st else PairStep(rows, ratio, th, RowFold(rows, ratio, th, st, i, j - 1), (i, j - 1))
  }

  /** Folding the visited pairs is folding the earlier rows, then this row's pairs. */
  lemma {:induction false} FoldVisited(rows: seq<Record>, ratio: Ratio, th: Thresholds, i: nat, j: nat, init: FuzzyState)
    requires i < |rows| && j <= |rows| && Fits(init, |rows|)
    ensures Fold(rows, ratio, th, Visited(|rows|, i, j), init)
            == RowFold(rows, ratio, th, Fold(rows, ratio, th, PairsBefore(|rows|, i), init), i, j)
    decreases j
  {
    var start := Fold(rows, ratio, th, PairsBefore(|rows|, i), init);
    if j <= i + 1 {
      assert RowPairs(i, j) == [];
      assert Visited(|rows|, i, j) == PairsBefore(|rows|, i);
    } else {
      var m: nat := j - 1;
      assert RowFold(rows, ratio, th, start, i, j) == PairStep(rows, ratio, th, RowFold(rows, ratio, th, start, i, m), (i, m));
      FoldVisited(rows, ratio, th, i, m, init);
      FoldVisitedStep(rows, ratio, th, i, m, init);
    }
  }

  /** One turn of the outer loop: the pairs of row i, after those of the rows before it. */
  lemma FoldNextRow(rows: seq<Record>, ratio: Ratio, th: Thresholds, i: nat, init: FuzzyState)
    requires i < |rows| && Fits(init, |rows|)
    ensures Fold(rows, ratio, th, PairsBefore(|rows|, i + 1), init)
            == RowFold(rows, ratio, th, Fold(rows, ratio, th, PairsBefore(|rows|, i), init), i, |rows|)
  {
    FoldVisited(rows, ratio, th, i, |rows|, init);
    VisitedRowEnd(|rows|, i);
  }

  /** The outer loop's first i rows, each row's pairs applied with `RowFold`. */
  function OuterFold(rows: seq<Record>, ratio: Ratio, th: Thresholds, st: FuzzyState, i: nat): (r: FuzzyState)
    requires Fits(st, |rows|) && i <= |rows|
    ensures Fits(r, |rows|)
    decreases i
  {
    if i == 0 then st else RowFold(rows, ratio, th, OuterFold(rows, ratio, th, st, i - 1), i - 1, |rows|)
  }

  /** Row by row, the outer loop processes exactly the pairs of `PairsBefore`, in order. */
  lemma {:induction false} OuterFoldIsFold(rows: seq<Record>, ratio: Ratio, th: Thresholds, i: nat, init: FuzzyState)
    requires i <= |rows| && Fits(init, |rows|)
    ensures OuterFold(rows, ratio, th, init, i) == Fold(rows, ratio, th, PairsBefore(|rows|, i), init)
    decreases i
  {
    if i > 0 {
      var m: nat := i - 1;
      assert OuterFold(rows, ratio, th, init, i) == RowFold(rows, ratio, th, OuterFold(rows, ratio, th, init, m), m, |rows|);
      OuterFoldIsFold(rows, ratio, th, m, init);
      FoldNextRow(rows, ratio, th, m, init);
    }
  }

  /** The inner loop for one row i: every pair (i, j) with i < j, in increasing j. */
  method ClassifyRow(rows: seq<Record>, ratio: Ratio, th: Thresholds,
                     refSku: array<Option<Value>>, refItem: array<Option<Value>>,
                     manualReview: array<bool>, potential: seq<Candidate>, i: nat)
    returns (potential': seq<Candidate>)
    requires refSku.Length == |rows| && refItem.Length == |rows| && manualReview.Length == |rows|
    requires refSku != refItem && i < |rows|
    modifies refSku, refItem, manualReview
    ensures FuzzyState(refSku[..], refItem[..], manualReview[..], potential')
            == RowFold(rows, ratio, th, FuzzyState(old(refSku[..]), old(refItem[..]), old(manualReview[..]), potential),
                       i, |rows|)
  {
    ghost var st0 := FuzzyState(refSku[..], refItem[..], manualReview[..], potential);
    potential' := potential;
    var j := i + 1;
    while j < |rows|
      invariant i + 1 <= j <= |rows|
      invariant FuzzyState(refSku[..], refItem[..], manualReview[..], potential')
                == RowFold(rows, ratio, th, st0, i, j)
    {
      potential' := ClassifyPair(rows, ratio, th, refSku, refItem, manualReview, potential', i, j);
      j := j + 1;
    }
  }

  /** `df['manual_review'] = False`. */
  method ClearFlags(a: array<bool>)
    modifies a
    ensures a[..] == seq(a.Length, _ => false)
  {
    var k := 0;
    while k < a.Length
      invariant 0 <= k <= a.Length
      invariant forall q :: 0 <= q < k ==> !a[q]
    {
      a[k] := false;
      k := k + 1;
    }
  }

  /** The pass itself, over the reference and review columns; returns `potential_duplicates`. */
  method IdentifyFuzzyDuplicates(rows: seq<Record>, ratio: Ratio, th: Thresholds,
                                 refSku: array<Option<Value>>, refItem: array<Option<Value>>,
                                 manualReview: array<bool>)
    returns (potential: seq<Candidate>)
    requires refSku.Length == |rows| && refItem.Length == |rows| && manualReview.Length == |rows|
    requires refSku != refItem
    modifies refSku, refItem, manualReview
    ensures FuzzyState(refSku[..], refItem[..], manualReview[..], potential)
            == FuzzyOutcome(rows, ratio, th, old(refSku[..]), old(refItem[..]))
  {
    var n := |rows|;
    ghost var init := FuzzyInit(refSku[..], refItem[..]);
    ClearFlags(manualReview);
    potential := [];
    assert FuzzyState(refSku[..], refItem[..], manualReview[..], potential) == init;
    var i := 0;
    while i < n
      invariant 0 <= i <= n
      invariant FuzzyState(refSku[..], refItem[..], manualReview[..], potential)
                == OuterFold(rows, ratio, th, init, i)
    {
      potential := ClassifyRow(rows, ratio, th, refSku, refItem, manualReview, potential, i);
      i := i + 1;
    }
    OuterFoldIsFold(rows, ratio, th, n, init);
  }
}
