/**
 * The orchestration in `main`: normalise, link exact duplicates, then classify fuzzy
 * duplicates with the default thresholds. Loading and saving the spreadsheet and
 * printing the report are left to the caller.
 */
module Dedup {
  import opened Values
  import opened Normalizer
  import opened Table
  import opened Scorer
  import opened ExactLinker
  import opened FuzzyClassifier

  /** `removal_threshold = 75`, `review_threshold = 50`. */
  const DefaultThresholds: Thresholds := Thresholds(75, 50)

  /** After both passes every reference pair is empty or names one strictly earlier row. */
  lemma DedupRefsPointBack(rows: seq<Record>, ratio: Ratio, th: Thresholds)
    ensures var exact := ExactLinks(rows);
      var st := FuzzyOutcome(rows, ratio, th, exact.refSku, exact.refItem);
      RefsPointBack(rows, st.refSku, st.refItem)
  {
    var exact := ExactLinks(rows);
    forall j | 0 <= j < |rows|
      ensures exact.refSku[j].None? <==> exact.refItem[j].None?
      ensures exact.refSku[j].Some? ==>
        exists i :: 0 <= i < j && exact.refSku[j] == Some(rows[i].skuId) && exact.refItem[j] == Some(rows[i].itemCode)
    {
      ExactLinksShape(rows, j);
      if exact.refSku[j].Some? {
        var c: nat :| LinkedTo(rows, exact, j, c);
      }
    }
    FuzzyKeepsRefsPointingBack(rows, ratio, th, exact.refSku, exact.refItem);
  }

  /** An exact link is final: the fuzzy pass never replaces it. */
  lemma ExactLinksAreFinal(rows: seq<Record>, ratio: Ratio, th: Thresholds, j: nat)
    requires j < |rows| && ExactLinks(rows).refSku[j].Some?
    ensures var exact := ExactLinks(rows);
      var st := FuzzyOutcome(rows, ratio, th, exact.refSku, exact.refItem);
      st.refSku[j] == exact.refSku[j] && st.refItem[j] == exact.refItem[j]
  {
    var exact := ExactLinks(rows);
    FuzzyKeepsSetReferences(rows, ratio, th, exact.refSku, exact.refItem, j);
  }

  /**
   * With the default thresholds a fuzzy link needs both phonetic codes to agree, since
   * one phonetic match and two perfect ratios come to 65 points, below 75.
   */
  lemma DefaultRemovalNeedsPhoneticMatches(rows: seq<Record>, ratio: Ratio, i: nat, j: nat)
    requires i < |rows| && j < |rows|
    requires IsRemoval(rows, ratio, DefaultThresholds, i, j)
    ensures rows[i].phonSku == rows[j].phonSku && rows[i].phonDisplay == rows[j].phonDisplay
  {
    HighScoreNeedsBothPhoneticMatches(rows[i], rows[j], ratio, DefaultThresholds.removal);
  }

  /** `main` without the file and console I/O: the annotated columns and the duplicate report. */
  method Deduplicate(raws: seq<RawRecord>, metaphone: DoubleMetaphone, ratio: Ratio)
    returns (rows: seq<Record>, refSku: array<Option<Value>>, refItem: array<Option<Value>>,
             manualReview: array<bool>, report: seq<Candidate>)
    ensures rows == CleanAndNormalize(raws, metaphone)
    ensures fresh(refSku) && fresh(refItem) && fresh(manualReview)
    ensures refSku.Length == |rows| && refItem.Length == |rows| && manualReview.Length == |rows|
    ensures var exact := ExactLinks(rows);
      FuzzyState(refSku[..], refItem[..], manualReview[..], report)
      == FuzzyOutcome(rows, ratio, DefaultThresholds, exact.refSku, exact.refItem)
    ensures RefsPointBack(rows, refSku[..], refItem[..])
  {
    rows := CleanAndNormalize(raws, metaphone);
    refSku := new Option<Value>[|rows|](_ => None);
    refItem := new Option<Value>[|rows|](_ => None);
    AddRefIdsForExactDuplicates(rows, refSku, refItem);
    manualReview := new bool[|rows|](_ => false);
    report := IdentifyFuzzyDuplicates(rows, ratio, DefaultThresholds, refSku, refItem, manualReview);
    DedupRefsPointBack(rows, ratio, DefaultThresholds);
  }
}
