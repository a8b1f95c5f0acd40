/**
 * `compare_attributes`: a weighted similarity of two normalised rows. Scores are
 * kept in quarter-points (four times the Python value), so that `(sim / 100) * 25`
 * is the integer `sim` and the arithmetic is exact.
 */
module Scorer {
  import opened Table

  /** The range of `fuzz.ratio`. */
  type Percent = x: int | 0 <= x <= 100

  /** The `fuzz.ratio` library call, left abstract beyond its range. */
  type Ratio = (string, string) -> Percent

  /** The ceiling `min(score, 100)` in quarter-points. */
  const Ceiling: int := 400

  /** Quarter-points earned by equal phonetic codes: 15 points for each of the two columns. */
  function PhoneticBonus(a: Record, b: Record): int
  {
    (if a.phonSku == b.phonSku then 60 else 0) + (if a.phonDisplay == b.phonDisplay then 60 else 0)
  }

  /**
   * `compare_attributes` in quarter-points: 25% of each of the two ratios, 15 points
   * per phonetic match, then clamped. The score lies in [0, 320], that is [0, 80]
   * points; the two ratios move it at most 200 quarter-points off the phonetic bonus.
   */
  function CompareAttributes(a: Record, b: Record, ratio: Ratio): (score: int)
    ensures 0 <= score <= 320
    ensures PhoneticBonus(a, b) <= score <= PhoneticBonus(a, b) + 200
  {
    var total := ratio(a.normSku, b.normSku) + ratio(a.normDisplay, b.normDisplay) + PhoneticBonus(a, b);
    if total < Ceiling then total else Ceiling
  }

  /** The clamp `min(score, 100)` never changes the score: it is exactly the weighted sum. */
  lemma ClampNeverBinds(a: Record, b: Record, ratio: Ratio)
    ensures CompareAttributes(a, b, ratio)
            == ratio(a.normSku, b.normSku) + ratio(a.normDisplay, b.normDisplay) + PhoneticBonus(a, b)
    ensures CompareAttributes(a, b, ratio) < Ceiling
  {
  }

  /** With a symmetric ratio the score is symmetric. */
  lemma ScoreSymmetric(a: Record, b: Record, ratio: Ratio)
    requires forall x: string, y: string :: ratio(x, y) == ratio(y, x)
    ensures CompareAttributes(a, b, ratio) == CompareAttributes(b, a, ratio)
  {
    assert ratio(a.normSku, b.normSku) == ratio(b.normSku, a.normSku);
    assert ratio(a.normDisplay, b.normDisplay) == ratio(b.normDisplay, a.normDisplay);
  }

  /** Two empty phonetic codes compare equal and earn their 15 points. */
  lemma EmptyPhoneticCodesMatch(a: Record, b: Record, ratio: Ratio)
    requires a.phonSku == "" && b.phonSku == ""
    ensures CompareAttributes(a, b, ratio) >= 60
  {
  }

  /**
   * Reaching `4 * t` with t > 65 points needs both phonetic codes to agree, since one
   * phonetic match plus two perfect ratios is only 65 points; in particular the
   * default removal threshold of 75 can only be met through two phonetic matches.
   */
  lemma HighScoreNeedsBothPhoneticMatches(a: Record, b: Record, ratio: Ratio, t: int)
    requires t > 65 && CompareAttributes(a, b, ratio) >= 4 * t
    ensures a.phonSku == b.phonSku && a.phonDisplay == b.phonDisplay
  {
  }

  /** Without any phonetic match the score is at most 50 points. */
  lemma NoPhoneticMatchAtMostFifty(a: Record, b: Record, ratio: Ratio)
    requires a.phonSku != b.phonSku && a.phonDisplay != b.phonDisplay
    ensures CompareAttributes(a, b, ratio) <= 200
  {
  }
}
