# SKU duplicate resolution, modelled in Dafny

This project models the duplicate-resolution engine of a small SKU catalog deduplicator (`main.py`) and proves properties about it. The engine has five parts:

- The normaliser lower-cases each name and keeps only its letters and digits. The phonetic selector takes the primary double-metaphone code, or the secondary code when the primary is empty.
- `clean_and_normalize` derives the four normalised and phonetic columns from `Sku_Name` and `Display_Name`.
- The scorer (`compare_attributes`) adds 25% of each of two `fuzz.ratio` similarities, adds 15 points for each equal phonetic code, and clamps the total at 100.
- The exact-duplicate linker makes one forward pass. It keeps a single dictionary from keys to the first row registered under them. The keys are the normalised SKU name, the normalised display name and the item code, all in one key space. A row whose three keys are all new is registered under all of them. Any other row gets `ref_skuID`/`ref_ItemID` from the row found by its first present key, in that priority order.
- The fuzzy classifier visits every pair i < j in lexicographic order. A score at the removal threshold links j to i, but only if j has no reference yet. A score in the review band sets `manual_review[j]`. Both kinds of pair are appended to `potential_duplicates`.

Modules, one per component: `Values` (cell values, `Option`), `Normalizer`, `Table` (records and `clean_and_normalize`), `Scorer`, `ExactLinker`, `FuzzyClassifier` and `Dedup` (the composition in `main`).

How the model is built:

- **Specification functions for the two passes.** `ExactLinker.LinkUpTo` folds over the rows. `FuzzyClassifier.Fold` folds over an ordered list of pairs. The imperative passes are methods over arrays that are proved equal to these functions. The linker method keeps the dictionary as a `map<Value, nat>` from a key to the index of its canonical row. The classifier method writes the three mutable columns as arrays. All other properties are lemmas about the specification functions.
- **Scores in quarter-points.** Every score is four times the Python value, so `(sim / 100) * 25` becomes the integer `sim`. A threshold `t` in points is compared as `4 * t`, and report entries carry quarter-point scores.
- **Library calls as parameters.** `fuzz.ratio` is a parameter of type `Scorer.Ratio`. Its result type is the range 0..100, and nothing else is assumed about it. Symmetry of the ratio is a precondition of `ScoreSymmetric` only. `doublemetaphone` is a parameter of type `Normalizer.DoubleMetaphone`.
- **Cell values.** A cell is either `Text(s)` or `Number(n)`, where `Number(n)` stands for any non-string value. Dictionary keys are cells. So a textual item code can collide with a normalised name of an earlier row, as in the source, and a numeric one cannot.
- **Row index.** Row positions double as pandas labels. `main.py:91-99` mixes `df.iloc[i]` with `df.at[j, ...]`, and the two agree only for the default 0..n-1 index.
- **Table columns.** The table is an immutable `seq<Record>`. So the name and code columns are never modified by construction.

Behaviour of the code worth knowing:

- **Thresholds.** `identify_fuzzy_duplicates` (`main.py:83`) accepts any two thresholds and never checks `review < removal`. The model does not reject either. It proves that inverted thresholds flag no row (`FuzzyNoReviewWhenInverted`).
- **Transitivity.** Linking is not transitive. A linked row adds no key, so `ExactLinkingNotTransitive` exhibits two rows with the same normalised SKU name that the exact pass does not link.
- **The clamp.** The clamp `min(score, 100)` never changes the score. `ClampNeverBinds` proves the score equals the unclamped weighted sum, and the contract of `CompareAttributes` bounds it by 80 points.

## Model

| member | source | states |
|---|---|---|
| Normalizer.NormalizeText | main.py:10-13 | a non-string gives `''`; every output character is a lower-case letter or a digit; the output is no longer than the input |
| Normalizer.NormalizeIsSubsequenceOfLowered | main.py:12 | the output is an order-preserving subsequence of the lower-cased input |
| Normalizer.NormalizeFixedPoint | main.py:12 | a string is unchanged by normalisation exactly when it consists of lower-case letters and digits |
| Normalizer.NormalizeIdempotent | main.py:10-13 | normalising twice gives the same result as normalising once, for every input |
| Normalizer.NormalizeConcat | main.py:12 | normalisation distributes over concatenation: it works character by character |
| Normalizer.NormalizeOneChar | main.py:12 | one character is kept, lower-cased, exactly when it is a letter or a digit, and dropped otherwise |
| Normalizer.NormalizeIgnoresCase | main.py:12 | lower-casing the input first does not change the result |
| Normalizer.KeepAlnum | main.py:12 | the kept characters are alphanumeric and all come from the input |
| Normalizer.PhoneticEncode | main.py:16-20 | a non-string gives `''`; a non-empty primary code is the result, otherwise the secondary code; the result is empty exactly when both codes are |
| Table.CleanAndNormalize | main.py:23-32 | same rows in the same order with identifiers and names untouched; the derived columns are normalize/phonetic images of the names, and the normalised ones are fixed points of the normaliser |
| Scorer.CompareAttributes | main.py:35-52 | the score lies in [0, 80] points and within 50 points above the phonetic bonus (15 per equal code) |
| Scorer.ClampNeverBinds | main.py:52 | `min(score, 100)` never changes the value: the score equals the unclamped weighted sum |
| Scorer.ScoreSymmetric | main.py:39-50 | with a symmetric ratio, `score(a, b) == score(b, a)` |
| Scorer.EmptyPhoneticCodesMatch | main.py:47-48 | two empty phonetic codes compare equal and earn the 15 points |
| Scorer.HighScoreNeedsBothPhoneticMatches | main.py:38-50 | a score above 65 points needs both phonetic codes to agree |
| Scorer.NoPhoneticMatchAtMostFifty | main.py:38-50 | without any phonetic match the score is at most 50 points |
| ExactLinker.LinkRow | main.py:62-78 | one iteration writes only the current row's cells and keeps the dictionary pointing at visited rows |
| ExactLinker.LinkUpTo | main.py:56-78 | after k rows the columns have one cell per row and the dictionary maps only to the first k rows |
| ExactLinker.LinkInvHolds | main.py:56-78 | the pass keeps its invariant: unvisited rows are None, every key maps to a registered row having that key, registered rows own their keys, reference pairs are both-or-neither and point back |
| ExactLinker.LinkStable | main.py:60-78 | a row's reference cells are never written again once the pass has visited it |
| ExactLinker.ExactLinksShape | main.py:57-78 | after the pass a row's two reference cells are both None or both set, and when set they hold the ids of a strictly earlier, registered (unreferenced) row |
| ExactLinker.ExactFirstRowRegistered | main.py:60-78 | row 0 is always registered and never referenced |
| ExactLinker.RegisteredKeysDisjoint | main.py:75-78 | no key is shared by two registered rows |
| ExactLinker.CanonBeforeRow | main.py:62-78 | when row j is visited, the dictionary holds exactly the keys of the registered rows before j, each mapped to its owner |
| ExactLinker.ExactRowOutcome | main.py:66-78 | a row's final references are those of the row the dictionary gives when it is visited, or None |
| ExactLinker.LinkBySkuName | main.py:66-68 | a row whose normalised SKU name is a key of a registered earlier row references that row |
| ExactLinker.LinkByDisplayName | main.py:69-71 | failing that, the normalised display name decides |
| ExactLinker.LinkByItemCode | main.py:72-74 | failing both, the item code decides |
| ExactLinker.RegisteredIffKeysNew | main.py:75-78 | a row is registered exactly when none of its three keys belongs to an earlier registered row |
| ExactLinker.CanonNeverOverwritten | main.py:75-78 | an existing mapping is never overwritten; a linked row adds no key; a registered row adds exactly its own keys |
| ExactLinker.TwoRowsSameSkuName | main.py:66-68 | of two rows with the same normalised SKU name the later references the earlier, which stays unreferenced |
| ExactLinker.ExactLinkingNotTransitive | main.py:66-78 | a concrete table where B links to A by display name and C, sharing B's SKU name, is not linked |
| ExactLinker.RegisterEffect | main.py:75-78 | registering a row puts its three keys, mapped to it, into the dictionary and leaves every other entry as it was |
| ExactLinker.ClearColumn | main.py:57-58 | after the reset every cell of the column is None |
| ExactLinker.LinkRowInPlace | main.py:61-78 | the loop body on the arrays and the dictionary computes the specification's step for that row |
| ExactLinker.AddRefIdsForExactDuplicates | main.py:55-80 | the loop computes the specification's columns; reference pairs are both-or-neither and point to an earlier registered row |
| FuzzyClassifier.PairStep | main.py:91-99 | one inner-loop step keeps one cell per row in every column |
| FuzzyClassifier.Fold | main.py:89-99 | processing a list of pairs keeps one cell per row in every column |
| FuzzyClassifier.RowPairs | main.py:90 | the inner loop visits (i, i+1), ..., (i, j-1) in that order |
| FuzzyClassifier.PairsBefore | main.py:89-90 | the first k outer iterations visit only pairs with i < k and i < j < n |
| FuzzyClassifier.PairStepEffects | main.py:92-99 | one step changes only row j; manual_review only goes false to true; a set reference is never changed; below the removal threshold (the review branch included) the reference columns are untouched |
| FuzzyClassifier.FoldReport | main.py:92-99 | the report gains one candidate per reported pair, in processing order |
| FuzzyClassifier.QualifyingMembers | main.py:92-99 | a pair is reported exactly when it is processed and reaches the removal or the review threshold |
| FuzzyClassifier.QualifyingSorted | main.py:89-99 | filtering keeps lexicographic order |
| FuzzyClassifier.AllPairsMembers | main.py:89-90 | the two loops visit exactly the pairs i < j < n |
| FuzzyClassifier.AllPairsSorted | main.py:89-90 | the loops visit them in strictly increasing lexicographic order |
| FuzzyClassifier.AllPairsCount | main.py:89-90 | they visit n(n-1)/2 pairs |
| FuzzyClassifier.FoldReview | main.py:97-98 | after a list of pairs a row is flagged exactly when it was flagged before or one of its pairs lies in the review band |
| FuzzyClassifier.FirstHit | main.py:92-95 | the first pair, in order, that reaches the removal threshold for row j is a processed pair that reaches it |
| FuzzyClassifier.FoldRefs | main.py:92-95 | a set reference is kept; an unset one becomes the first row of the first qualifying pair, or stays None |
| FuzzyClassifier.FirstRemoval | main.py:92-95 | the smallest earlier row reaching the removal threshold with j, or None when there is none |
| FuzzyClassifier.FirstHitPairsBefore | main.py:89-95 | in visiting order, the first qualifying pair for j is the one with the smallest i |
| FuzzyClassifier.FuzzyKeepsSetReferences | main.py:93 | a reference set before the pass, by the exact linker, is never changed |
| FuzzyClassifier.UnsetRowOutcome | main.py:92-95 | an unreferenced row ends up with the ids of its first removal match, or None |
| FuzzyClassifier.FuzzyLinksToFirstMatch | main.py:92-95 | first match wins: an unreferenced row j references the smallest i < j with score >= removal threshold, even if a later pair scores higher |
| FuzzyClassifier.FuzzyNoMatchNoLink | main.py:92-95 | an unreferenced row with no earlier pair at the removal threshold stays None |
| FuzzyClassifier.FuzzyReviewFlag | main.py:86-98 | manual_review[j] holds exactly when some i < j scores at or above the review threshold and below the removal threshold |
| FuzzyClassifier.FuzzyNoReviewWhenInverted | main.py:92-98 | with review threshold >= removal threshold no row is flagged |
| FuzzyClassifier.FuzzyReport | main.py:87-101 | the report is (Sku_ID_i, Sku_ID_j, score) for exactly the pairs i < j reaching either threshold, in lexicographic order, with at most n(n-1)/2 entries |
| FuzzyClassifier.FuzzyKeepsRefsPointingBack | main.py:92-95 | if references are both-or-neither and point strictly backwards on entry, they still do at the end |
| FuzzyClassifier.ThreeRowScenario | main.py:89-99 | rows A, B, C with only (A, B) at the removal threshold: B references A, C is untouched, the report is [(A, B)] |
| FuzzyClassifier.ClassifyPair | main.py:91-99 | the loop body computes the specification's step on the arrays and the report |
| FuzzyClassifier.ClassifyRow | main.py:90-99 | the inner loop applies the steps for (i, i+1), ..., (i, n-1) in that order |
| FuzzyClassifier.FoldNextRow | main.py:89-90 | one outer iteration extends the processed pairs by exactly row i's pairs |
| FuzzyClassifier.OuterFoldIsFold | main.py:89-90 | running the inner loop for rows 0..i-1 in turn processes exactly the pairs with first index below i, in order |
| FuzzyClassifier.ClearFlags | main.py:86 | after the reset every manual_review flag is False |
| FuzzyClassifier.IdentifyFuzzyDuplicates | main.py:83-101 | the nested loops compute the specification's columns and report, starting from reset review flags |
| Dedup.DedupRefsPointBack | main.py:106-117 | after both passes every reference pair is both-or-neither and names one strictly earlier row |
| Dedup.ExactLinksAreFinal | main.py:107-117 | a link made by the exact pass survives the fuzzy pass |
| Dedup.DefaultRemovalNeedsPhoneticMatches | main.py:110-117 | with the default thresholds (75, 50) a fuzzy link requires both phonetic codes to agree |
| Dedup.Deduplicate | main.py:103-117 | normalise, link, classify with thresholds 75/50; the result is the two specifications composed, with references pointing back |

## Left out

- Spreadsheet input and output and the report printing (`load_data`, `to_excel`, the `print` loop in `main`) are I/O. `Dedup.Deduplicate` takes the rows and returns the annotated columns and the report instead.
- The internals of `fuzz.ratio` and `doublemetaphone` are foreign library code. They are function parameters. The ratio is known only to lie in 0..100, and it is assumed symmetric only in `ScoreSymmetric`.
- Floating point is replaced by exact quarter-points. The float rounding of `(sim / 100) * 25` at a threshold boundary is not modelled. Thresholds are whole points.
- pandas `astype(str)` (`main.py:24-25`) is not modelled. Raw names arrive as strings, so the non-string branches of `NormalizeText` and `PhoneticEncode` are modelled but cannot be reached from `CleanAndNormalize`. In pandas a missing name becomes the text `"nan"`.
- Normalizer.NormalizeText: covers only ASCII letters and digits. Python's Unicode `lower` and `isalnum` keep and lower-case non-ASCII letters (sometimes changing the length); the model drops them.
- Missing identifiers are not modelled. A `Sku_ID` or `Item_Code` that is NaN would make `pd.isna` true on a set reference; the model treats only None as missing. NaN keys in the exact pass (a NaN `Item_Code` never equals another one in the dictionary) are not modelled either.
- The thresholds are never validated, so no rejection is modelled.
- `app.py` (the search endpoint: a Flask route around `fuzz.partial_ratio`) has no linking logic and is not part of this model.
