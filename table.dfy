/**
 * The catalog table and `clean_and_normalize`, which derives the four
 * normalised and phonetic columns from the two name columns.
 */
module Table {
  import opened Values
  import opened Normalizer

  /** One input row; the name cells have already been turned into strings by `astype(str)`. */
  datatype RawRecord = RawRecord(skuId: Value, itemCode: Value, skuName: string, displayName: string)

  /** One row after `clean_and_normalize`. */
  datatype Record = Record(
    skuId: Value, itemCode: Value, skuName: string, displayName: string,
    normSku: string, normDisplay: string, phonSku: string, phonDisplay: string)

  /** Every character is a lower-case letter or a digit: the shape of a normalised name. */
  predicate IsNormalized(s: string)
  {
    forall i :: 0 <= i < |s| ==> IsLowerAlnum(s[i])
  }

  /** The derivation applied to one row. */
  function Derive(raw: RawRecord, metaphone: DoubleMetaphone): Record
  {
    Record(raw.skuId, raw.itemCode, raw.skuName, raw.displayName,
           NormalizeText(Text(raw.skuName)), NormalizeText(Text(raw.displayName)),
           PhoneticEncode(Text(raw.skuName), metaphone), PhoneticEncode(Text(raw.displayName), metaphone))
  }

  /**
   * `clean_and_normalize`: same rows in the same order, input columns untouched,
   * and normalised columns that `normalize_text` would leave as they are.
   */
  function CleanAndNormalize(raws: seq<RawRecord>, metaphone: DoubleMetaphone): (rows: seq<Record>)
    ensures |rows| == |raws|
    ensures forall i :: 0 <= i < |raws| ==>
      rows[i].skuId == raws[i].skuId && rows[i].itemCode == raws[i].itemCode &&
      rows[i].skuName == raws[i].skuName && rows[i].displayName == raws[i].displayName
    ensures forall i :: 0 <= i < |raws| ==>
      IsNormalized(rows[i].normSku) && IsNormalized(rows[i].normDisplay) &&
      NormalizeText(Text(rows[i].normSku)) == rows[i].normSku &&
      NormalizeText(Text(rows[i].normDisplay)) == rows[i].normDisplay
    ensures forall i :: 0 <= i < |raws| ==>
      rows[i].normSku == NormalizeText(Text(raws[i].skuName)) &&
      rows[i].normDisplay == NormalizeText(Text(raws[i].displayName)) &&
      rows[i].phonSku == PhoneticEncode(Text(raws[i].skuName), metaphone) &&
      rows[i].phonDisplay == PhoneticEncode(Text(raws[i].displayName), metaphone)
  {
    var rows := seq(|raws|, i requires 0 <= i < |raws| => Derive(raws[i], metaphone));
    assert forall i :: 0 <= i < |raws| ==>
      NormalizeText(Text(rows[i].normSku)) == rows[i].normSku &&
      NormalizeText(Text(rows[i].normDisplay)) == rows[i].normDisplay by {
      forall i | 0 <= i < |raws| ensures
        NormalizeText(Text(rows[i].normSku)) == rows[i].normSku &&
        NormalizeText(Text(rows[i].normDisplay)) == rows[i].normDisplay
      {
        NormalizeIdempotent(Text(raws[i].skuName));
        NormalizeIdempotent(Text(raws[i].displayName));
      }
    }
    rows
  }
}
