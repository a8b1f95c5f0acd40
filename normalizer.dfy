/**
 * The normaliser of main.py: `normalize_text` (lower-case, keep only letters
 * and digits) and `phonetic_encode` (primary double-metaphone code, else the
 * secondary one). Characters are modelled over ASCII.
 */
module Normalizer {
  import opened Values

  predicate IsUpper(c: char) { 'A' <= c <= 'Z' }

  predicate IsLowerAlnum(c: char) { 'a' <= c <= 'z' || '0' <= c <= '9' }

  /** `str.isalnum` on one character. */
  predicate IsAlnum(c: char) { IsLowerAlnum(c) || IsUpper(c) }

  /** `str.lower` on one character. */
  function ToLower(c: char): (d: char)
    ensures !IsUpper(d)
    ensures IsAlnum(d) <==> IsAlnum(c)
    ensures !IsUpper(c) ==> d == c
  {
    if IsUpper(c) then (c as int - 'A' as int + 'a' as int) as char else c
  }

  /** `str.lower` on a string. */
  function Lower(s: string): (r: string)
    ensures |r| == |s|
    ensures forall i :: 0 <= i < |s| ==> r[i] == ToLower(s[i])
  {
    seq(|s|, i requires 0 <= i < |s| => ToLower(s[i]))
  }

  /** The characters of `s` for which `isalnum` holds, in their original order. */
  function KeepAlnum(s: string): (r: string)
    ensures |r| <= |s|
    ensures forall i :: 0 <= i < |r| ==> IsAlnum(r[i]) && r[i] in s
  {
    if s == [] then []
    else (if IsAlnum(s[0]) then [s[0]] else []) + KeepAlnum(s[1..])
  }

  /** `normalize_text`: a non-string gives the empty string. */
  function NormalizeText(v: Value): (r: string)
    ensures v.Number? ==> r == ""
    ensures v.Text? ==> |r| <= |v.s|
    ensures forall i :: 0 <= i < |r| ==> IsLowerAlnum(r[i])
  {
    match v
    case Text(s) =>
      var r := KeepAlnum(Lower(s));
      assert forall i :: 0 <= i < |r| ==> IsLowerAlnum(r[i]) by {
        forall i | 0 <= i < |r| ensures IsLowerAlnum(r[i]) {
          var k :| 0 <= k < |s| && Lower(s)[k] == r[i];
        }
      }
      r
    case Number(_) => ""
  }

  /** `a` is an order-preserving subsequence of `b`. */
  predicate IsSubsequence(a: string, b: string)
    decreases |b|
  {
    if a == [] then true
    else if b == [] then false
    else if a[0] == b[0] then IsSubsequence(a[1..], b[1..])
    else IsSubsequence(a, b[1..])
  }

  lemma {:induction false} KeepAlnumIsSubsequence(s: string)
    ensures IsSubsequence(KeepAlnum(s), s)
    decreases |s|
  {
    if s != [] {
      var rest := KeepAlnum(s[1..]);
      KeepAlnumIsSubsequence(s[1..]);
      if IsAlnum(s[0]) {
        assert ([s[0]] + rest)[1..] == rest;
      } else {
        assert KeepAlnum(s) == rest;
        // the head of `rest` is alphanumeric, so it cannot be matched with s[0]
        assert rest != [] ==> rest[0] != s[0];
      }
    }
  }

  /** The output of `normalize_text` is an order-preserving subsequence of the lower-cased input. */
  lemma NormalizeIsSubsequenceOfLowered(s: string)
    ensures IsSubsequence(NormalizeText(Text(s)), Lower(s))
  {
    KeepAlnumIsSubsequence(Lower(s));
  }

  lemma {:induction false} KeepAlnumFixedPoint(s: string)
    ensures KeepAlnum(s) == s <==> forall i :: 0 <= i < |s| ==> IsAlnum(s[i])
    decreases |s|
  {
    if s != [] {
      KeepAlnumFixedPoint(s[1..]);
      if IsAlnum(s[0]) {
        assert forall i :: 1 <= i < |s| ==> s[i] == s[1..][i - 1];
      } else {
        assert |KeepAlnum(s)| < |s|;
      }
    }
  }

  /** A string is left unchanged by `normalize_text` exactly when it consists of lower-case letters and digits. */
  lemma NormalizeFixedPoint(s: string)
    ensures NormalizeText(Text(s)) == s <==> forall i :: 0 <= i < |s| ==> IsLowerAlnum(s[i])
  {
    if forall i :: 0 <= i < |s| ==> IsLowerAlnum(s[i]) {
      assert Lower(s) == s;
      KeepAlnumFixedPoint(s);
    }
  }

  /** `normalize_text` is idempotent on every input, strings and non-strings alike. */
  lemma NormalizeIdempotent(v: Value)
    ensures NormalizeText(Text(NormalizeText(v))) == NormalizeText(v)
  {
    NormalizeFixedPoint(NormalizeText(v));
  }

  lemma {:induction false} KeepAlnumConcat(s: string, t: string)
    ensures KeepAlnum(s + t) == KeepAlnum(s) + KeepAlnum(t)
    decreases |s|
  {
    if s != [] {
      assert (s + t)[1..] == s[1..] + t;
      KeepAlnumConcat(s[1..], t);
    } else {
      assert s + t == t;
    }
  }

  /** `normalize_text` works character by character: it distributes over concatenation ... */
  lemma NormalizeConcat(s: string, t: string)
    ensures NormalizeText(Text(s + t)) == NormalizeText(Text(s)) + NormalizeText(Text(t))
  {
    assert Lower(s + t) == Lower(s) + Lower(t);
    KeepAlnumConcat(Lower(s), Lower(t));
  }

  /** ... and on one character keeps its lower-case form exactly when it is a letter or a digit. */
  lemma NormalizeOneChar(c: char)
    ensures NormalizeText(Text([c])) == if IsAlnum(c) then [ToLower(c)] else []
  {
    assert Lower([c]) == [ToLower(c)];
    assert KeepAlnum([ToLower(c)]) == (if IsAlnum(ToLower(c)) then [ToLower(c)] else []) + KeepAlnum([]);
  }

  /** Case does not matter: lower-casing the input first does not change the result. */
  lemma NormalizeIgnoresCase(s: string)
    ensures NormalizeText(Text(Lower(s))) == NormalizeText(Text(s))
  {
    assert Lower(Lower(s)) == Lower(s);
  }

  /** The `doublemetaphone` library call: a (primary, secondary) pair of codes. */
  type DoubleMetaphone = string -> (string, string)

  /** `phonetic_encode`: a non-string gives the empty string. */
  function PhoneticEncode(v: Value, metaphone: DoubleMetaphone): (r: string)
    ensures v.Number? ==> r == ""
    ensures v.Text? && metaphone(v.s).0 != "" ==> r == metaphone(v.s).0
    ensures v.Text? && metaphone(v.s).0 == "" ==> r == metaphone(v.s).1
    ensures v.Text? ==> (r == "" <==> metaphone(v.s).0 == "" && metaphone(v.s).1 == "")
  {
    match v
    case Text(s) =>
      var (primary, secondary) := metaphone(s);
      if primary != "" then primary else secondary
    case Number(_) => ""
  }
}
