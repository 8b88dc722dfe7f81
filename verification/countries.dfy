/**
  The country record fetched from the REST endpoint, and the fixed rule that
  drops one country by its common name before the records are stored.

  JavaScript's `toLowerCase` is modelled as ASCII lower-casing: every letter
  `A`..`Z` maps to `a`..`z` and every other character is left alone.
 */
module Countries {

  /** The fields of one fetched record that the component reads.
      `capital` is the endpoint's list of capitals (possibly empty);
      `flagAlt` is empty when the endpoint sends no alt text. */
  datatype Country = Country(
    commonName: string,
    capital: seq<string>,
    region: string,
    population: nat,
    flagPng: string,
    flagAlt: string
  )

  /** The lower-cased common name that is never stored. */
  const ExcludedName: string := "israel"

  predicate IsUpper(ch: char) {
    'A' <= ch <= 'Z'
  }

  predicate IsLowerLetter(ch: char) {
    'a' <= ch <= 'z'
  }

  /** ASCII lower-casing of one character. */
  function LowerChar(ch: char): (r: char)
    ensures !IsUpper(r)
    ensures IsLowerLetter(r) <==> IsLowerLetter(ch) || IsUpper(ch)
    ensures !IsUpper(ch) ==> r == ch
    ensures IsUpper(ch) ==> r as int - ch as int == 'a' as int - 'A' as int
  {
    if IsUpper(ch) then (ch as int - 'A' as int + 'a' as int) as char else ch
  }

  /** The upper-case partner of a lower-case ASCII letter. */
  function UpperChar(ch: char): (r: char)
    requires IsLowerLetter(ch)
    ensures IsUpper(r) && LowerChar(r) == ch
  {
    (ch as int - 'a' as int + 'A' as int) as char
  }

  /** ASCII lower-casing of a string, character by character. */
  function Lower(s: string): (r: string)
    ensures |r| == |s|
    ensures forall i :: 0 <= i < |s| ==> r[i] == LowerChar(s[i])
  {
    if |s| == 0 then [] else [LowerChar(s[0])] + Lower(s[1..])
  }

  /** The record is dropped by the fetch handler: its name has the length of
      "israel" and lower-cases to it character by character. */
  function IsExcluded(c: Country): (r: bool)
    ensures r <==>
      |c.commonName| == |ExcludedName| &&
      forall i :: 0 <= i < |ExcludedName| ==> LowerChar(c.commonName[i]) == ExcludedName[i]
  {
    Lower(c.commonName) == ExcludedName
  }

  /** A name is excluded exactly when it spells "israel" with each letter in
      either case: "Israel", "ISRAEL", "iSrAeL", ... and nothing else. */
  lemma ExcludedSpellings(c: Country)
    ensures IsExcluded(c) <==>
      |c.commonName| == |ExcludedName| &&
      forall i :: 0 <= i < |ExcludedName| ==>
        c.commonName[i] == ExcludedName[i] || c.commonName[i] == UpperChar(ExcludedName[i])
  {
  }
}
