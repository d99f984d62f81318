/**
  Normalisation of metadata values before they are stored: a value that
  reads "none" or "null" in any letter case is stored as the empty string.
 */
module MetadataValues {

  /** ASCII lower-casing of one character; every other character is kept. */
  function LowerChar(c: char): (r: char)
    ensures 'A' <= c <= 'Z' ==> r as int == c as int + 32
    ensures !('A' <= c <= 'Z') ==> r == c
  {
    if 'A' <= c <= 'Z' then (c as int + 32) as char else c
  }

  /** ASCII lower-casing of a string, character by character. */
  function ToLower(s: string): (r: string)
    ensures |r| == |s|
  {
    if s == [] then [] else [LowerChar(s[0])] + ToLower(s[1..])
  }

  /** Lower-casing works character by character. */
  lemma {:induction false} ToLowerAt(s: string)
    ensures forall i :: 0 <= i < |s| ==> ToLower(s)[i] == LowerChar(s[i])
  {
    if s != [] {
      ToLowerAt(s[1..]);
    }
  }

  /** `a` and `b` are the same word up to the case of ASCII letters. */
  predicate EqualsIgnoringCase(a: string, b: string) {
    |a| == |b| && forall i :: 0 <= i < |a| ==> LowerChar(a[i]) == LowerChar(b[i])
  }

  /** The spellings of "no value" that are stored as the empty string. */
  predicate IsNullWord(v: string) {
    EqualsIgnoringCase(v, "none") || EqualsIgnoringCase(v, "null")
  }

  /** The value actually stored for `v`. */
  function Normalise(v: string): (r: string)
    ensures r == "" || r == v
  {
    var lower := ToLower(v);
    if lower == "none" || lower == "null" then "" else v
  }

  /** Exactly the empty value and the spellings of "none" and "null", in any letter case, are stored as "". */
  lemma NormaliseClears(v: string)
    ensures Normalise(v) == "" <==> v == "" || IsNullWord(v)
  {
    ToLowerAt(v);
  }

  /** Normalising a stored value changes nothing: SetAll with stored values is stable. */
  lemma NormaliseIdempotent(v: string)
    ensures Normalise(Normalise(v)) == Normalise(v)
  {
  }

  /** Values that differ from "none"/"null" only in letter case are all cleared. */
  lemma NullWordsInAnyCase()
    ensures Normalise("None") == "" && Normalise("nUlL") == ""
    ensures Normalise("nil") == "nil" && Normalise("nones") == "nones"
  {
    NormaliseClears("None");
    NormaliseClears("nUlL");
    NormaliseClears("nil");
    NormaliseClears("nones");
    assert EqualsIgnoringCase("None", "none");
    assert EqualsIgnoringCase("nUlL", "null");
    assert !EqualsIgnoringCase("nil", "none") && !EqualsIgnoringCase("nil", "null");
    assert !EqualsIgnoringCase("nones", "none") && !EqualsIgnoringCase("nones", "null");
  }
}
