/** Case normalisation of e-mail addresses (`str::to_lowercase`), restricted
    to the ASCII letters; every other character is kept as it is. */
module Text {

  predicate IsUpper(c: char) {
    'A' <= c <= 'Z'
  }

  /** The lower-case form of one character. */
  function LowerChar(c: char): (d: char)
    ensures !IsUpper(d)
    ensures !IsUpper(c) ==> d == c
    ensures IsUpper(c) ==> 'a' <= d <= 'z' && d as int - 'a' as int == c as int - 'A' as int
  {
    if IsUpper(c) then (c as int - 'A' as int + 'a' as int) as char else c
  }

  /** A string that `to_lowercase` leaves as it is. */
  predicate IsLower(s: string) {
    forall i :: 0 <= i < |s| ==> !IsUpper(s[i])
  }

  /** `s.to_lowercase()`: same length, every letter lowered, the rest kept. */
  function ToLower(s: string): (r: string)
    ensures |r| == |s| && IsLower(r)
    ensures forall i :: 0 <= i < |s| ==> r[i] == LowerChar(s[i])
  {
    if s == [] then [] else [LowerChar(s[0])] + ToLower(s[1..])
  }

  /** Lowering an already lower-case string changes nothing. */
  lemma ToLowerOfLower(s: string)
    requires IsLower(s)
    ensures ToLower(s) == s
  {
  }

  /** Normalising twice is normalising once. */
  lemma ToLowerIdempotent(s: string)
    ensures ToLower(ToLower(s)) == ToLower(s)
  {
    ToLowerOfLower(ToLower(s));
  }

  /** Two addresses that differ only in the case of ASCII letters normalise
      to the same stored value. */
  lemma ToLowerIgnoresCase(s: string, t: string)
    requires |s| == |t|
    requires forall i :: 0 <= i < |s| ==> LowerChar(s[i]) == LowerChar(t[i])
    ensures ToLower(s) == ToLower(t)
  {
  }
}
