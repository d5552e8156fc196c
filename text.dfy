/** The string helpers the services borrow from Go's standard library and
    from the request validator, restricted to ASCII. */
module Text {

  predicate IsUpper(c: char) { 'A' <= c <= 'Z' }

  /** `unicode.ToLower` on ASCII: upper-case letters move down by 32 code
      points, every other character is unchanged. */
  function LowerChar(c: char): (r: char)
    ensures IsUpper(c) ==> r as int == c as int + 32
    ensures !IsUpper(c) ==> r == c
    ensures !IsUpper(r)
  {
    if IsUpper(c) then (c as int + 32) as char else c
  }

  /** `strings.ToLower` on ASCII text. */
  function Lower(s: string): (r: string)
    ensures |r| == |s|
    ensures forall i | 0 <= i < |s| :: r[i] == LowerChar(s[i])
  {
    if s == [] then [] else [LowerChar(s[0])] + Lower(s[1..])
  }

  predicate IsLower(s: string) {
    forall i | 0 <= i < |s| :: !IsUpper(s[i])
  }

  /** Lower-casing yields lower-case text and is idempotent. */
  lemma LowerIsLower(s: string)
    ensures IsLower(Lower(s))
    ensures Lower(Lower(s)) == Lower(s)
  {
    var r := Lower(s);
    assert forall i | 0 <= i < |r| :: LowerChar(r[i]) == r[i];
  }

  /** Lower-case text is its own lower-casing. */
  lemma LowerOfLower(s: string)
    requires IsLower(s)
    ensures Lower(s) == s
  {
  }

  predicate IsAlphaNum(c: char) {
    'a' <= c <= 'z' || 'A' <= c <= 'Z' || '0' <= c <= '9'
  }

  /** The validator tag `alphanum`: ASCII letters and digits only. */
  predicate AllAlphaNum(s: string) {
    forall i | 0 <= i < |s| :: IsAlphaNum(s[i])
  }

  /** Lower-casing keeps the length and the alphanumeric shape. */
  lemma LowerKeepsAlphaNum(s: string)
    requires AllAlphaNum(s)
    ensures AllAlphaNum(Lower(s)) && |Lower(s)| == |s|
  {
  }
}
