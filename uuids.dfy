/** Identifiers as the services print them: the canonical 36-character,
    lower-case text that `uuid.UUID.String()` produces. Keys are built from
    this text, so its shape is what keeps the key families apart. */
module Uuids {
  import opened Results

  predicate IsHexDigit(c: char) {
    '0' <= c <= '9' || 'a' <= c <= 'f'
  }

  /** The character allowed at position `i` of a canonical UUID. */
  predicate IsUuidChar(i: int, c: char) {
    if i == 8 || i == 13 || i == 18 || i == 23 then c == '-' else IsHexDigit(c)
  }

  predicate IsUuid(s: string) {
    |s| == 36 && forall i | 0 <= i < 36 :: IsUuidChar(i, s[i])
  }

  type Uuid = s: string | IsUuid(s) witness "00000000-0000-0000-0000-000000000000"

  /** `uuid.Nil`, the zero value of a UUID. */
  const NilUuid: Uuid := "00000000-0000-0000-0000-000000000000"

  /** `uuid.Parse`, restricted to the canonical spelling (the only one the
      services ever write). */
  function ParseUuid(s: string): (r: Option<Uuid>)
    ensures r.Some? <==> IsUuid(s)
    ensures r.Some? ==> r.value == s
  {
    if IsUuid(s) then Some(s) else None
  }

  /** Every UUID starts with a hexadecimal digit, so no UUID text starts with
      a letter beyond 'f', such as the 'u' of "user:" or the 'l' of "login:". */
  lemma LeadingHexDigit(u: Uuid)
    ensures |u| == 36 && IsHexDigit(u[0])
    ensures u[0] != 'u' && u[0] != 'l' && u[0] != ':'
  {
    assert IsUuidChar(0, u[0]);
  }
}
