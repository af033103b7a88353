/** The values that travel between the parts: documents, and what is known about an index. */
module Core {
  import opened Wrappers

  /** A document on its way into an index: its exact bytes, and the text to make searchable. */
  datatype Document = Document(source: string, searchableText: seq<string>)

  /** `createdAt` and `updatedAt` are milliseconds since 1970-01-01T00:00:00Z. */
  datatype IndexMetadata = IndexMetadata(uid: string, primaryKey: Option<string>, createdAt: int, updatedAt: int)

  const MAX_UID_LENGTH: nat := 64

  predicate IsUidCharacter(c: char) {
    'a' <= c <= 'z' || 'A' <= c <= 'Z' || '0' <= c <= '9' || c == '_' || c == '-'
  }

  /** What IndexUid::parse() accepts. */
  predicate IsUid(text: string) {
    0 < |text| <= MAX_UID_LENGTH && forall k | 0 <= k < |text| :: IsUidCharacter(text[k])
  }

  // ---- the uid alphabet, spelled out ------------------------------------------------------------

  const LOWER_CASE := "abcdefghijklmnopqrstuvwxyz"
  const UPPER_CASE := "ABCDEFGHIJKLMNOPQRSTUVWXYZ"
  const DECIMAL_DIGITS := "0123456789"

  /** An ASCII letter, digit, `_` or `-`. */
  predicate IsListed(c: char) {
    c in LOWER_CASE || c in UPPER_CASE || c in DECIMAL_DIGITS || c in "_-"
  }

  /** 1 to 64 of them. */
  predicate IsUidText(text: string) {
    1 <= |text| <= 64 && forall k | 0 <= k < |text| :: IsListed(text[k])
  }

  lemma {:induction false} LowerCase(c: char)
    ensures c in LOWER_CASE <==> 'a' <= c <= 'z'
  {
    if 'a' <= c <= 'z' { assert c == LOWER_CASE[c as int - 'a' as int]; }
  }

  lemma {:induction false} UpperCase(c: char)
    ensures c in UPPER_CASE <==> 'A' <= c <= 'Z'
  {
    if 'A' <= c <= 'Z' { assert c == UPPER_CASE[c as int - 'A' as int]; }
  }

  lemma {:induction false} DecimalDigits(c: char)
    ensures c in DECIMAL_DIGITS <==> '0' <= c <= '9'
  {
    if '0' <= c <= '9' { assert c == DECIMAL_DIGITS[c as int - '0' as int]; }
  }

  lemma {:induction false} ListedCharacter(c: char)
    ensures IsUidCharacter(c) <==> IsListed(c)
  {
    LowerCase(c);
    UpperCase(c);
    DecimalDigits(c);
    assert "_-"[0] == '_' && "_-"[1] == '-';
  }

  /** IndexUid::parse() accepts exactly those. */
  lemma {:induction false} UidIsListed(text: string)
    ensures IsUid(text) <==> IsUidText(text)
  {
    hide IsUidCharacter, IsListed;
    forall k | 0 <= k < |text| ensures IsUidCharacter(text[k]) <==> IsListed(text[k]) {
      ListedCharacter(text[k]);
    }
  }
}
