/** Request ids: two 64-bit words in hexadecimal. */
module RequestId {
  import opened Core
  import opened JsonNumber

  const HEX_DIGITS := "0123456789abcdef"
  const HEX_DIGITS_PER_WORD: nat := 16
  const MAX_REQUEST_ID_LENGTH: nat := 128

  type Word = n: int | 0 <= n < 0x1_0000_0000_0000_0000

  predicate IsRequestIdCharacter(c: char) {
    'a' <= c <= 'z' || 'A' <= c <= 'Z' || '0' <= c <= '9' || c == '-' || c == '_' || c == '.'
  }

  /** is_acceptable_request_id() */
  predicate IsAcceptable(candidate: string) {
    candidate != "" && |candidate| <= MAX_REQUEST_ID_LENGTH
    && forall k | 0 <= k < |candidate| :: IsRequestIdCharacter(candidate[k])
  }

  /** The last `n` hexadecimal digits of a number. */
  function HexTail(word: nat, n: nat): (s: string)
    ensures |s| == n
  {
    if n == 0 then "" else HexTail(word / 16, n - 1) + [HEX_DIGITS[word % 16]]
  }

  function DigitOf(c: char): nat {
    if '0' <= c <= '9' then c as int - '0' as int else if 'a' <= c <= 'f' then c as int - 'a' as int + 10 else 0
  }

  function HexValue(s: string): nat {
    if s == "" then 0 else 16 * HexValue(s[..|s| - 1]) + DigitOf(s[|s| - 1])
  }

  lemma {:induction false} HexTailReads(word: nat, n: nat)
    requires word < Power(16, n)
    ensures HexValue(HexTail(word, n)) == word
    decreases n
  {
    if n > 0 {
      HexTailReads(word / 16, n - 1);
      var s := HexTail(word, n);
      assert s[..n - 1] == HexTail(word / 16, n - 1);
      assert DigitOf(HEX_DIGITS[word % 16]) == word % 16;
    }
  }

  /** word >> (4 * k) */
  function ShiftRight(word: nat, k: nat): nat {
    if k == 0 then word else ShiftRight(word, k - 1) / 16
  }

  /** append_hex_word(): one digit per shift, the highest first; all shifts together print the word
      so far, which the last shift makes the whole word. */
  method AppendHexWord(out: string, word: Word) returns (r: string)
    ensures r == out + HexTail(word, HEX_DIGITS_PER_WORD)
  {
    r := out;
    for position := 0 to HEX_DIGITS_PER_WORD
      invariant r == out + HexTail(ShiftRight(word, HEX_DIGITS_PER_WORD - position), position)
    {
      var shift := HEX_DIGITS_PER_WORD - 1 - position;
      ghost var before := ShiftRight(word, shift + 1);
      assert before == ShiftRight(word, shift) / 16;
      r := r + [HEX_DIGITS[ShiftRight(word, shift) % 16]];
    }
  }

  lemma {:induction false} WordsFit()
    ensures Power(16, HEX_DIGITS_PER_WORD) == 0x1_0000_0000_0000_0000
  {
    assert Power(16, 4) == 0x1_0000;
    assert Power(16, 8) == 0x1_0000_0000;
    assert Power(16, 12) == 0x1_0000_0000_0000;
  }

  function RequestIdText(high: Word, low: Word): string {
    HexTail(high, HEX_DIGITS_PER_WORD) + HexTail(low, HEX_DIGITS_PER_WORD)
  }

  /** format_request_id() */
  method FormatRequestId(high: Word, low: Word) returns (id: string)
    ensures id == RequestIdText(high, low)
  {
    id := AppendHexWord("", high);
    id := AppendHexWord(id, low);
  }

  lemma {:induction false} HexTailCharacters(word: nat, n: nat)
    ensures forall k | 0 <= k < n :: IsRequestIdCharacter(HexTail(word, n)[k])
    decreases n
  {
    if n > 0 {
      HexTailCharacters(word / 16, n - 1);
    }
  }

  /** A generated id is one the server would accept, and tells its two words apart from all others. */
  lemma {:induction false} IdsAreAcceptableAndDistinct(high: Word, low: Word, otherHigh: Word, otherLow: Word)
    ensures IsAcceptable(RequestIdText(high, low)) && |RequestIdText(high, low)| == 32
    ensures RequestIdText(high, low) == RequestIdText(otherHigh, otherLow) ==> high == otherHigh && low == otherLow
  {
    hide Power, HexTail, HexValue, IsRequestIdCharacter;
    var n := HEX_DIGITS_PER_WORD;
    WordsFit();
    HexTailCharacters(high, n);
    HexTailCharacters(low, n);
    var a, b := RequestIdText(high, low), RequestIdText(otherHigh, otherLow);
    HexTailReads(high, n);
    HexTailReads(low, n);
    HexTailReads(otherHigh, n);
    HexTailReads(otherLow, n);
    assert a[..n] == HexTail(high, n) && a[n..] == HexTail(low, n);
    assert b[..n] == HexTail(otherHigh, n) && b[n..] == HexTail(otherLow, n);
  }

  /** An id says both words in hexadecimal, the high word first. */
  lemma {:induction false} IdSaysBothWords(high: Word, low: Word)
    ensures HexValue(RequestIdText(high, low)) == high * 0x1_0000_0000_0000_0000 + low
  {
    hide Power, HexTail, HexValue;
    var n := HEX_DIGITS_PER_WORD;
    WordsFit();
    HexTailReads(high, n);
    HexTailReads(low, n);
    HexValueConcat(HexTail(high, n), HexTail(low, n));
  }

  lemma {:induction false} HexValueConcat(a: string, b: string)
    ensures HexValue(a + b) == HexValue(a) * Power(16, |b|) + HexValue(b)
    decreases |b|
  {
    if b == "" {
      assert a + b == a;
    } else {
      var c := b[..|b| - 1];
      assert (a + b)[..|a + b| - 1] == a + c;
      HexValueConcat(a, c);
      assert Power(16, |b|) == 16 * Power(16, |c|);
      hide Power, HexValue;
      PlaceValue(HexValue(a), Power(16, |c|));
    }
  }

  lemma {:induction false} PlaceValue(v: nat, p: nat)
    ensures v * (16 * p) == 16 * (v * p)
  {
  }

  /** is_acceptable_request_id() accepts exactly 1 to 128 letters, digits, `_`, `-` and `.`. */
  lemma {:induction false} AcceptableIs(candidate: string)
    ensures IsAcceptable(candidate) <==>
            1 <= |candidate| <= 128 && forall k | 0 <= k < |candidate| :: IsListed(candidate[k]) || candidate[k] == '.'
  {
    hide IsListed;
    forall k | 0 <= k < |candidate|
      ensures IsRequestIdCharacter(candidate[k]) <==> IsListed(candidate[k]) || candidate[k] == '.'
    {
      ListedCharacter(candidate[k]);
    }
  }
}
