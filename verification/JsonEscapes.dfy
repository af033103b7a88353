/**
 What each escape of RFC 8259 section 7 stands for, said without the reader's own tables: by the
 scalar value that its hexadecimal digits name, or by the literal character.
 */
module JsonEscapes {
  import opened Wrappers
  import opened Utf8
  import opened JsonString

  const LOWER_HEX := "0123456789abcdef"
  const UPPER_HEX := "0123456789ABCDEF"

  /** `c` is the hexadecimal digit `n`, in either case. */
  predicate IsHexFor(c: char, n: int) {
    0 <= n < 16 && (c == LOWER_HEX[n] || c == UPPER_HEX[n])
  }

  /** `d` is `unit` in four hexadecimal digits, each in either case. */
  predicate Names(d: string, unit: nat) {
    && |d| == 4 && unit <= 0xFFFF
    && IsHexFor(d[0], unit / 4096) && IsHexFor(d[1], unit / 256 % 16)
    && IsHexFor(d[2], unit / 16 % 16) && IsHexFor(d[3], unit % 16)
  }

  lemma {:induction false} DigitIsRead(c: char, n: int)
    requires IsHexFor(c, n)
    ensures IsHexDigit(c) && HexDigit(c) == n
  {
  }

  lemma {:induction false} UnitIsRead(d: string, unit: nat)
    requires Names(d, unit)
    ensures Hex(d).Valid() && CodeUnit(Hex(d)) == unit
  {
    DigitIsRead(d[0], unit / 4096);
    DigitIsRead(d[1], unit / 256 % 16);
    DigitIsRead(d[2], unit / 16 % 16);
    DigitIsRead(d[3], unit % 16);
    hide IsHexFor, HexDigit, IsHexDigit;
    assert unit == 4096 * (unit / 4096) + 256 * (unit / 256 % 16) + 16 * (unit / 16 % 16) + unit % 16 by {
      assert unit / 16 / 16 == unit / 256 && unit / 256 / 16 == unit / 4096;
    }
  }

  /** Spelled characters mean what their spelling is read as, inside a token and on its own. */
  lemma {:induction false} MeansWhenSpelled(cs: seq<StrChar>, raw: string)
    requires AllValid(cs) && SpellAll(cs) == raw
    ensures Unescape(raw) == Denote(cs)
    ensures Denote(cs).Some? ==> StandsFor("\"" + raw + "\"", Denote(cs).value)
  {
    ReadCharsIsTheGrammar(raw, cs);
    hide Denote, ReadChars, SpellAll;
    if Denote(cs).Some? { assert IsSpelledBy("\"" + raw + "\"", cs); }
  }

  lemma {:induction false} SpellOne(ch: StrChar)
    ensures SpellAll([ch]) == ch.Spell()
  {
    assert [ch][1..] == [];
  }

  lemma {:induction false} DenoteSingle(ch: StrChar)
    requires ch.Valid()
    ensures AllValid([ch])
    ensures Denote([ch]) == if IsHighSurrogate(ch) || IsLowSurrogate(ch) then None else Some(DenoteOne(ch))
  {
    hide CodeUnit, DenoteOne, Encode;
    assert [ch][1..] == [];
    if !IsHighSurrogate(ch) && !IsLowSurrogate(ch) {
      assert DenoteOne(ch) + "" == DenoteOne(ch);
    }
  }

  /** A `\\u` escape of a scalar value up to U+FFFF stands for that character, whatever the case of its
      digits. */
  lemma {:induction false} BasicEscape(d: string, cp: nat) returns (t: string)
    requires Names(d, cp) && IsScalarValue(cp)
    ensures Unescape("\\u" + d) == Some(t) && StandsFor("\"" + "\\u" + d + "\"", t)
    ensures Decode(t) == Some(cp) && t == Encode(cp)
  {
    hide Names, IsHexFor, CodeUnit, Decode, Encode, Unescape, Denote, SpellAll, StandsFor;
    t := Encode(cp);
    EncodeThenDecode(cp);
    HexMeans(d, cp);
    var ch := Hex(d);
    SpellOne(ch);
    MeansWhenSpelled([ch], "\\u" + d);
    assert "\"" + ("\\u" + d) + "\"" == "\"" + "\\u" + d + "\"";
  }

  lemma {:induction false} HexMeans(d: string, cp: nat)
    requires Names(d, cp) && IsScalarValue(cp)
    ensures AllValid([Hex(d)]) && Denote([Hex(d)]) == Some(Encode(cp))
  {
    UnitIsRead(d, cp);
    hide Names, CodeUnit, Denote, Encode;
    DenoteSingle(Hex(d));
  }

  /** A pair of `\\u` escapes, high surrogate first, stands for the character above U+FFFF it names. */
  lemma {:induction false} PairEscape(d: string, e: string, cp: nat) returns (t: string)
    requires 0x1_0000 <= cp <= 0x10FFFF
    requires Names(d, 0xD800 + (cp - 0x1_0000) / 1024) && Names(e, 0xDC00 + (cp - 0x1_0000) % 1024)
    ensures Unescape("\\u" + d + ("\\u" + e)) == Some(t) && StandsFor("\"" + ("\\u" + d + ("\\u" + e)) + "\"", t)
    ensures Decode(t) == Some(cp) && t == Encode(cp)
  {
    var high, low := 0xD800 + (cp - 0x1_0000) / 1024, 0xDC00 + (cp - 0x1_0000) % 1024;
    UnitIsRead(d, high);
    UnitIsRead(e, low);
    hide Names, CodeUnit, Decode, Unescape, Encode;
    var cs := [Hex(d), Hex(e)];
    t := Encode(cp);
    EncodeThenDecode(cp);
    assert cs[1..] == [Hex(e)];
    SpellOne(Hex(e));
    DenotePair(Hex(d), Hex(e));
    hide Denote;
    MeansWhenSpelled(cs, "\\u" + d + ("\\u" + e));
  }

  lemma {:induction false} DenotePair(high: StrChar, low: StrChar)
    requires IsHighSurrogate(high) && IsLowSurrogate(low)
    ensures AllValid([high, low])
    ensures Denote([high, low])
            == Some(Encode(0x1_0000 + 0x400 * (CodeUnit(high) - 0xD800) + (CodeUnit(low) - 0xDC00)))
  {
    hide CodeUnit, Encode;
    var cs := [high, low];
    assert cs[2..] == [];
    var t := Encode(0x1_0000 + 0x400 * (CodeUnit(high) - 0xD800) + (CodeUnit(low) - 0xDC00));
    assert t + "" == t;
  }

  /** A surrogate that stands alone is refused. */
  lemma {:induction false} LoneSurrogate(d: string, unit: nat)
    requires Names(d, unit) && 0xD800 <= unit <= 0xDFFF
    ensures Unescape("\\u" + d).None?
  {
    UnitIsRead(d, unit);
    hide Names, CodeUnit, Unescape, Denote;
    DenoteSingle(Hex(d));
    SpellOne(Hex(d));
    MeansWhenSpelled([Hex(d)], "\\u" + d);
  }

  /** Four characters that are not all hexadecimal digits make no escape. */
  lemma {:induction false} OnlyHexDigits(d: string)
    requires |d| == 4 && exists k :: 0 <= k < 4 && d[k] !in LOWER_HEX && d[k] !in UPPER_HEX
    ensures Unescape("\\u" + d).None?
  {
    var k :| 0 <= k < 4 && d[k] !in LOWER_HEX && d[k] !in UPPER_HEX;
    if IsHexDigit(d[k]) { DigitIsListed(d[k]); }
    var s := "\\u" + d;
    assert s[2..6] == d && !Hex(d).Valid();
    hide IsHexDigit;
    assert ReadChar(s).None?;
  }

  lemma {:induction false} DigitIsListed(c: char)
    requires IsHexDigit(c)
    ensures c in LOWER_HEX || c in UPPER_HEX
  {
    if c <= '9' {
      assert c == LOWER_HEX[c as int - '0' as int];
    } else if c <= 'F' {
      assert c == UPPER_HEX[c as int - 'A' as int + 10];
    } else {
      assert c == LOWER_HEX[c as int - 'a' as int + 10];
    }
  }

  /** The eight short escapes and the character after each backslash. */
  const SHORT_ESCAPES := "\"\\/bfnrt"
  const THEIR_CHARACTERS := "\"\\/\U{8}\U{C}\n\r\t"

  /** Each short escape stands for its character, and no other letter but `u` follows a backslash. */
  lemma {:induction false} ShortEscape(c: char)
    requires c != 'u'
    ensures c !in SHORT_ESCAPES ==> Unescape(['\\', c]).None?
    ensures forall k | 0 <= k < 8 && c == SHORT_ESCAPES[k] ::
              Unescape(['\\', c]) == Some([THEIR_CHARACTERS[k]])
              && StandsFor("\"" + ['\\', c] + "\"", [THEIR_CHARACTERS[k]])
  {
    if c in SHORT_ESCAPES {
      ShortIsRead(c);
      forall k | 0 <= k < 8 && c == SHORT_ESCAPES[k] ensures ShortMeaning(c) == THEIR_CHARACTERS[k] {
      }
    } else {
      NoSuchEscape(c);
      assert ReadChar(['\\', c]).None?;
    }
  }

  lemma {:induction false} ShortIsRead(c: char)
    requires c in SHORT_ESCAPES
    ensures IsShortEscape(c) && Unescape(['\\', c]) == Some([ShortMeaning(c)])
    ensures StandsFor("\"" + ['\\', c] + "\"", [ShortMeaning(c)])
  {
    var k :| 0 <= k < |SHORT_ESCAPES| && SHORT_ESCAPES[k] == c;
    assert IsShortEscape(c);
    hide Unescape, Denote, ShortMeaning;
    DenoteSingle(Short(c));
    SpellOne(Short(c));
    MeansWhenSpelled([Short(c)], ['\\', c]);
  }

  lemma {:induction false} NoSuchEscape(c: char)
    requires c !in SHORT_ESCAPES
    ensures !IsShortEscape(c)
  {
    assert SHORT_ESCAPES[0] == '"' && SHORT_ESCAPES[1] == '\\' && SHORT_ESCAPES[2] == '/' && SHORT_ESCAPES[3] == 'b';
    assert SHORT_ESCAPES[4] == 'f' && SHORT_ESCAPES[5] == 'n' && SHORT_ESCAPES[6] == 'r' && SHORT_ESCAPES[7] == 't';
  }

  /** Any other byte from 0x20 on stands for itself; one below, a lone backslash or quote is refused. */
  lemma {:induction false} PlainByte(c: char)
    ensures Unescape([c]) == if c < '\U{20}' || c == '"' || c == '\\' then None else Some([c])
  {
    if c >= ' ' && c != '"' && c != '\\' {
      hide Unescape, Denote;
      DenoteSingle(Plain(c));
      SpellOne(Plain(c));
      MeansWhenSpelled([Plain(c)], [c]);
    } else {
      assert ReadChar([c]).None?;
    }
  }

  /** What stands for one text before what stands for another stands for the two joined. */
  lemma {:induction false} UnescapeConcat(a: string, b: string)
    requires Unescape(a).Some? && Unescape(b).Some?
    ensures Unescape(a + b) == Some(Unescape(a).value + Unescape(b).value)
  {
    var cs, ds := ReadChars(a).value, ReadChars(b).value;
    ReadCharsIsTheGrammar(a, cs);
    ReadCharsIsTheGrammar(b, ds);
    hide ReadChars, Denote;
    SpellConcat(cs, ds);
    DenoteConcat(cs, ds);
    ReadCharsIsTheGrammar(a + b, cs + ds);
  }

  lemma {:induction false} SpellConcat(cs: seq<StrChar>, ds: seq<StrChar>)
    ensures SpellAll(cs + ds) == SpellAll(cs) + SpellAll(ds)
  {
    SpellSplit(cs + ds, |cs|);
    assert (cs + ds)[..|cs|] == cs && (cs + ds)[|cs|..] == ds;
  }

  lemma {:induction false} DenoteConcat(cs: seq<StrChar>, ds: seq<StrChar>)
    requires AllValid(cs) && AllValid(ds) && Denote(cs).Some? && Denote(ds).Some?
    ensures AllValid(cs + ds) && Denote(cs + ds) == Some(Denote(cs).value + Denote(ds).value)
    decreases |cs|
  {
    hide CodeUnit, Encode, DenoteOne, ShortMeaning;
    if cs == [] {
      assert cs + ds == ds && "" + Denote(ds).value == Denote(ds).value;
    } else {
      var k := if IsHighSurrogate(cs[0]) then 2 else 1;
      assert (cs + ds)[k..] == cs[k..] + ds;
      DenoteConcat(cs[k..], ds);
      PrependTwice(DenoteHeadText(cs), Denote(cs[k..]).value, Denote(ds));
    }
  }

  /** The text of the first character. */
  function DenoteHeadText(cs: seq<StrChar>): string
    requires AllValid(cs) && cs != [] && Denote(cs).Some?
  {
    if IsHighSurrogate(cs[0]) then
      Encode(0x1_0000 + 0x400 * (CodeUnit(cs[0]) - 0xD800) + (CodeUnit(cs[1]) - 0xDC00))
    else DenoteOne(cs[0])
  }
}
