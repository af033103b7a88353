/**
 JSON strings: the grammar and meaning of RFC 8259 section 7, the reader's unescaping, and the
 escaper that writes response bodies.
 */
module JsonString {
  import opened Wrappers
  import opened Utf8
  import opened JsonLexer

  // ---- section 7 as a grammar --------------------------------------------------------------------

  /** One `char` of the grammar: a byte of an unescaped character, or an escape. */
  datatype StrChar = Plain(c: char) | Short(c: char) | Hex(digits: string) {
    predicate Valid() {
      match this
      case Plain(c) => c >= ' ' && c != '"' && c != '\\'
      case Short(c) => IsShortEscape(c)
      case Hex(d) => |d| == 4 && forall k | 0 <= k < 4 :: IsHexDigit(d[k])
    }

    function Spell(): (s: string)
      ensures s != ""
    {
      match this
      case Plain(c) => [c]
      case Short(c) => ['\\', c]
      case Hex(d) => "\\u" + d
    }
  }

  predicate IsShortEscape(c: char) {
    c == '"' || c == '\\' || c == '/' || c == 'b' || c == 'f' || c == 'n' || c == 'r' || c == 't'
  }

  function ShortMeaning(c: char): char
    requires IsShortEscape(c)
  {
    if c == 'b' then '\U{8}'
    else if c == 'f' then '\U{C}'
    else if c == 'n' then '\n'
    else if c == 'r' then '\r'
    else if c == 't' then '\t'
    else c
  }

  predicate IsHexDigit(c: char) {
    '0' <= c <= '9' || 'a' <= c <= 'f' || 'A' <= c <= 'F'
  }

  function HexDigit(c: char): (n: nat)
    requires IsHexDigit(c)
    ensures n < 16
  {
    if c <= '9' then c as int - '0' as int
    else if c <= 'F' then c as int - 'A' as int + 10
    else c as int - 'a' as int + 10
  }

  predicate AllValid(cs: seq<StrChar>) {
    forall k | 0 <= k < |cs| :: cs[k].Valid()
  }

  function SpellAll(cs: seq<StrChar>): string {
    if cs == [] then "" else cs[0].Spell() + SpellAll(cs[1..])
  }

  /** The UTF-16 code unit a hex escape names. */
  function CodeUnit(ch: StrChar): (n: nat)
    requires ch.Valid() && ch.Hex?
    ensures n < 0x1_0000
  {
    var d := ch.digits;
    0x1000 * HexDigit(d[0]) + 0x100 * HexDigit(d[1]) + 0x10 * HexDigit(d[2]) + HexDigit(d[3])
  }

  predicate IsHighSurrogate(ch: StrChar) {
    ch.Valid() && ch.Hex? && 0xD800 <= CodeUnit(ch) < 0xDC00
  }

  predicate IsLowSurrogate(ch: StrChar) {
    ch.Valid() && ch.Hex? && 0xDC00 <= CodeUnit(ch) < 0xE000
  }

  /** The UTF-8 text the characters stand for; None when a surrogate stands alone (section 8.2). */
  function Denote(cs: seq<StrChar>): Option<string>
    requires AllValid(cs)
  {
    if cs == [] then Some("")
    else if IsHighSurrogate(cs[0]) then
      if |cs| > 1 && IsLowSurrogate(cs[1]) then
        Prepend(Encode(0x1_0000 + 0x400 * (CodeUnit(cs[0]) - 0xD800) + (CodeUnit(cs[1]) - 0xDC00)), Denote(cs[2..]))
      else None
    else if IsLowSurrogate(cs[0]) then None
    else Prepend(DenoteOne(cs[0]), Denote(cs[1..]))
  }

  function DenoteOne(ch: StrChar): string
    requires ch.Valid() && !IsHighSurrogate(ch) && !IsLowSurrogate(ch)
  {
    match ch
    case Plain(c) => [c]
    case Short(c) => [ShortMeaning(c)]
    case Hex(_) => Encode(CodeUnit(ch))
  }

  function Prepend(s: string, t: Option<string>): Option<string> {
    match t
    case None => None
    case Some(t) => Some(s + t)
  }

  lemma {:induction false} PrependTwice(a: string, b: string, t: Option<string>)
    ensures Prepend(a, Prepend(b, t)) == Prepend(a + b, t)
    ensures Prepend("", t) == t
  {
    if t.Some? {
      assert a + (b + t.value) == a + b + t.value;
      assert "" + t.value == t.value;
    }
  }

  // ---- the reader's unescaping ---------------------------------------------------------------

  function ReadChar(s: string): (ch: Option<StrChar>)
    requires s != ""
    ensures ch.Some? ==> ch.value.Valid() && ch.value.Spell() <= s
  {
    if s[0] == '"' || s[0] < ' ' then None
    else if s[0] != '\\' then Some(Plain(s[0]))
    else if |s| < 2 then None
    else if s[1] == 'u' then
      if |s| >= 6 && Hex(s[2..6]).Valid() then Some(Hex(s[2..6])) else None
    else if IsShortEscape(s[1]) then Some(Short(s[1]))
    else None
  }

  function ReadChars(s: string): (cs: Option<seq<StrChar>>)
    ensures cs.Some? ==> AllValid(cs.value)
    decreases |s|
  {
    if s == "" then Some([])
    else
      match ReadChar(s)
      case None => None
      case Some(ch) =>
        match ReadChars(s[|ch.Spell()|..])
        case None => None
        case Some(cs) => Some([ch] + cs)
  }

  /** get_string() and unescaped_key(): what stands between the quotes, unescaped. */
  function Unescape(raw: string): Option<string> {
    match ReadChars(raw)
    case None => None
    case Some(cs) => Denote(cs)
  }

  lemma {:induction false} ReadCharOfSpell(ch: StrChar, rest: string)
    requires ch.Valid()
    ensures ReadChar(ch.Spell() + rest) == Some(ch)
  {
    var s := ch.Spell() + rest;
    if ch.Hex? {
      assert s[2..6] == ch.digits;
    }
  }

  lemma {:induction false} SpelledIsRead(cs: seq<StrChar>)
    requires AllValid(cs)
    ensures ReadChars(SpellAll(cs)) == Some(cs)
    decreases |cs|
  {
    if cs != [] {
      hide ReadChar, StrChar.Valid, StrChar.Spell;
      var rest := SpellAll(cs[1..]);
      SpelledIsRead(cs[1..]);
      ReadCharOfSpell(cs[0], rest);
      assert SpellAll(cs)[|cs[0].Spell()|..] == rest;
      assert cs == [cs[0]] + cs[1..];
    }
  }

  lemma {:induction false} SpellCons(ch: StrChar, cs: seq<StrChar>)
    ensures SpellAll([ch] + cs) == ch.Spell() + SpellAll(cs)
  {
    assert ([ch] + cs)[1..] == cs;
  }

  lemma {:induction false} ReadIsSpelled(s: string)
    requires ReadChars(s).Some?
    ensures SpellAll(ReadChars(s).value) == s
    decreases |s|
  {
    if s != "" {
      hide ReadChar, StrChar.Valid, StrChar.Spell, SpellAll, AllValid;
      var ch := ReadChar(s).value;
      var rest := s[|ch.Spell()|..];
      assert s == ch.Spell() + rest;
      ReadIsSpelled(rest);
      SpellCons(ch, ReadChars(rest).value);
    }
  }

  /** The reader recognises exactly the strings the grammar derives, each in one way. */
  lemma {:induction false} ReadCharsIsTheGrammar(s: string, cs: seq<StrChar>)
    ensures ReadChars(s) == Some(cs) <==> AllValid(cs) && SpellAll(cs) == s
  {
    if AllValid(cs) { SpelledIsRead(cs); }
    if ReadChars(s).Some? { ReadIsSpelled(s); }
  }

  /** RFC 8259 section 7: `s` is a string token. */
  ghost predicate IsJsonString(s: string) {
    exists cs: seq<StrChar> :: IsSpelledBy(s, cs)
  }

  ghost predicate IsSpelledBy(s: string, cs: seq<StrChar>) {
    AllValid(cs) && s == "\"" + SpellAll(cs) + "\""
  }

  /** `s` is a string token and stands for the text `t`. */
  ghost predicate StandsFor(s: string, t: string) {
    exists cs: seq<StrChar> :: IsSpelledBy(s, cs) && Denote(cs) == Some(t)
  }

  function Inner(l: string): string {
    if |l| < 2 then "" else l[1..|l| - 1]
  }

  /** Reading a quoted token succeeds with `t` exactly when the token stands for `t`. */
  lemma {:induction false} UnescapeIsTheMeaning(l: string, t: string)
    requires IsQuoted(l)
    ensures Unescape(Inner(l)) == Some(t) <==> StandsFor(l, t)
  {
    var raw := Inner(l);
    assert l == "\"" + raw + "\"";
    if Unescape(raw) == Some(t) {
      ReadCharsIsTheGrammar(raw, ReadChars(raw).value);
      assert IsSpelledBy(l, ReadChars(raw).value);
    }
    if StandsFor(l, t) {
      var cs :| IsSpelledBy(l, cs) && Denote(cs) == Some(t);
      assert Inner("\"" + SpellAll(cs) + "\"") == SpellAll(cs);
      ReadCharsIsTheGrammar(raw, cs);
    }
  }

  /** A spelled string ends at its own closing quote: no quote inside it is unescaped. */
  lemma {:induction false} SpelledEndsAtQuote(cs: seq<StrChar>)
    requires AllValid(cs)
    ensures QuoteLength(SpellAll(cs) + "\"") == Some(|SpellAll(cs)| + 1)
    decreases |cs|
  {
    LoneQuote();
    hide QuoteLength, StrChar.Spell, StrChar.Valid;
    var s := SpellAll(cs) + "\"";
    if cs == [] {
      assert s == "\"";
    } else {
      SpelledEndsAtQuote(cs[1..]);
      QuoteStep(cs[0], SpellAll(cs[1..]) + "\"");
      assert s == cs[0].Spell() + (SpellAll(cs[1..]) + "\"");
    }
  }

  lemma {:induction false} LoneQuote()
    ensures QuoteLength("\"") == Some(1)
  {
  }

  lemma {:induction false} QuoteStep(ch: StrChar, rest: string)
    requires ch.Valid() && QuoteLength(rest).Some?
    ensures QuoteLength(ch.Spell() + rest) == Some(|ch.Spell()| + QuoteLength(rest).value)
  {
    var s := ch.Spell() + rest;
    match ch
    case Plain(c) => assert s[1..] == rest;
    case Short(c) => assert s[2..] == rest;
    case Hex(d) => {
      assert s[2..] == d + rest;
      PlainPrefix(d, rest);
    }
  }

  lemma {:induction false} PlainPrefix(d: string, rest: string)
    requires forall k | 0 <= k < |d| :: Plain(d[k]).Valid()
    requires QuoteLength(rest).Some?
    ensures QuoteLength(d + rest) == Some(|d| + QuoteLength(rest).value)
    decreases |d|
  {
    if d == "" {
      assert d + rest == rest;
    } else {
      PlainPrefix(d[1..], rest);
      assert (d + rest)[1..] == d[1..] + rest;
    }
  }

  lemma {:induction false} JsonStringIsQuoted(l: string)
    requires IsJsonString(l)
    ensures IsQuoted(l)
  {
    var cs :| IsSpelledBy(l, cs);
    SpelledEndsAtQuote(cs);
    assert l[1..] == SpellAll(cs) + "\"";
  }

  /** What is read out of valid UTF-8 is valid UTF-8. */
  lemma {:induction false} DenoteIsUtf8(cs: seq<StrChar>)
    requires AllValid(cs) && ValidUtf8(SpellAll(cs)) && Denote(cs).Some?
    ensures ValidUtf8(Denote(cs).value)
    decreases |cs|
  {
    hide CodeUnit, Encode, CharLength, StrChar.Valid;
    if cs != [] {
      // A run of plain bytes is a stretch of UTF-8 on its own: what follows it is ASCII.
      var n := PlainRun(cs);
      if n > 0 {
        SpellSplit(cs, n);
        var a, b := SpellAll(cs[..n]), SpellAll(cs[n..]);
        assert b == "" || b[0] == '\\';
        ValidCut(a, b);
        hide ValidUtf8;
        DenotePlain(cs, n);
        DenoteIsUtf8(cs[n..]);
        ValidConcat(a, Denote(cs[n..]).value);
      } else {
        var k := if IsHighSurrogate(cs[0]) then 2 else 1;
        DropSpell(cs, k);
        DenoteIsUtf8(cs[k..]);
        DenoteHead(cs);
      }
    }
  }

  function PlainRun(cs: seq<StrChar>): (n: nat)
    ensures n <= |cs|
    ensures forall k | 0 <= k < n :: cs[k].Plain?
    ensures n < |cs| ==> !cs[n].Plain?
  {
    if cs == [] || !cs[0].Plain? then 0 else 1 + PlainRun(cs[1..])
  }

  lemma {:induction false} SpellSplit(cs: seq<StrChar>, n: nat)
    requires n <= |cs|
    ensures SpellAll(cs) == SpellAll(cs[..n]) + SpellAll(cs[n..])
    decreases n
  {
    if n > 0 {
      SpellSplit(cs[1..], n - 1);
      assert cs[..n][1..] == cs[1..][..n - 1] && cs[1..][n - 1..] == cs[n..];
    }
  }

  lemma {:induction false} DenotePlain(cs: seq<StrChar>, n: nat)
    requires AllValid(cs) && n <= |cs| && forall k | 0 <= k < n :: cs[k].Plain?
    ensures Denote(cs) == Prepend(SpellAll(cs[..n]), Denote(cs[n..]))
    decreases n
  {
    PrependTwice("", "", Denote(cs));
    if n > 0 {
      DenotePlain(cs[1..], n - 1);
      assert cs[..n][1..] == cs[1..][..n - 1] && cs[1..][n - 1..] == cs[n..];
      PrependTwice([cs[0].c], SpellAll(cs[1..n]), Denote(cs[n..]));
    } else {
      assert cs[n..] == cs;
    }
  }

  lemma {:induction false} DropSpell(cs: seq<StrChar>, k: nat)
    requires AllValid(cs) && ValidUtf8(SpellAll(cs)) && k <= |cs|
    requires forall j | 0 <= j < k :: !cs[j].Plain?
    ensures ValidUtf8(SpellAll(cs[k..]))
    decreases k
  {
    if k > 0 {
      AsciiPrefix(cs[0].Spell(), SpellAll(cs[1..]));
      DropSpell(cs[1..], k - 1);
      assert cs[1..][k - 1..] == cs[k..];
    }
  }

  lemma {:induction false} AsciiPrefix(a: string, b: string)
    requires forall k | 0 <= k < |a| :: a[k] < '\U{80}'
    ensures ValidUtf8(a + b) <==> ValidUtf8(b)
    decreases |a|
  {
    if a == "" {
      assert a + b == b;
    } else {
      AsciiPrefix(a[1..], b);
      assert (a + b)[1..] == a[1..] + b;
    }
  }

  /** The text of a leading escape is valid UTF-8 whatever follows. */
  lemma {:induction false} DenoteHead(cs: seq<StrChar>)
    requires AllValid(cs) && cs != [] && !cs[0].Plain? && Denote(cs).Some?
    ensures var k := if IsHighSurrogate(cs[0]) then 2 else 1;
            k <= |cs| && Denote(cs[k..]).Some?
            && (ValidUtf8(Denote(cs[k..]).value) ==> ValidUtf8(Denote(cs).value))
  {
    if IsHighSurrogate(cs[0]) {
      var cp := 0x1_0000 + 0x400 * (CodeUnit(cs[0]) - 0xD800) + (CodeUnit(cs[1]) - 0xDC00);
      EncodeIsValid(cp);
      if ValidUtf8(Denote(cs[2..]).value) { ValidConcat(Encode(cp), Denote(cs[2..]).value); }
    } else {
      var one := DenoteOne(cs[0]);
      if cs[0].Hex? {
        EncodeIsValid(CodeUnit(cs[0]));
      } else {
        assert one[1..] == "";
      }
      if ValidUtf8(Denote(cs[1..]).value) { ValidConcat(one, Denote(cs[1..]).value); }
    }
  }

  /** get_string() of a token of a UTF-8 body gives UTF-8. */
  lemma {:induction false} UnescapeIsUtf8(raw: string)
    requires ValidUtf8(raw) && Unescape(raw).Some?
    ensures ValidUtf8(Unescape(raw).value)
  {
    var cs := ReadChars(raw).value;
    ReadCharsIsTheGrammar(raw, cs);
    DenoteIsUtf8(cs);
  }

  // ---- the escaper --------------------------------------------------------------------------

  const HEX_DIGITS := "0123456789abcdef"

  /** What append_escaped() writes for one byte. */
  function EscapeOf(c: char): (ch: StrChar)
    ensures ch.Valid()
  {
    if c == '"' then Short('"')
    else if c == '\\' then Short('\\')
    else if c == '\U{8}' then Short('b')
    else if c == '\U{C}' then Short('f')
    else if c == '\n' then Short('n')
    else if c == '\r' then Short('r')
    else if c == '\t' then Short('t')
    else if c < ' ' then Hex("00" + [HEX_DIGITS[c as int / 16], HEX_DIGITS[c as int % 16]])
    else Plain(c)
  }

  lemma {:induction false} EscapeMeans(c: char)
    ensures var ch := EscapeOf(c); !IsHighSurrogate(ch) && !IsLowSurrogate(ch) && DenoteOne(ch) == [c]
  {
    var ch := EscapeOf(c);
    if ch.Hex? {
      HexRoundTrip(c as int / 16);
      HexRoundTrip(c as int % 16);
      assert CodeUnit(ch) == c as int;
    }
  }

  lemma {:induction false} HexRoundTrip(n: nat)
    requires n < 16
    ensures IsHexDigit(HEX_DIGITS[n]) && HexDigit(HEX_DIGITS[n]) == n
  {
  }

  function EscapeAll(value: string): (cs: seq<StrChar>)
    ensures AllValid(cs)
  {
    seq(|value|, k requires 0 <= k < |value| => EscapeOf(value[k]))
  }

  /** The quoted token written for `value`. */
  function Quoted(value: string): string {
    "\"" + SpellAll(EscapeAll(value)) + "\""
  }

  method AppendUnicodeEscape(out: string, byte: char) returns (r: string)
    requires byte < ' '
    ensures r == out + Hex("00" + [HEX_DIGITS[byte as int / 16], HEX_DIGITS[byte as int % 16]]).Spell()
  {
    var value := byte as int;
    r := out + "\\u00";
    r := r + [HEX_DIGITS[value / 16]];
    r := r + [HEX_DIGITS[value % 16]];
  }

  method AppendEscaped(out: string, character: char) returns (r: string)
    ensures r == out + EscapeOf(character).Spell()
  {
    match character
    case '"' => return out + "\\\"";
    case '\\' => return out + "\\\\";
    case '\U{8}' => return out + "\\b";
    case '\U{C}' => return out + "\\f";
    case '\n' => return out + "\\n";
    case '\r' => return out + "\\r";
    case '\t' => return out + "\\t";
    case _ =>
      if character < ' ' {
        r := AppendUnicodeEscape(out, character);
        return;
      }
      return out + [character];
  }

  /** append_json_string(): the token is appended to what is already in the buffer. */
  method AppendJsonString(out: string, value: string) returns (r: string)
    ensures r == out + Quoted(value)
  {
    hide SpellAll, EscapeAll, EscapeOf;
    EscapeNothing();
    r := out + "\"";
    for i := 0 to |value|
      invariant r == out + "\"" + SpellAll(EscapeAll(value[..i]))
    {
      EscapeNext(value, i);
      r := AppendEscaped(r, value[i]);
    }
    assert value[..|value|] == value;
    assert r + "\"" == out + Quoted(value);
    r := r + "\"";
  }

  /** Escaping is undone by reading, for every byte string. */
  lemma {:induction false} EscapeThenRead(value: string)
    ensures IsQuoted(Quoted(value))
    ensures StandsFor(Quoted(value), value)
    ensures Unescape(Inner(Quoted(value))) == Some(value)
  {
    var cs := EscapeAll(value);
    SpelledEndsAtQuote(cs);
    assert Quoted(value)[1..] == SpellAll(cs) + "\"";
    DenoteEscapes(value);
    assert IsSpelledBy(Quoted(value), cs);
    UnescapeIsTheMeaning(Quoted(value), value);
  }

  lemma {:induction false} DenoteEscapes(value: string)
    ensures Denote(EscapeAll(value)) == Some(value)
    decreases |value|
  {
    if value != "" {
      DenoteEscapes(value[1..]);
      EscapeMeans(value[0]);
      assert EscapeAll(value)[1..] == EscapeAll(value[1..]);
      assert value == [value[0]] + value[1..];
    }
  }

  /** No byte below 0x20 is left raw, and UTF-8 stays UTF-8. */
  lemma {:induction false} QuotedIsClean(value: string)
    ensures forall k | 0 <= k < |Quoted(value)| :: Quoted(value)[k] >= ' '
    ensures ValidUtf8(value) ==> ValidUtf8(Quoted(value))
  {
    var cs := EscapeAll(value);
    SpelledIsClean(cs);
    if ValidUtf8(value) {
      EscapesKeepUtf8(value);
      AsciiPrefix("\"", SpellAll(cs) + "\"");
      assert "\"" + (SpellAll(cs) + "\"") == Quoted(value);
      assert "\""[1..] == "";
      ValidConcat(SpellAll(cs), "\"");
    }
  }

  lemma {:induction false} SpelledIsClean(cs: seq<StrChar>)
    requires AllValid(cs)
    ensures forall k | 0 <= k < |SpellAll(cs)| :: SpellAll(cs)[k] >= ' '
    decreases |cs|
  {
    if cs != [] {
      SpelledIsClean(cs[1..]);
      assert forall k | 0 <= k < |cs[0].Spell()| :: cs[0].Spell()[k] >= ' ';
    }
  }

  lemma {:induction false} EscapesKeepUtf8(value: string)
    requires ValidUtf8(value)
    ensures ValidUtf8(SpellAll(EscapeAll(value)))
    decreases |value|
  {
    if value != "" {
      var n := CharLength(value);
      EscapesKeepUtf8(value[n..]);
      EscapeSplit(value, n);
      var b := SpellAll(EscapeAll(value[n..]));
      if n == 1 {
        assert value[..1] == [value[0]];
        EscapeSingle(value[0]);
        AsciiSpell(value[0], b);
      } else {
        EscapeVerbatim(value[..n]);
        assert CharLength(value[..n]) == n && value[..n][n..] == "";
        ValidConcat(value[..n], b);
      }
    }
  }

  lemma {:induction false} AsciiSpell(c: char, b: string)
    requires c < '\U{80}' && ValidUtf8(b)
    ensures ValidUtf8(EscapeOf(c).Spell() + b)
  {
    var a := EscapeOf(c).Spell();
    assert forall k | 0 <= k < |a| :: a[k] < '\U{80}';
    AsciiPrefix(a, b);
  }

  lemma {:induction false} EscapeSplit(value: string, n: nat)
    requires n <= |value|
    ensures SpellAll(EscapeAll(value)) == SpellAll(EscapeAll(value[..n])) + SpellAll(EscapeAll(value[n..]))
  {
    var cs := EscapeAll(value);
    SpellSplit(cs, n);
    assert cs[..n] == EscapeAll(value[..n]) && cs[n..] == EscapeAll(value[n..]);
  }

  lemma {:induction false} EscapeNothing()
    ensures SpellAll(EscapeAll("")) == ""
  {
  }

  lemma {:induction false} EscapeNext(value: string, n: nat)
    requires n < |value|
    ensures SpellAll(EscapeAll(value[..n + 1])) == SpellAll(EscapeAll(value[..n])) + EscapeOf(value[n]).Spell()
  {
    EscapeSplit(value[..n + 1], n);
    assert value[..n + 1][..n] == value[..n] && value[..n + 1][n..] == [value[n]];
    EscapeSingle(value[n]);
  }

  lemma {:induction false} EscapeSingle(c: char)
    ensures SpellAll(EscapeAll([c])) == EscapeOf(c).Spell()
  {
    assert EscapeAll([c]) == [EscapeOf(c)];
    assert SpellAll([EscapeOf(c)]) == EscapeOf(c).Spell() + SpellAll([]);
  }

  lemma {:induction false} EscapeVerbatim(value: string)
    requires forall k | 0 <= k < |value| :: value[k] >= '\U{80}'
    ensures SpellAll(EscapeAll(value)) == value
    decreases |value|
  {
    if value != "" {
      EscapeVerbatim(value[1..]);
      assert EscapeAll(value)[1..] == EscapeAll(value[1..]);
      assert value == [value[0]] + value[1..];
    }
  }
}
