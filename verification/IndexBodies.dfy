/** What the create-index route promises: requests are read by their meaning, and the Index object it
    answers with reads back as the metadata it was written from. */
module IndexBodies {
  import opened Wrappers
  import opened Core
  import opened Utf8
  import opened JsonLexer
  import opened JsonString
  import opened JsonNumber
  import opened JsonGrammar
  import opened IndexRoutes
  import DocumentBatches
  import JsonTimestamp

  // ---- requests -----------------------------------------------------------------------------

  /** The fields ask for `c`: one valid uid, at most one primaryKey that is a string or null, and
      nothing else, in any order. */
  ghost predicate Asks(ms: seq<Member>, c: Command) {
    && KeysRead(ms)
    && IsUid(c.uid)
    && var uid := multiset{("uid", Str(c.uid))};
       match c.primaryKey
       case Some(p) => DecodedAll(ms) == uid + multiset{("primaryKey", Str(p))}
       case None => DecodedAll(ms) == uid || DecodedAll(ms) == uid + multiset{("primaryKey", Null)}
  }

  lemma {:induction false} CommandIsAsked(ms: seq<Member>, c: Command)
    ensures CommandOf(Object(ms)) == Ok(c) <==> Asks(ms, c)
  {
    hide ReadAll, DecodedAll, KeysRead, IsUid;
    NothingYet();
    if CommandOf(Object(ms)) == Ok(c) {
      ReadAllIsTheSum(ms, NO_FIELDS, ReadAll(ms, NO_FIELDS).value);
      assert PartsOf(NO_FIELDS) + DecodedAll(ms) == DecodedAll(ms);
    }
    if Asks(ms, c) {
      var has := DecodedAll(ms) != multiset{("uid", Str(c.uid))};
      var f := Fields.Fields(Some(c.uid), has, c.primaryKey);
      if c.primaryKey.Some? { assert ("primaryKey", Str(c.primaryKey.value)) in DecodedAll(ms); }
      assert PartsOf(NO_FIELDS) + DecodedAll(ms) == PartsOf(f);
      ReadAllIsTheSum(ms, NO_FIELDS, f);
    }
  }

  lemma {:induction false} NothingYet()
    ensures PartsOf(NO_FIELDS) == multiset{} && Sound(NO_FIELDS)
  {
  }

  lemma {:induction false} DecodedIsIn(ms: seq<Member>, k: nat)
    requires KeysRead(ms) && k < |ms|
    ensures Decoded(ms[k]) in DecodedAll(ms)
    decreases |ms|
  {
    hide Unescape, Inner, MeaningOf;
    if k > 0 {
      assert forall j | 0 <= j < |ms| - 1 :: ms[1..][j] == ms[j + 1];
      DecodedIsIn(ms[1..], k - 1);
    }
  }

  lemma {:induction false} AskedIsWellFormed(ms: seq<Member>, c: Command)
    requires Asks(ms, c) && Shape(Object(ms)) && All(Object(ms), IsLexeme)
    ensures WellFormed(Object(ms))
  {
    forall k | 0 <= k < |ms|
      ensures IsScalarToken(ms[k].key) && All(ms[k].value, IsScalarToken)
    {
      DecodedIsIn(ms, k);
      assert ShapeOfMember(ms[k]);
      AskedMember(ms[k]);
    }
  }

  lemma {:induction false} AskedMember(m: Member)
    requires ShapeOfMember(m) && IsLexeme(m.key) && All(m.value, IsLexeme)
    requires Unescape(Inner(m.key)).Some? && !MeaningOf(m.value).Other?
    ensures IsScalarToken(m.key) && All(m.value, IsScalarToken)
  {
    KeyReadsAsToken(m.key);
    if m.value.Scalar? && m.value.lexeme != "null" {
      KeyReadsAsToken(m.value.lexeme);
    }
  }

  lemma {:induction false} KeyReadsAsToken(l: string)
    requires IsKey(l) && IsLexeme(l) && Unescape(Inner(l)).Some?
    ensures IsJsonString(l)
  {
    assert IsQuoted(l);
    hide Unescape, IsQuoted;
    var t := Unescape(Inner(l)).value;
    UnescapeIsTheMeaning(l, t);
    var cs :| IsSpelledBy(l, cs) && Denote(cs) == Some(t);
  }

  /** parse_create_index_request() accepts exactly the JSON texts of objects that ask for an index. */
  lemma {:induction false} AcceptsExactlyWhatAsks(body: string, c: Command)
    ensures Request(body) == Ok(c) <==> exists ms: seq<Member> :: IsJsonText(body, Object(ms)) && Asks(ms, c)
  {
    hide CommandOf, Asks;
    if exists ms: seq<Member> :: IsJsonText(body, Object(ms)) && Asks(ms, c) {
      var ms: seq<Member> :| IsJsonText(body, Object(ms)) && Asks(ms, c);
      ParseTextIsTheGrammar(body, Object(ms));
      CommandIsAsked(ms, c);
    }
    if Request(body) == Ok(c) {
      RequestObject(body, c);
      var ms := ParseText(body).value.1.members;
      CommandIsAsked(ms, c);
      ParsedTextIsDerived(body);
      DocumentBatches.ParsedScalarsAreLexemes(body);
      AskedIsWellFormed(ms, c);
      ParseTextIsTheGrammar(body, Object(ms));
    }
  }

  lemma {:induction false} RequestObject(body: string, c: Command)
    requires Request(body) == Ok(c)
    ensures ParseText(body).Some? && ParseText(body).value.1.Object? && CommandOf(ParseText(body).value.1) == Ok(c)
  {
    hide ParseText, ReadAll;
  }

  /** Field order, whitespace and the spelling of strings do not matter: bodies whose fields decode
      alike ask for the same index, or neither asks for one. */
  lemma {:induction false} MeaningDecides(body: string, other: string, ms: seq<Member>, ns: seq<Member>, c: Command)
    requires IsJsonText(body, Object(ms)) && IsJsonText(other, Object(ns))
    requires KeysRead(ms) && KeysRead(ns) && DecodedAll(ms) == DecodedAll(ns)
    ensures Request(body) == Ok(c) <==> Request(other) == Ok(c)
  {
    ParseTextIsTheGrammar(body, Object(ms));
    ParseTextIsTheGrammar(other, Object(ns));
    CommandIsAsked(ms, c);
    CommandIsAsked(ns, c);
  }

  /** The names and keys that came through the parser are UTF-8, as the printer requires. */
  lemma {:induction false} ReadPrimaryKeyIsUtf8(body: string, c: Command)
    requires Request(body) == Ok(c) && c.primaryKey.Some?
    ensures ValidUtf8(c.primaryKey.value)
  {
    RequestObject(body, c);
    var ms := ParseText(body).value.1.members;
    CommandIsAsked(ms, c);
    FindDecoded(ms, ("primaryKey", Str(c.primaryKey.value)));
    var k :| 0 <= k < |ms| && Decoded(ms[k]) == ("primaryKey", Str(c.primaryKey.value));
    ScalarTextIsUtf8(body, ms, k);
  }

  lemma {:induction false} FindDecoded(ms: seq<Member>, d: (string, Meaning))
    requires KeysRead(ms) && d in DecodedAll(ms)
    ensures exists k :: 0 <= k < |ms| && Decoded(ms[k]) == d
    decreases |ms|
  {
    hide Unescape, Inner, MeaningOf;
    if Decoded(ms[0]) != d {
      assert forall j | 0 <= j < |ms| - 1 :: ms[1..][j] == ms[j + 1];
      FindDecoded(ms[1..], d);
      var k :| 0 <= k < |ms[1..]| && Decoded(ms[1..][k]) == d;
      assert ms[k + 1] == ms[1..][k];
    }
  }

  lemma {:induction false} TokenSplit(ps: seq<Piece>, tail: string, i: nat) returns (a: string, z: string)
    requires i < |ps|
    ensures Weave(ps, tail) == a + (ps[i].lexeme + z)
  {
    var before, after := ps[..i], ps[i + 1..];
    assert ps == before + ([ps[i]] + after);
    WeaveAppend(before, [ps[i]] + after, tail);
    WeaveCons(ps[i], after, tail);
    a, z := Weave(before, "") + ps[i].gap, Weave(after, tail);
  }

  /** Any token of a UTF-8 body that starts and ends with a quote encloses UTF-8. */
  lemma {:induction false} TokenIsUtf8(ps: seq<Piece>, tail: string, i: nat)
    requires ValidUtf8(Weave(ps, tail)) && i < |ps| && IsQuoted(ps[i].lexeme)
    ensures ValidUtf8(Inner(ps[i].lexeme))
  {
    var a, z := TokenSplit(ps, tail, i);
    var l := ps[i].lexeme;
    var inner := Inner(l);
    assert l == "\"" + inner + "\"";
    hide Weave, ValidUtf8, IsQuoted, Inner;
    assert a + (l + z) == (a + ("\"" + inner)) + ("\"" + z);
    ValidCut(a + ("\"" + inner), "\"" + z);
    ValidCut(a, "\"" + inner);
    AsciiPrefix("\"", inner);
  }

  lemma {:induction false} ScalarTextIsUtf8(body: string, ms: seq<Member>, k: nat)
    requires ParseText(body).Some? && ParseText(body).value.1 == Object(ms) && k < |ms|
    requires MeaningOf(ms[k].value).Str?
    ensures ValidUtf8(MeaningOf(ms[k].value).text)
  {
    ParsedTextIsDerived(body);
    DocumentBatches.ParsedScalarsAreLexemes(body);
    var t := ParseText(body).value.0;
    var l := ms[k].value.lexeme;
    hide ParseText, Weave, ValidUtf8, Unescape;
    assert IsQuoted(l) by { assert All(ms[k].value, IsLexeme) && IsKey(l); }
    var i := MemberTokenAt(ms, k);
    assert Toks(Object(ms))[1 + i] == l;
    assert t.pieces[1 + i].lexeme == Lexemes(t.pieces)[1 + i] == l;
    TokenIsUtf8(t.pieces, t.tail, 1 + i);
    UnescapeIsUtf8(Inner(l));
  }

  lemma {:induction false} MemberTokenAt(ms: seq<Member>, k: nat) returns (i: nat)
    requires k < |ms| && ms[k].value.Scalar?
    ensures i < |MemberToks(ms)| && MemberToks(ms)[i] == ms[k].value.lexeme
    decreases |ms|
  {
    if k == 0 {
      i := 2;
      assert Toks(ms[0].value) == [ms[0].value.lexeme];
    } else {
      var j := MemberTokenAt(ms[1..], k - 1);
      i := |ToksOfMember(ms[0])| + 1 + j;
    }
  }

  // ---- the Index object -------------------------------------------------------------------------

  /** What can be written: what IndexUid, the parser and a real clock produce. */
  predicate Writable(m: IndexMetadata) {
    && IsUid(m.uid)
    && (m.primaryKey.Some? ==> ValidUtf8(m.primaryKey.value))
    && JsonTimestamp.InRange(m.createdAt)
    && JsonTimestamp.InRange(m.updatedAt)
  }

  function PrimaryKeyToken(m: IndexMetadata): string {
    if m.primaryKey.Some? then Quoted(m.primaryKey.value) else "null"
  }

  function TimestampToken(t: JsonTimestamp.Timestamp): string
    requires JsonTimestamp.InRange(t)
  {
    "\"" + JsonTimestamp.TimestampText(t) + "\""
  }

  function IndexMembers(m: IndexMetadata): seq<Member>
    requires JsonTimestamp.InRange(m.createdAt) && JsonTimestamp.InRange(m.updatedAt)
  {
    [Member(Quoted("uid"), Scalar(Quoted(m.uid))),
     Member(Quoted("primaryKey"), Scalar(PrimaryKeyToken(m))),
     Member(Quoted("createdAt"), Scalar(TimestampToken(m.createdAt))),
     Member(Quoted("updatedAt"), Scalar(TimestampToken(m.updatedAt)))]
  }

  /** Tokens run together, with no whitespace. */
  function RunTogether(ls: seq<string>): string {
    if ls == [] then "" else ls[0] + RunTogether(ls[1..])
  }

  function Bare(ls: seq<string>): (ps: seq<Piece>)
    ensures Lexemes(ps) == ls
  {
    seq(|ls|, k requires 0 <= k < |ls| => Piece("", ls[k]))
  }

  /** An object, its tokens run together. */
  function ObjectText(ms: seq<Member>): string {
    RunTogether(Toks(Object(ms)))
  }

  function IndexText(m: IndexMetadata): string
    requires JsonTimestamp.InRange(m.createdAt) && JsonTimestamp.InRange(m.updatedAt)
  {
    ObjectText(IndexMembers(m))
  }

  lemma {:induction false} RunTogetherAppend(a: seq<string>, b: seq<string>)
    ensures RunTogether(a + b) == RunTogether(a) + RunTogether(b)
    decreases |a|
  {
    if a == [] {
      assert a + b == b;
    } else {
      RunTogetherAppend(a[1..], b);
      assert (a + b)[1..] == a[1..] + b;
    }
  }

  lemma {:induction false} WeaveBare(ls: seq<string>)
    ensures Weave(Bare(ls), "") == RunTogether(ls)
    decreases |ls|
  {
    if ls != [] {
      WeaveBare(ls[1..]);
      assert Bare(ls)[1..] == Bare(ls[1..]);
    }
  }

  /** The text of one scalar field, and of the fields after it. */
  lemma {:induction false} MembersText(k: string, l: string, rest: seq<Member>)
    ensures RunTogether(MemberToks([Member(k, Scalar(l))] + rest))
            == k + ":" + l + (if rest == [] then "}" else "," + RunTogether(MemberToks(rest)))
  {
    var m := Member(k, Scalar(l));
    var after := if rest == [] then ["}"] else [","] + MemberToks(rest);
    assert ToksOfMember(m) == [k] + ([":"] + [l]);
    assert MemberToks([m] + rest) == ToksOfMember(m) + after by { assert ([m] + rest)[1..] == rest; }
    hide RunTogether, MemberToks, ToksOfMember;
    RunTogetherAppend(ToksOfMember(m), after);
    RunTogetherAppend([k], [":"] + [l]);
    RunTogetherAppend([":"], [l]);
    SingleToken(k);
    SingleToken(l);
    SingleToken(":");
    SingleToken("}");
    SingleToken(",");
    if rest != [] { RunTogetherAppend([","], MemberToks(rest)); }
  }

  lemma {:induction false} SingleToken(l: string)
    ensures RunTogether([l]) == l
  {
    assert RunTogether([l]) == l + RunTogether([]);
  }

  lemma {:induction false} FourFields(a: string, b: string, c: string, d: string, e: string, f: string, g: string,
      h: string)
    ensures var ms := [Member(a, Scalar(b)), Member(c, Scalar(d)), Member(e, Scalar(f)), Member(g, Scalar(h))];
            RunTogether(Toks(Object(ms)))
            == ("{" + a + ":") + b + ("," + c + ":") + d + ("," + e + ":") + f + ("," + g + ":") + h + "}"
  {
    var four := [Member(g, Scalar(h))];
    var three := [Member(e, Scalar(f))] + four;
    var two := [Member(c, Scalar(d))] + three;
    var one := [Member(a, Scalar(b))] + two;
    assert one == [Member(a, Scalar(b)), Member(c, Scalar(d)), Member(e, Scalar(f)), Member(g, Scalar(h))];
    assert Toks(Object(one)) == ["{"] + MemberToks(one);
    assert four == four + [];
    hide RunTogether, MemberToks, Toks;
    RunTogetherAppend(["{"], MemberToks(one));
    SingleToken("{");
    MembersText(a, b, two);
    MembersText(c, d, three);
    MembersText(e, f, four);
    MembersText(g, h, []);
    Chain(a, b, c, d, e, f, g, h);
  }

  lemma {:induction false} Chain(a: string, b: string, c: string, d: string, e: string, f: string, g: string, h: string)
    ensures "{" + (a + ":" + b + ("," + (c + ":" + d + ("," + (e + ":" + f + ("," + (g + ":" + h + "}")))))))
            == ("{" + a + ":") + b + ("," + c + ":") + d + ("," + e + ":") + f + ("," + g + ":") + h + "}"
  {
  }

  /** The four names need no escape. */
  predicate IsName(k: string) {
    k == "uid" || k == "primaryKey" || k == "createdAt" || k == "updatedAt"
  }

  lemma {:induction false} PlainKey(k: string)
    requires IsName(k)
    ensures Quoted(k) == "\"" + k + "\"" && ValidUtf8(k)
  {
    forall i | 0 <= i < |k| ensures IsUidCharacter(k[i]) {
    }
    hide IsName;
    PlainName(k);
  }

  lemma {:induction false} PlainName(k: string)
    requires forall i | 0 <= i < |k| :: IsUidCharacter(k[i])
    ensures Quoted(k) == "\"" + k + "\"" && ValidUtf8(k)
  {
    PlainQuoted(k);
    AsciiIsUtf8(k);
  }

  lemma {:induction false} IndexTextIs(m: IndexMetadata)
    requires JsonTimestamp.InRange(m.createdAt) && JsonTimestamp.InRange(m.updatedAt)
    ensures IndexText(m)
            == "{\"uid\":" + Quoted(m.uid) + ",\"primaryKey\":" + PrimaryKeyToken(m)
               + ",\"createdAt\":" + TimestampToken(m.createdAt) + ",\"updatedAt\":" + TimestampToken(m.updatedAt) + "}"
  {
    hide Quoted, TimestampToken, PrimaryKeyToken, JsonTimestamp.InRange, RunTogether, Toks, MemberToks;
    FourFields(Quoted("uid"), Quoted(m.uid), Quoted("primaryKey"), PrimaryKeyToken(m),
               Quoted("createdAt"), TimestampToken(m.createdAt), Quoted("updatedAt"), TimestampToken(m.updatedAt));
    UidLabel();
    PrimaryKeyLabel();
    CreatedAtLabel();
    UpdatedAtLabel();
  }

  lemma {:induction false} Names()
    ensures IsName("uid") && IsName("primaryKey") && IsName("createdAt") && IsName("updatedAt")
  {
  }

  lemma {:induction false} UidLabel()
    ensures "{" + Quoted("uid") + ":" == "{\"uid\":"
  {
    hide Quoted, ValidUtf8, IsName;
    Names();
    PlainKey("uid");
  }

  lemma {:induction false} PrimaryKeyLabel()
    ensures "," + Quoted("primaryKey") + ":" == ",\"primaryKey\":"
  {
    hide Quoted, ValidUtf8, IsName;
    Names();
    PlainKey("primaryKey");
  }

  lemma {:induction false} CreatedAtLabel()
    ensures "," + Quoted("createdAt") + ":" == ",\"createdAt\":"
  {
    hide Quoted, ValidUtf8, IsName;
    Names();
    PlainKey("createdAt");
  }

  lemma {:induction false} UpdatedAtLabel()
    ensures "," + Quoted("updatedAt") + ":" == ",\"updatedAt\":"
  {
    hide Quoted, ValidUtf8, IsName;
    Names();
    PlainKey("updatedAt");
  }

  /** index_json() */
  method IndexJson(m: IndexMetadata) returns (body: string)
    requires JsonTimestamp.InRange(m.createdAt) && JsonTimestamp.InRange(m.updatedAt)
    ensures body == IndexText(m)
  {
    hide Quoted, JsonTimestamp.InRange, JsonTimestamp.TimestampText, IndexText;
    body := "{\"uid\":";
    body := AppendJsonString(body, m.uid);
    body := body + ",\"primaryKey\":";
    if m.primaryKey.Some? {
      body := AppendJsonString(body, m.primaryKey.value);
    } else {
      body := body + "null";
    }
    body := body + ",\"createdAt\":";
    body := JsonTimestamp.AppendJsonTimestamp(body, m.createdAt);
    body := body + ",\"updatedAt\":";
    body := JsonTimestamp.AppendJsonTimestamp(body, m.updatedAt);
    body := body + "}";
    IndexTextIs(m);
  }

  // ---- and back ---------------------------------------------------------------------------------

  /** A text of bytes that need no escape is quoted as it is. */
  lemma {:induction false} PlainQuoted(s: string)
    requires forall k | 0 <= k < |s| :: EscapeOf(s[k]) == Plain(s[k])
    ensures Quoted(s) == "\"" + s + "\""
  {
    SpellPlain(EscapeAll(s), s);
  }

  lemma {:induction false} SpellPlain(cs: seq<StrChar>, s: string)
    requires |cs| == |s| && forall k | 0 <= k < |s| :: cs[k] == Plain(s[k])
    ensures SpellAll(cs) == s
    decreases |s|
  {
    if s != "" {
      SpellPlain(cs[1..], s[1..]);
      assert s == [s[0]] + s[1..];
    }
  }

  /** A timestamp token is the string token of its text. */
  lemma {:induction false} TimestampTokenIsQuoted(t: JsonTimestamp.Timestamp)
    requires JsonTimestamp.InRange(t)
    ensures TimestampToken(t) == Quoted(JsonTimestamp.TimestampText(t))
    ensures ValidUtf8(JsonTimestamp.TimestampText(t))
  {
    var s := JsonTimestamp.TimestampText(t);
    JsonTimestamp.TimestampReadsBack(t);
    hide JsonTimestamp.TimestampText, JsonTimestamp.Instant, JsonTimestamp.ReadFields, JsonTimestamp.InRange;
    LayoutIsPlain(s);
    PlainQuoted(s);
    AsciiIsUtf8(s);
  }

  lemma {:induction false} LayoutIsPlain(s: string)
    requires JsonTimestamp.HasLayout(s)
    ensures forall k | 0 <= k < |s| :: EscapeOf(s[k]) == Plain(s[k]) && s[k] < '\U{80}'
  {
    forall k | 0 <= k < |s| ensures IsDigit(s[k]) || s[k] in "-T:.Z" {
      assert k < 4 || k == 4 || 5 <= k < 7 || k == 7 || 8 <= k < 10 || k == 10 || 11 <= k < 13 || k == 13
          || 14 <= k < 16
             || k == 16 || 17 <= k < 19 || k == 19 || 20 <= k < 23 || k == 23;
    }
  }

  lemma {:induction false} AsciiIsUtf8(s: string)
    requires forall k | 0 <= k < |s| :: s[k] < '\U{80}'
    ensures ValidUtf8(s)
  {
    AsciiPrefix(s, "");
    assert s + "" == s;
  }

  lemma {:induction false} UidIsUtf8(uid: string)
    requires IsUid(uid)
    ensures ValidUtf8(uid)
  {
    AsciiIsUtf8(uid);
  }

  /** A quoted token is a string token of the grammar, reads as its value, and keeps UTF-8. */
  lemma {:induction false} QuotedToken(value: string)
    ensures IsJsonString(Quoted(value)) && IsKey(Quoted(value)) && !IsPunct(Quoted(value))
    ensures MeaningOf(Scalar(Quoted(value))) == Str(value)
    ensures ValidUtf8(value) ==> ValidUtf8(Quoted(value))
  {
    EscapeThenRead(value);
    QuotedIsClean(value);
    assert IsSpelledBy(Quoted(value), EscapeAll(value));
    assert Quoted(value)[0] == '"';
    hide Unescape, Quoted, ValidUtf8;
  }

  /** The fields of an Index object, read back. */
  function ReadIndex(ms: seq<Member>): Option<IndexMetadata> {
    if |ms| != 4 || !KeysRead(ms) then None
    else
      var uid, key, created, updated := Decoded(ms[0]), Decoded(ms[1]), Decoded(ms[2]), Decoded(ms[3]);
      if uid.0 == "uid" && key.0 == "primaryKey" && created.0 == "createdAt" && updated.0 == "updatedAt"
         && uid.1.Str? && !key.1.Other? && created.1.Str? && updated.1.Str?
         && JsonTimestamp.HasLayout(created.1.text) && JsonTimestamp.HasLayout(updated.1.text)
      then Some(IndexMetadata(uid.1.text, if key.1.Str? then Some(key.1.text) else None,
                              JsonTimestamp.Instant(JsonTimestamp.ReadFields(created.1.text)),
                              JsonTimestamp.Instant(JsonTimestamp.ReadFields(updated.1.text))))
      else None
  }

  lemma {:induction false} KeyDecodes(k: string, v: Value)
    requires ValidUtf8(k)
    ensures var m := Member(Quoted(k), v);
            && IsKey(m.key) && IsJsonString(m.key) && ValidUtf8(m.key)
            && Unescape(Inner(m.key)) == Some(k) && Decoded(m) == (k, MeaningOf(v))
  {
    EscapeThenRead(k);
    QuotedToken(k);
  }

  lemma {:induction false} NamesDecode(ms: seq<Member>)
    requires |ms| == 4 && ms[0].key == Quoted("uid") && ms[1].key == Quoted("primaryKey")
    requires ms[2].key == Quoted("createdAt") && ms[3].key == Quoted("updatedAt")
    ensures KeysRead(ms)
    ensures forall k | 0 <= k < 4 :: IsKey(ms[k].key) && IsJsonString(ms[k].key) && ValidUtf8(ms[k].key)
    ensures Decoded(ms[0]) == ("uid", MeaningOf(ms[0].value))
            && Decoded(ms[1]) == ("primaryKey", MeaningOf(ms[1].value))
    ensures Decoded(ms[2]) == ("createdAt", MeaningOf(ms[2].value))
            && Decoded(ms[3]) == ("updatedAt", MeaningOf(ms[3].value))
  {
    hide Quoted, Unescape, Inner, MeaningOf, ValidUtf8, IsKey, IsJsonString;
    PlainKey("uid");
    PlainKey("primaryKey");
    PlainKey("createdAt");
    PlainKey("updatedAt");
    KeyDecodes("uid", ms[0].value);
    KeyDecodes("primaryKey", ms[1].value);
    KeyDecodes("createdAt", ms[2].value);
    KeyDecodes("updatedAt", ms[3].value);
  }

  lemma {:induction false} TimestampMeaning(t: JsonTimestamp.Timestamp)
    requires JsonTimestamp.InRange(t)
    ensures MeaningOf(Scalar(TimestampToken(t))) == Str(JsonTimestamp.TimestampText(t))
    ensures IsScalarToken(TimestampToken(t)) && TimestampToken(t) != "" && !IsPunct(TimestampToken(t))
            && ValidUtf8(TimestampToken(t))
  {
    TimestampTokenIsQuoted(t);
    QuotedToken(JsonTimestamp.TimestampText(t));
  }

  lemma {:induction false} PrimaryKeyTokenMeaning(m: IndexMetadata)
    requires m.primaryKey.Some? ==> ValidUtf8(m.primaryKey.value)
    ensures MeaningOf(Scalar(PrimaryKeyToken(m))) == if m.primaryKey.Some? then Str(m.primaryKey.value) else Null
    ensures IsScalarToken(PrimaryKeyToken(m)) && PrimaryKeyToken(m) != "" && !IsPunct(PrimaryKeyToken(m))
            && ValidUtf8(PrimaryKeyToken(m))
  {
    if m.primaryKey.Some? { QuotedToken(m.primaryKey.value); } else { AsciiIsUtf8("null"); }
  }

  lemma {:induction false} IndexMembersRead(m: IndexMetadata)
    requires Writable(m)
    ensures ReadIndex(IndexMembers(m)) == Some(m)
  {
    hide Unescape, Inner, Quoted, TimestampToken, PrimaryKeyToken, MeaningOf, ValidUtf8, KeysRead, Decoded, IsUid,
      JsonTimestamp.HasLayout, JsonTimestamp.Instant, JsonTimestamp.ReadFields, JsonTimestamp.TimestampText,
      JsonTimestamp.InRange, JsonTimestamp.ValidFields;
    NamesDecode(IndexMembers(m));
    QuotedToken(m.uid);
    PrimaryKeyTokenMeaning(m);
    TimestampMeaning(m.createdAt);
    TimestampMeaning(m.updatedAt);
    JsonTimestamp.TimestampReadsBack(m.createdAt);
    JsonTimestamp.TimestampReadsBack(m.updatedAt);
  }

  /** A scalar field in UTF-8 that the grammar derives. */
  ghost predicate CleanField(m: Member) {
    && ShapeOfMember(m) && m.value.Scalar?
    && IsScalarToken(m.key) && IsScalarToken(m.value.lexeme)
    && ValidUtf8(m.key) && ValidUtf8(m.value.lexeme)
  }

  lemma {:induction false} FieldIsClean(k: string, l: string)
    requires ValidUtf8(k) && l != "" && !IsPunct(l) && IsScalarToken(l) && ValidUtf8(l)
    ensures CleanField(Member(Quoted(k), Scalar(l)))
  {
    hide Quoted, ValidUtf8, IsJsonString, IsPunct, IsKey;
    QuotedToken(k);
    assert Shape(Scalar(l));
    assert ShapeOfMember(Member(Quoted(k), Scalar(l)));
    assert IsScalarToken(Quoted(k));
  }

  lemma {:induction false} IndexFieldsAreClean(m: IndexMetadata)
    requires Writable(m)
    ensures forall k | 0 <= k < |IndexMembers(m)| :: CleanField(IndexMembers(m)[k])
  {
    hide Quoted, TimestampToken, PrimaryKeyToken, ValidUtf8, JsonTimestamp.InRange, IsUid, IsJsonString, CleanField,
      IsKey, IsPunct, IsName, IsScalarToken, MeaningOf;
    Names();
    QuotedIsScalarToken(m.uid);
    QuotedToken(m.uid);
    UidIsUtf8(m.uid);
    PrimaryKeyTokenMeaning(m);
    TimestampMeaning(m.createdAt);
    TimestampMeaning(m.updatedAt);
    PlainKey("uid");
    PlainKey("primaryKey");
    PlainKey("createdAt");
    PlainKey("updatedAt");
    FieldIsClean("uid", Quoted(m.uid));
    FieldIsClean("primaryKey", PrimaryKeyToken(m));
    FieldIsClean("createdAt", TimestampToken(m.createdAt));
    FieldIsClean("updatedAt", TimestampToken(m.updatedAt));
  }

  lemma {:induction false} QuotedIsScalarToken(value: string)
    ensures IsScalarToken(Quoted(value)) && Quoted(value) != ""
  {
    QuotedToken(value);
  }

  lemma {:induction false} CleanIsWellFormed(ms: seq<Member>)
    requires forall k | 0 <= k < |ms| :: CleanField(ms[k])
    ensures WellFormed(Object(ms))
  {
    hide IsJsonString, ValidUtf8;
    forall k | 0 <= k < |ms|
      ensures ShapeOfMember(ms[k]) && IsScalarToken(ms[k].key) && All(ms[k].value, IsScalarToken)
    {
      assert CleanField(ms[k]);
    }
  }

  lemma {:induction false} BraceIsUtf8()
    ensures ValidUtf8("{")
  {
    AsciiIsUtf8("{");
  }

  lemma {:induction false} MembersUtf8(ms: seq<Member>)
    requires forall k | 0 <= k < |ms| :: CleanField(ms[k])
    ensures ValidUtf8(RunTogether(MemberToks(ms)))
    decreases |ms|
  {
    AsciiIsUtf8("}");
    AsciiIsUtf8(":");
    AsciiIsUtf8(",");
    hide ValidUtf8, ShapeOfMember, IsScalarToken;
    if ms == [] {
      SingleToken("}");
    } else {
      var m, rest := ms[0], ms[1..];
      MembersUtf8(rest);
      MembersText(m.key, m.value.lexeme, rest);
      assert ms == [m] + rest;
      var after := if rest == [] then "}" else "," + RunTogether(MemberToks(rest));
      if rest != [] { ValidConcat(",", RunTogether(MemberToks(rest))); }
      ValidConcat(m.key, ":");
      ValidConcat(m.key + ":", m.value.lexeme);
      ValidConcat(m.key + ":" + m.value.lexeme, after);
    }
  }

  lemma {:induction false} ObjectTextIsUtf8(ms: seq<Member>)
    requires forall k | 0 <= k < |ms| :: CleanField(ms[k])
    ensures ValidUtf8(ObjectText(ms))
  {
    hide ValidUtf8, MemberToks, RunTogether, CleanField;
    MembersUtf8(ms);
    BraceIsUtf8();
    ValidConcat("{", RunTogether(MemberToks(ms)));
    assert Toks(Object(ms)) == ["{"] + MemberToks(ms);
    RunTogetherAppend(["{"], MemberToks(ms));
    SingleToken("{");
  }

  /** An object of clean fields is written as a JSON text, and parses as that object. */
  lemma {:induction false} ObjectTextParses(ms: seq<Member>)
    requires forall k | 0 <= k < |ms| :: CleanField(ms[k])
    ensures IsJsonText(ObjectText(ms), Object(ms))
    ensures ParseText(ObjectText(ms)).Some? && ParseText(ObjectText(ms)).value.1 == Object(ms)
  {
    var v := Object(ms);
    var t := Text(Bare(Toks(v)), "");
    CleanIsWellFormed(ms);
    ObjectTextIsUtf8(ms);
    WeaveBare(Toks(v));
    NoGaps(Toks(v));
    assert Derives(t, v);
    DerivationIsValid(t, v);
    hide WellFormed, Toks, CleanField;
    DerivedTextIsParsed(t, v);
    ParseTextIsTheGrammar(ObjectText(ms), v);
  }

  /** An Index body is a JSON text with exactly the four fields, and they decode to the metadata. */
  lemma {:induction false} IndexReadsBack(m: IndexMetadata)
    requires Writable(m)
    ensures exists ms: seq<Member> :: IsJsonText(IndexText(m), Object(ms)) && ReadIndex(ms) == Some(m)
    ensures ParseText(IndexText(m)).Some?
    ensures var v := ParseText(IndexText(m)).value.1; v.Object? && ReadIndex(v.members) == Some(m)
  {
    IndexFieldsAreClean(m);
    IndexMembersRead(m);
    hide ReadIndex, Writable, IndexMembers, CleanField, ParseText, IsJsonText, Toks;
    ObjectTextParses(IndexMembers(m));
  }

  lemma {:induction false} NoGaps(ls: seq<string>)
    ensures IsGap("") && forall k | 0 <= k < |Bare(ls)| :: IsGap(Bare(ls)[k].gap)
  {
  }

  /** What a client makes of an Index body. */
  function ParseIndex(body: string): Option<IndexMetadata> {
    match ParseText(body)
    case Some((_, Object(ms))) => ReadIndex(ms)
    case _ => None
  }

  /** The metadata an accepted request leads to can be written, at any time a clock can tell. */
  lemma {:induction false} RequestIsWritable(body: string, c: Command, now: int)
    requires Request(body) == Ok(c) && JsonTimestamp.InRange(now)
    ensures Writable(IndexMetadata(c.uid, c.primaryKey, now, now))
  {
    RequestObject(body, c);
    CommandIsAsked(ParseText(body).value.1.members, c);
    if c.primaryKey.Some? { ReadPrimaryKeyIsUtf8(body, c); }
  }

  lemma {:induction false} IndexParses(m: IndexMetadata)
    requires Writable(m)
    ensures ParseIndex(IndexText(m)) == Some(m)
  {
    hide ParseText, ReadIndex, IndexText, Writable;
    IndexReadsBack(m);
  }
}
