/** The IngestResult object the ingest route answers with, and how it reads back. */
module IngestBodies {
  import opened Wrappers
  import opened Core
  import opened Utf8
  import opened JsonLexer
  import opened JsonString
  import opened JsonNumber
  import opened JsonGrammar
  import opened IndexRoutes
  import opened IndexBodies
  import opened JsonTimestamp

  datatype IngestResult = IngestResult(received: nat, indexed: nat, primaryKey: Option<string>, processingTimeMs: nat)

  function IngestMembers(r: IngestResult): seq<Member> {
    [Member(Quoted("received"), Scalar(Decimal(r.received))),
     Member(Quoted("indexed"), Scalar(Decimal(r.indexed)))]
    + LastMembers(r)
  }

  /** The primary key is left out when there is none. */
  function LastMembers(r: IngestResult): seq<Member> {
    (if r.primaryKey.Some? then [Member(Quoted("primaryKey"), Scalar(Quoted(r.primaryKey.value)))] else [])
    + [Member(Quoted("processingTimeMs"), Scalar(Decimal(r.processingTimeMs)))]
  }

  /** ingest_result_json() */
  method IngestResultJson(received: nat, indexed: nat, primaryKey: Option<string>, processingTimeMs: nat)
    returns (body: string)
    ensures body == ObjectText(IngestMembers(IngestResult(received, indexed, primaryKey, processingTimeMs)))
  {
    hide Quoted, Decimal, ObjectText, IngestMembers;
    body := "{\"received\":";
    body := body + Decimal(received);
    body := body + ",\"indexed\":";
    body := body + Decimal(indexed);
    if primaryKey.Some? {
      body := body + ",\"primaryKey\":";
      body := AppendJsonString(body, primaryKey.value);
    }
    body := body + ",\"processingTimeMs\":";
    body := body + Decimal(processingTimeMs);
    body := body + "}";
    IngestTextIs(IngestResult(received, indexed, primaryKey, processingTimeMs));
  }

  predicate IsIngestName(k: string) {
    k == "received" || k == "indexed" || k == "primaryKey" || k == "processingTimeMs"
  }

  lemma {:induction false} IngestName(k: string)
    requires IsIngestName(k)
    ensures Quoted(k) == "\"" + k + "\"" && ValidUtf8(k)
  {
    forall i | 0 <= i < |k| ensures IsUidCharacter(k[i]) {
    }
    hide IsIngestName;
    PlainName(k);
  }

  lemma {:induction false} IngestNames()
    ensures Quoted("received") == "\"received\"" && ValidUtf8("received")
    ensures Quoted("indexed") == "\"indexed\"" && ValidUtf8("indexed")
    ensures Quoted("primaryKey") == "\"primaryKey\"" && ValidUtf8("primaryKey")
    ensures Quoted("processingTimeMs") == "\"processingTimeMs\"" && ValidUtf8("processingTimeMs")
  {
    hide Quoted, ValidUtf8;
    IngestName("received");
    IngestName("indexed");
    IngestName("primaryKey");
    IngestName("processingTimeMs");
  }

  function KeyField(primaryKey: Option<string>): string {
    if primaryKey.Some? then ",\"primaryKey\":" + Quoted(primaryKey.value) else ""
  }

  lemma {:induction false} ReceivedLabel()
    ensures "{" + Quoted("received") + ":" == "{\"received\":"
  {
    hide Quoted, ValidUtf8;
    IngestNames();
  }

  lemma {:induction false} IndexedLabel()
    ensures "," + Quoted("indexed") + ":" == ",\"indexed\":"
  {
    hide Quoted, ValidUtf8;
    IngestNames();
  }

  lemma {:induction false} TimeLabel()
    ensures "," + Quoted("processingTimeMs") + ":" == ",\"processingTimeMs\":"
  {
    hide Quoted, ValidUtf8;
    IngestNames();
  }

  lemma {:induction false} ThreeFields(a: string, b: string, c: string, d: string, e: string, f: string)
    ensures RunTogether(Toks(Object([Member(a, Scalar(b)), Member(c, Scalar(d)), Member(e, Scalar(f))])))
            == ("{" + a + ":") + b + ("," + c + ":") + d + ("," + e + ":") + f + "}"
  {
    var three := [Member(e, Scalar(f))];
    var two := [Member(c, Scalar(d))] + three;
    var one := [Member(a, Scalar(b))] + two;
    assert one == [Member(a, Scalar(b)), Member(c, Scalar(d)), Member(e, Scalar(f))];
    assert Toks(Object(one)) == ["{"] + MemberToks(one);
    assert three == three + [];
    hide RunTogether, MemberToks, Toks;
    RunTogetherAppend(["{"], MemberToks(one));
    SingleToken("{");
    MembersText(a, b, two);
    MembersText(c, d, three);
    MembersText(e, f, []);
    assert "{" + (a + ":" + b + ("," + (c + ":" + d + ("," + (e + ":" + f + "}")))))
           == ("{" + a + ":") + b + ("," + c + ":") + d + ("," + e + ":") + f + "}";
  }

  lemma {:induction false} IngestTextIs(r: IngestResult)
    ensures ObjectText(IngestMembers(r))
            == "{\"received\":" + Decimal(r.received) + ",\"indexed\":" + Decimal(r.indexed)
               + KeyField(r.primaryKey) + ",\"processingTimeMs\":" + Decimal(r.processingTimeMs) + "}"
  {
    hide Quoted, Decimal, RunTogether, MemberToks, Toks;
    ReceivedLabel();
    IndexedLabel();
    TimeLabel();
    var received, indexed, time := Decimal(r.received), Decimal(r.indexed), Decimal(r.processingTimeMs);
    if r.primaryKey.Some? {
      var key := Quoted(r.primaryKey.value);
      PrimaryKeyLabel();
      FourFields(Quoted("received"), received, Quoted("indexed"), indexed, Quoted("primaryKey"), key,
        Quoted("processingTimeMs"), time);
      assert IngestMembers(r)
             == [Member(Quoted("received"), Scalar(received)), Member(Quoted("indexed"), Scalar(indexed)),
                 Member(Quoted("primaryKey"), Scalar(key)), Member(Quoted("processingTimeMs"), Scalar(time))];
    } else {
      ThreeFields(Quoted("received"), received, Quoted("indexed"), indexed, Quoted("processingTimeMs"), time);
      assert IngestMembers(r)
             == [Member(Quoted("received"), Scalar(received)), Member(Quoted("indexed"), Scalar(indexed)),
                 Member(Quoted("processingTimeMs"), Scalar(time))];
      assert "{\"received\":" + received + ",\"indexed\":" + indexed + KeyField(r.primaryKey)
             == "{\"received\":" + received + ",\"indexed\":" + indexed;
    }
  }

  // ---- and back -----------------------------------------------------------------------------

  /** What a number token without sign, fraction and exponent counts. */
  function Count(v: Value): Option<nat> {
    if !v.Scalar? || ReadNumber(v.lexeme).None? then None
    else
      var n := ReadNumber(v.lexeme).value;
      if n.minus || n.frac.Some? || n.exp.Some? then None else Some(DigitsValue(n.whole))
  }

  lemma {:induction false} DecimalFits(n: nat)
    ensures n < Power(10, n + 1)
    decreases n
  {
    if n > 0 { DecimalFits(n - 1); }
  }

  lemma {:induction false} DecimalLeads(n: nat)
    ensures ValidWhole(Decimal(n)) && (n > 0 ==> Decimal(n)[0] != '0')
    decreases n
  {
    if n >= 10 { DecimalLeads(n / 10); }
  }

  /** std::to_string() of a count is a JSON number, and says that count. */
  lemma {:induction false} DecimalReads(n: nat)
    ensures IsScalarToken(Decimal(n)) && !IsPunct(Decimal(n)) && ValidUtf8(Decimal(n))
    ensures Count(Scalar(Decimal(n))) == Some(n)
  {
    DecimalLeads(n);
    DecimalFits(n);
    hide ValidUtf8, Decimal, DigitsValue, Power, ReadNumber;
    DecimalValue(n, n + 1);
    var number := Number(false, Decimal(n), None, None);
    assert number.Spell() == Decimal(n);
    assert number.Valid();
    ReadNumberIsTheGrammar(Decimal(n), number);
    AsciiIsUtf8(Decimal(n));
  }

  /** An IngestResult, from the fields of an object in the order they are written. */
  function ReadIngest(ms: seq<Member>): Option<IngestResult> {
    if !KeysRead(ms) || |ms| < 3 || |ms| > 4 then None
    else
      var last := |ms| - 1;
      var received, indexed, time := Count(ms[0].value), Count(ms[1].value), Count(ms[last].value);
      if Decoded(ms[0]).0 != "received" || Decoded(ms[1]).0 != "indexed"
        || Decoded(ms[last]).0 != "processingTimeMs" then None
      else if received.None? || indexed.None? || time.None? then None
      else if |ms| == 3 then Some(IngestResult(received.value, indexed.value, None, time.value))
      else if Decoded(ms[2]).0 == "primaryKey" && Decoded(ms[2]).1.Str? then
        Some(IngestResult(received.value, indexed.value, Some(Decoded(ms[2]).1.text), time.value))
      else None
  }

  lemma {:induction false} IngestMembersRead(r: IngestResult)
    ensures ReadIngest(IngestMembers(r)) == Some(r)
  {
    hide Quoted, Decimal, Unescape, Inner, MeaningOf, ValidUtf8, Count, IsKey, IsJsonString, IsScalarToken, IsPunct;
    var ms := IngestMembers(r);
    IngestNames();
    KeyDecodes("received", ms[0].value);
    KeyDecodes("indexed", ms[1].value);
    KeyDecodes("processingTimeMs", ms[|ms| - 1].value);
    if r.primaryKey.Some? {
      KeyDecodes("primaryKey", ms[2].value);
      QuotedToken(r.primaryKey.value);
    }
    DecimalReads(r.received);
    DecimalReads(r.indexed);
    DecimalReads(r.processingTimeMs);
  }

  lemma {:induction false} NumberFieldIsClean(k: string, n: nat)
    requires ValidUtf8(k)
    ensures CleanField(Member(Quoted(k), Scalar(Decimal(n))))
  {
    hide Quoted, Decimal, ValidUtf8, IsScalarToken, IsPunct, Count, CleanField;
    DecimalReads(n);
    FieldIsClean(k, Decimal(n));
  }

  lemma {:induction false} IngestFieldsAreClean(r: IngestResult)
    requires r.primaryKey.Some? ==> ValidUtf8(r.primaryKey.value)
    ensures forall k | 0 <= k < |IngestMembers(r)| :: CleanField(IngestMembers(r)[k])
  {
    hide Quoted, Decimal, ValidUtf8, IsScalarToken, CleanField, IsPunct, IsKey, IsJsonString, MeaningOf;
    IngestNames();
    NumberFieldIsClean("received", r.received);
    NumberFieldIsClean("indexed", r.indexed);
    NumberFieldIsClean("processingTimeMs", r.processingTimeMs);
    if r.primaryKey.Some? {
      var key := r.primaryKey.value;
      QuotedToken(key);
      QuotedIsScalarToken(key);
      FieldIsClean("primaryKey", Quoted(key));
    }
  }

  /** An ingest body is a JSON text with three fields, or four when the index has a primary key, and
      they decode to the counts, the key and the time. */
  lemma {:induction false} IngestReadsBack(r: IngestResult)
    requires r.primaryKey.Some? ==> ValidUtf8(r.primaryKey.value)
    ensures exists ms: seq<Member> :: IsJsonText(ObjectText(IngestMembers(r)), Object(ms)) && ReadIngest(ms) == Some(r)
    ensures ParseText(ObjectText(IngestMembers(r))).Some?
    ensures var v := ParseText(ObjectText(IngestMembers(r))).value.1;
            && v.Object? && ReadIngest(v.members) == Some(r)
            && |v.members| == if r.primaryKey.Some? then 4 else 3
  {
    IngestFieldsAreClean(r);
    IngestMembersRead(r);
    assert |IngestMembers(r)| == if r.primaryKey.Some? then 4 else 3;
    hide ReadIngest, ValidUtf8, IngestMembers, CleanField, ParseText, IsJsonText, ObjectText;
    ObjectTextParses(IngestMembers(r));
  }

  /** What a client makes of an ingest body. */
  function ParseIngest(body: string): Option<IngestResult> {
    match ParseText(body)
    case Some((_, Object(ms))) => ReadIngest(ms)
    case _ => None
  }

  lemma {:induction false} IngestParses(r: IngestResult)
    requires r.primaryKey.Some? ==> ValidUtf8(r.primaryKey.value)
    ensures ParseIngest(ObjectText(IngestMembers(r))) == Some(r)
  {
    hide ParseText, ReadIngest, IngestMembers, ObjectText, ValidUtf8;
    IngestReadsBack(r);
  }
}
