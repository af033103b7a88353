/** What parse_document_batch() promises about whole bodies. */
module DocumentBatches {
  import opened Wrappers
  import opened Utf8
  import opened JsonLexer
  import opened JsonString
  import opened JsonNumber
  import opened JsonNumberValues
  import opened JsonGrammar
  import opened OnDemandReader
  import opened DocumentRoutes

  // ---- reading every value once is strict parsing -----------------------------------------------

  /** What the grammar allows and the server can hold: a number whose value is below 2^1024 - 2^970, so
      that it rounds to a finite double, and a string that stands for Unicode text. */
  ghost predicate Representable(l: string) {
    && (forall n: Number :: n.Valid() && n.Spell() == l ==> Magnitude(n) < Bound() as real)
    && (IsJsonString(l) ==> exists t: string :: StandsFor(l, t))
  }

  ghost predicate StrictScalar(l: string) {
    IsScalarToken(l) && Representable(l)
  }

  /** A JSON array of 1 to 10 000 objects, whose values nest at most 128 levels below each object. */
  ghost predicate StrictBatch(body: string, items: seq<Value>) {
    && IsJsonText(body, Array(items))
    && 1 <= |items| <= 10_000
    && (forall k | 0 <= k < |items| :: items[k].Object?)
    && (forall k | 0 <= k < |items| :: All(items[k], Representable))
    && (forall k | 0 <= k < |items| :: Height(items[k]) - 1 <= 128)
  }

  lemma {:induction false} NumbersAreRuns(l: string)
    ensures forall n: Number :: n.Valid() && n.Spell() == l ==> IsRun(l) && TypeOf(l) == NumberType
  {
    forall n: Number | n.Valid() && n.Spell() == l ensures IsRun(l) && TypeOf(l) == NumberType {
      JsonNumberIsRun(n);
    }
  }

  lemma {:induction false} StringReadsIsStrict(l: string)
    requires IsQuoted(l)
    ensures ScalarReads(l) <==> StrictScalar(l)
  {
    assert TypeOf(l) == StringType && !IsRun(l);
    NumbersAreRuns(l);
    hide Unescape, IsQuoted, IsRun;
    if ScalarReads(l) {
      var t := Unescape(Inner(l)).value;
      UnescapeIsTheMeaning(l, t);
      var cs :| IsSpelledBy(l, cs) && Denote(cs) == Some(t);
      assert IsJsonString(l);
    }
    if StrictScalar(l) {
      var t: string :| StandsFor(l, t);
      UnescapeIsTheMeaning(l, t);
    }
  }

  lemma {:induction false} NumberReadsIsStrict(l: string)
    ensures ReadsAsDouble(l)
            <==> IsJsonNumber(l) && forall n: Number :: n.Valid() && n.Spell() == l ==> Magnitude(n) < Bound() as real
  {
    hide ReadNumber, InDoubleRange, Magnitude, Bound;
    forall n: Number | n.Valid() && n.Spell() == l
      ensures ReadNumber(l) == Some(n) && (ReadsAsDouble(l) <==> Magnitude(n) < Bound() as real)
    {
      ReadNumberIsTheGrammar(l, n);
      ReadsByValue(n);
    }
    if ReadNumber(l).Some? {
      ReadNumberIsTheGrammar(l, ReadNumber(l).value);
    }
  }

  lemma {:induction false} RunReadsIsStrict(l: string)
    requires IsRun(l)
    ensures ScalarReads(l) <==> StrictScalar(l)
  {
    assert IsRunChar(l[0]);
    assert !IsJsonString(l);
    hide ReadsAsDouble, Magnitude, Bound, IsRun;
    NumbersAreRuns(l);
    NumberReadsIsStrict(l);
  }

  lemma {:induction false} ScalarReadsIsStrict(l: string)
    requires IsLexeme(l) && !IsPunct(l)
    ensures ScalarReads(l) <==> StrictScalar(l)
  {
    if IsQuoted(l) { StringReadsIsStrict(l); } else { RunReadsIsStrict(l); }
  }

  lemma {:induction false} KeyIsNotPunct(l: string)
    requires IsKey(l)
    ensures !IsPunct(l)
  {
  }

  /** A value at `depth` passes exactly when every scalar and key is strict and nothing nests past
      the limit, leaf scalars included. */
  lemma {:induction false} CheckValueIsStrict(v: Value, depth: nat)
    requires Shape(v) && All(v, IsLexeme)
    ensures CheckValue(v, depth).None? <==> All(v, StrictScalar) && depth + Height(v) <= 129
    decreases v, 0
  {
    hide ScalarReads, StrictScalar, IsLexeme, IsKey;
    match v
    case Scalar(l) => ScalarReadsIsStrict(l);
    case Array(items) => CheckItemsIsStrict(items, depth + 1);
    case Object(members) =>
      assert forall i | 0 <= i < |members| :: ShapeOfMember(members[i]);
      CheckMembersIsStrict(members, depth + 1);
  }

  lemma {:induction false} CheckItemsIsStrict(items: seq<Value>, depth: nat)
    requires forall i | 0 <= i < |items| :: Shape(items[i]) && All(items[i], IsLexeme)
    ensures CheckItems(items, depth).None? <==>
            && (forall i | 0 <= i < |items| :: All(items[i], StrictScalar))
            && (items == [] || depth + ItemsHeight(items) <= 129)
    decreases items, 1
  {
    hide ScalarReads, StrictScalar, IsLexeme;
    if items != [] {
      CheckValueIsStrict(items[0], depth);
      CheckItemsIsStrict(items[1..], depth);
      assert forall i | 0 < i < |items| :: items[i] == items[1..][i - 1];
    }
  }

  lemma {:induction false} CheckMembersIsStrict(ms: seq<Member>, depth: nat)
    requires forall i | 0 <= i < |ms| :: ShapeOfMember(ms[i]) && IsLexeme(ms[i].key) && All(ms[i].value, IsLexeme)
    ensures CheckMembers(ms, depth).None? <==>
            && (forall i | 0 <= i < |ms| :: StrictScalar(ms[i].key) && All(ms[i].value, StrictScalar))
            && (ms == [] || depth + MembersHeight(ms) <= 129)
    decreases ms, 1
  {
    hide ScalarReads, StrictScalar, IsLexeme, IsKey, IsPunct;
    if ms != [] {
      assert ShapeOfMember(ms[0]);
      KeyIsNotPunct(ms[0].key);
      ScalarReadsIsStrict(ms[0].key);
      CheckValueIsStrict(ms[0].value, depth);
      CheckMembersIsStrict(ms[1..], depth);
      assert forall i | 0 < i < |ms| :: ms[i] == ms[1..][i - 1];
    }
  }

  /** When every scalar reads, nesting is the only fault there can be. */
  lemma {:induction false} OnlyNestingIsLeft(v: Value, depth: nat)
    requires All(v, ScalarReads)
    ensures CheckValue(v, depth)
            == if depth + Height(v) <= 129 then None else Some(NestedTooDeeply)
    decreases v, 0
  {
    hide ScalarReads;
    match v
    case Scalar(l) =>
    case Array(items) => OnlyItemsNesting(items, depth + 1);
    case Object(members) => OnlyMembersNesting(members, depth + 1);
  }

  lemma {:induction false} OnlyItemsNesting(items: seq<Value>, depth: nat)
    requires forall i | 0 <= i < |items| :: All(items[i], ScalarReads)
    ensures CheckItems(items, depth)
            == if items == [] || depth + ItemsHeight(items) <= 129 then None
               else Some(NestedTooDeeply)
    decreases items, 1
  {
    hide ScalarReads;
    if items != [] {
      OnlyNestingIsLeft(items[0], depth);
      OnlyItemsNesting(items[1..], depth);
    }
  }

  lemma {:induction false} OnlyMembersNesting(ms: seq<Member>, depth: nat)
    requires forall i | 0 <= i < |ms| :: ScalarReads(ms[i].key) && All(ms[i].value, ScalarReads)
    ensures CheckMembers(ms, depth)
            == if ms == [] || depth + MembersHeight(ms) <= 129 then None else Some(NestedTooDeeply)
    decreases ms, 1
  {
    hide ScalarReads;
    if ms != [] {
      OnlyNestingIsLeft(ms[0].value, depth);
      OnlyMembersNesting(ms[1..], depth);
    }
  }

  // ---- the tokens of a parsed body are lexemes, so its scalars are ------------------------------

  lemma {:induction false} ScalarsAreLexemes(v: Value)
    requires AllLexemes(Toks(v))
    ensures All(v, IsLexeme)
    decreases v, 0
  {
    match v
    case Scalar(l) => assert Toks(v)[0] == l;
    case Array(items) =>
      LexemesSplit(["["], ItemToks(items));
      ItemScalarsAreLexemes(items);
    case Object(members) =>
      LexemesSplit(["{"], MemberToks(members));
      MemberScalarsAreLexemes(members);
  }

  lemma {:induction false} LexemesSplit(a: seq<string>, b: seq<string>)
    requires AllLexemes(a + b)
    ensures AllLexemes(a) && AllLexemes(b)
  {
    hide IsLexeme;
    assert forall k | 0 <= k < |a| :: a[k] == (a + b)[k];
    assert forall k | 0 <= k < |b| :: b[k] == (a + b)[|a| + k];
  }

  lemma {:induction false} ItemScalarsAreLexemes(items: seq<Value>)
    requires AllLexemes(ItemToks(items))
    ensures forall i | 0 <= i < |items| :: All(items[i], IsLexeme)
    decreases items, 1
  {
    hide IsLexeme, AllLexemes;
    if items != [] {
      var rest := if |items| == 1 then ["]"] else [","] + ItemToks(items[1..]);
      LexemesSplit(Toks(items[0]), rest);
      ScalarsAreLexemes(items[0]);
      if |items| > 1 {
        LexemesSplit([","], ItemToks(items[1..]));
        ItemScalarsAreLexemes(items[1..]);
        assert forall i | 0 < i < |items| :: items[i] == items[1..][i - 1];
      }
    }
  }

  lemma {:induction false} MemberScalarsAreLexemes(ms: seq<Member>)
    requires AllLexemes(MemberToks(ms))
    ensures forall i | 0 <= i < |ms| :: IsLexeme(ms[i].key) && All(ms[i].value, IsLexeme)
    decreases ms, 1
  {
    if ms != [] {
      var rest := if |ms| == 1 then ["}"] else [","] + MemberToks(ms[1..]);
      LexemesSplit(ToksOfMember(ms[0]), rest);
      LexemesSplit([ms[0].key, ":"], Toks(ms[0].value));
      assert [ms[0].key, ":"][0] == ms[0].key;
      hide IsLexeme;
      ScalarsAreLexemes(ms[0].value);
      if |ms| > 1 {
        LexemesSplit([","], MemberToks(ms[1..]));
        MemberScalarsAreLexemes(ms[1..]);
        assert forall i | 0 < i < |ms| :: ms[i] == ms[1..][i - 1];
      }
    }
  }

  lemma {:induction false} ParsedScalarsAreLexemes(body: string)
    requires ParseText(body).Some?
    ensures All(ParseText(body).value.1, IsLexeme)
  {
    ParsedTextIsDerived(body);
    var (t, v) := ParseText(body).value;
    hide ParseText, ValidUtf8, Weave, IsLexeme;
    assert forall k | 0 <= k < |Toks(v)| :: Toks(v)[k] == t.pieces[k].lexeme;
    ScalarsAreLexemes(v);
  }

  // ---- first offender -----------------------------------------------------------------------

  /** What is wrong with element `k` on its own. */
  function ElementFault(v: Value, k: nat): Verdict {
    if k == 10_000 then Some(TooManyDocuments)
    else if !v.Object? then Some(NotAnObject(k))
    else CheckMembers(v.members, 1)
  }

  /** Element `j` is the first one with a fault, and its fault is `e`. */
  predicate FirstFault(items: seq<Value>, k: nat, j: nat, e: Refusal) {
    && j < |items|
    && ElementFault(items[j], k + j) == Some(e)
    && forall h | 0 <= h < j :: ElementFault(items[h], k + h).None?
  }

  lemma {:induction false} ReadNext(ps: seq<Piece>, i: nat, items: seq<Value>, k: nat) returns (next: nat)
    requires items != [] && i + |ItemToks(items)| <= |ps|
    ensures items[1..] != [] ==> next + |ItemToks(items[1..])| <= |ps|
    ensures match ElementFault(items[0], k)
            case Some(e) => ReadItems(ps, i, items, k) == Err(e)
            case None =>
              match ReadItems(ps, next, items[1..], k + 1)
              case Err(e) => ReadItems(ps, i, items, k) == Err(e)
              case Ok(docs) => ReadItems(ps, i, items, k).Ok? && |ReadItems(ps, i, items, k).value| == 1 + |docs|
  {
    hide ReadItems, ItemToks, Toks;
    ReadItemsCons(ps, i, items, k);
    next := i + |Toks(items[0])| + 1;
  }

  lemma {:induction false} Later(items: seq<Value>, k: nat, n: nat)
    requires 0 < n <= |items| && ElementFault(items[0], k).None?
    requires forall h | 0 <= h < n - 1 :: ElementFault(items[1..][h], k + 1 + h).None?
    ensures forall h | 0 <= h < n :: ElementFault(items[h], k + h).None?
  {
    forall h | 0 <= h < n ensures ElementFault(items[h], k + h).None? {
      if h > 0 { assert items[h] == items[1..][h - 1] && ElementFault(items[1..][h - 1], k + 1 + (h - 1)).None?; }
    }
  }

  /** The least offending element decides the refusal; without one, every element is a document. */
  lemma {:induction false} FirstFaultDecides(ps: seq<Piece>, i: nat, items: seq<Value>, k: nat)
    requires items != [] ==> i + |ItemToks(items)| <= |ps|
    ensures match ReadItems(ps, i, items, k)
            case Ok(docs) => |docs| == |items| && forall h | 0 <= h < |items| :: ElementFault(items[h], k + h).None?
            case Err(e) => exists j: nat :: FirstFault(items, k, j, e)
    decreases |items|
  {
    hide ReadItems, ElementFault, ItemToks, Toks;
    if items != [] {
      var next := ReadNext(ps, i, items, k);
      if ElementFault(items[0], k).Some? {
        assert FirstFault(items, k, 0, ElementFault(items[0], k).value);
      } else {
        FirstFaultDecides(ps, next, items[1..], k + 1);
        match ReadItems(ps, next, items[1..], k + 1)
        case Ok(docs) => Later(items, k, |items|);
        case Err(e) =>
          var j: nat :| FirstFault(items[1..], k + 1, j, e);
          Later(items, k, j + 1);
          assert FirstFault(items, k, j + 1, e);
      }
    } else {
      ReadNothing(ps, i, k);
    }
  }

  /** On a body that is one JSON value: what each outcome says about the elements. */
  lemma {:induction false} FirstOffender(body: string)
    requires ParseText(body).Some?
    ensures var v := ParseText(body).value.1;
            match Batch(body)
            case Ok(docs) =>
              && v.Array? && |docs| == |v.items| > 0
              && forall k | 0 <= k < |v.items| :: ElementFault(v.items[k], k).None?
            case Err(NotAnArray) => !v.Array?
            case Err(EmptyBatch) => v == Array([])
            case Err(e) => v.Array? && exists k: nat :: FirstFault(v.items, 0, k, e)
  {
    ParsedTextIsDerived(body);
    var (t, v) := ParseText(body).value;
    assert |Toks(v)| == |t.pieces|;
    hide ParseText, ReadItems, CheckMembers, Derives, Weave, ValidPieces, ValidUtf8;
    if v.Array? && v.items != [] {
      FirstFaultDecides(t.pieces, 1, v.items, 0);
      NoBatchFault(v.items);
    }
  }

  lemma {:induction false} NoBatchFault(items: seq<Value>)
    ensures forall j: nat :: !FirstFault(items, 0, j, NotAnArray) && !FirstFault(items, 0, j, EmptyBatch)
  {
    forall j: nat ensures !FirstFault(items, 0, j, NotAnArray) && !FirstFault(items, 0, j, EmptyBatch) {
      if j < |items| && items[j].Object? { MembersFaults(items[j].members, 1); }
    }
  }

  lemma {:induction false} ValueFaults(v: Value, depth: nat)
    ensures CheckValue(v, depth) in {None, Some(NotJson), Some(NestedTooDeeply)}
    decreases v, 0
  {
    match v
    case Scalar(_) =>
    case Array(items) => ItemsFaults(items, depth + 1);
    case Object(ms) => MembersFaults(ms, depth + 1);
  }

  lemma {:induction false} ItemsFaults(items: seq<Value>, depth: nat)
    ensures CheckItems(items, depth) in {None, Some(NotJson), Some(NestedTooDeeply)}
    decreases items, 1
  {
    if items != [] {
      ValueFaults(items[0], depth);
      ItemsFaults(items[1..], depth);
    }
  }

  lemma {:induction false} MembersFaults(ms: seq<Member>, depth: nat)
    ensures CheckMembers(ms, depth) in {None, Some(NotJson), Some(NestedTooDeeply)}
    decreases ms, 1
  {
    if ms != [] {
      ValueFaults(ms[0].value, depth);
      MembersFaults(ms[1..], depth);
    }
  }

  // ---- acceptance -----------------------------------------------------------------------------

  lemma {:induction false} AllStrict(v: Value)
    ensures All(v, StrictScalar) <==> All(v, IsScalarToken) && All(v, Representable)
    decreases v
  {
    match v
    case Scalar(_) =>
    case Array(items) =>
      forall i | 0 <= i < |items| { AllStrict(items[i]); }
    case Object(ms) =>
      forall i | 0 <= i < |ms| { AllStrict(ms[i].value); }
  }

  /** An element without a fault is a strict, shallow enough object. */
  lemma {:induction false} NoFaultIsStrict(v: Value, k: nat)
    requires Shape(v) && All(v, IsLexeme) && k < 10_000
    ensures ElementFault(v, k).None? <==>
            v.Object? && All(v, IsScalarToken) && All(v, Representable) && Height(v) - 1 <= 128
  {
    hide IsLexeme, StrictScalar, IsScalarToken, Representable, Shape, All;
    CheckValueIsStrict(v, 0);
    AllStrict(v);
  }

  /** parse_document_batch() accepts exactly the strict batches: reading lazily and then validating
      every value is strict parsing. */
  lemma {:induction false} AcceptsExactlyStrictBatches(body: string)
    ensures Batch(body).Ok? <==> exists items: seq<Value> :: StrictBatch(body, items)
  {
    if exists items: seq<Value> :: StrictBatch(body, items) {
      var items: seq<Value> :| StrictBatch(body, items);
      ParseTextIsTheGrammar(body, Array(items));
      StrictIsAccepted(body);
    } else if Batch(body).Ok? {
      AcceptedIsStrict(body);
    }
  }

  lemma {:induction false} ArrayItems(items: seq<Value>, k: nat)
    requires k < |items|
    ensures Shape(Array(items)) ==> Shape(items[k])
    ensures All(Array(items), IsLexeme) ==> All(items[k], IsLexeme)
    ensures All(Array(items), IsScalarToken) ==> All(items[k], IsScalarToken)
  {
  }

  lemma {:induction false} StrictItemsHaveNoFault(body: string, items: seq<Value>)
    requires StrictBatch(body, items) && All(Array(items), IsLexeme)
    ensures forall k | 0 <= k < |items| :: ElementFault(items[k], k).None?
  {
    forall k | 0 <= k < |items| ensures ElementFault(items[k], k).None? {
      ArrayItems(items, k);
      NoFaultIsStrict(items[k], k);
    }
  }

  lemma {:induction false} StrictIsAccepted(body: string)
    requires ParseText(body).Some? && ParseText(body).value.1.Array?
    requires StrictBatch(body, ParseText(body).value.1.items)
    ensures Batch(body).Ok?
  {
    hide ParseText, Batch, All, Shape, ElementFault, IsJsonText;
    FirstOffender(body);
    ParsedScalarsAreLexemes(body);
    var items := ParseText(body).value.1.items;
    StrictItemsHaveNoFault(body, items);
  }

  lemma {:induction false} AcceptedIsStrict(body: string)
    requires Batch(body).Ok?
    ensures ParseText(body).Some? && ParseText(body).value.1.Array?
    ensures StrictBatch(body, ParseText(body).value.1.items)
  {
    FirstOffender(body);
    ParsedScalarsAreLexemes(body);
    ParsedTextIsDerived(body);
    var v := ParseText(body).value.1;
    var items := v.items;
    NoSizeFault(items);
    StrictItems(items);
    ParseTextIsTheGrammar(body, v);
  }

  lemma {:induction false} NoSizeFault(items: seq<Value>)
    ensures (forall k | 0 <= k < |items| :: ElementFault(items[k], k).None?) ==> |items| <= 10_000
  {
    if |items| > 10_000 {
      assert ElementFault(items[10_000], 10_000) == Some(TooManyDocuments);
    }
  }

  lemma {:induction false} StrictItems(items: seq<Value>)
    requires Shape(Array(items)) && All(Array(items), IsLexeme) && |items| <= 10_000
    requires forall k | 0 <= k < |items| :: ElementFault(items[k], k).None?
    ensures All(Array(items), IsScalarToken)
    ensures forall k | 0 <= k < |items| ::
              items[k].Object? && All(items[k], Representable) && Height(items[k]) - 1 <= 128
  {
    forall k | 0 <= k < |items|
      ensures items[k].Object? && All(items[k], IsScalarToken) && All(items[k], Representable)
              && Height(items[k]) - 1 <= 128
    {
      ArrayItems(items, k);
      NoFaultIsStrict(items[k], k);
    }
  }
}
