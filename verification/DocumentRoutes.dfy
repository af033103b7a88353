/** POST /indexes/{uid}/documents: reading a batch of documents out of a request body. */
module DocumentRoutes {
  import opened Wrappers
  import opened Core
  import opened Utf8
  import opened JsonLexer
  import opened JsonString
  import opened JsonNumber
  import opened JsonGrammar
  import opened OnDemandReader

  const MAX_BATCH_DOCUMENTS: nat := 10_000
  const MAX_NESTING_DEPTH: nat := 128

  /** Why a batch is refused; each is a MalformedRequest with its own message. */
  datatype Refusal =
    | NotJson
    | NotAnArray
    | EmptyBatch
    | TooManyDocuments
    | NotAnObject(index: nat)
    | NestedTooDeeply

  /** core::Result<void>: None when valid. */
  type Verdict = Option<Refusal>

  // ---- what the reading is to find out about a value ------------------------------------------

  /** The first fault in document order, if there is one, of a value at `depth`. */
  function CheckValue(v: Value, depth: nat): Verdict
    decreases v
  {
    if depth > MAX_NESTING_DEPTH then Some(NestedTooDeeply)
    else
      match v
      case Scalar(l) => if ScalarReads(l) then None else Some(NotJson)
      case Array(items) => CheckItems(items, depth + 1)
      case Object(members) => CheckMembers(members, depth + 1)
  }

  function CheckItems(items: seq<Value>, depth: nat): Verdict
    decreases items
  {
    if items == [] then None
    else
      var first := CheckValue(items[0], depth);
      if first.Some? then first else CheckItems(items[1..], depth)
  }

  function CheckMembers(members: seq<Member>, depth: nat): Verdict
    decreases members
  {
    if members == [] then None
    else if !ScalarReads(members[0].key) then Some(NotJson)
    else
      var first := CheckValue(members[0].value, depth);
      if first.Some? then first else CheckMembers(members[1..], depth)
  }

  /** The string a top-level field contributes. */
  function TextOf(v: Value): Option<string> {
    if v.Scalar? && TypeOf(v.lexeme) == StringType then Unescape(Inner(v.lexeme)) else None
  }

  function SearchableText(members: seq<Member>): seq<string> {
    if members == [] then []
    else
      match TextOf(members[0].value)
      case None => SearchableText(members[1..])
      case Some(text) => [text] + SearchableText(members[1..])
  }

  /** The verdict on the value at token `i` and the token after it; None when no value parses. */
  ghost function ValueOutcome(ls: seq<string>, i: nat, depth: nat): (r: Option<(Verdict, nat)>)
    requires i <= |ls|
    ensures r.Some? ==> i < r.value.1 <= |ls|
  {
    match ParseValue(ls, i)
    case None => None
    case Some((v, n)) => Some((CheckValue(v, depth), n))
  }

  ghost function ItemsOutcome(ls: seq<string>, i: nat, depth: nat): (r: Option<(Verdict, nat)>)
    requires i <= |ls|
    ensures r.Some? ==> i < r.value.1 <= |ls|
  {
    match ParseItems(ls, i)
    case None => None
    case Some((items, n)) => Some((CheckItems(items, depth), n))
  }

  ghost function MembersOutcome(ls: seq<string>, i: nat, depth: nat): (r: Option<(Verdict, nat)>)
    requires i <= |ls|
    ensures r.Some? ==> i < r.value.1 <= |ls|
  {
    match ParseMembers(ls, i)
    case None => None
    case Some((members, n)) => Some((CheckMembers(members, depth), n))
  }

  /** A reading agrees with the outcome: the same verdict, and when valid, the cursor after it. */
  ghost predicate Agrees(outcome: Option<(Verdict, nat)>, verdict: Verdict, at: nat) {
    match outcome
    case None => verdict.Some?
    case Some((expected, n)) => verdict == expected && (verdict.None? ==> at == n)
  }

  /** The outcome of a container that was just entered. */
  lemma {:induction false} EnterContainer(ls: seq<string>, i: nat, depth: nat)
    requires i < |ls| && depth <= MAX_NESTING_DEPTH
    ensures ls[i] == "[" ==> ValueOutcome(ls, i, depth)
                             == if i + 1 < |ls| && ls[i + 1] == "]" then Some((None, i + 2))
                                else ItemsOutcome(ls, i + 1, depth + 1)
    ensures ls[i] == "{" ==> ValueOutcome(ls, i, depth)
                             == if i + 1 < |ls| && ls[i + 1] == "}" then Some((None, i + 2))
                                else MembersOutcome(ls, i + 1, depth + 1)
  {
  }

  /** What follows a child with the given outcome: the end, another child, or a fault. */
  ghost function Continue(ls: seq<string>, close: string, child: Option<(Verdict, nat)>, rest: Option<(Verdict, nat)>)
    : Option<(Verdict, nat)>
  {
    match child
    case None => None
    case Some((verdict, j)) =>
      if j < |ls| && ls[j] == close then Some((verdict, j + 1))
      else if j < |ls| && ls[j] == "," && rest.Some? then
        Some((if verdict.Some? then verdict else rest.value.0, rest.value.1))
      else None
  }

  lemma {:induction false} CheckItemsCons(v: Value, rest: seq<Value>, depth: nat)
    ensures CheckItems([v] + rest, depth)
            == if CheckValue(v, depth).Some? then CheckValue(v, depth) else CheckItems(rest, depth)
    ensures CheckItems([v], depth) == CheckValue(v, depth)
  {
    assert ([v] + rest)[1..] == rest && [v][1..] == [];
  }

  lemma {:induction false} ItemsOutcomeStep(ls: seq<string>, at: nat, depth: nat)
    requires at <= |ls|
    ensures var child := ValueOutcome(ls, at, depth);
            var next :=
              if child.Some? && child.value.1 < |ls| then ItemsOutcome(ls, child.value.1 + 1, depth) else None;
            ItemsOutcome(ls, at, depth) == Continue(ls, "]", child, next)
  {
    hide CheckValue, CheckItems;
    if ParseValue(ls, at).Some? {
      var (v, j) := ParseValue(ls, at).value;
      CheckItemsCons(v, [], depth);
      if j < |ls| && ParseItems(ls, j + 1).Some? {
        CheckItemsCons(v, ParseItems(ls, j + 1).value.0, depth);
      }
    }
  }

  ghost function MemberOutcome(ls: seq<string>, at: nat, depth: nat): Option<(Verdict, nat)>
    requires at <= |ls|
  {
    if at + 2 > |ls| || !IsKey(ls[at]) || ls[at + 1] != ":" then None
    else
      match ValueOutcome(ls, at + 2, depth)
      case None => None
      case Some((verdict, n)) => Some((if ScalarReads(ls[at]) then verdict else Some(NotJson), n))
  }

  lemma {:induction false} CheckMembersCons(m: Member, rest: seq<Member>, depth: nat)
    ensures var verdict := if ScalarReads(m.key) then CheckValue(m.value, depth) else Some(NotJson);
            && CheckMembers([m], depth) == verdict
            && CheckMembers([m] + rest, depth) == if verdict.Some? then verdict else CheckMembers(rest, depth)
  {
    assert ([m] + rest)[1..] == rest && [m][1..] == [];
  }

  lemma {:induction false} MembersOutcomeStep(ls: seq<string>, at: nat, depth: nat)
    requires at <= |ls|
    ensures var child := MemberOutcome(ls, at, depth);
            var next :=
              if child.Some? && child.value.1 < |ls| then MembersOutcome(ls, child.value.1 + 1, depth) else None;
            MembersOutcome(ls, at, depth) == Continue(ls, "}", child, next)
  {
    hide CheckValue, CheckMembers, ScalarReads;
    if ParseMember(ls, at).Some? {
      var (m, j) := ParseMember(ls, at).value;
      CheckMembersCons(m, [], depth);
      if j < |ls| && ParseMembers(ls, j + 1).Some? {
        CheckMembersCons(m, ParseMembers(ls, j + 1).value.0, depth);
      }
    }
  }

  // ---- the reading itself ----------------------------------------------------------------------

  method ReadsAsScalar(reader: Reader, kind: JsonType) returns (ok: bool)
    requires reader.Valid() && reader.Type() == Some(kind)
    modifies reader`at
    ensures reader.Valid()
    ensures ok <==> ScalarReads(reader.lexemes[old(reader.at)])
    ensures ok ==> reader.at == old(reader.at) + 1
  {
    match kind
    case NumberType => ok := reader.GetDouble();
    case StringType =>
      var text := reader.GetString();
      ok := text.Some?;
    case BooleanType => ok := reader.GetBool();
    case NullType =>
      var isNull := reader.IsNull();
      ok := isNull == Some(true);
    case ArrayType => ok := false;
    case ObjectType => ok := false;
    case UnknownType => ok := false;
  }

  lemma {:induction false} KeyReads(key: string)
    requires IsKey(key)
    ensures ScalarReads(key) <==> Unescape(Inner(key)).Some?
  {
  }

  method ValidateArray(reader: Reader, depth: nat) returns (verdict: Verdict)
    requires reader.Valid() && depth <= MAX_NESTING_DEPTH
    modifies reader`at
    ensures reader.Valid()
    ensures if old(reader.LooksAt("[")) then
              Agrees(ValueOutcome(reader.lexemes, old(reader.at), depth), verdict, reader.at)
            else verdict == Some(NotJson)
    decreases |reader.lexemes| - reader.at, 0
  {
    hide ValueOutcome, ItemsOutcome, Weave, ValidPieces, Lexemes;
    ghost var ls, i := reader.lexemes, reader.at;
    var found, step := reader.Enter("[", "]");
    if !found {
      return Some(NotJson);
    }
    EnterContainer(ls, i, depth);
    ghost var whole := ValueOutcome(ls, i, depth);
    while step != Done
      invariant reader.Valid() && i < reader.at
      invariant step == Fault ==> whole.None?
      invariant step == Done ==> whole == Some((None, reader.at))
      invariant step == More ==> whole == ItemsOutcome(ls, reader.at, depth + 1)
      decreases |ls| - reader.at, step != Fault
    {
      if step == Fault {
        return Some(NotJson);
      }
      ItemsOutcomeStep(ls, reader.at, depth + 1);
      var valid := ValidateValue(reader, depth + 1);
      if valid.Some? {
        return valid;
      }
      step := reader.Next("]");
    }
    return None;
  }

  method ValidateObject(reader: Reader, depth: nat) returns (verdict: Verdict)
    requires reader.Valid() && depth <= MAX_NESTING_DEPTH
    modifies reader`at
    ensures reader.Valid()
    ensures if old(reader.LooksAt("{")) then
              Agrees(ValueOutcome(reader.lexemes, old(reader.at), depth), verdict, reader.at)
            else verdict == Some(NotJson)
    decreases |reader.lexemes| - reader.at, 0
  {
    hide ValueOutcome, MembersOutcome, ScalarReads, Unescape, Inner, IsKey, Weave, ValidPieces, Lexemes;
    ghost var ls, i := reader.lexemes, reader.at;
    var found, step := reader.Enter("{", "}");
    if !found {
      return Some(NotJson);
    }
    EnterContainer(ls, i, depth);
    ghost var whole := ValueOutcome(ls, i, depth);
    while step != Done
      invariant reader.Valid() && i < reader.at
      invariant step == Fault ==> whole.None?
      invariant step == Done ==> whole == Some((None, reader.at))
      invariant step == More ==> whole == MembersOutcome(ls, reader.at, depth + 1)
      decreases |ls| - reader.at, step != Fault
    {
      if step == Fault {
        return Some(NotJson);
      }
      MembersOutcomeStep(ls, reader.at, depth + 1);
      var key := reader.GetField();
      if key.Some? { KeyReads(key.value); }
      if key.None? || Unescape(Inner(key.value)).None? {
        return Some(NotJson);
      }
      var valid := ValidateValue(reader, depth + 1);
      if valid.Some? {
        return valid;
      }
      step := reader.Next("}");
    }
    return None;
  }

  lemma {:induction false} ScalarOutcome(ls: seq<string>, i: nat, depth: nat)
    requires i < |ls| && depth <= MAX_NESTING_DEPTH && ls[i] != "[" && ls[i] != "{"
    ensures ScalarReads(ls[i]) ==> ValueOutcome(ls, i, depth) == Some((None, i + 1))
    ensures !ScalarReads(ls[i]) ==> Agrees(ValueOutcome(ls, i, depth), Some(NotJson), i)
  {
    if IsPunct(ls[i]) {
      assert !ScalarReads(ls[i]);
    }
  }

  /** The depth is checked first: the recursion never goes past MAX_NESTING_DEPTH + 1. */
  method ValidateValue(reader: Reader, depth: nat) returns (verdict: Verdict)
    requires reader.Valid() && depth <= MAX_NESTING_DEPTH + 1
    modifies reader`at
    ensures reader.Valid()
    ensures Agrees(ValueOutcome(reader.lexemes, old(reader.at), depth), verdict, reader.at)
    decreases |reader.lexemes| - reader.at, 1
  {
    hide Weave, ValidPieces, Lexemes, ScalarReads;
    if depth > MAX_NESTING_DEPTH {
      return Some(NestedTooDeeply);
    }
    var kind := reader.Type();
    if kind.None? {
      return Some(NotJson);
    }
    if kind == Some(ArrayType) {
      verdict := ValidateArray(reader, depth);
      return;
    }
    if kind == Some(ObjectType) {
      verdict := ValidateObject(reader, depth);
      return;
    }
    ScalarOutcome(reader.lexemes, reader.at, depth);
    hide ValueOutcome;
    var ok := ReadsAsScalar(reader, kind.value);
    return if ok then None else Some(NotJson);
  }

  // ---- documents ----------------------------------------------------------------------------

  /** The document that an object with these members, written in tokens `i` to `n`, becomes. */
  function DocumentOf(ps: seq<Piece>, i: nat, n: nat, members: seq<Member>): Document
    requires i <= n <= |ps|
  {
    Document(Span(ps[i..n]), SearchableText(members))
  }

  function Cons(d: Document, r: Result<seq<Document>, Refusal>): Result<seq<Document>, Refusal> {
    match r
    case Err(e) => Err(e)
    case Ok(ds) => Ok([d] + ds)
  }

  /** Elements `k`, `k + 1`, ... of a batch, written from token `i` on. */
  function ReadItems(ps: seq<Piece>, i: nat, items: seq<Value>, k: nat): Result<seq<Document>, Refusal>
    requires items != [] ==> i + |ItemToks(items)| <= |ps|
    decreases |items|
  {
    if items == [] then Ok([])
    else if k == MAX_BATCH_DOCUMENTS then Err(TooManyDocuments)
    else if !items[0].Object? then Err(NotAnObject(k))
    else
      match CheckMembers(items[0].members, 1)
      case Some(e) => Err(e)
      case None =>
        Cons(DocumentOf(ps, i, i + |Toks(items[0])|, items[0].members),
          ReadItems(ps, i + |Toks(items[0])| + 1, items[1..], k + 1))
  }

  /** The outcome for a body that parses: the documents, or the first fault in document order. */
  function ReadBatch(t: Text, v: Value): Result<seq<Document>, Refusal>
    requires |Toks(v)| <= |t.pieces|
  {
    if !v.Array? then Err(NotAnArray)
    else if v.items == [] then Err(EmptyBatch)
    else ReadItems(t.pieces, 1, v.items, 0)
  }

  // What the reading of one object's fields comes to: verdict, texts, and the token after it.
  type FieldsResult = Option<(Verdict, seq<string>, nat)>

  ghost function ObjectOutcome(ls: seq<string>, i: nat): (r: FieldsResult)
    requires i <= |ls|
    ensures r.Some? ==> i < r.value.2 <= |ls|
  {
    match ParseValue(ls, i)
    case None => None
    case Some((v, n)) => if v.Object? then Some((CheckMembers(v.members, 1), SearchableText(v.members), n)) else None
  }

  ghost function FieldsOutcome(ls: seq<string>, i: nat): (r: FieldsResult)
    requires i <= |ls|
    ensures r.Some? ==> i < r.value.2 <= |ls|
  {
    match ParseMembers(ls, i)
    case None => None
    case Some((ms, n)) => Some((CheckMembers(ms, 1), SearchableText(ms), n))
  }

  ghost function FieldOutcome(ls: seq<string>, at: nat): (r: FieldsResult)
    requires at <= |ls|
    ensures r.Some? ==> at < r.value.2 <= |ls|
  {
    if at + 2 > |ls| || !IsKey(ls[at]) || ls[at + 1] != ":" then None
    else
      match ParseValue(ls, at + 2)
      case None => None
      case Some((v, n)) =>
        Some((if ScalarReads(ls[at]) then CheckValue(v, 1) else Some(NotJson), SearchableText([Member(ls[at], v)]), n))
  }

  ghost function After(texts: seq<string>, rest: FieldsResult): FieldsResult {
    match rest
    case None => None
    case Some((verdict, more, n)) => Some((verdict, texts + more, n))
  }

  ghost function ContinueFields(ls: seq<string>, field: FieldsResult, rest: FieldsResult): FieldsResult {
    match field
    case None => None
    case Some((verdict, texts, j)) =>
      if j < |ls| && ls[j] == "}" then Some((verdict, texts, j + 1))
      else if j < |ls| && ls[j] == "," && rest.Some? then
        After(texts, if verdict.Some? then Some((verdict, rest.value.1, rest.value.2)) else rest)
      else None
  }

  lemma {:induction false} AfterLaws(texts: seq<string>, more: seq<string>, rest: FieldsResult)
    ensures After([], rest) == rest
    ensures After(texts, After(more, rest)) == After(texts + more, rest)
  {
    if rest.Some? {
      assert [] + rest.value.1 == rest.value.1;
      assert texts + (more + rest.value.1) == texts + more + rest.value.1;
    }
  }

  lemma {:induction false} EnterObject(ls: seq<string>, i: nat)
    requires i < |ls| && ls[i] == "{"
    ensures ObjectOutcome(ls, i)
            == if i + 1 < |ls| && ls[i + 1] == "}" then Some((None, [], i + 2)) else FieldsOutcome(ls, i + 1)
  {
  }

  lemma {:induction false} SearchableTextCons(m: Member, rest: seq<Member>)
    ensures SearchableText([m] + rest) == SearchableText([m]) + SearchableText(rest)
    ensures SearchableText([m]) == if TextOf(m.value).Some? then [TextOf(m.value).value] else []
  {
    assert ([m] + rest)[1..] == rest && [m][1..] == [];
  }

  lemma {:induction false} FieldsOutcomeStep(ls: seq<string>, at: nat)
    requires at <= |ls|
    ensures var field := FieldOutcome(ls, at);
            var next := if field.Some? && field.value.2 < |ls| then FieldsOutcome(ls, field.value.2 + 1) else None;
            FieldsOutcome(ls, at) == ContinueFields(ls, field, next)
  {
    hide CheckValue, CheckMembers, ScalarReads, SearchableText;
    if ParseMember(ls, at).Some? {
      var (m, j) := ParseMember(ls, at).value;
      CheckMembersCons(m, [], 1);
      if j < |ls| && ParseMembers(ls, j + 1).Some? {
        CheckMembersCons(m, ParseMembers(ls, j + 1).value.0, 1);
        SearchableTextCons(m, ParseMembers(ls, j + 1).value.0);
      }
    }
  }

  /** The field at `at` in terms of the value in it. */
  lemma {:induction false} FieldIs(ls: seq<string>, at: nat)
    requires at + 2 <= |ls| && IsKey(ls[at]) && ls[at + 1] == ":"
    ensures var text := if at + 2 < |ls| && TypeOf(ls[at + 2]) == StringType then Unescape(Inner(ls[at + 2])) else None;
            && (at + 2 == |ls| ==> FieldOutcome(ls, at).None?)
            && (at + 2 < |ls| && TypeOf(ls[at + 2]) == StringType ==>
                  FieldOutcome(ls, at)
                  == Some((if ScalarReads(ls[at]) && text.Some? then None else Some(NotJson),
                           if text.Some? then [text.value] else [], at + 3)))
            && (at + 2 < |ls| && TypeOf(ls[at + 2]) != StringType ==>
                  FieldOutcome(ls, at)
                  == match ValueOutcome(ls, at + 2, 1)
                     case None => None
                     case Some((verdict, n)) => Some((if ScalarReads(ls[at]) then verdict else Some(NotJson), [], n)))
  {
    hide ReadsAsDouble, Unescape;
    if at + 2 < |ls| && ParseValue(ls, at + 2).Some? {
      SearchableTextCons(Member(ls[at], ParseValue(ls, at + 2).value.0), []);
    }
  }

  /** read_searchable_text(), in the object that opens at `start` and was just entered. */
  method ReadSearchableText(reader: Reader, first: Step, ghost start: nat) returns (r: Result<seq<string>, Refusal>)
    requires reader.Valid() && start < reader.at && reader.lexemes[start] == "{"
    requires first == Done ==> ObjectOutcome(reader.lexemes, start) == Some((None, [], reader.at))
    requires first == More ==> ObjectOutcome(reader.lexemes, start) == FieldsOutcome(reader.lexemes, reader.at)
    requires first != Fault
    modifies reader`at
    ensures reader.Valid()
    ensures match ObjectOutcome(reader.lexemes, start)
            case None => r.Err?
            case Some((verdict, texts, n)) =>
              if verdict.Some? then r == Err(verdict.value) else r == Ok(texts) && reader.at == n
  {
    hide ObjectOutcome, FieldsOutcome, ValueOutcome, FieldOutcome, ScalarReads, Unescape, Inner, IsKey, Weave,
      Lexemes, TypeOf, IsPunct;
    ghost var ls := reader.lexemes;
    ghost var whole := ObjectOutcome(ls, start);
    var searchableText: seq<string> := [];
    AfterLaws([], [], FieldsOutcome(ls, reader.at));
    var step := first;
    while step != Done
      invariant reader.Valid()
      invariant step == Fault ==> whole.None?
      invariant step == Done ==> whole == Some((None, searchableText, reader.at))
      invariant step == More ==> whole == After(searchableText, FieldsOutcome(ls, reader.at))
      decreases |ls| - reader.at, step != Fault
    {
      if step == Fault {
        return Err(NotJson);
      }
      ghost var at := reader.at;
      FieldsOutcomeStep(ls, at);
      ghost var field := FieldOutcome(ls, at);
      ghost var next := if field.Some? && field.value.2 < |ls| then FieldsOutcome(ls, field.value.2 + 1) else None;
      if field.Some? { AfterLaws(searchableText, field.value.1, next); }
      var key := reader.GetField();
      FieldNeedsKey(ls, at);
      if key.Some? { FieldIs(ls, at); KeyReads(key.value); }
      if key.None? || Unescape(Inner(key.value)).None? {
        return Err(NotJson);
      }
      var kind := reader.Type();
      if kind.None? {
        return Err(NotJson);
      }
      if kind != Some(StringType) {
        var valid := ValidateValue(reader, 1);
        if valid.Some? {
          return Err(valid.value);
        }
        assert field.value.1 == [] && searchableText + [] == searchableText;
        step := reader.Next("}");
        continue;
      }
      var text := reader.GetString();
      if text.None? {
        return Err(NotJson);
      }
      searchableText := searchableText + [text.value];
      step := reader.Next("}");
    }
    return Ok(searchableText);
  }

  lemma {:induction false} FieldNeedsKey(ls: seq<string>, at: nat)
    requires at <= |ls|
    ensures FieldOutcome(ls, at).Some? ==> at + 2 <= |ls| && IsKey(ls[at]) && ls[at + 1] == ":"
  {
  }

  /** What one element of the batch comes to, and the token after it. */
  ghost function ElementOutcome(ps: seq<Piece>, i: nat, k: nat): (r: Option<(Result<Document, Refusal>, nat)>)
    requires i <= |ps|
    ensures r.Some? ==> i < r.value.1 <= |ps|
  {
    match ParseValue(Lexemes(ps), i)
    case None => None
    case Some((v, n)) =>
      if !v.Object? then Some((Err(NotAnObject(k)), n))
      else
        match CheckMembers(v.members, 1)
        case Some(e) => Some((Err(e), n))
        case None => Some((Ok(DocumentOf(ps, i, n, v.members)), n))
  }

  lemma {:induction false} ObjectElement(ps: seq<Piece>, i: nat, k: nat)
    requires i < |ps| && ps[i].lexeme == "{"
    ensures match ObjectOutcome(Lexemes(ps), i)
            case None => ElementOutcome(ps, i, k).None?
            case Some((verdict, texts, n)) =>
              ElementOutcome(ps, i, k)
              == Some((if verdict.Some? then Err(verdict.value) else Ok(Document(Span(ps[i..n]), texts)), n))
  {
    assert Lexemes(ps)[i] == "{";
  }

  lemma {:induction false} NotObjectElement(ps: seq<Piece>, i: nat, k: nat)
    requires i < |ps| ==> ps[i].lexeme != "{"
    requires i <= |ps|
    ensures ElementOutcome(ps, i, k).Some? ==> ElementOutcome(ps, i, k).value.0 == Err(NotAnObject(k))
  {
    assert i < |ps| ==> Lexemes(ps)[i] == ps[i].lexeme;
  }

  /** The slice raw_json() returns for an object that parses, trimmed, is the object's own span. */
  lemma {:induction false} TrimmedSlice(ps: seq<Piece>, tail: string, i: nat)
    requires ValidPieces(ps, tail) && i < |ps| && ps[i].lexeme == "{"
    requires ParseValue(Lexemes(ps), i).Some?
    ensures var n := ParseValue(Lexemes(ps), i).value.1;
            && SkipTo(Lexemes(ps), i + 1, 1) == Some(n)
            && WithoutTrailingWhitespace(Span(ps[i..n]) + GapBefore(ps, tail, n)) == Span(ps[i..n])
  {
    var ls := Lexemes(ps);
    var (v, n) := ParseValue(ls, i).value;
    hide ParseValue, SkipTo, Span, WithoutTrailingWhitespace, IsRun, IsQuoted;
    SkipEndsAtClose(ls, i);
    ObjectEnds(ls, i);
    assert ps[i..n][|ps[i..n]| - 1].lexeme == ls[n - 1] == "}";
    SpanEnds(ps[i..n]);
    TrimGap(Span(ps[i..n]), GapBefore(ps, tail, n));
  }

  lemma {:induction false} ObjectEnds(ls: seq<string>, i: nat)
    requires i < |ls| && ls[i] == "{" && ParseValue(ls, i).Some?
    ensures ls[ParseValue(ls, i).value.1 - 1] == "}"
  {
    if !(i + 1 < |ls| && ls[i + 1] == "}") { MembersEnd(ls, i + 1); }
  }

  lemma {:induction false} MembersEnd(ls: seq<string>, i: nat)
    requires i <= |ls| && ParseMembers(ls, i).Some?
    ensures ls[ParseMembers(ls, i).value.1 - 1] == "}"
    decreases |ls| - i
  {
    var j := ParseMember(ls, i).value.1;
    if ls[j] == "," { MembersEnd(ls, j + 1); }
  }

  /** read_document(): two passes over one object, the slice first and then the fields. */
  method ReadDocument(reader: Reader, index: nat) returns (r: Result<Document, Refusal>)
    requires reader.Valid()
    modifies reader`at
    ensures reader.Valid()
    ensures match ElementOutcome(reader.text.pieces, old(reader.at), index)
            case None => r.Err?
            case Some((expected, n)) => r == expected && (r.Ok? ==> reader.at == n)
    ensures !old(reader.LooksAt("{")) ==> r == Err(NotAnObject(index))
  {
    ghost var ps, tail, ls, start := reader.text.pieces, reader.text.tail, reader.lexemes, reader.at;
    var begin := reader.at;
    var found, step := reader.Enter("{", "}");
    if !found {
      NotObjectElement(ps, start, index);
      return Err(NotAnObject(index));
    }
    ObjectElement(ps, start, index);
    EnterObject(ls, start);
    if ParseValue(ls, start).Some? { TrimmedSlice(ps, tail, start); }
    OutcomeParses(ls, start);
    hide ObjectOutcome, ElementOutcome, FieldsOutcome, ParseValue, SkipTo, Weave, ValidPieces;
    var source := reader.RawJson(begin);
    if source.None? {
      return Err(NotJson);
    }
    step := reader.Reset(begin, "{", "}");
    var searchableText := ReadSearchableText(reader, step, start);
    if searchableText.Err? {
      return Err(searchableText.error);
    }
    return Ok(Document(WithoutTrailingWhitespace(source.value), searchableText.value));
  }

  lemma {:induction false} OutcomeParses(ls: seq<string>, i: nat)
    requires i <= |ls|
    ensures ObjectOutcome(ls, i).Some? ==>
            ParseValue(ls, i).Some? && ParseValue(ls, i).value.1 == ObjectOutcome(ls, i).value.2
  {
  }

  // ---- the batch ------------------------------------------------------------------------------

  type BatchResult = Option<(Result<seq<Document>, Refusal>, nat)>

  /** What the elements from token `at` on come to, `k` documents having been read before. */
  ghost function ItemsBatch(ps: seq<Piece>, at: nat, k: nat): (r: BatchResult)
    requires at <= |ps|
    ensures r.Some? ==> at < r.value.1 <= |ps|
  {
    match ParseItems(Lexemes(ps), at)
    case None => None
    case Some((items, n)) =>
      ParsedItemsAreDerived(Lexemes(ps), at);
      Some((ReadItems(ps, at, items, k), n))
  }

  ghost function Join(docs: seq<Document>, rest: BatchResult): BatchResult {
    match rest
    case None => None
    case Some((Err(e), n)) => Some((Err(e), n))
    case Some((Ok(more), n)) => Some((Ok(docs + more), n))
  }

  lemma {:induction false} JoinLaws(docs: seq<Document>, d: Document, rest: BatchResult)
    ensures Join([], rest) == rest
    ensures Join(docs, Join([d], rest)) == Join(docs + [d], rest)
  {
    if rest.Some? && rest.value.0.Ok? {
      assert [] + rest.value.0.value == rest.value.0.value;
      assert docs + ([d] + rest.value.0.value) == docs + [d] + rest.value.0.value;
    }
  }

  /** How one element, and the token after it, decide the rest of the batch. */
  ghost function ContinueBatch(ps: seq<Piece>, k: nat, element: Option<(Result<Document, Refusal>, nat)>,
      rest: BatchResult): BatchResult
  {
    match element
    case None => None
    case Some((doc, j)) =>
      var closes := j < |ps| && ps[j].lexeme == "]";
      var continues := j < |ps| && ps[j].lexeme == "," && rest.Some?;
      if !closes && !continues then None
      else
        var n := if closes then j + 1 else rest.value.1;
        if k == MAX_BATCH_DOCUMENTS then Some((Err(TooManyDocuments), n))
        else if doc.Err? then Some((Err(doc.error), n))
        else if closes then Some((Ok([doc.value]), n))
        else Join([doc.value], rest)
  }

  lemma {:induction false} ReadItemsCons(ps: seq<Piece>, i: nat, items: seq<Value>, k: nat)
    requires items != [] && i + |ItemToks(items)| <= |ps|
    ensures var j := i + |Toks(items[0])|;
            && j < |ps|
            && (items[1..] != [] ==> j + 1 + |ItemToks(items[1..])| <= |ps|)
            && ReadItems(ps, i, items, k)
               == if k == MAX_BATCH_DOCUMENTS then Err(TooManyDocuments)
                  else if !items[0].Object? then Err(NotAnObject(k))
                  else if CheckMembers(items[0].members, 1).Some? then Err(CheckMembers(items[0].members, 1).value)
                  else Cons(DocumentOf(ps, i, j, items[0].members), ReadItems(ps, j + 1, items[1..], k + 1))
  {
    hide CheckMembers, Span, SearchableText, Toks;
  }

  lemma {:induction false} ItemsBatchParses(ps: seq<Piece>, at: nat, k: nat)
    requires at <= |ps|
    ensures match ParseItems(Lexemes(ps), at)
            case None => ItemsBatch(ps, at, k).None?
            case Some((items, n)) =>
              at + |ItemToks(items)| <= |ps| && ItemsBatch(ps, at, k) == Some((ReadItems(ps, at, items, k), n))
  {
    if ParseItems(Lexemes(ps), at).Some? { ParsedItemsAreDerived(Lexemes(ps), at); }
  }

  lemma {:induction false} ReadNothing(ps: seq<Piece>, i: nat, k: nat)
    ensures ReadItems(ps, i, [], k) == Ok([])
    ensures forall d: Document {:trigger Cons(d, Ok([]))} :: Cons(d, Ok([])) == Ok([d])
  {
    assert forall d: Document :: [d] + [] == [d];
  }

  lemma {:induction false} ParseItemsNeedsValue(ls: seq<string>, at: nat)
    requires at <= |ls| && ParseValue(ls, at).None?
    ensures ParseItems(ls, at).None?
  {
  }

  lemma {:induction false} ParseItemsCases(ls: seq<string>, at: nat)
    requires at <= |ls| && ParseValue(ls, at).Some?
    ensures var (v, j) := ParseValue(ls, at).value;
            match ParseItems(ls, at)
            case None => j < |ls| ==> ls[j] != "]" && (ls[j] == "," ==> ParseItems(ls, j + 1).None?)
            case Some((items, n)) =>
              && j < |ls| && items[0] == v
              && (if ls[j] == "]" then items[1..] == [] && n == j + 1
                  else ls[j] == "," && ParseItems(ls, j + 1) == Some((items[1..], n)))
  {
    hide ParseValue;
  }

  lemma {:induction false} ItemsBatchStep(ps: seq<Piece>, at: nat, k: nat)
    requires at <= |ps| && k <= MAX_BATCH_DOCUMENTS
    ensures var element := ElementOutcome(ps, at, k);
            var next :=
              if element.Some? && element.value.1 < |ps| then ItemsBatch(ps, element.value.1 + 1, k + 1) else None;
            ItemsBatch(ps, at, k) == ContinueBatch(ps, k, element, next)
  {
    hide CheckMembers, Span, SearchableText, Lexemes, ParseItems, ParseValue, ItemsBatch, ReadItems, Toks, ItemToks;
    var ls := Lexemes(ps);
    ItemsBatchParses(ps, at, k);
    if ParseValue(ls, at).Some? {
      var (v, j) := ParseValue(ls, at).value;
      ParsedIsDerived(ls, at);
      ParseItemsCases(ls, at);
      assert j < |ps| ==> ls[j] == ps[j].lexeme;
      if ParseItems(ls, at).Some? {
        var (items, n) := ParseItems(ls, at).value;
        ParsedItemsAreDerived(ls, at);
        ReadItemsCons(ps, at, items, k);
        ReadNothing(ps, j + 1, k + 1);
      }
      if j < |ps| { ItemsBatchParses(ps, j + 1, k + 1); }
    } else {
      ParseItemsNeedsValue(ls, at);
    }
  }

  /** read_documents(), in the array that opens the body and was just entered. */
  method ReadDocuments(reader: Reader, first: Step) returns (r: Result<seq<Document>, Refusal>)
    requires reader.Valid() && first != Fault
    requires first == More ==> reader.at == 1
    modifies reader`at
    ensures reader.Valid()
    ensures first == Done ==> r == Err(EmptyBatch)
    ensures first == More ==>
              match ItemsBatch(reader.text.pieces, 1, 0)
              case None => r.Err?
              case Some((expected, n)) => r == expected && (r.Ok? ==> reader.at == n)
  {
    hide ItemsBatch, ElementOutcome, Weave, ValidPieces;
    ghost var ps := reader.text.pieces;
    ghost var whole := if first == More then ItemsBatch(ps, 1, 0) else Some((Ok([]), reader.at));
    var documents: seq<Document> := [];
    JoinLaws([], Document("", []), whole);
    var step := first;
    while step != Done
      invariant reader.Valid() && |documents| <= MAX_BATCH_DOCUMENTS
      invariant first == Done ==> step == Done && documents == []
      invariant first == More && step == Done ==> documents != []
      invariant step == Fault ==> whole.None?
      invariant step == Done ==> whole == Some((Ok(documents), reader.at))
      invariant step == More ==> whole == Join(documents, ItemsBatch(ps, reader.at, |documents|))
      decreases |reader.lexemes| - reader.at, step != Fault
    {
      if step == More { ItemsBatchStep(ps, reader.at, |documents|); }
      if |documents| == MAX_BATCH_DOCUMENTS {
        return Err(TooManyDocuments);
      }
      if step == Fault {
        return Err(NotJson);
      }
      ghost var element := ElementOutcome(ps, reader.at, |documents|);
      ghost var next :=
        if element.Some? && element.value.1 < |ps| then ItemsBatch(ps, element.value.1 + 1, |documents| + 1)
        else None;
      var document := ReadDocument(reader, |documents|);
      if document.Err? {
        return Err(document.error);
      }
      JoinLaws(documents, document.value, next);
      documents := documents + [document.value];
      step := reader.Next("]");
    }
    if documents == [] {
      return Err(EmptyBatch);
    }
    return Ok(documents);
  }

  /** What a body comes to: when it does not parse, only that it is refused is stated. */
  function Batch(body: string): Result<seq<Document>, Refusal> {
    match ParseText(body)
    case None => Err(NotJson)
    case Some((t, v)) =>
      ParsedTextIsDerived(body);
      ReadBatch(t, v)
  }

  /** parse_document_batch() */
  method ParseDocumentBatch(body: string) returns (r: Result<seq<Document>, Refusal>)
    ensures ParseText(body).Some? ==> r == Batch(body)
    ensures ParseText(body).None? ==> r.Err?
  {
    var text := Iterate(body);
    if text.None? {
      return Err(NotJson);
    }
    var reader := new Reader(body, text.value);
    BatchIs(body);
    hide ParseText, Batch, Iterate, ItemsBatch, Weave, ValidPieces;
    var found, step := reader.Enter("[", "]");
    if !found {
      return Err(NotAnArray);
    }
    var documents := ReadDocuments(reader, step);
    if documents.Err? {
      return documents;
    }
    if !reader.AtEnd() {
      return Err(NotJson);
    }
    return documents;
  }

  lemma {:induction false} BatchIs(body: string)
    requires Iterate(body).Some?
    ensures var ps := Iterate(body).value.pieces;
            var ls := Lexemes(ps);
            && ps != []
            && (ls[0] != "[" && ParseText(body).Some? ==> Batch(body) == Err(NotAnArray))
            && (ls[0] == "[" ==>
                  if |ps| > 1 && ls[1] == "]" then ParseText(body).Some? ==> Batch(body) == Err(EmptyBatch)
                  else (ParseText(body).Some? <==> ItemsBatch(ps, 1, 0).Some? && ItemsBatch(ps, 1, 0).value.1 == |ps|)
                       && (ParseText(body).Some? ==> Batch(body) == ItemsBatch(ps, 1, 0).value.0))
  {
    hide ReadItems, CheckMembers, Lex, Weave, ValidPieces, ValidUtf8;
    if ParseText(body).Some? { ParsedTextIsDerived(body); }
  }
}
