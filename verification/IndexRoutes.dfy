/** POST /indexes: reading a create request, and writing the Index object back. */
module IndexRoutes {
  import opened Wrappers
  import opened Core
  import opened Utf8
  import opened JsonLexer
  import opened JsonString
  import opened JsonGrammar
  import opened OnDemandReader

  datatype Command = Command(uid: string, primaryKey: Option<string>)

  datatype Refusal =
    | NotJson
    | NotAnObject
    | UidNotAString
    | PrimaryKeyNotAStringOrNull
    | AppearsTwice(field: string)
    | UnknownField(name: string)
    | UidMissing
    | InvalidUid

  /** The body as read so far; `primaryKey` is None with `hasPrimaryKey` when the client sent null. */
  datatype Fields = Fields(uid: Option<string>, hasPrimaryKey: bool, primaryKey: Option<string>)

  const NO_FIELDS := Fields(None, false, None)

  // ---- what the reading is to find out --------------------------------------------------------

  /** What a value means to this route, whatever its spelling. */
  datatype Meaning = Str(text: string) | Null | Other

  function MeaningOf(v: Value): Meaning {
    if v.Scalar? && TypeOf(v.lexeme) == StringType then
      match Unescape(Inner(v.lexeme))
      case None => Other
      case Some(t) => Str(t)
    else if v == Scalar("null") then Null
    else Other
  }

  /** One field, read into the fields before it. */
  function ReadOne(key: string, v: Value, f: Fields): Result<Fields, Refusal> {
    match Unescape(Inner(key))
    case None => Err(NotJson)
    case Some(k) =>
      if k == "uid" then
        if f.uid.Some? then Err(AppearsTwice("uid"))
        else if MeaningOf(v).Str? then Ok(f.(uid := Some(MeaningOf(v).text)))
        else Err(UidNotAString)
      else if k == "primaryKey" then
        if f.hasPrimaryKey then Err(AppearsTwice("primaryKey"))
        else
          match MeaningOf(v)
          case Str(text) => Ok(f.(hasPrimaryKey := true, primaryKey := Some(text)))
          case Null => Ok(f.(hasPrimaryKey := true))
          case Other => Err(PrimaryKeyNotAStringOrNull)
      else Err(UnknownField(k))
  }

  function ReadAll(members: seq<Member>, f: Fields): Result<Fields, Refusal> {
    if members == [] then Ok(f)
    else
      match ReadOne(members[0].key, members[0].value, f)
      case Err(e) => Err(e)
      case Ok(g) => ReadAll(members[1..], g)
  }

  function ToCommand(f: Fields): Result<Command, Refusal> {
    if f.uid.None? then Err(UidMissing)
    else if !IsUid(f.uid.value) then Err(InvalidUid)
    else Ok(Command(f.uid.value, f.primaryKey))
  }

  /** The outcome for a body that parses: the first fault decides. */
  function CommandOf(v: Value): Result<Command, Refusal> {
    if !v.Object? then Err(NotAnObject)
    else
      match ReadAll(v.members, NO_FIELDS)
      case Err(e) => Err(e)
      case Ok(f) => ToCommand(f)
  }

  /** When the body does not parse, only that it is refused is stated. */
  function Request(body: string): Result<Command, Refusal> {
    match ParseText(body)
    case None => Err(NotJson)
    case Some((_, v)) => CommandOf(v)
  }

  // ---- the reading itself ---------------------------------------------------------------------

  /** The record that the reading fills in. */
  class CreateIndexFields {
    var uid: Option<string>
    var hasPrimaryKey: bool
    var primaryKey: Option<string>

    function Contents(): Fields
      reads this
    {
      Fields(uid, hasPrimaryKey, primaryKey)
    }

    constructor ()
      ensures Contents() == NO_FIELDS
    {
      uid, hasPrimaryKey, primaryKey := None, false, None;
    }
  }

  /** read_uid(): the value at the cursor, whose key token is `key`. */
  method ReadUid(reader: Reader, fields: CreateIndexFields, ghost key: string) returns (fault: Option<Refusal>)
    requires reader.Valid() && Unescape(Inner(key)) == Some("uid")
    modifies reader`at, fields
    ensures reader.Valid()
    ensures FieldAgrees(reader.lexemes, old(reader.at), key, old(fields.Contents()),
                        fault, fields.Contents(), reader.at)
  {
    FieldValue(reader.lexemes, reader.at);
    hide Unescape, Inner, ParseValue, TypeOf, Weave, ValidPieces, Lexemes;
    if fields.uid.Some? {
      return Some(AppearsTwice("uid"));
    }
    var uid := reader.GetString();
    if uid.None? {
      return Some(UidNotAString);
    }
    fields.uid := Some(uid.value);
    return None;
  }

  /** read_primary_key(): a string, or null for none. */
  method ReadPrimaryKey(reader: Reader, fields: CreateIndexFields, ghost key: string) returns (fault: Option<Refusal>)
    requires reader.Valid() && Unescape(Inner(key)) == Some("primaryKey")
    requires !fields.hasPrimaryKey ==> fields.primaryKey.None?
    modifies reader`at, fields
    ensures reader.Valid()
    ensures FieldAgrees(reader.lexemes, old(reader.at), key, old(fields.Contents()),
                        fault, fields.Contents(), reader.at)
    ensures fault.None? ==> fields.hasPrimaryKey
  {
    FieldValue(reader.lexemes, reader.at);
    hide Unescape, Inner, ParseValue, Weave, ValidPieces, Lexemes;
    if fields.hasPrimaryKey {
      return Some(AppearsTwice("primaryKey"));
    }
    fields.hasPrimaryKey := true;
    var isNull := reader.IsNull();
    if isNull.None? {
      return Some(PrimaryKeyNotAStringOrNull);
    }
    if isNull.value {
      return None;
    }
    var primaryKey := reader.GetString();
    if primaryKey.None? {
      return Some(PrimaryKeyNotAStringOrNull);
    }
    fields.primaryKey := Some(primaryKey.value);
    return None;
  }

  /** The fault, the fields and the cursor agree with reading the value at `i` as the field `key`. */
  ghost predicate FieldAgrees(ls: seq<string>, i: nat, key: string, before: Fields, fault: Option<Refusal>,
      after: Fields, at: nat)
    requires i <= |ls|
  {
    match ParseValue(ls, i)
    case None => fault.Some?
    case Some((v, n)) =>
      match ReadOne(key, v, before)
      case Err(e) => fault == Some(e)
      case Ok(f) => fault == None && after == f && at == n
  }

  /** What the token at `i` says about the value that starts there. */
  lemma {:induction false} FieldValue(ls: seq<string>, i: nat)
    requires i <= |ls|
    ensures i == |ls| ==> ParseValue(ls, i).None?
    ensures i < |ls| && (TypeOf(ls[i]) == StringType || ls[i] == "null") ==>
              ParseValue(ls, i) == Some((Scalar(ls[i]), i + 1))
    ensures i < |ls| && TypeOf(ls[i]) != StringType && ls[i] != "null" && ParseValue(ls, i).Some? ==>
              MeaningOf(ParseValue(ls, i).value.0) == Other
    ensures i < |ls| && ls[i] == "null" ==> TypeOf(ls[i]) == NullType
  {
    hide Unescape;
  }

  /** read_field(): the value at the cursor belongs to the key token `key`. */
  method ReadField(reader: Reader, key: string, fields: CreateIndexFields) returns (fault: Option<Refusal>)
    requires reader.Valid() && (!fields.hasPrimaryKey ==> fields.primaryKey.None?)
    modifies reader`at, fields
    ensures reader.Valid()
    ensures FieldAgrees(reader.lexemes, old(reader.at), key, old(fields.Contents()),
                        fault, fields.Contents(), reader.at)
    ensures fault.None? && !fields.hasPrimaryKey ==> fields.primaryKey.None?
  {
    hide Unescape, Inner, ParseValue, Weave, ValidPieces, Lexemes;
    var name := Unescape(Inner(key));
    if name.None? {
      return Some(NotJson);
    }
    if name.value == "uid" {
      fault := ReadUid(reader, fields, key);
      UidKeepsPrimaryKey(reader.lexemes, old(reader.at), key, old(fields.Contents()));
      return;
    }
    if name.value == "primaryKey" {
      fault := ReadPrimaryKey(reader, fields, key);
      return;
    }
    return Some(UnknownField(name.value));
  }

  lemma {:induction false} UidKeepsPrimaryKey(ls: seq<string>, i: nat, key: string, f: Fields)
    requires i <= |ls| && Unescape(Inner(key)) == Some("uid")
    ensures forall fault, after, at :: FieldAgrees(ls, i, key, f, fault, after, at) && fault.None? ==>
              after.hasPrimaryKey == f.hasPrimaryKey && after.primaryKey == f.primaryKey
  {
    hide ParseValue, MeaningOf;
  }

  type Reading = Option<(Result<Fields, Refusal>, nat)>

  /** What the fields from token `at` on come to, read into `f`, and the token after the object. */
  ghost function MembersRead(ls: seq<string>, at: nat, f: Fields): (r: Reading)
    requires at <= |ls|
    ensures r.Some? ==> at < r.value.1 <= |ls|
  {
    match ParseMembers(ls, at)
    case None => None
    case Some((ms, n)) => Some((ReadAll(ms, f), n))
  }

  ghost function ObjectRead(ls: seq<string>, i: nat): (r: Reading)
    requires i <= |ls|
    ensures r.Some? ==> i < r.value.1 <= |ls|
  {
    match ParseValue(ls, i)
    case None => None
    case Some((v, n)) => if v.Object? then Some((ReadAll(v.members, NO_FIELDS), n)) else None
  }

  lemma {:induction false} EnterObjectRead(ls: seq<string>, i: nat)
    requires i < |ls|
    ensures ls[i] == "{" ==>
              ObjectRead(ls, i)
              == if i + 1 < |ls| && ls[i + 1] == "}" then Some((Ok(NO_FIELDS), i + 2))
                 else MembersRead(ls, i + 1, NO_FIELDS)
  {
    hide ReadOne;
  }

  lemma {:induction false} ReadAllCons(m: Member, rest: seq<Member>, f: Fields)
    ensures ReadAll([m] + rest, f)
            == match ReadOne(m.key, m.value, f) case Err(e) => Err(e) case Ok(g) => ReadAll(rest, g)
    ensures ReadAll([m], f) == ReadOne(m.key, m.value, f)
  {
    hide ReadOne;
    assert ([m] + rest)[1..] == rest && [m][1..] == [];
  }

  /** One field, and the token after it, within the reading of the rest. */
  lemma {:induction false} MembersReadStep(ls: seq<string>, at: nat, f: Fields)
    requires at <= |ls|
    ensures at + 2 > |ls| || !IsKey(ls[at]) || ls[at + 1] != ":" ==> MembersRead(ls, at, f).None?
    ensures at + 2 <= |ls| && IsKey(ls[at]) && ls[at + 1] == ":" ==>
              match ParseValue(ls, at + 2)
              case None => MembersRead(ls, at, f).None?
              case Some((v, j)) =>
                match ReadOne(ls[at], v, f)
                case Err(e) => MembersRead(ls, at, f).Some? ==> MembersRead(ls, at, f).value.0 == Err(e)
                case Ok(g) =>
                  MembersRead(ls, at, f)
                  == if j < |ls| && ls[j] == "}" then Some((Ok(g), j + 1))
                     else if j < |ls| && ls[j] == "," then MembersRead(ls, j + 1, g)
                     else None
  {
    hide ReadOne, ReadAll;
    if ParseMember(ls, at).Some? {
      var (m, j) := ParseMember(ls, at).value;
      ReadAllCons(m, [], f);
      if j < |ls| && ParseMembers(ls, j + 1).Some? {
        ReadAllCons(m, ParseMembers(ls, j + 1).value.0, f);
      }
    }
  }

  /** read_fields(), in the object that opens the body and was just entered. */
  method ReadFields(reader: Reader, first: Step) returns (r: Result<Fields, Refusal>)
    requires reader.Valid() && first != Fault && reader.lexemes != []
    requires first == Done ==> ObjectRead(reader.lexemes, 0) == Some((Ok(NO_FIELDS), reader.at))
    requires first == More ==> ObjectRead(reader.lexemes, 0) == MembersRead(reader.lexemes, reader.at, NO_FIELDS)
    modifies reader`at
    ensures reader.Valid()
    ensures match ObjectRead(reader.lexemes, 0)
            case None => r.Err?
            case Some((expected, n)) => r == expected && (r.Ok? ==> reader.at == n)
  {
    hide Unescape, Inner, ParseValue, ReadOne, MembersRead, ObjectRead, IsKey, Weave, ValidPieces, Lexemes;
    ghost var ls := reader.lexemes;
    ghost var whole := ObjectRead(ls, 0);
    var fields := new CreateIndexFields();
    var step := first;
    while step != Done
      invariant reader.Valid() && (!fields.hasPrimaryKey ==> fields.primaryKey.None?)
      invariant step == Fault ==> whole.None?
      invariant step == Done ==> whole == Some((Ok(fields.Contents()), reader.at))
      invariant step == More ==> whole == MembersRead(ls, reader.at, fields.Contents())
      decreases |ls| - reader.at, step != Fault
    {
      if step == Fault {
        return Err(NotJson);
      }
      MembersReadStep(ls, reader.at, fields.Contents());
      var key := reader.GetField();
      if key.None? {
        return Err(NotJson);
      }
      var fault := ReadField(reader, key.value, fields);
      if fault.Some? {
        return Err(fault.value);
      }
      step := reader.Next("}");
    }
    return Ok(fields.Contents());
  }

  /** parse_create_index_request() */
  method ParseCreateIndexRequest(body: string) returns (r: Result<Command, Refusal>)
    ensures ParseText(body).Some? ==> r == Request(body)
    ensures ParseText(body).None? ==> r.Err?
  {
    hide ParseText, ParseValue, Request, Iterate, Lex, ObjectRead, MembersRead, ToCommand, Weave, ValidPieces;
    UnparsedIsRefused(body);
    var text := Iterate(body);
    if text.None? {
      return Err(NotJson);
    }
    IterateCuts(body);
    RequestIs(body);
    var reader := new Reader(body, text.value);
    EnterObjectRead(reader.lexemes, 0);
    var found, step := reader.Enter("{", "}");
    if !found {
      return Err(NotAnObject);
    }
    var fields := ReadFields(reader, step);
    if fields.Err? {
      return Err(fields.error);
    }
    if !reader.AtEnd() {
      return Err(NotJson);
    }
    return ToCommand(fields.value);
  }

  lemma {:induction false} UnparsedIsRefused(body: string)
    ensures Iterate(body).None? ==> ParseText(body).None?
  {
  }

  lemma {:induction false} RequestIs(body: string)
    requires Iterate(body).Some?
    ensures var ps := Iterate(body).value.pieces;
            var ls := Lexemes(ps);
            && ls != []
            && (ls[0] != "{" && ParseText(body).Some? ==> Request(body) == Err(NotAnObject))
            && (ls[0] == "{" ==>
                  (ParseText(body).Some? <==> ObjectRead(ls, 0).Some? && ObjectRead(ls, 0).value.1 == |ls|)
                  && (ParseText(body).Some? ==>
                        Request(body)
                          == match ObjectRead(ls, 0).value.0 case Err(e) => Err(e) case Ok(f) => ToCommand(f)))
  {
    hide ReadAll, ToCommand, Lex, ValidUtf8;
  }

  // ---- the request depends only on what its fields mean -----------------------------------------

  /** A field as it counts here: its unescaped name, and what its value means. */
  function Decoded(m: Member): (string, Meaning)
    requires Unescape(Inner(m.key)).Some?
  {
    (Unescape(Inner(m.key)).value, MeaningOf(m.value))
  }

  predicate KeysRead(ms: seq<Member>) {
    forall k | 0 <= k < |ms| :: Unescape(Inner(ms[k].key)).Some?
  }

  function DecodedAll(ms: seq<Member>): multiset<(string, Meaning)>
    requires KeysRead(ms)
  {
    if ms == [] then multiset{} else multiset{Decoded(ms[0])} + DecodedAll(ms[1..])
  }

  function PrimaryKeyMeaning(f: Fields): Meaning {
    if f.primaryKey.Some? then Str(f.primaryKey.value) else Null
  }

  function UidPart(f: Fields): multiset<(string, Meaning)> {
    if f.uid.Some? then multiset{("uid", Str(f.uid.value))} else multiset{}
  }

  function PrimaryKeyPart(f: Fields): multiset<(string, Meaning)> {
    if f.hasPrimaryKey then multiset{("primaryKey", PrimaryKeyMeaning(f))} else multiset{}
  }

  /** The decoded fields that leave exactly `f` behind. */
  function PartsOf(f: Fields): multiset<(string, Meaning)> {
    UidPart(f) + PrimaryKeyPart(f)
  }

  predicate Sound(f: Fields) {
    f.hasPrimaryKey || f.primaryKey.None?
  }

  lemma {:induction false} PartsDetermine(f: Fields, g: Fields)
    requires Sound(f) && Sound(g) && PartsOf(f) == PartsOf(g)
    ensures f == g
  {
    if f.uid.Some? { assert ("uid", Str(f.uid.value)) in PartsOf(g); }
    if g.uid.Some? { assert ("uid", Str(g.uid.value)) in PartsOf(f); }
    if f.hasPrimaryKey { assert ("primaryKey", PrimaryKeyMeaning(f)) in PartsOf(g); }
    if g.hasPrimaryKey { assert ("primaryKey", PrimaryKeyMeaning(g)) in PartsOf(f); }
  }

  /** Reading one field adds exactly that field, or there is nothing it could be added to. */
  lemma {:induction false} ReadOneAdds(m: Member, f: Fields)
    requires Sound(f) && Unescape(Inner(m.key)).Some?
    ensures match ReadOne(m.key, m.value, f)
            case Ok(g) => Sound(g) && PartsOf(g) == PartsOf(f) + multiset{Decoded(m)}
            case Err(_) => forall g: Fields :: !(PartsOf(f) + multiset{Decoded(m)} <= PartsOf(g))
  {
    hide Unescape;
    var d := Decoded(m);
    match ReadOne(m.key, m.value, f)
    case Ok(g) =>
    case Err(_) =>
      forall g: Fields ensures !(PartsOf(f) + multiset{d} <= PartsOf(g)) {
        CannotAdd(d, f, g);
      }
  }

  lemma {:induction false} CannotAdd(d: (string, Meaning), f: Fields, g: Fields)
    requires d.0 == "uid" ==> f.uid.Some? || !d.1.Str?
    requires d.0 == "primaryKey" ==> f.hasPrimaryKey || d.1 == Other
    ensures !(PartsOf(f) + multiset{d} <= PartsOf(g))
  {
    var sum := PartsOf(f) + multiset{d};
    assert sum[d] == PartsOf(f)[d] + 1 && PartsOf(g)[d] <= 1;
    if f.uid.Some? { assert ("uid", Str(f.uid.value)) in sum; }
    if f.hasPrimaryKey { assert ("primaryKey", PrimaryKeyMeaning(f)) in sum; }
  }

  /** Reading succeeds with `g` exactly when the decoded fields, in whatever order, make up `g`. */
  lemma {:induction false} ReadAllIsTheSum(ms: seq<Member>, f: Fields, g: Fields)
    requires Sound(f)
    ensures ReadAll(ms, f) == Ok(g) <==> KeysRead(ms) && Sound(g) && PartsOf(f) + DecodedAll(ms) == PartsOf(g)
    decreases |ms|
  {
    hide Unescape, Inner, PartsOf, MeaningOf;
    if ms == [] {
      if PartsOf(f) == PartsOf(g) && Sound(g) { PartsDetermine(f, g); }
    } else {
      var m, rest := ms[0], ms[1..];
      if Unescape(Inner(m.key)).Some? {
        assert KeysRead(ms) <==> KeysRead(rest) by {
          assert forall k | 0 <= k < |rest| :: rest[k] == ms[k + 1];
          assert forall k | 0 < k < |ms| :: ms[k] == rest[k - 1];
        }
        ReadOneAdds(m, f);
        match ReadOne(m.key, m.value, f)
        case Ok(h) =>
          ReadAllIsTheSum(rest, h, g);
        case Err(_) =>
          if KeysRead(ms) { assert PartsOf(f) + multiset{Decoded(m)} <= PartsOf(f) + DecodedAll(ms); }
      }
    }
  }
}
