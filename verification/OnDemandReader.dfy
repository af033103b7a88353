/**
 The forward-only reader that the routes drive: a cursor over the tokens of one body. Structure is
 checked as the cursor passes it; an atom, a number or an escape only when it is asked for; a value
 nobody reads is skipped by counting brackets.
 */
module OnDemandReader {
  import opened Wrappers
  import opened JsonLexer
  import opened JsonString
  import opened JsonNumber
  import opened JsonGrammar

  datatype JsonType = ArrayType | ObjectType | NumberType | StringType | BooleanType | NullType | UnknownType

  /** value.type(): decided by the first byte alone. */
  function TypeOf(l: string): JsonType {
    if l == "" then UnknownType
    else if l == "[" then ArrayType
    else if l == "{" then ObjectType
    else if l[0] == '"' then StringType
    else if l[0] == 't' || l[0] == 'f' then BooleanType
    else if l[0] == 'n' then NullType
    else if l[0] == '-' || IsDigit(l[0]) then NumberType
    else UnknownType
  }

  /** The token reads as a scalar of the type its first byte announces. */
  predicate ScalarReads(l: string) {
    match TypeOf(l)
    case NumberType => ReadsAsDouble(l)
    case StringType => Unescape(Inner(l)).Some?
    case BooleanType => l == "true" || l == "false"
    case NullType => l == "null"
    case _ => false
  }

  /** Where skipping ends that starts at token `i` with `depth` brackets open: after the last of
      them closes. Brackets are counted, not matched by kind. */
  function SkipTo(ls: seq<string>, i: nat, depth: nat): (n: Option<nat>)
    requires i <= |ls|
    ensures n.Some? ==> i <= n.value <= |ls|
    decreases |ls| - i
  {
    if depth == 0 then Some(i)
    else if i == |ls| then None
    else if ls[i] == "[" || ls[i] == "{" then SkipTo(ls, i + 1, depth + 1)
    else if ls[i] == "]" || ls[i] == "}" then SkipTo(ls, i + 1, depth - 1)
    else SkipTo(ls, i + 1, depth)
  }

  /** What a range-for over an array or object finds next. */
  datatype Step = Done | More | Fault

  class Reader {
    const body: string
    const text: Text
    const lexemes: seq<string>
    var at: nat

    ghost predicate Valid()
      reads this
    {
      && Weave(text.pieces, text.tail) == body
      && ValidPieces(text.pieces, text.tail)
      && lexemes == Lexemes(text.pieces)
      && at <= |lexemes|
    }

    /** After parser.iterate(). */
    constructor (body: string, text: Text)
      requires Lex(body) == Some(text)
      ensures Valid() && this.body == body && this.text == text && at == 0
    {
      LexThenWeave(body);
      this.body, this.text, this.lexemes, this.at := body, text, Lexemes(text.pieces), 0;
    }

    predicate LooksAt(l: string)
      requires Valid()
      reads this
    {
      at < |lexemes| && lexemes[at] == l
    }

    /** get_array() or get_object(), and begin(): steps into the container. */
    method Enter(open: string, close: string) returns (found: bool, step: Step)
      requires Valid()
      modifies this`at
      ensures Valid()
      ensures found <==> old(LooksAt(open))
      ensures !found ==> at == old(at)
      ensures found && old(at) + 1 < |lexemes| && lexemes[old(at) + 1] == close ==> step == Done && at == old(at) + 2
      ensures found && !(old(at) + 1 < |lexemes| && lexemes[old(at) + 1] == close) ==> step == More && at == old(at) + 1
    {
      found, step := LooksAt(open), Fault;
      if found {
        at := at + 1;
        if LooksAt(close) {
          at := at + 1;
          step := Done;
        } else {
          step := More;
        }
      }
    }

    /** operator++: after a child was read, a comma or the end of the container. */
    method Next(close: string) returns (step: Step)
      requires Valid() && close != ","
      modifies this`at
      ensures Valid()
      ensures step == if old(LooksAt(close)) then Done else if old(LooksAt(",")) then More else Fault
      ensures at == if step == Fault then old(at) else old(at) + 1
    {
      step := if LooksAt(close) then Done else if LooksAt(",") then More else Fault;
      if step != Fault {
        at := at + 1;
      }
    }

    /** field_result.get(field): a string token and the colon after it. */
    method GetField() returns (key: Option<string>)
      requires Valid()
      modifies this`at
      ensures Valid()
      ensures key.Some? <==> old(at) + 2 <= |lexemes| && IsKey(lexemes[old(at)]) && lexemes[old(at) + 1] == ":"
      ensures key.Some? ==> key.value == lexemes[old(at)] && at == old(at) + 2
    {
      if at + 2 <= |lexemes| && IsKey(lexemes[at]) && lexemes[at + 1] == ":" {
        key := Some(lexemes[at]);
        at := at + 2;
      } else {
        key := None;
      }
    }

    /** value.type() */
    function Type(): Option<JsonType>
      requires Valid()
      reads this
    {
      if at == |lexemes| then None else Some(TypeOf(lexemes[at]))
    }

    /** value.get_string() */
    method GetString() returns (text: Option<string>)
      requires Valid()
      modifies this`at
      ensures Valid()
      ensures text == if old(Type()) == Some(StringType) then Unescape(Inner(lexemes[old(at)])) else None
      ensures at == if text.Some? then old(at) + 1 else old(at)
    {
      text := if Type() == Some(StringType) then Unescape(Inner(lexemes[at])) else None;
      if text.Some? {
        at := at + 1;
      }
    }

    /** value.get_double() */
    method GetDouble() returns (ok: bool)
      requires Valid()
      modifies this`at
      ensures Valid()
      ensures ok <==> old(at) < |lexemes| && ReadsAsDouble(lexemes[old(at)])
      ensures at == if ok then old(at) + 1 else old(at)
    {
      ok := at < |lexemes| && ReadsAsDouble(lexemes[at]);
      if ok {
        at := at + 1;
      }
    }

    /** value.get_bool() */
    method GetBool() returns (ok: bool)
      requires Valid()
      modifies this`at
      ensures Valid()
      ensures ok <==> old(LooksAt("true")) || old(LooksAt("false"))
      ensures at == if ok then old(at) + 1 else old(at)
    {
      ok := LooksAt("true") || LooksAt("false");
      if ok {
        at := at + 1;
      }
    }

    /** value.is_null(): an error when the token starts like null and is not. */
    method IsNull() returns (isNull: Option<bool>)
      requires Valid()
      modifies this`at
      ensures Valid()
      ensures isNull == if old(at) == |lexemes| then None
                        else if old(LooksAt("null")) then Some(true)
                        else if old(Type()) == Some(NullType) then None
                        else Some(false)
      ensures at == if isNull == Some(true) then old(at) + 1 else old(at)
    {
      isNull := if at == |lexemes| then None
                else if LooksAt("null") then Some(true)
                else if Type() == Some(NullType) then None
                else Some(false);
      if isNull == Some(true) {
        at := at + 1;
      }
    }

    /** object.raw_json() of the untouched object that opens at token `start`: the body from there
        to the start of the token after the object. */
    method RawJson(start: nat) returns (source: Option<string>)
      requires Valid() && start < |lexemes|
      modifies this`at
      ensures Valid()
      ensures source.Some? <==> SkipTo(lexemes, start + 1, 1).Some?
      ensures source.Some? ==>
                at == SkipTo(lexemes, start + 1, 1).value
                && source.value == Span(text.pieces[start..at]) + GapBefore(text.pieces, text.tail, at)
    {
      match SkipTo(lexemes, start + 1, 1)
      case None =>
        source := None;
      case Some(end) =>
        SliceIsSpan(text.pieces, text.tail, start, end);
        source := Some(body[Start(text.pieces, text.tail, start)..Start(text.pieces, text.tail, end)]);
        at := end;
    }

    /** object.reset(): back to the start of the object, and into it again. */
    method Reset(start: nat, open: string, close: string) returns (step: Step)
      requires Valid() && start < |lexemes| && lexemes[start] == open
      modifies this`at
      ensures Valid()
      ensures start + 1 < |lexemes| && lexemes[start + 1] == close ==> step == Done && at == start + 2
      ensures !(start + 1 < |lexemes| && lexemes[start + 1] == close) ==> step == More && at == start + 1
    {
      var found;
      at := start;
      found, step := Enter(open, close);
    }

    /** document.at_end() */
    predicate AtEnd()
      requires Valid()
      reads this
    {
      at == |lexemes|
    }
  }

  // ---- skipping ----------------------------------------------------------------------------------

  /** Skipping over a value leaves the open brackets as they were. */
  lemma {:induction false} SkipValue(ls: seq<string>, i: nat, depth: nat)
    requires i <= |ls| && depth > 0 && ParseValue(ls, i).Some?
    ensures SkipTo(ls, i, depth) == SkipTo(ls, ParseValue(ls, i).value.1, depth)
    decreases |ls| - i, 0
  {
    if ls[i] == "[" {
      if !(i + 1 < |ls| && ls[i + 1] == "]") { SkipItems(ls, i + 1, depth + 1); }
    } else if ls[i] == "{" {
      if !(i + 1 < |ls| && ls[i + 1] == "}") { SkipMembers(ls, i + 1, depth + 1); }
    }
  }

  lemma {:induction false} SkipItems(ls: seq<string>, i: nat, depth: nat)
    requires i <= |ls| && depth > 0 && ParseItems(ls, i).Some?
    ensures SkipTo(ls, i, depth) == SkipTo(ls, ParseItems(ls, i).value.1, depth - 1)
    decreases |ls| - i, 1
  {
    SkipValue(ls, i, depth);
    var j := ParseValue(ls, i).value.1;
    if ls[j] == "," { SkipItems(ls, j + 1, depth); }
  }

  lemma {:induction false} SkipMembers(ls: seq<string>, i: nat, depth: nat)
    requires i <= |ls| && depth > 0 && ParseMembers(ls, i).Some?
    ensures SkipTo(ls, i, depth) == SkipTo(ls, ParseMembers(ls, i).value.1, depth - 1)
    decreases |ls| - i, 1
  {
    assert !IsKey("[") && !IsKey("{") && !IsKey("]") && !IsKey("}");
    SkipValue(ls, i + 2, depth);
    assert SkipTo(ls, i, depth) == SkipTo(ls, i + 1, depth) == SkipTo(ls, i + 2, depth);
    var j := ParseMember(ls, i).value.1;
    if ls[j] == "," { SkipMembers(ls, j + 1, depth); }
  }

  /** raw_json() of an object that parses ends at the brace that closes it. */
  lemma {:induction false} SkipEndsAtClose(ls: seq<string>, i: nat)
    requires i < |ls| && ls[i] == "{" && ParseValue(ls, i).Some?
    ensures SkipTo(ls, i + 1, 1) == Some(ParseValue(ls, i).value.1)
  {
    if !(i + 1 < |ls| && ls[i + 1] == "}") { SkipMembers(ls, i + 1, 1); }
  }

  /** Two token sequences alike in their brackets are skipped alike: whatever stands in place of a
      scalar goes unnoticed, which is why every value has to be read. */
  lemma {:induction false} SkippingSeesOnlyBrackets(ls: seq<string>, ms: seq<string>, i: nat, depth: nat)
    requires |ls| == |ms| && i <= |ls|
    requires forall k | 0 <= k < |ls| :: (ls[k] == "[" || ls[k] == "{") == (ms[k] == "[" || ms[k] == "{")
    requires forall k | 0 <= k < |ls| :: (ls[k] == "]" || ls[k] == "}") == (ms[k] == "]" || ms[k] == "}")
    ensures SkipTo(ls, i, depth) == SkipTo(ms, i, depth)
    decreases |ls| - i
  {
    if depth > 0 && i < |ls| {
      SkippingSeesOnlyBrackets(ls, ms, i + 1, depth + 1);
      SkippingSeesOnlyBrackets(ls, ms, i + 1, depth - 1);
      SkippingSeesOnlyBrackets(ls, ms, i + 1, depth);
    }
  }
}
