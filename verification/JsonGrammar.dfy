/**
 JSON values and texts as RFC 8259 sections 2 to 7 derive them, and the structural reading of a
 token sequence, which is shown to find exactly what the grammar derives.
 */
module JsonGrammar {
  import opened Wrappers
  import opened Utf8
  import opened JsonLexer
  import opened JsonString
  import opened JsonNumber

  /** A derivation. Scalars and keys keep their tokens, so a value still knows its own spelling. */
  datatype Value = Scalar(lexeme: string) | Array(items: seq<Value>) | Object(members: seq<Member>)

  datatype Member = Member(key: string, value: Value)

  // ---- the grammar --------------------------------------------------------------------------

  /** The tokens a value is written with (sections 3 to 5). */
  function Toks(v: Value): seq<string>
    decreases v
  {
    match v
    case Scalar(l) => [l]
    case Array(items) => ["["] + ItemToks(items)
    case Object(members) => ["{"] + MemberToks(members)
  }

  /** The elements, separated by commas, and the closing bracket. */
  function ItemToks(items: seq<Value>): (ls: seq<string>)
    ensures ls != []
    decreases items
  {
    if items == [] then ["]"]
    else if |items| == 1 then Toks(items[0]) + ["]"]
    else Toks(items[0]) + ([","] + ItemToks(items[1..]))
  }

  function MemberToks(members: seq<Member>): (ls: seq<string>)
    ensures ls != []
    decreases members
  {
    if members == [] then ["}"]
    else if |members| == 1 then ToksOfMember(members[0]) + ["}"]
    else ToksOfMember(members[0]) + ([","] + MemberToks(members[1..]))
  }

  function ToksOfMember(m: Member): seq<string>
    decreases m
  {
    [m.key, ":"] + Toks(m.value)
  }

  /** Scalars are not punctuation, and keys open with a quote. */
  predicate Shape(v: Value)
    decreases v
  {
    match v
    case Scalar(l) => l != "" && !IsPunct(l)
    case Array(items) => forall i | 0 <= i < |items| :: Shape(items[i])
    case Object(members) => forall i | 0 <= i < |members| :: ShapeOfMember(members[i])
  }

  predicate ShapeOfMember(m: Member)
    decreases m
  {
    IsKey(m.key) && Shape(m.value)
  }

  predicate IsKey(l: string) {
    l != "" && l[0] == '"'
  }

  /** `p` holds of every scalar and every key in `v`. */
  ghost predicate All(v: Value, p: string -> bool)
    decreases v
  {
    match v
    case Scalar(l) => p(l)
    case Array(items) => forall i | 0 <= i < |items| :: All(items[i], p)
    case Object(members) => forall i | 0 <= i < |members| :: p(members[i].key) && All(members[i].value, p)
  }

  /** Sections 3, 6 and 7: the scalar tokens. */
  ghost predicate IsScalarToken(l: string) {
    l == "true" || l == "false" || l == "null" || IsJsonNumber(l) || IsJsonString(l)
  }

  /** A derivation of RFC 8259. */
  ghost predicate WellFormed(v: Value) {
    Shape(v) && All(v, IsScalarToken)
  }

  /** Section 2: `body` is the tokens of `v` with insignificant whitespace around them. */
  ghost predicate Derives(t: Text, v: Value) {
    && IsGap(t.tail)
    && (forall k | 0 <= k < |t.pieces| :: IsGap(t.pieces[k].gap))
    && Lexemes(t.pieces) == Toks(v)
  }

  /** `body` is a JSON text in UTF-8 (section 8.1) whose value is `v`. */
  ghost predicate IsJsonText(body: string, v: Value) {
    && ValidUtf8(body)
    && WellFormed(v)
    && exists t: Text :: Weave(t.pieces, t.tail) == body && Derives(t, v)
  }

  /** Levels of nesting, a scalar being one level. */
  function Height(v: Value): (h: nat)
    ensures h >= 1
    decreases v
  {
    match v
    case Scalar(_) => 1
    case Array(items) => 1 + ItemsHeight(items)
    case Object(members) => 1 + MembersHeight(members)
  }

  function Max(a: nat, b: nat): nat {
    if a < b then b else a
  }

  function ItemsHeight(items: seq<Value>): nat
    decreases items
  {
    if items == [] then 0 else Max(Height(items[0]), ItemsHeight(items[1..]))
  }

  function MembersHeight(members: seq<Member>): nat
    decreases members
  {
    if members == [] then 0 else Max(Height(members[0].value), MembersHeight(members[1..]))
  }

  // ---- structural reading -------------------------------------------------------------------

  /** The value that starts at token `i`, and the token after it. Scalars are not looked into. */
  function ParseValue(ls: seq<string>, i: nat): (r: Option<(Value, nat)>)
    requires i <= |ls|
    ensures r.Some? ==> i < r.value.1 <= |ls|
    decreases |ls| - i, 0
  {
    if i == |ls| || ls[i] == "" then None
    else if ls[i] == "[" then
      if i + 1 < |ls| && ls[i + 1] == "]" then Some((Array([]), i + 2))
      else
        match ParseItems(ls, i + 1)
        case None => None
        case Some((items, n)) => Some((Array(items), n))
    else if ls[i] == "{" then
      if i + 1 < |ls| && ls[i + 1] == "}" then Some((Object([]), i + 2))
      else
        match ParseMembers(ls, i + 1)
        case None => None
        case Some((members, n)) => Some((Object(members), n))
    else if IsPunct(ls[i]) then None
    else Some((Scalar(ls[i]), i + 1))
  }

  /** One or more elements from token `i`, through the closing bracket. */
  function ParseItems(ls: seq<string>, i: nat): (r: Option<(seq<Value>, nat)>)
    requires i <= |ls|
    ensures r.Some? ==> i < r.value.1 <= |ls| && r.value.0 != []
    decreases |ls| - i, 1
  {
    match ParseValue(ls, i)
    case None => None
    case Some((v, j)) =>
      if j == |ls| then None
      else if ls[j] == "]" then Some(([v], j + 1))
      else if ls[j] == "," then
        match ParseItems(ls, j + 1)
        case None => None
        case Some((rest, n)) => Some(([v] + rest, n))
      else None
  }

  function ParseMember(ls: seq<string>, i: nat): (r: Option<(Member, nat)>)
    requires i <= |ls|
    ensures r.Some? ==> i < r.value.1 <= |ls|
    decreases |ls| - i, 1
  {
    if i + 2 > |ls| || !IsKey(ls[i]) || ls[i + 1] != ":" then None
    else
      match ParseValue(ls, i + 2)
      case None => None
      case Some((v, n)) => Some((Member(ls[i], v), n))
  }

  function ParseMembers(ls: seq<string>, i: nat): (r: Option<(seq<Member>, nat)>)
    requires i <= |ls|
    ensures r.Some? ==> i < r.value.1 <= |ls| && r.value.0 != []
    decreases |ls| - i, 2
  {
    match ParseMember(ls, i)
    case None => None
    case Some((m, j)) =>
      if j == |ls| then None
      else if ls[j] == "}" then Some(([m], j + 1))
      else if ls[j] == "," then
        match ParseMembers(ls, j + 1)
        case None => None
        case Some((rest, n)) => Some(([m] + rest, n))
      else None
  }

  /** iterate(), then a structural reading of the whole body. */
  function ParseText(body: string): Option<(Text, Value)> {
    match Iterate(body)
    case None => None
    case Some(t) =>
      match ParseValue(Lexemes(t.pieces), 0)
      case None => None
      case Some((v, n)) => if n == |t.pieces| then Some((t, v)) else None
  }

  /** parser.iterate(): the body is UTF-8, holds a token, and can be cut into tokens. */
  function Iterate(body: string): Option<Text> {
    if !ValidUtf8(body) then None
    else
      match Lex(body)
      case None => None
      case Some(t) => if t.pieces == [] then None else Some(t)
  }

  lemma {:induction false} IterateCuts(body: string)
    requires Iterate(body).Some?
    ensures Lex(body) == Iterate(body) && Iterate(body).value.pieces != []
  {
  }

  // ---- what is parsed is derived ------------------------------------------------------------

  lemma {:induction false} Slices(ls: seq<string>, i: nat, j: nat, k: nat)
    requires i <= j <= k <= |ls|
    ensures ls[i..k] == ls[i..j] + ls[j..k]
  {
  }

  lemma {:induction false} ParsedIsDerived(ls: seq<string>, i: nat)
    requires i <= |ls| && ParseValue(ls, i).Some?
    ensures var (v, n) := ParseValue(ls, i).value; Shape(v) && ls[i..n] == Toks(v)
    decreases |ls| - i, 0
  {
    var (v, n) := ParseValue(ls, i).value;
    Slices(ls, i, i + 1, n);
    assert ls[i..i + 1] == [ls[i]];
    if ls[i] == "[" {
      if !(i + 1 < |ls| && ls[i + 1] == "]") { ParsedItemsAreDerived(ls, i + 1); }
    } else if ls[i] == "{" {
      if !(i + 1 < |ls| && ls[i + 1] == "}") { ParsedMembersAreDerived(ls, i + 1); }
    }
  }

  lemma {:induction false} ItemToksCons(v: Value, rest: seq<Value>)
    requires Shape(v)
    ensures ItemToks([v]) == Toks(v) + ["]"] && Shape(Array([v]))
    ensures rest != [] ==> ItemToks([v] + rest) == Toks(v) + ([","] + ItemToks(rest))
    ensures Shape(Array(rest)) ==> Shape(Array([v] + rest))
  {
    hide Toks;
    assert ([v] + rest)[1..] == rest;
  }

  lemma {:induction false} MemberToksCons(m: Member, rest: seq<Member>)
    requires ShapeOfMember(m)
    ensures MemberToks([m]) == ToksOfMember(m) + ["}"] && Shape(Object([m]))
    ensures rest != [] ==> MemberToks([m] + rest) == ToksOfMember(m) + ([","] + MemberToks(rest))
    ensures Shape(Object(rest)) ==> Shape(Object([m] + rest))
  {
    hide ToksOfMember, ShapeOfMember;
    assert ([m] + rest)[1..] == rest;
  }

  lemma {:induction false} ParsedItemsAreDerived(ls: seq<string>, i: nat)
    requires i <= |ls| && ParseItems(ls, i).Some?
    ensures var (items, n) := ParseItems(ls, i).value; Shape(Array(items)) && ls[i..n] == ItemToks(items)
    decreases |ls| - i, 1
  {
    var (items, n) := ParseItems(ls, i).value;
    var (v, j) := ParseValue(ls, i).value;
    ParsedIsDerived(ls, i);
    Slices(ls, i, j, n);
    Slices(ls, j, j + 1, n);
    assert ls[j..j + 1] == [ls[j]];
    if ls[j] == "," {
      ParsedItemsAreDerived(ls, j + 1);
      ItemToksCons(v, ParseItems(ls, j + 1).value.0);
    } else {
      ItemToksCons(v, []);
    }
    hide ParseItems, ParseValue, ItemToks, Toks, Shape;
  }

  lemma {:induction false} ParsedMemberIsDerived(ls: seq<string>, i: nat)
    requires i <= |ls| && ParseMember(ls, i).Some?
    ensures var (m, n) := ParseMember(ls, i).value; ShapeOfMember(m) && ls[i..n] == ToksOfMember(m)
    decreases |ls| - i, 1
  {
    var (m, n) := ParseMember(ls, i).value;
    ParsedIsDerived(ls, i + 2);
    Slices(ls, i, i + 2, n);
    assert ls[i..i + 2] == [ls[i], ls[i + 1]];
  }

  lemma {:induction false} ParsedMembersAreDerived(ls: seq<string>, i: nat)
    requires i <= |ls| && ParseMembers(ls, i).Some?
    ensures var (ms, n) := ParseMembers(ls, i).value; Shape(Object(ms)) && ls[i..n] == MemberToks(ms)
    decreases |ls| - i, 2
  {
    var (ms, n) := ParseMembers(ls, i).value;
    var (m, j) := ParseMember(ls, i).value;
    ParsedMemberIsDerived(ls, i);
    Slices(ls, i, j, n);
    Slices(ls, j, j + 1, n);
    assert ls[j..j + 1] == [ls[j]];
    if ls[j] == "," {
      ParsedMembersAreDerived(ls, j + 1);
      MemberToksCons(m, ParseMembers(ls, j + 1).value.0);
    } else {
      MemberToksCons(m, []);
    }
    hide ParseMembers, ParseMember, MemberToks, ToksOfMember, Shape, ShapeOfMember;
  }

  // ---- what is derived is parsed ------------------------------------------------------------

  /** `ts` stands at token `i`. */
  predicate At(ls: seq<string>, i: nat, ts: seq<string>) {
    i + |ts| <= |ls| && ls[i..i + |ts|] == ts
  }

  lemma {:induction false} AtSplit(ls: seq<string>, i: nat, a: seq<string>, b: seq<string>)
    ensures At(ls, i, a + b) <==> At(ls, i, a) && At(ls, i + |a|, b)
  {
    if i + |a + b| <= |ls| {
      Slices(ls, i, i + |a|, i + |a| + |b|);
      assert ls[i..i + |a + b|][..|a|] == ls[i..i + |a|];
      assert ls[i..i + |a + b|][|a|..] == ls[i + |a|..i + |a| + |b|];
    }
  }

  lemma {:induction false} AtFirst(ls: seq<string>, i: nat, ts: seq<string>)
    requires At(ls, i, ts) && ts != []
    ensures i < |ls| && ls[i] == ts[0]
  {
    assert ls[i..i + |ts|][0] == ls[i];
  }

  lemma {:induction false} FirstTok(v: Value)
    requires Shape(v)
    ensures Toks(v) != [] && Toks(v)[0] != "" && (Toks(v)[0] == "[" || Toks(v)[0] == "{" || !IsPunct(Toks(v)[0]))
  {
  }

  lemma {:induction false} DerivedIsParsed(ls: seq<string>, i: nat, v: Value)
    requires Shape(v) && At(ls, i, Toks(v))
    ensures ParseValue(ls, i) == Some((v, i + |Toks(v)|))
    decreases v, 1
  {
    match v
    case Scalar(l) => AtFirst(ls, i, [l]);
    case Array(items) => DerivedArrayIsParsed(ls, i, items);
    case Object(members) => DerivedObjectIsParsed(ls, i, members);
  }

  lemma {:induction false} DerivedArrayIsParsed(ls: seq<string>, i: nat, items: seq<Value>)
    requires Shape(Array(items)) && At(ls, i, Toks(Array(items)))
    ensures ParseValue(ls, i) == Some((Array(items), i + |Toks(Array(items))|))
    decreases items, 2
  {
    AtSplit(ls, i, ["["], ItemToks(items));
    AtFirst(ls, i, ["["]);
    AtFirst(ls, i + 1, ItemToks(items));
    if items != [] {
      hide ParseItems, ItemToks;
      FirstItemTok(items);
      DerivedItemsAreParsed(ls, i + 1, items);
    }
  }

  lemma {:induction false} DerivedObjectIsParsed(ls: seq<string>, i: nat, ms: seq<Member>)
    requires Shape(Object(ms)) && At(ls, i, Toks(Object(ms)))
    ensures ParseValue(ls, i) == Some((Object(ms), i + |Toks(Object(ms))|))
    decreases ms, 2
  {
    AtSplit(ls, i, ["{"], MemberToks(ms));
    AtFirst(ls, i, ["{"]);
    AtFirst(ls, i + 1, MemberToks(ms));
    if ms != [] {
      assert ShapeOfMember(ms[0]) && MemberToks(ms)[0] == ms[0].key;
      hide ParseMembers, MemberToks;
      DerivedMembersAreParsed(ls, i + 1, ms);
    }
  }

  lemma {:induction false} FirstItemTok(items: seq<Value>)
    requires items != [] && Shape(items[0])
    ensures ItemToks(items)[0] != "]"
  {
    FirstTok(items[0]);
  }

  lemma {:induction false} ItemToksAt(ls: seq<string>, i: nat, items: seq<Value>)
    requires items != [] && At(ls, i, ItemToks(items))
    ensures var j := i + |Toks(items[0])|;
            && At(ls, i, Toks(items[0])) && j < |ls|
            && (|items| == 1 ==> ls[j] == "]" && |ItemToks(items)| == j + 1 - i)
            && (|items| > 1 ==> ls[j] == "," && At(ls, j + 1, ItemToks(items[1..]))
                                && |ItemToks(items)| == j + 1 - i + |ItemToks(items[1..])|)
  {
    hide Toks, At;
    var v := items[0];
    var j := i + |Toks(v)|;
    if |items| == 1 {
      AtSplit(ls, i, Toks(v), ["]"]);
      AtFirst(ls, j, ["]"]);
    } else {
      AtSplit(ls, i, Toks(v), [","] + ItemToks(items[1..]));
      AtSplit(ls, j, [","], ItemToks(items[1..]));
      AtFirst(ls, j, [","]);
    }
  }

  lemma {:induction false} ParseItemsStep(ls: seq<string>, i: nat)
    requires i <= |ls| && ParseValue(ls, i).Some?
    ensures var (v, j) := ParseValue(ls, i).value;
            && (j < |ls| && ls[j] == "]" ==> ParseItems(ls, i) == Some(([v], j + 1)))
            && (j < |ls| && ls[j] == "," && ParseItems(ls, j + 1).Some? ==>
                  var (rest, n) := ParseItems(ls, j + 1).value;
                  ParseItems(ls, i) == Some(([v] + rest, n)))
  {
  }

  lemma {:induction false} DerivedItemsAreParsed(ls: seq<string>, i: nat, items: seq<Value>)
    requires items != [] && (forall k | 0 <= k < |items| :: Shape(items[k])) && At(ls, i, ItemToks(items))
    ensures ParseItems(ls, i) == Some((items, i + |ItemToks(items)|))
    decreases items, 1
  {
    hide ParseItems, ParseValue, ItemToks, Toks;
    ItemToksAt(ls, i, items);
    DerivedIsParsed(ls, i, items[0]);
    ParseItemsStep(ls, i);
    if |items| == 1 {
      assert items == [items[0]];
    } else {
      DerivedItemsAreParsed(ls, i + |Toks(items[0])| + 1, items[1..]);
      assert items == [items[0]] + items[1..];
    }
  }

  lemma {:induction false} MemberToksAt(ls: seq<string>, i: nat, ms: seq<Member>)
    requires ms != [] && At(ls, i, MemberToks(ms))
    ensures var j := i + |ToksOfMember(ms[0])|;
            && At(ls, i, ToksOfMember(ms[0])) && j < |ls|
            && (|ms| == 1 ==> ls[j] == "}" && |MemberToks(ms)| == j + 1 - i)
            && (|ms| > 1 ==> ls[j] == "," && At(ls, j + 1, MemberToks(ms[1..]))
                             && |MemberToks(ms)| == j + 1 - i + |MemberToks(ms[1..])|)
  {
    hide ToksOfMember, At;
    var m := ms[0];
    var j := i + |ToksOfMember(m)|;
    if |ms| == 1 {
      AtSplit(ls, i, ToksOfMember(m), ["}"]);
      AtFirst(ls, j, ["}"]);
    } else {
      AtSplit(ls, i, ToksOfMember(m), [","] + MemberToks(ms[1..]));
      AtSplit(ls, j, [","], MemberToks(ms[1..]));
      AtFirst(ls, j, [","]);
    }
  }

  lemma {:induction false} ParseMembersStep(ls: seq<string>, i: nat)
    requires i <= |ls| && ParseMember(ls, i).Some?
    ensures var (m, j) := ParseMember(ls, i).value;
            && (j < |ls| && ls[j] == "}" ==> ParseMembers(ls, i) == Some(([m], j + 1)))
            && (j < |ls| && ls[j] == "," && ParseMembers(ls, j + 1).Some? ==>
                  var (rest, n) := ParseMembers(ls, j + 1).value;
                  ParseMembers(ls, i) == Some(([m] + rest, n)))
  {
  }

  lemma {:induction false} DerivedMembersAreParsed(ls: seq<string>, i: nat, ms: seq<Member>)
    requires ms != [] && (forall k | 0 <= k < |ms| :: ShapeOfMember(ms[k])) && At(ls, i, MemberToks(ms))
    ensures ParseMembers(ls, i) == Some((ms, i + |MemberToks(ms)|))
    decreases ms, 1
  {
    hide ParseMembers, ParseMember, MemberToks, ToksOfMember, ShapeOfMember;
    MemberToksAt(ls, i, ms);
    DerivedMemberIsParsed(ls, i, ms[0]);
    ParseMembersStep(ls, i);
    if |ms| == 1 {
      assert ms == [ms[0]];
    } else {
      DerivedMembersAreParsed(ls, i + |ToksOfMember(ms[0])| + 1, ms[1..]);
      assert ms == [ms[0]] + ms[1..];
    }
  }

  lemma {:induction false} DerivedMemberIsParsed(ls: seq<string>, i: nat, m: Member)
    requires ShapeOfMember(m) && At(ls, i, ToksOfMember(m))
    ensures ParseMember(ls, i) == Some((m, i + |ToksOfMember(m)|))
    decreases m, 1
  {
    AtSplit(ls, i, [m.key, ":"], Toks(m.value));
    assert ls[i] == m.key && ls[i + 1] == ":";
    DerivedIsParsed(ls, i + 2, m.value);
  }

  // ---- texts -------------------------------------------------------------------------------

  /** No two scalars stand next to each other: a structural character keeps them apart. */
  ghost predicate Apart(ls: seq<string>) {
    forall k | 0 < k < |ls| :: IsPunct(ls[k - 1]) || IsPunct(ls[k])
  }

  lemma {:induction false} ApartConcat(a: seq<string>, b: seq<string>)
    requires Apart(a) && Apart(b)
    requires a == [] || b == [] || IsPunct(a[|a| - 1]) || IsPunct(b[0])
    ensures Apart(a + b)
  {
    var ls := a + b;
    forall k | 0 < k < |ls| ensures IsPunct(ls[k - 1]) || IsPunct(ls[k]) {
      if k > |a| { assert ls[k - 1] == b[k - |a| - 1] && ls[k] == b[k - |a|]; }
    }
  }

  lemma {:induction false} ToksApart(v: Value)
    ensures Apart(Toks(v))
    decreases v, 0
  {
    match v
    case Scalar(l) =>
    case Array(items) =>
      ItemToksApart(items);
      ApartConcat(["["], ItemToks(items));
    case Object(members) =>
      MemberToksApart(members);
      ApartConcat(["{"], MemberToks(members));
  }

  lemma {:induction false} ItemToksApart(items: seq<Value>)
    ensures Apart(ItemToks(items))
    decreases items, 1
  {
    if items != [] {
      ToksApart(items[0]);
      if |items| == 1 {
        ApartConcat(Toks(items[0]), ["]"]);
      } else {
        ItemToksApart(items[1..]);
        ApartConcat([","], ItemToks(items[1..]));
        ApartConcat(Toks(items[0]), [","] + ItemToks(items[1..]));
      }
    }
  }

  lemma {:induction false} MemberToksApart(ms: seq<Member>)
    ensures Apart(MemberToks(ms))
    decreases ms, 1
  {
    if ms != [] {
      var m := ms[0];
      ToksApart(m.value);
      ApartConcat([m.key, ":"], Toks(m.value));
      if |ms| == 1 {
        ApartConcat(ToksOfMember(m), ["}"]);
      } else {
        MemberToksApart(ms[1..]);
        ApartConcat([","], MemberToks(ms[1..]));
        ApartConcat(ToksOfMember(m), [","] + MemberToks(ms[1..]));
      }
    }
  }

  lemma {:induction false} ScalarTokenIsLexeme(l: string)
    requires IsScalarToken(l)
    ensures IsLexeme(l)
  {
    if IsJsonNumber(l) {
      var n: Number :| n.Valid() && n.Spell() == l;
      JsonNumberIsRun(n);
    } else if IsJsonString(l) {
      JsonStringIsQuoted(l);
    }
  }

  predicate AllLexemes(ls: seq<string>) {
    forall k | 0 <= k < |ls| :: IsLexeme(ls[k])
  }

  lemma {:induction false} PunctIsLexeme()
    ensures IsLexeme("[") && IsLexeme("]") && IsLexeme("{") && IsLexeme("}") && IsLexeme(":") && IsLexeme(",")
  {
  }

  lemma {:induction false} ToksAreLexemes(v: Value)
    requires All(v, IsScalarToken)
    ensures AllLexemes(Toks(v))
    decreases v, 0
  {
    match v
    case Scalar(l) => ScalarTokenIsLexeme(l);
    case Array(items) => ItemToksAreLexemes(items);
    case Object(members) => MemberToksAreLexemes(members);
  }

  lemma {:induction false} ItemToksAreLexemes(items: seq<Value>)
    requires forall i | 0 <= i < |items| :: All(items[i], IsScalarToken)
    ensures AllLexemes(ItemToks(items))
    decreases items, 1
  {
    hide IsLexeme, IsScalarToken;
    PunctIsLexeme();
    if items != [] {
      ToksAreLexemes(items[0]);
      ItemToksAreLexemes(items[1..]);
    }
  }

  lemma {:induction false} MemberToksAreLexemes(ms: seq<Member>)
    requires forall i | 0 <= i < |ms| :: IsScalarToken(ms[i].key) && All(ms[i].value, IsScalarToken)
    ensures AllLexemes(MemberToks(ms))
    decreases ms, 1
  {
    hide IsLexeme, IsScalarToken;
    PunctIsLexeme();
    if ms != [] {
      ScalarTokenIsLexeme(ms[0].key);
      ToksAreLexemes(ms[0].value);
      MemberToksAreLexemes(ms[1..]);
    }
  }

  /** A derivation of a well-formed value is a cutting the lexer produces. */
  lemma {:induction false} DerivationIsValid(t: Text, v: Value)
    requires WellFormed(v) && Derives(t, v)
    ensures ValidPieces(t.pieces, t.tail)
  {
    ToksApart(v);
    ToksAreLexemes(v);
    var ps, ls := t.pieces, Toks(v);
    assert forall k | 0 <= k < |ps| :: ps[k].lexeme == ls[k];
    assert forall l :: IsPunct(l) ==> !IsRun(l);
  }

  /** Whatever the reader parses is derived by the grammar, scalars and keys apart. */
  lemma {:induction false} ParsedTextIsDerived(body: string)
    requires ParseText(body).Some?
    ensures var (t, v) := ParseText(body).value;
            ValidUtf8(body) && Weave(t.pieces, t.tail) == body && ValidPieces(t.pieces, t.tail)
            && Derives(t, v) && Shape(v)
  {
    var (t, v) := ParseText(body).value;
    LexThenWeave(body);
    var ls := Lexemes(t.pieces);
    ParsedIsDerived(ls, 0);
    assert ls[0..|ls|] == ls;
  }

  /** A derivation of a UTF-8 body is what the reader parses it into: JSON is unambiguous. */
  lemma {:induction false} DerivedTextIsParsed(t: Text, v: Value)
    requires ValidUtf8(Weave(t.pieces, t.tail)) && ValidPieces(t.pieces, t.tail) && Derives(t, v) && Shape(v)
    ensures ParseText(Weave(t.pieces, t.tail)) == Some((t, v))
  {
    WeaveThenLex(t.pieces, t.tail);
    hide Lex, Weave, ValidPieces, ValidUtf8, ParseValue, Shape, IsPunct;
    var ls := Lexemes(t.pieces);
    assert ls[0..|ls|] == ls;
    FirstTok(v);
    DerivedIsParsed(ls, 0, v);
  }

  /** The reader parses `body` into the well-formed `v` exactly when `body` is a JSON text of `v`. */
  lemma {:induction false} ParseTextIsTheGrammar(body: string, v: Value)
    ensures IsJsonText(body, v) <==> ParseText(body).Some? && ParseText(body).value.1 == v && WellFormed(v)
  {
    if IsJsonText(body, v) {
      var t: Text :| Weave(t.pieces, t.tail) == body && Derives(t, v);
      DerivationIsValid(t, v);
      DerivedTextIsParsed(t, v);
    }
    if ParseText(body).Some? {
      ParsedTextIsDerived(body);
    }
  }

  // ---- which characters are insignificant -------------------------------------------------------

  const JSON_WHITESPACE := " \t\n\r"

  lemma {:induction false} WhitespaceIsTheFour(c: char)
    ensures IsWs(c) <==> c in JSON_WHITESPACE
  {
    var w := JSON_WHITESPACE;
    assert w[0] == ' ' && w[1] == '\t' && w[2] == '\n' && w[3] == '\r';
  }

  /** Between two tokens stands what is made of the four characters, and nothing else: brackets with
      `g` between them are the empty array exactly when `g` is. */
  lemma {:induction false} EmptyArrayText(g: string)
    ensures (ParseText("[" + g + "]").Some? && ParseText("[" + g + "]").value.1 == Array([]))
            <==> forall k | 0 <= k < |g| :: g[k] in JSON_WHITESPACE
  {
    var body := "[" + g + "]";
    GapIsTheFour(g);
    if IsGap(g) {
      EmptyArrayParses(g);
    }
    if ParseText(body).Some? && ParseText(body).value.1 == Array([]) {
      ParsedTextIsDerived(body);
      var t := ParseText(body).value.0;
      hide ParseText, ValidUtf8;
      assert Toks(Array([])) == ["[", "]"];
      GapBetween(t.pieces, t.tail, g);
    }
  }

  lemma {:induction false} GapIsTheFour(g: string)
    ensures IsGap(g) <==> forall k | 0 <= k < |g| :: g[k] in JSON_WHITESPACE
  {
    hide IsWs;
    forall k | 0 <= k < |g| ensures IsWs(g[k]) <==> g[k] in JSON_WHITESPACE {
      WhitespaceIsTheFour(g[k]);
    }
  }

  lemma {:induction false} WeaveTwo(p: Piece, q: Piece, tail: string)
    ensures Weave([p, q], tail) == p.gap + p.lexeme + (q.gap + q.lexeme + tail)
  {
    WeaveCons(q, [], tail);
    WeaveCons(p, [q], tail);
    assert [p] + [q] == [p, q] && [q] + [] == [q] && Weave([], tail) == tail;
  }

  lemma {:induction false} BracketsArePieces(g: string)
    requires IsGap(g)
    ensures ValidPieces([Piece("", "["), Piece(g, "]")], "")
  {
    var ps := [Piece("", "["), Piece(g, "]")];
    assert IsStructural('[') && IsStructural(']');
    assert "["[0] == '[' && "]"[0] == ']';
  }

  lemma {:induction false} EmptyArrayParses(g: string)
    requires IsGap(g)
    ensures ParseText("[" + g + "]") == Some((Text([Piece("", "["), Piece(g, "]")], ""), Array([])))
  {
    var t := Text([Piece("", "["), Piece(g, "]")], "");
    var v := Array([]);
    var body := "[" + g + "]";
    BracketsArePieces(g);
    assert Toks(v) == ["[", "]"] && Lexemes(t.pieces) == ["[", "]"];
    AsciiPrefix(body, "");
    hide ParseText, Weave, Toks, ValidUtf8;
    NoBytesAreUtf8();
    assert body + "" == body;
    WeaveTwo(t.pieces[0], t.pieces[1], "");
    assert "" + "[" + (g + "]" + "") == body;
    DerivedTextIsParsed(t, v);
  }

  lemma {:induction false} NoBytesAreUtf8()
    ensures ValidUtf8("")
  {
  }

  lemma {:induction false} GapBetween(ps: seq<Piece>, tail: string, g: string)
    requires |ps| == 2 && ps[0].lexeme == "[" && ps[1].lexeme == "]" && IsGap(tail) && IsGap(ps[0].gap)
    requires Weave(ps, tail) == "[" + g + "]"
    ensures g == ps[1].gap
  {
    assert ps == [ps[0], ps[1]];
    WeaveTwo(ps[0], ps[1], tail);
    hide Weave;
    var s := ps[0].gap + "[" + (ps[1].gap + "]" + tail);
    assert s[0] == '[' && s[|s| - 1] == ']';
    assert s == "[" + ps[1].gap + "]";
    assert s[1..|s| - 1] == g && s[1..|s| - 1] == ps[1].gap;
  }
}
