/** What parse_document_batch() keeps: each document's exact bytes, which read back the same and tile
    the body. */
module DocumentSlices {
  import opened Wrappers
  import opened Core
  import opened Utf8
  import opened JsonLexer
  import opened JsonGrammar
  import opened DocumentRoutes
  import DocumentBatches

  /** Document `m` of a batch stands in tokens `p` to `n` of its body. */
  ghost predicate StandsAt(ps: seq<Piece>, p: nat, n: nat, v: Value, d: Document) {
    && v.Object?
    && p + |Toks(v)| == n < |ps|
    && Lexemes(ps)[p..n] == Toks(v)
    && (ps[n].lexeme == "," || ps[n].lexeme == "]")
    && d == DocumentOf(ps, p, n, v.members)
    && CheckMembers(v.members, 1).None?
  }

  /** One document per element. */
  lemma {:induction false} DocumentCount(ps: seq<Piece>, i: nat, items: seq<Value>, k: nat)
    requires items != [] ==> i + |ItemToks(items)| <= |ps|
    requires ReadItems(ps, i, items, k).Ok?
    ensures |ReadItems(ps, i, items, k).value| == |items|
    decreases |items|
  {
    hide ReadItems, Toks, ItemToks, CheckMembers, SearchableText, Span;
    if items == [] {
      ReadNothing(ps, i, k);
    } else {
      ReadItemsCons(ps, i, items, k);
      DocumentCount(ps, i + |Toks(items[0])| + 1, items[1..], k + 1);
    }
  }

  lemma {:induction false} FirstStandsAt(ps: seq<Piece>, i: nat, items: seq<Value>, k: nat)
    requires items != [] && At(Lexemes(ps), i, ItemToks(items)) && ReadItems(ps, i, items, k).Ok?
    ensures var j := i + |Toks(items[0])|;
            var docs := ReadItems(ps, i, items, k).value;
            && j < |ps| && docs != [] && StandsAt(ps, i, j, items[0], docs[0])
            && (|items| == 1 ==> ps[j].lexeme == "]" && docs == [docs[0]] && i + |ItemToks(items)| == j + 1)
            && (|items| > 1 ==>
                  && ps[j].lexeme == "," && At(Lexemes(ps), j + 1, ItemToks(items[1..]))
                  && j + 1 + |ItemToks(items[1..])| <= |ps|
                  && i + |ItemToks(items)| == j + 1 + |ItemToks(items[1..])|
                  && ReadItems(ps, j + 1, items[1..], k + 1) == Ok(docs[1..]))
  {
    hide Toks, ItemToks, ReadItems, CheckMembers, SearchableText, Span;
    var ls := Lexemes(ps);
    ItemToksAt(ls, i, items);
    ReadItemsCons(ps, i, items, k);
    var j := i + |Toks(items[0])|;
    assert ls[j] == ps[j].lexeme;
    if |items| == 1 { ReadNothing(ps, j + 1, k + 1); }
  }

  lemma {:induction false} FindDocument(ps: seq<Piece>, i: nat, items: seq<Value>, k: nat, m: nat)
    returns (p: nat, n: nat)
    requires i + |ItemToks(items)| <= |ps| && At(Lexemes(ps), i, ItemToks(items))
    requires ReadItems(ps, i, items, k).Ok? && m < |items|
    ensures |ReadItems(ps, i, items, k).value| == |items|
    ensures StandsAt(ps, p, n, items[m], ReadItems(ps, i, items, k).value[m])
    decreases |items|
  {
    hide ReadItems, Toks, ItemToks, At, StandsAt, CheckMembers, Lexemes, SearchableText, Span;
    ReadNothing(ps, i, k);
    DocumentCount(ps, i, items, k);
    FirstStandsAt(ps, i, items, k);
    p, n := i, i + |Toks(items[0])|;
    if m > 0 {
      p, n := FindDocument(ps, n + 1, items[1..], k + 1, m - 1);
    }
  }

  /** Every kept document stands somewhere in the body it was read from. */
  lemma {:induction false} KeptDocument(body: string, m: nat) returns (t: Text, p: nat, n: nat, v: Value)
    requires Batch(body).Ok? && m < |Batch(body).value|
    ensures Weave(t.pieces, t.tail) == body && ValidPieces(t.pieces, t.tail) && ValidUtf8(body)
    ensures Shape(v) && StandsAt(t.pieces, p, n, v, Batch(body).value[m])
    ensures ParseText(body).Some? && ParseText(body).value.1.Array?
    ensures var items := ParseText(body).value.1.items; |items| == |Batch(body).value| && v == items[m]
  {
    ParsedTextIsDerived(body);
    t := ParseText(body).value.0;
    var a := ParseText(body).value.1;
    hide Weave, ValidPieces, ValidUtf8, StandsAt, ReadItems, ItemToks, ParseText;
    var ls := Lexemes(t.pieces);
    assert ls[0..|ls|] == ls;
    AtSplit(ls, 0, ["["], ItemToks(a.items));
    DocumentCount(t.pieces, 1, a.items, 0);
    p, n := FindDocument(t.pieces, 1, a.items, 0, m);
    v := a.items[m];
  }

  /** Its searchable text is that of the element it was read from. */
  lemma {:induction false} KeptText(body: string, m: nat)
    requires Batch(body).Ok? && m < |Batch(body).value|
    ensures ParseText(body).Some? && ParseText(body).value.1.Array?
    ensures var items := ParseText(body).value.1.items;
            && |items| == |Batch(body).value| && items[m].Object?
            && Batch(body).value[m].searchableText == SearchableText(items[m].members)
  {
    var t, p, n, v := KeptDocument(body, m);
    hide Batch, ParseText, SearchableText;
  }

  lemma {:induction false} TextsFrom(ms: seq<Member>, from: nat) returns (at: seq<nat>)
    requires from <= |ms|
    ensures |at| == |SearchableText(ms[from..])|
    ensures forall i, j | 0 <= i < j < |at| :: at[i] < at[j]
    ensures forall i | 0 <= i < |at| ::
            from <= at[i] < |ms| && TextOf(ms[at[i]].value) == Some(SearchableText(ms[from..])[i])
    ensures forall k | from <= k < |ms| && TextOf(ms[k].value).Some? :: k in at
    decreases |ms| - from
  {
    hide TextOf, SearchableText;
    SearchableTextAt(ms, from);
    if from == |ms| {
      at := [];
    } else {
      at := TextsFrom(ms, from + 1);
      if TextOf(ms[from].value).Some? {
        at := [from] + at;
      }
    }
  }

  lemma {:induction false} SearchableTextAt(ms: seq<Member>, from: nat)
    requires from <= |ms|
    ensures SearchableText(ms[from..])
            == if from == |ms| then []
               else if TextOf(ms[from].value).Some? then [TextOf(ms[from].value).value] + SearchableText(ms[from + 1..])
               else SearchableText(ms[from + 1..])
  {
    hide TextOf;
    if from < |ms| { assert ms[from..][1..] == ms[from + 1..]; }
  }

  /** The texts are those of all the string fields, in field order: `at` says which field each is from. */
  lemma {:induction false} TextsInFieldOrder(ms: seq<Member>) returns (at: seq<nat>)
    ensures |at| == |SearchableText(ms)|
    ensures forall i, j | 0 <= i < j < |at| :: at[i] < at[j]
    ensures forall i | 0 <= i < |at| :: at[i] < |ms| && TextOf(ms[at[i]].value) == Some(SearchableText(ms)[i])
    ensures forall k | 0 <= k < |ms| && TextOf(ms[k].value).Some? :: k in at
  {
    at := TextsFrom(ms, 0);
    assert ms[0..] == ms;
  }

  // ---- the source on its own ------------------------------------------------------------------

  /** The tokens of an object without the gap before them. */
  function WithoutFirstGap(q: seq<Piece>): seq<Piece>
    requires q != []
  {
    [Piece("", q[0].lexeme)] + q[1..]
  }

  lemma {:induction false} BareDerives(q: seq<Piece>, v: Value)
    requires q != [] && Lexemes(q) == Toks(v) && forall k | 0 <= k < |q| :: IsGap(q[k].gap)
    ensures Weave(WithoutFirstGap(q), "") == Span(q) && Derives(Text(WithoutFirstGap(q), ""), v)
  {
    hide Toks;
    assert Lexemes(WithoutFirstGap(q)) == Lexemes(q);
    assert WithoutFirstGap(q)[1..] == q[1..];
  }

  /** The kept bytes are a JSON text of their own, whose value is the element they were cut from. */
  lemma {:induction false} SourceIsItsElement(body: string, m: nat)
    requires Batch(body).Ok? && m < |Batch(body).value|
    ensures ParseText(body).Some? && ParseText(body).value.1.Array?
    ensures var items := ParseText(body).value.1.items;
            |items| == |Batch(body).value| && IsJsonText(Batch(body).value[m].source, items[m])
  {
    var t, p, n, v := KeptDocument(body, m);
    DocumentBatches.AcceptedIsStrict(body);
    DocumentBatches.ArrayItems(ParseText(body).value.1.items, m);
    hide Batch, ParseText, Weave, Shape, All, ValidUtf8, Derives, Toks;
    var q := t.pieces[p..n];
    ObjectTokens(t.pieces, p, n, v, Batch(body).value[m]);
    SourceIsUtf8(t.pieces, t.tail, p, n);
    BareDerives(q, v);
    var bare := Text(WithoutFirstGap(q), "");
    assert Weave(bare.pieces, bare.tail) == Span(q) && Derives(bare, v);
  }

  // ---- the round trip -----------------------------------------------------------------------

  /** The tokens of "[" + source + "]". */
  function Wrapped(q: seq<Piece>): seq<Piece>
    requires q != []
  {
    [Piece("", "["), Piece("", q[0].lexeme)] + q[1..] + [Piece("", "]")]
  }

  lemma {:induction false} WeaveWrapped(q: seq<Piece>)
    requires q != []
    ensures Weave(Wrapped(q), "") == "[" + Span(q) + "]"
  {
    var bare := [Piece("", q[0].lexeme)] + q[1..];
    assert Wrapped(q) == [Piece("", "[")] + (bare + [Piece("", "]")]);
    WeaveCons(Piece("", "["), bare + [Piece("", "]")], "");
    WeaveAppend(bare, [Piece("", "]")], "");
    WeaveCons(Piece("", q[0].lexeme), q[1..], "");
    WeaveCons(Piece("", "]"), [], "");
    hide Weave;
    assert "" + "[" + (("" + q[0].lexeme + Weave(q[1..], "")) + ("" + "]" + ""))
        == "[" + (q[0].lexeme + Weave(q[1..], "")) + "]";
  }

  lemma {:induction false} WrappedIsValid(ps: seq<Piece>, tail: string, p: nat, n: nat)
    requires ValidPieces(ps, tail) && p < n <= |ps| && ps[p].lexeme == "{"
    ensures ValidPieces(Wrapped(ps[p..n]), "")
  {
    var q := ps[p..n];
    var w := Wrapped(q);
    assert IsPunct("[") && IsPunct("]") && IsPunct("{");
    assert !IsRun("[") && !IsRun("]") && !IsRun("{");
    hide IsRun, IsLexeme, IsGap;
    PunctIsLexeme();
    NoGap();
    assert w[0] == Piece("", "[") && w[1] == Piece("", "{") && w[|q| + 1] == Piece("", "]");
    assert forall k | 1 < k <= |q| :: w[k] == q[k - 1] == ps[p + k - 1];
    forall k | 0 < k < |w| && IsRun(w[k - 1].lexeme) && IsRun(w[k].lexeme) ensures w[k].gap != "" {
      assert 2 < k <= |q|;
      assert w[k - 1] == ps[p + k - 2] && w[k] == ps[p + k - 1];
    }
  }

  lemma {:induction false} NoGap()
    ensures IsGap("")
  {
  }

  lemma {:induction false} WrappedDerives(q: seq<Piece>, v: Value)
    requires q != [] && Lexemes(q) == Toks(v)
    ensures Lexemes(Wrapped(q)) == Toks(Array([v]))
  {
    assert ItemToks([v]) == Toks(v) + ["]"];
    hide Toks, ItemToks;
    assert Lexemes(Wrapped(q)) == ["["] + (Lexemes(q) + ["]"]);
  }

  /** The body around the tokens of an object: what comes after starts with an ASCII byte. */
  lemma {:induction false} Around(ps: seq<Piece>, tail: string, p: nat, n: nat) returns (a: string, z: string)
    requires ValidPieces(ps, tail) && p < n < |ps|
    requires ps[p].lexeme == "{" && (ps[n].lexeme == "," || ps[n].lexeme == "]")
    ensures Weave(ps, tail) == (a + Span(ps[p..n])) + z
    ensures Span(ps[p..n]) != "" && Span(ps[p..n])[0] == '{'
    ensures z != "" && z[0] < '\U{80}'
  {
    var before, mid, after := ps[..p], ps[p..n], ps[n..];
    assert ps == before + (mid + after);
    WeaveAppend(before, mid + after, tail);
    WeaveAppend(mid, after, tail);
    var span := WeaveHead(mid, "");
    var end := WeaveHead(after, tail);
    a, z := Weave(before, "") + mid[0].gap, Weave(after, tail);
    assert mid[0] == ps[p] && span[0] == ps[p].lexeme[0];
    assert z[0] == (ps[n].gap + ps[n].lexeme)[0];
    assert IsGap(ps[n].gap);
  }

  /** The source of a kept document is UTF-8 on its own. */
  lemma {:induction false} SourceIsUtf8(ps: seq<Piece>, tail: string, p: nat, n: nat)
    requires ValidPieces(ps, tail) && ValidUtf8(Weave(ps, tail)) && p < n < |ps|
    requires ps[p].lexeme == "{" && (ps[n].lexeme == "," || ps[n].lexeme == "]")
    ensures ValidUtf8(Span(ps[p..n])) && ValidUtf8("[" + Span(ps[p..n]) + "]")
  {
    hide Weave, Span, ValidPieces;
    var a, z := Around(ps, tail, p, n);
    var span := Span(ps[p..n]);
    ValidCut(a + span, z);
    ValidCut(a, span);
    assert "]"[1..] == "";
    ValidConcat(span, "]");
    AsciiFirst("[", span + "]");
    assert "[" + (span + "]") == "[" + span + "]";
  }

  lemma {:induction false} AsciiFirst(a: string, b: string)
    requires |a| == 1 && a[0] < '\U{80}' && ValidUtf8(b)
    ensures ValidUtf8(a + b)
  {
    assert (a + b)[1..] == b;
  }

  /** A kept document, sent again as a batch of one, comes back unchanged. */
  lemma {:induction false} RoundTrip(body: string, m: nat)
    requires Batch(body).Ok? && m < |Batch(body).value|
    ensures var d := Batch(body).value[m];
            Batch("[" + d.source + "]") == Ok([d])
  {
    var t, p, n, v := KeptDocument(body, m);
    var d := Batch(body).value[m];
    hide Batch;
    var q := t.pieces[p..n];
    ObjectTokens(t.pieces, p, n, v, d);
    WeaveWrapped(q);
    WrappedIsValid(t.pieces, t.tail, p, n);
    WrappedDerives(q, v);
    SourceIsUtf8(t.pieces, t.tail, p, n);
    BatchOfOne(Text(Wrapped(q), ""), q, v, d);
  }

  lemma {:induction false} ObjectTokens(ps: seq<Piece>, p: nat, n: nat, v: Value, d: Document)
    requires StandsAt(ps, p, n, v, d)
    ensures p < n && ps[p].lexeme == "{" && Lexemes(ps[p..n]) == Toks(v) && d.source == Span(ps[p..n])
  {
    assert Toks(v)[0] == "{" && Lexemes(ps)[p..n][0] == ps[p].lexeme;
    assert Lexemes(ps[p..n]) == Lexemes(ps)[p..n];
  }

  lemma {:induction false} BatchOfOne(t: Text, q: seq<Piece>, v: Value, d: Document)
    requires q != [] && t == Text(Wrapped(q), "") && Lexemes(q) == Toks(v)
    requires ValidPieces(t.pieces, "") && ValidUtf8(Weave(t.pieces, ""))
    requires Lexemes(t.pieces) == Toks(Array([v]))
    requires Shape(v) && v.Object? && CheckMembers(v.members, 1).None?
    requires d == Document(Span(q), SearchableText(v.members))
    ensures Batch(Weave(t.pieces, "")) == Ok([d])
  {
    DerivationOfOne(t, v);
    DerivedTextIsParsed(t, Array([v]));
    assert |Toks(Array([v]))| == |t.pieces| && |ItemToks([v])| == |t.pieces| - 1;
    hide ParseText, ReadItems, Toks, ItemToks, CheckMembers, SearchableText, Weave, ValidPieces, ValidUtf8;
    SpanOfWrapped(q);
    ReadItemsCons(t.pieces, 1, [v], 0);
    ReadNothing(t.pieces, 2 + |Toks(v)|, 1);
  }

  lemma {:induction false} SpanOfWrapped(q: seq<Piece>)
    requires q != []
    ensures Span(Wrapped(q)[1..1 + |q|]) == Span(q)
  {
    var r := Wrapped(q)[1..1 + |q|];
    assert r == [Piece("", q[0].lexeme)] + q[1..];
    assert r[1..] == q[1..];
  }

  lemma {:induction false} DerivationOfOne(t: Text, v: Value)
    requires ValidPieces(t.pieces, t.tail) && Lexemes(t.pieces) == Toks(Array([v])) && Shape(v)
    ensures Derives(t, Array([v])) && Shape(Array([v]))
  {
  }

  // ---- the slices tile the body ---------------------------------------------------------------

  /** The documents' sources with the given gaps before and after each, commas between them, and the
      closing bracket. */
  function Interleave(docs: seq<Document>, gaps: seq<(string, string)>): string
    requires |docs| == |gaps|
  {
    if docs == [] then "]"
    else
      gaps[0].0 + docs[0].source + gaps[0].1
      + (if |docs| == 1 then "]" else "," + Interleave(docs[1..], gaps[1..]))
  }

  predicate AllGaps(gaps: seq<(string, string)>) {
    forall k | 0 <= k < |gaps| :: IsGap(gaps[k].0) && IsGap(gaps[k].1)
  }

  lemma {:induction false} TilesFrom(t: Text, i: nat, items: seq<Value>, k: nat) returns (gaps: seq<(string, string)>)
    requires items != [] && At(Lexemes(t.pieces), i, ItemToks(items)) && i + |ItemToks(items)| == |t.pieces|
    requires ReadItems(t.pieces, i, items, k).Ok?
    requires forall h | 0 <= h < |t.pieces| :: IsGap(t.pieces[h].gap)
    ensures |gaps| == |ReadItems(t.pieces, i, items, k).value| && AllGaps(gaps)
    ensures Weave(t.pieces[i..], t.tail) == Interleave(ReadItems(t.pieces, i, items, k).value, gaps) + t.tail
    decreases |items|
  {
    hide ReadItems, ItemToks, Toks, At, IsGap, CheckMembers, StandsAt, Weave, Span;
    var ps, tail := t.pieces, t.tail;
    var j := i + |Toks(items[0])|;
    DocumentCount(ps, i, items, k);
    FirstStandsAt(ps, i, items, k);
    var docs := ReadItems(ps, i, items, k).value;
    var gap := (ps[i].gap, ps[j].gap);
    ObjectTokens(ps, i, j, items[0], docs[0]);
    var rest := WeaveThrough(ps, tail, i, j);
    if |items| == 1 {
      NothingLeft(ps, tail);
      gaps := [gap];
      assert Interleave(docs, gaps) + tail == gap.0 + docs[0].source + gap.1 + ("]" + tail);
    } else {
      var more := TilesFrom(t, j + 1, items[1..], k + 1);
      gaps := [gap] + more;
      assert gaps[1..] == more;
      TilesTwice(gap.0 + docs[0].source + gap.1, Interleave(docs[1..], more), tail);
    }
  }

  lemma {:induction false} NothingLeft(ps: seq<Piece>, tail: string)
    ensures Weave(ps[|ps|..], tail) == tail
  {
  }

  lemma {:induction false} TilesTwice(a: string, b: string, tail: string)
    ensures a + "," + (b + tail) == a + ("," + b) + tail
  {
  }

  /** Tokens `i` to `j`, the token at `j`, and the rest. */
  lemma {:induction false} WeaveThrough(ps: seq<Piece>, tail: string, i: nat, j: nat) returns (rest: string)
    requires i < j < |ps|
    ensures rest == Weave(ps[j + 1..], tail)
    ensures Weave(ps[i..], tail) == ps[i].gap + Span(ps[i..j]) + ps[j].gap + ps[j].lexeme + rest
  {
    var mid, after := ps[i..j], ps[j..];
    assert ps[i..] == mid + after && after[1..] == ps[j + 1..];
    WeaveAppend(mid, after, tail);
    var span := WeaveHead(mid, "");
    rest := Weave(ps[j + 1..], tail);
    hide Span;
    assert mid[0] == ps[i] && after[0] == ps[j];
    assert Weave(after, tail) == ps[j].gap + ps[j].lexeme + rest;
    hide Weave;
    assert (ps[i].gap + span) + (ps[j].gap + ps[j].lexeme + rest) == ps[i].gap + span + ps[j].gap + ps[j].lexeme + rest;
  }

  lemma {:induction false} AcceptedTokens(body: string) returns (t: Text, v: Value)
    requires Batch(body).Ok?
    ensures v.Array? && v.items != [] && Weave(t.pieces, t.tail) == body
    ensures 1 + |ItemToks(v.items)| == |t.pieces| && At(Lexemes(t.pieces), 1, ItemToks(v.items))
    ensures t.pieces[0].lexeme == "[" && IsGap(t.tail) && forall k | 0 <= k < |t.pieces| :: IsGap(t.pieces[k].gap)
    ensures ReadItems(t.pieces, 1, v.items, 0) == Batch(body)
  {
    ParsedTextIsDerived(body);
    t, v := ParseText(body).value.0, ParseText(body).value.1;
    assert Toks(v) == ["["] + ItemToks(v.items);
    hide ParseText, ValidUtf8, Shape, ItemToks, Weave, ReadItems;
    var ls := Lexemes(t.pieces);
    assert ls[0..|ls|] == ls;
    AtSplit(ls, 0, ["["], ItemToks(v.items));
    AtFirst(ls, 0, ["["]);
  }

  /** The body is a bracket, the kept sources with commas between them, and a bracket, with nothing
      but insignificant whitespace around them; each source runs from its own `{` to its own `}`. */
  lemma {:induction false} SlicesTile(body: string) returns (lead: string, gaps: seq<(string, string)>, trail: string)
    requires Batch(body).Ok?
    ensures IsGap(lead) && AllGaps(gaps) && IsGap(trail) && |gaps| == |Batch(body).value|
    ensures body == lead + "[" + Interleave(Batch(body).value, gaps) + trail
    ensures forall d | d in Batch(body).value ::
              d.source != "" && d.source[0] == '{' && d.source[|d.source| - 1] == '}'
  {
    hide Batch, ItemToks, ReadItems, Weave, ValidPieces;
    var t, v := AcceptedTokens(body);
    gaps := TilesFrom(t, 1, v.items, 0);
    lead, trail := t.pieces[0].gap, t.tail;
    forall d | d in Batch(body).value
      ensures d.source != "" && d.source[0] == '{' && d.source[|d.source| - 1] == '}'
    {
      var m :| 0 <= m < |Batch(body).value| && Batch(body).value[m] == d;
      SourceEnds(body, m);
    }
    BodyOpens(t.pieces, t.tail, Interleave(Batch(body).value, gaps));
  }

  lemma {:induction false} BodyOpens(ps: seq<Piece>, tail: string, middle: string)
    requires ps != [] && Weave(ps[1..], tail) == middle + tail
    ensures Weave(ps, tail) == ps[0].gap + ps[0].lexeme + middle + tail
  {
    assert Weave(ps, tail) == ps[0].gap + ps[0].lexeme + Weave(ps[1..], tail);
  }

  lemma {:induction false} SourceEnds(body: string, m: nat)
    requires Batch(body).Ok? && m < |Batch(body).value|
    ensures var s := Batch(body).value[m].source; s != "" && s[0] == '{' && s[|s| - 1] == '}'
  {
    var t, p, n, v := KeptDocument(body, m);
    var d := Batch(body).value[m];
    hide Batch, Weave, ValidUtf8;
    var q := t.pieces[p..n];
    ObjectTokens(t.pieces, p, n, v, d);
    LastTok(v.members);
    assert q[|q| - 1].lexeme == Toks(v)[|q| - 1] == "}";
    SpanEnds(q);
    assert Span(q)[0] == q[0].lexeme[0];
  }

  lemma {:induction false} LastTok(ms: seq<Member>)
    ensures MemberToks(ms)[|MemberToks(ms)| - 1] == "}"
    decreases |ms|
  {
    if |ms| > 1 { LastTok(ms[1..]); }
  }

  /** Where the sources stand in a text that interleaves them: one after another, never touching. */
  lemma {:induction false} SourcesStand(pre: string, docs: seq<Document>, gaps: seq<(string, string)>, post: string)
    returns (at: seq<(nat, nat)>)
    requires |docs| == |gaps|
    ensures |at| == |docs|
    ensures var text := pre + Interleave(docs, gaps) + post;
            forall m | 0 <= m < |at| ::
              |pre| <= at[m].0 <= at[m].1 <= |text| && text[at[m].0..at[m].1] == docs[m].source
    ensures forall m, n | 0 <= m < n < |at| :: at[m].1 < at[n].0
    decreases |docs|
  {
    if docs == [] {
      at := [];
    } else {
      var from := |pre + gaps[0].0|;
      var to := from + |docs[0].source|;
      var rest := FirstStands(pre, docs, gaps, post);
      if |docs| == 1 {
        at := [(from, to)];
      } else {
        hide Interleave;
        var next := pre + gaps[0].0 + docs[0].source + gaps[0].1 + ",";
        var more := SourcesStand(next, docs[1..], gaps[1..], post);
        at := [(from, to)] + more;
      }
    }
  }

  /** The first of them, and the text again as what follows it. */
  lemma {:induction false} FirstStands(pre: string, docs: seq<Document>, gaps: seq<(string, string)>, post: string)
    returns (rest: string)
    requires |docs| == |gaps| > 0
    ensures var text := pre + Interleave(docs, gaps) + post;
            && text == pre + gaps[0].0 + docs[0].source + rest
            && (var from := |pre + gaps[0].0|; text[from..from + |docs[0].source|] == docs[0].source)
            && (|docs| > 1 ==>
                  text == pre + gaps[0].0 + docs[0].source + gaps[0].1 + "," + Interleave(docs[1..], gaps[1..]) + post)
  {
    rest := gaps[0].1 + (if |docs| == 1 then "]" else "," + Interleave(docs[1..], gaps[1..])) + post;
    Middle(pre + gaps[0].0, docs[0].source, rest);
  }

  /** Where each kept source stands in the body it was sent in. */
  lemma {:induction false} SlicesInOrder(body: string) returns (at: seq<(nat, nat)>)
    requires Batch(body).Ok?
    ensures |at| == |Batch(body).value|
    ensures forall m | 0 <= m < |at| ::
              at[m].0 <= at[m].1 <= |body| && body[at[m].0..at[m].1] == Batch(body).value[m].source
    ensures forall m, n | 0 <= m < n < |at| :: at[m].1 < at[n].0
  {
    hide Batch, Interleave;
    var lead, gaps, trail := SlicesTile(body);
    at := SourcesStand(lead + "[", Batch(body).value, gaps, trail);
  }
}
