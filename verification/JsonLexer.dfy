/**
 What the JSON reader does to a body before anything is asked of it: it finds where every token
 starts and ends, and refuses unclosed strings and raw control characters inside strings. What an
 atom, a number or an escape says is not looked at here.

 A byte is modelled as a `char`; no definition gives a meaning to codes above 255.
 */
module JsonLexer {
  import opened Wrappers

  /** RFC 8259 section 2: the four insignificant whitespace characters. */
  predicate IsWs(c: char) {
    c == ' ' || c == '\t' || c == '\n' || c == '\r'
  }

  /** RFC 8259 section 2: the six structural characters. */
  predicate IsStructural(c: char) {
    c == '[' || c == ']' || c == '{' || c == '}' || c == ':' || c == ','
  }

  predicate IsRunChar(c: char) {
    !IsWs(c) && !IsStructural(c) && c != '"'
  }

  predicate IsGap(s: string) {
    forall k | 0 <= k < |s| :: IsWs(s[k])
  }

  predicate IsPunct(l: string) {
    |l| == 1 && IsStructural(l[0])
  }

  predicate IsRun(l: string) {
    |l| > 0 && forall k | 0 <= k < |l| :: IsRunChar(l[k])
  }

  predicate IsQuoted(l: string) {
    |l| > 0 && l[0] == '"' && QuoteLength(l[1..]) == Some(|l| - 1)
  }

  predicate IsLexeme(l: string) {
    IsPunct(l) || IsQuoted(l) || IsRun(l)
  }

  /** One token with the whitespace before it. */
  datatype Piece = Piece(gap: string, lexeme: string)

  /** A body cut into tokens; `tail` is the whitespace after the last one. */
  datatype Text = Text(pieces: seq<Piece>, tail: string)

  function Weave(ps: seq<Piece>, tail: string): string {
    if ps == [] then tail else ps[0].gap + ps[0].lexeme + Weave(ps[1..], tail)
  }

  function Lexemes(ps: seq<Piece>): (ls: seq<string>)
    ensures |ls| == |ps|
    ensures forall k | 0 <= k < |ps| :: ls[k] == ps[k].lexeme
  {
    seq(|ps|, k requires 0 <= k < |ps| => ps[k].lexeme)
  }

  /** A cutting that the lexer could have produced: two adjacent runs are kept apart by a gap. */
  ghost predicate ValidPieces(ps: seq<Piece>, tail: string) {
    && IsGap(tail)
    && (forall k | 0 <= k < |ps| :: IsGap(ps[k].gap) && IsLexeme(ps[k].lexeme))
    && (forall k | 0 < k < |ps| :: IsRun(ps[k - 1].lexeme) && IsRun(ps[k].lexeme) ==> ps[k].gap != "")
  }

  // ---- the cutting --------------------------------------------------------------------------

  function GapLength(s: string): (n: nat)
    ensures n <= |s| && IsGap(s[..n])
    ensures n < |s| ==> !IsWs(s[n])
  {
    if s == "" || !IsWs(s[0]) then 0 else 1 + GapLength(s[1..])
  }

  function RunLength(s: string): (n: nat)
    ensures n <= |s|
    ensures forall k | 0 <= k < n :: IsRunChar(s[k])
    ensures n < |s| ==> !IsRunChar(s[n])
  {
    if s == "" || !IsRunChar(s[0]) then 0 else 1 + RunLength(s[1..])
  }

  /** The length of `s`, which follows an opening quote, up to and including the closing one. */
  function QuoteLength(s: string): (n: Option<nat>)
    ensures n.Some? ==> 0 < n.value <= |s| && s[n.value - 1] == '"'
  {
    if s == "" || s[0] < ' ' then None
    else if s[0] == '"' then Some(1)
    else
      var step := if s[0] == '\\' then 2 else 1;
      if |s| < step || s[step - 1] < ' ' then None
      else
        match QuoteLength(s[step..])
        case None => None
        case Some(n) => Some(step + n)
  }

  function LexemeLength(s: string): (n: Option<nat>)
    requires s != "" && !IsWs(s[0])
    ensures n.Some? ==> 0 < n.value <= |s|
  {
    if IsStructural(s[0]) then Some(1)
    else if s[0] == '"' then
      match QuoteLength(s[1..])
      case None => None
      case Some(n) => Some(1 + n)
    else Some(RunLength(s))
  }

  /** The first token with the gap before it, and what follows. */
  function FirstPiece(s: string): (r: Option<(Piece, string)>)
    ensures r.Some? ==> |r.value.1| < |s|
  {
    var g := GapLength(s);
    if g == |s| then None
    else
      var r := s[g..];
      match LexemeLength(r)
      case None => None
      case Some(n) => Some((Piece(s[..g], r[..n]), r[n..]))
  }

  function Lex(s: string): Option<Text>
    decreases |s|
  {
    if GapLength(s) == |s| then Some(Text([], s))
    else
      match FirstPiece(s)
      case None => None
      case Some((p, rest)) =>
        match Lex(rest)
        case None => None
        case Some(t) => Some(Text([p] + t.pieces, t.tail))
  }

  // ---- the cutting and the weaving undo each other -----------------------------------------------

  lemma {:induction false} GapLengthIs(gap: string, rest: string)
    requires IsGap(gap)
    requires rest == "" || !IsWs(rest[0])
    ensures GapLength(gap + rest) == |gap|
  {
    var s := gap + rest;
    assert forall k | 0 <= k < |gap| :: s[k] == gap[k] && IsWs(s[k]);
    assert rest != "" ==> s[|gap|] == rest[0];
    assert forall k | 0 <= k < GapLength(s) :: IsWs(s[..GapLength(s)][k]) && s[..GapLength(s)][k] == s[k];
  }

  lemma {:induction false} RunLengthIs(run: string, rest: string)
    requires IsRun(run)
    requires rest == "" || !IsRunChar(rest[0])
    ensures RunLength(run + rest) == |run|
  {
    var s := run + rest;
    assert forall k | 0 <= k < |run| :: s[k] == run[k] && IsRunChar(s[k]);
    assert rest != "" ==> s[|run|] == rest[0];
  }

  lemma {:induction false} QuoteLengthPrefix(s: string, rest: string)
    requires QuoteLength(s).Some?
    ensures QuoteLength(s + rest) == QuoteLength(s)
    decreases |s|
  {
    if s[0] != '"' {
      var step := if s[0] == '\\' then 2 else 1;
      QuoteLengthPrefix(s[step..], rest);
      assert (s + rest)[step..] == s[step..] + rest;
    }
  }

  lemma {:induction false} QuoteLengthCut(s: string)
    requires QuoteLength(s).Some?
    ensures QuoteLength(s[..QuoteLength(s).value]) == QuoteLength(s)
    decreases |s|
  {
    if s[0] != '"' {
      var step := if s[0] == '\\' then 2 else 1;
      var n := QuoteLength(s).value;
      QuoteLengthCut(s[step..]);
      assert s[..n][step..] == s[step..][..n - step];
    }
  }

  /** A lexeme is cut off whole when what follows cannot extend it. */
  lemma {:induction false} LexemeLengthIs(l: string, rest: string)
    requires IsLexeme(l)
    requires IsRun(l) ==> rest == "" || !IsRunChar(rest[0])
    ensures !IsWs((l + rest)[0])
    ensures LexemeLength(l + rest) == Some(|l|)
  {
    var s := l + rest;
    assert s[0] == l[0];
    if IsPunct(l) {
    } else if IsQuoted(l) {
      QuoteLengthPrefix(l[1..], rest);
      assert s[1..] == l[1..] + rest;
    } else {
      assert IsRunChar(l[0]);
      RunLengthIs(l, rest);
    }
  }

  lemma {:induction false} LexemeCut(s: string)
    requires s != "" && !IsWs(s[0]) && LexemeLength(s).Some?
    ensures IsLexeme(s[..LexemeLength(s).value])
    ensures IsRun(s[..LexemeLength(s).value]) ==> IsRunChar(s[0])
  {
    var n := LexemeLength(s).value;
    var l := s[..n];
    assert l[0] == s[0];
    if IsStructural(s[0]) {
    } else if s[0] == '"' {
      QuoteLengthCut(s[1..]);
      assert l[1..] == s[1..][..n - 1];
    }
  }

  lemma {:induction false} ConsValid(p: Piece, ps: seq<Piece>, tail: string)
    requires ValidPieces(ps, tail) && IsGap(p.gap) && IsLexeme(p.lexeme)
    requires ps != [] && IsRun(p.lexeme) && IsRun(ps[0].lexeme) ==> ps[0].gap != ""
    ensures ValidPieces([p] + ps, tail)
  {
    var qs := [p] + ps;
    assert forall k | 0 < k < |qs| :: qs[k] == ps[k - 1];
  }

  lemma {:induction false} WeaveCons(p: Piece, ps: seq<Piece>, tail: string)
    ensures Weave([p] + ps, tail) == p.gap + p.lexeme + Weave(ps, tail)
  {
    assert ([p] + ps)[1..] == ps;
  }

  lemma {:induction false} FirstPieceSplits(s: string)
    requires FirstPiece(s).Some?
    ensures var (p, rest) := FirstPiece(s).value; s == p.gap + p.lexeme + rest
  {
    hide GapLength, LexemeLength;
    var g := GapLength(s);
    assert s == s[..g] + s[g..];
    var n := LexemeLength(s[g..]).value;
    assert s[g..] == s[g..][..n] + s[g..][n..];
  }

  /** The first token the lexer cuts off. */
  lemma {:induction false} FirstPieceIsValid(s: string)
    requires FirstPiece(s).Some?
    ensures var (p, rest) := FirstPiece(s).value;
            && IsGap(p.gap) && IsLexeme(p.lexeme)
            && (var t := Lex(rest);
                t.Some? && t.value.pieces != [] && IsRun(p.lexeme) && IsRun(t.value.pieces[0].lexeme)
                ==> t.value.pieces[0].gap != "")
  {
    var r := s[GapLength(s)..];
    LexemeCut(r);
    RunIsMaximal(r);
  }

  /** Weaving the tokens back gives the body: nothing is lost or moved. */
  lemma {:induction false} LexThenWeave(s: string)
    requires Lex(s).Some?
    ensures var t := Lex(s).value; Weave(t.pieces, t.tail) == s && ValidPieces(t.pieces, t.tail)
    decreases |s|
  {
    if GapLength(s) < |s| {
      FirstPieceIsValid(s);
      FirstPieceSplits(s);
      var (p, rest) := FirstPiece(s).value;
      hide FirstPiece, GapLength, IsRun, IsLexeme;
      LexThenWeave(rest);
      var t := Lex(rest).value;
      ConsValid(p, t.pieces, t.tail);
      WeaveCons(p, t.pieces, t.tail);
    } else {
      assert s[..GapLength(s)] == s;
    }
  }

  lemma {:induction false} LexStart(s: string)
    requires Lex(s).Some? && Lex(s).value.pieces != []
    ensures var p := Lex(s).value.pieces[0];
            p.gap == "" ==> s != "" && p.lexeme != "" && p.lexeme[0] == s[0]
  {
  }

  /** After a run was cut off, the next token cannot be a run that touches it. */
  lemma {:induction false} RunIsMaximal(s: string)
    requires s != "" && !IsWs(s[0]) && LexemeLength(s).Some?
    ensures var n := LexemeLength(s).value;
            var rest := Lex(s[n..]);
            rest.Some? && rest.value.pieces != [] && IsRun(s[..n]) && IsRun(rest.value.pieces[0].lexeme)
            ==> rest.value.pieces[0].gap != ""
  {
    LexemeCut(s);
    var rest := s[LexemeLength(s).value..];
    if Lex(rest).Some? && Lex(rest).value.pieces != [] {
      LexStart(rest);
    }
  }

  /** Whatever was woven from valid pieces is cut into those pieces: the cutting is unambiguous. */
  lemma {:induction false} WeaveThenLex(ps: seq<Piece>, tail: string)
    requires ValidPieces(ps, tail)
    ensures Lex(Weave(ps, tail)) == Some(Text(ps, tail))
    decreases |ps|
  {
    var s := Weave(ps, tail);
    if ps == [] {
      GapLengthIs(tail, "");
      assert tail + "" == tail;
    } else {
      var g, l, rest := ps[0].gap, ps[0].lexeme, Weave(ps[1..], tail);
      assert s == g + (l + rest);
      if IsRun(l) { AfterRun(ps, tail); }
      LexemeLengthIs(l, rest);
      GapLengthIs(g, l + rest);
      assert s[..|g|] == g && s[|g|..] == l + rest;
      assert (l + rest)[..|l|] == l && (l + rest)[|l|..] == rest;
      ValidTail(ps, tail);
      WeaveThenLex(ps[1..], tail);
      assert ps == [ps[0]] + ps[1..];
    }
  }

  lemma {:induction false} AfterRun(ps: seq<Piece>, tail: string)
    requires ValidPieces(ps, tail) && ps != [] && IsRun(ps[0].lexeme)
    ensures var rest := Weave(ps[1..], tail); rest == "" || !IsRunChar(rest[0])
  {
    if |ps| > 1 {
      var p := ps[1];
      var rest := Weave(ps[1..], tail);
      assert rest == p.gap + p.lexeme + Weave(ps[1..][1..], tail);
      if p.gap != "" { assert rest[0] == p.gap[0]; } else { assert rest[0] == p.lexeme[0]; }
    }
  }

  lemma {:induction false} ValidTail(ps: seq<Piece>, tail: string)
    requires ValidPieces(ps, tail) && ps != []
    ensures ValidPieces(ps[1..], tail)
  {
    forall k | 0 < k < |ps| - 1 && IsRun(ps[1..][k - 1].lexeme) && IsRun(ps[1..][k].lexeme)
      ensures ps[1..][k].gap != ""
    {
      assert ps[1..][k - 1] == ps[k] && ps[1..][k] == ps[k + 1];
    }
  }

  // ---- slices ---------------------------------------------------------------------------------

  lemma {:induction false} WeaveAppend(ps: seq<Piece>, qs: seq<Piece>, tail: string)
    ensures Weave(ps + qs, tail) == Weave(ps, "") + Weave(qs, tail)
    decreases |ps|
  {
    if ps == [] {
      assert ps + qs == qs;
    } else {
      WeaveAppend(ps[1..], qs, tail);
      assert (ps + qs)[1..] == ps[1..] + qs;
    }
  }

  /** The bytes from the start of the first token to the end of the last. */
  function Span(ps: seq<Piece>): string {
    if ps == [] then "" else ps[0].lexeme + Weave(ps[1..], "")
  }

  /** Where token `i` starts in the body; one past the last token, the end of the body. */
  function Start(ps: seq<Piece>, tail: string, i: nat): (n: nat)
    requires i <= |ps|
  {
    if i == |ps| then |Weave(ps, tail)| else |Weave(ps[..i], "")| + |ps[i].gap|
  }

  /** The whitespace before token `i`, or after the last one. */
  function GapBefore(ps: seq<Piece>, tail: string, i: nat): string
    requires i <= |ps|
  {
    if i == |ps| then tail else ps[i].gap
  }

  lemma {:induction false} Middle(x: string, y: string, z: string)
    ensures (x + y + z)[|x|..|x| + |y|] == y
  {
  }

  lemma {:induction false} WeaveHead(ps: seq<Piece>, tail: string) returns (end: string)
    ensures Weave(ps, tail) == GapBefore(ps, tail, 0) + end
    ensures tail == "" && ps != [] ==> end == Span(ps)
    ensures ps == [] ==> end == ""
  {
    end := if ps == [] then "" else ps[0].lexeme + Weave(ps[1..], tail);
  }

  /** A slice between two token starts is the tokens' span, followed by the gap before the second. */
  lemma {:induction false} SliceIsSpan(ps: seq<Piece>, tail: string, i: nat, j: nat)
    requires i < j <= |ps|
    ensures Start(ps, tail, i) <= Start(ps, tail, j) <= |Weave(ps, tail)|
    ensures Weave(ps, tail)[Start(ps, tail, i)..Start(ps, tail, j)]
            == Span(ps[i..j]) + GapBefore(ps, tail, j)
  {
    hide Weave, Span;
    var before, mid, after := ps[..i], ps[i..j], ps[j..];
    assert ps == before + (mid + after) && ps[..j] == before + mid;
    WeaveAppend(before, mid + after, tail);
    WeaveAppend(mid, after, tail);
    WeaveAppend(before, mid, "");
    var a, g, gj := Weave(before, ""), ps[i].gap, GapBefore(ps, tail, j);
    var span := WeaveHead(mid, "");
    var end := WeaveHead(after, tail);
    assert mid[0] == ps[i] && (j < |ps| ==> after[0] == ps[j]);
    assert Weave(ps, tail) == (a + g) + (span + gj) + end;
    Middle(a + g, span + gj, end);
  }

  /** What find_last_not_of() over the four whitespace characters leaves. */
  function WithoutTrailingWhitespace(json: string): string {
    if json == "" || !IsWs(json[|json| - 1]) then json else WithoutTrailingWhitespace(json[..|json| - 1])
  }

  lemma {:induction false} TrimGap(s: string, gap: string)
    requires IsGap(gap) && s != "" && !IsWs(s[|s| - 1])
    ensures WithoutTrailingWhitespace(s + gap) == s
    decreases |gap|
  {
    if gap == "" {
      assert s + gap == s;
    } else {
      TrimGap(s, gap[..|gap| - 1]);
      assert (s + gap)[..|s + gap| - 1] == s + gap[..|gap| - 1];
    }
  }

  /** A span ends with its last token. */
  lemma {:induction false} SpanEnds(ps: seq<Piece>)
    requires ps != [] && ps[|ps| - 1].lexeme != ""
    ensures Span(ps) != "" && Span(ps)[|Span(ps)| - 1] == ps[|ps| - 1].lexeme[|ps[|ps| - 1].lexeme| - 1]
    decreases |ps|
  {
    if |ps| > 1 {
      SpanEnds(ps[1..]);
      var span := WeaveHead(ps[1..], "");
      assert Span(ps) == ps[0].lexeme + (ps[1].gap + span);
    } else {
      assert Span(ps) == ps[0].lexeme;
    }
  }
}
