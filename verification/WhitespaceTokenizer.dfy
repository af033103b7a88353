/** Splitting text into the words between ASCII whitespace. */
module WhitespaceTokenizer {
  import opened Wrappers

  predicate IsSpace(c: char) {
    c == ' ' || c == '\t' || c == '\n' || c == '\U{B}' || c == '\U{C}' || c == '\r'
  }

  predicate AllSpace(s: string) {
    forall k | 0 <= k < |s| :: IsSpace(s[k])
  }

  predicate IsWord(s: string) {
    s != "" && forall k | 0 <= k < |s| :: !IsSpace(s[k])
  }

  /** find_first_not_of(): the first non-space from `from` on. */
  function FirstNonSpace(text: string, from: nat): (i: Option<nat>)
    requires from <= |text|
    ensures match i
            case None => forall k | from <= k < |text| :: IsSpace(text[k])
            case Some(i) => from <= i < |text| && !IsSpace(text[i]) && forall k | from <= k < i :: IsSpace(text[k])
    decreases |text| - from
  {
    if from == |text| then None
    else if !IsSpace(text[from]) then Some(from)
    else FirstNonSpace(text, from + 1)
  }

  /** find_first_of(): the first space from `from` on. */
  function FirstSpace(text: string, from: nat): (i: Option<nat>)
    requires from <= |text|
    ensures match i
            case None => forall k | from <= k < |text| :: !IsSpace(text[k])
            case Some(i) => from <= i < |text| && IsSpace(text[i]) && forall k | from <= k < i :: !IsSpace(text[k])
    decreases |text| - from
  {
    if from == |text| then None
    else if IsSpace(text[from]) then Some(from)
    else FirstSpace(text, from + 1)
  }

  // ---- the specification ------------------------------------------------------------------------

  /** A stretch of the text without spaces that cannot be extended on either side. */
  predicate MaximalRun(text: string, i: nat, j: nat) {
    && i < j <= |text|
    && (forall k | i <= k < j :: !IsSpace(text[k]))
    && (i == 0 || IsSpace(text[i - 1]))
    && (j == |text| || IsSpace(text[j]))
  }

  /** The maximal runs from position `from` on, in order. */
  function RunsFrom(text: string, from: nat): seq<(nat, nat)>
    requires from <= |text|
    decreases |text| - from
  {
    match FirstNonSpace(text, from)
    case None => []
    case Some(i) =>
      match FirstSpace(text, i)
      case None => [(i, |text|)]
      case Some(j) => [(i, j)] + RunsFrom(text, j)
  }

  /** The words from position `from` on. */
  function WordsFrom(text: string, from: nat): seq<string>
    requires from <= |text|
    decreases |text| - from
  {
    match FirstNonSpace(text, from)
    case None => []
    case Some(i) =>
      match FirstSpace(text, i)
      case None => [text[i..]]
      case Some(j) => [text[i..j]] + WordsFrom(text, j)
  }

  function Words(text: string): seq<string> {
    WordsFrom(text, 0)
  }

  function RunEnd(text: string, i: nat): (j: nat)
    requires i < |text| && !IsSpace(text[i])
    ensures i < j <= |text| && (forall k | i <= k < j :: !IsSpace(text[k])) && (j == |text| || IsSpace(text[j]))
  {
    match FirstSpace(text, i)
    case None => |text|
    case Some(j) => j
  }

  lemma {:induction false} RunsFromAreRuns(text: string, from: nat)
    requires from <= |text| && (from == 0 || from == |text| || IsSpace(text[from]))
    ensures var runs := RunsFrom(text, from);
            && (forall k | 0 <= k < |runs| :: from <= runs[k].0 && MaximalRun(text, runs[k].0, runs[k].1))
            && (forall k, h | 0 <= k < h < |runs| :: runs[k].1 < runs[h].0)
    decreases |text| - from
  {
    var runs := RunsFrom(text, from);
    if FirstNonSpace(text, from).Some? {
      var i := FirstNonSpace(text, from).value;
      if FirstSpace(text, i).Some? {
        var j := FirstSpace(text, i).value;
        RunsFromAreRuns(text, j);
        assert runs[1..] == RunsFrom(text, j);
        assert forall k | 0 < k < |runs| :: runs[k] == runs[1..][k - 1];
      }
    }
  }

  lemma {:induction false} RunsFromMissNone(text: string, from: nat, p: nat, q: nat)
    requires from <= p && MaximalRun(text, p, q)
    ensures (p, q) in RunsFrom(text, from)
    decreases |text| - from
  {
    assert !IsSpace(text[p]);
    var i := FirstNonSpace(text, from).value;
    if p < RunEnd(text, i) {
      RunStarts(text, from, i, RunEnd(text, i), p, q);
      assert RunsFrom(text, from)[0] == (p, q);
    } else {
      RunsFromMissNone(text, RunEnd(text, i), p, q);
    }
  }

  /** The first run from `from` on is the only one that starts before its end. */
  lemma {:induction false} RunStarts(text: string, from: nat, i: nat, j: nat, p: nat, q: nat)
    requires from <= i < j <= |text| && MaximalRun(text, p, q) && from <= p < j
    requires forall k | from <= k < i :: IsSpace(text[k])
    requires forall k | i <= k < j :: !IsSpace(text[k])
    requires j == |text| || IsSpace(text[j])
    ensures p == i && q == j
  {
    assert !IsSpace(text[p]);
  }

  lemma {:induction false} WordsFromAreSlices(text: string, from: nat)
    requires from <= |text|
    ensures var runs, words := RunsFrom(text, from), WordsFrom(text, from);
            && |words| == |runs|
            && (forall k | 0 <= k < |runs| ::
              runs[k].0 <= runs[k].1 <= |text| && words[k] == text[runs[k].0..runs[k].1])
    decreases |text| - from
  {
    if FirstNonSpace(text, from).Some? {
      var i := FirstNonSpace(text, from).value;
      if FirstSpace(text, i).Some? {
        WordsFromAreSlices(text, FirstSpace(text, i).value);
      }
    }
  }

  /** The words are exactly the maximal runs: each word is one, they come in order, none is missed. */
  lemma {:induction false} WordsAreTheMaximalRuns(text: string)
    ensures var runs := RunsFrom(text, 0);
            && |Words(text)| == |runs|
            && (forall k | 0 <= k < |runs| ::
                  MaximalRun(text, runs[k].0, runs[k].1) && Words(text)[k] == text[runs[k].0..runs[k].1])
            && (forall k, h | 0 <= k < h < |runs| :: runs[k].1 < runs[h].0)
            && (forall i: nat, j: nat | MaximalRun(text, i, j) :: (i, j) in runs)
  {
    RunsFromAreRuns(text, 0);
    WordsFromAreSlices(text, 0);
    forall i: nat, j: nat | MaximalRun(text, i, j) ensures (i, j) in RunsFrom(text, 0) {
      RunsFromMissNone(text, 0, i, j);
    }
  }

  /** One word, and the words after it. */
  lemma {:induction false} WordsFromStep(text: string, from: nat, i: nat)
    requires from <= |text| && FirstNonSpace(text, from) == Some(i)
    ensures var j := RunEnd(text, i);
            WordsFrom(text, from) == [text[i..j]] + WordsFrom(text, j) && IsWord(text[i..j])
  {
    if FirstSpace(text, i).None? {
      assert text[i..|text|] == text[i..] && WordsFrom(text, |text|) == [];
    }
  }

  /** Leading spaces make no difference. */
  lemma {:induction false} WordsFromSkip(text: string, from: nat)
    requires from <= |text|
    ensures WordsFrom(text, from)
            == match FirstNonSpace(text, from) case None => [] case Some(i) => WordsFrom(text, i)
    ensures FirstNonSpace(text, from).Some? ==>
              FirstNonSpace(text, FirstNonSpace(text, from).value) == FirstNonSpace(text, from)
  {
  }

  // ---- the loop ---------------------------------------------------------------------------------

  /** split_on_whitespace() */
  method SplitOnWhitespace(text: string) returns (words: seq<string>)
    ensures words == Words(text)
  {
    hide WordsFrom, FirstNonSpace, FirstSpace;
    WordsFromSkip(text, 0);
    words := [];
    var start := FirstNonSpace(text, 0);
    while start.Some?
      invariant start.Some? ==> start.value < |text| && FirstNonSpace(text, start.value) == start
      invariant Words(text) == words + (if start.Some? then WordsFrom(text, start.value) else [])
      decreases if start.Some? then |text| - start.value else -1
    {
      WordsFromStep(text, start.value, start.value);
      var end := FirstSpace(text, start.value);
      var stop := if end.Some? then end.value else |text|;
      words := words + [text[start.value..stop]];
      WordsFromSkip(text, stop);
      start := FirstNonSpace(text, stop);
    }
  }

  // ---- words and the gaps between them ----------------------------------------------------------

  /** Words with the gaps around and between them. */
  function Rejoin(gaps: seq<string>, words: seq<string>): string
    requires |gaps| == |words| + 1
  {
    if words == [] then gaps[0] else gaps[0] + words[0] + Rejoin(gaps[1..], words[1..])
  }

  /** Every gap is whitespace, no gap between two words is empty, and every word is a word. */
  predicate Alternates(gaps: seq<string>, words: seq<string>) {
    && |gaps| == |words| + 1
    && (forall k | 0 <= k < |gaps| :: AllSpace(gaps[k]))
    && (forall k | 0 < k < |words| :: gaps[k] != "")
    && (forall k | 0 <= k < |words| :: IsWord(words[k]))
  }

  lemma {:induction false} FirstNonSpaceIn(pre: string, gap: string, rest: string)
    requires AllSpace(gap) && (rest == "" || !IsSpace(rest[0]))
    ensures var text := pre + gap + rest;
            FirstNonSpace(text, |pre|) == if rest == "" then None else Some(|pre| + |gap|)
  {
    var text := pre + gap + rest;
    assert forall k | 0 <= k < |gap| :: text[|pre| + k] == gap[k];
    assert rest != "" ==> text[|pre| + |gap|] == rest[0];
  }

  lemma {:induction false} FirstSpaceIn(pre: string, word: string, rest: string)
    requires IsWord(word) && (rest == "" || IsSpace(rest[0]))
    ensures var text := pre + word + rest;
            FirstSpace(text, |pre|) == if rest == "" then None else Some(|pre| + |word|)
  {
    var text := pre + word + rest;
    assert forall k | 0 <= k < |word| :: text[|pre| + k] == word[k];
    assert rest != "" ==> text[|pre| + |word|] == rest[0];
  }

  lemma {:induction false} RunEndIn(pre: string, word: string, rest: string)
    requires IsWord(word) && (rest == "" || IsSpace(rest[0]))
    ensures var text := pre + word + rest;
            !IsSpace(text[|pre|]) && RunEnd(text, |pre|) == |pre| + |word|
  {
    FirstSpaceIn(pre, word, rest);
    assert (pre + word + rest)[|pre|] == word[0];
  }

  lemma {:induction false} RejoinParts(gaps: seq<string>, words: seq<string>)
    requires Alternates(gaps, words) && words != []
    ensures var rest := Rejoin(gaps[1..], words[1..]);
            && Rejoin(gaps, words) == gaps[0] + words[0] + rest
            && AllSpace(gaps[0]) && IsWord(words[0]) && (rest == "" || IsSpace(rest[0]))
            && Alternates(gaps[1..], words[1..])
  {
    AlternatesTail(gaps, words);
    RejoinStart(gaps[1..], words[1..]);
  }

  lemma {:induction false} WordsFromRejoin(pre: string, gaps: seq<string>, words: seq<string>)
    requires Alternates(gaps, words)
    ensures WordsFrom(pre + Rejoin(gaps, words), |pre|) == words
    decreases |words|
  {
    var text := pre + Rejoin(gaps, words);
    if words == [] {
      FirstNonSpaceIn(pre, gaps[0], "");
      assert text == pre + gaps[0] + "";
    } else {
      hide WordsFrom, FirstNonSpace, FirstSpace, RunEnd, Rejoin, Alternates, AllSpace, IsWord, IsSpace;
      var g, w, rest := gaps[0], words[0], Rejoin(gaps[1..], words[1..]);
      RejoinParts(gaps, words);
      assert text == pre + g + (w + rest) && text == (pre + g) + w + rest && text == (pre + g + w) + rest;
      WordStarts(w, rest);
      FirstNonSpaceIn(pre, g, w + rest);
      WordsFromStep(text, |pre|, |pre| + |g|);
      RunEndIn(pre + g, w, rest);
      assert text[|pre + g|..|pre + g + w|] == w;
      WordsFromRejoin(pre + g + w, gaps[1..], words[1..]);
    }
  }

  lemma {:induction false} WordStarts(w: string, rest: string)
    requires IsWord(w)
    ensures w + rest != "" && !IsSpace((w + rest)[0])
  {
  }

  lemma {:induction false} AlternatesTail(gaps: seq<string>, words: seq<string>)
    requires Alternates(gaps, words) && words != []
    ensures Alternates(gaps[1..], words[1..])
  {
  }

  /** What follows a word is nothing or starts with a space, when another word comes after it. */
  lemma {:induction false} RejoinStart(gaps: seq<string>, words: seq<string>)
    requires Alternates(gaps, words)
    ensures words == [] || gaps[0] != "" ==> Rejoin(gaps, words) == "" || IsSpace(Rejoin(gaps, words)[0])
  {
    if gaps[0] != "" { assert Rejoin(gaps, words)[0] == gaps[0][0]; }
  }

  /** Splitting a text put together from words and gaps gives the words. */
  lemma {:induction false} SplitOfRejoin(gaps: seq<string>, words: seq<string>)
    requires Alternates(gaps, words)
    ensures Words(Rejoin(gaps, words)) == words
  {
    WordsFromRejoin("", gaps, words);
    assert "" + Rejoin(gaps, words) == Rejoin(gaps, words);
  }

  /** Every text is its words with whitespace around and between them. */
  lemma {:induction false} GapsOf(text: string, from: nat) returns (gaps: seq<string>)
    requires from <= |text|
    ensures Alternates(gaps, WordsFrom(text, from)) && Rejoin(gaps, WordsFrom(text, from)) == text[from..]
    ensures WordsFrom(text, from) != [] && IsSpace(text[from]) ==> gaps[0] != ""
    decreases |text| - from
  {
    match FirstNonSpace(text, from)
    case None =>
      gaps := [text[from..]];
    case Some(i) =>
      var j := RunEnd(text, i);
      var rest := GapsOf(text, j);
      gaps := [text[from..i]] + rest;
      assert gaps[1..] == rest;
      assert text[from..] == text[from..i] + text[i..j] + text[j..];
      WordsFromStep(text, from, i);
  }

  /** Interleaving the words with the whitespace that was removed rebuilds the text. */
  lemma {:induction false} SplitRebuilds(text: string) returns (gaps: seq<string>)
    ensures Alternates(gaps, Words(text)) && Rejoin(gaps, Words(text)) == text
  {
    gaps := GapsOf(text, 0);
    assert text[0..] == text;
  }

  /** Joining two texts with a space between them joins their words. */
  lemma {:induction false} SplitDistributes(a: string, space: char, b: string)
    requires IsSpace(space)
    ensures Words(a + [space] + b) == Words(a) + Words(b)
  {
    var g := SplitRebuilds(a);
    var h := SplitRebuilds(b);
    JoinGaps(g, Words(a), space, h, Words(b));
    SplitOfRejoin(MergeGaps(g, space, h), Words(a) + Words(b));
  }

  /** The gaps of two texts with a space between them: the last of one meets the first of the other. */
  function MergeGaps(g: seq<string>, space: char, h: seq<string>): (gaps: seq<string>)
    requires g != [] && h != []
    ensures |gaps| == |g| + |h| - 1
  {
    g[..|g| - 1] + [g[|g| - 1] + [space] + h[0]] + h[1..]
  }

  lemma {:induction false} SpacesMeet(a: string, space: char, b: string)
    requires AllSpace(a) && IsSpace(space) && AllSpace(b)
    ensures AllSpace(a + [space] + b)
  {
  }

  lemma {:induction false} AlternatesCons(gaps: seq<string>, words: seq<string>)
    requires words != [] && |gaps| == |words| + 1 && Alternates(gaps[1..], words[1..])
    requires AllSpace(gaps[0]) && IsWord(words[0]) && (|words| > 1 ==> gaps[1] != "")
    ensures Alternates(gaps, words)
  {
    assert forall k | 0 < k < |gaps| :: gaps[k] == gaps[1..][k - 1];
    assert forall k | 0 < k < |words| :: words[k] == words[1..][k - 1];
  }

  lemma {:induction false} JoinGaps(g: seq<string>, v: seq<string>, space: char, h: seq<string>, w: seq<string>)
    requires Alternates(g, v) && Alternates(h, w) && IsSpace(space)
    ensures var gaps := MergeGaps(g, space, h);
            Alternates(gaps, v + w) && Rejoin(gaps, v + w) == Rejoin(g, v) + [space] + Rejoin(h, w)
    decreases |v|
  {
    hide AllSpace, IsWord, IsSpace;
    var gaps := MergeGaps(g, space, h);
    if v == [] {
      SpacesMeet(g[0], space, h[0]);
      assert v + w == w && gaps == [g[0] + [space] + h[0]] + h[1..];
      if w != [] { assert gaps[1..] == h[1..]; }
    } else {
      AlternatesTail(g, v);
      JoinGaps(g[1..], v[1..], space, h, w);
      assert gaps[1..] == MergeGaps(g[1..], space, h);
      assert (v + w)[1..] == v[1..] + w;
      assert gaps[0] == g[0] && (|v + w| > 1 ==> gaps[1] != "");
      AlternatesCons(gaps, v + w);
    }
  }

  /** Words joined by single spaces. */
  function JoinWithSpace(words: seq<string>): string {
    if words == [] then "" else if |words| == 1 then words[0] else words[0] + " " + JoinWithSpace(words[1..])
  }

  /** Splitting what was split and joined again changes nothing. */
  lemma {:induction false} SplitIsStable(text: string)
    ensures Words(JoinWithSpace(Words(text))) == Words(text)
  {
    var gaps := SplitRebuilds(text);
    StableWords(Words(text));
  }

  lemma {:induction false} StableWords(words: seq<string>)
    requires forall k | 0 <= k < |words| :: IsWord(words[k])
    ensures Words(JoinWithSpace(words)) == words
    decreases |words|
  {
    if words == [] {
      SplitOfRejoin([""], []);
    } else {
      LoneWord(words[0]);
      if |words| > 1 {
        StableWords(words[1..]);
        SplitDistributes(words[0], ' ', JoinWithSpace(words[1..]));
        assert words == [words[0]] + words[1..];
      } else {
        assert words == [words[0]];
      }
    }
  }

  lemma {:induction false} LoneWord(w: string)
    requires IsWord(w)
    ensures Words(w) == [w]
  {
    assert Rejoin(["", ""], [w]) == w by { assert "" + w + "" == w; }
    SplitOfRejoin(["", ""], [w]);
  }

  // ---- which characters separate words ----------------------------------------------------------

  const ASCII_WHITESPACE := " \t\n\U{B}\U{C}\r"

  lemma {:induction false} SpacesAreTheSix(c: char)
    ensures IsSpace(c) <==> c in ASCII_WHITESPACE
  {
    var w := ASCII_WHITESPACE;
    assert w[0] == ' ' && w[1] == '\t' && w[2] == '\n' && w[3] == '\U{B}' && w[4] == '\U{C}' && w[5] == '\r';
  }

  /** Each of the six characters separates the words before it from those after it. */
  lemma {:induction false} EachOfSixSeparates(a: string, k: nat, b: string)
    requires k < |ASCII_WHITESPACE|
    ensures Words(a + [ASCII_WHITESPACE[k]] + b) == Words(a) + Words(b)
  {
    hide Words, IsSpace;
    SpacesAreTheSix(ASCII_WHITESPACE[k]);
    SplitDistributes(a, ASCII_WHITESPACE[k], b);
  }

  /** And no other character does: text without any of the six is one word, or none. */
  lemma {:induction false} NothingElseSeparates(text: string)
    requires forall k | 0 <= k < |text| :: text[k] !in ASCII_WHITESPACE
    ensures Words(text) == if text == "" then [] else [text]
  {
    hide Words, IsSpace;
    if text == "" {
      NoWords();
    } else {
      forall k | 0 <= k < |text| ensures !IsSpace(text[k]) {
        SpacesAreTheSix(text[k]);
      }
      LoneWord(text);
    }
  }

  lemma {:induction false} NoWords()
    ensures Words("") == []
  {
  }
}
