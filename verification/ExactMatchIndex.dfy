/** One index's documents and a map from terms to the documents that contain them. */
module ExactMatchIndexes {
  import opened Core
  import opened WhitespaceTokenizer

  /** A DocId: the position of a document in insertion order. */
  type DocId = n: int | 0 <= n < DOC_ID_LIMIT

  const DOC_ID_LIMIT := 0x1_0000_0000

  type Postings = map<string, seq<DocId>>

  // ---- the specification: look through every document ---------------------------------------------

  /** The words of texts `0` to `n`, one after another. */
  function WordsOf(texts: seq<string>): seq<string> {
    if texts == [] then [] else WordsOf(texts[..|texts| - 1]) + Words(texts[|texts| - 1])
  }

  /** The document's searchable text, split on whitespace, holds `term`. */
  predicate Contains(d: Document, term: string) {
    exists k | 0 <= k < |d.searchableText| :: term in Words(d.searchableText[k])
  }

  /** The positions of the documents that contain `term`, found by looking at all of them. */
  function Scan(log: seq<Document>, term: string): seq<DocId>
    requires |log| <= DOC_ID_LIMIT
  {
    if log == [] then []
    else
      var n := |log| - 1;
      if Contains(log[n], term) then Scan(log[..n], term) + [n] else Scan(log[..n], term)
  }

  /** A scan lists exactly the containing documents, in insertion order, each once. */
  lemma {:induction false} ScanIsExact(log: seq<Document>, term: string)
    requires |log| <= DOC_ID_LIMIT
    ensures var ids := Scan(log, term);
            && (forall i, j | 0 <= i < j < |ids| :: ids[i] < ids[j])
            && (forall n: DocId :: n in ids <==> n < |log| && Contains(log[n], term))
    decreases |log|
  {
    if log != [] {
      hide Contains;
      var n := |log| - 1;
      ScanIsExact(log[..n], term);
      var before := Scan(log[..n], term);
      assert forall i | 0 <= i < |before| :: before[i] in before && before[i] < n;
    }
  }

  /** Adding documents only ever lengthens what a term finds. */
  lemma {:induction false} ScanGrows(log: seq<Document>, more: seq<Document>, term: string)
    requires |log| + |more| <= DOC_ID_LIMIT
    ensures Scan(log, term) <= Scan(log + more, term)
    decreases |more|
  {
    if more == [] {
      assert log + more == log;
    } else {
      var n := |more| - 1;
      ScanGrows(log, more[..n], term);
      assert (log + more)[..|log + more| - 1] == log + more[..n];
    }
  }

  lemma {:induction false} WordsOfContains(texts: seq<string>, term: string)
    ensures term in WordsOf(texts) <==> exists k :: 0 <= k < |texts| && term in Words(texts[k])
    decreases |texts|
  {
    if texts != [] {
      hide Words;
      var n := |texts| - 1;
      WordsOfContains(texts[..n], term);
      if term in WordsOf(texts[..n]) {
        var k :| 0 <= k < n && term in Words(texts[..n][k]);
        assert texts[k] == texts[..n][k];
      }
      if k :| 0 <= k < |texts| && term in Words(texts[k]) {
        if k < n { assert texts[..n][k] == texts[k]; }
      }
    }
  }

  // ---- the postings -----------------------------------------------------------------------------

  function Get(postings: Postings, term: string): seq<DocId> {
    if term in postings then postings[term] else []
  }

  /** What record() does: the id goes to the back unless it is there already. */
  function Recorded(postings: Postings, term: string, id: DocId): Postings {
    var ids := Get(postings, term);
    postings[term := if ids == [] || ids[|ids| - 1] != id then ids + [id] else ids]
  }

  /** Every term finds what a scan of `log` finds; document `|log|` counts for the words in `seen`. */
  ghost predicate AgreesWithScan(postings: Postings, log: seq<Document>, seen: seq<string>) {
    && |log| <= DOC_ID_LIMIT
    && (seen != [] ==> |log| < DOC_ID_LIMIT)
    && forall term :: Get(postings, term) == Scan(log, term) + (if term in seen then [|log|] else [])
  }

  lemma {:induction false} RecordWord(postings: Postings, log: seq<Document>, seen: seq<string>, term: string)
    requires AgreesWithScan(postings, log, seen) && |log| < DOC_ID_LIMIT
    ensures AgreesWithScan(Recorded(postings, term, |log|), log, seen + [term])
  {
    hide Scan, Contains;
    var id := |log|;
    var after := Recorded(postings, term, id);
    forall other ensures Get(after, other) == Scan(log, other) + (if other in seen + [term] then [id] else []) {
      if other == term {
        ScanIsExact(log, term);
        var ids := Get(postings, term);
        if term !in seen && ids != [] { assert ids[|ids| - 1] in Scan(log, term); }
      }
    }
  }

  /** The words of a whole document turn the scan of `log` into the scan with the document. */
  lemma {:induction false} DocumentDone(postings: Postings, log: seq<Document>, d: Document)
    requires |log| < DOC_ID_LIMIT && AgreesWithScan(postings, log, WordsOf(d.searchableText))
    ensures AgreesWithScan(postings, log + [d], [])
  {
    forall term ensures Get(postings, term) == Scan(log + [d], term) {
      WordsOfContains(d.searchableText, term);
      hide WordsOf, Words;
      assert (log + [d])[..|log|] == log;
    }
  }

  class ExactMatchIndex {
    var sources: seq<string>
    var postings: Postings
    ghost var log: seq<Document>  // every document ever added

    ghost predicate Valid()
      reads this
    {
      && |sources| == |log| <= DOC_ID_LIMIT
      && (forall k | 0 <= k < |log| :: sources[k] == log[k].source)
      && AgreesWithScan(postings, log, [])
    }

    constructor ()
      ensures Valid() && log == []
    {
      sources, postings, log := [], map[], [];
    }

    /** record() */
    method RecordTerm(term: string, id: DocId)
      modifies this`postings
      ensures postings == Recorded(old(postings), term, id)
    {
      var documents := Get(postings, term);
      if documents == [] || documents[|documents| - 1] != id {
        documents := documents + [id];
      }
      postings := postings[term := documents];
    }

    /** add(): stores the document under the next DocId and makes its words findable. */
    method Add(d: Document) returns (id: DocId)
      requires Valid() && |log| < DOC_ID_LIMIT
      modifies this
      ensures Valid() && log == old(log) + [d] && id == |old(log)|
    {
      hide Recorded, AgreesWithScan, Scan, Words;
      id := |sources|;
      ghost var seen: seq<string> := [];
      for i := 0 to |d.searchableText|
        invariant log == old(log) && sources == old(sources)
        invariant seen == WordsOf(d.searchableText[..i])
        invariant AgreesWithScan(postings, log, seen)
      {
        assert d.searchableText[..i + 1][..i] == d.searchableText[..i];
        var words := SplitOnWhitespace(d.searchableText[i]);
        for j := 0 to |words|
          invariant log == old(log) && sources == old(sources)
          invariant seen == WordsOf(d.searchableText[..i]) + words[..j]
          invariant AgreesWithScan(postings, log, seen)
        {
          RecordWord(postings, log, seen, words[j]);
          RecordTerm(words[j], id);
          seen := seen + [words[j]];
        }
        assert words[..|words|] == words;
      }
      assert d.searchableText[..|d.searchableText|] == d.searchableText;
      DocumentDone(postings, log, d);
      sources := sources + [d.source];
      log := log + [d];
    }

    /** document_count() */
    method DocumentCount() returns (n: nat)
      requires Valid()
      ensures n == |log|
    {
      n := |sources|;
    }

    /** documents_containing(): what a scan of every document ever added would find. */
    method DocumentsContaining(term: string) returns (ids: seq<DocId>)
      requires Valid()
      ensures ids == Scan(log, term)
      ensures forall i, j | 0 <= i < j < |ids| :: ids[i] < ids[j]
      ensures forall n: DocId :: n in ids <==> n < |log| && Contains(log[n], term)
    {
      ids := Get(postings, term);
      ScanIsExact(log, term);
    }

    /** source(): the bytes stored for an id that add() returned. */
    method Source(id: DocId) returns (source: string)
      requires Valid() && id < |log|
      ensures source == log[id].source
    {
      source := sources[id];
    }
  }
}
