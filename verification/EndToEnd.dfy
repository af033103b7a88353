/** From request bodies to lookups. */
module EndToEnd {
  import opened Wrappers
  import opened Core
  import opened JsonLexer
  import opened JsonString
  import opened JsonGrammar
  import opened WhitespaceTokenizer
  import opened ExactMatchIndexes
  import opened IndexStore
  import opened InMemoryIndexRepositories
  import opened Services
  import DocumentRoutes
  import DocumentBatches
  import DocumentSlices
  import Workers
  import WorkerRuns

  /** The word `term` stands somewhere in `text`, with whitespace or an end on either side. */
  ghost predicate HasWord(text: string, term: string) {
    exists i: nat, j: nat :: MaximalRun(text, i, j) && text[i..j] == term
  }

  /** Some top-level string value of the object stands for a text that has the word. */
  ghost predicate MentionsWord(v: Value, term: string) {
    v.Object? && exists k, text: string ::
      0 <= k < |v.members| && v.members[k].value.Scalar? && StandsFor(v.members[k].value.lexeme, text)
        && HasWord(text, term)
  }

  lemma {:induction false} WordsHaveWord(text: string, term: string)
    ensures term in Words(text) <==> HasWord(text, term)
  {
    WordsAreTheMaximalRuns(text);
    hide Words, RunsFrom;
    var runs := RunsFrom(text, 0);
    if term in Words(text) {
      var k :| 0 <= k < |Words(text)| && Words(text)[k] == term;
      assert MaximalRun(text, runs[k].0, runs[k].1);
    }
    if HasWord(text, term) {
      var i: nat, j: nat :| MaximalRun(text, i, j) && text[i..j] == term;
      var k :| 0 <= k < |runs| && runs[k] == (i, j);
      assert Words(text)[k] == term;
    }
  }

  /** A text is searchable exactly when a top-level string value stands for it. */
  lemma {:induction false} SearchableTextIs(ms: seq<Member>, text: string)
    ensures text in DocumentRoutes.SearchableText(ms) <==>
            exists k :: 0 <= k < |ms| && DocumentRoutes.TextOf(ms[k].value) == Some(text)
    decreases |ms|
  {
    if ms != [] {
      hide DocumentRoutes.TextOf;
      SearchableTextIs(ms[1..], text);
      if k :| 0 <= k < |ms| && DocumentRoutes.TextOf(ms[k].value) == Some(text) {
        if k > 0 { assert ms[1..][k - 1] == ms[k]; }
      }
      if text in DocumentRoutes.SearchableText(ms[1..]) {
        var k :| 0 <= k < |ms[1..]| && DocumentRoutes.TextOf(ms[1..][k].value) == Some(text);
        assert ms[k + 1] == ms[1..][k];
      }
    }
  }

  lemma {:induction false} TextIsMeaning(l: string, text: string)
    requires IsLexeme(l) && !IsPunct(l)
    ensures DocumentRoutes.TextOf(Scalar(l)) == Some(text) <==> StandsFor(l, text)
  {
    if IsQuoted(l) {
      UnescapeIsTheMeaning(l, text);
    } else {
      assert l[0] != '"';
      assert !StandsFor(l, text);
    }
  }

  /** A document contains a term exactly when its object mentions the word. */
  lemma {:induction false} ContainsIsMentions(v: Value, d: Document, term: string)
    requires v.Object? && Shape(v) && All(v, IsLexeme) && d.searchableText == DocumentRoutes.SearchableText(v.members)
    ensures Contains(d, term) <==> MentionsWord(v, term)
  {
    hide Words, IsLexeme, DocumentRoutes.TextOf, StandsFor, HasWord, DocumentRoutes.SearchableText, IsPunct;
    var ms := v.members;
    if Contains(d, term) {
      var k :| 0 <= k < |d.searchableText| && term in Words(d.searchableText[k]);
      var text := d.searchableText[k];
      SearchableTextIs(ms, text);
      var h :| 0 <= h < |ms| && DocumentRoutes.TextOf(ms[h].value) == Some(text);
      WordsHaveWord(text, term);
      TextIsScalar(ms[h].value, text);
      assert ShapeOfMember(ms[h]);
      ScalarFacts(ms[h].value);
      TextIsMeaning(ms[h].value.lexeme, text);
    }
    if MentionsWord(v, term) {
      var h, text: string :| 0 <= h < |ms| && ms[h].value.Scalar? && StandsFor(ms[h].value.lexeme, text)
        && HasWord(text, term);
      assert ShapeOfMember(ms[h]);
      ScalarFacts(ms[h].value);
      TextIsMeaning(ms[h].value.lexeme, text);
      SearchableTextIs(ms, text);
      WordsHaveWord(text, term);
      var k :| 0 <= k < |d.searchableText| && d.searchableText[k] == text;
    }
  }

  lemma {:induction false} ScalarFacts(v: Value)
    requires v.Scalar? && Shape(v) && All(v, IsLexeme)
    ensures IsLexeme(v.lexeme) && !IsPunct(v.lexeme)
  {
  }

  lemma {:induction false} TextIsScalar(v: Value, text: string)
    requires DocumentRoutes.TextOf(v) == Some(text)
    ensures v.Scalar?
  {
  }

  // ---- over a run of bodies -----------------------------------------------------------------

  /** The documents of the bodies, in order; a refused body adds none. */
  function Log(bodies: seq<string>): seq<Document> {
    if bodies == [] then []
    else
      var n := |bodies| - 1;
      match DocumentRoutes.Batch(bodies[n])
      case Err(_) => Log(bodies[..n])
      case Ok(docs) => Log(bodies[..n]) + docs
  }

  /** The elements of an accepted body; none of a refused one. */
  function Elements(body: string): seq<Value> {
    match DocumentRoutes.Batch(body)
    case Err(_) => []
    case Ok(_) =>
      match ParseText(body)
      case Some((_, Array(items))) => items
      case _ => []
  }

  /** The objects that the accepted bodies hold, in order. */
  function Objects(bodies: seq<string>): seq<Value> {
    if bodies == [] then [] else Objects(bodies[..|bodies| - 1]) + Elements(bodies[|bodies| - 1])
  }

  /** A document was made from an object: its bytes are that object's and come back unchanged, and it
      has the texts of its string values. */
  ghost predicate MadeFrom(d: Document, v: Value) {
    && v.Object? && Shape(v) && All(v, IsLexeme)
    && d.searchableText == DocumentRoutes.SearchableText(v.members)
    && IsJsonText(d.source, v)
    && DocumentRoutes.Batch("[" + d.source + "]") == Ok([d])
  }

  lemma {:induction false} BatchIsMade(body: string)
    requires DocumentRoutes.Batch(body).Ok?
    ensures ParseText(body).Some? && ParseText(body).value.1.Array?
    ensures var docs, items := DocumentRoutes.Batch(body).value, ParseText(body).value.1.items;
            |docs| == |items| && forall m | 0 <= m < |docs| :: MadeFrom(docs[m], items[m])
  {
    DocumentBatches.AcceptedIsStrict(body);
    DocumentBatches.FirstOffender(body);
    DocumentBatches.ParsedScalarsAreLexemes(body);
    ParsedTextIsDerived(body);
    hide DocumentRoutes.Batch, ParseText, IsJsonText, All, Shape, DocumentRoutes.SearchableText,
      DocumentBatches.StrictBatch;
    var docs, items := DocumentRoutes.Batch(body).value, ParseText(body).value.1.items;
    forall m | 0 <= m < |docs| ensures MadeFrom(docs[m], items[m]) {
      DocumentBatches.ArrayItems(items, m);
      DocumentSlices.RoundTrip(body, m);
      DocumentSlices.SourceIsItsElement(body, m);
      DocumentSlices.KeptText(body, m);
    }
  }

  /** What the last body adds. */
  lemma {:induction false} LogLast(bodies: seq<string>)
    requires bodies != []
    ensures var n := |bodies| - 1;
            match DocumentRoutes.Batch(bodies[n])
            case Err(_) => Log(bodies) == Log(bodies[..n])
            case Ok(docs) => Log(bodies) == Log(bodies[..n]) + docs
    ensures Objects(bodies) == Objects(bodies[..|bodies| - 1]) + Elements(bodies[|bodies| - 1])
  {
    hide DocumentRoutes.Batch, Elements;
  }

  lemma {:induction false} NothingLogged()
    ensures Log([]) == [] && Objects([]) == []
  {
  }

  lemma {:induction false} ElementsAreMade(body: string)
    ensures match DocumentRoutes.Batch(body)
            case Err(_) => Elements(body) == []
            case Ok(docs) =>
              |docs| == |Elements(body)| && forall m | 0 <= m < |docs| :: MadeFrom(docs[m], Elements(body)[m])
  {
    hide DocumentRoutes.Batch, ParseText, MadeFrom;
    if DocumentRoutes.Batch(body).Ok? { BatchIsMade(body); }
  }

  lemma {:induction false} LogIsMade(bodies: seq<string>)
    ensures |Log(bodies)| == |Objects(bodies)|
    ensures forall n | 0 <= n < |Log(bodies)| :: MadeFrom(Log(bodies)[n], Objects(bodies)[n])
    decreases |bodies|
  {
    hide MadeFrom, DocumentRoutes.Batch, Elements, Log, Objects;
    if bodies == [] {
      NothingLogged();
    } else {
      var n := |bodies| - 1;
      LogIsMade(bodies[..n]);
      ElementsAreMade(bodies[n]);
      LogLast(bodies);
    }
  }

  // ---- the bytes that were sent ---------------------------------------------------------------

  /** A stretch of one of the bodies. */
  datatype Place = Place(body: nat, from: nat, to: nat)

  /** The body was accepted, and these are its bytes at the place. */
  predicate SentAt(bodies: seq<string>, p: Place, source: string) {
    && p.body < |bodies| && DocumentRoutes.Batch(bodies[p.body]).Ok?
    && p.from <= p.to <= |bodies[p.body]| && bodies[p.body][p.from..p.to] == source
  }

  predicate Precedes(p: Place, q: Place) {
    p.body < q.body || (p.body == q.body && p.to < q.from)
  }

  /** The sources of the documents are sent at these places, one after another. */
  predicate SentInOrder(bodies: seq<string>, places: seq<Place>, docs: seq<Document>) {
    && |places| == |docs|
    && (forall n | 0 <= n < |docs| :: SentAt(bodies, places[n], docs[n].source))
    && (forall m, n | 0 <= m < n < |docs| :: Precedes(places[m], places[n]))
  }

  lemma {:induction false} PlacesIn(bodies: seq<string>, b: nat) returns (places: seq<Place>)
    requires b < |bodies| && DocumentRoutes.Batch(bodies[b]).Ok?
    ensures SentInOrder(bodies, places, DocumentRoutes.Batch(bodies[b]).value)
    ensures forall n | 0 <= n < |places| :: places[n].body == b
  {
    hide DocumentRoutes.Batch;
    var at := DocumentSlices.SlicesInOrder(bodies[b]);
    places := seq(|at|, m requires 0 <= m < |at| => Place(b, at[m].0, at[m].1));
  }

  /** Places among the earlier bodies are places among all. */
  lemma {:induction false} EarlierPlaces(bodies: seq<string>, n: nat, places: seq<Place>, docs: seq<Document>)
    requires n <= |bodies| && SentInOrder(bodies[..n], places, docs)
    ensures SentInOrder(bodies, places, docs) && forall m | 0 <= m < |places| :: places[m].body < n
  {
    hide DocumentRoutes.Batch;
    forall m | 0 <= m < |places| ensures SentAt(bodies, places[m], docs[m].source) && places[m].body < n {
      assert SentAt(bodies[..n], places[m], docs[m].source);
    }
  }

  lemma {:induction false} PlacesJoin(bodies: seq<string>, n: nat, ps: seq<Place>, ds: seq<Document>,
      qs: seq<Place>, es: seq<Document>)
    requires SentInOrder(bodies, ps, ds) && SentInOrder(bodies, qs, es)
    requires (forall m | 0 <= m < |ps| :: ps[m].body < n) && (forall m | 0 <= m < |qs| :: qs[m].body == n)
    ensures SentInOrder(bodies, ps + qs, ds + es)
  {
    hide SentAt;
  }

  /** Every document is kept as the bytes it was sent as, in the order sent. */
  lemma {:induction false} SourcesAreSlices(bodies: seq<string>) returns (places: seq<Place>)
    ensures SentInOrder(bodies, places, Log(bodies))
    decreases |bodies|
  {
    hide DocumentRoutes.Batch, Log, Objects, Elements, SentInOrder;
    if bodies == [] {
      NothingLogged();
      places := NoPlaces();
    } else {
      var n := |bodies| - 1;
      var before := SourcesAreSlices(bodies[..n]);
      EarlierPlaces(bodies, n, before, Log(bodies[..n]));
      LogLast(bodies);
      places := before;
      if DocumentRoutes.Batch(bodies[n]).Ok? {
        var last := PlacesIn(bodies, n);
        PlacesJoin(bodies, n, before, Log(bodies[..n]), last, DocumentRoutes.Batch(bodies[n]).value);
        places := before + last;
      }
    }
  }

  lemma {:induction false} NoPlaces() returns (places: seq<Place>)
    ensures SentInOrder([], places, [])
  {
    places := [];
  }

  // ---- lookups ------------------------------------------------------------------------------------

  /** The ids are, in increasing order, exactly those of the objects that have the word in a top-level
      string value. */
  ghost predicate FindsWord(ids: seq<DocId>, objects: seq<Value>, term: string) {
    && (forall i, j | 0 <= i < j < |ids| :: ids[i] < ids[j])
    && (forall n: DocId :: n in ids <==> n < |objects| && MentionsWord(objects[n], term))
  }

  /** Every document stands for its object. */
  ghost predicate SourcesAreTexts(docs: seq<Document>, objects: seq<Value>) {
    |docs| == |objects| && forall n | 0 <= n < |docs| :: IsJsonText(docs[n].source, objects[n])
  }

  lemma {:induction false} ScanFindsWord(bodies: seq<string>, term: string)
    requires |Log(bodies)| <= DOC_ID_LIMIT
    ensures FindsWord(Scan(Log(bodies), term), Objects(bodies), term)
  {
    LogIsMade(bodies);
    ScanIsExact(Log(bodies), term);
    hide Scan, Log, Objects, Contains, MentionsWord, MadeFrom;
    forall n: DocId
      ensures n in Scan(Log(bodies), term) <==> n < |Objects(bodies)| && MentionsWord(Objects(bodies)[n], term)
    {
      if n < |Log(bodies)| {
        MadeContains(Log(bodies)[n], Objects(bodies)[n], term);
      }
    }
  }

  /** After any bodies, a term finds exactly the documents whose JSON has that word in a top-level
      string value; and what is stored for a document is that JSON, byte for byte as it was sent. */
  lemma {:induction false} LookupFindsExactly(bodies: seq<string>, term: string) returns (places: seq<Place>)
    requires |Log(bodies)| <= DOC_ID_LIMIT
    ensures FindsWord(Scan(Log(bodies), term), Objects(bodies), term)
    ensures SourcesAreTexts(Log(bodies), Objects(bodies))
    ensures SentInOrder(bodies, places, Log(bodies))
  {
    ScanFindsWord(bodies, term);
    LogIsMade(bodies);
    hide Scan, Log, Objects, IsJsonText, SentInOrder, FindsWord, Shape, All, DocumentRoutes.Batch;
    places := SourcesAreSlices(bodies);
  }

  lemma {:induction false} MadeContains(d: Document, v: Value, term: string)
    requires MadeFrom(d, v)
    ensures Contains(d, term) <==> MentionsWord(v, term)
  {
    hide Contains, MentionsWord, DocumentRoutes.SearchableText, DocumentRoutes.Batch;
    ContainsIsMentions(v, d, term);
  }

  // ---- over a run of workers --------------------------------------------------------------------

  /** The ingests into `uid`, in lock order, carry the batches read from `bodies`. */
  ghost predicate IngestedFrom(h: seq<Workers.Entry>, uid: string, bodies: seq<string>)
    decreases |h|
  {
    if h == [] then bodies == []
    else
      var n := |h| - 1;
      if UidOf(h[n].op) == uid && h[n].op.Ingest? then
        bodies != []
        && DocumentRoutes.Batch(bodies[|bodies| - 1]) == Result.Ok(h[n].op.documents)
        && IngestedFrom(h[..n], uid, bodies[..|bodies| - 1])
      else IngestedFrom(h[..n], uid, bodies)
  }

  lemma {:induction false} EmptyHistory(uid: string)
    ensures WorkerRuns.Batches([], uid) == [] && Log([]) == []
  {
  }

  lemma {:induction false} IngestedLog(h: seq<Workers.Entry>, uid: string, bodies: seq<string>)
    requires IngestedFrom(h, uid, bodies)
    ensures WorkerRuns.Batches(h, uid) == Log(bodies)
    decreases |h|
  {
    hide DocumentRoutes.Batch, WorkerRuns.Batches, Log, Objects, Elements, WorkerRuns.TotalIndexed, Workers.Replay;
    EmptyHistory(uid);
    if h != [] {
      var n := |h| - 1;
      WorkerRuns.ReplayLast(h);
      if UidOf(h[n].op) == uid && h[n].op.Ingest? {
        LogLast(bodies);
        IngestedLog(h[..n], uid, bodies[..|bodies| - 1]);
      } else {
        IngestedLog(h[..n], uid, bodies);
      }
    }
  }

  /** Whatever the interleaving: once the lock is free, an index holds the documents of the accepted
      bodies in lock order, each byte for byte as it was sent, and a lookup in it finds exactly those
      that have the word. */
  lemma {:induction false} LookupAfterAnyRun(schedule: seq<Workers.Action>, uid: string, bodies: seq<string>,
      term: string)
    returns (places: seq<Place>)
    requires Workers.Run(schedule).Some?
    requires var s := Workers.Run(schedule).value;
             s.holder.None? && uid in s.store && |s.store[uid].log| <= DOC_ID_LIMIT
             && IngestedFrom(Workers.History(s.events), uid, bodies)
    ensures var log := Workers.Run(schedule).value.store[uid].log;
            && log == Log(bodies)
            && FindsWord(Scan(log, term), Objects(bodies), term)
            && SourcesAreTexts(log, Objects(bodies))
            && SentInOrder(bodies, places, log)
  {
    hide Workers.Run, Workers.History, Scan, FindsWord, SourcesAreTexts, SentInOrder, Objects, Log, IngestedFrom,
      WorkerRuns.Batches;
    WorkerRuns.NothingLostOrInterleaved(schedule, uid);
    IngestedLog(Workers.History(Workers.Run(schedule).value.events), uid, bodies);
    assert Workers.Run(schedule).value.store[uid].log == Log(bodies);
    places := LookupFindsExactly(bodies, term);
  }

  // ---- one client ---------------------------------------------------------------------------------

  /** The index `uid` has these documents; while it is missing, there are none. */
  predicate Holds(s: Store, uid: string, log: seq<Document>) {
    if uid in s then s[uid].log == log else log == []
  }

  lemma {:induction false} IngestAppends(before: Store, uid: string, body: string, now: int)
    ensures var batch := DocumentRoutes.Batch(body);
            batch.Ok? ==>
              var after := After(before, Workers.OpOf(Workers.IngestRequest(uid, batch.value), now));
              && uid in after
              && after[uid].log == (if uid in before then before[uid].log else []) + batch.value
  {
    hide DocumentRoutes.Batch, After;
    if DocumentRoutes.Batch(body).Ok? {
      var op := Workers.OpOf(Workers.IngestRequest(uid, DocumentRoutes.Batch(body).value), now);
      WorkerRuns.ResponsesTellTheStore(before, op);
    }
  }

  lemma {:induction false} PrefixIsShorter(bodies: seq<string>, n: nat)
    requires n <= |bodies|
    ensures |Log(bodies[..n])| <= |Log(bodies)|
    decreases |bodies| - n
  {
    hide DocumentRoutes.Batch, Log, Objects, Elements;
    if n == |bodies| {
      assert bodies[..n] == bodies;
    } else {
      PrefixIsShorter(bodies, n + 1);
      LogLast(bodies[..n + 1]);
      assert bodies[..n + 1][..n] == bodies[..n];
    }
  }

  /** A client sends the bodies one after another to an index that does not exist yet. */
  method Send(service: IngestService, uid: string, bodies: seq<string>, clock: seq<int>, elapsed: nat)
    requires service.repository.Valid() && uid !in service.repository.Contents()
    requires IsUid(uid) && |clock| == |bodies| && |Log(bodies)| <= DOC_ID_LIMIT
    modifies service.repository.Repr
    ensures service.repository.Valid()
    ensures Holds(service.repository.Contents(), uid, Log(bodies))
  {
    hide DocumentRoutes.Batch, Log, Objects, Elements, InMemoryIndexRepository.Valid,
      InMemoryIndexRepository.Contents, IsUid;
    var repository := service.repository;
    NothingLogged();
    for i := 0 to |bodies|
      invariant repository.Valid() && fresh(repository.Repr - old(repository.Repr))
      invariant Holds(repository.Contents(), uid, Log(bodies[..i]))
    {
      PrefixIsShorter(bodies, i + 1);
      LogLast(bodies[..i + 1]);
      assert bodies[..i + 1][..i] == bodies[..i];
      IngestAppends(repository.Contents(), uid, bodies[i], clock[i]);
      var response := service.AddDocumentsResponse(uid, bodies[i], clock[i], elapsed);
    }
    assert bodies[..|bodies|] == bodies;
  }

  /** A lookup, and the source of each document found. */
  method Find(documents: ExactMatchIndex, term: string) returns (ids: seq<DocId>, sources: seq<string>)
    requires documents.Valid()
    ensures ids == Scan(documents.log, term)
    ensures |sources| == |ids|
    ensures forall k | 0 <= k < |ids| :: ids[k] < |documents.log| && sources[k] == documents.log[ids[k]].source
  {
    ids := documents.DocumentsContaining(term);
    assert forall k | 0 <= k < |ids| :: ids[k] in ids;
    sources := [];
    for k := 0 to |ids|
      invariant |sources| == k
      invariant forall j | 0 <= j < k :: sources[j] == documents.log[ids[j]].source
    {
      var source := documents.Source(ids[k]);
      sources := sources + [source];
    }
  }

  /** What a client that sends `bodies` to a new server and then looks a term up gets from the server's
      own classes: the postings and the stored sources, not the specification of either. */
  method SendAndFind(uid: string, bodies: seq<string>, clock: seq<int>, elapsed: nat, term: string)
    returns (ids: seq<DocId>, sources: seq<string>, ghost places: seq<Place>)
    requires IsUid(uid) && |clock| == |bodies| && |Log(bodies)| <= DOC_ID_LIMIT
    ensures FindsWord(ids, Objects(bodies), term)
    ensures |places| == |Objects(bodies)| && forall m, n | 0 <= m < n < |places| :: Precedes(places[m], places[n])
    ensures |sources| == |ids|
    ensures forall k | 0 <= k < |ids| ::
              && ids[k] < |Objects(bodies)|
              && SentAt(bodies, places[ids[k]], sources[k])
              && IsJsonText(sources[k], Objects(bodies)[ids[k]])
  {
    hide DocumentRoutes.Batch, Log, Objects, Elements, IsUid, FindsWord, IsJsonText, SentAt, Precedes, Scan;
    var repository := new InMemoryIndexRepository();
    var service := new IngestService(repository);
    Send(service, uid, bodies, clock, elapsed);
    places := LookupFindsExactly(bodies, term);
    ids, sources := [], [];
    if uid in repository.indexes {
      ids, sources := Find(repository.indexes[uid].documents, term);
    } else {
      assert uid !in repository.Contents();
      NothingFound(term);
    }
  }

  lemma {:induction false} NothingFound(term: string)
    ensures Scan([], term) == []
  {
  }
}
