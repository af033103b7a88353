/** The services and the routes in front of the repository, as one request sees them. */
module Services {
  import opened Wrappers
  import opened Core
  import opened Utf8
  import opened ExactMatchIndexes
  import opened IndexStore
  import opened InMemoryIndexRepositories
  import opened Workers
  import opened IndexBodies
  import opened IngestBodies
  import DocumentRoutes
  import IndexRoutes
  import JsonGrammar
  import JsonTimestamp
  import WorkerRuns

  const OK_STATUS: nat := 200
  const CREATED_STATUS: nat := 201

  /** A successful response. */
  datatype HttpResponse = HttpResponse(status: nat, body: string)

  /** Every stored primary key is UTF-8, as the printer requires: it came through the parser. */
  ghost predicate KeysAreText(s: Store) {
    forall uid | uid in s && s[uid].metadata.primaryKey.Some? :: ValidUtf8(s[uid].metadata.primaryKey.value)
  }

  lemma {:induction false} KeysStayText(before: Store, op: Op)
    requires KeysAreText(before)
    requires MetadataOf(op).primaryKey.Some? ==> ValidUtf8(MetadataOf(op).primaryKey.value)
    ensures KeysAreText(After(before, op))
  {
    hide ValidUtf8;
    if op.Ingest? {
      AppendAllIs(TryEmplace(before, op.ifMissing), op.ifMissing.uid, op.documents);
      hide AppendAll;
    }
  }

  class IndexService {
    const repository: InMemoryIndexRepository

    constructor (repository: InMemoryIndexRepository)
      ensures this.repository == repository
    {
      this.repository := repository;
    }

    /** create_index(), with one reading `now` of the clock. */
    method CreateIndex(uid: string, primaryKey: Option<string>, now: int) returns (r: Response)
      requires repository.Valid()
      modifies repository.Repr
      ensures repository.Valid() && fresh(repository.Repr - old(repository.Repr))
      ensures var op := OpOf(CreateRequest(uid, primaryKey), now);
              && repository.Contents() == After(old(repository.Contents()), op)
              && r == ResponseOf(op, AnswerTo(old(repository.Contents()), op))
    {
      var index := IndexMetadata(uid, primaryKey, now, now);
      var added := repository.Add(index);
      r := if added == Created then CreatedIndex(index) else IndexExists;
    }
  }

  class IngestService {
    const repository: InMemoryIndexRepository

    constructor (repository: InMemoryIndexRepository)
      ensures this.repository == repository
    {
      this.repository := repository;
    }

    /** Fewer than 2^32 documents, as the index assumes. */
    ghost predicate HasRoom(uid: string, n: nat)
      requires repository.Valid()
      reads this, repository, repository.Repr
    {
      n + (if uid in repository.Contents() then |repository.Contents()[uid].log| else 0) <= DOC_ID_LIMIT
    }

    /** add_documents(), with one reading `now` of the clock. */
    method AddDocuments(uid: string, documents: seq<Document>, now: int) returns (r: Response)
      requires repository.Valid() && HasRoom(uid, |documents|)
      modifies repository.Repr
      ensures repository.Valid() && fresh(repository.Repr - old(repository.Repr))
      ensures var op := OpOf(IngestRequest(uid, documents), now);
              && repository.Contents() == After(old(repository.Contents()), op)
              && r == ResponseOf(op, AnswerTo(old(repository.Contents()), op))
    {
      var batchSize := |documents|;
      var indexIfMissing := IndexMetadata(uid, None, now, now);
      var stored := repository.AddDocuments(indexIfMissing, documents);
      r := Ingested(batchSize, stored.metadata.primaryKey);
    }

    /** add_documents_response(): the uid is checked before the body is read, and a request that is
        refused changes nothing. What the client reads in the response is how many documents it sent,
        how many of them were indexed, and the primary key of the index. */
    method AddDocumentsResponse(uid: string, body: string, now: int, elapsed: nat) returns (r: Option<HttpResponse>)
      requires repository.Valid()
      requires DocumentRoutes.Batch(body).Ok? ==> HasRoom(uid, |DocumentRoutes.Batch(body).value|)
      modifies repository.Repr
      ensures repository.Valid() && fresh(repository.Repr - old(repository.Repr))
      ensures r.Some? <==> IsUid(uid) && DocumentRoutes.Batch(body).Ok?
      ensures r.None? ==> repository.Contents() == old(repository.Contents())
      ensures r.Some? ==>
                var docs := DocumentRoutes.Batch(body).value;
                && repository.Contents() == After(old(repository.Contents()), OpOf(IngestRequest(uid, docs), now))
                && uid in repository.Contents()
                && r.value.status == 200
                && (old(KeysAreText(repository.Contents())) ==>
                      ParseIngest(r.value.body)
                      == Some(IngestResult(|docs|, |docs|, repository.Contents()[uid].metadata.primaryKey, elapsed)))
      ensures old(KeysAreText(repository.Contents())) ==> KeysAreText(repository.Contents())
    {
      hide DocumentRoutes.Batch, JsonGrammar.ParseText, After, AnswerTo, OpOf, ResponseOf, ParseIngest, ValidUtf8,
        KeysAreText, InMemoryIndexRepository.Valid, InMemoryIndexRepository.Contents, HasRoom, IsUid;
      if !IsUid(uid) {
        return None;
      }
      AcceptedParses(body);
      var documents := DocumentRoutes.ParseDocumentBatch(body);
      if documents.Err? {
        return None;
      }
      var received := |documents.value|;
      IngestTellsTheStore(repository.Contents(), uid, documents.value, now);
      if KeysAreText(repository.Contents()) {
        IngestKeepsText(repository.Contents(), uid, documents.value, now);
      }
      var outcome := AddDocuments(uid, documents.value, now);
      var text := IngestText(received, outcome.indexed, outcome.primaryKey, elapsed);
      r := Some(HttpResponse(OK_STATUS, text));
    }
  }

  /** The response to an ingest tells the batch size and the key of the index it leaves. */
  lemma {:induction false} IngestTellsTheStore(before: Store, uid: string, documents: seq<Document>, now: int)
    ensures var op := OpOf(IngestRequest(uid, documents), now);
            var r := ResponseOf(op, AnswerTo(before, op));
            uid in After(before, op) && r == Ingested(|documents|, After(before, op)[uid].metadata.primaryKey)
  {
    WorkerRuns.ResponsesTellTheStore(before, OpOf(IngestRequest(uid, documents), now));
  }

  lemma {:induction false} IngestKeepsText(before: Store, uid: string, documents: seq<Document>, now: int)
    requires KeysAreText(before)
    ensures var after := After(before, OpOf(IngestRequest(uid, documents), now));
            && KeysAreText(after) && uid in after
            && (after[uid].metadata.primaryKey.Some? ==> ValidUtf8(after[uid].metadata.primaryKey.value))
  {
    var op := OpOf(IngestRequest(uid, documents), now);
    hide After, ValidUtf8;
    KeysStayText(before, op);
    WorkerRuns.ResponsesTellTheStore(before, op);
  }

  /** ingest_result_json(), as its reader sees it. */
  method IngestText(received: nat, indexed: nat, primaryKey: Option<string>, elapsed: nat) returns (text: string)
    ensures (primaryKey.Some? ==> ValidUtf8(primaryKey.value)) ==>
              ParseIngest(text) == Some(IngestResult(received, indexed, primaryKey, elapsed))
  {
    hide ParseIngest, ValidUtf8, ObjectText, IngestMembers;
    text := IngestResultJson(received, indexed, primaryKey, elapsed);
    if primaryKey.Some? ==> ValidUtf8(primaryKey.value) {
      IngestParses(IngestResult(received, indexed, primaryKey, elapsed));
    }
  }

  /** An accepted body parses. */
  lemma {:induction false} AcceptedParses(body: string)
    ensures DocumentRoutes.Batch(body).Ok? ==> JsonGrammar.ParseText(body).Some?
  {
  }

  /** create_index_response(): the index is there afterwards exactly as the client reads it in the
      response; a request that is refused, or names an index that exists, changes nothing. */
  method CreateIndexResponse(service: IndexService, body: string, now: int) returns (r: Option<HttpResponse>)
    requires service.repository.Valid() && JsonTimestamp.InRange(now)
    modifies service.repository.Repr
    ensures service.repository.Valid() && fresh(service.repository.Repr - old(service.repository.Repr))
    ensures r.Some? <==>
              IndexRoutes.Request(body).Ok?
                && IndexRoutes.Request(body).value.uid !in old(service.repository.Contents())
    ensures r.None? ==> service.repository.Contents() == old(service.repository.Contents())
    ensures r.Some? ==>
              var command := IndexRoutes.Request(body).value;
              var index := IndexMetadata(command.uid, command.primaryKey, now, now);
              && service.repository.Contents() == old(service.repository.Contents())[command.uid := Stored(index, [])]
              && r.value.status == 201
              && ParseIndex(r.value.body) == Some(index)
    ensures old(KeysAreText(service.repository.Contents())) ==> KeysAreText(service.repository.Contents())
  {
    RequestParses(body);
    hide IndexRoutes.Request, JsonGrammar.ParseText, ParseIndex, IndexText, Writable, KeysAreText,
      JsonTimestamp.InRange, InMemoryIndexRepository.Valid, InMemoryIndexRepository.Contents;
    var command := IndexRoutes.ParseCreateIndexRequest(body);
    if command.Err? {
      return None;
    }
    var response := service.CreateIndex(command.value.uid, command.value.primaryKey, now);
    if response.IndexExists? {
      return None;
    }
    RequestIsWritable(body, command.value, now);
    IndexParses(response.index);
    CreateKeepsText(old(service.repository.Contents()), response.index);
    var text := IndexJson(response.index);
    r := Some(HttpResponse(CREATED_STATUS, text));
  }

  lemma {:induction false} CreateKeepsText(before: Store, m: IndexMetadata)
    requires Writable(m)
    ensures KeysAreText(before) ==> KeysAreText(After(before, Create(m)))
  {
    if KeysAreText(before) { KeysStayText(before, Create(m)); }
  }

  lemma {:induction false} RequestParses(body: string)
    ensures IndexRoutes.Request(body).Ok? ==> JsonGrammar.ParseText(body).Some?
  {
  }
}
