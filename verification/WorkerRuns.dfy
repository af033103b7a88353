/** What holds over whole runs, whatever the interleaving. */
module WorkerRuns {
  import opened Wrappers
  import opened Core
  import opened IndexStore
  import opened Workers

  // ---- linearizability ----------------------------------------------------------------------

  /** Where the commit at position `d` of the trace stands in the history. */
  function Position(events: seq<Event>, d: nat): nat
    requires d <= |events|
  {
    |History(events[..d])|
  }

  lemma {:induction false} HistoryIsPrefix(events: seq<Event>, d: nat)
    requires d <= |events|
    ensures History(events[..d]) <= History(events)
    decreases |events| - d
  {
    if d == |events| {
      assert events[..d] == events;
    } else {
      assert events[..d + 1][..d] == events[..d];
      HistoryIsPrefix(events, d + 1);
    }
  }

  lemma {:induction false} CommitIsInHistory(events: seq<Event>, d: nat)
    requires d < |events| && events[d].Commit?
    ensures Position(events, d) < |History(events)| && History(events)[Position(events, d)] == events[d].entry
  {
    HistoryIsPrefix(events, d + 1);
    assert events[..d + 1][..d] == events[..d];
    assert History(events[..d + 1]) == History(events[..d]) + [events[d].entry];
  }

  lemma {:induction false} LaterCommitsComeLater(events: seq<Event>, c: nat, d: nat)
    requires c < d < |events| && events[c].Commit?
    ensures Position(events, c) < Position(events, d)
  {
    CommitIsInHistory(events[..d], c);
    assert events[..d][..c] == events[..c];
  }

  lemma {:induction false} HistoryIsCommitted(events: seq<Event>, k: nat) returns (d: nat)
    requires k < |History(events)|
    ensures d < |events| && events[d] == Commit(History(events)[k]) && Position(events, d) == k
    decreases |events|
  {
    var n := |events| - 1;
    if events[n].Commit? && k == |History(events[..n])| {
      d := n;
    } else {
      d := HistoryIsCommitted(events[..n], k);
      assert events[..n][..d] == events[..d];
    }
  }

  /** Response `r` to request `id` is what the operation answers when the operations of the history
      run one at a time, in lock order. */
  ghost predicate Justified(h: seq<Entry>, id: nat, r: Response) {
    exists k :: 0 <= k < |h| && h[k].id == id && r == ResponseOf(h[k].op, AnswerTo(Replay(h[..k]), h[k].op))
  }

  lemma {:induction false} ResponseIsJustified(s: System, a: nat)
    requires Inv(s) && a < |s.events| && s.events[a].Respond?
    ensures Justified(History(s.events), s.events[a].id, s.events[a].response)
  {
    hide AnswerTo, ResponseOf, Replay, StoreOk;
    var h := History(s.events);
    var e: Entry :| Committed(s.events, a, e) && e.id == s.events[a].id
      && s.events[a].response == ResponseOf(e.op, e.answer);
    var d :| 0 <= d < a && s.events[d] == Commit(e);
    CommitIsInHistory(s.events, d);
    var k := Position(s.events, d);
    assert h[k] == e && h[k].answer == AnswerTo(Replay(h[..k]), h[k].op);
  }

  /** What a response says is true of the store its operation found and of the one it left. */
  lemma {:induction false} ResponsesTellTheStore(before: Store, op: Op)
    ensures var after, uid := After(before, op), UidOf(op);
            && uid in after
            && match ResponseOf(op, AnswerTo(before, op))
               case CreatedIndex(m) => op == Create(m) && uid !in before && after[uid] == Stored(m, [])
               case IndexExists => op.Create? && uid in before && after == before
               case Ingested(n, key) =>
                 && op.Ingest? && n == |op.documents| && key == after[uid].metadata.primaryKey
                 && after[uid].log == (if uid in before then before[uid].log else []) + op.documents
  {
    if op.Ingest? {
      hide AppendAll;
      AppendAllIs(TryEmplace(before, op.ifMissing), op.ifMissing.uid, op.documents);
    }
  }

  /** Every run is equivalent to running its operations one at a time in lock order: each response is
      the one that order gives, and whenever the lock is free the store is what that order leaves. */
  lemma {:induction false} RunsLinearize(schedule: seq<Action>)
    requires Run(schedule).Some?
    ensures var s := Run(schedule).value;
            var h := History(s.events);
            && Legal(h)
            && (s.holder.None? ==> s.store == Replay(h))
            && (forall a | 0 <= a < |s.events| && s.events[a].Respond? ::
              Justified(h, s.events[a].id, s.events[a].response))
  {
    EveryRunKeepsInv(schedule);
    var s := Run(schedule).value;
    hide Run, Legal, History, Replay, Justified, TraceOk;
    forall a | 0 <= a < |s.events| && s.events[a].Respond?
      ensures Justified(History(s.events), s.events[a].id, s.events[a].response)
    {
      ResponseIsJustified(s, a);
    }
  }

  /** The lock order respects real time: when request `i` was answered before request `j` was made,
      its operation comes first. */
  lemma {:induction false} RealTimeOrder(schedule: seq<Action>, a: nat, b: nat, c: nat) returns (d: nat)
    requires Run(schedule).Some?
    requires var events := Run(schedule).value.events;
             && a < b < |events| && c < |events|
             && events[a].Respond? && events[b].Invoke? && events[c].Commit?
             && events[c].entry.id == events[b].id
    ensures var events := Run(schedule).value.events;
            && d < a && events[d].Commit? && events[d].entry.id == events[a].id
            && Position(events, d) < Position(events, c)
  {
    hide Run, ResponseOf, Serves, MetadataOf;
    RunTrace(schedule);
    var events := Run(schedule).value.events;
    var e: Entry :| Committed(events, a, e) && e.id == events[a].id;
    d :| 0 <= d < a && events[d] == Commit(e);
    assert Stamped(events, c, events[c].entry.id, events[c].entry.op);
    var x: nat, r: nat :| r < c && StampedAt(events, x, r, events[c].entry.id, events[c].entry.op);
    assert x == b by {
      assert IdOf(events[x]) == IdOf(events[b]);
    }
    LaterCommitsComeLater(events, d, c);
  }

  lemma {:induction false} RunTrace(schedule: seq<Action>)
    requires Run(schedule).Some?
    ensures EventsOk(Run(schedule).value.events, Run(schedule).value.nextId)
  {
    EveryRunKeepsInv(schedule);
  }

  /** A request is made, stamped, committed and answered once each. */
  lemma {:induction false} OnceEach(events: seq<Event>, nextId: nat, p: nat, q: nat)
    requires EventsOk(events, nextId) && p < |events| && q < |events| && IdOf(events[p]) == IdOf(events[q])
    requires (events[p].Invoke? && events[q].Invoke?) || (events[p].Stamp? && events[q].Stamp?)
             || (events[p].Commit? && events[q].Commit?)
    ensures p == q
  {
  }

  /** Each operation of the history serves one request, made at `b`, with the one reading of the clock,
      at `r`, for both times, and is committed at `c`; the reading lies between the request and the
      commit, and no request is read for, or served, twice. */
  lemma {:induction false} EachServesOneRequest(schedule: seq<Action>, k: nat) returns (b: nat, r: nat, c: nat)
    requires Run(schedule).Some? && k < |History(Run(schedule).value.events)|
    ensures var events := Run(schedule).value.events;
            var e := History(events)[k];
            && b < r < c < |events|
            && StampedAt(events, b, r, e.id, e.op)
            && events[c] == Commit(e)
            && (forall q | 0 <= q < |events| && events[q].Stamp? && events[q].id == e.id :: q == r)
            && (forall j | 0 <= j < |History(events)| && History(events)[j].id == e.id :: j == k)
  {
    hide Run, Serves, MetadataOf;
    RunTrace(schedule);
    var events, next := Run(schedule).value.events, Run(schedule).value.nextId;
    var h := History(events);
    c := HistoryIsCommitted(events, k);
    assert Stamped(events, c, h[k].id, h[k].op);
    b, r :| r < c && StampedAt(events, b, r, h[k].id, h[k].op);
    hide EventsOk;
    forall q: nat | q < |events| && events[q].Stamp? && events[q].id == h[k].id ensures q == r {
      OnceEach(events, next, q, r);
    }
    forall j | 0 <= j < |h| && h[j].id == h[k].id ensures j == k {
      var f := HistoryIsCommitted(events, j);
      OnceEach(events, next, c, f);
    }
  }

  // ---- conservation -------------------------------------------------------------------------------

  /** The batches ingested into `uid`, one after another in lock order. */
  function Batches(h: seq<Entry>, uid: string): seq<Document> {
    if h == [] then []
    else
      var n := |h| - 1;
      if UidOf(h[n].op) == uid then Batches(h[..n], uid) + DocumentsOf(h[n].op) else Batches(h[..n], uid)
  }

  /** How many documents the ingests into `uid` were told were indexed. */
  function TotalIndexed(h: seq<Entry>, uid: string): nat {
    if h == [] then 0
    else
      var n := |h| - 1;
      TotalIndexed(h[..n], uid)
      + (if UidOf(h[n].op) == uid && h[n].op.Ingest? then ResponseOf(h[n].op, h[n].answer).indexed else 0)
  }

  /** The first operation on `uid` in lock order. */
  predicate FirstOn(h: seq<Entry>, uid: string, k: nat) {
    && k < |h| && UidOf(h[k].op) == uid
    && forall j | 0 <= j < k :: UidOf(h[j].op) != uid
  }

  /** An index exists exactly when some operation named it. */
  lemma {:induction false} ReplayedUids(h: seq<Entry>, uid: string)
    ensures uid in Replay(h) <==> exists k :: 0 <= k < |h| && UidOf(h[k].op) == uid
    decreases |h|
  {
    hide Replay;
    if h != [] {
      var n := |h| - 1;
      ReplayedUids(h[..n], uid);
      assert forall k | 0 <= k < n :: h[..n][k] == h[k];
      AfterKeeps(Replay(h[..n]), h[n].op);
      hide After;
      ReplayLast(h);
    } else {
      NothingReplayed(uid);
    }
  }

  lemma {:induction false} NothingReplayed(uid: string)
    ensures uid !in Replay([]) && Batches([], uid) == [] && TotalIndexed([], uid) == 0
  {
  }

  /** Its log is the batches ingested into it, and as long as those ingests were told. */
  lemma {:induction false} ReplayedLogs(h: seq<Entry>, uid: string)
    ensures uid in Replay(h) ==> Replay(h)[uid].log == Batches(h, uid) && |Batches(h, uid)| == TotalIndexed(h, uid)
    ensures uid !in Replay(h) ==> Batches(h, uid) == [] && TotalIndexed(h, uid) == 0
    decreases |h|
  {
    hide Replay, Batches, TotalIndexed;
    if h != [] {
      var n := |h| - 1;
      var s, op := Replay(h[..n]), h[n].op;
      ReplayedLogs(h[..n], uid);
      AfterKeeps(s, op);
      if op.Ingest? { AppendAllIs(TryEmplace(s, op.ifMissing), op.ifMissing.uid, op.documents); }
      ReplayLast(h);
    } else {
      NothingReplayed(uid);
    }
  }

  lemma {:induction false} ReplayLast(h: seq<Entry>)
    requires h != []
    ensures var n := |h| - 1;
            && Replay(h) == After(Replay(h[..n]), h[n].op)
            && forall uid ::
                 && Batches(h, uid)
                   == Batches(h[..n], uid) + (if UidOf(h[n].op) == uid then DocumentsOf(h[n].op) else [])
                 && TotalIndexed(h, uid)
                   == TotalIndexed(h[..n], uid) + (if UidOf(h[n].op) == uid then |DocumentsOf(h[n].op)| else 0)
  {
    hide After;
    var n := |h| - 1;
    forall uid
      ensures Batches(h, uid) == Batches(h[..n], uid) + (if UidOf(h[n].op) == uid then DocumentsOf(h[n].op) else [])
    {
    }
  }

  /** What the worker that holds the lock has added to `uid` so far. */
  function InProgress(s: System, uid: string): seq<Document> {
    match s.holder
    case None => []
    case Some(w) =>
      match PhaseOf(s, w)
      case Adding(_, op, _, added) =>
        if UidOf(op) == uid && added <= |DocumentsOf(op)| then DocumentsOf(op)[..added] else []
      case _ => []
  }

  /** In every reachable state an index holds the batches of the finished ingests, whole, each in its
      own order and none inside another, then what the lock holder has added so far. */
  lemma {:induction false} NothingLostOrInterleaved(schedule: seq<Action>, uid: string)
    requires Run(schedule).Some?
    ensures var s := Run(schedule).value;
            var h := History(s.events);
            && (uid in s.store ==>
                  && s.store[uid].log == Batches(h, uid) + InProgress(s, uid)
                  && |s.store[uid].log| == TotalIndexed(h, uid) + |InProgress(s, uid)|)
            && (uid !in s.store ==> Batches(h, uid) == [] && InProgress(s, uid) == [])
  {
    EveryRunKeepsInv(schedule);
    var s := Run(schedule).value;
    hide Run, Legal, TraceOk, History, Replay, Batches, TotalIndexed;
    var before := Replay(History(s.events));
    ReplayedLogs(History(s.events), uid);
    if s.holder.Some? {
      var p := PhaseOf(s, s.holder.value);
      if p.Adding? {
        AppendAllIs(TryEmplace(before, MetadataOf(p.op)), UidOf(p.op), DocumentsOf(p.op)[..p.added]);
        hide AppendAll;
      }
    }
  }

  // ---- first writer wins ----------------------------------------------------------------------

  /** Stored metadata is that of the first operation on the uid in lock order, for good. */
  lemma {:induction false} FirstMetadataStays(h: seq<Entry>, uid: string, k: nat)
    requires FirstOn(h, uid, k)
    ensures uid in Replay(h) && Replay(h)[uid].metadata == MetadataOf(h[k].op)
    decreases |h|
  {
    var n := |h| - 1;
    AfterKeeps(Replay(h[..n]), h[n].op);
    hide After;
    assert Replay(h) == After(Replay(h[..n]), h[n].op);
    if k < n {
      FirstMetadataStays(h[..n], uid, k);
    } else {
      ReplayedUids(h[..n], uid);
      assert forall j | 0 <= j < n :: h[..n][j] == h[j];
    }
  }

  /** A create succeeds exactly when its operation is the first on its uid: of all creates of one uid
      at most one succeeds, and none after an ingest. */
  lemma {:induction false} OnlyTheFirstCreates(h: seq<Entry>, k: nat)
    requires Legal(h) && k < |h| && h[k].op.Create?
    ensures h[k].answer == Created <==> FirstOn(h, UidOf(h[k].op), k)
  {
    ReplayedUids(h[..k], UidOf(h[k].op));
    assert forall j | 0 <= j < k :: h[..k][j] == h[j];
    assert h[k].answer == AnswerTo(Replay(h[..k]), h[k].op);
    hide Replay, Legal;
  }

  /** The entry was committed after its request was made and the clock was read for it, and the time
      it carries is that reading. */
  ghost predicate ReadBeforeCommit(events: seq<Event>, e: Entry) {
    exists c: nat :: c < |events| && events[c] == Commit(e) && Stamped(events, c, e.id, e.op)
  }

  /** The metadata is that of operation `k`, the first on the uid in lock order. */
  ghost predicate OfFirst(s: System, uid: string, m: IndexMetadata, k: nat) {
    var h := History(s.events);
    FirstOn(h, uid, k) && m == MetadataOf(h[k].op) && ReadBeforeCommit(s.events, h[k])
  }

  /** The metadata is that of the operation the lock holder is in the middle of, no finished operation
      having named the uid. */
  ghost predicate OfHolder(s: System, uid: string, m: IndexMetadata) {
    && (forall j | 0 <= j < |History(s.events)| :: UidOf(History(s.events)[j].op) != uid)
    && s.holder.Some?
    && var p := PhaseOf(s, s.holder.value);
       && p.Adding? && UidOf(p.op) == uid && m == MetadataOf(p.op)
       && Stamped(s.events, |s.events|, p.id, p.op)
  }

  /** In every reachable state, whoever holds the lock: the metadata stored for a uid is that of the
      first operation on it, or of the holder's when that is the first; its two times are equal and
      are a reading of the clock made after that operation's request and before its commit. And a
      second create of a uid, or one after an ingest, is refused. */
  lemma {:induction false} FirstWriterWins(schedule: seq<Action>, uid: string)
    requires Run(schedule).Some?
    ensures var s := Run(schedule).value;
            var h := History(s.events);
            && (uid in s.store ==>
                  var m := s.store[uid].metadata;
                  && m.createdAt == m.updatedAt
                  && (OfHolder(s, uid, m) || exists k: nat :: OfFirst(s, uid, m, k)))
            && (forall j, k | 0 <= j < k < |h| && UidOf(h[j].op) == UidOf(h[k].op) == uid && h[k].op.Create? ::
                  h[k].answer == AlreadyExists)
  {
    EveryRunKeepsInv(schedule);
    var s := Run(schedule).value;
    var h := History(s.events);
    if uid in s.store {
      hide Run, TraceOk, Replay, History, Legal, OfFirst, OfHolder;
      ReplayedUids(h, uid);
      if uid in Replay(h) {
        FirstCommitted(schedule, uid);
      } else {
        HolderIsFirst(s, uid);
      }
    }
    forall j, k | 0 <= j < k < |h| && UidOf(h[j].op) == UidOf(h[k].op) == uid && h[k].op.Create?
      ensures h[k].answer == AlreadyExists
    {
      assert h[k].answer == AnswerTo(Replay(h[..k]), h[k].op);
      hide Run, TraceOk, Replay, History, Legal;
      OnlyTheFirstCreates(h, k);
    }
  }

  /** What is stored for the uid, whether or not the lock is held. */
  lemma {:induction false} StoredMetadata(s: System, uid: string)
    requires StoreOk(s) && uid in s.store
    ensures var before := Replay(History(s.events));
            if uid in before then s.store[uid].metadata == before[uid].metadata
            else
              && s.holder.Some?
              && var p := PhaseOf(s, s.holder.value);
                 p.Adding? && UidOf(p.op) == uid && s.store[uid].metadata == MetadataOf(p.op)
  {
    hide Replay, History;
    if s.holder.Some? {
      var p := PhaseOf(s, s.holder.value);
      if p.Adding? {
        var before := Replay(History(s.events));
        AppendAllIs(TryEmplace(before, MetadataOf(p.op)), UidOf(p.op), DocumentsOf(p.op)[..p.added]);
        hide AppendAll;
      }
    }
  }

  lemma {:induction false} FirstCommitted(schedule: seq<Action>, uid: string)
    requires Run(schedule).Some?
    requires var s := Run(schedule).value; uid in s.store && uid in Replay(History(s.events))
    ensures var s := Run(schedule).value;
            var m := s.store[uid].metadata;
            m.createdAt == m.updatedAt && exists k: nat :: OfFirst(s, uid, m, k)
  {
    EveryRunKeepsInv(schedule);
    var s := Run(schedule).value;
    var h := History(s.events);
    hide Run, TraceOk, Replay, History, Legal;
    StoredMetadata(s, uid);
    hide StoreOk;
    ReplayedUids(h, uid);
    var k := FindFirst(h, uid);
    FirstMetadataStays(h, uid, k);
    var b, r, c := EachServesOneRequest(schedule, k);
    assert Stamped(s.events, c, h[k].id, h[k].op);
    assert OfFirst(s, uid, s.store[uid].metadata, k);
  }

  lemma {:induction false} HolderIsFirst(s: System, uid: string)
    requires Inv(s) && uid in s.store && uid !in Replay(History(s.events))
    ensures var m := s.store[uid].metadata; m.createdAt == m.updatedAt && OfHolder(s, uid, m)
  {
    StoredMetadata(s, uid);
    ReplayedUids(History(s.events), uid);
    var p := PhaseOf(s, s.holder.value);
    assert PhaseOk(s.events, s.nextId, p);
    hide StoreOk, Replay, History, Legal, EventsOk;
    var b: nat, r: nat :| r < |s.events| && StampedAt(s.events, b, r, p.id, p.op);
  }

  lemma {:induction false} FindFirst(h: seq<Entry>, uid: string) returns (k: nat)
    requires exists j :: 0 <= j < |h| && UidOf(h[j].op) == uid
    ensures FirstOn(h, uid, k)
    decreases |h|
  {
    k := 0;
    while UidOf(h[k].op) != uid
      invariant k < |h| && forall j | 0 <= j < k :: UidOf(h[j].op) != uid
      decreases |h| - k
    {
      k := k + 1;
    }
  }

  // ---- progress -------------------------------------------------------------------------------------

  /** No schedule gets stuck: the lock holder can always take its next step, and so can any worker
      that does not wait for the lock. */
  lemma {:induction false} NeverStuck(schedule: seq<Action>, w: nat)
    requires Run(schedule).Some?
    ensures var s := Run(schedule).value;
            s.holder == Some(w) || s.holder.None? || !PhaseOf(s, w).Waiting? ==>
              exists a: Action :: a.w == w && Enabled(s, a)
  {
    EveryRunKeepsInv(schedule);
    var s := Run(schedule).value;
    HolderIsInside(s);
    hide Run, Legal, TraceOk, History, Replay, StoreOk, PhaseOf;
    if s.holder == Some(w) || s.holder.None? || !PhaseOf(s, w).Waiting? {
      NextStep(s, w);
    }
  }

  lemma {:induction false} HolderIsInside(s: System)
    requires StoreOk(s)
    ensures s.holder.Some? ==> HoldsLock(PhaseOf(s, s.holder.value))
  {
    hide History, Replay, AppendAll;
  }

  lemma {:induction false} NextStep(s: System, w: nat)
    requires StoreOk(s) && (s.holder.None? || !PhaseOf(s, w).Waiting?)
    ensures exists a: Action :: a.w == w && Enabled(s, a)
  {
    hide StoreOk, PhaseOf, UidOf, DocumentsOf;
    match PhaseOf(s, w)
    case Idle => assert Enabled(s, Call(w, CreateRequest("", None)));
    case Called(_, _) => assert Enabled(s, ReadClock(w, 0));
    case Waiting(_, _) => assert Enabled(s, Acquire(w));
    case Entered(_, _) => assert Enabled(s, Emplace(w));
    case Adding(_, _, _, _) =>
      AddingIsNotStuck(s, w);
      assert Enabled(s, if Enabled(s, AddOne(w)) then AddOne(w) else Release(w));
    case Done(_, _, _) => assert Enabled(s, Reply(w));
  }

  lemma {:induction false} AddingIsNotStuck(s: System, w: nat)
    requires StoreOk(s) && PhaseOf(s, w).Adding?
    ensures Enabled(s, AddOne(w)) || Enabled(s, Release(w))
  {
    hide History, Replay, AppendAll;
    var p := PhaseOf(s, w);
    var before := Replay(History(s.events));
    assert HoldsLock(p) && StoreInProgress(s.store, before, p);
    AppendAllIs(TryEmplace(before, MetadataOf(p.op)), UidOf(p.op), DocumentsOf(p.op)[..p.added]);
  }
}
