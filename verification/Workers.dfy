/**
 Many workers, one repository, one mutex. A worker takes a request, reads the clock, waits for the
 lock, emplaces, adds its documents one at a time, releases, and responds; the steps of different
 workers interleave in any way the lock allows.
 */
module Workers {
  import opened Wrappers
  import opened Core
  import opened IndexStore

  datatype Request =
    | CreateRequest(uid: string, primaryKey: Option<string>)
    | IngestRequest(uid: string, documents: seq<Document>)

  datatype Response =
    | CreatedIndex(index: IndexMetadata)
    | IndexExists
    | Ingested(indexed: nat, primaryKey: Option<string>)

  /** What the services make of a request and one reading of the clock. */
  function OpOf(r: Request, now: int): Op {
    match r
    case CreateRequest(uid, key) => Create(IndexMetadata(uid, key, now, now))
    case IngestRequest(uid, ds) => Ingest(IndexMetadata(uid, None, now, now), ds)
  }

  /** What the services make of the repository's answer. */
  function ResponseOf(op: Op, answer: Answer): Response {
    match op
    case Create(m) => if answer == Created then CreatedIndex(m) else IndexExists
    case Ingest(_, ds) => Ingested(|ds|, if answer.Indexed? then answer.metadata.primaryKey else None)
  }

  // ---- the system ---------------------------------------------------------------------------

  /** Where a worker is. `id` names the request it is serving. */
  datatype Phase =
    | Idle
    | Called(id: nat, request: Request)
    | Waiting(id: nat, op: Op)                                // the clock was read
    | Entered(id: nat, op: Op)                                // the lock is held
    | Adding(id: nat, op: Op, isNew: bool, added: nat)        // try_emplace is done
    | Done(id: nat, op: Op, answer: Answer)                   // the lock is released

  /** What one operation did to the repository, in lock order. */
  datatype Entry = Entry(id: nat, op: Op, answer: Answer)

  datatype Event =
    | Invoke(id: nat, request: Request)
    | Stamp(id: nat, now: int)                                // the clock was read
    | Commit(entry: Entry)
    | Respond(id: nat, response: Response)

  datatype System = System(
    store: Store,
    holder: Option<nat>,
    workers: map<nat, Phase>,
    nextId: nat,
    events: seq<Event>)

  const START := System(map[], None, map[], 0, [])

  function PhaseOf(s: System, w: nat): Phase {
    if w in s.workers then s.workers[w] else Idle
  }

  datatype Action =
    | Call(w: nat, request: Request)
    | ReadClock(w: nat, now: int)
    | Acquire(w: nat)
    | Emplace(w: nat)
    | AddOne(w: nat)
    | Release(w: nat)
    | Reply(w: nat)

  function DocumentsOf(op: Op): seq<Document> {
    match op
    case Create(_) => []
    case Ingest(_, ds) => ds
  }

  predicate Enabled(s: System, a: Action) {
    var phase := PhaseOf(s, a.w);
    match a
    case Call(_, _) => phase.Idle?
    case ReadClock(_, _) => phase.Called?
    case Acquire(_) => phase.Waiting? && s.holder.None?
    case Emplace(_) => phase.Entered?
    case AddOne(_) => phase.Adding? && phase.added < |DocumentsOf(phase.op)| && UidOf(phase.op) in s.store
    case Release(_) => phase.Adding? && phase.added >= |DocumentsOf(phase.op)| && UidOf(phase.op) in s.store
    case Reply(_) => phase.Done?
  }

  /** What the repository returns when the lock is given up. */
  function AnswerNow(s: System, op: Op, isNew: bool): Answer
    requires UidOf(op) in s.store
  {
    match op
    case Create(_) => if isNew then Created else AlreadyExists
    case Ingest(m, _) => Indexed(s.store[m.uid].metadata)
  }

  function Do(s: System, a: Action): System
    requires Enabled(s, a)
  {
    var phase := PhaseOf(s, a.w);
    match a
    case Call(w, request) =>
      s.(workers := s.workers[w := Called(s.nextId, request)], nextId := s.nextId + 1,
         events := s.events + [Invoke(s.nextId, request)])
    case ReadClock(w, now) =>
      s.(workers := s.workers[w := Waiting(phase.id, OpOf(phase.request, now))],
         events := s.events + [Stamp(phase.id, now)])
    case Acquire(w) =>
      s.(holder := Some(w), workers := s.workers[w := Entered(phase.id, phase.op)])
    case Emplace(w) =>
      s.(store := TryEmplace(s.store, MetadataOf(phase.op)),
         workers := s.workers[w := Adding(phase.id, phase.op, UidOf(phase.op) !in s.store, 0)])
    case AddOne(w) =>
      s.(store := Append(s.store, UidOf(phase.op), DocumentsOf(phase.op)[phase.added]),
         workers := s.workers[w := phase.(added := phase.added + 1)])
    case Release(w) =>
      var answer := AnswerNow(s, phase.op, phase.isNew);
      s.(holder := None, workers := s.workers[w := Done(phase.id, phase.op, answer)],
         events := s.events + [Commit(Entry(phase.id, phase.op, answer))])
    case Reply(w) =>
      s.(workers := s.workers[w := Idle],
         events := s.events + [Respond(phase.id, ResponseOf(phase.op, phase.answer))])
  }

  /** The system after a schedule, when every action of it was enabled in its turn. */
  function Run(schedule: seq<Action>): Option<System> {
    if schedule == [] then Some(START)
    else
      var n := |schedule| - 1;
      match Run(schedule[..n])
      case None => None
      case Some(s) => if Enabled(s, schedule[n]) then Some(Do(s, schedule[n])) else None
  }

  // ---- one at a time, in lock order ---------------------------------------------------------------

  /** What was done to the repository, in the order the lock was held. */
  function History(events: seq<Event>): seq<Entry> {
    if events == [] then []
    else
      var n := |events| - 1;
      if events[n].Commit? then History(events[..n]) + [events[n].entry] else History(events[..n])
  }

  /** The store after the operations of a history, each run alone. */
  function Replay(h: seq<Entry>): Store {
    if h == [] then map[] else After(Replay(h[..|h| - 1]), h[|h| - 1].op)
  }

  /** Each answer is the one the operation gets when run alone after those before it. */
  ghost predicate Legal(h: seq<Entry>) {
    forall k | 0 <= k < |h| :: h[k].answer == AnswerTo(Replay(h[..k]), h[k].op)
  }

  // ---- the invariant --------------------------------------------------------------------------

  predicate HoldsLock(p: Phase) {
    p.Entered? || p.Adding?
  }

  /** The store as the lock holder has left it so far. */
  ghost predicate StoreInProgress(store: Store, before: Store, p: Phase) {
    match p
    case Entered(_, _) => store == before
    case Adding(_, op, isNew, added) =>
      && added <= |DocumentsOf(op)|
      && (isNew <==> UidOf(op) !in before)
      && store == AppendAll(TryEmplace(before, MetadataOf(op)), UidOf(op), DocumentsOf(op)[..added])
    case _ => false
  }

  ghost predicate StoreOk(s: System) {
    var before := Replay(History(s.events));
    && (forall w: nat :: HoldsLock(PhaseOf(s, w)) ==> s.holder == Some(w))
    && match s.holder
       case None => s.store == before
       case Some(w) => StoreInProgress(s.store, before, PhaseOf(s, w))
  }

  lemma {:induction false} HistoryAppend(events: seq<Event>, e: Event)
    ensures History(events + [e]) == if e.Commit? then History(events) + [e.entry] else History(events)
  {
    assert (events + [e])[..|events|] == events;
  }

  lemma {:induction false} ReplayAppend(h: seq<Entry>, e: Entry)
    ensures Replay(h + [e]) == After(Replay(h), e.op)
    ensures Legal(h) && e.answer == AnswerTo(Replay(h), e.op) ==> Legal(h + [e])
  {
    assert (h + [e])[..|h|] == h;
    assert forall k | 0 <= k <= |h| :: (h + [e])[..k] == h[..k];
  }

  /** A finished critical section did what the operation does alone. */
  lemma {:induction false} SectionIsAtomic(store: Store, before: Store, p: Phase)
    requires StoreInProgress(store, before, p) && p.Adding? && p.added >= |DocumentsOf(p.op)|
    ensures store == After(before, p.op) && UidOf(p.op) in store
    ensures (match p.op
             case Create(_) => if p.isNew then Created else AlreadyExists
             case Ingest(m, _) => Indexed(store[m.uid].metadata)) == AnswerTo(before, p.op)
  {
    assert DocumentsOf(p.op)[..p.added] == DocumentsOf(p.op);
    AppendAllIs(TryEmplace(before, MetadataOf(p.op)), UidOf(p.op), DocumentsOf(p.op));
  }

  lemma {:induction false} ReleaseKeepsStore(s: System, a: Action)
    requires StoreOk(s) && Legal(History(s.events)) && Enabled(s, a) && a.Release?
    ensures StoreOk(Do(s, a)) && Legal(History(Do(s, a).events))
  {
    hide TryEmplace, AppendAll, Append, After, AnswerTo, Legal, Replay, History;
    var h, before := History(s.events), Replay(History(s.events));
    var phase := PhaseOf(s, a.w);
    SectionIsAtomic(s.store, before, phase);
    var e := Entry(phase.id, phase.op, AnswerNow(s, phase.op, phase.isNew));
    HistoryAppend(s.events, Commit(e));
    ReplayAppend(h, e);
    assert forall w: nat | w != a.w :: PhaseOf(Do(s, a), w) == PhaseOf(s, w);
  }

  lemma {:induction false} SectionKeepsStore(s: System, a: Action)
    requires StoreOk(s) && Enabled(s, a) && (a.Emplace? || a.AddOne?)
    ensures StoreOk(Do(s, a))
  {
    hide AppendAll, Replay, History;
    var before := Replay(History(s.events));
    var phase := PhaseOf(s, a.w);
    assert forall w: nat | w != a.w :: PhaseOf(Do(s, a), w) == PhaseOf(s, w);
    if a.AddOne? {
      AppendNext(TryEmplace(before, MetadataOf(phase.op)), UidOf(phase.op), DocumentsOf(phase.op), phase.added);
    } else {
      AppendNothing(TryEmplace(before, MetadataOf(phase.op)), UidOf(phase.op), DocumentsOf(phase.op));
    }
  }

  lemma {:induction false} OtherStepKeepsStore(s: System, a: Action)
    requires StoreOk(s) && Enabled(s, a) && !a.Release? && !a.Emplace? && !a.AddOne?
    ensures StoreOk(Do(s, a)) && History(Do(s, a).events) == History(s.events)
  {
    hide AppendAll, TryEmplace, Append, Replay, History, OpOf, ResponseOf, AnswerNow;
    var phase := PhaseOf(s, a.w);
    if a.Call? { HistoryAppend(s.events, Invoke(s.nextId, a.request)); }
    if a.ReadClock? { HistoryAppend(s.events, Stamp(phase.id, a.now)); }
    if a.Reply? { HistoryAppend(s.events, Respond(phase.id, ResponseOf(phase.op, phase.answer))); }
    assert forall w: nat | w != a.w :: PhaseOf(Do(s, a), w) == PhaseOf(s, w);
  }

  lemma {:induction false} SectionKeepsHistory(s: System, a: Action)
    requires Enabled(s, a) && (a.Emplace? || a.AddOne?)
    ensures Do(s, a).events == s.events
  {
  }

  /** Between critical sections the store is the replayed history; inside one, it is what the holder
      has done to it so far. */
  lemma {:induction false} StepKeepsStore(s: System, a: Action)
    requires StoreOk(s) && Legal(History(s.events)) && Enabled(s, a)
    ensures StoreOk(Do(s, a)) && Legal(History(Do(s, a).events))
  {
    hide StoreOk, Legal, History, Do, Enabled;
    if a.Release? {
      ReleaseKeepsStore(s, a);
    } else if a.Emplace? || a.AddOne? {
      SectionKeepsStore(s, a);
      SectionKeepsHistory(s, a);
    } else {
      OtherStepKeepsStore(s, a);
    }
  }

  // ---- requests, commits and responses ------------------------------------------------------

  function IdOf(e: Event): nat {
    match e
    case Invoke(id, _) => id
    case Stamp(id, _) => id
    case Commit(entry) => entry.id
    case Respond(id, _) => id
  }

  /** An operation carries what its request asks for, and one time for both stamps. */
  predicate Serves(op: Op, r: Request) {
    && MetadataOf(op).createdAt == MetadataOf(op).updatedAt
    && match r
       case CreateRequest(uid, key) => op.Create? && op.index.uid == uid && op.index.primaryKey == key
       case IngestRequest(uid, ds) =>
         op.Ingest? && op.ifMissing.uid == uid && op.ifMissing.primaryKey == None && op.documents == ds
  }

  /** Request `id`, made at position `b`, is what `op` serves, and the clock, read for it at position
      `r`, said the time in `op`. */
  predicate StampedAt(events: seq<Event>, b: nat, r: nat, id: nat, op: Op) {
    && b < r < |events|
    && events[b].Invoke? && events[b].id == id && Serves(op, events[b].request)
    && events[r] == Stamp(id, MetadataOf(op).createdAt)
  }

  /** Before position `n`, request `id` was made and then stamped, and `op` is what came of it. */
  ghost predicate Stamped(events: seq<Event>, n: nat, id: nat, op: Op) {
    exists b: nat, r: nat :: r < n && StampedAt(events, b, r, id, op)
  }

  /** Before position `n`, request `id` was committed with the given operation and answer. */
  ghost predicate Committed(events: seq<Event>, n: nat, e: Entry) {
    exists d :: 0 <= d < n && d < |events| && events[d] == Commit(e)
  }

  ghost predicate EventsOk(events: seq<Event>, nextId: nat) {
    && (forall k | 0 <= k < |events| :: IdOf(events[k]) < nextId)
    && (forall a, b | 0 <= a < b < |events| && IdOf(events[a]) == IdOf(events[b]) ::
          !(events[a].Invoke? && events[b].Invoke?) && !(events[a].Stamp? && events[b].Stamp?)
          && !(events[a].Commit? && events[b].Commit?) && !(events[a].Respond? && events[b].Respond?))
    && (forall c | 0 <= c < |events| && events[c].Commit? :: Stamped(events, c, events[c].entry.id, events[c].entry.op))
    && (forall a | 0 <= a < |events| && events[a].Respond? ::
          exists e: Entry ::
            Committed(events, a, e) && e.id == events[a].id && events[a].response == ResponseOf(e.op, e.answer))
  }

  /** What has happened so far to the request a worker is serving. */
  ghost predicate PhaseOk(events: seq<Event>, nextId: nat, p: Phase) {
    var n := |events|;
    match p
    case Idle => true
    case Called(id, r) => id < nextId && (exists b :: 0 <= b < n && events[b] == Invoke(id, r)) && Unread(events, id)
    case Waiting(id, op) => id < nextId && Stamped(events, n, id, op) && Pending(events, id)
    case Entered(id, op) => id < nextId && Stamped(events, n, id, op) && Pending(events, id)
    case Adding(id, op, _, _) => id < nextId && Stamped(events, n, id, op) && Pending(events, id)
    case Done(id, op, answer) => id < nextId && Committed(events, n, Entry(id, op, answer)) && Unanswered(events, id)
  }

  ghost predicate Unanswered(events: seq<Event>, id: nat) {
    forall k | 0 <= k < |events| :: events[k].Respond? ==> events[k].id != id
  }

  ghost predicate Pending(events: seq<Event>, id: nat) {
    forall k | 0 <= k < |events| :: events[k].Commit? || events[k].Respond? ==> IdOf(events[k]) != id
  }

  ghost predicate Unread(events: seq<Event>, id: nat) {
    forall k | 0 <= k < |events| :: !events[k].Invoke? ==> IdOf(events[k]) != id
  }

  predicate Distinct(s: System) {
    forall v: nat, w: nat | v in s.workers && w in s.workers && v != w && !s.workers[v].Idle? && !s.workers[w].Idle? ::
      s.workers[v].id != s.workers[w].id
  }

  ghost predicate TraceOk(s: System) {
    && EventsOk(s.events, s.nextId)
    && Distinct(s)
    && forall w | w in s.workers :: PhaseOk(s.events, s.nextId, s.workers[w])
  }

  /** A phase keeps its history when an event about another request is added. */
  lemma {:induction false} PhaseKeeps(events: seq<Event>, nextId: nat, e: Event, next: nat, p: Phase)
    requires PhaseOk(events, nextId, p) && nextId <= next
    requires !p.Idle? ==> IdOf(e) != p.id
    ensures PhaseOk(events + [e], next, p)
  {
    var after := events + [e];
    assert forall k | 0 <= k < |events| :: after[k] == events[k];
    match p
    case Idle =>
    case Called(id, r) =>
      var b :| 0 <= b < |events| && events[b] == Invoke(id, r);
      assert after[b] == Invoke(id, r);
    case Done(id, op, answer) => CommittedKeeps(events, e, Entry(id, op, answer));
    case Waiting(id, op) => StampedKeeps(events, e, |events|, id, op);
    case Entered(id, op) => StampedKeeps(events, e, |events|, id, op);
    case Adding(id, op, _, _) => StampedKeeps(events, e, |events|, id, op);
  }

  lemma {:induction false} StampedKeeps(events: seq<Event>, e: Event, n: nat, id: nat, op: Op)
    requires n <= |events| && Stamped(events, n, id, op)
    ensures Stamped(events + [e], n, id, op) && Stamped(events + [e], n + 1, id, op)
  {
    hide Serves;
    var b: nat, r: nat :| r < n && StampedAt(events, b, r, id, op);
    assert StampedAt(events + [e], b, r, id, op);
  }

  lemma {:induction false} CommittedKeeps(events: seq<Event>, e: Event, entry: Entry)
    requires Committed(events, |events|, entry)
    ensures Committed(events + [e], |events|, entry) && Committed(events + [e], |events| + 1, entry)
  {
    var d :| 0 <= d < |events| && events[d] == Commit(entry);
    assert (events + [e])[d] == events[d];
  }

  /** The event that may come next: a new request, a clock reading for one that has none, the commit
      of one that is stamped and pending, or the response to one that is committed. */
  ghost predicate Follows(events: seq<Event>, nextId: nat, e: Event, next: nat) {
    match e
    case Invoke(id, _) => id == nextId && next == nextId + 1
    case Stamp(id, _) => next == nextId && id < nextId && Unread(events, id)
    case Commit(entry) =>
      && next == nextId && entry.id < nextId
      && Stamped(events, |events|, entry.id, entry.op) && Pending(events, entry.id)
    case Respond(id, r) =>
      && next == nextId && id < nextId && Unanswered(events, id)
      && exists entry: Entry ::
        Committed(events, |events|, entry) && entry.id == id && r == ResponseOf(entry.op, entry.answer)
  }

  lemma {:induction false} CommitsKeep(events: seq<Event>, nextId: nat, e: Event, next: nat, c: nat)
    requires EventsOk(events, nextId) && Follows(events, nextId, e, next)
    requires c <= |events| && (events + [e])[c].Commit?
    ensures var after := events + [e]; Stamped(after, c, after[c].entry.id, after[c].entry.op)
  {
    hide Serves, ResponseOf;
    var x := (events + [e])[c];
    assert c < |events| ==> x == events[c];
    StampedKeeps(events, e, c, x.entry.id, x.entry.op);
  }

  lemma {:induction false} ResponsesKeep(events: seq<Event>, nextId: nat, e: Event, next: nat, a: nat)
    requires EventsOk(events, nextId) && Follows(events, nextId, e, next)
    requires a <= |events| && (events + [e])[a].Respond?
    ensures var after := events + [e];
            exists x: Entry ::
              Committed(after, a, x) && x.id == after[a].id && after[a].response == ResponseOf(x.op, x.answer)
  {
    hide Serves, ResponseOf;
    var after := events + [e];
    assert a < |events| ==> after[a] == events[a];
    var x: Entry :| Committed(events, a, x) && x.id == after[a].id && after[a].response == ResponseOf(x.op, x.answer);
    var d :| 0 <= d < a && d < |events| && events[d] == Commit(x);
    assert after[d] == Commit(x);
    assert Committed(after, a, x);
  }

  lemma {:induction false} EventKeeps(events: seq<Event>, nextId: nat, e: Event, next: nat)
    requires EventsOk(events, nextId) && Follows(events, nextId, e, next)
    ensures EventsOk(events + [e], next)
  {
    hide Serves, ResponseOf, Stamped, Committed;
    var after := events + [e];
    assert forall k | 0 <= k < |events| :: after[k] == events[k];
    forall c | 0 <= c < |after| && after[c].Commit? ensures Stamped(after, c, after[c].entry.id, after[c].entry.op) {
      CommitsKeep(events, nextId, e, next, c);
    }
    forall a | 0 <= a < |after| && after[a].Respond?
      ensures exists x: Entry ::
              Committed(after, a, x) && x.id == after[a].id && after[a].response == ResponseOf(x.op, x.answer)
    {
      ResponsesKeep(events, nextId, e, next, a);
    }
  }

  lemma {:induction false} OthersKeep(s: System, w: nat, e: Event, next: nat)
    requires TraceOk(s) && s.nextId <= next
    requires w in s.workers && !s.workers[w].Idle? ==> IdOf(e) == s.workers[w].id
    requires w !in s.workers || s.workers[w].Idle? ==> IdOf(e) == s.nextId
    ensures forall v | v in s.workers && v != w :: PhaseOk(s.events + [e], next, s.workers[v])
  {
    forall v | v in s.workers && v != w ensures PhaseOk(s.events + [e], next, s.workers[v]) {
      PhaseKeeps(s.events, s.nextId, e, next, s.workers[v]);
    }
  }

  lemma {:induction false} CallKeepsTrace(s: System, a: Action)
    requires TraceOk(s) && Enabled(s, a) && a.Call?
    ensures TraceOk(Do(s, a))
  {
    hide EventsOk, PhaseOk;
    var e := Invoke(s.nextId, a.request);
    OthersKeep(s, a.w, e, s.nextId + 1);
    EventKeeps(s.events, s.nextId, e, s.nextId + 1);
    NewCall(s.events, s.nextId, a.request);
    DistinctIds(s);
  }

  lemma {:induction false} NewCall(events: seq<Event>, nextId: nat, r: Request)
    requires EventsOk(events, nextId)
    ensures PhaseOk(events + [Invoke(nextId, r)], nextId + 1, Called(nextId, r))
  {
    var after := events + [Invoke(nextId, r)];
    assert after[|events|] == Invoke(nextId, r);
    assert forall k | 0 <= k < |events| :: after[k] == events[k];
  }

  lemma {:induction false} DistinctIds(s: System)
    requires TraceOk(s)
    ensures forall w | w in s.workers && !s.workers[w].Idle? :: s.workers[w].id < s.nextId
  {
  }

  lemma {:induction false} ReleaseKeepsTrace(s: System, a: Action)
    requires TraceOk(s) && Enabled(s, a) && a.Release?
    ensures TraceOk(Do(s, a))
  {
    var p := PhaseOf(s, a.w);
    var entry := Entry(p.id, p.op, AnswerNow(s, p.op, p.isNew));
    assert PhaseOk(s.events, s.nextId, p);
    assert Follows(s.events, s.nextId, Commit(entry), s.nextId);
    NewCommit(s.events, s.nextId, entry);
    hide EventsOk, PhaseOk, Follows, AnswerNow;
    OthersKeep(s, a.w, Commit(entry), s.nextId);
    EventKeeps(s.events, s.nextId, Commit(entry), s.nextId);
  }

  lemma {:induction false} NewCommit(events: seq<Event>, nextId: nat, e: Entry)
    requires EventsOk(events, nextId) && Pending(events, e.id) && e.id < nextId
    ensures PhaseOk(events + [Commit(e)], nextId, Done(e.id, e.op, e.answer))
  {
    var after := events + [Commit(e)];
    assert after[|events|] == Commit(e);
    assert forall k | 0 <= k < |events| :: after[k] == events[k];
  }

  lemma {:induction false} ReplyKeepsTrace(s: System, a: Action)
    requires TraceOk(s) && Enabled(s, a) && a.Reply?
    ensures TraceOk(Do(s, a))
  {
    var p := PhaseOf(s, a.w);
    var e := Respond(p.id, ResponseOf(p.op, p.answer));
    assert PhaseOk(s.events, s.nextId, p);
    assert Committed(s.events, |s.events|, Entry(p.id, p.op, p.answer));
    hide EventsOk, PhaseOk, ResponseOf;
    OthersKeep(s, a.w, e, s.nextId);
    EventKeeps(s.events, s.nextId, e, s.nextId);
  }

  lemma {:induction false} ReadClockKeepsTrace(s: System, a: Action)
    requires TraceOk(s) && Enabled(s, a) && a.ReadClock?
    ensures TraceOk(Do(s, a))
  {
    var p := PhaseOf(s, a.w);
    var e := Stamp(p.id, a.now);
    assert PhaseOk(s.events, s.nextId, p);
    NewStamp(s.events, s.nextId, p.id, p.request, a.now);
    hide EventsOk, PhaseOk, OpOf;
    OthersKeep(s, a.w, e, s.nextId);
    EventKeeps(s.events, s.nextId, e, s.nextId);
  }

  lemma {:induction false} NewStamp(events: seq<Event>, nextId: nat, id: nat, r: Request, now: int)
    requires PhaseOk(events, nextId, Called(id, r))
    ensures PhaseOk(events + [Stamp(id, now)], nextId, Waiting(id, OpOf(r, now)))
  {
    var after := events + [Stamp(id, now)];
    var b: nat :| b < |events| && events[b] == Invoke(id, r);
    assert after[b] == events[b];
    assert StampedAt(after, b, |events|, id, OpOf(r, now));
    assert forall k | 0 <= k < |events| :: after[k] == events[k];
  }

  lemma {:induction false} QuietStepKeepsTrace(s: System, a: Action)
    requires TraceOk(s) && Enabled(s, a) && (a.Acquire? || a.Emplace? || a.AddOne?)
    ensures TraceOk(Do(s, a))
  {
    hide EventsOk, TryEmplace, Append;
    assert PhaseOk(s.events, s.nextId, PhaseOf(s, a.w));
  }

  lemma {:induction false} StepKeepsTrace(s: System, a: Action)
    requires TraceOk(s) && Enabled(s, a)
    ensures TraceOk(Do(s, a))
  {
    hide TraceOk, Do, Enabled;
    if a.Call? {
      CallKeepsTrace(s, a);
    } else if a.ReadClock? {
      ReadClockKeepsTrace(s, a);
    } else if a.Release? {
      ReleaseKeepsTrace(s, a);
    } else if a.Reply? {
      ReplyKeepsTrace(s, a);
    } else {
      QuietStepKeepsTrace(s, a);
    }
  }

  /** What every schedule keeps. */
  ghost predicate Inv(s: System) {
    StoreOk(s) && Legal(History(s.events)) && TraceOk(s)
  }

  lemma {:induction false} EveryRunKeepsInv(schedule: seq<Action>)
    requires Run(schedule).Some?
    ensures Inv(Run(schedule).value)
    decreases |schedule|
  {
    if schedule != [] {
      var n := |schedule| - 1;
      EveryRunKeepsInv(schedule[..n]);
      var s := Run(schedule[..n]).value;
      hide StoreOk, Legal, TraceOk, Do, Enabled, History;
      StepKeepsStore(s, schedule[n]);
      StepKeepsTrace(s, schedule[n]);
    }
  }
}
