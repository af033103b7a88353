/** The index repository as a value: what each operation does when it runs alone. */
module IndexStore {
  import opened Core

  /** An index: its metadata, and every document ever added to it, in order. */
  datatype Stored = Stored(metadata: IndexMetadata, log: seq<Document>)

  type Store = map<string, Stored>

  /** The two operations of the IndexRepository port. */
  datatype Op =
    | Create(index: IndexMetadata)
    | Ingest(ifMissing: IndexMetadata, documents: seq<Document>)

  datatype Answer =
    | Created
    | AlreadyExists
    | Indexed(metadata: IndexMetadata)

  function MetadataOf(op: Op): IndexMetadata {
    match op
    case Create(m) => m
    case Ingest(m, _) => m
  }

  function UidOf(op: Op): string {
    MetadataOf(op).uid
  }

  /** map::try_emplace() */
  function TryEmplace(s: Store, m: IndexMetadata): (r: Store)
    ensures m.uid in r
  {
    if m.uid in s then s else s[m.uid := Stored(m, [])]
  }

  /** One document more at the end of an index. */
  function Append(s: Store, uid: string, d: Document): (r: Store)
    requires uid in s
    ensures r.Keys == s.Keys
  {
    s[uid := s[uid].(log := s[uid].log + [d])]
  }

  function AppendAll(s: Store, uid: string, ds: seq<Document>): (r: Store)
    requires uid in s
    ensures r.Keys == s.Keys
  {
    if ds == [] then s else Append(AppendAll(s, uid, ds[..|ds| - 1]), uid, ds[|ds| - 1])
  }

  /** The store after an operation that nothing interrupts. */
  function After(s: Store, op: Op): Store {
    match op
    case Create(m) => TryEmplace(s, m)
    case Ingest(m, ds) => AppendAll(TryEmplace(s, m), m.uid, ds)
  }

  function AnswerTo(s: Store, op: Op): Answer {
    match op
    case Create(m) => if m.uid in s then AlreadyExists else Created
    case Ingest(m, _) => Indexed(TryEmplace(s, m)[m.uid].metadata)
  }

  /** A batch lands whole, at the end of its index, and nowhere else. */
  lemma {:induction false} AppendAllIs(s: Store, uid: string, ds: seq<Document>)
    requires uid in s
    ensures AppendAll(s, uid, ds) == s[uid := s[uid].(log := s[uid].log + ds)]
    decreases |ds|
  {
    if ds == [] {
      assert s[uid].log + [] == s[uid].log;
    } else {
      var n := |ds| - 1;
      AppendAllIs(s, uid, ds[..n]);
      assert s[uid].log + ds[..n] + [ds[n]] == s[uid].log + ds;
    }
  }

  lemma {:induction false} AppendNothing(s: Store, uid: string, ds: seq<Document>)
    requires uid in s
    ensures AppendAll(s, uid, ds[..0]) == s
  {
  }

  lemma {:induction false} AppendNext(s: Store, uid: string, ds: seq<Document>, i: nat)
    requires uid in s && i < |ds|
    ensures AppendAll(s, uid, ds[..i + 1]) == Append(AppendAll(s, uid, ds[..i]), uid, ds[i])
  {
    assert ds[..i + 1][..i] == ds[..i];
  }

  /** What an operation leaves alone: other indexes, stored metadata, and the documents before. */
  lemma {:induction false} AfterKeeps(s: Store, op: Op)
    ensures var r := After(s, op);
            && r.Keys == s.Keys + {UidOf(op)}
            && (forall uid | uid in s :: r[uid].metadata == s[uid].metadata && s[uid].log <= r[uid].log)
            && (forall uid | uid in s && uid != UidOf(op) :: r[uid] == s[uid])
            && (UidOf(op) !in s ==> r[UidOf(op)].metadata == MetadataOf(op))
  {
    if op.Ingest? { AppendAllIs(TryEmplace(s, op.ifMissing), op.ifMissing.uid, op.documents); }
  }
}
