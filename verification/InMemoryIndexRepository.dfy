/** The repository that is a map in process memory, as its methods run while they hold the lock. */
module InMemoryIndexRepositories {
  import opened Core
  import opened ExactMatchIndexes
  import opened IndexStore

  /** An index and its documents together. */
  datatype StoredIndex = StoredIndex(metadata: IndexMetadata, documents: ExactMatchIndex)

  class InMemoryIndexRepository {
    var indexes: map<string, StoredIndex>
    ghost var Repr: set<object>

    ghost predicate Valid()
      reads this, Repr
    {
      && this in Repr
      && (forall uid | uid in indexes :: indexes[uid].documents in Repr && indexes[uid].documents as object != this)
      && (forall uid | uid in indexes :: indexes[uid].documents.Valid())
      && (forall uid, other | uid in indexes && other in indexes && uid != other ::
            indexes[uid].documents != indexes[other].documents)
    }

    /** What the repository holds, as a value. */
    ghost function Contents(): Store
      requires Valid()
      reads this, Repr
    {
      map uid | uid in indexes :: Stored(indexes[uid].metadata, indexes[uid].documents.log)
    }

    constructor ()
      ensures Valid() && fresh(Repr) && Contents() == map[]
    {
      indexes, Repr := map[], {this};
    }

    /** indexes_.try_emplace() */
    method Emplace(index: IndexMetadata) returns (isNew: bool)
      requires Valid()
      modifies Repr
      ensures Valid() && fresh(Repr - old(Repr))
      ensures Contents() == TryEmplace(old(Contents()), index)
      ensures isNew <==> index.uid !in old(Contents())
      ensures index.uid in indexes
    {
      hide AgreesWithScan, ExactMatchIndex.Valid;
      isNew := index.uid !in indexes;
      if isNew {
        var documents := new ExactMatchIndex();
        assert documents !in Repr;
        assert forall uid | uid in indexes :: indexes[uid].documents in Repr && indexes[uid].documents.Valid();
        indexes := indexes[index.uid := StoredIndex(index, documents)];
        Repr := Repr + {documents};
        assert Contents().Keys == old(Contents()).Keys + {index.uid};
      }
    }

    /** add(): the check and the insert in one call. */
    method Add(index: IndexMetadata) returns (answer: Answer)
      requires Valid()
      modifies Repr
      ensures Valid() && fresh(Repr - old(Repr))
      ensures Contents() == After(old(Contents()), Create(index))
      ensures answer == AnswerTo(old(Contents()), Create(index))
    {
      var isNew := Emplace(index);
      answer := if isNew then Created else AlreadyExists;
    }

    /** add_documents(): finding or creating the index, then one document after another. */
    method AddDocuments(indexIfMissing: IndexMetadata, documents: seq<Document>) returns (answer: Answer)
      requires Valid()
      requires indexIfMissing.uid in Contents() ==> |Contents()[indexIfMissing.uid].log| + |documents| <= DOC_ID_LIMIT
      requires |documents| <= DOC_ID_LIMIT
      modifies Repr
      ensures Valid() && fresh(Repr - old(Repr))
      ensures Contents() == After(old(Contents()), Ingest(indexIfMissing, documents))
      ensures answer == AnswerTo(old(Contents()), Ingest(indexIfMissing, documents))
    {
      hide AppendAll, AgreesWithScan;
      ghost var uid := indexIfMissing.uid;
      var isNew := Emplace(indexIfMissing);
      ghost var start := Contents();
      AppendNothing(start, uid, documents);
      var stored := indexes[indexIfMissing.uid];
      for i := 0 to |documents|
        invariant Valid() && fresh(Repr - old(Repr))
        invariant uid in indexes && indexes[uid] == stored
        invariant Contents() == AppendAll(start, uid, documents[..i])
        invariant |stored.documents.log| == |start[uid].log| + i
      {
        AppendNext(start, uid, documents, i);
        AddOne(uid, stored.documents, documents[i]);
      }
      assert documents[..|documents|] == documents;
      answer := Indexed(stored.metadata);
    }

    /** stored.documents.add(): only this index changes. */
    method AddOne(ghost uid: string, index: ExactMatchIndex, document: Document)
      requires Valid() && uid in indexes && indexes[uid].documents == index && |index.log| < DOC_ID_LIMIT
      modifies index
      ensures Valid() && indexes == old(indexes) && Repr == old(Repr)
      ensures Contents() == Append(old(Contents()), uid, document)
      ensures |index.log| == old(|index.log|) + 1
    {
      hide AgreesWithScan;
      var id := index.Add(document);
      assert forall other | other in indexes && other != uid ::
        indexes[other].documents.log == old(indexes[other].documents.log);
    }
  }
}
