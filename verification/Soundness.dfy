/** The invariant of a transaction, and why the steps of a write keep it. */
module Soundness {
  import opened ByteStrings
  import opened Json
  import opened Schemas
  import opened Store
  import opened Scan
  import opened Integrity
  import opened Documents
  import opened ChangeLog

  lemma CheckIgnoresOwn(cat: Catalog, t: Entries, did: DocId, n: Bytes, doc: Json)
    requires GoodCatalog(cat) && did.coll in cat && n in cat[did.coll].indexes
    ensures IndexAccepts(cat, t, did, n, doc) <==> IndexAccepts(cat, t - {Slot(did, n)}, did, n, doc)
  {
    var m := t - {Slot(did, n)};
    UniqueClearStable(cat, t, m, did, n, doc);
    if Parent(cat, did.coll, doc, n).Some? { ParentElsewhere(cat, did, doc, n); }
  }

  lemma AcceptedParent(cat: Catalog, t: Entries, did: DocId, n: Bytes, doc: Json)
    requires GoodCatalog(cat) && did.coll in cat && n in cat[did.coll].indexes && IndexAccepts(cat, t, did, n, doc)
    ensures var p := Parent(cat, did.coll, doc, n); p.Some? ==> p.value.coll in cat && Prim(cat, p.value) in t
  {
    if Parent(cat, did.coll, doc, n).Some? { ParentElsewhere(cat, did, doc, n); }
  }

  /** Every name the existence cache has learnt is the written document or one that was found. */
  ghost predicate CacheLearned(cat: Catalog, docs0: set<Bytes>, docs: set<Bytes>, t: Entries, did: DocId) {
    forall x: DocId {:trigger CacheKey(x)} :: x.coll in cat && CacheKey(x) in docs ==>
        CacheKey(x) in docs0 || x == did || Prim(cat, x) in t
  }

  lemma CacheLearnsMore(cat: Catalog, docs0: set<Bytes>, docs: set<Bytes>, docs': set<Bytes>, t: Entries, did: DocId,
        p: Option<DocId>)
    requires GoodCatalog(cat) && did.coll in cat && CacheLearned(cat, docs0, docs, t, did)
    requires p.Some? ==> p.value.coll in cat && Prim(cat, p.value) in t
    requires docs' <= docs + {CacheKey(did)} + if p.Some? then {CacheKey(p.value)} else {}
    ensures CacheLearned(cat, docs0, docs', t, did)
  {
    hide GoodCatalog, CacheKey;
    forall x: DocId | x.coll in cat && CacheKey(x) in docs'
      ensures CacheKey(x) in docs0 || x == did || Prim(cat, x) in t
    {
      if CacheKey(x) == CacheKey(did) { CacheKeyInjective(cat, x, did); }
      if p.Some? && CacheKey(x) == CacheKey(p.value) { CacheKeyInjective(cat, x, p.value); }
    }
  }

  /** The collections a document refers to are not in the middle of a write. */
  ghost predicate ReferencesReady(cat: Catalog, docs: set<Bytes>, t: Entries, did: DocId, doc: Json)
    requires did.coll in cat
  {
    forall n {:trigger Parent(cat, did.coll, doc, n)} ::
      n in cat[did.coll].indexes && Parent(cat, did.coll, doc, n).Some? ==>
      ReferenceReady(cat, docs, t, Parent(cat, did.coll, doc, n).value)
  }

  ghost predicate ReferenceReady(cat: Catalog, docs: set<Bytes>, t: Entries, p: DocId) {
    && p.coll in cat && CollectionReady(cat, t, p.coll)
    && (CacheKey(p) in docs ==> Prim(cat, p) in t)
  }

  lemma ReferenceStaysReady(cat: Catalog, docs0: set<Bytes>, docs: set<Bytes>, t: Entries, did: DocId, after: Json,
        doc: Json, names: set<Bytes>, p: DocId)
    requires GoodCatalog(cat) && did.coll in cat && ReferenceReady(cat, docs0, t, p) && p.coll != did.coll
    requires CacheLearned(cat, docs0, docs, t, did)
    ensures ReferenceReady(cat, docs, Rewritten(cat, t, did, after, doc, names), p)
  {
    hide GoodCatalog, CollectionReady;
    ReadyStable(cat, t, Rewritten(cat, t, did, after, doc, names), p.coll);
  }

  lemma StillReady(cat: Catalog, docs0: set<Bytes>, docs: set<Bytes>, t: Entries, did: DocId, after: Json, doc: Json,
        names: set<Bytes>)
    requires GoodCatalog(cat) && did.coll in cat && ReferencesReady(cat, docs0, t, did, doc)
    requires CacheLearned(cat, docs0, docs, t, did)
    ensures ReferencesReady(cat, docs, Rewritten(cat, t, did, after, doc, names), did, doc)
  {
    hide GoodCatalog, CacheLearned, ReferenceReady, Rewritten, Parent;
    var m := Rewritten(cat, t, did, after, doc, names);
    forall n | n in cat[did.coll].indexes && Parent(cat, did.coll, doc, n).Some?
      ensures ReferenceReady(cat, docs, m, Parent(cat, did.coll, doc, n).value)
    {
      ParentElsewhere(cat, did, doc, n);
      ReferenceStaysReady(cat, docs0, docs, t, did, after, doc, names, Parent(cat, did.coll, doc, n).value);
    }
  }

  /** The collections a document refers to have no deletion under way. */
  ghost predicate ReferencesSettled(cat: Catalog, pending: Docs, did: DocId, doc: Json)
    requires did.coll in cat
  {
    forall n {:trigger Parent(cat, did.coll, doc, n)} ::
      n in cat[did.coll].indexes && Parent(cat, did.coll, doc, n).Some? ==>
      NoneIn(pending, Parent(cat, did.coll, doc, n).value.coll)
  }

  lemma ReferencesAreReady(cat: Catalog, docs: set<Bytes>, t: Entries, pending: Docs, did: DocId, doc: Json)
    requires GoodCatalog(cat) && did.coll in cat && Complete(cat, t, pending) && CacheSound(cat, docs, t, pending)
    requires GoodReferences(cat, did, doc) && ReferencesSettled(cat, pending, did, doc)
    ensures ReferencesReady(cat, docs, t, did, doc)
  {
    forall n | n in cat[did.coll].indexes && Parent(cat, did.coll, doc, n).Some?
      ensures ReferenceReady(cat, docs, t, Parent(cat, did.coll, doc, n).value)
    {
      var p := Parent(cat, did.coll, doc, n).value;
      ParentElsewhere(cat, did, doc, n);
      ReadyWhenComplete(cat, t, pending, p.coll);
      assert p !in pending;
      assert CacheKey(p) in docs ==> Prim(cat, p) in t;
    }
  }

  lemma CacheSoundAfterWrite(cat: Catalog, docs0: set<Bytes>, docs: set<Bytes>, t: Entries, m: Entries, pending: Docs,
        did: DocId)
    requires did.coll in cat && CacheSound(cat, docs0, t, pending) && CacheLearned(cat, docs0, docs, t, did)
    requires Prim(cat, did) in m && forall s :: s in t ==> s in m
    ensures CacheSound(cat, docs, m, pending)
  {
    hide CacheKey;
  }

  /** The log collection has no constraint a record could violate. */
  lemma LogAccepts(cat: Catalog, t: Entries, did: DocId, doc: Json)
    requires GoodCatalog(cat) && did.coll == CDC_COLLECTION
    ensures Accepts(cat, t, did, doc) && GoodReferences(cat, did, doc)
    ensures forall n :: n in cat[did.coll].indexes ==> Parent(cat, did.coll, doc, n) == None
  {
    var c := cat[CDC_COLLECTION];
    assert PlainLogCollection(c) && c.WellFormed();
    forall n | n in c.indexes ensures c.indexes[n].foreign == None && (n in c.Secondary() ==> !c.indexes[n].unique) {
      assert c.GoodIndex(n);
    }
    hide GoodCatalog, Schema.WellFormed, PlainLogCollection;
    forall n | n in cat[did.coll].indexes
      ensures Parent(cat, did.coll, doc, n) == None && ReferenceTyped(cat, did.coll, doc, n)
    {
      assert c.indexes[n].foreign == None;
    }
  }

  lemma LogLeavesData(cat: Catalog, t: Entries, m: Entries, did: DocId, doc: Json)
    requires did.coll == CDC_COLLECTION && DocsOf(cat, m) == DocsOf(cat, t)[did := doc]
    ensures Data(cat, m) == Data(cat, t)
  {
  }

  /** The document a record is about. */
  function Subject(r: CDC): DocId {
    DocId(r.collection, r.documentID)
  }

  /** One record more: it names the command and carries the difference between the command's document
      and the document before. */
  ghost predicate Logs(log0: seq<CDC>, log: seq<CDC>, action: Action, did: DocId, doc: Json, before: Option<Json>,
      timestamp: int, metadata: Json)
  {
    && |log| == |log0| + 1 && log[..|log0|] == log0
    && var r := log[|log0|];
    && r.collection == did.coll && r.documentID == did.id && r.action == action
    && r.timestamp == timestamp && r.metadata == metadata
    && IsDiff(doc, before.GetOr(EMPTY_OBJECT), r.diff)
  }

  /** The record is a document of the log collection. */
  ghost predicate RecordStored(cat: Catalog, t: Entries, r: CDC) {
    && CDC_COLLECTION in cat && cat[CDC_COLLECTION].pk != []
    && var s := Prim(cat, DocId(CDC_COLLECTION, r.id));
    s in t && t[s] == CdcDocument(cat[CDC_COLLECTION].pk, r)
  }

  /** Nothing that was in the log collection has changed. */
  ghost predicate LogKept(t: Entries, m: Entries) {
    forall s: Slot :: s.did.coll == CDC_COLLECTION && s in t ==> s in m && m[s] == t[s]
  }

  /** The log collection consists of these records, each under an id of its own. */
  ghost predicate LogIs(cat: Catalog, t: Entries, all: seq<CDC>) {
    && (forall i, k :: 0 <= i < k < |all| ==> all[i].id != all[k].id)
    && (forall r :: r in all ==> RecordStored(cat, t, r))
    && (forall s :: s in t && s.did.coll == CDC_COLLECTION && CDC_COLLECTION in cat && s == Prim(cat, s.did) ==>
          RecordWithId(all, s.did.id))
  }

  ghost predicate RecordWithId(all: seq<CDC>, id: Bytes) {
    exists r :: r in all && r.id == id
  }

  /** The log has only been appended to, in memory and in the store: the log collection, whatever it was
      before, now also has the new records, and nothing else. */
  ghost predicate LogGrows(cat: Catalog, t: Entries, log0: seq<CDC>, m: Entries, log: seq<CDC>) {
    && LogKept(t, m)
    && |log0| <= |log| && log[..|log0|] == log0
    && (forall i :: |log0| <= i < |log| ==> RecordStored(cat, m, log[i]))
    && (forall prior :: LogIs(cat, t, prior + log0) ==> LogIs(cat, m, prior + log))
  }

  lemma LogStays(cat: Catalog, t: Entries, log: seq<CDC>)
    ensures LogGrows(cat, t, log, t, log)
  {
  }

  lemma LogGrown(cat: Catalog, t: Entries, log0: seq<CDC>, m: Entries, log: seq<CDC>, prior: seq<CDC>)
    requires LogGrows(cat, t, log0, m, log) && LogIs(cat, t, prior + log0)
    ensures LogIs(cat, m, prior + log)
  {
    hide LogIs;
  }

  lemma LogGrowsFurther(cat: Catalog, t0: Entries, log0: seq<CDC>, t1: Entries, log1: seq<CDC>, t2: Entries,
      log2: seq<CDC>)
    requires LogGrows(cat, t0, log0, t1, log1) && LogGrows(cat, t1, log1, t2, log2)
    ensures LogGrows(cat, t0, log0, t2, log2)
  {
    hide CdcDocument, LogIs;
    assert log2[..|log0|] == log1[..|log0|];
    forall i | |log0| <= i < |log2| ensures RecordStored(cat, t2, log2[i]) {
      if i < |log1| {
        assert log2[i] == log1[i];
        assert RecordStored(cat, t1, log1[i]);
      }
    }
  }

  lemma RemovalKeepsLog(cat: Catalog, t: Entries, gone: set<Slot>, log: seq<CDC>)
    requires forall s :: s in gone ==> s.did.coll != CDC_COLLECTION
    ensures LogGrows(cat, t, log, t - gone, log)
  {
    hide CdcDocument;
    forall prior | LogIs(cat, t, prior + log) ensures LogIs(cat, t - gone, prior + log) {
      SameLog(cat, t, t - gone, prior + log);
    }
  }

  lemma SameLog(cat: Catalog, t: Entries, m: Entries, all: seq<CDC>)
    requires LogIs(cat, t, all) && LogKept(t, m) && forall s: Slot :: s.did.coll == CDC_COLLECTION && s in m ==> s in t
    ensures LogIs(cat, m, all)
  {
    hide CdcDocument, RecordWithId;
    forall r | r in all ensures RecordStored(cat, m, r) { assert RecordStored(cat, t, r); }
  }

  lemma WriteKeepsLog(cat: Catalog, t: Entries, did: DocId, after: Json, doc: Json, log: seq<CDC>)
    requires did.coll in cat && did.coll != CDC_COLLECTION
    ensures LogGrows(cat, t, log, Rewritten(cat, t, did, after, doc, cat[did.coll].Secondary()), log)
  {
    var m := Rewritten(cat, t, did, after, doc, cat[did.coll].Secondary());
    forall s: Slot | s.did.coll == CDC_COLLECTION && s in t ensures s in m && m[s] == t[s] {
      RewrittenAt(cat, t, did, after, doc, cat[did.coll].Secondary(), s);
    }
    forall s: Slot | s.did.coll == CDC_COLLECTION && s in m ensures s in t {
      RewrittenAt(cat, t, did, after, doc, cat[did.coll].Secondary(), s);
    }
    forall prior | LogIs(cat, t, prior + log) ensures LogIs(cat, m, prior + log) {
      SameLog(cat, t, m, prior + log);
    }
  }

  /** The old entries of a document are those of `before`. */
  ghost predicate OldEntries(cat: Catalog, t: Entries, did: DocId, before: Option<Json>)
    requires did.coll in cat
  {
    forall n {:trigger Slot(did, n)} :: n in cat[did.coll].Secondary() && Slot(did, n) in t ==>
        before == Some(t[Slot(did, n)])
  }

  lemma ReadyEntries(cat: Catalog, t: Entries, did: DocId)
    requires did.coll in cat && CollectionReady(cat, t, did.coll)
    ensures OldEntries(cat, t, did, if Prim(cat, did) in t then Some(t[Prim(cat, did)]) else None)
  {
  }

  /** The record has become a document of the log collection, and that is all that was written. */
  ghost predicate RecordWritten(cat: Catalog, t: Entries, m: Entries, docs0: set<Bytes>, docs: set<Bytes>, r: CDC) {
    && CDC_COLLECTION in cat && cat[CDC_COLLECTION].pk != [] && ValidId(r.id)
    && var rid, d := DocId(CDC_COLLECTION, r.id), CdcDocument(cat[CDC_COLLECTION].pk, r);
    && m == Rewritten(cat, t, rid, d, d, cat[CDC_COLLECTION].Secondary())
    && CacheLearned(cat, docs0, docs, t, rid)
  }

  /** What storing a record does to the log collection. */
  lemma RecordJoinsLog(cat: Catalog, t: Entries, m: Entries, docs0: set<Bytes>, docs: set<Bytes>, r: CDC)
    requires GoodCatalog(cat) && CDC_COLLECTION in cat && CollectionReady(cat, t, CDC_COLLECTION)
    requires RecordWritten(cat, t, m, docs0, docs, r) && Prim(cat, DocId(CDC_COLLECTION, r.id)) !in t
    ensures LogKept(t, m) && RecordStored(cat, m, r)
    ensures forall s: Slot :: s in m && s.did != DocId(CDC_COLLECTION, r.id) ==> s in t
  {
    var rid, d := DocId(CDC_COLLECTION, r.id), CdcDocument(cat[CDC_COLLECTION].pk, r);
    assert Prim(cat, rid).name in cat[CDC_COLLECTION].indexes by { assert cat[CDC_COLLECTION].WellFormed(); }
    assert m == Rewritten(cat, t, rid, d, d, cat[CDC_COLLECTION].Secondary()) && cat[CDC_COLLECTION].pk != [];
    RewrittenOwn(cat, t, rid, d, Prim(cat, rid));
    forall s: Slot | s.did.coll == CDC_COLLECTION && s in t ensures s.did != rid {}
    hide CdcDocument, CacheLearned, GoodCatalog, CollectionReady, Rewritten, RecordWritten;
    forall s: Slot | s.did != rid ensures s in m <==> s in t
      ensures s in t ==> m[s] == t[s]
    {
      RewrittenAt(cat, t, rid, d, d, cat[CDC_COLLECTION].Secondary(), s);
    }
  }

  /** A record under a new id leaves the records before it alone. */
  lemma NewRecordGrowsLog(cat: Catalog, t: Entries, m: Entries, docs0: set<Bytes>, docs: set<Bytes>, log: seq<CDC>,
      r: CDC)
    requires GoodCatalog(cat) && CDC_COLLECTION in cat && CollectionReady(cat, t, CDC_COLLECTION)
    requires RecordWritten(cat, t, m, docs0, docs, r) && Prim(cat, DocId(CDC_COLLECTION, r.id)) !in t
    ensures LogGrows(cat, t, log, m, log + [r])
  {
    hide GoodCatalog, CollectionReady, RecordWritten, RecordStored, LogKept, LogIs;
    RecordJoinsLog(cat, t, m, docs0, docs, r);
    forall prior | LogIs(cat, t, prior + log) ensures LogIs(cat, m, prior + (log + [r])) {
      OneRecordMore(cat, t, m, prior + log, r);
      assert prior + log + [r] == prior + (log + [r]);
    }
  }

  lemma OneRecordMore(cat: Catalog, t: Entries, m: Entries, all: seq<CDC>, r: CDC)
    requires LogIs(cat, t, all) && LogKept(t, m) && RecordStored(cat, m, r)
    requires Prim(cat, DocId(CDC_COLLECTION, r.id)) !in t
    requires forall s: Slot :: s in m && s.did != DocId(CDC_COLLECTION, r.id) ==> s in t
    ensures LogIs(cat, m, all + [r])
  {
    hide CdcDocument;
    forall q | q in all ensures RecordStored(cat, m, q) && q.id != r.id {
      assert RecordStored(cat, t, q);
    }
    forall s | s in m && s.did.coll == CDC_COLLECTION && s == Prim(cat, s.did)
      ensures RecordWithId(all + [r], s.did.id)
    {
      if s.did.id == r.id {
        assert r in all + [r];
      } else {
        var q :| q in all && q.id == s.did.id;
        assert q in all + [r];
      }
    }
  }

  lemma RewrittenKeeps(cat: Catalog, t: Entries, did: DocId, after: Json, doc: Json, names: set<Bytes>)
    requires did.coll in cat
    ensures var m := Rewritten(cat, t, did, after, doc, names); Prim(cat, did) in m && forall s :: s in t ==> s in m
  {
  }

  /** Logging disturbs neither the documents of other collections nor any invariant. */
  lemma RecordKeepsComplete(cat: Catalog, t: Entries, m: Entries, docs0: set<Bytes>, docs: set<Bytes>, r: CDC,
        pending: Docs)
    requires GoodCatalog(cat) && Complete(cat, t, pending) && NoneIn(pending, CDC_COLLECTION)
    requires CDC_COLLECTION in cat && CacheSound(cat, docs0, t, pending) && RecordWritten(cat, t, m, docs0, docs, r)
    ensures Complete(cat, m, pending) && CacheSound(cat, docs, m, pending) && Data(cat, m) == Data(cat, t)
    ensures var s := Prim(cat, DocId(CDC_COLLECTION, r.id)); s in m && m[s] == CdcDocument(cat[CDC_COLLECTION].pk, r)
  {
    var rid, d := DocId(CDC_COLLECTION, r.id), CdcDocument(cat[CDC_COLLECTION].pk, r);
    hide GoodCatalog, Complete, CacheSound, Rewritten, CacheLearned, Data;
    RewrittenComplete(cat, t, pending, rid, d);
    LogLeavesData(cat, t, m, rid, d);
    RewrittenKeeps(cat, t, rid, d, d, cat[CDC_COLLECTION].Secondary());
    CacheSoundAfterWrite(cat, docs0, docs, t, m, pending, rid);
    DocsOfExact(cat, m, rid);
  }

  /** What every run of successful commands maintains, beside the store being an image of its table:
      each document has one current entry per index and there are no other entries, foreign keys name
      stored documents, unique values are unique, and the existence cache is right. The documents in
      `pending` are being deleted by commands that are still running. */
  ghost predicate SoundExcept(cat: Catalog, t: Entries, docs: set<Bytes>, pending: Docs) {
    && Complete(cat, t, pending)
    && Referential(cat, Data(cat, t), pending)
    && UniqueKeys(cat, Data(cat, t))
    && CacheSound(cat, docs, t, pending)
  }

  ghost predicate Sound(cat: Catalog, t: Entries, docs: set<Bytes>) {
    SoundExcept(cat, t, docs, map[])
  }

  lemma DataUpdated(db: Docs, did: DocId, doc: Json)
    requires did.coll != CDC_COLLECTION
    ensures DataOf(db[did := doc]) == DataOf(db)[did := doc]
  {
  }

  lemma WriteKeepsSound(cat: Catalog, t: Entries, m: Entries, docs0: set<Bytes>, docs: set<Bytes>, did: DocId,
        doc: Json)
    requires GoodCatalog(cat) && Sound(cat, t, docs0) && ValidDocId(cat, did) && did.coll != CDC_COLLECTION
    requires Accepts(cat, t, did, doc) && GoodReferences(cat, did, doc) && CacheLearned(cat, docs0, docs, t, did)
    requires m == Rewritten(cat, t, did, doc, doc, cat[did.coll].Secondary())
    ensures Sound(cat, m, docs) && Data(cat, m) == Data(cat, t)[did := doc]
  {
    hide GoodCatalog, Complete, CacheSound, CacheLearned, Referential, UniqueKeys, GoodReferences, Accepts,
      UniqueClear, DocsOf, Rewritten;
    RewrittenComplete(cat, t, map[], did, doc);
    DataUpdated(DocsOf(cat, t), did, doc);
    WriteKeepsReferential(cat, t, map[], did, doc);
    AcceptedUnique(cat, t, did, doc);
    WriteKeepsUnique(cat, t, map[], did, doc);
    RewrittenKeeps(cat, t, did, doc, doc, cat[did.coll].Secondary());
    CacheSoundAfterWrite(cat, docs0, docs, t, m, map[], did);
  }

  lemma AcceptedUnique(cat: Catalog, t: Entries, did: DocId, doc: Json)
    requires did.coll in cat && Accepts(cat, t, did, doc)
    ensures forall n :: n in cat[did.coll].Secondary() && cat[did.coll].indexes[n].unique ==>
        UniqueClear(cat, t, did, n, doc)
  {
    hide UniqueClear;
    forall n | n in cat[did.coll].Secondary() && cat[did.coll].indexes[n].unique
      ensures UniqueClear(cat, t, did, n, doc)
    {
      assert IndexAccepts(cat, t, did, n, doc);
    }
  }

  lemma RecordKeepsSound(cat: Catalog, t: Entries, m: Entries, docs0: set<Bytes>, docs: set<Bytes>, r: CDC,
        pending: Docs)
    requires GoodCatalog(cat) && CDC_COLLECTION in cat && SoundExcept(cat, t, docs0, pending)
    requires NoneIn(pending, CDC_COLLECTION)
    requires RecordWritten(cat, t, m, docs0, docs, r)
    ensures SoundExcept(cat, m, docs, pending) && Data(cat, m) == Data(cat, t)
    ensures var s := Prim(cat, DocId(CDC_COLLECTION, r.id)); s in m && m[s] == CdcDocument(cat[CDC_COLLECTION].pk, r)
  {
    hide GoodCatalog, Complete, CacheSound, Referential, UniqueKeys, RecordWritten;
    RecordKeepsComplete(cat, t, m, docs0, docs, r, pending);
  }

  ghost function StoredIn(cat: Catalog, t: Entries, did: DocId): Option<Json>
    requires did.coll in cat
  {
    if Prim(cat, did) in t then Some(t[Prim(cat, did)]) else None
  }

  lemma SoundIsReady(cat: Catalog, t: Entries, docs: set<Bytes>, did: DocId, doc: Json)
    requires GoodCatalog(cat) && Sound(cat, t, docs) && did.coll in cat && GoodReferences(cat, did, doc)
    ensures CollectionReady(cat, t, did.coll) && CDC_COLLECTION in cat && CollectionReady(cat, t, CDC_COLLECTION)
    ensures ReferencesReady(cat, docs, t, did, doc)
    ensures OldEntries(cat, t, did, StoredIn(cat, t, did))
  {
    ReferencesAreReady(cat, docs, t, map[], did, doc);
    ReadyWhenComplete(cat, t, map[], did.coll);
    ReadyWhenComplete(cat, t, map[], CDC_COLLECTION);
    hide GoodCatalog, Complete, ReferencesReady;
    ReadyEntries(cat, t, did);
  }

  lemma StoredCarriesKey(cat: Catalog, view: View, t: Entries, did: DocId)
    requires GoodCatalog(cat) && Holds(cat, view, t) && did.coll in cat && Prim(cat, did) in t
    ensures t[Prim(cat, did)].Obj? && Carries(t[Prim(cat, did)], cat[did.coll].pk, did.id)
  {
    assert EntryStored(cat, view, Prim(cat, did), t[Prim(cat, did)]);
    assert cat[did.coll].WellFormed();
  }

  // ----- commands -----

  /** GetPrimaryKey: the text at the primary key, empty when there is none. */
  function KeyText(c: Schema, doc: Json): Bytes {
    if Get(doc, c.pk).Str? then Get(doc, c.pk).s else []
  }

  function WithKey(c: Schema, doc: Json, id: Bytes): Json {
    SetPath(doc, c.pk, Str(id))
  }

  /** A command's document: an object whose id, if it has one, can be looked up again. */
  ghost predicate Acceptable(cat: Catalog, coll: Bytes, doc: Json) {
    doc.Obj? && (coll in cat ==> KeyText(cat[coll], doc) == [] || ValidId(KeyText(cat[coll], doc)))
  }

  ghost predicate CreateAllowed(cat: Catalog, t: Entries, did: DocId, doc: Json)
    requires did.coll in cat
  {
    var c := cat[did.coll];
    !c.readOnly && c.Validates(doc, did.id) && Accepts(cat, t, did, doc)
  }

  ghost predicate SetAllowed(cat: Catalog, t: Entries, did: DocId, doc: Json)
    requires did.coll in cat
  {
    CreateAllowed(cat, t, did, doc) && !(cat[did.coll].immutable && StoredIn(cat, t, did).Some?)
  }

  lemma AcceptedBySchema(c: Schema, doc: Json, id: Bytes)
    requires c.Validates(doc, id)
    ensures c.accepts(doc)
  {
  }

  lemma CollectionIsReady(cat: Catalog, t: Entries, docs: set<Bytes>, coll: Bytes)
    requires Sound(cat, t, docs) && coll in cat
    ensures CollectionReady(cat, t, coll)
  {
    ReadyWhenComplete(cat, t, map[], coll);
  }

  lemma KeyAndImmutable(cat: Catalog, coll: Bytes)
    requires GoodCatalog(cat) && coll in cat
    ensures cat[coll].pk != [] && PrefixFree(cat[coll].immutablePaths + {cat[coll].pk})
  {
    assert cat[coll].WellFormed();
  }

  lemma NotReadOnly(cat: Catalog, coll: Bytes)
    requires GoodCatalog(cat) && coll in cat && !cat[coll].readOnly
    ensures coll != CDC_COLLECTION
  {
  }

  lemma ImmutablePathsGood(cat: Catalog, coll: Bytes)
    requires GoodCatalog(cat) && coll in cat
    ensures PrefixFree(cat[coll].immutablePaths) && [] !in cat[coll].immutablePaths
  {
    var c := cat[coll];
    assert c.WellFormed();
    forall p, q | p in c.immutablePaths && q in c.immutablePaths && Comparable(p, q) ensures p == q {
      assert p in c.immutablePaths + {c.pk} && q in c.immutablePaths + {c.pk};
    }
  }

  /** Every stored document carries its id. */
  ghost predicate KeysCarried(cat: Catalog, db: Docs) {
    forall did :: did in db ==> did.coll in cat && db[did].Obj? && Carries(db[did], cat[did.coll].pk, did.id)
  }

  lemma DataCarriesKeys(cat: Catalog, view: View, t: Entries)
    requires GoodCatalog(cat) && Holds(cat, view, t)
    ensures KeysCarried(cat, Data(cat, t))
  {
    hide GoodCatalog, Holds, Carries;
    forall did | did in Data(cat, t)
      ensures did.coll in cat && Data(cat, t)[did].Obj? && Carries(Data(cat, t)[did], cat[did.coll].pk, did.id)
    {
      DataExact(cat, t, did);
      StoredCarriesKey(cat, view, t, did);
    }
  }
}
