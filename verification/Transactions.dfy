/** The transaction object: reads, writes and cascading deletes over the byte-key store. */
module Transactions {
  import opened ByteStrings
  import opened Json
  import opened Schemas
  import opened Indexing
  import opened Store
  import opened Filter
  import opened Optimizer
  import opened KvIter
  import opened Scan
  import opened Integrity
  import opened Sorting
  import opened Ordering
  import opened Documents
  import opened ChangeLog
  import opened Preparation
  import opened Queries
  import opened TimeTravel
  import opened LogReading
  import opened Soundness
  import opened Cascade
  import opened Updates
  import opened Runs
  import opened Histories

  class Transaction {
    const cat: Catalog
    const backend: Backend
    var view: View
    ghost var table: Entries
    var docs: set<Bytes>
    var cdc: seq<CDC>

    ghost predicate Valid()
      reads this
    {
      GoodCatalog(cat) && Holds(cat, view, table)
    }

    /** NewTx: the committed keys are visible, the existence cache and the log are empty. */
    constructor (cat: Catalog, backend: Backend, committed: View, ghost entries: Entries)
      requires GoodCatalog(cat) && Holds(cat, committed, entries) && Sound(cat, entries, {})
      ensures this.cat == cat && this.backend == backend && view == committed && table == entries
      ensures Inv() && Db() == Data(cat, entries) && cdc == []
    {
      hide GoodCatalog, Holds, SoundExcept, Data;
      this.cat, this.backend, view, table, docs, cdc := cat, backend, committed, entries, {}, [];
    }

    ghost predicate Ready(coll: Bytes)
      reads this
    {
      coll in cat ==> CollectionReady(cat, table, coll)
    }

    /** transaction.queryScan with the callback of Query inlined: collect, stop at `limit` if not 0. */
    method QueryScan(coll: Bytes, where: seq<Where>, limit: nat) returns (st: Status, results: seq<Json>,
          ghost plan: Explain)
      requires Valid() && Ready(coll) && ScalarClauses(where)
      ensures st.Done? <==> coll in cat && !NeedsIndex(cat[coll], where)
      ensures st.Done? ==> cat[coll].WellFormed() && Answers(cat[coll], where, Plan(plan)) && PlanScalars(plan)
      ensures st.Done? ==> results == Cut(ScanDocs(view, backend, cat[coll], plan, where), limit)
      decreases Rank(cat, coll, where), 2
    {
      results, plan := [], Explain(Index([], [], false, false, None), [], map[], [], map[], false);
      if coll !in cat { return Failed, results, plan; }
      var c := cat[coll];
      assert c.WellFormed() && c.collection == coll;
      var answer := Optimize(c, where);
      AnswerOrRefusal(c, where, answer);
      if answer.IndexRequired? { return Failed, results, plan; }
      plan := answer.explain;
      AnswerScalars(c, where, plan);
      results := ScanIndex(coll, where, answer.explain, limit);
      return Done, results, plan;
    }

    /** The loop over the iterator of a plan. */
    method ScanIndex(coll: Bytes, where: seq<Where>, e: Explain, limit: nat) returns (results: seq<Json>)
      requires Valid() && coll in cat && Ready(coll) && PlanScalars(e)
      requires cat[coll].WellFormed() && Answers(cat[coll], where, Plan(e))
      ensures results == Cut(Emit(view, cat[coll], e.index, where, ScannedKeys(view, backend, coll, e)), limit)
      decreases Rank(cat, coll, where), 1
    {
      hide GoodCatalog, Schema.WellFormed, CollectionReady, Holds, Answers, NeedsIndex, Order, Visited, Matches,
        DocFor, ScannedKeys, Emit, ScanOpts, PlanScalars, Valid, Ready, InBounds, Rank;
      var c := cat[coll];
      AnswerSeekScalars(c, where, e);
      ghost var ks := ScannedKeys(view, backend, coll, e);
      EmitNothing(view, c, e.index, where, ks);
      var opts := IteratorOpts(coll, e);
      var it := new Iterator(view.Keys, backend, opts);
      results := [];
      while it.IsValid()
        invariant it.opts == opts && it.keys == Order(view.Keys, backend, opts)
        invariant it.pos <= |ks|
        invariant results == Emit(view, c, e.index, where, ks[..it.pos])
        invariant limit > 0 ==> |results| < limit
        decreases |it.keys| - it.pos
      {
        var key := it.Key();
        ScannedKeyAt(view, backend, coll, e, it.pos);
        results := Visit(coll, where, e, key, results);
        EmitNext(view, c, e.index, where, ks, it.pos);
        if limit > 0 && |results| >= limit {
          EmitSoFar(view, c, e.index, where, ks, it.pos + 1);
          return;
        }
        it.Next();
      }
      ScanFinished(view, backend, coll, e, it.pos);
      assert ks[..|ks|] == ks;
    }

    /** The document behind one key joins the results if it passes the clauses. */
    method Visit(coll: Bytes, where: seq<Where>, e: Explain, key: Bytes, results: seq<Json>) returns (more: seq<Json>)
      requires Valid() && coll in cat && Ready(coll) && PlanScalars(e) && key in view
      requires cat[coll].WellFormed() && Answers(cat[coll], where, Plan(e))
      requires HasPrefix(key, ScanOpts(coll, e).prefix.value)
      ensures var d := DocFor(view, cat[coll], e.index, key); more == results + if Matches(where, d) then [d] else []
      decreases Rank(cat, coll, where), 0, 1
    {
      hide *;
      var document := DocumentBehind(coll, where, e, key);
      var pass := Passes(where, document);
      more := if pass then results + [document] else results;
    }

    /** The stored document of a primary entry, or the one a secondary entry points to. */
    method DocumentBehind(coll: Bytes, where: seq<Where>, e: Explain, key: Bytes) returns (document: Json)
      requires Valid() && coll in cat && Ready(coll) && PlanScalars(e) && key in view
      requires cat[coll].WellFormed() && Answers(cat[coll], where, Plan(e))
      requires HasPrefix(key, ScanOpts(coll, e).prefix.value)
      ensures document == DocFor(view, cat[coll], e.index, key)
      decreases Rank(cat, coll, where), 0, 0
    {
      PlanIndex(cat[coll], where, e);
      ScannedKeyStandsFor(cat, view, table, coll, e, key);
      if e.index.primary {
        document := DocIn(view, key);
      } else {
        PrimaryLookupIsPrimary(cat[coll], where, e);
        var st, doc := Get(coll, LastSegment(key));
        document := doc;
      }
    }

    /** The prefix of the matched values, and the seek values appended to it. */
    method IteratorOpts(coll: Bytes, e: Explain) returns (opts: IterOpts)
      requires PlanScalars(e) && forall f :: f in e.seekFields ==> f in e.seekValues
      ensures opts == ScanOpts(coll, e)
    {
      hide IndexPathPrefix.Path, Base, FieldSegment, Tail;
      NoTail(e.seekValues);
      var pfx := SeekPrefix(coll, e.index, e.matchedValues);
      var prefix := pfx.Path();
      for k := 0 to |e.seekFields|
        invariant pfx.prefix != [] && pfx.seekValue == None
        invariant pfx.Path() == prefix + Tail(e.seekFields[..k], e.seekValues)
      {
        var field := e.seekFields[k];
        assert field in e.seekFields;
        TailNext(e.seekFields, k, e.seekValues);
        PathAppend(pfx, field, e.seekValues[field]);
        pfx := pfx.Append(field, e.seekValues[field]);
      }
      assert e.seekFields[..|e.seekFields|] == e.seekFields;
      opts := IterOpts(Some(prefix), None, Some(pfx.Path()), e.reverse);
    }

    /** transaction.Query without aggregation and joins. */
    method RunQuery(coll: Bytes, q: Query) returns (st: Status, results: seq<Json>, ghost plan: Explain)
      requires Valid() && Ready(coll) && ScalarClauses(q.where)
      ensures st.Done? <==> coll in cat && Validated(q.where) && !NeedsIndex(cat[coll], q.where)
      ensures st.Done? ==> cat[coll].WellFormed() && Answers(cat[coll], q.where, Plan(plan)) && PlanScalars(plan)
      ensures st.Done? ==> results == PageDocs(view, backend, cat[coll], plan, q)
      decreases Rank(cat, coll, q.where), 3
    {
      hide GoodCatalog, Schema.WellFormed, CollectionReady, Holds, Answers, NeedsIndex, ScanDocs, Sort, LexLess;
      if !Validated(q.where) {
        return Failed, [], Explain(Index([], [], false, false, None), [], map[], [], map[], false);
      }
      st, results, plan := QueryScan(coll, q.where, StopAfter(q));
      if st.Failed? { return; }
      results := Ordered(results, q.orderBy);
      if q.limit > 0 && q.page > 0 {
        results := Slice(results, q.limit * q.page, q.limit * q.page + q.limit);
      }
      if q.limit > 0 && |results| > q.limit {
        results := results[..q.limit];
      }
    }

    /** transaction.Get is a lookup in the map of stored documents. */
    method Get(coll: Bytes, id: Bytes) returns (st: Status, doc: Json)
      requires Valid() && Ready(coll)
      ensures st.Done? <==> coll in cat && Prim(cat, DocId(coll, id)) in table
      ensures st.Done? ==> doc == table[Prim(cat, DocId(coll, id))]
      decreases 0, 4
    {
      doc := Null;
      if coll !in cat { return Failed, doc; }
      IdClauseFits(cat, coll, id);
      hide GoodCatalog, Holds, CollectionReady, ScanDocs, Answers, Schema.WellFormed, Validated, ScalarClauses,
        NeedsIndex, IdClause, PlanScalars, Rank;
      var q := Query(IdClause(cat[coll], id), [], 0, 1);
      var st', results, plan := RunQuery(coll, q);
      if st'.Failed? { return Failed, doc; }
      IdScan(cat, view, backend, table, coll, id, plan);
      if |results| == 0 { return Failed, doc; }
      return Done, results[0];
    }

    /** transaction.TimeTravel: undoes the logged changes of the document, newest first. `all` are the records
        the log collection consists of, `chosen` the ones it undoes. */
    method TimeTravel(coll: Bytes, id: Bytes, since: int, ghost all: seq<CDC>) returns (r: Outcome,
        ghost chosen: seq<CDC>)
      requires Valid() && Ready(coll) && Ready(CDC_COLLECTION) && PlainText(coll)
      requires CDC_COLLECTION in cat && LogIndexed(cat[CDC_COLLECTION]) && LogIs(cat, table, all)
      ensures coll !in cat ==> r == NotFound
      ensures coll in cat && (forall c :: c in all ==> Readable(c)) ==>
        Chosen(all, coll, id, since, chosen) && r == Traveled(StoredIn(cat, table, DocId(coll, id)), chosen)
    {
      assert cat[CDC_COLLECTION].WellFormed();
      hide GoodCatalog, Holds, LogIs, LogIndexed, Readable, CollectionReady, Answers, LogClauses, PageDocs, RevertAll,
        Revertible, Chosen, Traveled, Schema.WellFormed, Validated, NeedsIndex, ScalarClauses, DecodeAll;
      chosen := SomeChosen(all, coll, id, since);
      var st, current := Get(coll, id);
      if st.Failed? {
        NothingToTravelTo(chosen);
        return NotFound, chosen;
      }
      StoredIdIsValid(cat, view, table, DocId(coll, id));
      LogQueryAnswered(cat[CDC_COLLECTION], coll, id, since);
      var answer, results, plan := RunQuery(CDC_COLLECTION, LogQuery(coll, id, since));
      FoundInLog(cat, view, backend, table, all, coll, id, since, plan, results);
      if forall c :: c in all ==> Readable(c) { chosen := DecodeAll(cat[CDC_COLLECTION].pk, results); }
      r := UndoAll(cat[CDC_COLLECTION].pk, current, results);
    }

    // ----- single entries -----

    method IndexKey(s: Slot, doc: Json) returns (key: Bytes)
      requires GoodCatalog(cat) && ValidSlot(cat, s)
      ensures key == KeyOf(cat, s, doc)
    {
      IndexFacts(cat, s.did.coll, s.name);
      hide GoodCatalog, IndexPathPrefix.Path, Base, Tail;
      var i := IndexOf(cat, s);
      var pfx := SeekPrefix(s.did.coll, i, IndexedValues(i.fields, doc));
      PathSeek(pfx, s.did.id);
      key := pfx.Seek(Str(s.did.id)).Path();
    }

    /** The key of a document is computed from its id alone. */
    method DocumentKey(did: DocId) returns (key: Bytes)
      requires GoodCatalog(cat) && did.coll in cat
      ensures key == PrimaryKey(cat[did.coll], did.id)
    {
      var c := cat[did.coll];
      assert c.WellFormed() && c.GoodIndex(c.primaryName) && c.collection == did.coll;
      hide GoodCatalog, Schema.WellFormed, IndexPathPrefix.Path, Base, Tail;
      var pfx := SeekPrefix(did.coll, c.PrimaryIndex(), map[c.pk := Str(did.id)]);
      PathSeek(pfx, did.id);
      key := pfx.Seek(Str(did.id)).Path();
    }

    method DeleteIndexEntry(s: Slot, doc: Json)
      requires Valid() && ValidSlot(cat, s)
      requires s in table ==> KeyOf(cat, s, table[s]) == KeyOf(cat, s, doc)
      modifies this`view, this`table
      ensures Valid() && table == old(table) - {s} && view == old(view) - {KeyOf(cat, s, doc)}
    {
      hide GoodCatalog, Holds, KeyOf;
      var key := IndexKey(s, doc);
      DeleteEntry(cat, view, table, s, doc);
      view, table := view - {key}, table - {s};
    }

    method SetIndexEntry(s: Slot, doc: Json)
      requires Valid() && ValidSlot(cat, s) && !IndexOf(cat, s).primary
      requires s in table ==> KeyOf(cat, s, table[s]) == KeyOf(cat, s, doc)
      modifies this`view, this`table
      ensures Valid() && table == old(table)[s := doc] && view == old(view)[KeyOf(cat, s, doc) := IdValue(s.did.id)]
    {
      IndexFacts(cat, s.did.coll, s.name);
      hide GoodCatalog, Holds, KeyOf;
      var key := IndexKey(s, doc);
      SetEntry(cat, view, table, s, doc);
      view, table := view[key := IdValue(s.did.id)], table[s := doc];
    }

    method SetDocument(did: DocId, doc: Json)
      requires Valid() && ValidDocId(cat, did) && Lookup(doc, cat[did.coll].pk) == Some(Str(did.id))
      modifies this`view, this`table
      ensures Valid() && table == old(table)[Prim(cat, did) := doc]
      ensures view == old(view)[PrimaryKey(cat[did.coll], did.id) := DocValue(doc)]
    {
      var key := DocumentKey(did);
      PrimaryKeyOf(cat, did, doc);
      PrimarySlot(cat, did);
      var s := Prim(cat, did);
      if s in table {
        assert EntryStored(cat, view, s, table[s]);
        PrimaryKeyOf(cat, did, table[s]);
      }
      hide GoodCatalog, Holds, KeyOf, PrimaryKey;
      SetEntry(cat, view, table, s, doc);
      view, table := view[key := DocValue(doc)], table[s := doc];
    }

    method DeleteDocument(did: DocId)
      requires Valid() && ValidDocId(cat, did)
      modifies this`view, this`table
      ensures Valid() && table == old(table) - {Prim(cat, did)}
      ensures view == old(view) - {PrimaryKey(cat[did.coll], did.id)}
    {
      var key := DocumentKey(did);
      PrimarySlot(cat, did);
      ghost var s := Prim(cat, did);
      ghost var doc := if s in table then table[s] else SetPath(EMPTY_OBJECT, cat[did.coll].pk, Str(did.id));
      if s in table {
        assert EntryStored(cat, view, s, table[s]);
      } else {
        LookupSetBelow(EMPTY_OBJECT, cat[did.coll].pk, Str(did.id), cat[did.coll].pk);
      }
      PrimaryKeyOf(cat, did, doc);
      hide GoodCatalog, Holds, KeyOf, PrimaryKey;
      DeleteEntry(cat, view, table, s, doc);
      view, table := view - {key}, table - {s};
    }

    // ----- constraint checks -----

    /** The cached shortcut, or a lookup that is remembered when it succeeds. */
    method HasDocID(did: DocId) returns (has: bool)
      requires Valid() && did.coll in cat && Ready(did.coll)
      requires CacheKey(did) in docs ==> Prim(cat, did) in table
      modifies this`docs
      ensures has <==> Prim(cat, did) in table
      ensures docs == if has then old(docs) + {CacheKey(did)} else old(docs)
    {
      hide GoodCatalog, Holds, CollectionReady, CacheKey;
      if CacheKey(did) in docs { return true; }
      var st, doc := Get(did.coll, did.id);
      if st.Failed? { return false; }
      docs := docs + {CacheKey(did)};
      return true;
    }

    /** Scans all keys that start with the new entry's fields for a foreign id. */
    method UniqueCheck(did: DocId, n: Bytes, doc: Json) returns (clear: bool)
      requires Valid() && ValidDocId(cat, did) && n in cat[did.coll].indexes
      ensures clear <==> UniqueClear(cat, table, did, n, doc)
    {
      hide GoodCatalog, Holds, UniqueClear, Order, InBounds, Base, Tail, IndexPathPrefix.Path, Visited, LastSegment;
      IndexFacts(cat, did.coll, n);
      UniqueVisitedClear(cat, view, backend, table, did, n, doc);
      var i := cat[did.coll].indexes[n];
      var pfx := SeekPrefix(did.coll, i, IndexedValues(i.fields, doc));
      var opts := IterOpts(Some(pfx.Path()), None, None, false);
      clear := AllVisitedBelongTo(opts, did.id);
    }

    method AllVisitedBelongTo(opts: IterOpts, id: Bytes) returns (all: bool)
      ensures all <==> forall k :: k in Visited(Order(view.Keys, backend, opts), opts) ==> LastSegment(k) == id
    {
      hide Order, LastSegment, Visited;
      var it := new Iterator(view.Keys, backend, opts);
      ghost var seen := Visited(it.keys, opts);
      while it.IsValid()
        invariant it.opts == opts && it.keys == Order(view.Keys, backend, opts)
        invariant it.pos <= |seen|
        invariant forall k :: 0 <= k < it.pos ==> LastSegment(seen[k]) == id
        decreases |it.keys| - it.pos
      {
        var key := it.Key();
        assert key == seen[it.pos];
        assert key in Visited(Order(view.Keys, backend, opts), opts);
        if LastSegment(key) != id { return false; }
        it.Next();
      }
      return true;
    }

    // ----- secondary indexes -----

    /** updateSecondaryIndex for create, set and update: the old entry goes, the reference and the
        unique value are checked, the new entry is written. */
    method UpdateSecondaryIndex(did: DocId, n: Bytes, before: Option<Json>, doc: Json) returns (ok: bool)
      requires Valid() && ValidDocId(cat, did) && n in cat[did.coll].Secondary()
      requires Slot(did, n) in table ==> before.Some? && before.value == table[Slot(did, n)]
      requires ReferenceTyped(cat, did.coll, doc, n) && ReferencesReady(cat, docs, table, did, doc)
      modifies this`view, this`table, this`docs
      ensures ok <==> IndexAccepts(cat, old(table), did, n, doc)
      ensures ok ==> Valid() && table == (old(table) - {Slot(did, n)})[Slot(did, n) := doc]
      ensures ok ==> var p := Parent(cat, did.coll, doc, n);
        docs <= old(docs) + {CacheKey(did)} + if p.Some? then {CacheKey(p.value)} else {}
    {
      hide GoodCatalog, Holds, KeyOf, CollectionReady, UniqueClear, CacheKey;
      var s := Slot(did, n);
      IndexFacts(cat, did.coll, n);
      if before.Some? { DeleteIndexEntry(s, before.value); }
      assert table == old(table) - {s};
      CheckIgnoresOwn(cat, old(table), did, n, doc);
      var p := Parent(cat, did.coll, doc, n);
      if p.Some? {
        ParentElsewhere(cat, did, doc, n);
        assert ReferenceReady(cat, old(docs), old(table), p.value);
        ReadyStable(cat, old(table), table, p.value.coll);
        var has := HasDocID(p.value);
        if !has { return false; }
      }
      if cat[did.coll].indexes[n].unique {
        var clear := UniqueCheck(did, n, doc);
        if !clear { return false; }
      }
      SetIndexEntry(s, doc);
      docs := docs + {CacheKey(did)};
      return true;
    }

    /** One more index of a write whose table so far is `Rewritten(.., done)`. */
    method UpdateNextIndex(did: DocId, n: Bytes, before: Option<Json>, doc: Json,
        ghost t0: Entries, ghost after: Json, ghost done: set<Bytes>, ghost docs0: set<Bytes>) returns (ok: bool)
      requires Valid() && ValidDocId(cat, did) && table == Rewritten(cat, t0, did, after, doc, done)
      requires n in cat[did.coll].Secondary() - done
      requires Slot(did, n) in t0 ==> before.Some? && before.value == t0[Slot(did, n)]
      requires GoodReferences(cat, did, doc) && ReferencesReady(cat, docs0, t0, did, doc)
      requires CacheLearned(cat, docs0, docs, t0, did)
      modifies this`view, this`table, this`docs
      ensures ok <==> IndexAccepts(cat, t0, did, n, doc)
      ensures ok ==> Valid() && table == Rewritten(cat, t0, did, after, doc, done + {n})
      ensures ok ==> CacheLearned(cat, docs0, docs, t0, did)
    {
      hide GoodCatalog, Holds, IndexAccepts, CacheKey, ReferenceReady, ReferenceTyped, Parent, Rewritten,
        CacheLearned;
      SecondaryNames(cat, did.coll);
      StillReady(cat, docs0, docs, t0, did, after, doc, done);
      RewrittenAt(cat, t0, did, after, doc, done, Slot(did, n));
      AcceptanceStable(cat, t0, did, after, doc, done, n, doc);
      ghost var docs1, p := docs, Parent(cat, did.coll, doc, n);
      ok := UpdateSecondaryIndex(did, n, before, doc);
      if ok {
        AcceptedParent(cat, t0, did, n, doc);
        CacheLearnsMore(cat, docs0, docs1, docs, t0, did, p);
        RewriteNext(cat, t0, did, after, doc, done, n);
      }
    }

    /** All secondary indexes, in whatever order the map of indexes yields them. */
    method UpdateIndexes(did: DocId, before: Option<Json>, doc: Json, ghost t0: Entries, ghost after: Json)
      returns (ok: bool)
      requires Valid() && ValidDocId(cat, did) && table == t0[Prim(cat, did) := after]
      requires OldEntries(cat, t0, did, before)
      requires GoodReferences(cat, did, doc) && ReferencesReady(cat, docs, t0, did, doc)
      modifies this`view, this`table, this`docs
      ensures ok <==> Accepts(cat, t0, did, doc)
      ensures ok ==> Valid() && table == Rewritten(cat, t0, did, after, doc, cat[did.coll].Secondary())
      ensures ok ==> CacheLearned(cat, old(docs), docs, t0, did)
    {
      hide GoodCatalog, Holds, IndexAccepts, CacheKey, GoodReferences, ReferencesReady, Rewritten;
      RewriteNothing(cat, t0, did, after, doc);
      var todo := cat[did.coll].Secondary();
      ghost var done: set<Bytes> := {};
      while todo != {}
        invariant Valid() && done !! todo && done + todo == cat[did.coll].Secondary()
        invariant table == Rewritten(cat, t0, did, after, doc, done)
        invariant forall n :: n in done ==> IndexAccepts(cat, t0, did, n, doc)
        invariant CacheLearned(cat, old(docs), docs, t0, did)
        decreases todo
      {
        var n :| n in todo;
        ok := UpdateNextIndex(did, n, before, doc, t0, after, done, old(docs));
        if !ok { return; }
        done, todo := done + {n}, todo - {n};
      }
      assert done == cat[did.coll].Secondary();
      ok := true;
    }

    /** Writes a document's primary entry and all its index entries. `doc` is the command's document,
        from which the index entries are built; for an update that is only the patch. */
    method PutDocument(did: DocId, before: Option<Json>, after: Json, doc: Json) returns (ok: bool)
      requires Valid() && ValidDocId(cat, did) && Lookup(after, cat[did.coll].pk) == Some(Str(did.id))
      requires OldEntries(cat, table, did, before)
      requires GoodReferences(cat, did, doc) && ReferencesReady(cat, docs, table, did, doc)
      modifies this`view, this`table, this`docs
      ensures ok <==> Accepts(cat, old(table), did, doc)
      ensures ok ==> Valid() && table == Rewritten(cat, old(table), did, after, doc, cat[did.coll].Secondary())
      ensures ok ==> CacheLearned(cat, old(docs), docs, old(table), did)
    {
      hide GoodCatalog, Holds, CacheKey, GoodReferences, ReferencesReady, Accepts, Rewritten;
      ghost var t0 := table;
      SetDocument(did, after);
      ok := UpdateIndexes(did, before, doc, t0, after);
    }

    // ----- the change log -----

    /** ksuid.New: an id that is fit for lookups and, being globally unique, not in use. */
    method NewKsuid(coll: Bytes) returns (id: Bytes)
      requires Valid() && coll in cat
      ensures ValidId(id) && Prim(cat, DocId(coll, id)) !in table
    {
      hide GoodCatalog, Holds, PrimaryKey;
      ghost var some := UnusedId(view, cat[coll]);
      id :| ValidId(id) && PrimaryKey(cat[coll], id) !in view;
      if Prim(cat, DocId(coll, id)) in table { StoredUnderKey(cat, view, table, DocId(coll, id)); }
    }

    /** Appends a record to the transaction's log and stores it as a document of the log collection. */
    method LogChange(action: Action, did: DocId, doc: Json, before: Option<Json>, timestamp: int, metadata: Json)
      requires Valid() && CDC_COLLECTION in cat && CollectionReady(cat, table, CDC_COLLECTION)
      requires doc.Obj? && (before.Some? ==> before.value.Obj?)
      modifies this`view, this`table, this`docs, this`cdc
      ensures Valid() && Logs(old(cdc), cdc, action, did, doc, before, timestamp, metadata)
      ensures RecordWritten(cat, old(table), table, old(docs), docs, cdc[|old(cdc)|])
      ensures LogGrows(cat, old(table), old(cdc), table, cdc)
    {
      hide Holds, IsDiff, RecordWritten, GoodCatalog, CollectionReady, LogGrows;
      var command := new Document(doc);
      var diff := command.Diff(before);
      var id := NewKsuid(CDC_COLLECTION);
      var record := CDC(id, did.coll, action, did.id, diff, timestamp, metadata);
      StoreRecord(record);
      NewRecordGrowsLog(cat, old(table), table, old(docs), docs, cdc, record);
      cdc := cdc + [record];
    }

    method StoreRecord(record: CDC)
      requires Valid() && CDC_COLLECTION in cat && CollectionReady(cat, table, CDC_COLLECTION) && ValidId(record.id)
      modifies this`view, this`table, this`docs
      ensures Valid() && RecordWritten(cat, old(table), table, old(docs), docs, record)
    {
      var c, rid := cat[CDC_COLLECTION], DocId(CDC_COLLECTION, record.id);
      assert c.WellFormed();
      hide Holds, Accepts, GoodReferences, Rewritten, GoodCatalog, Schema.WellFormed;
      var recordDoc := CdcDocument(c.pk, record);
      LogAccepts(cat, table, rid, recordDoc);
      ReadyEntries(cat, table, rid);
      hide CollectionReady;
      var st, existing := Get(CDC_COLLECTION, record.id);
      var ok := PutDocument(rid, if st.Done? then Some(existing) else None, recordDoc, recordDoc);
    }

    // ----- commands -----

    ghost predicate Inv()
      reads this
    {
      Valid() && Sound(cat, table, docs)
    }

    /** The stored documents outside the change log. */
    ghost function Db(): Docs
      reads this
    {
      Data(cat, table)
    }

    /** The stored document, if any: persistCommand ignores the error of Get. */
    method Before(did: DocId) returns (before: Option<Json>)
      requires Valid() && did.coll in cat && Ready(did.coll)
      ensures before == StoredIn(cat, table, did)
      ensures before.Some? ==> before.value.Obj? && Carries(before.value, cat[did.coll].pk, did.id)
    {
      hide GoodCatalog, Holds, CollectionReady;
      var st, doc := Get(did.coll, did.id);
      before := if st.Done? then Some(doc) else None;
      if before.Some? { StoredCarriesKey(cat, view, table, did); }
    }

    /** The part of persistCommand that create and set share: store, index, log. */
    method StoreAndLog(action: Action, did: DocId, before: Option<Json>, doc: Json, timestamp: int, metadata: Json)
      returns (ok: bool)
      requires Inv() && ValidDocId(cat, did) && did.coll != CDC_COLLECTION
      requires before == StoredIn(cat, table, did) && (before.Some? ==> before.value.Obj?)
      requires cat[did.coll].Validates(doc, did.id) && GoodReferences(cat, did, doc)
      modifies this
      ensures ok <==> Accepts(cat, old(table), did, doc)
      ensures ok ==> Inv() && Db() == old(Db())[did := doc]
      ensures ok ==> Logs(old(cdc), cdc, action, did, doc, before, timestamp, metadata)
      ensures ok ==> LogGrows(cat, old(table), old(cdc), table, cdc)
    {
      hide Holds, SoundExcept, Accepts, GoodReferences, ReferencesReady, CollectionReady, OldEntries, Rewritten,
        CacheLearned, RecordWritten, IsDiff, Data, CdcDocument, LogGrows;
      SoundIsReady(cat, table, docs, did, doc);
      ghost var t0, docs0 := table, docs;
      ok := PutDocument(did, before, doc, doc);
      if !ok { return; }
      WriteKeepsSound(cat, t0, table, docs0, docs, did, doc);
      SoundIsReady(cat, table, docs, did, doc);
      ghost var t1, docs1 := table, docs;
      LogChange(action, did, doc, before, timestamp, metadata);
      RecordKeepsSound(cat, t1, table, docs1, docs, cdc[|old(cdc)|], map[]);
      WriteKeepsLog(cat, t0, did, doc, doc, old(cdc));
      LogGrowsFurther(cat, t0, old(cdc), t1, old(cdc), table, cdc);
    }

    /** Stores a new document, under a generated id if it has none. An existing document of that id is
        overwritten without any of the checks that set makes. */
    method Create(coll: Bytes, document: Json, timestamp: int, metadata: Json) returns (ok: bool, id: Bytes)
      requires Inv() && Acceptable(cat, coll, document)
      modifies this
      ensures coll in cat ==> ValidId(id) && if KeyText(cat[coll], document) != []
          then id == KeyText(cat[coll], document)
                                             else Prim(cat, DocId(coll, id)) !in old(table)
      ensures ok <==> coll in cat && CreateAllowed(cat, old(table), DocId(coll, id), WithKey(cat[coll], document, id))
      ensures ok ==> Inv() && Db() == old(Db())[DocId(coll, id) := WithKey(cat[coll], document, id)]
      ensures ok ==> Logs(old(cdc), cdc, Action.Create, DocId(coll, id), WithKey(cat[coll], document, id),
                          StoredIn(cat, old(table), DocId(coll, id)), timestamp, metadata)
      ensures ok ==> LogGrows(cat, old(table), old(cdc), table, cdc)
    {
      hide GoodCatalog, Holds, Sound, GoodReferences, Schema.Validates, Data, WithKey, CollectionReady, Logs,
        LogGrows, Accepts;
      id := [];
      if coll !in cat { return false, id; }
      var c := cat[coll];
      id := KeyText(c, document);
      if id == [] { id := NewKsuid(coll); }
      var did, doc := DocId(coll, id), WithKey(c, document, id);
      if c.readOnly || !c.Validates(doc, id) { return false, id; }
      NotReadOnly(cat, coll);
      ValidatedReferences(cat, did, doc);
      CollectionIsReady(cat, table, docs, coll);
      var before := Before(did);
      ok := StoreAndLog(Action.Create, did, before, doc, timestamp, metadata);
    }

    /** What a set command stores: its document with the immutable properties of the version before. */
    method PrepareSet(did: DocId, document: Json, before: Option<Json>) returns (doc: Json)
      requires Inv() && did.coll in cat && did.coll != CDC_COLLECTION && before == StoredIn(cat, table, did)
      ensures if before.Some? then Pinned(cat[did.coll], document, before.value, doc) else doc == document
    {
      hide GoodCatalog, Holds, Sound, Pinned, PrefixFree;
      doc := document;
      if before.Some? {
        ImmutablePathsGood(cat, did.coll);
        doc := KeepImmutable(cat[did.coll], document, before.value);
      }
    }

    /** Replaces a document, or creates it; immutable properties keep their values. `stored` is what
        has been written. */
    method Set(coll: Bytes, document: Json, timestamp: int, metadata: Json) returns (ok: bool, ghost stored: Json)
      requires Inv() && Acceptable(cat, coll, document)
      modifies this
      ensures coll in cat && !cat[coll].readOnly && KeyText(cat[coll], document) != [] ==>
        var before := StoredIn(cat, old(table), DocId(coll, KeyText(cat[coll], document)));
        if before.Some? then Pinned(cat[coll], document, before.value, stored) else stored == document
      ensures ok <==> coll in cat && KeyText(cat[coll], document) != []
                      && SetAllowed(cat, old(table), DocId(coll, KeyText(cat[coll], document)), stored)
      ensures ok ==> Inv() && Db() == old(Db())[DocId(coll, KeyText(cat[coll], document)) := stored]
      ensures ok ==> var did := DocId(coll, KeyText(cat[coll], document));
        Logs(old(cdc), cdc, Action.Set, did, stored, StoredIn(cat, old(table), did), timestamp, metadata)
      ensures ok ==> LogGrows(cat, old(table), old(cdc), table, cdc)
    {
      stored := document;
      if coll !in cat { return false, stored; }
      var c := cat[coll];
      var id := KeyText(c, document);
      if id == [] { return false, stored; }
      hide GoodCatalog, Holds, Sound, GoodReferences, Schema.Validates, Data, Pinned, CollectionReady, Logs, LogGrows,
        Accepts;
      var did := DocId(coll, id);
      CollectionIsReady(cat, table, docs, coll);
      var before := Before(did);
      if c.readOnly { return false, stored; }
      NotReadOnly(cat, coll);
      var doc := PrepareSet(did, document, before);
      stored := doc;
      if (c.immutable && before.Some?) || !c.Validates(doc, id) { return false, stored; }
      ValidatedReferences(cat, did, doc);
      ok := StoreAndLog(Action.Set, did, before, doc, timestamp, metadata);
    }

    /** Merges a patch into a stored document. `command` is the patch with id and immutable properties,
        `after` the merged document. The index entries and the checks go by `command`; the store is
        consistent afterwards exactly when it supplies every indexed field that `after` has. */
    method Update(coll: Bytes, id: Bytes, patch: Json, timestamp: int, metadata: Json)
      returns (ok: bool, ghost command: Json, ghost after: Json)
      requires Inv() && patch.Obj?
      modifies this
      ensures coll in cat && !cat[coll].readOnly && StoredIn(cat, old(table), DocId(coll, id)).Some? ==>
        var before := StoredIn(cat, old(table), DocId(coll, id)).value;
        Prepared(cat[coll], patch, id, before, command) && Written(before, Flatten(command), after)
      ensures ok <==> coll in cat && UpdateAllowed(cat, old(table), DocId(coll, id), command, after)
      ensures ok ==> Valid() && Db() == old(Db())[DocId(coll, id) := after]
      ensures ok ==> (IndexesAgree(cat, view) <==> PatchCovers(cat[coll], command, after))
      ensures ok && PatchCovers(cat[coll], command, after) ==> Inv()
      ensures ok ==> Logs(old(cdc), cdc, Action.Update, DocId(coll, id), command,
                          StoredIn(cat, old(table), DocId(coll, id)), timestamp, metadata)
      ensures ok ==> LogGrows(cat, old(table), old(cdc), table, cdc)
    {
      command, after := Null, Null;
      if coll !in cat { return false, command, after; }
      var c, did := cat[coll], DocId(coll, id);
      hide GoodCatalog, Holds, Sound, GoodReferences, Schema.Validates, Data, Pinned, CollectionReady, Logs, LogGrows,
        Accepts, IndexesAgree, PatchCovers, Written, Prepared;
      if c.readOnly { return false, command, after; }
      NotReadOnly(cat, coll);
      CollectionIsReady(cat, table, docs, coll);
      var before := Before(did);
      if before.None? { return false, command, after; }
      StoredIdIsValid(cat, view, table, did);
      var command' := PrepareUpdate(did, patch, before.value);
      var after' := Merge(c, id, before.value, command');
      command, after := command', after';
      if c.immutable || !c.Validates(after', id) { return false, command, after; }
      PatchTyped(cat, did, before.value, command', after');
      ok := PersistUpdate(did, before, command', after', timestamp, metadata);
    }

    method PrepareUpdate(did: DocId, patch: Json, before: Json) returns (command: Json)
      requires Valid() && did.coll in cat && patch.Obj? && Carries(before, cat[did.coll].pk, did.id)
      ensures command.Obj? && Prepared(cat[did.coll], patch, did.id, before, command)
      ensures Carries(command, cat[did.coll].pk, did.id)
    {
      var c := cat[did.coll];
      ImmutablePathsGood(cat, did.coll);
      KeyIsOneName(cat, did.coll);
      assert c.WellFormed();
      hide GoodCatalog, Holds, PrefixFree, Schema.WellFormed;
      var doc := WithKey(c, patch, did.id);
      LookupSetBelow(patch, c.pk, Str(did.id), c.pk);
      command := ForceImmutable(c, doc, before);
      PinnedPrimaryKey(c, doc, before, command, did.id);
    }

    /** before.Clone().SetAll(flat.Flatten(command)). */
    method Merge(c: Schema, id: Bytes, before: Json, command: Json) returns (after: Json)
      requires command.Obj? && Carries(command, c.pk, id)
      ensures Written(before, Flatten(command), after)
    {
      FlatPathsPrefixFree(command);
      FlatPathsExact(command, []);
      assert command.fields != map[];
      hide PrefixFree, Written;
      var clone := new Document(before);
      var ok, _ := clone.SetAll(Flatten(command));
      after := clone.result;
    }

    method PersistUpdate(did: DocId, before: Option<Json>, command: Json, after: Json, timestamp: int, metadata: Json)
      returns (ok: bool)
      requires Inv() && ValidDocId(cat, did) && did.coll != CDC_COLLECTION
      requires before == StoredIn(cat, table, did) && before.Some? && before.value.Obj? && command.Obj?
      requires Written(before.value, Flatten(command), after)
      requires cat[did.coll].Validates(after, did.id) && GoodReferences(cat, did, command)
      modifies this
      ensures ok <==> Accepts(cat, old(table), did, command)
      ensures ok ==> Valid() && Db() == old(Db())[did := after]
      ensures ok ==> (IndexesAgree(cat, view) <==> PatchCovers(cat[did.coll], command, after))
      ensures ok && PatchCovers(cat[did.coll], command, after) ==> Inv()
      ensures ok ==> Logs(old(cdc), cdc, Action.Update, did, command, before, timestamp, metadata)
      ensures ok ==> LogGrows(cat, old(table), old(cdc), table, cdc)
    {
      hide Holds, SoundExcept, Accepts, GoodReferences, CollectionReady, Rewritten, RecordWritten, IsDiff, Data,
        CdcDocument, Written, PatchCovers, SameEntryTails, IndexesAgree, GoodCatalog, LogGrows;
      ok := PutUpdate(did, before, command, after);
      if !ok { return; }
      ghost var t1, docs1 := table, docs;
      LogChange(Action.Update, did, command, before, timestamp, metadata);
      LogGrowsFurther(cat, old(table), old(cdc), t1, old(cdc), table, cdc);
      if PatchCovers(cat[did.coll], command, after) {
        RecordKeepsSound(cat, t1, table, docs1, docs, cdc[|old(cdc)|], map[]);
        SoundAgrees(cat, view, table, docs);
      } else {
        UpdateKeepsKeysWhen(cat[did.coll], before.value, command, after);
        UpdateOutcome(cat, old(table), table, did, after, command, docs1, docs, cdc[|old(cdc)|]);
        UncoveredDisagrees(cat, view, table, did, command, after);
      }
    }

    /** The entries of a covering patch are also those of the merged document. */
    method PutUpdate(did: DocId, before: Option<Json>, command: Json, after: Json) returns (ok: bool)
      requires Inv() && ValidDocId(cat, did) && did.coll != CDC_COLLECTION
      requires before == StoredIn(cat, table, did) && before.Some?
      requires Written(before.value, Flatten(command), after)
      requires cat[did.coll].Validates(after, did.id) && GoodReferences(cat, did, command)
      modifies this`view, this`table, this`docs
      ensures ok <==> Accepts(cat, old(table), did, command)
      ensures ok ==> Valid() && CDC_COLLECTION in cat && CollectionReady(cat, table, CDC_COLLECTION)
      ensures ok ==>
        if PatchCovers(cat[did.coll], command, after) then Inv() && Db() == old(Db())[did := after]
        else table == Rewritten(cat, old(table), did, after, command, cat[did.coll].Secondary())
      ensures ok ==> LogGrows(cat, old(table), cdc, table, cdc)
    {
      hide Holds, Sound, Accepts, GoodReferences, ReferencesReady, CollectionReady, OldEntries, Rewritten,
        CacheLearned, Data, Written, PatchCovers, SameEntryTails, GoodCatalog, LogGrows;
      SoundIsReady(cat, table, docs, did, command);
      ghost var t0, docs0 := table, docs;
      ok := PutDocument(did, before, after, command);
      if !ok { return; }
      LogStaysReady(cat, t0, did, after, command);
      WriteKeepsLog(cat, t0, did, after, command, cdc);
      WriteKeepsLog(cat, t0, did, after, after, cdc);
      if PatchCovers(cat[did.coll], command, after) {
        UpdateKeepsKeysWhen(cat[did.coll], before.value, command, after);
        UpdateRenames(cat, view, t0, did, after, command);
        CoveredAccepts(cat, t0, did, before.value, command, after);
        table := Rewritten(cat, t0, did, after, after, cat[did.coll].Secondary());
        WriteKeepsSound(cat, t0, table, docs0, docs, did, after);
        LogStaysReady(cat, t0, did, after, after);
      }
    }

    // ----- deletion -----

    /** deleteDocument, the cascade, then the index entries and the log record of the document itself. */
    method Delete(coll: Bytes, id: Bytes, ctx: Context, ghost pending: Docs) returns (ok: bool)
      requires Valid() && SoundExcept(cat, table, docs, pending) && (id == [] || ValidId(id))
      requires coll in cat ==> PendingBelow(cat, pending, coll)
      requires ctx.Open()
      modifies this
      ensures ok <==> coll in cat && id != [] && CanDelete(cat, old(Db()), DocId(coll, id))
      ensures coll in cat && (cat[coll].preventDeletes || cat[coll].immutable || cat[coll].readOnly) ==> !ok
      ensures ok ==> Valid() && SoundExcept(cat, table, docs, pending)
      ensures ok ==> Db() == old(Db()) - Doomed(cat, old(Db()), DocId(coll, id))
      ensures ok ==> LogsDeletes(cat, old(Db()), old(cdc), cdc, Doomed(cat, old(Db()), DocId(coll, id)), ctx)
      ensures ok ==> LogGrows(cat, old(table), old(cdc), table, cdc)
      decreases Above(cat, coll), 5
    {
      if coll !in cat || id == [] { return false; }
      var c, did := cat[coll], DocId(coll, id);
      hide GoodCatalog, Holds, SoundExcept, CanDelete, Doomed, LogsDeletes, LogGrows, PendingBelow, Data, Above;
      if c.readOnly || c.immutable || c.preventDeletes {
        UndeletableTarget(cat, Db(), did);
        return false;
      }
      var timestamp := Now(ctx);
      ok := DeleteDoomed(did, ctx.(from := timestamp), pending);
      if ok {
        LogsDeletesOf(cat, old(Db()), old(Db()), old(cdc), cdc, Doomed(cat, old(Db()), did), ctx.(from := timestamp),
            ctx);
      }
    }

    /** time.Now(), at some moment of the command. */
    method Now(ctx: Context) returns (timestamp: int)
      requires ctx.Open()
      ensures ctx.from <= timestamp < ctx.until
    {
      timestamp :| ctx.from <= timestamp < ctx.until;
    }

    /** The deletion itself, once the schema permits it; the command's time is where the context begins. */
    method DeleteDoomed(did: DocId, ctx: Context, ghost pending: Docs) returns (ok: bool)
      requires Valid() && SoundExcept(cat, table, docs, pending) && ValidDocId(cat, did) && Deletable(cat, did)
      requires PendingBelow(cat, pending, did.coll)
      requires ctx.Open()
      modifies this
      ensures ok <==> CanDelete(cat, old(Db()), did)
      ensures ok ==> Valid() && SoundExcept(cat, table, docs, pending)
      ensures ok ==> Db() == old(Db()) - Doomed(cat, old(Db()), did)
      ensures ok ==> LogsDeletes(cat, old(Db()), old(cdc), cdc, Doomed(cat, old(Db()), did), ctx)
      ensures ok ==> LogGrows(cat, old(table), old(cdc), table, cdc)
      decreases Above(cat, did.coll), 4, 2
    {
      hide GoodCatalog, Holds, SoundExcept, AllDeletable, Doomed, LogsDeletes, LogGrows, PendingBelow, Data, Cascading,
        Above, Deletable, AndPending, Own, ValidId, Context.Open;
      LogIsNotDeletable(cat, did);
      ghost var db, t0, docs0 := Db(), table, docs;
      var before := DeletePrimary(did, pending);
      CanDeleteMeans(cat, db, did);
      ghost var t1 := table;
      ghost var log1;
      ok, log1 := CascadeAndFinish(did, before, ctx, pending);
      if ok {
        LogGrowsFurther(cat, t0, old(cdc), t1, old(cdc), table, cdc);
        DeletionOutcome(cat, db, old(cdc), Db(), log1, cdc, table, docs, pending, t0, docs0, did, before, ctx);
      }
    }

    /** What follows once the primary entry is gone. `log1` is the log between cascade and finish. */
    method CascadeAndFinish(did: DocId, before: Option<Json>, ctx: Context, ghost pending: Docs)
      returns (ok: bool, ghost log1: seq<CDC>)
      requires Valid() && ValidDocId(cat, did) && Deletable(cat, did) && did.coll != CDC_COLLECTION
      requires SoundExcept(cat, table, docs, AndPending(pending, did, before)) && PendingBelow(cat, pending, did.coll)
      requires did !in pending && did !in Db() && (before.Some? ==> before.value.Obj?)
      requires ctx.Open()
      modifies this
      ensures !ok ==> !AllDeletable(cat, old(Db()), did) || (before.None? && cat[did.coll].Secondary() != {})
      ensures ok ==> Valid() && SoundExcept(cat, table, docs, pending)
      ensures ok ==> before.Some? || cat[did.coll].Secondary() == {}
      ensures ok ==> Cascading(cat, old(Db()), old(cdc), Db(), log1, did, ctx)
      ensures ok ==> LogsDeletes(cat, Own(did, before), log1, cdc, {did}, ctx)
      ensures ok ==> LogGrows(cat, old(table), old(cdc), table, cdc)
      decreases Above(cat, did.coll), 4, 1
    {
      hide GoodCatalog, Holds, SoundExcept, Cascading, AllDeletable, LogsDeletes, LogGrows, PendingBelow, PendingUpTo,
        Data, NoChildren, Above, Deletable, AndPending, Own;
      log1 := cdc;
      PendingIsUpTo(cat, pending, did, before);
      ok := CascadeDelete(did, ctx, AndPending(pending, did, before));
      if !ok { return; }
      CascadeIsWithin(cat, old(Db()), old(cdc), Db(), cdc, did, ctx);
      log1 := cdc;
      ghost var t1 := table;
      ok := FinishDelete(did, before, ctx, pending);
      if ok { LogGrowsFurther(cat, old(table), old(cdc), t1, log1, table, cdc); }
    }

    /** Reads the document, then removes its primary entry: from now on it is pending. */
    method DeletePrimary(did: DocId, ghost pending: Docs) returns (before: Option<Json>)
      requires Valid() && SoundExcept(cat, table, docs, pending) && ValidDocId(cat, did) && did.coll != CDC_COLLECTION
      requires PendingBelow(cat, pending, did.coll)
      modifies this`view, this`table
      ensures Valid() && SoundExcept(cat, table, docs, AndPending(pending, did, before))
      ensures Db() == old(Db()) - {did} && (before.Some? ==> before.value.Obj?)
      ensures before == VersionOf(old(Db()), did) && did !in pending
      ensures LogGrows(cat, old(table), cdc, table, cdc)
    {
      hide GoodCatalog, Holds, SoundExcept, PendingBelow, PendingUpTo, Data, CollectionReady, LogGrows, AndPending,
        VersionOf, StoredIn, ValidId;
      PendingIsUpTo(cat, pending, did, None);
      RemovalKeepsLog(cat, table, {Prim(cat, did)}, cdc);
      DeletionReady(cat, table, docs, pending, did.coll);
      before := Before(did);
      DeletionBegins(cat, table, docs, pending, did);
      DeleteDocument(did);
    }

    /** Every document that refers to this one is deleted, collection by collection in any order. */
    method CascadeDelete(did: DocId, ctx: Context, ghost pending: Docs) returns (ok: bool)
      requires Valid() && SoundExcept(cat, table, docs, pending) && ValidDocId(cat, did) && Deletable(cat, did)
      requires did !in Db() && PendingUpTo(cat, pending, did.coll)
      requires ctx.Open()
      modifies this
      ensures !ok ==> !AllDeletable(cat, old(Db()), did)
      ensures ok ==> Valid() && SoundExcept(cat, table, docs, pending) && NoChildren(cat, Db(), did)
      ensures ok ==> Cascading(cat, old(Db()), old(cdc), Db(), cdc, did, ctx)
      ensures ok ==> LogGrows(cat, old(table), old(cdc), table, cdc)
      decreases Above(cat, did.coll), 4, 0
    {
      hide GoodCatalog, Holds, SoundExcept, Cascading, NoRepeats, ChildDocs, AllGone, NoneThrough, FoundAll,
        AllDeletable, CanDelete, Doomed, Reaches, LogsDeletes, LogGrows, Within, PendingBelow, PendingUpTo, Data,
        CollectionReady, NoChildren, Above, Deletable, Schema.WellFormed;
      ghost var db0, log0 := Db(), cdc;
      CascadeStarts(cat, db0, log0, did, ctx);
      LogStays(cat, table, cdc);
      var todo := cat.Keys;
      while todo != {}
        invariant todo <= cat.Keys
        invariant Valid() && SoundExcept(cat, table, docs, pending)
        invariant Cascading(cat, db0, log0, Db(), cdc, did, ctx) && LogGrows(cat, old(table), old(cdc), table, cdc)
        invariant forall c, n :: c in cat && c !in todo && n in cat[c].indexes ==> NoneThrough(cat, Db(), c, n, did)
        decreases todo
      {
        var coll :| coll in todo;
        ghost var was, t1, log1 := Db(), table, cdc;
        ok := CascadeCollection(coll, did, ctx, pending, db0, log0);
        if !ok { return; }
        LogGrowsFurther(cat, old(table), old(cdc), t1, log1, table, cdc);
        todo := todo - {coll};
        forall c, n | c in cat && c !in todo && n in cat[c].indexes ensures NoneThrough(cat, Db(), c, n, did) {
          if c != coll { NoneThroughStable(cat, was, Db(), c, n, did); }
        }
      }
      NoneThroughAnything(cat, Db(), did);
      ok := true;
    }

    /** The foreign-key indexes of one collection. */
    method CascadeCollection(coll: Bytes, did: DocId, ctx: Context, ghost pending: Docs,
        ghost db0: Docs, ghost log0: seq<CDC>) returns (ok: bool)
      requires Valid() && SoundExcept(cat, table, docs, pending) && ValidDocId(cat, did) && coll in cat
      requires PendingUpTo(cat, pending, did.coll) && Cascading(cat, db0, log0, Db(), cdc, did, ctx)
      requires ctx.Open()
      modifies this
      ensures !ok ==> !AllDeletable(cat, db0, did)
      ensures ok ==> Valid() && SoundExcept(cat, table, docs, pending) && Cascading(cat, db0, log0, Db(), cdc, did, ctx)
      ensures ok ==> Within(Db(), old(Db())) && forall n :: n in cat[coll].indexes ==>
          NoneThrough(cat, Db(), coll, n, did)
      ensures ok ==> LogGrows(cat, old(table), old(cdc), table, cdc)
      decreases Above(cat, did.coll), 3
    {
      hide GoodCatalog, Holds, SoundExcept, Cascading, NoRepeats, ChildDocs, AllGone, NoneThrough, FoundAll,
        AllDeletable, CanDelete, Doomed, Reaches, LogsDeletes, LogGrows, Within, PendingBelow, PendingUpTo, Data,
        CollectionReady, NoChildren, Above, Deletable, Schema.WellFormed;
      var c := cat[coll];
      var todo := c.indexes.Keys;
      WithinItself(Db());
      LogStays(cat, table, cdc);
      while todo != {}
        invariant todo <= c.indexes.Keys
        invariant Valid() && SoundExcept(cat, table, docs, pending)
        invariant Cascading(cat, db0, log0, Db(), cdc, did, ctx) && Within(Db(), old(Db()))
        invariant LogGrows(cat, old(table), old(cdc), table, cdc)
        invariant forall n :: n in c.indexes && n !in todo ==> NoneThrough(cat, Db(), coll, n, did)
        decreases todo
      {
        var n :| n in todo;
        ghost var was, t1, log1 := Db(), table, cdc;
        if c.indexes[n].RefersTo(did.coll) {
          ok := CascadeIndex(coll, n, did, ctx, pending, db0, log0);
          if !ok { return; }
          LogGrowsFurther(cat, old(table), old(cdc), t1, log1, table, cdc);
          WithinTransitive(Db(), was, old(Db()));
        } else {
          WithinItself(Db());
          NoneThroughOther(cat, Db(), coll, n, did);
        }
        todo := todo - {n};
        forall m | m in c.indexes && m !in todo ensures NoneThrough(cat, Db(), coll, m, did) {
          if m != n { NoneThroughStable(cat, was, Db(), coll, m, did); }
        }
      }
      ok := true;
    }

    /** Finds the documents that refer through one index, and deletes them. */
    method CascadeIndex(coll: Bytes, n: Bytes, did: DocId, ctx: Context, ghost pending: Docs,
        ghost db0: Docs, ghost log0: seq<CDC>) returns (ok: bool)
      requires Valid() && SoundExcept(cat, table, docs, pending) && ValidDocId(cat, did)
      requires coll in cat && n in cat[coll].indexes && cat[coll].indexes[n].RefersTo(did.coll)
      requires PendingUpTo(cat, pending, did.coll) && Cascading(cat, db0, log0, Db(), cdc, did, ctx)
      requires ctx.Open()
      modifies this
      ensures !ok ==> !AllDeletable(cat, db0, did)
      ensures ok ==> Valid() && SoundExcept(cat, table, docs, pending) && Cascading(cat, db0, log0, Db(), cdc, did, ctx)
      ensures ok ==> Within(Db(), old(Db())) && NoneThrough(cat, Db(), coll, n, did)
      ensures ok ==> LogGrows(cat, old(table), old(cdc), table, cdc)
      decreases Above(cat, did.coll), 2
    {
      hide GoodCatalog, Holds, SoundExcept, Cascading, NoRepeats, ChildDocs, AllGone, NoneThrough, FoundAll,
        AllDeletable, CanDelete, Doomed, Reaches, LogsDeletes, LogGrows, Within, PendingBelow, PendingUpTo, Data,
        CollectionReady, NoChildren, Above, Deletable, Schema.WellFormed;
      ReferringCollection(cat, coll, n, did.coll);
      PendingIsBelow(cat, pending, did.coll, coll);
      DeletionReady(cat, table, docs, pending, coll);
      ghost var view0, t0 := view, table;
      var found := FindReferring(coll, n, did);
      FoundAreChildren(cat, view, table, coll, n, did, found);
      ok := DeleteEach(coll, n, found, did, ctx, pending, db0, log0);
      if ok {
        NoneLeftThrough(cat, view0, t0, coll, n, did, found, Db());
      }
    }

    method FindReferring(coll: Bytes, n: Bytes, did: DocId) returns (found: seq<Json>)
      requires Valid() && coll in cat && CollectionReady(cat, table, coll) && ValidId(did.id)
      requires cat[coll].WellFormed() && n in cat[coll].indexes
      requires |cat[coll].indexes[n].fields| == 1 && cat[coll].indexes[n].fields[0] != []
      ensures FoundAll(cat, table, coll, n, did.id, found) && NoRepeats(found)
    {
      hide GoodCatalog, Holds, CollectionReady, FoundAll, Schema.WellFormed, NeedsIndex, Answers, ScanDocs;
      var where := ReferenceClause(cat[coll].indexes[n], did.id);
      ReferenceNeedsNoIndex(cat[coll], n, did.id);
      var st, results, plan := RunQuery(coll, Query(where, [], 0, 0));
      ReferenceScan(cat, view, backend, table, coll, n, did.id, plan);
      found := results;
    }

    method DeleteEach(coll: Bytes, n: Bytes, found: seq<Json>, did: DocId, ctx: Context,
          ghost pending: Docs,
        ghost db0: Docs, ghost log0: seq<CDC>) returns (ok: bool)
      requires Valid() && SoundExcept(cat, table, docs, pending)
      requires coll in cat && did.coll in cat && cat[did.coll].level < cat[coll].level
      requires PendingBelow(cat, pending, coll)
      requires Cascading(cat, db0, log0, Db(), cdc, did, ctx)
      requires NoRepeats(found) && ChildDocs(cat, Db(), coll, n, did, found)
      requires ctx.Open()
      modifies this
      ensures !ok ==> !AllDeletable(cat, db0, did)
      ensures ok ==> Valid() && SoundExcept(cat, table, docs, pending) && Cascading(cat, db0, log0, Db(), cdc, did, ctx)
      ensures ok ==> Within(Db(), old(Db())) && AllGone(cat, Db(), coll, found)
      ensures ok ==> LogGrows(cat, old(table), old(cdc), table, cdc)
      decreases Above(cat, did.coll), 1
    {
      hide GoodCatalog, Holds, SoundExcept, Cascading, NoRepeats, ChildDocs, AllGone, NoneThrough, FoundAll,
        AllDeletable, CanDelete, Doomed, Reaches, LogsDeletes, LogGrows, Within, PendingBelow, PendingUpTo, Data,
        CollectionReady, NoChildren, Above, Deletable, Schema.WellFormed;
      AboveShrinks(cat, coll, did.coll);
      WithinItself(Db());
      NothingGone(cat, Db(), coll);
      LogStays(cat, table, cdc);
      assert found[0..] == found;
      for k := 0 to |found|
        invariant Valid() && SoundExcept(cat, table, docs, pending)
        invariant Cascading(cat, db0, log0, Db(), cdc, did, ctx) && Within(Db(), old(Db()))
        invariant LogGrows(cat, old(table), old(cdc), table, cdc)
        invariant NoRepeats(found[k..]) && ChildDocs(cat, Db(), coll, n, did, found[k..])
        invariant AllGone(cat, Db(), coll, found[..k])
      {
        ghost var t1, log1 := table, cdc;
        ok := DeleteChild(coll, n, found[k..], did, ctx, pending, db0, log0, old(Db()), found[..k]);
        if !ok { return; }
        LogGrowsFurther(cat, old(table), old(cdc), t1, log1, table, cdc);
        assert found[k..][1..] == found[k + 1..];
        assert found[..k] + [found[k..][0]] == found[..k + 1];
      }
      assert found[..|found|] == found;
      ok := true;
    }

    /** One referring document. The ghosts say where the cascade began and what is done already. */
    method DeleteChild(coll: Bytes, n: Bytes, rest: seq<Json>, did: DocId, ctx: Context,
          ghost pending: Docs,
        ghost db0: Docs, ghost log0: seq<CDC>, ghost start: Docs, ghost done: seq<Json>) returns (ok: bool)
      requires Valid() && SoundExcept(cat, table, docs, pending)
      requires coll in cat && did.coll in cat && Above(cat, coll) < Above(cat, did.coll)
      requires PendingBelow(cat, pending, coll)
      requires Cascading(cat, db0, log0, Db(), cdc, did, ctx) && Within(Db(), start)
      requires rest != [] && NoRepeats(rest) && ChildDocs(cat, Db(), coll, n, did, rest)
      requires AllGone(cat, Db(), coll, done)
      requires ctx.Open()
      modifies this
      ensures !ok ==> !AllDeletable(cat, db0, did)
      ensures ok ==> Valid() && SoundExcept(cat, table, docs, pending) && Cascading(cat, db0, log0, Db(), cdc, did, ctx)
      ensures ok ==> Within(Db(), start) && AllGone(cat, Db(), coll, done + [rest[0]])
      ensures ok ==> NoRepeats(rest[1..]) && ChildDocs(cat, Db(), coll, n, did, rest[1..])
      ensures ok ==> LogGrows(cat, old(table), old(cdc), table, cdc)
      decreases Above(cat, did.coll), 0
    {
      hide GoodCatalog, Holds, SoundExcept, Cascading, NoRepeats, ChildDocs, AllGone, CanDelete, AllDeletable, Doomed,
        LogsDeletes, LogGrows, KeyText, Within, PendingBelow, Above, Data, Child;
      ghost var cur, log := Db(), cdc;
      FirstChild(cat, cur, coll, n, did, rest);
      ghost var x := DocId(coll, KeyText(cat[coll], rest[0]));
      ok := Delete(coll, KeyText(cat[coll], rest[0]), ctx, pending);
      if !ok {
        FoundBlocks(cat, db0, log0, cur, log, x, n, did, ctx);
        return;
      }
      CanDeleteMeans(cat, cur, x);
      CascadeStep(cat, db0, log0, cur, log, cdc, x, n, did, ctx);
      NoRepeatsRest(rest);
      OthersRemain(cat, cur, coll, n, did, rest);
      WithinRemoved(cur, Doomed(cat, cur, x), start);
      WithinItself(cur);
      WithinRemoved(cur, Doomed(cat, cur, x), cur);
      DoomedIncludesTarget(cat, cur, x);
      GoneStaysGone(cat, cur, Db(), coll, done, rest[0]);
    }

    /** The document is forgotten by the cache, its index entries go, the deletion is logged. */
    method FinishDelete(did: DocId, before: Option<Json>, ctx: Context, ghost pending: Docs)
      returns (ok: bool)
      requires Valid() && ValidDocId(cat, did) && did.coll != CDC_COLLECTION && did !in pending && did !in Db()
      requires SoundExcept(cat, table, docs, AndPending(pending, did, before))
      requires PendingBelow(cat, pending, did.coll) && NoChildren(cat, Db(), did) &&
          (before.Some? ==> before.value.Obj?)
      requires ctx.Open()
      modifies this
      ensures ok <==> before.Some? || cat[did.coll].Secondary() == {}
      ensures ok ==> Valid() && SoundExcept(cat, table, docs, pending) && Db() == old(Db())
      ensures ok ==> LogsDeletes(cat, Own(did, before), old(cdc), cdc, {did}, ctx)
      ensures ok ==> LogGrows(cat, old(table), old(cdc), table, cdc)
    {
      hide GoodCatalog, Holds, SoundExcept, NoChildren, LogsDeletes, LogGrows, PendingBelow, Data, CacheKey,
        CollectionReady, IsDiff, RecordWritten, OldEntries;
      if before.None? && cat[did.coll].Secondary() != {} { return false; }
      ghost var pending' := AndPending(pending, did, before);
      CacheShrinks(cat, table, docs, docs - {CacheKey(did)}, pending');
      docs := docs - {CacheKey(did)};
      NotStored(cat, table, did);
      PendingEntries(cat, table, docs, pending, did, before);
      DeletionEnds(cat, table, docs, pending, did, before);
      RemovalKeepsLog(cat, table, SlotSet(did, cat[did.coll].Secondary()), cdc);
      DropEntries(did, before);
      DeletionReady(cat, table, docs, pending, did.coll);
      KeyIsOneName(cat, did.coll);
      var doc := WithKey(cat[did.coll], EMPTY_OBJECT, did.id);
      ghost var t1, docs1 := table, docs;
      LogChange(Action.Delete, did, doc, before, ctx.from, ctx.metadata);
      RecordKeepsSound(cat, t1, table, docs1, docs, cdc[|old(cdc)|], pending);
      LogGrowsFurther(cat, old(table), old(cdc), t1, old(cdc), table, cdc);
      LogsOneDelete(cat, old(cdc), cdc, did, before, ctx.from, ctx);
      ok := true;
    }

    /** updateSecondaryIndex for delete, for all indexes in any order. */
    method DropEntries(did: DocId, before: Option<Json>)
      requires Valid() && ValidDocId(cat, did) && OldEntries(cat, table, did, before)
      requires before.None? ==> cat[did.coll].Secondary() == {}
      modifies this`view, this`table
      ensures Valid() && table == old(table) - SlotSet(did, cat[did.coll].Secondary())
    {
      hide GoodCatalog, Holds, KeyOf, SlotSet;
      NoSlots(did);
      var todo := cat[did.coll].Secondary();
      ghost var done: set<Bytes> := {};
      while todo != {}
        invariant Valid() && done !! todo && done + todo == cat[did.coll].Secondary()
        invariant table == old(table) - SlotSet(did, done)
        decreases todo
      {
        var n :| n in todo;
        var s := Slot(did, n);
        assert s in table ==> s in old(table) && before == Some(old(table)[s]);
        DeleteIndexEntry(s, before.value);
        OneSlotMore(did, done, n);
        done, todo := done + {n}, todo - {n};
      }
      assert done == cat[did.coll].Secondary();
    }

    // ----- runs -----

    ghost function Current(): State
      reads this
    {
      State(Db(), cdc)
    }

    method Execute(cmd: Command, ctx: Context) returns (ok: bool, ghost id: Bytes)
      requires Inv() && Admissible(cat, cmd) && ctx.Open()
      modifies this
      ensures ok ==> Inv() && Effect(cat, old(Current()), Current(), cmd, id, ctx)
      ensures ok ==> LogGrows(cat, old(table), old(cdc), table, cdc)
    {
      hide Holds, GoodCatalog, SoundExcept, Data, Doomed, CanDelete, LogsDeletes, LogGrows, Acceptable, FullPatch,
        CreateEffect, SetEffect, UpdateEffect, KeyText;
      id := [];
      match cmd
      case CreateDoc(coll, doc) =>
        ok, id := ExecuteCreate(coll, doc, ctx);
      case SetDoc(coll, doc) =>
        ok := ExecuteSet(coll, doc, ctx);
      case UpdateDoc(coll, i, patch) =>
        ok := ExecuteUpdate(coll, i, patch, ctx);
      case DeleteDoc(coll, i) =>
        NothingPending(cat, coll);
        ok := Delete(coll, i, ctx, map[]);
    }

    method ExecuteCreate(coll: Bytes, doc: Json, ctx: Context) returns (ok: bool, ghost id: Bytes)
      requires Inv() && Acceptable(cat, coll, doc) && ctx.Open()
      modifies this
      ensures ok ==> Inv() && coll in cat && !cat[coll].readOnly
      ensures ok ==> CreateEffect(cat, old(Current()), Current(), DocId(coll, id), doc, ctx)
      ensures ok ==> LogGrows(cat, old(table), old(cdc), table, cdc)
    {
      hide Holds, GoodCatalog, Sound, Data, LogGrows, KeyText, WithKey, Accepts, Schema.Validates, IsDiff;
      ghost var t0 := table;
      var timestamp := Now(ctx);
      var done, new' := Create(coll, doc, timestamp, ctx.metadata);
      ok, id := done, new';
      if ok {
        NotReadOnly(cat, coll);
        AcceptedBySchema(cat[coll], WithKey(cat[coll], doc, id), id);
        DataExact(cat, t0, DocId(coll, id));
      }
    }

    method ExecuteSet(coll: Bytes, doc: Json, ctx: Context) returns (ok: bool)
      requires Inv() && Acceptable(cat, coll, doc) && ctx.Open()
      modifies this
      ensures ok ==> Inv() && coll in cat
      ensures ok ==> SetEffect(cat, old(Current()), Current(), DocId(coll, KeyText(cat[coll], doc)), doc, ctx)
      ensures ok ==> Permitted(cat, old(Db()), SetDoc(coll, doc), [])
      ensures ok ==> LogGrows(cat, old(table), old(cdc), table, cdc)
    {
      hide Holds, GoodCatalog, Sound, Data, Pinned, LogGrows, Acceptable, KeyText, Accepts, Schema.Validates, IsDiff;
      ghost var t0 := table;
      ghost var stored;
      var timestamp := Now(ctx);
      ok, stored := Set(coll, doc, timestamp, ctx.metadata);
      if ok {
        NotReadOnly(cat, coll);
        AcceptedBySchema(cat[coll], stored, KeyText(cat[coll], doc));
        DataExact(cat, t0, DocId(coll, KeyText(cat[coll], doc)));
      }
    }

    method ExecuteUpdate(coll: Bytes, id: Bytes, patch: Json, ctx: Context) returns (ok: bool)
      requires Inv() && Admissible(cat, UpdateDoc(coll, id, patch)) && ctx.Open()
      modifies this
      ensures ok ==> Inv() && coll in cat && UpdateEffect(cat, old(Current()), Current(), DocId(coll, id), patch, ctx)
      ensures ok ==> Permitted(cat, old(Db()), UpdateDoc(coll, id, patch), [])
      ensures ok ==> LogGrows(cat, old(table), old(cdc), table, cdc)
    {
      hide Holds, GoodCatalog, Sound, Data, Prepared, LogGrows, FullPatch, PatchCovers, Written, Accepts,
        Schema.Validates, PrefixFree, IndexesAgree, IsDiff;
      ghost var t0, did, s := table, DocId(coll, id), Current();
      ghost var command, after;
      var timestamp := Now(ctx);
      ok, command, after := Update(coll, id, patch, timestamp, ctx.metadata);
      if ok {
        NotReadOnly(cat, coll);
        AcceptedBySchema(cat[coll], after, id);
        DataExact(cat, t0, did);
        KeyAndImmutable(cat, coll);
        FullPatchCovers(cat[coll], patch, id, StoredIn(cat, t0, did).value, command, after);
        assert UpdatedWith(cat, s, Current(), did, patch, ctx, command);
      }
    }

    /** Runs commands until one fails, each in its own context. After any number of successful commands
        the store is an exact image of the documents the commands have made, and their log records are
        documents of the log collection. */
    method Run(commands: seq<Command>, ctxs: seq<Context>) returns (ok: bool, ghost trace: seq<State>,
        ghost ids: seq<Bytes>)
      requires Inv() && |ctxs| == |commands|
      requires forall k :: 0 <= k < |commands| ==> Admissible(cat, commands[k]) && ctxs[k].Open()
      modifies this
      ensures ok ==> Inv() && Follows(cat, trace, commands, ids, ctxs)
      ensures ok ==> trace[0] == old(Current()) && trace[|commands|] == Current()
      ensures ok ==> forall s :: s in trace ==> KeysCarried(cat, s.docs)
      ensures ok ==> LogGrows(cat, old(table), old(cdc), table, cdc)
    {
      hide Holds, GoodCatalog, Sound, Data, Admissible, Effect, LogGrows, KeysCarried;
      trace, ids := [Current()], [];
      DataCarriesKeys(cat, view, table);
      LogStays(cat, table, cdc);
      for k := 0 to |commands|
        invariant Inv() && Follows(cat, trace, commands[..k], ids, ctxs[..k])
        invariant trace[0] == old(Current()) && trace[k] == Current()
        invariant forall s :: s in trace ==> KeysCarried(cat, s.docs)
        invariant LogGrows(cat, old(table), old(cdc), table, cdc)
      {
        ghost var id;
        ghost var t1, log1 := table, cdc;
        ok, id := Execute(commands[k], ctxs[k]);
        if !ok { return; }
        LogGrowsFurther(cat, old(table), old(cdc), t1, log1, table, cdc);
        DataCarriesKeys(cat, view, table);
        FollowsMore(cat, trace, commands[..k], ids, ctxs[..k], Current(), commands[k], id, ctxs[k]);
        assert commands[..k] + [commands[k]] == commands[..k + 1] && ctxs[..k] + [ctxs[k]] == ctxs[..k + 1];
        trace, ids := trace + [Current()], ids + [id];
      }
      assert commands[..|commands|] == commands && ctxs[..|commands|] == ctxs;
      ok := true;
    }

    /** defaultDB.Tx on a new transaction: takes effect if every command succeeds and the backend, which may
        refuse, `commits`; otherwise everything is rolled back. */
    method Tx(commands: seq<Command>, ctxs: seq<Context>, commits: bool)
      returns (ok: bool, ghost trace: seq<State>, ghost ids: seq<Bytes>)
      requires Inv() && |ctxs| == |commands|
      requires forall k :: 0 <= k < |commands| ==> Admissible(cat, commands[k]) && ctxs[k].Open()
      modifies this
      ensures Inv() && cdc == []
      ensures ok ==> commits && Follows(cat, trace, commands, ids, ctxs)
      ensures ok ==> trace[0] == old(Current()) && trace[|commands|].docs == Db()
      ensures ok ==> forall s :: s in trace ==> KeysCarried(cat, s.docs)
      ensures ok ==> LogGrows(cat, old(table), old(cdc), table, trace[|commands|].log)
      ensures !ok ==> view == old(view) && table == old(table)
    {
      hide Holds, GoodCatalog, SoundExcept, Data, Admissible, Follows, LogGrows, KeysCarried;
      var committed := view;
      ghost var entries := table;
      CacheShrinks(cat, table, docs, {}, map[]);
      ok, trace, ids := Run(commands, ctxs);
      cdc, ok := [], ok && commits;
      if !ok {
        view, table, docs := committed, entries, {};
      }
    }

    /** What the change log is for: after any successful run of commands, of which command j began at
        ctxs[j].from, traveling to that moment brings back what document `did` was before command j.
        `prior` are the records of earlier transactions, `h0` the document's history so far, `paths` the
        leaf paths its versions have in common. */
    method RunThenTravel(commands: seq<Command>, ctxs: seq<Context>, did: DocId, j: nat, ghost prior: seq<CDC>,
        ghost h0: History,
          ghost paths: set<Path>)
      returns (ok: bool, r: Outcome, ghost trace: seq<State>, ghost ids: seq<Bytes>)
      requires Inv() && |ctxs| == |commands| && j < |commands| && InOrder(ctxs)
      requires forall k :: 0 <= k < |commands| ==> Admissible(cat, commands[k])
      requires CDC_COLLECTION in cat && LogIndexed(cat[CDC_COLLECTION]) && LogIs(cat, table, prior + cdc)
      requires did.coll in cat && did.coll != CDC_COLLECTION && PlainText(did.coll)
      requires Chronicle(cat, prior, Current(), did, paths, h0) && AllBefore(h0, ctxs[0].from)
      modifies this
      ensures ok ==> Inv() && Follows(cat, trace, commands, ids, ctxs)
      ensures ok ==> trace[0] == old(Current()) && trace[|commands|] == Current()
      ensures ok && did in Db() && KeepsPaths(trace, did, paths) && (forall c :: c in prior + cdc ==> Readable(c)) ==>
        Returns(cat, trace, commands, ids, did, j, r)
    {
      hide GoodCatalog, Holds, SoundExcept, Data, Admissible, Effect, LogGrows, LogIs, LogIndexed, KeysCarried,
        Chronicle, AllBefore, KeepsPaths, Readable, Returns, Chosen, Traveled;
      r := NotFound;
      ok, trace, ids := Run(commands, ctxs);
      if !ok { return; }
      LogGrown(cat, old(table), old(cdc), table, cdc, prior);
      CollectionIsReady(cat, table, docs, did.coll);
      CollectionIsReady(cat, table, docs, CDC_COLLECTION);
      ghost var chosen;
      r, chosen := TimeTravel(did.coll, did.id, ctxs[j].from, prior + cdc);
      DataExact(cat, table, did);
      if did in Db() && KeepsPaths(trace, did, paths) && (forall c :: c in prior + cdc ==> Readable(c)) {
        TimeTravelInvertsRuns(cat, trace, commands, ids, ctxs, did, paths, prior, h0, j, chosen);
      }
    }
  }
}
