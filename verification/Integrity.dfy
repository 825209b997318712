/** Constraints that hold between the documents of all collections. */
module Integrity {
  import opened ByteStrings
  import opened Json
  import opened Schemas
  import opened Indexing
  import opened Store
  import opened Scan

  // ----- foreign keys -----

  /** The document that a foreign-key index of a document points to. */
  function Parent(cat: Catalog, coll: Bytes, doc: Json, n: Bytes): Option<DocId>
    requires coll in cat && n in cat[coll].indexes
  {
    var i := cat[coll].indexes[n];
    if i.foreign.Some? && i.fields != [] && Get(doc, i.fields[0]).Str?
    then Some(DocId(i.foreign.value.collection, Get(doc, i.fields[0]).s)) else None
  }

  /** A foreign-key field holds a string or nothing. */
  predicate ReferenceTyped(cat: Catalog, coll: Bytes, doc: Json, n: Bytes)
    requires coll in cat && n in cat[coll].indexes
  {
    var i := cat[coll].indexes[n];
    i.foreign.Some? && i.fields != [] ==> Get(doc, i.fields[0]).Str? || Get(doc, i.fields[0]).Null?
  }

  ghost predicate ReferenceMet(cat: Catalog, db: Docs, pending: Docs, did: DocId, n: Bytes)
    requires did in db && did.coll in cat && n in cat[did.coll].indexes
  {
    var p := Parent(cat, did.coll, db[did], n);
    ReferenceTyped(cat, did.coll, db[did], n) && (p.Some? ==> p.value in db || p.value in pending)
  }

  /** Every foreign key that is not null names a stored document, or one that is just being deleted. */
  ghost predicate Referential(cat: Catalog, db: Docs, pending: Docs) {
    forall did, n {:trigger ReferenceMet(cat, db, pending, did, n)} ::
      did in db && did.coll in cat && n in cat[did.coll].indexes ==> ReferenceMet(cat, db, pending, did, n)
  }

  /** `x` is `target` or refers to it through a chain of stored documents. */
  ghost predicate Reaches(cat: Catalog, db: Docs, x: DocId, target: DocId)
    requires GoodCatalog(cat)
    decreases if x.coll in cat then cat[x.coll].level else 0
  {
    || x == target
    || (x in db && x.coll in cat && exists n :: n in cat[x.coll].indexes && ReachesThrough(cat, db, x, n, target))
  }

  ghost predicate ReachesThrough(cat: Catalog, db: Docs, x: DocId, n: Bytes, target: DocId)
    requires GoodCatalog(cat) && x in db && x.coll in cat && n in cat[x.coll].indexes
    decreases cat[x.coll].level, 0
  {
    var p := Parent(cat, x.coll, db[x], n);
    && p.Some?
    && GoodReference(cat, x.coll, p.value.coll)
    && Reaches(cat, db, p.value, target)
  }

  ghost predicate Within(small: Docs, large: Docs) {
    forall did :: did in small ==> did in large && small[did] == large[did]
  }

  lemma {:induction false} ReachesMonotone(cat: Catalog, small: Docs, large: Docs, x: DocId, target: DocId)
    requires GoodCatalog(cat) && Within(small, large) && Reaches(cat, small, x, target)
    ensures Reaches(cat, large, x, target)
    decreases if x.coll in cat then cat[x.coll].level else 0
  {
    hide GoodCatalog;
    if x != target {
      var n :| n in cat[x.coll].indexes && ReachesThrough(cat, small, x, n, target);
      var p := Parent(cat, x.coll, small[x], n).value;
      ReachesMonotone(cat, small, large, p, target);
      assert ReachesThrough(cat, large, x, n, target);
    }
  }

  lemma {:induction false} ReachesTransitive(cat: Catalog, db: Docs, x: DocId, y: DocId, target: DocId)
    requires GoodCatalog(cat) && Reaches(cat, db, x, y) && Reaches(cat, db, y, target)
    ensures Reaches(cat, db, x, target)
    decreases if x.coll in cat then cat[x.coll].level else 0
  {
    hide GoodCatalog;
    if x != y {
      var n :| n in cat[x.coll].indexes && ReachesThrough(cat, db, x, n, y);
      var p := Parent(cat, x.coll, db[x], n).value;
      ReachesTransitive(cat, db, p, y, target);
      assert ReachesThrough(cat, db, x, n, target);
    }
  }

  /** Referring documents live in collections of a higher level. */
  lemma {:induction false} ReachesUpward(cat: Catalog, db: Docs, x: DocId, target: DocId)
    requires GoodCatalog(cat) && Reaches(cat, db, x, target) && x != target && target.coll in cat
    ensures x in db && x.coll in cat && cat[target.coll].level < cat[x.coll].level
    decreases if x.coll in cat then cat[x.coll].level else 0
  {
    hide GoodCatalog;
    var n :| n in cat[x.coll].indexes && ReachesThrough(cat, db, x, n, target);
    var p := Parent(cat, x.coll, db[x], n).value;
    if p != target { ReachesUpward(cat, db, p, target); }
  }

  /** Once the target is gone and all references are met again, nothing that led to it is left. */
  lemma {:induction false} NothingLeftThatReaches(cat: Catalog, db: Docs, cur: Docs, pending: Docs, x: DocId,
        target: DocId)
    requires GoodCatalog(cat) && Within(cur, db) && Referential(cat, cur, pending)
    requires target !in cur && target !in pending && (forall did :: did in pending ==> did !in db)
    requires Reaches(cat, db, x, target)
    ensures x !in cur
    decreases if x.coll in cat then cat[x.coll].level else 0
  {
    hide GoodCatalog;
    if x != target && x in cur {
      var n :| n in cat[x.coll].indexes && ReachesThrough(cat, db, x, n, target);
      var p := Parent(cat, x.coll, db[x], n).value;
      assert ReferenceMet(cat, cur, pending, x, n);
      if p != target { ReachedIsStored(cat, db, p, target); }
      NothingLeftThatReaches(cat, db, cur, pending, p, target);
    }
  }

  lemma ReachedIsStored(cat: Catalog, db: Docs, x: DocId, target: DocId)
    requires GoodCatalog(cat) && Reaches(cat, db, x, target) && x != target
    ensures x in db
  {
    hide GoodCatalog;
  }

  // ----- documents apart from the log -----

  function DataOf(db: Docs): Docs {
    map did | did in db && did.coll != CDC_COLLECTION :: db[did]
  }

  /** The stored documents outside the change log. */
  function Data(cat: Catalog, t: Entries): Docs {
    DataOf(DocsOf(cat, t))
  }

  lemma DataExact(cat: Catalog, t: Entries, did: DocId)
    requires did.coll in cat && did.coll != CDC_COLLECTION
    ensures did in Data(cat, t) <==> Prim(cat, did) in t
    ensures did in Data(cat, t) ==> Data(cat, t)[did] == t[Prim(cat, did)]
  {
    DocsOfExact(cat, t, did);
  }

  // ----- unique indexes -----

  ghost predicate DistinctTails(cat: Catalog, db: Docs, a: DocId, b: DocId, n: Bytes)
    requires a in db && b in db && a.coll in cat && n in cat[a.coll].indexes
  {
    EntryTail(cat[a.coll].indexes[n], db[a]) != EntryTail(cat[a.coll].indexes[n], db[b])
  }

  /** No two documents of a collection have the same encoded fields in a unique index. */
  ghost predicate UniqueKeys(cat: Catalog, db: Docs) {
    forall a, b, n {:trigger DistinctTails(cat, db, a, b, n)} ::
      a in db && b in db && a != b && a.coll == b.coll && a.coll in cat && n in cat[a.coll].indexes ==>
      (cat[a.coll].indexes[n].unique && !cat[a.coll].indexes[n].primary ==> DistinctTails(cat, db, a, b, n))
  }

  lemma {:induction false} SameValuesSameTail(fields: seq<Path>, v: Json, w: Json)
    requires forall f :: f in fields ==> ScalarAt(v, f) == ScalarAt(w, f)
    ensures Tail(fields, IndexedValues(fields, v)) == Tail(fields, IndexedValues(fields, w))
  {
    TailAgree(fields, IndexedValues(fields, v), IndexedValues(fields, w));
  }

  /** Therefore no two documents share the value of a unique field: the lossy encoding can only make
      the check refuse more. In particular at most one document of a collection lacks the field. */
  lemma UniqueValues(cat: Catalog, db: Docs, a: DocId, b: DocId, n: Bytes)
    requires UniqueKeys(cat, db) && a in db && b in db && a.coll == b.coll && a.coll in cat
    requires n in cat[a.coll].indexes && cat[a.coll].indexes[n].unique && !cat[a.coll].indexes[n].primary
    requires forall f :: f in cat[a.coll].indexes[n].fields ==> ScalarAt(db[a], f) == ScalarAt(db[b], f)
    ensures a == b
  {
    assert a != b ==> DistinctTails(cat, db, a, b, n);
    SameValuesSameTail(cat[a.coll].indexes[n].fields, db[a], db[b]);
  }

  lemma ShrinkKeepsUnique(cat: Catalog, large: Docs, small: Docs)
    requires UniqueKeys(cat, large) && Within(small, large)
    ensures UniqueKeys(cat, small)
  {
    hide EntryTail;
    forall a: DocId, b: DocId, n | a in small && b in small && a != b && a.coll == b.coll && a.coll in cat &&
        n in cat[a.coll].indexes
        && cat[a.coll].indexes[n].unique && !cat[a.coll].indexes[n].primary
      ensures DistinctTails(cat, small, a, b, n)
    {
      assert DistinctTails(cat, large, a, b, n);
    }
  }

  /** What the unique check establishes: nobody else has these encoded fields. */
  lemma ClearIsDistinct(cat: Catalog, t: Entries, pending: Docs, did: DocId, n: Bytes, doc: Json, b: DocId)
    requires Complete(cat, t, pending) && did.coll in cat && n in cat[did.coll].indexes
    requires IndexOf(cat, Slot(did, n)).name == n
    requires UniqueClear(cat, t, did, n, doc) && b != did && b.coll == did.coll && Prim(cat, b) in t
    ensures EntryTail(cat[did.coll].indexes[n], t[Prim(cat, b)]) != EntryTail(cat[did.coll].indexes[n], doc)
  {
    DocsOfExact(cat, t, b);
    var s := Slot(b, n);
    assert s in t && EntryCurrent(cat, t, pending, s);
    assert !Clashes(cat, t, did, n, doc, s);
    var i := cat[did.coll].indexes[n];
    hide EntryTail, Base;
    assert KeyOf(cat, s, t[s]) == Base(did.coll, n) + EntryTail(i, t[s]) + [ZERO] + b.id;
    PrefixOfKey(Base(did.coll, n) + EntryTail(i, t[s]), b.id);
  }

  lemma PrefixOfKey(p: Bytes, id: Bytes)
    ensures HasPrefix(p + [ZERO] + id, p)
  {
  }

  lemma WriteKeepsUnique(cat: Catalog, t: Entries, pending: Docs, did: DocId, doc: Json)
    requires GoodCatalog(cat) && Complete(cat, t, pending) && UniqueKeys(cat, Data(cat, t))
    requires did.coll in cat && did.coll != CDC_COLLECTION
    requires forall n :: n in cat[did.coll].Secondary() && cat[did.coll].indexes[n].unique ==>
        UniqueClear(cat, t, did, n, doc)
    ensures UniqueKeys(cat, Data(cat, t)[did := doc])
  {
    hide EntryTail, GoodCatalog, Complete;
    var db := Data(cat, t);
    var db' := db[did := doc];
    forall a: DocId, b: DocId, n | a in db' && b in db' && a != b && a.coll == b.coll && a.coll in cat &&
        n in cat[a.coll].indexes
        && cat[a.coll].indexes[n].unique && !cat[a.coll].indexes[n].primary
      ensures DistinctTails(cat, db', a, b, n)
    {
      IndexFacts(cat, a.coll, n);
      if a == did {
        DataExact(cat, t, b);
        ClearIsDistinct(cat, t, pending, did, n, doc, b);
      } else if b == did {
        DataExact(cat, t, a);
        ClearIsDistinct(cat, t, pending, did, n, doc, a);
      } else {
        assert DistinctTails(cat, db, a, b, n);
      }
    }
  }

  // ----- the steps of a write -----

  function SlotSet(did: DocId, names: set<Bytes>): set<Slot> {
    set n | n in names :: Slot(did, n)
  }

  function SlotsFor(did: DocId, names: set<Bytes>, doc: Json): Entries {
    map s | s in SlotSet(did, names) :: doc
  }

  /** The table after the primary entry and the entries of the given indexes have been rewritten. */
  function Rewritten(cat: Catalog, t: Entries, did: DocId, after: Json, entryDoc: Json, names: set<Bytes>): Entries
    requires did.coll in cat
  {
    t[Prim(cat, did) := after] + SlotsFor(did, names, entryDoc)
  }

  lemma RewriteNothing(cat: Catalog, t: Entries, did: DocId, after: Json, entryDoc: Json)
    requires did.coll in cat
    ensures Rewritten(cat, t, did, after, entryDoc, {}) == t[Prim(cat, did) := after]
  {
    assert SlotsFor(did, {}, entryDoc) == map[];
  }

  lemma RewriteNext(cat: Catalog, t: Entries, did: DocId, after: Json, entryDoc: Json, names: set<Bytes>, n: Bytes)
    requires did.coll in cat
    ensures var m, s := Rewritten(cat, t, did, after, entryDoc, names), Slot(did, n);
            (m - {s})[s := entryDoc] == Rewritten(cat, t, did, after, entryDoc, names + {n})
  {
    var m, s := Rewritten(cat, t, did, after, entryDoc, names), Slot(did, n);
    var r := Rewritten(cat, t, did, after, entryDoc, names + {n});
    assert forall x :: x in SlotsFor(did, names + {n}, entryDoc) <==> x in SlotsFor(did, names, entryDoc) || x == s;
    assert (m - {s})[s := entryDoc].Keys == r.Keys;
  }

  lemma RewrittenAt(cat: Catalog, t: Entries, did: DocId, after: Json, entryDoc: Json, names: set<Bytes>, s: Slot)
    requires did.coll in cat && (s.did != did || (s.name !in names && s != Prim(cat, did)))
    ensures var m := Rewritten(cat, t, did, after, entryDoc, names); (s in m <==> s in t) && (s in t ==> m[s] == t[s])
  {
  }

  lemma UniqueClearStable(cat: Catalog, t: Entries, m: Entries, did: DocId, n: Bytes, doc: Json)
    requires did.coll in cat && n in cat[did.coll].indexes
    requires forall s: Slot :: s.did != did ==> (s in m <==> s in t) && (s in t ==> m[s] == t[s])
    ensures UniqueClear(cat, t, did, n, doc) <==> UniqueClear(cat, m, did, n, doc)
  {
    hide EntryTail, Base, KeyOf;
    if UniqueClear(cat, t, did, n, doc) {
      forall s | s in m ensures !Clashes(cat, m, did, n, doc, s) {
        if s.did != did { assert !Clashes(cat, t, did, n, doc, s); }
      }
    }
    if UniqueClear(cat, m, did, n, doc) {
      forall s | s in t ensures !Clashes(cat, t, did, n, doc, s) {
        if s.did != did { assert !Clashes(cat, m, did, n, doc, s); }
      }
    }
  }

  predicate NoneIn(pending: Docs, coll: Bytes) {
    forall did :: did in pending ==> did.coll != coll
  }

  lemma ReadyWhenComplete(cat: Catalog, t: Entries, pending: Docs, coll: Bytes)
    requires Complete(cat, t, pending) && coll in cat && NoneIn(pending, coll)
    ensures CollectionReady(cat, t, coll)
  {
    forall s | s in t && s.did.coll == coll ensures Prim(cat, s.did) in t && t[s] == t[Prim(cat, s.did)] {
      assert EntryCurrent(cat, t, pending, s);
    }
    forall did: DocId, n | did.coll == coll && Prim(cat, did) in t && n in cat[coll].indexes ensures Slot(did, n) in t {
      DocsOfExact(cat, t, did);
    }
  }

  /** A write to another collection does not disturb this one. */
  lemma ReadyStable(cat: Catalog, t: Entries, m: Entries, coll: Bytes)
    requires coll in cat && CollectionReady(cat, t, coll)
    requires forall s: Slot :: s.did.coll == coll ==> (s in m <==> s in t) && (s in t ==> m[s] == t[s])
    ensures CollectionReady(cat, m, coll)
  {
  }

  lemma SecondaryNames(cat: Catalog, coll: Bytes)
    requires GoodCatalog(cat) && coll in cat
    ensures cat[coll].Secondary() + {cat[coll].primaryName} == cat[coll].indexes.Keys
    ensures cat[coll].primaryName !in cat[coll].Secondary()
  {
    assert cat[coll].WellFormed();
    forall n | n in cat[coll].indexes ensures cat[coll].indexes[n].primary <==> n == cat[coll].primaryName {
      assert cat[coll].GoodIndex(n);
    }
  }

  lemma RewrittenOwn(cat: Catalog, t: Entries, did: DocId, doc: Json, s: Slot)
    requires GoodCatalog(cat) && did.coll in cat && s.did == did && s.name in cat[did.coll].indexes
    ensures var m := Rewritten(cat, t, did, doc, doc, cat[did.coll].Secondary()); s in m && m[s] == doc
  {
    hide GoodCatalog;
    SecondaryNames(cat, did.coll);
    assert s == Slot(did, s.name);
  }

  lemma RewrittenDocs(cat: Catalog, t: Entries, m: Entries, did: DocId, doc: Json)
    requires did.coll in cat
    requires forall x: DocId :: x.coll in cat ==> (Prim(cat, x) in m <==> Prim(cat, x) in t || x == did)
    requires forall x: DocId :: x.coll in cat && Prim(cat, x) in m ==>
        m[Prim(cat, x)] == if x == did then doc else t[Prim(cat, x)]
    ensures DocsOf(cat, m) == DocsOf(cat, t)[did := doc]
  {
    forall x: DocId | x.coll in cat ensures x in DocsOf(cat, m) <==> x in DocsOf(cat, t)[did := doc] {
      DocsOfExact(cat, m, x);
      DocsOfExact(cat, t, x);
    }
    forall x | x in DocsOf(cat, m) ensures DocsOf(cat, m)[x] == DocsOf(cat, t)[did := doc][x] {
      DocsOfExact(cat, m, x);
      DocsOfExact(cat, t, x);
    }
    assert DocsOf(cat, m).Keys == DocsOf(cat, t)[did := doc].Keys;
  }

  /** The primary entries after a write: those of other documents are as before. */
  lemma RewrittenPrimary(cat: Catalog, t: Entries, did: DocId, after: Json, doc: Json, x: DocId)
    requires GoodCatalog(cat) && did.coll in cat && x.coll in cat
    ensures var m := Rewritten(cat, t, did, after, doc, cat[did.coll].Secondary());
            && (Prim(cat, x) in m <==> Prim(cat, x) in t || x == did)
            && (Prim(cat, x) in m ==> m[Prim(cat, x)] == if x == did then after else t[Prim(cat, x)])
  {
    hide GoodCatalog;
    SecondaryNames(cat, did.coll);
    if x != did { RewrittenAt(cat, t, did, after, doc, cat[did.coll].Secondary(), Prim(cat, x)); }
  }

  lemma RewrittenSecondary(cat: Catalog, t: Entries, did: DocId, after: Json, doc: Json, n: Bytes)
    requires GoodCatalog(cat) && did.coll in cat && n in cat[did.coll].Secondary()
    ensures var m := Rewritten(cat, t, did, after, doc, cat[did.coll].Secondary());
            Slot(did, n) in m && m[Slot(did, n)] == doc
  {
    assert Slot(did, n) in SlotsFor(did, cat[did.coll].Secondary(), doc);
  }

  /** A write is a write to the map of documents, whatever its index entries look like. */
  lemma RewrittenPrimaries(cat: Catalog, t: Entries, did: DocId, after: Json, doc: Json)
    requires GoodCatalog(cat) && did.coll in cat
    ensures var m := Rewritten(cat, t, did, after, doc, cat[did.coll].Secondary());
            && DocsOf(cat, m) == DocsOf(cat, t)[did := after]
            && Prim(cat, did) in m && m[Prim(cat, did)] == after
            && (forall n :: n in cat[did.coll].Secondary() ==> Slot(did, n) in m && m[Slot(did, n)] == doc)
  {
    var names := cat[did.coll].Secondary();
    var m := Rewritten(cat, t, did, after, doc, names);
    hide GoodCatalog, Rewritten, DocsOf;
    forall x: DocId | x.coll in cat
      ensures Prim(cat, x) in m <==> Prim(cat, x) in t || x == did
      ensures Prim(cat, x) in m ==> m[Prim(cat, x)] == if x == did then after else t[Prim(cat, x)]
    {
      RewrittenPrimary(cat, t, did, after, doc, x);
    }
    RewrittenDocs(cat, t, m, did, after);
    forall n | n in names ensures Slot(did, n) in m && m[Slot(did, n)] == doc {
      RewrittenSecondary(cat, t, did, after, doc, n);
    }
  }

  /** A finished write leaves every entry of the document at the key of its new fields. */
  lemma RewrittenComplete(cat: Catalog, t: Entries, pending: Docs, did: DocId, doc: Json)
    requires GoodCatalog(cat) && Complete(cat, t, pending) && ValidDocId(cat, did) && did !in pending
    ensures var m := Rewritten(cat, t, did, doc, doc, cat[did.coll].Secondary());
            Complete(cat, m, pending) && DocsOf(cat, m) == DocsOf(cat, t)[did := doc]
  {
    var m := Rewritten(cat, t, did, doc, doc, cat[did.coll].Secondary());
    hide GoodCatalog, Rewritten, DocsOf, EntryCurrent, Complete, ValidDocId;
    RewrittenPrimaries(cat, t, did, doc, doc);
    StaysPending(cat, t, m, pending, did, doc);
    forall s | s in m ensures EntryCurrent(cat, m, pending, s) {
      RewrittenCurrent(cat, t, pending, did, doc, s);
    }
    forall x, n | x in DocsOf(cat, m) && x.coll in cat && n in cat[x.coll].indexes ensures Slot(x, n) in m {
      RewrittenEntry(cat, t, pending, did, doc, x, n);
    }
    CompleteAgain(cat, m, pending);
  }

  lemma StaysPending(cat: Catalog, t: Entries, m: Entries, pending: Docs, did: DocId, doc: Json)
    requires Complete(cat, t, pending) && DocsOf(cat, m) == DocsOf(cat, t)[did := doc] && did !in pending
    ensures forall x :: x in pending ==> x !in DocsOf(cat, m)
  {
    hide DocsOf;
  }

  lemma CompleteAgain(cat: Catalog, m: Entries, pending: Docs)
    requires forall s :: s in m ==> EntryCurrent(cat, m, pending, s)
    requires forall x, n :: x in DocsOf(cat, m) && x.coll in cat && n in cat[x.coll].indexes ==> Slot(x, n) in m
    requires forall x :: x in pending ==> x !in DocsOf(cat, m)
    ensures Complete(cat, m, pending)
  {
    hide EntryCurrent;
  }

  lemma RewrittenEntry(cat: Catalog, t: Entries, pending: Docs, did: DocId, doc: Json, x: DocId, n: Bytes)
    requires GoodCatalog(cat) && Complete(cat, t, pending) && did.coll in cat
    requires (x == did || x in DocsOf(cat, t)) && x.coll in cat && n in cat[x.coll].indexes
    ensures Slot(x, n) in Rewritten(cat, t, did, doc, doc, cat[did.coll].Secondary())
  {
    hide GoodCatalog, Rewritten, DocsOf, EntryCurrent;
    if x == did {
      RewrittenOwn(cat, t, did, doc, Slot(x, n));
    } else {
      RewrittenAt(cat, t, did, doc, doc, cat[did.coll].Secondary(), Slot(x, n));
    }
  }

  lemma RewrittenCurrent(cat: Catalog, t: Entries, pending: Docs, did: DocId, doc: Json, s: Slot)
    requires GoodCatalog(cat) && Complete(cat, t, pending) && ValidDocId(cat, did)
    requires s in Rewritten(cat, t, did, doc, doc, cat[did.coll].Secondary())
    ensures EntryCurrent(cat, Rewritten(cat, t, did, doc, doc, cat[did.coll].Secondary()), pending, s)
  {
    var names := cat[did.coll].Secondary();
    SecondaryNames(cat, did.coll);
    if s.did == did {
      RewrittenOwnName(cat, t, pending, did, doc, s);
      RewrittenOwn(cat, t, did, doc, s);
      RewrittenOwn(cat, t, did, doc, Prim(cat, did));
    } else {
      RewrittenAt(cat, t, did, doc, doc, names, s);
      assert EntryCurrent(cat, t, pending, s);
      RewrittenAt(cat, t, did, doc, doc, names, Prim(cat, s.did));
    }
  }

  lemma RewrittenOwnName(cat: Catalog, t: Entries, pending: Docs, did: DocId, doc: Json, s: Slot)
    requires GoodCatalog(cat) && Complete(cat, t, pending) && ValidDocId(cat, did)
    requires s in Rewritten(cat, t, did, doc, doc, cat[did.coll].Secondary()) && s.did == did
    ensures s.name in cat[did.coll].indexes
  {
    SecondaryNames(cat, did.coll);
    if s in t { assert EntryCurrent(cat, t, pending, s); }
  }

  // ----- the steps of a deletion -----

  /** Dropping the primary entry removes the document; its other entries become pending. */
  lemma DropPrimary(cat: Catalog, t: Entries, pending: Docs, did: DocId)
    requires Complete(cat, t, pending) && did.coll in cat && Prim(cat, did) in t
    ensures var m := t - {Prim(cat, did)};
            Complete(cat, m, pending[did := t[Prim(cat, did)]]) && DocsOf(cat, m) == DocsOf(cat, t) - {did}
  {
    var p := Prim(cat, did);
    var m, pending' := t - {p}, pending[did := t[p]];
    DroppedDocs(cat, t, m, did);
    forall s | s in m ensures EntryCurrent(cat, m, pending', s) {
      assert EntryCurrent(cat, t, pending, s);
      assert s.did != did ==> Prim(cat, s.did) != p;
    }
    forall x, n | x in DocsOf(cat, m) && n in cat[x.coll].indexes ensures Slot(x, n) in m {
      assert x in DocsOf(cat, t);
    }
  }

  lemma DroppedDocs(cat: Catalog, t: Entries, m: Entries, did: DocId)
    requires did.coll in cat && m == t - {Prim(cat, did)}
    ensures DocsOf(cat, m) == DocsOf(cat, t) - {did}
  {
    forall x: DocId | x.coll in cat ensures x in DocsOf(cat, m) <==> x in DocsOf(cat, t) - {did} {
      DocsOfExact(cat, m, x);
      DocsOfExact(cat, t, x);
    }
    forall x | x in DocsOf(cat, m) ensures DocsOf(cat, m)[x] == (DocsOf(cat, t) - {did})[x] {
      DocsOfExact(cat, m, x);
      DocsOfExact(cat, t, x);
    }
    assert DocsOf(cat, m).Keys == (DocsOf(cat, t) - {did}).Keys;
  }

  lemma SamePrimaries(cat: Catalog, t: Entries, m: Entries)
    requires forall s :: s in m ==> s in t && m[s] == t[s]
    requires forall x: DocId :: x.coll in cat ==> (Prim(cat, x) in m <==> Prim(cat, x) in t)
    ensures DocsOf(cat, m) == DocsOf(cat, t)
  {
    forall x: DocId | x.coll in cat ensures x in DocsOf(cat, m) <==> x in DocsOf(cat, t) {
      DocsOfExact(cat, m, x);
      DocsOfExact(cat, t, x);
    }
    forall x | x in DocsOf(cat, m) ensures DocsOf(cat, m)[x] == DocsOf(cat, t)[x] {
      DocsOfExact(cat, m, x);
      DocsOfExact(cat, t, x);
    }
    assert DocsOf(cat, m).Keys == DocsOf(cat, t).Keys;
  }

  lemma RestIsSecondary(cat: Catalog, t: Entries, did: DocId)
    requires GoodCatalog(cat) && did.coll in cat && Prim(cat, did) !in t
    ensures DocsOf(cat, t - SlotSet(did, cat[did.coll].Secondary())) == DocsOf(cat, t)
  {
    var names := cat[did.coll].Secondary();
    hide GoodCatalog;
    forall x: DocId | x.coll in cat ensures Prim(cat, x) in t - SlotSet(did, names) <==> Prim(cat, x) in t {
      assert Prim(cat, x) in SlotSet(did, names) ==> x == did;
    }
    SamePrimaries(cat, t, t - SlotSet(did, names));
  }

  lemma RestCurrent(cat: Catalog, t: Entries, pending: Docs, did: DocId, doc: Json, s: Slot)
    requires GoodCatalog(cat) && did.coll in cat && Complete(cat, t, pending[did := doc]) && Prim(cat, did) !in t
    requires s in t - SlotSet(did, cat[did.coll].Secondary())
    ensures EntryCurrent(cat, t - SlotSet(did, cat[did.coll].Secondary()), pending, s)
  {
    hide GoodCatalog;
    SecondaryNames(cat, did.coll);
    assert EntryCurrent(cat, t, pending[did := doc], s);
    assert s == Slot(s.did, s.name);
    assert s.name in cat[s.did.coll].indexes;
    assert Prim(cat, s.did) in SlotSet(did, cat[did.coll].Secondary()) ==> s.did == did;
  }

  /** Dropping the remaining entries of a pending document ends its deletion. */
  lemma DropRest(cat: Catalog, t: Entries, pending: Docs, did: DocId, doc: Json)
    requires GoodCatalog(cat) && did.coll in cat && did !in pending && Complete(cat, t, pending[did := doc])
    ensures var m := t - SlotSet(did, cat[did.coll].Secondary());
            Complete(cat, m, pending) && DocsOf(cat, m) == DocsOf(cat, t)
  {
    hide GoodCatalog;
    var m := t - SlotSet(did, cat[did.coll].Secondary());
    hide EntryCurrent, DocsOf;
    assert did in pending[did := doc];
    DocsOfExact(cat, t, did);
    RestIsSecondary(cat, t, did);
    forall s | s in m ensures EntryCurrent(cat, m, pending, s) {
      RestCurrent(cat, t, pending, did, doc, s);
    }
    forall x, n | x in DocsOf(cat, m) && n in cat[x.coll].indexes ensures Slot(x, n) in m {
      assert Slot(x, n) in t;
    }
    forall x | x in pending ensures x !in DocsOf(cat, m) {
      assert x in pending[did := doc];
    }
  }

  // ----- acceptance of a write -----

  /** The referenced document exists, and nobody else has the unique value. */
  ghost predicate IndexAccepts(cat: Catalog, t: Entries, did: DocId, n: Bytes, doc: Json)
    requires did.coll in cat && n in cat[did.coll].indexes
  {
    var p := Parent(cat, did.coll, doc, n);
    && (p.Some? && p.value.coll in cat ==> Prim(cat, p.value) in t)
    && (cat[did.coll].indexes[n].unique ==> UniqueClear(cat, t, did, n, doc))
  }

  ghost predicate Accepts(cat: Catalog, t: Entries, did: DocId, doc: Json)
    requires did.coll in cat
  {
    forall n {:trigger IndexAccepts(cat, t, did, n, doc)} :: n in cat[did.coll].Secondary() ==>
        IndexAccepts(cat, t, did, n, doc)
  }

  /** The foreign-key fields hold a string or nothing. */
  ghost predicate GoodReferences(cat: Catalog, did: DocId, doc: Json)
    requires did.coll in cat
  {
    forall n :: n in cat[did.coll].indexes ==> ReferenceTyped(cat, did.coll, doc, n)
  }

  lemma ParentElsewhere(cat: Catalog, did: DocId, doc: Json, n: Bytes)
    requires GoodCatalog(cat) && did.coll in cat && n in cat[did.coll].indexes && Parent(cat, did.coll, doc, n).Some?
    ensures var p := Parent(cat, did.coll, doc, n).value;
            p.coll in cat && p.coll != did.coll && p.coll != CDC_COLLECTION && cat[p.coll].level < cat[did.coll].level
  {
    assert GoodReference(cat, did.coll, cat[did.coll].indexes[n].foreign.value.collection);
  }

  lemma AcceptanceStable(cat: Catalog, t: Entries, did: DocId, after: Json, entryDoc: Json, names: set<Bytes>,
        n: Bytes, doc: Json)
    requires GoodCatalog(cat) && did.coll in cat && n in cat[did.coll].indexes
    ensures IndexAccepts(cat, Rewritten(cat, t, did, after, entryDoc, names), did, n, doc) <==>
        IndexAccepts(cat, t, did, n, doc)
  {
    var m := Rewritten(cat, t, did, after, entryDoc, names);
    forall s: Slot | s.did != did ensures (s in m <==> s in t) && (s in t ==> m[s] == t[s]) {
      RewrittenAt(cat, t, did, after, entryDoc, names, s);
    }
    UniqueClearStable(cat, t, m, did, n, doc);
    if Parent(cat, did.coll, doc, n).Some? { ParentElsewhere(cat, did, doc, n); }
  }

  lemma WriteKeepsReferential(cat: Catalog, t: Entries, pending: Docs, did: DocId, doc: Json)
    requires GoodCatalog(cat) && Referential(cat, Data(cat, t), pending) && did.coll in cat && did !in pending
    requires Accepts(cat, t, did, doc) && GoodReferences(cat, did, doc)
    ensures Referential(cat, Data(cat, t)[did := doc], pending)
  {
    var db := Data(cat, t);
    var db' := db[did := doc];
    forall x: DocId, n | x in db' && x.coll in cat && n in cat[x.coll].indexes
      ensures ReferenceMet(cat, db', pending, x, n)
    {
      if x == did {
        var p := Parent(cat, did.coll, doc, n);
        if p.Some? {
          ParentElsewhere(cat, did, doc, n);
          IndexFacts(cat, did.coll, n);
          ForeignIsSecondary(cat, did.coll, n);
          assert IndexAccepts(cat, t, did, n, doc);
          DataExact(cat, t, p.value);
        }
      } else {
        assert ReferenceMet(cat, db, pending, x, n);
      }
    }
  }

  lemma ForeignIsSecondary(cat: Catalog, coll: Bytes, n: Bytes)
    requires GoodCatalog(cat) && coll in cat && n in cat[coll].indexes && cat[coll].indexes[n].foreign.Some?
    ensures n in cat[coll].Secondary() && |cat[coll].indexes[n].fields| == 1
  {
    assert cat[coll].WellFormed() && cat[coll].GoodIndex(n);
  }

  // ----- the existence cache -----

  /** The key fmt.Sprintf("%s/%s", collection, id). */
  function CacheKey(did: DocId): Bytes {
    did.coll + [SLASH] + did.id
  }

  ghost predicate CacheSound(cat: Catalog, docs: set<Bytes>, t: Entries, pending: Docs) {
    forall did: DocId {:trigger CacheKey(did)} :: did.coll in cat && CacheKey(did) in docs ==>
        Prim(cat, did) in t || did in pending
  }

  lemma CacheKeyInjective(cat: Catalog, a: DocId, b: DocId)
    requires GoodCatalog(cat) && a.coll in cat && b.coll in cat && CacheKey(a) == CacheKey(b)
    ensures a == b
  {
    assert cat[a.coll].WellFormed() && cat[b.coll].WellFormed();
    hide GoodCatalog, Schema.WellFormed;
    var k := CacheKey(a);
    assert k[|a.coll|] == SLASH && k[|b.coll|] == SLASH;
    assert |a.coll| == |b.coll|;
    assert k[..|a.coll|] == a.coll && k[..|b.coll|] == b.coll;
    assert k[|a.coll| + 1..] == a.id && k[|b.coll| + 1..] == b.id;
  }

}
