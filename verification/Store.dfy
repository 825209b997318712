/** The byte-key store as an image of a table of index entries. */
module Store {
  import opened ByteStrings
  import opened Json
  import opened Schemas
  import opened Indexing

  /** The primary entry holds the document, every other entry the document's id. */
  datatype StoredValue = DocValue(doc: Json) | IdValue(id: Bytes)

  /** What a transaction reads: committed keys overlaid with its own writes. */
  type View = map<Bytes, StoredValue>

  /** For every index entry, the document its key was computed from. */
  type Entries = map<Slot, Json>

  type Docs = map<DocId, Json>

  function Prim(cat: Catalog, did: DocId): Slot
    requires did.coll in cat
  {
    Slot(did, cat[did.coll].primaryName)
  }

  function KeyOf(cat: Catalog, s: Slot, doc: Json): Bytes
    requires s.did.coll in cat && s.name in cat[s.did.coll].indexes
  {
    EntryKey(s.did.coll, IndexOf(cat, s), doc, s.did.id)
  }

  function ValueOf(cat: Catalog, s: Slot, doc: Json): StoredValue
    requires s.did.coll in cat && s.name in cat[s.did.coll].indexes
  {
    if IndexOf(cat, s).primary then DocValue(doc) else IdValue(s.did.id)
  }

  ghost predicate EntryStored(cat: Catalog, view: View, s: Slot, doc: Json) {
    && ValidSlot(cat, s)
    && KeyOf(cat, s, doc) in view
    && (s == Prim(cat, s.did) ==> Lookup(doc, cat[s.did.coll].pk) == Some(Str(s.did.id)))
  }

  ghost predicate KeyJustified(cat: Catalog, view: View, e: Entries, k: Bytes)
    requires k in view
  {
    var s := SlotOf(k);
    s in e && ValidSlot(cat, s) && k == KeyOf(cat, s, e[s]) && view[k] == ValueOf(cat, s, e[s])
  }

  /** The store holds exactly the entries of the table, each under its key. */
  ghost predicate Holds(cat: Catalog, view: View, e: Entries) {
    && (forall s {:trigger EntryStored(cat, view, s, e[s])} :: s in e ==> EntryStored(cat, view, s, e[s]))
    && (forall k {:trigger KeyJustified(cat, view, e, k)} :: k in view ==> KeyJustified(cat, view, e, k))
  }

  lemma KeyOfSlot(cat: Catalog, s: Slot, doc: Json)
    requires GoodCatalog(cat) && ValidSlot(cat, s)
    ensures SlotOf(KeyOf(cat, s, doc)) == s
  {
    assert cat[s.did.coll].WellFormed() && cat[s.did.coll].GoodIndex(s.name);
    SlotOfEntry(s.did.coll, IndexOf(cat, s), doc, s.did.id);
  }

  /** Writing an entry whose slot is free, or already has this key. */
  lemma SetEntry(cat: Catalog, view: View, e: Entries, s: Slot, doc: Json)
    requires GoodCatalog(cat) && Holds(cat, view, e) && ValidSlot(cat, s)
    requires s in e ==> KeyOf(cat, s, e[s]) == KeyOf(cat, s, doc)
    requires s == Prim(cat, s.did) ==> Lookup(doc, cat[s.did.coll].pk) == Some(Str(s.did.id))
    ensures Holds(cat, view[KeyOf(cat, s, doc) := ValueOf(cat, s, doc)], e[s := doc])
  {
    hide EntryKey, GoodCatalog;
    var key := KeyOf(cat, s, doc);
    var view', e' := view[key := ValueOf(cat, s, doc)], e[s := doc];
    KeyOfSlot(cat, s, doc);
    forall k | k in view' ensures KeyJustified(cat, view', e', k) {
      if k != key { assert KeyJustified(cat, view, e, k); }
    }
    forall t | t in e' ensures EntryStored(cat, view', t, e'[t]) {
      if t != s { assert EntryStored(cat, view, t, e[t]); }
    }
  }

  /** Deleting the entry of a slot, or a key no slot accounts for. */
  lemma DeleteEntry(cat: Catalog, view: View, e: Entries, s: Slot, doc: Json)
    requires GoodCatalog(cat) && Holds(cat, view, e) && ValidSlot(cat, s)
    requires s in e ==> KeyOf(cat, s, e[s]) == KeyOf(cat, s, doc)
    ensures Holds(cat, view - {KeyOf(cat, s, doc)}, e - {s})
  {
    hide EntryKey, GoodCatalog;
    var key := KeyOf(cat, s, doc);
    var view', e' := view - {key}, e - {s};
    KeyOfSlot(cat, s, doc);
    forall k | k in view' ensures KeyJustified(cat, view', e', k) {
      assert KeyJustified(cat, view, e, k);
    }
    forall t | t in e' ensures EntryStored(cat, view', t, e'[t]) {
      assert EntryStored(cat, view, t, e[t]);
      KeyOfSlot(cat, t, e[t]);
    }
  }

  // ----- the documents a table stands for -----

  function VersionOf(db: Docs, did: DocId): Option<Json> {
    if did in db then Some(db[did]) else None
  }

  function DocsOf(cat: Catalog, e: Entries): (r: Docs) {
    map did | did in (set s | s in e :: s.did) && did.coll in cat && Prim(cat, did) in e :: e[Prim(cat, did)]
  }

  lemma DocsOfExact(cat: Catalog, e: Entries, did: DocId)
    requires did.coll in cat
    ensures did in DocsOf(cat, e) <==> Prim(cat, did) in e
    ensures did in DocsOf(cat, e) ==> DocsOf(cat, e)[did] == e[Prim(cat, did)]
  {
    if Prim(cat, did) in e { assert Prim(cat, did).did == did; }
  }

  /** Every entry belongs to a stored document and was computed from its current fields, and every
      stored document has an entry in every index of its collection. The documents in `pending` are
      being deleted: they are gone, some of their secondary entries not yet. */
  ghost predicate Complete(cat: Catalog, e: Entries, pending: Docs) {
    && (forall s :: s in e ==> EntryCurrent(cat, e, pending, s))
    && (forall did, n :: did in DocsOf(cat, e) && n in cat[did.coll].indexes ==> Slot(did, n) in e)
    && (forall did :: did in pending ==> did !in DocsOf(cat, e))
  }

  ghost predicate EntryCurrent(cat: Catalog, e: Entries, pending: Docs, s: Slot)
    requires s in e
  {
    && ValidSlot(cat, s)
    && if Prim(cat, s.did) in e then e[s] == e[Prim(cat, s.did)] else s.did in pending && e[s] == pending[s.did]
  }

  /** The table of a set of documents: one entry per document and index. */
  function EntriesOf(cat: Catalog, docs: Docs): Entries {
    map s | s in (set did, n | did in docs && did.coll in cat && n in cat[did.coll].indexes :: Slot(did, n)) ::
        docs[s.did]
  }

  /** With nothing pending, the table is the one of its documents: exactly one entry per document and
      index, at the key of the document's current fields, and no other entry. */
  lemma CompleteIsExact(cat: Catalog, e: Entries)
    requires Complete(cat, e, map[])
    ensures e == EntriesOf(cat, DocsOf(cat, e))
  {
    var docs := DocsOf(cat, e);
    var e' := EntriesOf(cat, docs);
    forall s | s in e ensures s in e' && e[s] == e'[s] {
      assert EntryCurrent(cat, e, map[], s);
      DocsOfExact(cat, e, s.did);
      assert s == Slot(s.did, s.name);
    }
    forall s | s in e' ensures s in e {
      DocsOfExact(cat, e, s.did);
      assert s == Slot(s.did, s.name);
    }
    assert e.Keys == e'.Keys;
  }

  /** Two stores that hold the same documents are the same byte for byte, and a store determines its
      documents: the layout is a faithful image in both directions. */
  lemma StoreIsDeterminedByDocs(cat: Catalog, v1: View, e1: Entries, v2: View, e2: Entries)
    requires GoodCatalog(cat)
    requires Holds(cat, v1, e1) && Complete(cat, e1, map[])
    requires Holds(cat, v2, e2) && Complete(cat, e2, map[])
    ensures v1 == v2 <==> DocsOf(cat, e1) == DocsOf(cat, e2)
  {
    hide EntryKey, GoodCatalog, Holds, Complete, DocsOf, EntriesOf;
    CompleteIsExact(cat, e1);
    CompleteIsExact(cat, e2);
    if DocsOf(cat, e1) == DocsOf(cat, e2) {
      SameEntriesSameKeys(cat, v1, v2, e1);
      SameEntriesSameKeys(cat, v2, v1, e1);
      assert v1.Keys == v2.Keys;
    }
    if v1 == v2 {
      SameKeysSameDocs(cat, v1, e1, e2);
      SameKeysSameDocs(cat, v1, e2, e1);
      assert DocsOf(cat, e1).Keys == DocsOf(cat, e2).Keys;
    }
  }

  lemma SameEntriesSameKeys(cat: Catalog, v1: View, v2: View, e: Entries)
    requires GoodCatalog(cat) && Holds(cat, v1, e) && Holds(cat, v2, e)
    ensures forall k :: k in v1 ==> k in v2 && v1[k] == v2[k]
  {
    forall k | k in v1 ensures k in v2 && v1[k] == v2[k] {
      assert KeyJustified(cat, v1, e, k);
      assert EntryStored(cat, v2, SlotOf(k), e[SlotOf(k)]);
      assert KeyJustified(cat, v2, e, k);
    }
  }

  lemma SameKeysSameDocs(cat: Catalog, view: View, e1: Entries, e2: Entries)
    requires GoodCatalog(cat) && Holds(cat, view, e1) && Holds(cat, view, e2)
    ensures forall did :: did in DocsOf(cat, e1) ==>
        did in DocsOf(cat, e2) && DocsOf(cat, e1)[did] == DocsOf(cat, e2)[did]
  {
    forall did | did in DocsOf(cat, e1)
      ensures did in DocsOf(cat, e2) && DocsOf(cat, e1)[did] == DocsOf(cat, e2)[did]
    {
      DocsOfExact(cat, e1, did);
      DocsOfExact(cat, e2, did);
      var s := Prim(cat, did);
      assert EntryStored(cat, view, s, e1[s]);
      var k := KeyOf(cat, s, e1[s]);
      KeyOfSlot(cat, s, e1[s]);
      assert KeyJustified(cat, view, e1, k) && KeyJustified(cat, view, e2, k);
      assert cat[did.coll].WellFormed() && cat[did.coll].GoodIndex(s.name);
    }
  }
}
