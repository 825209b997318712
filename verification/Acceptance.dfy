/** When create, set and update must succeed, in terms of the documents alone. */
module Acceptance {
  import opened ByteStrings
  import opened Json
  import opened Schemas
  import opened Indexing
  import opened Store
  import opened Scan
  import opened Integrity
  import opened Soundness
  import opened Updates

  // ----- the two constraints -----

  /** A foreign-key field that holds a text names a stored document of the collection it refers to. */
  predicate NamesStored(db: Docs, i: Index, doc: Json) {
    i.foreign.Some? && i.fields != [] && Get(doc, i.fields[0]).Str? ==>
      DocId(i.foreign.value.collection, Get(doc, i.fields[0]).s) in db
  }

  /** The encoded fields of another stored document of the collection, with its id, start as those of `doc`. */
  ghost predicate Taken(db: Docs, did: DocId, i: Index, doc: Json) {
    exists x :: x in db && x.coll == did.coll && x.id != did.id && StartsAs(db[x], x.id, i, doc)
  }

  predicate StartsAs(other: Json, id: Bytes, i: Index, doc: Json) {
    HasPrefix(EntryTail(i, other) + [ZERO] + id, EntryTail(i, doc))
  }

  /** One index has no objection; only a unique one looks at the other documents' values. */
  ghost predicate Unopposed(db: Docs, did: DocId, i: Index, doc: Json) {
    NamesStored(db, i, doc) && (i.unique ==> !Taken(db, did, i, doc))
  }

  /** The constraints of all secondary indexes are met. */
  ghost predicate Unobjectionable(db: Docs, did: DocId, c: Schema, doc: Json) {
    forall n :: n in c.indexes && !c.indexes[n].primary ==> Unopposed(db, did, c.indexes[n], doc)
  }

  lemma PrefixBehind(q: Bytes, a: Bytes, b: Bytes)
    ensures HasPrefix(q + a, q + b) <==> HasPrefix(a, b)
  {
    if |b| <= |a| {
      assert (q + a)[..|q + b|] == q + a[..|b|];
      assert (q + a[..|b|])[|q|..] == a[..|b|] && (q + b)[|q|..] == b;
    }
  }

  lemma PrefixBeforeZero(v: Bytes, r: Bytes, s: Bytes)
    requires ZeroFree(s)
    ensures HasPrefix(v + [ZERO] + r, s) <==> HasPrefix(v, s)
  {
    var x := v + [ZERO] + r;
    assert x[|v|] == ZERO;
    if |s| <= |v| { assert x[..|s|] == v[..|s|]; }
    assert |v| < |s| <= |x| ==> x[..|s|][|v|] == ZERO;
  }

  lemma PrefixOfText(q: Bytes, v: Bytes, id: Bytes, s: Bytes)
    requires ZeroFree(s)
    ensures HasPrefix(q + v + [ZERO] + id, q + s) <==> HasPrefix(v, s)
  {
    hide HasPrefix, ZeroFree;
    assert q + v + [ZERO] + id == q + (v + [ZERO] + id);
    PrefixBehind(q, v + [ZERO] + id, s);
    PrefixBeforeZero(v, id, s);
  }

  lemma KeyStartsAs(coll: Bytes, i: Index, other: Json, id: Bytes, doc: Json)
    ensures HasPrefix(EntryKey(coll, i, other, id), Base(coll, i.name) + EntryTail(i, doc)) <==>
            StartsAs(other, id, i, doc)
  {
    hide Base, EntryTail, HasPrefix;
    PrefixBehind(Base(coll, i.name), EntryTail(i, other) + [ZERO] + id, EntryTail(i, doc));
    assert EntryKey(coll, i, other, id) == Base(coll, i.name) + (EntryTail(i, other) + [ZERO] + id);
  }

  /** The check of a unique index sees the stored documents, each with its current fields. */
  lemma ClearMeansNotTaken(cat: Catalog, t: Entries, did: DocId, n: Bytes, doc: Json)
    requires GoodCatalog(cat) && Complete(cat, t, map[]) && did.coll in cat && did.coll != CDC_COLLECTION
    requires n in cat[did.coll].indexes
    ensures UniqueClear(cat, t, did, n, doc) <==> !Taken(Data(cat, t), did, cat[did.coll].indexes[n], doc)
  {
    hide GoodCatalog, Complete, Data, StartsAs, Clashes;
    var db, i := Data(cat, t), cat[did.coll].indexes[n];
    if Taken(db, did, i, doc) {
      var x :| x in db && x.coll == did.coll && x.id != did.id && StartsAs(db[x], x.id, i, doc);
      StoredUnderEach(cat, t, x, n);
      ClashIsStart(cat, t, did, n, doc, x);
    }
    if !UniqueClear(cat, t, did, n, doc) {
      var s :| s in t && Clashes(cat, t, did, n, doc, s);
      ClashIsAnothers(cat, t, did, n, doc, s);
      StoredUnderEach(cat, t, s.did, n);
      ClashIsStart(cat, t, did, n, doc, s.did);
    }
  }

  lemma ClashIsStart(cat: Catalog, t: Entries, did: DocId, n: Bytes, doc: Json, x: DocId)
    requires GoodCatalog(cat) && did.coll in cat && n in cat[did.coll].indexes && Slot(x, n) in t
    requires x.coll == did.coll && x.id != did.id
    ensures Clashes(cat, t, did, n, doc, Slot(x, n)) <==> StartsAs(t[Slot(x, n)], x.id, cat[did.coll].indexes[n], doc)
  {
    IndexFacts(cat, did.coll, n);
    hide GoodCatalog, EntryKey, Base, EntryTail, StartsAs;
    KeyStartsAs(did.coll, cat[did.coll].indexes[n], t[Slot(x, n)], x.id, doc);
  }

  lemma ClashIsAnothers(cat: Catalog, t: Entries, did: DocId, n: Bytes, doc: Json, s: Slot)
    requires did.coll in cat && n in cat[did.coll].indexes && s in t && Clashes(cat, t, did, n, doc, s)
    ensures s == Slot(s.did, n) && s.did.coll == did.coll && s.did.id != did.id
  {
  }

  lemma StoredUnderEach(cat: Catalog, t: Entries, x: DocId, n: Bytes)
    requires Complete(cat, t, map[]) && x.coll in cat && x.coll != CDC_COLLECTION && n in cat[x.coll].indexes
    ensures Slot(x, n) in t <==> x in Data(cat, t)
    ensures x in Data(cat, t) ==> t[Slot(x, n)] == Data(cat, t)[x]
  {
    DataExact(cat, t, x);
    DocsOfExact(cat, t, x);
    hide Data, DocsOf;
    if Slot(x, n) in t { assert EntryCurrent(cat, t, map[], Slot(x, n)); }
  }

  lemma IndexAcceptsExactly(cat: Catalog, t: Entries, did: DocId, n: Bytes, doc: Json)
    requires GoodCatalog(cat) && Complete(cat, t, map[]) && did.coll in cat && did.coll != CDC_COLLECTION
    requires n in cat[did.coll].indexes
    ensures IndexAccepts(cat, t, did, n, doc) <==> Unopposed(Data(cat, t), did, cat[did.coll].indexes[n], doc)
  {
    hide GoodCatalog, Complete, Data, UniqueClear, Taken, NamesStored, Parent;
    ClearMeansNotTaken(cat, t, did, n, doc);
    ReferenceMeansStored(cat, t, did, n, doc);
  }

  /** The indexes accept a document exactly when it is unobjectionable. */
  lemma AcceptsExactly(cat: Catalog, t: Entries, did: DocId, doc: Json)
    requires GoodCatalog(cat) && Complete(cat, t, map[]) && did.coll in cat && did.coll != CDC_COLLECTION
    ensures Accepts(cat, t, did, doc) <==> Unobjectionable(Data(cat, t), did, cat[did.coll], doc)
  {
    hide GoodCatalog, Complete, Data, IndexAccepts, Unopposed;
    forall n | n in cat[did.coll].indexes
      ensures IndexAccepts(cat, t, did, n, doc) <==> Unopposed(Data(cat, t), did, cat[did.coll].indexes[n], doc)
    {
      IndexAcceptsExactly(cat, t, did, n, doc);
    }
  }

  lemma ReferenceMeansStored(cat: Catalog, t: Entries, did: DocId, n: Bytes, doc: Json)
    requires GoodCatalog(cat) && did.coll in cat && n in cat[did.coll].indexes
    ensures NamesStored(Data(cat, t), cat[did.coll].indexes[n], doc) <==>
      var p := Parent(cat, did.coll, doc, n); p.Some? && p.value.coll in cat ==> Prim(cat, p.value) in t
  {
    var p := Parent(cat, did.coll, doc, n);
    if p.Some? {
      ParentElsewhere(cat, did, doc, n);
      hide GoodCatalog, Data;
      DataExact(cat, t, p.value);
    }
  }

  // ----- the commands -----

  /** The document satisfies the schema of its collection: it has the id, its foreign keys are texts or
      missing, and the JSON schema accepts it. */
  predicate MeetsSchema(c: Schema, doc: Json, id: Bytes) {
    && doc.Obj? && Get(doc, c.pk) == Str(id) && c.accepts(doc)
    && forall n :: n in c.indexes && c.indexes[n].foreign.Some? && c.indexes[n].fields != [] ==>
      Get(doc, c.indexes[n].fields[0]) == Null || Get(doc, c.indexes[n].fields[0]).Str?
  }

  lemma ValidatesMeans(c: Schema, doc: Json, id: Bytes)
    requires c.pk != []
    ensures c.Validates(doc, id) <==> MeetsSchema(c, doc, id)
  {
  }

  lemma SoundIsComplete(cat: Catalog, t: Entries, docs: set<Bytes>)
    requires Sound(cat, t, docs)
    ensures Complete(cat, t, map[])
  {
    hide Complete;
  }

  lemma HasKey(cat: Catalog, coll: Bytes)
    requires GoodCatalog(cat) && coll in cat
    ensures cat[coll].pk != []
  {
    assert cat[coll].WellFormed();
  }

  /** Create succeeds if and only if the collection may be written to, the document meets its schema, every
      foreign key names a stored document, and no unique value is taken. */
  lemma CreateSucceedsWhen(cat: Catalog, t: Entries, docs: set<Bytes>, did: DocId, doc: Json)
    requires GoodCatalog(cat) && Sound(cat, t, docs) && did.coll in cat
    ensures CreateAllowed(cat, t, did, doc) <==>
      && !cat[did.coll].readOnly && MeetsSchema(cat[did.coll], doc, did.id)
      && Unobjectionable(Data(cat, t), did, cat[did.coll], doc)
  {
    hide GoodCatalog, Sound, Data, Accepts, Unobjectionable, MeetsSchema, Schema.Validates, Complete;
    HasKey(cat, did.coll);
    ValidatesMeans(cat[did.coll], doc, did.id);
    if !cat[did.coll].readOnly {
      NotReadOnly(cat, did.coll);
      SoundIsComplete(cat, t, docs);
      AcceptsExactly(cat, t, did, doc);
    }
  }

  /** Set succeeds in the same cases, unless the collection is immutable and has the document already. */
  lemma SetSucceedsWhen(cat: Catalog, t: Entries, docs: set<Bytes>, did: DocId, doc: Json)
    requires GoodCatalog(cat) && Sound(cat, t, docs) && did.coll in cat
    ensures SetAllowed(cat, t, did, doc) <==>
      && !cat[did.coll].readOnly && MeetsSchema(cat[did.coll], doc, did.id)
      && Unobjectionable(Data(cat, t), did, cat[did.coll], doc)
      && !(cat[did.coll].immutable && did in Data(cat, t))
  {
    hide GoodCatalog, Sound, Data, Unobjectionable, MeetsSchema, CreateAllowed;
    CreateSucceedsWhen(cat, t, docs, did, doc);
    if !cat[did.coll].readOnly {
      NotReadOnly(cat, did.coll);
      DataExact(cat, t, did);
    }
  }

  /** Update succeeds if and only if the document is there and may be changed, the merged document meets the
      schema, and the command, which may be only a part of it, is unobjectionable. */
  lemma UpdateSucceedsWhen(cat: Catalog, t: Entries, docs: set<Bytes>, did: DocId, command: Json, after: Json)
    requires GoodCatalog(cat) && Sound(cat, t, docs) && did.coll in cat
    ensures UpdateAllowed(cat, t, did, command, after) <==>
      && !cat[did.coll].readOnly && !cat[did.coll].immutable && did in Data(cat, t)
      && MeetsSchema(cat[did.coll], after, did.id) && Unobjectionable(Data(cat, t), did, cat[did.coll], command)
  {
    hide GoodCatalog, Sound, Data, Accepts, Unobjectionable, MeetsSchema, Schema.Validates, Complete;
    HasKey(cat, did.coll);
    ValidatesMeans(cat[did.coll], after, did.id);
    if !cat[did.coll].readOnly {
      NotReadOnly(cat, did.coll);
      SoundIsComplete(cat, t, docs);
      AcceptsExactly(cat, t, did, command);
      DataExact(cat, t, did);
    }
  }

  /** A collection without unique indexes never refuses a document for its values. */
  lemma NoUniqueIndexNoRefusal(cat: Catalog, t: Entries, docs: set<Bytes>, did: DocId, doc: Json)
    requires GoodCatalog(cat) && Sound(cat, t, docs) && did.coll in cat && !cat[did.coll].readOnly
    requires forall n :: n in cat[did.coll].indexes && cat[did.coll].indexes[n].unique ==>
      cat[did.coll].indexes[n].primary
    requires MeetsSchema(cat[did.coll], doc, did.id)
    requires forall n :: n in cat[did.coll].indexes ==> NamesStored(Data(cat, t), cat[did.coll].indexes[n], doc)
    ensures CreateAllowed(cat, t, did, doc)
  {
    CreateSucceedsWhen(cat, t, docs, did, doc);
    hide GoodCatalog, Sound, Data, CreateAllowed, MeetsSchema, NamesStored, Taken;
  }

  // ----- what is taken, for texts -----

  lemma TailOfText(i: Index, f: Path, doc: Json)
    requires i.fields == [f] && (Get(doc, f).Str? || Get(doc, f).Null?)
    ensures EntryTail(i, doc) == if Lookup(doc, f).None? then []
      else [ZERO] + FieldText(f) + [ZERO] + if Get(doc, f).Str? then Get(doc, f).s else []
  {
    var vals := IndexedValues(i.fields, doc);
    assert [f][..0] == [];
    assert Tail([], vals) == [];
    assert f in vals <==> Lookup(doc, f).Some?;
  }

  lemma StartsAsText(i: Index, f: Path, other: Json, id: Bytes, doc: Json, s: Bytes)
    requires i.fields == [f] && Get(doc, f) == Str(s) && Get(other, f).Str? && ZeroFree(s)
    ensures StartsAs(other, id, i, doc) <==> HasPrefix(Get(other, f).s, s)
  {
    TailOfText(i, f, other);
    TailOfText(i, f, doc);
    hide EntryTail, FieldText, HasPrefix, ZeroFree;
    PrefixOfText([ZERO] + FieldText(f) + [ZERO], Get(other, f).s, id, s);
  }

  lemma NoIdStartsAsText(name: Bytes, id: Bytes, s: Bytes)
    requires ZeroFree(id)
    ensures !HasPrefix([] + [ZERO] + id, [ZERO] + name + [ZERO] + s)
  {
    var x, y := [] + [ZERO] + id, [ZERO] + name + [ZERO] + s;
    assert y[|name| + 1] == ZERO;
    assert |y| <= |x| ==> x[..|y|][|name| + 1] == id[|name|];
  }

  lemma NothingStartsAsText(i: Index, f: Path, other: Json, id: Bytes, doc: Json, s: Bytes)
    requires i.fields == [f] && Get(doc, f) == Str(s) && Lookup(other, f).None? && ZeroFree(id)
    ensures !StartsAs(other, id, i, doc)
  {
    TailOfText(i, f, other);
    TailOfText(i, f, doc);
    hide EntryTail, FieldText, HasPrefix, ZeroFree;
    NoIdStartsAsText(FieldText(f), id, s);
  }

  /** A unique text is taken if and only if the text of another document of the collection begins with it;
      documents without the field do not count. */
  lemma TextTakenWhen(db: Docs, did: DocId, i: Index, f: Path, doc: Json, s: Bytes)
    requires i.fields == [f] && Get(doc, f) == Str(s) && ZeroFree(s)
    requires forall x :: x in db && x.coll == did.coll ==>
      ZeroFree(x.id) && (Get(db[x], f).Str? || Lookup(db[x], f).None?)
    ensures Taken(db, did, i, doc) <==>
      exists x :: x in db && x.coll == did.coll && x.id != did.id && Get(db[x], f).Str? && HasPrefix(Get(db[x], f).s, s)
  {
    hide StartsAs, EntryTail;
    forall x | x in db && x.coll == did.coll
      ensures StartsAs(db[x], x.id, i, doc) <==> Get(db[x], f).Str? && HasPrefix(Get(db[x], f).s, s)
    {
      if Get(db[x], f).Str? {
        StartsAsText(i, f, db[x], x.id, doc, s);
      } else {
        NothingStartsAsText(i, f, db[x], x.id, doc, s);
      }
    }
  }

  /** For a document with none of the fields of a unique index every other document is in the way. */
  lemma MissingTakenWhen(db: Docs, did: DocId, i: Index, doc: Json)
    requires forall f :: f in i.fields ==> Lookup(doc, f).None?
    ensures Taken(db, did, i, doc) <==> exists x :: x in db && x.coll == did.coll && x.id != did.id
  {
    TailNone(i.fields, IndexedValues(i.fields, doc));
    hide EntryTail;
    forall x | x in db && x.coll == did.coll && x.id != did.id ensures StartsAs(db[x], x.id, i, doc) {}
  }
}
