/** Updates: the index entries are built from the patch, not from the merged document. */
module Updates {
  import opened ByteStrings
  import opened Json
  import opened Schemas
  import opened Indexing
  import opened Store
  import opened Scan
  import opened Integrity
  import opened Documents
  import opened ChangeLog
  import opened Preparation
  import opened Soundness

  /** The store is what some set of documents would be stored as. */
  ghost predicate IndexesAgree(cat: Catalog, view: View) {
    exists t :: Holds(cat, view, t) && Complete(cat, t, map[])
  }

  ghost predicate UpdateAllowed(cat: Catalog, t: Entries, did: DocId, command: Json, after: Json)
    requires did.coll in cat
  {
    var c := cat[did.coll];
    !c.readOnly && !c.immutable && StoredIn(cat, t, did).Some? && c.Validates(after, did.id) &&
        Accepts(cat, t, did, command)
  }

  /** The command's document: the patch with the id and with every immutable property of the version before. */
  ghost predicate Prepared(c: Schema, patch: Json, id: Bytes, before: Json, command: Json) {
    && Pinned(c, WithKey(c, patch, id), before, command)
    && (forall p :: p in c.immutablePaths ==> Lookup(command, p) == Some(Get(before, p)))
  }

  /** Entries may be accounted to another document that has the same keys. */
  lemma RenameEntries(cat: Catalog, view: View, e: Entries, e': Entries)
    requires Holds(cat, view, e) && e.Keys == e'.Keys
    requires forall s :: s in e && ValidSlot(cat, s) && e'[s] != e[s] ==>
      s != Prim(cat, s.did) && !IndexOf(cat, s).primary && KeyOf(cat, s, e[s]) == KeyOf(cat, s, e'[s])
    ensures Holds(cat, view, e')
  {
    hide KeyOf;
    forall k | k in view ensures KeyJustified(cat, view, e', k) {
      assert KeyJustified(cat, view, e, k);
    }
    forall t | t in e' ensures EntryStored(cat, view, t, e'[t]) {
      assert t in e && EntryStored(cat, view, t, e[t]);
    }
  }

  lemma UpdateRenames(cat: Catalog, view: View, t: Entries, did: DocId, after: Json, command: Json)
    requires GoodCatalog(cat) && did.coll in cat && SameEntryTails(cat[did.coll], command, after)
    requires Holds(cat, view, Rewritten(cat, t, did, after, command, cat[did.coll].Secondary()))
    ensures Holds(cat, view, Rewritten(cat, t, did, after, after, cat[did.coll].Secondary()))
  {
    var names := cat[did.coll].Secondary();
    var e, e' := Rewritten(cat, t, did, after, command, names), Rewritten(cat, t, did, after, after, names);
    SecondaryNames(cat, did.coll);
    hide GoodCatalog, Holds, EntryTail;
    assert e.Keys == e'.Keys;
    forall s | s in e && ValidSlot(cat, s) && e'[s] != e[s]
      ensures s != Prim(cat, s.did) && !IndexOf(cat, s).primary && KeyOf(cat, s, e[s]) == KeyOf(cat, s, e'[s])
    {
      assert s in SlotsFor(did, names, command);
      assert s.did == did && s.name in names;
    }
    RenameEntries(cat, view, e, e');
  }

  lemma SameTailsSameClashes(cat: Catalog, t: Entries, did: DocId, n: Bytes, a: Json, b: Json)
    requires did.coll in cat && n in cat[did.coll].indexes
    requires EntryTail(cat[did.coll].indexes[n], a) == EntryTail(cat[did.coll].indexes[n], b)
    requires UniqueClear(cat, t, did, n, a)
    ensures UniqueClear(cat, t, did, n, b)
  {
    hide EntryTail, Base, KeyOf;
    forall s | s in t ensures !Clashes(cat, t, did, n, b, s) {
      assert !Clashes(cat, t, did, n, a, s);
    }
  }

  lemma CoveredParent(cat: Catalog, did: DocId, before: Json, command: Json, after: Json, n: Bytes)
    requires GoodCatalog(cat) && did.coll in cat && n in cat[did.coll].indexes
    requires Written(before, Flatten(command), after) && PatchCovers(cat[did.coll], command, after)
    ensures Parent(cat, did.coll, after, n).Some? ==>
        Parent(cat, did.coll, after, n) == Parent(cat, did.coll, command, n)
  {
    hide GoodCatalog, Written, Flatten;
    var i := cat[did.coll].indexes[n];
    if Parent(cat, did.coll, after, n).Some? {
      ForeignIsSecondary(cat, did.coll, n);
      var f := i.fields[0];
      assert f in i.fields && ScalarAt(after, f).Some?;
      MergedScalar(before, command, after, f);
    }
  }

  /** What the checks say of a covering patch they say of the merged document. */
  lemma CoveredAccepts(cat: Catalog, t: Entries, did: DocId, before: Json, command: Json, after: Json)
    requires GoodCatalog(cat) && did.coll in cat && cat[did.coll].Validates(after, did.id)
    requires Written(before, Flatten(command), after) && PatchCovers(cat[did.coll], command, after)
    requires Accepts(cat, t, did, command) && GoodReferences(cat, did, command)
    ensures Accepts(cat, t, did, after) && GoodReferences(cat, did, after)
  {
    UpdateKeepsKeysWhen(cat[did.coll], before, command, after);
    hide GoodCatalog, Written, PatchCovers, EntryTail, Clashes;
    var c := cat[did.coll];
    forall n | n in c.Secondary() ensures IndexAccepts(cat, t, did, n, after) {
      assert IndexAccepts(cat, t, did, n, command);
      CoveredParent(cat, did, before, command, after, n);
      if c.indexes[n].unique { SameTailsSameClashes(cat, t, did, n, command, after); }
    }
    ValidatedReferences(cat, did, after);
  }

  /** With a patch that leaves out an indexed field there is an index that no set of documents has. */
  lemma UncoveredDisagrees(cat: Catalog, view: View, t: Entries, did: DocId, command: Json, after: Json)
    requires GoodCatalog(cat) && Holds(cat, view, t) && ValidDocId(cat, did)
    requires Prim(cat, did) in t && t[Prim(cat, did)] == after
    requires forall n :: n in cat[did.coll].Secondary() ==> Slot(did, n) in t && t[Slot(did, n)] == command
    requires !SameEntryTails(cat[did.coll], command, after)
    ensures !IndexesAgree(cat, view)
  {
    var n :| n in cat[did.coll].Secondary() &&
        EntryTail(cat[did.coll].indexes[n], command) != EntryTail(cat[did.coll].indexes[n], after);
    forall t' | Holds(cat, view, t') && Complete(cat, t', map[]) ensures false {
      StoredEverywhere(cat, view, t, t', did);
      DocsOfExact(cat, t', did);
      assert Slot(did, n) in t' && EntryCurrent(cat, t', map[], Slot(did, n));
      hide GoodCatalog, Complete;
      EntryKeyDiffers(cat, view, t, t', Slot(did, n));
    }
  }

  lemma StoredEverywhere(cat: Catalog, view: View, t: Entries, t': Entries, did: DocId)
    requires GoodCatalog(cat) && Holds(cat, view, t) && Holds(cat, view, t') && did.coll in cat && Prim(cat, did) in t
    ensures Prim(cat, did) in t' && t'[Prim(cat, did)] == t[Prim(cat, did)]
  {
    var s := Prim(cat, did);
    assert EntryStored(cat, view, s, t[s]);
    assert cat[did.coll].WellFormed() && cat[did.coll].GoodIndex(s.name);
    hide GoodCatalog, KeyOf;
    KeyOfSlot(cat, s, t[s]);
    var k := KeyOf(cat, s, t[s]);
    assert KeyJustified(cat, view, t, k) && KeyJustified(cat, view, t', k);
  }

  /** In one store an index slot cannot stand for two sets of encoded fields. */
  lemma EntryKeyDiffers(cat: Catalog, view: View, t: Entries, t': Entries, s: Slot)
    requires GoodCatalog(cat) && Holds(cat, view, t) && Holds(cat, view, t') && s in t && s in t' && ValidSlot(cat, s)
    ensures EntryTail(IndexOf(cat, s), t[s]) == EntryTail(IndexOf(cat, s), t'[s])
  {
    hide GoodCatalog, EntryTail, Base;
    assert EntryStored(cat, view, s, t'[s]);
    KeyOfSlot(cat, s, t'[s]);
    var k := KeyOf(cat, s, t'[s]);
    assert KeyJustified(cat, view, t, k);
    var b, i := Base(s.did.coll, IndexOf(cat, s).name), IndexOf(cat, s);
    assert b + EntryTail(i, t[s]) + [ZERO] + s.did.id == b + EntryTail(i, t'[s]) + [ZERO] + s.did.id;
    MiddleSame(b, EntryTail(i, t[s]), EntryTail(i, t'[s]), [ZERO], s.did.id);
  }

  lemma MiddleSame(b: Bytes, x: Bytes, y: Bytes, z: Bytes, id: Bytes)
    requires b + x + z + id == b + y + z + id
    ensures x == y
  {
    assert |x| == |y|;
    assert (b + x + z + id)[|b|..|b| + |x|] == x && (b + y + z + id)[|b|..|b| + |y|] == y;
  }

  /** What an update and its log record leave behind, whether the patch covers the indexes or not. */
  lemma UpdateOutcome(cat: Catalog, t: Entries, m: Entries, did: DocId, after: Json, command: Json,
      docs0: set<Bytes>, docs: set<Bytes>, r: CDC)
    requires GoodCatalog(cat) && did.coll in cat && did.coll != CDC_COLLECTION
    requires RecordWritten(cat, Rewritten(cat, t, did, after, command, cat[did.coll].Secondary()), m, docs0, docs, r)
    ensures Data(cat, m) == Data(cat, t)[did := after]
    ensures Prim(cat, did) in m && m[Prim(cat, did)] == after
    ensures forall n :: n in cat[did.coll].Secondary() ==> Slot(did, n) in m && m[Slot(did, n)] == command
    ensures var s := Prim(cat, DocId(CDC_COLLECTION, r.id)); s in m && m[s] == CdcDocument(cat[CDC_COLLECTION].pk, r)
  {
    var t1 := Rewritten(cat, t, did, after, command, cat[did.coll].Secondary());
    var rid, d := DocId(CDC_COLLECTION, r.id), CdcDocument(cat[CDC_COLLECTION].pk, r);
    hide GoodCatalog, Data, DocsOf, CdcDocument, CacheLearned;
    RewrittenPrimaries(cat, t, did, after, command);
    RewrittenPrimaries(cat, t1, rid, d, d);
    DataUpdated(DocsOf(cat, t), did, after);
    hide Rewritten;
    LogDataSame(cat, t1, m, rid, d);
    DataIs(cat, t, t1, did, after);
    forall s: Slot | s.did == did ensures (s in m <==> s in t1) && (s in t1 ==> m[s] == t1[s]) {
      RewrittenAt(cat, t1, rid, d, d, cat[CDC_COLLECTION].Secondary(), s);
    }
  }

  lemma LogDataSame(cat: Catalog, t: Entries, m: Entries, rid: DocId, d: Json)
    requires rid.coll == CDC_COLLECTION && DocsOf(cat, m) == DocsOf(cat, t)[rid := d]
    ensures Data(cat, m) == Data(cat, t)
  {
    LogLeavesData(cat, t, m, rid, d);
  }

  lemma DataIs(cat: Catalog, t: Entries, m: Entries, did: DocId, doc: Json)
    requires did.coll != CDC_COLLECTION && DocsOf(cat, m) == DocsOf(cat, t)[did := doc]
    ensures Data(cat, m) == Data(cat, t)[did := doc]
  {
    DataUpdated(DocsOf(cat, t), did, doc);
  }

  /** The log collection is untouched by a write elsewhere. */
  lemma LogStaysReady(cat: Catalog, t: Entries, did: DocId, after: Json, doc: Json)
    requires did.coll in cat && did.coll != CDC_COLLECTION && CDC_COLLECTION in cat
    requires CollectionReady(cat, t, CDC_COLLECTION)
    ensures CollectionReady(cat, Rewritten(cat, t, did, after, doc, cat[did.coll].Secondary()), CDC_COLLECTION)
  {
    var m := Rewritten(cat, t, did, after, doc, cat[did.coll].Secondary());
    forall s: Slot | s.did.coll == CDC_COLLECTION ensures (s in m <==> s in t) && (s in t ==> m[s] == t[s]) {
      RewrittenAt(cat, t, did, after, doc, cat[did.coll].Secondary(), s);
    }
    ReadyStable(cat, t, m, CDC_COLLECTION);
  }

  lemma SoundAgrees(cat: Catalog, view: View, t: Entries, docs: set<Bytes>)
    requires Holds(cat, view, t) && Sound(cat, t, docs)
    ensures IndexesAgree(cat, view)
  {
  }
}
