/** What a cascading delete removes, and why the store is sound again when it has finished. */
module Cascade {
  import opened ByteStrings
  import opened Json
  import opened Schemas
  import opened Store
  import opened Filter
  import opened Optimizer
  import opened KvIter
  import opened Scan
  import opened Integrity
  import opened Documents
  import opened ChangeLog
  import opened Queries
  import opened Soundness

  // ----- what is removed -----

  /** The target and every stored document that refers to it through a chain of foreign keys. */
  ghost function Doomed(cat: Catalog, db: Docs, target: DocId): set<DocId>
    requires GoodCatalog(cat)
  {
    (set x | x in db && Reaches(cat, db, x, target)) + {target}
  }

  /** `x` is the target or refers to it through a chain of foreign keys that all ask for cascading. */
  ghost predicate FlaggedReaches(cat: Catalog, db: Docs, x: DocId, target: DocId)
    requires GoodCatalog(cat)
    decreases if x.coll in cat then cat[x.coll].level else 0
  {
    || x == target
    || (x in db && x.coll in cat && exists n :: n in cat[x.coll].indexes && FlaggedThrough(cat, db, x, n, target))
  }

  ghost predicate FlaggedThrough(cat: Catalog, db: Docs, x: DocId, n: Bytes, target: DocId)
    requires GoodCatalog(cat) && x in db && x.coll in cat && n in cat[x.coll].indexes
    decreases cat[x.coll].level, 0
  {
    var p := Parent(cat, x.coll, db[x], n);
    && p.Some? && cat[x.coll].indexes[n].foreign.Some? && cat[x.coll].indexes[n].foreign.value.cascade
    && GoodReference(cat, x.coll, p.value.coll)
    && FlaggedReaches(cat, db, p.value, target)
  }

  /** What the documentation of the flag says a deletion removes. */
  ghost function Flagged(cat: Catalog, db: Docs, target: DocId): set<DocId>
    requires GoodCatalog(cat)
  {
    (set x | x in db && FlaggedReaches(cat, db, x, target)) + {target}
  }

  /** Some foreign key of a stored document points into the set. */
  ghost predicate RefersInto(cat: Catalog, db: Docs, x: DocId, inside: set<DocId>)
    requires x in db
  {
    x.coll in cat && exists n :: n in cat[x.coll].indexes && PointsInto(cat, x.coll, db[x], n, inside)
  }

  ghost predicate PointsInto(cat: Catalog, coll: Bytes, doc: Json, n: Bytes, inside: set<DocId>)
    requires coll in cat && n in cat[coll].indexes
  {
    Parent(cat, coll, doc, n).Some? && Parent(cat, coll, doc, n).value in inside
  }

  lemma {:induction false} FlaggedIsDoomed(cat: Catalog, db: Docs, x: DocId, target: DocId)
    requires GoodCatalog(cat) && FlaggedReaches(cat, db, x, target)
    ensures Reaches(cat, db, x, target)
    decreases if x.coll in cat then cat[x.coll].level else 0
  {
    hide GoodCatalog;
    if x != target {
      var n :| n in cat[x.coll].indexes && FlaggedThrough(cat, db, x, n, target);
      FlaggedIsDoomed(cat, db, Parent(cat, x.coll, db[x], n).value, target);
      assert ReachesThrough(cat, db, x, n, target);
    }
  }

  lemma {:induction false} DoomedIsFlagged(cat: Catalog, db: Docs, x: DocId, target: DocId)
    requires GoodCatalog(cat) && Reaches(cat, db, x, target)
    requires forall y :: y in db && y !in Flagged(cat, db, target) ==> !RefersInto(cat, db, y, Flagged(cat, db, target))
    ensures x in Flagged(cat, db, target)
    decreases if x.coll in cat then cat[x.coll].level else 0
  {
    hide GoodCatalog, Flagged;
    if x == target {
      FlaggedIncludesTarget(cat, db, target);
    } else {
      var n :| n in cat[x.coll].indexes && ReachesThrough(cat, db, x, n, target);
      DoomedIsFlagged(cat, db, Parent(cat, x.coll, db[x], n).value, target);
      assert PointsInto(cat, x.coll, db[x], n, Flagged(cat, db, target));
      assert RefersInto(cat, db, x, Flagged(cat, db, target));
    }
  }

  lemma FlaggedIncludesTarget(cat: Catalog, db: Docs, target: DocId)
    requires GoodCatalog(cat)
    ensures target in Flagged(cat, db, target)
  {
  }

  lemma ReferringIsDoomed(cat: Catalog, db: Docs, x: DocId, target: DocId)
    requires GoodCatalog(cat) && x in db && RefersInto(cat, db, x, Doomed(cat, db, target))
    ensures x in Doomed(cat, db, target)
  {
    var n :| n in cat[x.coll].indexes && PointsInto(cat, x.coll, db[x], n, Doomed(cat, db, target));
    var p := Parent(cat, x.coll, db[x], n).value;
    assert GoodReference(cat, x.coll, p.coll);
    hide GoodCatalog;
    assert Reaches(cat, db, p, target);
    assert ReachesThrough(cat, db, x, n, target);
  }

  /** The foreign key of the index names the document. */
  predicate PointsAt(i: Index, doc: Json, p: DocId) {
    && i.foreign.Some? && i.foreign.value.collection == p.coll
    && i.fields != [] && Get(doc, i.fields[0]) == Str(p.id)
  }

  /** Whatever refers to a document of the set is in the set. */
  ghost predicate TakesReferring(cat: Catalog, db: Docs, inside: set<DocId>) {
    forall x, n, p ::
      (x in db && x.coll in cat && n in cat[x.coll].indexes && p in inside
        && PointsAt(cat[x.coll].indexes[n], db[x], p)) ==> x in inside
  }

  lemma {:induction false} ReachedWithin(cat: Catalog, db: Docs, x: DocId, target: DocId, inside: set<DocId>)
    requires GoodCatalog(cat) && Reaches(cat, db, x, target) && target in inside && TakesReferring(cat, db, inside)
    ensures x in inside
    decreases if x.coll in cat then cat[x.coll].level else 0
  {
    hide GoodCatalog;
    if x != target {
      var n :| n in cat[x.coll].indexes && ReachesThrough(cat, db, x, n, target);
      var p := Parent(cat, x.coll, db[x], n).value;
      ReachedWithin(cat, db, p, target, inside);
      assert PointsAt(cat[x.coll].indexes[n], db[x], p);
    }
  }

  /** What is deleted is the least set that has the target and all that refers to a document of the set. */
  lemma DoomedIsLeast(cat: Catalog, db: Docs, target: DocId)
    requires GoodCatalog(cat)
    ensures target in Doomed(cat, db, target) && TakesReferring(cat, db, Doomed(cat, db, target))
    ensures forall inside :: target in inside && TakesReferring(cat, db, inside) ==> Doomed(cat, db, target) <= inside
  {
    hide GoodCatalog, Reaches;
    forall x, n, p | x in db && x.coll in cat && n in cat[x.coll].indexes && p in Doomed(cat, db, target)
        && PointsAt(cat[x.coll].indexes[n], db[x], p)
      ensures x in Doomed(cat, db, target)
    {
      assert PointsInto(cat, x.coll, db[x], n, Doomed(cat, db, target));
      ReferringIsDoomed(cat, db, x, target);
    }
    forall inside | target in inside && TakesReferring(cat, db, inside) ensures Doomed(cat, db, target) <= inside {
      forall x | x in Doomed(cat, db, target) ensures x in inside {
        if x != target { ReachedWithin(cat, db, x, target, inside); }
      }
    }
  }

  /** The flag is not consulted: what is deleted is what the flag asks for if and only if no document that
      is to stay refers to one that is to go. */
  lemma CascadeFlagIgnored(cat: Catalog, db: Docs, target: DocId)
    requires GoodCatalog(cat)
    ensures Doomed(cat, db, target) == Flagged(cat, db, target) <==>
      forall x :: x in db && x !in Flagged(cat, db, target) ==> !RefersInto(cat, db, x, Flagged(cat, db, target))
  {
    var flagged, doomed := Flagged(cat, db, target), Doomed(cat, db, target);
    hide GoodCatalog, Reaches, FlaggedReaches, RefersInto;
    forall x | x in flagged ensures x in doomed {
      if x != target { FlaggedIsDoomed(cat, db, x, target); }
    }
    if doomed == flagged {
      forall x | x in db && x !in flagged ensures !RefersInto(cat, db, x, flagged) {
        if RefersInto(cat, db, x, flagged) { ReferringIsDoomed(cat, db, x, target); }
      }
    }
    if forall x :: x in db && x !in flagged ==> !RefersInto(cat, db, x, flagged) {
      forall x | x in doomed ensures x in flagged {
        if x != target { DoomedIsFlagged(cat, db, x, target); }
      }
    }
  }

  /** The schema permits deleting from the collection. */
  predicate Deletable(cat: Catalog, did: DocId) {
    did.coll in cat && !cat[did.coll].readOnly && !cat[did.coll].immutable && !cat[did.coll].preventDeletes
  }

  ghost predicate AllDeletable(cat: Catalog, db: Docs, target: DocId)
    requires GoodCatalog(cat)
  {
    forall x :: x in Doomed(cat, db, target) ==> Deletable(cat, x)
  }

  /** Deleting a document that does not exist succeeds only in collections without secondary indexes;
      with one, the missing document is dereferenced. */
  ghost predicate CanDelete(cat: Catalog, db: Docs, target: DocId)
    requires GoodCatalog(cat)
  {
    AllDeletable(cat, db, target) && Deletable(cat, target) && (target in db || cat[target.coll].Secondary() == {})
  }

  /** Deleting succeeds if and only if the document is there, or has no secondary index to be removed from,
      and everything doomed lies in collections that are neither read-only nor immutable and do not prevent
      deletes. */
  lemma DeleteSucceedsWhen(cat: Catalog, db: Docs, target: DocId)
    requires GoodCatalog(cat)
    ensures CanDelete(cat, db, target) <==>
      && (forall x :: x in Doomed(cat, db, target) ==>
            x.coll in cat && !cat[x.coll].readOnly && !cat[x.coll].immutable && !cat[x.coll].preventDeletes)
      && (target in db || forall n :: n in cat[target.coll].indexes ==> cat[target.coll].indexes[n].primary)
  {
    DoomedIncludesTarget(cat, db, target);
    hide GoodCatalog, Doomed;
    assert target.coll in cat ==> (cat[target.coll].Secondary() == {} <==>
      forall n :: n in cat[target.coll].indexes ==> cat[target.coll].indexes[n].primary) by {
      if target.coll in cat {
        assert forall n :: n in cat[target.coll].Secondary() <==>
          n in cat[target.coll].indexes && !cat[target.coll].indexes[n].primary;
      }
    }
  }

  /** The record of a deletion: its difference leads from the version before to a document that has only
      its id. */
  ghost predicate DeleteRecord(cat: Catalog, db: Docs, r: CDC, ctx: Context) {
    && r.action == Delete && ctx.Covers(r) && r.collection in cat
    && IsDiff(WithKey(cat[r.collection], EMPTY_OBJECT, r.documentID), VersionOf(db, Subject(r)).GetOr(EMPTY_OBJECT),
        r.diff)
  }

  /** From some position on, no two records are about the same document. */
  ghost predicate DistinctSubjects(log: seq<CDC>, start: nat) {
    forall i, k :: start <= i < k < |log| ==> Subject(log[i]) != Subject(log[k])
  }

  lemma DistinctFurther(log1: seq<CDC>, log2: seq<CDC>, start: nat, a: set<DocId>, b: set<DocId>)
    requires start <= |log1| <= |log2| && log2[..|log1|] == log1 && a !! b
    requires DistinctSubjects(log1, start) && DistinctSubjects(log2, |log1|)
    requires forall i :: start <= i < |log1| ==> Subject(log1[i]) in a
    requires forall i :: |log1| <= i < |log2| ==> Subject(log2[i]) in b
    ensures DistinctSubjects(log2, start)
  {
    forall i, k | start <= i < k < |log2| ensures Subject(log2[i]) != Subject(log2[k]) {
      if i < |log1| { assert log2[i] == log1[i]; }
      if k < |log1| { assert log2[k] == log1[k]; }
    }
  }

  /** One record of a deletion for each document of the set, and no other record, has been appended. */
  ghost predicate LogsDeletes(cat: Catalog, db: Docs, log0: seq<CDC>, log: seq<CDC>, gone: set<DocId>, ctx: Context) {
    && |log| == |log0| + |gone| && log[..|log0|] == log0
    && (forall i :: |log0| <= i < |log| ==> DeleteRecord(cat, db, log[i], ctx) && Subject(log[i]) in gone)
    && DistinctSubjects(log, |log0|)
    && (forall x {:trigger x in gone} :: x in gone ==> exists i :: |log0| <= i < |log| && Subject(log[i]) == x)
  }

  /** Records that are right for some documents are right for any that agree on what is gone, and in a
      wider context. */
  lemma LogsDeletesOf(cat: Catalog, db: Docs, db': Docs, log0: seq<CDC>, log: seq<CDC>, gone: set<DocId>, ctx: Context,
        wide: Context)
    requires LogsDeletes(cat, db, log0, log, gone, ctx)
    requires forall x :: x in gone ==> VersionOf(db, x) == VersionOf(db', x)
    requires wide.from <= ctx.from && ctx.until <= wide.until && wide.metadata == ctx.metadata
    ensures LogsDeletes(cat, db', log0, log, gone, wide)
  {
    hide IsDiff, WithKey;
    forall i | |log0| <= i < |log| ensures DeleteRecord(cat, db', log[i], wide) {
      assert DeleteRecord(cat, db, log[i], ctx) && Subject(log[i]) in gone;
    }
  }

  lemma LogsDeletesCompose(cat: Catalog, db: Docs, log0: seq<CDC>, log1: seq<CDC>, log2: seq<CDC>, a: set<DocId>,
        b: set<DocId>, ctx: Context)
    requires LogsDeletes(cat, db, log0, log1, a, ctx) && LogsDeletes(cat, db, log1, log2, b, ctx) && a !! b
    ensures LogsDeletes(cat, db, log0, log2, a + b, ctx)
  {
    hide DeleteRecord, Subject, DistinctSubjects;
    assert log2[..|log0|] == log1[..|log0|];
    forall i | |log0| <= i < |log2| ensures DeleteRecord(cat, db, log2[i], ctx) && Subject(log2[i]) in a + b {
      if i < |log1| { assert log2[i] == log1[i]; }
    }
    DistinctFurther(log1, log2, |log0|, a, b);
    forall x | x in a + b ensures exists i :: |log0| <= i < |log2| && Subject(log2[i]) == x {
      if x in a {
        var i :| |log0| <= i < |log1| && Subject(log1[i]) == x;
        assert log2[i] == log1[i];
      }
    }
  }

  /** The documents being deleted, with one more if it was stored. */
  function AndPending(pending: Docs, did: DocId, before: Option<Json>): Docs {
    if before.Some? then pending[did := before.value] else pending
  }

  /** The collections being deleted from lie below this one. */
  ghost predicate PendingBelow(cat: Catalog, pending: Docs, coll: Bytes)
    requires coll in cat
  {
    forall p :: p in pending ==> p.coll in cat && p.coll != CDC_COLLECTION && cat[p.coll].level < cat[coll].level
  }

  /** The collections whose documents may refer to documents of this one. */
  function Above(cat: Catalog, coll: Bytes): set<Bytes> {
    set c | c in cat && coll in cat && cat[coll].level < cat[c].level
  }

  // ----- the first and the last step -----

  lemma RemovedKeepsReferential(cat: Catalog, db: Docs, pending: Docs, did: DocId)
    requires did.coll in cat && Referential(cat, db, pending)
    ensures Referential(cat, db - {did}, if did in db then pending[did := db[did]] else pending)
  {
    var small, pending' := db - {did}, if did in db then pending[did := db[did]] else pending;
    forall x: DocId, n | x in small && x.coll in cat && n in cat[x.coll].indexes
      ensures ReferenceMet(cat, small, pending', x, n)
    {
      assert ReferenceMet(cat, db, pending, x, n);
    }
  }

  /** Without its primary entry the document is pending; everything else is as it should be. */
  lemma DeletionBegins(cat: Catalog, t: Entries, docs: set<Bytes>, pending: Docs, did: DocId)
    requires did.coll in cat && did.coll != CDC_COLLECTION && did !in pending && SoundExcept(cat, t, docs, pending)
    ensures var m := t - {Prim(cat, did)};
            && SoundExcept(cat, m, docs, AndPending(pending, did, StoredIn(cat, t, did)))
            && Data(cat, m) == Data(cat, t) - {did}
    ensures StoredIn(cat, t, did) == VersionOf(Data(cat, t), did)
  {
    hide Complete, Referential, UniqueKeys, Data, CacheSound;
    DataExact(cat, t, did);
    if Prim(cat, did) in t {
      StoredDeletionBegins(cat, t, docs, pending, did);
    } else {
      assert t - {Prim(cat, did)} == t && Data(cat, t) - {did} == Data(cat, t);
    }
  }

  lemma StoredDeletionBegins(cat: Catalog, t: Entries, docs: set<Bytes>, pending: Docs, did: DocId)
    requires did.coll in cat && did.coll != CDC_COLLECTION && did !in pending && SoundExcept(cat, t, docs, pending)
    requires Prim(cat, did) in t
    ensures var m := t - {Prim(cat, did)};
            SoundExcept(cat, m, docs, pending[did := t[Prim(cat, did)]]) && Data(cat, m) == Data(cat, t) - {did}
  {
    var m := t - {Prim(cat, did)};
    hide Complete, Referential, UniqueKeys, Data, Within, CacheSound, DocsOf;
    DataExact(cat, t, did);
    CacheWhileDeleting(cat, t, m, docs, pending, did);
    DropPrimary(cat, t, pending, did);
    DataRemoved(cat, t, m, did);
    RemovedKeepsReferential(cat, Data(cat, t), pending, did);
    RemovalIsWithin(Data(cat, t), did);
    ShrinkKeepsUnique(cat, Data(cat, t), Data(cat, m));
  }

  lemma CacheWhileDeleting(cat: Catalog, t: Entries, m: Entries, docs: set<Bytes>, pending: Docs, did: DocId)
    requires did.coll in cat && m == t - {Prim(cat, did)} && CacheSound(cat, docs, t, pending)
    ensures CacheSound(cat, docs, m, if Prim(cat, did) in t then pending[did := t[Prim(cat, did)]] else pending)
  {
    hide CacheKey;
  }

  lemma RemovalIsWithin(db: Docs, did: DocId)
    ensures Within(db - {did}, db)
  {
  }

  lemma DataRemoved(cat: Catalog, t: Entries, m: Entries, did: DocId)
    requires DocsOf(cat, m) == DocsOf(cat, t) - {did}
    ensures Data(cat, m) == Data(cat, t) - {did}
  {
    hide DocsOf;
  }

  /** No document refers to this one. */
  ghost predicate NoChildren(cat: Catalog, db: Docs, did: DocId) {
    forall x, n {:trigger Parent(cat, x.coll, db[x], n)} ::
      x in db && x.coll in cat && n in cat[x.coll].indexes ==> Parent(cat, x.coll, db[x], n) != Some(did)
  }

  lemma ReferencesAfterwards(cat: Catalog, db: Docs, pending: Docs, did: DocId, doc: Json)
    requires Referential(cat, db, pending[did := doc]) && NoChildren(cat, db, did)
    ensures Referential(cat, db, pending)
  {
    forall x: DocId, n | x in db && x.coll in cat && n in cat[x.coll].indexes
      ensures ReferenceMet(cat, db, pending, x, n)
    {
      assert ReferenceMet(cat, db, pending[did := doc], x, n);
    }
  }

  /** When nothing refers to the document any more and its other entries are gone, its deletion is over. */
  lemma DeletionEnds(cat: Catalog, t: Entries, docs: set<Bytes>, pending: Docs, did: DocId, before: Option<Json>)
    requires GoodCatalog(cat) && did.coll in cat && did.coll != CDC_COLLECTION && did !in pending
    requires SoundExcept(cat, t, docs, AndPending(pending, did, before))
    requires NoChildren(cat, Data(cat, t), did) && CacheKey(did) !in docs
    requires before.None? ==> cat[did.coll].Secondary() == {}
    ensures var m := t - SlotSet(did, cat[did.coll].Secondary());
            SoundExcept(cat, m, docs, pending) && Data(cat, m) == Data(cat, t)
  {
    hide GoodCatalog, SoundExcept, NoChildren, Data, CacheKey;
    if before.Some? {
      PendingDeletionEnds(cat, t, docs, pending, did, before.value);
    } else {
      assert t - SlotSet(did, {}) == t;
    }
  }

  lemma PendingDeletionEnds(cat: Catalog, t: Entries, docs: set<Bytes>, pending: Docs, did: DocId, doc: Json)
    requires GoodCatalog(cat) && did.coll in cat && did !in pending && SoundExcept(cat, t, docs, pending[did := doc])
    requires NoChildren(cat, Data(cat, t), did) && CacheKey(did) !in docs
    ensures var m := t - SlotSet(did, cat[did.coll].Secondary());
            SoundExcept(cat, m, docs, pending) && Data(cat, m) == Data(cat, t)
  {
    hide GoodCatalog, Complete, Referential, UniqueKeys, CacheSound, NoChildren, DocsOf, DataOf, SlotSet, CacheKey;
    DropRest(cat, t, pending, did, doc);
    ReferencesAfterwards(cat, Data(cat, t), pending, did, doc);
    CacheAfterwards(cat, t, t - SlotSet(did, cat[did.coll].Secondary()), docs, pending, did, doc);
  }

  lemma CacheAfterwards(cat: Catalog, t: Entries, m: Entries, docs: set<Bytes>, pending: Docs, did: DocId, doc: Json)
    requires GoodCatalog(cat) && did.coll in cat && m == t - SlotSet(did, cat[did.coll].Secondary())
    requires CacheSound(cat, docs, t, pending[did := doc]) && CacheKey(did) !in docs
    ensures CacheSound(cat, docs, m, pending)
  {
    SecondaryNames(cat, did.coll);
    hide GoodCatalog, CacheKey;
    forall x: DocId | x.coll in cat && CacheKey(x) in docs ensures Prim(cat, x) in m || x in pending {
      assert Prim(cat, x) in t || x in pending[did := doc];
    }
  }

  lemma CacheShrinks(cat: Catalog, t: Entries, docs: set<Bytes>, docs': set<Bytes>, pending: Docs)
    requires SoundExcept(cat, t, docs, pending) && docs' <= docs
    ensures SoundExcept(cat, t, docs', pending)
  {
    hide Complete, Referential, UniqueKeys, CacheKey;
  }

  // ----- the steps between -----

  /** What has been removed so far, from `db0` down to `cur`, refers to the target and was deletable. */
  ghost predicate Progress(cat: Catalog, db0: Docs, cur: Docs, target: DocId)
    requires GoodCatalog(cat)
  {
    && Within(cur, db0)
    && (forall x {:trigger x in cur} :: x in db0 && x !in cur ==> Reaches(cat, db0, x, target) && Deletable(cat, x))
  }

  /** A document refers directly to the target. */
  ghost predicate Child(cat: Catalog, db: Docs, x: DocId, n: Bytes, target: DocId) {
    && x in db && x.coll in cat && n in cat[x.coll].indexes
    && Parent(cat, x.coll, db[x], n) == Some(target)
  }

  lemma ChildReaches(cat: Catalog, db: Docs, x: DocId, n: Bytes, target: DocId)
    requires GoodCatalog(cat) && Child(cat, db, x, n, target)
    ensures Reaches(cat, db, x, target) && target.coll in cat && cat[target.coll].level < cat[x.coll].level
  {
    ParentElsewhere(cat, x, db[x], n);
    assert GoodReference(cat, x.coll, target.coll);
    hide GoodCatalog;
    assert ReachesThrough(cat, db, x, n, target);
  }

  lemma DoomedThroughChild(cat: Catalog, db0: Docs, cur: Docs, x: DocId, n: Bytes, target: DocId, y: DocId)
    requires GoodCatalog(cat) && Within(cur, db0) && Child(cat, cur, x, n, target) && y in Doomed(cat, cur, x)
    ensures y in db0 && y in cur && Reaches(cat, db0, y, target)
  {
    hide GoodCatalog, Reaches;
    ChildReaches(cat, cur, x, n, target);
    assert Reaches(cat, cur, y, x) by { ReachesItself(cat, cur, x); }
    ReachesTransitive(cat, cur, y, x, target);
    ReachesMonotone(cat, cur, db0, y, target);
  }

  lemma ReachesItself(cat: Catalog, db: Docs, x: DocId)
    requires GoodCatalog(cat)
    ensures Reaches(cat, db, x, x)
  {
  }

  /** Deleting a referring document with everything that refers to it is progress. */
  lemma ProgressStep(cat: Catalog, db0: Docs, cur: Docs, x: DocId, n: Bytes, target: DocId)
    requires GoodCatalog(cat) && Progress(cat, db0, cur, target) && Child(cat, cur, x, n, target)
    requires AllDeletable(cat, cur, x)
    ensures Progress(cat, db0, cur - Doomed(cat, cur, x), target)
  {
    hide GoodCatalog, Reaches, Doomed, Child;
    var next := cur - Doomed(cat, cur, x);
    forall y | y in db0 && y !in next ensures Reaches(cat, db0, y, target) && Deletable(cat, y) {
      if y in cur { DoomedThroughChild(cat, db0, cur, x, n, target, y); }
    }
  }

  /** If a referring document cannot be deleted, neither can the target. */
  lemma ChildBlocks(cat: Catalog, db0: Docs, cur: Docs, x: DocId, n: Bytes, target: DocId)
    requires GoodCatalog(cat) && Within(cur, db0) && Child(cat, cur, x, n, target) && !AllDeletable(cat, cur, x)
    ensures !AllDeletable(cat, db0, target)
  {
    hide GoodCatalog, Reaches, Child;
    var y :| y in Doomed(cat, cur, x) && !Deletable(cat, y);
    DoomedThroughChild(cat, db0, cur, x, n, target, y);
    assert y in Doomed(cat, db0, target);
  }

  /** Other documents of the same collection survive the deletion. */
  lemma SiblingsSurvive(cat: Catalog, db: Docs, x: DocId, y: DocId)
    requires GoodCatalog(cat) && x.coll in cat && y in db && y.coll == x.coll && y != x
    ensures y in db - Doomed(cat, db, x)
  {
    hide GoodCatalog, Reaches;
    if Reaches(cat, db, y, x) { ReachesUpward(cat, db, y, x); }
  }

  lemma {:induction false} ReachesWithout(cat: Catalog, db: Docs, x: DocId, target: DocId)
    requires GoodCatalog(cat) && x != target
    ensures Reaches(cat, db, x, target) <==> Reaches(cat, db - {target}, x, target)
    decreases if x.coll in cat then cat[x.coll].level else 0
  {
    hide GoodCatalog;
    if Reaches(cat, db, x, target) {
      var n :| n in cat[x.coll].indexes && ReachesThrough(cat, db, x, n, target);
      var p := Parent(cat, x.coll, db[x], n).value;
      if p != target { ReachesWithout(cat, db, p, target); }
      assert ReachesThrough(cat, db - {target}, x, n, target);
    }
    if Reaches(cat, db - {target}, x, target) {
      ReachesMonotone(cat, db - {target}, db, x, target);
    }
  }

  lemma DoomedWithout(cat: Catalog, db: Docs, target: DocId)
    requires GoodCatalog(cat)
    ensures Doomed(cat, db, target) == Doomed(cat, db - {target}, target)
  {
    hide GoodCatalog, Reaches;
    forall x | x != target ensures x in Doomed(cat, db, target) <==> x in Doomed(cat, db - {target}, target) {
      ReachesWithout(cat, db, x, target);
    }
  }

  /** When all references are met again, exactly the doomed documents are gone. */
  lemma DeletedExactly(cat: Catalog, db: Docs, cur: Docs, pending: Docs, target: DocId)
    requires GoodCatalog(cat) && Progress(cat, db - {target}, cur, target) && Referential(cat, cur, pending)
    requires target !in pending && (forall p :: p in pending ==> p !in db) && Deletable(cat, target)
    ensures cur == db - Doomed(cat, db, target) && AllDeletable(cat, db, target)
  {
    hide GoodCatalog, Reaches, Referential;
    var db1 := db - {target};
    DoomedWithout(cat, db, target);
    forall x | x in db1 ensures x in cur <==> x !in Doomed(cat, db1, target) {
      if Reaches(cat, db1, x, target) { NothingLeftThatReaches(cat, db1, cur, pending, x, target); }
    }
    assert cur.Keys == (db - Doomed(cat, db, target)).Keys;
  }

  // ----- finding the referring documents -----

  function ReferenceClause(i: Index, id: Bytes): seq<Where>
    requires i.fields != []
  {
    [Where(i.fields[0], Eq, Str(id))]
  }

  lemma {:induction false} OneClauseMatches(i: Index, where: seq<Where>, n: nat)
    requires |where| == 1 && where[0].op.Eq? && n <= |i.fields|
    ensures MatchedUpTo(i, where, n) == if n > 0 && where[0].field == i.fields[0] then [i.fields[0]] else []
    ensures SeekUpTo(i, where, n) == []
  {
    if n > 0 { OneClauseMatches(i, where, n - 1); }
  }

  /** Whatever index the optimizer picks for the reference clause, it is matched on its first field. */
  lemma ReferencePlan(c: Schema, n: Bytes, id: Bytes, r: OptimizeResult)
    requires c.WellFormed() && n in c.indexes && |c.indexes[n].fields| == 1
    requires Answers(c, ReferenceClause(c.indexes[n], id), r)
    ensures r.Plan? && r.explain.index.fields != [] && r.explain.seekFields == []
    ensures r.explain.matchedFields == [r.explain.index.fields[0]]
    ensures r.explain.index.fields[0] == c.indexes[n].fields[0]
  {
    var where := ReferenceClause(c.indexes[n], id);
    OneClauseMatches(c.indexes[n], where, 1);
    assert Score(c.indexes[n], where) == 1;
    assert c.GoodIndex(c.primaryName);
    hide MatchedUpTo, SeekUpTo, PrefixFree, Schema.WellFormed, Schema.GoodIndex;
    if !PrimaryLookup(c, where) {
      OneClauseMatches(r.explain.index, where, |r.explain.index.fields|);
    }
  }

  lemma ReferencePlanFollowable(c: Schema, n: Bytes, id: Bytes, e: Explain)
    requires c.WellFormed() && n in c.indexes && |c.indexes[n].fields| == 1 && ValidId(id)
    requires Answers(c, ReferenceClause(c.indexes[n], id), Plan(e))
    ensures Followable(c, ReferenceClause(c.indexes[n], id), e) && InitialSegment(e) && e.seekFields == []
  {
    hide Answers, Schema.WellFormed;
    ReferencePlan(c, n, id, Plan(e));
  }

  lemma ReferenceNeedsNoIndex(c: Schema, n: Bytes, id: Bytes)
    requires n in c.indexes && |c.indexes[n].fields| == 1
    ensures !NeedsIndex(c, ReferenceClause(c.indexes[n], id))
  {
    OneClauseMatches(c.indexes[n], ReferenceClause(c.indexes[n], id), 1);
    assert Score(c.indexes[n], ReferenceClause(c.indexes[n], id)) == 1;
  }

  lemma ReferenceMatches(i: Index, id: Bytes, doc: Json)
    requires i.fields != [] && ValidId(id)
    ensures Matches(ReferenceClause(i, id), doc) <==> Get(doc, i.fields[0]) == Str(id)
  {
    var where := ReferenceClause(i, id);
    assert Operand(where[0], doc) == Str(id);
    if Matches(where, doc) { assert ClauseHolds(where[0], doc); }
    if Get(doc, i.fields[0]) == Str(id) { assert ClauseHolds(where[0], doc); }
  }

  /** The documents a cascading delete finds through one index: the referring ones, each once. */
  ghost predicate FoundAll(cat: Catalog, t: Entries, coll: Bytes, n: Bytes, id: Bytes, docs: seq<Json>)
    requires coll in cat && n in cat[coll].indexes && cat[coll].indexes[n].fields != []
  {
    && NoRepeats(docs)
    && (forall d :: d in docs <==> Wanted(cat, t, coll, ReferenceClause(cat[coll].indexes[n], id), d))
  }

  lemma ReferenceScan(cat: Catalog, view: View, b: Backend, t: Entries, coll: Bytes, n: Bytes, id: Bytes, e: Explain)
    requires GoodCatalog(cat) && Holds(cat, view, t) && coll in cat && CollectionReady(cat, t, coll)
    requires cat[coll].WellFormed()
    requires n in cat[coll].indexes && |cat[coll].indexes[n].fields| == 1 && ValidId(id)
    requires Answers(cat[coll], ReferenceClause(cat[coll].indexes[n], id), Plan(e))
    ensures PlanScalars(e)
    ensures var docs := ScanDocs(view, b, cat[coll], e, ReferenceClause(cat[coll].indexes[n], id));
            FoundAll(cat, t, coll, n, id, docs) && NoRepeats(docs)
  {
    var c := cat[coll];
    var where := ReferenceClause(c.indexes[n], id);
    hide GoodCatalog, Holds, CollectionReady, ScanDocs, Answers, Schema.WellFormed, Matches, Wanted, Followable,
      Missed, PlanShape;
    ReferencePlanFollowable(c, n, id, e);
    ShapeOf(c, where, e);
    assert ScanSetting(cat, view, t, coll, where, e);
    IndexScanRefinesFullScan(cat, view, b, t, coll, where, e);
    forall d ensures d in ScanDocs(view, b, c, e, where) <==> Wanted(cat, t, coll, where, d) {
      InitialMissesOnlySkipped(e, b, d);
    }
  }

  /** A found document is a stored one that refers to the target. */
  lemma FoundIsChild(cat: Catalog, view: View, t: Entries, coll: Bytes, n: Bytes, target: DocId, d: Json)
    requires GoodCatalog(cat) && Holds(cat, view, t) && ValidId(target.id)
    requires coll in cat && coll != CDC_COLLECTION && n in cat[coll].indexes
    requires cat[coll].indexes[n].RefersTo(target.coll)
    requires cat[coll].indexes[n].fields != []
    requires Wanted(cat, t, coll, ReferenceClause(cat[coll].indexes[n], target.id), d)
    ensures var x := DocId(coll, KeyText(cat[coll], d));
            ValidId(x.id) && Child(cat, Data(cat, t), x, n, target) && Data(cat, t)[x] == d
  {
    hide Data, Matches;
    var x := DocId(coll, KeyText(cat[coll], d));
    ReferenceMatches(cat[coll].indexes[n], target.id, d);
    assert EntryStored(cat, view, Prim(cat, x), d);
    DataExact(cat, t, x);
  }

  /** A stored document that refers to the target is found. */
  lemma ChildIsFound(cat: Catalog, view: View, t: Entries, coll: Bytes, n: Bytes, target: DocId, x: DocId)
    requires GoodCatalog(cat) && Holds(cat, view, t) && ValidId(target.id)
    requires coll in cat && coll != CDC_COLLECTION && n in cat[coll].indexes && cat[coll].indexes[n].fields != []
    requires x.coll == coll && Child(cat, Data(cat, t), x, n, target)
    ensures Wanted(cat, t, coll, ReferenceClause(cat[coll].indexes[n], target.id), Data(cat, t)[x])
    ensures KeyText(cat[coll], Data(cat, t)[x]) == x.id
  {
    hide GoodCatalog, Data, Matches;
    var d := Data(cat, t)[x];
    DataExact(cat, t, x);
    ReferenceMatches(cat[coll].indexes[n], target.id, d);
    assert EntryStored(cat, view, Prim(cat, x), d);
  }

  // ----- the running cascade -----

  /** The documents being deleted, up to and including the target's collection. */
  ghost predicate PendingUpTo(cat: Catalog, pending: Docs, coll: Bytes)
    requires coll in cat
  {
    forall p :: p in pending ==> p.coll in cat && p.coll != CDC_COLLECTION && cat[p.coll].level <= cat[coll].level
  }

  lemma PendingIsUpTo(cat: Catalog, pending: Docs, did: DocId, before: Option<Json>)
    requires did.coll in cat && did.coll != CDC_COLLECTION && PendingBelow(cat, pending, did.coll)
    ensures PendingUpTo(cat, AndPending(pending, did, before), did.coll)
    ensures did !in pending
  {
  }

  /** What holds between the deletions of a cascade that started with the documents `db0` and the log
      `log0`: everything that is gone is logged, referred to the target, and was deletable. */
  ghost predicate Cascading(cat: Catalog, db0: Docs, log0: seq<CDC>, cur: Docs, log: seq<CDC>, target: DocId,
      ctx: Context)
    requires GoodCatalog(cat)
  {
    Progress(cat, db0, cur, target) && LogsDeletes(cat, db0, log0, log, db0.Keys - cur.Keys, ctx)
  }

  lemma CascadeStarts(cat: Catalog, db: Docs, log: seq<CDC>, target: DocId, ctx: Context)
    requires GoodCatalog(cat)
    ensures Cascading(cat, db, log, db, log, target, ctx)
  {
  }

  lemma CascadeStep(cat: Catalog, db0: Docs, log0: seq<CDC>, cur: Docs, log: seq<CDC>, log': seq<CDC>, x: DocId,
        n: Bytes, target: DocId, ctx: Context)
    requires GoodCatalog(cat) && Cascading(cat, db0, log0, cur, log, target, ctx) && Child(cat, cur, x, n, target)
    requires AllDeletable(cat, cur, x) && LogsDeletes(cat, cur, log, log', Doomed(cat, cur, x), ctx)
    ensures Cascading(cat, db0, log0, cur - Doomed(cat, cur, x), log', target, ctx)
  {
    hide GoodCatalog, Reaches, Progress, LogsDeletes, AllDeletable;
    var gone := Doomed(cat, cur, x);
    ProgressStep(cat, db0, cur, x, n, target);
    assert Within(cur, db0) by { ProgressIsWithin(cat, db0, cur, target); }
    forall y | y in gone ensures VersionOf(cur, y) == VersionOf(db0, y) {
      DoomedIsStored(cat, cur, x, y);
    }
    LogsDeletesOf(cat, cur, db0, log, log', gone, ctx, ctx);
    LogsDeletesCompose(cat, db0, log0, log, log', db0.Keys - cur.Keys, gone, ctx);
    assert db0.Keys - cur.Keys + gone == db0.Keys - (cur - gone).Keys;
  }

  lemma DoomedIsStored(cat: Catalog, db: Docs, x: DocId, y: DocId)
    requires GoodCatalog(cat) && x in db && y in Doomed(cat, db, x)
    ensures y in db
  {
  }

  lemma ProgressIsWithin(cat: Catalog, db0: Docs, cur: Docs, target: DocId)
    requires GoodCatalog(cat) && Progress(cat, db0, cur, target)
    ensures Within(cur, db0)
  {
  }

  /** The documents of `docs` are still there and still refer to the target. */
  ghost predicate ChildDocs(cat: Catalog, db: Docs, coll: Bytes, n: Bytes, target: DocId, docs: seq<Json>)
    requires coll in cat
  {
    forall d {:trigger d in docs} :: d in docs ==> ChildDoc(cat, db, coll, n, target, d)
  }

  ghost predicate ChildDoc(cat: Catalog, db: Docs, coll: Bytes, n: Bytes, target: DocId, d: Json)
    requires coll in cat
  {
    var x := DocId(coll, KeyText(cat[coll], d));
    ValidId(x.id) && Child(cat, db, x, n, target) && db[x] == d
  }

  lemma FoundAreChildren(cat: Catalog, view: View, t: Entries, coll: Bytes, n: Bytes, target: DocId, docs: seq<Json>)
    requires GoodCatalog(cat) && Holds(cat, view, t) && ValidId(target.id)
    requires coll in cat && coll != CDC_COLLECTION && n in cat[coll].indexes
    requires cat[coll].indexes[n].RefersTo(target.coll)
    requires cat[coll].indexes[n].fields != [] && FoundAll(cat, t, coll, n, target.id, docs)
    ensures ChildDocs(cat, Data(cat, t), coll, n, target, docs)
  {
    hide *;
    forall d | d in docs ensures ChildDoc(cat, Data(cat, t), coll, n, target, d) {
      FoundIsWanted(cat, t, coll, n, target.id, docs, d);
      FoundIsChildDoc(cat, view, t, coll, n, target, d);
    }
    ChildDocsIntro(cat, Data(cat, t), coll, n, target, docs);
  }

  lemma ChildDocsIntro(cat: Catalog, db: Docs, coll: Bytes, n: Bytes, target: DocId, docs: seq<Json>)
    requires coll in cat && forall d :: d in docs ==> ChildDoc(cat, db, coll, n, target, d)
    ensures ChildDocs(cat, db, coll, n, target, docs)
  {
  }

  lemma FoundIsWanted(cat: Catalog, t: Entries, coll: Bytes, n: Bytes, id: Bytes, docs: seq<Json>, d: Json)
    requires coll in cat && n in cat[coll].indexes && cat[coll].indexes[n].fields != []
    requires FoundAll(cat, t, coll, n, id, docs)
    ensures d in docs <==> Wanted(cat, t, coll, ReferenceClause(cat[coll].indexes[n], id), d)
  {
    hide Wanted, NoRepeats;
  }

  lemma FoundIsChildDoc(cat: Catalog, view: View, t: Entries, coll: Bytes, n: Bytes, target: DocId, d: Json)
    requires GoodCatalog(cat) && Holds(cat, view, t) && ValidId(target.id)
    requires coll in cat && coll != CDC_COLLECTION && n in cat[coll].indexes
    requires cat[coll].indexes[n].RefersTo(target.coll)
    requires cat[coll].indexes[n].fields != []
    requires Wanted(cat, t, coll, ReferenceClause(cat[coll].indexes[n], target.id), d)
    ensures ChildDoc(cat, Data(cat, t), coll, n, target, d)
  {
    hide GoodCatalog, Holds, Wanted, Data, Child;
    FoundIsChild(cat, view, t, coll, n, target, d);
  }

  /** One deletion leaves the other found documents in place. */
  lemma OthersRemain(cat: Catalog, db: Docs, coll: Bytes, n: Bytes, target: DocId, docs: seq<Json>)
    requires GoodCatalog(cat) && coll in cat && docs != [] && NoRepeats(docs)
    requires ChildDocs(cat, db, coll, n, target, docs)
    ensures var x := DocId(coll, KeyText(cat[coll], docs[0]));
            ChildDocs(cat, db - Doomed(cat, db, x), coll, n, target, docs[1..])
  {
    hide GoodCatalog, KeyText, Doomed, ValidId;
    var x := DocId(coll, KeyText(cat[coll], docs[0]));
    assert docs[0] in docs && ChildDoc(cat, db, coll, n, target, docs[0]);
    forall d | d in docs[1..] ensures ChildDoc(cat, db - Doomed(cat, db, x), coll, n, target, d) {
      assert d in docs && ChildDoc(cat, db, coll, n, target, d);
      var y := DocId(coll, KeyText(cat[coll], d));
      var k :| 1 <= k < |docs| && docs[k] == d;
      assert docs[0] != docs[k];
      SiblingsSurvive(cat, db, x, y);
    }
  }

  /** The found documents are gone. */
  ghost predicate AllGone(cat: Catalog, db: Docs, coll: Bytes, docs: seq<Json>)
    requires coll in cat
  {
    forall d {:trigger d in docs} :: d in docs ==> DocId(coll, KeyText(cat[coll], d)) !in db
  }

  lemma GoneStaysGone(cat: Catalog, large: Docs, small: Docs, coll: Bytes, docs: seq<Json>, d: Json)
    requires coll in cat && Within(small, large) && AllGone(cat, large, coll, docs)
    requires DocId(coll, KeyText(cat[coll], d)) !in small
    ensures AllGone(cat, small, coll, docs + [d])
  {
    hide KeyText;
    forall x | x in docs + [d] ensures DocId(coll, KeyText(cat[coll], x)) !in small {
      assert x in docs || x == d;
    }
  }

  /** No document of the collection refers to the target through this index. */
  ghost predicate NoneThrough(cat: Catalog, db: Docs, coll: Bytes, n: Bytes, target: DocId) {
    forall x {:trigger x in db} :: x in db && x.coll == coll ==> !Child(cat, db, x, n, target)
  }

  lemma NoneThroughStable(cat: Catalog, large: Docs, small: Docs, coll: Bytes, n: Bytes, target: DocId)
    requires Within(small, large) && NoneThrough(cat, large, coll, n, target)
    ensures NoneThrough(cat, small, coll, n, target)
  {
    hide Parent;
    forall x | x in small && x.coll == coll ensures !Child(cat, small, x, n, target) {
      assert x in large;
    }
  }

  /** If all that was found is gone, no document refers to the target through this index any more. */
  lemma NoneLeftThrough(cat: Catalog, view: View, t: Entries, coll: Bytes, n: Bytes, target: DocId, docs: seq<Json>,
        cur: Docs)
    requires GoodCatalog(cat) && Holds(cat, view, t) && ValidId(target.id)
    requires coll in cat && coll != CDC_COLLECTION && n in cat[coll].indexes && cat[coll].indexes[n].fields != []
    requires FoundAll(cat, t, coll, n, target.id, docs)
    requires Within(cur, Data(cat, t)) && AllGone(cat, cur, coll, docs)
    ensures NoneThrough(cat, cur, coll, n, target)
  {
    hide GoodCatalog, Holds, Wanted, Data, KeyText, FoundAll, ValidId, Parent;
    forall x | x in cur && x.coll == coll ensures !Child(cat, cur, x, n, target) {
      if Child(cat, cur, x, n, target) {
        assert Child(cat, Data(cat, t), x, n, target);
        ChildIsFound(cat, view, t, coll, n, target, x);
        FoundIsWanted(cat, t, coll, n, target.id, docs, cur[x]);
      }
    }
  }

  lemma NoneThroughAnything(cat: Catalog, db: Docs, target: DocId)
    requires forall c, n :: c in cat && n in cat[c].indexes ==> NoneThrough(cat, db, c, n, target)
    ensures NoChildren(cat, db, target)
  {
    hide Parent;
    forall x, n | x in db && x.coll in cat && n in cat[x.coll].indexes
      ensures Parent(cat, x.coll, db[x], n) != Some(target)
    {
      assert NoneThrough(cat, db, x.coll, n, target);
      assert !Child(cat, db, x, n, target);
    }
  }

  /** Indexes that do not refer to the target's collection have nothing to contribute. */
  lemma NoneThroughOther(cat: Catalog, db: Docs, coll: Bytes, n: Bytes, target: DocId)
    requires coll in cat && n in cat[coll].indexes && !cat[coll].indexes[n].RefersTo(target.coll)
    ensures NoneThrough(cat, db, coll, n, target)
  {
  }

  lemma ReferringCollection(cat: Catalog, coll: Bytes, n: Bytes, target: Bytes)
    requires GoodCatalog(cat) && coll in cat && n in cat[coll].indexes && cat[coll].indexes[n].RefersTo(target)
    ensures coll != CDC_COLLECTION && cat[coll].WellFormed()
    ensures |cat[coll].indexes[n].fields| == 1 && cat[coll].indexes[n].fields[0] != []
    ensures target in cat && cat[target].level < cat[coll].level
  {
    assert GoodReference(cat, coll, target);
    ForeignIsSecondary(cat, coll, n);
  }

  lemma AboveShrinks(cat: Catalog, coll: Bytes, target: Bytes)
    requires coll in cat && target in cat && cat[target].level < cat[coll].level
    ensures Above(cat, coll) < Above(cat, target)
  {
    assert coll in Above(cat, target) && coll !in Above(cat, coll);
  }

  lemma PendingIsBelow(cat: Catalog, pending: Docs, target: Bytes, coll: Bytes)
    requires coll in cat && target in cat && cat[target].level < cat[coll].level && PendingUpTo(cat, pending, target)
    ensures PendingBelow(cat, pending, coll)
  {
  }

  lemma DeletionReady(cat: Catalog, t: Entries, docs: set<Bytes>, pending: Docs, coll: Bytes)
    requires GoodCatalog(cat) && SoundExcept(cat, t, docs, pending) && coll in cat && PendingBelow(cat, pending, coll)
    ensures CollectionReady(cat, t, coll) && NoneIn(pending, CDC_COLLECTION)
    ensures CDC_COLLECTION in cat && CollectionReady(cat, t, CDC_COLLECTION)
  {
    ReadyWhenComplete(cat, t, pending, coll);
    ReadyWhenComplete(cat, t, pending, CDC_COLLECTION);
  }

  lemma KeyIsOneName(cat: Catalog, coll: Bytes)
    requires GoodCatalog(cat) && coll in cat
    ensures |cat[coll].pk| == 1
  {
    assert cat[coll].WellFormed();
  }

  lemma NoSlots(did: DocId)
    ensures SlotSet(did, {}) == {}
  {
  }

  lemma OneSlotMore(did: DocId, names: set<Bytes>, n: Bytes)
    ensures SlotSet(did, names + {n}) == SlotSet(did, names) + {Slot(did, n)}
  {
  }

  lemma NotStored(cat: Catalog, t: Entries, did: DocId)
    requires did.coll in cat && did.coll != CDC_COLLECTION && did !in Data(cat, t)
    ensures Prim(cat, did) !in t
  {
    DataExact(cat, t, did);
  }

  /** The entries left of a pending document are those of its last version. */
  lemma PendingEntries(cat: Catalog, t: Entries, docs: set<Bytes>, pending: Docs, did: DocId, before: Option<Json>)
    requires did.coll in cat && SoundExcept(cat, t, docs, AndPending(pending, did, before))
    requires Prim(cat, did) !in t && did !in pending
    ensures OldEntries(cat, t, did, before)
  {
    var pending' := AndPending(pending, did, before);
    forall n | n in cat[did.coll].Secondary() && Slot(did, n) in t ensures before == Some(t[Slot(did, n)]) {
      assert EntryCurrent(cat, t, pending', Slot(did, n));
    }
  }

  lemma WithinItself(db: Docs)
    ensures Within(db, db)
  {
  }

  lemma WithinTransitive(small: Docs, mid: Docs, large: Docs)
    requires Within(small, mid) && Within(mid, large)
    ensures Within(small, large)
  {
  }

  lemma WithinRemoved(db: Docs, gone: set<DocId>, large: Docs)
    requires Within(db, large)
    ensures Within(db - gone, large)
  {
  }

  lemma NothingGone(cat: Catalog, db: Docs, coll: Bytes)
    requires coll in cat
    ensures AllGone(cat, db, coll, [])
  {
  }

  lemma UndeletableTarget(cat: Catalog, db: Docs, target: DocId)
    requires GoodCatalog(cat) && !Deletable(cat, target)
    ensures !CanDelete(cat, db, target)
  {
  }

  lemma LogIsNotDeletable(cat: Catalog, did: DocId)
    requires GoodCatalog(cat) && Deletable(cat, did)
    ensures did.coll != CDC_COLLECTION
  {
  }

  lemma FirstChild(cat: Catalog, db: Docs, coll: Bytes, n: Bytes, target: DocId, docs: seq<Json>)
    requires coll in cat && docs != [] && ChildDocs(cat, db, coll, n, target, docs)
    ensures ChildDoc(cat, db, coll, n, target, docs[0])
  {
    hide ChildDoc;
    assert docs[0] in docs;
  }

  lemma DoomedIncludesTarget(cat: Catalog, db: Docs, target: DocId)
    requires GoodCatalog(cat)
    ensures target in Doomed(cat, db, target)
  {
  }

  lemma NoRepeatsRest(docs: seq<Json>)
    requires NoRepeats(docs) && docs != []
    ensures NoRepeats(docs[1..])
  {
  }

  lemma CascadeIsWithin(cat: Catalog, db0: Docs, log0: seq<CDC>, cur: Docs, log: seq<CDC>, target: DocId, ctx: Context)
    requires GoodCatalog(cat) && Cascading(cat, db0, log0, cur, log, target, ctx)
    ensures Within(cur, db0)
  {
  }

  /** If a found document cannot be deleted, the target cannot. */
  lemma FoundBlocks(cat: Catalog, db0: Docs, log0: seq<CDC>, cur: Docs, log: seq<CDC>, x: DocId, n: Bytes,
        target: DocId, ctx: Context)
    requires GoodCatalog(cat) && Cascading(cat, db0, log0, cur, log, target, ctx) && Child(cat, cur, x, n, target)
    requires !CanDelete(cat, cur, x)
    ensures !AllDeletable(cat, db0, target)
  {
    CascadeIsWithin(cat, db0, log0, cur, log, target, ctx);
    DoomedIncludesTarget(cat, cur, x);
    hide GoodCatalog, Doomed, Cascading;
    ChildBlocks(cat, db0, cur, x, n, target);
  }

  lemma CanDeleteMeans(cat: Catalog, db: Docs, target: DocId)
    requires GoodCatalog(cat)
    ensures CanDelete(cat, db, target) ==> AllDeletable(cat, db, target)
    ensures (AllDeletable(cat, db, target) && target.coll in cat
        && (target in db || cat[target.coll].Secondary() == {})) ==> CanDelete(cat, db, target)
    ensures CanDelete(cat, db, target) ==> target in db || (target.coll in cat && cat[target.coll].Secondary() == {})
    ensures AllDeletable(cat, db - {target}, target) <==> AllDeletable(cat, db, target)
  {
    DoomedIncludesTarget(cat, db, target);
    DoomedWithout(cat, db, target);
    hide GoodCatalog, Doomed;
  }

  /** The target alone, as it was before. */
  function Own(target: DocId, before: Option<Json>): Docs {
    if before.Some? then map[target := before.value] else map[]
  }

  /** The outcome of a finished deletion: the doomed documents are gone and each is logged. */
  lemma DeletionOutcome(cat: Catalog, db: Docs, log0: seq<CDC>, cur: Docs, log1: seq<CDC>, log2: seq<CDC>,
      t: Entries, docs: set<Bytes>, pending: Docs, t0: Entries, docs0: set<Bytes>, target: DocId, before: Option<Json>,
      ctx: Context)
    requires GoodCatalog(cat) && Deletable(cat, target) && target !in pending
    requires before == VersionOf(db, target)
    requires Cascading(cat, db - {target}, log0, cur, log1, target, ctx)
    requires LogsDeletes(cat, Own(target, before), log1, log2, {target}, ctx)
    requires SoundExcept(cat, t, docs, pending) && Data(cat, t) == cur
    requires SoundExcept(cat, t0, docs0, pending) && Data(cat, t0) == db
    ensures cur == db - Doomed(cat, db, target) && LogsDeletes(cat, db, log0, log2, Doomed(cat, db, target), ctx)
    ensures AllDeletable(cat, db, target)
  {
    hide GoodCatalog, Complete, CacheSound, UniqueKeys, Reaches, Doomed, Data, LogsDeletes, Cascading, SoundExcept,
      Progress, Referential, AllDeletable, Own;
    PendingIsNotStored(cat, t0, docs0, pending);
    CascadeParts(cat, db - {target}, log0, cur, log1, target, ctx);
    SoundIsReferential(cat, t, docs, pending);
    DeletedExactly(cat, db, cur, pending, target);
    DeletionLogged(cat, db, log0, log1, log2, (db - {target}).Keys - cur.Keys, target, before, ctx);
    DoomedKeys(cat, db, cur, target);
  }

  lemma DeletionLogged(cat: Catalog, db: Docs, log0: seq<CDC>, log1: seq<CDC>, log2: seq<CDC>, gone: set<DocId>,
      target: DocId, before: Option<Json>, ctx: Context)
    requires before == VersionOf(db, target)
    requires gone <= (db - {target}).Keys && LogsDeletes(cat, db - {target}, log0, log1, gone, ctx)
    requires LogsDeletes(cat, Own(target, before), log1, log2, {target}, ctx)
    ensures LogsDeletes(cat, db, log0, log2, gone + {target}, ctx)
  {
    hide LogsDeletes;
    LogsDeletesOf(cat, db - {target}, db, log0, log1, gone, ctx, ctx);
    LogsDeletesOf(cat, Own(target, before), db, log1, log2, {target}, ctx, ctx);
    LogsDeletesCompose(cat, db, log0, log1, log2, gone, {target}, ctx);
  }

  lemma DoomedKeys(cat: Catalog, db: Docs, cur: Docs, target: DocId)
    requires GoodCatalog(cat) && cur == db - Doomed(cat, db, target)
    ensures ((db - {target}).Keys - cur.Keys) + {target} == Doomed(cat, db, target)
  {
    hide GoodCatalog, Reaches;
    DoomedIncludesTarget(cat, db, target);
  }

  lemma SoundIsReferential(cat: Catalog, t: Entries, docs: set<Bytes>, pending: Docs)
    requires SoundExcept(cat, t, docs, pending)
    ensures Referential(cat, Data(cat, t), pending)
  {
  }

  lemma CascadeParts(cat: Catalog, db0: Docs, log0: seq<CDC>, cur: Docs, log: seq<CDC>, target: DocId, ctx: Context)
    requires GoodCatalog(cat) && Cascading(cat, db0, log0, cur, log, target, ctx)
    ensures Progress(cat, db0, cur, target) && LogsDeletes(cat, db0, log0, log, db0.Keys - cur.Keys, ctx)
  {
  }

  lemma PendingIsNotStored(cat: Catalog, t: Entries, docs: set<Bytes>, pending: Docs)
    requires SoundExcept(cat, t, docs, pending)
    ensures forall p :: p in pending ==> p !in Data(cat, t)
  {
    hide Referential, UniqueKeys, CacheSound;
  }

  lemma LogsOneDelete(cat: Catalog, log0: seq<CDC>, log: seq<CDC>, did: DocId, before: Option<Json>, timestamp: int,
        ctx: Context)
    requires did.coll in cat && ctx.from <= timestamp < ctx.until
    requires Logs(log0, log, Delete, did, WithKey(cat[did.coll], EMPTY_OBJECT, did.id), before, timestamp, ctx.metadata)
    ensures LogsDeletes(cat, Own(did, before), log0, log, {did}, ctx)
  {
    hide IsDiff, WithKey;
    assert Subject(log[|log0|]) == did;
  }

  lemma NothingPending(cat: Catalog, coll: Bytes)
    ensures coll in cat ==> PendingBelow(cat, map[], coll)
  {
  }
}
