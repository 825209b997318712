/** What commands do to the map of documents, and what every run of them preserves. */
module Runs {
  import opened ByteStrings
  import opened Json
  import opened Schemas
  import opened Indexing
  import opened Store
  import opened Documents
  import opened ChangeLog
  import opened Preparation
  import opened Soundness
  import opened Cascade
  import opened Updates

  datatype Command =
    | CreateDoc(coll: Bytes, doc: Json)
    | SetDoc(coll: Bytes, doc: Json)
    | UpdateDoc(coll: Bytes, id: Bytes, patch: Json)
    | DeleteDoc(coll: Bytes, id: Bytes)

  /** The patch supplies every indexed field, except the primary key and the immutable ones, which the
      command supplies itself. */
  ghost predicate FullPatch(c: Schema, patch: Json) {
    forall n, f :: n in c.Secondary() && f in c.indexes[n].fields ==>
      f in c.immutablePaths + {c.pk} || (ApartFrom(c.immutablePaths + {c.pk}, f) && Exists(patch, f))
  }

  /** What a caller has to observe for a run to keep the store sound. */
  ghost predicate Admissible(cat: Catalog, cmd: Command) {
    match cmd
    case CreateDoc(coll, doc) => Acceptable(cat, coll, doc)
    case SetDoc(coll, doc) => Acceptable(cat, coll, doc)
    case UpdateDoc(coll, id, patch) => patch.Obj? && (coll in cat ==> FullPatch(cat[coll], patch))
    case DeleteDoc(coll, id) => id == [] || ValidId(id)
  }

  /** The stored documents outside the log, and the log. */
  datatype State = State(docs: Docs, log: seq<CDC>)

  /** The document a command names; `id` is the one create returns. */
  function Target(cat: Catalog, cmd: Command, id: Bytes): DocId {
    match cmd
    case CreateDoc(coll, doc) => DocId(coll, id)
    case SetDoc(coll, doc) => DocId(coll, if coll in cat then KeyText(cat[coll], doc) else [])
    case UpdateDoc(coll, i, patch) => DocId(coll, i)
    case DeleteDoc(coll, i) => DocId(coll, i)
  }

  /** What the schema permits. Create is not stopped by an immutable collection. */
  ghost predicate Permitted(cat: Catalog, db: Docs, cmd: Command, id: Bytes)
    requires GoodCatalog(cat) && cmd.coll in cat
  {
    var c, did := cat[cmd.coll], Target(cat, cmd, id);
    match cmd
    case CreateDoc(_, _) => !c.readOnly
    case SetDoc(_, _) => !c.readOnly && !(c.immutable && did in db)
    case UpdateDoc(_, _, _) => !c.readOnly && !c.immutable
    case DeleteDoc(_, _) => CanDelete(cat, db, did)
  }

  /** One record has been appended: that of this command, at a time within its context. */
  ghost predicate LogsWithin(log0: seq<CDC>, log: seq<CDC>, action: Action, did: DocId, doc: Json, before: Option<Json>,
      ctx: Context)
  {
    && |log| == |log0| + 1 && ctx.Covers(log[|log0|])
    && Logs(log0, log, action, did, doc, before, log[|log0|].timestamp, ctx.metadata)
  }

  /** The effect of a successful command on the documents and on the log. */
  ghost predicate Effect(cat: Catalog, s: State, s': State, cmd: Command, id: Bytes, ctx: Context)
    requires GoodCatalog(cat)
  {
    && cmd.coll in cat && Permitted(cat, s.docs, cmd, id)
    && var did := Target(cat, cmd, id);
    match cmd
    case CreateDoc(coll, doc) => CreateEffect(cat, s, s', did, doc, ctx)
    case SetDoc(coll, doc) => SetEffect(cat, s, s', did, doc, ctx)
    case UpdateDoc(coll, i, patch) => UpdateEffect(cat, s, s', did, patch, ctx)
    case DeleteDoc(coll, i) =>
      && s'.docs == s.docs - Doomed(cat, s.docs, did)
      && LogsDeletes(cat, s.docs, s.log, s'.log, Doomed(cat, s.docs, did), ctx)
  }

  /** A document that names an id is stored under it, whatever was there; one that does not gets a new one. */
  ghost predicate CreateEffect(cat: Catalog, s: State, s': State, did: DocId, doc: Json, ctx: Context)
    requires did.coll in cat
  {
    var c := cat[did.coll];
    && doc.Obj? && (if KeyText(c, doc) != [] then did.id == KeyText(c, doc) else did !in s.docs)
    && s'.docs == s.docs[did := WithKey(c, doc, did.id)] && c.accepts(s'.docs[did])
    && LogsWithin(s.log, s'.log, Action.Create, did, WithKey(c, doc, did.id), VersionOf(s.docs, did), ctx)
  }

  ghost predicate SetEffect(cat: Catalog, s: State, s': State, did: DocId, doc: Json, ctx: Context)
    requires did.coll in cat
  {
    && did in s'.docs && s'.docs == s.docs[did := s'.docs[did]] && cat[did.coll].accepts(s'.docs[did])
    && (if did in s.docs then Pinned(cat[did.coll], doc, s.docs[did], s'.docs[did]) else s'.docs[did] == doc)
    && LogsWithin(s.log, s'.log, Action.Set, did, s'.docs[did], VersionOf(s.docs, did), ctx)
  }

  ghost predicate UpdateEffect(cat: Catalog, s: State, s': State, did: DocId, patch: Json, ctx: Context)
    requires did.coll in cat
  {
    && patch.Obj? && did in s.docs && did in s'.docs && s'.docs == s.docs[did := s'.docs[did]]
    && cat[did.coll].accepts(s'.docs[did])
    && exists command :: UpdatedWith(cat, s, s', did, patch, ctx, command)
  }

  ghost predicate UpdatedWith(cat: Catalog, s: State, s': State, did: DocId, patch: Json, ctx: Context, command: Json)
    requires did.coll in cat && did in s.docs && did in s'.docs
  {
    && Prepared(cat[did.coll], patch, did.id, s.docs[did], command)
    && Written(s.docs[did], Flatten(command), s'.docs[did])
    && LogsWithin(s.log, s'.log, Action.Update, did, command, Some(s.docs[did]), ctx)
  }

  /** The states between the commands of a run. */
  ghost predicate Follows(cat: Catalog, trace: seq<State>, commands: seq<Command>, ids: seq<Bytes>, ctxs: seq<Context>)
    requires GoodCatalog(cat)
  {
    && |trace| == |commands| + 1 && |ids| == |commands| == |ctxs|
    && (forall k :: 0 <= k < |commands| ==> Effect(cat, trace[k], trace[k + 1], commands[k], ids[k], ctxs[k]))
  }

  lemma FollowsMore(cat: Catalog, trace: seq<State>, commands: seq<Command>, ids: seq<Bytes>, ctxs: seq<Context>,
        s: State, cmd: Command, id: Bytes, ctx: Context)
    requires GoodCatalog(cat) && Follows(cat, trace, commands, ids, ctxs)
    requires Effect(cat, trace[|commands|], s, cmd, id, ctx)
    ensures Follows(cat, trace + [s], commands + [cmd], ids + [id], ctxs + [ctx])
  {
    hide Effect, GoodCatalog;
    var trace', commands', ids', ctxs' := trace + [s], commands + [cmd], ids + [id], ctxs + [ctx];
    forall k | 0 <= k < |commands'| ensures Effect(cat, trace'[k], trace'[k + 1], commands'[k], ids'[k], ctxs'[k]) {
      if k < |commands| { assert Effect(cat, trace[k], trace[k + 1], commands[k], ids[k], ctxs[k]); }
    }
  }

  lemma FollowsLess(cat: Catalog, trace: seq<State>, commands: seq<Command>, ids: seq<Bytes>, ctxs: seq<Context>)
    requires GoodCatalog(cat) && Follows(cat, trace, commands, ids, ctxs) && commands != []
    ensures var n := |commands| - 1; Follows(cat, trace[..n + 1], commands[..n], ids[..n], ctxs[..n])
  {
    hide GoodCatalog, Effect;
    var n := |commands| - 1;
    forall k | 0 <= k < n
      ensures Effect(cat, trace[..n + 1][k], trace[..n + 1][k + 1], commands[..n][k], ids[..n][k], ctxs[..n][k])
    {
      assert Effect(cat, trace[k], trace[k + 1], commands[k], ids[k], ctxs[k]);
    }
  }

  lemma EffectAt(cat: Catalog, trace: seq<State>, commands: seq<Command>, ids: seq<Bytes>, ctxs: seq<Context>, k: nat)
    requires GoodCatalog(cat) && Follows(cat, trace, commands, ids, ctxs) && k < |commands|
    ensures Effect(cat, trace[k], trace[k + 1], commands[k], ids[k], ctxs[k])
  {
  }

  /** The documents a command concerns. */
  ghost function Touched(cat: Catalog, db: Docs, cmd: Command, id: Bytes): set<DocId>
    requires GoodCatalog(cat)
  {
    if cmd.DeleteDoc? then Doomed(cat, db, Target(cat, cmd, id)) else {Target(cat, cmd, id)}
  }

  /** All others are as before, and the log says nothing new about them. */
  lemma UntouchedStays(cat: Catalog, s: State, s': State, cmd: Command, id: Bytes, ctx: Context, did: DocId)
    requires GoodCatalog(cat) && Effect(cat, s, s', cmd, id, ctx) && did !in Touched(cat, s.docs, cmd, id)
    ensures VersionOf(s'.docs, did) == VersionOf(s.docs, did)
    ensures |s.log| <= |s'.log| && s'.log[..|s.log|] == s.log
    ensures forall i :: |s.log| <= i < |s'.log| ==> Subject(s'.log[i]) != did
  {
    hide GoodCatalog, Doomed, Pinned, Prepared, Written, IsDiff, WithKey, CanDelete, DeleteRecord;
    if cmd.UpdateDoc? {
      var target := Target(cat, cmd, id);
      var command :| UpdatedWith(cat, s, s', target, cmd.patch, ctx, command);
    }
  }

  /** What a new record says: which kind of command it was, about which of the documents it touches, with what
      metadata and at a time within the command. For a document that create or set has stored, applying the
      difference to the version before gives the leaves of the stored one, unless one stands on an object. */
  lemma RecordSays(cat: Catalog, s: State, s': State, cmd: Command, id: Bytes, ctx: Context, i: nat)
    requires GoodCatalog(cat) && Effect(cat, s, s', cmd, id, ctx) && |s.log| <= i < |s'.log|
    ensures s'.log[i].action == match cmd
      case CreateDoc(_, _) => Action.Create
      case SetDoc(_, _) => Action.Set
      case UpdateDoc(_, _, _) => Action.Update
      case DeleteDoc(_, _) => Action.Delete
    ensures DocId(s'.log[i].collection, s'.log[i].documentID) in Touched(cat, s.docs, cmd, id)
    ensures ctx.from <= s'.log[i].timestamp < ctx.until && s'.log[i].metadata == ctx.metadata
    ensures cmd.CreateDoc? || cmd.SetDoc? ==>
      var did := Target(cat, cmd, id);
      did in s'.docs && IsDiff(s'.docs[did], VersionOf(s.docs, did).GetOr(EMPTY_OBJECT), s'.log[i].diff)
  {
    hide GoodCatalog, Doomed, Pinned, Prepared, Written, IsDiff, WithKey, CanDelete, DistinctSubjects;
    if cmd.UpdateDoc? {
      var command :| UpdatedWith(cat, s, s', Target(cat, cmd, id), cmd.patch, ctx, command);
    }
    if cmd.DeleteDoc? { assert DeleteRecord(cat, s.docs, s'.log[i], ctx); }
  }

  /** A field the command has is indexed as the merged document has it. */
  lemma SuppliedIsCovered(before: Json, command: Json, after: Json, f: Path)
    requires Written(before, Flatten(command), after) && Exists(command, f) && ScalarAt(after, f).Some?
    ensures ScalarAt(command, f).Some?
  {
    MergedField(before, command, after, f);
  }

  lemma PkIsApart(c: Schema)
    requires PrefixFree(c.immutablePaths + {c.pk}) && c.pk !in c.immutablePaths
    ensures ApartFrom(c.immutablePaths, c.pk)
  {
    forall p | p in c.immutablePaths ensures !Comparable(p, c.pk) {
      assert p in c.immutablePaths + {c.pk} && c.pk in c.immutablePaths + {c.pk};
    }
  }

  /** A full patch covers the indexes, whatever the stored document looks like. */
  lemma FullPatchCovers(c: Schema, patch: Json, id: Bytes, before: Json, command: Json, after: Json)
    requires c.pk != [] && PrefixFree(c.immutablePaths + {c.pk}) && FullPatch(c, patch)
    requires Prepared(c, patch, id, before, command) && Written(before, Flatten(command), after)
    ensures PatchCovers(c, command, after)
  {
    hide PrefixFree, Written, Flatten, Pinned, ApartFrom;
    forall n, f | n in c.Secondary() && f in c.indexes[n].fields && ScalarAt(after, f).Some?
      ensures ScalarAt(command, f).Some?
    {
      SuppliedField(c, patch, id, before, command, f);
      SuppliedIsCovered(before, command, after, f);
    }
  }

  lemma SuppliedField(c: Schema, patch: Json, id: Bytes, before: Json, command: Json, f: Path)
    requires c.pk != [] && PrefixFree(c.immutablePaths + {c.pk}) && Prepared(c, patch, id, before, command)
    requires f in c.immutablePaths + {c.pk} || (ApartFrom(c.immutablePaths + {c.pk}, f) && Exists(patch, f))
    ensures Exists(command, f)
  {
    if f in c.immutablePaths { return; }
    var doc := WithKey(c, patch, id);
    if f == c.pk {
      PkIsApart(c);
      LookupSetBelow(patch, c.pk, Str(id), c.pk);
    } else {
      ApartFromBoth(c.immutablePaths, c.pk, f);
      LookupSetApart(patch, c.pk, Str(id), f);
    }
    assert Lookup(command, f) == Lookup(doc, f);
  }

  lemma ApartFromBoth(ps: set<Path>, pk: Path, f: Path)
    requires ApartFrom(ps + {pk}, f)
    ensures ApartFrom(ps, f) && !Comparable(pk, f)
  {
    forall p | p in ps + {pk} ensures !Comparable(p, f) {}
  }

  // ----- immutable properties -----

  /** The command is a create of this very document. */
  predicate Creates(cmd: Command, id: Bytes, did: DocId) {
    cmd.CreateDoc? && DocId(cmd.coll, id) == did
  }

  lemma ImmutableInUpdate(c: Schema, patch: Json, id: Bytes, before: Json, command: Json, after: Json, p: Path)
    requires Prepared(c, patch, id, before, command) && Written(before, Flatten(command), after)
    requires p in c.immutablePaths && !Get(before, p).Obj?
    ensures Get(after, p) == Get(before, p)
  {
    MergedField(before, command, after, p);
  }

  /** Any command but a create of the document keeps its scalar immutable properties. */
  lemma ImmutableStep(cat: Catalog, s: State, s': State, cmd: Command, id: Bytes, ctx: Context, did: DocId, p: Path)
    requires GoodCatalog(cat) && Effect(cat, s, s', cmd, id, ctx) && !Creates(cmd, id, did)
    requires did in s.docs && did in s'.docs && did.coll in cat
    requires p in cat[did.coll].immutablePaths && !Get(s.docs[did], p).Obj?
    ensures Get(s'.docs[did], p) == Get(s.docs[did], p)
  {
    hide GoodCatalog, Doomed, Lookup, EditedOnlyAt, Written, LogsWithin, LogsDeletes, CanDelete;
    match cmd
    case CreateDoc(coll, doc) =>
    case SetDoc(coll, doc) =>
      if did == DocId(coll, KeyText(cat[coll], doc)) {
        assert Pinned(cat[coll], doc, s.docs[did], s'.docs[did]);
      }
    case UpdateDoc(coll, i, patch) =>
      if did == DocId(coll, i) {
        var command :| UpdatedWith(cat, s, s', did, patch, ctx, command);
        ImmutableInUpdate(cat[coll], patch, i, s.docs[did], command, s'.docs[did], p);
      }
    case DeleteDoc(coll, i) =>
  }

  /** Every create of the document writes the value `v` at the path. */
  ghost predicate CreatesKeep(cat: Catalog, commands: seq<Command>, ids: seq<Bytes>, did: DocId, p: Path, v: Json)
    requires |ids| == |commands| && did.coll in cat
  {
    forall k :: 0 <= k < |commands| && Creates(commands[k], ids[k], did) ==>
      Get(WithKey(cat[did.coll], commands[k].doc, ids[k]), p) == v
  }

  /** A scalar immutable property keeps its value throughout a run, as long as the document exists, if
      and only if every create that hits the document writes that very value. */
  lemma {:induction false} ImmutableOverRuns(cat: Catalog, trace: seq<State>, commands: seq<Command>, ids: seq<Bytes>,
        ctxs: seq<Context>, did: DocId, p: Path)
    requires GoodCatalog(cat) && Follows(cat, trace, commands, ids, ctxs)
    requires did.coll in cat && p in cat[did.coll].immutablePaths
    requires forall k :: 0 <= k < |trace| ==> did in trace[k].docs
    requires !Get(trace[0].docs[did], p).Obj?
    ensures (forall k :: 0 <= k < |trace| ==> Get(trace[k].docs[did], p) == Get(trace[0].docs[did], p))
       <==> CreatesKeep(cat, commands, ids, did, p, Get(trace[0].docs[did], p))
    decreases |commands|
  {
    hide GoodCatalog, Effect, WithKey;
    if commands != [] {
      var n, v := |commands| - 1, Get(trace[0].docs[did], p);
      FollowsLess(cat, trace, commands, ids, ctxs);
      ImmutableOverRuns(cat, trace[..n + 1], commands[..n], ids[..n], ctxs[..n], did, p);
      assert forall k :: 0 <= k <= n ==> trace[..n + 1][k] == trace[k];
      EffectAt(cat, trace, commands, ids, ctxs, n);
      if Creates(commands[n], ids[n], did) {
        CreatedIs(cat, trace[n], trace[n + 1], commands[n], ids[n], ctxs[n]);
      } else if Get(trace[n].docs[did], p) == v {
        ImmutableStep(cat, trace[n], trace[n + 1], commands[n], ids[n], ctxs[n], did, p);
      }
      KeepsLess(cat, commands, ids, did, p, v);
    }
  }

  lemma CreatedIs(cat: Catalog, s: State, s': State, cmd: Command, id: Bytes, ctx: Context)
    requires GoodCatalog(cat) && Effect(cat, s, s', cmd, id, ctx) && cmd.CreateDoc?
    ensures cmd.coll in cat && s'.docs == s.docs[DocId(cmd.coll, id) := WithKey(cat[cmd.coll], cmd.doc, id)]
  {
  }

  lemma KeepsLess(cat: Catalog, commands: seq<Command>, ids: seq<Bytes>, did: DocId, p: Path, v: Json)
    requires |ids| == |commands| && did.coll in cat && commands != []
    ensures var n := |commands| - 1;
      CreatesKeep(cat, commands, ids, did, p, v) <==>
        (CreatesKeep(cat, commands[..n], ids[..n], did, p, v)
         && (Creates(commands[n], ids[n], did) ==> Get(WithKey(cat[did.coll], commands[n].doc, ids[n]), p) == v))
  {
    hide WithKey;
    var n := |commands| - 1;
    if CreatesKeep(cat, commands, ids, did, p, v) {
      forall k | 0 <= k < n && Creates(commands[..n][k], ids[..n][k], did)
        ensures Get(WithKey(cat[did.coll], commands[..n][k].doc, ids[..n][k]), p) == v
      {
        assert Creates(commands[k], ids[k], did);
      }
    }
    if CreatesKeep(cat, commands[..n], ids[..n], did, p, v)
       && (Creates(commands[n], ids[n], did) ==> Get(WithKey(cat[did.coll], commands[n].doc, ids[n]), p) == v) {
      forall k | 0 <= k < |commands| && Creates(commands[k], ids[k], did)
        ensures Get(WithKey(cat[did.coll], commands[k].doc, ids[k]), p) == v
      {
        if k < n { assert Creates(commands[..n][k], ids[..n][k], did); }
      }
    }
  }

  // ----- immutable collections -----

  /** A deletion leaves what the schema does not permit to delete. */
  lemma DeletionSpares(cat: Catalog, s: State, s': State, cmd: Command, id: Bytes, ctx: Context, did: DocId)
    requires GoodCatalog(cat) && Effect(cat, s, s', cmd, id, ctx) && cmd.DeleteDoc? && !Deletable(cat, did)
    ensures VersionOf(s'.docs, did) == VersionOf(s.docs, did)
  {
    hide GoodCatalog, Doomed, LogsDeletes;
  }

  /** No command but a create touches a document of an immutable collection. */
  lemma FrozenStep(cat: Catalog, s: State, s': State, cmd: Command, id: Bytes, ctx: Context, did: DocId)
    requires GoodCatalog(cat) && Effect(cat, s, s', cmd, id, ctx) && !Creates(cmd, id, did)
    requires did in s.docs && did.coll in cat && cat[did.coll].immutable
    ensures did in s'.docs && s'.docs[did] == s.docs[did]
  {
    hide GoodCatalog, Doomed, Pinned, Prepared, Written, LogsWithin, LogsDeletes;
    if cmd.DeleteDoc? { DeletionSpares(cat, s, s', cmd, id, ctx, did); }
  }

  /** A document of an immutable collection stays what it is throughout a run if and only if every create
      that hits it writes the same document; set, update and deletion cannot get at it, not even a
      deletion that cascades. */
  lemma {:induction false} FrozenOverRuns(cat: Catalog, trace: seq<State>, commands: seq<Command>, ids: seq<Bytes>,
        ctxs: seq<Context>, did: DocId)
    requires GoodCatalog(cat) && Follows(cat, trace, commands, ids, ctxs)
    requires did in trace[0].docs && did.coll in cat && cat[did.coll].immutable
    ensures forall k :: 0 <= k < |trace| ==> did in trace[k].docs
    ensures (forall k :: 0 <= k < |trace| ==> trace[k].docs[did] == trace[0].docs[did])
       <==> CreatesKeep(cat, commands, ids, did, [], trace[0].docs[did])
    decreases |commands|
  {
    hide GoodCatalog, Effect, WithKey;
    if commands != [] {
      var n, v := |commands| - 1, trace[0].docs[did];
      FollowsLess(cat, trace, commands, ids, ctxs);
      FrozenOverRuns(cat, trace[..n + 1], commands[..n], ids[..n], ctxs[..n], did);
      assert forall k :: 0 <= k <= n ==> trace[..n + 1][k] == trace[k];
      EffectAt(cat, trace, commands, ids, ctxs, n);
      if Creates(commands[n], ids[n], did) {
        CreatedIs(cat, trace[n], trace[n + 1], commands[n], ids[n], ctxs[n]);
      } else {
        FrozenStep(cat, trace[n], trace[n + 1], commands[n], ids[n], ctxs[n], did);
      }
      KeepsLess(cat, commands, ids, did, [], v);
    }
  }

  // ----- what the schema of a collection promises -----

  /** Every stored document is one its collection accepts. */
  ghost predicate AllAccepted(cat: Catalog, db: Docs) {
    forall did :: did in db && did.coll in cat ==> cat[did.coll].accepts(db[did])
  }

  lemma AcceptedStep(cat: Catalog, s: State, s': State, cmd: Command, id: Bytes, ctx: Context)
    requires GoodCatalog(cat) && Effect(cat, s, s', cmd, id, ctx) && AllAccepted(cat, s.docs)
    ensures AllAccepted(cat, s'.docs)
  {
    hide GoodCatalog, Doomed, Pinned, Prepared, Written, LogsWithin, LogsDeletes, Permitted, WithKey;
  }

  /** No run stores a document that the JSON schema of its collection does not accept. */
  lemma {:induction false} AcceptedOverRuns(cat: Catalog, trace: seq<State>, commands: seq<Command>, ids: seq<Bytes>,
        ctxs: seq<Context>)
    requires GoodCatalog(cat) && Follows(cat, trace, commands, ids, ctxs) && AllAccepted(cat, trace[0].docs)
    ensures forall k :: 0 <= k < |trace| ==> AllAccepted(cat, trace[k].docs)
    decreases |commands|
  {
    hide GoodCatalog, Effect, AllAccepted;
    if commands != [] {
      var n := |commands| - 1;
      FollowsLess(cat, trace, commands, ids, ctxs);
      AcceptedOverRuns(cat, trace[..n + 1], commands[..n], ids[..n], ctxs[..n]);
      assert forall k :: 0 <= k <= n ==> trace[..n + 1][k] == trace[k];
      EffectAt(cat, trace, commands, ids, ctxs, n);
      AcceptedStep(cat, trace[n], trace[n + 1], commands[n], ids[n], ctxs[n]);
    }
  }

  lemma PreventedStep(cat: Catalog, s: State, s': State, cmd: Command, id: Bytes, ctx: Context, did: DocId)
    requires GoodCatalog(cat) && Effect(cat, s, s', cmd, id, ctx)
    requires did in s.docs && did.coll in cat && cat[did.coll].preventDeletes
    ensures did in s'.docs
  {
    hide GoodCatalog, Doomed, Pinned, Prepared, Written, LogsWithin, LogsDeletes;
    if cmd.DeleteDoc? { DeletionSpares(cat, s, s', cmd, id, ctx, did); }
  }

  /** A document of a collection that prevents deletes stays in the store throughout any run, whatever is
      deleted that it refers to. */
  lemma {:induction false} PreventedOverRuns(cat: Catalog, trace: seq<State>, commands: seq<Command>, ids: seq<Bytes>,
        ctxs: seq<Context>, did: DocId)
    requires GoodCatalog(cat) && Follows(cat, trace, commands, ids, ctxs)
    requires did in trace[0].docs && did.coll in cat && cat[did.coll].preventDeletes
    ensures forall k :: 0 <= k < |trace| ==> did in trace[k].docs
    decreases |commands|
  {
    hide GoodCatalog, Effect;
    if commands != [] {
      var n := |commands| - 1;
      FollowsLess(cat, trace, commands, ids, ctxs);
      PreventedOverRuns(cat, trace[..n + 1], commands[..n], ids[..n], ctxs[..n], did);
      assert forall k :: 0 <= k <= n ==> trace[..n + 1][k] == trace[k];
      EffectAt(cat, trace, commands, ids, ctxs, n);
      PreventedStep(cat, trace[n], trace[n + 1], commands[n], ids[n], ctxs[n], did);
    }
  }

  lemma ReadOnlyStep(cat: Catalog, s: State, s': State, cmd: Command, id: Bytes, ctx: Context, did: DocId)
    requires GoodCatalog(cat) && Effect(cat, s, s', cmd, id, ctx) && did.coll in cat && cat[did.coll].readOnly
    ensures VersionOf(s'.docs, did) == VersionOf(s.docs, did)
  {
    hide GoodCatalog, Doomed, Pinned, Prepared, Written, LogsWithin, LogsDeletes;
    if cmd.DeleteDoc? { DeletionSpares(cat, s, s', cmd, id, ctx, did); }
  }

  /** No run creates, changes or removes a document of a read-only collection. */
  lemma {:induction false} ReadOnlyOverRuns(cat: Catalog, trace: seq<State>, commands: seq<Command>, ids: seq<Bytes>,
        ctxs: seq<Context>, did: DocId)
    requires GoodCatalog(cat) && Follows(cat, trace, commands, ids, ctxs)
    requires did.coll in cat && cat[did.coll].readOnly
    ensures forall k :: 0 <= k < |trace| ==> VersionOf(trace[k].docs, did) == VersionOf(trace[0].docs, did)
    decreases |commands|
  {
    hide GoodCatalog, Effect, VersionOf;
    if commands != [] {
      var n := |commands| - 1;
      FollowsLess(cat, trace, commands, ids, ctxs);
      ReadOnlyOverRuns(cat, trace[..n + 1], commands[..n], ids[..n], ctxs[..n], did);
      assert forall k :: 0 <= k <= n ==> trace[..n + 1][k] == trace[k];
      EffectAt(cat, trace, commands, ids, ctxs, n);
      ReadOnlyStep(cat, trace[n], trace[n + 1], commands[n], ids[n], ctxs[n], did);
    }
  }
}
