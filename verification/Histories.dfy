/** The records that commands write form histories that time travel can invert. */
module Histories {
  import opened ByteStrings
  import opened Json
  import opened Schemas
  import opened Store
  import opened Documents
  import opened ChangeLog
  import opened TimeTravel
  import opened Preparation
  import opened Soundness
  import opened Cascade
  import opened Updates
  import opened Runs

  // ----- what one command records -----

  /** The record is what a command with the document `cmd` leaves behind. */
  ghost predicate Recorded(pk: Path, did: DocId, before: Option<Json>, cmd: Json, after: Option<Json>, r: CDC) {
    && Subject(r) == did && Logged(before, r.action, cmd, after, r.diff) && Carries(cmd, pk, did.id)
    && (r.action.Delete? ==> LeafPaths(cmd) == {pk})
  }

  /** Of all records that have been appended, the i-th is the only one about the document. */
  ghost predicate OnlyNew(log0: seq<CDC>, log: seq<CDC>, did: DocId, i: nat) {
    && |log0| <= i < |log| && log[..|log0|] == log0 && Subject(log[i]) == did
    && (forall k :: |log0| <= k < |log| && Subject(log[k]) == did ==> k == i)
  }

  lemma OnlyId(c: Schema, id: Bytes)
    requires c.WellFormed()
    ensures WithKey(c, EMPTY_OBJECT, id).Obj? && Carries(WithKey(c, EMPTY_OBJECT, id), c.pk, id)
    ensures LeafPaths(WithKey(c, EMPTY_OBJECT, id)) == {c.pk}
  {
    var d := WithKey(c, EMPTY_OBJECT, id);
    LookupSetBelow(EMPTY_OBJECT, c.pk, Str(id), c.pk);
    forall p ensures p in LeafPaths(d) <==> p == c.pk {
      LeafPathsExact(d, p);
      if p != [] && p[0] == c.pk[0] {
        assert p == [p[0]] + p[1..] && c.pk == [p[0]];
      }
    }
  }

  lemma CommandCarriesId(c: Schema, patch: Json, id: Bytes, before: Json, command: Json)
    requires c.WellFormed() && Prepared(c, patch, id, before, command) && Carries(before, c.pk, id)
    ensures command.Obj? && Carries(command, c.pk, id)
  {
    LookupSetBelow(patch, c.pk, Str(id), c.pk);
    PinnedPrimaryKey(c, WithKey(c, patch, id), before, command, id);
  }

  lemma WriteIsRecorded(pk: Path, log0: seq<CDC>, log: seq<CDC>, action: Action, did: DocId, cmd: Json,
      before: Option<Json>,
        after: Option<Json>, ctx: Context)
    requires LogsWithin(log0, log, action, did, cmd, before, ctx)
    requires cmd.Obj? && Carries(cmd, pk, did.id) && (before.Some? ==> before.value.Obj?)
    requires match action
             case Create => after == Some(cmd)
             case Set => after == Some(cmd)
             case Update => before.Some? && after.Some? && Written(before.value, Flatten(cmd), after.value)
             case Delete => false
    ensures OnlyNew(log0, log, did, |log0|) && ctx.Covers(log[|log0|])
    ensures Recorded(pk, did, before, cmd, after, log[|log0|])
  {
    hide IsDiff, Written, Flatten, Lookup, LeafPaths;
  }

  lemma UpdateIsRecorded(cat: Catalog, s: State, s': State, did: DocId, patch: Json,
      ctx: Context) returns (command: Json)
    requires GoodCatalog(cat) && did.coll in cat && UpdateEffect(cat, s, s', did, patch, ctx)
    requires KeysCarried(cat, s.docs)
    ensures OnlyNew(s.log, s'.log, did, |s.log|) && ctx.Covers(s'.log[|s.log|])
    ensures Recorded(cat[did.coll].pk, did, VersionOf(s.docs, did), command, VersionOf(s'.docs, did), s'.log[|s.log|])
  {
    assert cat[did.coll].WellFormed();
    hide GoodCatalog, Prepared, Written, LogsWithin, Lookup, Flatten, Schema.WellFormed;
    command :| UpdatedWith(cat, s, s', did, patch, ctx, command);
    CommandCarriesId(cat[did.coll], patch, did.id, s.docs[did], command);
    WriteIsRecorded(cat[did.coll].pk, s.log, s'.log, Action.Update, did, command, Some(s.docs[did]),
        Some(s'.docs[did]), ctx);
  }

  lemma DeletionRecordOf(cat: Catalog, db: Docs, log0: seq<CDC>, log: seq<CDC>, gone: set<DocId>, did: DocId,
      ctx: Context)
      returns (i: nat)
    requires LogsDeletes(cat, db, log0, log, gone, ctx) && did in gone
    ensures OnlyNew(log0, log, did, i) && DeleteRecord(cat, db, log[i], ctx)
  {
    hide DeleteRecord;
    i :| |log0| <= i < |log| && Subject(log[i]) == did;
  }

  lemma DeletionIsRecorded(cat: Catalog, db: Docs, log0: seq<CDC>, log: seq<CDC>, gone: set<DocId>, did: DocId,
      ctx: Context)
      returns (i: nat)
    requires GoodCatalog(cat) && LogsDeletes(cat, db, log0, log, gone, ctx) && did in gone && did.coll in cat
    requires KeysCarried(cat, db)
    ensures OnlyNew(log0, log, did, i) && ctx.Covers(log[i])
    ensures Recorded(cat[did.coll].pk, did, VersionOf(db, did), WithKey(cat[did.coll], EMPTY_OBJECT, did.id), None,
        log[i])
  {
    assert cat[did.coll].WellFormed();
    hide GoodCatalog, IsDiff, WithKey, Schema.WellFormed, LeafPaths, LogsDeletes;
    i := DeletionRecordOf(cat, db, log0, log, gone, did, ctx);
    OnlyId(cat[did.coll], did.id);
  }

  /** A successful command leaves exactly one record about each document it touches. */
  lemma TouchedIsRecorded(cat: Catalog, s: State, s': State, cmd: Command, id: Bytes, ctx: Context, did: DocId)
      returns (command: Json, i: nat)
    requires GoodCatalog(cat) && Effect(cat, s, s', cmd, id, ctx) && did in Touched(cat, s.docs, cmd, id)
    requires KeysCarried(cat, s.docs) && KeysCarried(cat, s'.docs) && did.coll in cat
    ensures OnlyNew(s.log, s'.log, did, i) && ctx.Covers(s'.log[i])
    ensures Recorded(cat[did.coll].pk, did, VersionOf(s.docs, did), command, VersionOf(s'.docs, did), s'.log[i])
  {
    hide GoodCatalog, Doomed, Pinned, UpdatedWith, LogsWithin, LogsDeletes, WithKey, Permitted, Carries, Recorded,
      OnlyNew, KeyText;
    match cmd
    case CreateDoc(coll, doc) =>
      command, i := s'.docs[did], |s.log|;
      WriteIsRecorded(cat[coll].pk, s.log, s'.log, Action.Create, did, command, VersionOf(s.docs, did), Some(command),
          ctx);
    case SetDoc(coll, doc) =>
      command, i := s'.docs[did], |s.log|;
      WriteIsRecorded(cat[coll].pk, s.log, s'.log, Action.Set, did, command, VersionOf(s.docs, did), Some(command),
          ctx);
    case UpdateDoc(coll, key, patch) =>
      command := UpdateIsRecorded(cat, s, s', did, patch, ctx);
      i := |s.log|;
    case DeleteDoc(coll, key) =>
      i := DeletionIsRecorded(cat, s.docs, s.log, s'.log, Touched(cat, s.docs, cmd, id), did, ctx);
      command := WithKey(cat[did.coll], EMPTY_OBJECT, did.id);
  }

  // ----- histories -----

  /** The history of a document up to a state: its last version is the stored one, and the log collection,
      which held `prior` before the run, holds its records. */
  ghost predicate Chronicle(cat: Catalog, prior: seq<CDC>, s: State, did: DocId, paths: set<Path>, h: History)
    requires did.coll in cat
  {
    && WellLogged(h, cat[did.coll].pk, did.id, paths)
    && LogHolds(prior + s.log, h, did.coll, did.id)
    && h.versions[|h.log|] == VersionOf(s.docs, did)
  }

  ghost predicate AllBefore(h: History, moment: int) {
    forall i :: 0 <= i < |h.log| ==> h.log[i].timestamp < moment
  }

  /** A document without records starts with an empty history. */
  lemma EmptyChronicle(cat: Catalog, prior: seq<CDC>, s: State, did: DocId, paths: set<Path>)
    requires did.coll in cat && PrefixFree(paths) && did !in s.docs
    requires forall r :: r in prior + s.log ==> Subject(r) != did
    ensures Chronicle(cat, prior, s, did, paths, History([None], [], []))
  {
    hide PrefixFree;
    forall c: CDC | c.collection == did.coll && c.documentID == did.id ensures multiset(prior + s.log)[c] == 0 {
      assert Subject(c) == did;
    }
  }

  function Grown(h: History, cmd: Json, after: Option<Json>, r: CDC): History {
    History(h.versions + [after], h.cmds + [cmd], h.log + [r])
  }

  /** One version and its record have been added, at a time within the context. */
  ghost predicate GrownWithin(h: History, h': History, after: Option<Json>, ctx: Context) {
    exists cmd, r {:trigger Grown(h, cmd, after, r)} :: ctx.Covers(r) && h' == Grown(h, cmd, after, r)
  }

  /** A recorded command extends a well-logged history to a well-logged history, as long as the new
      version keeps to the common leaf paths. */
  lemma HistoryGrows(h: History, pk: Path, did: DocId, paths: set<Path>, cmd: Json, after: Option<Json>, r: CDC)
    requires WellLogged(h, pk, did.id, paths) && Recorded(pk, did, h.versions[|h.log|], cmd, after, r)
    requires after.Some? ==> FitsPaths(after.value, pk, did.id, paths)
    ensures WellLogged(Grown(h, cmd, after, r), pk, did.id, paths)
  {
    var g := Grown(h, cmd, after, r);
    hide PrefixFree, Logged, Carries, LeafPaths;
    forall i | 0 <= i < |g.log| ensures LoggedAt(g, pk, did.id, i) {
      if i < |h.log| {
        assert LoggedAt(h, pk, did.id, i);
        assert g.versions[i] == h.versions[i] && g.versions[i + 1] == h.versions[i + 1];
      }
    }
    forall i | 0 <= i < |g.versions| && g.versions[i].Some? ensures FitsPaths(g.versions[i].value, pk, did.id, paths) {
      if i < |h.versions| { assert g.versions[i] == h.versions[i]; }
    }
  }

  /** No record from `lo` up to `hi` is about the document. */
  ghost predicate NoneAbout(log: seq<CDC>, lo: nat, hi: nat, did: DocId)
    requires hi <= |log|
  {
    forall k :: lo <= k < hi ==> Subject(log[k]) != did
  }

  lemma NotCounted(log: seq<CDC>, lo: nat, hi: nat, c: CDC)
    requires lo <= hi <= |log| && NoneAbout(log, lo, hi, Subject(c))
    ensures multiset(log[lo..hi])[c] == 0
  {
    assert forall k :: 0 <= k < hi - lo ==> log[lo..hi][k] == log[lo + k];
  }

  lemma NothingNewHeld(prior: seq<CDC>, log0: seq<CDC>, log: seq<CDC>, did: DocId, h: History)
    requires LogHolds(prior + log0, h, did.coll, did.id) && |log0| <= |log| && log[..|log0|] == log0
    requires NoneAbout(log, |log0|, |log|, did)
    ensures LogHolds(prior + log, h, did.coll, did.id)
  {
    hide NoneAbout;
    assert prior + log == prior + log0 + log[|log0|..|log|];
    forall c: CDC | c.collection == did.coll && c.documentID == did.id
      ensures multiset(prior + log)[c] == multiset(h.log)[c]
    {
      NotCounted(log, |log0|, |log|, c);
    }
  }

  lemma CountInParts(x: seq<CDC>, a: seq<CDC>, r: CDC, b: seq<CDC>, c: CDC)
    ensures multiset(x + a + [r] + b)[c] == multiset(x)[c] + multiset(a)[c] + multiset([r])[c] + multiset(b)[c]
  {
  }

  /** Among the records about the document only the new one has been added. */
  lemma OnlyNewCounted(prior: seq<CDC>, log0: seq<CDC>, log: seq<CDC>, did: DocId, i: nat, c: CDC)
    requires OnlyNew(log0, log, did, i) && Subject(c) == did
    ensures multiset(prior + log)[c] == multiset(prior + log0)[c] + multiset([log[i]])[c]
  {
    assert NoneAbout(log, |log0|, i, did) && NoneAbout(log, i + 1, |log|, did);
    NotCounted(log, |log0|, i, c);
    NotCounted(log, i + 1, |log|, c);
    assert prior + log == prior + log0 + log[|log0|..i] + [log[i]] + log[i + 1..|log|];
    CountInParts(prior + log0, log[|log0|..i], log[i], log[i + 1..|log|], c);
  }

  lemma NewRecordHeld(prior: seq<CDC>, log0: seq<CDC>, log: seq<CDC>, did: DocId, i: nat, h: History, cmd: Json,
        after: Option<Json>)
    requires LogHolds(prior + log0, h, did.coll, did.id) && OnlyNew(log0, log, did, i)
    requires AllBefore(h, log[i].timestamp)
    ensures LogHolds(prior + log, Grown(h, cmd, after, log[i]), did.coll, did.id)
  {
    var g := Grown(h, cmd, after, log[i]);
    forall c: CDC | c.collection == did.coll && c.documentID == did.id
      ensures multiset(prior + log)[c] == multiset(g.log)[c]
    {
      OnlyNewCounted(prior, log0, log, did, i, c);
    }
  }

  /** The history after a command: one record more if the document was touched, and the same otherwise. */
  lemma ChronicleStep(cat: Catalog, prior: seq<CDC>, s: State, s': State, cmd: Command, id: Bytes, ctx: Context,
        did: DocId, paths: set<Path>, h: History) returns (h': History)
    requires GoodCatalog(cat) && Effect(cat, s, s', cmd, id, ctx) && did.coll in cat
    requires KeysCarried(cat, s.docs) && KeysCarried(cat, s'.docs)
    requires did in s'.docs ==> LeafPaths(s'.docs[did]) <= paths
    requires Chronicle(cat, prior, s, did, paths, h) && AllBefore(h, ctx.from)
    ensures Chronicle(cat, prior, s', did, paths, h')
    ensures |h'.versions| == |h'.log| + 1
    ensures did !in Touched(cat, s.docs, cmd, id) ==> h' == h && VersionOf(s'.docs, did) == VersionOf(s.docs, did)
    ensures did in Touched(cat, s.docs, cmd, id) ==> GrownWithin(h, h', VersionOf(s'.docs, did), ctx)
  {
    hide GoodCatalog, Effect, Touched, Recorded, OnlyNew, LogHolds, LoggedAt, PrefixFree, Carries, LeafPaths;
    if did in Touched(cat, s.docs, cmd, id) {
      var command, i := TouchedIsRecorded(cat, s, s', cmd, id, ctx, did);
      NewBounds(s.log, s'.log, did, i);
      h' := Grown(h, command, VersionOf(s'.docs, did), s'.log[i]);
      HistoryGrows(h, cat[did.coll].pk, did, paths, command, VersionOf(s'.docs, did), s'.log[i]);
      NewRecordHeld(prior, s.log, s'.log, did, i, h, command, VersionOf(s'.docs, did));
    } else {
      UntouchedStays(cat, s, s', cmd, id, ctx, did);
      h' := h;
      NothingNewHeld(prior, s.log, s'.log, did, h);
    }
  }

  lemma NewBounds(log0: seq<CDC>, log: seq<CDC>, did: DocId, i: nat)
    requires OnlyNew(log0, log, did, i)
    ensures i < |log|
  {
  }

  // ----- the history of a run -----

  /** The commands run one after the other. */
  ghost predicate InOrder(ctxs: seq<Context>) {
    && (forall k :: 0 <= k < |ctxs| ==> ctxs[k].Open())
    && (forall j, k :: 0 <= j < k < |ctxs| ==> ctxs[j].until <= ctxs[k].from)
  }

  /** Version `at[k]` of the history is the document in state k, the record after it is the first one not
      older than command k, and exactly the commands that touch the document lead to another version. */
  ghost predicate Positions(cat: Catalog, trace: seq<State>, commands: seq<Command>, ids: seq<Bytes>,
      ctxs: seq<Context>,
      did: DocId, h: History, at: seq<nat>)
    requires GoodCatalog(cat) && |trace| == |commands| + 1 && |ids| == |commands| == |ctxs|
  {
    && |h.versions| == |h.log| + 1 && |at| == |trace| && at[|commands|] == |h.log|
    && (forall k :: 0 <= k < |trace| ==> at[k] <= |h.log| && h.versions[at[k]] == VersionOf(trace[k].docs, did))
    && (forall k :: 0 <= k < |commands| ==> SplitsAt(h, at[k], ctxs[k].from))
    && (forall k :: 0 <= k < |commands| ==>
          at[k + 1] == at[k] + if did in Touched(cat, trace[k].docs, commands[k], ids[k]) then 1 else 0)
  }

  lemma PositionsGrow(cat: Catalog, trace: seq<State>, commands: seq<Command>, ids: seq<Bytes>, ctxs: seq<Context>,
        did: DocId, h: History, h': History, at: seq<nat>)
    requires GoodCatalog(cat) && |trace| == |commands| + 1 && |ids| == |commands| == |ctxs| && commands != []
    requires InOrder(ctxs)
    requires var n := |commands| - 1; Positions(cat, trace[..n + 1], commands[..n], ids[..n], ctxs[..n], did, h, at)
    requires var n := |commands| - 1;
      && AllBefore(h, ctxs[n].from) && |h'.versions| == |h'.log| + 1
      && if did in Touched(cat, trace[n].docs, commands[n], ids[n])
          then GrownWithin(h, h', VersionOf(trace[n + 1].docs, did), ctxs[n])
         else h' == h && VersionOf(trace[n + 1].docs, did) == VersionOf(trace[n].docs, did)
    ensures Positions(cat, trace, commands, ids, ctxs, did, h', at + [|h'.log|])
    ensures AllBefore(h', ctxs[|commands| - 1].until)
  {
    hide GoodCatalog, Touched;
    var n, at' := |commands| - 1, at + [|h'.log|];
    forall k | 0 <= k <= n ensures SplitsAt(h', at'[k], ctxs[k].from) {
      if k < n { assert SplitsAt(h, at[k], ctxs[..n][k].from); }
    }
    forall k | 0 <= k < |trace|
      ensures at'[k] <= |h'.log| && h'.versions[at'[k]] == VersionOf(trace[k].docs, did)
    {
      if k <= n { assert trace[..n + 1][k] == trace[k]; }
    }
    forall k | 0 <= k < |commands|
      ensures at'[k + 1] == at'[k] + if did in Touched(cat, trace[k].docs, commands[k], ids[k]) then 1 else 0
    {
      if k < n {
        assert trace[..n + 1][k] == trace[k] && commands[..n][k] == commands[k] && ids[..n][k] == ids[k];
      }
    }
  }

  ghost predicate KeepsPaths(trace: seq<State>, did: DocId, paths: set<Path>) {
    forall s: State :: s in trace && did in s.docs ==> LeafPaths(s.docs[did]) <= paths
  }

  /** What has to hold of a run for one document's history: the keys are carried, the versions share one
      prefix-free set of leaf paths, and the commands run one after the other. */
  ghost predicate Recordable(cat: Catalog, trace: seq<State>, commands: seq<Command>, ids: seq<Bytes>,
      ctxs: seq<Context>,
      did: DocId, paths: set<Path>)
    requires GoodCatalog(cat)
  {
    && did.coll in cat && Follows(cat, trace, commands, ids, ctxs) && InOrder(ctxs)
    && (forall s :: s in trace ==> KeysCarried(cat, s.docs))
    && KeepsPaths(trace, did, paths)
  }

  lemma RecordableLess(cat: Catalog, trace: seq<State>, commands: seq<Command>, ids: seq<Bytes>, ctxs: seq<Context>,
        did: DocId, paths: set<Path>)
    requires GoodCatalog(cat) && Recordable(cat, trace, commands, ids, ctxs, did, paths) && commands != []
    ensures var n := |commands| - 1; Recordable(cat, trace[..n + 1], commands[..n], ids[..n], ctxs[..n], did, paths)
  {
    hide GoodCatalog, Effect, KeysCarried, LeafPaths;
    FollowsLess(cat, trace, commands, ids, ctxs);
  }

  lemma BeforeLater(h: History, moment: int, later: int)
    requires AllBefore(h, moment) && moment <= later
    ensures AllBefore(h, later)
  {
  }

  lemma PositionsBegin(cat: Catalog, trace: seq<State>, did: DocId, paths: set<Path>, prior: seq<CDC>, h: History)
    requires GoodCatalog(cat) && did.coll in cat && |trace| == 1 && Chronicle(cat, prior, trace[0], did, paths, h)
    ensures Positions(cat, trace, [], [], [], did, h, [|h.log|])
  {
    hide GoodCatalog;
  }

  /** A run turns the history of any document into a longer one: its last version is the document the run
      leaves, its records are the ones in the log, and the versions at the commands are those of the trace. */
  lemma {:induction false} RunWritesHistory(cat: Catalog, trace: seq<State>, commands: seq<Command>, ids: seq<Bytes>,
        ctxs: seq<Context>, did: DocId, paths: set<Path>, prior: seq<CDC>, h0: History) returns (h: History,
        at: seq<nat>)
    requires GoodCatalog(cat) && Recordable(cat, trace, commands, ids, ctxs, did, paths)
    requires Chronicle(cat, prior, trace[0], did, paths, h0) && (commands != [] ==> AllBefore(h0, ctxs[0].from))
    ensures Chronicle(cat, prior, trace[|commands|], did, paths, h)
    ensures Positions(cat, trace, commands, ids, ctxs, did, h, at)
    ensures if commands == [] then h == h0 else AllBefore(h, ctxs[|commands| - 1].until)
    decreases |commands|
  {
    hide GoodCatalog, Effect, Touched, Chronicle, KeysCarried, LeafPaths, AllBefore, Positions, GrownWithin, VersionOf;
    if commands == [] {
      h, at := h0, [|h0.log|];
      PositionsBegin(cat, trace, did, paths, prior, h);
    } else {
      var n := |commands| - 1;
      RecordableLess(cat, trace, commands, ids, ctxs, did, paths);
      var h1, at1 := RunWritesHistory(cat, trace[..n + 1], commands[..n], ids[..n], ctxs[..n], did, paths, prior, h0);
      BeforeLater(h1, if n == 0 then ctxs[0].from else ctxs[n - 1].until, ctxs[n].from);
      EffectAt(cat, trace, commands, ids, ctxs, n);
      h := ChronicleStep(cat, prior, trace[n], trace[n + 1], commands[n], ids[n], ctxs[n], did, paths, h1);
      at := at1 + [|h.log|];
      PositionsGrow(cat, trace, commands, ids, ctxs, did, h1, h, at1);
    }
  }

  // ----- time travel over a run -----

  /** No path holds a value in some state from the j-th on that holds none in the j-th. */
  ghost predicate NothingAddedInRun(trace: seq<State>, did: DocId, j: nat)
    requires j < |trace|
  {
    forall k, p :: j <= k < |trace| && ValueIn(VersionOf(trace[k].docs, did), p).Some?
      ==> ValueIn(VersionOf(trace[j].docs, did), p).Some?
  }

  /** None of the commands from the j-th on touched the document. */
  ghost predicate UntouchedSince(cat: Catalog, trace: seq<State>, commands: seq<Command>, ids: seq<Bytes>, did: DocId,
      j: nat)
    requires GoodCatalog(cat) && |trace| == |commands| + 1 && |ids| == |commands|
  {
    forall k :: j <= k < |commands| ==> did !in Touched(cat, trace[k].docs, commands[k], ids[k])
  }

  /** Positions only grow, and they grow from j on exactly if the document is touched from j on. */
  lemma {:induction false} PositionsClimb(cat: Catalog, trace: seq<State>, commands: seq<Command>, ids: seq<Bytes>,
        ctxs: seq<Context>, did: DocId, h: History, at: seq<nat>, j: nat)
    requires GoodCatalog(cat) && |trace| == |commands| + 1 && |ids| == |commands| == |ctxs|
    requires Positions(cat, trace, commands, ids, ctxs, did, h, at) && j <= |commands|
    ensures forall k :: j <= k <= |commands| ==> at[j] <= at[k]
    ensures at[j] == |h.log| <==> UntouchedSince(cat, trace, commands, ids, did, j)
    decreases |commands| - j
  {
    hide GoodCatalog, Touched;
    if j < |commands| { PositionsClimb(cat, trace, commands, ids, ctxs, did, h, at, j + 1); }
  }

  /** Every later version of the history is the document in some later state. */
  lemma {:induction false} VersionInTrace(cat: Catalog, trace: seq<State>, commands: seq<Command>, ids: seq<Bytes>,
        ctxs: seq<Context>, did: DocId, h: History, at: seq<nat>, j: nat, i: nat) returns (k: nat)
    requires GoodCatalog(cat) && |trace| == |commands| + 1 && |ids| == |commands| == |ctxs|
    requires Positions(cat, trace, commands, ids, ctxs, did, h, at) && j <= |commands| && at[j] <= i <= |h.log|
    ensures j <= k <= |commands| && at[k] == i
    decreases |commands| - j
  {
    hide GoodCatalog, Touched;
    if at[j] == i { k := j; } else { k := VersionInTrace(cat, trace, commands, ids, ctxs, did, h, at, j + 1, i); }
  }

  lemma AddedInRun(cat: Catalog, trace: seq<State>, commands: seq<Command>, ids: seq<Bytes>, ctxs: seq<Context>,
        did: DocId, h: History, at: seq<nat>, j: nat)
    requires GoodCatalog(cat) && |trace| == |commands| + 1 && |ids| == |commands| == |ctxs|
    requires Positions(cat, trace, commands, ids, ctxs, did, h, at) && j <= |commands|
    ensures NothingAddedSince(h, at[j]) <==> NothingAddedInRun(trace, did, j)
  {
    PositionsClimb(cat, trace, commands, ids, ctxs, did, h, at, j);
    hide GoodCatalog, Touched, ValueIn, VersionOf;
    if NothingAddedInRun(trace, did, j) {
      forall i, p | at[j] <= i < |h.versions| && ValueIn(h.versions[i], p).Some?
        ensures ValueIn(h.versions[at[j]], p).Some?
      {
        var k := VersionInTrace(cat, trace, commands, ids, ctxs, did, h, at, j, i);
        assert ValueIn(VersionOf(trace[k].docs, did), p).Some?;
      }
    }
    if NothingAddedSince(h, at[j]) {
      forall k, p | j <= k < |trace| && ValueIn(VersionOf(trace[k].docs, did), p).Some?
        ensures ValueIn(VersionOf(trace[j].docs, did), p).Some?
      {
        assert ValueIn(h.versions[at[k]], p).Some?;
      }
    }
  }

  /** The answer of time travel to the moment command j began: nothing if the document has not been touched
      since, and otherwise a document with every value that there was then, and with these values only if
      and only if no path has gained a value since. */
  ghost predicate Returns(cat: Catalog, trace: seq<State>, commands: seq<Command>, ids: seq<Bytes>, did: DocId, j: nat,
      r: Outcome)
    requires GoodCatalog(cat) && |trace| == |commands| + 1 && |ids| == |commands| && j < |trace|
  {
    var then' := VersionOf(trace[j].docs, did);
    if UntouchedSince(cat, trace, commands, ids, did, j) then r == NotFound
    else
      && r.Found? && Restores(r.document, then')
      && ((forall p :: ValueAt(r.document, p) == ValueIn(then', p)) <==> NothingAddedInRun(trace, did, j))
  }

  /** Time travel inverts runs. Take any run whose commands read the clock one after the other, and a
      document that exists at its end. Traveling to the moment command j began undoes the run from command
      j on, as far as undoing goes. */
  lemma TimeTravelInvertsRuns(cat: Catalog, trace: seq<State>, commands: seq<Command>, ids: seq<Bytes>,
        ctxs: seq<Context>, did: DocId, paths: set<Path>, prior: seq<CDC>, h0: History, j: nat, chosen: seq<CDC>)
    requires GoodCatalog(cat) && Recordable(cat, trace, commands, ids, ctxs, did, paths)
    requires j < |commands| && did in trace[|commands|].docs
    requires Chronicle(cat, prior, trace[0], did, paths, h0) && AllBefore(h0, ctxs[0].from)
    requires Chosen(prior + trace[|commands|].log, did.coll, did.id, ctxs[j].from, chosen)
    ensures Returns(cat, trace, commands, ids, did, j, Traveled(VersionOf(trace[|commands|].docs, did), chosen))
  {
    hide GoodCatalog, Effect, Touched, KeysCarried, LeafPaths, AllBefore, WellLogged, LogHolds, SplitsAt, Restores,
      RevertAll, NothingAddedSince, NothingAddedInRun, UntouchedSince, ValueAt, ValueIn, InOrder, Chosen, Traveled;
    var h, at := RunWritesHistory(cat, trace, commands, ids, ctxs, did, paths, prior, h0);
    PositionsClimb(cat, trace, commands, ids, ctxs, did, h, at, j);
    AddedInRun(cat, trace, commands, ids, ctxs, did, h, at, j);
    TimeTravelInvertsHistory(prior + trace[|commands|].log, h, cat[did.coll].pk, did.id, paths, did.coll, ctxs[j].from,
        at[j], chosen);
  }
}
