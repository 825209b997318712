/** Planning a configuration as differences between schema documents, and applying the plan. */
module ConfigPlan {
  import opened ByteStrings
  import opened Json
  import opened Documents
  import opened DiffRoundTrip
  import opened Schemas

  datatype SchemaDoc = SchemaDoc(collection: Bytes, doc: Json)

  /** Schema documents by collection. */
  type Config = map<Bytes, Json>

  datatype CollectionPlan = CollectionPlan(collection: Bytes, diff: seq<JSONFieldOp>)

  datatype ConfigurationPlan = ConfigurationPlan(
    toDelete: seq<CollectionPlan>,
    toCreate: seq<CollectionPlan>,
    toReplace: seq<CollectionPlan>)

  const EMPTY_PLAN := ConfigurationPlan([], [], [])

  ghost predicate AllObjects(c: Config) {
    forall n :: n in c ==> c[n].Obj?
  }

  /** The last schema of a name wins. */
  function ToConfig(schemas: seq<SchemaDoc>): (c: Config)
    ensures forall n :: n in c ==> SchemaDoc(n, c[n]) in schemas
  {
    if schemas == [] then map[]
    else
      var n := |schemas| - 1;
      var c := ToConfig(schemas[..n]);
      assert schemas == schemas[..n] + [schemas[n]];
      c[schemas[n].collection := schemas[n].doc]
  }

  /** The schema is in the list, and no later one has its name. */
  predicate Latest(schemas: seq<SchemaDoc>, k: int) {
    0 <= k < |schemas| && forall m :: k < m < |schemas| ==> schemas[m].collection != schemas[k].collection
  }

  /** Every name has the document of its own last schema. */
  lemma {:induction false} ConfigOfLatest(schemas: seq<SchemaDoc>, k: nat)
    requires Latest(schemas, k)
    ensures schemas[k].collection in ToConfig(schemas) && ToConfig(schemas)[schemas[k].collection] == schemas[k].doc
  {
    var n := |schemas| - 1;
    var init, last := schemas[..n], schemas[n];
    assert ToConfig(schemas) == ToConfig(init)[last.collection := last.doc];
    if k < n {
      hide ToConfig;
      assert init[k] == schemas[k] && last.collection != schemas[k].collection;
      assert forall m :: k < m < n ==> init[m] == schemas[m];
      ConfigOfLatest(init, k);
    }
  }

  function Collections(schemas: seq<SchemaDoc>): set<Bytes> {
    set s | s in schemas :: s.collection
  }

  lemma {:induction false} ConfigOfAll(schemas: seq<SchemaDoc>)
    ensures ToConfig(schemas).Keys == Collections(schemas)
  {
    if schemas != [] {
      var init, last := schemas[..|schemas| - 1], schemas[|schemas| - 1];
      ConfigOfAll(init);
      assert forall s :: s in schemas <==> s in init || s == last;
    }
  }

  /** Every schema of the list is configured as it is, unless a later one has its name. */
  ghost predicate AsListed(schemas: seq<SchemaDoc>, c: Config) {
    && c.Keys == Collections(schemas)
    && (forall k :: Latest(schemas, k) ==> schemas[k].collection in c && c[schemas[k].collection] == schemas[k].doc)
  }

  lemma ConfigIsAsListed(schemas: seq<SchemaDoc>)
    ensures AsListed(schemas, ToConfig(schemas))
  {
    hide ToConfig;
    ConfigOfAll(schemas);
    forall k | Latest(schemas, k)
      ensures schemas[k].collection in ToConfig(schemas)
      ensures ToConfig(schemas)[schemas[k].collection] == schemas[k].doc
    {
      ConfigOfLatest(schemas, k);
    }
  }

  function Names(plans: seq<CollectionPlan>): set<Bytes> {
    set p | p in plans :: p.collection
  }

  ghost predicate DistinctNames(plans: seq<CollectionPlan>) {
    forall i, k :: 0 <= i < k < |plans| ==> plans[i].collection != plans[k].collection
  }

  /** The plans are for exactly these collections, one each, with the difference between these documents. */
  ghost predicate PlansFor(plans: seq<CollectionPlan>, names: set<Bytes>, after: Config, before: Config) {
    && Names(plans) == names
    && DistinctNames(plans)
    && (forall p :: p in plans ==> IsDiff(DocOf(after, p.collection), DocOf(before, p.collection), p.diff))
  }

  function DocOf(c: Config, n: Bytes): Json {
    if n in c then c[n] else EMPTY_OBJECT
  }

  function Edited(existing: Config, new': Config): set<Bytes> {
    set n | n in existing && n in new' && existing[n] != new'[n]
  }

  /** What calcConfigPlan answers: with equal sets of names there is nothing to do, even if the schemas
      of the same name differ. */
  ghost predicate PlanFor(existing: Config, new': Config, plan: ConfigurationPlan) {
    if existing.Keys == new'.Keys then plan == EMPTY_PLAN
    else
      && PlansFor(plan.toDelete, existing.Keys - new'.Keys - {CDC_COLLECTION}, map[], existing)
      && PlansFor(plan.toCreate, new'.Keys - existing.Keys, new', map[])
      && PlansFor(plan.toReplace, Edited(existing, new'), new', existing)
  }

  method Collect(schemas: seq<SchemaDoc>) returns (c: Config)
    ensures c == ToConfig(schemas)
  {
    c := map[];
    for k := 0 to |schemas|
      invariant c == ToConfig(schemas[..k])
    {
      assert schemas[..k + 1][..k] == schemas[..k];
      c := c[schemas[k].collection := schemas[k].doc];
    }
    assert schemas[..|schemas|] == schemas;
  }

  /** One kind of plan, for the names in any order. */
  method PlanEach(names: set<Bytes>, after: Config, before: Config) returns (plans: seq<CollectionPlan>)
    requires AllObjects(after) && AllObjects(before)
    ensures PlansFor(plans, names, after, before)
  {
    hide IsDiff;
    plans := [];
    var todo := names;
    while todo != {}
      invariant todo <= names
      invariant PlansFor(plans, names - todo, after, before)
      decreases todo
    {
      var name :| name in todo;
      var doc := new Document(DocOf(after, name));
      var diff := doc.Diff(Some(DocOf(before, name)));
      ghost var was := plans;
      plans := plans + [CollectionPlan(name, diff)];
      todo := todo - {name};
      assert forall p :: p in plans <==> p in was || p == CollectionPlan(name, diff);
      assert plans[|was|].collection == name;
      assert Names(plans) == names - todo by {
        assert forall n :: n in Names(plans) <==> n in Names(was) || n == name;
      }
      forall i, k | 0 <= i < k < |plans| ensures plans[i].collection != plans[k].collection {
        if k == |was| { assert plans[i] in was && plans[i].collection in Names(was); }
      }
    }
  }

  method CalcConfigPlan(existingSchema: seq<SchemaDoc>, newSchema: seq<SchemaDoc>) returns (plan: ConfigurationPlan)
    requires forall s :: s in existingSchema || s in newSchema ==> s.doc.Obj?
    ensures PlanFor(ToConfig(existingSchema), ToConfig(newSchema), plan)
  {
    hide PlansFor;
    var existing := Collect(existingSchema);
    var new' := Collect(newSchema);
    if existing.Keys == new'.Keys { return EMPTY_PLAN; }
    assert AllObjects(existing) && AllObjects(new');
    var toDelete := PlanEach(existing.Keys - new'.Keys - {CDC_COLLECTION}, map[], existing);
    var toCreate := PlanEach(new'.Keys - existing.Keys, new', map[]);
    var toReplace := PlanEach(Edited(existing, new'), new', existing);
    plan := ConfigurationPlan(toDelete, toCreate, toReplace);
  }

  // ----- reading schemas -----

  /** What newCollectionSchema makes of a schema document: whether it is one, and the collections its
      top-level properties refer to by foreign keys. */
  datatype Reader = Reader(parses: Json -> bool, refs: Json -> set<Bytes>) {
    ghost predicate ParsesAll(schemas: Config) {
      forall n :: n in schemas ==> parses(schemas[n])
    }

    /** Every reference leads to one of the names. */
    ghost predicate Closed(names: set<Bytes>, docs: set<Json>) {
      forall d :: d in docs ==> refs(d) <= names
    }

    ghost predicate ClosedConfig(schemas: Config) {
      Closed(schemas.Keys, schemas.Values)
    }
  }

  /** collectionDag.SetSchemas. Cycles are not looked for. */
  method SetSchemas(reader: Reader, names: set<Bytes>, docs: set<Json>) returns (ok: bool)
    ensures ok <==> reader.Closed(names, docs)
  {
    var todo := docs;
    while todo != {}
      invariant todo <= docs && reader.Closed(names, docs - todo)
      decreases todo
    {
      var d :| d in todo;
      if !(reader.refs(d) <= names) { return false; }
      todo := todo - {d};
    }
    assert docs - todo == docs;
    ok := true;
  }

  // ----- applying a plan -----

  ghost predicate DistinctPlan(plan: ConfigurationPlan) {
    DistinctNames(plan.toCreate) && DistinctNames(plan.toReplace)
    && Names(plan.toCreate) !! Names(plan.toReplace)
  }

  ghost predicate Applies(plans: seq<CollectionPlan>) {
    forall p :: p in plans ==> AllApplicable(p.diff)
  }

  ghost function RebuiltDoc(base: Config, p: CollectionPlan): Json
    requires AllApplicable(p.diff)
  {
    Apply(DocOf(base, p.collection), p.diff)
  }

  /** The base documents with the differences applied. */
  ghost function Rebuilt(base: Config, plans: seq<CollectionPlan>): Config
    requires Applies(plans)
  {
    if plans == [] then map[]
    else
      var n := |plans| - 1;
      Rebuilt(base, plans[..n])[plans[n].collection := RebuiltDoc(base, plans[n])]
  }

  lemma {:induction false} RebuiltAt(base: Config, plans: seq<CollectionPlan>)
    requires Applies(plans) && DistinctNames(plans)
    ensures Rebuilt(base, plans).Keys == Names(plans)
    ensures forall p :: p in plans ==> Rebuilt(base, plans)[p.collection] == RebuiltDoc(base, p)
  {
    hide RebuiltDoc, AllApplicable;
    if plans != [] {
      var n := |plans| - 1;
      RebuiltAt(base, plans[..n]);
      assert forall p :: p in plans <==> p in plans[..n] || p == plans[n];
      forall p | p in plans[..n] ensures p.collection != plans[n].collection {
        var i :| 0 <= i < n && plans[..n][i] == p;
        assert plans[i] == p;
      }
    }
  }

  lemma UnparsedPlan(reader: Reader, base: Config, plans: seq<CollectionPlan>, p: CollectionPlan)
    requires DistinctNames(plans) && p in plans && AllApplicable(p.diff) && !reader.parses(RebuiltDoc(base, p))
    ensures !(Applies(plans) && reader.ParsesAll(Rebuilt(base, plans)))
  {
    hide RebuiltDoc, AllApplicable, Rebuilt;
    if Applies(plans) { RebuiltAt(base, plans); }
  }

  method RebuildEach(reader: Reader, base: Config, plans: seq<CollectionPlan>) returns (ok: bool, schemas: Config)
    requires DistinctNames(plans)
    ensures ok <==> Applies(plans) && reader.ParsesAll(Rebuilt(base, plans))
    ensures ok ==> schemas == Rebuilt(base, plans)
  {
    hide Apply, Applicable, DistinctNames;
    schemas := map[];
    for k := 0 to |plans|
      invariant Applies(plans[..k]) && schemas == Rebuilt(base, plans[..k]) && reader.ParsesAll(schemas)
    {
      var p := plans[k];
      var doc := new Document(DocOf(base, p.collection));
      ok := doc.ApplyOps(p.diff);
      assert p in plans;
      if !ok {
        assert !AllApplicable(p.diff);
        return;
      }
      if !reader.parses(doc.result) {
        UnparsedPlan(reader, base, plans, p);
        return false, schemas;
      }
      assert plans[..k + 1] == plans[..k] + [p];
      schemas := schemas[p.collection := doc.result];
    }
    assert plans[..|plans|] == plans;
    ok := true;
  }

  /** The schemas that are created or replaced, as the plan makes them. */
  ghost function Planned(existing: Config, plan: ConfigurationPlan): Config
    requires Applies(plan.toCreate) && Applies(plan.toReplace)
  {
    Rebuilt(map[], plan.toCreate) + Rebuilt(existing, plan.toReplace)
  }

  /** The planned schemas are in place, what the plan deletes is gone, the rest is as it was. */
  ghost function Outcome(existing: Config, plan: ConfigurationPlan): Config
    requires Applies(plan.toCreate) && Applies(plan.toReplace)
  {
    existing - Names(plan.toDelete) + Planned(existing, plan)
  }

  /** What is checked before anything is changed. A plan that only deletes is refused, and the planned
      schemas may refer to each other only. */
  ghost predicate Feasible(reader: Reader, existing: Config, plan: ConfigurationPlan) {
    && Applies(plan.toCreate) && Applies(plan.toReplace) && Names(plan.toReplace) <= existing.Keys
    && (plan.toCreate != [] || plan.toReplace != [])
    && reader.ParsesAll(Planned(existing, plan)) && reader.ClosedConfig(Planned(existing, plan))
  }

  /** defaultDB.ConfigurePlan. The last check comes when the changes have already been made: a reference
      of an unchanged schema to a deleted one is reported, but not prevented. */
  method ConfigurePlan(reader: Reader, existing: Config, plan: ConfigurationPlan) returns (ok: bool, configured: Config)
    requires DistinctPlan(plan)
    ensures ok <==> plan == EMPTY_PLAN || (Feasible(reader, existing, plan) && reader.ClosedConfig(configured))
    ensures configured == if Feasible(reader, existing, plan) then Outcome(existing, plan) else existing
  {
    hide AllApplicable, Rebuilt, Reader.Closed;
    configured := existing;
    if |plan.toDelete| == 0 && |plan.toCreate| == 0 && |plan.toReplace| == 0 { return true, configured; }
    RebuiltTogether(reader, existing, plan);
    var created, replaced;
    ok, created := RebuildEach(reader, map[], plan.toCreate);
    if !ok { return; }
    if !(Names(plan.toReplace) <= existing.Keys) { return false, configured; }
    ok, replaced := RebuildEach(reader, existing, plan.toReplace);
    if !ok { return; }
    if |plan.toCreate| == 0 && |plan.toReplace| == 0 { return false, configured; }
    var planned := created + replaced;
    ok := SetSchemas(reader, planned.Keys, planned.Values);
    if !ok { return; }
    configured := existing - Names(plan.toDelete) + planned;
    ok := SetSchemas(reader, configured.Keys, configured.Values);
  }

  lemma RebuiltTogether(reader: Reader, existing: Config, plan: ConfigurationPlan)
    requires DistinctPlan(plan)
    ensures Applies(plan.toCreate) && Applies(plan.toReplace) ==>
      (reader.ParsesAll(Planned(existing, plan)) <==>
        reader.ParsesAll(Rebuilt(map[], plan.toCreate)) && reader.ParsesAll(Rebuilt(existing, plan.toReplace)))
  {
    hide AllApplicable, Rebuilt;
    if Applies(plan.toCreate) && Applies(plan.toReplace) {
      RebuiltAt(map[], plan.toCreate);
      RebuiltAt(existing, plan.toReplace);
      var planned, created, replaced := Planned(existing, plan), Rebuilt(map[], plan.toCreate),
          Rebuilt(existing, plan.toReplace);
      assert forall n :: n in created ==> n in planned && planned[n] == created[n];
      assert forall n :: n in replaced ==> n in planned && planned[n] == replaced[n];
    }
  }

  // ----- planning then configuring -----

  /** The collections for which there is something to create or replace. */
  function Changed(existing: Config, new': Config): set<Bytes> {
    new'.Keys - existing.Keys + Edited(existing, new')
  }

  /** Every wanted schema is there with its leaves, and no other but the log's. */
  ghost predicate Realised(existing: Config, new': Config, configured: Config) {
    && configured.Keys == new'.Keys + (existing.Keys * {CDC_COLLECTION})
    && (forall n :: n in new' ==> SameLeaves(configured[n], new'[n]))
  }

  lemma PlannedIsDistinct(existing: Config, new': Config, plan: ConfigurationPlan)
    requires PlanFor(existing, new', plan)
    ensures DistinctPlan(plan)
  {
    hide IsDiff;
  }

  lemma PlannedApplies(existing: Config, new': Config, plan: ConfigurationPlan)
    requires AllObjects(existing) && AllObjects(new') && PlanFor(existing, new', plan)
    ensures Applies(plan.toCreate) && Applies(plan.toReplace) && Names(plan.toReplace) <= existing.Keys
  {
    hide AllApplicable, IsDiff;
    if existing.Keys != new'.Keys {
      forall p | p in plan.toCreate ensures AllApplicable(p.diff) {
        DiffApplicable(DocOf(new', p.collection), EMPTY_OBJECT, p.diff);
      }
      forall p | p in plan.toReplace ensures AllApplicable(p.diff) {
        DiffApplicable(DocOf(new', p.collection), DocOf(existing, p.collection), p.diff);
      }
    }
  }

  /** What is planned is what has changed. */
  lemma PlannedKeys(existing: Config, new': Config, plan: ConfigurationPlan)
    requires PlanFor(existing, new', plan) && Applies(plan.toCreate) && Applies(plan.toReplace)
    ensures Planned(existing, plan).Keys == if existing.Keys == new'.Keys then {} else Changed(existing, new')
    ensures Outcome(existing, plan).Keys ==
      if existing.Keys == new'.Keys then existing.Keys else new'.Keys + (existing.Keys * {CDC_COLLECTION})
    ensures forall n :: n in Outcome(existing, plan) && n !in Planned(existing, plan) ==>
      n in existing && Outcome(existing, plan)[n] == existing[n]
  {
    hide IsDiff, Rebuilt, Applies;
    PlannedIsDistinct(existing, new', plan);
    RebuiltAt(map[], plan.toCreate);
    RebuiltAt(existing, plan.toReplace);
    NothingPlanned(plan);
  }

  /** A planned schema has the leaves of the wanted one unless an edit puts a leaf on an object. */
  lemma PlannedAt(existing: Config, new': Config, plan: ConfigurationPlan, n: Bytes)
    requires AllObjects(existing) && AllObjects(new') && existing.Keys != new'.Keys && n in Changed(existing, new')
    requires PlanFor(existing, new', plan) && Applies(plan.toCreate) && Applies(plan.toReplace)
    ensures n in Planned(existing, plan)
    ensures SameLeaves(Planned(existing, plan)[n], new'[n]) <==>
        (n in existing ==> NoLeafOnObject(new'[n], existing[n]))
  {
    hide IsDiff, SameLeaves, NoLeafOnObject, Rebuilt, Apply;
    PlannedIsDistinct(existing, new', plan);
    RebuiltAt(map[], plan.toCreate);
    RebuiltAt(existing, plan.toReplace);
    if n !in existing {
      assert n in Names(plan.toCreate);
      var p :| p in plan.toCreate && p.collection == n;
      DiffFromNothing(new'[n], p.diff);
    } else {
      assert n in Names(plan.toReplace);
      var p :| p in plan.toReplace && p.collection == n;
      DiffThenApply(new'[n], existing[n], p.diff);
    }
  }

  lemma SameAsItself(j: Json)
    ensures SameLeaves(j, j) && NoLeafOnObject(j, j)
  {
  }

  /** A wanted schema is in place up to empty objects unless an edit puts a leaf on an object. */
  lemma OutcomeAt(existing: Config, new': Config, plan: ConfigurationPlan, n: Bytes)
    requires AllObjects(existing) && AllObjects(new') && existing.Keys != new'.Keys && n in new'
    requires PlanFor(existing, new', plan) && Applies(plan.toCreate) && Applies(plan.toReplace)
    ensures n in Outcome(existing, plan)
    ensures SameLeaves(Outcome(existing, plan)[n], new'[n]) <==>
      (n in existing ==> NoLeafOnObject(new'[n], existing[n]))
  {
    hide SameLeaves, NoLeafOnObject, Outcome, Planned, PlanFor, Applies;
    PlannedKeys(existing, new', plan);
    if n in Changed(existing, new') {
      PlannedAt(existing, new', plan, n);
      PlannedPrevails(existing, plan, n);
    } else {
      SameAsItself(new'[n]);
    }
  }

  /** Configuring realises the wanted schemas up to empty objects, exactly when no edited schema puts a
      leaf where it had an object; but if the names are the same, edits are ignored altogether. */
  lemma ConfigureRealises(existing: Config, new': Config, plan: ConfigurationPlan)
    requires AllObjects(existing) && AllObjects(new') && PlanFor(existing, new', plan)
    requires Applies(plan.toCreate) && Applies(plan.toReplace)
    ensures Realised(existing, new', Outcome(existing, plan)) <==>
      if existing.Keys == new'.Keys then forall n :: n in new' ==> SameLeaves(existing[n], new'[n])
      else forall n :: n in Edited(existing, new') ==> NoLeafOnObject(new'[n], existing[n])
  {
    hide IsDiff, SameLeaves, NoLeafOnObject, Outcome, Planned, PlanFor, Applies;
    PlannedKeys(existing, new', plan);
    var configured := Outcome(existing, plan);
    if existing.Keys != new'.Keys {
      forall n | n in new'
        ensures SameLeaves(configured[n], new'[n]) <==> (n in existing ==> NoLeafOnObject(new'[n], existing[n]))
      {
        OutcomeAt(existing, new', plan, n);
      }
      forall n | n in new' && n in existing && n !in Edited(existing, new')
        ensures NoLeafOnObject(new'[n], existing[n])
      {
        SameAsItself(new'[n]);
      }
    } else {
      assert configured.Keys == new'.Keys + (existing.Keys * {CDC_COLLECTION});
    }
  }

  lemma PlannedPrevails(existing: Config, plan: ConfigurationPlan, n: Bytes)
    requires Applies(plan.toCreate) && Applies(plan.toReplace) && n in Planned(existing, plan)
    ensures n in Outcome(existing, plan) && Outcome(existing, plan)[n] == Planned(existing, plan)[n]
  {
    hide Planned;
  }

  lemma NothingPlanned(plan: ConfigurationPlan)
    ensures plan.toDelete == [] <==> Names(plan.toDelete) == {}
    ensures plan.toCreate == [] <==> Names(plan.toCreate) == {}
    ensures plan.toReplace == [] <==> Names(plan.toReplace) == {}
  {
    forall plans: seq<CollectionPlan> ensures plans == [] <==> Names(plans) == {} {
      if plans != [] { assert plans[0] in plans && plans[0].collection in Names(plans); }
    }
  }

  function Sources(schemas: seq<SchemaDoc>): set<Json> {
    set s | s in schemas :: s.doc
  }

  /** defaultDB.Plan: all wanted schemas parse, and refer to each other only. */
  ghost predicate Plannable(reader: Reader, newSchema: seq<SchemaDoc>) {
    && (forall s :: s in newSchema ==> reader.parses(s.doc))
    && reader.Closed(Collections(newSchema), Sources(newSchema))
  }

  method Plan(reader: Reader, existingSchema: seq<SchemaDoc>, newSchema: seq<SchemaDoc>)
    returns (ok: bool, plan: ConfigurationPlan)
    requires forall s :: s in existingSchema || s in newSchema ==> s.doc.Obj?
    ensures ok <==> Plannable(reader, newSchema)
    ensures ok ==> PlanFor(ToConfig(existingSchema), ToConfig(newSchema), plan)
  {
    hide Reader.Closed, PlanFor;
    plan := EMPTY_PLAN;
    for k := 0 to |newSchema|
      invariant forall i :: 0 <= i < k ==> reader.parses(newSchema[i].doc)
    {
      if !reader.parses(newSchema[k].doc) { return false, plan; }
    }
    ok := SetSchemas(reader, Collections(newSchema), Sources(newSchema));
    if ok { plan := CalcConfigPlan(existingSchema, newSchema); }
  }

  // ----- when configuring succeeds -----

  lemma WhatIsPlanned(existing: Config, new': Config, plan: ConfigurationPlan)
    requires AllObjects(existing) && AllObjects(new') && PlanFor(existing, new', plan)
    ensures Applies(plan.toCreate) && Applies(plan.toReplace) && Names(plan.toReplace) <= existing.Keys
    ensures plan == EMPTY_PLAN <==>
      existing.Keys == new'.Keys || (Changed(existing, new') == {} && existing.Keys - new'.Keys <= {CDC_COLLECTION})
    ensures existing.Keys != new'.Keys ==>
        (plan.toCreate != [] || plan.toReplace != [] <==> Changed(existing, new') != {})
  {
    hide IsDiff, Applies;
    PlannedApplies(existing, new', plan);
    NothingPlanned(plan);
  }

  /** What becomes of the schema of a created or edited collection. */
  function Becomes(existing: Config, new': Config, n: Bytes): Json
    requires n in new' && DocOf(existing, n).Obj?
  {
    EditResult(DocOf(existing, n), new'[n])
  }

  /** A planned schema is the outcome of editing the existing one, or nothing, towards the wanted one. */
  lemma PlannedBecomes(existing: Config, new': Config, plan: ConfigurationPlan, n: Bytes)
    requires AllObjects(existing) && AllObjects(new') && existing.Keys != new'.Keys && n in Changed(existing, new')
    requires PlanFor(existing, new', plan) && Applies(plan.toCreate) && Applies(plan.toReplace)
    ensures n in Planned(existing, plan) && Planned(existing, plan)[n] == Becomes(existing, new', n)
  {
    hide IsDiff, Rebuilt, Apply, AfterEdit;
    PlannedIsDistinct(existing, new', plan);
    RebuiltAt(map[], plan.toCreate);
    RebuiltAt(existing, plan.toReplace);
    if n !in existing {
      assert n in Names(plan.toCreate);
      var p :| p in plan.toCreate && p.collection == n;
      DiffThenApplyIs(new'[n], EMPTY_OBJECT, p.diff);
    } else {
      assert n in Names(plan.toReplace);
      var p :| p in plan.toReplace && p.collection == n;
      DiffThenApplyIs(new'[n], existing[n], p.diff);
    }
  }

  /** What a caller can check before configuring: there is nothing to do; or something is created or edited,
      and each of these schemas, as the edit leaves it, parses and refers to nothing but what is created or
      edited with it, and the schema of the log, which stays unless it is wanted, refers to nothing that
      goes. */
  ghost predicate Configurable(reader: Reader, existing: Config, new': Config)
    requires AllObjects(existing) && AllObjects(new')
  {
    var changed := Changed(existing, new');
    || existing.Keys == new'.Keys
    || (changed == {} && existing.Keys - new'.Keys <= {CDC_COLLECTION})
    || (changed != {}
        && (forall n :: n in changed ==>
              reader.parses(Becomes(existing, new', n)) && reader.refs(Becomes(existing, new', n)) <= changed)
        && (CDC_COLLECTION in existing.Keys - new'.Keys ==>
              reader.refs(existing[CDC_COLLECTION]) <= new'.Keys + {CDC_COLLECTION}))
  }

  /** The planned schemas are exactly the outcomes of the edits. */
  ghost predicate AsEdited(existing: Config, new': Config, planned: Config)
    requires AllObjects(existing) && AllObjects(new')
  {
    planned.Keys == Changed(existing, new') && forall n :: n in planned ==> planned[n] == Becomes(existing, new', n)
  }

  lemma PlannedReads(reader: Reader, existing: Config, new': Config, planned: Config)
    requires AllObjects(existing) && AllObjects(new') && AsEdited(existing, new', planned)
    ensures reader.ParsesAll(planned) <==> forall n :: n in Changed(existing, new') ==>
        reader.parses(Becomes(existing, new', n))
    ensures reader.ClosedConfig(planned) <==>
      forall n :: n in Changed(existing, new') ==> reader.refs(Becomes(existing, new', n)) <= Changed(existing, new')
  {
    hide AfterEdit;
    if reader.ClosedConfig(planned) {
      forall n | n in Changed(existing, new')
        ensures reader.refs(Becomes(existing, new', n)) <= Changed(existing, new')
      {
        assert planned[n] in planned.Values;
      }
    }
  }

  /** If the wanted schemas refer to each other only, nothing but the schema of the log can refer to what
      is gone. */
  lemma OutcomeReads(reader: Reader, existing: Config, new': Config, plan: ConfigurationPlan)
    requires PlanFor(existing, new', plan) && existing.Keys != new'.Keys && reader.ClosedConfig(new')
    requires Applies(plan.toCreate) && Applies(plan.toReplace) && reader.ClosedConfig(Planned(existing, plan))
    ensures reader.ClosedConfig(Outcome(existing, plan)) <==>
      (CDC_COLLECTION in existing.Keys - new'.Keys ==>
        reader.refs(existing[CDC_COLLECTION]) <= new'.Keys + {CDC_COLLECTION})
  {
    hide PlanFor, Applies, Planned, Outcome;
    PlannedKeys(existing, new', plan);
    var configured, planned := Outcome(existing, plan), Planned(existing, plan);
    if CDC_COLLECTION in existing.Keys - new'.Keys {
      assert configured[CDC_COLLECTION] == existing[CDC_COLLECTION] && configured[CDC_COLLECTION] in configured.Values;
    }
    forall n | n in configured && n in new' ensures reader.refs(configured[n]) <= configured.Keys {
      assert new'[n] in new'.Values;
      if n in planned {
        PlannedPrevails(existing, plan, n);
        assert planned[n] in planned.Values;
      }
    }
  }

  /** Schemas that may be planned can be configured if and only if they are configurable. */
  lemma ConfigureSucceedsWhen(reader: Reader, existing: Config, new': Config, plan: ConfigurationPlan)
    requires AllObjects(existing) && AllObjects(new') && PlanFor(existing, new', plan) && reader.ClosedConfig(new')
    requires Applies(plan.toCreate) && Applies(plan.toReplace)
    ensures Configurable(reader, existing, new') <==>
      plan == EMPTY_PLAN || (Feasible(reader, existing, plan) && reader.ClosedConfig(Outcome(existing, plan)))
  {
    hide PlanFor, Applies, Planned, Outcome, Becomes, Reader.ParsesAll, Reader.ClosedConfig;
    PlannedKeys(existing, new', plan);
    WhatIsPlanned(existing, new', plan);
    if existing.Keys != new'.Keys && Changed(existing, new') != {} {
      forall n | n in Changed(existing, new') ensures Planned(existing, plan)[n] == Becomes(existing, new', n) {
        PlannedBecomes(existing, new', plan, n);
      }
      PlannedReads(reader, existing, new', Planned(existing, plan));
      if reader.ClosedConfig(Planned(existing, plan)) { OutcomeReads(reader, existing, new', plan); }
    }
  }

  lemma PlannableIsClosed(reader: Reader, newSchema: seq<SchemaDoc>)
    requires Plannable(reader, newSchema)
    ensures reader.ClosedConfig(ToConfig(newSchema))
  {
    ConfigOfAll(newSchema);
    var c := ToConfig(newSchema);
    forall d | d in c.Values ensures reader.refs(d) <= c.Keys {
      var n :| n in c && c[n] == d;
      var k :| 0 <= k < |newSchema| && newSchema[k].doc == c[n];
      assert newSchema[k] in newSchema && d in Sources(newSchema);
    }
  }

  /** The wanted schema is in place, with its leaves if and only if none of them stands on an object of the
      schema its collection had before. */
  ghost predicate LeavesWanted(existingSchema: seq<SchemaDoc>, s: SchemaDoc, configured: Config) {
    s.collection in configured && (SameLeaves(configured[s.collection], s.doc) <==>
      forall m :: Latest(existingSchema, m) && existingSchema[m].collection == s.collection ==>
        NoLeafOnObject(s.doc, existingSchema[m].doc))
  }

  /** What is configured, schema by schema, when the names have changed: the wanted collections, each with its
      own last schema, and the log. */
  ghost predicate AsWanted(existingSchema: seq<SchemaDoc>, newSchema: seq<SchemaDoc>, configured: Config) {
    && (forall n :: n in configured <==>
          n in Collections(newSchema) || (n == CDC_COLLECTION && n in Collections(existingSchema)))
    && (forall k :: Latest(newSchema, k) ==> LeavesWanted(existingSchema, newSchema[k], configured))
  }

  lemma {:induction false} LatestExists(schemas: seq<SchemaDoc>, n: Bytes) returns (k: nat)
    requires n in Collections(schemas)
    ensures Latest(schemas, k) && schemas[k].collection == n
  {
    var last := |schemas| - 1;
    if schemas[last].collection == n {
      k := last;
    } else {
      assert schemas == schemas[..last] + [schemas[last]];
      k := LatestExists(schemas[..last], n);
      assert forall m :: k < m < last ==> schemas[..last][m] == schemas[m];
    }
  }

  lemma LeavesAsWanted(existingSchema: seq<SchemaDoc>, newSchema: seq<SchemaDoc>, plan: ConfigurationPlan, k: nat)
    requires AllObjects(ToConfig(existingSchema)) && AllObjects(ToConfig(newSchema)) && Latest(newSchema, k)
    requires ToConfig(existingSchema).Keys != ToConfig(newSchema).Keys
    requires PlanFor(ToConfig(existingSchema), ToConfig(newSchema), plan)
    requires Applies(plan.toCreate) && Applies(plan.toReplace)
    ensures LeavesWanted(existingSchema, newSchema[k], Outcome(ToConfig(existingSchema), plan))
  {
    hide PlanFor, Applies, ToConfig, SameLeaves, NoLeafOnObject, Outcome, Planned, AllObjects;
    var existing, new', s := ToConfig(existingSchema), ToConfig(newSchema), newSchema[k];
    ConfigOfLatest(newSchema, k);
    OutcomeAt(existing, new', plan, s.collection);
    ConfigOfAll(existingSchema);
    if s.collection in existing {
      var m := LatestExists(existingSchema, s.collection);
      ConfigOfLatest(existingSchema, m);
    }
    forall m | Latest(existingSchema, m) && existingSchema[m].collection == s.collection
      ensures s.collection in existing && existing[s.collection] == existingSchema[m].doc
    {
      ConfigOfLatest(existingSchema, m);
    }
  }

  lemma OutcomeAsWanted(existingSchema: seq<SchemaDoc>, newSchema: seq<SchemaDoc>, plan: ConfigurationPlan)
    requires AllObjects(ToConfig(existingSchema)) && AllObjects(ToConfig(newSchema))
    requires ToConfig(existingSchema).Keys != ToConfig(newSchema).Keys
    requires PlanFor(ToConfig(existingSchema), ToConfig(newSchema), plan)
    requires Applies(plan.toCreate) && Applies(plan.toReplace)
    ensures AsWanted(existingSchema, newSchema, Outcome(ToConfig(existingSchema), plan))
  {
    hide PlanFor, Applies, ToConfig, Outcome, Planned, AllObjects, LeavesWanted;
    PlannedKeys(ToConfig(existingSchema), ToConfig(newSchema), plan);
    ConfigOfAll(existingSchema);
    ConfigOfAll(newSchema);
    forall k | Latest(newSchema, k)
      ensures LeavesWanted(existingSchema, newSchema[k], Outcome(ToConfig(existingSchema), plan))
    {
      LeavesAsWanted(existingSchema, newSchema, plan, k);
    }
  }

  /** defaultDB.Configure: plan, then carry out the plan. */
  method Configure(reader: Reader, existingSchema: seq<SchemaDoc>, newSchema: seq<SchemaDoc>)
    returns (ok: bool, configured: Config)
    requires forall s :: s in existingSchema || s in newSchema ==> s.doc.Obj?
    ensures ok <==>
      Plannable(reader, newSchema) && Configurable(reader, ToConfig(existingSchema), ToConfig(newSchema))
    ensures var existing, new' := ToConfig(existingSchema), ToConfig(newSchema);
      ok ==> (Realised(existing, new', configured) <==>
        if existing.Keys == new'.Keys then forall n :: n in new' ==> SameLeaves(existing[n], new'[n])
        else forall n :: n in Edited(existing, new') ==> NoLeafOnObject(new'[n], existing[n]))
    ensures ok ==>
      if Collections(existingSchema) != Collections(newSchema) then AsWanted(existingSchema, newSchema, configured)
      else AsListed(existingSchema, configured)
  {
    hide IsDiff, SameLeaves, NoLeafOnObject, Applies, DistinctPlan, Realised, PlanFor, Planned, Plannable,
      Reader.ClosedConfig, Configurable, AsWanted, AsListed;
    ConfigIsAsListed(existingSchema);
    ConfigOfAll(existingSchema);
    ConfigOfAll(newSchema);
    ghost var existing, new' := ToConfig(existingSchema), ToConfig(newSchema);
    assert AllObjects(existing) && AllObjects(new');
    configured := Collect(existingSchema);
    var plan;
    ok, plan := Plan(reader, existingSchema, newSchema);
    if !ok { return; }
    PlannedIsDistinct(existing, new', plan);
    PlannedApplies(existing, new', plan);
    PlannableIsClosed(reader, newSchema);
    ConfigureSucceedsWhen(reader, existing, new', plan);
    ok, configured := ConfigurePlan(reader, configured, plan);
    if ok {
      ConfigureRealises(existing, new', plan);
      if existing.Keys != new'.Keys {
        OutcomeAsWanted(existingSchema, newSchema, plan);
      } else {
        SameNamesNoPlan(existing, new', plan);
      }
      EmptyPlanChangesNothing(existing);
    }
  }

  lemma SameNamesNoPlan(existing: Config, new': Config, plan: ConfigurationPlan)
    requires PlanFor(existing, new', plan) && existing.Keys == new'.Keys
    ensures plan == EMPTY_PLAN
  {
  }

  lemma EmptyPlanChangesNothing(existing: Config)
    ensures Outcome(existing, EMPTY_PLAN) == existing
  {
  }

  // ----- what cannot be configured -----

  /** Reads the member `r` of a schema document as the one collection it refers to. */
  function OneReference(r: Name): Reader {
    Reader(d => true, d => match LeafAt(d, [r]) case Some(Str(c)) => {c} case _ => {})
  }

  /** The smallest configuration that fails for a reference: beside the collection `a`, which stays as it is,
      a collection `b` that refers to it is to be created. */
  lemma AddingReferenceFails(a: Bytes, b: Bytes, r: Name)
    requires a != b
    ensures var existing := map[a := EMPTY_OBJECT]; var new' := existing[b := Obj(map[r := Str(a)])];
      OneReference(r).ClosedConfig(new') && !Configurable(OneReference(r), existing, new')
  {
    var existing, reader := map[a := EMPTY_OBJECT], OneReference(r);
    var new' := existing[b := Obj(map[r := Str(a)])];
    assert Lookup(new'[b], [r]) == Lookup(Str(a), [r][1..]) == Some(Str(a));
    assert reader.refs(new'[b]) == {a} && reader.refs(new'[a]) == {};
    assert Changed(existing, new') == {b};
    AfterEditAt(EMPTY_OBJECT, Some(new'[b]), [r]);
    hide AfterEdit;
    assert forall n :: 0 <= n <= 1 ==> !IsLeaf(Lookup(EMPTY_OBJECT, [r][..n]));
    assert reader.refs(Becomes(existing, new', b)) == {a};
  }

  /** Reads a schema document that may have a member `p`, but not an empty one: a property without a type. */
  function NoEmptyMember(p: Name): Reader {
    Reader(d => Lookup(d, [p]) != Some(EMPTY_OBJECT), d => {})
  }

  lemma OneMember(r: Json, p: Name, rest: Json)
    requires r.Obj? && forall k :: MemberOf(r.fields, k) == if k == p then Some(rest) else None
    ensures r == Obj(map[p := rest])
  {
    assert forall k :: k in r.fields <==> MemberOf(r.fields, k).Some?;
    assert r.fields == map[p := rest];
  }

  /** Dropping a member keeps what dropping its content leaves of it. */
  lemma DroppedMember(p: Name, content: Json, rest: Json)
    requires AfterEdit(content, None) == Some(rest)
    ensures EditResult(Obj(map[p := content]), EMPTY_OBJECT) == Obj(map[p := rest])
  {
    var b, r := Obj(map[p := content]), EditResult(Obj(map[p := content]), EMPTY_OBJECT);
    hide AfterEdit;
    AfterEditMember(b, Some(EMPTY_OBJECT), p);
    forall k ensures MemberOf(r.fields, k) == if k == p then Some(rest) else None {
      AfterEditMember(b, Some(EMPTY_OBJECT), k);
    }
    hide EditResult;
    OneMember(r, p, rest);
  }

  lemma DroppedLeaf(t: Name, v: Json)
    requires !v.Obj?
    ensures AfterEdit(Obj(map[t := v]), None) == Some(EMPTY_OBJECT)
  {
    assert MemberOf(map[], t) == None && AfterEdit(v, None) == None;
    assert AfterEdit(Obj(map[t := v]), None).value.fields == map[];
  }

  function Typed(p: Name, t: Name, type': Json): Json {
    Obj(map[p := Obj(map[t := type'])])
  }

  /** What is left of a property that is dropped: the property without its type. */
  lemma LeftOfProperty(p: Name, t: Name, type': Json)
    requires !type'.Obj?
    ensures EditResult(Typed(p, t, type'), EMPTY_OBJECT) == Obj(map[p := EMPTY_OBJECT])
  {
    DroppedLeaf(t, type');
    hide AfterEdit, EditResult;
    DroppedMember(p, Obj(map[t := type']), EMPTY_OBJECT);
  }

  /** One changed schema that does not parse after the edit is enough. */
  lemma UnparsedOutcome(reader: Reader, existing: Config, new': Config, n: Bytes)
    requires AllObjects(existing) && AllObjects(new') && existing.Keys != new'.Keys && n in Changed(existing, new')
    requires !reader.parses(Becomes(existing, new', n))
    ensures !Configurable(reader, existing, new')
  {
    hide AfterEdit, EditResult;
  }

  lemma ReadingProperty(p: Name, t: Name, type': Json)
    ensures Typed(p, t, type') != EMPTY_OBJECT
    ensures var reader := NoEmptyMember(p);
      reader.parses(Typed(p, t, type')) && reader.parses(EMPTY_OBJECT) && !reader.parses(Obj(map[p := EMPTY_OBJECT]))
  {
    var property := Obj(map[t := type']);
    assert property.fields[t] == type' && Typed(p, t, type').fields[p] == property;
    assert Lookup(Typed(p, t, type'), [p]) == Lookup(property, [p][1..]) == Some(property);
    assert Lookup(Obj(map[p := EMPTY_OBJECT]), [p]) == Lookup(EMPTY_OBJECT, [p][1..]) == Some(EMPTY_OBJECT);
  }

  /** The smallest edit that fails: a property `p` is dropped from the collection `a`, beside the creation of
      another collection. What the edit leaves is the property without a type, and that does not parse. */
  lemma DroppedPropertyFails(a: Bytes, b: Bytes, p: Name, t: Name, type': Json)
    requires a != b && !type'.Obj?
    ensures var existing, new' := map[a := Typed(p, t, type')], map[a := EMPTY_OBJECT, b := EMPTY_OBJECT];
      && NoEmptyMember(p).ParsesAll(existing) && NoEmptyMember(p).ParsesAll(new') && NoEmptyMember(p).ClosedConfig(new')
      && NoLeafOnObject(new'[a], existing[a])
      && !Configurable(NoEmptyMember(p), existing, new')
  {
    var existing, new' := map[a := Typed(p, t, type')], map[a := EMPTY_OBJECT, b := EMPTY_OBJECT];
    ReadingProperty(p, t, type');
    LeftOfProperty(p, t, type');
    hide AfterEdit, EditResult, Configurable;
    assert b in new' && b !in existing;
    assert a in Changed(existing, new') && Becomes(existing, new', a) == Obj(map[p := EMPTY_OBJECT]);
    UnparsedOutcome(NoEmptyMember(p), existing, new', a);
  }
}
