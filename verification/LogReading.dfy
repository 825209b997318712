/** Reading the change log back: the query for the records of one document, and the records as they were
    written. */
module LogReading {
  import opened ByteStrings
  import opened Json
  import opened Schemas
  import opened Store
  import opened Filter
  import opened Optimizer
  import opened KvIter
  import opened Scan
  import opened Sorting
  import opened Ordering
  import opened Documents
  import opened ChangeLog
  import opened Queries
  import opened Soundness
  import opened TimeTravel

  // ----- records -----

  function ParseOp(s: Bytes): JSONOp {
    if s == OpText(Remove) then Remove else if s == OpText(Replace) then Replace else if s == OpText(Add)
        then Add else Unsupported
  }

  function ParseAction(s: Bytes): Action {
    if s == ActionText(Action.Create) then Action.Create
    else if s == ActionText(Action.Set) then Action.Set
    else if s == ActionText(Action.Update) then Action.Update
    else Action.Delete
  }

  function Text(v: Json): Bytes {
    if v.Str? then v.s else []
  }

  function DecodeOp(d: Json): JSONFieldOp {
    JSONFieldOp(SplitDots(Text(Get(d, [PATH]))), ParseOp(Text(Get(d, [OP]))), Get(d, [VALUE]), Get(d, [BEFORE_VALUE]))
  }

  /** Document.Scan into a CDC. */
  function DecodeRecord(pk: Path, d: Json): CDC {
    var diff := Get(d, [DIFF]);
    var items := if diff.Arr? then diff.items else [];
    CDC(Text(Get(d, pk)), Text(Get(d, [COLLECTION])), ParseAction(Text(Get(d, [ACTION]))), Text(Get(d, [DOCUMENT_ID])),
        seq(|items|, i requires 0 <= i < |items| => DecodeOp(items[i])),
        if Get(d, [TIMESTAMP]).Num? then Get(d, [TIMESTAMP]).n.Floor else 0,
        Get(d, [METADATA]))
  }

  predicate Readable(r: CDC) {
    forall op :: op in r.diff ==> DotFree(op.path)
  }

  const LOG_FIELDS: set<Name> := {COLLECTION, ACTION, DOCUMENT_ID, DIFF, TIMESTAMP, METADATA}

  lemma MemberAt(fields: map<Name, Json>, n: Name)
    ensures Lookup(Obj(fields), [n]) == if n in fields then Some(fields[n]) else None
  {
    if n in fields { assert Lookup(fields[n], [n][1..]) == Some(fields[n]); }
  }

  lemma OpRoundTrip(o: JSONFieldOp)
    requires DotFree(o.path)
    ensures DecodeOp(OpJson(o)) == o
  {
    hide SplitDots, JoinDots;
    SplitOfJoined(o.path);
    MemberAt(OpJson(o).fields, PATH);
    MemberAt(OpJson(o).fields, OP);
    MemberAt(OpJson(o).fields, VALUE);
    MemberAt(OpJson(o).fields, BEFORE_VALUE);
  }

  /** A record's members in its document. */
  lemma RecordMembers(pk: Path, r: CDC)
    requires |pk| == 1 && pk[0] !in LOG_FIELDS
    ensures var d := CdcDocument(pk, r);
      && Get(d, pk) == Str(r.id) && Get(d, [COLLECTION]) == Str(r.collection) &&
          Get(d, [ACTION]) == Str(ActionText(r.action))
      && Get(d, [DOCUMENT_ID]) == Str(r.documentID) && Get(d, [TIMESTAMP]) == Num(r.timestamp as real)
      && Get(d, [METADATA]) == r.metadata
      && Get(d, [DIFF]) == Arr(seq(|r.diff|, i requires 0 <= i < |r.diff| => OpJson(r.diff[i])))
  {
    var d := CdcDocument(pk, r);
    assert pk == [pk[0]];
    MemberAt(d.fields, pk[0]);
    MemberAt(d.fields, COLLECTION);
    MemberAt(d.fields, ACTION);
    MemberAt(d.fields, DOCUMENT_ID);
    MemberAt(d.fields, DIFF);
    MemberAt(d.fields, TIMESTAMP);
    MemberAt(d.fields, METADATA);
  }

  /** What is written to the log can be read back. */
  lemma RecordRoundTrip(pk: Path, r: CDC)
    requires |pk| == 1 && pk[0] !in LOG_FIELDS && Readable(r)
    ensures DecodeRecord(pk, CdcDocument(pk, r)) == r
  {
    hide DecodeOp, OpJson, CdcDocument;
    RecordMembers(pk, r);
    var q := DecodeRecord(pk, CdcDocument(pk, r));
    var items := Get(CdcDocument(pk, r), [DIFF]).items;
    assert |items| == |r.diff| == |q.diff|;
    forall i | 0 <= i < |r.diff| ensures q.diff[i] == r.diff[i] {
      assert items[i] == OpJson(r.diff[i]);
      OpRoundTrip(r.diff[i]);
    }
    assert q.diff == r.diff;
  }

  // ----- the query -----

  /** The clauses TimeTravel asks the log with. */
  function LogClauses(coll: Bytes, id: Bytes, since: int): seq<Where> {
    [Where([DOCUMENT_ID], Eq, Str(id)), Where([COLLECTION], Eq, Str(coll)), Where([TIMESTAMP], Gte, Num(since as real))]
  }

  const NEWEST_FIRST := [OrderBy([TIMESTAMP], true)]

  function LogQuery(coll: Bytes, id: Bytes, since: int): Query {
    Query(LogClauses(coll, id, since), NEWEST_FIRST, 0, 0)
  }

  /** cdc.yaml: the primary key and the indexes of the log collection. */
  ghost predicate LogIndexed(c: Schema) {
    && |c.pk| == 1 && c.pk[0] !in LOG_FIELDS
    && (forall n :: n in c.indexes && !c.indexes[n].primary ==>
          c.indexes[n].fields in {[[COLLECTION], [DOCUMENT_ID]], [[DOCUMENT_ID]], [[TIMESTAMP]]})
    && (exists n :: n in c.indexes && c.indexes[n].fields == [[DOCUMENT_ID]])
  }

  /** Text that a where clause takes literally. */
  predicate PlainText(s: Bytes) {
    s != NULL_TEXT && (s == [] || s[0] != DOLLAR)
  }

  lemma LogScore(c: Schema, n: Bytes, where: seq<Where>, coll: Bytes, id: Bytes, since: int)
    requires c.WellFormed() && LogIndexed(c) && n in c.indexes && where == LogClauses(coll, id, since)
    ensures var i := c.indexes[n];
      if i.fields == [[DOCUMENT_ID]]
          then Matched(i, where) == [[DOCUMENT_ID]] && Seeked(i, where) == [] && Score(i, where) == 1
      else Score(i, where) == 0
  {
    assert c.GoodIndex(n);
    hide Schema.WellFormed, PrefixFree, LogIndexed;
    var i := c.indexes[n];
    assert COLLECTION != DOCUMENT_ID && TIMESTAMP != DOCUMENT_ID && c.pk != [DOCUMENT_ID];
    if |i.fields| == 2 {
      assert MatchedUpTo(i, where, 2) == MatchedUpTo(i, where, 1) == MatchedUpTo(i, where, 0) == [];
      assert SeekUpTo(i, where, 2) == SeekUpTo(i, where, 1) == SeekUpTo(i, where, 0) == [];
    } else {
      assert MatchedUpTo(i, where, 1) == if i.fields == [[DOCUMENT_ID]] then [[DOCUMENT_ID]] else [];
      assert SeekUpTo(i, where, 1) == SeekUpTo(i, where, 0) == [];
    }
  }

  /** Where some index fits a query that is no primary lookup, the plan is on an index that fits. */
  lemma FittingPlan(c: Schema, where: seq<Where>, n: Bytes, r: OptimizeResult)
    requires c.WellFormed() && where != [] && !PrimaryLookup(c, where) && Answers(c, where, r)
    requires n in c.indexes && Score(c.indexes[n], where) > 0
    ensures r.Plan? && r.explain.index.name in c.indexes && r.explain.index == c.indexes[r.explain.index.name]
    ensures r.explain.matchedFields == Matched(r.explain.index, where)
    ensures r.explain.seekFields == Seeked(r.explain.index, where)
    ensures Score(r.explain.index, where) > 0
  {
    hide Schema.WellFormed, PrimaryLookup, Score, Matched, Seeked, ValuesFor;
  }

  /** Whatever plan is picked, it looks the records up by the document's id. */
  lemma LogPlan(c: Schema, coll: Bytes, id: Bytes, since: int, r: OptimizeResult)
    requires c.WellFormed() && LogIndexed(c) && Answers(c, LogClauses(coll, id, since), r)
    ensures r.Plan? && r.explain.matchedFields == [[DOCUMENT_ID]] == r.explain.index.fields
    ensures r.explain.seekFields == []
  {
    var where := LogClauses(coll, id, since);
    var n :| n in c.indexes && c.indexes[n].fields == [[DOCUMENT_ID]];
    assert !PrimaryLookup(c, where);
    hide *;
    LogScore(c, n, where, coll, id, since);
    FittingPlan(c, where, n, r);
    LogScore(c, r.explain.index.name, where, coll, id, since);
  }

  /** The query is valid, and some index fits it. */
  lemma LogQueryAnswered(c: Schema, coll: Bytes, id: Bytes, since: int)
    requires c.WellFormed() && LogIndexed(c)
    ensures Validated(LogClauses(coll, id, since)) && ScalarClauses(LogClauses(coll, id, since))
    ensures !NeedsIndex(c, LogClauses(coll, id, since))
  {
    var n :| n in c.indexes && c.indexes[n].fields == [[DOCUMENT_ID]];
    LogScore(c, n, LogClauses(coll, id, since), coll, id, since);
  }

  lemma LogClausesApart(coll: Bytes, id: Bytes, since: int)
    requires ValidId(id)
    ensures var where := LogClauses(coll, id, since);
      && DistinctFields(where)
      && forall i :: 0 <= i < |where| && where[i].field == [DOCUMENT_ID] ==> PlainValue(where[i].value)
  {
    assert COLLECTION[0] != DOCUMENT_ID[0] && TIMESTAMP[0] != DOCUMENT_ID[0] && COLLECTION[0] != TIMESTAMP[0];
  }

  lemma InitialPlan(c: Schema, where: seq<Where>, e: Explain, f: Path)
    requires c.WellFormed() && Answers(c, where, Plan(e)) && e.matchedFields == [f] == e.index.fields
    requires e.seekFields == []
    requires DistinctFields(where) && forall i :: 0 <= i < |where| && where[i].field == f ==> PlainValue(where[i].value)
    ensures Followable(c, where, e) && InitialSegment(e)
  {
    hide Schema.WellFormed, Answers, DistinctFields, PlainValue;
  }

  lemma LogPlanFollowable(c: Schema, coll: Bytes, id: Bytes, since: int, e: Explain)
    requires c.WellFormed() && LogIndexed(c) && ValidId(id) && Answers(c, LogClauses(coll, id, since), Plan(e))
    ensures Followable(c, LogClauses(coll, id, since), e) && InitialSegment(e) && e.seekFields == []
  {
    hide *;
    LogPlan(c, coll, id, since, Plan(e));
    LogClausesApart(coll, id, since);
    InitialPlan(c, LogClauses(coll, id, since), e, [DOCUMENT_ID]);
  }

  /** The clauses pick the records of the document that are not older than the moment. */
  lemma ClausesSelect(pk: Path, r: CDC, coll: Bytes, id: Bytes, since: int)
    requires |pk| == 1 && pk[0] !in LOG_FIELDS && ValidId(id) && PlainText(coll)
    ensures Matches(LogClauses(coll, id, since), CdcDocument(pk, r)) <==> Selected(r, coll, id, since)
  {
    RecordMembers(pk, r);
    hide CdcDocument, Get;
    var where, d := LogClauses(coll, id, since), CdcDocument(pk, r);
    assert Operand(where[0], d) == Str(id) && Operand(where[1], d) == Str(coll) &&
        Operand(where[2], d) == Num(since as real);
    assert ClauseHolds(where[0], d) <==> r.documentID == id;
    assert ClauseHolds(where[1], d) <==> r.collection == coll;
    assert ClauseHolds(where[2], d) <==> r.timestamp >= since;
    hide ClauseHolds;
    assert Matches(where, d) <==> ClauseHolds(where[0], d) && ClauseHolds(where[1], d) && ClauseHolds(where[2], d);
  }

  /** The documents the query has to find are those of the selected records. */
  lemma WantedRecords(cat: Catalog, t: Entries, all: seq<CDC>, coll: Bytes, id: Bytes, since: int, d: Json)
    requires CDC_COLLECTION in cat && LogIndexed(cat[CDC_COLLECTION]) && LogIs(cat, t, all) && ValidId(id)
    requires PlainText(coll)
    ensures Wanted(cat, t, CDC_COLLECTION, LogClauses(coll, id, since), d) <==>
      exists r :: r in all && Selected(r, coll, id, since) && d == CdcDocument(cat[CDC_COLLECTION].pk, r)
  {
    var pk, where := cat[CDC_COLLECTION].pk, LogClauses(coll, id, since);
    assert |pk| == 1 && pk[0] !in LOG_FIELDS;
    hide CdcDocument, LogIndexed, Matches, Selected, LogClauses;
    if Wanted(cat, t, CDC_COLLECTION, where, d) {
      var s := Prim(cat, DocId(CDC_COLLECTION, Get(d, pk).s));
      assert s in t && RecordWithId(all, s.did.id);
      var r :| r in all && r.id == s.did.id;
      assert RecordStored(cat, t, r);
      ClausesSelect(pk, r, coll, id, since);
      assert d == CdcDocument(pk, r);
    }
    if r :| r in all && Selected(r, coll, id, since) && d == CdcDocument(pk, r) {
      assert RecordStored(cat, t, r);
      RecordMembers(pk, r);
      ClausesSelect(pk, r, coll, id, since);
    }
  }

  /** The scan for the records of a document finds them all, each once. */
  lemma LogScan(cat: Catalog, view: View, b: Backend, t: Entries, all: seq<CDC>, coll: Bytes, id: Bytes, since: int,
      e: Explain)
    requires GoodCatalog(cat) && Holds(cat, view, t) && CDC_COLLECTION in cat && CollectionReady(cat, t, CDC_COLLECTION)
    requires cat[CDC_COLLECTION].WellFormed() && LogIndexed(cat[CDC_COLLECTION]) && LogIs(cat, t, all)
    requires ValidId(id) && PlainText(coll)
    requires Answers(cat[CDC_COLLECTION], LogClauses(coll, id, since), Plan(e))
    ensures PlanScalars(e)
    ensures var docs := ScanDocs(view, b, cat[CDC_COLLECTION], e, LogClauses(coll, id, since));
      && NoRepeats(docs)
      && (forall d :: d in docs <==>
            exists r :: r in all && Selected(r, coll, id, since) && d == CdcDocument(cat[CDC_COLLECTION].pk, r))
  {
    hide GoodCatalog, Schema.WellFormed, LogIndexed, Answers;
    var c, where := cat[CDC_COLLECTION], LogClauses(coll, id, since);
    LogPlanFollowable(c, coll, id, since, e);
    hide GoodCatalog, Holds, CollectionReady, ScanDocs, Answers, Schema.WellFormed, Matches, Wanted, Followable,
      Missed, PlanShape, LogIndexed, LogIs, LogClauses, CdcDocument, Selected;
    ShapeOf(c, where, e);
    assert ScanSetting(cat, view, t, CDC_COLLECTION, where, e);
    IndexScanRefinesFullScan(cat, view, b, t, CDC_COLLECTION, where, e);
    var docs := ScanDocs(view, b, c, e, where);
    forall d ensures d in docs <==> exists r :: r in all && Selected(r, coll, id, since) && d == CdcDocument(c.pk, r) {
      InitialMissesOnlySkipped(e, b, d);
      WantedRecords(cat, t, all, coll, id, since, d);
    }
  }

  // ----- the records in order -----

  function DecodeAll(pk: Path, docs: seq<Json>): seq<CDC> {
    seq(|docs|, i requires 0 <= i < |docs| => DecodeRecord(pk, docs[i]))
  }

  /** These are the documents of the selected records. */
  ghost predicate FindsSelected(pk: Path, all: seq<CDC>, coll: Bytes, id: Bytes, since: int, docs: seq<Json>)
    requires pk != []
  {
    && NoRepeats(docs)
    && (forall d :: d in docs <==> exists r :: r in all && Selected(r, coll, id, since) && d == CdcDocument(pk, r))
  }

  lemma NewerByDocument(pk: Path, a: CDC, b: CDC)
    requires |pk| == 1 && pk[0] !in LOG_FIELDS
    ensures LexLess(NEWEST_FIRST, CdcDocument(pk, a), CdcDocument(pk, b)) <==> Newer(a, b)
    ensures HasKinds(NEWEST_FIRST, [NumKind], CdcDocument(pk, a))
  {
    RecordMembers(pk, a);
    RecordMembers(pk, b);
    hide CdcDocument, Get;
    assert LexLess(NEWEST_FIRST[1..], CdcDocument(pk, a), CdcDocument(pk, b)) == false;
  }

  /** The document was written for a selected record. */
  lemma BehindDocument(pk: Path, all: seq<CDC>, coll: Bytes, id: Bytes, since: int, docs: seq<Json>,
      d: Json) returns (r: CDC)
    requires |pk| == 1 && pk[0] !in LOG_FIELDS && (forall r :: r in all ==> Readable(r))
    requires FindsSelected(pk, all, coll, id, since, docs) && d in docs
    ensures r in all && Selected(r, coll, id, since) && d == CdcDocument(pk, r) && DecodeRecord(pk, d) == r
  {
    hide CdcDocument, DecodeRecord, Selected;
    r :| r in all && Selected(r, coll, id, since) && d == CdcDocument(pk, r);
    RecordRoundTrip(pk, r);
  }

  lemma SortedRecords(pk: Path, all: seq<CDC>, coll: Bytes, id: Bytes, since: int, docs: seq<Json>, sorted: seq<Json>)
    requires |pk| == 1 && pk[0] !in LOG_FIELDS && (forall r :: r in all ==> Readable(r))
    requires FindsSelected(pk, all, coll, id, since, docs) && forall d :: d in sorted ==> d in docs
    requires forall i, j :: 0 <= i < j < |sorted| ==> !LexLess(NEWEST_FIRST, sorted[j], sorted[i])
    ensures SortedBy(Newer, DecodeAll(pk, sorted))
  {
    var records := DecodeAll(pk, sorted);
    hide CdcDocument, DecodeRecord, Selected, FindsSelected, LexLess, Readable, Newer;
    forall i, j | 0 <= i < j < |records| ensures !Newer(records[j], records[i]) {
      var a := BehindDocument(pk, all, coll, id, since, docs, sorted[i]);
      var b := BehindDocument(pk, all, coll, id, since, docs, sorted[j]);
      NewerByDocument(pk, b, a);
    }
  }

  lemma SameRecords(pk: Path, all: seq<CDC>, coll: Bytes, id: Bytes, since: int, docs: seq<Json>, sorted: seq<Json>)
    requires |pk| == 1 && pk[0] !in LOG_FIELDS && (forall r :: r in all ==> Readable(r)) && NoRepeats(all)
    requires FindsSelected(pk, all, coll, id, since, docs) && multiset(sorted) == multiset(docs)
    requires forall d :: d in sorted <==> d in docs
    ensures multiset(DecodeAll(pk, sorted)) == multiset(Select(all, coll, id, since))
  {
    var records := DecodeAll(pk, sorted);
    assert NoRepeats(docs);
    ShuffledNoRepeats(docs, sorted);
    hide CdcDocument, DecodeRecord, Selected, Readable, Select;
    forall i, j | 0 <= i < j < |records| ensures records[i] != records[j] {
      var a := BehindDocument(pk, all, coll, id, since, docs, sorted[i]);
      var b := BehindDocument(pk, all, coll, id, since, docs, sorted[j]);
      assert sorted[i] != sorted[j];
    }
    forall c ensures multiset(records)[c] == multiset(Select(all, coll, id, since))[c] {
      OnceEach(records, c);
      OnceEach(all, c);
      SelectMembers(all, coll, id, since, c);
      RecordFound(pk, all, coll, id, since, docs, sorted, c);
    }
  }

  lemma RecordFound(pk: Path, all: seq<CDC>, coll: Bytes, id: Bytes, since: int, docs: seq<Json>, sorted: seq<Json>,
      c: CDC)
    requires |pk| == 1 && pk[0] !in LOG_FIELDS && (forall r :: r in all ==> Readable(r))
    requires FindsSelected(pk, all, coll, id, since, docs) && forall d :: d in sorted <==> d in docs
    ensures c in DecodeAll(pk, sorted) <==> c in all && Selected(c, coll, id, since)
  {
    var records := DecodeAll(pk, sorted);
    hide CdcDocument, DecodeRecord, Selected, Readable, NoRepeats;
    if c in records {
      var i :| 0 <= i < |records| && records[i] == c;
      var r := BehindDocument(pk, all, coll, id, since, docs, sorted[i]);
    }
    if c in all && Selected(c, coll, id, since) {
      assert CdcDocument(pk, c) in docs;
      var i :| 0 <= i < |sorted| && sorted[i] == CdcDocument(pk, c);
      RecordRoundTrip(pk, c);
      assert records[i] == c;
    }
  }

  /** The query's answer, decoded, is the selected records, newest first. */
  lemma ReadBack(pk: Path, all: seq<CDC>, coll: Bytes, id: Bytes, since: int, docs: seq<Json>)
    requires |pk| == 1 && pk[0] !in LOG_FIELDS && (forall r :: r in all ==> Readable(r)) && NoRepeats(all)
    requires FindsSelected(pk, all, coll, id, since, docs)
    ensures Chosen(all, coll, id, since, DecodeAll(pk, Ordered(docs, NEWEST_FIRST)))
  {
    var sorted := Ordered(docs, NEWEST_FIRST);
    var records := DecodeAll(pk, sorted);
    hide CdcDocument, DecodeRecord, Selected, FindsSelected, LexLess, HasKinds, Ordered, Readable, NoRepeats;
    forall d | d in docs ensures HasKinds(NEWEST_FIRST, [NumKind], d) {
      var r := BehindDocument(pk, all, coll, id, since, docs, d);
      NewerByDocument(pk, r, r);
    }
    OrderedCorrect(docs, NEWEST_FIRST, [NumKind]);
    assert |sorted| == |docs| by { assert |multiset(sorted)| == |multiset(docs)|; }
    assert forall d :: d in sorted <==> d in multiset(sorted);
    assert forall d :: d in docs <==> d in multiset(docs);
    SortedRecords(pk, all, coll, id, since, docs, sorted);
    SameRecords(pk, all, coll, id, since, docs, sorted);
  }

  lemma SomeChosen(all: seq<CDC>, coll: Bytes, id: Bytes, since: int) returns (chosen: seq<CDC>)
    ensures Chosen(all, coll, id, since, chosen)
  {
    chosen := Sort(Newer, Select(all, coll, id, since));
    SortCorrect(Newer, (c: CDC) => true, Select(all, coll, id, since));
  }

  /** What the query for the records of a document returns, decoded. */
  lemma FoundInLog(cat: Catalog, view: View, b: Backend, t: Entries, all: seq<CDC>, coll: Bytes, id: Bytes, since: int,
      e: Explain,
        results: seq<Json>)
    requires GoodCatalog(cat) && Holds(cat, view, t) && CDC_COLLECTION in cat && CollectionReady(cat, t, CDC_COLLECTION)
    requires cat[CDC_COLLECTION].WellFormed() && LogIndexed(cat[CDC_COLLECTION]) && LogIs(cat, t, all)
    requires ValidId(id) && PlainText(coll)
    requires Answers(cat[CDC_COLLECTION], LogClauses(coll, id, since), Plan(e)) && PlanScalars(e)
    requires results == PageDocs(view, b, cat[CDC_COLLECTION], e, LogQuery(coll, id, since))
    ensures (forall c :: c in all ==> Readable(c)) ==>
        Chosen(all, coll, id, since, DecodeAll(cat[CDC_COLLECTION].pk, results))
  {
    if forall c :: c in all ==> Readable(c) {
      LogScan(cat, view, b, t, all, coll, id, since, e);
      assert |cat[CDC_COLLECTION].pk| == 1 && cat[CDC_COLLECTION].pk[0] !in LOG_FIELDS && NoRepeats(all);
      hide GoodCatalog, Holds, CollectionReady, Answers, LogIndexed, LogIs, ScanDocs, LogClauses, Readable, Chosen,
        Ordered, PlanScalars, Schema.WellFormed;
      var docs := ScanDocs(view, b, cat[CDC_COLLECTION], e, LogClauses(coll, id, since));
      ReadBack(cat[CDC_COLLECTION].pk, all, coll, id, since, docs);
    }
  }

  /** The loop of TimeTravel over the documents of the log that it got. */
  method UndoAll(pk: Path, current: Json, results: seq<Json>) returns (r: Outcome)
    ensures r == Traveled(Some(current), DecodeAll(pk, results))
  {
    hide DecodeRecord, Revert, Revertible;
    ghost var records := DecodeAll(pk, results);
    if results == [] { return NotFound; }
    var doc := new Document(current);
    for i := 0 to |results|
      invariant doc.result == RevertAll(current, records[..i])
      invariant forall c :: c in records[..i] ==> Revertible(c.diff)
    {
      var cdc := DecodeRecord(pk, results[i]);
      assert records[i] == cdc && records[i] in records;
      assert records[..i + 1][..i] == records[..i] && records[..i + 1] == records[..i] + [cdc];
      var ok := doc.RevertOps(cdc.diff);
      if !ok { return Irreversible; }
    }
    assert records[..|records|] == records;
    r := Found(doc.result);
  }
}
