/** What a query returns: the pages of a scan, and the scan as the iterator runs through it. */
module Queries {
  import opened ByteStrings
  import opened Json
  import opened Schemas
  import opened Indexing
  import opened Store
  import opened Filter
  import opened Optimizer
  import opened KvIter
  import opened Scan
  import opened Ordering

  datatype Status = Done | Failed

  datatype Query = Query(where: seq<Where>, orderBy: seq<OrderBy>, page: nat, limit: nat)

  /** Query.Validate: every clause names a field and has an operand. */
  predicate Validated(where: seq<Where>) {
    forall i :: 0 <= i < |where| ==> where[i].field != [] && where[i].value != Null
  }

  /** A collection may insist on an index; then a query none fits is refused. */
  predicate NeedsIndex(c: Schema, where: seq<Where>) {
    && where != [] && !PrimaryLookup(c, where) && c.requireIndex
    && (forall n :: n in c.indexes ==> Score(c.indexes[n], where) == 0)
  }

  /** A query is refused if and only if the collection insists on an index, the query has clauses, the first
      of which does not fix the id, and no clause can be used at its position of any index. */
  lemma RefusedWhen(c: Schema, where: seq<Where>)
    ensures NeedsIndex(c, where) <==>
      && c.requireIndex && where != [] && !(where[0].field == c.pk && where[0].op == Eq)
      && forall n, k :: n in c.indexes ==> !Usable(c.indexes[n], where, k)
  {
    hide Score, Usable;
    forall n | n in c.indexes
      ensures Score(c.indexes[n], where) == 0 <==> forall k :: !Usable(c.indexes[n], where, k)
    {
      ScoreIsUsable(c.indexes[n], where);
      UnusablePositions(c.indexes[n], where);
    }
  }

  lemma UnusablePositions(i: Index, where: seq<Where>)
    ensures UsablePositions(i, where) == {} <==> forall k :: !Usable(i, where, k)
  {
    assert forall k :: Usable(i, where, k) ==> k in UsablePositions(i, where);
  }

  /** The callback of Query stops the scan when the first page is full and needs no sorting. */
  function StopAfter(q: Query): nat {
    if q.page == 0 && q.orderBy == [] then q.limit else 0
  }

  function Cut<T>(s: seq<T>, limit: nat): seq<T> {
    if limit == 0 then s else Take(s, limit)
  }

  /** The page Query returns for a given plan. */
  function PageDocs(view: View, b: Backend, c: Schema, e: Explain, q: Query): seq<Json>
    requires PlanScalars(e)
  {
    PageOf(Ordered(ScanDocs(view, b, c, e, q.where), q.orderBy), q.page, q.limit)
  }

  /** Every document a query without a limit has to find can be compared in its ordering fields. */
  ghost predicate Orderable(cat: Catalog, t: Entries, coll: Bytes, q: Query, kinds: seq<Kind>)
    requires coll in cat
  {
    q.orderBy == [] || forall doc :: Wanted(cat, t, coll, q.where, doc) ==> HasKinds(q.orderBy, kinds, doc)
  }

  lemma SortedMembers(docs: seq<Json>, orderBys: seq<OrderBy>, kinds: seq<Kind>)
    requires NoRepeats(docs) && (orderBys == [] || forall d :: d in docs ==> HasKinds(orderBys, kinds, d))
    ensures NoRepeats(Ordered(docs, orderBys))
    ensures forall d :: d in Ordered(docs, orderBys) <==> d in docs
  {
    hide HasKinds, NoRepeats;
    if orderBys != [] {
      assert forall i :: 0 <= i < |docs| ==> docs[i] in docs;
      OrderedCorrect(docs, orderBys, kinds);
      hide Ordered;
      ShuffledNoRepeats(docs, Ordered(docs, orderBys));
      assert forall d :: d in Ordered(docs, orderBys) <==> d in multiset(docs);
    }
  }

  lemma SortedInDirection(docs: seq<Json>, orderBys: seq<OrderBy>, kinds: seq<Kind>)
    requires orderBys == [] || forall d :: d in docs ==> HasKinds(orderBys, kinds, d)
    ensures var r := Ordered(docs, orderBys);
      forall i, j, k: nat {:trigger AgreeBefore(orderBys, k, r[i], r[j])} ::
        0 <= i < j < |r| && k < |orderBys| && AgreeBefore(orderBys, k, r[i], r[j]) ==>
          InDirection(orderBys[k], Get(r[i], orderBys[k].field), Get(r[j], orderBys[k].field))
  {
    hide HasKinds, Ordered, AgreeBefore, NoLater, Get;
    var r := Ordered(docs, orderBys);
    assert forall n :: 0 <= n < |docs| ==> docs[n] in docs;
    forall i, j, k: nat | 0 <= i < j < |r| && k < |orderBys| && AgreeBefore(orderBys, k, r[i], r[j])
      ensures InDirection(orderBys[k], Get(r[i], orderBys[k].field), Get(r[j], orderBys[k].field))
    {
      OrderedCorrect(docs, orderBys, kinds);
      assert |r| == |multiset(r)| == |multiset(docs)| == |docs|;
      OrderedInDirection(docs, orderBys, kinds, i, j, k);
    }
  }

  /** What a query without a limit returns: every stored document that passes the clauses and is not missed,
      once, and no other; on every ordering field in the direction asked for, as far as the fields before it
      agree. With a limit the same result is cut into pages (`PagesConcatenate`). */
  lemma QueryAnswers(cat: Catalog, view: View, b: Backend, t: Entries, coll: Bytes, e: Explain, q: Query,
        kinds: seq<Kind>)
    requires coll in cat && ScanSetting(cat, view, t, coll, q.where, e) && Orderable(cat, t, coll, q, kinds)
    requires q.limit == 0
    ensures PlanScalars(e) && NoRepeats(PageDocs(view, b, cat[coll], e, q))
    ensures forall doc :: doc in PageDocs(view, b, cat[coll], e, q) <==>
              Wanted(cat, t, coll, q.where, doc) && !Missed(b, e, doc)
    ensures var r := PageDocs(view, b, cat[coll], e, q);
      forall i, j, k: nat {:trigger AgreeBefore(q.orderBy, k, r[i], r[j])} ::
        0 <= i < j < |r| && k < |q.orderBy| && AgreeBefore(q.orderBy, k, r[i], r[j]) ==>
          InDirection(q.orderBy[k], Get(r[i], q.orderBy[k].field), Get(r[j], q.orderBy[k].field))
  {
    hide ScanSetting, Wanted, Missed, HasKinds, NoRepeats, PlanScalars, ScanDocs, Ordered, InDirection, AgreeBefore;
    IndexScanRefinesFullScan(cat, view, b, t, coll, q.where, e);
    var docs := ScanDocs(view, b, cat[coll], e, q.where);
    SortedMembers(docs, q.orderBy, kinds);
    SortedInDirection(docs, q.orderBy, kinds);
  }

  function Rank(cat: Catalog, coll: Bytes, where: seq<Where>): nat {
    if coll in cat && PrimaryLookup(cat[coll], where) then 0 else 1
  }

  /** The cursor of a running scan stands on the next scanned key. */
  lemma ScannedKeyAt(view: View, b: Backend, coll: Bytes, e: Explain, pos: nat)
    requires PlanScalars(e) && pos <= |ScannedKeys(view, b, coll, e)|
    requires pos < |Order(view.Keys, b, ScanOpts(coll, e))|
    requires InBounds(ScanOpts(coll, e), Order(view.Keys, b, ScanOpts(coll, e))[pos])
    ensures pos < |ScannedKeys(view, b, coll, e)|
    ensures var key := Order(view.Keys, b, ScanOpts(coll, e))[pos];
            && ScannedKeys(view, b, coll, e)[pos] == key && key in view
            && HasPrefix(key, ScanOpts(coll, e).prefix.value)
  {
    var keys := Order(view.Keys, b, ScanOpts(coll, e));
    assert keys[pos] in keys;
  }

  lemma ScanFinished(view: View, b: Backend, coll: Bytes, e: Explain, pos: nat)
    requires PlanScalars(e) && pos <= |ScannedKeys(view, b, coll, e)|
    requires pos < |Order(view.Keys, b, ScanOpts(coll, e))| ==>
        !InBounds(ScanOpts(coll, e), Order(view.Keys, b, ScanOpts(coll, e))[pos])
    ensures pos == |ScannedKeys(view, b, coll, e)|
  {
  }

  lemma EmitNothing(view: View, s: Schema, i: Index, where: seq<Where>, ks: seq<Bytes>)
    ensures Emit(view, s, i, where, ks[..0]) == []
  {
  }

  lemma EmitNext(view: View, s: Schema, i: Index, where: seq<Where>, ks: seq<Bytes>, pos: nat)
    requires pos < |ks|
    ensures Emit(view, s, i, where, ks[..pos + 1]) ==
            Emit(view, s, i, where, ks[..pos]) + if Matches(where, DocFor(view, s, i, ks[pos]))
                then [DocFor(view, s, i, ks[pos])] else []
  {
    hide Matches, DocFor;
    assert ks[..pos + 1][..pos] == ks[..pos];
  }

  /** What has been emitted so far is the beginning of the whole. */
  lemma EmitSoFar(view: View, s: Schema, i: Index, where: seq<Where>, ks: seq<Bytes>, pos: nat)
    requires pos <= |ks|
    ensures var part, all := Emit(view, s, i, where, ks[..pos]), Emit(view, s, i, where, ks);
            |part| <= |all| && all[..|part|] == part
  {
    hide Emit, DocFor, Matches;
    EmitConcat(view, s, i, where, ks[..pos], ks[pos..]);
    assert ks == ks[..pos] + ks[pos..];
  }

  lemma AnswerOrRefusal(c: Schema, where: seq<Where>, r: OptimizeResult)
    requires c.WellFormed() && Answers(c, where, r)
    ensures r.IndexRequired? <==> NeedsIndex(c, where)
  {
  }

  lemma PrimaryLookupIsPrimary(c: Schema, where: seq<Where>, e: Explain)
    requires c.WellFormed() && Answers(c, where, Plan(e)) && !e.index.primary
    ensures !PrimaryLookup(c, where)
  {
    assert c.GoodIndex(c.primaryName);
  }

  lemma PrimarySlot(cat: Catalog, did: DocId)
    requires GoodCatalog(cat) && ValidDocId(cat, did)
    ensures ValidSlot(cat, Prim(cat, did)) && IndexOf(cat, Prim(cat, did)).primary
  {
    assert cat[did.coll].WellFormed() && cat[did.coll].GoodIndex(cat[did.coll].primaryName);
  }

  lemma PrimaryKeyOf(cat: Catalog, did: DocId, doc: Json)
    requires GoodCatalog(cat) && ValidDocId(cat, did) && Lookup(doc, cat[did.coll].pk) == Some(Str(did.id))
    ensures ValidSlot(cat, Prim(cat, did)) && KeyOf(cat, Prim(cat, did), doc) == PrimaryKey(cat[did.coll], did.id)
  {
    var c := cat[did.coll];
    assert c.WellFormed() && c.GoodIndex(c.primaryName) && c.collection == did.coll;
    hide Base, Tail;
    PrimaryKeyByValues(did.coll, c, doc, did.id);
  }

  /** The query for an id is valid, needs no index and is answered by the primary one. */
  lemma IdClauseFits(cat: Catalog, coll: Bytes, id: Bytes)
    requires GoodCatalog(cat) && coll in cat
    ensures var where := IdClause(cat[coll], id);
      && Validated(where) && ScalarClauses(where) && !NeedsIndex(cat[coll], where) && Rank(cat, coll, where) == 0
  {
    assert cat[coll].WellFormed();
  }

  // ----- generated ids -----

  lemma {:induction false} LongestKey(keys: set<Bytes>) returns (n: nat)
    ensures forall k :: k in keys ==> |k| <= n
  {
    n := 0;
    if keys != {} {
      var k :| k in keys;
      var m := LongestKey(keys - {k});
      n := if |k| <= m then m else |k|;
    }
  }

  /** There is always an id whose key is not taken. */
  lemma UnusedId(view: View, c: Schema) returns (id: Bytes)
    ensures ValidId(id) && PrimaryKey(c, id) !in view
  {
    var n := LongestKey(view.Keys);
    id := seq(n + 5, _ => 48);
    assert |PrimaryKey(c, id)| > n;
  }

  lemma StoredUnderKey(cat: Catalog, view: View, t: Entries, did: DocId)
    requires GoodCatalog(cat) && Holds(cat, view, t) && did.coll in cat && Prim(cat, did) in t
    ensures PrimaryKey(cat[did.coll], did.id) in view
  {
    hide PrimaryKey;
    PrimaryKeyStored(cat, view, t, did);
    assert EntryStored(cat, view, Prim(cat, did), t[Prim(cat, did)]);
  }
}
