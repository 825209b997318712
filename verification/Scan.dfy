/** An index scan returns what a scan of all documents would. */
module Scan {
  import opened ByteStrings
  import opened Json
  import opened Schemas
  import opened Indexing
  import opened Store
  import opened Filter
  import opened Optimizer
  import opened KvUtil
  import opened KvIter
  import opened Gaps

  // ----- what queryScan computes -----

  /** The iterator options of a plan: the matched values as prefix, the seek values appended. */
  function ScanOpts(coll: Bytes, e: Explain): IterOpts
    requires PlanScalars(e)
  {
    var p := Base(coll, e.index.name) + Tail(e.index.fields, e.matchedValues);
    IterOpts(Some(p), None, Some(p + Tail(e.seekFields, e.seekValues)), e.reverse)
  }

  predicate PlanScalars(e: Explain) {
    && (forall f :: f in e.matchedValues ==> Scalar(e.matchedValues[f]))
    && (forall f :: f in e.seekValues ==> Scalar(e.seekValues[f]))
  }

  function PrimaryKey(s: Schema, id: Bytes): Bytes {
    Base(s.collection, s.primaryName) + Tail([s.pk], map[s.pk := Str(id)]) + [ZERO] + id
  }

  function DocIn(view: View, k: Bytes): Json {
    if k in view && view[k].DocValue? then view[k].doc else Null
  }

  /** The document behind a scanned key: stored in the primary entry, looked up by id otherwise. */
  function DocFor(view: View, s: Schema, i: Index, k: Bytes): Json {
    if i.primary then DocIn(view, k) else DocIn(view, PrimaryKey(s, LastSegment(k)))
  }

  /** The documents of the scanned keys that pass the clauses. */
  function Emit(view: View, s: Schema, i: Index, where: seq<Where>, ks: seq<Bytes>): seq<Json> {
    if ks == [] then []
    else
      var d := DocFor(view, s, i, ks[|ks| - 1]);
      Emit(view, s, i, where, ks[..|ks| - 1]) + if Matches(where, d) then [d] else []
  }

  function ScannedKeys(view: View, b: Backend, coll: Bytes, e: Explain): seq<Bytes>
    requires PlanScalars(e)
  {
    Visited(Order(view.Keys, b, ScanOpts(coll, e)), ScanOpts(coll, e))
  }

  function ScanDocs(view: View, b: Backend, s: Schema, e: Explain, where: seq<Where>): seq<Json>
    requires PlanScalars(e)
  {
    Emit(view, s, e.index, where, ScannedKeys(view, b, s.collection, e))
  }

  // ----- which scans are covered -----

  /** The collection is not in the middle of a write. */
  ghost predicate CollectionReady(cat: Catalog, e: Entries, coll: Bytes)
    requires coll in cat
  {
    && (forall s :: s in e && s.did.coll == coll ==> Prim(cat, s.did) in e && e[s] == e[Prim(cat, s.did)])
    && (forall did: DocId, n :: did.coll == coll && Prim(cat, did) in e && n in cat[coll].indexes ==> Slot(did, n) in e)
  }

  predicate PlainValue(v: Json) {
    Scalar(v) && v != Null && !IsSelf(v)
  }

  predicate SmallNumber(v: Json) {
    v.Num? && v.n < TWO_TO_64 as real
  }

  /** The plan uses its clauses in a way the key layout can follow. */
  ghost predicate Followable(c: Schema, where: seq<Where>, e: Explain)
    requires c.WellFormed()
  {
    && Answers(c, where, Plan(e))
    && (InitialSegment(e) || PlainFields(e.index))
    && DistinctFields(where)
    && (forall i :: 0 <= i < |where| && where[i].field in e.matchedFields ==> PlainValue(where[i].value))
    && (forall i :: 0 <= i < |where| && where[i].field in e.seekFields ==> SmallNumber(where[i].value))
  }

  predicate SeekNumeric(e: Explain, doc: Json) {
    forall f :: f in e.seekFields ==> SmallNumber(Get(doc, f))
  }

  /** On badger a reverse iterator starts at the bound itself and so misses the entries whose encoded
      value equals the bound: their keys continue it. */
  predicate Skipped(b: Backend, e: Explain, doc: Json) {
    && b.Badger? && e.reverse && e.seekFields != []
    && var f := e.seekFields[0];
    && f in e.seekValues && e.seekValues[f].Num? && Get(doc, f).Num?
    && ToUint64(Get(doc, f).n) == ToUint64(e.seekValues[f].n)
  }

  /** Whether the scan misses a matching document is decided by its first gap; without a gap, by the bound. */
  ghost predicate Missed(b: Backend, e: Explain, doc: Json) {
    if exists k :: FirstGap(e, doc, k) then exists k :: FirstGap(e, doc, k) && Hides(b, e, k)
    else Skipped(b, e, doc)
  }

  // ----- what a plan says about its clauses -----

  predicate ClauseFor(where: seq<Where>, f: Path, v: Json, i: int) {
    0 <= i < |where| && where[i].field == f && where[i].value == v
  }

  lemma MatchedClause(c: Schema, where: seq<Where>, e: Explain, f: Path) returns (i: nat)
    requires c.WellFormed() && Followable(c, where, e) && f in e.matchedFields
    ensures f in e.matchedValues && ClauseFor(where, f, e.matchedValues[f], i) && where[i].op.Eq?
  {
    hide PrefixFree, Schema.WellFormed;
    if PrimaryLookup(c, where) {
      i := 0;
    } else {
      MatchedMember(e.index, where, |e.index.fields|, f);
      i :| 0 <= i < |e.index.fields| && MatchedAt(e.index, where, i) && f == e.index.fields[i];
    }
    LastOfDistinct(where, i);
  }

  lemma MatchedKeys(c: Schema, where: seq<Where>, e: Explain)
    requires c.WellFormed() && Followable(c, where, e)
    ensures forall f :: f in e.matchedValues <==> f in e.matchedFields
    ensures PlanScalars(e)
  {
    hide PrefixFree, Schema.WellFormed;
    forall f | f in e.matchedFields ensures f in e.matchedValues && Scalar(e.matchedValues[f]) {
      var i := MatchedClause(c, where, e, f);
    }
    if e.seekFields != [] { var i := SeekClause(c, where, e); }
  }

  lemma SeekOfPlan(i: Index, where: seq<Where>, e: Explain) returns (k: nat)
    requires IndexPlan(i, where, e) && DistinctFields(where) && e.seekFields != []
    requires forall a, b :: 0 <= a < b < |i.fields| ==> i.fields[a] != i.fields[b]
    ensures |e.seekFields| == 1 && e.index.fields != [] && e.seekFields[0] == e.index.fields[|e.index.fields| - 1]
    ensures e.seekFields[0] !in e.matchedFields && e.seekValues.Keys == {e.seekFields[0]}
    ensures ClauseFor(where, e.seekFields[0], e.seekValues[e.seekFields[0]], k)
    ensures IsRange(where[k].op) && (e.reverse <==> Descending(where[k].op))
  {
    hide MatchedUpTo, SeekUpTo;
    var n := |i.fields|;
    SeekShape(i, where, n);
    k := n - 1;
    var f := i.fields[k];
    assert e.seekFields == [f] && where[k].field == f;
    LastOfDistinct(where, k);
    hide LastValue;
    if f in e.matchedFields {
      MatchedMember(i, where, n, f);
    }
  }

  /** A plan seeks on at most one field, the last of its index. */
  lemma SeekClause(c: Schema, where: seq<Where>, e: Explain) returns (i: nat)
    requires c.WellFormed() && Followable(c, where, e) && e.seekFields != []
    ensures |e.seekFields| == 1 && e.index.fields != [] && e.seekFields[0] == e.index.fields[|e.index.fields| - 1]
    ensures e.seekFields[0] !in e.matchedFields && e.seekValues.Keys == {e.seekFields[0]}
    ensures ClauseFor(where, e.seekFields[0], e.seekValues[e.seekFields[0]], i)
    ensures IsRange(where[i].op) && (e.reverse <==> Descending(where[i].op))
  {
    PlanIndex(c, where, e);
    assert IndexPlan(e.index, where, e) && DistinctFields(where);
    hide PrefixFree, Schema.WellFormed, Followable, IndexPlan, DistinctFields;
    i := SeekOfPlan(e.index, where, e);
  }

  /** The plan's index is one of the collection. */
  lemma PlanIndex(c: Schema, where: seq<Where>, e: Explain)
    requires c.WellFormed() && Answers(c, where, Plan(e))
    ensures e.index.name in c.indexes && c.indexes[e.index.name] == e.index
    ensures ZeroFree(e.index.name) && c.GoodIndex(e.index.name)
  {
    assert c.GoodIndex(c.primaryName);
    assert e.index.name in c.indexes;
    assert c.GoodIndex(e.index.name);
  }

  // ----- keys of matching documents -----

  lemma DocAgreesOnMatched(c: Schema, where: seq<Where>, e: Explain, doc: Json)
    requires c.WellFormed() && Followable(c, where, e) && Matches(where, doc)
    ensures AgreesOnMatched(e, doc)
  {
    forall f | f in e.matchedFields ensures f in e.matchedValues && ScalarAt(doc, f) == Some(e.matchedValues[f]) {
      var i := MatchedClause(c, where, e, f);
      assert ClauseHolds(where[i], doc);
      EqPins(where[i], doc);
    }
  }

  /** How many positions the matched fields reach over. */
  function MatchedEnd(e: Explain, n: nat): (r: nat)
    requires n <= |e.index.fields|
    ensures r <= n && (forall j :: r <= j < n ==> e.index.fields[j] !in e.matchedFields)
    ensures r > 0 ==> e.index.fields[r - 1] in e.matchedFields
  {
    if n == 0 || e.index.fields[n - 1] in e.matchedFields then n else MatchedEnd(e, n - 1)
  }

  function Unmatched(e: Explain): seq<Path> {
    e.index.fields[MatchedEnd(e, |e.index.fields|)..]
  }

  /** No gap of the document is followed by a matched field. */
  ghost predicate NoGapBeforeMatched(e: Explain, doc: Json) {
    forall k :: Gap(e, doc, k) ==> !BeforeMatched(e, k)
  }

  /** The fields of a plan: distinct, with a value for each matched one, and at most the last one sought. */
  ghost predicate PlanShape(e: Explain) {
    && PlanScalars(e)
    && (forall a, b :: 0 <= a < b < |e.index.fields| ==> e.index.fields[a] != e.index.fields[b])
    && (forall f :: f in e.matchedValues <==> f in e.matchedFields)
    && (e.seekFields != [] ==>
          && |e.seekFields| == 1 && e.seekFields[0] !in e.matchedFields
          && e.index.fields != [] && e.seekFields[0] == e.index.fields[|e.index.fields| - 1])
  }

  lemma ShapeOf(c: Schema, where: seq<Where>, e: Explain)
    requires c.WellFormed() && Followable(c, where, e)
    ensures PlanShape(e)
  {
    MatchedKeys(c, where, e);
    PlanIndex(c, where, e);
    if e.seekFields != [] { var i := SeekClause(c, where, e); }
  }

  ghost predicate AgreesOnMatched(e: Explain, doc: Json) {
    forall f :: f in e.matchedFields ==> f in e.matchedValues && ScalarAt(doc, f) == Some(e.matchedValues[f])
  }

  /** As far as there is no gap, the entry is what the matched values make it. */
  lemma SameUpToGap(e: Explain, doc: Json, n: nat)
    requires PlanShape(e) && AgreesOnMatched(e, doc) && n <= |e.index.fields| &&
        (e.seekFields != [] ==> n < |e.index.fields|)
    requires forall k :: 0 <= k < n ==> !Gap(e, doc, k)
    ensures Tail(e.index.fields[..n], IndexedValues(e.index.fields, doc)) == Tail(e.index.fields[..n], e.matchedValues)
  {
    var dv := IndexedValues(e.index.fields, doc);
    forall f | f in e.index.fields[..n]
      ensures (f in dv <==> f in e.matchedValues) && (f in dv ==> dv[f] == e.matchedValues[f])
    {
      var k :| 0 <= k < n && e.index.fields[k] == f;
      assert !Gap(e, doc, k);
    }
    TailAgree(e.index.fields[..n], dv, e.matchedValues);
  }

  lemma NoGapUpToMatched(e: Explain, doc: Json)
    requires NoGapBeforeMatched(e, doc)
    ensures forall k :: 0 <= k < MatchedEnd(e, |e.index.fields|) ==> !Gap(e, doc, k)
  {
    hide NoGapBeforeMatched;
    forall k: nat | k < MatchedEnd(e, |e.index.fields|) ensures !Gap(e, doc, k) {
      if Gap(e, doc, k) { GapsAreLate(e, doc, k); }
    }
  }

  lemma TailsJoin(fields: seq<Path>, n: nat, dv: Values, mv: Values)
    requires n <= |fields| && (forall f :: f in dv ==> Scalar(dv[f])) && (forall f :: f in mv ==> Scalar(mv[f]))
    requires Tail(fields[..n], dv) == Tail(fields[..n], mv) && forall f :: f in fields[n..] ==> f !in mv
    ensures Tail(fields, dv) == Tail(fields, mv) + Tail(fields[n..], dv)
  {
    hide Tail;
    assert fields == fields[..n] + fields[n..];
    TailAppend(fields[..n], fields[n..], dv);
    TailAppend(fields[..n], fields[n..], mv);
    TailNone(fields[n..], mv);
    assert Tail(fields[..n], mv) + [] == Tail(fields[..n], mv);
  }

  /** Without a gap before a matched field the entry of a matching document starts with the matched values
      of the plan. */
  lemma EntryStartsWithMatched(e: Explain, doc: Json)
    requires PlanShape(e) && AgreesOnMatched(e, doc) && NoGapBeforeMatched(e, doc)
    ensures EntryTail(e.index, doc) ==
            Tail(e.index.fields, e.matchedValues) + Tail(Unmatched(e), IndexedValues(e.index.fields, doc))
  {
    var fields, n := e.index.fields, MatchedEnd(e, |e.index.fields|);
    NoGapUpToMatched(e, doc);
    hide Tail, Gap, NoGapBeforeMatched, AgreesOnMatched;
    SameUpToGap(e, doc, n);
    TailsJoin(fields, n, IndexedValues(fields, doc), e.matchedValues);
  }

  /** Where the tails of the document and of the matched values part. */
  lemma TailsPart(e: Explain, doc: Json, k: nat) returns (f: Path, t: Bytes, more: Bytes, s: Bytes)
    requires PlanShape(e) && AgreesOnMatched(e, doc) && FirstGap(e, doc, k) && BeforeMatched(e, k)
    ensures var g, dv := e.index.fields[k], IndexedValues(e.index.fields, doc);
      && g in dv && f in e.index.fields && f in e.matchedValues && f != g
      && Tail(e.index.fields, dv) == t + (FieldSegment(g, dv[g]) + more)
      && Tail(e.index.fields, e.matchedValues) == t + (FieldSegment(f, e.matchedValues[f]) + s)
  {
    var fields, dv, mv := e.index.fields, IndexedValues(e.index.fields, doc), e.matchedValues;
    SameUpToGap(e, doc, k);
    var j := NextMatched(e, k);
    f := fields[j];
    hide Tail, FirstGap, BeforeMatched, FieldSegment, AgreesOnMatched;
    TailBeginsAt(fields, dv, k, k);
    TailBeginsAt(fields, mv, k, j);
    t, more, s := Tail(fields[..k], mv), Tail(fields[k + 1..], dv), Tail(fields[j + 1..], mv);
  }

  /** With one, it does not. */
  lemma EntryParts(coll: Bytes, e: Explain, doc: Json, id: Bytes, k: nat)
    requires PlanShape(e) && AgreesOnMatched(e, doc)
    requires PlainFields(e.index) && FirstGap(e, doc, k) && BeforeMatched(e, k)
    ensures !HasPrefix(EntryKey(coll, e.index, doc, id), ScanOpts(coll, e).prefix.value)
  {
    var g, dv, mv := e.index.fields[k], IndexedValues(e.index.fields, doc), e.matchedValues;
    var f, t, more, s := TailsPart(e, doc, k);
    PlainNames(e.index, f, g);
    hide Tail, FirstGap, BeforeMatched, FieldText, FieldSegment, PlanShape, AgreesOnMatched, Base, PlainFields,
      IndexedValues, HasPrefix;
    PartedKeys(Base(coll, e.index.name) + t, g, dv[g], more + [ZERO] + id, f, mv[f], s);
    PartedKeyForm(Base(coll, e.index.name), t, FieldSegment(g, dv[g]), more, id, FieldSegment(f, mv[f]), s);
  }

  lemma PlainNames(i: Index, f: Path, g: Path)
    requires PlainFields(i) && f in i.fields && g in i.fields && f != g
    ensures ZeroFree(FieldText(f)) && ZeroFree(FieldText(g)) && FieldText(f) != FieldText(g)
  {
    var a :| 0 <= a < |i.fields| && i.fields[a] == f;
    var b :| 0 <= b < |i.fields| && i.fields[b] == g;
    assert a < b || b < a;
  }

  lemma PartedKeys(q: Bytes, g: Path, v: Json, r: Bytes, f: Path, w: Json, s: Bytes)
    requires Scalar(v) && Scalar(w)
    requires ZeroFree(FieldText(f)) && ZeroFree(FieldText(g)) && FieldText(f) != FieldText(g)
    ensures !HasPrefix(q + (FieldSegment(g, v) + r), q + (FieldSegment(f, w) + s))
  {
    NamesDecide(q, g, f, EncodeIndexValue(v) + r, EncodeIndexValue(w) + s);
    SegmentForm(g, v, r);
    SegmentForm(f, w, s);
  }

  lemma SegmentForm(f: Path, v: Json, r: Bytes)
    requires Scalar(v)
    ensures FieldSegment(f, v) + r == [ZERO] + FieldText(f) + [ZERO] + (EncodeIndexValue(v) + r)
  {
  }

  lemma PartedKeyForm(b: Bytes, t: Bytes, g: Bytes, r: Bytes, id: Bytes, f: Bytes, s: Bytes)
    ensures b + (t + (g + r)) + [ZERO] + id == (b + t) + (g + (r + [ZERO] + id))
    ensures b + (t + (f + s)) == (b + t) + (f + s)
  {
  }

  /** The first matched field after a position. */
  lemma NextMatched(e: Explain, k: nat) returns (j: nat)
    requires k < |e.index.fields| && BeforeMatched(e, k) && e.index.fields[k] !in e.matchedFields
    ensures k < j < |e.index.fields| && e.index.fields[j] in e.matchedFields
    ensures forall i :: k <= i < j ==> e.index.fields[i] !in e.matchedFields
  {
    j := k;
    while e.index.fields[j] !in e.matchedFields
      invariant k <= j < |e.index.fields| && (forall i :: k <= i < j ==> e.index.fields[i] !in e.matchedFields)
      invariant exists i :: j <= i < |e.index.fields| && e.index.fields[i] in e.matchedFields
      decreases |e.index.fields| - j
    {
      j := j + 1;
    }
  }

  // ----- where the entries of matching documents lie -----

  /** Entries whose fields differ only in one number sort by the converted number; equal numbers
      leave the bound as a prefix of the entry. */
  lemma SeekKeyOrder(q: Bytes, x: real, y: real, id: Bytes)
    ensures var k, s := q + BigEndian(ToUint64(x), 8) + [ZERO] + id, q + BigEndian(ToUint64(y), 8);
            && (ToUint64(x) < ToUint64(y) ==> LexLt(k, s))
            && (ToUint64(y) < ToUint64(x) ==> LexLt(s, k))
            && (ToUint64(x) == ToUint64(y) ==> HasPrefix(k, s) && k != s)
  {
    Width64();
    var ex, ey, rest := BigEndian(ToUint64(x), 8), BigEndian(ToUint64(y), 8), [ZERO] + id;
    hide BigEndian, ToUint64;
    assert q + ex + [ZERO] + id == q + (ex + rest);
    assert ey + [] == ey;
    LexSharedPrefix(q, ex + rest, ey);
    LexSharedPrefix(q, ey, ex + rest);
    if ToUint64(x) < ToUint64(y) {
      BigEndianOrder(ToUint64(x), ToUint64(y), 8, rest, []);
    } else if ToUint64(y) < ToUint64(x) {
      BigEndianOrder(ToUint64(y), ToUint64(x), 8, [], rest);
    }
  }

  lemma NoSeekNoReverse(c: Schema, where: seq<Where>, e: Explain)
    requires c.WellFormed() && Answers(c, where, Plan(e)) && e.seekFields == []
    ensures !e.reverse
  {
    hide PrefixFree, Schema.WellFormed;
    if IndexPlan(e.index, where, e) { SeekShape(e.index, where, |e.index.fields|); }
  }

  lemma PrefixScanOf(o: IterOpts, p: Bytes, x: Bytes)
    requires o == IterOpts(Some(p), None, Some(p + x), o.reverse) && p != [] && p[0] != 255
    requires o.reverse ==> x != [] && !AllOnes(x)
    ensures PrefixScan(o, p, p + x) && !AllOnes(p + x)
    ensures o.reverse ==> |Successor(p + x)| > |p| && HasPrefix(Successor(p + x), p)
  {
    assert (p + x)[0] == p[0];
    if o.reverse { SuccessorKeepsPrefix(p, x); }
  }

  /** The options of a followable plan make a prefix scan on both backends. */
  lemma ScanOptsGood(coll: Bytes, c: Schema, where: seq<Where>, e: Explain)
    requires c.WellFormed() && Followable(c, where, e) && PlanScalars(e)
    ensures var o := ScanOpts(coll, e); var p, s := o.prefix.value, o.seek.value;
            && PrefixScan(o, p, s) && !AllOnes(s)
            && (e.reverse ==> |Successor(s)| > |p| && HasPrefix(Successor(s), p))
  {
    var o := ScanOpts(coll, e);
    var x := Tail(e.seekFields, e.seekValues);
    assert o.prefix.value[0] == 100;
    if e.seekFields == [] {
      NoSeekNoReverse(c, where, e);
    } else {
      var i := SeekClause(c, where, e);
      OneField(e.seekFields[0], e.seekValues);
      assert e.seekFields == [e.seekFields[0]];
    }
    hide PrefixFree, Schema.WellFormed, Followable, Base, Tail;
    PrefixScanOf(o, o.prefix.value, x);
  }

  /** The range clause never puts the converted value on the wrong side of the converted bound. */
  lemma RangeSide(w: Where, doc: Json)
    requires ClauseHolds(w, doc) && IsRange(w.op) && SmallNumber(w.value) && SmallNumber(Get(doc, w.field))
    ensures var x, y := Get(doc, w.field).n, w.value.n;
            if Descending(w.op) then ToUint64(x) <= ToUint64(y) else ToUint64(y) <= ToUint64(x)
  {
    var x, y := Get(doc, w.field).n, w.value.n;
    if Descending(w.op) { ToUint64Monotone(x, y); } else { ToUint64Monotone(y, x); }
  }

  lemma SeekReachable(b: Backend, o: IterOpts, p: Bytes, q: Bytes, x: real, y: real, id: Bytes)
    requires var s := q + BigEndian(ToUint64(y), 8); PrefixScan(o, p, s) && !AllOnes(s)
    requires if o.reverse then ToUint64(x) <= ToUint64(y) else ToUint64(y) <= ToUint64(x)
    requires HasPrefix(q, p)
    ensures Reachable(b, o, q + BigEndian(ToUint64(x), 8) + [ZERO] + id)
       <==> !(b.Badger? && o.reverse && ToUint64(x) == ToUint64(y))
  {
    var k, s := q + BigEndian(ToUint64(x), 8) + [ZERO] + id, q + BigEndian(ToUint64(y), 8);
    SeekKeyOrder(q, x, y, id);
    SuccessorEmpty([]);
    assert HasPrefix(k, p);
    LexPrefix(p, k);
    hide BigEndian, ToUint64;
    if ToUint64(x) == ToUint64(y) {
      LexPrefix(s, k);
      PrefixBelowSuccessor(s, k[|s|..]);
      assert k == s + k[|s|..];
      if LexLe(k, s) { LexAntisymmetric(k, s); }
    } else if o.reverse {
      PrefixBelowSuccessor(s, []);
      assert s + [] == s;
      LexTransitive(k, s, Successor(s));
      if k == Successor(s) { LexAntisymmetric(k, s); }
    }
  }

  lemma ForwardReachable(b: Backend, o: IterOpts, p: Bytes, k: Bytes)
    requires o == IterOpts(Some(p), None, Some(p), false) && HasPrefix(k, p)
    ensures Reachable(b, o, k)
  {
    SuccessorEmpty([]);
    LexPrefix(p, k);
  }

  lemma SeekIsSmall(c: Schema, where: seq<Where>, e: Explain, i: nat)
    requires c.WellFormed() && Followable(c, where, e) && i < |where| && where[i].field in e.seekFields
    ensures SmallNumber(where[i].value)
  {
    hide Schema.WellFormed, Answers;
  }

  lemma MatchesAt(where: seq<Where>, doc: Json, i: nat)
    requires Matches(where, doc) && i < |where|
    ensures ClauseHolds(where[i], doc)
  {
  }

  /** What a matching document holds at the seek field, against the bound. */
  lemma SeekValueOf(c: Schema, where: seq<Where>, e: Explain, doc: Json) returns (f: Path, x: real, y: real)
    requires c.WellFormed() && Followable(c, where, e) && e.seekFields != []
    requires Matches(where, doc) && SeekNumeric(e, doc)
    ensures e.seekFields == [f] && e.index.fields != [] && f == e.index.fields[|e.index.fields| - 1]
    ensures f !in e.matchedFields
    ensures f in e.seekValues && e.seekValues[f] == Num(y) && Get(doc, f) == Num(x)
    ensures f in e.index.fields && ScalarAt(doc, f) == Some(Num(x))
    ensures if e.reverse then ToUint64(x) <= ToUint64(y) else ToUint64(y) <= ToUint64(x)
  {
    hide PrefixFree, Schema.WellFormed, Followable, Matches, ClauseHolds, ToUint64;
    var i := SeekClause(c, where, e);
    f := e.seekFields[0];
    assert f in e.seekFields && e.seekFields == [f];
    SeekIsSmall(c, where, e, i);
    MatchesAt(where, doc, i);
    x, y := Get(doc, f).n, e.seekValues[f].n;
    RangeSide(where[i], doc);
  }

  /** An entry that continues the matched values with one number, against a bound in the same place. */
  lemma SeekEntry(b: Backend, o: IterOpts, p: Bytes, f: Path, x: real, y: real, id: Bytes)
    requires PrefixScan(o, p, p + FieldSegment(f, Num(y))) && !AllOnes(p + FieldSegment(f, Num(y)))
    requires if o.reverse then ToUint64(x) <= ToUint64(y) else ToUint64(y) <= ToUint64(x)
    ensures Reachable(b, o, p + (FieldSegment(f, Num(x)) + [ZERO] + id))
       <==> !(b.Badger? && o.reverse && ToUint64(x) == ToUint64(y))
  {
    SeekSegments(p, f, x, y, id);
    hide FieldSegment;
    SeekReachable(b, o, p, p + ([ZERO] + FieldText(f) + [ZERO]), x, y, id);
  }

  lemma Regroup(b: Bytes, m: Bytes, r: Bytes, id: Bytes)
    ensures b + (m + r) + [ZERO] + id == (b + m) + (r + [ZERO] + id)
  {
  }

  lemma KeyAfterPrefix(coll: Bytes, c: Schema, where: seq<Where>, e: Explain, doc: Json, id: Bytes)
    returns (rest: Bytes)
    requires c.WellFormed() && Followable(c, where, e) && PlanScalars(e) && Matches(where, doc)
    requires NoGapBeforeMatched(e, doc)
    ensures rest == Tail(Unmatched(e), IndexedValues(e.index.fields, doc)) + [ZERO] + id
    ensures EntryKey(coll, e.index, doc, id) == ScanOpts(coll, e).prefix.value + rest
  {
    rest := Tail(Unmatched(e), IndexedValues(e.index.fields, doc)) + [ZERO] + id;
    hide Tail, Base, Followable, Matches, Schema.WellFormed, EntryTail, NoGapBeforeMatched, PlanShape,
      AgreesOnMatched;
    ShapeOf(c, where, e);
    DocAgreesOnMatched(c, where, e, doc);
    EntryStartsWithMatched(e, doc);
    Regroup(Base(coll, e.index.name), Tail(e.index.fields, e.matchedValues),
            Tail(Unmatched(e), IndexedValues(e.index.fields, doc)), id);
  }

  /** A position that is neither used nor a gap holds nothing. */
  lemma NothingHeld(e: Explain, doc: Json, i: nat)
    requires PlanShape(e) && i < |e.index.fields| && (e.seekFields != [] ==> i + 1 < |e.index.fields|)
    requires e.index.fields[i] !in e.matchedFields && !Gap(e, doc, i)
    ensures e.index.fields[i] !in IndexedValues(e.index.fields, doc)
  {
  }

  /** Between the matched fields and a position before which there is no gap, nothing is held. */
  lemma NothingBetween(e: Explain, doc: Json, k: nat)
    requires PlanShape(e) && k <= |e.index.fields| && (e.seekFields != [] ==> k < |e.index.fields|)
    requires forall i :: 0 <= i < k ==> !Gap(e, doc, i)
    ensures forall i :: MatchedEnd(e, |e.index.fields|) <= i < k ==>
              e.index.fields[i] !in IndexedValues(e.index.fields, doc)
  {
    forall i | MatchedEnd(e, |e.index.fields|) <= i < k
      ensures e.index.fields[i] !in IndexedValues(e.index.fields, doc)
    {
      assert !Gap(e, doc, i);
      NothingHeld(e, doc, i);
    }
  }

  lemma MatchedBeforeSeek(e: Explain)
    requires PlanShape(e) && e.seekFields != []
    ensures MatchedEnd(e, |e.index.fields|) < |e.index.fields|
  {
  }

  /** Without gaps only the seek field is left behind the matched ones. */
  lemma OnlySeekIsLeft(e: Explain, doc: Json, f: Path)
    requires PlanShape(e) && e.seekFields == [f] && ScalarAt(doc, f).Some? && forall k :: !Gap(e, doc, k)
    ensures Tail(Unmatched(e), IndexedValues(e.index.fields, doc)) == FieldSegment(f, ScalarAt(doc, f).value)
  {
    var fields, dv, n := e.index.fields, IndexedValues(e.index.fields, doc), MatchedEnd(e, |e.index.fields|);
    NothingBetween(e, doc, |fields| - 1);
    MatchedBeforeSeek(e);
    assert fields[|fields| - 1] == f;
    assert f in dv && dv[f] == ScalarAt(doc, f).value;
    hide Tail, FieldSegment, Gap, PlanShape, MatchedEnd, IndexedValues, ScalarAt;
    TailBeginsFrom(fields, dv, n, |fields| - 1);
    assert fields[|fields|..] == [];
    NoTail(dv);
    assert FieldSegment(f, dv[f]) + [] == FieldSegment(f, dv[f]);
  }

  lemma GapsAreLate(e: Explain, doc: Json, k: nat)
    requires Gap(e, doc, k) && NoGapBeforeMatched(e, doc)
    ensures k >= MatchedEnd(e, |e.index.fields|)
  {
    var n := MatchedEnd(e, |e.index.fields|);
    forall j: nat | j + 1 < n ensures BeforeMatched(e, j) {
      assert e.index.fields[n - 1] in e.matchedFields;
    }
  }

  /** With a gap behind the matched fields, the first one comes next in the entry. */
  lemma GapComesFirst(e: Explain, doc: Json, k: nat) returns (more: Bytes)
    requires PlanShape(e) && FirstGap(e, doc, k) && NoGapBeforeMatched(e, doc)
    ensures Tail(Unmatched(e), IndexedValues(e.index.fields, doc)) ==
      FieldSegment(e.index.fields[k], ScalarAt(doc, e.index.fields[k]).value) + more
  {
    var fields, dv, n := e.index.fields, IndexedValues(e.index.fields, doc), MatchedEnd(e, |e.index.fields|);
    GapsAreLate(e, doc, k);
    NothingBetween(e, doc, k);
    assert fields[k] in dv && dv[fields[k]] == ScalarAt(doc, fields[k]).value;
    hide Tail, FieldSegment, Gap, FirstGap, NoGapBeforeMatched, PlanShape, IndexedValues, ScalarAt, MatchedEnd;
    TailBeginsFrom(fields, dv, n, k);
    more := Tail(fields[k + 1..], dv);
  }

  lemma UsedFirst(e: Explain, k: nat)
    requires InitialSegment(e) && k < |e.matchedFields| + |e.seekFields|
    ensures k < |e.index.fields|
    ensures e.index.fields[k] ==
        if k < |e.matchedFields| then e.matchedFields[k] else e.seekFields[k - |e.matchedFields|]
  {
    assert (e.matchedFields + e.seekFields)[k] == e.index.fields[..|e.matchedFields| + |e.seekFields|][k];
  }

  /** A plan that uses an initial segment of its index passes over no gap. */
  lemma InitialHidesNothing(e: Explain, b: Backend, doc: Json, k: nat)
    requires PlanShape(e) && InitialSegment(e) && Gap(e, doc, k)
    ensures !Hides(b, e, k) && e.seekFields == []
  {
    var m, fields := |e.matchedFields|, e.index.fields;
    if k < m + |e.seekFields| { UsedFirst(e, k); }
    if |e.seekFields| > 0 { UsedFirst(e, |e.matchedFields|); }
    forall j | 0 <= j < |fields| && k < j ensures fields[j] !in e.matchedFields {
      if i :| 0 <= i < m && e.matchedFields[i] == fields[j] { UsedFirst(e, i); }
    }
  }

  lemma InitialMissesOnlySkipped(e: Explain, b: Backend, doc: Json)
    requires PlanShape(e) && InitialSegment(e)
    ensures Missed(b, e, doc) <==> Skipped(b, e, doc)
  {
    if exists k :: FirstGap(e, doc, k) {
      forall j: nat | FirstGap(e, doc, j) ensures !Hides(b, e, j) && e.seekFields == [] {
        InitialHidesNothing(e, b, doc, j);
      }
    }
  }

  /** The entry of a matching document carries the prefix of the scan and is reached by the iterator,
      unless the scan misses it. */
  lemma EntryReachable(b: Backend, coll: Bytes, c: Schema, where: seq<Where>, e: Explain, doc: Json, id: Bytes)
    requires c.WellFormed() && Followable(c, where, e) && PlanScalars(e) && ValidId(id)
    requires Matches(where, doc) && SeekNumeric(e, doc)
    ensures var o, k := ScanOpts(coll, e), EntryKey(coll, e.index, doc, id);
            HasPrefix(k, o.prefix.value) && Reachable(b, o, k) <==> !Missed(b, e, doc)
  {
    hide Schema.WellFormed, Followable, Matches, SeekNumeric, EntryKey, Reachable, Hides, Skipped, ScanOpts, Gap,
      PlanScalars;
    FirstGaps(e, doc);
    if k: nat :| FirstGap(e, doc, k) {
      GapReachable(b, coll, c, where, e, doc, id, k);
    } else {
      GaplessReachable(b, coll, c, where, e, doc, id);
    }
  }

  /** There is at most one first gap, and none only if there is no gap. */
  lemma FirstGaps(e: Explain, doc: Json)
    ensures forall j, k :: FirstGap(e, doc, j) && FirstGap(e, doc, k) ==> j == k
    ensures forall k :: FirstGap(e, doc, k) ==> k >= 0
    ensures (forall k: nat :: !FirstGap(e, doc, k)) ==> forall k :: !Gap(e, doc, k)
  {
    forall k | Gap(e, doc, k) ensures exists j: nat :: FirstGap(e, doc, j) {
      var j := FirstGapExists(e, doc, k);
    }
  }

  lemma GaplessReachable(b: Backend, coll: Bytes, c: Schema, where: seq<Where>, e: Explain, doc: Json, id: Bytes)
    requires c.WellFormed() && Followable(c, where, e) && PlanScalars(e)
    requires Matches(where, doc) && SeekNumeric(e, doc) && forall k :: !Gap(e, doc, k)
    ensures var o, k := ScanOpts(coll, e), EntryKey(coll, e.index, doc, id);
            HasPrefix(k, o.prefix.value) && (Reachable(b, o, k) <==> !Skipped(b, e, doc))
  {
    hide Tail, Base, Followable, Matches, Schema.WellFormed, EntryKey, Reachable, Gap, PlanShape;
    var o, p := ScanOpts(coll, e), ScanOpts(coll, e).prefix.value;
    var rest := KeyAfterPrefix(coll, c, where, e, doc, id);
    ScanOptsGood(coll, c, where, e);
    if e.seekFields == [] {
      NoTail(e.seekValues);
      PlanWithoutSeek(c, where, e);
      assert p + [] == p;
      ForwardReachable(b, o, p, p + rest);
    } else {
      var f, x, y := SeekValueOf(c, where, e, doc);
      ShapeOf(c, where, e);
      OnlySeekIsLeft(e, doc, f);
      OneField(f, e.seekValues);
      SeekEntry(b, o, p, f, x, y, id);
    }
  }

  lemma GapReachable(b: Backend, coll: Bytes, c: Schema, where: seq<Where>, e: Explain, doc: Json, id: Bytes, k: nat)
    requires c.WellFormed() && Followable(c, where, e) && PlanScalars(e) && ValidId(id)
    requires Matches(where, doc) && SeekNumeric(e, doc) && FirstGap(e, doc, k)
    ensures var o, key := ScanOpts(coll, e), EntryKey(coll, e.index, doc, id);
            HasPrefix(key, o.prefix.value) && Reachable(b, o, key) <==> !Hides(b, e, k)
  {
    if BeforeMatched(e, k) {
      ShapeOf(c, where, e);
      if InitialSegment(e) { InitialHidesNothing(e, b, doc, k); }
      assert PlainFields(e.index);
      DocAgreesOnMatched(c, where, e, doc);
      hide Followable, PlanShape, AgreesOnMatched, FirstGap, BeforeMatched, Matches, Schema.WellFormed, EntryKey,
        ScanOpts;
      EntryParts(coll, e, doc, id, k);
    } else {
      assert NoGapBeforeMatched(e, doc) by { FirstIsEnough(e, doc, k); }
      LateGapReachable(b, coll, c, where, e, doc, id, k);
    }
  }

  lemma FirstIsEnough(e: Explain, doc: Json, k: nat)
    requires FirstGap(e, doc, k) && !BeforeMatched(e, k)
    ensures NoGapBeforeMatched(e, doc)
  {
  }

  lemma LateGapReachable(b: Backend, coll: Bytes, c: Schema, where: seq<Where>, e: Explain, doc: Json, id: Bytes,
      k: nat)
    requires c.WellFormed() && Followable(c, where, e) && PlanScalars(e) && ValidId(id)
    requires Matches(where, doc) && SeekNumeric(e, doc) && FirstGap(e, doc, k)
    requires NoGapBeforeMatched(e, doc) && !BeforeMatched(e, k)
    ensures var o, key := ScanOpts(coll, e), EntryKey(coll, e.index, doc, id);
            HasPrefix(key, o.prefix.value) && (Reachable(b, o, key) <==> !Hides(b, e, k))
  {
    assert k < |e.index.fields|;
    hide Tail, Base, Followable, Matches, Schema.WellFormed, EntryKey, Reachable, Gap, PlanShape;
    var o, p := ScanOpts(coll, e), ScanOpts(coll, e).prefix.value;
    var rest := KeyAfterPrefix(coll, c, where, e, doc, id);
    ScanOptsGood(coll, c, where, e);
    if e.seekFields == [] {
      NoTail(e.seekValues);
      PlanWithoutSeek(c, where, e);
      assert p + [] == p;
      ForwardReachable(b, o, p, p + rest);
    } else {
      var f, x, y := SeekValueOf(c, where, e, doc);
      var g := e.index.fields[k];
      ShapeOf(c, where, e);
      var more := GapComesFirst(e, doc, k);
      OneField(f, e.seekValues);
      GapFields(c, where, e, b, doc, k);
      GapEntry(b, o, p, g, ScalarAt(doc, g).value, more, f, y, id);
    }
  }

  lemma GapFields(c: Schema, where: seq<Where>, e: Explain, b: Backend, doc: Json, k: nat)
    requires c.WellFormed() && Followable(c, where, e) && FirstGap(e, doc, k) && e.seekFields != []
    ensures var f, g := e.seekFields[0], e.index.fields[k];
      ZeroFree(FieldText(f)) && ZeroFree(FieldText(g)) && FieldText(f) != FieldText(g) && ScalarAt(doc, g).Some?
  {
    ShapeOf(c, where, e);
    if InitialSegment(e) { InitialHidesNothing(e, b, doc, k); }
    PlainNames(e.index, e.seekFields[0], e.index.fields[k]);
  }

  /** An entry that continues the matched values with another field than the bound. */
  lemma GapEntry(b: Backend, o: IterOpts, p: Bytes, g: Path, v: Json, more: Bytes, f: Path, y: real, id: Bytes)
    requires ZeroFree(FieldText(f)) && ZeroFree(FieldText(g)) && FieldText(f) != FieldText(g) && Scalar(v)
    requires ValidId(id)
    requires PrefixScan(o, p, p + FieldSegment(f, Num(y)))
    ensures Reachable(b, o, p + (FieldSegment(g, v) + more + [ZERO] + id)) <==>
      if o.reverse then !TextBefore(f, g) else !(b.Badger? && TextBefore(g, f))
  {
    var r, z := EncodeIndexValue(v) + (more + [ZERO] + id), EncodeIndexValue(Num(y));
    assert r[|r| - 1] == id[|id| - 1];
    SegmentForm(g, v, more + [ZERO] + id);
    assert FieldSegment(g, v) + more + [ZERO] + id == FieldSegment(g, v) + (more + [ZERO] + id);
    assert FieldSegment(f, Num(y)) == [ZERO] + FieldText(f) + [ZERO] + z;
    hide FieldSegment, Reachable, TextBefore;
    ReachAcrossNames(b, o, p, g, f, r, z);
  }

  lemma PlanWithoutSeek(c: Schema, where: seq<Where>, e: Explain)
    requires c.WellFormed() && Followable(c, where, e) && e.seekFields == []
    ensures !e.reverse
  {
    NoSeekNoReverse(c, where, e);
  }

  lemma SeekSegments(p: Bytes, f: Path, x: real, y: real, id: Bytes)
    ensures var q := p + ([ZERO] + FieldText(f) + [ZERO]);
            && p + (FieldSegment(f, Num(x)) + [ZERO] + id) == q + BigEndian(ToUint64(x), 8) + [ZERO] + id
            && p + FieldSegment(f, Num(y)) == q + BigEndian(ToUint64(y), 8)
  {
  }

  // ----- the scanned keys -----

  lemma PrefixTransitive(k: Bytes, p: Bytes, b: Bytes)
    requires HasPrefix(k, p) && HasPrefix(p, b)
    ensures HasPrefix(k, b)
  {
    assert k[..|b|] == k[..|p|][..|b|];
  }

  lemma IndexFacts(cat: Catalog, coll: Bytes, name: Bytes)
    requires GoodCatalog(cat) && coll in cat && name in cat[coll].indexes
    ensures ZeroFree(coll) && ZeroFree(name) && cat[coll].indexes[name].name == name
    ensures cat[coll].indexes[name].primary <==> name == cat[coll].primaryName
    ensures forall m :: m in cat[coll].indexes && HasPrefix(m, name) ==> m == name
  {
    assert cat[coll].WellFormed() && cat[coll].GoodIndex(name);
  }

  lemma SameIndex(coll: Bytes, i: Index, k: Bytes, coll': Bytes, i': Index, doc: Json, id: Bytes)
    requires ZeroFree(coll) && ZeroFree(coll') && ZeroFree(i.name) && ZeroFree(i'.name)
    requires k == EntryKey(coll', i', doc, id) && HasPrefix(k, Base(coll, i.name))
    ensures coll == coll' && HasPrefix(i'.name, i.name)
  {
    var r := EntryRest(coll', i', doc, id);
    hide EntryKey, Base;
    KeyBase(coll, i.name, k, coll', i'.name, r);
  }

  /** A key that starts like those of an index is an entry of that index. */
  lemma KeyUnderBase(cat: Catalog, view: View, t: Entries, coll: Bytes, name: Bytes, k: Bytes)
    requires GoodCatalog(cat) && Holds(cat, view, t) && coll in cat && k in view
    requires name in cat[coll].indexes && HasPrefix(k, Base(coll, name))
    ensures var s := SlotOf(k); s in t && s == Slot(DocId(coll, LastSegment(k)), name) && k == KeyOf(cat, s, t[s])
  {
    assert KeyJustified(cat, view, t, k);
    var s := SlotOf(k);
    IndexFacts(cat, coll, name);
    IndexFacts(cat, s.did.coll, s.name);
    hide GoodCatalog, Schema.WellFormed, EntryKey, Holds, Base;
    SameIndex(coll, cat[coll].indexes[name], k, s.did.coll, IndexOf(cat, s), t[s], s.did.id);
  }

  /** A key under the scan's prefix is the entry of some document in the scanned index. */
  lemma KeyUnderPrefix(cat: Catalog, view: View, t: Entries, coll: Bytes, e: Explain, k: Bytes)
    requires GoodCatalog(cat) && Holds(cat, view, t) && coll in cat && k in view && PlanScalars(e)
    requires e.index.name in cat[coll].indexes && cat[coll].indexes[e.index.name] == e.index
    requires HasPrefix(k, ScanOpts(coll, e).prefix.value)
    ensures var s := SlotOf(k);
            s in t && s == Slot(DocId(coll, LastSegment(k)), e.index.name) && k == KeyOf(cat, s, t[s])
  {
    hide GoodCatalog, Tail, Holds, Base;
    PrefixTransitive(k, ScanOpts(coll, e).prefix.value, Base(coll, e.index.name));
    KeyUnderBase(cat, view, t, coll, e.index.name, k);
  }

  lemma KeyBase(coll: Bytes, name: Bytes, k: Bytes, coll': Bytes, name': Bytes, r: Bytes)
    requires ZeroFree(coll) && ZeroFree(coll') && ZeroFree(name) && ZeroFree(name')
    requires k == Base(coll', name') + ([ZERO] + r) && HasPrefix(k, Base(coll, name))
    ensures coll == coll' && HasPrefix(name', name)
  {
    assert k == Base(coll', name') + [ZERO] + r;
    PrefixOfBase(coll, name, k, coll', name', r);
  }

  /** The primary entry of a stored document lies at the key computed from its id. */
  lemma PrimaryKeyStored(cat: Catalog, view: View, t: Entries, did: DocId)
    requires GoodCatalog(cat) && Holds(cat, view, t) && did.coll in cat && Prim(cat, did) in t
    ensures DocIn(view, PrimaryKey(cat[did.coll], did.id)) == t[Prim(cat, did)]
    ensures KeyOf(cat, Prim(cat, did), t[Prim(cat, did)]) == PrimaryKey(cat[did.coll], did.id)
  {
    var s, doc := Prim(cat, did), t[Prim(cat, did)];
    assert EntryStored(cat, view, s, doc);
    var c := cat[did.coll];
    assert c.WellFormed() && c.GoodIndex(c.primaryName);
    PrimaryKeyByValues(did.coll, c, doc, did.id);
    KeyOfSlot(cat, s, doc);
    assert KeyJustified(cat, view, t, KeyOf(cat, s, doc));
  }

  /** What a scanned key stands for. */
  ghost predicate StandsFor(cat: Catalog, view: View, t: Entries, coll: Bytes, e: Explain, k: Bytes)
    requires coll in cat
  {
    var did := DocId(coll, LastSegment(k));
    && Prim(cat, did) in t
    && ValidId(did.id)
    && DocFor(view, cat[coll], e.index, k) == t[Prim(cat, did)]
    && Lookup(t[Prim(cat, did)], cat[coll].pk) == Some(Str(did.id))
  }

  lemma ScannedKeyStandsFor(cat: Catalog, view: View, t: Entries, coll: Bytes, e: Explain, k: Bytes)
    requires GoodCatalog(cat) && Holds(cat, view, t) && coll in cat && CollectionReady(cat, t, coll)
    requires k in view && PlanScalars(e)
    requires e.index.name in cat[coll].indexes && cat[coll].indexes[e.index.name] == e.index
    requires HasPrefix(k, ScanOpts(coll, e).prefix.value)
    ensures StandsFor(cat, view, t, coll, e, k)
  {
    KeyUnderPrefix(cat, view, t, coll, e, k);
    var s := SlotOf(k);
    var did := DocId(coll, LastSegment(k));
    assert Prim(cat, did) in t && t[s] == t[Prim(cat, did)];
    PrimaryKeyStored(cat, view, t, did);
    assert EntryStored(cat, view, Prim(cat, did), t[Prim(cat, did)]);
    assert cat[coll].WellFormed() && cat[coll].GoodIndex(e.index.name);
    hide GoodCatalog, Schema.WellFormed, Holds, EntryKey;
    if e.index.primary { assert s == Prim(cat, did); }
  }

  // ----- the theorem -----

  ghost predicate Stored(cat: Catalog, t: Entries, did: DocId, doc: Json)
    requires did.coll in cat
  {
    Prim(cat, did) in t && t[Prim(cat, did)] == doc
  }

  /** The document is in the collection and passes the clauses. */
  ghost predicate Wanted(cat: Catalog, t: Entries, coll: Bytes, where: seq<Where>, doc: Json)
    requires coll in cat
  {
    && Get(doc, cat[coll].pk).Str?
    && Stored(cat, t, DocId(coll, Get(doc, cat[coll].pk).s), doc)
    && Matches(where, doc)
  }

  predicate NoRepeats<T(==)>(docs: seq<T>) {
    forall i, j :: 0 <= i < j < |docs| ==> docs[i] != docs[j]
  }

  ghost predicate Behind(view: View, s: Schema, i: Index, ks: seq<Bytes>, d: Json) {
    exists k :: k in ks && DocFor(view, s, i, k) == d
  }

  lemma {:induction false} EmitMembers(view: View, s: Schema, i: Index, where: seq<Where>, ks: seq<Bytes>, d: Json)
    ensures d in Emit(view, s, i, where, ks) <==> Matches(where, d) && Behind(view, s, i, ks, d)
  {
    hide DocFor, Matches;
    if ks != [] {
      var init, last := ks[..|ks| - 1], ks[|ks| - 1];
      assert ks == init + [last];
      EmitMembers(view, s, i, where, init, d);
      assert Behind(view, s, i, ks, d) <==> Behind(view, s, i, init, d) || DocFor(view, s, i, last) == d by {
        assert last in ks;
      }
    }
  }

  lemma {:induction false} EmitNoRepeats(view: View, s: Schema, i: Index, where: seq<Where>, ks: seq<Bytes>)
    requires forall a, b :: 0 <= a < b < |ks| ==> DocFor(view, s, i, ks[a]) != DocFor(view, s, i, ks[b])
    ensures NoRepeats(Emit(view, s, i, where, ks))
  {
    if ks != [] {
      var init := ks[..|ks| - 1];
      EmitNoRepeats(view, s, i, where, init);
      var d := DocFor(view, s, i, ks[|ks| - 1]);
      EmitMembers(view, s, i, where, init, d);
      assert !Behind(view, s, i, init, d);
    }
  }

  /** The premises under which a scan is compared with the collection. */
  ghost predicate ScanSetting(cat: Catalog, view: View, t: Entries, coll: Bytes, where: seq<Where>, e: Explain) {
    && GoodCatalog(cat) && Holds(cat, view, t) && coll in cat && CollectionReady(cat, t, coll)
    && cat[coll].WellFormed() && Followable(cat[coll], where, e)
    && (forall doc :: Wanted(cat, t, coll, where, doc) ==> SeekNumeric(e, doc))
  }

  lemma SettingScalars(cat: Catalog, view: View, t: Entries, coll: Bytes, where: seq<Where>, e: Explain)
    requires ScanSetting(cat, view, t, coll, where, e)
    ensures PlanScalars(e)
    ensures e.index.name in cat[coll].indexes && cat[coll].indexes[e.index.name] == e.index
  {
    MatchedKeys(cat[coll], where, e);
    PlanIndex(cat[coll], where, e);
  }

  lemma VisitedKey(cat: Catalog, view: View, b: Backend, t: Entries, coll: Bytes, where: seq<Where>, e: Explain,
        k: Bytes)
    requires ScanSetting(cat, view, t, coll, where, e) && PlanScalars(e)
    ensures var o := ScanOpts(coll, e);
            k in ScannedKeys(view, b, coll, e) <==> k in view && HasPrefix(k, o.prefix.value) && Reachable(b, o, k)
  {
    ScanOptsGood(coll, cat[coll], where, e);
    var o := ScanOpts(coll, e);
    hide ScanSetting, Reachable, Followable, GoodCatalog, Holds;
    PrefixScanComplete(view.Keys, b, o, o.prefix.value, o.seek.value, k);
  }

  lemma ScannedIsStored(cat: Catalog, view: View, b: Backend, t: Entries, coll: Bytes, where: seq<Where>, e: Explain,
        k: Bytes)
    requires ScanSetting(cat, view, t, coll, where, e) && PlanScalars(e) && k in ScannedKeys(view, b, coll, e)
    ensures StandsFor(cat, view, t, coll, e, k)
  {
    SettingScalars(cat, view, t, coll, where, e);
    VisitedKey(cat, view, b, t, coll, where, e, k);
    ScannedKeyStandsFor(cat, view, t, coll, e, k);
  }

  /** A matching document is met by the scan, unless it is missed. */
  lemma WantedIsScanned(cat: Catalog, view: View, b: Backend, t: Entries, coll: Bytes, where: seq<Where>, e: Explain,
        doc: Json)
    requires ScanSetting(cat, view, t, coll, where, e) && PlanScalars(e) && Wanted(cat, t, coll, where, doc)
    ensures Behind(view, cat[coll], e.index, ScannedKeys(view, b, coll, e), doc) <==> !Missed(b, e, doc)
  {
    var c := cat[coll];
    SettingScalars(cat, view, t, coll, where, e);
    assert SeekNumeric(e, doc) && CollectionReady(cat, t, coll) && GoodCatalog(cat) && Holds(cat, view, t);
    var did := DocId(coll, Get(doc, c.pk).s);
    var s := Slot(did, e.index.name);
    assert s in t && t[s] == doc;
    assert EntryStored(cat, view, s, doc);
    var key := KeyOf(cat, s, doc);
    EntryReachable(b, coll, c, where, e, doc, did.id);
    VisitedKey(cat, view, b, t, coll, where, e, key);
    KeyOfSlot(cat, s, doc);
    if key in ScannedKeys(view, b, coll, e) {
      ScannedIsStored(cat, view, b, t, coll, where, e, key);
      assert DocFor(view, c, e.index, key) == doc;
    }
    forall k | k in ScannedKeys(view, b, coll, e) && DocFor(view, c, e.index, k) == doc ensures k == key {
      ScannedIsStored(cat, view, b, t, coll, where, e, k);
      VisitedKey(cat, view, b, t, coll, where, e, k);
      KeyUnderPrefix(cat, view, t, coll, e, k);
    }
  }

  lemma DistinctKeysDistinctDocs(cat: Catalog, view: View, b: Backend, t: Entries, coll: Bytes, where: seq<Where>,
        e: Explain,
      i: nat, j: nat)
    requires ScanSetting(cat, view, t, coll, where, e) && PlanScalars(e) && i < j < |ScannedKeys(view, b, coll, e)|
    ensures var ks := ScannedKeys(view, b, coll, e);
            DocFor(view, cat[coll], e.index, ks[i]) != DocFor(view, cat[coll], e.index, ks[j])
  {
    var ks := ScannedKeys(view, b, coll, e);
    VisitedDistinct(view.Keys, b, ScanOpts(coll, e), i, j);
    assert ks[i] in ks && ks[j] in ks;
    SettingScalars(cat, view, t, coll, where, e);
    ScannedIsStored(cat, view, b, t, coll, where, e, ks[i]);
    ScannedIsStored(cat, view, b, t, coll, where, e, ks[j]);
    VisitedKey(cat, view, b, t, coll, where, e, ks[i]);
    VisitedKey(cat, view, b, t, coll, where, e, ks[j]);
    KeyUnderPrefix(cat, view, t, coll, e, ks[i]);
    KeyUnderPrefix(cat, view, t, coll, e, ks[j]);
  }

  /** The index scan refines the full scan. For every plan Optimize may pick and every store that agrees with
      its documents, the scan hands over each document that passes the clauses exactly once, no other
      document, and misses exactly these: the documents whose first scalar at an unused position of the
      index hides them from the scan and, on badger, those without one whose converted value equals the
      converted bound of a descending scan. */
  lemma IndexScanRefinesFullScan(cat: Catalog, view: View, b: Backend, t: Entries, coll: Bytes, where: seq<Where>,
        e: Explain)
    requires ScanSetting(cat, view, t, coll, where, e)
    ensures PlanScalars(e)
    ensures NoRepeats(ScanDocs(view, b, cat[coll], e, where))
    ensures forall doc :: doc in ScanDocs(view, b, cat[coll], e, where) <==>
              Wanted(cat, t, coll, where, doc) && !Missed(b, e, doc)
  {
    SettingScalars(cat, view, t, coll, where, e);
    var c, ks := cat[coll], ScannedKeys(view, b, coll, e);
    assert c.collection == coll;
    forall i, j | 0 <= i < j < |ks| ensures DocFor(view, c, e.index, ks[i]) != DocFor(view, c, e.index, ks[j]) {
      DistinctKeysDistinctDocs(cat, view, b, t, coll, where, e, i, j);
    }
    EmitNoRepeats(view, c, e.index, where, ks);
    forall doc
      ensures doc in ScanDocs(view, b, c, e, where) <==> Wanted(cat, t, coll, where, doc) && !Missed(b, e, doc)
    {
      EmitMembers(view, c, e.index, where, ks, doc);
      ScannedDoc(cat, view, b, t, coll, where, e, doc);
    }
  }

  lemma {:induction false} OnceEach<T>(docs: seq<T>, d: T)
    requires NoRepeats(docs)
    ensures multiset(docs)[d] == if d in docs then 1 else 0
  {
    if docs != [] {
      var init := docs[..|docs| - 1];
      assert docs == init + [docs[|docs| - 1]];
      OnceEach(init, d);
    }
  }

  lemma CountedTwice<T>(s: seq<T>, i: nat, j: nat)
    requires i < j < |s| && s[i] == s[j]
    ensures multiset(s)[s[i]] >= 2
  {
    assert s == s[..j] + s[j..];
    assert s[..j][i] == s[j..][0] == s[i];
  }

  lemma ShuffledNoRepeats<T(!new)>(a: seq<T>, b: seq<T>)
    requires NoRepeats(a) && multiset(b) == multiset(a)
    ensures NoRepeats(b)
  {
    forall i, j | 0 <= i < j < |b| ensures b[i] != b[j] {
      OnceEach(a, b[i]);
      if b[i] == b[j] { CountedTwice(b, i, j); }
    }
  }

  lemma SameMembers<T(!new)>(a: seq<T>, b: seq<T>)
    requires NoRepeats(a) && NoRepeats(b)
    ensures multiset(a) == multiset(b) <==> forall d :: d in a <==> d in b
  {
    forall d ensures multiset(a)[d] == (if d in a then 1 else 0) && multiset(b)[d] == if d in b then 1 else 0 {
      OnceEach(a, d);
      OnceEach(b, d);
    }
    if forall d :: d in a <==> d in b {
      assert forall d :: multiset(a)[d] == multiset(b)[d];
    }
    if multiset(a) == multiset(b) {
      assert forall d :: d in a <==> d in multiset(a);
    }
  }

  /** Two plans yield the same documents, up to order, exactly if they miss the same ones. */
  lemma PlansAgreeExactly(cat: Catalog, view: View, b: Backend, t: Entries, coll: Bytes, where: seq<Where>,
        e: Explain, e': Explain)
    requires ScanSetting(cat, view, t, coll, where, e) && ScanSetting(cat, view, t, coll, where, e')
    ensures PlanScalars(e) && PlanScalars(e')
    ensures multiset(ScanDocs(view, b, cat[coll], e, where)) == multiset(ScanDocs(view, b, cat[coll], e', where))
       <==> forall doc :: Wanted(cat, t, coll, where, doc) ==> (Missed(b, e, doc) <==> Missed(b, e', doc))
  {
    IndexScanRefinesFullScan(cat, view, b, t, coll, where, e);
    IndexScanRefinesFullScan(cat, view, b, t, coll, where, e');
    hide ScanSetting, ScanDocs, Wanted, NoRepeats, Missed;
    SameMembers(ScanDocs(view, b, cat[coll], e, where), ScanDocs(view, b, cat[coll], e', where));
  }

  /** So among plans that pass over no position the choice is invisible, on TiKV or for ascending scans. */
  lemma AnyPlanSameDocuments(cat: Catalog, view: View, b: Backend, t: Entries, coll: Bytes, where: seq<Where>,
        e: Explain, e': Explain)
    requires ScanSetting(cat, view, t, coll, where, e) && ScanSetting(cat, view, t, coll, where, e')
    requires InitialSegment(e) && InitialSegment(e')
    requires b.TiKV? || (!e.reverse && !e'.reverse)
    ensures PlanScalars(e) && PlanScalars(e')
    ensures multiset(ScanDocs(view, b, cat[coll], e, where)) == multiset(ScanDocs(view, b, cat[coll], e', where))
  {
    assert Followable(cat[coll], where, e) && Followable(cat[coll], where, e') && cat[coll].WellFormed();
    hide ScanSetting, ScanDocs, Wanted, Missed, Followable, PlanShape, Schema.WellFormed;
    ShapeOf(cat[coll], where, e);
    ShapeOf(cat[coll], where, e');
    PlansAgreeExactly(cat, view, b, t, coll, where, e, e');
    forall doc ensures !Missed(b, e, doc) && !Missed(b, e', doc) {
      InitialMissesOnlySkipped(e, b, doc);
      InitialMissesOnlySkipped(e', b, doc);
    }
  }

  lemma StandingForIsWanted(cat: Catalog, view: View, t: Entries, coll: Bytes, where: seq<Where>, e: Explain,
        k: Bytes, doc: Json)
    requires coll in cat && StandsFor(cat, view, t, coll, e, k)
    requires DocFor(view, cat[coll], e.index, k) == doc && Matches(where, doc)
    ensures Wanted(cat, t, coll, where, doc)
  {
    hide DocFor, Matches;
  }

  lemma ScannedDoc(cat: Catalog, view: View, b: Backend, t: Entries, coll: Bytes, where: seq<Where>, e: Explain,
        doc: Json)
    requires ScanSetting(cat, view, t, coll, where, e) && PlanScalars(e) && coll in cat
    ensures (Matches(where, doc) && Behind(view, cat[coll], e.index, ScannedKeys(view, b, coll, e), doc))
       <==> Wanted(cat, t, coll, where, doc) && !Missed(b, e, doc)
  {
    hide *;
    if Wanted(cat, t, coll, where, doc) {
      WantedIsScanned(cat, view, b, t, coll, where, e, doc);
      WantedMatches(cat, t, coll, where, doc);
    } else if Matches(where, doc) && Behind(view, cat[coll], e.index, ScannedKeys(view, b, coll, e), doc) {
      var k := KeyBehind(view, cat[coll], e.index, ScannedKeys(view, b, coll, e), doc);
      ScannedIsStored(cat, view, b, t, coll, where, e, k);
      StandingForIsWanted(cat, view, t, coll, where, e, k, doc);
    }
  }

  lemma KeyBehind(view: View, s: Schema, i: Index, ks: seq<Bytes>, d: Json) returns (k: Bytes)
    requires Behind(view, s, i, ks, d)
    ensures k in ks && DocFor(view, s, i, k) == d
  {
    k :| k in ks && DocFor(view, s, i, k) == d;
  }

  lemma WantedMatches(cat: Catalog, t: Entries, coll: Bytes, where: seq<Where>, doc: Json)
    requires coll in cat && Wanted(cat, t, coll, where, doc)
    ensures Matches(where, doc)
  {
  }

  // ----- two uses of the theorem -----

  /** With natural numbers badger's descending scans miss nothing below the bound, and everything at it. */
  lemma BadgerDescendingOnNaturals(c: Schema, where: seq<Where>, e: Explain, doc: Json, x: nat, y: nat)
    requires c.WellFormed() && Followable(c, where, e) && InitialSegment(e) && e.reverse && Matches(where, doc)
    requires e.seekFields != [] && Get(doc, e.seekFields[0]) == Num(x as real)
    requires e.seekFields[0] in e.seekValues && e.seekValues[e.seekFields[0]] == Num(y as real)
    requires x < TWO_TO_64 && y < TWO_TO_64
    ensures x <= y && (Missed(Badger, e, doc) <==> x == y)
  {
    ShapeOf(c, where, e);
    InitialMissesOnlySkipped(e, Badger, doc);
    var i := SeekClause(c, where, e);
    assert ClauseHolds(where[i], doc);
  }

  function IdClause(c: Schema, id: Bytes): seq<Where> {
    [Where(c.pk, Eq, Str(id))]
  }

  lemma IdPlanFollowable(c: Schema, id: Bytes, e: Explain)
    requires c.WellFormed() && ValidId(id) && Answers(c, IdClause(c, id), Plan(e))
    ensures Followable(c, IdClause(c, id), e) && InitialSegment(e) && e.seekFields == [] && e.index.primary
  {
    assert c.GoodIndex(c.primaryName);
  }

  lemma ValidIdScan(cat: Catalog, view: View, b: Backend, t: Entries, coll: Bytes, id: Bytes, e: Explain)
    requires GoodCatalog(cat) && Holds(cat, view, t) && coll in cat && CollectionReady(cat, t, coll)
    requires cat[coll].WellFormed() && ValidId(id) && Answers(cat[coll], IdClause(cat[coll], id), Plan(e))
    ensures PlanScalars(e) && e.index.primary
    ensures var s := Prim(cat, DocId(coll, id));
            ScanDocs(view, b, cat[coll], e, IdClause(cat[coll], id)) == if s in t then [t[s]] else []
  {
    var c, where := cat[coll], IdClause(cat[coll], id);
    IdPlanFollowable(c, id, e);
    assert ScanSetting(cat, view, t, coll, where, e);
    hide ScanSetting, Followable, GoodCatalog, Holds, CollectionReady, ScanDocs, Answers, Schema.WellFormed, Matches,
      PlanShape, Missed;
    ShapeOf(c, where, e);
    IndexScanRefinesFullScan(cat, view, b, t, coll, where, e);
    var docs, s := ScanDocs(view, b, c, e, where), Prim(cat, DocId(coll, id));
    forall doc ensures doc in docs <==> s in t && t[s] == doc {
      IdWanted(cat, view, t, coll, id, doc);
      InitialMissesOnlySkipped(e, b, doc);
    }
    AtMostOne(docs, s in t, if s in t then t[s] else Null);
  }

  /** The plan of an id lookup: the prefix of the primary index that ends with the id. */
  lemma IdPlan(c: Schema, id: Bytes, e: Explain)
    requires c.WellFormed() && Answers(c, IdClause(c, id), Plan(e))
    ensures PlanScalars(e) && e.index == c.PrimaryIndex() && e.index.name == c.primaryName && e.index.primary
    ensures e.index.name in c.indexes
    ensures ScanOpts(c.collection, e).prefix == Some(Base(c.collection, c.primaryName) + FieldSegment(c.pk, Str(id)))
  {
    assert c.GoodIndex(c.primaryName);
    var where := IdClause(c, id);
    assert where[..0] == [] && LastValue(c.pk, where) == Some(Str(id));
    assert e.matchedValues == map[c.pk := Str(id)];
    hide Base, FieldSegment, Schema.WellFormed, Answers;
    OneField(c.pk, e.matchedValues);
  }

  /** A key under the prefix of an id lookup: the scanned document's id starts like the one looked for. */
  lemma SameFirstByte(b: Bytes, f: Path, id: Bytes, other: Bytes)
    requires id != [] && other != []
    requires HasPrefix(b + FieldSegment(f, Str(other)) + [ZERO] + other, b + FieldSegment(f, Str(id)))
    ensures other[0] == id[0]
  {
    var q := b + ([ZERO] + FieldText(f) + [ZERO]);
    assert b + FieldSegment(f, Str(id)) == q + id;
    assert b + FieldSegment(f, Str(other)) + [ZERO] + other == q + (other + [ZERO] + other);
    assert (q + id)[|q|] == id[0] && (q + (other + [ZERO] + other))[|q|] == other[0];
  }

  lemma StoredIdIsValid(cat: Catalog, view: View, t: Entries, did: DocId)
    requires Holds(cat, view, t) && did.coll in cat && Prim(cat, did) in t
    ensures ValidId(did.id)
  {
    assert EntryStored(cat, view, Prim(cat, did), t[Prim(cat, did)]);
  }

  /** Ids no document can have match none, even where the clause is read as a reference to a field. */
  lemma UnfitIdFindsNothing(cat: Catalog, view: View, t: Entries, coll: Bytes, id: Bytes, e: Explain, k: Bytes)
    requires GoodCatalog(cat) && Holds(cat, view, t) && coll in cat && CollectionReady(cat, t, coll)
    requires cat[coll].WellFormed()
    requires !ValidId(id) && Answers(cat[coll], IdClause(cat[coll], id), Plan(e)) && PlanScalars(e)
    requires k in view && HasPrefix(k, ScanOpts(coll, e).prefix.value)
    ensures !Matches(IdClause(cat[coll], id), DocFor(view, cat[coll], e.index, k))
  {
    hide Holds, CollectionReady, Answers, Schema.WellFormed, ScanOpts, Base, FieldSegment, DocFor;
    var c, where := cat[coll], IdClause(cat[coll], id);
    assert c.collection == coll;
    IdPlan(c, id, e);
    hide GoodCatalog;
    ScannedKeyStandsFor(cat, view, t, coll, e, k);
    KeyUnderPrefix(cat, view, t, coll, e, k);
    var did := DocId(coll, LastSegment(k));
    PrimaryKeyStored(cat, view, t, did);
    OneField(c.pk, map[c.pk := Str(did.id)]);
    var d := DocFor(view, c, e.index, k);
    if ClauseHolds(where[0], d) && IsSelf(Str(id)) {
      SameFirstByte(Base(coll, c.primaryName), c.pk, id, did.id);
    }
  }

  /** Looking a document up by its id, whatever the id, is a lookup in the map of documents. */
  lemma IdScan(cat: Catalog, view: View, b: Backend, t: Entries, coll: Bytes, id: Bytes, e: Explain)
    requires GoodCatalog(cat) && Holds(cat, view, t) && coll in cat && CollectionReady(cat, t, coll)
    requires cat[coll].WellFormed() && Answers(cat[coll], IdClause(cat[coll], id), Plan(e))
    ensures PlanScalars(e) && e.index.primary
    ensures var s := Prim(cat, DocId(coll, id));
            ScanDocs(view, b, cat[coll], e, IdClause(cat[coll], id)) == if s in t then [t[s]] else []
  {
    var c, where, s := cat[coll], IdClause(cat[coll], id), Prim(cat, DocId(coll, id));
    assert c.collection == coll;
    IdPlan(c, id, e);
    if ValidId(id) {
      ValidIdScan(cat, view, b, t, coll, id, e);
    } else {
      if s in t { StoredIdIsValid(cat, view, t, s.did); }
      hide GoodCatalog, Holds, CollectionReady, Answers, Schema.WellFormed, ScanOpts, Matches, DocFor, Order, Visited,
        Emit;
      var docs := ScanDocs(view, b, c, e, where);
      if docs != [] {
        assert docs[0] in docs;
        EmitMembers(view, c, e.index, where, ScannedKeys(view, b, coll, e), docs[0]);
        var k := KeyBehind(view, c, e.index, ScannedKeys(view, b, coll, e), docs[0]);
        ScannedInStore(view, b, coll, e, k);
        UnfitIdFindsNothing(cat, view, t, coll, id, e, k);
      }
    }
  }

  lemma ScannedInStore(view: View, b: Backend, coll: Bytes, e: Explain, k: Bytes)
    requires PlanScalars(e) && k in ScannedKeys(view, b, coll, e)
    ensures k in view && HasPrefix(k, ScanOpts(coll, e).prefix.value)
  {
    hide Reachable, HasPrefix, Base, Tail;
    var o := ScanOpts(coll, e);
    var keys := Order(view.Keys, b, o);
    var i :| 0 <= i < |Visited(keys, o)| && Visited(keys, o)[i] == k;
    assert keys[i] == k && InBounds(o, keys[i]);
    hide Visited;
    assert k in keys;
  }

  lemma IdMatches(c: Schema, id: Bytes, doc: Json)
    requires ValidId(id)
    ensures Matches(IdClause(c, id), doc) <==> Get(doc, c.pk) == Str(id)
  {
    var where := IdClause(c, id);
    assert Operand(where[0], doc) == Str(id);
    if Matches(where, doc) { assert ClauseHolds(where[0], doc); }
    if Get(doc, c.pk) == Str(id) { assert ClauseHolds(where[0], doc); }
  }

  /** A lookup clause means equality with the id for exactly those ids that are not read as a reference
      to another field and are not the text "null". */
  lemma IdClauseExactly(c: Schema, id: Bytes)
    requires |c.pk| == 1
    ensures (forall doc :: Matches(IdClause(c, id), doc) <==> Get(doc, c.pk) == Str(id))
       <==> !IsSelf(Str(id)) && id != NULL_TEXT
  {
    var where := IdClause(c, id);
    forall doc ensures Matches(where, doc) <==> ClauseHolds(where[0], doc) {
      assert where == [where[0]];
    }
    var own := Obj(map[c.pk[0] := Str(id)]);
    assert Lookup(own, c.pk) == Lookup(Str(id), c.pk[1..]) == Some(Str(id));
    if IsSelf(Str(id)) {
      var target := SplitDots(id[1..]);
      if target == c.pk {
        var other := Obj(map[c.pk[0] := Str([])]);
        assert Lookup(other, c.pk) == Lookup(Str([]), c.pk[1..]) == Some(Str([]));
        assert ClauseHolds(where[0], other) && Get(other, c.pk) != Str(id);
      } else {
        assert Lookup(own, target) == None by {
          if target[0] == c.pk[0] { assert target[1..] != [] by { assert target == [target[0]] + target[1..]; } }
        }
        assert !ClauseHolds(where[0], own) && Get(own, c.pk) == Str(id);
      }
    } else if id == NULL_TEXT {
      assert !ClauseHolds(where[0], own) && Get(own, c.pk) == Str(id);
    } else {
      forall doc ensures ClauseHolds(where[0], doc) <==> Get(doc, c.pk) == Str(id) {
        assert Operand(where[0], doc) == Str(id);
      }
    }
  }

  lemma IdWanted(cat: Catalog, view: View, t: Entries, coll: Bytes, id: Bytes, doc: Json)
    requires Holds(cat, view, t) && coll in cat && ValidId(id)
    ensures Wanted(cat, t, coll, IdClause(cat[coll], id), doc) <==>
            Prim(cat, DocId(coll, id)) in t && t[Prim(cat, DocId(coll, id))] == doc
  {
    hide Matches, EntryKey;
    IdMatches(cat[coll], id, doc);
    if Stored(cat, t, DocId(coll, id), doc) {
      assert EntryStored(cat, view, Prim(cat, DocId(coll, id)), doc);
    }
    hide Holds;
  }

  lemma AllEqual(docs: seq<Json>, d: Json)
    requires forall doc :: doc in docs ==> doc == d
    ensures |docs| > 1 ==> docs[0] == docs[1]
    ensures docs != [] ==> docs[0] in docs && docs[0] == d
  {
    assert forall k :: 0 <= k < |docs| ==> docs[k] in docs;
  }

  lemma AtMostOne(docs: seq<Json>, some: bool, d: Json)
    requires NoRepeats(docs) && forall doc :: doc in docs <==> some && doc == d
    ensures docs == if some then [d] else []
  {
    AllEqual(docs, d);
    assert some ==> d in docs;
    assert docs == [] || docs == [docs[0]];
  }

  // ----- scans in pieces -----

  lemma {:induction false} EmitConcat(view: View, s: Schema, i: Index, where: seq<Where>, a: seq<Bytes>, b: seq<Bytes>)
    ensures Emit(view, s, i, where, a + b) == Emit(view, s, i, where, a) + Emit(view, s, i, where, b)
  {
    hide DocFor, Matches;
    if b == [] {
      assert a + b == a;
    } else {
      assert (a + b)[..|a + b| - 1] == a + b[..|b| - 1];
      EmitConcat(view, s, i, where, a, b[..|b| - 1]);
    }
  }

  /** Fields that an index can be asked for have scalar operands. */
  predicate ScalarClauses(where: seq<Where>) {
    forall i, k :: 0 <= i < |where| && 0 <= k < |where| && where[k].field == where[i].field ==>
      (where[i].op.Eq? || IsRange(where[i].op) ==> Scalar(where[k].value))
  }

  lemma {:induction false} LastValueOfClause(f: Path, where: seq<Where>)
    ensures LastValue(f, where).Some? ==>
        exists k :: 0 <= k < |where| && where[k].field == f && where[k].value == LastValue(f, where).value
  {
    if where != [] && where[|where| - 1].field != f { LastValueOfClause(f, where[..|where| - 1]); }
  }

  lemma {:induction false} SeekMember(i: Index, where: seq<Where>, n: nat, f: Path)
    requires n <= |i.fields| && f in SeekUpTo(i, where, n)
    ensures exists k :: 0 <= k < n && SeekAt(i, where, k) && f == i.fields[k]
  {
    if !(SeekAt(i, where, n - 1) && f == i.fields[n - 1]) { SeekMember(i, where, n - 1, f); }
  }

  lemma ScalarValueOf(where: seq<Where>, f: Path, i: nat)
    requires ScalarClauses(where) && i < |where| && where[i].field == f && (where[i].op.Eq? || IsRange(where[i].op))
    ensures LastValue(f, where).Some? ==> Scalar(LastValue(f, where).value)
  {
    LastValueOfClause(f, where);
  }

  lemma AnswerScalars(c: Schema, where: seq<Where>, e: Explain)
    requires c.WellFormed() && Answers(c, where, Plan(e)) && ScalarClauses(where)
    ensures PlanScalars(e)
  {
    if where != [] && PrimaryLookup(c, where) {
      ScalarValueOf(where, c.pk, 0);
    } else if IndexPlan(e.index, where, e) {
      forall f | f in e.matchedValues ensures Scalar(e.matchedValues[f]) {
        MatchedMember(e.index, where, |e.index.fields|, f);
        var k :| 0 <= k < |e.index.fields| && MatchedAt(e.index, where, k) && f == e.index.fields[k];
        ScalarValueOf(where, f, k);
      }
      forall f | f in e.seekValues ensures Scalar(e.seekValues[f]) {
        SeekMember(e.index, where, |e.index.fields|, f);
        var k :| 0 <= k < |e.index.fields| && SeekAt(e.index, where, k) && f == e.index.fields[k];
        ScalarValueOf(where, f, k);
      }
    }
  }

  lemma {:induction false} AnswerSeekScalars(c: Schema, where: seq<Where>, e: Explain)
    requires c.WellFormed() && Answers(c, where, Plan(e))
    ensures forall f :: f in e.seekFields ==> f in e.seekValues
  {
    if IndexPlan(e.index, where, e) {
      forall f | f in e.seekFields ensures f in e.seekValues {
        SeekMember(e.index, where, |e.index.fields|, f);
        var k :| 0 <= k < |e.index.fields| && SeekAt(e.index, where, k) && f == e.index.fields[k];
        SomeLastValue(f, where, k);
      }
    }
  }

  lemma {:induction false} SomeLastValue(f: Path, where: seq<Where>, k: nat)
    requires k < |where| && where[k].field == f
    ensures LastValue(f, where).Some?
  {
    if k < |where| - 1 { SomeLastValue(f, where[..|where| - 1], k); }
  }

  // ----- the unique check -----

  /** No other document has an entry in the index that starts with the fields of `doc`. */
  ghost predicate UniqueClear(cat: Catalog, t: Entries, did: DocId, name: Bytes, doc: Json)
    requires did.coll in cat && name in cat[did.coll].indexes
  {
    forall s {:trigger Clashes(cat, t, did, name, doc, s)} :: s in t ==> !Clashes(cat, t, did, name, doc, s)
  }

  ghost predicate Clashes(cat: Catalog, t: Entries, did: DocId, name: Bytes, doc: Json, s: Slot)
    requires did.coll in cat && name in cat[did.coll].indexes && s in t
  {
    && s.did.coll == did.coll && s.name == name && s.did.id != did.id
    && HasPrefix(KeyOf(cat, s, t[s]), Base(did.coll, name) + EntryTail(cat[did.coll].indexes[name], doc))
  }

  function UniqueOpts(coll: Bytes, i: Index, doc: Json): IterOpts {
    IterOpts(Some(Base(coll, i.name) + EntryTail(i, doc)), None, None, false)
  }

  lemma UniqueVisited(view: View, b: Backend, coll: Bytes, i: Index, doc: Json, k: Bytes)
    ensures var o := UniqueOpts(coll, i, doc);
            k in Visited(Order(view.Keys, b, o), o) <==> k in view && HasPrefix(k, o.prefix.value)
  {
    var o := UniqueOpts(coll, i, doc);
    var p := o.prefix.value;
    assert p[0] == 100 && !AllOnes(p);
    hide Base, EntryTail, Visited, Order;
    PrefixScanComplete(view.Keys, b, o, p, p, k);
    SuccessorEmpty([]);
    if HasPrefix(k, p) { LexPrefix(p, k); }
  }

  /** Some visited key carries a foreign id exactly when the check must fail. */
  lemma UniqueVisitedClear(cat: Catalog, view: View, b: Backend, t: Entries, did: DocId, name: Bytes, doc: Json)
    requires GoodCatalog(cat) && Holds(cat, view, t) && ValidDocId(cat, did) && name in cat[did.coll].indexes
    ensures var o := UniqueOpts(did.coll, cat[did.coll].indexes[name], doc);
            UniqueClear(cat, t, did, name, doc) <==>
            forall k :: k in Visited(Order(view.Keys, b, o), o) ==> LastSegment(k) == did.id
  {
    var i := cat[did.coll].indexes[name];
    var o := UniqueOpts(did.coll, i, doc);
    IndexFacts(cat, did.coll, name);
    hide GoodCatalog, EntryTail, Visited, Order, EntryKey;
    forall k | k in Visited(Order(view.Keys, b, o), o) && LastSegment(k) != did.id
      ensures !UniqueClear(cat, t, did, name, doc)
    {
      UniqueVisited(view, b, did.coll, i, doc, k);
      PrefixTransitive(k, o.prefix.value, Base(did.coll, name));
      KeyUnderBase(cat, view, t, did.coll, name, k);
      assert Clashes(cat, t, did, name, doc, SlotOf(k));
    }
    if !UniqueClear(cat, t, did, name, doc) {
      var s :| s in t && Clashes(cat, t, did, name, doc, s);
      assert EntryStored(cat, view, s, t[s]);
      var k := KeyOf(cat, s, t[s]);
      UniqueVisited(view, b, did.coll, i, doc, k);
      KeyOfSlot(cat, s, t[s]);
      assert LastSegment(k) == s.did.id;
    }
  }
}
