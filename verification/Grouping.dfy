/** Grouping and aggregating the documents of a query. */
module Grouping {
  import opened ByteStrings
  import opened Json
  import opened Filter
  import opened Documents

  datatype Aggregate = Plain | Count | Sum | Max | Min | Unknown

  /** `alias` is empty where the query names none. */
  datatype Select = Select(field: Path, aggregate: Aggregate, alias: Path)

  // ----- groups -----

  type Groups = map<Bytes, seq<Json>>

  /** The texts of the group fields; `text` is cast.ToString. */
  function Texts(text: Json -> Bytes, d: Json, fields: seq<Path>): (r: seq<Bytes>)
    ensures |r| == |fields| && forall i :: 0 <= i < |fields| ==> r[i] == text(Get(d, fields[i]))
  {
    seq(|fields|, i requires 0 <= i < |fields| => text(Get(d, fields[i])))
  }

  /** Different values can have the same key; they share a group then. */
  function GroupKey(text: Json -> Bytes, d: Json, fields: seq<Path>): Bytes {
    JoinDots(Texts(text, d, fields))
  }

  /** The documents with a key, in their order. */
  function WithGroupKey(text: Json -> Bytes, docs: seq<Json>, fields: seq<Path>, key: Bytes): seq<Json> {
    if docs == [] then []
    else
      var init, last := docs[..|docs| - 1], docs[|docs| - 1];
      WithGroupKey(text, init, fields, key) + if GroupKey(text, last, fields) == key then [last] else []
  }

  /** One group for every key that occurs, holding exactly the documents with that key in their order. */
  ghost predicate Partition(text: Json -> Bytes, docs: seq<Json>, fields: seq<Path>, groups: Groups) {
    && (forall k :: k in groups <==> WithGroupKey(text, docs, fields, k) != [])
    && (forall k :: k in groups ==> groups[k] == WithGroupKey(text, docs, fields, k))
  }

  method GroupByDocs(text: Json -> Bytes, documents: seq<Json>, fields: seq<Path>) returns (grouped: Groups)
    ensures Partition(text, documents, fields, grouped)
  {
    hide GroupKey;
    grouped := map[];
    for i := 0 to |documents|
      invariant Partition(text, documents[..i], fields, grouped)
    {
      var d := documents[i];
      assert documents[..i + 1][..i] == documents[..i];
      var group := JoinedValues(text, d, fields);
      grouped := grouped[group := (if group in grouped then grouped[group] else []) + [d]];
    }
    assert documents[..|documents|] == documents;
  }

  method JoinedValues(text: Json -> Bytes, d: Json, fields: seq<Path>) returns (key: Bytes)
    ensures key == GroupKey(text, d, fields)
  {
    var values: seq<Bytes> := [];
    for i := 0 to |fields|
      invariant values == seq(i, k requires 0 <= k < i => text(Get(d, fields[k])))
    {
      values := values + [text(Get(d, fields[i]))];
    }
    key := JoinDots(values);
  }

  // ----- who is grouped with whom -----

  ghost predicate Together(groups: Groups, d: Json, e: Json) {
    exists k :: k in groups && d in groups[k] && e in groups[k]
  }

  /** The documents have the same text at every group field. */
  predicate SameTexts(text: Json -> Bytes, d: Json, e: Json, fields: seq<Path>) {
    forall i :: 0 <= i < |fields| ==> text(Get(d, fields[i])) == text(Get(e, fields[i]))
  }

  predicate PlainTexts(text: Json -> Bytes, d: Json, fields: seq<Path>) {
    forall i :: 0 <= i < |fields| ==> DOT !in text(Get(d, fields[i]))
  }

  lemma {:induction false} GroupMembers(text: Json -> Bytes, docs: seq<Json>, fields: seq<Path>, k: Bytes, d: Json)
    ensures d in WithGroupKey(text, docs, fields, k) <==> d in docs && GroupKey(text, d, fields) == k
  {
    hide GroupKey;
    if docs != [] {
      var init, last := docs[..|docs| - 1], docs[|docs| - 1];
      assert docs == init + [last];
      GroupMembers(text, init, fields, k, d);
    }
  }

  lemma SameKeyWhen(text: Json -> Bytes, d: Json, e: Json, fields: seq<Path>)
    ensures SameTexts(text, d, e, fields) ==> GroupKey(text, d, fields) == GroupKey(text, e, fields)
    ensures PlainTexts(text, d, fields) && PlainTexts(text, e, fields) && !SameTexts(text, d, e, fields) ==>
      GroupKey(text, d, fields) != GroupKey(text, e, fields)
  {
    hide JoinDots, SplitDots, Get, Texts;
    var ds, es := Texts(text, d, fields), Texts(text, e, fields);
    if SameTexts(text, d, e, fields) {
      assert ds == es;
    } else if PlainTexts(text, d, fields) && PlainTexts(text, e, fields) {
      SplitOfJoined(ds);
      SplitOfJoined(es);
    }
  }

  /** Every document is in exactly one group, with all documents that have the same texts at the group
      fields; and, as far as the texts contain no dots, with no others. */
  lemma GroupedByTexts(text: Json -> Bytes, docs: seq<Json>, fields: seq<Path>, groups: Groups, d: Json, e: Json)
    requires Partition(text, docs, fields, groups) && d in docs && e in docs
    ensures Together(groups, d, d)
    ensures forall k, l :: k in groups && l in groups && d in groups[k] && d in groups[l] ==> k == l
    ensures SameTexts(text, d, e, fields) ==> Together(groups, d, e)
    ensures PlainTexts(text, d, fields) && PlainTexts(text, e, fields) ==>
      (Together(groups, d, e) <==> SameTexts(text, d, e, fields))
  {
    SameKeyWhen(text, d, e, fields);
    hide GroupKey, SameTexts, PlainTexts;
    forall k ensures d in WithGroupKey(text, docs, fields, k) <==> GroupKey(text, d, fields) == k {
      GroupMembers(text, docs, fields, k, d);
    }
    forall k ensures e in WithGroupKey(text, docs, fields, k) <==> GroupKey(text, e, fields) == k {
      GroupMembers(text, docs, fields, k, e);
    }
    hide WithGroupKey;
    var key := GroupKey(text, d, fields);
    assert d in WithGroupKey(text, docs, fields, key);
    assert key in groups && d in groups[key];
  }

  function GroupAt(groups: Groups, k: Bytes): seq<Json> {
    if k in groups then groups[k] else []
  }

  lemma {:induction false} GroupOfParts(text: Json -> Bytes, a: seq<Json>, b: seq<Json>, fields: seq<Path>, k: Bytes)
    ensures WithGroupKey(text, a + b, fields, k) == WithGroupKey(text, a, fields, k) + WithGroupKey(text, b, fields, k)
  {
    hide GroupKey;
    if b == [] {
      assert a + b == a;
    } else {
      assert (a + b)[..|a + b| - 1] == a + b[..|b| - 1];
      GroupOfParts(text, a, b[..|b| - 1], fields, k);
    }
  }

  /** The groups of two stretches of documents, put together key by key, are the groups of the whole: within
      a group the documents keep their order. */
  lemma GroupsKeepOrder(text: Json -> Bytes, a: seq<Json>, b: seq<Json>, fields: seq<Path>, ga: Groups, gb: Groups,
        groups: Groups)
    requires Partition(text, a, fields, ga) && Partition(text, b, fields, gb) && Partition(text, a + b, fields, groups)
    ensures forall k :: GroupAt(groups, k) == GroupAt(ga, k) + GroupAt(gb, k)
  {
    hide WithGroupKey;
    forall k ensures GroupAt(groups, k) == GroupAt(ga, k) + GroupAt(gb, k) { GroupOfParts(text, a, b, fields, k); }
  }

  // ----- accumulation -----

  predicate Supported(a: Aggregate) {
    a.Count? || a.Sum? || a.Max? || a.Min?
  }

  function AggregateStep(a: Aggregate, current: real, value: real): real {
    match a
    case Count => current + 1.0
    case Max => if value > current then value else current
    case Min => if value < current then value else current
    case Sum => current + value
    case _ => current
  }

  /** Every accumulator starts from zero. */
  function Accumulated(a: Aggregate, field: Path, docs: seq<Json>): real {
    if docs == [] then 0.0
    else AggregateStep(a, Accumulated(a, field, docs[..|docs| - 1]), ToFloat(Get(docs[|docs| - 1], field)))
  }

  lemma {:induction false} CountIsLength(field: Path, docs: seq<Json>)
    ensures Accumulated(Count, field, docs) == |docs| as real
  {
    if docs != [] { CountIsLength(field, docs[..|docs| - 1]); }
  }

  /** The zero takes part: the maximum of negative numbers comes out as zero. */
  lemma {:induction false} MaxStartsFromZero(field: Path, docs: seq<Json>)
    ensures var m := Accumulated(Max, field, docs);
      && m >= 0.0
      && (forall d :: d in docs ==> CountsAs(Get(d, field)) <= m)
      && (m == 0.0 || exists d :: d in docs && CountsAs(Get(d, field)) == m)
  {
    if docs != [] {
      var init, last := docs[..|docs| - 1], docs[|docs| - 1];
      assert docs == init + [last];
      MaxStartsFromZero(field, init);
      if exists d :: d in init && CountsAs(Get(d, field)) == Accumulated(Max, field, init) {
        var d :| d in init && CountsAs(Get(d, field)) == Accumulated(Max, field, init);
        assert d in docs;
      }
      assert last in docs;
    }
  }

  /** Likewise the minimum of positive numbers. */
  lemma {:induction false} MinStartsFromZero(field: Path, docs: seq<Json>)
    ensures var m := Accumulated(Min, field, docs);
      && m <= 0.0
      && (forall d :: d in docs ==> m <= CountsAs(Get(d, field)))
      && (m == 0.0 || exists d :: d in docs && CountsAs(Get(d, field)) == m)
  {
    hide Get;
    if docs != [] {
      var init, last := docs[..|docs| - 1], docs[|docs| - 1];
      assert docs == init + [last];
      MinStartsFromZero(field, init);
      if exists d :: d in init && CountsAs(Get(d, field)) == Accumulated(Min, field, init) {
        var d :| d in init && CountsAs(Get(d, field)) == Accumulated(Min, field, init);
        assert d in docs;
      }
      assert last in docs;
    }
  }

  /** A sum is that of its parts, down to the single values. */
  lemma {:induction false} SumOfParts(field: Path, a: seq<Json>, b: seq<Json>)
    ensures Accumulated(Sum, field, a + b) == Accumulated(Sum, field, a) + Accumulated(Sum, field, b)
    ensures |a| == 1 ==> Accumulated(Sum, field, a) == CountsAs(Get(a[0], field))
  {
    hide Get;
    if |a| == 1 { assert a[..0] == [] && Accumulated(Sum, field, []) == 0.0; }
    if b == [] {
      assert a + b == a;
    } else {
      var n := |b| - 1;
      assert (a + b)[..|a| + n] == a + b[..n];
      SumOfParts(field, a, b[..n]);
    }
  }

  /** defaultAs: "count_" and so on before the field. */
  function DefaultAs(a: Aggregate, field: Path): Path {
    if field == [] then [AggregatePrefix(a)] else [AggregatePrefix(a) + field[0]] + field[1..]
  }

  function AggregatePrefix(a: Aggregate): Bytes {
    match a
    case Count => [99, 111, 117, 110, 116, 95]
    case Sum => [115, 117, 109, 95]
    case Max => [109, 97, 120, 95]
    case Min => [109, 105, 110, 95]
    case _ => []
  }

  function Alias(s: Select): Path {
    if s.alias != [] then s.alias
    else if s.aggregate.Plain? then s.field
    else DefaultAs(s.aggregate, s.field)
  }

  /** No result field overwrites another one. */
  predicate DistinctAliases(selects: seq<Select>) {
    && (forall i :: 0 <= i < |selects| ==> Alias(selects[i]) != [])
    && (forall i, k :: 0 <= i < k < |selects| ==> !Comparable(Alias(selects[i]), Alias(selects[k])))
  }

  /** The row agrees with one select after `docs` have been accumulated; plain fields are those of the
      first document. */
  ghost predicate FieldHolds(row: Json, s: Select, first: Json, docs: seq<Json>) {
    if s.aggregate.Plain? then Lookup(row, Alias(s)) == Some(Get(first, s.field))
    else if docs == [] then Lookup(row, Alias(s)) == None
    else Lookup(row, Alias(s)) == Some(Num(Accumulated(s.aggregate, s.field, docs)))
  }

  ghost predicate RowFor(row: Json, selects: seq<Select>, first: Json, docs: seq<Json>) {
    forall k :: 0 <= k < |selects| ==> FieldHolds(row, selects[k], first, docs)
  }

  /** What a finished row reads at the names the query gives: a plain field that of the first document, a
      count the size of the group; without a name, under the field's own or behind "count_". */
  lemma RowReads(row: Json, selects: seq<Select>, docs: seq<Json>, s: Select)
    requires docs != [] && RowFor(row, selects, docs[0], docs) && s in selects && s.field != []
    ensures s.aggregate.Plain? ==>
      Lookup(row, if s.alias == [] then s.field else s.alias) == Some(Get(docs[0], s.field))
    ensures s.aggregate.Count? ==>
      var name := [[99, 111, 117, 110, 116, 95] + s.field[0]] + s.field[1..];
      Lookup(row, if s.alias == [] then name else s.alias) == Some(Num(|docs| as real))
  {
    hide Lookup, Get, Accumulated;
    CountIsLength(s.field, docs);
    var k :| 0 <= k < |selects| && selects[k] == s;
    assert FieldHolds(row, selects[k], docs[0], docs);
  }

  predicate AllSupported(selects: seq<Select>) {
    forall k :: 0 <= k < |selects| ==> selects[k].aggregate.Plain? || Supported(selects[k].aggregate)
  }

  /** applyNonAggregates on a new document. */
  method StartRow(selects: seq<Select>, first: Json) returns (row: Json)
    requires DistinctAliases(selects)
    ensures RowFor(row, selects, first, [])
  {
    var aggregated := new Document(EMPTY_OBJECT);
    for j := 0 to |selects|
      invariant forall k :: 0 <= k < |selects| ==>
        if k < j && selects[k].aggregate.Plain? then FieldHolds(aggregated.result, selects[k], first, [])
        else Lookup(aggregated.result, Alias(selects[k])) == None
    {
      var s := selects[j];
      if s.aggregate.Plain? {
        ghost var was := aggregated.result;
        var _ := aggregated.Set(Alias(s), Get(first, s.field));
        LookupSetBelow(was, Alias(s), Get(first, s.field), Alias(s));
        forall k | 0 <= k < |selects| && k != j
          ensures Lookup(aggregated.result, Alias(selects[k])) == Lookup(was, Alias(selects[k]))
        {
          LookupSetApart(was, Alias(s), Get(first, s.field), Alias(selects[k]));
        }
      }
    }
    row := aggregated.result;
  }

  /** applyAggregates for one more document. */
  method AddToRow(selects: seq<Select>, row: Json, ghost first: Json, ghost docs: seq<Json>, next: Json)
    returns (ok: bool, more: Json)
    requires DistinctAliases(selects) && RowFor(row, selects, first, docs)
    ensures ok <==> AllSupported(selects)
    ensures ok ==> RowFor(more, selects, first, docs + [next])
  {
    hide Comparable, Accumulated, SetPath, Lookup;
    more := row;
    for j := 0 to |selects|
      invariant AllSupported(selects[..j])
      invariant forall k :: 0 <= k < |selects| ==>
          FieldHolds(more, selects[k], first, if k < j then docs + [next] else docs)
    {
      assert selects[..j + 1] == selects[..j] + [selects[j]];
      assert FieldHolds(more, selects[j], first, docs);
      ghost var was := more;
      ok, more := AddToField(selects, j, more, first, docs, next);
      if !ok { return; }
      forall k | 0 <= k < |selects|
        ensures FieldHolds(more, selects[k], first, if k < j + 1 then docs + [next] else docs)
      {
        if k != j { assert FieldHolds(was, selects[k], first, if k < j then docs + [next] else docs); }
      }
    }
    assert selects[..|selects|] == selects;
    ok := true;
  }

  method AddToField(selects: seq<Select>, j: nat, row: Json, ghost first: Json, ghost docs: seq<Json>, next: Json)
    returns (ok: bool, more: Json)
    requires DistinctAliases(selects) && j < |selects| && FieldHolds(row, selects[j], first, docs)
    ensures ok <==> selects[j].aggregate.Plain? || Supported(selects[j].aggregate)
    ensures ok ==> FieldHolds(more, selects[j], first, docs + [next])
    ensures forall k :: 0 <= k < |selects| && k != j ==>
        Lookup(more, Alias(selects[k])) == Lookup(row, Alias(selects[k]))
  {
    var s := selects[j];
    more := row;
    if s.aggregate.Plain? { return true, more; }
    if !Supported(s.aggregate) { return false, more; }
    var aggregated := new Document(row);
    AccumulatedNext(s.aggregate, s.field, docs, next);
    var current := ToFloat(Get(aggregated.result, Alias(s)));
    var value := Num(AggregateStep(s.aggregate, current, ToFloat(Get(next, s.field))));
    var _ := aggregated.Set(Alias(s), value);
    more := aggregated.result;
    LookupSetBelow(row, Alias(s), value, Alias(s));
    forall k | 0 <= k < |selects| && k != j ensures Lookup(more, Alias(selects[k])) == Lookup(row, Alias(selects[k])) {
      LookupSetApart(row, Alias(s), value, Alias(selects[k]));
    }
    ok := true;
  }

  /** One row for a group. */
  method AggregateDocs(docs: seq<Json>, selects: seq<Select>) returns (ok: bool, row: Json)
    requires docs != [] && DistinctAliases(selects)
    ensures ok <==> AllSupported(selects)
    ensures ok ==> RowFor(row, selects, docs[0], docs)
  {
    hide RowFor, DistinctAliases;
    row := StartRow(selects, docs[0]);
    for i := 0 to |docs|
      invariant i > 0 ==> AllSupported(selects)
      invariant RowFor(row, selects, docs[0], docs[..i])
    {
      assert docs[..i + 1] == docs[..i] + [docs[i]];
      ok, row := AddToRow(selects, row, docs[0], docs[..i], docs[i]);
      if !ok { return; }
    }
    assert docs[..|docs|] == docs;
    ok := true;
  }

  // ----- conservation -----

  predicate Additive(a: Aggregate) {
    a.Count? || a.Sum?
  }

  function Contribution(a: Aggregate, field: Path, d: Json): real {
    if a.Count? then 1.0 else ToFloat(Get(d, field))
  }

  /** The share of the documents whose key is in the set. */
  function Share(text: Json -> Bytes, docs: seq<Json>, fields: seq<Path>, a: Aggregate, field: Path,
        keys: set<Bytes>): real {
    if docs == [] then 0.0
    else
      var init, last := docs[..|docs| - 1], docs[|docs| - 1];
      Share(text, init, fields, a, field, keys) + if GroupKey(text, last, fields) in keys
          then Contribution(a, field, last) else 0.0
  }

  lemma AccumulatedNext(a: Aggregate, field: Path, docs: seq<Json>, last: Json)
    ensures Accumulated(a, field, docs + [last]) ==
        AggregateStep(a, Accumulated(a, field, docs), ToFloat(Get(last, field)))
  {
    assert (docs + [last])[..|docs|] == docs;
  }

  lemma {:induction false} ShareOfGroup(text: Json -> Bytes, docs: seq<Json>, fields: seq<Path>, a: Aggregate,
        field: Path, keys: set<Bytes>, k: Bytes)
    requires Additive(a) && k !in keys
    ensures Share(text, docs, fields, a, field, keys + {k}) ==
            Share(text, docs, fields, a, field, keys) + Accumulated(a, field, WithGroupKey(text, docs, fields, k))
  {
    hide GroupKey;
    if docs != [] {
      var init, last := docs[..|docs| - 1], docs[|docs| - 1];
      ShareOfGroup(text, init, fields, a, field, keys, k);
      AccumulatedNext(a, field, WithGroupKey(text, init, fields, k), last);
      assert GroupKey(text, last, fields) in keys + {k} <==>
          GroupKey(text, last, fields) in keys || GroupKey(text, last, fields) == k;
      assert WithGroupKey(text, init, fields, k) + [] == WithGroupKey(text, init, fields, k);
    }
  }

  lemma {:induction false} ShareOfAll(text: Json -> Bytes, docs: seq<Json>, fields: seq<Path>, a: Aggregate,
        field: Path, keys: set<Bytes>)
    requires Additive(a) && forall d :: d in docs ==> GroupKey(text, d, fields) in keys
    ensures Share(text, docs, fields, a, field, keys) == Accumulated(a, field, docs)
  {
    hide GroupKey;
    if docs != [] { ShareOfAll(text, docs[..|docs| - 1], fields, a, field, keys); }
  }

  lemma {:induction false} ShareOfNone(text: Json -> Bytes, docs: seq<Json>, fields: seq<Path>, a: Aggregate,
        field: Path)
    ensures Share(text, docs, fields, a, field, {}) == 0.0
  {
    if docs != [] { ShareOfNone(text, docs[..|docs| - 1], fields, a, field); }
  }

  lemma {:induction false} EveryKeyOccurs(text: Json -> Bytes, docs: seq<Json>, fields: seq<Path>, d: Json)
    requires d in docs
    ensures WithGroupKey(text, docs, fields, GroupKey(text, d, fields)) != []
  {
    hide GroupKey;
    var init, last := docs[..|docs| - 1], docs[|docs| - 1];
    assert docs == init + [last];
    if d != last { EveryKeyOccurs(text, init, fields, d); }
  }

  /** The groups share the documents out: nothing is lost and nothing counted twice. */
  lemma GroupsShareOut(text: Json -> Bytes, docs: seq<Json>, fields: seq<Path>, groups: Groups, a: Aggregate,
        field: Path)
    requires Partition(text, docs, fields, groups) && Additive(a)
    ensures Share(text, docs, fields, a, field, groups.Keys) == Accumulated(a, field, docs)
  {
    hide GroupKey;
    forall d | d in docs ensures GroupKey(text, d, fields) in groups.Keys {
      EveryKeyOccurs(text, docs, fields, d);
    }
    ShareOfAll(text, docs, fields, a, field, groups.Keys);
  }

  /** The column of the result rows, added up. */
  function Column(rows: seq<Json>, alias: Path): real {
    if rows == [] then 0.0 else Column(rows[..|rows| - 1], alias) + ToFloat(Get(rows[|rows| - 1], alias))
  }

  /** The column belongs to the groups that have been reduced so far. */
  ghost predicate ColumnsAddUp(text: Json -> Bytes, docs: seq<Json>, fields: seq<Path>, selects: seq<Select>,
        rows: seq<Json>, keys: set<Bytes>) {
    forall k :: 0 <= k < |selects| && Additive(selects[k].aggregate) ==>
      Column(rows, Alias(selects[k])) == Share(text, docs, fields, selects[k].aggregate, selects[k].field, keys)
  }

  lemma ColumnsAddUpStep(text: Json -> Bytes, docs: seq<Json>, fields: seq<Path>, groups: Groups, selects: seq<Select>,
      rows: seq<Json>, keys: set<Bytes>, key: Bytes, row: Json)
    requires Partition(text, docs, fields, groups) && key in groups && key !in keys
    requires ColumnsAddUp(text, docs, fields, selects, rows, keys) && RowFor(row, selects, groups[key][0], groups[key])
    ensures ColumnsAddUp(text, docs, fields, selects, rows + [row], keys + {key})
  {
    hide WithGroupKey, Share, Accumulated, GroupKey;
    assert (rows + [row])[..|rows|] == rows;
    forall k | 0 <= k < |selects| && Additive(selects[k].aggregate)
      ensures Column(rows + [row], Alias(selects[k])) ==
              Share(text, docs, fields, selects[k].aggregate, selects[k].field, keys + {key})
    {
      assert FieldHolds(row, selects[k], groups[key][0], groups[key]);
      ShareOfGroup(text, docs, fields, selects[k].aggregate, selects[k].field, keys, key);
    }
  }

  lemma NothingShared(text: Json -> Bytes, docs: seq<Json>, fields: seq<Path>, selects: seq<Select>)
    ensures ColumnsAddUp(text, docs, fields, selects, [], {})
  {
    forall k | 0 <= k < |selects| && Additive(selects[k].aggregate)
      ensures Column([], Alias(selects[k])) == Share(text, docs, fields, selects[k].aggregate, selects[k].field, {})
    {
      ShareOfNone(text, docs, fields, selects[k].aggregate, selects[k].field);
    }
  }

  lemma Conserved(text: Json -> Bytes, docs: seq<Json>, fields: seq<Path>, groups: Groups, selects: seq<Select>,
        rows: seq<Json>)
    requires Partition(text, docs, fields, groups) && ColumnsAddUp(text, docs, fields, selects, rows, groups.Keys)
    ensures forall k :: 0 <= k < |selects| && Additive(selects[k].aggregate) ==>
      Column(rows, Alias(selects[k])) == Accumulated(selects[k].aggregate, selects[k].field, docs)
  {
    hide Accumulated, Share, Column, WithGroupKey;
    forall k | 0 <= k < |selects| && Additive(selects[k].aggregate)
      ensures Column(rows, Alias(selects[k])) == Accumulated(selects[k].aggregate, selects[k].field, docs)
    {
      GroupsShareOut(text, docs, fields, groups, selects[k].aggregate, selects[k].field);
    }
  }

  // ----- all groups -----

  /** The rows are those of the groups with these keys. */
  ghost predicate RowsOf(groups: Groups, selects: seq<Select>, keys: seq<Bytes>, rows: seq<Json>) {
    && |keys| == |rows|
    && (forall i, k :: 0 <= i < k < |keys| ==> keys[i] != keys[k])
    && (forall i :: 0 <= i < |keys| ==> RowOf(groups, selects, keys[i], rows[i]))
  }

  ghost predicate RowOf(groups: Groups, selects: seq<Select>, key: Bytes, row: Json) {
    key in groups && groups[key] != [] && RowFor(row, selects, groups[key][0], groups[key])
  }

  /** There is exactly one row for every group. */
  ghost predicate OneRowEach(groups: Groups, selects: seq<Select>, rows: seq<Json>) {
    exists keys :: RowsOf(groups, selects, keys, rows) && KeysOf(keys) == groups.Keys
  }

  ghost function KeysOf(keys: seq<Bytes>): set<Bytes> {
    set k | k in keys
  }

  lemma KeysOfMore(keys: seq<Bytes>, k: Bytes)
    ensures KeysOf(keys + [k]) == KeysOf(keys) + {k}
  {
  }

  lemma NoRows(groups: Groups, selects: seq<Select>)
    ensures RowsOf(groups, selects, [], []) && KeysOf([]) == {}
  {
  }

  lemma RowsOfMore(groups: Groups, selects: seq<Select>, keys: seq<Bytes>, rows: seq<Json>, key: Bytes, row: Json)
    requires RowsOf(groups, selects, keys, rows) && key !in KeysOf(keys) && RowOf(groups, selects, key, row)
    ensures RowsOf(groups, selects, keys + [key], rows + [row])
  {
    hide RowOf;
    var keys', rows' := keys + [key], rows + [row];
    forall i | 0 <= i < |keys'| ensures RowOf(groups, selects, keys'[i], rows'[i]) {
      if i < |keys| { assert RowOf(groups, selects, keys[i], rows[i]); }
    }
    forall i, k | 0 <= i < k < |keys'| ensures keys'[i] != keys'[k] {
      if k == |keys| { assert keys[i] in KeysOf(keys); }
    }
  }

  lemma {:induction false} RowsAddUp(text: Json -> Bytes, docs: seq<Json>, fields: seq<Path>, groups: Groups,
        selects: seq<Select>,
      keys: seq<Bytes>, rows: seq<Json>)
    requires Partition(text, docs, fields, groups) && RowsOf(groups, selects, keys, rows)
    ensures ColumnsAddUp(text, docs, fields, selects, rows, KeysOf(keys))
    decreases |keys|
  {
    hide Partition, ColumnsAddUp, RowFor;
    if keys == [] {
      NothingShared(text, docs, fields, selects);
      assert KeysOf(keys) == {};
    } else {
      var n := |keys| - 1;
      RowsAddUp(text, docs, fields, groups, selects, keys[..n], rows[..n]);
      assert keys == keys[..n] + [keys[n]] && rows == rows[..n] + [rows[n]];
      assert RowOf(groups, selects, keys[n], rows[n]);
      KeysOfMore(keys[..n], keys[n]);
      ColumnsAddUpStep(text, docs, fields, groups, selects, rows[..n], KeysOf(keys[..n]), keys[n], rows[n]);
    }
  }

  /** The loop over the groups, in whatever order the map yields them. */
  method ReduceGroups(grouped: Groups, selects: seq<Select>) returns (ok: bool, reduced: seq<Json>)
    requires DistinctAliases(selects) && forall k :: k in grouped ==> grouped[k] != []
    ensures ok <==> grouped == map[] || AllSupported(selects)
    ensures ok ==> OneRowEach(grouped, selects, reduced)
  {
    hide DistinctAliases, RowFor, AllSupported, RowsOf, KeysOf;
    reduced := [];
    ghost var keys: seq<Bytes> := [];
    var todo := grouped.Keys;
    ghost var done: set<Bytes> := {};
    NoRows(grouped, selects);
    while todo != {}
      invariant done !! todo && done + todo == grouped.Keys && (done != {} ==> AllSupported(selects))
      invariant RowsOf(grouped, selects, keys, reduced) && KeysOf(keys) == done
      decreases todo
    {
      var key :| key in todo;
      var row;
      ok, row := AggregateDocs(grouped[key], selects);
      if !ok { return; }
      KeysOfMore(keys, key);
      RowsOfMore(grouped, selects, keys, reduced, key, row);
      reduced, keys, done, todo := reduced + [row], keys + [key], done + {key}, todo - {key};
    }
    assert done == grouped.Keys;
    ok := true;
  }

  /** The columns of counts and sums of any rows, one for each group, add up to the whole. */
  lemma GroupingConserves(text: Json -> Bytes, docs: seq<Json>, fields: seq<Path>, groups: Groups,
        selects: seq<Select>, rows: seq<Json>)
    requires Partition(text, docs, fields, groups) && OneRowEach(groups, selects, rows)
    ensures forall k :: 0 <= k < |selects| && Additive(selects[k].aggregate) ==>
      Column(rows, Alias(selects[k])) == Accumulated(selects[k].aggregate, selects[k].field, docs)
  {
    hide Partition, ColumnsAddUp, RowsOf;
    var keys :| RowsOf(groups, selects, keys, rows) && KeysOf(keys) == groups.Keys;
    RowsAddUp(text, docs, fields, groups, selects, keys, rows);
    Conserved(text, docs, fields, groups, selects, rows);
  }

  /** transaction.aggregate. The counts of the groups add up to the number of documents, and their sums
      to the sum over all documents. */
  method AggregateAll(text: Json -> Bytes, docs: seq<Json>, fields: seq<Path>, selects: seq<Select>)
    returns (ok: bool, reduced: seq<Json>, ghost groups: Groups)
    requires DistinctAliases(selects)
    ensures Partition(text, docs, fields, groups)
    ensures ok <==> docs == [] || AllSupported(selects)
    ensures ok ==> OneRowEach(groups, selects, reduced)
    ensures ok ==> forall k :: 0 <= k < |selects| && Additive(selects[k].aggregate) ==>
      Column(reduced, Alias(selects[k])) == Accumulated(selects[k].aggregate, selects[k].field, docs)
  {
    hide DistinctAliases, OneRowEach, AllSupported, Accumulated, Column, GroupKey;
    var grouped := GroupByDocs(text, docs, fields);
    groups := grouped;
    ok, reduced := ReduceGroups(grouped, selects);
    if docs != [] { EveryKeyOccurs(text, docs, fields, docs[0]); }
    if ok { GroupingConserves(text, docs, fields, grouped, selects, reduced); }
  }
}
