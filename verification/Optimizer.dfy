/** Choosing the index a query scans. */
module Optimizer {
  import opened Json
  import opened Schemas
  import opened Filter

  datatype Explain = Explain(
    index: Index,
    matchedFields: seq<Path>,
    matchedValues: map<Path, Json>,
    seekFields: seq<Path>,
    seekValues: map<Path, Json>,
    reverse: bool)

  datatype OptimizeResult = Plan(explain: Explain) | IndexRequired

  predicate IsRange(op: WhereOp) {
    op.Lt? || op.Lte? || op.Gt? || op.Gte?
  }

  predicate Descending(op: WhereOp) {
    op.Lt? || op.Lte?
  }

  /** Position `k` of the index is met by an equality clause at the same position. */
  predicate MatchedAt(i: Index, where: seq<Where>, k: nat) {
    k < |i.fields| && k < |where| && where[k].field == i.fields[k] && where[k].op.Eq?
  }

  /** The last position of the index is met by a range clause at the same position. */
  predicate SeekAt(i: Index, where: seq<Where>, k: nat) {
    k + 1 == |i.fields| && k < |where| && where[k].field == i.fields[k] && IsRange(where[k].op)
  }

  function MatchedUpTo(i: Index, where: seq<Where>, n: nat): seq<Path>
    requires n <= |i.fields|
  {
    if n == 0 then []
    else MatchedUpTo(i, where, n - 1) + if MatchedAt(i, where, n - 1) then [i.fields[n - 1]] else []
  }

  function SeekUpTo(i: Index, where: seq<Where>, n: nat): seq<Path>
    requires n <= |i.fields|
  {
    if n == 0 then []
    else SeekUpTo(i, where, n - 1) + if SeekAt(i, where, n - 1) then [i.fields[n - 1]] else []
  }

  function Matched(i: Index, where: seq<Where>): seq<Path> {
    MatchedUpTo(i, where, |i.fields|)
  }

  function Seeked(i: Index, where: seq<Where>): seq<Path> {
    SeekUpTo(i, where, |i.fields|)
  }

  predicate Reverses(i: Index, where: seq<Where>) {
    i.fields != [] && SeekAt(i, where, |i.fields| - 1) && Descending(where[|i.fields| - 1].op)
  }

  function Score(i: Index, where: seq<Where>): nat {
    |Matched(i, where)| + |Seeked(i, where)|
  }

  /** The value of the last clause on a field. */
  function LastValue(f: Path, where: seq<Where>): Option<Json> {
    if where == [] then None
    else if where[|where| - 1].field == f then Some(where[|where| - 1].value)
    else LastValue(f, where[..|where| - 1])
  }

  function ValuesFor(fields: seq<Path>, where: seq<Where>): map<Path, Json> {
    map f | f in fields && LastValue(f, where).Some? :: LastValue(f, where).value
  }

  function DefaultExplain(c: Schema): Explain
    requires c.primaryName in c.indexes
  {
    Explain(c.PrimaryIndex(), [], map[], [], map[], false)
  }

  predicate PrimaryLookup(c: Schema, where: seq<Where>) {
    where != [] && where[0].field == c.pk && where[0].op.Eq?
  }

  predicate IndexPlan(i: Index, where: seq<Where>, e: Explain) {
    && e.index == i
    && e.matchedFields == Matched(i, where)
    && e.seekFields == Seeked(i, where)
    && e.matchedValues == ValuesFor(e.matchedFields, where)
    && e.seekValues == ValuesFor(e.seekFields, where)
    && e.reverse == Reverses(i, where)
  }

  /** What Optimize may answer. The indexes come from a Go map, so among the indexes with the highest
      score any one can be picked. */
  ghost predicate Answers(c: Schema, where: seq<Where>, r: OptimizeResult)
    requires c.WellFormed()
  {
    if where == [] then r == Plan(DefaultExplain(c))
    else if PrimaryLookup(c, where) then
      r == Plan(Explain(c.PrimaryIndex(), [c.pk], ValuesFor([c.pk], where), [], map[], false))
    else if forall n :: n in c.indexes ==> Score(c.indexes[n], where) == 0 then
      r == if c.requireIndex then IndexRequired else Plan(DefaultExplain(c))
    else
      && r.Plan? && r.explain.index.name in c.indexes
      && IndexPlan(c.indexes[r.explain.index.name], where, r.explain)
      && (forall n :: n in c.indexes ==> Score(c.indexes[n], where) <= Score(r.explain.index, where))
      && Score(r.explain.index, where) > 0
  }

  method GetMatchedFieldValues(fields: seq<Path>, where: seq<Where>) returns (values: map<Path, Json>)
    ensures values == ValuesFor(fields, where)
  {
    values := map[];
    for a := 0 to |fields|
      invariant values == ValuesFor(fields[..a], where)
    {
      var f := fields[a];
      ghost var was := values;
      for b := 0 to |where|
        invariant LastValue(f, where[..b]) == None ==> values == was
        invariant LastValue(f, where[..b]).Some? ==> values == was[f := LastValue(f, where[..b]).value]
      {
        assert where[..b + 1][..b] == where[..b];
        if where[b].field == f { values := values[f := where[b].value]; }
      }
      assert where[..|where|] == where;
      assert fields[..a + 1] == fields[..a] + [f];
      assert forall g :: g in fields[..a + 1] <==> g in fields[..a] || g == f;
    }
    assert fields[..|fields|] == fields;
  }

  /** One index against the clauses, position by position. */
  method MatchIndex(index: Index, where: seq<Where>) returns (matched: seq<Path>, seek: seq<Path>, reverse: bool)
    ensures matched == Matched(index, where) && seek == Seeked(index, where) && reverse == Reverses(index, where)
  {
    matched, seek, reverse := [], [], false;
    var n := |index.fields|;
    for k := 0 to n
      invariant matched == MatchedUpTo(index, where, k)
      invariant seek == SeekUpTo(index, where, k)
      invariant reverse == (k == n && Reverses(index, where))
    {
      var field := index.fields[k];
      if |where| > k {
        if field == where[k].field && where[k].op.Eq? {
          matched := matched + [field];
        } else if field == where[k].field && n - 1 == k {
          match where[k].op {
            case Gt => seek := seek + [field];
            case Gte => seek := seek + [field];
            case Lt => seek, reverse := seek + [field], true;
            case Lte => seek, reverse := seek + [field], true;
            case _ =>
          }
        }
      }
    }
  }

  /** defaultOptimizer.Optimize, with the indexes visited in any order. */
  method Optimize(c: Schema, where: seq<Where>) returns (r: OptimizeResult)
    requires c.WellFormed()
    ensures Answers(c, where, r)
  {
    assert c.GoodIndex(c.primaryName);
    if |where| == 0 { return Plan(DefaultExplain(c)); }
    if c.PrimaryIndex().fields[0] == where[0].field && where[0].op.Eq? {
      var values := GetMatchedFieldValues([c.pk], where);
      return Plan(Explain(c.PrimaryIndex(), [c.pk], values, [], map[], false));
    }
    var opt := Explain(c.PrimaryIndex(), [], map[], [], map[], false);
    var seen := false;
    var todo := c.indexes.Keys;
    while todo != {}
      invariant todo <= c.indexes.Keys
      invariant !seen ==> todo == c.indexes.Keys && opt.matchedFields == [] && opt.seekFields == []
      invariant seen ==>
        && opt.index.name in c.indexes && c.indexes[opt.index.name] == opt.index
        && opt.matchedFields == Matched(opt.index, where) && opt.seekFields == Seeked(opt.index, where)
        && opt.reverse == Reverses(opt.index, where)
      invariant forall n :: n in c.indexes && n !in todo ==>
        Score(c.indexes[n], where) <= |opt.matchedFields| + |opt.seekFields|
      decreases todo
    {
      var name :| name in todo;
      todo := todo - {name};
      var index := c.indexes[name];
      assert c.GoodIndex(name);
      var matched, seek, reverse := MatchIndex(index, where);
      if |matched| + |seek| >= |opt.matchedFields| + |opt.seekFields| {
        opt := opt.(index := index, matchedFields := matched, reverse := reverse, seekFields := seek);
        seen := true;
      }
    }
    if |opt.matchedFields| + |opt.seekFields| > 0 {
      var matchedValues := GetMatchedFieldValues(opt.matchedFields, where);
      var seekValues := GetMatchedFieldValues(opt.seekFields, where);
      return Plan(opt.(matchedValues := matchedValues, seekValues := seekValues));
    }
    if c.requireIndex { return IndexRequired; }
    return Plan(DefaultExplain(c));
  }

  // ----- which index is chosen, in the clauses' own terms -----

  /** The clause at this position is an equality on the index field of the same position, or a comparison on
      the last field of the index. */
  predicate Usable(i: Index, where: seq<Where>, k: int) {
    && 0 <= k < |i.fields| && k < |where| && where[k].field == i.fields[k]
    && (where[k].op == Eq || (k == |i.fields| - 1 && where[k].op in {Lt, Lte, Gt, Gte}))
  }

  function UsableBelow(i: Index, where: seq<Where>, n: nat): set<int> {
    set k | 0 <= k < n && Usable(i, where, k)
  }

  function UsablePositions(i: Index, where: seq<Where>): set<int> {
    UsableBelow(i, where, |i.fields|)
  }

  lemma {:induction false} ScoreCountsBelow(i: Index, where: seq<Where>, n: nat)
    requires n <= |i.fields|
    ensures |MatchedUpTo(i, where, n)| + |SeekUpTo(i, where, n)| == |UsableBelow(i, where, n)|
  {
    hide Usable, MatchedAt, SeekAt, UsableBelow;
    UsableCount(i, where, n);
    if n > 0 {
      ScoreCountsBelow(i, where, n - 1);
      UsedOnce(i, where, n - 1);
    }
  }

  lemma UsableCount(i: Index, where: seq<Where>, n: nat)
    ensures |UsableBelow(i, where, n)| ==
      if n == 0 then 0 else |UsableBelow(i, where, n - 1)| + if Usable(i, where, n - 1) then 1 else 0
  {
    hide Usable;
    if n > 0 {
      assert UsableBelow(i, where, n) ==
        UsableBelow(i, where, n - 1) + if Usable(i, where, n - 1) then {n - 1} else {};
    } else {
      assert UsableBelow(i, where, n) == {};
    }
  }

  lemma UsedOnce(i: Index, where: seq<Where>, k: nat)
    ensures Usable(i, where, k) <==> MatchedAt(i, where, k) || SeekAt(i, where, k)
    ensures !(MatchedAt(i, where, k) && SeekAt(i, where, k))
  {
  }

  /** Every query but a lookup by id is answered with an index on which no fewer positions can be used than
      on any other, or is refused if none can be used on any and the collection insists on an index. */
  lemma BestPlan(c: Schema, where: seq<Where>, r: OptimizeResult)
    requires c.WellFormed() && Answers(c, where, r) && where != [] && !(where[0].field == c.pk && where[0].op == Eq)
    ensures r.IndexRequired? <==>
      c.requireIndex && forall n :: n in c.indexes ==> UsablePositions(c.indexes[n], where) == {}
    ensures r.Plan? ==> r.explain.index.name in c.indexes && c.indexes[r.explain.index.name] == r.explain.index
    ensures r.Plan? ==> forall n :: n in c.indexes ==>
      |UsablePositions(c.indexes[n], where)| <= |UsablePositions(r.explain.index, where)|
  {
    assert c.GoodIndex(c.primaryName);
    hide Schema.WellFormed, UsablePositions, MatchedUpTo, SeekUpTo;
    forall i: Index ensures Score(i, where) == |UsablePositions(i, where)| { ScoreIsUsable(i, where); }
    hide Score;
  }

  lemma ScoreIsUsable(i: Index, where: seq<Where>)
    ensures Score(i, where) == |UsablePositions(i, where)|
  {
    ScoreCountsBelow(i, where, |i.fields|);
  }

  /** The value a plan has for a field is that of the last clause on it. */
  lemma {:induction false} LastValueIsLast(f: Path, where: seq<Where>, k: nat)
    requires k < |where| && where[k].field == f && forall m :: k < m < |where| ==> where[m].field != f
    ensures LastValue(f, where) == Some(where[k].value)
  {
    if k < |where| - 1 { LastValueIsLast(f, where[..|where| - 1], k); }
  }

  // ----- when a chosen index can be trusted -----

  predicate DistinctFields(where: seq<Where>) {
    forall i, k :: 0 <= i < k < |where| ==> where[i].field != where[k].field
  }

  lemma {:induction false} LastOfDistinct(where: seq<Where>, k: nat)
    requires DistinctFields(where) && k < |where|
    ensures LastValue(where[k].field, where) == Some(where[k].value)
  {
    if k < |where| - 1 {
      LastOfDistinct(where[..|where| - 1], k);
    }
  }

  /** The matched fields followed by the seek fields are the first fields of the index: no position is
      skipped. The code does not stop at the first unmatched position, so this is not automatic. */
  predicate InitialSegment(e: Explain) {
    |e.matchedFields| + |e.seekFields| <= |e.index.fields|
    && e.matchedFields + e.seekFields == e.index.fields[..|e.matchedFields| + |e.seekFields|]
  }

  /** On a single field only its own clause can match or be sought, and not both. */
  lemma OneFieldUsed(i: Index, where: seq<Where>)
    requires |i.fields| == 1
    ensures Matched(i, where) + Seeked(i, where) == [] || Matched(i, where) + Seeked(i, where) == i.fields
  {
    assert MatchedUpTo(i, where, 1) == if MatchedAt(i, where, 0) then [i.fields[0]] else [];
    assert SeekUpTo(i, where, 1) == if SeekAt(i, where, 0) then [i.fields[0]] else [];
    hide MatchedUpTo, SeekUpTo;
    assert i.fields == [i.fields[0]];
  }

  lemma PrimaryFields(c: Schema)
    requires c.WellFormed()
    ensures c.PrimaryIndex().fields == [c.pk]
  {
    assert c.GoodIndex(c.primaryName);
  }

  lemma AllOrNothingUsed(e: Explain)
    requires e.matchedFields + e.seekFields == [] || e.matchedFields + e.seekFields == e.index.fields
    ensures InitialSegment(e)
  {
    var used := e.matchedFields + e.seekFields;
    assert |used| == |e.matchedFields| + |e.seekFields|;
    assert e.index.fields[..|e.index.fields|] == e.index.fields;
  }

  /** An index with a single field never skips one. */
  lemma SingleFieldSegment(c: Schema, where: seq<Where>, r: OptimizeResult)
    requires c.WellFormed() && Answers(c, where, r) && r.Plan? && |r.explain.index.fields| == 1
    ensures InitialSegment(r.explain)
  {
    PrimaryFields(c);
    hide Schema.WellFormed, Score, Matched, Seeked, PrimaryLookup, ValuesFor, InitialSegment;
    OneFieldUsed(r.explain.index, where);
    AllOrNothingUsed(r.explain);
  }

  lemma {:induction false} MatchedMember(i: Index, where: seq<Where>, n: nat, f: Path)
    requires n <= |i.fields| && f in MatchedUpTo(i, where, n)
    ensures exists k :: 0 <= k < n && MatchedAt(i, where, k) && f == i.fields[k]
  {
    if !(MatchedAt(i, where, n - 1) && f == i.fields[n - 1]) {
      MatchedMember(i, where, n - 1, f);
    }
  }

  /** Seek fields: at most the last field of the index. */
  lemma {:induction false} SeekShape(i: Index, where: seq<Where>, n: nat)
    requires n <= |i.fields|
    ensures SeekUpTo(i, where, n) ==
        if n == |i.fields| && n > 0 && SeekAt(i, where, n - 1) then [i.fields[n - 1]] else []
  {
    if n > 0 { SeekShape(i, where, n - 1); }
  }
}
