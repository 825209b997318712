/** Applying a difference reproduces the later document, exactly when that is possible. */
module DiffRoundTrip {
  import opened Json
  import opened Documents

  predicate IsLeaf(o: Option<Json>) {
    o.Some? && !o.value.Obj?
  }

  predicate IsObject(o: Option<Json>) {
    o.Some? && o.value.Obj?
  }

  ghost predicate AllApplicable(ops: seq<JSONFieldOp>) {
    forall op :: op in ops ==> Applicable(op)
  }

  // ----- replaying operations, seen at one path -----

  /** Whatever was at `q` before, `op` leaves `want` there. */
  ghost predicate Forces(op: JSONFieldOp, q: Path, want: Option<Json>) {
    && IsPrefix(op.path, q)
    && want == if op.op.Remove? then None else Lookup(op.value, q[|op.path|..])
  }

  /** If every operation that can reach `q` leaves `want` there, `want` is there in the end. */
  lemma {:induction false} ReplayForces(j: Json, ops: seq<JSONFieldOp>, q: Path, want: Option<Json>)
    requires AllApplicable(ops)
    requires forall op :: op in ops && Comparable(op.path, q) ==> Forces(op, q, want)
    requires Lookup(j, q) == want || exists op :: op in ops && Comparable(op.path, q)
    ensures Lookup(Apply(j, ops), q) == want
  {
    if ops != [] {
      var init, last := ops[..|ops| - 1], ops[|ops| - 1];
      assert ops == init + [last];
      var mid := Apply(j, init);
      assert Applicable(last);
      if Comparable(last.path, q) {
        assert Forces(last, q, want);
        if last.op.Remove? { LookupDelBelow(mid, last.path, q); }
            else { LookupSetBelow(mid, last.path, last.value, q); }
      } else {
        assert Lookup(j, q) == want || exists op :: op in init && Comparable(op.path, q);
        ReplayForces(j, init, q, want);
        if last.op.Remove? { LookupDelApart(mid, last.path, q); }
            else { LookupSetApart(mid, last.path, last.value, q); }
      }
    }
  }

  /** The operation leaves an object at `q`, if it touches the neighbourhood of `q` at all. */
  ghost predicate KeepsObject(op: JSONFieldOp, q: Path) {
    || !Comparable(op.path, q)
    || (IsPrefix(q, op.path) && q != op.path)
    || (!op.op.Remove? && Exists(op.value, q[|op.path|..]) && Get(op.value, q[|op.path|..]).Obj?)
  }

  predicate ObjectAt(j: Json, q: Path) {
    IsObject(Lookup(j, q))
  }

  /** If no operation ever puts anything but an object at `q`, no leaf appears there. */
  lemma {:induction false} ReplayKeepsObject(j: Json, ops: seq<JSONFieldOp>, q: Path)
    requires AllApplicable(ops)
    requires forall op :: op in ops ==> KeepsObject(op, q)
    requires ObjectAt(j, q) || exists op :: op in ops && Comparable(op.path, q) && !op.op.Remove?
    ensures ObjectAt(Apply(j, ops), q)
  {
    if ops != [] {
      var init, last := ops[..|ops| - 1], ops[|ops| - 1];
      assert ops == init + [last];
      var mid := Apply(j, init);
      assert KeepsObject(last, q);
      if last.op.Remove? || !Comparable(last.path, q) {
        ReplayKeepsObject(j, init, q);
        if !Comparable(last.path, q) {
          if last.op.Remove? { LookupDelApart(mid, last.path, q); }
              else { LookupSetApart(mid, last.path, last.value, q); }
        } else {
          DelKeepsObjectAbove(mid, last.path, q);
        }
      } else if IsPrefix(q, last.path) && q != last.path {
        SetMakesObjectAbove(mid, last.path, last.value, q);
      } else {
        LookupSetBelow(mid, last.path, last.value, q);
      }
    }
  }

  // ----- the operations of a difference, seen at one path -----

  /** A difference mentions only what is different, with the value before and the value after. */
  lemma DiffMentionsChanges(after: Json, before: Json, ops: seq<JSONFieldOp>, op: JSONFieldOp)
    requires IsDiff(after, before, ops) && op in ops
    ensures Lookup(before, op.path) != Lookup(after, op.path)
    ensures op.beforeValue == Get(before, op.path) && op.value == Get(after, op.path)
    ensures op.op == if !Exists(before, op.path) then Add else if !Exists(after, op.path) then Remove else Replace
  {
    assert JustifiedOp(op, after, before);
  }

  /** Nothing is recorded if nothing has changed. */
  lemma NoChangeNoDiff(j: Json, ops: seq<JSONFieldOp>)
    requires IsDiff(j, j, ops)
    ensures ops == []
  {
    if ops != [] { DiffMentionsChanges(j, j, ops, ops[0]); }
  }

  lemma DiffApplicable(after: Json, before: Json, ops: seq<JSONFieldOp>)
    requires after.Obj? && before.Obj? && IsDiff(after, before, ops)
    ensures AllApplicable(ops)
  {
    forall op | op in ops ensures Applicable(op) {
      assert JustifiedOp(op, after, before);
    }
  }

  /** An operation of the difference that is at or above `q` hands `q` its final content. */
  lemma OpAtOrAbove(after: Json, before: Json, op: JSONFieldOp, q: Path)
    requires JustifiedOp(op, after, before) && IsPrefix(op.path, q)
    ensures op.op.Remove? ==> Lookup(after, q) == None
    ensures !op.op.Remove? ==> Lookup(op.value, q[|op.path|..]) == Lookup(after, q)
  {
    LookupConcat(after, op.path, q[|op.path|..]);
    assert q == op.path + q[|op.path|..];
  }

  /** With no leaf of `after` on an object of `before`, an operation strictly below a path that is
      no object of `after` can only be a removal of something `before` had there. */
  lemma OpBelow(after: Json, before: Json, op: JSONFieldOp, q: Path)
    requires JustifiedOp(op, after, before) && IsPrefix(q, op.path) && q != op.path
    ensures !op.op.Remove? ==> ObjectAt(after, q)
    ensures op.op.Remove? ==> ObjectAt(before, q)
  {
    if op.op.Remove? {
      ObjectAbove(before, q, op.path);
    } else {
      ObjectAbove(after, q, op.path);
    }
  }

  lemma ExistsOp(ops: seq<JSONFieldOp>, q: Path)
    requires Touches(ops, q)
    ensures exists op :: op in ops && op.path == q && Comparable(op.path, q)
  {
    var i :| 0 <= i < |ops| && ops[i].path == q;
    assert ops[i] in ops;
  }

  /** Away from objects, the replay leaves exactly what `after` has. */
  lemma ReplayReaches(after: Json, before: Json, ops: seq<JSONFieldOp>, q: Path)
    requires after.Obj? && before.Obj? && IsDiff(after, before, ops) && AllApplicable(ops)
    requires !ObjectAt(after, q) && !ObjectAt(before, q)
    ensures Lookup(Apply(before, ops), q) == Lookup(after, q)
  {
    forall op | op in ops && Comparable(op.path, q) ensures Forces(op, q, Lookup(after, q)) {
      assert JustifiedOp(op, after, before);
      if IsPrefix(op.path, q) { OpAtOrAbove(after, before, op, q); } else { OpBelow(after, before, op, q); }
    }
    if Lookup(before, q) != Lookup(after, q) {
      assert LeafChanged(after, before, q) || LeafAdded(after, before, q);
      ExistsOp(ops, q);
    }
    ReplayForces(before, ops, q, Lookup(after, q));
  }

  /** Where `after` has an object, the replay has one or nothing, never a leaf. */
  lemma ReplayKeepsObjectOfAfter(after: Json, before: Json, ops: seq<JSONFieldOp>, q: Path)
    requires after.Obj? && before.Obj? && IsDiff(after, before, ops) && AllApplicable(ops)
    requires ObjectAt(after, q)
    ensures LeafAt(Apply(before, ops), q) == None
  {
    forall op | op in ops ensures KeepsObject(op, q) {
      assert JustifiedOp(op, after, before);
      if IsPrefix(op.path, q) { OpAtOrAbove(after, before, op, q); }
    }
    if LeafChanged(after, before, q) {
      ExistsOp(ops, q);
      var op :| op in ops && op.path == q && Comparable(op.path, q);
      assert JustifiedOp(op, after, before) && !op.op.Remove?;
    }
    if ObjectAt(before, q) || exists op :: op in ops && Comparable(op.path, q) && !op.op.Remove? {
      ReplayKeepsObject(before, ops, q);
    } else {
      forall op | op in ops && Comparable(op.path, q) ensures Forces(op, q, None) {
        assert JustifiedOp(op, after, before);
        if IsPrefix(op.path, q) { OpAtOrAbove(after, before, op, q); } else { OpBelow(after, before, op, q); }
      }
      ReplayForces(before, ops, q, None);
    }
  }

  /** A leaf of `after` on an object of `before` is lost: no operation of the difference clears the way. */
  lemma LeafOnObjectIsLost(after: Json, before: Json, ops: seq<JSONFieldOp>, q: Path)
    requires after.Obj? && before.Obj? && IsDiff(after, before, ops) && AllApplicable(ops)
    requires LeafAt(after, q).Some? && ObjectAt(before, q)
    ensures ObjectAt(Apply(before, ops), q)
  {
    forall op | op in ops ensures KeepsObject(op, q) {
      assert JustifiedOp(op, after, before);
      if IsPrefix(op.path, q) && op.path != q {
        if op.op.Add? { NothingBelowLeaf(after, op.path, q); } else { NothingBelowLeaf(before, op.path, q); }
      }
    }
    ReplayKeepsObject(before, ops, q);
  }

  /** Diff then ApplyOps. The result has the leaves of `after`, with their values and no others,
      if and only if no leaf of `after` stands where `before` has an object. */
  lemma DiffThenApply(after: Json, before: Json, ops: seq<JSONFieldOp>)
    requires after.Obj? && before.Obj? && IsDiff(after, before, ops)
    ensures AllApplicable(ops)
    ensures SameLeaves(Apply(before, ops), after) <==> NoLeafOnObject(after, before)
  {
    DiffApplicable(after, before, ops);
    var res := Apply(before, ops);
    if NoLeafOnObject(after, before) {
      forall q ensures LeafAt(res, q) == LeafAt(after, q) {
        if ObjectAt(after, q) {
          ReplayKeepsObjectOfAfter(after, before, ops, q);
        } else if ObjectAt(before, q) {
          assert Exists(before, q) && !LeafAt(before, q).Some?;
          ReplayLosesObject(after, before, ops, q);
        } else {
          ReplayReaches(after, before, ops, q);
        }
      }
    } else {
      var q :| LeafAt(after, q).Some? && Exists(before, q) && !LeafAt(before, q).Some?;
      LeafOnObjectIsLost(after, before, ops, q);
      assert LeafAt(res, q) != LeafAt(after, q);
    }
  }

  /** An object of `before` that is gone in `after` leaves no leaf behind. */
  lemma ReplayLosesObject(after: Json, before: Json, ops: seq<JSONFieldOp>, q: Path)
    requires after.Obj? && before.Obj? && IsDiff(after, before, ops) && AllApplicable(ops)
    requires NoLeafOnObject(after, before) && ObjectAt(before, q) && !Exists(after, q)
    ensures LeafAt(Apply(before, ops), q) == None
  {
    ReplayAtObject(after, before, ops, q);
  }

  /** Applied to nothing, the difference of a document rebuilds its leaves without any condition. */
  lemma DiffFromNothing(after: Json, ops: seq<JSONFieldOp>)
    requires after.Obj? && IsDiff(after, EMPTY_OBJECT, ops)
    ensures AllApplicable(ops) && SameLeaves(Apply(EMPTY_OBJECT, ops), after)
  {
    DiffThenApply(after, EMPTY_OBJECT, ops);
  }

  /** The smallest document pair the round trip fails for: {"a": {}} becoming {"a": null}. */
  lemma LeafOnObjectExample(a: Name)
    ensures var before, after := Obj(map[a := EMPTY_OBJECT]), Obj(map[a := Null]);
            IsDiff(after, before, []) && !SameLeaves(Apply(before, []), after)
  {
    var before, after := Obj(map[a := EMPTY_OBJECT]), Obj(map[a := Null]);
    forall p ensures !LeafChanged(after, before, p) && !LeafAdded(after, before, p) {
      if p != [] && p[0] == a {
        assert Lookup(before, p) == Lookup(EMPTY_OBJECT, p[1..]);
        assert Lookup(after, p) == Lookup(Null, p[1..]);
      }
    }
    assert Lookup(before, [a]) == Lookup(EMPTY_OBJECT, [a][1..]);
    assert Lookup(after, [a]) == Lookup(Null, [a][1..]);
    assert LeafAt(Apply(before, []), [a]) != LeafAt(after, [a]);
  }

  // ----- what exactly comes out -----

  /** The leaves of a document with the objects above them, if it has any. */
  function Pruned(a: Json): Option<Json> {
    if !a.Obj? then Some(a)
    else
      var fields := map k | k in a.fields && Pruned(a.fields[k]).Some? :: Pruned(a.fields[k]).value;
      if fields == map[] then None else Some(Obj(fields))
  }

  /** What an edit makes of the value `b`, when the later document has `a` in its place: a leaf gives way to
      `a`, an object stays an object whatever `a` is, and what is new comes without empty objects. */
  function AfterEdit(b: Json, a: Option<Json>): Option<Json>
    decreases b
  {
    if !b.Obj? then a
    else
      var later := if a.Some? then Members(a.value) else map[];
      var kept := map k | k in b.fields && AfterEdit(b.fields[k], MemberOf(later, k)).Some? ::
        AfterEdit(b.fields[k], MemberOf(later, k)).value;
      var added := map k | k in later && k !in b.fields && Pruned(later[k]).Some? :: Pruned(later[k]).value;
      Some(Obj(kept + added))
  }

  function MemberOf(fields: map<Name, Json>, k: Name): Option<Json> {
    if k in fields then Some(fields[k]) else None
  }

  /** The outcome of editing a document towards another one. */
  function EditResult(before: Json, after: Json): Json
    requires before.Obj?
  {
    AfterEdit(before, Some(after)).value
  }

  function LookupIn(o: Option<Json>, q: Path): Option<Json> {
    match o
    case Some(j) => Lookup(j, q)
    case None => None
  }

  /** A leaf stands at the path or above it. */
  ghost predicate LeafAbove(j: Json, q: Path) {
    exists n :: 0 <= n <= |q| && IsLeaf(Lookup(j, q[..n]))
  }

  ghost predicate LeafBelow(o: Option<Json>, q: Path) {
    exists p :: IsPrefix(q, p) && IsLeaf(LookupIn(o, p))
  }

  /** What an edit leaves at a path, in terms of the two documents. */
  ghost predicate EditedAt(b: Json, a: Option<Json>, r: Option<Json>, q: Path) {
    if LeafAbove(b, q) then LookupIn(r, q) == LookupIn(a, q)
    else if Exists(b, q) then IsObject(LookupIn(r, q))
    else
      && (IsLeaf(LookupIn(r, q)) || IsLeaf(LookupIn(a, q)) ==> LookupIn(r, q) == LookupIn(a, q))
      && (IsObject(LookupIn(r, q)) <==> IsObject(LookupIn(a, q)) && LeafBelow(a, q))
  }

  lemma LeafAboveStep(j: Json, q: Path)
    requires q != [] && j.Obj?
    ensures LeafAbove(j, q) <==> q[0] in j.fields && LeafAbove(j.fields[q[0]], q[1..])
  {
    if LeafAbove(j, q) {
      var n :| 0 <= n <= |q| && IsLeaf(Lookup(j, q[..n]));
      assert q[..n][1..] == q[1..][..n - 1];
    }
    if q[0] in j.fields && LeafAbove(j.fields[q[0]], q[1..]) {
      var n :| 0 <= n <= |q[1..]| && IsLeaf(Lookup(j.fields[q[0]], q[1..][..n]));
      assert q[..n + 1][1..] == q[1..][..n] && q[..n + 1][0] == q[0];
    }
  }

  lemma LeafBelowStep(j: Json, q: Path)
    requires q != [] && j.Obj?
    ensures LeafBelow(Some(j), q) <==> LeafBelow(MemberOf(j.fields, q[0]), q[1..])
  {
    if LeafBelow(Some(j), q) {
      var p :| IsPrefix(q, p) && IsLeaf(Lookup(j, p));
      assert p[1..][..|q| - 1] == p[..|q|][1..];
      assert IsPrefix(q[1..], p[1..]) && IsLeaf(LookupIn(MemberOf(j.fields, q[0]), p[1..]));
    }
    if LeafBelow(MemberOf(j.fields, q[0]), q[1..]) {
      var p :| IsPrefix(q[1..], p) && IsLeaf(LookupIn(MemberOf(j.fields, q[0]), p));
      var up := [q[0]] + p;
      assert up[1..] == p && up[..|q|] == [q[0]] + p[..|q| - 1] && q == [q[0]] + q[1..];
      assert IsPrefix(q, up) && IsLeaf(Lookup(j, up));
    }
  }

  lemma PrunedMembers(a: Json)
    requires a.Obj?
    ensures Pruned(a).None? <==> forall k :: k in a.fields ==> Pruned(a.fields[k]).None?
    ensures Pruned(a).Some? ==> Pruned(a).value.Obj?
    ensures forall k :: Pruned(a).Some? ==>
      MemberOf(Pruned(a).value.fields, k) == if k in a.fields then Pruned(a.fields[k]) else None
  {
    var fields := map k | k in a.fields && Pruned(a.fields[k]).Some? :: Pruned(a.fields[k]).value;
    if k :| k in a.fields && Pruned(a.fields[k]).Some? { assert k in fields; }
  }

  /** A document without leaves is pruned altogether. */
  lemma {:induction false} PrunedSome(a: Json)
    ensures Pruned(a).Some? <==> LeafBelow(Some(a), [])
  {
    if !a.Obj? {
      assert IsPrefix([], []) && IsLeaf(LookupIn(Some(a), []));
    } else {
      PrunedMembers(a);
      forall k | k in a.fields ensures Pruned(a.fields[k]).Some? <==> LeafBelow(Some(a.fields[k]), []) {
        PrunedSome(a.fields[k]);
      }
      hide Pruned;
      LeafInMember(a);
    }
  }

  lemma LeafInMember(a: Json)
    requires a.Obj?
    ensures LeafBelow(Some(a), []) <==> exists k :: k in a.fields && LeafBelow(Some(a.fields[k]), [])
  {
    if LeafBelow(Some(a), []) {
      var p :| IsPrefix([], p) && IsLeaf(LookupIn(Some(a), p));
      assert p != [] && IsPrefix([], p[1..]) && IsLeaf(LookupIn(Some(a.fields[p[0]]), p[1..]));
      assert LeafBelow(Some(a.fields[p[0]]), []);
    }
    if k :| k in a.fields && LeafBelow(Some(a.fields[k]), []) {
      var p :| IsPrefix([], p) && IsLeaf(LookupIn(Some(a.fields[k]), p));
      assert ([k] + p)[1..] == p;
      assert IsPrefix([], [k] + p) && IsLeaf(LookupIn(Some(a), [k] + p));
    }
  }

  lemma {:induction false} PrunedAt(a: Json, q: Path)
    ensures var r := Pruned(a);
      && (IsLeaf(LookupIn(r, q)) || IsLeaf(Lookup(a, q)) ==> LookupIn(r, q) == Lookup(a, q))
      && (IsObject(LookupIn(r, q)) <==> IsObject(Lookup(a, q)) && LeafBelow(Some(a), q))
    decreases |q|
  {
    if q == [] {
      PrunedSome(a);
    } else if a.Obj? {
      LeafBelowStep(a, q);
      PrunedMembers(a);
      assert Pruned(a).Some? ==> (q[0] in Pruned(a).value.fields <==> MemberOf(Pruned(a).value.fields, q[0]).Some?);
      if q[0] in a.fields { PrunedAt(a.fields[q[0]], q[1..]); }
    }
  }

  /** Member by member: an edit works on those of the earlier object, and adds new ones pruned. */
  lemma AfterEditMember(b: Json, a: Option<Json>, k: Name)
    requires b.Obj?
    ensures AfterEdit(b, a).Some? && AfterEdit(b, a).value.Obj?
    ensures var later := if a.Some? then Members(a.value) else map[];
      MemberOf(AfterEdit(b, a).value.fields, k) ==
        if k in b.fields then AfterEdit(b.fields[k], MemberOf(later, k))
        else if k in later then Pruned(later[k]) else None
  {
  }

  lemma {:induction false} AfterEditAt(b: Json, a: Option<Json>, q: Path)
    ensures EditedAt(b, a, AfterEdit(b, a), q)
    decreases |q|
  {
    if !b.Obj? {
      assert IsLeaf(Lookup(b, q[..0]));
    } else if q == [] {
    } else {
      var later := if a.Some? then Members(a.value) else map[];
      LeafAboveStep(b, q);
      if a.Some? && a.value.Obj? { LeafBelowStep(a.value, q); }
      if q[0] in b.fields {
        AfterEditAt(b.fields[q[0]], MemberOf(later, q[0]), q[1..]);
      } else if q[0] in later {
        PrunedAt(later[q[0]], q[1..]);
      }
    }
  }

  // ----- and that the operations do just that -----

  /** Two documents that agree on what is a leaf and what is an object are the same. */
  lemma {:induction false} SameEverywhere(x: Json, y: Json)
    requires forall q :: IsLeaf(Lookup(x, q)) || IsLeaf(Lookup(y, q)) ==> Lookup(x, q) == Lookup(y, q)
    requires forall q :: IsObject(Lookup(x, q)) <==> IsObject(Lookup(y, q))
    ensures x == y
  {
    assert Lookup(x, []) == Some(x) && Lookup(y, []) == Some(y);
    if x.Obj? {
      assert IsObject(Lookup(x, []));
      forall k ensures k in x.fields <==> k in y.fields {
        assert IsLeaf(Lookup(x, [k])) || IsObject(Lookup(x, [k])) <==> k in x.fields;
        assert IsLeaf(Lookup(y, [k])) || IsObject(Lookup(y, [k])) <==> k in y.fields;
      }
      forall k | k in x.fields ensures x.fields[k] == y.fields[k] {
        forall q
          ensures IsLeaf(Lookup(x.fields[k], q)) || IsLeaf(Lookup(y.fields[k], q)) ==>
              Lookup(x.fields[k], q) == Lookup(y.fields[k], q)
          ensures IsObject(Lookup(x.fields[k], q)) <==> IsObject(Lookup(y.fields[k], q))
        {
          assert ([k] + q)[1..] == q && ([k] + q)[0] == k;
          assert Lookup(x, [k] + q) == Lookup(x.fields[k], q) && Lookup(y, [k] + q) == Lookup(y.fields[k], q);
        }
        SameEverywhere(x.fields[k], y.fields[k]);
      }
      assert x.fields == y.fields;
    } else {
      assert IsLeaf(Lookup(x, []));
    }
  }

  /** Setting what is there changes nothing. */
  lemma {:induction false} SetSame(j: Json, p: Path, v: Json)
    requires Lookup(j, p) == Some(v)
    ensures SetPath(j, p, v) == j
    decreases |p|
  {
    if p != [] {
      SetSame(j.fields[p[0]], p[1..], v);
      assert j.fields[p[0] := j.fields[p[0]]] == j.fields;
    }
  }

  /** The operation, strictly below `q`, sets what `want` has there anyway. */
  ghost predicate Agrees(op: JSONFieldOp, q: Path, want: Option<Json>) {
    && IsPrefix(q, op.path) && !op.op.Remove?
    && want.Some? && Lookup(want.value, op.path[|q|..]) == Some(op.value)
  }

  /** If every operation that can reach `q` leaves `want` there or agrees with it, `want` is there in the end. */
  lemma {:induction false} ReplaySettles(j: Json, ops: seq<JSONFieldOp>, q: Path, want: Option<Json>)
    requires AllApplicable(ops)
    requires forall op :: op in ops && Comparable(op.path, q) ==> Forces(op, q, want) || Agrees(op, q, want)
    requires Lookup(j, q) == want || exists op :: op in ops && Forces(op, q, want)
    ensures Lookup(Apply(j, ops), q) == want
  {
    if ops != [] {
      var init, last := ops[..|ops| - 1], ops[|ops| - 1];
      assert ops == init + [last];
      var mid := Apply(j, init);
      assert Applicable(last);
      if Forces(last, q, want) {
        if last.op.Remove? { LookupDelBelow(mid, last.path, q); }
            else { LookupSetBelow(mid, last.path, last.value, q); }
      } else {
        assert Lookup(j, q) == want || exists op :: op in init && Forces(op, q, want);
        ReplaySettles(j, init, q, want);
        if Agrees(last, q, want) {
          SettledBelow(mid, last, q, want.value);
        } else if last.op.Remove? {
          LookupDelApart(mid, last.path, q);
        } else {
          LookupSetApart(mid, last.path, last.value, q);
        }
      }
    }
  }

  lemma SettledBelow(mid: Json, op: JSONFieldOp, q: Path, want: Json)
    requires Lookup(mid, q) == Some(want) && Agrees(op, q, Some(want))
    ensures Lookup(SetPath(mid, op.path, op.value), q) == Some(want)
  {
    LookupConcat(mid, q, op.path[|q|..]);
    assert op.path == q + op.path[|q|..];
    SetSame(mid, op.path, op.value);
  }

  /** At a leaf of the earlier document, and below it, the operations leave what the later one has. */
  lemma ReplayAtLeaf(after: Json, before: Json, ops: seq<JSONFieldOp>, q: Path)
    requires after.Obj? && before.Obj? && IsDiff(after, before, ops) && AllApplicable(ops) && LeafAbove(before, q)
    ensures Lookup(Apply(before, ops), q) == Lookup(after, q)
  {
    var n :| 0 <= n <= |q| && IsLeaf(Lookup(before, q[..n]));
    var p := q[..n];
    var want := Lookup(after, q);
    forall op | op in ops && Comparable(op.path, q) ensures Forces(op, q, want) || Agrees(op, q, want) {
      assert JustifiedOp(op, after, before);
      if IsPrefix(op.path, q) {
        OpAtOrAbove(after, before, op, q);
      } else {
        LeafOpBelow(after, before, op, p, q);
      }
    }
    if LeafChanged(after, before, p) {
      ExistsOp(ops, p);
      var op :| op in ops && op.path == p && Comparable(op.path, p);
      assert JustifiedOp(op, after, before);
      OpAtOrAbove(after, before, op, q);
    } else {
      LookupConcat(before, p, q[n..]);
      LookupConcat(after, p, q[n..]);
      assert q == p + q[n..];
    }
    ReplaySettles(before, ops, q, want);
  }

  /** Below a leaf of the earlier document operations only add what the later one has. */
  lemma LeafOpBelow(after: Json, before: Json, op: JSONFieldOp, p: Path, q: Path)
    requires JustifiedOp(op, after, before) && IsLeaf(Lookup(before, p)) && IsPrefix(p, q) && IsPrefix(q, op.path)
    requires q != op.path
    ensures Agrees(op, q, Lookup(after, q))
  {
    assert op.path[..|p|] == op.path[..|q|][..|p|];
    NothingBelowLeaf(before, p, op.path);
    ObjectAbove(after, q, op.path);
    LookupConcat(after, q, op.path[|q|..]);
    assert op.path == q + op.path[|q|..];
  }

  /** An object of the earlier document stays an object. */
  lemma ReplayAtObject(after: Json, before: Json, ops: seq<JSONFieldOp>, q: Path)
    requires after.Obj? && before.Obj? && IsDiff(after, before, ops) && AllApplicable(ops) && ObjectAt(before, q)
    ensures ObjectAt(Apply(before, ops), q)
  {
    forall op | op in ops ensures KeepsObject(op, q) {
      assert JustifiedOp(op, after, before);
      if IsPrefix(op.path, q) && op.path != q { ObjectAbove(before, op.path, q); }
    }
    ReplayKeepsObject(before, ops, q);
  }

  /** Where the earlier document has nothing, an object appears exactly if the later one has a leaf in it. */
  lemma ReplayAtNewObject(after: Json, before: Json, ops: seq<JSONFieldOp>, q: Path)
    requires after.Obj? && before.Obj? && IsDiff(after, before, ops) && AllApplicable(ops)
    requires !LeafAbove(before, q) && !Exists(before, q) && ObjectAt(after, q)
    ensures if LeafBelow(Some(after), q) then ObjectAt(Apply(before, ops), q) else Lookup(Apply(before, ops), q) == None
  {
    forall op | op in ops && Comparable(op.path, q)
      ensures !op.op.Remove? && IsPrefix(q, op.path) && q != op.path && IsLeaf(Lookup(after, op.path))
    {
      assert JustifiedOp(op, after, before);
      NewObjectOp(after, before, op, q);
    }
    if LeafBelow(Some(after), q) {
      var r :| IsPrefix(q, r) && IsLeaf(LookupIn(Some(after), r));
      LookupConcat(before, q, r[|q|..]);
      assert r == q + r[|q|..];
      assert LeafAdded(after, before, r);
      ExistsOp(ops, r);
      var op :| op in ops && op.path == r && Comparable(op.path, r);
      assert Comparable(op.path, q);
      ReplayKeepsObject(before, ops, q);
    } else {
      assert forall op :: op in ops ==> !Comparable(op.path, q);
      ReplayForces(before, ops, q, None);
    }
  }

  lemma NewObjectOp(after: Json, before: Json, op: JSONFieldOp, q: Path)
    requires JustifiedOp(op, after, before) && Comparable(op.path, q)
    requires !LeafAbove(before, q) && !Exists(before, q) && ObjectAt(after, q)
    ensures !op.op.Remove? && IsPrefix(q, op.path) && q != op.path && IsLeaf(Lookup(after, op.path))
  {
    if IsPrefix(op.path, q) {
      assert q[..|op.path|] == op.path;
      assert !IsLeaf(Lookup(before, q[..|op.path|]));
      if op.path != q { ObjectAbove(after, op.path, q); }
    } else {
      LookupConcat(before, q, op.path[|q|..]);
      assert op.path == q + op.path[|q|..];
    }
  }

  lemma ReplayAt(after: Json, before: Json, ops: seq<JSONFieldOp>, q: Path)
    requires after.Obj? && before.Obj? && IsDiff(after, before, ops) && AllApplicable(ops)
    ensures EditedAt(before, Some(after), Some(Apply(before, ops)), q)
  {
    hide IsDiff, AllApplicable, Apply;
    if LeafAbove(before, q) {
      ReplayAtLeaf(after, before, ops, q);
    } else if Exists(before, q) {
      assert !IsLeaf(Lookup(before, q[..|q|])) && q[..|q|] == q;
      ReplayAtObject(after, before, ops, q);
    } else if ObjectAt(after, q) {
      ReplayAtNewObject(after, before, ops, q);
    } else {
      ReplayReaches(after, before, ops, q);
    }
  }

  /** Applying the difference yields one document whatever the order of the operations, without any
      condition: the later one, but with every object of the earlier one still there, and without empty
      objects where the earlier one had nothing. */
  lemma DiffThenApplyIs(after: Json, before: Json, ops: seq<JSONFieldOp>)
    requires after.Obj? && before.Obj? && IsDiff(after, before, ops)
    ensures AllApplicable(ops) && Apply(before, ops) == EditResult(before, after)
  {
    DiffApplicable(after, before, ops);
    var res, want := Apply(before, ops), EditResult(before, after);
    forall q
      ensures IsLeaf(Lookup(res, q)) || IsLeaf(Lookup(want, q)) ==> Lookup(res, q) == Lookup(want, q)
      ensures IsObject(Lookup(res, q)) <==> IsObject(Lookup(want, q))
    {
      ReplayAt(after, before, ops, q);
      AfterEditAt(before, Some(after), q);
    }
    SameEverywhere(res, want);
  }
}
