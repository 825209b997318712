/** Documents, their differences, and replaying or undoing those differences. */
module Documents {
  import opened Json

  datatype JSONOp = Remove | Replace | Add | Unsupported

  /** One field operation. An absent value and a null value are the same here, as in the wire format. */
  datatype JSONFieldOp = JSONFieldOp(path: Path, op: JSONOp, value: Json, beforeValue: Json)

  // ----- what one operation does -----

  predicate Applicable(op: JSONFieldOp) {
    op.path != [] && !op.op.Unsupported?
  }

  function ApplyOp(j: Json, op: JSONFieldOp): Json
    requires Applicable(op)
  {
    if op.op.Remove? then DelPath(j, op.path) else SetPath(j, op.path, op.value)
  }

  function Apply(j: Json, ops: seq<JSONFieldOp>): Json
    requires forall op :: op in ops ==> Applicable(op)
  {
    if ops == [] then j else ApplyOp(Apply(j, ops[..|ops| - 1]), ops[|ops| - 1])
  }

  /** Undoing an operation writes the value it replaced, unless there was none. */
  function RevertOp(j: Json, op: JSONFieldOp): Json {
    if op.beforeValue != Null then SetPath(j, op.path, op.beforeValue) else j
  }

  function Revert(j: Json, ops: seq<JSONFieldOp>): Json {
    if ops == [] then j else RevertOp(Revert(j, ops[..|ops| - 1]), ops[|ops| - 1])
  }

  // ----- what a difference consists of -----

  predicate Touches(ops: seq<JSONFieldOp>, p: Path) {
    exists i :: 0 <= i < |ops| && ops[i].path == p
  }

  /** The operation belongs into the difference from `before` to `after`. */
  predicate JustifiedOp(op: JSONFieldOp, after: Json, before: Json) {
    var p := op.path;
    match op.op
    case Remove =>
      LeafAt(before, p).Some? && !Exists(after, p) && op.value == Null && op.beforeValue == Get(before, p)
    case Replace =>
      && LeafAt(before, p).Some? && Exists(after, p) && Get(after, p) != Get(before, p)
      && op.value == Get(after, p) && op.beforeValue == Get(before, p)
    case Add =>
      LeafAt(after, p).Some? && !Exists(before, p) && op.value == Get(after, p) && op.beforeValue == Null
    case Unsupported => false
  }

  /** A leaf of `before` whose value is gone or different in `after`. */
  predicate LeafChanged(after: Json, before: Json, p: Path) {
    LeafAt(before, p).Some? && (!Exists(after, p) || Get(after, p) != Get(before, p))
  }

  predicate LeafAdded(after: Json, before: Json, p: Path) {
    LeafAt(after, p).Some? && !Exists(before, p)
  }

  /** `ops` records every changed and every added leaf, once each, and nothing else. */
  ghost predicate IsDiff(after: Json, before: Json, ops: seq<JSONFieldOp>) {
    && (forall i :: 0 <= i < |ops| ==> JustifiedOp(ops[i], after, before))
    && (forall p :: LeafChanged(after, before, p) || LeafAdded(after, before, p) ==> Touches(ops, p))
    && (forall i, k :: 0 <= i < k < |ops| ==> ops[i].path != ops[k].path)
  }

  ghost predicate SameLeaves(a: Json, b: Json) {
    forall p :: LeafAt(a, p) == LeafAt(b, p)
  }

  /** No leaf of `after` stands where `before` has an object. */
  ghost predicate NoLeafOnObject(after: Json, before: Json) {
    forall p :: LeafAt(after, p).Some? && Exists(before, p) ==> LeafAt(before, p).Some?
  }

  predicate Distinct(ps: seq<Path>) {
    forall i, k :: 0 <= i < k < |ps| ==> ps[i] != ps[k]
  }

  /** `q` neither runs through a path of the set nor is run through by one. */
  ghost predicate ApartFrom(ps: set<Path>, q: Path) {
    forall p :: p in ps ==> !Comparable(p, q)
  }

  /** `after` is `before` with the given values written at the given paths and everything else kept. */
  ghost predicate Written(before: Json, values: map<Path, Json>, after: Json) {
    && (forall p :: p in values ==> Lookup(after, p) == Some(values[p]))
    && (forall q :: ApartFrom(values.Keys, q) ==> Lookup(after, q) == Lookup(before, q))
  }

  /** The entries written one after the other. */
  function SetEach(j: Json, order: seq<Path>, values: map<Path, Json>): Json
    requires forall p :: p in order ==> p in values
  {
    if order == [] then j
    else
      var n := |order| - 1;
      SetPath(SetEach(j, order[..n], values), order[n], values[order[n]])
  }

  ghost predicate Orders(order: seq<Path>, values: map<Path, Json>) {
    Distinct(order) && forall p :: p in order <==> p in values
  }

  /** For entries that do not run through each other the order cannot be told from the outcome. */
  lemma {:induction false} WrittenInOrder(j: Json, order: seq<Path>, values: map<Path, Json>)
    requires PrefixFree(values.Keys) && Distinct(order) && forall p :: p in order ==> p in values
    ensures forall p :: p in order ==> Lookup(SetEach(j, order, values), p) == Some(values[p])
    ensures forall q :: ApartFrom(values.Keys, q) ==> Lookup(SetEach(j, order, values), q) == Lookup(j, q)
  {
    hide SetPath, Lookup;
    if order != [] {
      var n := |order| - 1;
      var was, last := SetEach(j, order[..n], values), order[n];
      WrittenInOrder(j, order[..n], values);
      LookupSetBelow(was, last, values[last], last);
      assert last[|last|..] == [];
      assert Lookup(values[last], []) == Some(values[last]) by { NothingToFollow(values[last]); }
      forall p | p in order ensures Lookup(SetEach(j, order, values), p) == Some(values[p]) {
        if p != last {
          var i :| 0 <= i < n && order[i] == p;
          assert order[..n][i] == p;
          LookupSetApart(was, last, values[last], p);
        }
      }
      forall q | ApartFrom(values.Keys, q) ensures Lookup(SetEach(j, order, values), q) == Lookup(j, q) {
        LookupSetApart(was, last, values[last], q);
      }
    }
  }

  lemma NothingToFollow(j: Json)
    ensures Lookup(j, []) == Some(j)
  {
  }

  lemma OrderDoesNotMatter(j: Json, order: seq<Path>, values: map<Path, Json>)
    requires PrefixFree(values.Keys) && Orders(order, values)
    ensures Written(j, values, SetEach(j, order, values))
  {
    WrittenInOrder(j, order, values);
  }

  /** No operation of the difference has to write at the empty path when it is undone. */
  predicate Revertible(diff: seq<JSONFieldOp>) {
    forall op :: op in diff && op.beforeValue != Null ==> op.path != []
  }

  function Appended(ops: seq<JSONFieldOp>, op: JSONFieldOp): (r: seq<JSONFieldOp>)
    ensures forall p :: Touches(r, p) <==> Touches(ops, p) || p == op.path
    ensures r == ops + [op]
  {
    var r := ops + [op];
    assert r[|ops|].path == op.path;
    assert forall i :: 0 <= i < |ops| ==> r[i] == ops[i];
    r
  }

  lemma StepDown(j: Json, k: Name, prefix: Path, p: Path)
    requires j.Obj? && k in j.fields
    ensures (IsPrefix(prefix + [k], p) && LeafAt(j.fields[k], p[|prefix| + 1..]).Some?)
       <==> (IsPrefix(prefix, p) && |p| > |prefix| && p[|prefix|] == k && LeafAt(j, p[|prefix|..]).Some?)
  {
    var n := |prefix|;
    if |p| > n {
      assert p[n..][1..] == p[n + 1..];
      assert p[..n + 1] == p[..n] + [p[n]];
    }
  }

  /** A JSON object that is edited in place. */
  class Document {
    var result: Json

    constructor (j: Json)
      ensures result == j
    {
      result := j;
    }

    /** Fails on the empty path. */
    method Set(field: Path, val: Json) returns (ok: bool)
      modifies this
      ensures ok <==> field != []
      ensures result == if ok then SetPath(old(result), field, val) else old(result)
    {
      ok := field != [];
      if ok { result := SetPath(result, field, val); }
    }

    method Del(field: Path) returns (ok: bool)
      modifies this
      ensures ok <==> field != []
      ensures result == if ok then DelPath(old(result), field) else old(result)
    {
      ok := field != [];
      if ok { result := DelPath(result, field); }
    }

    /** Writes the entries in whatever order the map yields them: `order`. */
    method SetAll(values: map<Path, Json>) returns (ok: bool, ghost order: seq<Path>)
      modifies this
      ensures ok <==> [] !in values
      ensures ok ==> Orders(order, values) && result == SetEach(old(result), order, values)
      ensures ok && PrefixFree(values.Keys) ==> Written(old(result), values, result)
    {
      hide SetPath, PrefixFree, Written;
      order := [];
      var todo := values.Keys;
      while todo != {}
        invariant todo <= values.Keys && [] !in values.Keys - todo
        invariant Distinct(order) && forall p :: p in order <==> p in values && p !in todo
        invariant result == SetEach(old(result), order, values)
        decreases todo
      {
        var p :| p in todo;
        if p == [] { return false, order; }
        result := SetPath(result, p, values[p]);
        assert (order + [p])[..|order|] == order;
        order := order + [p];
        todo := todo - {p};
      }
      if PrefixFree(values.Keys) { OrderDoesNotMatter(old(result), order, values); }
      ok := true;
    }

    method ApplyOps(ops: seq<JSONFieldOp>) returns (ok: bool)
      modifies this
      ensures ok <==> forall op :: op in ops ==> Applicable(op)
      ensures ok ==> result == Apply(old(result), ops)
    {
      for i := 0 to |ops|
        invariant forall op :: op in ops[..i] ==> Applicable(op)
        invariant result == Apply(old(result), ops[..i])
      {
        var op := ops[i];
        assert op in ops;
        assert ops[..i + 1][..i] == ops[..i] && ops[..i + 1] == ops[..i] + [op];
        match op.op {
          case Remove =>
            var done := Del(op.path);
            if !done { return false; }
          case Replace =>
            var done := Set(op.path, op.value);
            if !done { return false; }
          case Add =>
            var done := Set(op.path, op.value);
            if !done { return false; }
          case Unsupported =>
            return false;
        }
      }
      assert ops[..|ops|] == ops;
      return true;
    }

    method RevertOps(diff: seq<JSONFieldOp>) returns (ok: bool)
      modifies this
      ensures ok <==> Revertible(diff)
      ensures ok ==> result == Revert(old(result), diff)
    {
      for i := 0 to |diff|
        invariant result == Revert(old(result), diff[..i]) && Revertible(diff[..i])
      {
        assert diff[..i + 1][..i] == diff[..i] && diff[..i + 1] == diff[..i] + [diff[i]];
        assert diff[i] in diff;
        if diff[i].beforeValue != Null {
          ok := Set(diff[i].path, diff[i].beforeValue);
          if !ok { return; }
        }
      }
      assert diff[..|diff|] == diff;
      ok := true;
    }

    method FieldPaths() returns (paths: seq<Path>)
      ensures forall p :: p in paths <==> LeafAt(result, p).Some?
      ensures Distinct(paths)
    {
      paths := CollectPaths(result, []);
      forall p ensures p in paths <==> LeafAt(result, p).Some? {
        assert p[0..] == p;
      }
    }

    /** Walks the members of an object in any order, descending into the nested objects. */
    static method CollectPaths(j: Json, prefix: Path) returns (paths: seq<Path>)
      ensures forall p :: p in paths <==> IsPrefix(prefix, p) && LeafAt(j, p[|prefix|..]).Some?
      ensures Distinct(paths)
      decreases j
    {
      paths := [];
      if !j.Obj? {
        paths := [prefix];
        forall p ensures p in paths <==> IsPrefix(prefix, p) && LeafAt(j, p[|prefix|..]).Some? {
          if IsPrefix(prefix, p) {
            assert p == prefix + p[|prefix|..];
            assert p[|prefix|..] == [] <==> p == prefix;
          }
        }
        return;
      }
      var n := |prefix|;
      var todo := j.fields.Keys;
      while todo != {}
        invariant todo <= j.fields.Keys
        invariant forall p :: p in paths <==>
          IsPrefix(prefix, p) && LeafAt(j, p[n..]).Some? && |p| > n && p[n] !in todo
        invariant Distinct(paths)
        decreases todo
      {
        var k :| k in todo;
        var below := CollectPaths(j.fields[k], prefix + [k]);
        ghost var was := paths;
        forall p ensures p in below <==> IsPrefix(prefix, p) && |p| > n && p[n] == k && LeafAt(j, p[n..]).Some? {
          StepDown(j, k, prefix, p);
        }
        paths := paths + below;
        todo := todo - {k};
      }
    }

    /** The difference that turns `before` (nothing, for a new document) into this document. */
    method Diff(before: Option<Json>) returns (ops: seq<JSONFieldOp>)
      requires result.Obj? && (before.Some? ==> before.value.Obj?)
      ensures IsDiff(result, before.GetOr(EMPTY_OBJECT), ops)
    {
      hide Lookup, Touches;
      if before.Some? && before.value == result {
        return [];
      }
      ops := [];
      var old' := before.GetOr(EMPTY_OBJECT);
      var beforeDoc := new Document(old');
      var beforePaths := beforeDoc.FieldPaths();
      var afterPaths := FieldPaths();
      for i := 0 to |beforePaths|
        invariant forall k :: 0 <= k < |ops| ==> JustifiedOp(ops[k], result, old') && ops[k].path in beforePaths[..i]
        invariant forall k :: 0 <= k < i && LeafChanged(result, old', beforePaths[k]) ==> Touches(ops, beforePaths[k])
        invariant forall a, b :: 0 <= a < b < |ops| ==> ops[a].path != ops[b].path
      {
        var path := beforePaths[i];
        assert path in beforePaths;
        if !Exists(result, path) {
          ops := Appended(ops, JSONFieldOp(path, Remove, Null, Get(old', path)));
        } else if Get(result, path) != Get(old', path) {
          ops := Appended(ops, JSONFieldOp(path, Replace, Get(result, path), Get(old', path)));
        }
      }
      for i := 0 to |afterPaths|
        invariant forall k :: 0 <= k < |ops| ==> JustifiedOp(ops[k], result, old')
        invariant forall k :: 0 <= k < |ops| ==> ops[k].path in beforePaths || ops[k].path in afterPaths[..i]
        invariant forall k :: 0 <= k < |beforePaths| && LeafChanged(result, old', beforePaths[k]) ==>
            Touches(ops, beforePaths[k])
        invariant forall k :: 0 <= k < i && LeafAdded(result, old', afterPaths[k]) ==> Touches(ops, afterPaths[k])
        invariant forall a, b :: 0 <= a < b < |ops| ==> ops[a].path != ops[b].path
      {
        var path := afterPaths[i];
        assert path in afterPaths;
        if !Exists(old', path) {
          ops := Appended(ops, JSONFieldOp(path, Add, Get(result, path), Null));
        }
      }
    }
  }
}
