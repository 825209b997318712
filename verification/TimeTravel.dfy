/** Rebuilding an earlier version of a document by undoing the logged differences, newest first. */
module TimeTravel {
  import opened ByteStrings
  import opened Json
  import opened Documents
  import opened ChangeLog
  import opened Sorting

  // ----- the history of one document -----

  /** What a command made of the document, and the difference it logged: always between the document
      in the command and the version before, even for an update, whose document is only a patch. */
  ghost predicate Logged(before: Option<Json>, action: Action, cmd: Json, after: Option<Json>, diff: seq<JSONFieldOp>) {
    && cmd.Obj?
    && (before.Some? ==> before.value.Obj?)
    && IsDiff(cmd, before.GetOr(EMPTY_OBJECT), diff)
    && match action
       case Create => after == Some(cmd)
       case Set => after == Some(cmd)
       case Update => before.Some? && after.Some? && Written(before.value, Flatten(cmd), after.value)
       case Delete => after == None
  }

  /** Versions 0..n, the n commands between them and their n log records, oldest first. */
  datatype History = History(versions: seq<Option<Json>>, cmds: seq<Json>, log: seq<CDC>)

  /** The leaf paths of all versions form one prefix-free set, and every version carries its id. */
  ghost predicate WellLogged(h: History, pk: Path, id: Bytes, paths: set<Path>) {
    && |h.versions| == |h.log| + 1 && |h.cmds| == |h.log|
    && PrefixFree(paths)
    && (forall i :: 0 <= i < |h.versions| && h.versions[i].Some? ==> FitsPaths(h.versions[i].value, pk, id, paths))
    && (forall i :: 0 <= i < |h.log| ==> LoggedAt(h, pk, id, i))
  }

  ghost predicate LoggedAt(h: History, pk: Path, id: Bytes, i: nat)
    requires i < |h.log| == |h.cmds| && |h.versions| == |h.log| + 1
  {
    && Logged(h.versions[i], h.log[i].action, h.cmds[i], h.versions[i + 1], h.log[i].diff)
    && Carries(h.cmds[i], pk, id)
    && (h.log[i].action.Delete? ==> LeafPaths(h.cmds[i]) == {pk})
  }

  ghost predicate FitsPaths(v: Json, pk: Path, id: Bytes, paths: set<Path>) {
    v.Obj? && Carries(v, pk, id) && LeafPaths(v) <= paths
  }

  // ----- undoing -----

  /** The value at `p` unless that is missing, null or an object. */
  function ValueAt(j: Json, p: Path): Option<Json> {
    match LeafAt(j, p)
    case Some(v) => if v == Null then None else Some(v)
    case None => None
  }

  function ValueIn(v: Option<Json>, p: Path): Option<Json> {
    match v
    case Some(j) => ValueAt(j, p)
    case None => None
  }

  /** `cur` has every value of the version, at its place. */
  ghost predicate Restores(cur: Json, v: Option<Json>) {
    forall p :: ValueIn(v, p).Some? ==> Lookup(cur, p) == ValueIn(v, p)
  }

  predicate Writes(op: JSONFieldOp, p: Path) {
    op.beforeValue != Null && Comparable(op.path, p)
  }

  lemma {:induction false} RevertForces(j: Json, ops: seq<JSONFieldOp>, p: Path, want: Option<Json>)
    requires forall op :: op in ops && Writes(op, p) ==> op.path == p && want == Some(op.beforeValue)
    requires Lookup(j, p) == want || exists op :: op in ops && Writes(op, p)
    ensures Lookup(Revert(j, ops), p) == want
  {
    if ops != [] {
      var init, last := ops[..|ops| - 1], ops[|ops| - 1];
      assert ops == init + [last];
      var mid := Revert(j, init);
      if Writes(last, p) {
        LookupSetBelow(mid, p, last.beforeValue, p);
      } else {
        assert Lookup(j, p) == want || exists op :: op in init && Writes(op, p);
        RevertForces(j, init, p, want);
        if last.beforeValue != Null { LookupSetApart(mid, last.path, last.beforeValue, p); }
      }
    }
  }

  lemma {:induction false} RevertAddsNothing(j: Json, ops: seq<JSONFieldOp>, p: Path)
    requires forall op :: op in ops && op.beforeValue != Null ==> op.path != p && !op.beforeValue.Obj?
    requires ValueAt(j, p) == None
    ensures ValueAt(Revert(j, ops), p) == None
  {
    if ops != [] {
      var init, last := ops[..|ops| - 1], ops[|ops| - 1];
      assert ops == init + [last];
      var mid := Revert(j, init);
      RevertAddsNothing(j, init, p);
      if last.beforeValue != Null {
        var q := last.path;
        if !Comparable(q, p) {
          LookupSetApart(mid, q, last.beforeValue, p);
        } else if IsPrefix(q, p) {
          LookupSetBelow(mid, q, last.beforeValue, p);
          assert p[|q|..] != [];
        } else {
          SetMakesObjectAbove(mid, q, last.beforeValue, p);
        }
      }
    }
  }

  lemma {:induction false} RevertLosesNothing(j: Json, ops: seq<JSONFieldOp>, p: Path)
    requires forall op :: op in ops && Writes(op, p) ==> op.path == p && !op.beforeValue.Obj?
    requires ValueAt(j, p).Some?
    ensures ValueAt(Revert(j, ops), p).Some?
  {
    if ops != [] {
      var init, last := ops[..|ops| - 1], ops[|ops| - 1];
      assert ops == init + [last];
      var mid := Revert(j, init);
      RevertLosesNothing(j, init, p);
      if Writes(last, p) {
        LookupSetBelow(mid, p, last.beforeValue, p);
      } else if last.beforeValue != Null {
        LookupSetApart(mid, last.path, last.beforeValue, p);
      }
    }
  }

  /** An operation of the difference that writes anything when undone restores a value of `before`. */
  lemma WritesBefore(cmd: Json, before: Json, op: JSONFieldOp)
    requires JustifiedOp(op, cmd, before) && op.beforeValue != Null
    ensures ValueAt(before, op.path) == Some(op.beforeValue)
    ensures op.path in LeafPaths(before)
  {
    LeafPathsExact(before, op.path);
  }

  lemma NeighboursAreEqual(cmd: Json, before: Json, paths: set<Path>, ops: seq<JSONFieldOp>, p: Path)
    requires IsDiff(cmd, before, ops) && PrefixFree(paths) && LeafPaths(before) <= paths && p in paths
    ensures forall op :: op in ops && Writes(op, p) ==> op.path == p && ValueAt(before, p) == Some(op.beforeValue)
  {
    forall op | op in ops && Writes(op, p) ensures op.path == p && ValueAt(before, p) == Some(op.beforeValue) {
      assert JustifiedOp(op, cmd, before);
      WritesBefore(cmd, before, op);
    }
  }

  /** A value the command left alone is still there afterwards. */
  lemma KeptValue(before: Json, action: Action, cmd: Json, after: Option<Json>, diff: seq<JSONFieldOp>,
      pk: Path, paths: set<Path>, p: Path)
    requires Logged(Some(before), action, cmd, after, diff)
    requires PrefixFree(paths) && p in paths && pk in paths
    requires action.Delete? ==> LeafPaths(cmd) == {pk}
    requires ValueAt(before, p).Some? && Exists(cmd, p) && Get(cmd, p) == Get(before, p)
    ensures if action.Delete? then p == pk else ValueIn(after, p) == ValueAt(before, p)
  {
    LeafPathsExact(cmd, p);
    if action.Update? {
      FlatPathsExact(cmd, p);
      assert p in Flatten(cmd);
    }
  }

  /** One undone log record takes a document that has the values of the version after the command to
      one that has the values of the version before it. */
  lemma UndoOne(h: History, pk: Path, id: Bytes, paths: set<Path>, i: nat, cur: Json)
    requires WellLogged(h, pk, id, paths) && i < |h.log|
    requires Restores(cur, h.versions[i + 1]) && Carries(cur, pk, id)
    ensures Restores(Revert(cur, h.log[i].diff), h.versions[i])
    ensures Carries(Revert(cur, h.log[i].diff), pk, id)
  {
    assert LoggedAt(h, pk, id, i);
    var cmd, diff := h.cmds[i], h.log[i].diff;
    var before := h.versions[i].GetOr(EMPTY_OBJECT);
    assert before == EMPTY_OBJECT ==> forall p :: p != [] ==> Lookup(before, p) == None;
    if h.versions[i] == None {
      forall op | op in diff && Writes(op, pk) ensures false {
        assert JustifiedOp(op, cmd, before);
        WritesBefore(cmd, before, op);
      }
      RevertForces(cur, diff, pk, Some(Str(id)));
    } else {
      assert FitsPaths(before, pk, id, paths);
      LeafPathsExact(before, pk);
      forall p | ValueAt(before, p).Some? ensures Lookup(Revert(cur, diff), p) == ValueAt(before, p) {
        UndoneAt(h, pk, id, paths, i, cur, p);
      }
      assert ValueAt(before, pk) == Some(Str(id));
    }
  }

  lemma UndoneAt(h: History, pk: Path, id: Bytes, paths: set<Path>, i: nat, cur: Json, p: Path)
    requires WellLogged(h, pk, id, paths) && i < |h.log|
    requires Restores(cur, h.versions[i + 1]) && Carries(cur, pk, id)
    requires ValueIn(h.versions[i], p).Some?
    ensures Lookup(Revert(cur, h.log[i].diff), p) == ValueIn(h.versions[i], p)
  {
    assert LoggedAt(h, pk, id, i);
    var cmd, diff, before := h.cmds[i], h.log[i].diff, h.versions[i].value;
    assert FitsPaths(before, pk, id, paths);
    LeafPathsExact(before, p);
    LeafPathsExact(before, pk);
    NeighboursAreEqual(cmd, before, paths, diff, p);
    if LeafChanged(cmd, before, p) {
      var k :| 0 <= k < |diff| && diff[k].path == p;
      assert diff[k] in diff && JustifiedOp(diff[k], cmd, before);
      assert Writes(diff[k], p);
    } else {
      KeptValue(before, h.log[i].action, cmd, h.versions[i + 1], diff, pk, paths, p);
    }
    RevertForces(cur, diff, p, ValueAt(before, p));
  }

  // ----- the whole way back -----

  /** What TimeTravel folds over the log records it got, in their order. */
  function RevertAll(j: Json, records: seq<CDC>): Json {
    if records == [] then j else Revert(RevertAll(j, records[..|records| - 1]), records[|records| - 1].diff)
  }

  /** Undoing all log records from the i-th on, newest first, yields a document that has every value
      of version i. Deletions and later re-creations may be among the records. */
  lemma {:induction false} TravelRestores(h: History, pk: Path, id: Bytes, paths: set<Path>, i: nat)
    requires WellLogged(h, pk, id, paths) && i <= |h.log| && h.versions[|h.log|].Some?
    ensures Restores(RevertAll(h.versions[|h.log|].value, Reversed(h.log[i..])), h.versions[i])
    ensures Carries(RevertAll(h.versions[|h.log|].value, Reversed(h.log[i..])), pk, id)
    decreases |h.log| - i
  {
    var cur := h.versions[|h.log|].value;
    if i == |h.log| {
      assert h.log[i..] == [];
      assert FitsPaths(cur, pk, id, paths);
    } else {
      UnfoldTravel(cur, h.log, i);
      TravelRestores(h, pk, id, paths, i + 1);
      UndoOne(h, pk, id, paths, i, RevertAll(cur, Reversed(h.log[i + 1..])));
    }
  }

  lemma UnfoldTravel(cur: Json, log: seq<CDC>, i: nat)
    requires i < |log|
    ensures RevertAll(cur, Reversed(log[i..])) == Revert(RevertAll(cur, Reversed(log[i + 1..])), log[i].diff)
  {
    assert log[i..][1..] == log[i + 1..];
    var r := Reversed(log[i..]);
    assert r[..|r| - 1] == Reversed(log[i + 1..]) && r[|r| - 1] == log[i];
  }

  /** No path holds a value in version i or later that holds none in version i. */
  ghost predicate NothingAddedSince(h: History, i: nat) {
    forall k, p :: i <= k < |h.versions| && ValueIn(h.versions[k], p).Some? ==> ValueIn(h.versions[i], p).Some?
  }

  lemma {:induction false} NoValueAppears(h: History, pk: Path, id: Bytes, paths: set<Path>, i: nat, p: Path)
    requires WellLogged(h, pk, id, paths) && i <= |h.log| && h.versions[|h.log|].Some?
    requires forall k :: i <= k < |h.versions| ==> ValueIn(h.versions[k], p) == None
    ensures ValueAt(RevertAll(h.versions[|h.log|].value, Reversed(h.log[i..])), p) == None
    decreases |h.log| - i
  {
    var cur := h.versions[|h.log|].value;
    if i == |h.log| {
      assert h.log[i..] == [];
    } else {
      UnfoldTravel(cur, h.log, i);
      NoValueAppears(h, pk, id, paths, i + 1, p);
      assert LoggedAt(h, pk, id, i);
      forall op | op in h.log[i].diff && op.beforeValue != Null ensures op.path != p && !op.beforeValue.Obj? {
        assert JustifiedOp(op, h.cmds[i], h.versions[i].GetOr(EMPTY_OBJECT));
        WritesBefore(h.cmds[i], h.versions[i].GetOr(EMPTY_OBJECT), op);
      }
      RevertAddsNothing(RevertAll(cur, Reversed(h.log[i + 1..])), h.log[i].diff, p);
    }
  }

  lemma {:induction false} NoValueIsLost(h: History, pk: Path, id: Bytes, paths: set<Path>, i: nat, k: nat, p: Path)
    requires WellLogged(h, pk, id, paths) && i <= k <= |h.log| && h.versions[|h.log|].Some?
    requires ValueIn(h.versions[k], p).Some?
    ensures ValueAt(RevertAll(h.versions[|h.log|].value, Reversed(h.log[i..])), p).Some?
    decreases k - i
  {
    var cur := h.versions[|h.log|].value;
    if i == k {
      TravelRestores(h, pk, id, paths, i);
    } else {
      UnfoldTravel(cur, h.log, i);
      NoValueIsLost(h, pk, id, paths, i + 1, k, p);
      assert LoggedAt(h, pk, id, i);
      assert FitsPaths(h.versions[k].value, pk, id, paths);
      LeafPathsExact(h.versions[k].value, p);
      var before := h.versions[i].GetOr(EMPTY_OBJECT);
      forall op | op in h.log[i].diff && Writes(op, p) ensures op.path == p && !op.beforeValue.Obj? {
        assert JustifiedOp(op, h.cmds[i], before);
        WritesBefore(h.cmds[i], before, op);
        if h.versions[i].Some? { assert FitsPaths(before, pk, id, paths); }
        assert op.path in paths;
      }
      RevertLosesNothing(RevertAll(cur, Reversed(h.log[i + 1..])), h.log[i].diff, p);
    }
  }

  /** The rebuilt document has exactly the values of version i if and only if no path has gained a
      value since: undoing never removes what a later version added. */
  lemma TravelExactlyWhen(h: History, pk: Path, id: Bytes, paths: set<Path>, i: nat)
    requires WellLogged(h, pk, id, paths) && i <= |h.log| && h.versions[|h.log|].Some?
    ensures var res := RevertAll(h.versions[|h.log|].value, Reversed(h.log[i..]));
            (forall p :: ValueAt(res, p) == ValueIn(h.versions[i], p)) <==> NothingAddedSince(h, i)
  {
    var res := RevertAll(h.versions[|h.log|].value, Reversed(h.log[i..]));
    TravelRestores(h, pk, id, paths, i);
    if NothingAddedSince(h, i) {
      forall p ensures ValueAt(res, p) == ValueIn(h.versions[i], p) {
        if ValueIn(h.versions[i], p) == None { NoValueAppears(h, pk, id, paths, i, p); }
      }
    } else {
      var k, p :| i <= k < |h.versions| && ValueIn(h.versions[k], p).Some? && ValueIn(h.versions[i], p) == None;
      NoValueIsLost(h, pk, id, paths, i, k, p);
    }
  }

  // ----- choosing the records -----

  predicate Selected(r: CDC, collection: Bytes, id: Bytes, since: int) {
    r.documentID == id && r.collection == collection && r.timestamp >= since
  }

  function Select(log: seq<CDC>, collection: Bytes, id: Bytes, since: int): seq<CDC> {
    if log == [] then []
    else
      var rest := Select(log[..|log| - 1], collection, id, since);
      if Selected(log[|log| - 1], collection, id, since) then rest + [log[|log| - 1]] else rest
  }

  predicate Newer(a: CDC, b: CDC) {
    a.timestamp > b.timestamp
  }

  datatype Outcome = Found(document: Json) | NotFound | Irreversible

  /** The selected records, newest first. */
  ghost predicate Chosen(log: seq<CDC>, collection: Bytes, id: Bytes, since: int, chosen: seq<CDC>) {
    SortedBy(Newer, chosen) && multiset(chosen) == multiset(Select(log, collection, id, since))
  }

  /** What TimeTravel answers who found these records. */
  ghost function Traveled(current: Option<Json>, chosen: seq<CDC>): Outcome {
    if current == None || chosen == [] then NotFound
    else if forall r :: r in chosen ==> Revertible(r.diff) then Found(RevertAll(current.value, chosen))
    else Irreversible
  }

  lemma NothingToTravelTo(chosen: seq<CDC>)
    ensures Traveled(None, chosen) == NotFound
  {
  }

  /** The history's records carry strictly increasing timestamps, and the log holds them among the
      records of other documents, in whatever order. */
  ghost predicate LogHolds(log: seq<CDC>, h: History, collection: Bytes, id: Bytes) {
    && (forall i, k :: 0 <= i < k < |h.log| ==> h.log[i].timestamp < h.log[k].timestamp)
    && (forall i :: 0 <= i < |h.log| ==> h.log[i].collection == collection && h.log[i].documentID == id)
    && (forall c: CDC :: c.collection == collection && c.documentID == id ==> multiset(log)[c] == multiset(h.log)[c])
  }

  lemma {:induction false} SelectMembers(log: seq<CDC>, collection: Bytes, id: Bytes, since: int, c: CDC)
    ensures multiset(Select(log, collection, id, since))[c] ==
        if Selected(c, collection, id, since) then multiset(log)[c] else 0
  {
    if log != [] {
      var init := log[..|log| - 1];
      assert log == init + [log[|log| - 1]];
      SelectMembers(init, collection, id, since, c);
    }
  }

  /** The number of records older than `since`. */
  ghost predicate SplitsAt(h: History, i: nat, since: int) {
    && i <= |h.log|
    && (forall k :: 0 <= k < i ==> h.log[k].timestamp < since)
    && (forall k :: i <= k < |h.log| ==> h.log[k].timestamp >= since)
  }

  lemma SplitAtMoment(h: History, since: int, i: nat, c: CDC)
    requires SplitsAt(h, i, since)
    ensures multiset(h.log[i..])[c] == if c.timestamp >= since then multiset(h.log)[c] else 0
  {
    assert h.log == h.log[..i] + h.log[i..];
    if c.timestamp >= since {
      assert c !in h.log[..i];
    } else {
      assert forall k :: 0 <= k < |h.log[i..]| ==> h.log[i..][k] == h.log[i + k];
      assert c !in h.log[i..];
    }
  }

  lemma SelectedSuffix(log: seq<CDC>, h: History, collection: Bytes, id: Bytes, since: int, i: nat)
    requires LogHolds(log, h, collection, id) && SplitsAt(h, i, since)
    ensures multiset(Select(log, collection, id, since)) == multiset(h.log[i..])
  {
    forall c ensures multiset(Select(log, collection, id, since))[c] == multiset(h.log[i..])[c] {
      SelectMembers(log, collection, id, since, c);
      SplitAtMoment(h, since, i, c);
      if c in h.log {
        var k :| 0 <= k < |h.log| && h.log[k] == c;
        assert c.collection == collection && c.documentID == id;
      }
    }
  }

  lemma NewestFirst(s: seq<CDC>)
    requires forall i, k :: 0 <= i < k < |s| ==> s[i].timestamp < s[k].timestamp
    ensures StrictlySortedBy(Newer, Reversed(s))
  {
    var r := Reversed(s);
    forall a, b | 0 <= a < b < |r| ensures Newer(r[a], r[b]) && !Newer(r[b], r[a]) {
      assert r[a] == s[|s| - 1 - a] && r[b] == s[|s| - 1 - b];
    }
  }

  /** With distinct timestamps the chosen records are the newest ones of the history, newest first. */
  lemma ChosenRecords(log: seq<CDC>, h: History, collection: Bytes, id: Bytes, since: int, i: nat, chosen: seq<CDC>)
    requires LogHolds(log, h, collection, id) && SplitsAt(h, i, since) && Chosen(log, collection, id, since, chosen)
    ensures chosen == Reversed(h.log[i..])
  {
    SelectedSuffix(log, h, collection, id, since, i);
    ReversedElements(h.log[i..]);
    NewestFirst(h.log[i..]);
    hide *;
    assert multiset(chosen) == multiset(Select(log, collection, id, since));
    SortedUnique(Newer, Reversed(h.log[i..]), chosen);
  }

  /** The records of a history can be undone. */
  lemma LoggedRevertible(h: History, pk: Path, id: Bytes, paths: set<Path>, r: CDC)
    requires WellLogged(h, pk, id, paths) && r in h.log
    ensures Revertible(r.diff)
  {
    var i :| 0 <= i < |h.log| && h.log[i] == r;
    assert LoggedAt(h, pk, id, i);
    forall op | op in r.diff ensures op.path != [] {
      assert JustifiedOp(op, h.cmds[i], h.versions[i].GetOr(EMPTY_OBJECT));
    }
  }

  /** TimeTravel to a moment in or after a document's logged life finds nothing if no record is as new as that
      moment; otherwise it returns a document with every value of the version that was current just before
      the moment, and exactly that version's values if and only if no path gained a value since. */
  lemma TimeTravelInvertsHistory(log: seq<CDC>, h: History, pk: Path, id: Bytes, paths: set<Path>,
      collection: Bytes, since: int, i: nat, chosen: seq<CDC>)
    requires WellLogged(h, pk, id, paths) && LogHolds(log, h, collection, id)
    requires SplitsAt(h, i, since) && h.versions[|h.log|].Some? && Chosen(log, collection, id, since, chosen)
    ensures var res := RevertAll(h.versions[|h.log|].value, chosen);
            && Traveled(h.versions[|h.log|], chosen) == (if i == |h.log| then NotFound else Found(res))
            && Restores(res, h.versions[i])
            && ((forall p :: ValueAt(res, p) == ValueIn(h.versions[i], p)) <==> NothingAddedSince(h, i))
  {
    ChosenRecords(log, h, collection, id, since, i, chosen);
    forall r | r in chosen ensures Revertible(r.diff) {
      LoggedRevertible(h, pk, id, paths, r);
    }
    hide Revertible, WellLogged, LogHolds, NothingAddedSince, RevertAll;
    TravelRestores(h, pk, id, paths, i);
    TravelExactlyWhen(h, pk, id, paths, i);
  }
}
