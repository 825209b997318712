/** Key-value transactions and their change stream: the entries log of both backends. */
module KvTx {
  import opened ByteStrings
  import opened Json

  type Data = map<Bytes, Bytes>

  datatype Op = SetOp(key: Bytes, value: Bytes) | DelOp(key: Bytes)

  function ApplyTo(data: Data, op: Op): Data {
    match op
    case SetOp(key, value) => data[key := value]
    case DelOp(key) => data - {key}
  }

  function At(data: Data, k: Bytes): Option<Bytes> {
    if k in data then Some(data[k]) else None
  }

  /** What a subscriber computes who starts from `data` and follows the stream. */
  function Replay(data: Data, entries: seq<Op>): Data {
    if entries == [] then data else ApplyTo(Replay(data, entries[..|entries| - 1]), entries[|entries| - 1])
  }

  lemma {:induction false} ReplayConcat(data: Data, a: seq<Op>, b: seq<Op>)
    ensures Replay(data, a + b) == Replay(Replay(data, a), b)
  {
    if b == [] {
      assert a + b == a;
    } else {
      var n := |b| - 1;
      assert (a + b)[..|a| + n] == a + b[..n];
      ReplayConcat(data, a, b[..n]);
    }
  }

  /** A subscription to the keys with a prefix. */
  function Below(prefix: Bytes, entries: seq<Op>): seq<Op> {
    if entries == [] then []
    else
      var init, last := entries[..|entries| - 1], entries[|entries| - 1];
      Below(prefix, init) + if HasPrefix(last.key, prefix) then [last] else []
  }

  function Part(prefix: Bytes, data: Data): Data {
    map k | k in data && HasPrefix(k, prefix) :: data[k]
  }

  /** A subscriber to a prefix can follow that part of the store on its own. */
  lemma {:induction false} PrefixReplay(prefix: Bytes, data: Data, entries: seq<Op>)
    ensures Replay(Part(prefix, data), Below(prefix, entries)) == Part(prefix, Replay(data, entries))
  {
    if entries != [] {
      var init, last := entries[..|entries| - 1], entries[|entries| - 1];
      PrefixReplay(prefix, data, init);
      var below := Below(prefix, init);
      if HasPrefix(last.key, prefix) {
        assert (below + [last])[..|below|] == below;
        assert ApplyTo(Part(prefix, Replay(data, init)), last) == Part(prefix, ApplyTo(Replay(data, init), last));
      } else {
        assert below + [] == below;
        assert Part(prefix, Replay(data, init)) == Part(prefix, ApplyTo(Replay(data, init), last));
      }
    }
  }

  /** So whatever it starts from that agrees with the store below the prefix, a subscriber has there what the
      store has, and is told of nothing else. */
  lemma PrefixFollows(prefix: Bytes, start: Data, data: Data, entries: seq<Op>, k: Bytes)
    requires forall x :: HasPrefix(x, prefix) ==> At(start, x) == At(data, x)
    ensures HasPrefix(k, prefix) ==> At(Replay(start, Below(prefix, entries)), k) == At(Replay(data, entries), k)
    ensures forall op :: op in Below(prefix, entries) ==> HasPrefix(op.key, prefix) && op in entries
    decreases |entries|
  {
    if entries != [] {
      var init, last := entries[..|entries| - 1], entries[|entries| - 1];
      PrefixFollows(prefix, start, data, init, k);
      var below := Below(prefix, init);
      assert (below + [last])[..|below|] == below && below + [] == below;
      assert entries == init + [last];
    }
  }

  // ----- badger -----

  class BadgerDb {
    var data: Data
    var published: seq<Op>

    constructor ()
      ensures data == map[] && published == []
    {
      data, published := map[], [];
    }
  }

  /** A write that is tried, and whether badger has a reason of its own to refuse it, such as the size of the
      key or of the transaction. */
  datatype Attempt = Attempt(op: Op, refused: bool)

  /** badger also refuses writes in a read-only transaction, and the empty key. */
  function Tried(readOnly: bool, a: Attempt): Attempt {
    a.(refused := a.refused || readOnly || a.op.key == [])
  }

  function AllTried(readOnly: bool, attempts: seq<Attempt>): seq<Attempt> {
    seq(|attempts|, i requires 0 <= i < |attempts| => Tried(readOnly, attempts[i]))
  }

  /** What the attempts leave in the store. */
  function DataAfter(data: Data, tried: seq<Attempt>): Data {
    if tried == [] then data
    else
      var was, last := DataAfter(data, tried[..|tried| - 1]), tried[|tried| - 1];
      if last.refused then was else ApplyTo(was, last.op)
  }

  /** What they leave in the log: Delete logs its entry before it knows whether it is refused. */
  function EntriesOf(tried: seq<Attempt>): seq<Op> {
    if tried == [] then []
    else
      var was, last := EntriesOf(tried[..|tried| - 1]), tried[|tried| - 1];
      if last.refused && last.op.SetOp? then was else was + [last.op]
  }

  class BadgerTx {
    const db: BadgerDb
    const readOnly: bool
    var view: Data
    var entries: seq<Op>

    constructor (db: BadgerDb, readOnly: bool)
      ensures this.db == db && this.readOnly == readOnly && view == db.data && entries == []
    {
      this.db, this.readOnly, view, entries := db, readOnly, db.data, [];
    }

    method Get(key: Bytes) returns (value: Option<Bytes>)
      ensures value == if key in view then Some(view[key]) else None
    {
      value := if key in view then Some(view[key]) else None;
    }

    /** `refused` is badger's own verdict. */
    method Set(key: Bytes, value: Bytes, refused: bool) returns (ok: bool)
      modifies this
      ensures ok <==> !readOnly && key != [] && !refused
      ensures view == if ok then old(view)[key := value] else old(view)
      ensures entries == if ok then old(entries) + [SetOp(key, value)] else old(entries)
    {
      if readOnly || key == [] || refused { return false; }
      view := view[key := value];
      entries := entries + [SetOp(key, value)];
      return true;
    }

    method Delete(key: Bytes, refused: bool) returns (ok: bool)
      modifies this
      ensures ok <==> !readOnly && key != [] && !refused
      ensures view == if ok then old(view) - {key} else old(view)
      ensures entries == old(entries) + [DelOp(key)]
    {
      entries := entries + [DelOp(key)];
      if readOnly || key == [] || refused { return false; }
      view := view - {key};
      return true;
    }

    method Rollback()
      modifies this
      ensures entries == []
    {
      entries := [];
    }

    /** Makes the writes visible, then publishes every entry in order. */
    method Commit()
      modifies db
      ensures db.data == view && db.published == old(db.published) + entries
    {
      db.data := view;
      for i := 0 to |entries|
        invariant db.data == view && db.published == old(db.published) + entries[..i]
      {
        db.published := db.published + [entries[i]];
      }
      assert entries[..|entries|] == entries;
    }
  }

  /** One transaction of a serial run on badger. */
  datatype BadgerScript = BadgerScript(readOnly: bool, attempts: seq<Attempt>, commit: bool)

  /** The attempts of a transaction that take part in the run: all or none. */
  function Taking(script: BadgerScript): seq<Attempt> {
    if script.commit then AllTried(script.readOnly, script.attempts) else []
  }

  /** One transaction. Nothing happens to the store or the stream unless it commits. */
  method RunBadgerTx(db: BadgerDb, script: BadgerScript)
    modifies db
    ensures db.data == DataAfter(old(db.data), Taking(script))
    ensures db.published == old(db.published) + EntriesOf(Taking(script))
  {
    var tx := new BadgerTx(db, script.readOnly);
    ghost var tried := AllTried(script.readOnly, script.attempts);
    for i := 0 to |script.attempts|
      invariant fresh(tx) && tx.db == db && tx.readOnly == script.readOnly
      invariant db.data == old(db.data) && db.published == old(db.published)
      invariant tx.view == DataAfter(old(db.data), tried[..i]) && tx.entries == EntriesOf(tried[..i])
    {
      var a := script.attempts[i];
      assert tried[..i + 1][..i] == tried[..i] && tried[i] == Tried(script.readOnly, a);
      match a.op
      case SetOp(key, value) => var _ := tx.Set(key, value, a.refused);
      case DelOp(key) => var _ := tx.Delete(key, a.refused);
    }
    assert tried[..|tried|] == tried;
    if script.commit { tx.Commit(); } else { tx.Rollback(); }
  }

  /** All attempts on the key from the i-th on are refused. */
  predicate RefusedFrom(tried: seq<Attempt>, k: Bytes, i: nat) {
    forall j :: i <= j < |tried| && tried[j].op.key == k ==> tried[j].refused
  }

  /** Refused attempts change nothing, so a key has what the last one that is not refused leaves. */
  lemma {:induction false} LastWriteWins(data: Data, tried: seq<Attempt>, k: Bytes, i: nat)
    requires i <= |tried| && RefusedFrom(tried, k, i)
    ensures At(DataAfter(data, tried), k) == At(DataAfter(data, tried[..i]), k)
    ensures i > 0 && !tried[i - 1].refused && tried[i - 1].op.key == k ==>
      At(DataAfter(data, tried), k) == if tried[i - 1].op.SetOp? then Some(tried[i - 1].op.value) else None
    decreases |tried|
  {
    if i == |tried| {
      assert tried[..i] == tried;
    } else {
      var n := |tried| - 1;
      assert forall j :: 0 <= j < n ==> tried[..n][j] == tried[j];
      assert tried[..n][..i] == tried[..i];
      LastWriteWins(data, tried[..n], k, i);
    }
  }

  /** A read-only transaction leaves the store alone, whatever it tries; its deletions reach the stream. */
  lemma {:induction false} ReadOnlyChangesNothing(data: Data, attempts: seq<Attempt>)
    ensures DataAfter(data, AllTried(true, attempts)) == data
    ensures forall op :: op in EntriesOf(AllTried(true, attempts)) ==> op.DelOp?
  {
    if attempts != [] {
      var n := |attempts| - 1;
      assert AllTried(true, attempts)[..n] == AllTried(true, attempts[..n]);
      ReadOnlyChangesNothing(data, attempts[..n]);
    }
  }

  // ----- following the stream -----

  /** A deletion of the stored key was refused, and no write of the key has succeeded since. */
  ghost predicate LeftDeleted(data: Data, tried: seq<Attempt>, k: Bytes) {
    exists i :: 0 <= i < |tried| && DeletesFalsely(data, tried, i, k)
      && forall j :: i < j < |tried| && tried[j].op.key == k ==> tried[j].refused
  }

  ghost predicate DeletesFalsely(data: Data, tried: seq<Attempt>, i: nat, k: Bytes)
    requires i < |tried|
  {
    tried[i].refused && tried[i].op == DelOp(k) && k in DataAfter(data, tried[..i])
  }

  lemma LeftDeletedNext(data: Data, tried: seq<Attempt>, k: Bytes)
    requires tried != []
    ensures var n := |tried| - 1;
            LeftDeleted(data, tried, k) <==>
              || DeletesFalsely(data, tried, n, k)
              || (LeftDeleted(data, tried[..n], k) && (tried[n].op.key == k ==> tried[n].refused))
  {
    var n := |tried| - 1;
    hide DataAfter;
    assert forall i :: 0 <= i < n ==> tried[..n][..i] == tried[..i];
    assert forall i :: 0 <= i < n ==> (DeletesFalsely(data, tried[..n], i, k) <==> DeletesFalsely(data, tried, i, k));
    if LeftDeleted(data, tried[..n], k) {
      var i :| 0 <= i < n && DeletesFalsely(data, tried[..n], i, k)
        && forall j :: i < j < n && tried[..n][j].op.key == k ==> tried[..n][j].refused;
      assert DeletesFalsely(data, tried, i, k);
      assert forall j :: i < j < n ==> tried[..n][j] == tried[j];
    }
    if LeftDeleted(data, tried, k) && !DeletesFalsely(data, tried, n, k) {
      var i :| 0 <= i < |tried| && DeletesFalsely(data, tried, i, k)
        && forall j :: i < j < |tried| && tried[j].op.key == k ==> tried[j].refused;
      assert DeletesFalsely(data, tried[..n], i, k);
    }
  }

  /** What a subscriber has at a key: what the store has, unless a refused deletion of it is left. */
  lemma {:induction false} ReplayAt(data: Data, tried: seq<Attempt>, k: Bytes)
    ensures At(Replay(data, EntriesOf(tried)), k) ==
            if LeftDeleted(data, tried, k) then None else At(DataAfter(data, tried), k)
    ensures LeftDeleted(data, tried, k) ==> k in DataAfter(data, tried)
  {
    if tried != [] {
      var n := |tried| - 1;
      ReplayAt(data, tried[..n], k);
      LeftDeletedNext(data, tried, k);
      var was := EntriesOf(tried[..n]);
      assert (was + [tried[n].op])[..|was|] == was;
    }
  }

  /** The published entries, folded in order over the store at the beginning, give the current store if and
      only if no refused deletion is left. */
  lemma ReplayExactly(data: Data, tried: seq<Attempt>)
    ensures Replay(data, EntriesOf(tried)) == DataAfter(data, tried) <==> forall k :: !LeftDeleted(data, tried, k)
  {
    hide LeftDeleted;
    var seen, now := Replay(data, EntriesOf(tried)), DataAfter(data, tried);
    forall k
      ensures At(seen, k) == if LeftDeleted(data, tried, k) then None else At(now, k)
      ensures LeftDeleted(data, tried, k) ==> k in now
    {
      ReplayAt(data, tried, k);
    }
    if forall k :: !LeftDeleted(data, tried, k) {
      assert forall k :: At(seen, k) == At(now, k);
      assert forall k :: k in seen <==> k in now;
      assert forall k :: k in seen ==> seen[k] == now[k];
    }
  }

  // ----- serial runs -----

  /** All attempts of the transactions that commit, in order. */
  function TakingAll(scripts: seq<BadgerScript>): seq<Attempt> {
    if scripts == [] then [] else TakingAll(scripts[..|scripts| - 1]) + Taking(scripts[|scripts| - 1])
  }

  lemma {:induction false} AttemptsConcat(data: Data, a: seq<Attempt>, b: seq<Attempt>)
    ensures DataAfter(data, a + b) == DataAfter(DataAfter(data, a), b)
    ensures EntriesOf(a + b) == EntriesOf(a) + EntriesOf(b)
  {
    if b == [] {
      assert a + b == a;
    } else {
      var n := |b| - 1;
      assert (a + b)[..|a| + n] == a + b[..n];
      AttemptsConcat(data, a, b[..n]);
    }
  }

  lemma {:induction false} RollbacksTakeNoPart(scripts: seq<BadgerScript>)
    requires forall s :: s in scripts ==> !s.commit
    ensures TakingAll(scripts) == []
  {
    if scripts != [] { RollbacksTakeNoPart(scripts[..|scripts| - 1]); }
  }

  /** The transactions one after the other. The stream gives the store if and only if no refused deletion,
      in a read-only or in a writable transaction, is left; what is rolled back takes no part. */
  method RunBadger(db: BadgerDb, scripts: seq<BadgerScript>)
    modifies db
    ensures db.data == DataAfter(old(db.data), TakingAll(scripts))
    ensures db.published == old(db.published) + EntriesOf(TakingAll(scripts))
    ensures db.data == Replay(old(db.data), db.published[|old(db.published)|..]) <==>
            forall k :: !LeftDeleted(old(db.data), TakingAll(scripts), k)
    ensures (forall s :: s in scripts ==> !s.commit) ==> db.published == old(db.published) && db.data == old(db.data)
  {
    hide LeftDeleted, Replay, Taking;
    for i := 0 to |scripts|
      invariant db.data == DataAfter(old(db.data), TakingAll(scripts[..i]))
      invariant db.published == old(db.published) + EntriesOf(TakingAll(scripts[..i]))
    {
      assert scripts[..i + 1][..i] == scripts[..i];
      AttemptsConcat(old(db.data), TakingAll(scripts[..i]), Taking(scripts[i]));
      RunBadgerTx(db, scripts[i]);
    }
    assert scripts[..|scripts|] == scripts;
    ReplayExactly(old(db.data), TakingAll(scripts));
    if forall s :: s in scripts ==> !s.commit { RollbacksTakeNoPart(scripts); }
  }
}
