/** The TiKV backend: transactions with a shared read cache beside the store. */
module TikvTx {
  import opened ByteStrings
  import opened Json
  import opened KvTx

  /** TiKV stores no empty value, so the empty cache value can stand for a miss. */
  predicate Storable(data: Data) {
    forall k :: k in data ==> data[k] != []
  }

  class TikvDb {
    var data: Data
    var cache: Data
    var published: seq<Op>

    constructor ()
      ensures data == map[] && cache == map[] && published == []
    {
      data, cache, published := map[], map[], [];
    }
  }

  predicate Cached(cache: Data, key: Bytes) {
    key in cache && cache[key] != []
  }

  /** Every non-empty cached value is the committed one. */
  ghost predicate Coherent(data: Data, cache: Data) {
    forall k :: Cached(cache, k) ==> k in data && data[k] == cache[k]
  }

  function Read(data: Data, key: Bytes): Option<Bytes> {
    if key in data then Some(data[key]) else None
  }

  /** The last thing the entries say about a key. */
  function LastOf(entries: seq<Op>, key: Bytes): Option<Op> {
    if entries == [] then None
    else if entries[|entries| - 1].key == key then Some(entries[|entries| - 1])
    else LastOf(entries[..|entries| - 1], key)
  }

  function CacheValue(op: Op): Bytes {
    if op.SetOp? then op.value else []
  }

  /** The cache after the values of a committed transaction have been written to it. */
  function ToSet(entries: seq<Op>): Data {
    if entries == [] then map[]
    else
      var last := entries[|entries| - 1];
      ToSet(entries[..|entries| - 1])[last.key := CacheValue(last)]
  }

  class Tx {
    const db: TikvDb
    const readOnly: bool
    var view: Data
    var entries: seq<Op>

    constructor (db: TikvDb, readOnly: bool)
      ensures this.db == db && this.readOnly == readOnly && view == db.data && entries == []
    {
      this.db, this.readOnly, view, entries := db, readOnly, db.data, [];
    }

    /** The view is the committed store with the entries applied. */
    ghost predicate Valid()
      reads this, db
    {
      view == Replay(db.data, entries) && Storable(db.data) && Storable(view) && Coherent(db.data, db.cache)
    }

    /** The cache is asked first. In a transaction that has written nothing that is as good as reading
        the store; in one that has, it is so exactly when the key is not cached or still has its
        committed value. */
    method Get(key: Bytes) returns (value: Option<Bytes>)
      requires Valid()
      ensures entries == [] ==> value == Read(db.data, key)
      ensures value == if Cached(db.cache, key) then Read(db.data, key) else Read(view, key)
      ensures value == Read(view, key) <==> !Cached(db.cache, key) || Read(view, key) == Read(db.data, key)
    {
      if key in db.cache && db.cache[key] != [] { return Some(db.cache[key]); }
      value := if key in view then Some(view[key]) else None;
    }

    method Set(key: Bytes, value: Bytes) returns (ok: bool)
      requires Valid()
      modifies this
      ensures Valid() && (ok <==> !readOnly && value != [])
      ensures view == if ok then old(view)[key := value] else old(view)
      ensures entries == if ok then old(entries) + [SetOp(key, value)] else old(entries)
    {
      if readOnly || value == [] { return false; }
      EntryApplied(db.data, entries, SetOp(key, value));
      view := view[key := value];
      entries := entries + [SetOp(key, value)];
      return true;
    }

    /** The cached value goes at once, whether or not the transaction will commit. */
    method Delete(key: Bytes) returns (ok: bool)
      requires Valid()
      modifies this, db`cache
      ensures Valid() && (ok <==> !readOnly)
      ensures view == if ok then old(view) - {key} else old(view)
      ensures entries == if ok then old(entries) + [DelOp(key)] else old(entries)
      ensures db.cache == if ok then old(db.cache) - {key} else old(db.cache)
    {
      if readOnly { return false; }
      EntryApplied(db.data, entries, DelOp(key));
      view := view - {key};
      db.cache := db.cache - {key};
      entries := entries + [DelOp(key)];
      return true;
    }

    method Rollback()
      modifies this
      ensures entries == []
    {
      entries := [];
    }

    method Commit()
      requires Valid()
      modifies this, db
      ensures db.data == old(view) && Storable(db.data) && Coherent(db.data, db.cache)
      ensures db.published == old(db.published) + old(entries) && entries == []
    {
      ghost var was := db.data;
      db.data := view;
      var toSet: Data := map[];
      for i := 0 to |entries|
        invariant db.data == view && db.cache == old(db.cache) && entries == old(entries) && view == old(view)
        invariant db.published == old(db.published) + entries[..i] && toSet == ToSet(entries[..i])
      {
        assert entries[..i + 1][..i] == entries[..i];
        db.published := db.published + [entries[i]];
        match entries[i]
        case DelOp(key) => toSet := toSet[key := []];
        case SetOp(key, value) => toSet := toSet[key := value];
      }
      assert entries[..|entries|] == entries;
      CommitKeepsCoherent(was, entries, db.cache);
      db.cache := db.cache + toSet;
      entries := [];
    }
  }

  lemma EntryApplied(data: Data, entries: seq<Op>, op: Op)
    ensures Replay(data, entries + [op]) == ApplyTo(Replay(data, entries), op)
  {
    assert (entries + [op])[..|entries|] == entries;
  }

  lemma {:induction false} ReplayAt(data: Data, entries: seq<Op>, key: Bytes)
    ensures Read(Replay(data, entries), key) ==
            match LastOf(entries, key)
            case None => Read(data, key)
            case Some(op) => if op.SetOp? then Some(op.value) else None
  {
    if entries != [] { ReplayAt(data, entries[..|entries| - 1], key); }
  }

  lemma {:induction false} ToSetAt(entries: seq<Op>, key: Bytes)
    ensures key in ToSet(entries) <==> LastOf(entries, key).Some?
    ensures key in ToSet(entries) ==> ToSet(entries)[key] == CacheValue(LastOf(entries, key).value)
  {
    if entries != [] { ToSetAt(entries[..|entries| - 1], key); }
  }

  /** Writing the last value of every changed key brings the cache up to the new store. */
  lemma CommitKeepsCoherent(data: Data, entries: seq<Op>, cache: Data)
    requires Coherent(data, cache)
    ensures Coherent(Replay(data, entries), cache + ToSet(entries))
  {
    var cache' := cache + ToSet(entries);
    forall k | Cached(cache', k) ensures k in Replay(data, entries) && Replay(data, entries)[k] == cache'[k] {
      ReplayAt(data, entries, k);
      ToSetAt(entries, k);
      assert k !in ToSet(entries) ==> Cached(cache, k);
    }
  }

  /** TiKV refuses writes in a read-only transaction, and empty values; nothing is logged then. */
  function TikvEntries(readOnly: bool, ops: seq<Op>): seq<Op> {
    if ops == [] then []
    else
      var was, op := TikvEntries(readOnly, ops[..|ops| - 1]), ops[|ops| - 1];
      if readOnly || op == SetOp(op.key, []) then was else was + [op]
  }

  /** One transaction of a serial run: its writes and how it ends. */
  datatype Script = Script(readOnly: bool, ops: seq<Op>, commit: bool)

  /** One transaction. If it is rolled back the cache may have lost entries, no more. */
  method RunTikvTx(db: TikvDb, script: Script)
    requires Storable(db.data) && Coherent(db.data, db.cache)
    modifies db
    ensures Storable(db.data) && Coherent(db.data, db.cache)
    ensures var entries := if script.commit then TikvEntries(script.readOnly, script.ops) else [];
            db.data == Replay(old(db.data), entries) && db.published == old(db.published) + entries
  {
    var tx := new Tx(db, script.readOnly);
    for i := 0 to |script.ops|
      invariant fresh(tx) && tx.db == db && tx.readOnly == script.readOnly && tx.Valid()
      invariant db.data == old(db.data) && db.published == old(db.published)
      invariant tx.entries == TikvEntries(script.readOnly, script.ops[..i])
    {
      assert script.ops[..i + 1][..i] == script.ops[..i];
      match script.ops[i]
      case SetOp(key, value) => var _ := tx.Set(key, value);
      case DelOp(key) => var _ := tx.Delete(key);
    }
    assert script.ops[..|script.ops|] == script.ops;
    if script.commit { tx.Commit(); } else { tx.Rollback(); }
  }

  /** Cache coherence and faithful publication over any serial run of commits and rollbacks. */
  method RunTikv(db: TikvDb, scripts: seq<Script>)
    requires Storable(db.data) && Coherent(db.data, db.cache)
    modifies db
    ensures Storable(db.data) && Coherent(db.data, db.cache)
    ensures |old(db.published)| <= |db.published| && db.published[..|old(db.published)|] == old(db.published)
    ensures db.data == Replay(old(db.data), db.published[|old(db.published)|..])
    ensures (forall s :: s in scripts ==> !s.commit) ==> db.published == old(db.published) && db.data == old(db.data)
  {
    ghost var p := db.published;
    for i := 0 to |scripts|
      invariant Storable(db.data) && Coherent(db.data, db.cache)
      invariant |p| <= |db.published| && db.published[..|p|] == p
      invariant db.data == Replay(old(db.data), db.published[|p|..])
      invariant (forall s :: s in scripts[..i] ==> !s.commit) ==> db.published == p && db.data == old(db.data)
    {
      ghost var stream := db.published[|p|..];
      assert scripts[..i + 1] == scripts[..i] + [scripts[i]];
      assert scripts[i] in scripts[..i + 1];
      RunTikvTx(db, scripts[i]);
      ghost var more := if scripts[i].commit then TikvEntries(scripts[i].readOnly, scripts[i].ops) else [];
      ReplayConcat(old(db.data), stream, more);
      assert db.published[|p|..] == stream + more;
    }
  }
}
