/** How index entries are laid out as keys of the sorted store. */
module Indexing {
  import opened ByteStrings
  import opened Json
  import opened Schemas

  /** "default" and "index". */
  const NAMESPACE: Bytes := [100, 101, 102, 97, 117, 108, 116]
  const INDEX_SEGMENT: Bytes := [105, 110, 100, 101, 120]

  // ----- values -----

  const TWO_TO_64: nat := 0x1_0000_0000_0000_0000

  /** cast.ToUint64 of a float: negatives become 0 and fractions are cut off; beyond the range the
      conversion yields the platform's out-of-range value. */
  function ToUint64(x: real): (r: nat)
    ensures r < TWO_TO_64
  {
    if x < 0.0 then 0
    else if x.Floor < TWO_TO_64 then x.Floor
    else 0x8000_0000_0000_0000
  }

  predicate Scalar(j: Json) {
    !j.Obj? && !j.Arr?
  }

  /** util.EncodeIndexValue on scalars. */
  function EncodeIndexValue(v: Json): Bytes
    requires Scalar(v)
  {
    match v
    case Null => []
    case Bool(b) => if b then [116, 114, 117, 101] else [102, 97, 108, 115, 101]
    case Str(s) => s
    case Num(n) => BigEndian(ToUint64(n), 8)
  }

  lemma Width64()
    ensures Pow256(8) == TWO_TO_64
  {
    assert Pow256(4) == 0x1_0000_0000;
    assert Pow256(5) == 256 * Pow256(4);
    assert Pow256(6) == 256 * Pow256(5);
    assert Pow256(7) == 256 * Pow256(6);
  }

  /** The conversion never reverses the order of numbers below 2^64. */
  lemma ToUint64Monotone(x: real, y: real)
    requires x <= y < TWO_TO_64 as real
    ensures ToUint64(x) <= ToUint64(y)
  {
  }

  /** An indexed field has an entry segment when the document holds a scalar there. */
  function ScalarAt(doc: Json, f: Path): Option<Json> {
    match Lookup(doc, f)
    case Some(v) => if Scalar(v) then Some(v) else None
    case None => None
  }

  type Values = map<Path, Json>

  /** The part of the flattened document an index looks at. */
  function IndexedValues(fields: seq<Path>, doc: Json): (r: Values)
    ensures forall f :: f in r ==> Scalar(r[f])
  {
    map f | f in fields && ScalarAt(doc, f).Some? :: ScalarAt(doc, f).value
  }

  // ----- key segments -----

  /** A field as a clause or an index names it. */
  function FieldText(f: Path): Bytes {
    JoinDots(f)
  }

  /** bytes.Join with a zero byte. */
  function Join(segments: seq<Bytes>): Bytes {
    if segments == [] then []
    else if |segments| == 1 then segments[0]
    else Join(segments[..|segments| - 1]) + [ZERO] + segments[|segments| - 1]
  }

  datatype IndexPathPrefix = IndexPathPrefix(prefix: seq<Bytes>, fields: seq<Bytes>, seekValue: Option<Json>) {
    function Append(field: Path, value: Json): IndexPathPrefix
      requires Scalar(value)
    {
      IndexPathPrefix(prefix, fields + [FieldText(field), EncodeIndexValue(value)], None)
    }

    function Seek(value: Json): IndexPathPrefix
      requires Scalar(value)
    {
      IndexPathPrefix(prefix, fields, Some(value))
    }

    function Path(): Bytes
      requires seekValue.Some? ==> Scalar(seekValue.value)
    {
      Join(prefix + fields + if seekValue.Some? then [EncodeIndexValue(seekValue.value)] else [])
    }
  }

  function Base(coll: Bytes, name: Bytes): Bytes {
    NAMESPACE + [ZERO] + INDEX_SEGMENT + [ZERO] + coll + [ZERO] + name
  }

  function FieldSegment(f: Path, v: Json): Bytes
    requires Scalar(v)
  {
    [ZERO] + FieldText(f) + [ZERO] + EncodeIndexValue(v)
  }

  /** The segments of the fields that have a value, in index order. */
  function Tail(fields: seq<Path>, vals: Values): Bytes
    requires forall f :: f in vals ==> Scalar(vals[f])
  {
    if fields == [] then []
    else
      var init, last := fields[..|fields| - 1], fields[|fields| - 1];
      Tail(init, vals) + if last in vals then FieldSegment(last, vals[last]) else []
  }

  lemma JoinSnoc(a: seq<Bytes>, x: Bytes)
    requires a != []
    ensures Join(a + [x]) == Join(a) + [ZERO] + x
  {
    assert (a + [x])[..|a|] == a;
  }

  lemma JoinBase(coll: Bytes, name: Bytes)
    ensures Join([NAMESPACE, INDEX_SEGMENT, coll, name]) == Base(coll, name)
  {
    var a: seq<Bytes> := [NAMESPACE];
    JoinSnoc(a, INDEX_SEGMENT);
    JoinSnoc(a + [INDEX_SEGMENT], coll);
    JoinSnoc(a + [INDEX_SEGMENT] + [coll], name);
    assert a + [INDEX_SEGMENT] + [coll] + [name] == [NAMESPACE, INDEX_SEGMENT, coll, name];
  }

  lemma StartPath(coll: Bytes, name: Bytes)
    ensures IndexPathPrefix([NAMESPACE, INDEX_SEGMENT, coll, name], [], None).Path() == Base(coll, name)
  {
    hide Join, Base;
    var segments := [NAMESPACE, INDEX_SEGMENT, coll, name];
    JoinBase(coll, name);
    assert segments + [] + [] == segments;
  }

  lemma JoinTwo(a: seq<Bytes>, x: Bytes, y: Bytes)
    requires a != []
    ensures Join(a + [x, y]) == Join(a) + ([ZERO] + x + [ZERO] + y)
  {
    JoinSnoc(a, x);
    JoinSnoc(a + [x], y);
    assert a + [x, y] == a + [x] + [y];
    assert Join(a) + [ZERO] + x + [ZERO] + y == Join(a) + ([ZERO] + x + [ZERO] + y);
  }

  lemma PathAppend(p: IndexPathPrefix, f: Path, v: Json)
    requires Scalar(v) && p.prefix != [] && p.seekValue == None
    ensures p.Append(f, v).Path() == p.Path() + FieldSegment(f, v)
  {
    var pair := [FieldText(f), EncodeIndexValue(v)];
    assert p.prefix + p.fields + [] == p.prefix + p.fields;
    assert p.prefix + (p.fields + pair) + [] == p.prefix + p.fields + pair;
    JoinTwo(p.prefix + p.fields, FieldText(f), EncodeIndexValue(v));
  }

  lemma PathSeek(p: IndexPathPrefix, id: Bytes)
    requires p.prefix != [] && p.seekValue == None
    ensures p.Seek(Str(id)).Path() == p.Path() + [ZERO] + id
  {
    JoinSnoc(p.prefix + p.fields, id);
    assert p.prefix + p.fields + [] == p.prefix + p.fields;
  }

  lemma TailNext(fields: seq<Path>, k: nat, vals: Values)
    requires k < |fields| && forall f :: f in vals ==> Scalar(vals[f])
    ensures Tail(fields[..k + 1], vals) ==
            Tail(fields[..k], vals) + if fields[k] in vals then FieldSegment(fields[k], vals[fields[k]]) else []
  {
    assert fields[..k + 1][..k] == fields[..k];
  }

  lemma NoTail(vals: Values)
    requires forall g :: g in vals ==> Scalar(vals[g])
    ensures Tail([], vals) == []
  {
  }

  /** seekPrefix: the index name, then a segment pair for every indexed field that has a value. */
  method SeekPrefix(coll: Bytes, i: Index, vals: Values) returns (p: IndexPathPrefix)
    requires forall f :: f in vals ==> Scalar(vals[f])
    ensures p.prefix != [] && p.seekValue == None
    ensures p.Path() == Base(coll, i.name) + Tail(i.fields, vals)
  {
    hide IndexPathPrefix.Path, Base, FieldSegment, Tail, Scalar;
    p := IndexPathPrefix([NAMESPACE, INDEX_SEGMENT, coll, i.name], [], None);
    StartPath(coll, i.name);
    NoTail(vals);
    for k := 0 to |i.fields|
      invariant p.prefix != [] && p.seekValue == None
      invariant p.Path() == Base(coll, i.name) + Tail(i.fields[..k], vals)
    {
      var field := i.fields[k];
      TailNext(i.fields, k, vals);
      if field in vals {
        PathAppend(p, field, vals[field]);
        p := p.Append(field, vals[field]);
      }
    }
    assert i.fields[..|i.fields|] == i.fields;
  }

  // ----- entries -----

  function EntryTail(i: Index, doc: Json): Bytes {
    Tail(i.fields, IndexedValues(i.fields, doc))
  }

  /** The key under which an index keeps the entry of a document. */
  function EntryKey(coll: Bytes, i: Index, doc: Json, id: Bytes): Bytes {
    Base(coll, i.name) + EntryTail(i, doc) + [ZERO] + id
  }

  /** The primary entry is addressed by the id alone. */
  lemma PrimaryKeyByValues(coll: Bytes, s: Schema, doc: Json, id: Bytes)
    requires s.WellFormed() && Lookup(doc, s.pk) == Some(Str(id))
    ensures EntryTail(s.PrimaryIndex(), doc) == Tail([s.pk], map[s.pk := Str(id)])
  {
    assert s.GoodIndex(s.primaryName);
    var fields := s.PrimaryIndex().fields;
    assert fields == [s.pk];
    assert IndexedValues(fields, doc) == map[s.pk := Str(id)];
  }

  // ----- reading a key back -----

  /** The last element of bytes.Split(key, "\0"). */
  function LastSegment(k: Bytes): Bytes {
    if k == [] || k[|k| - 1] == ZERO then [] else LastSegment(k[..|k| - 1]) + [k[|k| - 1]]
  }

  function FirstSegment(k: Bytes): Bytes {
    if k == [] || k[0] == ZERO then [] else [k[0]] + FirstSegment(k[1..])
  }

  /** What follows the first zero byte. */
  function AfterFirst(k: Bytes): Bytes {
    if k == [] then [] else if k[0] == ZERO then k[1..] else AfterFirst(k[1..])
  }

  function SlotOf(k: Bytes): Slot {
    var rest := AfterFirst(AfterFirst(k));
    Slot(DocId(FirstSegment(rest), LastSegment(k)), FirstSegment(AfterFirst(rest)))
  }

  lemma {:induction false} LastSegmentOf(a: Bytes, id: Bytes)
    requires ZeroFree(id)
    ensures LastSegment(a + [ZERO] + id) == id
  {
    var k := a + [ZERO] + id;
    if id != [] {
      assert k[..|k| - 1] == a + [ZERO] + id[..|id| - 1];
      LastSegmentOf(a, id[..|id| - 1]);
    }
  }

  lemma {:induction false} FirstSegmentOf(a: Bytes, rest: Bytes)
    requires ZeroFree(a)
    ensures FirstSegment(a + [ZERO] + rest) == a
    ensures AfterFirst(a + [ZERO] + rest) == rest
  {
    var k := a + [ZERO] + rest;
    if a == [] {
      assert k[1..] == rest;
    } else {
      assert k[0] == a[0] && a[0] != ZERO;
      assert k[1..] == a[1..] + [ZERO] + rest;
      FirstSegmentOf(a[1..], rest);
    }
  }

  lemma KeyShape(coll: Bytes, name: Bytes, t: Bytes)
    ensures Base(coll, name) + t == NAMESPACE + [ZERO] + (INDEX_SEGMENT + [ZERO] + (coll + [ZERO] + (name + t)))
  {
  }

  lemma HeadOfKey(coll: Bytes, name: Bytes, t: Bytes)
    requires ZeroFree(coll) && ZeroFree(name)
    ensures var rest := AfterFirst(AfterFirst(Base(coll, name) + ([ZERO] + t)));
            FirstSegment(rest) == coll && FirstSegment(AfterFirst(rest)) == name
  {
    KeyShape(coll, name, [ZERO] + t);
    assert name + ([ZERO] + t) == name + [ZERO] + t;
    FirstSegmentOf(NAMESPACE, INDEX_SEGMENT + [ZERO] + (coll + [ZERO] + (name + [ZERO] + t)));
    FirstSegmentOf(INDEX_SEGMENT, coll + [ZERO] + (name + [ZERO] + t));
    FirstSegmentOf(coll, name + [ZERO] + t);
    FirstSegmentOf(name, t);
  }

  /** Everything of an entry key after the index name starts with a separator. */
  lemma EntryRest(coll: Bytes, i: Index, doc: Json, id: Bytes) returns (t: Bytes)
    ensures EntryKey(coll, i, doc, id) == Base(coll, i.name) + ([ZERO] + t)
  {
    var tail := EntryTail(i, doc) + [ZERO] + id;
    TailShape(i.fields, IndexedValues(i.fields, doc));
    assert tail[0] == ZERO;
    t := tail[1..];
    assert [ZERO] + t == tail;
    assert EntryKey(coll, i, doc, id) == Base(coll, i.name) + tail;
  }

  /** Key codec: collection, index name and id can be read back from any entry key, whatever bytes
      the encoded values contain. So entries of different (collection, index, id) never collide. */
  lemma SlotOfEntry(coll: Bytes, i: Index, doc: Json, id: Bytes)
    requires ZeroFree(coll) && ZeroFree(i.name) && ZeroFree(id)
    ensures SlotOf(EntryKey(coll, i, doc, id)) == Slot(DocId(coll, id), i.name)
  {
    LastSegmentOf(Base(coll, i.name) + EntryTail(i, doc), id);
    var t := EntryRest(coll, i, doc, id);
    HeadOfKey(coll, i.name, t);
  }

  lemma {:induction false} TailAppend(a: seq<Path>, b: seq<Path>, vals: Values)
    requires forall f :: f in vals ==> Scalar(vals[f])
    ensures Tail(a + b, vals) == Tail(a, vals) + Tail(b, vals)
  {
    hide FieldSegment, Scalar;
    if b == [] {
      assert a + b == a;
    } else {
      var last := b[|b| - 1];
      TailAppend(a, b[..|b| - 1], vals);
      LastOfAppend(a, b);
      Associative(Tail(a, vals), Tail(b[..|b| - 1], vals), if last in vals then FieldSegment(last, vals[last]) else []);
    }
  }

  lemma Associative<T>(x: seq<T>, y: seq<T>, z: seq<T>)
    ensures (x + y) + z == x + (y + z)
  {
  }

  lemma LastOfAppend<T>(a: seq<T>, b: seq<T>)
    requires b != []
    ensures a + b != [] && (a + b)[|a + b| - 1] == b[|b| - 1]
    ensures (a + b)[..|a + b| - 1] == a + b[..|b| - 1]
  {
  }

  lemma {:induction false} TailAgree(fields: seq<Path>, v: Values, w: Values)
    requires forall f :: f in v ==> Scalar(v[f])
    requires forall f :: f in w ==> Scalar(w[f])
    requires forall f :: f in fields ==> (f in v <==> f in w) && (f in v ==> v[f] == w[f])
    ensures Tail(fields, v) == Tail(fields, w)
  {
    if fields != [] {
      assert fields[|fields| - 1] in fields;
      TailAgree(fields[..|fields| - 1], v, w);
    }
  }

  lemma {:induction false} TailNone(fields: seq<Path>, vals: Values)
    requires forall f :: f in vals ==> Scalar(vals[f])
    requires forall f :: f in fields ==> f !in vals
    ensures Tail(fields, vals) == []
  {
    if fields != [] {
      assert fields[|fields| - 1] in fields;
      TailNone(fields[..|fields| - 1], vals);
    }
  }

  lemma {:induction false} TailShape(fields: seq<Path>, vals: Values)
    requires forall f :: f in vals ==> Scalar(vals[f])
    ensures Tail(fields, vals) == [] || Tail(fields, vals)[0] == ZERO
  {
    if fields != [] { TailShape(fields[..|fields| - 1], vals); }
  }

  /** Two zero-free segments that both end at the same zero byte are equal. */
  lemma SameSegment(a: Bytes, b: Bytes, x: Bytes, y: Bytes)
    requires ZeroFree(a) && ZeroFree(b) && a + [ZERO] + x == b + [ZERO] + y
    ensures a == b && x == y
  {
    FirstSegmentOf(a, x);
    FirstSegmentOf(b, y);
  }

  /** A path without a trailing separator also covers indexes whose name continues it, nothing else. */
  lemma PrefixOfBase(coll: Bytes, name: Bytes, k: Bytes, coll': Bytes, name': Bytes, t: Bytes)
    requires ZeroFree(coll) && ZeroFree(coll') && ZeroFree(name) && ZeroFree(name')
    requires k == Base(coll', name') + [ZERO] + t && HasPrefix(k, Base(coll, name))
    ensures coll == coll' && HasPrefix(name', name)
  {
    var head := NAMESPACE + [ZERO] + INDEX_SEGMENT + [ZERO];
    var b := Base(coll, name);
    var rest := k[|b|..];
    assert k == b + rest;
    assert head + (coll + [ZERO] + (name + rest)) == k;
    assert head + (coll' + [ZERO] + (name' + [ZERO] + t)) == k;
    assert coll + [ZERO] + (name + rest) == k[|head|..];
    assert coll' + [ZERO] + (name' + [ZERO] + t) == k[|head|..];
    SameSegment(coll, coll', name + rest, name' + [ZERO] + t);
    assert (name + rest)[|name'|] == ZERO;
    assert |name| <= |name'|;
    assert (name + rest)[..|name|] == name;
    assert (name' + [ZERO] + t)[..|name|] == name'[..|name|];
  }
}
