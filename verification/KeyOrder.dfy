/** The order of index keys against the order of the indexed numbers. */
module KeyOrder {
  import opened ByteStrings
  import opened Json
  import opened Schemas
  import opened Indexing
  import opened Gaps

  lemma EntryOfScalar(coll: Bytes, i: Index, f: Path, doc: Json, v: Json, id: Bytes)
    requires i.fields == [f] && Get(doc, f) == v && Scalar(v) && v != Null
    ensures EntryKey(coll, i, doc, id) == Base(coll, i.name) + FieldSegment(f, v) + [ZERO] + id
  {
    hide Base, FieldSegment;
    assert ScalarAt(doc, f) == Some(v);
    var vals := IndexedValues(i.fields, doc);
    OneField(f, vals);
  }

  /** Nor the strict order. */
  lemma LexSharedPrefixStrict(p: Bytes, a: Bytes, b: Bytes)
    ensures LexLt(p + a, p + b) <==> LexLt(a, b)
  {
    LexSharedPrefix(p, a, b);
    if p + a == p + b { assert (p + a)[|p|..] == a && (p + b)[|p|..] == b; }
  }

  lemma NumberKeyShape(b: Bytes, f: Path, x: real, id: Bytes)
    ensures b + FieldSegment(f, Num(x)) + [ZERO] + id ==
            (b + ([ZERO] + FieldText(f) + [ZERO])) + (BigEndian(ToUint64(x), 8) + ([ZERO] + id))
  {
    hide BigEndian, ToUint64;
    assert FieldSegment(f, Num(x)) == ([ZERO] + FieldText(f) + [ZERO]) + BigEndian(ToUint64(x), 8);
  }

  lemma NumbersInPlace(b: Bytes, f: Path, x: real, y: real, ida: Bytes, idb: Bytes)
    ensures var ka, kb := b + FieldSegment(f, Num(x)) + [ZERO] + ida, b + FieldSegment(f, Num(y)) + [ZERO] + idb;
      && (ToUint64(x) < ToUint64(y) ==> LexLt(ka, kb))
      && (ToUint64(x) == ToUint64(y) ==> (LexLt(ka, kb) <==> LexLt(ida, idb)))
  {
    Width64();
    hide BigEndian, ToUint64, FieldSegment, LexLt, Pow256;
    NumberKeyShape(b, f, x, ida);
    NumberKeyShape(b, f, y, idb);
    var q := b + ([ZERO] + FieldText(f) + [ZERO]);
    var ex, ey := BigEndian(ToUint64(x), 8), BigEndian(ToUint64(y), 8);
    LexSharedPrefixStrict(q, ex + ([ZERO] + ida), ey + ([ZERO] + idb));
    if ToUint64(x) < ToUint64(y) {
      BigEndianOrder(ToUint64(x), ToUint64(y), 8, [ZERO] + ida, [ZERO] + idb);
    } else if ToUint64(x) == ToUint64(y) {
      LexSharedPrefixStrict(ex, [ZERO] + ida, [ZERO] + idb);
      LexSharedPrefixStrict([ZERO], ida, idb);
    }
  }

  /** The keys of a single-field index sort by the converted number and then by id. So they never
      contradict the order of the numbers, except among numbers with the same whole part (or below
      zero), whose entries are in the order of the ids. */
  lemma KeysFollowNumbers(coll: Bytes, i: Index, f: Path, a: Json, b: Json, x: real, y: real, ida: Bytes, idb: Bytes)
    requires i.fields == [f] && Get(a, f) == Num(x) && Get(b, f) == Num(y)
    requires x < TWO_TO_64 as real && y < TWO_TO_64 as real
    ensures LexLt(EntryKey(coll, i, a, ida), EntryKey(coll, i, b, idb)) <==>
              ToUint64(x) < ToUint64(y) || (ToUint64(x) == ToUint64(y) && LexLt(ida, idb))
    ensures x < y && LexLt(EntryKey(coll, i, b, idb), EntryKey(coll, i, a, ida)) ==> ToUint64(x) == ToUint64(y)
    ensures (x < y && ToUint64(x) == ToUint64(y)) ==> y < 1.0 || y - x < 1.0
  {
    EntryOfScalar(coll, i, f, a, Num(x), ida);
    EntryOfScalar(coll, i, f, b, Num(y), idb);
    if x <= y { ToUint64Monotone(x, y); } else { ToUint64Monotone(y, x); }
    var ka, kb := EntryKey(coll, i, a, ida), EntryKey(coll, i, b, idb);
    NumbersInPlace(Base(coll, i.name), f, x, y, ida, idb);
    NumbersInPlace(Base(coll, i.name), f, y, x, idb, ida);
    hide EntryKey, Base, FieldSegment, FieldText;
    if LexLt(ka, kb) && LexLt(kb, ka) { LexAntisymmetric(ka, kb); }
  }

  // ----- texts and truth values -----

  lemma {:induction false} TextThenId(x: Bytes, y: Bytes, ida: Bytes, idb: Bytes)
    requires ZeroFree(x) && ZeroFree(y)
    ensures LexLt(x + ([ZERO] + ida), y + ([ZERO] + idb)) <==> LexLt(x, y) || (x == y && LexLt(ida, idb))
  {
    var a, b := x + ([ZERO] + ida), y + ([ZERO] + idb);
    if x == y {
      LexSharedPrefixStrict(x, [ZERO] + ida, [ZERO] + idb);
      LexSharedPrefixStrict([ZERO], ida, idb);
    } else if x != [] && y != [] && x[0] == y[0] {
      TextThenId(x[1..], y[1..], ida, idb);
      assert a[1..] == x[1..] + ([ZERO] + ida) && b[1..] == y[1..] + ([ZERO] + idb);
      assert a == [x[0]] + a[1..] && b == [x[0]] + b[1..] && x == [x[0]] + x[1..] && y == [x[0]] + y[1..];
      LexSharedPrefixStrict([x[0]], a[1..], b[1..]);
      LexSharedPrefixStrict([x[0]], x[1..], y[1..]);
    } else {
      assert a[0] != b[0];
    }
  }

  lemma TextInPlace(b: Bytes, f: Path, v: Json, w: Json, x: Bytes, y: Bytes, ida: Bytes, idb: Bytes)
    requires Scalar(v) && Scalar(w) && EncodeIndexValue(v) == x && EncodeIndexValue(w) == y
    requires ZeroFree(x) && ZeroFree(y)
    ensures LexLt(b + FieldSegment(f, v) + [ZERO] + ida, b + FieldSegment(f, w) + [ZERO] + idb) <==>
            LexLt(x, y) || (x == y && LexLt(ida, idb))
  {
    hide LexLt, FieldText, EncodeIndexValue;
    var q := b + ([ZERO] + FieldText(f) + [ZERO]);
    assert b + FieldSegment(f, v) + [ZERO] + ida == q + (x + ([ZERO] + ida));
    assert b + FieldSegment(f, w) + [ZERO] + idb == q + (y + ([ZERO] + idb));
    LexSharedPrefixStrict(q, x + ([ZERO] + ida), y + ([ZERO] + idb));
    TextThenId(x, y, ida, idb);
  }

  /** For texts the keys sort as the texts do, and by id where these are equal: no text is taken for
      another. */
  lemma KeysFollowTexts(coll: Bytes, i: Index, f: Path, a: Json, b: Json, x: Bytes, y: Bytes, ida: Bytes, idb: Bytes)
    requires i.fields == [f] && Get(a, f) == Str(x) && Get(b, f) == Str(y) && ZeroFree(x) && ZeroFree(y)
    ensures LexLt(EntryKey(coll, i, a, ida), EntryKey(coll, i, b, idb)) <==>
            LexLt(x, y) || (x == y && LexLt(ida, idb))
  {
    EntryOfScalar(coll, i, f, a, Str(x), ida);
    EntryOfScalar(coll, i, f, b, Str(y), idb);
    TextInPlace(Base(coll, i.name), f, Str(x), Str(y), x, y, ida, idb);
  }

  /** False comes before true, whatever the ids. */
  lemma KeysFollowFlags(coll: Bytes, i: Index, f: Path, a: Json, b: Json, ida: Bytes, idb: Bytes)
    requires i.fields == [f] && Get(a, f) == Bool(false) && Get(b, f) == Bool(true)
    ensures LexLt(EntryKey(coll, i, a, ida), EntryKey(coll, i, b, idb))
  {
    EntryOfScalar(coll, i, f, a, Bool(false), ida);
    EntryOfScalar(coll, i, f, b, Bool(true), idb);
    var x, y := EncodeIndexValue(Bool(false)), EncodeIndexValue(Bool(true));
    assert x[0] < y[0];
    TextInPlace(Base(coll, i.name), f, Bool(false), Bool(true), x, y, ida, idb);
  }
}
