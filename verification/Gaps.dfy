/** Keys of documents that hold something at an index position the plan makes no use of. */
module Gaps {
  import opened ByteStrings
  import opened Json
  import opened Schemas
  import opened Indexing
  import opened Optimizer
  import opened KvUtil
  import opened KvIter

  lemma OneField(f: Path, vals: Values)
    requires f in vals && forall g :: g in vals ==> Scalar(vals[g])
    ensures Tail([f], vals) == FieldSegment(f, vals[f])
    ensures Tail([f], vals) != [] && !AllOnes(Tail([f], vals))
  {
    assert [f][..0] == [];
    assert Tail([], vals) == [];
    assert FieldSegment(f, vals[f])[0] == ZERO;
  }

  /** The tail begins with the segment of the first field that has a value. */
  lemma TailBegins(fields: seq<Path>, vals: Values, j: nat)
    requires forall f :: f in vals ==> Scalar(vals[f])
    requires j < |fields| && fields[j] in vals && forall i :: 0 <= i < j ==> fields[i] !in vals
    ensures Tail(fields, vals) == FieldSegment(fields[j], vals[fields[j]]) + Tail(fields[j + 1..], vals)
  {
    hide Tail, FieldSegment;
    assert fields == fields[..j] + ([fields[j]] + fields[j + 1..]);
    TailAppend(fields[..j], [fields[j]] + fields[j + 1..], vals);
    TailAppend([fields[j]], fields[j + 1..], vals);
    TailNone(fields[..j], vals);
    OneField(fields[j], vals);
  }

  /** The same for the fields from `k` on. */
  lemma TailBeginsFrom(fields: seq<Path>, vals: Values, k: nat, j: nat)
    requires forall f :: f in vals ==> Scalar(vals[f])
    requires k <= j < |fields| && fields[j] in vals && forall i :: k <= i < j ==> fields[i] !in vals
    ensures Tail(fields[k..], vals) == FieldSegment(fields[j], vals[fields[j]]) + Tail(fields[j + 1..], vals)
  {
    hide Tail, FieldSegment;
    var rest: seq<Path> := fields[k..];
    assert rest[j - k] == fields[j] && rest[j - k + 1..] == fields[j + 1..];
    forall i | 0 <= i < j - k ensures rest[i] !in vals { assert rest[i] == fields[k + i]; }
    TailBegins(rest, vals, j - k);
  }

  /** The tail of the fields before `k`, then that of the first field from `k` on that has a value. */
  lemma TailBeginsAt(fields: seq<Path>, vals: Values, k: nat, j: nat)
    requires forall f :: f in vals ==> Scalar(vals[f])
    requires k <= j < |fields| && fields[j] in vals && forall i :: k <= i < j ==> fields[i] !in vals
    ensures Tail(fields, vals) ==
            Tail(fields[..k], vals) + (FieldSegment(fields[j], vals[fields[j]]) + Tail(fields[j + 1..], vals))
  {
    hide Tail, FieldSegment;
    assert fields == fields[..k] + fields[k..];
    TailAppend(fields[..k], fields[k..], vals);
    TailBeginsFrom(fields, vals, k, j);
  }

  // ----- gaps -----

  /** The texts of the fields can be told apart in a key. */
  predicate PlainFields(i: Index) {
    && (forall f :: f in i.fields ==> ZeroFree(FieldText(f)))
    && (forall a, b :: 0 <= a < b < |i.fields| ==> FieldText(i.fields[a]) != FieldText(i.fields[b]))
  }

  /** The plan makes no use of the position, but the document holds a scalar there. */
  predicate Gap(e: Explain, doc: Json, k: int) {
    && 0 <= k < |e.index.fields| && e.index.fields[k] !in e.matchedFields && e.index.fields[k] !in e.seekFields
    && ScalarAt(doc, e.index.fields[k]).Some?
  }

  predicate FirstGap(e: Explain, doc: Json, k: int) {
    Gap(e, doc, k) && forall j :: 0 <= j < k ==> !Gap(e, doc, j)
  }

  predicate BeforeMatched(e: Explain, k: int) {
    exists j :: 0 <= j < |e.index.fields| && k < j && e.index.fields[j] in e.matchedFields
  }

  predicate TextBefore(f: Path, g: Path) {
    LexLt(FieldText(f) + [ZERO], FieldText(g) + [ZERO])
  }

  /** An entry with its first gap at `k` is out of the scan's reach: the prefix of the scan disagrees with
      it, or it lies on the wrong side of the bound, because the name of the unused field does. On TiKV
      ascending scans disregard the bound. */
  predicate Hides(b: Backend, e: Explain, k: int)
    requires 0 <= k < |e.index.fields|
  {
    || BeforeMatched(e, k)
    || (e.seekFields != [] &&
        if e.reverse then TextBefore(e.seekFields[0], e.index.fields[k])
        else b.Badger? && TextBefore(e.index.fields[k], e.seekFields[0]))
  }

  lemma {:induction false} FirstGapExists(e: Explain, doc: Json, k: nat) returns (j: nat)
    requires Gap(e, doc, k)
    ensures j <= k && FirstGap(e, doc, j)
  {
    if i :| 0 <= i < k && Gap(e, doc, i) { j := FirstGapExists(e, doc, i); } else { j := k; }
  }

  // ----- keys that part at a field name -----

  lemma {:induction false} LexLtExtends(a: Bytes, b: Bytes, r: Bytes, s: Bytes)
    requires LexLt(a, b) && !HasPrefix(b, a)
    ensures LexLt(a + r, b + s)
  {
    if a[0] == b[0] {
      assert a == [a[0]] + a[1..] && b == [b[0]] + b[1..];
      assert (a + r)[1..] == a[1..] + r && (b + s)[1..] == b[1..] + s;
      assert |a| <= |b| ==> b[..|a|] == [b[0]] + b[1..][..|a| - 1];
      LexLtExtends(a[1..], b[1..], r, s);
    }
    assert (a + r)[0] == a[0] && (b + s)[0] == b[0];
  }

  lemma TerminatedApart(a: Bytes, b: Bytes)
    requires ZeroFree(a) && ZeroFree(b) && a != b
    ensures !HasPrefix(a + [ZERO], b + [ZERO]) && a + [ZERO] != b + [ZERO]
  {
    var x, y := a + [ZERO], b + [ZERO];
    assert x[..|a|] == a && y[..|b|] == b && y[|b|] == ZERO;
    if |b| < |a| {
      assert x[|b|] == a[|b|];
      assert x[..|y|][|b|] == x[|b|];
    } else if |b| == |a| {
      assert x[..|y|] == x;
    }
  }

  /** After a shared stretch the names decide, whatever follows. */
  lemma NamesDecide(q: Bytes, f: Path, g: Path, r: Bytes, s: Bytes)
    requires ZeroFree(FieldText(f)) && ZeroFree(FieldText(g)) && FieldText(f) != FieldText(g)
    ensures var k, l := q + ([ZERO] + FieldText(f) + [ZERO] + r), q + ([ZERO] + FieldText(g) + [ZERO] + s);
      && !HasPrefix(k, l) && k != l
      && (LexLe(k, l) <==> TextBefore(f, g))
      && TextBefore(f, g) != TextBefore(g, f)
  {
    var a, b := FieldText(f) + [ZERO], FieldText(g) + [ZERO];
    var k, l := q + ([ZERO] + FieldText(f) + [ZERO] + r), q + ([ZERO] + FieldText(g) + [ZERO] + s);
    TerminatedApart(FieldText(f), FieldText(g));
    TerminatedApart(FieldText(g), FieldText(f));
    hide FieldText;
    assert k == (q + [ZERO]) + (a + r) && l == (q + [ZERO]) + (b + s);
    LexTotal(a, b);
    LexSharedPrefix(q + [ZERO], a + r, b + s);
    LexSharedPrefix(q + [ZERO], b + s, a + r);
    if LexLe(a, b) {
      LexLtExtends(a, b, r, s);
      if LexLe(b, a) { LexAntisymmetric(a, b); }
    } else {
      LexLtExtends(b, a, s, r);
      if LexLe(k, l) { LexAntisymmetric(k, l); }
    }
    if HasPrefix(k, l) { PrefixesCompare(q + [ZERO], a, b, r, s); }
    if k == l { LexRefl(k); LexAntisymmetric(k, l); }
  }

  lemma PrefixesCompare(q: Bytes, a: Bytes, b: Bytes, r: Bytes, s: Bytes)
    requires HasPrefix(q + (a + r), q + (b + s))
    ensures HasPrefix(a, b) || HasPrefix(b, a)
  {
    var k, l := q + (a + r), q + (b + s);
    assert k[..|l|] == l;
    assert forall i :: 0 <= i < |b| && i < |a| ==>
        k[|q| + i] == a[i] && l[|q| + i] == b[i] && k[|q| + i] == k[..|l|][|q| + i];
  }

  // ----- on which side of the bound they lie -----

  /** What an increment that carries into the zero byte after `q` leaves, or a stretch of it. */
  predicate CarriedPast(q: Bytes, k: Bytes) {
    |k| > |q| && k[..|q| + 1] == q + [1] && forall i :: |q| < i < |k| ==> k[i] == ZERO
  }

  lemma CarryIntoZero(q: Bytes, z: Bytes)
    requires AllOnes(z)
    ensures CarriedPast(q, Successor(q + ([ZERO] + z)))
  {
    var s := q + ([ZERO] + z);
    assert s[|q| + 1..] == z && s[..|q| + 1] == q + [ZERO];
    SuccessorOfTail(s, |q| + 1);
    assert (q + [ZERO])[..|q|] == q;
    assert Successor(q + [ZERO]) == q + [1];
  }

  /** Incrementing stops at the latest at a zero byte. */
  lemma SuccessorPastZero(q: Bytes, z: Bytes)
    ensures HasPrefix(Successor(q + ([ZERO] + z)), q + [ZERO]) || CarriedPast(q, Successor(q + ([ZERO] + z)))
  {
    hide Successor, CarriedPast;
    if AllOnes(z) {
      CarryIntoZero(q, z);
    } else {
      SuccessorKeepsPrefix(q + [ZERO], z);
      assert q + ([ZERO] + z) == (q + [ZERO]) + z;
    }
  }

  lemma ZeroIsNoOne(s: Bytes, i: nat)
    requires i < |s| && s[i] == ZERO
    ensures forall n: nat :: n <= i ==> !AllOnes(s[n..])
  {
    forall n: nat | n <= i ensures !AllOnes(s[n..]) {
      assert s[n..][i - n] == ZERO;
    }
  }

  lemma StemPastZero(q: Bytes, z: Bytes, k: Bytes)
    requires CarryStem(q + ([ZERO] + z), k)
    ensures HasPrefix(k, q + [ZERO]) || CarriedPast(q, k)
  {
    var s := q + ([ZERO] + z);
    SuccessorPastZero(q, z);
    ZeroIsNoOne(s, |q|);
    hide Successor, AllOnes;
    assert k == Successor(s)[..|k|] && |k| > |q|;
    assert k[..|q| + 1] == Successor(s)[..|q| + 1];
  }

  /** What carries past the name `a` leaves is no key with another name and something at its end. */
  lemma NotCarriedPast(p: Bytes, a: Bytes, b: Bytes, r: Bytes)
    requires ZeroFree(a) && r != [] && r[|r| - 1] != ZERO
    ensures !CarriedPast(p + [ZERO] + a, p + ([ZERO] + b + [ZERO] + r))
  {
    var q, k := p + [ZERO] + a, p + ([ZERO] + b + [ZERO] + r);
    assert k[|k| - 1] == r[|r| - 1] && k[|p| + 1 + |b|] == ZERO;
    assert |b| < |a| ==> q[|p| + 1 + |b|] == a[|b|];
  }

  /** A key with another field name in the place of the bound's, and an id at its end, is no stem. */
  lemma NoStem(p: Bytes, g: Path, f: Path, r: Bytes, z: Bytes)
    requires ZeroFree(FieldText(f)) && ZeroFree(FieldText(g)) && FieldText(f) != FieldText(g)
    requires r != [] && r[|r| - 1] != ZERO
    ensures !CarryStem(p + ([ZERO] + FieldText(f) + [ZERO] + z), p + ([ZERO] + FieldText(g) + [ZERO] + r))
  {
    hide FieldText, CarryStem, CarriedPast, HasPrefix, ZeroFree, TextBefore, LexLe;
    var q, k := p + [ZERO] + FieldText(f), p + ([ZERO] + FieldText(g) + [ZERO] + r);
    NamesDecide(p, g, f, r, []);
    NotCarriedPast(p, FieldText(f), FieldText(g), r);
    assert p + ([ZERO] + FieldText(f) + [ZERO] + []) == q + [ZERO];
    assert p + ([ZERO] + FieldText(f) + [ZERO] + z) == q + ([ZERO] + z);
    if CarryStem(q + ([ZERO] + z), k) { StemPastZero(q, z, k); }
  }

  /** With another field name in the place of the bound's, the names say whether an iterator that starts
      at the bound meets the key. */
  lemma ReachAcrossNames(b: Backend, o: IterOpts, p: Bytes, g: Path, f: Path, r: Bytes, z: Bytes)
    requires ZeroFree(FieldText(f)) && ZeroFree(FieldText(g)) && FieldText(f) != FieldText(g)
    requires r != [] && r[|r| - 1] != ZERO
    requires PrefixScan(o, p, p + ([ZERO] + FieldText(f) + [ZERO] + z))
    ensures Reachable(b, o, p + ([ZERO] + FieldText(g) + [ZERO] + r)) <==>
      if o.reverse then !TextBefore(f, g) else !(b.Badger? && TextBefore(g, f))
  {
    var k, s := p + ([ZERO] + FieldText(g) + [ZERO] + r), p + ([ZERO] + FieldText(f) + [ZERO] + z);
    NamesDecide(p, g, f, r, z);
    NoStem(p, g, f, r, z);
    assert s[|p|] == ZERO;
    SuccessorEmpty(s);
    SuccessorEmpty([]);
    hide FieldText, CarryStem, TextBefore;
    LexTotal(k, s);
    if LexLe(k, s) && LexLe(s, k) { LexAntisymmetric(k, s); }
    LexPrefix(p, k);
    NextPrefixBound(s, k);
    PrefixBelowSuccessor(s, []);
    assert s + [] == s;
    if LexLe(k, s) {
      LexTransitive(k, s, Successor(s));
      if k == Successor(s) { LexAntisymmetric(k, s); }
    }
  }
}
