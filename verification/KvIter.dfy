/** Iterators of the two key-value backends over the sorted keys of a transaction. */
module KvIter {
  import opened ByteStrings
  import opened Json
  import opened KvUtil
  import opened Sorting

  datatype Backend = Badger | TiKV

  datatype IterOpts = IterOpts(prefix: Option<Bytes>, upperBound: Option<Bytes>, seek: Option<Bytes>, reverse: bool)

  // ----- the sorted keys -----

  predicate Ascending(ks: seq<Bytes>) {
    forall i, j :: 0 <= i < j < |ks| ==> LexLt(ks[i], ks[j])
  }

  predicate IsSmallest(m: Bytes, s: set<Bytes>) {
    m in s && forall k :: k in s ==> LexLe(m, k)
  }

  lemma {:induction false} SmallestExists(s: set<Bytes>)
    requires s != {}
    ensures exists m :: IsSmallest(m, s)
  {
    var m :| m in s;
    var rest := s - {m};
    LexRefl(m);
    if rest == {} {
      assert s == {m};
      assert IsSmallest(m, s);
    } else {
      SmallestExists(rest);
      var n :| IsSmallest(n, rest);
      LexTotal(m, n);
      forall k | k in s ensures LexLe(if LexLe(m, n) then m else n, k) {
        if k in rest && LexLe(m, n) { LexTransitive(m, n, k); }
      }
      assert IsSmallest(if LexLe(m, n) then m else n, s);
    }
  }

  lemma SmallestUnique(s: set<Bytes>)
    ensures forall m, n :: IsSmallest(m, s) && IsSmallest(n, s) ==> m == n
  {
    forall m, n | IsSmallest(m, s) && IsSmallest(n, s) ensures m == n {
      LexAntisymmetric(m, n);
    }
  }

  /** The keys in the store's order. */
  function SortedKeys(s: set<Bytes>): (ks: seq<Bytes>)
    ensures forall k :: k in ks <==> k in s
  {
    if s == {} then []
    else
      SmallestExists(s);
      SmallestUnique(s);
      var m :| IsSmallest(m, s);
      [m] + SortedKeys(s - {m})
  }

  lemma {:induction false} SortedKeysAscending(s: set<Bytes>)
    ensures Ascending(SortedKeys(s))
  {
    if s != {} {
      SmallestExists(s);
      SmallestUnique(s);
      var m :| IsSmallest(m, s);
      SortedKeysAscending(s - {m});
      var rest := SortedKeys(s - {m});
      assert SortedKeys(s) == [m] + rest;
      forall j | 0 <= j < |rest| ensures LexLt(m, rest[j]) {
        assert rest[j] in s - {m};
      }
    }
  }

  // ----- where an iterator starts -----

  /** badger: a missing or empty seek key means the prefix, an empty prefix means all keys. A reverse
      iterator without a seek key starts at its upper bound. */
  function BadgerStart(o: IterOpts): Bytes {
    var seek := if o.seek == None && o.reverse then o.upperBound else o.seek;
    if seek.Some? && seek.value != [] then seek.value else o.prefix.GetOr([])
  }

  /** TiKV: forward iteration ignores the seek key and starts at the prefix; reverse iteration starts
      below the successor of the seek key, or of the upper bound. */
  function TikvLimit(o: IterOpts): Bytes {
    if o.reverse then Successor(if o.seek.Some? then o.seek.value else o.upperBound.GetOr([]))
    else Successor(o.upperBound.GetOr([]))
  }

  /** The key lies in the part of the store an iterator of the backend can reach. */
  predicate Reachable(b: Backend, o: IterOpts, k: Bytes) {
    match b
    case Badger =>
      BadgerStart(o) == [] || (if o.reverse then LexLe(k, BadgerStart(o)) else LexLe(BadgerStart(o), k))
    case TiKV =>
      && (TikvLimit(o) == [] || LexLt(k, TikvLimit(o)))
      && (o.reverse || LexLe(o.prefix.GetOr([]), k))
  }

  /** The iterator stops at the first key for which this fails. */
  predicate InBounds(o: IterOpts, k: Bytes) {
    && (o.prefix.Some? ==> HasPrefix(k, o.prefix.value))
    && (o.upperBound.Some? ==> LexLe(k, o.upperBound.value))
  }

  function Order(keys: set<Bytes>, b: Backend, o: IterOpts): seq<Bytes> {
    var ks := SortedKeys(set k | k in keys && Reachable(b, o, k));
    if o.reverse then Reversed(ks) else ks
  }

  /** A cursor over the keys of a transaction's view. */
  class Iterator {
    const opts: IterOpts
    const keys: seq<Bytes>
    var pos: nat

    constructor (view: set<Bytes>, b: Backend, o: IterOpts)
      ensures opts == o && keys == Order(view, b, o) && pos == 0
    {
      opts := o;
      keys := Order(view, b, o);
      pos := 0;
    }

    predicate IsValid()
      reads this
    {
      pos < |keys| && InBounds(opts, keys[pos])
    }

    function Key(): Bytes
      requires IsValid()
      reads this
    {
      keys[pos]
    }

    method Next()
      requires IsValid()
      modifies this
      ensures pos == old(pos) + 1
    {
      pos := pos + 1;
    }
  }

  /** The keys a loop over the iterator sees: up to the first one out of bounds. */
  function Visited(keys: seq<Bytes>, o: IterOpts): (r: seq<Bytes>)
    ensures |r| <= |keys| && r == keys[..|r|]
    ensures |r| < |keys| ==> !InBounds(o, keys[|r|])
    ensures forall i :: 0 <= i < |r| ==> InBounds(o, keys[i])
  {
    if keys == [] || !InBounds(o, keys[0]) then [] else [keys[0]] + Visited(keys[1..], o)
  }

  // ----- what is visited -----

  /** A prefix scan: a prefix and a seek key that extends it (for ascending scans it may be missing),
      no upper bound. */
  predicate PrefixScan(o: IterOpts, p: Bytes, s: Bytes) {
    && o.prefix == Some(p) && o.upperBound == None && HasPrefix(s, p) && p != []
    && (o.seek == Some(s) || (o.seek == None && !o.reverse && s == p))
  }

  lemma OrderMonotone(keys: set<Bytes>, b: Backend, o: IterOpts, i: nat, j: nat)
    requires i < j < |Order(keys, b, o)|
    ensures var ks := Order(keys, b, o); if o.reverse then LexLt(ks[j], ks[i]) else LexLt(ks[i], ks[j])
  {
    SortedKeysAscending(set k | k in keys && Reachable(b, o, k));
  }

  /** Between two reachable keys, the first of which an iterator meets, lies no key without the prefix
      unless the second one lacks it too. */
  lemma NoGap(keys: set<Bytes>, b: Backend, o: IterOpts, p: Bytes, s: Bytes, i: nat, j: nat)
    requires PrefixScan(o, p, s) && !AllOnes(s) && i < j < |Order(keys, b, o)|
    requires HasPrefix(Order(keys, b, o)[j], p)
    requires b.TiKV? && o.reverse ==> |Successor(s)| > |p| && HasPrefix(Successor(s), p)
    ensures HasPrefix(Order(keys, b, o)[i], p)
  {
    var ks := Order(keys, b, o);
    OrderMonotone(keys, b, o, i, j);
    assert ks[i] in ks && ks[j] in ks;
    LexPrefix(p, ks[j]);
    LexPrefix(p, s);
    SuccessorEmpty(s);
    SuccessorEmpty([]);
    if o.reverse {
      LexTransitive(p, ks[j], ks[i]);
      if b.Badger? { PrefixConvex(p, ks[i], s); } else { PrefixConvex(p, ks[i], Successor(s)); }
    } else {
      if b.Badger? { LexTransitive(p, s, ks[i]); }
      PrefixConvex(p, ks[i], ks[j]);
    }
  }

  /** The successor of a key that extends a prefix still has the prefix, unless every added byte carries. */
  lemma {:induction false} SuccessorKeepsPrefix(p: Bytes, x: Bytes)
    requires x != [] && !AllOnes(x)
    ensures Successor(p + x) == p + Successor(x) && Successor(x) != []
  {
    var init, last := x[..|x| - 1], x[|x| - 1];
    assert (p + x)[..|p + x| - 1] == p + init;
    SuccessorEmpty(x);
    if last == 255 {
      assert x == init + [255];
      assert AllOnes(init) ==> AllOnes(x);
      SuccessorKeepsPrefix(p, init);
    }
  }

  /** Prefix scans see every reachable key with the prefix, in order, once, and nothing else. */
  lemma PrefixScanComplete(keys: set<Bytes>, b: Backend, o: IterOpts, p: Bytes, s: Bytes, k: Bytes)
    requires PrefixScan(o, p, s) && !AllOnes(s)
    requires b.TiKV? && o.reverse ==> |Successor(s)| > |p| && HasPrefix(Successor(s), p)
    ensures k in Visited(Order(keys, b, o), o) <==> k in keys && HasPrefix(k, p) && Reachable(b, o, k)
  {
    var ks := Order(keys, b, o);
    var seen := Visited(ks, o);
    if k in seen {
      var i :| 0 <= i < |seen| && seen[i] == k;
      assert ks[i] == k && k in ks;
    }
    if k in keys && HasPrefix(k, p) && Reachable(b, o, k) {
      assert k in ks;
      var j :| 0 <= j < |ks| && ks[j] == k;
      if |seen| < j { NoGap(keys, b, o, p, s, |seen|, j); }
      assert j < |seen|;
      assert seen[j] == k;
    }
  }

  lemma VisitedDistinct(keys: set<Bytes>, b: Backend, o: IterOpts, i: nat, j: nat)
    requires i < j < |Visited(Order(keys, b, o), o)|
    ensures Visited(Order(keys, b, o), o)[i] != Visited(Order(keys, b, o), o)[j]
  {
    OrderMonotone(keys, b, o, i, j);
  }

  // ----- scans up to a bound -----

  /** The key lies beyond the bound, but before the point TiKV starts at to go backwards from it. */
  predicate Overshoots(u: Bytes, k: Bytes) {
    LexLt(u, k) && (Successor(u) == [] || LexLt(k, Successor(u)))
  }

  /** Where being in bounds carries over to what is met before, a scan sees all that is in bounds. */
  lemma VisitedInBounds(keys: set<Bytes>, b: Backend, o: IterOpts, k: Bytes)
    requires forall i, j :: 0 <= i < j < |Order(keys, b, o)| && InBounds(o, Order(keys, b, o)[j]) ==>
      InBounds(o, Order(keys, b, o)[i])
    ensures k in Visited(Order(keys, b, o), o) <==> k in keys && Reachable(b, o, k) && InBounds(o, k)
  {
    var ks := Order(keys, b, o);
    var seen := Visited(ks, o);
    hide InBounds, Reachable;
    assert k in ks <==> k in keys && Reachable(b, o, k);
    if k in seen {
      var i :| 0 <= i < |seen| && seen[i] == k;
      assert ks[i] == k;
    }
    if k in ks && InBounds(o, k) {
      var j :| 0 <= j < |ks| && ks[j] == k;
      assert j < |seen|;
      assert seen[j] == k;
    }
  }

  lemma BelowSuccessor(u: Bytes, k: Bytes)
    requires LexLe(k, u) && Successor(u) != []
    ensures LexLt(k, Successor(u))
  {
    SuccessorEmpty(u);
    PrefixBelowSuccessor(u, []);
    assert u + [] == u;
    LexTransitive(k, u, Successor(u));
    if k == Successor(u) { LexAntisymmetric(k, u); }
  }

  /** What is met before a key in bounds is in bounds. */
  lemma BoundsCarryOver(keys: set<Bytes>, b: Backend, o: IterOpts, p: Bytes, u: Bytes, i: nat, j: nat)
    requires o.seek == None && o.upperBound == Some(u) && o.prefix.GetOr([]) == p && HasPrefix(u, p) && u != []
    requires b.TiKV? && o.reverse ==> forall x :: x in keys ==> !Overshoots(u, x)
    requires i < j < |Order(keys, b, o)| && InBounds(o, Order(keys, b, o)[j])
    ensures InBounds(o, Order(keys, b, o)[i])
  {
    var ks := Order(keys, b, o);
    OrderMonotone(keys, b, o, i, j);
    assert ks[i] in ks && ks[j] in ks;
    LexPrefix(p, ks[j]);
    LexPrefix(p, u);
    if o.reverse {
      LexTransitive(p, ks[j], ks[i]);
      LexTotal(ks[i], u);
      PrefixConvex(p, ks[i], u);
    } else {
      LexTransitive(ks[i], ks[j], u);
      PrefixConvex(p, ks[i], u);
    }
  }

  /** A scan up to a bound sees every key with the prefix that is not beyond it, and nothing else, in both
      directions; but on TiKV a scan backwards sees nothing at all where some stored key overshoots. */
  lemma UpperBoundScan(keys: set<Bytes>, b: Backend, o: IterOpts, p: Bytes, u: Bytes, k: Bytes)
    requires o.seek == None && o.upperBound == Some(u) && o.prefix.GetOr([]) == p && HasPrefix(u, p) && u != []
    ensures k in Visited(Order(keys, b, o), o) <==>
      && k in keys && HasPrefix(k, p) && LexLe(k, u)
      && !(b.TiKV? && o.reverse && exists x :: x in keys && Overshoots(u, x))
  {
    if b.TiKV? && o.reverse && exists x :: x in keys && Overshoots(u, x) {
      var x :| x in keys && Overshoots(u, x);
      NothingSeen(keys, b, o, u, x);
    } else {
      hide Order, Visited;
      forall i, j | 0 <= i < j < |Order(keys, b, o)| && InBounds(o, Order(keys, b, o)[j])
        ensures InBounds(o, Order(keys, b, o)[i])
      {
        BoundsCarryOver(keys, b, o, p, u, i, j);
      }
      VisitedInBounds(keys, b, o, k);
      if HasPrefix(k, p) { LexPrefix(p, k); }
      if LexLe(k, u) && Successor(u) != [] { BelowSuccessor(u, k); }
    }
  }

  lemma NothingSeen(keys: set<Bytes>, b: Backend, o: IterOpts, u: Bytes, x: Bytes)
    requires b.TiKV? && o.reverse && o.seek == None && o.upperBound == Some(u) && x in keys && Overshoots(u, x)
    ensures Visited(Order(keys, b, o), o) == []
  {
    var ks := Order(keys, b, o);
    assert x in ks;
    var j :| 0 <= j < |ks| && ks[j] == x;
    if j > 0 { OrderMonotone(keys, b, o, 0, j); }
    if LexLe(ks[0], u) {
      LexRefl(x);
      LexTransitive(x, ks[0], u);
      LexAntisymmetric(x, u);
    }
  }

  /** Any stored key that continues the bound overshoots. */
  lemma ContinuationOvershoots(u: Bytes, rest: Bytes)
    requires rest != []
    ensures Overshoots(u, u + rest)
  {
    LexPrefix(u, u + rest);
    SuccessorEmpty(u);
    if Successor(u) != [] { PrefixBelowSuccessor(u, rest); }
  }
}
