/** Byte strings with the order a sorted key-value store keeps its keys in. */
module ByteStrings {

  type byte = x: int | 0 <= x < 256

  type Bytes = seq<byte>

  /** The separator between the segments of a key. */
  const ZERO: byte := 0

  predicate HasPrefix(k: Bytes, p: Bytes) {
    |p| <= |k| && k[..|p|] == p
  }

  predicate ZeroFree(s: Bytes) {
    forall i :: 0 <= i < |s| ==> s[i] != 0
  }

  /** Byte-wise lexicographic order, a proper prefix first. */
  predicate LexLe(a: Bytes, b: Bytes) {
    a == [] || (b != [] && (a[0] < b[0] || (a[0] == b[0] && LexLe(a[1..], b[1..]))))
  }

  predicate LexLt(a: Bytes, b: Bytes) {
    LexLe(a, b) && a != b
  }

  lemma {:induction false} LexRefl(a: Bytes)
    ensures LexLe(a, a)
  {
    if a != [] { LexRefl(a[1..]); }
  }

  lemma {:induction false} LexTotal(a: Bytes, b: Bytes)
    ensures LexLe(a, b) || LexLe(b, a)
  {
    if a != [] && b != [] { LexTotal(a[1..], b[1..]); }
  }

  lemma {:induction false} LexAntisymmetric(a: Bytes, b: Bytes)
    requires LexLe(a, b) && LexLe(b, a)
    ensures a == b
  {
    if a != [] {
      LexAntisymmetric(a[1..], b[1..]);
      assert a == [a[0]] + a[1..] && b == [b[0]] + b[1..];
    }
  }

  lemma {:induction false} LexTransitive(a: Bytes, b: Bytes, c: Bytes)
    requires LexLe(a, b) && LexLe(b, c)
    ensures LexLe(a, c)
  {
    if a != [] && a[0] == b[0] == c[0] { LexTransitive(a[1..], b[1..], c[1..]); }
  }

  /** A shared prefix does not influence the order. */
  lemma {:induction false} LexSharedPrefix(p: Bytes, a: Bytes, b: Bytes)
    ensures LexLe(p + a, p + b) <==> LexLe(a, b)
  {
    if p == [] {
      assert p + a == a && p + b == b;
    } else {
      assert (p + a)[1..] == p[1..] + a && (p + b)[1..] == p[1..] + b;
      LexSharedPrefix(p[1..], a, b);
    }
  }

  lemma LexPrefix(p: Bytes, k: Bytes)
    requires HasPrefix(k, p)
    ensures LexLe(p, k)
  {
    LexSharedPrefix(p, [], k[|p|..]);
    assert p + [] == p && p + k[|p|..] == k;
  }

  /** The keys with one prefix are a contiguous stretch of the order. */
  lemma {:induction false} PrefixConvex(p: Bytes, k: Bytes, hi: Bytes)
    requires HasPrefix(hi, p) && LexLe(p, k) && LexLe(k, hi)
    ensures HasPrefix(k, p)
  {
    if p != [] {
      assert hi[0] == p[0];
      assert k != [] && k[0] == p[0];
      assert hi[1..][..|p| - 1] == hi[..|p|][1..];
      PrefixConvex(p[1..], k[1..], hi[1..]);
      assert k[..|p|] == [k[0]] + k[1..][..|p| - 1];
      assert p == [p[0]] + p[1..];
    }
  }

  // ----- texts joined with dots -----

  const DOT: byte := 46

  /** strings.Join with a dot. */
  function JoinDots(values: seq<Bytes>): Bytes {
    if values == [] then [] else if |values| == 1 then values[0] else values[0] + [DOT] + JoinDots(values[1..])
  }

  function SplitDots(s: Bytes): (r: seq<Bytes>)
    ensures r != []
  {
    if s == [] then [[]]
    else
      var rest := SplitDots(s[1..]);
      if s[0] == DOT then [[]] + rest else [[s[0]] + rest[0]] + rest[1..]
  }

  /** No text contains a dot, so that the joined text can be split again. */
  predicate DotFree(values: seq<Bytes>) {
    values != [] && forall i :: 0 <= i < |values| ==> DOT !in values[i]
  }

  lemma {:induction false} SplitPlain(n: Bytes)
    requires DOT !in n
    ensures SplitDots(n) == [n]
  {
    if n != [] {
      SplitPlain(n[1..]);
      assert n == [n[0]] + n[1..];
    }
  }

  lemma {:induction false} SplitAtDot(n: Bytes, rest: Bytes)
    requires DOT !in n
    ensures SplitDots(n + [DOT] + rest) == [n] + SplitDots(rest)
  {
    var s := n + [DOT] + rest;
    if n == [] {
      assert s[1..] == rest;
    } else {
      assert s[1..] == n[1..] + [DOT] + rest;
      SplitAtDot(n[1..], rest);
      assert n == [n[0]] + n[1..];
    }
  }

  /** Splitting undoes joining. */
  lemma {:induction false} SplitOfJoined(values: seq<Bytes>)
    requires DotFree(values)
    ensures SplitDots(JoinDots(values)) == values
  {
    if |values| == 1 {
      SplitPlain(values[0]);
    } else {
      SplitAtDot(values[0], JoinDots(values[1..]));
      assert JoinDots(values) == values[0] + [DOT] + JoinDots(values[1..]);
      SplitOfJoined(values[1..]);
      assert values == [values[0]] + values[1..];
    }
  }

  // ----- fixed-width big-endian numbers -----

  function Pow256(w: nat): (r: nat)
    ensures r > 0
  {
    if w == 0 then 1 else 256 * Pow256(w - 1)
  }

  /** The low `w` bytes of `n`, most significant first. */
  function BigEndian(n: nat, w: nat): (r: Bytes)
    ensures |r| == w
  {
    if w == 0 then [] else BigEndian(n / 256, w - 1) + [n % 256]
  }

  /** Whatever follows them, fixed-width numbers sort by value. */
  lemma {:induction false} BigEndianOrder(n: nat, m: nat, w: nat, x: Bytes, y: Bytes)
    requires n < m < Pow256(w)
    ensures LexLt(BigEndian(n, w) + x, BigEndian(m, w) + y)
  {
    var hn, hm := BigEndian(n / 256, w - 1), BigEndian(m / 256, w - 1);
    assert BigEndian(n, w) + x == hn + ([n % 256] + x);
    assert BigEndian(m, w) + y == hm + ([m % 256] + y);
    if n / 256 < m / 256 {
      BigEndianOrder(n / 256, m / 256, w - 1, [n % 256] + x, [m % 256] + y);
    } else {
      LexSharedPrefix(hn, [n % 256] + x, [m % 256] + y);
      assert (hn + ([n % 256] + x))[w - 1] == n % 256;
      assert (hm + ([m % 256] + y))[w - 1] == m % 256;
    }
  }

}
