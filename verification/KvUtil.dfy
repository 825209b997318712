/** The prefix successor used as an exclusive upper bound by the TiKV iterators. */
module KvUtil {
  import opened ByteStrings

  /** Adds one to the big-endian number `p`; the empty key, "no bound", when every byte carries. */
  function Successor(p: Bytes): (r: Bytes) {
    if p == [] then []
    else
      var init, last := p[..|p| - 1], p[|p| - 1];
      if last < 255 then init + [last + 1]
      else if Successor(init) == [] then [] else Successor(init) + [0]
  }

  predicate AllOnes(p: Bytes) {
    forall i :: 0 <= i < |p| ==> p[i] == 255
  }

  lemma {:induction false} SuccessorEmpty(p: Bytes)
    ensures Successor(p) == [] <==> AllOnes(p)
    ensures Successor(p) != [] ==> |Successor(p)| == |p|
  {
    if p != [] {
      SuccessorEmpty(p[..|p| - 1]);
      assert AllOnes(p) <==> AllOnes(p[..|p| - 1]) && p[|p| - 1] == 255;
    }
  }

  lemma {:induction false} SuccessorOfTail(p: Bytes, i: nat)
    requires i <= |p| && AllOnes(p[i..])
    ensures Successor(p) == if Successor(p[..i]) == [] then [] else Successor(p[..i]) + seq(|p| - i, _ => 0)
    decreases |p| - i
  {
    if i == |p| {
      assert p[..i] == p;
      assert seq(|p| - i, _ => 0) == [];
    } else {
      assert p[i..][0] == 255;
      assert p[i + 1..] == p[i..][1..];
      SuccessorOfTail(p, i + 1);
      assert p[..i + 1][..i] == p[..i];
      assert [0] + seq(|p| - i - 1, _ => 0) == seq(|p| - i, _ => 0);
    }
  }

  lemma AfterCarry(p: Bytes, i: nat, next: Bytes)
    requires i < |p| == |next| && p[i] < 255 && AllOnes(p[i + 1..])
    requires next[..i] == p[..i] && next[i] == p[i] + 1 && forall k :: i < k < |p| ==> next[k] == 0
    ensures next == Successor(p)
  {
    SuccessorOfTail(p, i + 1);
    assert p[..i + 1][..i] == p[..i];
    assert next == p[..i] + [p[i] + 1] + seq(|p| - i - 1, _ => 0);
  }

  /** kvutil.NextPrefix: a copy of the prefix is incremented in place, carrying to the left. */
  method NextPrefix(prefix: Bytes) returns (next: Bytes)
    ensures next == Successor(prefix)
  {
    var n := |prefix|;
    var buf := new byte[n](k requires 0 <= k < n => prefix[k]);
    var i := n - 1;
    while i >= 0
      invariant -1 <= i < n
      invariant buf[..i + 1] == prefix[..i + 1]
      invariant AllOnes(prefix[i + 1..])
      invariant forall k :: i < k < n ==> buf[k] == 0
    {
      buf[i] := if buf[i] == 255 then 0 else buf[i] + 1;
      if buf[i] != 0 { break; }
      assert prefix[i] == 255;
      assert prefix[i..] == [prefix[i]] + prefix[i + 1..];
      i := i - 1;
    }
    if i == -1 {
      assert prefix[0..] == prefix;
      SuccessorEmpty(prefix);
      next := [];
    } else {
      assert prefix[..i + 1][i] == prefix[i];
      next := buf[..];
      AfterCarry(prefix, i, next);
    }
  }

  /** A successor cut off inside the zero bytes its carry produced. */
  predicate CarryStem(p: Bytes, k: Bytes) {
    && |k| < |p| == |Successor(p)|
    && HasPrefix(Successor(p), k)
    && AllOnes(p[|k|..]) && !AllOnes(p[..|k|])
  }

  lemma OneZeroAbove(s: Bytes, k: Bytes)
    requires LexLe(s, k) && LexLt(k, s + [0])
    ensures k == s
  {
    PrefixConvex(s, k, s + [0]);
    var y := k[|s|..];
    assert k == s + y;
    LexSharedPrefix(s, y, [0]);
    if y != [] { LexAntisymmetric(y, [0]); }
  }

  lemma AboveLastOne(q: Bytes, k: Bytes)
    requires HasPrefix(k, q) && LexLe(q + [255], k)
    ensures HasPrefix(k, q + [255])
  {
    var x := k[|q|..];
    assert k == q + x;
    LexSharedPrefix(q, [255], x);
    assert k[..|q| + 1] == q + [x[0]];
  }

  lemma BelowNextByte(q: Bytes, b: byte, k: Bytes)
    requires b < 255 && LexLe(q + [b], k) && LexLt(k, q + [b + 1])
    ensures HasPrefix(k, q + [b])
  {
    LexPrefix(q, q + [b]);
    assert (q + [b])[..|q|] == q && (q + [b + 1])[..|q|] == q;
    LexTransitive(q, q + [b], k);
    PrefixConvex(q, k, q + [b + 1]);
    var x := k[|q|..];
    assert k == q + x;
    LexSharedPrefix(q, [b], x);
    LexSharedPrefix(q, x, [b + 1]);
    assert x[0] == b;
    assert k[..|q| + 1] == q + [x[0]];
  }

  lemma AppendedSlices(q: Bytes, b: byte, n: nat)
    requires n <= |q|
    ensures (q + [b])[n..] == q[n..] + [b] && (q + [b])[..n] == q[..n]
  {
  }

  lemma {:induction false} WithinBound(p: Bytes, k: Bytes)
    requires !AllOnes(p) && LexLe(p, k) && LexLt(k, Successor(p))
    ensures HasPrefix(k, p) || CarryStem(p, k)
  {
    var q, b := p[..|p| - 1], p[|p| - 1];
    assert p == q + [b];
    SuccessorEmpty(p);
    SuccessorEmpty(q);
    if b < 255 {
      BelowNextByte(q, b, k);
    } else {
      assert AllOnes(q) ==> AllOnes(p);
      var s := Successor(q);
      LexTotal(s, k);
      if LexLe(s, k) {
        OneZeroAbove(s, k);
        assert Successor(p)[..|k|] == k;
        assert p[|k|..] == [255] && p[..|k|] == q;
      } else {
        LexPrefix(q, p);
        LexTransitive(q, p, k);
        LexRefl(k);
        WithinBound(q, k);
        if HasPrefix(k, q) {
          AboveLastOne(q, k);
        } else {
          AppendedSlices(q, 255, |k|);
          assert Successor(p)[..|k|] == s[..|k|];
        }
      }
    }
  }

  /** Keys with the prefix lie below the bound, strictly. */
  lemma {:induction false} PrefixBelowSuccessor(p: Bytes, x: Bytes)
    requires !AllOnes(p)
    ensures LexLt(p + x, Successor(p))
  {
    var q, b := p[..|p| - 1], p[|p| - 1];
    assert p == q + [b];
    assert p + x == q + ([b] + x);
    SuccessorEmpty(p);
    if b < 255 {
      LexSharedPrefix(q, [b] + x, [b + 1]);
      assert (p + x)[|q|] == b && Successor(p)[|q|] == b + 1;
    } else {
      assert AllOnes(q) ==> AllOnes(p);
      SuccessorEmpty(q);
      PrefixBelowSuccessor(q, [b] + x);
      LexPrefix(Successor(q), Successor(q) + [0]);
      LexTransitive(p + x, Successor(q), Successor(p));
      if p + x == Successor(p) {
        LexAntisymmetric(p + x, Successor(q));
      }
    }
  }

  lemma {:induction false} CarryStemWithin(p: Bytes, k: Bytes)
    requires CarryStem(p, k)
    ensures LexLe(p, k) && LexLt(k, Successor(p))
  {
    LexPrefix(k, Successor(p));
    assert k == Successor(p)[..|k|];
    SuccessorOfTail(p, |k|);
    var stem := p[..|k|];
    SuccessorEmpty(stem);
    assert k == Successor(stem);
    PrefixBelowSuccessor(stem, p[|k|..]);
    assert p == stem + p[|k|..];
  }

  /** What an iterator bounded by NextPrefix ranges over, exactly: the keys that carry the prefix,
      and the successor itself cut short inside its carried zero bytes. */
  lemma NextPrefixBound(p: Bytes, k: Bytes)
    requires !AllOnes(p)
    ensures (LexLe(p, k) && LexLt(k, Successor(p))) <==> (HasPrefix(k, p) || CarryStem(p, k))
    ensures !(HasPrefix(k, p) && CarryStem(p, k))
  {
    if HasPrefix(k, p) {
      LexPrefix(p, k);
      PrefixBelowSuccessor(p, k[|p|..]);
      assert k == p + k[|p|..];
    } else if CarryStem(p, k) {
      CarryStemWithin(p, k);
    } else if LexLe(p, k) && LexLt(k, Successor(p)) {
      WithinBound(p, k);
    }
  }
}
