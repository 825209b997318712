/** The outcome of sorting a slice with a comparison function. */
module Sorting {

  /** The comparison is a strict weak order on the elements that satisfy `dom`. */
  ghost predicate StrictWeakOrder<T(!new)>(less: (T, T) -> bool, dom: T -> bool) {
    && (forall a, b :: dom(a) && dom(b) && less(a, b) ==> !less(b, a))
    && (forall a, b, c :: dom(a) && dom(b) && dom(c) && !less(a, b) && !less(b, c) ==> !less(a, c))
  }

  ghost predicate InDomain<T>(dom: T -> bool, s: seq<T>) {
    forall i :: 0 <= i < |s| ==> dom(s[i])
  }

  ghost predicate SortedBy<T>(less: (T, T) -> bool, s: seq<T>) {
    forall i, j :: 0 <= i < j < |s| ==> !less(s[j], s[i])
  }

  function Insert<T>(less: (T, T) -> bool, x: T, s: seq<T>): seq<T> {
    if s == [] then [x]
    else if less(x, s[0]) then [x] + s
    else [s[0]] + Insert(less, x, s[1..])
  }

  /** One fixed sorted arrangement of `s`; elements that compare equal keep no promised order. */
  function Sort<T>(less: (T, T) -> bool, s: seq<T>): seq<T> {
    if s == [] then [] else Insert(less, s[0], Sort(less, s[1..]))
  }

  lemma {:induction false} InsertKeepsElements<T>(less: (T, T) -> bool, x: T, s: seq<T>)
    ensures multiset(Insert(less, x, s)) == multiset(s) + multiset{x}
  {
    if s != [] {
      assert s == [s[0]] + s[1..];
      if !less(x, s[0]) { InsertKeepsElements(less, x, s[1..]); }
    }
  }

  lemma SmallestInFront<T(!new)>(less: (T, T) -> bool, dom: T -> bool, x: T, s: seq<T>)
    requires StrictWeakOrder(less, dom) && InDomain(dom, s) && dom(x)
    requires s != [] && SortedBy(less, s) && less(x, s[0])
    ensures SortedBy(less, [x] + s)
  {
    forall j | 0 <= j < |s| ensures !less(s[j], x) {
      assert dom(s[0]) && dom(s[j]);
      assert j > 0 ==> !less(s[j], s[0]);
      assert !less(s[0], x);
    }
  }

  lemma {:induction false} InsertKeepsBound<T(!new)>(less: (T, T) -> bool, x: T, s: seq<T>, lo: T)
    requires !less(x, lo) && forall i :: 0 <= i < |s| ==> !less(s[i], lo)
    ensures forall i :: 0 <= i < |Insert(less, x, s)| ==> !less(Insert(less, x, s)[i], lo)
  {
    if s != [] && !less(x, s[0]) { InsertKeepsBound(less, x, s[1..], lo); }
  }

  lemma {:induction false} InsertKeepsDomain<T(!new)>(less: (T, T) -> bool, dom: T -> bool, x: T, s: seq<T>)
    requires InDomain(dom, s) && dom(x)
    ensures InDomain(dom, Insert(less, x, s))
  {
    if s != [] && !less(x, s[0]) { InsertKeepsDomain(less, dom, x, s[1..]); }
  }

  lemma {:induction false} InsertKeepsSorted<T(!new)>(less: (T, T) -> bool, dom: T -> bool, x: T, s: seq<T>)
    requires StrictWeakOrder(less, dom) && InDomain(dom, s) && dom(x) && SortedBy(less, s)
    ensures SortedBy(less, Insert(less, x, s))
  {
    if s != [] {
      if less(x, s[0]) {
        SmallestInFront(less, dom, x, s);
      } else {
        InsertKeepsSorted(less, dom, x, s[1..]);
        assert dom(s[0]);
        InsertKeepsBound(less, x, s[1..], s[0]);
      }
    }
  }

  lemma {:induction false} SortCorrect<T(!new)>(less: (T, T) -> bool, dom: T -> bool, s: seq<T>)
    requires StrictWeakOrder(less, dom) && InDomain(dom, s)
    ensures SortedBy(less, Sort(less, s))
    ensures multiset(Sort(less, s)) == multiset(s)
    ensures InDomain(dom, Sort(less, s))
  {
    if s != [] {
      assert s == [s[0]] + s[1..];
      SortCorrect(less, dom, s[1..]);
      var t := Sort(less, s[1..]);
      InsertKeepsElements(less, s[0], t);
      InsertKeepsSorted(less, dom, s[0], t);
      InsertKeepsDomain(less, dom, s[0], t);
    }
  }

  ghost predicate StrictlySortedBy<T>(less: (T, T) -> bool, s: seq<T>) {
    forall i, j :: 0 <= i < j < |s| ==> less(s[i], s[j]) && !less(s[j], s[i])
  }

  lemma Member<T>(x: T, s: seq<T>, t: seq<T>) returns (k: nat)
    requires multiset(s) == multiset(t) && x in s
    ensures k < |t| && t[k] == x
  {
    assert x in multiset(s);
    assert x in t;
    k :| 0 <= k < |t| && t[k] == x;
  }

  lemma SameFirst<T(!new)>(less: (T, T) -> bool, s: seq<T>, t: seq<T>)
    requires multiset(s) == multiset(t) && s != [] && t != []
    requires StrictlySortedBy(less, s) && SortedBy(less, t)
    ensures s[0] == t[0]
  {
    var k := Member(s[0], s, t);
    var m := Member(t[0], t, s);
    assert m > 0 ==> less(s[0], s[m]) && !less(s[m], s[0]);
    assert k > 0 ==> !less(t[k], t[0]);
  }

  /** When no two elements compare equal, there is only one sorted arrangement. */
  lemma {:induction false} SortedUnique<T(!new)>(less: (T, T) -> bool, s: seq<T>, t: seq<T>)
    requires multiset(s) == multiset(t)
    requires StrictlySortedBy(less, s) && SortedBy(less, t)
    ensures s == t
  {
    assert |multiset(s)| == |s| && |multiset(t)| == |t|;
    if s != [] {
      SameFirst(less, s, t);
      assert s == [s[0]] + s[1..] && t == [t[0]] + t[1..];
      assert multiset(s[1..]) == multiset(s) - multiset{s[0]};
      assert multiset(t[1..]) == multiset(t) - multiset{t[0]};
      SortedUnique(less, s[1..], t[1..]);
    }
  }

  function Reversed<T(!new)>(s: seq<T>): (r: seq<T>)
    ensures |r| == |s| && forall i :: 0 <= i < |s| ==> r[i] == s[|s| - 1 - i]
    ensures forall x :: x in r <==> x in s
  {
    if s == [] then [] else Reversed(s[1..]) + [s[0]]
  }

  lemma {:induction false} ReversedElements<T(!new)>(s: seq<T>)
    ensures multiset(Reversed(s)) == multiset(s)
  {
    if s != [] {
      ReversedElements(s[1..]);
      assert s == [s[0]] + s[1..];
    }
  }
}
