/** Sorting query results and cutting them into pages. */
module Ordering {
  import opened ByteStrings
  import opened Json
  import opened Sorting

  datatype OrderBy = OrderBy(field: Path, desc: bool)

  /** The kinds of values compareField knows how to compare. */
  datatype Kind = BoolKind | NumKind | StrKind | OtherKind

  function KindOf(v: Json): Kind {
    match v
    case Bool(_) => BoolKind
    case Num(_) => NumKind
    case Str(_) => StrKind
    case _ => OtherKind
  }

  /** compareField: the first value comes after the second one. Only values of one scalar kind are
      ordered here; the coercions of mixed kinds are not modelled. */
  function CompareField(x: Json, y: Json): bool {
    match (x, y)
    case (Bool(a), Bool(b)) => a && !b
    case (Num(a), Num(b)) => a > b
    case (Str(a), Str(b)) => LexLt(b, a)
    case _ => false
  }

  /** The order the two comparison closures are meant to define: the first field that differs decides. */
  function LexLess(orderBys: seq<OrderBy>, a: Json, b: Json): bool {
    if orderBys == [] then false
    else
      var o := orderBys[0];
      var x, y := Get(a, o.field), Get(b, o.field);
      if x != y then (if o.desc then CompareField(x, y) else !CompareField(x, y))
      else LexLess(orderBys[1..], a, b)
  }

  /** The closure orderByDocs sorts with when the first direction is descending. */
  method LessDesc(orderBys: seq<OrderBy>, a: Json, b: Json) returns (less: bool)
    requires orderBys != [] && orderBys[0].desc
    ensures less == LexLess(orderBys, a, b)
  {
    var first := orderBys[0].field;
    if Get(a, first) != Get(b, first) { return CompareField(Get(a, first), Get(b, first)); }
    less := LessFrom(orderBys, a, b);
  }

  /** The other closure. */
  method LessAsc(orderBys: seq<OrderBy>, a: Json, b: Json) returns (less: bool)
    requires orderBys != [] && !orderBys[0].desc
    ensures less == LexLess(orderBys, a, b)
  {
    var first := orderBys[0].field;
    if Get(a, first) != Get(b, first) { return !CompareField(Get(a, first), Get(b, first)); }
    less := LessFrom(orderBys, a, b);
  }

  method LessFrom(orderBys: seq<OrderBy>, a: Json, b: Json) returns (less: bool)
    requires orderBys != []
    ensures less == LexLess(orderBys[1..], a, b)
  {
    var index := 1;
    while index < |orderBys|
      invariant 1 <= index <= |orderBys|
      invariant LexLess(orderBys[1..], a, b) == LexLess(orderBys[index..], a, b)
    {
      var order := orderBys[index];
      var x, y := Get(a, order.field), Get(b, order.field);
      assert orderBys[index..][0] == order && orderBys[index..][1..] == orderBys[index + 1..];
      if order.desc {
        if x != y { return CompareField(x, y); }
      } else {
        if x != y { return !CompareField(x, y); }
      }
      index := index + 1;
    }
    return false;
  }

  /** The document has, at every ordering field, a value of the given scalar kind. */
  predicate HasKinds(orderBys: seq<OrderBy>, kinds: seq<Kind>, d: Json) {
    |kinds| == |orderBys|
    && forall k :: 0 <= k < |orderBys| ==> kinds[k] != OtherKind && KindOf(Get(d, orderBys[k].field)) == kinds[k]
  }

  lemma OneKindTotal(x: Json, y: Json)
    requires KindOf(x) == KindOf(y) != OtherKind && x != y
    ensures CompareField(x, y) <==> !CompareField(y, x)
  {
    if x.Str? {
      LexTotal(x.s, y.s);
      if LexLe(x.s, y.s) && LexLe(y.s, x.s) { LexAntisymmetric(x.s, y.s); }
    }
  }

  lemma OneKindTransitive(x: Json, y: Json, z: Json)
    requires KindOf(x) == KindOf(y) == KindOf(z) != OtherKind
    requires CompareField(x, y) && CompareField(y, z)
    ensures CompareField(x, z)
  {
    if x.Str? {
      LexTransitive(z.s, y.s, x.s);
      if x.s == z.s { LexAntisymmetric(x.s, y.s); }
    }
  }

  lemma TailKinds(orderBys: seq<OrderBy>, kinds: seq<Kind>, d: Json)
    requires orderBys != [] && HasKinds(orderBys, kinds, d)
    ensures HasKinds(orderBys[1..], kinds[1..], d)
    ensures KindOf(Get(d, orderBys[0].field)) == kinds[0] != OtherKind
  {
  }

  lemma {:induction false} LexLessAsymmetric(orderBys: seq<OrderBy>, kinds: seq<Kind>, a: Json, b: Json)
    requires HasKinds(orderBys, kinds, a) && HasKinds(orderBys, kinds, b) && LexLess(orderBys, a, b)
    ensures !LexLess(orderBys, b, a)
  {
    TailKinds(orderBys, kinds, a);
    TailKinds(orderBys, kinds, b);
    var x, y := Get(a, orderBys[0].field), Get(b, orderBys[0].field);
    if x != y { OneKindTotal(x, y); } else { LexLessAsymmetric(orderBys[1..], kinds[1..], a, b); }
  }

  /** The first field decides: the values differ, and stand in the order asked for. */
  predicate FieldLess(o: OrderBy, x: Json, y: Json) {
    x != y && if o.desc then CompareField(x, y) else !CompareField(x, y)
  }

  lemma FieldNegTransitive(o: OrderBy, x: Json, y: Json, z: Json)
    requires KindOf(x) == KindOf(y) == KindOf(z) != OtherKind
    requires !FieldLess(o, x, y) && !FieldLess(o, y, z)
    ensures !FieldLess(o, x, z) && (x == z ==> x == y)
  {
    hide CompareField, KindOf;
    if x != y { OneKindTotal(x, y); }
    if y != z { OneKindTotal(y, z); }
    if x != z { OneKindTotal(x, z); }
    if CompareField(x, y) && CompareField(y, z) { OneKindTransitive(x, y, z); }
    if CompareField(z, y) && CompareField(y, x) { OneKindTransitive(z, y, x); }
  }

  lemma LexLessByField(orderBys: seq<OrderBy>, a: Json, b: Json)
    requires orderBys != []
    ensures var o := orderBys[0]; var x, y := Get(a, o.field), Get(b, o.field);
      LexLess(orderBys, a, b) <==> FieldLess(o, x, y) || (x == y && LexLess(orderBys[1..], a, b))
  {
  }

  lemma {:induction false} LexLessNegTransitive(orderBys: seq<OrderBy>, kinds: seq<Kind>, a: Json, b: Json, c: Json)
    requires HasKinds(orderBys, kinds, a) && HasKinds(orderBys, kinds, b) && HasKinds(orderBys, kinds, c)
    requires !LexLess(orderBys, a, b) && !LexLess(orderBys, b, c)
    ensures !LexLess(orderBys, a, c)
  {
    if orderBys != [] {
      TailKinds(orderBys, kinds, a);
      TailKinds(orderBys, kinds, b);
      TailKinds(orderBys, kinds, c);
      LexLessByField(orderBys, a, b);
      LexLessByField(orderBys, b, c);
      LexLessByField(orderBys, a, c);
      hide CompareField, HasKinds, KindOf, Get, FieldLess, LexLess;
      var o := orderBys[0];
      var x, y, z := Get(a, o.field), Get(b, o.field), Get(c, o.field);
      FieldNegTransitive(o, x, y, z);
      if x == y == z { LexLessNegTransitive(orderBys[1..], kinds[1..], a, b, c); }
    }
  }

  /** For fields that hold one scalar kind throughout, both closures are one strict weak order. */
  lemma OneStrictWeakOrder(orderBys: seq<OrderBy>, kinds: seq<Kind>)
    ensures StrictWeakOrder((a, b) => LexLess(orderBys, a, b), d => HasKinds(orderBys, kinds, d))
  {
    forall a, b | HasKinds(orderBys, kinds, a) && HasKinds(orderBys, kinds, b) && LexLess(orderBys, a, b)
      ensures !LexLess(orderBys, b, a)
    {
      LexLessAsymmetric(orderBys, kinds, a, b);
    }
    forall a, b, c | HasKinds(orderBys, kinds, a) && HasKinds(orderBys, kinds, b) && HasKinds(orderBys, kinds, c)
        && !LexLess(orderBys, a, b) && !LexLess(orderBys, b, c)
      ensures !LexLess(orderBys, a, c)
    {
      LexLessNegTransitive(orderBys, kinds, a, b, c);
    }
  }

  /** The result of orderByDocs. */
  function Ordered(docs: seq<Json>, orderBys: seq<OrderBy>): seq<Json> {
    if orderBys == [] then docs else Sort((a, b) => LexLess(orderBys, a, b), docs)
  }

  lemma OrderedCorrect(docs: seq<Json>, orderBys: seq<OrderBy>, kinds: seq<Kind>)
    requires forall i :: 0 <= i < |docs| ==> HasKinds(orderBys, kinds, docs[i])
    ensures multiset(Ordered(docs, orderBys)) == multiset(docs)
    ensures forall i, j :: 0 <= i < j < |docs| ==>
              |Ordered(docs, orderBys)| == |docs| &&
                  !LexLess(orderBys, Ordered(docs, orderBys)[j], Ordered(docs, orderBys)[i])
  {
    var less := (a, b) => LexLess(orderBys, a, b);
    var dom := d => HasKinds(orderBys, kinds, d);
    OneStrictWeakOrder(orderBys, kinds);
    var r := Ordered(docs, orderBys);
    if orderBys != [] {
      SortCorrect(less, dom, docs);
      assert |multiset(r)| == |r| && |multiset(docs)| == |docs|;
      forall i, j | 0 <= i < j < |r| ensures !LexLess(orderBys, r[j], r[i]) {
        assert !less(r[j], r[i]);
      }
    }
  }

  // ----- the order in the values' own terms -----

  /** Of two values of one kind the first comes no later: numbers by size, texts byte by byte, false before
      true. */
  predicate NoLater(x: Json, y: Json) {
    match (x, y)
    case (Bool(a), Bool(b)) => a ==> b
    case (Num(a), Num(b)) => a <= b
    case (Str(a), Str(b)) => LexLe(a, b)
    case _ => false
  }

  predicate InDirection(o: OrderBy, x: Json, y: Json) {
    if o.desc then NoLater(y, x) else NoLater(x, y)
  }

  lemma NotFieldLess(o: OrderBy, x: Json, y: Json)
    requires KindOf(x) == KindOf(y) != OtherKind && !FieldLess(o, y, x)
    ensures InDirection(o, x, y)
  {
    if x.Str? {
      LexTotal(x.s, y.s);
      LexRefl(x.s);
    }
  }

  /** The two documents agree on the fields before the k-th. */
  predicate AgreeBefore(orderBys: seq<OrderBy>, k: nat, a: Json, b: Json)
    requires k <= |orderBys|
  {
    forall m :: 0 <= m < k ==> Get(a, orderBys[m].field) == Get(b, orderBys[m].field)
  }

  lemma {:induction false} NotLessInDirection(orderBys: seq<OrderBy>, kinds: seq<Kind>, k: nat, a: Json, b: Json)
    requires HasKinds(orderBys, kinds, a) && HasKinds(orderBys, kinds, b) && !LexLess(orderBys, b, a)
    requires k < |orderBys| && AgreeBefore(orderBys, k, a, b)
    ensures InDirection(orderBys[k], Get(a, orderBys[k].field), Get(b, orderBys[k].field))
    decreases k
  {
    TailKinds(orderBys, kinds, a);
    TailKinds(orderBys, kinds, b);
    LexLessByField(orderBys, b, a);
    hide LexLess, CompareField, FieldLess, InDirection, HasKinds, Get;
    if k == 0 {
      NotFieldLess(orderBys[0], Get(a, orderBys[0].field), Get(b, orderBys[0].field));
    } else {
      assert Get(a, orderBys[0].field) == Get(b, orderBys[0].field);
      NotLessInDirection(orderBys[1..], kinds[1..], k - 1, a, b);
    }
  }

  /** The result is sorted lexicographically: where two documents agree on all fields before the k-th, their
      values there stand in the direction asked for; so on the first field, whatever the documents. */
  lemma OrderedInDirection(docs: seq<Json>, orderBys: seq<OrderBy>, kinds: seq<Kind>, i: nat, j: nat, k: nat)
    requires forall n :: 0 <= n < |docs| ==> HasKinds(orderBys, kinds, docs[n])
    requires i < j < |docs| && k < |orderBys|
    ensures var r := Ordered(docs, orderBys); |r| == |docs| && multiset(r) == multiset(docs)
    ensures var r, f := Ordered(docs, orderBys), orderBys[k].field;
      AgreeBefore(orderBys, k, r[i], r[j]) ==>
        if orderBys[k].desc then NoLater(Get(r[j], f), Get(r[i], f)) else NoLater(Get(r[i], f), Get(r[j], f))
  {
    hide Ordered, LexLess, CompareField, NoLater, Get;
    OrderedCorrect(docs, orderBys, kinds);
    var r := Ordered(docs, orderBys);
    assert |r| == |multiset(r)| == |multiset(docs)| == |docs|;
    assert r[i] in multiset(docs) && r[j] in multiset(docs);
    assert r[i] in docs && r[j] in docs;
    if AgreeBefore(orderBys, k, r[i], r[j]) { NotLessInDirection(orderBys, kinds, k, r[i], r[j]); }
  }

  // ----- pages -----

  function Take<T>(s: seq<T>, n: nat): seq<T> {
    if |s| <= n then s else s[..n]
  }

  /** lo.Slice: both ends are cut to the length of the sequence. */
  function Slice<T>(s: seq<T>, start: nat, end: nat): seq<T>
    requires start <= end
  {
    if start >= |s| then [] else s[start..if end <= |s| then end else |s|]
  }

  /** The page of a result; a limit of 0 means everything. */
  function PageOf<T>(s: seq<T>, page: nat, limit: nat): seq<T> {
    if limit == 0 then s
    else Take(if page > 0 then Slice(s, limit * page, limit * page + limit) else s, limit)
  }

  function PagesUpTo<T>(s: seq<T>, n: nat, limit: nat): seq<T> {
    if n == 0 then [] else PagesUpTo(s, n - 1, limit) + PageOf(s, n - 1, limit)
  }

  lemma PageIsSlice<T>(s: seq<T>, page: nat, limit: nat)
    requires limit > 0
    ensures PageOf(s, page, limit) == Take(s, limit * page + limit)[|Take(s, limit * page)|..]
  {
    if page == 0 {
      assert limit * page == 0;
    } else {
      assert limit * page >= 0;
    }
  }

  /** Pages 0, 1, 2, ... put together are the whole result, nothing lost and nothing repeated. */
  lemma {:induction false} PagesConcatenate<T>(s: seq<T>, n: nat, limit: nat)
    requires limit > 0
    ensures PagesUpTo(s, n, limit) == Take(s, limit * n)
    ensures limit * n >= |s| ==> PagesUpTo(s, n, limit) == s
  {
    if n == 0 {
      assert limit * n == 0;
    } else {
      PagesConcatenate(s, n - 1, limit);
      PageIsSlice(s, n - 1, limit);
      assert limit * (n - 1) + limit == limit * n;
      var shorter, longer := Take(s, limit * (n - 1)), Take(s, limit * n);
      assert longer[..|shorter|] == shorter;
    }
  }
}
