/** JSON trees and the path edits a document is changed with. */
module Json {
  import opened ByteStrings

  /** Object keys are atomic names; a path is a list of names (dot notation, already split). */
  type Name = Bytes
  type Path = seq<Name>

  datatype Option<+T> = None | Some(value: T) {
    function GetOr(default: T): T {
      if Some? then value else default
    }
  }

  /** A parsed JSON value. Object members are unordered; arrays count as scalars for paths. */
  datatype Json =
    | Null
    | Bool(b: bool)
    | Num(n: real)
    | Str(s: Bytes)
    | Arr(items: seq<Json>)
    | Obj(fields: map<Name, Json>)

  const EMPTY_OBJECT := Obj(map[])

  predicate IsPrefix(p: Path, q: Path) {
    |p| <= |q| && q[..|p|] == p
  }

  predicate Comparable(p: Path, q: Path) {
    IsPrefix(p, q) || IsPrefix(q, p)
  }

  /** No path of the set runs through another one. */
  ghost predicate PrefixFree(ps: set<Path>) {
    forall p, q :: p in ps && q in ps && Comparable(p, q) ==> p == q
  }

  function Lookup(j: Json, p: Path): Option<Json> {
    if p == [] then Some(j)
    else if j.Obj? && p[0] in j.fields then Lookup(j.fields[p[0]], p[1..])
    else None
  }

  predicate Exists(j: Json, p: Path) {
    Lookup(j, p).Some?
  }

  /** Document.Get: a missing path and an explicit null read the same. */
  function Get(j: Json, p: Path): Json {
    match Lookup(j, p)
    case Some(v) => v
    case None => Null
  }

  /** The document has this id at its primary key. */
  predicate Carries(j: Json, pk: Path, id: Bytes) {
    Lookup(j, pk) == Some(Str(id))
  }

  /** The value at `p` unless that is an object. */
  function LeafAt(j: Json, p: Path): Option<Json> {
    match Lookup(j, p)
    case Some(v) => if v.Obj? then None else Some(v)
    case None => None
  }

  function Members(j: Json): map<Name, Json> {
    if j.Obj? then j.fields else map[]
  }

  /** Writes `v` at `p`, turning whatever non-object stands in the way into an object. */
  function SetPath(j: Json, p: Path, v: Json): Json
    decreases |p|
  {
    if p == [] then v
    else
      var child := if p[0] in Members(j) then Members(j)[p[0]] else EMPTY_OBJECT;
      Obj(Members(j)[p[0] := SetPath(child, p[1..], v)])
  }

  /** Removes the member named by `p`; nothing happens when there is none. */
  function DelPath(j: Json, p: Path): Json
    requires p != []
    decreases |p|
  {
    if !j.Obj? || p[0] !in j.fields then j
    else if |p| == 1 then Obj(j.fields - {p[0]})
    else Obj(j.fields[p[0] := DelPath(j.fields[p[0]], p[1..])])
  }

  // ----- reading along a path -----

  lemma {:induction false} LookupConcat(j: Json, p: Path, q: Path)
    ensures Lookup(j, p + q) == if Lookup(j, p).Some? then Lookup(Lookup(j, p).value, q) else None
  {
    if p == [] {
      assert p + q == q;
    } else if j.Obj? && p[0] in j.fields {
      assert (p + q)[1..] == p[1..] + q;
      LookupConcat(j.fields[p[0]], p[1..], q);
    }
  }

  /** A path cannot be read through a leaf. */
  lemma NothingBelowLeaf(j: Json, p: Path, q: Path)
    requires LeafAt(j, p).Some? && IsPrefix(p, q) && p != q
    ensures Lookup(j, q) == None
  {
    LookupConcat(j, p, q[|p|..]);
    assert q == p + q[|p|..];
  }

  /** What lies above something is an object. */
  lemma ObjectAbove(j: Json, p: Path, q: Path)
    requires Exists(j, q) && IsPrefix(p, q) && p != q
    ensures Exists(j, p) && Get(j, p).Obj?
  {
    LookupConcat(j, p, q[|p|..]);
    assert q == p + q[|p|..];
  }

  // ----- what an edit changes -----

  lemma {:induction false} LookupSetBelow(j: Json, p: Path, v: Json, q: Path)
    requires IsPrefix(p, q)
    ensures Lookup(SetPath(j, p, v), q) == Lookup(v, q[|p|..])
    decreases |p|
  {
    if p != [] {
      var child := if p[0] in Members(j) then Members(j)[p[0]] else EMPTY_OBJECT;
      assert q[0] == p[0] && q[1..][..|p| - 1] == q[..|p|][1..];
      LookupSetBelow(child, p[1..], v, q[1..]);
      assert q[1..][|p| - 1..] == q[|p|..];
    } else {
      assert q[0..] == q;
    }
  }

  lemma {:induction false} LookupSetApart(j: Json, p: Path, v: Json, q: Path)
    requires !Comparable(p, q)
    ensures Lookup(SetPath(j, p, v), q) == Lookup(j, q)
    decreases |p|
  {
    if p[0] == q[0] {
      var child := if p[0] in Members(j) then Members(j)[p[0]] else EMPTY_OBJECT;
      TailsApart(p, q);
      LookupSetApart(child, p[1..], v, q[1..]);
    }
  }

  lemma TailsApart(p: Path, q: Path)
    requires p != [] && q != [] && p[0] == q[0]
    ensures Comparable(p, q) <==> Comparable(p[1..], q[1..])
  {
    if |p| <= |q| {
      assert q[..|p|] == [q[0]] + q[1..][..|p| - 1] && p == [p[0]] + p[1..];
      assert q[1..][..|p| - 1] == q[..|p|][1..];
    }
    if |q| <= |p| {
      assert p[..|q|] == [p[0]] + p[1..][..|q| - 1] && q == [q[0]] + q[1..];
      assert p[1..][..|q| - 1] == p[..|q|][1..];
    }
  }

  lemma SetMakesObjectAbove(j: Json, p: Path, v: Json, q: Path)
    requires IsPrefix(q, p) && q != p
    ensures Exists(SetPath(j, p, v), q) && Get(SetPath(j, p, v), q).Obj?
  {
    LookupSetBelow(j, p, v, p);
    ObjectAbove(SetPath(j, p, v), q, p);
  }

  lemma {:induction false} LookupDelBelow(j: Json, p: Path, q: Path)
    requires p != [] && IsPrefix(p, q)
    ensures Lookup(DelPath(j, p), q) == None
  {
    if j.Obj? && p[0] in j.fields && |p| > 1 {
      assert q[0] == p[0] && q[1..][..|p| - 1] == q[..|p|][1..];
      LookupDelBelow(j.fields[p[0]], p[1..], q[1..]);
    }
  }

  lemma {:induction false} LookupDelApart(j: Json, p: Path, q: Path)
    requires !Comparable(p, q)
    ensures Lookup(DelPath(j, p), q) == Lookup(j, q)
  {
    if p[0] == q[0] && j.Obj? && p[0] in j.fields {
      TailsApart(p, q);
      if |p| > 1 {
        LookupDelApart(j.fields[p[0]], p[1..], q[1..]);
      }
    }
  }

  /** Deleting below an object leaves it an object. */
  lemma {:induction false} DelKeepsObjectAbove(j: Json, p: Path, q: Path)
    requires IsPrefix(q, p) && q != p && Exists(j, q) && Get(j, q).Obj?
    ensures Exists(DelPath(j, p), q) && Get(DelPath(j, p), q).Obj?
  {
    if q != [] {
      assert p[0] == q[0];
      assert p[1..][..|q| - 1] == p[..|q|][1..];
      DelKeepsObjectAbove(j.fields[p[0]], p[1..], q[1..]);
    }
  }

  // ----- the leaf paths of a document -----

  /** All paths that end in something other than an object. */
  function LeafPaths(j: Json): (r: set<Path>)
  {
    if j.Obj? then set k, q | k in j.fields && q in LeafPaths(j.fields[k]) :: [k] + q
    else {[]}
  }

  lemma {:induction false} LeafPathsExact(j: Json, p: Path)
    ensures p in LeafPaths(j) <==> LeafAt(j, p).Some?
    decreases |p|
  {
    if p == [] {
    } else {
      if j.Obj? && p[0] in j.fields {
        LeafPathsExact(j.fields[p[0]], p[1..]);
        assert p == [p[0]] + p[1..];
        if p in LeafPaths(j) {
          var k, q :| k in j.fields && q in LeafPaths(j.fields[k]) && p == [k] + q;
          assert q == p[1..] && k == p[0];
        }
      }
    }
  }

  // ----- the flattened form a document is merged in -----

  /** Like the leaf paths, but an empty object also counts as a value. */
  function FlatPaths(j: Json): set<Path>
  {
    if j.Obj? && j.fields != map[] then set k, q | k in j.fields && q in FlatPaths(j.fields[k]) :: [k] + q
    else {[]}
  }

  lemma {:induction false} FlatPathsExact(j: Json, p: Path)
    ensures p in FlatPaths(j) <==> Exists(j, p) && (LeafAt(j, p).Some? || Get(j, p) == EMPTY_OBJECT)
    decreases |p|
  {
    if p != [] && j.Obj? && p[0] in j.fields {
      FlatPathsExact(j.fields[p[0]], p[1..]);
      assert p == [p[0]] + p[1..];
      if p in FlatPaths(j) {
        var k, q :| k in j.fields && q in FlatPaths(j.fields[k]) && p == [k] + q;
        assert q == p[1..] && k == p[0];
      }
    }
  }

  lemma FlatPathsPrefixFree(j: Json)
    ensures PrefixFree(FlatPaths(j))
  {
    forall p, q | p in FlatPaths(j) && q in FlatPaths(j) && Comparable(p, q)
      ensures p == q
    {
      FlatPathsExact(j, p);
      FlatPathsExact(j, q);
      if IsPrefix(p, q) { ValueEndsPath(j, p, q); } else { ValueEndsPath(j, q, p); }
    }
  }

  lemma ValueEndsPath(j: Json, p: Path, q: Path)
    requires IsPrefix(p, q) && Exists(j, q) && Exists(j, p)
    requires LeafAt(j, p).Some? || Get(j, p) == EMPTY_OBJECT
    ensures p == q
  {
    LookupConcat(j, p, q[|p|..]);
    assert q == p + q[|p|..];
  }

  /** flat.Flatten: every value of the document under its full path. */
  function Flatten(j: Json): (r: map<Path, Json>)
    ensures r.Keys == FlatPaths(j)
  {
    map p | p in FlatPaths(j) :: Get(j, p)
  }
}
