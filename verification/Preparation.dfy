/** Getting a command's document ready: immutable properties, merging a patch, the primary key. */
module Preparation {
  import opened ByteStrings
  import opened Json
  import opened Schemas
  import opened Indexing
  import opened Integrity
  import opened Documents

  // ----- immutable properties -----

  /** Apart from the given paths `r` is `doc`. */
  ghost predicate EditedOnlyAt(paths: set<Path>, doc: Json, r: Json) {
    && (doc.Obj? ==> r.Obj?)
    && (forall q :: ApartFrom(paths, q) ==> Lookup(r, q) == Lookup(doc, q))
  }

  /** The immutable properties have the values of `before`; everything apart from them is as in `doc`. */
  ghost predicate Pinned(c: Schema, doc: Json, before: Json, r: Json) {
    && EditedOnlyAt(c.immutablePaths, doc, r)
    && (forall p :: p in c.immutablePaths ==> Get(r, p) == Get(before, p))
  }

  lemma PinOne(paths: set<Path>, doc: Json, before: Json, r: Json, p: Path)
    requires PrefixFree(paths) && p in paths && p != [] && EditedOnlyAt(paths, doc, r)
    ensures var r' := SetPath(r, p, Get(before, p));
      && EditedOnlyAt(paths, doc, r')
      && Lookup(r', p) == Some(Get(before, p))
      && (forall x :: x in paths - {p} ==> Lookup(r', x) == Lookup(r, x))
  {
    var v := Get(before, p);
    var r' := SetPath(r, p, v);
    LookupSetBelow(r, p, v, p);
    forall x | x in paths - {p} ensures Lookup(r', x) == Lookup(r, x) {
      LookupSetApart(r, p, v, x);
    }
    forall q | ApartFrom(paths, q) ensures Lookup(r', q) == Lookup(doc, q) {
      LookupSetApart(r, p, v, q);
    }
  }

  /** setDocument: an immutable property that differs is put back. */
  method KeepImmutable(c: Schema, doc: Json, before: Json) returns (r: Json)
    requires PrefixFree(c.immutablePaths) && [] !in c.immutablePaths
    ensures Pinned(c, doc, before, r)
  {
    r := doc;
    assert EditedOnlyAt(c.immutablePaths, doc, r);
    hide EditedOnlyAt, PrefixFree, Lookup;
    var todo := c.immutablePaths;
    while todo != {}
      invariant todo <= c.immutablePaths
      invariant EditedOnlyAt(c.immutablePaths, doc, r)
      invariant forall x :: x in c.immutablePaths - todo ==> Get(r, x) == Get(before, x)
      decreases todo
    {
      var p :| p in todo;
      if Get(r, p) != Get(before, p) {
        PinOne(c.immutablePaths, doc, before, r, p);
        r := SetPath(r, p, Get(before, p));
      }
      todo := todo - {p};
    }
  }

  /** updateDocument: every immutable property is written into the patch. */
  method ForceImmutable(c: Schema, doc: Json, before: Json) returns (r: Json)
    requires PrefixFree(c.immutablePaths) && [] !in c.immutablePaths
    ensures Pinned(c, doc, before, r)
    ensures forall p :: p in c.immutablePaths ==> Lookup(r, p) == Some(Get(before, p))
  {
    r := doc;
    assert EditedOnlyAt(c.immutablePaths, doc, r);
    hide EditedOnlyAt, PrefixFree, Lookup;
    var todo := c.immutablePaths;
    while todo != {}
      invariant todo <= c.immutablePaths
      invariant EditedOnlyAt(c.immutablePaths, doc, r)
      invariant forall x :: x in c.immutablePaths - todo ==> Lookup(r, x) == Some(Get(before, x))
      decreases todo
    {
      var p :| p in todo;
      PinOne(c.immutablePaths, doc, before, r, p);
      r := SetPath(r, p, Get(before, p));
      todo := todo - {p};
    }
  }

  /** The primary key survives pinning: it is apart from the immutable properties or one of them. */
  lemma PinnedPrimaryKey(c: Schema, doc: Json, before: Json, r: Json, id: Bytes)
    requires c.WellFormed() && Pinned(c, doc, before, r)
    requires Get(doc, c.pk) == Str(id) && Get(before, c.pk) == Str(id)
    ensures Get(r, c.pk) == Str(id)
  {
    assert c.pk in c.immutablePaths + {c.pk};
    if c.pk !in c.immutablePaths {
      forall p | p in c.immutablePaths ensures !Comparable(p, c.pk) {
        assert p in c.immutablePaths + {c.pk};
      }
      assert ApartFrom(c.immutablePaths, c.pk);
    }
  }

  // ----- references -----

  lemma ValidatedReferences(cat: Catalog, did: DocId, doc: Json)
    requires did.coll in cat && cat[did.coll].Validates(doc, did.id)
    ensures GoodReferences(cat, did, doc)
  {
    forall n | n in cat[did.coll].indexes ensures ReferenceTyped(cat, did.coll, doc, n) {
      assert cat[did.coll].indexes[n].foreign.Some? || cat[did.coll].indexes[n].foreign.None?;
    }
  }

  // ----- merging a patch -----

  lemma {:induction false} ValueBelow(j: Json) returns (q: Path)
    ensures q in FlatPaths(j)
    ensures j.Obj? && j.fields != map[] ==> q != []
    decreases j
  {
    if j.Obj? && j.fields != map[] {
      var k :| k in j.fields;
      var r := ValueBelow(j.fields[k]);
      q := [k] + r;
    } else {
      q := [];
    }
  }

  /** A field of the patch is a value the merged document has too, or an object the merged document
      has as an object too. */
  lemma MergedField(before: Json, patch: Json, after: Json, f: Path)
    requires Written(before, Flatten(patch), after) && Exists(patch, f)
    ensures if Get(patch, f).Obj? && Get(patch, f) != EMPTY_OBJECT then Exists(after, f) && Get(after, f).Obj?
            else Lookup(after, f) == Some(Get(patch, f))
  {
    var v := Get(patch, f);
    if v.Obj? && v != EMPTY_OBJECT {
      var q := ValueBelow(v);
      FlatPathsExact(v, q);
      LookupConcat(patch, f, q);
      FlatPathsExact(patch, f + q);
      assert f + q in Flatten(patch);
      assert (f + q)[..|f|] == f;
      ObjectAbove(after, f, f + q);
    } else {
      FlatPathsExact(patch, f);
      assert f in Flatten(patch);
    }
  }

  /** Whatever scalar the patch has, the merged document has. */
  lemma MergedScalar(before: Json, patch: Json, after: Json, f: Path)
    requires Written(before, Flatten(patch), after) && ScalarAt(patch, f).Some?
    ensures ScalarAt(after, f) == ScalarAt(patch, f)
  {
    MergedField(before, patch, after, f);
  }

  lemma PatchTyped(cat: Catalog, did: DocId, before: Json, patch: Json, after: Json)
    requires did.coll in cat && cat[did.coll].Validates(after, did.id) && Written(before, Flatten(patch), after)
    ensures GoodReferences(cat, did, patch)
  {
    forall n | n in cat[did.coll].indexes ensures ReferenceTyped(cat, did.coll, patch, n) {
      var i := cat[did.coll].indexes[n];
      if i.foreign.Some? && i.fields != [] && Exists(patch, i.fields[0]) {
        MergedField(before, patch, after, i.fields[0]);
      }
    }
  }

  /** The patch supplies every indexed field the merged document has. */
  ghost predicate PatchCovers(c: Schema, patch: Json, after: Json) {
    forall n, f :: n in c.Secondary() && f in c.indexes[n].fields && ScalarAt(after, f).Some? ==>
        ScalarAt(patch, f).Some?
  }

  ghost predicate SameEntryTails(c: Schema, patch: Json, after: Json) {
    forall n :: n in c.Secondary() ==> EntryTail(c.indexes[n], patch) == EntryTail(c.indexes[n], after)
  }

  lemma {:induction false} SmallerValuesShorterTail(fields: seq<Path>, v: Values, w: Values)
    requires forall f :: f in v ==> Scalar(v[f])
    requires forall f :: f in w ==> Scalar(w[f])
    requires forall f :: f in v ==> f in w && v[f] == w[f]
    ensures |Tail(fields, v)| <= |Tail(fields, w)|
    ensures (exists f :: f in fields && f in w && f !in v) ==> |Tail(fields, v)| < |Tail(fields, w)|
  {
    if fields != [] {
      var init, last := fields[..|fields| - 1], fields[|fields| - 1];
      assert fields == init + [last];
      SmallerValuesShorterTail(init, v, w);
    }
  }

  lemma TailsAgreeWhen(fields: seq<Path>, before: Json, patch: Json, after: Json)
    requires Written(before, Flatten(patch), after)
    ensures Tail(fields, IndexedValues(fields, patch)) == Tail(fields, IndexedValues(fields, after)) <==>
            forall f :: f in fields && ScalarAt(after, f).Some? ==> ScalarAt(patch, f).Some?
  {
    var v, w := IndexedValues(fields, patch), IndexedValues(fields, after);
    forall f | f in v ensures f in w && v[f] == w[f] {
      MergedScalar(before, patch, after, f);
    }
    hide Written, Flatten, Tail;
    SmallerValuesShorterTail(fields, v, w);
    if forall f :: f in fields && ScalarAt(after, f).Some? ==> ScalarAt(patch, f).Some? {
      TailAgree(fields, v, w);
    } else {
      var f :| f in fields && ScalarAt(after, f).Some? && ScalarAt(patch, f) == None;
      assert f in fields && f in w && f !in v;
    }
  }

  /** An update leaves the index entries at the keys of the merged document if and only if the patch
      supplies every indexed field that document has. */
  lemma UpdateKeepsKeysWhen(c: Schema, before: Json, patch: Json, after: Json)
    requires Written(before, Flatten(patch), after)
    ensures SameEntryTails(c, patch, after) <==> PatchCovers(c, patch, after)
  {
    hide Written, Flatten, Tail, IndexedValues, ScalarAt;
    forall n | n in c.Secondary()
      ensures EntryTail(c.indexes[n], patch) == EntryTail(c.indexes[n], after) <==>
              forall f :: f in c.indexes[n].fields && ScalarAt(after, f).Some? ==> ScalarAt(patch, f).Some?
    {
      TailsAgreeWhen(c.indexes[n].fields, before, patch, after);
    }
  }
}
