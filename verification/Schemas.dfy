/** Collection schemas, reduced to what the engine consults. */
module Schemas {
  import opened ByteStrings
  import opened Json

  /** `cascade` asks for referring documents to be deleted with the document they refer to. */
  datatype ForeignKey = ForeignKey(collection: Bytes, cascade: bool)

  datatype Index = Index(name: Bytes, fields: seq<Path>, unique: bool, primary: bool, foreign: Option<ForeignKey>) {
    predicate RefersTo(coll: Bytes) {
      foreign.Some? && foreign.value.collection == coll
    }
  }

  /** `accepts` is the verdict of JSON-schema validation; `level` the position of the collection in a
      topological order of the foreign keys, referenced collections first. */
  datatype Schema = Schema(
    collection: Bytes,
    pk: Path,
    primaryName: Bytes,
    indexes: map<Bytes, Index>,
    immutable: bool,
    preventDeletes: bool,
    readOnly: bool,
    requireIndex: bool,
    immutablePaths: set<Path>,
    accepts: Json -> bool,
    level: nat)
  {
    ghost predicate WellFormed() {
      && ZeroFree(collection) && SLASH !in collection
      && |pk| == 1 && [] !in immutablePaths
      && PrefixFree(immutablePaths + {pk})
      && primaryName in indexes
      && (forall n :: n in indexes ==> GoodIndex(n))
      && (forall m, n :: m in indexes && n in indexes && HasPrefix(m, n) ==> m == n)
    }

    ghost predicate GoodIndex(n: Bytes)
      requires n in indexes
    {
      var i := indexes[n];
      && i.name == n && ZeroFree(n)
      && i.fields != []
      && (forall a, b :: 0 <= a < b < |i.fields| ==> i.fields[a] != i.fields[b])
      && (i.primary <==> n == primaryName)
      && (i.primary ==> i.fields == [pk] && i.foreign == None)
      && (i.foreign.Some? ==> |i.fields| == 1 && i.fields[0] != [])
    }

    function PrimaryIndex(): Index
      requires primaryName in indexes
    {
      indexes[primaryName]
    }

    function Secondary(): (r: set<Bytes>) {
      set n | n in indexes && !indexes[n].primary
    }

    /** What every stored document satisfies: it carries its id as a string, foreign keys are strings
        or missing (both are declared `type: string`), and the JSON schema accepts it. */
    predicate Validates(doc: Json, id: Bytes) {
      && doc.Obj?
      && Lookup(doc, pk) == Some(Str(id))
      && (forall n :: n in indexes && indexes[n].foreign.Some? && indexes[n].fields != [] ==>
            Get(doc, indexes[n].fields[0]).Str? || Get(doc, indexes[n].fields[0]).Null?)
      && accepts(doc)
    }
  }

  const SLASH: byte := 47
  const DOLLAR: byte := 36

  /** "null" and "system_cdc". */
  const NULL_TEXT: Bytes := [110, 117, 108, 108]
  const CDC_COLLECTION: Bytes := [115, 121, 115, 116, 101, 109, 95, 99, 100, 99]

  type Catalog = map<Bytes, Schema>

  ghost predicate GoodCatalog(cat: Catalog) {
    && (forall c :: c in cat ==> cat[c].collection == c && cat[c].WellFormed())
    && (forall c, n :: c in cat && n in cat[c].indexes && cat[c].indexes[n].foreign.Some? ==>
          GoodReference(cat, c, cat[c].indexes[n].foreign.value.collection))
    && CDC_COLLECTION in cat && PlainLogCollection(cat[CDC_COLLECTION])
  }

  ghost predicate GoodReference(cat: Catalog, c: Bytes, target: Bytes)
    requires c in cat
  {
    target in cat && cat[target].level < cat[c].level && target != CDC_COLLECTION
  }

  /** cdc.yaml: read-only and immutable, no unique or foreign key, no immutable property. */
  ghost predicate PlainLogCollection(s: Schema) {
    && s.readOnly && s.immutable
    && s.immutablePaths == {}
    && (forall n :: n in s.indexes && !s.indexes[n].primary ==> !s.indexes[n].unique && s.indexes[n].foreign == None)
    && (forall d :: s.accepts(d))
  }

  /** Ids the engine can look up again: Get compares the id with a where clause, in which a leading
      dollar sign means another field and "null" matches nothing; zero bytes separate key segments. */
  predicate ValidId(id: Bytes) {
    id != [] && ZeroFree(id) && id[0] != DOLLAR && id != NULL_TEXT
  }

  datatype DocId = DocId(coll: Bytes, id: Bytes)

  /** The place of one index entry: a document and an index of its collection. */
  datatype Slot = Slot(did: DocId, name: Bytes)

  ghost predicate ValidDocId(cat: Catalog, did: DocId) {
    did.coll in cat && ValidId(did.id)
  }

  ghost predicate ValidSlot(cat: Catalog, s: Slot) {
    ValidDocId(cat, s.did) && s.name in cat[s.did.coll].indexes
  }

  function IndexOf(cat: Catalog, s: Slot): Index
    requires s.did.coll in cat && s.name in cat[s.did.coll].indexes
  {
    cat[s.did.coll].indexes[s.name]
  }
}
