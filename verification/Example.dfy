/** A small catalog that meets every assumption of the model: authors, books that refer to them, and notes
    that must not change. */
module Example {
  import opened ByteStrings
  import opened Json
  import opened Schemas
  import opened Store
  import opened Filter
  import opened Optimizer
  import opened Gaps
  import opened Scan
  import opened Integrity
  import opened Soundness
  import opened ChangeLog
  import opened Cascade
  import opened KvIter
  import opened LogReading
  import opened TimeTravel
  import opened Runs
  import opened Histories
  import opened Transactions
  import opened Acceptance

  const AUTHOR: Bytes := [97]
  const BOOK: Bytes := [98]
  const NOTE: Bytes := [110]
  const ID: Path := [[105, 100]]
  const TITLE: Path := [[116]]
  const WRITER: Path := [[119]]
  const PRIMARY: Bytes := [112]
  const BY_TITLE: Bytes := [116]
  const BY_WRITER: Bytes := [119]

  const PRIMARY_INDEX := Index(PRIMARY, [ID], true, true, None)

  /** The indexes of the log: collection_document_idx, document_id_idx and timestamp_idx. */
  const BY_DOCUMENT: Bytes :=
    [99, 111, 108, 108, 101, 99, 116, 105, 111, 110, 95, 100, 111, 99, 117, 109, 101, 110, 116, 95, 105, 100, 120]
  const BY_DOCUMENT_ID: Bytes := [100, 111, 99, 117, 109, 101, 110, 116, 95, 105, 100, 95, 105, 100, 120]
  const BY_TIMESTAMP: Bytes := [116, 105, 109, 101, 115, 116, 97, 109, 112, 95, 105, 100, 120]

  const LOG_SCHEMA := Schema(CDC_COLLECTION, ID, PRIMARY, map[
    PRIMARY := PRIMARY_INDEX,
    BY_DOCUMENT := Index(BY_DOCUMENT, [[COLLECTION], [DOCUMENT_ID]], false, false, None),
    BY_DOCUMENT_ID := Index(BY_DOCUMENT_ID, [[DOCUMENT_ID]], false, false, None),
    BY_TIMESTAMP := Index(BY_TIMESTAMP, [[TIMESTAMP]], false, false, None)], true, false, true, false, {}, d => true, 0)

  const CATALOG: Catalog := map[
    CDC_COLLECTION := LOG_SCHEMA,
    NOTE := Schema(NOTE, ID, PRIMARY, map[PRIMARY := PRIMARY_INDEX], true, false, false, false, {TITLE}, d => true, 0),
    AUTHOR := Schema(AUTHOR, ID, PRIMARY, map[PRIMARY := PRIMARY_INDEX], false, false, false, false, {}, d => true, 0),
    BOOK := Schema(BOOK, ID, PRIMARY, map[
      PRIMARY := PRIMARY_INDEX,
      BY_TITLE := Index(BY_TITLE, [TITLE], true, false, None),
      BY_WRITER := Index(BY_WRITER, [WRITER], false, false, Some(ForeignKey(AUTHOR, false)))],
      false, false, false, false, {TITLE}, d => true, 1)]

  /** The names of the log's indexes begin with different letters. */
  lemma LogNamesApart(m: Bytes, n: Bytes)
    requires m in {PRIMARY, BY_DOCUMENT, BY_DOCUMENT_ID, BY_TIMESTAMP}
    requires n in {PRIMARY, BY_DOCUMENT, BY_DOCUMENT_ID, BY_TIMESTAMP}
    requires HasPrefix(m, n)
    ensures m == n
  {
    assert m[0] == n[0];
  }

  lemma LogIndexIsGood(n: Bytes)
    requires n in LOG_SCHEMA.indexes
    ensures LOG_SCHEMA.GoodIndex(n)
  {
    assert ZeroFree(PRIMARY) && ZeroFree(BY_DOCUMENT) && ZeroFree(BY_DOCUMENT_ID) && ZeroFree(BY_TIMESTAMP);
    assert COLLECTION[0] != DOCUMENT_ID[0];
  }

  lemma LogIsGood()
    ensures LOG_SCHEMA.WellFormed() && PlainLogCollection(LOG_SCHEMA)
  {
    var s := LOG_SCHEMA;
    hide HasPrefix, Schema.GoodIndex;
    assert s.indexes.Keys == {PRIMARY, BY_DOCUMENT, BY_DOCUMENT_ID, BY_TIMESTAMP};
    forall n | n in s.indexes ensures s.GoodIndex(n) { LogIndexIsGood(n); }
    forall m, n | m in s.indexes && n in s.indexes && HasPrefix(m, n) ensures m == n { LogNamesApart(m, n); }
  }

  lemma NoteIsGood()
    ensures CATALOG[NOTE].WellFormed()
  {
    assert CATALOG[NOTE].GoodIndex(PRIMARY);
  }

  lemma AuthorIsGood()
    ensures CATALOG[AUTHOR].WellFormed()
  {
    assert CATALOG[AUTHOR].GoodIndex(PRIMARY);
  }

  lemma BookIsGood()
    ensures CATALOG[BOOK].WellFormed()
  {
    var s := CATALOG[BOOK];
    assert s.GoodIndex(PRIMARY) && s.GoodIndex(BY_TITLE) && s.GoodIndex(BY_WRITER);
  }

  lemma ExampleIsGood()
    ensures GoodCatalog(CATALOG)
  {
    LogIsGood();
    NoteIsGood();
    AuthorIsGood();
    BookIsGood();
    hide Schema.WellFormed, PlainLogCollection;
    forall c | c in CATALOG ensures CATALOG[c].collection == c && CATALOG[c].WellFormed() {}
    forall c, n | c in CATALOG && n in CATALOG[c].indexes && CATALOG[c].indexes[n].foreign.Some?
      ensures GoodReference(CATALOG, c, CATALOG[c].indexes[n].foreign.value.collection)
    {
      assert c == BOOK && n == BY_WRITER;
    }
  }

  lemma EmptyIsSound()
    ensures Holds(CATALOG, map[], map[]) && Sound(CATALOG, map[], {}) && Data(CATALOG, map[]) == map[]
  {
  }

  /** The log can be read from the beginning, and every document begins with an empty history. */
  lemma EmptyLog(did: DocId, paths: set<Path>)
    requires did.coll in CATALOG && PrefixFree(paths)
    ensures LogIndexed(LOG_SCHEMA) && LogIs(CATALOG, map[], [])
    ensures Chronicle(CATALOG, [], State(map[], []), did, paths, History([None], [], []))
  {
    EmptyChronicle(CATALOG, [], State(map[], []), did, paths);
    assert LOG_SCHEMA.indexes[BY_DOCUMENT_ID].fields == [[DOCUMENT_ID]];
    assert ID[0] !in LOG_FIELDS;
  }

  /** The empty store is a sound beginning, from which every run of commands starts. */
  method NewTransaction(backend: Backend) returns (tx: Transaction)
    ensures fresh(tx) && tx.cat == CATALOG && tx.backend == backend && tx.Inv() && tx.Db() == map[]
  {
    ExampleIsGood();
    EmptyIsSound();
    tx := new Transaction(CATALOG, backend, map[], map[]);
  }

  function Author(id: Bytes): Json {
    Obj(map[ID[0] := Str(id)])
  }

  function AuthorAndBook(author: DocId, book: DocId): Docs {
    map[author := Author(author.id),
        book := Obj(map[ID[0] := Str(book.id), WRITER[0] := Str(author.id)])]
  }

  lemma BookRefers(author: DocId, book: DocId)
    requires author.coll == AUTHOR && book.coll == BOOK
    ensures var db := AuthorAndBook(author, book);
            && author in db && book in db && Parent(CATALOG, BOOK, db[book], BY_WRITER) == Some(author)
    ensures !CATALOG[BOOK].indexes[BY_WRITER].foreign.value.cascade
    ensures forall n :: n in CATALOG[BOOK].indexes && CATALOG[BOOK].indexes[n].foreign.Some? ==> n == BY_WRITER
  {
    assert Lookup(AuthorAndBook(author, book)[book], WRITER) == Lookup(Str(author.id), WRITER[1..]);
  }

  /** The smallest case in which the cascade flag makes a difference: a book whose key to its author does
      not ask for cascading is deleted with the author all the same. */
  lemma FlagIgnoredExample(author: DocId, book: DocId)
    requires author.coll == AUTHOR && book.coll == BOOK
    ensures GoodCatalog(CATALOG)
    ensures var db := AuthorAndBook(author, book);
            book in Doomed(CATALOG, db, author) && book !in Flagged(CATALOG, db, author)
  {
    ExampleIsGood();
    var db := AuthorAndBook(author, book);
    BookRefers(author, book);
    assert BOOK in CATALOG && BY_WRITER in CATALOG[BOOK].indexes && AUTHOR != BOOK;
    assert GoodReference(CATALOG, BOOK, AUTHOR);
    hide GoodCatalog, AuthorAndBook, CATALOG, Parent, GoodReference;
    assert Reaches(CATALOG, db, author, author);
    assert ReachesThrough(CATALOG, db, book, BY_WRITER, author);
    forall n | n in CATALOG[BOOK].indexes ensures !FlaggedThrough(CATALOG, db, book, n, author) {}
  }

  function Note(id: Bytes, title: Bytes): Json {
    Obj(map[ID[0] := Str(id), TITLE[0] := Str(title)])
  }

  lemma NoteIsAccepted(t: Entries, id: Bytes, title: Bytes)
    requires ValidId(id)
    ensures Acceptable(CATALOG, NOTE, Note(id, title)) && KeyText(CATALOG[NOTE], Note(id, title)) == id
    ensures WithKey(CATALOG[NOTE], Note(id, title), id) == Note(id, title)
    ensures CreateAllowed(CATALOG, t, DocId(NOTE, id), Note(id, title))
  {
    var d := Note(id, title);
    assert Lookup(d, ID) == Lookup(Str(id), ID[1..]) == Some(Str(id));
    assert SetPath(Str(id), ID[1..], Str(id)) == Str(id);
    assert d.fields[ID[0] := Str(id)] == d.fields;
  }

  method CreateNote(tx: Transaction, id: Bytes, title: Bytes, ctx: Context) returns (ok: bool)
    requires tx.cat == CATALOG && tx.Inv() && ValidId(id)
    modifies tx
    ensures ok && tx.Inv() && tx.Db() == old(tx.Db())[DocId(NOTE, id) := Note(id, title)]
  {
    NoteIsAccepted(tx.table, id, title);
    assert NOTE in CATALOG && CATALOG[NOTE].WellFormed() by { NoteIsGood(); }
    hide *;
    ghost var db := tx.Db();
    var created;
    ok, created := tx.Create(NOTE, Note(id, title), ctx.from, ctx.metadata);
  }

  lemma NotesAreImmutable()
    ensures NOTE in CATALOG && CATALOG[NOTE].immutable && TITLE in CATALOG[NOTE].immutablePaths
  {
  }

  /** Notes are immutable, and so are their titles; yet creating a note a second time replaces it. */
  method OverwrittenNote(backend: Backend, id: Bytes, title: Bytes, other: Bytes, ctx: Context)
    returns (tx: Transaction, ok: bool, ghost between: Docs)
    requires ValidId(id)
    ensures NOTE in CATALOG && CATALOG[NOTE].immutable && TITLE in CATALOG[NOTE].immutablePaths
    ensures fresh(tx) && tx.cat == CATALOG && tx.Inv() && ok
    ensures between == map[DocId(NOTE, id) := Note(id, title)]
    ensures tx.Db() == map[DocId(NOTE, id) := Note(id, other)]
  {
    hide *;
    NotesAreImmutable();
    tx := NewTransaction(backend);
    ok := CreateNote(tx, id, title, ctx);
    between := tx.Db();
    ok := CreateNote(tx, id, other, ctx);
  }

  // ----- two books of one author -----

  function Book(id: Bytes, writer: Bytes, title: Bytes): Json {
    Obj(map[ID[0] := Str(id), WRITER[0] := Str(writer), TITLE[0] := Str(title)])
  }

  lemma AuthorMembers(id: Bytes)
    ensures Author(id).Obj? && Lookup(Author(id), ID) == Some(Str(id))
    ensures SetPath(Author(id), ID, Str(id)) == Author(id)
  {
    assert Lookup(Str(id), ID[1..]) == Some(Str(id));
    assert SetPath(Str(id), ID[1..], Str(id)) == Str(id);
    assert Author(id).fields[ID[0] := Str(id)] == Author(id).fields;
  }

  lemma BookMembers(id: Bytes, writer: Bytes, title: Bytes)
    ensures var d := Book(id, writer, title);
      && d.Obj? && Lookup(d, ID) == Some(Str(id)) && Lookup(d, WRITER) == Some(Str(writer))
      && Lookup(d, TITLE) == Some(Str(title)) && SetPath(d, ID, Str(id)) == d
  {
    var d := Book(id, writer, title);
    assert Lookup(Str(id), ID[1..]) == Some(Str(id));
    assert Lookup(Str(writer), WRITER[1..]) == Some(Str(writer));
    assert Lookup(Str(title), TITLE[1..]) == Some(Str(title));
    assert SetPath(Str(id), ID[1..], Str(id)) == Str(id);
    assert d.fields[ID[0] := Str(id)] == d.fields;
  }

  lemma AuthorIsAccepted(t: Entries, docs: set<Bytes>, id: Bytes)
    requires Sound(CATALOG, t, docs) && ValidId(id)
    ensures Acceptable(CATALOG, AUTHOR, Author(id)) && KeyText(CATALOG[AUTHOR], Author(id)) == id
    ensures WithKey(CATALOG[AUTHOR], Author(id), id) == Author(id)
    ensures CreateAllowed(CATALOG, t, DocId(AUTHOR, id), Author(id))
  {
    ExampleIsGood();
    AuthorMembers(id);
    hide GoodCatalog, Sound, Lookup, SetPath, Author, CreateAllowed;
    CreateSucceedsWhen(CATALOG, t, docs, DocId(AUTHOR, id), Author(id));
  }

  /** No other book has a title that begins with this one. */
  ghost predicate TitleFree(db: Docs, id: Bytes, title: Bytes) {
    ZeroFree(title) && forall x :: x in db && x.coll == BOOK ==>
      ZeroFree(x.id) && Get(db[x], TITLE).Str? && (x.id != id ==> !HasPrefix(Get(db[x], TITLE).s, title))
  }

  lemma BookIsUnobjectionable(db: Docs, id: Bytes, writer: Bytes, title: Bytes)
    requires DocId(AUTHOR, writer) in db && TitleFree(db, id, title)
    ensures Unobjectionable(db, DocId(BOOK, id), CATALOG[BOOK], Book(id, writer, title))
  {
    var c, d := CATALOG[BOOK], Book(id, writer, title);
    BookMembers(id, writer, title);
    hide Taken, HasPrefix, ZeroFree, Lookup;
    TextTakenWhen(db, DocId(BOOK, id), c.indexes[BY_TITLE], TITLE, d, title);
  }

  lemma BookIsAccepted(t: Entries, docs: set<Bytes>, id: Bytes, writer: Bytes, title: Bytes)
    requires Sound(CATALOG, t, docs) && ValidId(id)
    requires DocId(AUTHOR, writer) in Data(CATALOG, t) && TitleFree(Data(CATALOG, t), id, title)
    ensures Acceptable(CATALOG, BOOK, Book(id, writer, title)) && KeyText(CATALOG[BOOK], Book(id, writer, title)) == id
    ensures WithKey(CATALOG[BOOK], Book(id, writer, title), id) == Book(id, writer, title)
    ensures CreateAllowed(CATALOG, t, DocId(BOOK, id), Book(id, writer, title))
  {
    ExampleIsGood();
    BookMembers(id, writer, title);
    hide GoodCatalog, Sound, Lookup, SetPath, Book, Data, Unobjectionable, TitleFree, CreateAllowed;
    BookIsUnobjectionable(Data(CATALOG, t), id, writer, title);
    CreateSucceedsWhen(CATALOG, t, docs, DocId(BOOK, id), Book(id, writer, title));
  }

  method CreateAuthor(tx: Transaction, id: Bytes, ctx: Context) returns (ok: bool)
    requires tx.cat == CATALOG && tx.Inv() && ValidId(id)
    modifies tx
    ensures ok && tx.Inv() && tx.Db() == old(tx.Db())[DocId(AUTHOR, id) := Author(id)]
  {
    AuthorIsAccepted(tx.table, tx.docs, id);
    assert AUTHOR in CATALOG && ValidId(id) && id != [];
    hide *;
    var created;
    ok, created := tx.Create(AUTHOR, Author(id), ctx.from, ctx.metadata);
  }

  method CreateBook(tx: Transaction, id: Bytes, writer: Bytes, title: Bytes, ctx: Context) returns (ok: bool)
    requires tx.cat == CATALOG && tx.Inv() && ValidId(id)
    requires DocId(AUTHOR, writer) in tx.Db() && TitleFree(tx.Db(), id, title)
    modifies tx
    ensures ok && tx.Inv() && tx.Db() == old(tx.Db())[DocId(BOOK, id) := Book(id, writer, title)]
  {
    BookIsAccepted(tx.table, tx.docs, id, writer, title);
    assert BOOK in CATALOG && ValidId(id) && id != [];
    hide *;
    var created;
    ok, created := tx.Create(BOOK, Book(id, writer, title), ctx.from, ctx.metadata);
  }

  lemma TitlesFree(writer: Bytes, first: Bytes, title: Bytes, second: Bytes, other: Bytes)
    requires ValidId(first) && ZeroFree(title) && ZeroFree(other) && !HasPrefix(title, other)
    ensures AUTHOR != BOOK
    ensures TitleFree(map[DocId(AUTHOR, writer) := Author(writer)], first, title)
    ensures TitleFree(
      map[DocId(AUTHOR, writer) := Author(writer), DocId(BOOK, first) := Book(first, writer, title)], second, other)
  {
    BookMembers(first, writer, title);
    hide Lookup, HasPrefix, Book, Author;
  }

  /** A foreign key is no unique value: an author can have a second book. */
  method SecondBook(backend: Backend, writer: Bytes, first: Bytes, second: Bytes, title: Bytes, other: Bytes,
        ctx: Context) returns (tx: Transaction, ok: bool)
    requires ValidId(writer) && ValidId(first) && ValidId(second) && first != second
    requires ZeroFree(title) && ZeroFree(other) && !HasPrefix(title, other)
    ensures fresh(tx) && tx.cat == CATALOG && tx.Inv() && ok
    ensures tx.Db() == map[DocId(AUTHOR, writer) := Author(writer),
                           DocId(BOOK, first) := Book(first, writer, title),
                           DocId(BOOK, second) := Book(second, writer, other)]
  {
    TitlesFree(writer, first, title, second, other);
    hide *;
    tx := NewTransaction(backend);
    ok := CreateAuthor(tx, writer, ctx);
    ok := CreateBook(tx, first, writer, title, ctx);
    ok := CreateBook(tx, second, writer, other, ctx);
  }

  // ----- a plan that passes over a position -----

  const A: Name := [97]
  const B: Name := [98]
  const C: Name := [99]

  /** An index on two fields, a query that fixes the second one in its second clause, and what the plan for
      it scans: the entries that begin with the second field. */
  const PAIR := Index([112], [[A], [B]], false, false, None)
  const SECOND_FIXED := [Where([C], Eq, Num(1.0)), Where([B], Eq, Num(1.0))]
  const PASSING_OVER := Explain(PAIR, [[B]], map[[B] := Num(1.0)], [], map[], false)

  function Triple(): Json {
    Obj(map[A := Num(1.0), B := Num(1.0), C := Num(1.0)])
  }

  lemma TripleMembers()
    ensures Lookup(Triple(), [A]) == Lookup(Triple(), [B]) == Lookup(Triple(), [C]) == Some(Num(1.0))
  {
    assert Lookup(Num(1.0), [A][1..]) == Lookup(Num(1.0), [B][1..]) == Lookup(Num(1.0), [C][1..]) == Some(Num(1.0));
  }

  lemma PassingOverIsPlan()
    ensures IndexPlan(PAIR, SECOND_FIXED, PASSING_OVER) && PlainFields(PAIR)
  {
    var i, w := PAIR, SECOND_FIXED;
    assert ValuesFor([[B]], w) == map[[B] := Num(1.0)];
    assert !MatchedAt(i, w, 0) && MatchedAt(i, w, 1) && !SeekAt(i, w, 0) && !SeekAt(i, w, 1);
    assert MatchedUpTo(i, w, 0) == SeekUpTo(i, w, 0) == [];
    assert MatchedUpTo(i, w, 1) == SeekUpTo(i, w, 1) == [];
    assert MatchedUpTo(i, w, 2) == [[B]] && SeekUpTo(i, w, 2) == [];
  }

  /** The smallest matching document that is missed: it also has the field that was passed over. */
  lemma PassedOverExample(b: Backend)
    ensures IndexPlan(PAIR, SECOND_FIXED, PASSING_OVER) && PlainFields(PAIR)
    ensures Matches(SECOND_FIXED, Triple()) && Missed(b, PASSING_OVER, Triple())
  {
    PassingOverIsPlan();
    TripleMembers();
    hide Triple, Lookup, Skipped, IndexPlan, PlainFields, TextBefore;
    assert PASSING_OVER.index.fields[1] in PASSING_OVER.matchedFields;
    assert FirstGap(PASSING_OVER, Triple(), 0) && BeforeMatched(PASSING_OVER, 0);
  }
}
