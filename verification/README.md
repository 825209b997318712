# A verified model of the myjson document engine

This project models the transactional document and index engine of myjson in Dafny and proves what it
relies on. Documents, secondary indexes, unique and foreign-key constraints and the change log are all
byte keys in one sorted key-value store; the abstract state is a map of documents per collection.

How the model is laid out:

- **Values.** `Json` (trees, paths, path edits), `ByteStrings` (byte order, big-endian numbers),
  `Schemas` (what the engine consults of a collection schema), `ChangeLog` (log records).
- **Store.** A transaction's view is a map from byte strings to values. `Store` ties it to a ghost table
  of index entries: for every (document, index) slot, the document its key was computed from. `Holds`
  says that the store is exactly the image of the table, `Complete` that the table is exactly the one of
  the stored documents, `Sound` adds foreign keys, uniqueness and the existence cache.
- **Reading.** `Indexing` (key layout), `KvUtil` and `KvIter` (prefix successor, the iterators of both
  backends), `Optimizer`, `Filter`, `Gaps` and `Scan` (an index scan against a full scan, for every plan),
  `Queries`, `Ordering`, `Grouping`, `KeyOrder`.
- **Writing.** `Preparation`, `Integrity`, `Soundness`, `Updates`, `Acceptance` (when a write must succeed, in
  terms of the documents alone), `Cascade`, and the class `Transactions.Transaction` with the commands, whose contracts say exactly when a command succeeds and
  what it makes of the map of documents and of the log; `Runs` follows whole sequences of commands.
- **Documents over time.** `Documents` (the class with diff, apply and revert), `DiffRoundTrip`,
  `TimeTravel` (undoing a history), `Histories` (the history a run writes), `LogReading` (the query for the
  records of a document, and decoding them), `ConfigPlan`. They meet in `Transaction.RunThenTravel`: after
  any run of commands, time travel to a moment of the run brings back what a document was then.
- **Underneath.** `KvTx` and `TikvTx` (transactions of the backends, change stream, read cache),
  `Locker` (the lease lock as a state machine beside the class that takes its steps).
- `Example` is a small catalog that meets every assumption about schemas, with the smallest inputs for
  which something documented fails.

Collections are assumed to form a directed acyclic graph of foreign keys; a schema carries its `level` in a
topological order. The collection graph of the original refuses references to unknown collections, but
reports no cycles. Map iteration (indexes, collections, groups, immutable
properties) is modelled as an arbitrary order throughout. The JSON schema of a collection is an arbitrary
predicate on documents.

## What the proofs brought to light

Where code and documentation part, the model follows the code.

- The `Cascade` flag of a foreign key is documented as the switch for cascading deletes (model.go:324) but
  never consulted (tx_util.go:268-302). What is deleted is what the flags ask for if and only if no document
  that is to stay refers to one that is to go (`CascadeFlagIgnored`, `FlagIgnoredExample`).
- An update builds its index entries and makes its checks from the patch, not from the merged document.
  The store stays consistent exactly when the patch supplies every indexed field the merged document has
  (`Update`, `UpdateKeepsKeysWhen`); a patch that is always good is characterised by `FullPatch`.
- Create does not look for an existing document: it overwrites, immutable properties and immutable
  collections included (`OverwrittenNote`). Over any run a document of an immutable collection stays the
  same, and a scalar immutable property keeps its value, if and only if every create that hits the document
  writes the same (`FrozenOverRuns`, `ImmutableOverRuns`).
- A plan can pass over a position of its index and still use a later one. Then the scan misses matching
  documents, exactly those whose first scalar at an unused position hides them (`Missed`,
  `PassedOverExample`).
- An id clause reads an id that starts with a dollar sign as a reference to a field, and "null" matches
  nothing (`IdClauseExactly`). Documents with such ids can be stored but not reliably looked up again; as
  long as none is stored, looking such an id up finds nothing, in Get as well as in foreign-key checks.
- Deleting a missing document works only in collections without secondary indexes.
- A descending scan on badger misses the entries whose converted value equals the bound; on natural
  numbers `lt` is complete and `lte` is not. TiKV misses nothing.
- A TiKV scan backwards from an upper bound starts below the successor of the bound. If a stored key continues
  the bound, the scan meets that key first, finds it out of bounds, and ends (`UpperBoundScan`).
- A unique index refuses a text that another document's text merely begins with (`TextTakenWhen`), and takes a
  document without the field only while no other document is stored (`MissingTakenWhen`).
- Reverting restores every value of the earlier version but keeps fields that were added since, and time
  travel to a moment after the last change of a document finds nothing, although the document exists.
- A difference removes leaves only. Applying it keeps every object of the earlier document, emptied if need
  be, and cannot put a leaf where there was an object (`DiffThenApplyIs` gives the outcome in full).
- Planning a configuration whose collection names do not change yields an empty plan, even if schemas were
  edited, and a plan that only deletes is refused. Otherwise configuring succeeds if and only if each created
  or edited schema, as applying its difference leaves it, parses and refers only to schemas created or edited
  with it, and the schema of the log collection refers to nothing that goes (`Configurable`,
  `ConfigureSucceedsWhen`). So a collection that refers to one that stays as it is cannot be added
  (`AddingReferenceFails`), and dropping a property fails, because the property stays behind empty and an
  empty property has no type (`DroppedPropertyFails`). A deletion can also be noticed too late: the last check
  comes after the plan has taken effect.
- A lock holder cannot retake its own expired record. A displaced holder loses a keepalive loop with every
  tick that meets no record; it can unlock if and only if fewer ticks have done so than it had loops
  (`UnlockServedExactly`), and otherwise waits for ever in Unlock.
- badger logs a deletion before it knows whether it is refused, for whatever reason. Over a serial run the
  stream gives the store if and only if every stored key a deletion of which was refused has been written
  again (`ReplayExactly`, `RunBadger`). On TiKV a transaction that overwrites a cached value goes on reading the
  old one until it commits.
- Maximum and minimum start from zero.

## Model

| member | source | states |
|---|---|---|
| KvUtil.NextPrefix | kv/kvutil/util.go:4-18 | the carry loop on a byte buffer computes the prefix successor |
| KvUtil.NextPrefixBound | kv/kvutil/util.go:4-18 | between p and its successor lie exactly the keys with prefix p and the stems that carried zero bytes leave |
| KvUtil.SuccessorEmpty | kv/kvutil/util.go:14-16 | the successor is empty, that is unbounded, exactly for all-0xFF input |
| KvIter.Iterator.constructor | kv/badger/tx.go:22-40 | an iterator walks the reachable keys in store order, or backwards |
| KvIter.PrefixScanComplete | kv/tikv/tx.go:21-43 | a prefix scan visits a key exactly when it has the prefix and is reachable from the seek key, on both backends |
| KvIter.VisitedDistinct | kv/badger/iter.go:23-44 | no key is visited twice |
| KvIter.OrderMonotone | kv/badger/iter.go:23-44 | keys are met in the store's order, or backwards |
| KvIter.UpperBoundScan | kv/kv.go:27-28 | a scan up to a bound sees exactly the keys with the prefix that are not beyond it, in both directions and on both backends, but on TiKV a scan backwards sees nothing if a stored key lies between the bound and its successor |
| KvIter.ContinuationOvershoots | kv/tikv/tx.go:21-43 | every stored key that continues the bound is such a key |
| Indexing.SeekPrefix | indexing.go:20-39 | the loop over the index fields yields base and tail of the present fields |
| Indexing.PathAppend | indexing.go:48-59 | appending a field extends the path by one separated segment |
| Indexing.PathSeek | indexing.go:61-76 | seeking an id extends the path by the separated id |
| Indexing.SlotOfEntry | indexing.go:70-76 | collection, index and id can be read back from every index key although encodings contain zero bytes, so different slots never collide |
| ByteStrings.SplitOfJoined | util.go:139 | names joined with dots can be split again, as far as they contain none |
| KeyOrder.KeysFollowNumbers | util/util.go:57-60 | keys of a single-field index sort by converted number, then id; they contradict the numbers only within one whole part |
| KeyOrder.KeysFollowTexts | util/util.go:55-56 | keys of a single-field index sort by text, then id, so no text is taken for another |
| KeyOrder.KeysFollowFlags | util/util.go:53-54 | false comes before true |
| Optimizer.GetMatchedFieldValues | optimizer.go:93-107 | each field gets the value of its last clause |
| Optimizer.LastValueIsLast | optimizer.go:93-107 | the value of a field is that of the last clause on it |
| Optimizer.MatchIndex | optimizer.go:54-73 | the position loop computes matched fields, seek fields and direction of one index |
| Optimizer.Optimize | optimizer.go:22-91 | the plan is the default, the primary lookup, or any index with the highest score; or an index is required |
| Optimizer.BestPlan | optimizer.go:45-91 | but for lookups by id, no index has more positions a clause can be used at than the one picked; refused if and only if none has any and the collection insists on an index |
| Optimizer.SingleFieldSegment | optimizer.go:54-73 | plans on single-field indexes never skip a position |
| Filter.Passes | document.go:365-452 | a document passes when all clauses hold |
| Filter.MatchesEach | document.go:365-452 | a document passes when it passes every clause by itself |
| Filter.OperatorMeans | document.go:371-447 | what each operator says of the field and the operand: equal, unequal, the four comparisons of numbers, one of the list |
| Filter.SelfOperatorMeans | document.go:370-434 | a text that begins with a dollar sign compares with the field it names |
| Gaps.ReachAcrossNames | kv/badger/tx.go:22-40 | where an entry has another field than the bound, the order of the field names decides whether an iterator that starts at the bound meets it |
| Scan.EntryReachable | tx_util.go:403-440 | the entry of a matching document has the scan's prefix and is reached unless a gap hides it or, without a gap, badger starts at its value |
| Scan.IndexScanRefinesFullScan | tx_util.go:403-521 | whatever plan is picked, the scan yields each document that passes the clauses exactly once and no other, and misses exactly those its gaps hide and, on badger, those at the bound of a descending scan |
| Scan.PlansAgreeExactly | optimizer.go:45-81 | two plans for one query yield the same documents if and only if they miss the same ones |
| Scan.AnyPlanSameDocuments | optimizer.go:45-81 | plans that use initial segments of their indexes yield the same documents up to order, so among them the random order of the index map cannot be noticed |
| Scan.BadgerDescendingOnNaturals | kv/badger/tx.go:38 | on natural numbers a descending badger scan misses exactly the values equal to the bound |
| Scan.IdScan | tx.go:200-213 | the lookup by any id scans to the one stored document or to nothing |
| Scan.UnfitIdFindsNothing | tx_util.go:408-421 | an id no document can have finds nothing, even where its clause compares two fields |
| Scan.IdClauseExactly | document.go:371-384 | an id clause means equality exactly for ids that do not start with a dollar sign and are not "null" |
| Scan.UniqueVisitedClear | tx_util.go:349-368 | the prefix scan of the unique check sees only the own id exactly when no other entry starts with the encoded fields |
| Store.SetEntry | tx_util.go:369-377 | writing an entry keeps the store the image of its table |
| Store.DeleteEntry | tx_util.go:310-318 | deleting an entry keeps the store the image of its table |
| Store.CompleteIsExact | tx_util.go:161-234 | with nothing half deleted there is exactly one entry per document and index, at the key of its current fields |
| Store.StoreIsDeterminedByDocs | tx_util.go:161-234 | two stores are equal byte for byte if and only if they hold the same documents |
| Integrity.NothingLeftThatReaches | tx_util.go:268-302 | when all references are met again, no document that led to the deleted one is left |
| Integrity.ReachesUpward | dag.go:19-62 | referring documents live strictly higher in the collection graph |
| Integrity.UniqueValues | tx_util.go:349-377 | no two documents of a collection share the value of a unique field, in spite of the lossy encoding |
| Integrity.WriteKeepsUnique | tx_util.go:349-377 | an accepted write keeps unique values unique |
| Integrity.WriteKeepsReferential | tx_util.go:332-348 | an accepted write keeps every foreign key pointing to a stored document |
| Integrity.RewrittenComplete | tx_util.go:229-233 | a finished write leaves exactly the current entries, and changes the map of documents at one id |
| Integrity.CacheKeyInjective | tx_util.go:573 | different documents have different keys in the existence cache |
| Preparation.KeepImmutable | tx_util.go:128-148 | set puts every immutable property back and leaves everything apart from them |
| Preparation.ForceImmutable | tx_util.go:27-47 | update writes every immutable property into its patch |
| Preparation.PinnedPrimaryKey | tx_util.go:143-147 | pinning keeps the primary key |
| Preparation.UpdateKeepsKeysWhen | tx_util.go:48-63 | index keys of patch and merged document agree if and only if the patch supplies every indexed field the merged document has |
| Updates.CoveredAccepts | tx_util.go:332-368 | what the checks say of a covering patch they say of the merged document |
| Updates.UncoveredDisagrees | tx_util.go:369-377 | after a patch that leaves out an indexed field the store is no image of any documents |
| Acceptance.AcceptsExactly | tx_util.go:332-368 | the indexes accept a document if and only if every foreign key names a stored document and, in unique indexes only, no other document's encoded fields start as its own |
| Acceptance.CreateSucceedsWhen | tx_util.go:161-234 | create succeeds if and only if the collection may be written to, the JSON schema accepts the document, and the indexes have no objection |
| Acceptance.SetSucceedsWhen | tx_util.go:122-159 | set succeeds in the same cases, unless the collection is immutable and has the document |
| Acceptance.UpdateSucceedsWhen | tx_util.go:23-67 | update succeeds if and only if the document is there and may be changed, the JSON schema accepts the merged document, and the indexes have no objection to the command |
| Acceptance.NoUniqueIndexNoRefusal | tx_util.go:349-368 | a collection without unique indexes never refuses a document for its values |
| Acceptance.TextTakenWhen | tx_util.go:349-368 | a unique text is taken if and only if another document's text begins with it |
| Acceptance.MissingTakenWhen | tx_util.go:349-368 | a document without the fields of a unique index is refused if and only if another document is stored |
| Soundness.WriteKeepsSound | tx_util.go:161-234 | an accepted write keeps entries, references, uniqueness and the existence cache right |
| Soundness.RecordKeepsSound | tx_util.go:234-264 | storing the log record keeps them right and touches no document outside the log |
| Soundness.NewRecordGrowsLog | tx_util.go:234-264 | a record under a new id joins the log collection, which otherwise stays what it was |
| Cascade.ReferencePlanFollowable | tx_util.go:274-284 | whatever index the optimizer picks for the reference clause, the scan can be trusted |
| Cascade.ReferenceScan | tx_util.go:274-287 | the query of a cascade finds the referring documents, all and each once |
| Cascade.DeletionBegins | tx_util.go:69-86 | without its primary entry a document is pending and everything else is as it should be |
| Cascade.DeletionEnds | tx_util.go:308-320 | dropping the remaining entries of an unreferenced document makes the store sound again |
| Cascade.ProgressStep | tx_util.go:288-292 | deleting a referring document with all that refers to it removes only what leads to the target |
| Cascade.DeletedExactly | tx_util.go:268-302 | a finished cascade has removed exactly the target and what refers to it through any chain |
| Cascade.DoomedIsLeast | tx_util.go:268-302 | what a deletion removes is the least set that has the target and every stored document that refers to one of the set |
| Cascade.DeleteSucceedsWhen | tx_util.go:69-76 | a deletion succeeds if and only if nothing it would remove is in a read-only or immutable collection or one that prevents deletes, and the document is there or has no secondary index |
| Cascade.CascadeFlagIgnored | model.go:321-326 | the deleted documents are those the cascade flags ask for if and only if no document outside them refers to one of them |
| Transactions.Transaction.constructor | db.go:135-151 | a new transaction sees the committed store with empty cache and log |
| Transactions.Transaction.QueryScan | tx_util.go:383-522 | the scan yields the documents of its plan in order, up to the early stop |
| Transactions.Transaction.RunQuery | tx.go:133-198 | a query returns the page of the ordered matches, early stop or not |
| Queries.RefusedWhen | optimizer.go:45-91 | a query is refused if and only if the collection insists on an index, the first clause does not fix the id, and no clause can be used at its position of any index |
| Queries.QueryAnswers | tx.go:133-198 | a query without a limit returns every stored document that passes the clauses and is not missed, once and no other, in the order asked for |
| Transactions.Transaction.Get | tx.go:200-213 | Get is lookup in the map of documents |
| Transactions.Transaction.HasDocID | tx_util.go:572-599 | cached or queried, the answer is whether the document is stored |
| Transactions.Transaction.UniqueCheck | tx_util.go:349-368 | the iterator loop decides the unique check |
| Transactions.Transaction.UpdateSecondaryIndex | tx_util.go:304-381 | succeeds exactly when the referenced document exists and the unique value is free, and replaces one entry |
| Transactions.Transaction.PutDocument | tx_util.go:229-233 | primary and secondary entries are rewritten exactly when every index accepts |
| Transactions.Transaction.DropEntries | tx_util.go:308-320 | all index entries of a deleted document go |
| Transactions.Transaction.NewKsuid | tx_util.go:237 | generated ids can be looked up and are not in use |
| Transactions.Transaction.LogChange | tx_util.go:234-264 | one record with the difference to the version before joins the log and the log collection, and nothing else does |
| Transactions.Transaction.StoreAndLog | tx_util.go:197-266 | create and set succeed exactly when the indexes accept, and change the map of documents at one id |
| Transactions.Transaction.Create | tx.go:71-94 | exactly when create succeeds, the id it uses, the new map of documents, the record and the log collection |
| Transactions.Transaction.PrepareSet | tx_util.go:128-148 | set stores its document with the immutable properties of the version before |
| Transactions.Transaction.Set | tx.go:96-111 | exactly when set succeeds, what it stores, the new map of documents and the record |
| Transactions.Transaction.PrepareUpdate | tx.go:52-63 | the command is the patch with the id and the immutable properties |
| Transactions.Transaction.Merge | tx_util.go:49-57 | the merged document has the patch's values and is otherwise the old one |
| Transactions.Transaction.Update | tx.go:47-69 | exactly when update succeeds, the merged document, the record, and that the indexes agree with the documents if and only if the patch covers them |
| Transactions.Transaction.Delete | tx.go:113-131 | succeeds exactly when everything doomed may be deleted; removes exactly the doomed documents and stores for each exactly one record with its difference, metadata and a time within the command |
| Transactions.Transaction.CascadeDelete | tx_util.go:268-302 | in any order of collections nothing refers to the target afterwards, and the recursion terminates |
| Transactions.Transaction.CascadeIndex | tx_util.go:273-294 | the documents that refer through one index are found and deleted |
| Transactions.Transaction.Run | tx_util.go:161-266 | after any run of successful commands, each with its own clock readings, the store is the exact image of the documents the commands made, with all constraints met, and the log collection has their records and nothing else |
| Transactions.Transaction.Tx | db.go:153-172 | a transaction takes effect as a whole or not at all, whether a command fails or the commit |
| Transactions.Transaction.TimeTravel | tx_util.go:601-651 | queries the log collection, decodes the records of the document from the moment on and undoes them newest first |
| Transactions.Transaction.RunThenTravel | tx_util.go:601-651 | after any successful run, time travel to the moment a command began finds nothing if and only if the document has not been touched since, and otherwise brings back every value it had then, and no more if and only if no field was added since |
| Runs.FullPatchCovers | tx_util.go:27-57 | a patch with all indexed fields keeps the store consistent whatever the stored document is |
| Runs.ImmutableStep | tx_util.go:42-46 | one command on other terms than create keeps a scalar immutable property |
| Runs.UntouchedStays | tx_util.go:161-302 | a command leaves every other document, and what the log says about it, alone, a deletion every document that is not doomed |
| Runs.RecordSays | tx_util.go:234-264 | each new record names the kind of command, a document it touches, its metadata and a time within it |
| Runs.AcceptedOverRuns | tx_util.go:110-112 | no run stores a document that the JSON schema of its collection does not accept |
| Runs.PreventedOverRuns | tx_util.go:73-75 | a document of a collection that prevents deletes stays throughout any run, cascades from below included |
| Runs.ReadOnlyOverRuns | tx_util.go:166-168 | no run creates, changes or removes a document of a read-only collection |
| Runs.ImmutableOverRuns | tx_util.go:143-147 | a scalar immutable property keeps its value over a run if and only if every create that hits the document writes that value |
| Runs.FrozenOverRuns | tx_util.go:199-229 | a document of an immutable collection stays the same over a run if and only if every create that hits it writes the same document |
| Documents.Document.Set | document.go:248-280 | writes one path, refusing the empty one |
| Documents.Document.Del | document.go:344-362 | removes one path, refusing the empty one |
| Documents.Document.SetAll | document.go:283-294 | writes all entries in some order and fails exactly on an empty path; for entries that do not run through each other the order cannot be told |
| Documents.Document.ApplyOps | document.go:563-579 | applies the operations in order and fails exactly on an unsupported one |
| Documents.Document.RevertOps | document.go:582-591 | writes back the values that were replaced, and fails exactly when one of them is at the empty path |
| Documents.Document.FieldPaths | document.go:594-612 | lists every leaf path once |
| Documents.Document.Diff | document.go:512-560 | records every changed and every added leaf once, and nothing else |
| DiffRoundTrip.DiffThenApply | document.go:512-579 | applying a difference gives the later document's leaves if and only if no leaf of it stands on an object of the earlier one |
| DiffRoundTrip.DiffThenApplyIs | document.go:512-579 | without any condition and in any order of its operations, a difference makes of the earlier document the later one with every object of the earlier one still there, and without empty objects where it had nothing |
| DiffRoundTrip.DiffMentionsChanges | document.go:512-560 | a difference mentions only what is different, with the values before and after |
| DiffRoundTrip.NoChangeNoDiff | document.go:512-560 | nothing is recorded if nothing has changed |
| DiffRoundTrip.DiffFromNothing | document.go:512-579 | a document's difference to nothing rebuilds its leaves |
| DiffRoundTrip.LeafOnObjectExample | document.go:512-579 | the smallest pair the round trip fails for |
| TimeTravel.TravelRestores | document.go:582-591 | undoing the records newest first restores every value of the earlier version |
| TimeTravel.TravelExactlyWhen | document.go:582-591 | the result is that version, up to empty objects and nulls, if and only if no field was added since |
| TimeTravel.LoggedRevertible | document.go:582-591 | the records of a history can all be undone |
| TimeTravel.ChosenRecords | tx_util.go:609-634 | with distinct timestamps the selected and sorted records are the tail of the history reversed |
| TimeTravel.TimeTravelInvertsHistory | tx_util.go:601-651 | time travel restores the version current just before the moment, for logs of create, set, update and delete, and finds nothing without records |
| Histories.TouchedIsRecorded | tx_util.go:234-264 | a successful command leaves exactly one record about every document it touches, with the difference that leads back |
| Histories.HistoryGrows | tx_util.go:234-264 | the record a command writes extends a history that time travel can invert |
| Histories.RunWritesHistory | tx_util.go:161-266 | over any run the records of a document form a history whose versions are the document's states |
| Histories.TimeTravelInvertsRuns | tx_util.go:601-651 | undoing the records since a command began undoes the run from that command on |
| LogReading.RecordRoundTrip | model.go:303-318 | a record read back from the log collection is the record that was written |
| LogReading.LogScan | tx_util.go:609-633 | whatever index is picked, the query of time travel finds the document's records from the moment on, all and each once |
| LogReading.ReadBack | tx_util.go:627-642 | decoded and ordered they are the selected records, newest first |
| Sorting.SortCorrect | util.go:84 | sorting by a strict weak order gives a sorted permutation |
| Ordering.LessDesc | util.go:85-103 | the descending comparison is the lexicographic order |
| Ordering.LessAsc | util.go:106-128 | the ascending comparison is the same lexicographic order |
| Ordering.OneStrictWeakOrder | util.go:60-130 | on fields of one kind the order is a strict weak order |
| Ordering.OrderedCorrect | util.go:77-130 | the result is a sorted permutation of the matches |
| Ordering.OrderedInDirection | util.go:60-130 | where two documents of the result agree on the fields before one, numbers stand there by size, texts byte by byte, false before true, or the other way round |
| Ordering.PagesConcatenate | tx.go:158-178 | the pages 0, 1, 2, … make up the whole result |
| Grouping.GroupByDocs | util.go:132-143 | the groups partition the documents by key, in order |
| Grouping.GroupedByTexts | util.go:132-143 | every document is in one group, with all that have the same texts at the group fields and, for texts without dots, no others |
| Grouping.GroupsKeepOrder | util.go:132-143 | within a group the documents keep their order |
| Grouping.AggregateDocs | util.go:145-174 | a row holds the first document's plain fields and the aggregates over the group |
| Grouping.RowReads | util.go:145-188 | what a row reads at the names the query gives, or at the default ones |
| Grouping.AddToField | util.go:190-212 | one accumulator takes in one document |
| Grouping.AggregateAll | tx.go:308-322 | one row per group; counts add up to the number of documents and sums to the whole sum |
| Grouping.GroupingConserves | util.go:132-212 | the columns of any rows, one per group, add up to the ungrouped aggregate |
| Grouping.CountIsLength | util.go:193-194 | a count is the number of documents |
| Grouping.MaxStartsFromZero | util.go:195-198 | the maximum is that of the values and zero |
| Grouping.MinStartsFromZero | util.go:199-202 | the minimum is that of the values and zero |
| Grouping.SumOfParts | util.go:203-204 | a sum is that of its parts, down to the single values |
| Locker.LeaseLock.TryLock | kv/badger/locker.go:53-85 | the lock is taken exactly when the record is missing or somebody else's and expired |
| Locker.LeaseLock.IsLocked | kv/badger/locker.go:31-51 | predicts whether TryLock would fail |
| Locker.LeaseLock.KeepaliveTick | kv/badger/locker.go:132-147 | renews the own record only; a missing record ends the loop |
| Locker.LeaseLock.Unlock | kv/badger/locker.go:148-160 | removes the own record only |
| Locker.Perform | kv/badger/locker.go:53-163 | the methods take exactly the steps of the state machine |
| Locker.InvStep | kv/badger/locker.go:53-163 | every step of any locker keeps the invariant |
| Locker.MutualExclusion | kv/badger/locker.go:53-85 | in every reachable state at most one holder has renewed within four leases, and the record is that holder's |
| Locker.OwnerCanUnlock | kv/badger/locker.go:87-90 | whoever owns the record has a keepalive loop that serves its unlock |
| Locker.VacantIsTaken | kv/badger/locker.go:53-85 | a missing record is taken by the first attempt over any run, and whoever makes it can unlock |
| Locker.UnlockVacates | kv/badger/locker.go:148-160 | the owner's unlock leaves no record and no live holder |
| Locker.TimelyHolderIsNeverDisplaced | kv/badger/locker.go:126-163 | over every run a holder that renews in time keeps the record until it unlocks, and can unlock at any time |
| Locker.RenewingHolderKeepsLock | kv/badger/locker.go:126-147 | over every run a holder whose last tick is never more than four leases ago keeps the record until it unlocks, and nobody else can take it |
| Locker.DisplacedIsHarmless | kv/badger/locker.go:133-158 | over every run, whatever the others do, a locker that is not in the record stays out and its keepalives and unlock leave the record alone, until one of its attempts succeeds |
| Locker.AbandonedIsTaken | kv/tikv/locker.go:70-76 | over every run in which its owner does nothing and nobody succeeds the record stays, and can be taken by exactly the other lockers once it is older than four leases |
| Locker.ExpiredChangesHands | kv/tikv/locker.go:70-76 | so an attempt of another locker on an expired record succeeds, or an earlier one has |
| Locker.UnlockServedExactly | kv/badger/locker.go:126-160 | over every run an unlock can be served if and only if fewer ticks have met a missing record than there were keepalive loops |
| Locker.OneLoopUnlocksExactly | kv/badger/locker.go:126-160 | with one loop, if and only if no tick has |
| Locker.UnlockWaitsForEver | kv/badger/locker.go:87-90 | without a keepalive loop unlocking never returns, over every run in which the locker does not win again |
| Locker.StrandedHolder | kv/badger/locker.go:126-147 | how a holder loses its keepalive loop while it believes to hold the lock |
| KvTx.BadgerTx.Delete | kv/badger/tx.go:81-92 | logs before it deletes, also when it is refused |
| KvTx.BadgerTx.Commit | kv/badger/tx.go:107-126 | publishes every entry in order after the writes are visible |
| KvTx.RunBadgerTx | kv/badger/tx.go:57-126 | one transaction changes store and stream only if it commits |
| KvTx.LastWriteWins | kv/badger/tx.go:57-92 | a key has what the last write of it leaves that is not refused |
| KvTx.ReadOnlyChangesNothing | kv/badger/tx.go:57-92 | a read-only transaction changes nothing, and only its deletions are logged |
| KvTx.ReplayExactly | kv/badger/tx.go:57-126 | for any writes, each refused or not for any reason, the logged entries folded over the first store give the current one if and only if no refused deletion of a stored key is left without a later write |
| KvTx.RunBadger | kv/badger/tx.go:57-126 | the store and the stream after any serial run of read-only and writing transactions, that the second gives the first if and only if no refused deletion is left, and that rollbacks publish nothing |
| KvTx.PrefixReplay | kv/badger/badger.go:103-114 | a subscriber to a prefix can follow that part of the store |
| KvTx.PrefixFollows | kv/badger/badger.go:103-114 | started from anything that agrees with the store below the prefix, it has there what the store has, and is told of nothing else |
| TikvTx.Tx.Get | kv/tikv/tx.go:45-61 | the cache-first read equals a store read in a fresh transaction, and in a writing one exactly for keys that are not cached or not changed |
| TikvTx.Tx.Delete | kv/tikv/tx.go:78-91 | the cached value goes at once |
| TikvTx.Tx.Commit | kv/tikv/tx.go:98-121 | publishes the entries and brings the cache up to the new store |
| TikvTx.CommitKeepsCoherent | kv/tikv/tx.go:102-117 | the last value per key, empty for deletions, keeps the cache coherent |
| TikvTx.RunTikvTx | kv/tikv/tx.go:63-121 | one transaction keeps the cache coherent whether it commits or not |
| TikvTx.RunTikv | kv/tikv/tx.go:45-121 | over every serial run the cache stays coherent and the stream faithful |
| ConfigPlan.ConfigOfLatest | db.go:479-486 | every collection is configured with its own schema, the last one of its name |
| ConfigPlan.CalcConfigPlan | db.go:472-539 | deletions, creations and replacements with their differences, or nothing when the names are the same |
| ConfigPlan.SetSchemas | dag.go:19-62 | refuses exactly references to collections that are not among the schemas |
| ConfigPlan.Plan | db.go:267-303 | succeeds exactly when all schemas parse and refer to each other only |
| ConfigPlan.ConfigurePlan | db.go:313-420 | exactly when it fails, and what is configured then, which may be the plan all the same |
| ConfigPlan.ConfigureRealises | db.go:508-537 | the wanted schemas are in place up to empty objects if and only if no edit puts a leaf on an object; with equal names only if nothing was edited |
| ConfigPlan.Configure | db.go:305-311 | planning and applying together: succeeds if and only if the new schemas may be planned and can be configured, both of which can be told before the call; then, schema by schema, whether each wanted one is in place |
| ConfigPlan.OutcomeAsWanted | db.go:472-539 | when the names have changed, exactly the wanted collections and the log are configured, each with the leaves of its own last schema if and only if none of them stands on an object of its schema before |
| ConfigPlan.ConfigureSucceedsWhen | db.go:318-353 | schemas that may be planned can be configured if and only if there is nothing to do, or something to create or replace, each of which, as the edit leaves it, parses and refers only to what is created or replaced with it |
| ConfigPlan.AddingReferenceFails | dag.go:33-42 | the smallest configuration that fails for a reference: a new collection refers to one that stays as it is |
| ConfigPlan.DroppedPropertyFails | schema.go:78-85 | the smallest edit that fails: a dropped property stays behind without its type, although the wanted schema parses |
| Example.ExampleIsGood | cdc.yaml:1-59 | the assumptions about schemas can be met, with the indexes of the log collection |
| Example.EmptyLog | cdc.yaml:1-59 | the log collection with these indexes can be read by time travel from the beginning |
| Example.FlagIgnoredExample | tx_util.go:268-302 | a document that does not ask for cascading is deleted with the one it refers to |
| Example.OverwrittenNote | tx.go:71-94 | creating a document of an immutable collection twice replaces it, an immutable property included |
| Example.SecondBook | tx_util.go:349-368 | a second book of the same author is created: a foreign key is no unique value |
| Example.PassedOverExample | optimizer.go:54-73 | a plan that passes over a position of its index, and a matching document it misses |

## Left out

- Transactions.Transaction.Create: documents whose own id starts with a dollar sign, is "null" or contains a zero byte are excluded by `Acceptable`, because lookups misread such ids; a numeric primary key, which the code turns into its text, is not modelled.
- Transactions.Transaction.Set: the same ids are excluded; comparing object-valued immutable properties, which panics in the original, is modelled as comparing values.
- Documents.Document.Set: a path is a sequence of member names. Where one runs through an array the array gives way to an object, while the original's JSON editor refuses a name there and takes a number as a position; the same holds for SetAll, Merge, ApplyOps and RevertOps.
- Transactions.Transaction.Merge: arrays of a patch replace the stored array; the original's flattening is read as splitting arrays, too, into one entry per element, so that a shorter array would leave the old tail in place.
- Transactions.Transaction.RunQuery: aggregation, joins, the selection of fields and the checks of everything but the where clauses are not part of it; where ordering fields tie or mix kinds, one fixed order stands for the arbitrary one of an unstable sort.
- Transactions.Transaction.QueryScan: the callback is the one of a query without joins, which collects documents.
- Transactions.Transaction.Update: patches are nested objects, not dotted keys; arrays as for Merge; after a patch that does not cover the indexes the contract gives the map of documents and that no consistent reading of the store exists, not the store's further fate.
- Transactions.Transaction.Delete: not called with ids no document can have, apart from the empty one; the goroutines of a cascade run one after the other, in any order of collections; the dereferenced missing document counts as failure.
- Transactions.Transaction.Run: updates in a run have full patches; a failed command ends the run, as its error rolls the transaction back.
- Transactions.Transaction.RunThenTravel: field names contain no dots, all versions of the document share leaf paths of which none runs through another, and the commands' clock readings increase; metadata and documents are otherwise arbitrary. Reverting is `Set` of the document time travel finds.
- LogReading.LogScan: times are compared exactly; the original compares them as 64-bit floats, which tell today's times in nanoseconds apart only from a few hundred nanoseconds on.
- Transactions.Transaction.TimeTravel: holds for times that differ as 64-bit floats, as for LogScan.
- Transactions.Transaction.Tx: rolling back is restoring what the transaction saw when it began, and never fails itself.
- Scan.IndexScanRefinesFullScan: clauses are on distinct fields, matched clauses hold plain scalars and seek values are numbers below 2^64; without these the claim is false of the code. Where a plan passes over a position, the texts of the index's fields are distinct and contain no zero bytes.
- Filter.Passes: containsAny, the string and regular-expression operators and numbers written as strings are not modelled.
- Preparation.KeepImmutable: compares array and object values as values, where the original's comparison panics.
- Histories.TimeTravelInvertsRuns: commands of one run have increasing clock readings; records with equal times are undone in no promised order.
- Runs.ImmutableOverRuns: properties whose value is an object are not covered.
- Grouping.AggregateAll: having, ordering and paging of the rows are not part of it; numbers are exact where the original uses floats.
- Locker.LeaseLock.TryLock: each step is one atomic transaction; commit conflicts and the JSON form of the record are not modelled.
- ConfigPlan.ConfigurePlan: authorization, dropping data and rebuilding indexes are not modelled; parsing a schema and reading its references are parameters, and a planned schema carries the name its plan says.
- Joins, JavaScript triggers, computed fields, defaults and authorization scripts; documents are taken as prepared.
- Arrays and objects as indexed values, paths into arrays, and index encodings of times and durations.
- Foreign keys on properties that are not strings, or on a collection itself.
- Batch transactions, whose writes their own reads do not see, and namespaces other than the default one.
- The JSON schema of the log collection is assumed to accept every record.
- Generated ids: they are usable as ids and not yet in use.
- Index reconfiguration, YAML templating, metadata, the query builder, error wrapping and the registry.
- Numbers of 2^64 and more as indexed values: one fixed value stands for the platform's out-of-range conversion.
