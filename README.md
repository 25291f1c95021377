# nodatabase in Dafny

A model of the core of nodatabase, an embedded JSON store for Node.js. Its
three front ends share one persistence engine: a key-value map, a document
store with field indexes, and a single stored value. The engine keeps its
state in memory and on three files:

- the data file, which holds the snapshot;
- the update file, which holds a snapshot being staged;
- the journal, with one serialized operation per line.

The model covers:

- **Values** (`Serializable`, `Records`). JSON values are a datatype. A
  JavaScript object is an ordered list of entries. The module models
  `partialEqual`, `deepClone`, `merge` and `mapObject`.
- **Ring buffer** (`CircularBuffer`). The growable FIFO is a class over an
  array, with `head`, `tail` and `size`. Each method is proved against the
  queue it represents.
- **Validators** (`Validation`). These are `hasKey`, `hasStringAtKey` and
  `hasAnyOfAtKey`.
- **Storage engine** (`Storage`).
  - Recovery at start-up (`loadFilesSync`): replay of the longest parsable
    prefix of the journal, then the clean-up of leftover files.
  - Commits, either a full rewrite or a journal append that rotates the
    journal after `journalMaxLines` lines.
  - `replace`, `clear` and `close`.
  - The file system is an abstract `Disk` of already-parsed files.
  - A ghost log of crash points records every intermediate disk state,
    including torn writes and torn appends. A torn file or line is one that
    does not parse. Every state-changing method proves that each of these
    states recovers to the state before the call or the state after it.
    A torn JSON number can still parse; "## Left out" says where that
    matters.
- **Key-value store** (`KeyValueDatabase`). Its operations, their
  serialisation and validation, and the class with its item counter and
  item cap.
- **Document store** (`DocumentDatabase`, with `DocumentKeys`,
  `DocumentIndex`, `DocumentSort` and `DocumentQuery`):
  - auto-incremented decimal keys and the document counter;
  - the field indexes, kept exact by insert, update, delete and clear;
  - the index search and the filter by `partialEqual`;
  - the multi-key comparator and the validation of sort options;
  - `limit`, and the class itself.
- **Single value** (`SingleValue`). The value is stored by full rewrite.
  `update` deep-merges or replaces.

The class invariants tie each database to its store:

- the key-value store's item counter equals the number of stored keys;
- the document store's counters agree with its data;
- every index is exact (`DocumentIndex.IndexExact`): the index of field `f`
  lists key `k` under value `v` exactly when the document under `k` holds
  the scalar `v` at the top level of `f`.

The model's operations preserve each of these invariants. They test keys
with `Object.hasOwn`, where the source writes `key in object`. That test
also holds for the method names every object inherits from
`Object.prototype` (`constructor`, `toString`, ...). With those names the
source's item counter drifts from the number of keys, and its index lookups
throw a TypeError. The members named `...AsWritten` model the source's test,
and "## Findings" lists the inputs that show the difference.

## Model

| member | source | states |
|---|---|---|
| Records.Get | src/utils/serializable.ts:40-42 | a property lookup finds a value exactly when the object has the key |
| Records.Has | src/utils/validation.ts:5 | `Object.hasOwn`: the own-key part of `key in obj`, the test the model's operations use |
| Records.InWithPrototype | src/key-value-database.ts:82 | `key in obj` as JavaScript evaluates it: an own key or an inherited `Object.prototype` method name |
| Records.Put | src/key-value-database.ts:166 | assigning a property keeps the entry count when the key exists, and appends the entry when it is new |
| Records.Remove | src/key-value-database.ts:175 | `delete` changes nothing when the key is absent and removes exactly one entry when it is present |
| Records.GetPut | src/key-value-database.ts:166 | after an assignment the key reads the new value and every other key reads as before |
| Records.GetRemove | src/key-value-database.ts:175 | after a `delete` the key is absent and every other key reads as before |
| Records.PutKeys | src/utils/serializable.ts:69-80 | assigning keeps the key order, and a new key goes last |
| Serializable.DeepClone | src/utils/serializable.ts:45-57 | the clone is structurally equal to its input: primitives unchanged, arrays and objects with the same items and keys in the same order |
| Serializable.MapObject | src/utils/serializable.ts:84-98 | the new object has the same keys in the same order, each holding the callback's result on that key's value |
| Serializable.Merge | src/utils/serializable.ts:65-82 | the in-place loop over the source's keys computes the merge function `MergeFields` |
| Serializable.PartialEqual | src/utils/serializable.ts:8-43 | `partialEqual`, characterised by the lemmas that follow |
| Serializable.PartialEqualReflexive | src/utils/serializable.ts:8-43 | every well-formed value partially matches itself |
| Serializable.CloneMatches | src/utils/serializable.ts:45-57 | `partialEqual(v, deepClone(v))` holds for every well-formed value |
| Serializable.EmptyQueryMatches | src/utils/serializable.ts:40-42 | an empty query object matches every object |
| Serializable.PrimitivesMatchWhenEqual | src/utils/serializable.ts:12-22 | two primitives match exactly when they are equal |
| Serializable.KindsMustAgree | src/utils/serializable.ts:20-38 | an array never matches an object or a primitive, and the other way round |
| Serializable.SequencesMatchPointwise | src/utils/serializable.ts:24-34 | two arrays match exactly when they have equal length and match item by item |
| Serializable.MappingsMatchBySubset | src/utils/serializable.ts:36-42 | an object matches a query exactly when every query key is present and its value matches, in both directions |
| Serializable.ExtraKeysIgnored | src/utils/serializable.ts:40-42 | keys that the query does not mention never change the outcome of a match |
| Serializable.PartialEqualTransitive | src/utils/serializable.ts:8-43 | partial matching is transitive |
| Serializable.MergeGet | src/utils/serializable.ts:65-82 | after merging: keys only in the target are unchanged; a key where both sides hold objects holds their recursive merge; every other source key holds the source's value |
| Serializable.SequencesReplacedWholesale | src/utils/serializable.ts:73-80 | an array in the source replaces the target's value whole and is never merged item by item |
| Serializable.MergeKeys | src/utils/serializable.ts:65-82 | merging keeps the target's keys as a prefix, in their order |
| Serializable.MergeHasOnly | src/utils/serializable.ts:65-82 | a merged object has no key that neither side had |
| Serializable.MergeKeepsDistinct | src/utils/serializable.ts:65-82 | merging into an object never duplicates a key |
| Serializable.MergeWf | src/utils/serializable.ts:65-82 | merging two well-formed objects gives a well-formed object |
| CircularBuffer.CircularBuffer.constructor | src/utils/circular-buffer.ts:11-13 | a new buffer is empty, keeps `head` and `tail` below `size`, and has `initialSize` slots (256 by default) |
| CircularBuffer.CircularBuffer.Length | src/utils/circular-buffer.ts:15-19 | `length`, computed from `head` and `tail` round the ring, is the number of queued items |
| CircularBuffer.CircularBuffer.Push | src/utils/circular-buffer.ts:21-35 | the item is queued last and the invariant is kept; the size doubles exactly when this push fills the buffer and is unchanged otherwise |
| CircularBuffer.CircularBuffer.Place | src/utils/circular-buffer.ts:22-24 | the write into the head slot queues the item without changing the size, and the buffer is full exactly when `head` meets `tail` |
| CircularBuffer.CircularBuffer.Grow | src/utils/circular-buffer.ts:24-34 | the size doubles and the queued items are kept; with `head` at 0, `head` moves to the old size and `tail` stays; otherwise `head` stays and `tail` moves up by the old size |
| CircularBuffer.Spliced | src/utils/circular-buffer.ts:28-30 | `start.concat(Array(size), end)`: the prefix is kept, then `size` holes, then the rest of the array |
| CircularBuffer.CircularBuffer.Pop | src/utils/circular-buffer.ts:37-45 | on an empty buffer it returns undefined and changes nothing; otherwise it returns the oldest item, removes it and frees its slot |
| CircularBuffer.Workload | test/unit/circular-buffer.test.ts:15-37 | under any interleaving of pushes and pops, starting from one slot, the items leave in the order they went in and the buffer ends empty |
| CircularBuffer.Transfer | test/unit/circular-buffer.test.ts:15-37 | one step of that workload keeps the items out followed by the items queued equal to the items taken in |
| Validation.HasKey | src/utils/validation.ts:1-6 | `hasKey`: `key in obj`, decided by own keys for every key it is asked about |
| Validation.HasStringAtKey | src/utils/validation.ts:8-13 | `hasStringAtKey`: `hasKey` and a string value |
| Validation.HasAnyOfAtKey | src/utils/validation.ts:15-21 | `hasAnyOfAtKey`: `hasKey` and a value among the listed ones |
| Validation.HasKeyExactly | src/utils/validation.ts:1-6 | `hasKey` is true exactly when some entry has the key |
| Validation.HasStringAtKeyExactly | src/utils/validation.ts:8-13 | `hasStringAtKey` is true exactly when the key is present and holds a string, so it implies `hasKey` |
| Validation.HasAnyOfAtKeyExactly | src/utils/validation.ts:15-21 | `hasAnyOfAtKey` is true exactly when the key holds one of the values, implies `hasKey`, and is false for an empty list |
| Storage.ParseJournal | src/storage.ts:225-242 | the operations read from the journal are the lines up to the first one that does not deserialize, in order |
| Storage.ParseJournalStopsAtBadLine | src/storage.ts:233-238 | nothing after the first bad line is ever read |
| Storage.ParseJournalAllGood | src/storage.ts:225-242 | a journal whose every line deserializes is read whole |
| Storage.ParseJournalSnoc | src/storage.ts:225-242 | appending a line to a journal read whole adds its operation, or nothing when the line is bad |
| Storage.ApplyAllSnoc | src/storage.ts:64-69 | replaying one more operation applies it to the replay so far, and a failure stays a failure |
| Storage.Recover | src/storage.ts:151-194 | `loadFilesSync` as a function of the disk: the state it recovers, or the replay's error |
| Storage.RecoverSettled | src/storage.ts:151-194 | recovery is idempotent: recovering the settled disk gives the same state again |
| Storage.FileSystem.WriteFile | src/storage.ts:200-202 | a write replaces the file, and a crash during it leaves a torn file |
| Storage.FileSystem.DeleteFileIfExists | src/storage.ts:244-250 | the file is gone afterwards, whether or not it existed |
| Storage.FileSystem.RenameUpdateToData | src/storage.ts:161 | the update file becomes the data file |
| Storage.FileSystem.AppendLine | src/storage.ts:265-270 | an append adds one line, and a crash during it leaves a torn last line |
| Storage.Store.constructor | src/storage.ts:33-56 | Off disables the journal (limit 0), On gives a limit of 1000 lines and MaxLines(n) a limit of n; the state starts as the default value |
| Storage.Store.ReadJournalFile | src/storage.ts:225-242 | the loop returns nothing when the journal is missing or empty; otherwise it returns the operations of the longest prefix of lines that deserialize |
| Storage.Store.ApplyPatch | src/storage.ts:64-69 | the loop computes the left fold of `applyOperation` over the patch, stopping at the first error |
| Storage.Store.LoadFiles | src/storage.ts:151-194 | recovery succeeds exactly when the replay does, leaves only the data file holding the recovered state, and a crash at any step recovers the same state |
| Storage.Store.PromoteUpdateFile | src/storage.ts:154-165 | with no readable data file, the update file becomes the snapshot and the journal is deleted |
| Storage.Store.StartAfresh | src/storage.ts:166-174 | with neither snapshot readable, all files are deleted and the default value is written |
| Storage.Store.SwapInSnapshot | src/storage.ts:177-187 | the replayed state is staged, then swapped in as the snapshot, and the journal is deleted |
| Storage.Store.DropLeftovers | src/storage.ts:190-193 | with a snapshot and no journal, the update and journal files are deleted and the state is the snapshot |
| Storage.Store.CommitFile | src/storage.ts:127-132 | a full rewrite leaves the snapshot equal to the state and no update file |
| Storage.Store.CommitJournal | src/storage.ts:134-148 | appends one line and counts it; at `journalMaxLines` it resets the counter, closes and deletes the journal and writes the state as the snapshot |
| Storage.Store.AppendToJournal | src/storage.ts:265-270 | opens the journal when needed and appends exactly one line |
| Storage.Store.CloseJournalFile | src/storage.ts:272-277 | closes the journal and leaves the state alone |
| Storage.Store.CommitOperation | src/storage.ts:82-95 | applies the operation to the state first; a thrown error changes nothing; otherwise it is journalled or written in full, crash-safely |
| Storage.Store.Replace | src/storage.ts:71-80 | the new state is written in full |
| Storage.Store.Clear | src/storage.ts:97-107 | resets the state to the default and the counter to 0, deletes the journal and writes the default as the snapshot |
| Storage.Store.Close | src/storage.ts:114-117 | closes the journal and keeps the state |
| KeyValueDatabase.ApplyOperation | src/key-value-database.ts:160-179 | `applyOperation`, stated case by case by the three lemmas that follow |
| KeyValueDatabase.SerializeOperation | src/key-value-database.ts:213-215 | `serializeOperation`: the operation as a JSON object with `type`, `key` and `data` |
| KeyValueDatabase.DeserializeOperation | src/key-value-database.ts:181-211 | `deserializeOperation` after `JSON.parse`, partnered by SerializeRoundTrip |
| KeyValueDatabase.ApplyCreate | src/key-value-database.ts:165-167 | create stores the value under the key and leaves every other key alone |
| KeyValueDatabase.ApplyUpdate | src/key-value-database.ts:168-173 | update fails for a missing key with 'Cannot update missing value'; otherwise it deep-merges into an object value or replaces any other value, keeping the key order |
| KeyValueDatabase.ApplyDelete | src/key-value-database.ts:174-175 | delete removes the key; deleting an absent key leaves the data as it was |
| KeyValueDatabase.ApplyKeepsDistinct | src/key-value-database.ts:160-179 | applying an operation never duplicates a key |
| KeyValueDatabase.ApplyAllKeepsDistinct | src/storage.ts:64-69 | replaying a journal never duplicates a key |
| KeyValueDatabase.SerializeRoundTrip | src/key-value-database.ts:181-215 | every operation reads back from the journal line it is written as |
| KeyValueDatabase.DeserializeRejects | src/key-value-database.ts:181-211 | rejects a non-object, an unknown type, a missing or non-string key, and a create or update without `data`, each with the source's message; a delete needs no `data` |
| KeyValueDatabase.DeserializeAccepts | src/key-value-database.ts:181-211 | an accepted line is an object whose `key` and `data` are the operation's |
| KeyValueDatabase.RecoverKeepsDistinct | src/storage.ts:151-194 | the recovered map has no duplicated key |
| KeyValueDatabase.HasAsWritten | src/key-value-database.ts:81-83 | `has` as written, with `key in this.data` |
| KeyValueDatabase.HasInheritedAsWritten | src/key-value-database.ts:81-83 | as written, `has` reports an inherited name as stored although no entry has it |
| KeyValueDatabase.SetCountAsWritten | src/key-value-database.ts:108-114 | the cap check and item count of `set` as written |
| KeyValueDatabase.SetCountDriftsAsWritten | src/key-value-database.ts:108-114 | as written, `set` keeps the count equal to the number of keys exactly when the key is not an inherited name missing from the store, and skips the cap for such a name |
| KeyValueDatabase.DeleteCountAsWritten | src/key-value-database.ts:141-143 | the item count of `delete` as written |
| KeyValueDatabase.DeleteCountDriftsAsWritten | src/key-value-database.ts:141-143 | as written, `delete` keeps the count equal to the number of keys exactly when the key is not an inherited name missing from the store, and otherwise drops it below |
| KeyValueDatabase.ApplyUpdateAsWritten | src/key-value-database.ts:168-173 | the update case of `applyOperation` as written |
| KeyValueDatabase.UpdateInheritedAsWritten | src/key-value-database.ts:168-173 | as written, updating an inherited name the store lacks appends it as a new key, where the model refuses it as missing |
| KeyValueDatabase.KeyValueDatabase.constructor | src/key-value-database.ts:54-64 | `itemCount` starts as the number of stored keys |
| KeyValueDatabase.KeyValueDatabase.Open | src/key-value-database.ts:54-64 | opening fails exactly when recovery fails; otherwise the map is the recovered state, journaling is on unless switched off, and the invariant holds |
| KeyValueDatabase.KeyValueDatabase.Size | src/key-value-database.ts:66-68 | `size` is the number of stored keys |
| KeyValueDatabase.KeyValueDatabase.KeyList | src/key-value-database.ts:70-72 | `keys` lists the stored keys in order |
| KeyValueDatabase.KeyValueDatabase.Values | src/key-value-database.ts:74-76 | `values` lists the stored values in key order |
| KeyValueDatabase.KeyValueDatabase.Has | src/key-value-database.ts:81-83 | `has` is true exactly when some entry has the key |
| KeyValueDatabase.KeyValueDatabase.Get | src/key-value-database.ts:89-91 | `get` finds a value exactly when the key is stored, and it is the stored value |
| KeyValueDatabase.KeyValueDatabase.Set | src/key-value-database.ts:106-121 | a new key past the cap fails with 'Maximum number of items exceeded' and changes nothing; otherwise the value is stored and `itemCount` grows only for a new key |
| KeyValueDatabase.KeyValueDatabase.Update | src/key-value-database.ts:128-134 | a missing key fails and changes nothing; otherwise the value is deep-merged or replaced |
| KeyValueDatabase.KeyValueDatabase.Delete | src/key-value-database.ts:139-149 | the key is removed; `itemCount` drops by one only when the key was present |
| KeyValueDatabase.KeyValueDatabase.Clear | src/key-value-database.ts:154-158 | empties the map, zeroes `itemCount` and writes an empty snapshot |
| SingleValue.Updated | src/single-value.ts:43-50 | the value `update` computes, partnered by UpdatedMergesOrReplaces |
| SingleValue.ApplyOperation | src/single-value.ts:53-55 | `applyOperation` always throws 'Method not allowed' |
| SingleValue.SerializeOperation | src/single-value.ts:58-60 | `serializeOperation`, never called (see Left out) |
| SingleValue.DeserializeOperation | src/single-value.ts:63-65 | `deserializeOperation` always throws 'Method not allowed' |
| SingleValue.UpdatedMergesOrReplaces | src/single-value.ts:43-50 | `update` deep-merges when the stored value and the update are both objects, and otherwise replaces the value |
| SingleValue.RecoverNeverFails | src/single-value.ts:52-65 | with no journal operation ever accepted, recovery never fails and yields the data file's value when it is readable |
| SingleValue.SingleValue.Open | src/single-value.ts:23-25 | the value is the recovered one and only the data file remains |
| SingleValue.SingleValue.Value | src/single-value.ts:27-29 | `value` is the stored state |
| SingleValue.SingleValue.Set | src/single-value.ts:34-36 | replaces the stored state by a full rewrite |
| SingleValue.SingleValue.Update | src/single-value.ts:43-50 | stores the merge of the old state and the update, or the update itself, by a full rewrite |
| DocumentKeys.KeyString | src/document-database.ts:181 | `toString` of a counter is a decimal string without a leading zero |
| DocumentKeys.KeyNumber | src/document-database.ts:104 | `Number(key)` for a decimal key; see Left out for other keys |
| DocumentKeys.KeyNumberOfKeyString | src/document-database.ts:104 | `Number` reads back the counter from the key it issued |
| DocumentKeys.KeyStringInjective | src/document-database.ts:181 | distinct counters give distinct keys |
| DocumentKeys.MaxKeyNumber | src/document-database.ts:104 | `Math.max(...keys.map(Number), 0)` is at least every key's number and is one of them or 0 |
| DocumentIndex.GetIndexIfExists | src/document-database.ts:444-453 | there is an answer exactly when the value is indexable and the field indexed, and it lists exactly the keys the index holds for that value |
| DocumentIndex.WithEntry | src/document-database.ts:455-464 | `getOrCreateIndex` may add an empty set but never changes which keys are indexed |
| DocumentIndex.AddedToIndex | src/document-database.ts:353-358 | `addToIndex` adds exactly the given keys under the value of an indexed field |
| DocumentIndex.RemovedFromIndex | src/document-database.ts:360-371 | `removeFromIndex` fails with 'Cannot find index for value' exactly when an indexed field lacks the value; otherwise it removes exactly that one key |
| DocumentIndex.FieldIndexAsWritten | src/document-database.ts:444-464 | the lookup `this.indexes?.[fieldName]` as written, which throws for an unindexed inherited name |
| DocumentIndex.InheritedFieldThrowsAsWritten | src/document-database.ts:444-464 | as written, the lookup throws exactly for an unindexed inherited name, where the model's index updates leave the indexes as they are |
| DocumentIndex.Cleared | src/document-database.ts:278-280 | clearing keeps the indexed fields and empties each of them |
| DocumentIndex.ClearedExact | src/document-database.ts:273-282 | cleared indexes are exact for the empty store |
| DocumentIndex.IndexEntriesLists | src/document-database.ts:112-129 | the constructor's loop lists a key under a value exactly when the value is indexable and that key's document holds it |
| DocumentIndex.EntryHoldsValue | src/document-database.ts:112-117 | with distinct keys, some entry holds the value exactly when the document under the key does |
| DocumentIndex.BuildIndexes | src/document-database.ts:106-133 | the constructor's indexes, partnered by BuildIndexesExact |
| DocumentIndex.BuildIndexesExact | src/document-database.ts:106-133 | the indexes built at start-up are exact and cover exactly the indexed fields |
| DocumentIndex.IndexDocument | src/document-database.ts:183-190 | indexing a new document never adds or drops an indexed field |
| DocumentIndex.IndexDocumentLists | src/document-database.ts:183-190 | insert lists the new key under each indexable value of the new document's indexed fields and changes nothing else |
| DocumentIndex.InsertKeepsExact | src/document-database.ts:170-198 | insert keeps the indexes exact |
| DocumentIndex.UnindexField | src/document-database.ts:214-219 | update's removal pass for one field, partnered by UnindexFieldLists |
| DocumentIndex.ReindexUpdate | src/document-database.ts:211-226 | update's index pass, partnered by ReindexUpdateLists |
| DocumentIndex.UpdateDocuments | src/document-database.ts:292-299 | the update case of `applyOperation`, partnered by UpdateDocumentsGet |
| DocumentIndex.UnindexFieldLists | src/document-database.ts:214-219 | update's removal pass unlists exactly the updated keys from the updated field, without failing |
| DocumentIndex.ReindexUpdateLists | src/document-database.ts:211-226 | after update's index pass, each updated key is listed under the update's value for each updated field, and everything else is unchanged |
| DocumentIndex.UpdateDocumentsGet | src/document-database.ts:292-299 | updating found keys merges the update into exactly those documents and keeps the key order |
| DocumentIndex.UpdateKeepsExact | src/document-database.ts:207-235 | update keeps the indexes exact |
| DocumentIndex.UnindexDocuments | src/document-database.ts:250-261 | delete's index pass, partnered by UnindexDocumentsLists |
| DocumentIndex.DeleteDocuments | src/document-database.ts:300-303 | the delete case of `applyOperation`, partnered by DeleteDocumentsGet and DeleteDocumentsCount |
| DocumentIndex.UnindexDocumentLists | src/document-database.ts:252-259 | unindexing one document unlists its key from exactly its own fields |
| DocumentIndex.UnindexDocumentsLists | src/document-database.ts:250-261 | delete's index pass unlists exactly the deleted keys, without failing |
| DocumentIndex.DeleteDocumentsGet | src/document-database.ts:300-303 | deleting drops exactly the listed keys and keeps every other document |
| DocumentIndex.DeleteDocumentsCount | src/document-database.ts:245-248 | deleting distinct stored keys removes exactly that many documents |
| DocumentIndex.DeleteKeepsExact | src/document-database.ts:245-268 | delete keeps the indexes exact |
| DocumentQuery.MatchingKeys | src/document-database.ts:377-379 | the full scan: the keys whose documents match, in key order, partnered by MatchingKeysExactly |
| DocumentQuery.SearchIndex | src/document-database.ts:408-442 | `searchIndex`, partnered by SearchIndexFindsMatches |
| DocumentQuery.FilterMatching | src/document-database.ts:377-379 | the filter keeps only candidates whose document matches the query |
| DocumentQuery.HitsHoldMatches | src/document-database.ts:408-442 | every matching document's key is in every index hit of the query |
| DocumentQuery.CandidatesKeepMatches | src/document-database.ts:432-442 | intersecting the hits loses no matching document |
| DocumentQuery.CandidatesAreStored | src/document-database.ts:432-442 | the candidates are stored documents |
| DocumentQuery.CandidatesOfEmptyHit | src/document-database.ts:418-421 | an empty hit leaves no candidate |
| DocumentQuery.SearchIndexFindsMatches | src/document-database.ts:377-379 | `searchIndex` followed by the filter gives exactly the full scan's matches, in key order, whatever is indexed |
| DocumentQuery.MatchingKeysExactly | src/document-database.ts:377-379 | the full scan lists each key whose document matches, once, and no other key |
| DocumentQuery.InsertKeyPermutes | src/document-database.ts:387-399 | inserting a key into a sorted run adds just that key |
| DocumentQuery.InsertKeySorted | src/document-database.ts:387-399 | inserting a key into a sorted run keeps it sorted under the comparator |
| DocumentQuery.SortKeysSorted | src/document-database.ts:387-399 | sorting yields a permutation of the matches that is sorted under the comparator |
| DocumentQuery.SliceTo | src/document-database.ts:401-403 | `slice(0, limit)` is a prefix, of length `limit` when `limit` is between 0 and the length |
| DocumentQuery.Directions | src/document-database.ts:382-385 | when all sort options are valid, each becomes a key carrying its option |
| DocumentQuery.DirectionsFails | src/document-database.ts:382-385 | validation fails exactly when some option is invalid, and then with the first invalid option's error |
| DocumentQuery.LimitKeys | src/document-database.ts:401-403 | the limited result is a prefix of the sorted matches |
| DocumentQuery.OrderKeysOrders | src/document-database.ts:381-399 | sort options are checked only with a non-empty sort and at least two matches; the sorted keys are a sorted permutation of the matches, and unchanged when no sort applies |
| DocumentQuery.NoDuplicatesByMultiset | src/document-database.ts:387-399 | a list is free of duplicates exactly when no item occurs twice in its multiset |
| DocumentQuery.LimitKeysKeeps | src/document-database.ts:401-403 | the limit keeps sortedness and the absence of duplicates, and drops but never adds keys |
| DocumentQuery.OrderLimitKeeps | src/document-database.ts:381-403 | sorting then limiting yields distinct keys from the matches, all of them without a limit, `limit` of them with one, sorted when a sort applies |
| DocumentQuery.OrderKeys | src/document-database.ts:381-399 | the sort step of `findKeys`, partnered by OrderKeysOrders |
| DocumentQuery.FindKeys | src/document-database.ts:373-406 | `findKeys`, partnered by FindKeysFails and FindKeysFinds |
| DocumentQuery.FindKeysFails | src/document-database.ts:373-406 | `findKeys` throws exactly when the sort is non-empty, there are at least two matches and some option is invalid |
| DocumentQuery.FindKeysFinds | src/document-database.ts:373-406 | `findKeys` returns distinct matching keys: all the matches without a limit, `limit` of them with one, sorted by the options when they apply, in key order otherwise |
| DocumentQuery.FindKeysIgnoresIndexes | src/document-database.ts:373-406 | the indexes never change what `findKeys` returns |
| DocumentQuery.FindKeysWithoutOptions | src/document-database.ts:207-209 | without options `findKeys` returns exactly the matches in key order |
| DocumentSort.CodeUnits | src/document-database.ts:549-553 | a character below U+10000 is one code unit, which is not a high surrogate; any other is a high surrogate followed by a low surrogate |
| DocumentSort.CodeUnitsInjective | src/document-database.ts:549-553 | different characters have different code units |
| DocumentSort.Utf16Injective | src/document-database.ts:549-553 | different strings have different code-unit sequences |
| DocumentSort.UnitsLessTrichotomy | src/document-database.ts:549-553 | lexicographic code-unit order is a strict total order |
| DocumentSort.UnitsLessTransitive | src/document-database.ts:549-553 | lexicographic code-unit order is transitive |
| DocumentSort.AstralSortsBeforeHighBmp | src/document-database.ts:549-553 | `<` on strings is not code-point order: a character beyond U+FFFF sorts before any character from U+E000 to U+FFFF |
| DocumentSort.StrLessTrichotomy | src/document-database.ts:549-553 | string order (`<` on UTF-16 code units) is a strict total order |
| DocumentSort.StrLessTransitive | src/document-database.ts:549-553 | string order is transitive |
| DocumentSort.CompareSortableValues | src/document-database.ts:534-554 | `compareSortableValues`, characterised by the three lemmas that follow |
| DocumentSort.CompareSortableValuesOrder | src/document-database.ts:534-554 | null and undefined tie and sort after numbers and strings; numbers come before strings; numbers compare numerically and strings in UTF-16 code-unit order, as `<` does |
| DocumentSort.CompareSortableValuesAntisymmetric | src/document-database.ts:534-554 | swapping the operands flips the sign of the comparison |
| DocumentSort.CompareSortableValuesTransitive | src/document-database.ts:534-554 | the comparison is transitive |
| DocumentSort.SortOptionDirection | src/document-database.ts:510-532 | a direction is found only for a non-null option with exactly one key |
| DocumentSort.SortOptionDirectionCases | src/document-database.ts:510-532 | null fails with 'Cannot convert undefined or null to object', no key with 'No keys in sort object', several keys with 'Only one key is allowed in sort object'; a sole 'asc' or 'desc' gives that direction, another string s fails with 'Invalid sort direction s', a nested option gives its own direction, and a number or boolean fails with 'Invalid sort object' |
| DocumentSort.SortOptionValue | src/document-database.ts:475-508 | `getSortOptionValue`, partnered by SortOptionValueAtPath |
| DocumentSort.SortOptionValueAtPath | src/document-database.ts:475-508 | the value a sort option picks is the document's value at the option's path of keys when that value is a string, number or null, and undefined otherwise |
| DocumentSort.CompareByKeyAntisymmetric | src/document-database.ts:391-396 | one sort key's comparison flips sign with its operands in either direction |
| DocumentSort.CompareByKeyTransitive | src/document-database.ts:391-396 | one sort key's comparison is transitive |
| DocumentSort.CompareDocuments | src/document-database.ts:386-398 | the comparator handed to `sort`, characterised by the two lemmas that follow |
| DocumentSort.CompareDocumentsAntisymmetric | src/document-database.ts:387-399 | the comparator handed to `sort` flips sign with its operands |
| DocumentSort.CompareDocumentsTransitive | src/document-database.ts:387-399 | the comparator handed to `sort` is transitive |
| DocumentDatabase.ApplyOperation | src/document-database.ts:284-307 | `applyOperation`, stated case by case by the lemmas that follow |
| DocumentDatabase.SerializeOperation | src/document-database.ts:349-351 | `serializeOperation`: the operation as a JSON object with `type`, `key` or `keys`, and `data` |
| DocumentDatabase.DeserializeOperation | src/document-database.ts:309-347 | `deserializeOperation` after `JSON.parse`, partnered by SerializeRoundTrip |
| DocumentDatabase.KeysOf | src/document-database.ts:309-347 | the keys of a journalled array are found exactly when all its items are strings |
| DocumentDatabase.ApplyCreate | src/document-database.ts:289-291 | create stores the document under its key and leaves every other key alone |
| DocumentDatabase.UpdateDocumentsFails | src/document-database.ts:292-299 | update throws 'Cannot update missing value' exactly when some listed key is missing |
| DocumentDatabase.ApplyUpdate | src/document-database.ts:292-299 | update merges into exactly the listed documents and keeps the key order |
| DocumentDatabase.ApplyDelete | src/document-database.ts:300-303 | delete drops exactly the listed keys |
| DocumentDatabase.UpdateDocumentsWf | src/document-database.ts:292-299 | updating keeps the documents well formed |
| DocumentDatabase.ApplyKeepsWf | src/document-database.ts:284-307 | applying an operation keeps keys distinct and documents well formed |
| DocumentDatabase.ApplyAllKeepsWf | src/storage.ts:64-69 | replaying a journal keeps keys distinct and documents well formed |
| DocumentDatabase.SerializeRoundTrip | src/document-database.ts:309-351 | every operation reads back from the journal line it is written as |
| DocumentDatabase.DeserializeRejects | src/document-database.ts:309-347 | rejects a non-object, an unknown type, a create without a string key or without data, an update or delete without keys and an update without data, each with the source's message |
| DocumentDatabase.DeserializeAccepts | src/document-database.ts:309-347 | an accepted line is an object whose type, key, keys and data are the operation's |
| DocumentDatabase.DeserializeWf | src/document-database.ts:309-347 | a well-formed journal line yields a create whose document has distinct keys |
| DocumentDatabase.RecoverKeepsWf | src/storage.ts:151-194 | the recovered documents have distinct keys and are well formed |
| DocumentDatabase.MatchingKeysStored | src/document-database.ts:377-379 | the matched keys are stored and distinct |
| DocumentDatabase.UpdateMatching | src/document-database.ts:207-235 | updating the matches merges into exactly the matching documents |
| DocumentDatabase.DeleteMatching | src/document-database.ts:245-268 | deleting the matches removes exactly the matching documents |
| DocumentDatabase.FoundKeysStored | src/document-database.ts:373-406 | `findKeys` returns stored, distinct keys |
| DocumentDatabase.OpenedConsistent | src/document-database.ts:102-133 | at load the counter is the number of keys, the key counter is the largest key number (or 0), and the built indexes are exact |
| DocumentDatabase.InsertKeepsConsistent | src/document-database.ts:179-190 | the issued key is new, and the counters and indexes stay consistent after insert |
| DocumentDatabase.CreateAppends | src/document-database.ts:289-291 | creating a new key appends its document last, in key order |
| DocumentDatabase.UpdateKeepsConsistent | src/document-database.ts:207-235 | update succeeds and keeps the counters and indexes consistent |
| DocumentDatabase.DeleteKeepsConsistent | src/document-database.ts:245-268 | delete removes at most the stored count and keeps the counters and indexes consistent |
| DocumentDatabase.DocumentDatabase.constructor | src/document-database.ts:93-134 | the counters start from the stored keys and, when fields are indexed, the indexes are built exact over exactly those fields |
| DocumentDatabase.DocumentDatabase.IndexField | src/document-database.ts:110-129 | the nested loop builds one field's index |
| DocumentDatabase.DocumentDatabase.IndexFields | src/document-database.ts:106-133 | the outer loop builds every indexed field's index |
| DocumentDatabase.DocumentDatabase.Open | src/document-database.ts:93-134 | opening fails exactly when recovery fails; otherwise the store holds the recovered documents and the hooks are the document store's |
| DocumentDatabase.DocumentDatabase.Size | src/document-database.ts:136-138 | `size` is the number of stored documents |
| DocumentDatabase.DocumentDatabase.FindOne | src/document-database.ts:148-153 | the first match in key order, which matches the query, or nothing when there is no match or it sits under the empty key |
| DocumentDatabase.DocumentDatabase.FindMany | src/document-database.ts:163-165 | fails exactly when `findKeys` throws; otherwise the documents of the found keys, in order, each matching the query |
| DocumentDatabase.DocumentDatabase.GetOrCreateIndex | src/document-database.ts:455-464 | the value gets a set in an indexed field, and the returned set is that set |
| DocumentDatabase.DocumentDatabase.AddToIndex | src/document-database.ts:353-358 | the indexes become `AddedToIndex` of the old ones |
| DocumentDatabase.DocumentDatabase.RemoveFromIndex | src/document-database.ts:360-371 | without indexes nothing happens; otherwise the outcome and the new indexes are `RemovedFromIndex` of the old ones |
| DocumentDatabase.DocumentDatabase.IndexNewDocument | src/document-database.ts:183-190 | the loop over the new document's fields indexes it |
| DocumentDatabase.DocumentDatabase.Insert | src/document-database.ts:170-198 | past the cap it fails with 'Maximum number of documents exceeded' and changes nothing; otherwise it issues the previous counter plus one as a new key, appends the document, counts it and indexes it |
| DocumentDatabase.DocumentDatabase.InsertUnderNextKey | src/document-database.ts:179-197 | the insert below the cap: a new key, the document appended, counted and indexed |
| DocumentDatabase.DocumentDatabase.UnindexOldValues | src/document-database.ts:214-219 | the loop over the found keys unlists them from one field |
| DocumentDatabase.DocumentDatabase.ReindexUpdated | src/document-database.ts:211-226 | the loop over the update's fields reindexes the found keys |
| DocumentDatabase.DocumentDatabase.Update | src/document-database.ts:207-235 | the update is merged into exactly the matching documents; with indexes, each matching key leaves the set of its old value and joins the update's value for every updated field (ReindexUpdate over the matches); indexes stay on or off; counters unchanged, invariant kept |
| DocumentDatabase.DocumentDatabase.UpdateKeys | src/document-database.ts:211-234 | the update is merged into the found keys; with indexes, the new indexes are exactly ReindexUpdate of the old ones over those keys, and indexes stay on or off |
| DocumentDatabase.DocumentDatabase.UnindexDeletedDocument | src/document-database.ts:252-259 | the loop over one document's fields unlists its key |
| DocumentDatabase.DocumentDatabase.UnindexDeleted | src/document-database.ts:250-261 | the loop over the found keys unlists them all |
| DocumentDatabase.DocumentDatabase.DeleteKeys | src/document-database.ts:247-267 | removes the found keys and decrements the counter by their number; with indexes, the new indexes are exactly UnindexDocuments of the old ones over those keys (each key leaves the set of every indexable value its document held), and indexes stay on or off |
| DocumentDatabase.DocumentDatabase.Delete | src/document-database.ts:245-268 | fails like `findKeys` and changes nothing; otherwise removes exactly the sorted and limited matches, decrements the counter by their number and unindexes them exactly as UnindexDocuments does |
| DocumentDatabase.DocumentDatabase.Clear | src/document-database.ts:273-282 | no documents, both counters 0, each index emptied, and an empty snapshot |
| DocumentDatabase.DocumentDatabase.Commit | src/storage.ts:82-95 | commits an operation whose result is consistent, crash-safely |

## Left out

- The async queue and the event emitter (src/utils/async-queue.ts,
  src/utils/emitter.ts) and `onIdle`. Commits are sequential method calls.
  No interleaving of concurrent writers is modelled.
- Real file-system calls, `mkdirSync` and I/O errors. The disk is an
  abstract three-file value. A crash is a recorded intermediate disk state,
  with torn writes and torn appends made explicit.
- `JSON.parse` and `JSON.stringify`. Snapshots hold parsed states, and a
  journal line is a parsed JSON value or a line that does not parse.
- `forEach` of the key-value store (src/key-value-database.ts:96-100). It
  only calls a callback on each entry, which `KeyList` and `Values` give in
  order.
- `deepClone` on reads and on stored values. Values are immutable, so a
  clone is the same value. Aliasing between a stored value and a caller's
  copy cannot arise and is not modelled.
- Serializable.Merge: the source mutates `target` in place. The model
  returns the merged object instead.
- Cyclic values and `__proto__` handling (`assignPropertySafe`). Cyclic
  values cannot be written as datatypes. A create is a plain insertion.
- JavaScript numbers are integers here. Floating point is not modelled.
- DocumentKeys.KeyNumber: a key that is not a decimal numeral counts as 0.
  `Number` reads some such keys as numbers ('1e3' as 1000, '0x10' as 16,
  ' 7' as 7, 'Infinity' as Infinity) and the rest as NaN. After a stored
  key '0x10' the source issues '17' and the model '1'. The store only ever
  issues decimal keys itself.
- DocumentKeys.MaxKeyNumber: inherits the reading of KeyNumber.
- Records.PutKeys: keys are kept in insertion order. JavaScript lists
  integer-like keys ('0', '17') first, in numeric order, then the others in
  insertion order.
- Serializable.MergeKeys: the same insertion-order simplification.
- KeyValueDatabase.KeyValueDatabase.KeyList: lists keys in insertion order.
  For integer-like keys the source lists them in numeric order first.
- KeyValueDatabase.KeyValueDatabase.Values: the same order as KeyList.
- DocumentSort.StrLess: a Dafny character is a Unicode scalar value, so a
  string here cannot hold a lone surrogate, which a JavaScript string can.
  Strings made of whole characters compare as `<` does, by UTF-16 code
  units.
- `undefined` as a field value in a query or an update. Fields hold JSON
  values only, so the lines below do not model it.
- Serializable.PartialEqual: a query field set to `undefined` matches a
  missing field in the source (`undefined === undefined`), so
  `findMany({a: undefined})` finds the documents without 'a'. The model
  cannot express that query.
- Serializable.Merge: an update field set to `undefined` leaves an own key
  holding `undefined` in the source's memory. `JSON.stringify` drops it
  from the journal, so the state recovered after a restart lacks that key.
  The model cannot express that update.
- DocumentDatabase.DocumentDatabase.Update: the same `undefined` update
  field is not modelled, nor the difference it makes between the in-memory
  and the recovered state.
- DocumentDatabase.DocumentDatabase.FindMany: a query field set to
  `undefined` is not modelled.
- KeyValueDatabase.KeyValueDatabase.Update: a merged-in field set to
  `undefined` is not modelled, for the reason given for Serializable.Merge.
- Index hits are returned in key order. The source returns `Array.from`
  of a JavaScript `Set`, whose order is the order the keys were added, and
  `update` adds keys to these sets. Example: index field 'a', insert
  {a:'y',n:1} (key '1') and {a:'x',n:2} (key '2'), then update {a:'y'} to
  {a:'x'}. The set for 'x' is now {'2','1'}. The source's
  `findOne({a:'x'})` returns n:2 and the model's n:1. The source's
  `delete({a:'x'},{limit:1})` removes key '2' and the model's removes '1'.
  The set of matching keys is the same either way. The members below state
  key order for an indexed search, where the source has set order.
- DocumentQuery.SearchIndex: returns hits in key order, not set order.
- DocumentQuery.SearchIndexFindsMatches: states key order, which the source
  guarantees only when no index is used.
- DocumentQuery.FindKeysFinds: "in key order otherwise" holds only when no
  index is used. With an index the unsorted order is set order.
- DocumentQuery.FindKeysIgnoresIndexes: holds because the model takes hits in
  key order. In the source the indexes decide the unsorted order and, with a
  limit, which matches are returned.
- DocumentQuery.FindKeysWithoutOptions: key order, where an indexed search
  in the source gives set order.
- DocumentDatabase.DocumentDatabase.FindOne: the first match in key order.
  For an indexed query the source takes the first in set order. A match
  stored under the empty key is reported as no match. This is what the
  source's truthiness test does, although the store never issues that key.
- DocumentDatabase.DocumentDatabase.FindMany: documents in key order for an
  indexed query, where the source gives set order.
- DocumentDatabase.DocumentDatabase.Delete: with a limit and no sort, the
  first matches in key order are removed. For an indexed query the source
  removes the first in set order.
- DocumentQuery.SortKeysSorted: the sort is proved to be a sorted
  permutation. Stability of `Array.prototype.sort` is not proved.
- DocumentIndex.WithEntry: an empty key set can be left in an index, as
  the source does, when `update` adds a value for zero matched keys. The
  "never empty" property is therefore not stated. Indexes are exact on the
  keys they list.
- DocumentSort.CompareSortableValuesOrder: in descending order the
  comparator negates, so null and undefined sort first there, as the code
  does.
- DocumentDatabase.DeserializeOperation: `data` must be an object and
  `keys` an array of strings, or the line is rejected as invalid. The
  source casts these without checking.
- DocumentDatabase.DocumentDatabase.Insert: requires a document with
  distinct keys, which every JavaScript object has. With indexes, a document
  with an unindexed field named like an inherited method ('constructor') is
  stored. The source throws a TypeError there, after `documentCount` and
  `key` have grown, so its `size` then counts a document that was never
  stored (see Findings).
- DocumentDatabase.DocumentDatabase.Update: requires an update with
  distinct keys, for the same reason. With indexes, an update naming an
  unindexed inherited field succeeds. The source throws a TypeError
  part-way.
- DocumentDatabase.DocumentDatabase.UpdateKeys: an index update that
  throws part-way is not modelled. The source then has already changed
  some indexes. With own-key lookups the model proves no index update
  throws while the invariant holds. In the source an unindexed inherited
  field name makes one throw (see Findings).
- DocumentDatabase.DocumentDatabase.Size: equals the number of documents.
  In the source an insert that throws on an inherited field name leaves
  `documentCount` one higher.
- DocumentDatabase.DocumentDatabase.GetOrCreateIndex: skips an unindexed
  inherited field name. The source's lookup finds the inherited method
  there, and `.get` throws a TypeError.
- DocumentDatabase.DocumentDatabase.AddToIndex: the same TypeError path is
  not modelled.
- DocumentDatabase.DocumentDatabase.RemoveFromIndex: the same TypeError
  path is not modelled.
- DocumentIndex.GetIndexIfExists: gives no answer for an unindexed
  inherited field name, where the source throws a TypeError. So a query
  such as `findOne({toString:'x'})` matches normally in the model and
  throws in the source.
- DocumentIndex.WithEntry: the TypeError for an unindexed inherited field
  name is not modelled (FieldIndexAsWritten models it).
- DocumentIndex.AddedToIndex: adds nothing for an unindexed inherited field
  name, where the source throws a TypeError.
- DocumentIndex.RemovedFromIndex: succeeds for an unindexed inherited field
  name, where the source throws a TypeError.
- KeyValueDatabase.KeyValueDatabase.Has: false for an inherited method name
  the store does not hold. The source's `key in this.data` is true there
  (HasAsWritten models it).
- KeyValueDatabase.KeyValueDatabase.Get: None for an inherited method name.
  The source returns the inherited function, which is not a JSON value.
- KeyValueDatabase.KeyValueDatabase.Update: refuses an inherited name as
  missing. The source stores the update under it without counting it.
- KeyValueDatabase.ApplyUpdate: the same; ApplyUpdateAsWritten models the
  source.
- KeyValueDatabase.KeyValueDatabase.Delete: leaves the counter alone for an
  inherited name the store does not hold. The source decrements it below the
  number of keys.
- KeyValueDatabase.KeyValueDatabase.Size: equals the number of keys
  because the model's counter follows own keys. The source's counter
  drifts through inherited names (see Findings).
- DocumentDatabase.DocumentDatabase.Valid: does not state the
  serialisation hooks. `Open` states them, and they are constants of the
  store.
- KeyValueDatabase.KeyValueDatabase.Set: `maxItems` is a natural number,
  so a negative cap is not modelled. `maxDocuments` is any integer; a
  negative one rejects every insert, as in the source. A new inherited
  method name is counted and capped like any new key. The source does
  neither (see Findings).
- Storage.FileSystem.WriteFile: a torn write always leaves a file that does
  not parse. That holds for a torn object, array, string, boolean or null.
  A torn JSON number can parse, though: '1234' cut to '12' reads as 12.
- Storage.Store.StartAfresh: writes the default straight to the data file.
  A crash during a write of a numeric default (a single value such as 1234)
  can leave a shorter number, and the next start reads it as the value.
  That state is neither the one before nor the one after.
- Storage.Store.LoadFiles: its crash-safety clause rests on torn writes
  not parsing, so it misses the StartAfresh case above. Every other write at
  load goes through the update file while the data file is intact.
- Storage.Store.Clear: writes the default straight to the data file too.
  The stores that call it have the default {}, whose torn prefixes do not
  parse.
- CircularBuffer.CircularBuffer.constructor: an `initialSize` of 0 is
  excluded. The source then computes `% 0` and the buffer never works.
- SingleValue.SerializeOperation: returns null where the source throws
  'Method not allowed'. A single value never journals, so it is never
  called. `ApplyOperation` and `DeserializeOperation` fail with that
  message.

## Findings

| source | as written | input that shows it | evidently intended | confidence | as-written member | corrected member |
|---|---|---|---|---|---|---|
| src/key-value-database.ts:108-113 | `set` counts and caps a key only when `!(key in this.data)`, which is false for an inherited method name | on an empty store, `set('constructor', 1)` stores one key and leaves `size` at 0; with `maxItems: 0` it is not refused | every key the store does not hold itself is capped and counted | high; not executed | KeyValueDatabase.SetCountDriftsAsWritten | KeyValueDatabase.KeyValueDatabase.Set |
| src/key-value-database.ts:141-143 | `delete` uncounts a key whenever `key in this.data`, which is true for an inherited method name | on an empty store, `delete('toString')` makes `size` -1 | only a key the store holds is uncounted | high; not executed | KeyValueDatabase.DeleteCountDriftsAsWritten | KeyValueDatabase.KeyValueDatabase.Delete |
| src/key-value-database.ts:81-83 | `has` is `key in this.data` | on an empty store, `has('constructor')` is true | true only for a stored key | high; not executed | KeyValueDatabase.HasInheritedAsWritten | KeyValueDatabase.KeyValueDatabase.Has |
| src/key-value-database.ts:168-173 | the update case accepts any key with `key in data` | on an empty store, `update('constructor', 1)` succeeds and stores a key that `size` does not count | 'Cannot update missing value' for a key the store does not hold | high; not executed | KeyValueDatabase.UpdateInheritedAsWritten | KeyValueDatabase.ApplyUpdate |
| src/document-database.ts:455-464 | `this.indexes?.[fieldName]` finds the inherited method for an unindexed field such as 'constructor', and `.get` on it throws | with `indexedFields: ['a']`, `insert({constructor: 'x'})` throws a TypeError after `documentCount` and `key` have grown, so `size` is 1 with no document stored | an unindexed field is skipped | high; not executed | DocumentIndex.InheritedFieldThrowsAsWritten | DocumentIndex.AddedToIndex |
