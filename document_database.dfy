/** The document store of src/document-database.ts: documents (JSON objects)
    under auto-incremented decimal keys, on top of a `Store`, with optional
    field indexes, queries by partial match, sorting, limits and an optional
    cap on the number of documents. */
module DocumentDatabase {
  import opened Wrappers
  import opened Records
  import opened Serializable
  import opened Validation
  import opened Storage
  import opened DocumentKeys
  import opened DocumentIndex
  import opened DocumentSort
  import opened DocumentQuery

  /** The journal operations: a create carries one key, an update and a
      delete carry the keys they found. */
  datatype Operation =
    | Create(key: string, data: Fields)
    | Update(keys: seq<string>, data: Fields)
    | Delete(keys: seq<string>)

  /** `applyOperation`: create stores a deep clone under the key; update
      merges into each listed document and throws at the first missing one;
      delete drops each listed key. */
  function ApplyOperation(data: Documents, operation: Operation): Result<Documents, string> {
    match operation
    case Create(key, document) => Success(Put(data, key, DeepClone(Obj(document)).fields))
    case Update(keys, update) => UpdateDocuments(data, keys, update)
    case Delete(keys) => Success(DeleteDocuments(data, keys))
  }

  /** A list of keys as a JSON array of strings. */
  function KeyArray(keys: seq<string>): (v: Value)
    ensures v.Arr? && |v.items| == |keys|
    ensures forall i | 0 <= i < |keys| :: v.items[i] == Str(keys[i])
  {
    Arr(seq(|keys|, i requires 0 <= i < |keys| => Str(keys[i])))
  }

  /** The strings of a JSON array holding only strings. */
  function KeysOf(items: seq<Value>): (keys: Option<seq<string>>)
    ensures keys.Some? <==> forall i | 0 <= i < |items| :: items[i].Str?
    ensures keys.Some? ==> |keys.value| == |items| && forall i | 0 <= i < |items| :: items[i] == Str(keys.value[i])
    decreases |items|
  {
    if items == [] then Some([])
    else
      var rest := KeysOf(items[1..]);
      assert forall i | 1 <= i < |items| :: items[i] == items[1..][i - 1];
      if items[0].Str? && rest.Some? then Some([items[0].s] + rest.value) else None
  }

  /** `serializeOperation`: the operation as the JSON object the database
      builds: `type`, then `key` or `keys`, then `data`. */
  function SerializeOperation(operation: Operation): Value {
    match operation
    case Create(key, document) => Obj([Entry("type", Str("create")), Entry("key", Str(key)), Entry("data", Obj(document))])
    case Update(keys, update) => Obj([Entry("type", Str("update")), Entry("keys", KeyArray(keys)), Entry("data", Obj(update))])
    case Delete(keys) => Obj([Entry("type", Str("delete")), Entry("keys", KeyArray(keys))])
  }

  /** `deserializeOperation` after `JSON.parse`, with the checks of the
      source in their order. The last checks (`data` an object, `keys` an
      array of strings) stand for the unchecked casts of the source. */
  function DeserializeOperation(operation: Value): Result<Operation, string> {
    if !(operation.Arr? || operation.Obj?) then Failure("Failed to deserialize operation")
    else
      var fields := if operation.Obj? then operation.fields else [];
      if !HasAnyOfAtKey(fields, "type", [Str("create"), Str("update"), Str("delete")]) then
        Failure("Unknown operation type")
      else
        var kind := Get(fields, "type").value.s;
        if kind == "create" then
          if !HasStringAtKey(fields, "key") then Failure("Missing key in operation")
          else if !HasKey(fields, "data") then Failure("Missing data in operation")
          else if !Get(fields, "data").value.Obj? then Failure("Invalid data in operation")
          else Success(Operation.Create(Get(fields, "key").value.s, Get(fields, "data").value.fields))
        else if !HasKey(fields, "keys") then Failure("Missing keys in operation")
        else if kind == "update" && !HasKey(fields, "data") then Failure("Missing data in operation")
        else
          var keys := Get(fields, "keys").value;
          if !keys.Arr? || KeysOf(keys.items).None? then Failure("Invalid keys in operation")
          else if kind == "delete" then Success(Operation.Delete(KeysOf(keys.items).value))
          else if !Get(fields, "data").value.Obj? then Failure("Invalid data in operation")
          else Success(Operation.Update(KeysOf(keys.items).value, Get(fields, "data").value.fields))
  }

  /** A created document is a JavaScript object: no field twice. */
  predicate OperationWf(operation: Operation) {
    operation.Create? ==> DistinctKeys(operation.data)
  }

  /** What `JSON.parse` produces: snapshots whose documents are objects under
      distinct keys, and journal lines holding well-formed values. */
  predicate SnapshotsWf(disk: Disk<Documents>) {
    && (disk.data.Some? && disk.data.value.Readable? ==>
          DistinctKeys(disk.data.value.state) && DocumentsWf(disk.data.value.state))
    && (disk.update.Some? && disk.update.value.Readable? ==>
          DistinctKeys(disk.update.value.state) && DocumentsWf(disk.update.value.state))
    && (disk.journal.Some? ==> forall i | 0 <= i < |disk.journal.value| ::
          disk.journal.value[i].Parsed? ==> Wf(disk.journal.value[i].json))
  }

  // ---------------------------------------------------------------------------
  // Properties of the operations

  /** A create sets its key to the document and leaves every other key alone. */
  lemma ApplyCreate(data: Documents, key: string, document: Fields, k: string)
    ensures ApplyOperation(data, Operation.Create(key, document)).Success?
    ensures Get(ApplyOperation(data, Operation.Create(key, document)).value, k) ==
      if k == key then Some(document) else Get(data, k)
  {
    GetPut(data, key, document, k);
  }

  /** An update fails, with the source's message, exactly when some listed
      key has no document. */
  lemma {:induction false} UpdateDocumentsFails(data: Documents, keys: seq<string>, update: Fields)
    ensures UpdateDocuments(data, keys, update).Failure? <==> exists i | 0 <= i < |keys| :: !Has(data, keys[i])
    ensures UpdateDocuments(data, keys, update).Failure? ==>
      UpdateDocuments(data, keys, update).error == "Cannot update missing value"
    decreases |keys|
  {
    if keys != [] && Has(data, keys[0]) {
      var next := Put(data, keys[0], MergeFields(Get(data, keys[0]).value, update));
      UpdateDocumentsFails(next, keys[1..], update);
      forall k ensures Has(next, k) <==> Has(data, k) {
        GetPut(data, keys[0], MergeFields(Get(data, keys[0]).value, update), k);
      }
      forall i | 1 <= i < |keys| ensures keys[i] == keys[1..][i - 1] {
      }
    }
  }

  /** An update of stored keys merges the update into exactly those documents. */
  lemma ApplyUpdate(data: Documents, keys: seq<string>, update: Fields, k: string)
    requires forall i | 0 <= i < |keys| :: Has(data, keys[i])
    requires forall i, j | 0 <= i < j < |keys| :: keys[i] != keys[j]
    ensures ApplyOperation(data, Operation.Update(keys, update)).Success?
    ensures Keys(ApplyOperation(data, Operation.Update(keys, update)).value) == Keys(data)
    ensures Get(ApplyOperation(data, Operation.Update(keys, update)).value, k) ==
      if k in keys then Some(MergeFields(Get(data, k).value, update)) else Get(data, k)
  {
    UpdateDocumentsGet(data, keys, update, k);
  }

  /** A delete drops exactly the listed keys. */
  lemma ApplyDelete(data: Documents, keys: seq<string>, k: string)
    requires DistinctKeys(data)
    ensures ApplyOperation(data, Operation.Delete(keys)).Success?
    ensures Get(ApplyOperation(data, Operation.Delete(keys)).value, k) == if k in keys then None else Get(data, k)
  {
    DeleteDocumentsGet(data, keys, k);
  }

  /** Merging into the listed documents keeps the keys distinct and every
      document an object. */
  lemma {:induction false} UpdateDocumentsWf(data: Documents, keys: seq<string>, update: Fields)
    requires DistinctKeys(data) && DocumentsWf(data)
    requires UpdateDocuments(data, keys, update).Success?
    ensures DistinctKeys(UpdateDocuments(data, keys, update).value)
    ensures DocumentsWf(UpdateDocuments(data, keys, update).value)
    decreases |keys|
  {
    if keys != [] {
      var document := Get(data, keys[0]).value;
      var merged := MergeFields(document, update);
      var next := Put(data, keys[0], merged);
      GetFound(data, keys[0]);
      MergeKeepsDistinct(document, update);
      PutEntries(data, keys[0], merged);
      forall i | 0 <= i < |next| ensures DistinctKeys(next[i].val) {
        assert next[i] in next;
      }
      UpdateDocumentsWf(next, keys[1..], update);
    }
  }

  /** No operation on well-formed documents duplicates a key or a field. */
  lemma ApplyKeepsWf(data: Documents, operation: Operation)
    requires DistinctKeys(data) && DocumentsWf(data) && OperationWf(operation)
    requires ApplyOperation(data, operation).Success?
    ensures DistinctKeys(ApplyOperation(data, operation).value)
    ensures DocumentsWf(ApplyOperation(data, operation).value)
  {
    match operation
    case Create(key, document) =>
      var after := ApplyOperation(data, operation).value;
      PutEntries(data, key, document);
      forall i | 0 <= i < |after| ensures DistinctKeys(after[i].val) {
        assert after[i] in after;
      }
    case Update(keys, update) =>
      UpdateDocumentsWf(data, keys, update);
    case Delete(keys) =>
      var after := DeleteDocuments(data, keys);
      DeleteDocumentsGet(data, keys, "");
      forall i | 0 <= i < |after| ensures DistinctKeys(after[i].val) {
        assert after[i] in after;
      }
  }

  /** Replaying well-formed operations keeps the documents well formed. */
  lemma {:induction false} ApplyAllKeepsWf(data: Documents, patch: seq<Operation>)
    requires DistinctKeys(data) && DocumentsWf(data)
    requires forall i | 0 <= i < |patch| :: OperationWf(patch[i])
    requires ApplyAll(data, patch, ApplyOperation).Success?
    ensures DistinctKeys(ApplyAll(data, patch, ApplyOperation).value)
    ensures DocumentsWf(ApplyAll(data, patch, ApplyOperation).value)
    decreases |patch|
  {
    if patch != [] {
      ApplyKeepsWf(data, patch[0]);
      assert forall i | 0 <= i < |patch[1..]| :: patch[1..][i] == patch[i + 1];
      ApplyAllKeepsWf(ApplyOperation(data, patch[0]).value, patch[1..]);
    }
  }

  /** Every operation reads back from the journal line it is written as. */
  lemma SerializeRoundTrip(operation: Operation)
    ensures DeserializeOperation(SerializeOperation(operation)) == Success(operation)
  {
    match operation
    case Create(key, document) => CreateRoundTrip(key, document);
    case Update(keys, update) => UpdateRoundTrip(keys, update);
    case Delete(keys) => DeleteRoundTrip(keys);
  }

  lemma CreateRoundTrip(key: string, document: Fields)
    ensures DeserializeOperation(SerializeOperation(Create(key, document))) == Success(Create(key, document))
  {
    var fields := SerializeOperation(Create(key, document)).fields;
    assert fields[1..] == [Entry("key", Str(key)), Entry("data", Obj(document))];
    assert fields[1..][1..] == [Entry("data", Obj(document))];
    assert Get(fields, "type") == Some(Str("create"));
    assert Get(fields, "key") == Some(Str(key));
    assert Get(fields[1..][1..], "data") == Some(Obj(document));
    assert Get(fields[1..], "data") == Some(Obj(document));
    assert Get(fields, "data") == Some(Obj(document));
  }

  lemma UpdateRoundTrip(keys: seq<string>, update: Fields)
    ensures DeserializeOperation(SerializeOperation(Update(keys, update))) == Success(Update(keys, update))
  {
    var fields := SerializeOperation(Update(keys, update)).fields;
    assert fields[1..] == [Entry("keys", KeyArray(keys)), Entry("data", Obj(update))];
    assert fields[1..][1..] == [Entry("data", Obj(update))];
    assert Get(fields, "type") == Some(Str("update"));
    assert Get(fields, "keys") == Some(KeyArray(keys));
    assert Get(fields[1..][1..], "data") == Some(Obj(update));
    assert Get(fields[1..], "data") == Some(Obj(update));
    assert Get(fields, "data") == Some(Obj(update));
    assert KeysOf(KeyArray(keys).items).value == keys;
  }

  lemma DeleteRoundTrip(keys: seq<string>)
    ensures DeserializeOperation(SerializeOperation(Delete(keys))) == Success(Delete(keys))
  {
    var fields := SerializeOperation(Delete(keys)).fields;
    assert fields[1..] == [Entry("keys", KeyArray(keys))];
    assert Get(fields, "type") == Some(Str("delete"));
    assert Get(fields, "keys") == Some(KeyArray(keys));
    assert KeysOf(KeyArray(keys).items).value == keys;
  }

  /** What `deserializeOperation` rejects, and with which error: anything but
      an object; an unknown `type`; a create without a string `key` or
      without `data`; an update or delete without `keys`; an update without
      `data`. */
  lemma DeserializeRejects(operation: Value)
    ensures !(operation.Arr? || operation.Obj?) ==>
      DeserializeOperation(operation) == Failure("Failed to deserialize operation")
    ensures operation.Arr? ==> DeserializeOperation(operation) == Failure("Unknown operation type")
    ensures operation.Obj? && Get(operation.fields, "type") !in {Some(Str("create")), Some(Str("update")), Some(Str("delete"))} ==>
      DeserializeOperation(operation) == Failure("Unknown operation type")
    ensures operation.Obj? && Get(operation.fields, "type") == Some(Str("create"))
            && !(Get(operation.fields, "key").Some? && Get(operation.fields, "key").value.Str?) ==>
      DeserializeOperation(operation) == Failure("Missing key in operation")
    ensures operation.Obj? && Get(operation.fields, "type") == Some(Str("create"))
            && Get(operation.fields, "key").Some? && Get(operation.fields, "key").value.Str?
            && Get(operation.fields, "data").None? ==>
      DeserializeOperation(operation) == Failure("Missing data in operation")
    ensures operation.Obj? && Get(operation.fields, "type") in {Some(Str("update")), Some(Str("delete"))}
            && Get(operation.fields, "keys").None? ==>
      DeserializeOperation(operation) == Failure("Missing keys in operation")
    ensures operation.Obj? && Get(operation.fields, "type") == Some(Str("update"))
            && Get(operation.fields, "keys").Some? && Get(operation.fields, "data").None? ==>
      DeserializeOperation(operation) == Failure("Missing data in operation")
  {
  }

  /** A successfully deserialized operation carries the object's `key` or
      `keys` and, for create and update, its `data`. */
  lemma DeserializeAccepts(operation: Value)
    requires DeserializeOperation(operation).Success?
    ensures operation.Obj?
    ensures DeserializeOperation(operation).value.Create? ==>
      && Get(operation.fields, "type") == Some(Str("create"))
      && Get(operation.fields, "key") == Some(Str(DeserializeOperation(operation).value.key))
    ensures !DeserializeOperation(operation).value.Create? ==>
      Get(operation.fields, "keys") == Some(KeyArray(DeserializeOperation(operation).value.keys))
    ensures !DeserializeOperation(operation).value.Delete? ==>
      Get(operation.fields, "data") == Some(Obj(DeserializeOperation(operation).value.data))
  {
    var op := DeserializeOperation(operation).value;
    if !op.Create? {
      var keys := Get(operation.fields, "keys").value;
      assert keys.items == KeyArray(op.keys).items;
    }
  }

  /** A value `JSON.parse` produced deserializes to a well-formed operation. */
  lemma DeserializeWf(operation: Value)
    requires Wf(operation) && DeserializeOperation(operation).Success?
    ensures OperationWf(DeserializeOperation(operation).value)
  {
    var op := DeserializeOperation(operation).value;
    DeserializeAccepts(operation);
    if op.Create? {
      var fields := operation.fields;
      GetFound(fields, "data");
      var i :| 0 <= i < |fields| && fields[i] == Entry("data", Obj(op.data));
      assert Wf(fields[i].val);
    }
  }

  /** Recovery from well-formed files yields well-formed documents. */
  lemma RecoverKeepsWf(disk: Disk<Documents>)
    requires SnapshotsWf(disk)
    requires Recover(disk, [], DeserializeOperation, ApplyOperation).Success?
    ensures DistinctKeys(Recover(disk, [], DeserializeOperation, ApplyOperation).value)
    ensures DocumentsWf(Recover(disk, [], DeserializeOperation, ApplyOperation).value)
  {
    if disk.data.Some? && disk.data.value.Readable? && JournalPresent(disk.journal) {
      var lines := disk.journal.value;
      var patch := ParseJournal(lines, DeserializeOperation);
      forall i | 0 <= i < |patch| ensures OperationWf(patch[i]) {
        assert LineOp(lines[i], DeserializeOperation) == Some(patch[i]);
        DeserializeWf(lines[i].json);
      }
      ApplyAllKeepsWf(disk.data.value.state, patch);
    }
  }

  /** The matching keys are distinct keys of stored documents. */
  lemma MatchingKeysStored(data: Documents, query: Fields)
    requires DistinctKeys(data)
    ensures forall i | 0 <= i < |MatchingKeys(data, query)| :: Has(data, MatchingKeys(data, query)[i])
    ensures forall i, j | 0 <= i < j < |MatchingKeys(data, query)| :: MatchingKeys(data, query)[i] != MatchingKeys(data, query)[j]
  {
    MatchingKeysExactly(data, query);
    var m := MatchingKeys(data, query);
    assert forall i | 0 <= i < |m| :: m[i] in m;
  }

  /** `update`: the documents matching the query get the update merged in,
      and the others are left as they were. */
  lemma UpdateMatching(data: Documents, query: Fields, update: Fields, k: string)
    requires DistinctKeys(data)
    ensures ApplyOperation(data, Operation.Update(MatchingKeys(data, query), update)).Success?
    ensures Get(ApplyOperation(data, Operation.Update(MatchingKeys(data, query), update)).value, k) ==
      if Matches(data, k, query) then Some(MergeFields(Get(data, k).value, update)) else Get(data, k)
  {
    MatchingKeysExactly(data, query);
    MatchingKeysStored(data, query);
    UpdateDocumentsGet(data, MatchingKeys(data, query), update, k);
  }

  /** `delete` without options: the documents matching the query are
      dropped, and the others are left as they were. */
  lemma DeleteMatching(data: Documents, query: Fields, k: string)
    requires DistinctKeys(data)
    ensures Get(DeleteDocuments(data, MatchingKeys(data, query)), k) ==
      if Matches(data, k, query) then None else Get(data, k)
    ensures |DeleteDocuments(data, MatchingKeys(data, query))| == |data| - |MatchingKeys(data, query)|
  {
    MatchingKeysExactly(data, query);
    MatchingKeysStored(data, query);
    DeleteDocumentsGet(data, MatchingKeys(data, query), k);
    DeleteDocumentsCount(data, MatchingKeys(data, query));
  }

  /** The keys `findKeys` returns are distinct keys of stored documents. */
  lemma FoundKeysStored(data: Documents, indexes: Option<Indexes>, query: Fields, options: QueryOptions)
    requires DistinctKeys(data)
    requires indexes.Some? ==> IndexExact(data, indexes.value)
    requires FindKeys(data, indexes, query, options).Success?
    ensures var found := FindKeys(data, indexes, query, options).value;
      && (forall i | 0 <= i < |found| :: Has(data, found[i]))
      && (forall i, j | 0 <= i < j < |found| :: found[i] != found[j])
  {
    FindKeysFinds(data, indexes, query, options);
    var found := FindKeys(data, indexes, query, options).value;
    assert forall i | 0 <= i < |found| :: found[i] in found;
  }

  // ---------------------------------------------------------------------------
  // The database's own state

  /** The state the database keeps beside its documents agrees with them:
      the count is the number of documents, no key's number exceeds the
      counter (so the next key is new) and the indexes are exact. */
  ghost predicate Consistent(data: Documents, documentCount: nat, key: nat, indexes: Option<Indexes>) {
    && DistinctKeys(data)
    && DocumentsWf(data)
    && documentCount == |data|
    && (forall i | 0 <= i < |data| :: KeyNumber(data[i].key) <= key)
    && (indexes.Some? ==> IndexExact(data, indexes.value))
  }

  /** The indexes after `update`'s reindexing. */
  function Reindexed(indexes: Option<Indexes>, data: Documents, keys: seq<string>, update: Fields): Option<Indexes> {
    if indexes.Some? then
      var r := ReindexUpdate(indexes.value, data, keys, update);
      if r.Success? then Some(r.value) else indexes
    else None
  }

  /** The indexes after `delete`'s unindexing. */
  function Unindexed(indexes: Option<Indexes>, data: Documents, keys: seq<string>): Option<Indexes> {
    if indexes.Some? then
      var r := UnindexDocuments(indexes.value, data, keys);
      if r.Success? then Some(r.value) else indexes
    else None
  }

  /** The state the constructor computes from loaded documents is consistent:
      the count of their keys, the largest key number, and indexes built
      from them. */
  lemma OpenedConsistent(data: Documents, indexedFields: Option<seq<string>>)
    requires DistinctKeys(data) && DocumentsWf(data)
    ensures Consistent(data, |Keys(data)|, MaxKeyNumber(Keys(data)),
                       if indexedFields.Some? then Some(BuildIndexes(map[], indexedFields.value, data)) else None)
    ensures indexedFields.Some? ==> BuildIndexes(map[], indexedFields.value, data).Keys == set f | f in indexedFields.value
  {
    var number := MaxKeyNumber(Keys(data));
    assert forall i | 0 <= i < |data| :: KeyNumber(data[i].key) <= number by {
      assert forall i | 0 <= i < |data| :: Keys(data)[i] == data[i].key;
    }
    if indexedFields.Some? {
      BuildIndexesExact(map[], indexedFields.value, data);
    }
  }

  /** `insert` keeps the state consistent: the next key is new, the document
      is appended under it and the indexes list it. */
  lemma InsertKeepsConsistent(data: Documents, count: nat, key: nat, indexes: Option<Indexes>, document: Fields,
                              newKey: string, indexed: Option<Indexes>)
    requires Consistent(data, count, key, indexes) && DistinctKeys(document)
    requires newKey == KeyString(key + 1)
    requires indexed == if indexes.Some? then Some(IndexDocument(indexes.value, newKey, document)) else None
    ensures !Has(data, newKey)
    ensures Consistent(data + [Entry(newKey, document)], count + 1, key + 1, indexed)
  {
    KeyNumberOfKeyString(key + 1);
    assert !Has(data, newKey) by {
      forall i | 0 <= i < |data| ensures data[i].key != newKey {
      }
    }
    if indexes.Some? {
      InsertKeepsExact(data, indexes.value, newKey, document);
    }
    CreateAppends(data, newKey, document);
    ApplyKeepsWf(data, Operation.Create(newKey, document));
  }

  /** Creating a document under a new key appends it. */
  lemma CreateAppends(data: Documents, key: string, document: Fields)
    requires !Has(data, key)
    ensures ApplyOperation(data, Operation.Create(key, document)) == Success(data + [Entry(key, document)])
  {
  }

  /** `update` keeps the state consistent: the merge and the reindexing both succeed. */
  lemma UpdateKeepsConsistent(data: Documents, count: nat, key: nat, indexes: Option<Indexes>,
                              keys: seq<string>, update: Fields)
    requires Consistent(data, count, key, indexes) && DistinctKeys(update)
    requires forall i | 0 <= i < |keys| :: Has(data, keys[i])
    requires forall i, j | 0 <= i < j < |keys| :: keys[i] != keys[j]
    ensures UpdateDocuments(data, keys, update).Success?
    ensures indexes.Some? ==> ReindexUpdate(indexes.value, data, keys, update).Success?
    ensures Consistent(UpdateDocuments(data, keys, update).value, count, key, Reindexed(indexes, data, keys, update))
  {
    UpdateKeepsExact(data, if indexes.Some? then indexes.value else map[], keys, update);
    UpdateDocumentsWf(data, keys, update);
    UpdateDocumentsGet(data, keys, update, "");
    var after := UpdateDocuments(data, keys, update).value;
    assert forall i | 0 <= i < |after| :: after[i].key == Keys(after)[i] == Keys(data)[i];
  }

  /** `delete` of distinct stored keys keeps the state consistent: the count
      goes down by their number and the unindexing succeeds. */
  lemma DeleteKeepsConsistent(data: Documents, count: nat, key: nat, indexes: Option<Indexes>, keys: seq<string>)
    requires Consistent(data, count, key, indexes)
    requires forall i | 0 <= i < |keys| :: Has(data, keys[i])
    requires forall i, j | 0 <= i < j < |keys| :: keys[i] != keys[j]
    ensures |keys| <= count
    ensures indexes.Some? ==> UnindexDocuments(indexes.value, data, keys).Success?
    ensures Consistent(DeleteDocuments(data, keys), count - |keys|, key, Unindexed(indexes, data, keys))
  {
    DeleteDocumentsCount(data, keys);
    DeleteKeepsExact(data, if indexes.Some? then indexes.value else map[], keys);
    ApplyKeepsWf(data, Operation.Delete(keys));
    DeleteDocumentsGet(data, keys, "");
    var after := DeleteDocuments(data, keys);
    forall i | 0 <= i < |after| ensures KeyNumber(after[i].key) <= key {
      assert after[i] in data;
    }
  }

  // ---------------------------------------------------------------------------
  // The database

  class DocumentDatabase {
    const store: Store<Documents, Operation>
    var documentCount: nat
    /** The last key number handed out. */
    var key: nat
    /** `indexes`: None when no fields are indexed. */
    var indexes: Option<Indexes>
    const maxDocuments: Option<int>

    /** The count is the number of documents; no key's number exceeds the
        counter, so the next key is new; the indexes are exact. (How the
        store serializes and reads back operations is fixed when it is
        opened, see `Open`.) */
    ghost predicate Valid()
      reads this, store, store.fs
    {
      && store.Valid()
      && store.apply == ApplyOperation
      && store.defaultValue == []
      && Consistent(store.data, documentCount, key, indexes)
    }

    /** The constructor, after the store has loaded its files: the count,
        the largest key number, and one index per indexed field built from
        the documents. */
    constructor (store: Store<Documents, Operation>, maxDocuments: Option<int>, indexedFields: Option<seq<string>>)
      requires store.Valid() && DistinctKeys(store.data) && DocumentsWf(store.data)
      requires store.apply == ApplyOperation && store.defaultValue == []
      ensures Valid() && this.store == store && this.maxDocuments == maxDocuments
      ensures documentCount == |Keys(store.data)| && key == MaxKeyNumber(Keys(store.data))
      ensures indexes == if indexedFields.Some? then Some(BuildIndexes(map[], indexedFields.value, store.data)) else None
      ensures indexes.Some? ==> indexes.value.Keys == set f | f in indexedFields.value
    {
      var data := store.data;
      this.store := store;
      this.maxDocuments := maxDocuments;
      documentCount := |Keys(data)|;
      key := MaxKeyNumber(Keys(data));
      if indexedFields.Some? {
        var built := IndexFields(indexedFields.value, data);
        indexes := Some(built);
      } else {
        indexes := None;
      }
      OpenedConsistent(data, indexedFields);
    }

    /** The constructor's loop over the documents for one indexed field. */
    static method IndexField(field: string, data: Documents) returns (index: FieldIndex)
      ensures index == IndexEntries(map[], field, data)
    {
      index := map[];
      for j := 0 to |data|
        invariant IndexEntries(index, field, data[j..]) == IndexEntries(map[], field, data)
      {
        var document := data[j].val;
        if Has(document, field) {
          var value := Get(document, field).value;
          if IsIndexable(value) {
            index := index[value := Listed(index, value) + {data[j].key}];
          }
        }
        assert data[j..][1..] == data[j + 1..];
      }
      assert data[|data|..] == [];
    }

    /** The constructor's loop over the indexed fields: a fresh map for each. */
    static method IndexFields(fields: seq<string>, data: Documents) returns (built: Indexes)
      ensures built == BuildIndexes(map[], fields, data)
    {
      built := map[];
      for i := 0 to |fields|
        invariant BuildIndexes(built, fields[i..], data) == BuildIndexes(map[], fields, data)
      {
        var index := IndexField(fields[i], data);
        assert fields[i..][1..] == fields[i + 1..];
        built := built[fields[i] := index];
      }
      assert fields[|fields|..] == [];
    }

    /** `new DocumentDatabase(options)`: no documents by default, journaling
        on unless the options say otherwise. Fails when replaying the journal
        throws. */
    static method Open(disk: Disk<Documents>, journal: Option<JournalSetting>, maxDocuments: Option<int>,
                       indexedFields: Option<seq<string>>)
      returns (result: Result<DocumentDatabase, string>)
      requires SnapshotsWf(disk)
      ensures result.Failure? <==> Recover(disk, [], DeserializeOperation, ApplyOperation).Failure?
      ensures result.Success? ==>
        && fresh(result.value) && fresh(result.value.store) && fresh(result.value.store.fs)
        && result.value.Valid()
        && result.value.store.data == Recover(disk, [], DeserializeOperation, ApplyOperation).value
        && result.value.store.fs.disk == Settled(result.value.store.data)
        && result.value.store.serialize == SerializeOperation
        && result.value.store.deserialize == DeserializeOperation
        && result.value.store.useJournal == (journal != Some(Off))
        && (result.value.indexes.Some? <==> indexedFields.Some?)
    {
      var fs := new FileSystem(disk);
      forall operation: Operation ensures DeserializeOperation(SerializeOperation(operation)) == Success(operation) {
        SerializeRoundTrip(operation);
      }
      var store := new Store(fs, [], if journal.Some? then journal.value else On,
                             ApplyOperation, SerializeOperation, DeserializeOperation);
      var outcome := store.LoadFiles();
      if outcome.Fail? {
        return Failure(outcome.error);
      }
      RecoverKeepsWf(disk);
      var db := new DocumentDatabase(store, maxDocuments, indexedFields);
      return Success(db);
    }

    /** `size`: the number of stored documents. */
    function Size(): (n: nat)
      reads this, store, store.fs
      requires Valid()
      ensures n == |Keys(store.data)|
    {
      documentCount
    }

    /** `findOne`: a deep clone of the first document that matches, in key
        order; none when nothing matches, or when the first match is stored
        under the empty key, which JavaScript reads as false. */
    function FindOne(query: Fields): (document: Option<Fields>)
      reads this, store, store.fs
      requires Valid()
      ensures var res := MatchingKeys(store.data, query);
        document == if res != [] && res[0] != "" then Get(store.data, res[0]) else None
      ensures document.Some? ==> PartialEqual(Obj(document.value), Obj(query))
    {
      SearchIndexFindsMatches(store.data, indexes, query);
      MatchingKeysExactly(store.data, query);
      var found := FilterMatching(store.data, SearchIndex(store.data, indexes, query), query);
      if found != [] && found[0] != "" then
        assert found[0] in found;
        Some(DeepClone(Obj(Records.Get(store.data, found[0]).value)).fields)
      else None
    }

    /** `findMany`: deep clones of the documents `findKeys` finds, in its
        order; fails when it reads an invalid sort option. */
    function FindMany(query: Fields, options: QueryOptions): (documents: Result<seq<Fields>, string>)
      reads this, store, store.fs
      requires Valid()
      ensures documents.Failure? <==>
        |options.sort| > 0 && |MatchingKeys(store.data, query)| > 1 && Directions(options.sort).Failure?
      ensures documents.Success? ==> FindKeys(store.data, None, query, options).Success?
      ensures documents.Success? ==>
        var found := FindKeys(store.data, None, query, options).value;
        && |documents.value| == |found|
        && forall i | 0 <= i < |found| ::
             Get(store.data, found[i]) == Some(documents.value[i]) && PartialEqual(Obj(documents.value[i]), Obj(query))
    {
      FindKeysIgnoresIndexes(store.data, indexes, query, options);
      FindKeysFails(store.data, indexes, query, options);
      var found := FindKeys(store.data, indexes, query, options);
      if found.Failure? then Failure(found.error)
      else
        FindKeysFinds(store.data, indexes, query, options);
        var keys := found.value;
        assert forall i | 0 <= i < |keys| :: keys[i] in keys;
        Success(seq(|keys|, i requires 0 <= i < |keys| && Valid() reads this, store, store.fs =>
          DocumentOf(store.data, keys[i])))
    }

    /** `getOrCreateIndex`: the set for the value in an indexed field, made
        empty when there is none; nothing for a field that is not indexed. */
    method GetOrCreateIndex(field: string, value: Value) returns (index: Option<set<string>>)
      modifies this`indexes
      ensures indexes == if old(indexes).Some? then Some(WithEntry(old(indexes).value, field, value)) else None
      ensures index.Some? <==> indexes.Some? && field in indexes.value
      ensures index.Some? ==> value in indexes.value[field] && index.value == indexes.value[field][value]
    {
      if indexes.Some? && field in indexes.value {
        var fieldIndex := indexes.value[field];
        if value !in fieldIndex {
          fieldIndex := fieldIndex[value := {}];
          indexes := Some(indexes.value[field := fieldIndex]);
        }
        return Some(fieldIndex[value]);
      }
      return None;
    }

    /** `addToIndex`: the keys join the value's set in an indexed field. */
    method AddToIndex(field: string, value: Value, keys: seq<string>)
      modifies this`indexes
      ensures indexes == if old(indexes).Some? then Some(AddedToIndex(old(indexes).value, field, value, keys)) else None
    {
      var index := GetOrCreateIndex(field, value);
      if index.Some? {
        var added := index.value;
        for i := 0 to |keys|
          invariant added == index.value + set k | k in keys[..i]
        {
          assert keys[..i + 1] == keys[..i] + [keys[i]];
          added := added + {keys[i]};
        }
        assert keys[..|keys|] == keys;
        indexes := Some(indexes.value[field := indexes.value[field][value := added]]);
      }
    }

    /** `removeFromIndex`: the key leaves the value's set in an indexed
        field, and an emptied set goes; a value without a set throws. */
    method RemoveFromIndex(field: string, value: Value, key: string) returns (outcome: Outcome<string>)
      modifies this`indexes
      ensures old(indexes).None? ==> outcome == Pass && indexes == old(indexes)
      ensures old(indexes).Some? ==>
        var removed := RemovedFromIndex(old(indexes).value, field, value, key);
        && (removed.Failure? ==> outcome == Fail(removed.error) && indexes == old(indexes))
        && (removed.Success? ==> outcome == Pass && indexes == Some(removed.value))
    {
      if indexes.Some? && field in indexes.value {
        var fieldIndex := indexes.value[field];
        if value !in fieldIndex {
          return Fail("Cannot find index for value");
        }
        var index := fieldIndex[value] - {key};
        if index == {} {
          indexes := Some(indexes.value[field := fieldIndex - {value}]);
        } else {
          indexes := Some(indexes.value[field := fieldIndex[value := index]]);
        }
      }
      return Pass;
    }

    /** `insert`'s index step: each indexable field value of the new document lists its key. */
    method IndexNewDocument(newKey: string, document: Fields)
      modifies this`indexes
      ensures indexes == if old(indexes).Some? then Some(IndexDocument(old(indexes).value, newKey, document)) else None
    {
      if indexes.Some? {
        ghost var before := indexes.value;
        for i := 0 to |document|
          invariant indexes.Some?
          invariant IndexDocument(indexes.value, newKey, document[i..]) == IndexDocument(before, newKey, document)
        {
          var value := document[i].val;
          if IsIndexable(value) {
            AddToIndex(document[i].key, value, [newKey]);
          }
          assert document[i..][1..] == document[i + 1..];
        }
        assert document[|document|..] == [];
      }
    }

    /** The store's `commitOperation` for an operation the count, the
        counter and the indexes already reflect. */
    method Commit(operation: Operation, ghost next: Documents) returns (outcome: Outcome<string>)
      requires store.Valid() && store.apply == ApplyOperation
      requires store.defaultValue == []
      requires ApplyOperation(store.data, operation) == Success(next)
      requires Consistent(next, documentCount, key, indexes)
      modifies store, store.fs
      ensures Valid() && outcome == Pass && store.data == next
      ensures store.CrashSafe(old(|store.fs.CrashPoints|), old(store.data), store.data)
    {
      outcome := store.CommitOperation(operation);
    }

    /** `Commit` of the creation of a document under a new key. */
    method CommitCreate(newKey: string, document: Fields) returns (outcome: Outcome<string>)
      requires store.Valid() && store.apply == ApplyOperation
      requires store.defaultValue == []
      requires !Records.Has(store.data, newKey)
      requires Consistent(store.data + [Entry(newKey, document)], documentCount, key, indexes)
      modifies store, store.fs
      ensures Valid() && outcome == Pass && store.data == old(store.data) + [Entry(newKey, document)]
      ensures store.CrashSafe(old(|store.fs.CrashPoints|), old(store.data), store.data)
    {
      CreateAppends(store.data, newKey, document);
      outcome := Commit(Operation.Create(newKey, document), store.data + [Entry(newKey, document)]);
    }

    /** `Commit` of an update of stored keys. */
    method CommitUpdate(keys: seq<string>, update: Fields) returns (outcome: Outcome<string>)
      requires store.Valid() && store.apply == ApplyOperation
      requires store.defaultValue == []
      requires UpdateDocuments(store.data, keys, update).Success?
      requires Consistent(UpdateDocuments(store.data, keys, update).value, documentCount, key, indexes)
      modifies store, store.fs
      ensures Valid() && outcome == Pass && UpdateDocuments(old(store.data), keys, update) == Success(store.data)
      ensures store.CrashSafe(old(|store.fs.CrashPoints|), old(store.data), store.data)
    {
      outcome := Commit(Operation.Update(keys, update), UpdateDocuments(store.data, keys, update).value);
    }

    /** `Commit` of a deletion. */
    method CommitDelete(keys: seq<string>) returns (outcome: Outcome<string>)
      requires store.Valid() && store.apply == ApplyOperation
      requires store.defaultValue == []
      requires Consistent(DeleteDocuments(store.data, keys), documentCount, key, indexes)
      modifies store, store.fs
      ensures Valid() && outcome == Pass && store.data == DeleteDocuments(old(store.data), keys)
      ensures store.CrashSafe(old(|store.fs.CrashPoints|), old(store.data), store.data)
    {
      outcome := Commit(Operation.Delete(keys), DeleteDocuments(store.data, keys));
    }

    /** `insert`: refused once `maxDocuments` documents are stored; otherwise
        the document is stored under the next key, which is new, and listed
        in the indexes. */
    method Insert(document: Fields) returns (outcome: Outcome<string>)
      requires Valid() && DistinctKeys(document)
      modifies this`documentCount, this`key, this`indexes, store, store.fs
      ensures Valid()
      ensures maxDocuments.Some? && old(documentCount) >= maxDocuments.value ==>
        && outcome == Fail("Maximum number of documents exceeded")
        && store.data == old(store.data) && store.fs.disk == old(store.fs.disk)
        && documentCount == old(documentCount) && key == old(key) && indexes == old(indexes)
      ensures !(maxDocuments.Some? && old(documentCount) >= maxDocuments.value) ==>
        && outcome == Pass
        && key == old(key) + 1
        && !Records.Has(old(store.data), KeyString(key))
        && store.data == old(store.data) + [Entry(KeyString(key), document)]
        && documentCount == old(documentCount) + 1
        && indexes == if old(indexes).Some? then Some(IndexDocument(old(indexes).value, KeyString(key), document)) else None
      ensures store.CrashSafe(old(|store.fs.CrashPoints|), old(store.data), store.data)
    {
      if maxDocuments.Some? && documentCount >= maxDocuments.value {
        return Fail("Maximum number of documents exceeded");
      }
      outcome := InsertUnderNextKey(document);
    }

    /** `insert` below the cap: the counters go up, the document is indexed
        under the new key and the operation is committed. */
    method InsertUnderNextKey(document: Fields) returns (outcome: Outcome<string>)
      requires Valid() && DistinctKeys(document)
      modifies this`documentCount, this`key, this`indexes, store, store.fs
      ensures Valid() && outcome == Pass
      ensures key == old(key) + 1 && documentCount == old(documentCount) + 1
      ensures !Records.Has(old(store.data), KeyString(key))
      ensures store.data == old(store.data) + [Entry(KeyString(key), document)]
      ensures indexes == if old(indexes).Some? then Some(IndexDocument(old(indexes).value, KeyString(key), document)) else None
      ensures store.CrashSafe(old(|store.fs.CrashPoints|), old(store.data), store.data)
    {
      ghost var data, count, number, before := store.data, documentCount, key, indexes;
      documentCount := documentCount + 1;
      key := key + 1;
      var newKey := KeyString(key);
      IndexNewDocument(newKey, document);
      InsertKeepsConsistent(store.data, count, number, before, document, newKey, indexes);
      outcome := CommitCreate(newKey, document);
    }

    /** `update`'s index step for one field: each key leaves the set of its
        document's old value of the field. */
    method UnindexOldValues(data: Documents, field: string, keys: seq<string>)
      requires indexes.Some? ==> UnindexField(indexes.value, data, field, keys).Success?
      modifies this`indexes
      ensures indexes == if old(indexes).Some? then Some(UnindexField(old(indexes).value, data, field, keys).value) else None
    {
      if indexes.Some? {
        ghost var unindexed := UnindexField(indexes.value, data, field, keys);
        for j := 0 to |keys|
          invariant indexes.Some? && UnindexField(indexes.value, data, field, keys[j..]) == unindexed
        {
          var oldValue := FieldValue(data, keys[j], field);
          if oldValue.Some? && IsIndexable(oldValue.value) {
            var removed := RemoveFromIndex(field, oldValue.value, keys[j]);
            // The step succeeds, so the old value has a set.
            assert removed.Pass?;
          }
          assert keys[j..][1..] == keys[j + 1..];
        }
        assert keys[|keys|..] == [];
      }
    }

    /** `update`'s index step: for each field of the update, the keys leave
        their old values' sets and join the new value's. */
    method ReindexUpdated(data: Documents, keys: seq<string>, update: Fields)
      requires indexes.Some? ==> ReindexUpdate(indexes.value, data, keys, update).Success?
      modifies this`indexes
      ensures indexes == if old(indexes).Some? then Some(ReindexUpdate(old(indexes).value, data, keys, update).value) else None
    {
      if indexes.Some? {
        ghost var target := ReindexUpdate(indexes.value, data, keys, update);
        for i := 0 to |update|
          invariant indexes.Some? && ReindexUpdate(indexes.value, data, keys, update[i..]) == target
        {
          var field := update[i].key;
          assert update[i..][0] == update[i] && update[i..][1..] == update[i + 1..];
          UnindexOldValues(data, field, keys);
          var newValue := update[i].val;
          if IsIndexable(newValue) {
            AddToIndex(field, newValue, keys);
          }
        }
        assert update[|update|..] == [];
      }
    }

    /** `update`: every document matching the query gets the update merged
        in, and the indexes follow; it neither fails nor changes the count. */
    method Update(query: Fields, update: Fields)
      requires Valid() && DistinctKeys(update)
      modifies this`indexes, store, store.fs
      ensures Valid() && documentCount == old(documentCount) && key == old(key)
      ensures UpdateDocuments(old(store.data), MatchingKeys(old(store.data), query), update) == Success(store.data)
      ensures indexes.Some? == old(indexes).Some?
      ensures old(indexes).Some? ==>
        ReindexUpdate(old(indexes).value, old(store.data), MatchingKeys(old(store.data), query), update) == Success(indexes.value)
      ensures store.CrashSafe(old(|store.fs.CrashPoints|), old(store.data), store.data)
    {
      var data := store.data;
      FindKeysWithoutOptions(data, indexes, query);
      var keys := FindKeys(data, indexes, query, NoOptions).value;
      MatchingKeysStored(data, query);
      UpdateKeys(keys, update);
    }

    /** The rest of `update`, once the keys are found: the update is merged
        into each of their documents and the indexes follow. */
    method UpdateKeys(keys: seq<string>, update: Fields)
      requires Valid() && DistinctKeys(update)
      requires forall i | 0 <= i < |keys| :: Records.Has(store.data, keys[i])
      requires forall i, j | 0 <= i < j < |keys| :: keys[i] != keys[j]
      modifies this`indexes, store, store.fs
      ensures Valid() && documentCount == old(documentCount) && key == old(key)
      ensures UpdateDocuments(old(store.data), keys, update) == Success(store.data)
      ensures indexes.Some? == old(indexes).Some?
      ensures old(indexes).Some? ==> ReindexUpdate(old(indexes).value, old(store.data), keys, update) == Success(indexes.value)
      ensures store.CrashSafe(old(|store.fs.CrashPoints|), old(store.data), store.data)
    {
      var data := store.data;
      UpdateKeepsConsistent(data, documentCount, key, indexes, keys, update);
      ReindexUpdated(data, keys, update);
      var _ := CommitUpdate(keys, update);
    }

    /** `delete`'s index step for one document: its key leaves the set of
        each indexable value it holds. */
    method UnindexDeletedDocument(key: string, document: Fields)
      requires indexes.Some? ==> UnindexDocument(indexes.value, key, document).Success?
      modifies this`indexes
      ensures indexes == if old(indexes).Some? then Some(UnindexDocument(old(indexes).value, key, document).value) else None
    {
      if indexes.Some? {
        ghost var unindexed := UnindexDocument(indexes.value, key, document);
        for j := 0 to |document|
          invariant indexes.Some? && UnindexDocument(indexes.value, key, document[j..]) == unindexed
        {
          var oldValue := document[j].val;
          if IsIndexable(oldValue) {
            var removed := RemoveFromIndex(document[j].key, oldValue, key);
            // The step succeeds, so every value the document holds has a set.
            assert removed.Pass?;
          }
          assert document[j..][1..] == document[j + 1..];
        }
        assert document[|document|..] == [];
      }
    }

    /** `delete`'s index step: every deleted key leaves every index. */
    method UnindexDeleted(data: Documents, keys: seq<string>)
      requires indexes.Some? ==> UnindexDocuments(indexes.value, data, keys).Success?
      modifies this`indexes
      ensures indexes == if old(indexes).Some? then Some(UnindexDocuments(old(indexes).value, data, keys).value) else None
    {
      if indexes.Some? {
        ghost var target := UnindexDocuments(indexes.value, data, keys);
        for i := 0 to |keys|
          invariant indexes.Some? && UnindexDocuments(indexes.value, data, keys[i..]) == target
        {
          assert keys[i..][0] == keys[i] && keys[i..][1..] == keys[i + 1..];
          UnindexDeletedDocument(keys[i], DocumentOf(data, keys[i]));
        }
        assert keys[|keys|..] == [];
      }
    }

    /** The rest of `delete`, once the keys are found: the count goes down
        by their number, the indexes drop them and the documents go. */
    method DeleteKeys(keys: seq<string>) returns (outcome: Outcome<string>)
      requires Valid()
      requires forall i | 0 <= i < |keys| :: Records.Has(store.data, keys[i])
      requires forall i, j | 0 <= i < j < |keys| :: keys[i] != keys[j]
      modifies this`documentCount, this`indexes, store, store.fs
      ensures Valid() && key == old(key) && outcome == Pass
      ensures store.data == DeleteDocuments(old(store.data), keys)
      ensures documentCount == old(documentCount) - |keys|
      ensures indexes.Some? == old(indexes).Some?
      ensures old(indexes).Some? ==> UnindexDocuments(old(indexes).value, old(store.data), keys) == Success(indexes.value)
      ensures store.CrashSafe(old(|store.fs.CrashPoints|), old(store.data), store.data)
    {
      var data := store.data;
      DeleteKeepsConsistent(data, documentCount, key, indexes, keys);
      documentCount := documentCount - |keys|;
      UnindexDeleted(data, keys);
      outcome := CommitDelete(keys);
    }

    /** `delete`: the documents `findKeys` finds are dropped, the count goes
        down by their number and the indexes follow; an invalid sort option
        fails and changes nothing. */
    method Delete(query: Fields, options: QueryOptions) returns (outcome: Outcome<string>)
      requires Valid()
      modifies this`documentCount, this`indexes, store, store.fs
      ensures Valid() && key == old(key)
      ensures var found := FindKeys(old(store.data), None, query, options);
        && (found.Failure? ==>
              && outcome == Fail(found.error)
              && store.data == old(store.data) && store.fs.disk == old(store.fs.disk)
              && documentCount == old(documentCount) && indexes == old(indexes))
        && (found.Success? ==>
              && outcome == Pass
              && store.data == DeleteDocuments(old(store.data), found.value)
              && documentCount == old(documentCount) - |found.value|
              && indexes.Some? == old(indexes).Some?
              && (old(indexes).Some? ==>
                    UnindexDocuments(old(indexes).value, old(store.data), found.value) == Success(indexes.value)))
      ensures store.CrashSafe(old(|store.fs.CrashPoints|), old(store.data), store.data)
    {
      var data := store.data;
      FindKeysIgnoresIndexes(data, indexes, query, options);
      var found := FindKeys(data, indexes, query, options);
      if found.Failure? {
        return Fail(found.error);
      }
      var keys := found.value;
      FoundKeysStored(data, indexes, query, options);
      outcome := DeleteKeys(keys);
    }

    /** `clear`: no documents, the counter back at zero and every index emptied. */
    method Clear()
      requires Valid()
      modifies this`documentCount, this`key, this`indexes, store, store.fs
      ensures Valid() && store.data == [] && documentCount == 0 && key == 0
      ensures indexes == if old(indexes).Some? then Some(Cleared(old(indexes).value)) else None
      ensures store.fs.disk == Settled([])
      ensures store.CrashSafe(old(|store.fs.CrashPoints|), old(store.data), store.data)
    {
      store.Clear();
      documentCount := 0;
      key := 0;
      if indexes.Some? {
        ClearedExact(indexes.value);
        indexes := Some(Cleared(indexes.value));
      }
    }
  }
}
