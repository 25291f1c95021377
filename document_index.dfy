/** The field indexes of src/document-database.ts. For each indexed field, a
    map from each string, number, boolean or null value to the set of keys
    of the documents holding that value at the top level of that field. This
    module gives the index updates the database performs as functions and
    proves that each keeps every index exact. */
module DocumentIndex {
  import opened Wrappers
  import opened Records
  import opened Serializable

  /** `StorageData`: documents by key, in key order. */
  type Documents = seq<Entry<Fields>>

  type FieldIndex = map<Value, set<string>>

  /** `indexes`: one map per indexed field. */
  type Indexes = map<string, FieldIndex>

  /** `isIndexable`: a string, number, boolean or null. */
  predicate IsIndexable(value: Value) {
    value.Str? || value.Num? || value.Bool? || value.Null?
  }

  /** `data[key][field]`; a key with no document reads as a document without fields. */
  function FieldValue(data: Documents, key: string, field: string): Option<Value> {
    var document := Get(data, key);
    if document.Some? then Get(document.value, field) else None
  }

  /** The index of `field` lists `key` under `value`. */
  predicate InIndex(indexes: Indexes, field: string, value: Value, key: string) {
    field in indexes && value in indexes[field] && key in indexes[field][value]
  }

  /** Every index lists a key under a value exactly when that document holds
      that indexable value at that field. */
  ghost predicate IndexExact(data: Documents, indexes: Indexes) {
    forall field, value, key | field in indexes ::
      InIndex(indexes, field, value, key) <==> IsIndexable(value) && FieldValue(data, key, field) == Some(value)
  }

  /** Every stored document is a JavaScript object: no field twice. */
  predicate DocumentsWf(data: Documents) {
    forall i | 0 <= i < |data| :: DistinctKeys(data[i].val)
  }

  /** The keys listed under a value; none for a value not in the map. */
  function Listed(index: FieldIndex, value: Value): set<string> {
    if value in index then index[value] else {}
  }

  // ---------------------------------------------------------------------------
  // Single index updates

  /** `getIndexIfExists`: the keys listed under the value, when the value is
      indexable and the field indexed. */
  function GetIndexIfExists(indexes: Indexes, field: string, value: Value): (index: Option<set<string>>)
    ensures index.Some? <==> IsIndexable(value) && field in indexes
    ensures index.Some? ==> forall key :: key in index.value <==> InIndex(indexes, field, value, key)
  {
    if !IsIndexable(value) then None
    else if field !in indexes then None
    else Some(Listed(indexes[field], value))
  }

  /** What `getOrCreateIndex` leaves behind: an entry, possibly empty, for
      the value in an indexed field. */
  function WithEntry(indexes: Indexes, field: string, value: Value): (r: Indexes)
    ensures r.Keys == indexes.Keys
    ensures field in indexes ==> value in r[field]
    ensures forall f, v, k :: InIndex(r, f, v, k) <==> InIndex(indexes, f, v, k)
  {
    if field in indexes && value !in indexes[field] then indexes[field := indexes[field][value := {}]]
    else indexes
  }

  /** `addToIndex`: lists the keys under the value, when the field is indexed. */
  function AddedToIndex(indexes: Indexes, field: string, value: Value, keys: seq<string>): (r: Indexes)
    ensures r.Keys == indexes.Keys
    ensures forall f, v, k :: InIndex(r, f, v, k) <==>
      InIndex(indexes, f, v, k) || (f == field && field in indexes && v == value && k in keys)
  {
    var created := WithEntry(indexes, field, value);
    if field in created then created[field := created[field][value := created[field][value] + set k | k in keys]]
    else created
  }

  /** `removeFromIndex`: unlists the key under the value and drops a set that
      becomes empty; throws when the field is indexed but the value has no entry. */
  function RemovedFromIndex(indexes: Indexes, field: string, value: Value, key: string): (r: Result<Indexes, string>)
    ensures r.Failure? <==> field in indexes && value !in indexes[field]
    ensures r.Failure? ==> r.error == "Cannot find index for value"
    ensures r.Success? ==> r.value.Keys == indexes.Keys
    ensures r.Success? ==> forall f, v, k :: InIndex(r.value, f, v, k) <==>
      InIndex(indexes, f, v, k) && !(f == field && v == value && k == key)
    ensures r.Success? && field in indexes ==> forall v | v in r.value[field] :: v in indexes[field]
  {
    if field !in indexes then Success(indexes)
    else if value !in indexes[field] then Failure("Cannot find index for value")
    else
      var rest := indexes[field][value] - {key};
      assert forall k | k in indexes[field][value] :: k in rest || k == key;
      if rest == {} then Success(indexes[field := indexes[field] - {value}])
      else Success(indexes[field := indexes[field][value := rest]])
  }

  /** The lookup `this.indexes?.[fieldName]` as written (in
      `removeFromIndex`, `getIndexIfExists` and `getOrCreateIndex`): the
      field's map when the field is indexed. For an unindexed field named
      like an inherited method the lookup finds that method, which is truthy,
      and the `.get` that follows throws a TypeError. The model's functions
      look up own keys of `indexes` instead. */
  function FieldIndexAsWritten(indexes: Indexes, field: string): Result<Option<FieldIndex>, string> {
    if field in indexes then Success(Some(indexes[field]))
    else if field in Inherited then Failure("TypeError: get is not a function")
    else Success(None)
  }

  /** The lookup as written throws exactly for an unindexed inherited name,
      where the model's index updates leave the indexes as they are. */
  lemma InheritedFieldThrowsAsWritten(indexes: Indexes, field: string, value: Value, keys: seq<string>, key: string)
    ensures FieldIndexAsWritten(indexes, field).Failure? <==> field !in indexes && field in Inherited
    ensures FieldIndexAsWritten(indexes, field).Success? ==>
      (FieldIndexAsWritten(indexes, field).value.Some? <==> field in indexes)
    ensures field !in indexes && field in Inherited ==>
      && GetIndexIfExists(indexes, field, value) == None
      && AddedToIndex(indexes, field, value, keys) == indexes
      && RemovedFromIndex(indexes, field, value, key) == Success(indexes)
  {
  }

  /** `clear`: every field's map emptied. */
  function Cleared(indexes: Indexes): (r: Indexes)
    ensures r.Keys == indexes.Keys
    ensures forall f, v, k :: !InIndex(r, f, v, k)
  {
    map f | f in indexes :: map[]
  }

  lemma ClearedExact(indexes: Indexes)
    ensures IndexExact([], Cleared(indexes))
  {
  }

  // ---------------------------------------------------------------------------
  // Building the indexes when the database opens

  /** The constructor's inner loop: lists each document's key under its
      value of `field`, when it has one and that value is indexable. */
  function IndexEntries(index: FieldIndex, field: string, data: Documents): FieldIndex
    decreases |data|
  {
    if data == [] then index
    else
      var document := data[0].val;
      var next :=
        if Has(document, field) && IsIndexable(Get(document, field).value)
        then index[Get(document, field).value := Listed(index, Get(document, field).value) + {data[0].key}]
        else index;
      IndexEntries(next, field, data[1..])
  }

  /** The constructor's outer loop: a fresh map for each indexed field. */
  function BuildIndexes(indexes: Indexes, fields: seq<string>, data: Documents): Indexes
    decreases |fields|
  {
    if fields == [] then indexes
    else BuildIndexes(indexes[fields[0] := IndexEntries(map[], fields[0], data)], fields[1..], data)
  }

  /** What one field's map lists after indexing some documents. */
  lemma {:induction false} IndexEntriesLists(index: FieldIndex, field: string, data: Documents, value: Value, key: string)
    ensures key in Listed(IndexEntries(index, field, data), value) <==>
      key in Listed(index, value) ||
      (IsIndexable(value) && exists i :: 0 <= i < |data| && data[i].key == key && Get(data[i].val, field) == Some(value))
    decreases |data|
  {
    if data != [] {
      var document := data[0].val;
      var next :=
        if Has(document, field) && IsIndexable(Get(document, field).value)
        then index[Get(document, field).value := Listed(index, Get(document, field).value) + {data[0].key}]
        else index;
      IndexEntriesLists(next, field, data[1..], value, key);
      SomeEntryHolds(data, field, value, key);
      assert key in Listed(next, value) <==>
        key in Listed(index, value) || (IsIndexable(value) && data[0].key == key && Get(document, field) == Some(value));
    }
  }

  /** Some entry of a non-empty list holds the value under the key exactly
      when its first entry does or some entry of the rest does. */
  lemma SomeEntryHolds(data: Documents, field: string, value: Value, key: string)
    requires data != []
    ensures (exists i :: 0 <= i < |data| && data[i].key == key && Get(data[i].val, field) == Some(value)) <==>
      (data[0].key == key && Get(data[0].val, field) == Some(value)) ||
      (exists i :: 0 <= i < |data[1..]| && data[1..][i].key == key && Get(data[1..][i].val, field) == Some(value))
  {
    if exists i :: 0 <= i < |data| && data[i].key == key && Get(data[i].val, field) == Some(value) {
      var i :| 0 <= i < |data| && data[i].key == key && Get(data[i].val, field) == Some(value);
      if i > 0 {
        assert data[1..][i - 1] == data[i];
      }
    }
    if exists i :: 0 <= i < |data[1..]| && data[1..][i].key == key && Get(data[1..][i].val, field) == Some(value) {
      var i :| 0 <= i < |data[1..]| && data[1..][i].key == key && Get(data[1..][i].val, field) == Some(value);
      assert data[i + 1] == data[1..][i];
    }
  }

  /** With distinct keys, some entry holds the value exactly when the
      document found under the key does. */
  lemma EntryHoldsValue(data: Documents, field: string, value: Value, key: string)
    requires DistinctKeys(data)
    ensures (exists i :: 0 <= i < |data| && data[i].key == key && Get(data[i].val, field) == Some(value))
      <==> FieldValue(data, key, field) == Some(value)
  {
    if exists i :: 0 <= i < |data| && data[i].key == key && Get(data[i].val, field) == Some(value) {
      var i :| 0 <= i < |data| && data[i].key == key && Get(data[i].val, field) == Some(value);
      GetEntry(data, i);
    }
    if FieldValue(data, key, field) == Some(value) {
      GetFound(data, key);
      var i :| 0 <= i < |data| && data[i] == Entry(key, Get(data, key).value);
    }
  }

  /** The indexes built when the database opens are exact, one per indexed field. */
  lemma {:induction false} BuildIndexesExact(indexes: Indexes, fields: seq<string>, data: Documents)
    requires DistinctKeys(data) && IndexExact(data, indexes)
    ensures IndexExact(data, BuildIndexes(indexes, fields, data))
    ensures BuildIndexes(indexes, fields, data).Keys == indexes.Keys + set f | f in fields
    decreases |fields|
  {
    if fields != [] {
      var field := fields[0];
      var next := indexes[field := IndexEntries(map[], field, data)];
      forall f, v, k | f in next
        ensures InIndex(next, f, v, k) <==> IsIndexable(v) && FieldValue(data, k, f) == Some(v)
      {
        if f == field {
          IndexEntriesLists(map[], field, data, v, k);
          EntryHoldsValue(data, field, v, k);
          assert InIndex(next, f, v, k) <==> k in Listed(next[f], v);
        } else {
          assert InIndex(next, f, v, k) <==> InIndex(indexes, f, v, k);
        }
      }
      BuildIndexesExact(next, fields[1..], data);
      assert (set f | f in fields) == {field} + set f | f in fields[1..];
    }
  }

  // ---------------------------------------------------------------------------
  // Inserting a document

  /** `insert`: lists the new key under each indexable value of the document. */
  function IndexDocument(indexes: Indexes, key: string, document: Fields): (r: Indexes)
    ensures r.Keys == indexes.Keys
    decreases |document|
  {
    if document == [] then indexes
    else
      var next := if IsIndexable(document[0].val) then AddedToIndex(indexes, document[0].key, document[0].val, [key]) else indexes;
      IndexDocument(next, key, document[1..])
  }

  lemma {:induction false} IndexDocumentLists(indexes: Indexes, key: string, document: Fields, f: string, v: Value, k: string)
    requires DistinctKeys(document)
    ensures InIndex(IndexDocument(indexes, key, document), f, v, k) <==>
      InIndex(indexes, f, v, k) || (k == key && f in indexes && IsIndexable(v) && Get(document, f) == Some(v))
    decreases |document|
  {
    if document != [] {
      var next := if IsIndexable(document[0].val) then AddedToIndex(indexes, document[0].key, document[0].val, [key]) else indexes;
      IndexDocumentLists(next, key, document[1..], f, v, k);
    }
  }

  /** Indexing a new document keeps the indexes exact for the data with it. */
  lemma InsertKeepsExact(data: Documents, indexes: Indexes, key: string, document: Fields)
    requires IndexExact(data, indexes) && DistinctKeys(document) && !Has(data, key)
    ensures IndexExact(Put(data, key, document), IndexDocument(indexes, key, document))
  {
    var r := IndexDocument(indexes, key, document);
    forall f, v, k | f in r
      ensures InIndex(r, f, v, k) <==> IsIndexable(v) && FieldValue(Put(data, key, document), k, f) == Some(v)
    {
      IndexDocumentLists(indexes, key, document, f, v, k);
      GetPut(data, key, document, k);
    }
  }

  // ---------------------------------------------------------------------------
  // Updating documents

  /** `update`, for one field: unlists each key under its old value of the field. */
  function UnindexField(indexes: Indexes, data: Documents, field: string, keys: seq<string>): Result<Indexes, string>
    decreases |keys|
  {
    if keys == [] then Success(indexes)
    else
      var oldValue := FieldValue(data, keys[0], field);
      var next := if oldValue.Some? && IsIndexable(oldValue.value) then RemovedFromIndex(indexes, field, oldValue.value, keys[0]) else Success(indexes);
      if next.Failure? then next else UnindexField(next.value, data, field, keys[1..])
  }

  /** `update`: for each field of the update, the keys leave their old
      values' sets and are listed under the new value. */
  function ReindexUpdate(indexes: Indexes, data: Documents, keys: seq<string>, update: Fields): Result<Indexes, string>
    decreases |update|
  {
    if update == [] then Success(indexes)
    else
      var field := update[0].key;
      var unindexed := UnindexField(indexes, data, field, keys);
      if unindexed.Failure? then unindexed
      else
        var next := if IsIndexable(update[0].val) then AddedToIndex(unindexed.value, field, update[0].val, keys) else unindexed.value;
        ReindexUpdate(next, data, keys, update[1..])
  }

  /** For the given keys, the index of `field` lists each key under its
      document's value of that field and nothing else. */
  ghost predicate ExactFor(indexes: Indexes, data: Documents, field: string, keys: seq<string>) {
    forall v, k | field in indexes && k in keys ::
      InIndex(indexes, field, v, k) <==> IsIndexable(v) && FieldValue(data, k, field) == Some(v)
  }

  lemma {:induction false} UnindexFieldLists(indexes: Indexes, data: Documents, field: string, keys: seq<string>)
    requires ExactFor(indexes, data, field, keys)
    requires forall i, j | 0 <= i < j < |keys| :: keys[i] != keys[j]
    ensures UnindexField(indexes, data, field, keys).Success?
    ensures UnindexField(indexes, data, field, keys).value.Keys == indexes.Keys
    ensures forall f, v, k :: InIndex(UnindexField(indexes, data, field, keys).value, f, v, k) <==>
      InIndex(indexes, f, v, k) && !(f == field && k in keys)
    decreases |keys|
  {
    if keys != [] {
      var oldValue := FieldValue(data, keys[0], field);
      var next := if oldValue.Some? && IsIndexable(oldValue.value) then RemovedFromIndex(indexes, field, oldValue.value, keys[0]) else Success(indexes);
      if oldValue.Some? && IsIndexable(oldValue.value) && field in indexes {
        assert InIndex(indexes, field, oldValue.value, keys[0]);
      }
      assert next.Success?;
      forall v, k | field in next.value && k in keys[1..]
        ensures InIndex(next.value, field, v, k) <==> IsIndexable(v) && FieldValue(data, k, field) == Some(v)
      {
        assert k != keys[0];
      }
      UnindexFieldLists(next.value, data, field, keys[1..]);
    }
  }

  lemma {:induction false} ReindexUpdateLists(indexes: Indexes, data: Documents, keys: seq<string>, update: Fields)
    requires DistinctKeys(update)
    requires forall i | 0 <= i < |update| :: ExactFor(indexes, data, update[i].key, keys)
    requires forall i, j | 0 <= i < j < |keys| :: keys[i] != keys[j]
    ensures ReindexUpdate(indexes, data, keys, update).Success?
    ensures ReindexUpdate(indexes, data, keys, update).value.Keys == indexes.Keys
    ensures forall f, v, k :: InIndex(ReindexUpdate(indexes, data, keys, update).value, f, v, k) <==>
      if k in keys && Has(update, f) then f in indexes && IsIndexable(v) && Get(update, f) == Some(v)
      else InIndex(indexes, f, v, k)
    decreases |update|
  {
    if update != [] {
      var field := update[0].key;
      var rest := update[1..];
      UnindexFieldLists(indexes, data, field, keys);
      var unindexed := UnindexField(indexes, data, field, keys).value;
      var next := if IsIndexable(update[0].val) then AddedToIndex(unindexed, field, update[0].val, keys) else unindexed;
      forall i | 0 <= i < |rest| ensures ExactFor(next, data, rest[i].key, keys) {
        assert rest[i] == update[i + 1];
        assert rest[i].key != field;
      }
      assert DistinctKeys(rest) by {
        forall i, j | 0 <= i < j < |rest| ensures rest[i].key != rest[j].key {
          assert rest[i] == update[i + 1] && rest[j] == update[j + 1];
        }
      }
      ReindexUpdateLists(next, data, keys, rest);
      assert Keys(update) == [field] + Keys(rest);
      forall f, v, k
        ensures InIndex(ReindexUpdate(indexes, data, keys, update).value, f, v, k) <==>
          if k in keys && Has(update, f) then f in indexes && IsIndexable(v) && Get(update, f) == Some(v)
          else InIndex(indexes, f, v, k)
      {
        if f != field && Has(update, f) {
          assert Has(rest, f);
          assert Get(update, f) == Get(rest, f);
        }
        if f == field {
          assert !Has(rest, f) by {
            forall j | 0 <= j < |Keys(rest)| ensures Keys(rest)[j] != field {
              assert Keys(rest)[j] == update[j + 1].key;
            }
          }
        }
      }
    }
  }

  /** `applyOperation` for an update: each listed key's document gets the
      update merged in; a missing key throws. */
  function UpdateDocuments(data: Documents, keys: seq<string>, update: Fields): Result<Documents, string>
    decreases |keys|
  {
    if keys == [] then Success(data)
    else if !Has(data, keys[0]) then Failure("Cannot update missing value")
    else UpdateDocuments(Put(data, keys[0], MergeFields(Get(data, keys[0]).value, update)), keys[1..], update)
  }

  /** Updating distinct stored keys succeeds, merges the update into exactly
      those documents and keeps the key order. */
  lemma {:induction false} UpdateDocumentsGet(data: Documents, keys: seq<string>, update: Fields, k: string)
    requires forall i | 0 <= i < |keys| :: Has(data, keys[i])
    requires forall i, j | 0 <= i < j < |keys| :: keys[i] != keys[j]
    ensures UpdateDocuments(data, keys, update).Success?
    ensures Keys(UpdateDocuments(data, keys, update).value) == Keys(data)
    ensures Get(UpdateDocuments(data, keys, update).value, k) ==
      if k in keys then Some(MergeFields(Get(data, k).value, update)) else Get(data, k)
    decreases |keys|
  {
    if keys != [] {
      var key := keys[0];
      var next := Put(data, key, MergeFields(Get(data, key).value, update));
      PutKeys(data, key, MergeFields(Get(data, key).value, update));
      forall i | 0 <= i < |keys[1..]| ensures Has(next, keys[1..][i]) {
        assert keys[1..][i] == keys[i + 1];
      }
      UpdateDocumentsGet(next, keys[1..], update, k);
      GetPut(data, key, MergeFields(Get(data, key).value, update), k);
      if k in keys[1..] {
        var i :| 0 <= i < |keys[1..]| && keys[1..][i] == k;
        assert keys[i + 1] == k;
      }
    }
  }

  /** The indexes after an update's reindexing are exact for the updated data. */
  lemma UpdateKeepsExact(data: Documents, indexes: Indexes, keys: seq<string>, update: Fields)
    requires DistinctKeys(data) && DistinctKeys(update) && IndexExact(data, indexes)
    requires forall i | 0 <= i < |keys| :: Has(data, keys[i])
    requires forall i, j | 0 <= i < j < |keys| :: keys[i] != keys[j]
    ensures ReindexUpdate(indexes, data, keys, update).Success?
    ensures UpdateDocuments(data, keys, update).Success?
    ensures IndexExact(UpdateDocuments(data, keys, update).value, ReindexUpdate(indexes, data, keys, update).value)
  {
    ReindexUpdateLists(indexes, data, keys, update);
    var r := ReindexUpdate(indexes, data, keys, update).value;
    UpdateDocumentsGet(data, keys, update, "");
    var after := UpdateDocuments(data, keys, update).value;
    forall f, v, k | f in r
      ensures InIndex(r, f, v, k) <==> IsIndexable(v) && FieldValue(after, k, f) == Some(v)
    {
      UpdateDocumentsGet(data, keys, update, k);
      if k in keys {
        MergeGet(Get(data, k).value, update, f);
      }
    }
  }

  // ---------------------------------------------------------------------------
  // Deleting documents

  /** `delete`, for one document: unlists its key under each indexable value it holds. */
  function UnindexDocument(indexes: Indexes, key: string, document: Fields): Result<Indexes, string>
    decreases |document|
  {
    if document == [] then Success(indexes)
    else
      var next := if IsIndexable(document[0].val) then RemovedFromIndex(indexes, document[0].key, document[0].val, key) else Success(indexes);
      if next.Failure? then next else UnindexDocument(next.value, key, document[1..])
  }

  /** `delete`: unlists each deleted key from every index. */
  function UnindexDocuments(indexes: Indexes, data: Documents, keys: seq<string>): Result<Indexes, string>
    decreases |keys|
  {
    if keys == [] then Success(indexes)
    else
      var document := Get(data, keys[0]);
      var next := UnindexDocument(indexes, keys[0], if document.Some? then document.value else []);
      if next.Failure? then next else UnindexDocuments(next.value, data, keys[1..])
  }

  lemma {:induction false} UnindexDocumentLists(indexes: Indexes, key: string, document: Fields)
    requires DistinctKeys(document)
    requires forall i, v | 0 <= i < |document| && document[i].key in indexes ::
      InIndex(indexes, document[i].key, v, key) <==> IsIndexable(v) && document[i].val == v
    ensures UnindexDocument(indexes, key, document).Success?
    ensures UnindexDocument(indexes, key, document).value.Keys == indexes.Keys
    ensures forall f, v, k :: InIndex(UnindexDocument(indexes, key, document).value, f, v, k) <==>
      InIndex(indexes, f, v, k) && !(k == key && Has(document, f))
    decreases |document|
  {
    if document != [] {
      var field := document[0].key;
      var rest := document[1..];
      var next := if IsIndexable(document[0].val) then RemovedFromIndex(indexes, field, document[0].val, key) else Success(indexes);
      if IsIndexable(document[0].val) && field in indexes {
        assert InIndex(indexes, field, document[0].val, key);
      }
      assert next.Success?;
      assert DistinctKeys(rest) by {
        forall i, j | 0 <= i < j < |rest| ensures rest[i].key != rest[j].key {
          assert rest[i] == document[i + 1] && rest[j] == document[j + 1];
        }
      }
      forall i, v | 0 <= i < |rest| && rest[i].key in next.value
        ensures InIndex(next.value, rest[i].key, v, key) <==> IsIndexable(v) && rest[i].val == v
      {
        assert rest[i] == document[i + 1];
        assert rest[i].key != field && rest[i].key in indexes;
        assert InIndex(next.value, rest[i].key, v, key) <==> InIndex(indexes, rest[i].key, v, key);
      }
      UnindexDocumentLists(next.value, key, rest);
      assert Keys(document) == [field] + Keys(rest);
      forall f, v, k
        ensures InIndex(UnindexDocument(indexes, key, document).value, f, v, k) <==>
          InIndex(indexes, f, v, k) && !(k == key && Has(document, f))
      {
        if k == key && f == field && f in indexes {
          assert InIndex(indexes, field, v, key) <==> IsIndexable(v) && document[0].val == v;
        }
      }
    }
  }

  lemma {:induction false} UnindexDocumentsLists(indexes: Indexes, data: Documents, keys: seq<string>)
    requires DistinctKeys(data) && DocumentsWf(data)
    requires forall f, v, k | f in indexes && k in keys ::
      InIndex(indexes, f, v, k) <==> IsIndexable(v) && FieldValue(data, k, f) == Some(v)
    requires forall i, j | 0 <= i < j < |keys| :: keys[i] != keys[j]
    ensures UnindexDocuments(indexes, data, keys).Success?
    ensures UnindexDocuments(indexes, data, keys).value.Keys == indexes.Keys
    ensures forall f, v, k :: InIndex(UnindexDocuments(indexes, data, keys).value, f, v, k) <==>
      InIndex(indexes, f, v, k) && k !in keys
    decreases |keys|
  {
    if keys != [] {
      var key := keys[0];
      var stored := Get(data, key);
      var document := if stored.Some? then stored.value else [];
      if stored.Some? {
        GetFound(data, key);
        var i :| 0 <= i < |data| && data[i] == Entry(key, stored.value);
      }
      forall i, v | 0 <= i < |document| && document[i].key in indexes
        ensures InIndex(indexes, document[i].key, v, key) <==> IsIndexable(v) && document[i].val == v
      {
        GetEntry(document, i);
      }
      UnindexDocumentLists(indexes, key, document);
      var next := UnindexDocument(indexes, key, document).value;
      forall f, v | f in indexes ensures !InIndex(next, f, v, key) {
        if !Has(document, f) {
          assert FieldValue(data, key, f) == None;
        }
      }
      forall f, v, k | f in next && k in keys[1..]
        ensures InIndex(next, f, v, k) <==> IsIndexable(v) && FieldValue(data, k, f) == Some(v)
      {
        assert k != key;
      }
      UnindexDocumentsLists(next, data, keys[1..]);
    }
  }

  /** `applyOperation` for a delete: drops each listed key. */
  function DeleteDocuments(data: Documents, keys: seq<string>): Documents
    decreases |keys|
  {
    if keys == [] then data else DeleteDocuments(Remove(data, keys[0]), keys[1..])
  }

  /** Deleting drops exactly the listed keys and leaves the other documents as they were. */
  lemma {:induction false} DeleteDocumentsGet(data: Documents, keys: seq<string>, k: string)
    requires DistinctKeys(data)
    ensures DistinctKeys(DeleteDocuments(data, keys))
    ensures Get(DeleteDocuments(data, keys), k) == if k in keys then None else Get(data, k)
    ensures forall e | e in DeleteDocuments(data, keys) :: e in data
    decreases |keys|
  {
    if keys != [] {
      RemoveEntries(data, keys[0]);
      DeleteDocumentsGet(Remove(data, keys[0]), keys[1..], k);
      GetRemove(data, keys[0], k);
    }
  }

  /** Deleting distinct stored keys removes one document per key. */
  lemma {:induction false} DeleteDocumentsCount(data: Documents, keys: seq<string>)
    requires DistinctKeys(data)
    requires forall i | 0 <= i < |keys| :: Has(data, keys[i])
    requires forall i, j | 0 <= i < j < |keys| :: keys[i] != keys[j]
    ensures |DeleteDocuments(data, keys)| == |data| - |keys|
    decreases |keys|
  {
    if keys != [] {
      var next := Remove(data, keys[0]);
      RemoveEntries(data, keys[0]);
      forall i | 0 <= i < |keys[1..]| ensures Has(next, keys[1..][i]) {
        assert keys[1..][i] == keys[i + 1];
        GetRemove(data, keys[0], keys[i + 1]);
      }
      DeleteDocumentsCount(next, keys[1..]);
    }
  }

  /** Unlisting the deleted keys keeps the indexes exact for the remaining data. */
  lemma DeleteKeepsExact(data: Documents, indexes: Indexes, keys: seq<string>)
    requires DistinctKeys(data) && DocumentsWf(data) && IndexExact(data, indexes)
    requires forall i, j | 0 <= i < j < |keys| :: keys[i] != keys[j]
    ensures UnindexDocuments(indexes, data, keys).Success?
    ensures IndexExact(DeleteDocuments(data, keys), UnindexDocuments(indexes, data, keys).value)
  {
    UnindexDocumentsLists(indexes, data, keys);
    var r := UnindexDocuments(indexes, data, keys).value;
    forall f, v, k | f in r
      ensures InIndex(r, f, v, k) <==> IsIndexable(v) && FieldValue(DeleteDocuments(data, keys), k, f) == Some(v)
    {
      DeleteDocumentsGet(data, keys, k);
    }
  }
}
