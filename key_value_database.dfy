/** The key-value store of src/key-value-database.ts: a string-keyed map of
    JSON values on top of a `Store`, with an optional cap on the number of
    items. */
module KeyValueDatabase {
  import opened Wrappers
  import opened Records
  import opened Serializable
  import opened Validation
  import opened Storage

  /** The journal operations. */
  datatype Operation =
    | Create(key: string, data: Value)
    | Update(key: string, data: Value)
    | Delete(key: string)

  /** `applyOperation`: create stores a deep clone under the key; update
      merges into an existing key and throws for a missing one; delete drops
      the key, if present. */
  function ApplyOperation(data: Fields, operation: Operation): Result<Fields, string> {
    match operation
    case Create(key, value) => Success(Put(data, key, DeepClone(value)))
    case Update(key, value) =>
      if !Has(data, key) then Failure("Cannot update missing value")
      else Success(MergeFields(data, [Entry(key, value)]))
    case Delete(key) => Success(Remove(data, key))
  }

  /** `serializeOperation`: the operation as the JSON object the database
      builds, with keys `type`, `key` and `data` in that order. */
  function SerializeOperation(operation: Operation): Value {
    match operation
    case Create(key, value) => Obj([Entry("type", Str("create")), Entry("key", Str(key)), Entry("data", value)])
    case Update(key, value) => Obj([Entry("type", Str("update")), Entry("key", Str(key)), Entry("data", value)])
    case Delete(key) => Obj([Entry("type", Str("delete")), Entry("key", Str(key))])
  }

  /** `deserializeOperation` after `JSON.parse`. A JSON array is an object
      whose own keys are indices and `length`, so it fails the `type` check. */
  function DeserializeOperation(operation: Value): Result<Operation, string> {
    if !(operation.Arr? || operation.Obj?) then Failure("Failed to deserialize operation")
    else
      var fields := if operation.Obj? then operation.fields else [];
      if !HasAnyOfAtKey(fields, "type", [Str("create"), Str("update"), Str("delete")]) then
        Failure("Unknown operation type")
      else if !HasStringAtKey(fields, "key") then Failure("Missing key in operation")
      else
        var kind := Get(fields, "type").value.s;
        var key := Get(fields, "key").value.s;
        if kind == "delete" then Success(Operation.Delete(key))
        else if !HasKey(fields, "data") then Failure("Missing data in operation")
        else if kind == "create" then Success(Operation.Create(key, Get(fields, "data").value))
        else Success(Operation.Update(key, Get(fields, "data").value))
  }

  /** Every readable snapshot on the disk is a JSON object, so its keys are distinct. */
  predicate SnapshotsWf(disk: Disk<Fields>) {
    && (disk.data.Some? && disk.data.value.Readable? ==> DistinctKeys(disk.data.value.state))
    && (disk.update.Some? && disk.update.value.Readable? ==> DistinctKeys(disk.update.value.state))
  }

  // ---------------------------------------------------------------------------
  // Properties of the operations

  /** A create sets its key to the value and leaves every other key alone. */
  lemma ApplyCreate(data: Fields, key: string, value: Value, k: string)
    ensures ApplyOperation(data, Operation.Create(key, value)).Success?
    ensures Get(ApplyOperation(data, Operation.Create(key, value)).value, k) ==
      if k == key then Some(value) else Get(data, k)
  {
    GetPut(data, key, value, k);
  }

  /** An update of a missing key fails; otherwise it deep-merges into a
      mapping value, replaces any other value, keeps the keys as they are and
      leaves every other key alone. */
  lemma ApplyUpdate(data: Fields, key: string, value: Value, k: string)
    ensures !Has(data, key) <==> ApplyOperation(data, Operation.Update(key, value)) == Failure("Cannot update missing value")
    ensures Has(data, key) ==>
      var after := ApplyOperation(data, Operation.Update(key, value)).value;
      && Keys(after) == Keys(data)
      && Get(after, k) ==
           if k != key then Get(data, k)
           else if Get(data, key).value.Obj? && value.Obj? then Some(Obj(MergeFields(Get(data, key).value.fields, value.fields)))
           else Some(value)
  {
    if Has(data, key) {
      MergeGet(data, [Entry(key, value)], k);
      assert Keys([Entry(key, value)]) == [key];
      var cur := Get(data, key);
      var v := if BothMappings(cur, value) then Obj(MergeFields(cur.value.fields, value.fields)) else DeepClone(value);
      assert MergeFields(data, [Entry(key, value)]) == MergeFields(Put(data, key, v), []);
      PutKeys(data, key, v);
    }
  }

  /** A delete removes its key and leaves every other key alone; deleting a
      missing key changes nothing. */
  lemma ApplyDelete(data: Fields, key: string, k: string)
    requires DistinctKeys(data)
    ensures ApplyOperation(data, Operation.Delete(key)).Success?
    ensures Get(ApplyOperation(data, Operation.Delete(key)).value, k) == if k == key then None else Get(data, k)
    ensures !Has(data, key) ==> ApplyOperation(data, Operation.Delete(key)).value == data
  {
    GetRemove(data, key, k);
  }

  /** No operation duplicates a key. */
  lemma ApplyKeepsDistinct(data: Fields, operation: Operation)
    requires DistinctKeys(data)
    requires ApplyOperation(data, operation).Success?
    ensures DistinctKeys(ApplyOperation(data, operation).value)
  {
    match operation
    case Create(key, value) => PutEntries(data, key, DeepClone(value));
    case Update(key, value) => MergeKeepsDistinct(data, [Entry(key, value)]);
    case Delete(key) => RemoveEntries(data, key);
  }

  /** Replaying a journal never duplicates a key. */
  lemma {:induction false} ApplyAllKeepsDistinct(data: Fields, patch: seq<Operation>)
    requires DistinctKeys(data)
    requires ApplyAll(data, patch, ApplyOperation).Success?
    ensures DistinctKeys(ApplyAll(data, patch, ApplyOperation).value)
    decreases |patch|
  {
    if patch != [] {
      ApplyKeepsDistinct(data, patch[0]);
      ApplyAllKeepsDistinct(ApplyOperation(data, patch[0]).value, patch[1..]);
    }
  }

  /** Every operation reads back from the journal line it is written as. */
  lemma SerializeRoundTrip(operation: Operation)
    ensures DeserializeOperation(SerializeOperation(operation)) == Success(operation)
  {
    var fields := SerializeOperation(operation).fields;
    assert DistinctKeys(fields);
    GetEntry(fields, 0);
    GetEntry(fields, 1);
    assert Keys(fields)[0] == "type" && Keys(fields)[1] == "key";
    if !operation.Delete? {
      GetEntry(fields, 2);
      assert Keys(fields)[2] == "data";
    }
  }

  /** What `deserializeOperation` rejects, and with which error: anything but
      an object; an unknown `type`; a missing or non-string `key`; a create or
      update without `data`. A delete needs no `data`. */
  lemma DeserializeRejects(operation: Value)
    ensures !(operation.Arr? || operation.Obj?) ==>
      DeserializeOperation(operation) == Failure("Failed to deserialize operation")
    ensures operation.Arr? ==> DeserializeOperation(operation) == Failure("Unknown operation type")
    ensures operation.Obj? && Get(operation.fields, "type") !in {Some(Str("create")), Some(Str("update")), Some(Str("delete"))} ==>
      DeserializeOperation(operation) == Failure("Unknown operation type")
    ensures operation.Obj? && Get(operation.fields, "type") in {Some(Str("create")), Some(Str("update")), Some(Str("delete"))}
            && !(Get(operation.fields, "key").Some? && Get(operation.fields, "key").value.Str?) ==>
      DeserializeOperation(operation) == Failure("Missing key in operation")
    ensures operation.Obj? && Get(operation.fields, "type") in {Some(Str("create")), Some(Str("update"))}
            && Get(operation.fields, "key").Some? && Get(operation.fields, "key").value.Str?
            && Get(operation.fields, "data").None? ==>
      DeserializeOperation(operation) == Failure("Missing data in operation")
    ensures operation.Obj? && Get(operation.fields, "type") == Some(Str("delete"))
            && Get(operation.fields, "key").Some? && Get(operation.fields, "key").value.Str? ==>
      DeserializeOperation(operation) == Success(Operation.Delete(Get(operation.fields, "key").value.s))
  {
  }

  /** A successfully deserialized operation carries the object's `key` and,
      for create and update, its `data`. */
  lemma DeserializeAccepts(operation: Value)
    requires DeserializeOperation(operation).Success?
    ensures operation.Obj?
    ensures Get(operation.fields, "key") == Some(Str(DeserializeOperation(operation).value.key))
    ensures !DeserializeOperation(operation).value.Delete? ==>
      Get(operation.fields, "data") == Some(DeserializeOperation(operation).value.data)
  {
  }

  /** Recovery yields a map without duplicate keys. */
  lemma RecoverKeepsDistinct(disk: Disk<Fields>)
    requires SnapshotsWf(disk)
    requires Recover(disk, [], DeserializeOperation, ApplyOperation).Success?
    ensures DistinctKeys(Recover(disk, [], DeserializeOperation, ApplyOperation).value)
  {
    if disk.data.Some? && disk.data.value.Readable? && JournalPresent(disk.journal) {
      ApplyAllKeepsDistinct(disk.data.value.state, ParseJournal(disk.journal.value, DeserializeOperation));
    }
  }

  // ---------------------------------------------------------------------------
  // `key in this.data` as written
  //
  // `has`, `set`, `delete` and the update case of `applyOperation` test
  // `key in this.data`, which also holds for the method names a plain object
  // inherits (`Records.Inherited`). The model's operations test own keys
  // instead; the members below model the test as written and show where the
  // two part ways.

  /** `has` as written: own keys and inherited names. */
  predicate HasAsWritten(data: Fields, key: string) {
    InWithPrototype(data, key)
  }

  /** As written, `has` reports an inherited name as stored, though the store
      holds no entry for it. */
  lemma HasInheritedAsWritten(data: Fields, key: string)
    requires key in Inherited && !Has(data, key)
    ensures HasAsWritten(data, key) && Records.Get(data, key).None?
  {
  }

  /** The cap check and the counting of `set` as written: the new item count,
      or the cap's error. */
  function SetCountAsWritten(data: Fields, count: int, maxItems: Option<nat>, key: string): Result<int, string> {
    if InWithPrototype(data, key) then Success(count)
    else if maxItems.Some? && count >= maxItems.value then Failure("Maximum number of items exceeded")
    else Success(count + 1)
  }

  /** The counting of `delete` as written: the new item count. */
  function DeleteCountAsWritten(data: Fields, count: int, key: string): int {
    if InWithPrototype(data, key) then count - 1 else count
  }

  /** Starting from a count equal to the number of keys, `set` as written
      keeps the count equal to the number of keys exactly when the key is not
      an inherited name missing from the store; for such a name it also skips
      the cap. */
  lemma SetCountDriftsAsWritten(data: Fields, maxItems: Option<nat>, key: string, value: Value)
    ensures SetCountAsWritten(data, |data|, maxItems, key).Success? ==>
      (SetCountAsWritten(data, |data|, maxItems, key).value == |Put(data, key, value)| <==> !(key in Inherited && !Has(data, key)))
    ensures key in Inherited && !Has(data, key) ==> SetCountAsWritten(data, |data|, maxItems, key).Success?
  {
  }

  /** Starting from a count equal to the number of keys, `delete` as written
      keeps it equal exactly when the key is not an inherited name missing
      from the store; for such a name the count drops below the number of keys. */
  lemma DeleteCountDriftsAsWritten(data: Fields, key: string)
    ensures DeleteCountAsWritten(data, |data|, key) == |Remove(data, key)| <==> !(key in Inherited && !Has(data, key))
    ensures key in Inherited && !Has(data, key) ==> DeleteCountAsWritten(data, |data|, key) < |Remove(data, key)|
  {
  }

  /** The update case of `applyOperation` as written. */
  function ApplyUpdateAsWritten(data: Fields, key: string, value: Value): Result<Fields, string> {
    if !InWithPrototype(data, key) then Failure("Cannot update missing value")
    else Success(MergeFields(data, [Entry(key, value)]))
  }

  /** As written, an update of an inherited name the store does not hold
      stores the value as a new key, where the model's `ApplyOperation`
      refuses it as missing. */
  lemma UpdateInheritedAsWritten(data: Fields, key: string, value: Value)
    requires key in Inherited && !Has(data, key)
    ensures ApplyUpdateAsWritten(data, key, value) == Success(data + [Entry(key, DeepClone(value))])
    ensures ApplyOperation(data, Operation.Update(key, value)) == Failure("Cannot update missing value")
  {
    assert !BothMappings(Records.Get(data, key), value);
    assert MergeFields(data, [Entry(key, value)]) == MergeFields(Put(data, key, DeepClone(value)), []);
  }

  // ---------------------------------------------------------------------------
  // The database

  class KeyValueDatabase {
    const store: Store<Fields, Operation>
    var itemCount: nat
    const maxItems: Option<nat>

    ghost predicate Valid()
      reads this, store, store.fs
    {
      && store.Valid()
      && store.apply == ApplyOperation
      && store.serialize == SerializeOperation
      && store.deserialize == DeserializeOperation
      && store.defaultValue == []
      && DistinctKeys(store.data)
      && itemCount == |store.data|
    }

    /** The constructor, after the store has loaded its files: `itemCount`
        starts as the number of keys. */
    constructor (store: Store<Fields, Operation>, maxItems: Option<nat>)
      requires store.Valid() && DistinctKeys(store.data)
      requires store.apply == ApplyOperation && store.serialize == SerializeOperation
      requires store.deserialize == DeserializeOperation && store.defaultValue == []
      ensures Valid() && this.store == store && this.maxItems == maxItems
      ensures itemCount == |Keys(store.data)|
    {
      this.store := store;
      this.maxItems := maxItems;
      itemCount := |Keys(store.data)|;
    }

    /** `new KeyValueDatabase(options)`: an empty map by default, journaling
        on unless the options say otherwise. Fails when replaying the journal
        throws. */
    static method Open(disk: Disk<Fields>, journal: Option<JournalSetting>, maxItems: Option<nat>)
      returns (result: Result<KeyValueDatabase, string>)
      requires SnapshotsWf(disk)
      ensures result.Failure? <==> Recover(disk, [], DeserializeOperation, ApplyOperation).Failure?
      ensures result.Success? ==>
        && fresh(result.value) && fresh(result.value.store) && fresh(result.value.store.fs)
        && result.value.Valid()
        && result.value.store.data == Recover(disk, [], DeserializeOperation, ApplyOperation).value
        && result.value.store.fs.disk == Settled(result.value.store.data)
        && result.value.store.useJournal == (journal != Some(Off))
    {
      var fs := new FileSystem(disk);
      forall operation: Operation ensures DeserializeOperation(SerializeOperation(operation)) == Success(operation) {
        SerializeRoundTrip(operation);
      }
      var store := new Store(fs, [], if journal.Some? then journal.value else On,
                             ApplyOperation, SerializeOperation, DeserializeOperation);
      var outcome := store.LoadFiles();
      if outcome.Fail? {
        return Failure(outcome.error);
      }
      RecoverKeepsDistinct(disk);
      var db := new KeyValueDatabase(store, maxItems);
      return Success(db);
    }

    /** `size`: the number of stored keys. */
    function Size(): (n: nat)
      reads this, store, store.fs
      requires Valid()
      ensures n == |Keys(store.data)|
    {
      itemCount
    }

    /** `keys`: the stored keys, in order. */
    function KeyList(): (keys: seq<string>)
      reads this, store, store.fs
      requires Valid()
      ensures |keys| == Size()
      ensures forall i :: 0 <= i < |keys| ==> keys[i] == store.data[i].key
    {
      Keys(store.data)
    }

    /** `values`: deep clones of the stored values, in key order. */
    function Values(): (values: seq<Value>)
      reads this, store, store.fs
      requires Valid()
      ensures |values| == Size()
      ensures forall i :: 0 <= i < |values| ==> values[i] == store.data[i].val
    {
      seq(|store.data|, i requires 0 <= i < |store.data| reads store => DeepClone(store.data[i].val))
    }

    /** `has`: whether some stored entry has the key. */
    function Has(key: string): (b: bool)
      reads this, store, store.fs
      requires Valid()
      ensures b <==> exists i :: 0 <= i < |store.data| && store.data[i].key == key
    {
      HasKeyExactly(store.data, key);
      HasKey(store.data, key)
    }

    /** `get`: a deep clone of the value stored under the key, None when there is none. */
    function Get(key: string): (value: Option<Value>)
      reads this, store, store.fs
      requires Valid()
      ensures value.Some? <==> Has(key)
      ensures forall i :: 0 <= i < |store.data| && store.data[i].key == key ==> value == Some(store.data[i].val)
    {
      HasKeyExactly(store.data, key);
      forall i | 0 <= i < |store.data| && store.data[i].key == key
        ensures Records.Get(store.data, key) == Some(store.data[i].val)
      {
        GetEntry(store.data, i);
      }
      var stored := Records.Get(store.data, key);
      if stored.Some? then Some(DeepClone(stored.value)) else None
    }

    /** `set`: a new key is refused once `maxItems` keys are stored; otherwise
        the key is created or overwritten through a create operation, and only
        a new key counts as one more item. */
    method Set(key: string, value: Value) returns (outcome: Outcome<string>)
      requires Valid()
      modifies this, store, store.fs
      ensures Valid()
      ensures old(!Records.Has(store.data, key)) && maxItems.Some? && old(itemCount) >= maxItems.value ==>
        && outcome == Fail("Maximum number of items exceeded")
        && store.data == old(store.data) && itemCount == old(itemCount) && store.fs.disk == old(store.fs.disk)
      ensures !(old(!Records.Has(store.data, key)) && maxItems.Some? && old(itemCount) >= maxItems.value) ==>
        && outcome == Pass
        && store.data == Put(old(store.data), key, value)
        && itemCount == if old(Records.Has(store.data, key)) then old(itemCount) else old(itemCount) + 1
      ensures store.CrashSafe(old(|store.fs.CrashPoints|), old(store.data), store.data)
    {
      if !HasKey(store.data, key) {
        if maxItems.Some? && itemCount >= maxItems.value {
          return Fail("Maximum number of items exceeded");
        }
        itemCount := itemCount + 1;
      }
      ApplyKeepsDistinct(store.data, Operation.Create(key, value));
      outcome := store.CommitOperation(Operation.Create(key, value));
    }

    /** `update`: deep-merges into the value under an existing key (replacing
        a value that is not a mapping); a missing key fails and changes nothing. */
    method Update(key: string, update: Value) returns (outcome: Outcome<string>)
      requires Valid()
      modifies this, store, store.fs
      ensures Valid() && itemCount == old(itemCount)
      ensures old(!Records.Has(store.data, key)) ==>
        outcome == Fail("Cannot update missing value") && store.data == old(store.data) && store.fs.disk == old(store.fs.disk)
      ensures old(Records.Has(store.data, key)) ==>
        outcome == Pass && store.data == MergeFields(old(store.data), [Entry(key, update)])
      ensures store.CrashSafe(old(|store.fs.CrashPoints|), old(store.data), store.data)
    {
      if HasKey(store.data, key) {
        ApplyKeepsDistinct(store.data, Operation.Update(key, update));
        ApplyUpdate(store.data, key, update, key);
      }
      outcome := store.CommitOperation(Operation.Update(key, update));
    }

    /** `delete`: drops the key; only a key that was there counts as one item less. */
    method Delete(key: string)
      requires Valid()
      modifies this, store, store.fs
      ensures Valid()
      ensures store.data == Remove(old(store.data), key)
      ensures itemCount == if old(Records.Has(store.data, key)) then old(itemCount) - 1 else old(itemCount)
      ensures store.CrashSafe(old(|store.fs.CrashPoints|), old(store.data), store.data)
    {
      if HasKey(store.data, key) {
        itemCount := itemCount - 1;
      }
      ApplyKeepsDistinct(store.data, Operation.Delete(key));
      var _ := store.CommitOperation(Operation.Delete(key));
    }

    /** `clear`: no keys, and a count of zero. */
    method Clear()
      requires Valid()
      modifies this, store, store.fs
      ensures Valid() && store.data == [] && itemCount == 0
      ensures store.fs.disk == Settled([])
      ensures store.CrashSafe(old(|store.fs.CrashPoints|), old(store.data), store.data)
    {
      store.Clear();
      itemCount := 0;
    }
  }
}
