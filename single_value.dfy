/** The single-value store of src/single-value.ts: one JSON value, always
    written as a whole; it has no journal and no operations. */
module SingleValue {
  import opened Wrappers
  import opened Records
  import opened Serializable
  import opened Storage

  /** The operation type `null`: a single value has no journal operations. */
  datatype NoOperation = NoOperation

  /** `applyOperation`: not allowed. */
  function ApplyOperation(data: Value, operation: NoOperation): Result<Value, string> {
    Failure("Method not allowed")
  }

  /** `serializeOperation` throws too; without a journal it is never reached,
      so any value stands for it. */
  function SerializeOperation(operation: NoOperation): Value {
    Null
  }

  /** `deserializeOperation`: not allowed. */
  function DeserializeOperation(line: Value): Result<NoOperation, string> {
    Failure("Method not allowed")
  }

  /** The value `update` computes: `{ value: current }` merged with `{ value: update }`. */
  function Updated(current: Value, update: Value): Value {
    var doc := MergeFields([Entry("value", current)], [Entry("value", update)]);
    assert Keys([Entry("value", update)]) == ["value"];
    MergeKeys([Entry("value", current)], [Entry("value", update)]);
    assert Keys(doc)[0] == "value";
    Get(doc, "value").value
  }

  /** `update` deep-merges when the stored value and the update are both
      mappings, and otherwise replaces the stored value with the update. */
  lemma UpdatedMergesOrReplaces(current: Value, update: Value)
    ensures Updated(current, update) ==
      if current.Obj? && update.Obj? then Obj(MergeFields(current.fields, update.fields)) else update
  {
    MergeGet([Entry("value", current)], [Entry("value", update)], "value");
    assert Keys([Entry("value", update)]) == ["value"];
  }

  /** Whatever the files hold, loading succeeds: a leftover journal yields no
      operation, so the data file is taken as it is. */
  lemma RecoverNeverFails(disk: Disk<Value>, defaultValue: Value)
    ensures Recover(disk, defaultValue, DeserializeOperation, ApplyOperation).Success?
    ensures disk.data.Some? && disk.data.value.Readable? ==>
      Recover(disk, defaultValue, DeserializeOperation, ApplyOperation) == Success(disk.data.value.state)
  {
    if disk.data.Some? && disk.data.value.Readable? && JournalPresent(disk.journal) {
      assert LineOp(disk.journal.value[0], DeserializeOperation).None?;
    }
  }

  class SingleValue {
    const store: Store<Value, NoOperation>

    ghost predicate Valid()
      reads this, store, store.fs
    {
      && store.Valid()
      && !store.useJournal
      && store.apply == ApplyOperation
      && store.serialize == SerializeOperation
      && store.deserialize == DeserializeOperation
    }

    constructor (store: Store<Value, NoOperation>)
      requires store.Valid() && !store.useJournal
      requires store.apply == ApplyOperation && store.serialize == SerializeOperation
      requires store.deserialize == DeserializeOperation
      ensures Valid() && this.store == store
    {
      this.store := store;
    }

    /** `new SingleValue(options)`: the options have no journal setting, so
        journaling is off. */
    static method Open(disk: Disk<Value>, defaultValue: Value) returns (db: SingleValue)
      ensures fresh(db) && fresh(db.store) && fresh(db.store.fs)
      ensures db.Valid()
      ensures db.store.data == Recover(disk, defaultValue, DeserializeOperation, ApplyOperation).value
      ensures db.store.fs.disk == Settled(db.store.data)
    {
      var fs := new FileSystem(disk);
      var store := new Store(fs, DeepClone(defaultValue), Off, ApplyOperation, SerializeOperation, DeserializeOperation);
      RecoverNeverFails(disk, defaultValue);
      var _ := store.LoadFiles();
      db := new SingleValue(store);
    }

    /** `value`: a deep clone of the stored value. */
    function Value(): (value: Serializable.Value)
      reads this, store, store.fs
      requires Valid()
      ensures value == store.data
    {
      DeepClone(store.data)
    }

    /** `set`: the stored value becomes (a deep clone of) `value`. */
    method Set(value: Serializable.Value)
      requires Valid()
      modifies store, store.fs
      ensures Valid() && store.data == value && store.fs.disk == Settled(value)
      ensures store.CrashSafe(old(|store.fs.CrashPoints|), old(store.data), store.data)
    {
      store.Replace(DeepClone(value));
    }

    /** `update`: deep-merges into a stored mapping; replaces anything else. */
    method Update(update: Serializable.Value)
      requires Valid()
      modifies store, store.fs
      ensures Valid() && store.fs.disk == Settled(store.data)
      ensures store.data ==
        if old(store.data).Obj? && update.Obj? then Obj(MergeFields(old(store.data).fields, update.fields)) else update
      ensures store.CrashSafe(old(|store.fs.CrashPoints|), old(store.data), store.data)
    {
      var doc := [Entry("value", Value())];
      doc := Merge(doc, [Entry("value", update)]);
      UpdatedMergesOrReplaces(store.data, update);
      var value := Get(doc, "value").value;
      store.Replace(value);
    }
  }
}
