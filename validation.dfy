/** The shape checks of src/utils/validation.ts, used to validate journal
    operations. `hasKey` is `key in obj`; every key it is asked about ('type',
    'key', 'keys', 'data') is one no plain object inherits, so the own keys of
    the mapping decide it. */
module Validation {
  import opened Wrappers
  import opened Records
  import opened Serializable

  /** `hasKey`: `key in obj`. */
  predicate HasKey(obj: Fields, key: string) {
    Has(obj, key)
  }

  /** `hasStringAtKey`: the key is present and holds a string. */
  predicate HasStringAtKey(obj: Fields, key: string) {
    HasKey(obj, key) && Get(obj, key).value.Str?
  }

  /** `hasAnyOfAtKey`: the key is present and holds one of `values`. */
  predicate HasAnyOfAtKey(obj: Fields, key: string, values: seq<Value>) {
    HasKey(obj, key) && Get(obj, key).value in values
  }

  /** `hasKey` is true exactly when some entry has the key. */
  lemma HasKeyExactly(obj: Fields, key: string)
    ensures HasKey(obj, key) <==> exists i :: 0 <= i < |obj| && obj[i].key == key
  {
    if HasKey(obj, key) {
      var i :| 0 <= i < |Keys(obj)| && Keys(obj)[i] == key;
      assert obj[i].key == key;
    }
    if exists i :: 0 <= i < |obj| && obj[i].key == key {
      var i :| 0 <= i < |obj| && obj[i].key == key;
      assert Keys(obj)[i] == key;
    }
  }

  /** `hasStringAtKey` is true exactly when the key's entry holds a string,
      and so it implies `hasKey`. */
  lemma HasStringAtKeyExactly(obj: Fields, key: string)
    requires DistinctKeys(obj)
    ensures HasStringAtKey(obj, key) <==> exists i :: 0 <= i < |obj| && obj[i].key == key && obj[i].val.Str?
    ensures HasStringAtKey(obj, key) ==> HasKey(obj, key)
  {
    HasKeyExactly(obj, key);
    if exists i :: 0 <= i < |obj| && obj[i].key == key {
      var i :| 0 <= i < |obj| && obj[i].key == key;
      GetEntry(obj, i);
    }
  }

  /** `hasAnyOfAtKey` is true exactly when the key's entry holds one of the
      values, and so it implies `hasKey`; with no values it is false. */
  lemma HasAnyOfAtKeyExactly(obj: Fields, key: string, values: seq<Value>)
    requires DistinctKeys(obj)
    ensures HasAnyOfAtKey(obj, key, values) <==> exists i :: 0 <= i < |obj| && obj[i].key == key && obj[i].val in values
    ensures HasAnyOfAtKey(obj, key, values) ==> HasKey(obj, key)
    ensures values == [] ==> !HasAnyOfAtKey(obj, key, values)
  {
    HasKeyExactly(obj, key);
    if exists i :: 0 <= i < |obj| && obj[i].key == key {
      var i :| 0 <= i < |obj| && obj[i].key == key;
      GetEntry(obj, i);
    }
  }
}
