/** JSON-like values (the `Serializable` type of src/types.ts) and the value
    utilities of src/utils/serializable.ts: partial matching, deep cloning and
    deep merging. */
module Serializable {
  import opened Wrappers
  import opened Records

  /** A JSON value. JavaScript numbers are modelled as integers. */
  datatype Value =
    | Null
    | Bool(b: bool)
    | Num(n: int)
    | Str(s: string)
    | Arr(items: seq<Value>)
    | Obj(fields: seq<Entry<Value>>)

  /** The entries of a mapping (`SerializableObject`). */
  type Fields = seq<Entry<Value>>

  predicate IsPrimitive(v: Value) {
    !v.Arr? && !v.Obj?
  }

  /** `isSerializableObject`: an object that is neither null nor an array. */
  predicate IsSerializableObject(v: Value) {
    v.Obj?
  }

  /** Every value a JavaScript program can build: no mapping repeats a key. */
  predicate Wf(v: Value) {
    match v
    case Arr(items) => forall i | 0 <= i < |items| :: Wf(items[i])
    case Obj(fields) => DistinctKeys(fields) && forall i | 0 <= i < |fields| :: Wf(fields[i].val)
    case _ => true
  }

  /** `partialEqual(candidate, query)`: `candidate` contains the pattern `query`.
      Identical primitives match; sequences match pointwise and need equal
      lengths; a mapping matches when each key of the query is present and
      matches, whatever other keys it has; different kinds never match. */
  predicate PartialEqual(candidate: Value, query: Value)
    decreases query
  {
    match query
    case Arr(qs) =>
      && candidate.Arr?
      && |candidate.items| == |qs|
      && forall i | 0 <= i < |qs| :: PartialEqual(candidate.items[i], qs[i])
    case Obj(qfs) =>
      && candidate.Obj?
      && forall i | 0 <= i < |qfs| ::
           Get(candidate.fields, qfs[i].key).Some? &&
           PartialEqual(Get(candidate.fields, qfs[i].key).value, qfs[i].val)
    case _ => candidate == query
  }

  /** `deepClone`: a structural copy, which as a value is the original itself. */
  function DeepClone(v: Value): (r: Value)
    ensures r == v
    decreases v
  {
    match v
    case Arr(items) => Arr(CloneItems(v, items))
    case Obj(fields) => Obj(CloneFields(v, fields))
    case _ => v
  }

  /** `object.map(deepClone)` over the items of the array `parent`. */
  function CloneItems(ghost parent: Value, items: seq<Value>): (r: seq<Value>)
    requires forall i | 0 <= i < |items| :: items[i] < parent
    ensures r == items
    decreases parent, |items|
  {
    if items == [] then [] else [DeepClone(items[0])] + CloneItems(parent, items[1..])
  }

  /** `mapObject(object, deepClone)` over the fields of the object `parent`. */
  function CloneFields(ghost parent: Value, fields: seq<Entry<Value>>): (r: seq<Entry<Value>>)
    requires forall i | 0 <= i < |fields| :: fields[i].val < parent
    ensures r == fields
    decreases parent, |fields|
  {
    if fields == [] then []
    else [Entry(fields[0].key, DeepClone(fields[0].val))] + CloneFields(parent, fields[1..])
  }

  /** `mapObject`: a fresh object with the same keys, in the same order, each
      holding what the callback makes of the old value. */
  method MapObject(obj: Fields, callbackfn: (Value, string) -> Value) returns (newObject: Fields)
    requires DistinctKeys(obj)
    ensures Keys(newObject) == Keys(obj)
    ensures forall i :: 0 <= i < |obj| ==>
      newObject[i].val == callbackfn(obj[i].val, obj[i].key)
  {
    newObject := [];
    for i := 0 to |obj|
      invariant |newObject| == i
      invariant forall j :: 0 <= j < i ==>
        newObject[j] == Entry(obj[j].key, callbackfn(obj[j].val, obj[j].key))
    {
      var key := obj[i].key;
      newObject := Put(newObject, key, callbackfn(obj[i].val, key));
    }
  }

  /** The merge of `merge` recurses into a key exactly when both sides hold a mapping. */
  predicate BothMappings(objectKeyRef: Option<Value>, sourceKeyRef: Value) {
    objectKeyRef.Some? && IsSerializableObject(objectKeyRef.value) && IsSerializableObject(sourceKeyRef)
  }

  /** `merge(target, source)`: the mapping `target` becomes after the merge,
      taking the keys of `source` in order. */
  function MergeFields(target: Fields, source: Fields): Fields
    decreases source
  {
    if source == [] then target
    else
      var key := source[0].key;
      var objectKeyRef := Get(target, key);
      var sourceKeyRef := source[0].val;
      var value :=
        if BothMappings(objectKeyRef, sourceKeyRef)
        then Obj(MergeFields(objectKeyRef.value.fields, sourceKeyRef.fields))
        else DeepClone(sourceKeyRef);
      MergeFields(Put(target, key, value), source[1..])
  }

  /** `merge`, updating the target mapping one source key at a time; the
      update in place is returned as the new mapping. */
  method Merge(target: Fields, source: Fields) returns (merged: Fields)
    ensures merged == MergeFields(target, source)
    decreases source
  {
    merged := target;
    for i := 0 to |source|
      invariant MergeFields(merged, source[i..]) == MergeFields(target, source)
    {
      assert source[i..][1..] == source[i + 1..];
      var key := source[i].key;
      var objectKeyRef := Get(merged, key);
      var sourceKeyRef := source[i].val;
      if BothMappings(objectKeyRef, sourceKeyRef) {
        var inner := Merge(objectKeyRef.value.fields, sourceKeyRef.fields);
        merged := Put(merged, key, Obj(inner));
      } else {
        merged := Put(merged, key, DeepClone(sourceKeyRef));
      }
    }
    assert source[|source|..] == [];
  }

  // ---------------------------------------------------------------------------
  // Partial matching

  /** Every well-formed value matches itself. */
  lemma {:induction false} PartialEqualReflexive(v: Value)
    requires Wf(v)
    ensures PartialEqual(v, v)
    decreases v
  {
    match v
    case Arr(items) =>
      forall i | 0 <= i < |items| ensures PartialEqual(items[i], items[i]) {
        PartialEqualReflexive(items[i]);
      }
    case Obj(fields) =>
      forall i | 0 <= i < |fields|
        ensures Get(fields, fields[i].key) == Some(fields[i].val)
        ensures PartialEqual(fields[i].val, fields[i].val)
      {
        GetEntry(fields, i);
        PartialEqualReflexive(fields[i].val);
      }
    case _ =>
  }

  /** A value matches its deep clone. */
  lemma CloneMatches(v: Value)
    requires Wf(v)
    ensures PartialEqual(v, DeepClone(v))
  {
    PartialEqualReflexive(v);
  }

  /** The empty mapping query matches every mapping. */
  lemma EmptyQueryMatches(fields: Fields)
    ensures PartialEqual(Obj(fields), Obj([]))
  {
  }

  /** Identical primitives match and different primitives never do. */
  lemma PrimitivesMatchWhenEqual(candidate: Value, query: Value)
    requires IsPrimitive(candidate) && IsPrimitive(query)
    ensures PartialEqual(candidate, query) <==> candidate == query
  {
  }

  /** A sequence never matches a mapping or a primitive, and the other way round;
      a mapping never matches a primitive. */
  lemma KindsMustAgree(candidate: Value, query: Value)
    requires candidate.Arr? != query.Arr? || candidate.Obj? != query.Obj?
    ensures !PartialEqual(candidate, query)
  {
  }

  /** Two sequences match exactly when they have the same length and match elementwise. */
  lemma SequencesMatchPointwise(candidate: seq<Value>, query: seq<Value>)
    ensures PartialEqual(Arr(candidate), Arr(query)) <==>
      |candidate| == |query| && forall i | 0 <= i < |query| :: PartialEqual(candidate[i], query[i])
  {
  }

  /** Subset semantics: a mapping matches a query exactly when every key of
      the query is present in the mapping and its value matches there. */
  lemma MappingsMatchBySubset(candidate: Fields, query: Fields)
    requires DistinctKeys(query)
    ensures PartialEqual(Obj(candidate), Obj(query)) <==>
      forall k | Has(query, k) ::
        Get(candidate, k).Some? && PartialEqual(Get(candidate, k).value, Get(query, k).value)
  {
    forall i | 0 <= i < |query|
      ensures Has(query, query[i].key) && Get(query, query[i].key) == Some(query[i].val)
    {
      assert Keys(query)[i] == query[i].key;
      GetEntry(query, i);
    }
    forall k | Has(query, k) ensures exists i :: 0 <= i < |query| && query[i].key == k {
      var i :| 0 <= i < |Keys(query)| && Keys(query)[i] == k;
      assert query[i].key == k;
    }
  }

  /** Keys that only the value has are ignored: two mappings that agree on
      the query's keys match it alike. */
  lemma ExtraKeysIgnored(candidate: Fields, other: Fields, query: Fields)
    requires forall k | Has(query, k) :: Get(candidate, k) == Get(other, k)
    ensures PartialEqual(Obj(candidate), Obj(query)) == PartialEqual(Obj(other), Obj(query))
  {
    forall i | 0 <= i < |query| ensures Get(candidate, query[i].key) == Get(other, query[i].key) {
      assert Keys(query)[i] == query[i].key;
      assert Has(query, query[i].key);
    }
  }

  /** Matching is transitive: a value that matches a refined query also
      matches every query the refined one matches. */
  lemma {:induction false} PartialEqualTransitive(a: Value, b: Value, c: Value)
    requires PartialEqual(a, b) && PartialEqual(b, c)
    ensures PartialEqual(a, c)
    decreases c
  {
    match c
    case Arr(cs) =>
      forall i | 0 <= i < |cs| ensures PartialEqual(a.items[i], cs[i]) {
        PartialEqualTransitive(a.items[i], b.items[i], cs[i]);
      }
    case Obj(cfs) =>
      forall i | 0 <= i < |cfs|
        ensures Get(a.fields, cfs[i].key).Some?
        ensures PartialEqual(Get(a.fields, cfs[i].key).value, cfs[i].val)
      {
        var k := cfs[i].key;
        var bv := Get(b.fields, k).value;
        GetFound(b.fields, k);
        var j :| 0 <= j < |b.fields| && b.fields[j] == Entry(k, bv);
        PartialEqualTransitive(Get(a.fields, k).value, bv, cfs[i].val);
      }
    case _ =>
  }

  // ---------------------------------------------------------------------------
  // Merging

  /** What `merge` leaves under each key: a key absent from the source keeps
      the target's value; a key whose two sides are mappings holds their
      merge; any other source key holds the source's value. */
  lemma {:induction false} MergeGet(target: Fields, source: Fields, k: string)
    requires DistinctKeys(source)
    ensures !Has(source, k) ==> Get(MergeFields(target, source), k) == Get(target, k)
    ensures Has(source, k) && BothMappings(Get(target, k), Get(source, k).value) ==>
      Get(MergeFields(target, source), k) ==
        Some(Obj(MergeFields(Get(target, k).value.fields, Get(source, k).value.fields)))
    ensures Has(source, k) && !BothMappings(Get(target, k), Get(source, k).value) ==>
      Get(MergeFields(target, source), k) == Get(source, k)
    decreases source
  {
    if source != [] {
      var key := source[0].key;
      var objectKeyRef := Get(target, key);
      var sourceKeyRef := source[0].val;
      var value :=
        if BothMappings(objectKeyRef, sourceKeyRef)
        then Obj(MergeFields(objectKeyRef.value.fields, sourceKeyRef.fields))
        else DeepClone(sourceKeyRef);
      var rest := source[1..];
      assert Keys(source) == [key] + Keys(rest);
      MergeGet(Put(target, key, value), rest, k);
      GetPut(target, key, value, k);
    }
  }

  /** `merge` replaces a sequence-valued key wholesale with the source's sequence. */
  lemma SequencesReplacedWholesale(target: Fields, source: Fields, k: string, items: seq<Value>)
    requires DistinctKeys(source)
    requires Get(source, k) == Some(Arr(items))
    ensures Get(MergeFields(target, source), k) == Some(Arr(items))
  {
    MergeGet(target, source, k);
  }

  /** `merge` keeps the target's keys in their order, appending the new
      source keys. */
  lemma {:induction false} MergeKeys(target: Fields, source: Fields)
    ensures |Keys(target)| <= |Keys(MergeFields(target, source))|
    ensures Keys(MergeFields(target, source))[..|target|] == Keys(target)
    decreases source
  {
    if source != [] {
      var key := source[0].key;
      var objectKeyRef := Get(target, key);
      var sourceKeyRef := source[0].val;
      var value :=
        if BothMappings(objectKeyRef, sourceKeyRef)
        then Obj(MergeFields(objectKeyRef.value.fields, sourceKeyRef.fields))
        else DeepClone(sourceKeyRef);
      var next := Put(target, key, value);
      PutKeys(target, key, value);
      MergeKeys(next, source[1..]);
      var merged := MergeFields(next, source[1..]);
      assert MergeFields(target, source) == merged;
      assert Keys(merged)[..|target|] == Keys(merged)[..|next|][..|target|];
    }
  }

  /** After `merge`, no key is there that neither mapping had. */
  lemma {:induction false} MergeHasOnly(target: Fields, source: Fields)
    ensures forall k :: Has(MergeFields(target, source), k) ==> Has(target, k) || Has(source, k)
    decreases source
  {
    if source != [] {
      var key := source[0].key;
      var objectKeyRef := Get(target, key);
      var sourceKeyRef := source[0].val;
      var value :=
        if BothMappings(objectKeyRef, sourceKeyRef)
        then Obj(MergeFields(objectKeyRef.value.fields, sourceKeyRef.fields))
        else DeepClone(sourceKeyRef);
      var next := Put(target, key, value);
      PutKeys(target, key, value);
      MergeHasOnly(next, source[1..]);
      assert Keys(source) == [key] + Keys(source[1..]);
      forall k | Has(next, k) ensures Has(target, k) || Has(source, k) {
        if k != key { assert k in Keys(target); }
      }
    }
  }

  /** Merging into a mapping never duplicates one of its keys. */
  lemma {:induction false} MergeKeepsDistinct(target: Fields, source: Fields)
    requires DistinctKeys(target)
    ensures DistinctKeys(MergeFields(target, source))
    decreases source
  {
    if source != [] {
      var key := source[0].key;
      var objectKeyRef := Get(target, key);
      var sourceKeyRef := source[0].val;
      var value :=
        if BothMappings(objectKeyRef, sourceKeyRef)
        then Obj(MergeFields(objectKeyRef.value.fields, sourceKeyRef.fields))
        else DeepClone(sourceKeyRef);
      PutEntries(target, key, value);
      MergeKeepsDistinct(Put(target, key, value), source[1..]);
    }
  }

  /** Merging two well-formed mappings gives a well-formed mapping. */
  lemma {:induction false} MergeWf(target: Fields, source: Fields)
    requires Wf(Obj(target)) && Wf(Obj(source))
    ensures Wf(Obj(MergeFields(target, source)))
    decreases source
  {
    if source != [] {
      var key := source[0].key;
      var objectKeyRef := Get(target, key);
      var sourceKeyRef := source[0].val;
      if BothMappings(objectKeyRef, sourceKeyRef) {
        GetFound(target, key);
        MergeWf(objectKeyRef.value.fields, sourceKeyRef.fields);
      }
      var value :=
        if BothMappings(objectKeyRef, sourceKeyRef)
        then Obj(MergeFields(objectKeyRef.value.fields, sourceKeyRef.fields))
        else DeepClone(sourceKeyRef);
      var next := Put(target, key, value);
      PutEntries(target, key, value);
      forall i | 0 <= i < |next| ensures Wf(next[i].val) {
        assert next[i] in next;
      }
      assert Wf(Obj(source[1..])) by {
        forall i | 0 <= i < |source[1..]| ensures Wf(source[1..][i].val) {
          assert source[1..][i] == source[i + 1];
        }
      }
      MergeWf(next, source[1..]);
    }
  }
}
