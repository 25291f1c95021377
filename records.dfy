/** Plain JavaScript objects used as string-keyed records (`{ [x: string]: T }`,
    `Record<string, T>`), modelled as the sequence of their own entries, newest
    key last. Own keys are unique. JavaScript lists integer-like keys first, in
    numeric order, and the others in insertion order; the model keeps every key
    in insertion order. Besides its own keys, every plain object inherits the
    methods of `Object.prototype`, which `key in object` also sees. */
module Records {
  import opened Wrappers

  datatype Entry<+V> = Entry(key: string, val: V)

  /** `Object.keys(object)`, in iteration order. */
  function Keys<V>(r: seq<Entry<V>>): seq<string> {
    seq(|r|, i requires 0 <= i < |r| => r[i].key)
  }

  /** What every JavaScript object satisfies: no key occurs twice. */
  predicate DistinctKeys<V>(r: seq<Entry<V>>) {
    forall i, j :: 0 <= i < j < |r| ==> r[i].key != r[j].key
  }

  /** `Object.hasOwn(object, key)`: the object itself holds the key. This is
      the test the model's operations use; `InWithPrototype` is JavaScript's
      `key in object`. */
  predicate Has<V>(r: seq<Entry<V>>, key: string) {
    key in Keys(r)
  }

  /** The names of the methods every plain object inherits from
      `Object.prototype`. (`__proto__` is not among them: assigning to it
      replaces the prototype and is not modelled.) */
  const Inherited: set<string> :=
    {"constructor", "hasOwnProperty", "isPrototypeOf", "propertyIsEnumerable",
     "toLocaleString", "toString", "valueOf",
     "__defineGetter__", "__defineSetter__", "__lookupGetter__", "__lookupSetter__"}

  /** `key in object` as JavaScript evaluates it on a plain object: an own key
      or an inherited method name. */
  predicate InWithPrototype<V>(r: seq<Entry<V>>, key: string) {
    Has(r, key) || key in Inherited
  }

  /** `object[key]`: the value of the entry with that key, or undefined. */
  function Get<V>(r: seq<Entry<V>>, key: string): (v: Option<V>)
    ensures v.Some? <==> Has(r, key)
  {
    if r == [] then None
    else
      assert Keys(r) == [r[0].key] + Keys(r[1..]);
      if r[0].key == key then Some(r[0].val) else Get(r[1..], key)
  }

  /** `object[key] = value`: an existing key keeps its place, a new key goes last. */
  function Put<V>(r: seq<Entry<V>>, key: string, value: V): (r': seq<Entry<V>>)
    ensures Has(r, key) ==> |r'| == |r|
    ensures !Has(r, key) ==> r' == r + [Entry(key, value)]
  {
    if r == [] then [Entry(key, value)]
    else
      assert Keys(r) == [r[0].key] + Keys(r[1..]);
      if r[0].key == key then [Entry(key, value)] + r[1..]
      else [r[0]] + Put(r[1..], key, value)
  }

  /** `delete object[key]`: drops the entry and keeps the order of the others. */
  function Remove<V>(r: seq<Entry<V>>, key: string): (r': seq<Entry<V>>)
    ensures !Has(r, key) ==> r' == r
    ensures Has(r, key) ==> |r'| == |r| - 1
  {
    if r == [] then []
    else
      assert Keys(r) == [r[0].key] + Keys(r[1..]);
      if r[0].key == key then r[1..] else [r[0]] + Remove(r[1..], key)
  }

  /** With distinct keys, looking up an entry's own key finds that entry. */
  lemma {:induction false} GetEntry<V>(r: seq<Entry<V>>, i: int)
    requires DistinctKeys(r) && 0 <= i < |r|
    ensures Get(r, r[i].key) == Some(r[i].val)
  {
    if i > 0 {
      GetEntry(r[1..], i - 1);
    }
  }

  /** A value found under a key is the value of an entry with that key. */
  lemma {:induction false} GetFound<V>(r: seq<Entry<V>>, key: string)
    requires Get(r, key).Some?
    ensures Entry(key, Get(r, key).value) in r
  {
    if r[0].key != key {
      GetFound(r[1..], key);
    }
  }

  /** Assigning a key changes what that key reads and nothing else. */
  lemma {:induction false} GetPut<V>(r: seq<Entry<V>>, key: string, value: V, k: string)
    ensures Get(Put(r, key, value), k) == if k == key then Some(value) else Get(r, k)
  {
    if r != [] && r[0].key != key {
      GetPut(r[1..], key, value, k);
    }
  }

  /** Deleting a key makes it unreadable and leaves the other keys as they were. */
  lemma {:induction false} GetRemove<V>(r: seq<Entry<V>>, key: string, k: string)
    requires DistinctKeys(r)
    ensures Get(Remove(r, key), k) == if k == key then None else Get(r, k)
  {
    if r != [] {
      if r[0].key == key {
        if k == key {
          assert Keys(r[1..]) == Keys(r)[1..];
        }
      } else {
        GetRemove(r[1..], key, k);
      }
    }
  }

  /** Assigning keeps every old key in place and appends a new one. */
  lemma {:induction false} PutKeys<V>(r: seq<Entry<V>>, key: string, value: V)
    ensures Keys(Put(r, key, value)) == if Has(r, key) then Keys(r) else Keys(r) + [key]
  {
    if r != [] {
      assert Keys(r) == [r[0].key] + Keys(r[1..]);
      if r[0].key != key {
        PutKeys(r[1..], key, value);
        var tail := Put(r[1..], key, value);
        assert Keys([r[0]] + tail) == [r[0].key] + Keys(tail);
      }
    }
  }

  /** Assigning adds no entry but the assigned one and never duplicates a key. */
  lemma {:induction false} PutEntries<V>(r: seq<Entry<V>>, key: string, value: V)
    ensures forall e :: e in Put(r, key, value) ==> e in r || e == Entry(key, value)
    ensures DistinctKeys(r) ==> DistinctKeys(Put(r, key, value))
  {
    if r != [] && r[0].key != key {
      PutEntries(r[1..], key, value);
      var tail := Put(r[1..], key, value);
      forall j | 0 <= j < |tail| ensures tail[j] in r[1..] || tail[j] == Entry(key, value) {
        assert tail[j] in tail;
      }
    }
  }

  /** Deleting adds no entry and keeps the keys distinct. */
  lemma {:induction false} RemoveEntries<V>(r: seq<Entry<V>>, key: string)
    ensures forall e :: e in Remove(r, key) ==> e in r
    ensures DistinctKeys(r) ==> DistinctKeys(Remove(r, key))
  {
    if r != [] && r[0].key != key {
      RemoveEntries(r[1..], key);
      var tail := Remove(r[1..], key);
      forall j | 0 <= j < |tail| ensures tail[j] in r[1..] {
        assert tail[j] in tail;
      }
    }
  }
}
