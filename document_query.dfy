/** Finding documents in src/document-database.ts: `searchIndex` narrows the
    candidates with the indexes, `findKeys` keeps the candidates whose
    document matches the query, sorts them and applies the limit. */
module DocumentQuery {
  import opened Wrappers
  import opened Records
  import opened Serializable
  import opened DocumentIndex
  import opened DocumentSort

  /** `QueryOptions`: an optional `limit` and the `sort` options, in order of precedence. */
  datatype QueryOptions = QueryOptions(limit: Option<int>, sort: seq<Fields>)

  /** `options` left undefined. */
  const NoOptions := QueryOptions(None, [])

  predicate NoDuplicates(s: seq<string>) {
    forall i, j | 0 <= i < j < |s| :: s[i] != s[j]
  }

  /** `partialEqual(this.data[key], query)`: a document is stored under the key and matches. */
  predicate Matches(data: Documents, key: string, query: Fields) {
    Get(data, key).Some? && PartialEqual(Obj(Get(data, key).value), Obj(query))
  }

  /** What `findKeys` is meant to find: the keys of the matching documents, in key order. */
  function MatchingKeys(data: Documents, query: Fields): seq<string>
    decreases |data|
  {
    if data == [] then []
    else (if PartialEqual(Obj(data[0].val), Obj(query)) then [data[0].key] else []) + MatchingKeys(data[1..], query)
  }

  // ---------------------------------------------------------------------------
  // searchIndex

  /** The index sets of the query's indexed fields with indexable values, in query order. */
  function IndexHits(indexes: Indexes, query: Fields): seq<set<string>>
    decreases |query|
  {
    if query == [] then []
    else
      var hit := GetIndexIfExists(indexes, query[0].key, query[0].val);
      (if hit.Some? then [hit.value] else []) + IndexHits(indexes, query[1..])
  }

  /** The stored documents whose key is in every hit set. */
  function Candidates(data: Documents, hits: seq<set<string>>): Documents
    decreases |data|
  {
    if data == [] then []
    else (if forall h | h in hits :: data[0].key in h then [data[0]] else []) + Candidates(data[1..], hits)
  }

  /** `searchIndex`: every key without indexes or without a hit; no key when
      some hit set is empty; otherwise the keys in all hit sets. */
  function SearchIndex(data: Documents, indexes: Option<Indexes>, query: Fields): seq<string> {
    if indexes.None? then Keys(data)
    else
      var hits := IndexHits(indexes.value, query);
      if {} in hits then []
      else if hits == [] then Keys(data)
      else Keys(Candidates(data, hits))
  }

  /** The `filter` of `findKeys`: the candidates whose document matches, in candidate order. */
  function FilterMatching(data: Documents, keys: seq<string>, query: Fields): (r: seq<string>)
    ensures forall i | 0 <= i < |r| :: r[i] in keys && Matches(data, r[i], query)
    decreases |keys|
  {
    if keys == [] then []
    else (if Matches(data, keys[0], query) then [keys[0]] else []) + FilterMatching(data, keys[1..], query)
  }

  /** A stored document that matches the query is listed in every hit set. */
  lemma {:induction false} HitsHoldMatches(data: Documents, indexes: Indexes, query: Fields, i: int)
    requires DistinctKeys(data) && IndexExact(data, indexes)
    requires 0 <= i < |data| && PartialEqual(Obj(data[i].val), Obj(query))
    ensures forall h | h in IndexHits(indexes, query) :: data[i].key in h
    decreases |query|
  {
    if query != [] {
      var rest := query[1..];
      assert PartialEqual(Obj(data[i].val), Obj(rest)) by {
        forall j | 0 <= j < |rest|
          ensures Get(data[i].val, rest[j].key).Some? && PartialEqual(Get(data[i].val, rest[j].key).value, rest[j].val)
        {
          assert rest[j] == query[j + 1];
        }
      }
      HitsHoldMatches(data, indexes, rest, i);
      var hit := GetIndexIfExists(indexes, query[0].key, query[0].val);
      if hit.Some? {
        GetEntry(data, i);
        assert FieldValue(data, data[i].key, query[0].key) == Some(query[0].val);
      }
    }
  }

  /** Dropping documents that fail some hit keeps every matching one. */
  lemma {:induction false} CandidatesKeepMatches(data: Documents, hits: seq<set<string>>, query: Fields)
    requires forall i | 0 <= i < |data| && PartialEqual(Obj(data[i].val), Obj(query)) ::
      forall h | h in hits :: data[i].key in h
    ensures MatchingKeys(Candidates(data, hits), query) == MatchingKeys(data, query)
    decreases |data|
  {
    if data != [] {
      forall i | 0 <= i < |data[1..]| && PartialEqual(Obj(data[1..][i].val), Obj(query))
        ensures forall h | h in hits :: data[1..][i].key in h
      {
        assert data[1..][i] == data[i + 1];
      }
      CandidatesKeepMatches(data[1..], hits, query);
      var tail := Candidates(data[1..], hits);
      var first := if PartialEqual(Obj(data[0].val), Obj(query)) then [data[0].key] else [];
      assert MatchingKeys(data, query) == first + MatchingKeys(data[1..], query);
      if forall h | h in hits :: data[0].key in h {
        var c := [data[0]] + tail;
        assert Candidates(data, hits) == c;
        assert c[0] == data[0] && c[1..] == tail;
        assert MatchingKeys(c, query) == first + MatchingKeys(tail, query);
      } else {
        assert Candidates(data, hits) == tail;
        assert !PartialEqual(Obj(data[0].val), Obj(query));
      }
    }
  }

  /** Filtering the keys of stored entries by `partialEqual` keeps the matching ones. */
  lemma {:induction false} FilterEntries(data: Documents, entries: Documents, query: Fields)
    requires DistinctKeys(data)
    requires forall e | e in entries :: e in data
    ensures FilterMatching(data, Keys(entries), query) == MatchingKeys(entries, query)
    decreases |entries|
  {
    if entries != [] {
      assert entries[0] in entries;
      var j :| 0 <= j < |data| && data[j] == entries[0];
      GetEntry(data, j);
      assert Keys(entries)[1..] == Keys(entries[1..]);
      FilterEntries(data, entries[1..], query);
    }
  }

  lemma CandidatesAreStored(data: Documents, hits: seq<set<string>>)
    ensures forall e | e in Candidates(data, hits) :: e in data
  {
  }

  lemma CandidatesOfEmptyHit(data: Documents, hits: seq<set<string>>)
    requires {} in hits
    ensures Candidates(data, hits) == []
  {
  }

  /** The indexes only narrow the search: whichever fields are indexed,
      filtering the candidates of `searchIndex` yields exactly the keys of
      the matching documents, in key order. */
  lemma SearchIndexFindsMatches(data: Documents, indexes: Option<Indexes>, query: Fields)
    requires DistinctKeys(data)
    requires indexes.Some? ==> IndexExact(data, indexes.value)
    ensures FilterMatching(data, SearchIndex(data, indexes, query), query) == MatchingKeys(data, query)
  {
    assert forall e | e in data :: e in data;
    FilterEntries(data, data, query);
    if indexes.Some? {
      var hits := IndexHits(indexes.value, query);
      forall i | 0 <= i < |data| && PartialEqual(Obj(data[i].val), Obj(query))
        ensures forall h | h in hits :: data[i].key in h
      {
        HitsHoldMatches(data, indexes.value, query, i);
      }
      CandidatesKeepMatches(data, hits, query);
      if {} in hits {
        CandidatesOfEmptyHit(data, hits);
      } else if hits != [] {
        CandidatesAreStored(data, hits);
        FilterEntries(data, Candidates(data, hits), query);
      }
    }
  }

  /** The matching keys are exactly the keys of matching stored documents, each once. */
  lemma {:induction false} MatchingKeysExactly(data: Documents, query: Fields)
    requires DistinctKeys(data)
    ensures forall k :: k in MatchingKeys(data, query) <==> Matches(data, k, query)
    ensures NoDuplicates(MatchingKeys(data, query))
    decreases |data|
  {
    if data != [] {
      var rest := data[1..];
      assert DistinctKeys(rest) by {
        forall i, j | 0 <= i < j < |rest| ensures rest[i].key != rest[j].key {
          assert rest[i] == data[i + 1] && rest[j] == data[j + 1];
        }
      }
      MatchingKeysExactly(rest, query);
      forall k ensures Get(data, k) == if k == data[0].key then Some(data[0].val) else Get(rest, k) {
      }
      var m := MatchingKeys(rest, query);
      forall k | k in m ensures k != data[0].key {
        GetFound(rest, k);
        var i :| 0 <= i < |rest| && rest[i] == Entry(k, Get(rest, k).value);
        assert data[i + 1].key == k;
      }
      var full := MatchingKeys(data, query);
      if PartialEqual(Obj(data[0].val), Obj(query)) {
        assert full == [data[0].key] + m;
        forall i, j | 0 <= i < j < |full| ensures full[i] != full[j] {
          assert full[j] == m[j - 1] && m[j - 1] in m;
          if i > 0 {
            assert full[i] == m[i - 1];
          }
        }
      }
    }
  }

  // ---------------------------------------------------------------------------
  // Sorting and limiting

  /** `this.data[key]`; the keys sorted are always stored ones. */
  function DocumentOf(data: Documents, key: string): Fields {
    var document := Get(data, key);
    if document.Some? then document.value else []
  }

  function CompareKeys(data: Documents, sortKeys: seq<SortKey>, a: string, b: string): int
    requires ValidKeys(sortKeys)
  {
    CompareDocuments(DocumentOf(data, a), DocumentOf(data, b), sortKeys)
  }

  ghost predicate SortedBy(data: Documents, sortKeys: seq<SortKey>, s: seq<string>)
    requires ValidKeys(sortKeys)
  {
    forall i, j | 0 <= i < j < |s| :: CompareKeys(data, sortKeys, s[i], s[j]) <= 0
  }

  /** Places a key before the first key that sorts strictly after it, so
      keys that compare equal keep their order. */
  function InsertKey(data: Documents, sortKeys: seq<SortKey>, key: string, sorted: seq<string>): seq<string>
    requires ValidKeys(sortKeys)
    decreases |sorted|
  {
    if sorted == [] then [key]
    else if CompareKeys(data, sortKeys, key, sorted[0]) < 0 then [key] + sorted
    else [sorted[0]] + InsertKey(data, sortKeys, key, sorted[1..])
  }

  /** `res.sort(comparator)`: a stable sort, here insertion sort. */
  function SortKeys(data: Documents, sortKeys: seq<SortKey>, keys: seq<string>): seq<string>
    requires ValidKeys(sortKeys)
    decreases |keys|
  {
    if keys == [] then []
    else InsertKey(data, sortKeys, keys[|keys| - 1], SortKeys(data, sortKeys, keys[..|keys| - 1]))
  }

  /** A key that sorts no later than any key of a sorted list can go first. */
  lemma SortedPrepend(data: Documents, sortKeys: seq<SortKey>, key: string, sorted: seq<string>)
    requires ValidKeys(sortKeys) && SortedBy(data, sortKeys, sorted)
    requires forall j | 0 <= j < |sorted| :: CompareKeys(data, sortKeys, key, sorted[j]) <= 0
    ensures SortedBy(data, sortKeys, [key] + sorted)
  {
    var r := [key] + sorted;
    forall i, j | 0 <= i < j < |r| ensures CompareKeys(data, sortKeys, r[i], r[j]) <= 0 {
      assert r[j] == sorted[j - 1];
      if i > 0 {
        assert r[i] == sorted[i - 1];
      }
    }
  }

  /** Inserting adds the key and loses none. */
  lemma {:induction false} InsertKeyPermutes(data: Documents, sortKeys: seq<SortKey>, key: string, sorted: seq<string>)
    requires ValidKeys(sortKeys)
    ensures multiset(InsertKey(data, sortKeys, key, sorted)) == multiset(sorted) + multiset{key}
    decreases |sorted|
  {
    if sorted != [] && CompareKeys(data, sortKeys, key, sorted[0]) >= 0 {
      InsertKeyPermutes(data, sortKeys, key, sorted[1..]);
      assert sorted == [sorted[0]] + sorted[1..];
    }
  }

  /** The tail of a sorted list is sorted. */
  lemma SortedTail(data: Documents, sortKeys: seq<SortKey>, sorted: seq<string>)
    requires ValidKeys(sortKeys) && SortedBy(data, sortKeys, sorted) && sorted != []
    ensures SortedBy(data, sortKeys, sorted[1..])
  {
    var rest := sorted[1..];
    forall i, j | 0 <= i < j < |rest| ensures CompareKeys(data, sortKeys, rest[i], rest[j]) <= 0 {
      assert rest[i] == sorted[i + 1] && rest[j] == sorted[j + 1];
    }
  }

  /** A key that sorts strictly before the head of a sorted list sorts no
      later than any of its keys. */
  lemma BeforeHead(data: Documents, sortKeys: seq<SortKey>, key: string, sorted: seq<string>)
    requires ValidKeys(sortKeys) && SortedBy(data, sortKeys, sorted) && sorted != []
    requires CompareKeys(data, sortKeys, key, sorted[0]) < 0
    ensures forall j | 0 <= j < |sorted| :: CompareKeys(data, sortKeys, key, sorted[j]) <= 0
  {
    forall j | 0 <= j < |sorted| ensures CompareKeys(data, sortKeys, key, sorted[j]) <= 0 {
      if j > 0 {
        CompareDocumentsTransitive(DocumentOf(data, key), DocumentOf(data, sorted[0]), DocumentOf(data, sorted[j]), sortKeys);
      }
    }
  }

  /** The head of a sorted list sorts no later than anything the insertion
      of a key not before it puts behind it. */
  lemma HeadBeforeInserted(data: Documents, sortKeys: seq<SortKey>, key: string, sorted: seq<string>,
                           tail: seq<string>)
    requires ValidKeys(sortKeys) && SortedBy(data, sortKeys, sorted) && sorted != []
    requires CompareKeys(data, sortKeys, key, sorted[0]) >= 0
    requires multiset(tail) == multiset(sorted[1..]) + multiset{key}
    ensures forall j | 0 <= j < |tail| :: CompareKeys(data, sortKeys, sorted[0], tail[j]) <= 0
  {
    var rest := sorted[1..];
    CompareDocumentsAntisymmetric(DocumentOf(data, key), DocumentOf(data, sorted[0]), sortKeys);
    forall j | 0 <= j < |tail| ensures CompareKeys(data, sortKeys, sorted[0], tail[j]) <= 0 {
      assert tail[j] in multiset(tail);
      if tail[j] != key {
        assert tail[j] in multiset(rest);
        var m :| 0 <= m < |rest| && rest[m] == tail[j];
        assert sorted[m + 1] == tail[j];
      }
    }
  }

  /** Inserting into a sorted list keeps it sorted. */
  lemma {:induction false} InsertKeySorted(data: Documents, sortKeys: seq<SortKey>, key: string, sorted: seq<string>)
    requires ValidKeys(sortKeys) && SortedBy(data, sortKeys, sorted)
    ensures SortedBy(data, sortKeys, InsertKey(data, sortKeys, key, sorted))
    decreases |sorted|
  {
    if sorted != [] {
      var first := sorted[0];
      if CompareKeys(data, sortKeys, key, first) < 0 {
        BeforeHead(data, sortKeys, key, sorted);
        SortedPrepend(data, sortKeys, key, sorted);
      } else {
        var rest := sorted[1..];
        SortedTail(data, sortKeys, sorted);
        InsertKeySorted(data, sortKeys, key, rest);
        var tail := InsertKey(data, sortKeys, key, rest);
        InsertKeyPermutes(data, sortKeys, key, rest);
        HeadBeforeInserted(data, sortKeys, key, sorted, tail);
        SortedPrepend(data, sortKeys, first, tail);
      }
    }
  }

  /** The sort yields the same keys, ordered by the comparator. */
  lemma {:induction false} SortKeysSorted(data: Documents, sortKeys: seq<SortKey>, keys: seq<string>)
    requires ValidKeys(sortKeys)
    ensures SortedBy(data, sortKeys, SortKeys(data, sortKeys, keys))
    ensures multiset(SortKeys(data, sortKeys, keys)) == multiset(keys)
    decreases |keys|
  {
    if keys != [] {
      var prefix := keys[..|keys| - 1];
      SortKeysSorted(data, sortKeys, prefix);
      InsertKeySorted(data, sortKeys, keys[|keys| - 1], SortKeys(data, sortKeys, prefix));
      InsertKeyPermutes(data, sortKeys, keys[|keys| - 1], SortKeys(data, sortKeys, prefix));
      assert keys == prefix + [keys[|keys| - 1]];
    }
  }

  /** `res.slice(0, limit)`: the first `limit` keys; a negative limit counts
      from the end. */
  function SliceTo(s: seq<string>, limit: int): (r: seq<string>)
    ensures |r| <= |s| && r == s[..|r|]
    ensures limit >= 0 ==> |r| == if limit <= |s| then limit else |s|
  {
    if limit >= 0 then (if limit <= |s| then s[..limit] else s)
    else if |s| + limit > 0 then s[..|s| + limit]
    else []
  }

  /** `options.sort.map(...)`: the direction of each sort option, in order;
      the first invalid option throws. */
  function Directions(sort: seq<Fields>): (r: Result<seq<SortKey>, string>)
    ensures r.Success? ==> |r.value| == |sort| && ValidKeys(r.value)
    ensures r.Success? ==> forall i | 0 <= i < |sort| :: r.value[i].option == Obj(sort[i])
    decreases |sort|
  {
    if sort == [] then Success([])
    else
      var direction := SortOptionDirection(Obj(sort[0]));
      if direction.Failure? then Failure(direction.error)
      else
        var rest := Directions(sort[1..]);
        assert forall i | 1 <= i < |sort| :: sort[i] == sort[1..][i - 1];
        if rest.Failure? then Failure(rest.error)
        else Success([SortKey(Obj(sort[0]), direction.value)] + rest.value)
  }

  /** The sort options are refused exactly when one of them is invalid, with
      the error of the first invalid one. */
  lemma {:induction false} DirectionsFails(sort: seq<Fields>)
    ensures Directions(sort).Failure? <==> exists i | 0 <= i < |sort| :: SortOptionDirection(Obj(sort[i])).Failure?
    ensures Directions(sort).Failure? ==> exists i | 0 <= i < |sort| ::
      && (forall j | 0 <= j < i :: SortOptionDirection(Obj(sort[j])).Success?)
      && SortOptionDirection(Obj(sort[i])).Failure?
      && Directions(sort).error == SortOptionDirection(Obj(sort[i])).error
    decreases |sort|
  {
    if sort != [] && SortOptionDirection(Obj(sort[0])).Success? {
      var rest := sort[1..];
      DirectionsFails(rest);
      assert forall i | 1 <= i < |sort| :: sort[i] == rest[i - 1];
      if Directions(rest).Failure? {
        var i :| 0 <= i < |rest| &&
          (forall j | 0 <= j < i :: SortOptionDirection(Obj(rest[j])).Success?) &&
          SortOptionDirection(Obj(rest[i])).Failure? &&
          Directions(rest).error == SortOptionDirection(Obj(rest[i])).error;
        assert forall j | 0 <= j < i + 1 :: SortOptionDirection(Obj(sort[j])).Success?;
        assert SortOptionDirection(Obj(sort[i + 1])).Failure?;
      } else {
        forall i | 0 <= i < |sort| ensures SortOptionDirection(Obj(sort[i])).Success? {
          if i > 0 {
            assert sort[i] == rest[i - 1];
          }
        }
      }
    }
  }

  // ---------------------------------------------------------------------------
  // findKeys

  /** The sorting step of `findKeys`: only with sort options and more than
      one result are the options read (an invalid one throws) and the keys sorted. */
  function OrderKeys(data: Documents, res: seq<string>, sort: seq<Fields>): Result<seq<string>, string> {
    if |sort| > 0 && |res| > 1 then
      var sortKeys := Directions(sort);
      if sortKeys.Failure? then Failure(sortKeys.error) else Success(SortKeys(data, sortKeys.value, res))
    else Success(res)
  }

  /** `findKeys`: the matching candidates, ordered, then cut to the limit. */
  function FindKeys(data: Documents, indexes: Option<Indexes>, query: Fields, options: QueryOptions): Result<seq<string>, string> {
    var res := FilterMatching(data, SearchIndex(data, indexes, query), query);
    var ordered := OrderKeys(data, res, options.sort);
    if ordered.Failure? then ordered else Success(LimitKeys(ordered.value, options.limit))
  }

  /** The limit step of `findKeys`, when a limit is given. */
  function LimitKeys(s: seq<string>, limit: Option<int>): (r: seq<string>)
    ensures |r| <= |s| && r == s[..|r|]
  {
    if limit.Some? then SliceTo(s, limit.value) else s
  }

  /** The sorting step fails exactly when it reads an invalid option; otherwise
      it keeps the same keys, sorted by the comparator when it sorts and in
      their order when it does not. */
  lemma OrderKeysOrders(data: Documents, res: seq<string>, sort: seq<Fields>)
    ensures OrderKeys(data, res, sort).Failure? <==> |sort| > 0 && |res| > 1 && Directions(sort).Failure?
    ensures OrderKeys(data, res, sort).Success? ==>
      && multiset(OrderKeys(data, res, sort).value) == multiset(res)
      && (|sort| > 0 && |res| > 1 ==> SortedBy(data, Directions(sort).value, OrderKeys(data, res, sort).value))
      && (|sort| == 0 || |res| <= 1 ==> OrderKeys(data, res, sort).value == res)
  {
    if |sort| > 0 && |res| > 1 && Directions(sort).Success? {
      SortKeysSorted(data, Directions(sort).value, res);
    }
  }

  lemma {:induction false} NoDuplicatesByMultiset(s: seq<string>)
    ensures NoDuplicates(s) <==> forall x :: multiset(s)[x] <= 1
    decreases |s|
  {
    if s != [] {
      var rest := s[1..];
      assert s == [s[0]] + rest;
      NoDuplicatesByMultiset(rest);
      if NoDuplicates(s) {
        assert s[0] !in rest;
        forall i, j | 0 <= i < j < |rest| ensures rest[i] != rest[j] {
          assert rest[i] == s[i + 1] && rest[j] == s[j + 1];
        }
      }
      if forall x :: multiset(s)[x] <= 1 {
        assert multiset(s)[s[0]] == multiset(rest)[s[0]] + 1;
        forall x ensures multiset(rest)[x] <= 1 {
          assert multiset(s)[x] >= multiset(rest)[x];
        }
        forall i, j | 0 <= i < j < |s| ensures s[i] != s[j] {
          if i > 0 {
            assert s[i] == rest[i - 1] && s[j] == rest[j - 1];
          } else {
            assert s[j] in rest;
          }
        }
      }
    }
  }

  /** Whichever fields are indexed, `findKeys` returns the same keys. */
  lemma FindKeysIgnoresIndexes(data: Documents, indexes: Option<Indexes>, query: Fields, options: QueryOptions)
    requires DistinctKeys(data)
    requires indexes.Some? ==> IndexExact(data, indexes.value)
    ensures FindKeys(data, indexes, query, options) == FindKeys(data, None, query, options)
  {
    SearchIndexFindsMatches(data, indexes, query);
    SearchIndexFindsMatches(data, None, query);
  }

  /** Cutting to the limit keeps a prefix: no key twice, still sorted, and
      only keys that were there. */
  lemma LimitKeysKeeps(data: Documents, sortKeys: seq<SortKey>, s: seq<string>, limit: Option<int>)
    requires ValidKeys(sortKeys)
    ensures multiset(LimitKeys(s, limit)) <= multiset(s)
    ensures NoDuplicates(s) ==> NoDuplicates(LimitKeys(s, limit))
    ensures SortedBy(data, sortKeys, s) ==> SortedBy(data, sortKeys, LimitKeys(s, limit))
  {
    var r := LimitKeys(s, limit);
    assert s == r + s[|r|..];
    if SortedBy(data, sortKeys, s) {
      forall i, j | 0 <= i < j < |r| ensures CompareKeys(data, sortKeys, r[i], r[j]) <= 0 {
        assert r[i] == s[i] && r[j] == s[j];
      }
    }
  }

  /** `findKeys` fails only when sorting is needed and some sort option is invalid. */
  lemma FindKeysFails(data: Documents, indexes: Option<Indexes>, query: Fields, options: QueryOptions)
    requires DistinctKeys(data)
    requires indexes.Some? ==> IndexExact(data, indexes.value)
    ensures FindKeys(data, indexes, query, options).Failure? <==>
      |options.sort| > 0 && |MatchingKeys(data, query)| > 1 && Directions(options.sort).Failure?
  {
    SearchIndexFindsMatches(data, indexes, query);
    OrderKeysOrders(data, MatchingKeys(data, query), options.sort);
  }

  /** Ordering and then limiting a list of distinct keys keeps them distinct
      and drawn from the list: all of them without a limit, as many as a
      non-negative limit allows, sorted when sorted, a prefix when unsorted. */
  lemma OrderLimitKeeps(data: Documents, res: seq<string>, options: QueryOptions)
    requires NoDuplicates(res)
    requires OrderKeys(data, res, options.sort).Success?
    ensures var found := LimitKeys(OrderKeys(data, res, options.sort).value, options.limit);
      && NoDuplicates(found)
      && multiset(found) <= multiset(res)
      && (options.limit.None? ==> multiset(found) == multiset(res))
      && (options.limit.Some? && options.limit.value >= 0 ==>
            |found| == if options.limit.value <= |res| then options.limit.value else |res|)
      && (|options.sort| > 0 && |res| > 1 ==> SortedBy(data, Directions(options.sort).value, found))
      && (|options.sort| == 0 || |res| <= 1 ==> |found| <= |res| && found == res[..|found|])
  {
    OrderKeysOrders(data, res, options.sort);
    var ordered := OrderKeys(data, res, options.sort).value;
    NoDuplicatesByMultiset(res);
    NoDuplicatesByMultiset(ordered);
    assert |ordered| == |multiset(ordered)| == |res|;
    var sortKeys := if |options.sort| > 0 && |res| > 1 then Directions(options.sort).value else [];
    LimitKeysKeeps(data, sortKeys, ordered, options.limit);
  }

  /** What `findKeys` returns: the keys of the matching documents, each once;
      in key order unless sort options apply, and then in the comparator's
      order; cut to the limit. */
  lemma FindKeysFinds(data: Documents, indexes: Option<Indexes>, query: Fields, options: QueryOptions)
    requires DistinctKeys(data)
    requires indexes.Some? ==> IndexExact(data, indexes.value)
    requires FindKeys(data, indexes, query, options).Success?
    ensures var res := MatchingKeys(data, query);
      var found := FindKeys(data, indexes, query, options).value;
      && NoDuplicates(found)
      && (forall k | k in found :: Matches(data, k, query))
      && (options.limit.None? ==> multiset(found) == multiset(res))
      && (options.limit.Some? && options.limit.value >= 0 ==>
            |found| == if options.limit.value <= |res| then options.limit.value else |res|)
      && (|options.sort| > 0 && |res| > 1 ==>
            Directions(options.sort).Success? && SortedBy(data, Directions(options.sort).value, found))
      && (|options.sort| == 0 || |res| <= 1 ==> |found| <= |res| && found == res[..|found|])
  {
    var res := MatchingKeys(data, query);
    SearchIndexFindsMatches(data, indexes, query);
    var found := LimitKeys(OrderKeys(data, res, options.sort).value, options.limit);
    assert FindKeys(data, indexes, query, options) == Success(found);
    MatchingKeysExactly(data, query);
    OrderLimitKeeps(data, res, options);
    forall k | k in found ensures Matches(data, k, query) {
      assert k in multiset(found);
    }
  }

  /** Without options, as `update` calls it, `findKeys` cannot fail and
      returns every matching key, in key order. */
  lemma FindKeysWithoutOptions(data: Documents, indexes: Option<Indexes>, query: Fields)
    requires DistinctKeys(data)
    requires indexes.Some? ==> IndexExact(data, indexes.value)
    ensures FindKeys(data, indexes, query, NoOptions) == Success(MatchingKeys(data, query))
  {
    SearchIndexFindsMatches(data, indexes, query);
    var res := MatchingKeys(data, query);
    assert OrderKeys(data, res, NoOptions.sort) == Success(res);
    assert LimitKeys(res, NoOptions.limit) == res;
  }
}
