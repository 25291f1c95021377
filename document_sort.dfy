/** Sorting in src/document-database.ts: the values a sort option picks out of
    a document (`getSortOptionValue`), the direction it asks for
    (`getSortOptionDirection`), how two picked values compare
    (`compareSortableValues`) and the comparator `findKeys` hands to
    `Array.prototype.sort`. */
module DocumentSort {
  import opened Wrappers
  import opened Records
  import opened Serializable

  // ---------------------------------------------------------------------------
  // Comparing sortable values

  /** `string | number | null | undefined`: what a sort option picks out. */
  datatype Sortable = Missing | NullValue | Number(n: int) | Text(s: string)

  predicate IsNullish(a: Sortable) {
    a.Missing? || a.NullValue?
  }

  /** The UTF-16 code units JavaScript stores for one character: itself
      below U+10000, otherwise a high surrogate and a low surrogate. */
  function CodeUnits(c: char): (u: seq<int>)
    ensures |u| == 1 || |u| == 2
    ensures |u| == 1 <==> (c as int) < 0x1_0000
    ensures |u| == 1 ==> !(0xD800 <= u[0] < 0xDC00)
    ensures |u| == 2 ==> 0xD800 <= u[0] < 0xDC00 && 0xDC00 <= u[1] < 0xE000
  {
    if (c as int) < 0x1_0000 then [c as int]
    else
      var v := c as int - 0x1_0000;
      [0xD800 + v / 0x400, 0xDC00 + v % 0x400]
  }

  /** Different characters have different code units. */
  lemma CodeUnitsInjective(c: char, d: char)
    requires CodeUnits(c) == CodeUnits(d)
    ensures c == d
  {
    if (c as int) >= 0x1_0000 {
      var v, w := c as int - 0x1_0000, d as int - 0x1_0000;
      assert v == 0x400 * (v / 0x400) + v % 0x400;
      assert w == 0x400 * (w / 0x400) + w % 0x400;
    }
  }

  /** A string as JavaScript holds it: the code units of its characters. */
  function Utf16(s: string): seq<int>
    decreases |s|
  {
    if s == [] then [] else CodeUnits(s[0]) + Utf16(s[1..])
  }

  /** Different strings have different code units, so the units decide
      equality. */
  lemma {:induction false} Utf16Injective(a: string, b: string)
    requires Utf16(a) == Utf16(b)
    ensures a == b
    decreases |a|
  {
    if a != [] && b != [] {
      var ua, ub := CodeUnits(a[0]), CodeUnits(b[0]);
      assert Utf16(a)[0] == ua[0] && Utf16(b)[0] == ub[0];
      assert |ua| == |ub|;
      assert ua == Utf16(a)[..|ua|] && ub == Utf16(b)[..|ub|];
      CodeUnitsInjective(a[0], b[0]);
      assert Utf16(a[1..]) == Utf16(a)[|ua|..] && Utf16(b[1..]) == Utf16(b)[|ub|..];
      Utf16Injective(a[1..], b[1..]);
      assert a == [a[0]] + a[1..] && b == [b[0]] + b[1..];
    }
  }

  /** Lexicographic order on code units, a proper prefix first. */
  predicate UnitsLess(a: seq<int>, b: seq<int>)
    decreases |a|
  {
    if a == [] then b != []
    else if b == [] then false
    else if a[0] != b[0] then a[0] < b[0]
    else UnitsLess(a[1..], b[1..])
  }

  /** Of two unit sequences, exactly one is smaller, unless they are equal. */
  lemma {:induction false} UnitsLessTrichotomy(a: seq<int>, b: seq<int>)
    ensures a == b || UnitsLess(a, b) || UnitsLess(b, a)
    ensures !(UnitsLess(a, b) && UnitsLess(b, a))
    ensures !UnitsLess(a, a)
    decreases |a|
  {
    if a != [] && b != [] && a[0] == b[0] {
      UnitsLessTrichotomy(a[1..], b[1..]);
      if a[1..] == b[1..] {
        assert a == [a[0]] + a[1..] && b == [b[0]] + b[1..];
      }
    }
    if a != [] {
      UnitsLessTrichotomy(a[1..], a[1..]);
    }
  }

  lemma {:induction false} UnitsLessTransitive(a: seq<int>, b: seq<int>, c: seq<int>)
    requires UnitsLess(a, b) && UnitsLess(b, c)
    ensures UnitsLess(a, c)
    decreases |a|
  {
    if a != [] && a[0] == b[0] && b[0] == c[0] {
      UnitsLessTransitive(a[1..], b[1..], c[1..]);
    }
  }

  /** JavaScript's `a < b` on strings: by UTF-16 code units, not by
      characters. */
  predicate StrLess(a: string, b: string) {
    UnitsLess(Utf16(a), Utf16(b))
  }

  /** Of two strings, exactly one is smaller, unless they are equal. */
  lemma StrLessTrichotomy(a: string, b: string)
    ensures a == b || StrLess(a, b) || StrLess(b, a)
    ensures !(StrLess(a, b) && StrLess(b, a))
    ensures !StrLess(a, a)
  {
    UnitsLessTrichotomy(Utf16(a), Utf16(b));
    UnitsLessTrichotomy(Utf16(a), Utf16(a));
    if Utf16(a) == Utf16(b) {
      Utf16Injective(a, b);
    }
  }

  lemma StrLessTransitive(a: string, b: string, c: string)
    requires StrLess(a, b) && StrLess(b, c)
    ensures StrLess(a, c)
  {
    UnitsLessTransitive(Utf16(a), Utf16(b), Utf16(c));
  }

  /** Code-unit order is not character order: a character beyond U+FFFF
      starts with a surrogate, so it sorts before every character from
      U+E000 to U+FFFF, whose code point is smaller. */
  lemma AstralSortsBeforeHighBmp(c: char, d: char)
    requires (c as int) >= 0x1_0000 && 0xE000 <= (d as int) < 0x1_0000
    ensures StrLess([c], [d]) && (d as int) < (c as int)
  {
    assert Utf16([c]) == CodeUnits(c) && Utf16([d]) == CodeUnits(d);
  }

  /** `compareSortableValues`: numbers first, by value; then strings, in
      string order; null and undefined last and tied with each other. A
      negative result means `a` sorts first. */
  function CompareSortableValues(a: Sortable, b: Sortable): int {
    if IsNullish(a) && IsNullish(b) then 0
    else if IsNullish(a) then 1
    else if IsNullish(b) then -1
    else if a.Number? && b.Number? then a.n - b.n
    else if a.Text? && b.Text? then (if StrLess(a.s, b.s) then -1 else if StrLess(b.s, a.s) then 1 else 0)
    else if a.Number? then -1
    else 1
  }

  function Sign(x: int): int {
    if x < 0 then -1 else if x > 0 then 1 else 0
  }

  /** The place of a value's kind in the order. */
  function Rank(a: Sortable): nat {
    if a.Number? then 0 else if a.Text? then 1 else 2
  }

  /** The order `compareSortableValues` puts values in: by kind first
      (numbers, strings, null or undefined), then numbers by value and
      strings in string order; only equal values, or two nullish ones, tie. */
  lemma CompareSortableValuesOrder(a: Sortable, b: Sortable)
    ensures Rank(a) < Rank(b) ==> CompareSortableValues(a, b) < 0
    ensures a.Number? && b.Number? ==> Sign(CompareSortableValues(a, b)) == Sign(a.n - b.n)
    ensures a.Text? && b.Text? ==> (CompareSortableValues(a, b) < 0 <==> StrLess(a.s, b.s))
    ensures CompareSortableValues(a, b) == 0 <==> a == b || (IsNullish(a) && IsNullish(b))
  {
    if a.Text? && b.Text? {
      StrLessTrichotomy(a.s, b.s);
    }
  }

  /** Swapping the arguments flips the sign. */
  lemma CompareSortableValuesAntisymmetric(a: Sortable, b: Sortable)
    ensures Sign(CompareSortableValues(a, b)) == -Sign(CompareSortableValues(b, a))
  {
    if a.Text? && b.Text? {
      StrLessTrichotomy(a.s, b.s);
    }
  }

  /** "Sorts no later than" is transitive. */
  lemma CompareSortableValuesTransitive(a: Sortable, b: Sortable, c: Sortable)
    requires CompareSortableValues(a, b) <= 0 && CompareSortableValues(b, c) <= 0
    ensures CompareSortableValues(a, c) <= 0
  {
    if a.Text? && b.Text? && c.Text? {
      StrLessTrichotomy(a.s, b.s);
      StrLessTrichotomy(b.s, c.s);
      StrLessTrichotomy(a.s, c.s);
      if StrLess(a.s, b.s) && StrLess(b.s, c.s) {
        StrLessTransitive(a.s, b.s, c.s);
      }
    }
  }

  // ---------------------------------------------------------------------------
  // Sort options

  datatype Direction = Asc | Desc

  /** The number of own keys of a sort option object (an array's are its indices). */
  function OwnKeyCount(option: Value): nat
    requires option.Obj? || option.Arr?
  {
    if option.Obj? then |option.fields| else |option.items|
  }

  /** The sole own key of a sort option and the value under it. */
  function SoleEntry(option: Value): (e: Entry<Value>)
    requires (option.Obj? || option.Arr?) && OwnKeyCount(option) == 1
    ensures e.val < option
  {
    if option.Obj? then option.fields[0] else Entry("0", option.items[0])
  }

  /** `getSortOptionDirection`: an option names exactly one key, whose value
      is "asc", "desc" or a nested option. */
  function SortOptionDirection(option: Value): (r: Result<Direction, string>)
    requires option.Obj? || option.Arr? || option.Null?
    ensures r.Success? ==> !option.Null? && OwnKeyCount(option) == 1
    decreases option
  {
    if option.Null? then Failure("Cannot convert undefined or null to object")
    else if OwnKeyCount(option) == 0 then Failure("No keys in sort object")
    else if OwnKeyCount(option) > 1 then Failure("Only one key is allowed in sort object")
    else
      var value := SoleEntry(option).val;
      if value.Str? then
        if value.s == "asc" then Success(Asc)
        else if value.s == "desc" then Success(Desc)
        else Failure("Invalid sort direction " + value.s)
      else if value.Obj? || value.Arr? || value.Null? then SortOptionDirection(value)
      else Failure("Invalid sort object")
  }

  /** The outcome of `getSortOptionDirection` case by case: the three
      shapes it rejects with their messages, the two directions it accepts,
      the descent into a nested option, and every other leaf rejected. */
  lemma SortOptionDirectionCases(option: Value)
    requires option.Obj? || option.Arr? || option.Null?
    ensures option.Null? ==> SortOptionDirection(option) == Failure("Cannot convert undefined or null to object")
    ensures !option.Null? && OwnKeyCount(option) == 0 ==> SortOptionDirection(option) == Failure("No keys in sort object")
    ensures !option.Null? && OwnKeyCount(option) > 1 ==> SortOptionDirection(option) == Failure("Only one key is allowed in sort object")
    ensures !option.Null? && OwnKeyCount(option) == 1 ==>
      var value := SoleEntry(option).val;
      && (value == Str("asc") ==> SortOptionDirection(option) == Success(Asc))
      && (value == Str("desc") ==> SortOptionDirection(option) == Success(Desc))
      && (value.Str? && value.s != "asc" && value.s != "desc" ==>
            SortOptionDirection(option) == Failure("Invalid sort direction " + value.s))
      && (value.Obj? || value.Arr? || value.Null? ==> SortOptionDirection(option) == SortOptionDirection(value))
      && (value.Num? || value.Bool? ==> SortOptionDirection(option) == Failure("Invalid sort object"))
  {
  }

  predicate ValidOption(option: Value) {
    (option.Obj? || option.Arr? || option.Null?) && SortOptionDirection(option).Success?
  }

  /** A sortable JSON value as it is, anything else as undefined. */
  function AsSortable(v: Option<Value>): Sortable {
    match v
    case Some(Str(s)) => Text(s)
    case Some(Num(n)) => Number(n)
    case Some(Null) => NullValue
    case _ => Missing
  }

  /** `getSortOptionValue`: follows the option's keys into the document. A
      direction picks the document's string, number or null; a nested option
      descends into a nested mapping; anything else is undefined. The throws
      for an option without exactly one key cannot happen once its direction
      has been read, so they are a precondition here. */
  function SortOptionValue(document: Fields, option: Value): Sortable
    requires ValidOption(option)
    decreases option
  {
    var entry := SoleEntry(option);
    var documentValue := Get(document, entry.key);
    var optionValue := entry.val;
    if optionValue.Str? && documentValue.Some? && (documentValue.value.Str? || documentValue.value.Num? || documentValue.value.Null?) then
      AsSortable(documentValue)
    else if (optionValue.Obj? || optionValue.Arr?) && documentValue.Some? && documentValue.value.Obj? then
      SortOptionValue(documentValue.value.fields, optionValue)
    else Missing
  }

  /** The path of keys a valid option names, outermost first. */
  function OptionPath(option: Value): (path: seq<string>)
    requires ValidOption(option)
    ensures |path| >= 1
    decreases option
  {
    var entry := SoleEntry(option);
    if entry.val.Str? then [entry.key] else [entry.key] + OptionPath(entry.val)
  }

  /** The value found by following a path of keys through nested mappings. */
  function ValueAt(v: Value, path: seq<string>): Option<Value>
    decreases |path|
  {
    if path == [] then Some(v)
    else if v.Obj? && Get(v.fields, path[0]).Some? then ValueAt(Get(v.fields, path[0]).value, path[1..])
    else None
  }

  /** The value an option picks is the document's value at the option's path
      when that is a string, number or null, and undefined otherwise. */
  lemma {:induction false} SortOptionValueAtPath(document: Fields, option: Value)
    requires ValidOption(option)
    ensures SortOptionValue(document, option) == AsSortable(ValueAt(Obj(document), OptionPath(option)))
    decreases option
  {
    var entry := SoleEntry(option);
    var documentValue := Get(document, entry.key);
    var path := OptionPath(option);
    assert path[0] == entry.key;
    if !entry.val.Str? {
      assert path[1..] == OptionPath(entry.val);
      if documentValue.Some? && documentValue.value.Obj? {
        SortOptionValueAtPath(documentValue.value.fields, entry.val);
      } else if documentValue.Some? {
        assert ValueAt(documentValue.value, path[1..]) == None;
      }
    }
  }

  // ---------------------------------------------------------------------------
  // The comparator of `findKeys`

  /** A sort option with the direction read from it. */
  datatype SortKey = SortKey(option: Value, direction: Direction)

  predicate ValidKey(key: SortKey) {
    ValidOption(key.option) && SortOptionDirection(key.option) == Success(key.direction)
  }

  predicate ValidKeys(keys: seq<SortKey>) {
    forall i | 0 <= i < |keys| :: ValidKey(keys[i])
  }

  /** One option's comparison: the values' order, reversed for "desc". */
  function CompareByKey(a: Fields, b: Fields, key: SortKey): int
    requires ValidKey(key)
  {
    var cmp := CompareSortableValues(SortOptionValue(a, key.option), SortOptionValue(b, key.option));
    if key.direction == Asc then cmp else -cmp
  }

  /** The comparator: the first option on which the documents differ decides. */
  function CompareDocuments(a: Fields, b: Fields, keys: seq<SortKey>): int
    requires ValidKeys(keys)
    decreases |keys|
  {
    if keys == [] then 0
    else
      var cmp := CompareByKey(a, b, keys[0]);
      if cmp != 0 then cmp else CompareDocuments(a, b, keys[1..])
  }

  lemma CompareByKeyAntisymmetric(a: Fields, b: Fields, key: SortKey)
    requires ValidKey(key)
    ensures Sign(CompareByKey(a, b, key)) == -Sign(CompareByKey(b, a, key))
  {
    CompareSortableValuesAntisymmetric(SortOptionValue(a, key.option), SortOptionValue(b, key.option));
  }

  lemma CompareByKeyTransitive(a: Fields, b: Fields, c: Fields, key: SortKey)
    requires ValidKey(key)
    requires CompareByKey(a, b, key) <= 0 && CompareByKey(b, c, key) <= 0
    ensures CompareByKey(a, c, key) <= 0
  {
    var va, vb, vc := SortOptionValue(a, key.option), SortOptionValue(b, key.option), SortOptionValue(c, key.option);
    if key.direction == Asc {
      CompareSortableValuesTransitive(va, vb, vc);
    } else {
      CompareSortableValuesAntisymmetric(va, vb);
      CompareSortableValuesAntisymmetric(vb, vc);
      CompareSortableValuesAntisymmetric(va, vc);
      CompareSortableValuesTransitive(vc, vb, va);
    }
  }

  /** Swapping two documents flips the comparator's sign. */
  lemma {:induction false} CompareDocumentsAntisymmetric(a: Fields, b: Fields, keys: seq<SortKey>)
    requires ValidKeys(keys)
    ensures Sign(CompareDocuments(a, b, keys)) == -Sign(CompareDocuments(b, a, keys))
    decreases |keys|
  {
    if keys != [] {
      CompareByKeyAntisymmetric(a, b, keys[0]);
      CompareDocumentsAntisymmetric(a, b, keys[1..]);
    }
  }

  /** The comparator orders documents consistently: "sorts no later than" is
      transitive, so together with antisymmetry it is a total preorder. */
  lemma {:induction false} CompareDocumentsTransitive(a: Fields, b: Fields, c: Fields, keys: seq<SortKey>)
    requires ValidKeys(keys)
    requires CompareDocuments(a, b, keys) <= 0 && CompareDocuments(b, c, keys) <= 0
    ensures CompareDocuments(a, c, keys) <= 0
    decreases |keys|
  {
    if keys != [] {
      var key := keys[0];
      var x, y, z := CompareByKey(a, b, key), CompareByKey(b, c, key), CompareByKey(a, c, key);
      CompareByKeyTransitive(a, b, c, key);
      if z == 0 {
        CompareByKeyAntisymmetric(a, c, key);
        CompareByKeyAntisymmetric(a, b, key);
        CompareByKeyAntisymmetric(b, c, key);
        if x < 0 {
          CompareByKeyTransitive(b, c, a, key);
        }
        if y < 0 {
          CompareByKeyTransitive(c, a, b, key);
        }
        assert x == 0 && y == 0;
        CompareDocumentsTransitive(a, b, c, keys[1..]);
      }
    }
  }
}
