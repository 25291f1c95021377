/** The document keys of src/document-database.ts: decimal strings of an
    auto-incremented counter (`(++this.key).toString()`), read back with
    `Number(key)` when a database is opened. */
module DocumentKeys {

  predicate IsDigit(c: char) {
    '0' <= c <= '9'
  }

  predicate IsDecimal(s: string) {
    forall i | 0 <= i < |s| :: IsDigit(s[i])
  }

  function DigitChar(d: nat): char
    requires d < 10
  {
    ('0' as int + d) as char
  }

  /** `n.toString()` for a natural number: its decimal digits, no leading zero. */
  function KeyString(n: nat): (s: string)
    ensures |s| >= 1 && IsDecimal(s)
    ensures n > 0 ==> s[0] != '0'
    decreases n
  {
    if n < 10 then [DigitChar(n)] else KeyString(n / 10) + [DigitChar(n % 10)]
  }

  /** The number a string of decimal digits denotes. */
  function DigitsValue(s: string): nat
    requires IsDecimal(s)
    decreases |s|
  {
    if s == [] then 0 else DigitsValue(s[..|s| - 1]) * 10 + (s[|s| - 1] as int - '0' as int)
  }

  /** `Number(key)` for a key made of decimal digits (the empty string is 0).
      Any other key counts as 0 here, where JavaScript gives NaN. */
  function KeyNumber(s: string): nat {
    if IsDecimal(s) then DigitsValue(s) else 0
  }

  /** Reading a key back gives the counter value it was made from. */
  lemma {:induction false} KeyNumberOfKeyString(n: nat)
    ensures KeyNumber(KeyString(n)) == n
    decreases n
  {
    var s := KeyString(n);
    if n >= 10 {
      KeyNumberOfKeyString(n / 10);
      assert s[..|s| - 1] == KeyString(n / 10);
      assert s[|s| - 1] as int - '0' as int == n % 10;
      assert DigitsValue(s) == (n / 10) * 10 + n % 10;
    }
  }

  /** Different counter values give different keys. */
  lemma KeyStringInjective(m: nat, n: nat)
    requires KeyString(m) == KeyString(n)
    ensures m == n
  {
    KeyNumberOfKeyString(m);
    KeyNumberOfKeyString(n);
  }

  /** `Math.max(...keys.map(Number), 0)`: the largest key number, and 0 for no keys. */
  function MaxKeyNumber(keys: seq<string>): (m: nat)
    ensures forall i :: 0 <= i < |keys| ==> KeyNumber(keys[i]) <= m
    ensures m == 0 || exists i :: 0 <= i < |keys| && KeyNumber(keys[i]) == m
    decreases |keys|
  {
    if keys == [] then 0
    else
      var rest := MaxKeyNumber(keys[1..]);
      assert forall i :: 1 <= i < |keys| ==> keys[i] == keys[1..][i - 1];
      if KeyNumber(keys[0]) >= rest then KeyNumber(keys[0]) else rest
  }
}
