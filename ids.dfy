/**
 * Record identifiers generated by the create handlers: a fixed prefix
 * followed by `String(count + 1).padStart(3, '0')`, where count is the
 * number of records of that kind already stored (AUTH001, BOOK007, ...).
 */
module Ids {
  import opened Wrappers

  predicate IsDigit(c: char) {
    '0' <= c <= '9'
  }

  predicate AllDigits(s: string) {
    forall i :: 0 <= i < |s| ==> IsDigit(s[i])
  }

  function DigitValue(c: char): nat
    requires IsDigit(c)
  {
    c as int - '0' as int
  }

  function DigitChar(d: nat): (c: char)
    requires d < 10
    ensures IsDigit(c) && DigitValue(c) == d
  {
    ('0' as int + d) as char
  }

  /** The number a string of decimal digits denotes (leading zeros allowed). */
  function DecimalValue(s: string): nat
    requires AllDigits(s)
  {
    if s == [] then 0 else 10 * DecimalValue(s[..|s| - 1]) + DigitValue(s[|s| - 1])
  }

  /** JavaScript's `String(n)` for a non-negative integer: its decimal digits, without leading zeros. */
  function DecimalString(n: nat): (r: string)
    ensures |r| >= 1 && AllDigits(r)
    ensures (r[0] == '0') <==> n == 0
  {
    if n < 10 then [DigitChar(n)] else DecimalString(n / 10) + [DigitChar(n % 10)]
  }

  /** `c` repeated k times. */
  function Repeat(c: char, k: nat): (r: string)
    ensures |r| == k
    ensures forall i :: 0 <= i < k ==> r[i] == c
  {
    if k == 0 then [] else [c] + Repeat(c, k - 1)
  }

  /** JavaScript's `s.padStart(width, fill)` for a one-character fill string. */
  function PadStart(s: string, width: nat, fill: char): (r: string)
    ensures |r| == if |s| < width then width else |s|
    ensures r[|r| - |s|..] == s
    ensures forall i :: 0 <= i < |r| - |s| ==> r[i] == fill
  {
    if |s| < width then Repeat(fill, width - |s|) + s else s
  }

  /** The identifier given to the record created when `count` records of its kind exist. */
  function FormatId(prefix: string, count: nat): (r: string)
    ensures |r| >= |prefix| + 3 && r[..|prefix|] == prefix
  {
    prefix + PadStart(DecimalString(count + 1), 3, '0')
  }

  /** The number carried by an identifier with the given prefix, if it has that shape. */
  function IdNumber(prefix: string, id: string): Option<nat>
  {
    if |prefix| < |id| && id[..|prefix|] == prefix && AllDigits(id[|prefix|..])
    then Some(DecimalValue(id[|prefix|..]))
    else None
  }

  lemma {:induction false} DecimalStringRoundTrip(n: nat)
    ensures DecimalValue(DecimalString(n)) == n
  {
    if n >= 10 {
      var p := DecimalString(n / 10);
      var r := p + [DigitChar(n % 10)];
      assert r[..|r| - 1] == p;
      DecimalStringRoundTrip(n / 10);
    }
  }

  /** A leading zero does not change the value of a digit string. */
  lemma {:induction false} LeadingZeroValue(s: string)
    requires AllDigits(s)
    ensures AllDigits(['0'] + s) && DecimalValue(['0'] + s) == DecimalValue(s)
  {
    var z := ['0'] + s;
    if s != [] {
      assert z[..|z| - 1] == ['0'] + s[..|s| - 1];
      LeadingZeroValue(s[..|s| - 1]);
    } else {
      assert z[..|z| - 1] == [];
    }
  }

  lemma {:induction false} ZeroPaddingValue(k: nat, s: string)
    requires AllDigits(s)
    ensures AllDigits(Repeat('0', k) + s) && DecimalValue(Repeat('0', k) + s) == DecimalValue(s)
  {
    if k > 0 {
      ZeroPaddingValue(k - 1, s);
      var t := Repeat('0', k - 1) + s;
      assert Repeat('0', k) + s == ['0'] + t;
      LeadingZeroValue(t);
    } else {
      assert Repeat('0', k) + s == s;
    }
  }

  /**
   * The generated identifier starts with its prefix, has at least three
   * digits after it, and those digits denote count + 1.
   */
  lemma {:induction false} FormatIdShape(prefix: string, count: nat)
    ensures |FormatId(prefix, count)| >= |prefix| + 3
    ensures FormatId(prefix, count)[..|prefix|] == prefix
    ensures IdNumber(prefix, FormatId(prefix, count)) == Some(count + 1)
  {
    var digits := DecimalString(count + 1);
    var padded := PadStart(digits, 3, '0');
    var id := prefix + padded;
    assert id[..|prefix|] == prefix;
    assert id[|prefix|..] == padded;
    DecimalStringRoundTrip(count + 1);
    if |digits| < 3 {
      ZeroPaddingValue(3 - |digits|, digits);
    }
  }

  /** Successive counts give distinct identifiers. */
  lemma FormatIdInjective(prefix: string, c1: nat, c2: nat)
    requires c1 != c2
    ensures FormatId(prefix, c1) != FormatId(prefix, c2)
  {
    FormatIdShape(prefix, c1);
    FormatIdShape(prefix, c2);
  }

  /** Below 999 records the identifier is exactly the prefix and three digits; from then on it grows. */
  lemma {:induction false} FormatIdWidth(prefix: string, count: nat)
    ensures count < 999 ==> |FormatId(prefix, count)| == |prefix| + 3
    ensures count >= 999 ==> |FormatId(prefix, count)| > |prefix| + 3
  {
    DecimalStringLength(count + 1);
  }

  lemma {:induction false} DecimalStringLength(n: nat)
    ensures n < 1000 ==> |DecimalString(n)| <= 3
    ensures n >= 1000 ==> |DecimalString(n)| >= 4
  {
    if n >= 10 {
      DecimalStringLength(n / 10);
    }
  }

  lemma IdExamples()
    ensures FormatId("AUTH", 0) == "AUTH001"
    ensures FormatId("BOOK", 6) == "BOOK007"
    ensures FormatId("READER", 41) == "READER042"
  {
    assert DecimalString(1) == "1";
    assert DecimalString(7) == "7";
    assert DecimalString(42) == "42";
    assert Repeat('0', 2) == "00";
    assert Repeat('0', 1) == "0";
  }
}
