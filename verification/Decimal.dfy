/** Decimal numerals, as Go's `%d` and JavaScript's number-to-string produce them. */
module Decimal {

  predicate IsDigit(c: char) {
    '0' <= c <= '9'
  }

  predicate AllDigits(s: string) {
    forall i :: 0 <= i < |s| ==> IsDigit(s[i])
  }

  function DigitChar(d: nat): (c: char)
    requires d < 10
    ensures IsDigit(c)
  {
    (d + '0' as int) as char
  }

  /** The canonical numeral of n: no leading zero, so the first character is '0' only for zero itself. */
  function Digits(n: nat): (s: string)
    ensures s != "" && AllDigits(s)
    ensures s[0] == '0' ==> n == 0
  {
    if n < 10 then [DigitChar(n)] else Digits(n / 10) + [DigitChar(n % 10)]
  }

  function Value(s: string): nat
    requires AllDigits(s)
  {
    if s == "" then 0 else 10 * Value(s[..|s| - 1]) + (s[|s| - 1] as int - '0' as int)
  }

  lemma {:induction false} ValueOfDigits(n: nat)
    ensures Value(Digits(n)) == n
  {
    if n >= 10 {
      ValueOfDigits(n / 10);
      assert Digits(n)[..|Digits(n)| - 1] == Digits(n / 10);
    }
  }

  lemma TenDigits()
    ensures Digits(1234567890) == "1234567890"
  {
    assert Digits(1) == "1";
    hide Digits;
    DigitsPush(1, 2);
    DigitsPush(12, 3);
    DigitsPush(123, 4);
    DigitsPush(1234, 5);
    DigitsPush(12345, 6);
    DigitsPush(123456, 7);
    DigitsPush(1234567, 8);
    DigitsPush(12345678, 9);
    DigitsPush(123456789, 0);
  }

  lemma DigitsPush(v: nat, d: nat)
    requires v > 0 && d < 10
    ensures Digits(10 * v + d) == Digits(v) + [DigitChar(d)]
  {
    assert (10 * v + d) / 10 == v && (10 * v + d) % 10 == d;
  }

  lemma {:induction false} DigitsOfValue(s: string)
    requires s != "" && AllDigits(s) && s[0] != '0'
    ensures Value(s) > 0 && Digits(Value(s)) == s
  {
    var front, last := s[..|s| - 1], s[|s| - 1];
    assert s == front + [last];
    if front != "" {
      DigitsOfValue(front);
      DigitsPush(Value(front), last as int - '0' as int);
    } else {
      assert Value(s) == last as int - '0' as int;
    }
  }

  lemma NumeralIsMaximal(d: string, x: string, e: string, y: string)
    requires AllDigits(e) && d + x == e + y
    requires x != "" ==> !IsDigit(x[0])
    ensures |d| >= |e|
  {
    var s := d + x;
    assert |s| == |e| + |y|;
    assert forall i :: 0 <= i < |e| ==> s[i] == e[i];
    assert x != "" ==> s[|d|] == x[0];
  }

  /** A numeral followed by a non-digit (or by nothing) can be read back without ambiguity. */
  lemma SplitNumeral(m: nat, n: nat, x: string, y: string)
    requires Digits(m) + x == Digits(n) + y
    requires x != "" ==> !IsDigit(x[0])
    requires y != "" ==> !IsDigit(y[0])
    ensures m == n && x == y
  {
    NumeralIsMaximal(Digits(m), x, Digits(n), y);
    NumeralIsMaximal(Digits(n), y, Digits(m), x);
    var s, k := Digits(m) + x, |Digits(m)|;
    assert s[..k] == Digits(m) && s[..k] == Digits(n) && s[k..] == x && s[k..] == y;
    ValueOfDigits(m);
    ValueOfDigits(n);
  }

  lemma {:induction false} WiderIsGreater(m: nat, n: nat)
    requires m <= n
    ensures |Digits(m)| <= |Digits(n)|
  {
    if m >= 10 {
      WiderIsGreater(m / 10, n / 10);
    }
  }
}
