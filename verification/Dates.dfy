/** UTC date-times in the one form Kubernetes stores (section 5.6 of RFC 3339, no fraction, zone Z). */
module Dates {
  import opened Decimal
  import opened Wrappers
  import opened Lexicographic

  datatype DateTime = DateTime(year: nat, month: nat, day: nat, hour: nat, minute: nat, second: nat) {
    predicate Valid() {
      && year < 10000 && 1 <= month <= 12 && 1 <= day <= DaysIn(year, month)
      && hour < 24 && minute < 60 && second < 60
    }
  }

  predicate Leap(year: nat) {
    year % 4 == 0 && (year % 100 != 0 || year % 400 == 0)
  }

  function DaysIn(year: nat, month: nat): (days: nat)
    ensures 28 <= days <= 31
  {
    if month == 2 then (if Leap(year) then 29 else 28)
    else if month == 4 || month == 6 || month == 9 || month == 11 then 30
    else 31
  }

  /** The last width decimal digits of n. */
  function Padded(n: nat, width: nat): (s: string)
    ensures |s| == width && AllDigits(s)
  {
    if width == 0 then "" else Padded(n / 10, width - 1) + [DigitChar(n % 10)]
  }

  /** time.Time.Format(time.RFC3339) in UTC. */
  function Format(t: DateTime): (s: string)
    ensures |s| == 20
  {
    Padded(t.year, 4) + "-" + Padded(t.month, 2) + "-" + Padded(t.day, 2) + "T"
    + Padded(t.hour, 2) + ":" + Padded(t.minute, 2) + ":" + Padded(t.second, 2) + "Z"
  }

  predicate Shaped(s: string) {
    && |s| == 20
    && AllDigits(s[0..4]) && s[4] == '-' && AllDigits(s[5..7]) && s[7] == '-' && AllDigits(s[8..10])
    && s[10] == 'T' && AllDigits(s[11..13]) && s[13] == ':' && AllDigits(s[14..16]) && s[16] == ':'
    && AllDigits(s[17..19]) && s[19] == 'Z'
  }

  /** time.Parse(time.RFC3339, s) on this form. */
  function Parse(s: string): Option<DateTime> {
    if !Shaped(s) then None
    else
      var t := DateTime(Value(s[0..4]), Value(s[5..7]), Value(s[8..10]),
                        Value(s[11..13]), Value(s[14..16]), Value(s[17..19]));
      if t.Valid() then Some(t) else None
  }

  predicate Canonical(s: string) {
    Parse(s).Some?
  }

  lemma {:induction false} PaddedValue(s: string)
    requires AllDigits(s)
    ensures Padded(Value(s), |s|) == s
  {
    if s != "" {
      PaddedValue(s[..|s| - 1]);
      assert s == s[..|s| - 1] + [s[|s| - 1]];
    }
  }

  function Pow10(width: nat): nat {
    if width == 0 then 1 else 10 * Pow10(width - 1)
  }

  lemma {:induction false} ValuePadded(n: nat, width: nat)
    requires n < Pow10(width)
    ensures Value(Padded(n, width)) == n
  {
    if width > 0 {
      ValuePadded(n / 10, width - 1);
      assert Padded(n, width)[..width - 1] == Padded(n / 10, width - 1);
    }
  }

  /** Formatting what was parsed gives the same text. */
  lemma ReserialisedIsSame(s: string)
    requires Canonical(s)
    ensures Format(Parse(s).value) == s
  {
    hide Padded, Value;
    PaddedValue(s[0..4]);
    PaddedValue(s[5..7]);
    PaddedValue(s[8..10]);
    PaddedValue(s[11..13]);
    PaddedValue(s[14..16]);
    PaddedValue(s[17..19]);
    assert s == s[0..4] + "-" + s[5..7] + "-" + s[8..10] + "T"
                + s[11..13] + ":" + s[14..16] + ":" + s[17..19] + "Z";
  }

  lemma FormatIsCanonical(year: nat, month: nat, day: nat, hour: nat, minute: nat, second: nat)
    requires year < 10000 && month < 100 && day < 100 && hour < 100 && minute < 100 && second < 100
    ensures Canonical(Format(DateTime(year, month, day, hour, minute, second))) <==>
            && hour <= 23 && minute <= 59 && second <= 59 && 1 <= day
            && ((month in {1, 3, 5, 7, 8, 10, 12} && day <= 31)
                || (month in {4, 6, 9, 11} && day <= 30)
                || (month == 2 && day <= 28)
                || (month == 2 && day == 29 && year % 4 == 0 && (year % 100 != 0 || year % 400 == 0)))
    ensures var t := DateTime(year, month, day, hour, minute, second);
            Canonical(Format(t)) ==> Parse(Format(t)) == Some(t)
  {
    hide Padded, Value;
    var t := DateTime(year, month, day, hour, minute, second);
    var s := Format(t);
    assert s[0..4] == Padded(year, 4) && s[5..7] == Padded(month, 2) && s[8..10] == Padded(day, 2);
    assert s[11..13] == Padded(hour, 2) && s[14..16] == Padded(minute, 2) && s[17..19] == Padded(second, 2);
    assert Pow10(0) == 1 && Pow10(1) == 10 && Pow10(2) == 100 && Pow10(3) == 1000 && Pow10(4) == 10000;
    ValuePadded(year, 4);
    ValuePadded(month, 2);
    ValuePadded(day, 2);
    ValuePadded(hour, 2);
    ValuePadded(minute, 2);
    ValuePadded(second, 2);
    assert Shaped(s);
  }

  /** Which dates there are: the lengths of the months, and the leap years. */
  lemma CanonicalIff(year: nat, month: nat, day: nat, hour: nat, minute: nat, second: nat)
    requires year < 10000 && month < 100 && day < 100 && hour < 100 && minute < 100 && second < 100
    ensures Canonical(Padded(year, 4) + "-" + Padded(month, 2) + "-" + Padded(day, 2) + "T"
                      + Padded(hour, 2) + ":" + Padded(minute, 2) + ":" + Padded(second, 2) + "Z") <==>
            && hour <= 23 && minute <= 59 && second <= 59 && 1 <= day
            && ((month in {1, 3, 5, 7, 8, 10, 12} && day <= 31)
                || (month in {4, 6, 9, 11} && day <= 30)
                || (month == 2 && day <= 28)
                || (month == 2 && day == 29 && year % 4 == 0 && (year % 100 != 0 || year % 400 == 0)))
  {
    hide Canonical, Padded;
    FormatIsCanonical(year, month, day, hour, minute, second);
  }

  /** The dates in canonical form are the formatted ones. */
  lemma CanonicalIsFormatted(s: string)
    requires Canonical(s)
    ensures exists t: DateTime :: t.Valid() && s == Format(t)
  {
    hide Format;
    ReserialisedIsSame(s);
  }

  function DaysBeforeMonth(year: nat, month: nat): nat
    requires month >= 1
  {
    if month == 1 then 0 else DaysBeforeMonth(year, month - 1) + DaysIn(year, month - 1)
  }

  function DaysBeforeYear(year: nat): nat {
    if year == 0 then 0 else DaysBeforeYear(year - 1) + if Leap(year - 1) then 366 else 365
  }

  /** The seconds from the start of year 0 to t. */
  function Seconds(t: DateTime): int
    requires t.Valid()
  {
    (DaysBeforeYear(t.year) + DaysBeforeMonth(t.year, t.month) + t.day - 1) * 86400
    + t.hour * 3600 + t.minute * 60 + t.second
  }

  lemma {:induction false} MonthsAdvance(year: nat, m: nat, n: nat)
    requires 1 <= m < n
    ensures DaysBeforeMonth(year, m) + DaysIn(year, m) <= DaysBeforeMonth(year, n)
  {
    if m + 1 < n {
      MonthsAdvance(year, m, n - 1);
    }
  }

  lemma {:induction false} YearsAdvance(y: nat, z: nat)
    requires y < z
    ensures DaysBeforeYear(y) + (if Leap(y) then 366 else 365) <= DaysBeforeYear(z)
  {
    if y + 1 < z {
      YearsAdvance(y, z - 1);
    }
  }

  lemma YearLength(year: nat)
    ensures DaysBeforeMonth(year, 12) + DaysIn(year, 12) == if Leap(year) then 366 else 365
  {
    assert DaysBeforeMonth(year, 2) == 31;
    assert DaysBeforeMonth(year, 3) == 31 + DaysIn(year, 2);
    assert DaysBeforeMonth(year, 5) == DaysBeforeMonth(year, 3) + 61;
    assert DaysBeforeMonth(year, 7) == DaysBeforeMonth(year, 5) + 61;
    assert DaysBeforeMonth(year, 9) == DaysBeforeMonth(year, 7) + 62;
    assert DaysBeforeMonth(year, 11) == DaysBeforeMonth(year, 9) + 61;
  }

  lemma DayOfYear(t: DateTime)
    requires t.Valid()
    ensures DaysBeforeMonth(t.year, t.month) + t.day <= if Leap(t.year) then 366 else 365
  {
    YearLength(t.year);
    if t.month < 12 {
      MonthsAdvance(t.year, t.month, 12);
    }
  }

  /** The fields in order, most significant first. */
  predicate FieldsLess(a: DateTime, b: DateTime) {
    a.year < b.year || (a.year == b.year && (
    a.month < b.month || (a.month == b.month && (
    a.day < b.day || (a.day == b.day && (
    a.hour < b.hour || (a.hour == b.hour && (
    a.minute < b.minute || (a.minute == b.minute && a.second < b.second)))))))))
  }

  lemma EarlierFieldsEarlierTime(a: DateTime, b: DateTime)
    requires a.Valid() && b.Valid() && FieldsLess(a, b)
    ensures Seconds(a) < Seconds(b)
  {
    DayOfYear(a);
    if a.year < b.year {
      YearsAdvance(a.year, b.year);
    } else if a.month < b.month {
      MonthsAdvance(a.year, a.month, b.month);
    }
  }

  /** Comparing text that starts with numerals of one width compares the numbers first. */
  lemma {:induction false} FieldFirst(u: string, v: string, x: string, y: string)
    requires |u| == |v| && AllDigits(u) && AllDigits(v)
    ensures Less(u + x, v + y) <==> Value(u) < Value(v) || (Value(u) == Value(v) && Less(x, y))
  {
    if u == "" {
      assert u + x == x && v + y == y;
    } else {
      var n := |u| - 1;
      var x', y' := [u[n]] + x, [v[n]] + y;
      assert u + x == u[..n] + x' && v + y == v[..n] + y';
      FieldFirst(u[..n], v[..n], x', y');
      assert x'[1..] == x && y'[1..] == y;
    }
  }

  lemma SameFirst(c: char, x: string, y: string)
    ensures Less([c] + x, [c] + y) <==> Less(x, y)
  {
    assert ([c] + x)[1..] == x && ([c] + y)[1..] == y;
  }

  lemma FieldThen(m: nat, n: nat, width: nat, c: char, x: string, y: string)
    requires m < Pow10(width) && n < Pow10(width)
    ensures Less(Padded(m, width) + ([c] + x), Padded(n, width) + ([c] + y)) <==> m < n || (m == n && Less(x, y))
  {
    ValuePadded(m, width);
    ValuePadded(n, width);
    FieldFirst(Padded(m, width), Padded(n, width), [c] + x, [c] + y);
    SameFirst(c, x, y);
  }

  function TimeTail(t: DateTime): string {
    Padded(t.hour, 2) + (":" + (Padded(t.minute, 2) + (":" + (Padded(t.second, 2) + ("Z" + "")))))
  }

  function DayTail(t: DateTime): string {
    Padded(t.day, 2) + ("T" + TimeTail(t))
  }

  function MonthTail(t: DateTime): string {
    Padded(t.month, 2) + ("-" + DayTail(t))
  }

  lemma FormatIsFields(t: DateTime)
    ensures Format(t) == Padded(t.year, 4) + ("-" + MonthTail(t))
  {
  }

  /** The instant that a canonical date names. */
  function Instant(s: string): int
    requires Canonical(s)
  {
    Seconds(Parse(s).value)
  }

  /** Text order is time order (section 5.1 of RFC 3339). */
  lemma TextOrderIsTimeOrder(a: string, b: string)
    requires Canonical(a) && Canonical(b)
    ensures Less(a, b) <==> Instant(a) < Instant(b)
  {
    hide Seconds, Parse, Padded;
    var s, t := Parse(a).value, Parse(b).value;
    ParsedIsValid(a);
    ParsedIsValid(b);
    ReserialisedIsSame(a);
    ReserialisedIsSame(b);
    FormatIsFields(s);
    FormatIsFields(t);
    FieldThen(s.year, t.year, 4, '-', MonthTail(s), MonthTail(t));
    FieldThen(s.month, t.month, 2, '-', DayTail(s), DayTail(t));
    FieldThen(s.day, t.day, 2, 'T', TimeTail(s), TimeTail(t));
    TimeOrder(s, t);
    assert Less(a, b) <==> FieldsLess(s, t);
    if FieldsLess(s, t) {
      EarlierFieldsEarlierTime(s, t);
    } else if FieldsLess(t, s) {
      EarlierFieldsEarlierTime(t, s);
    } else {
      assert s == t;
    }
  }

  lemma ParsedIsValid(s: string)
    requires Canonical(s)
    ensures Parse(s).value.Valid()
  {
  }

  lemma TimeOrder(s: DateTime, t: DateTime)
    requires s.Valid() && t.Valid()
    ensures Less(TimeTail(s), TimeTail(t)) <==>
            s.hour < t.hour || (s.hour == t.hour && (
            s.minute < t.minute || (s.minute == t.minute && s.second < t.second)))
  {
    hide Padded;
    var secondS, secondT := Padded(s.second, 2) + ("Z" + ""), Padded(t.second, 2) + ("Z" + "");
    FieldThen(s.hour, t.hour, 2, ':', Padded(s.minute, 2) + (":" + secondS), Padded(t.minute, 2) + (":" + secondT));
    FieldThen(s.minute, t.minute, 2, ':', secondS, secondT);
    FieldThen(s.second, t.second, 2, 'Z', "", "");
  }
}
