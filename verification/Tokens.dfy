/** The limit and continue parameters of cmd/api/pagination/pagination.go; tokens without their base64 layer. */
module Tokens {
  import opened Decimal
  import opened Wrappers
  import opened Strings
  import Dates

  const MAX_INT64 := 0x7FFF_FFFF_FFFF_FFFF
  const MIN_ALLOWED_LIMIT := 1
  const MAX_ALLOWED_LIMIT := 1000
  const DEFAULT_LIMIT := "100"

  predicate Int64(n: int) {
    -MAX_INT64 - 1 <= n <= MAX_INT64
  }

  /** fmt's %d. */
  function Itoa(n: int): (s: string)
    ensures s != "" && ' ' !in s
  {
    if n < 0 then
      assert ' ' !in Digits(-n);
      "-" + Digits(-n)
    else
      assert ' ' !in Digits(n);
      Digits(n)
  }

  /** strconv.ParseInt(s, 10, 64): an optional sign, then one or more digits. */
  function ParseInt(s: string): (n: Option<int>)
    ensures n.Some? ==> Int64(n.value)
  {
    var signed := s != "" && (s[0] == '+' || s[0] == '-');
    var digits := if signed then s[1..] else s;
    if digits == "" || !AllDigits(digits) then None
    else
      var v: int := Value(digits);
      var n := if signed && s[0] == '-' then -v else v;
      if Int64(n) then Some(n) else None
  }

  /** Exactly the decimal numerals of int64 numbers, leading zeros and a sign allowed, are parsed. */
  lemma ParseIntForms(sign: string, digits: string)
    requires sign in {"", "+", "-"} && digits != "" && AllDigits(digits)
    ensures var n: int := if sign == "-" then 0 - Value(digits) else Value(digits);
            ParseInt(sign + digits) == if Int64(n) then Some(n) else None
  {
    hide Value;
    assert (sign + digits)[|sign|..] == digits;
  }

  lemma ParsedForm(s: string) returns (sign: string, digits: string)
    requires ParseInt(s).Some?
    ensures sign in {"", "+", "-"} && digits != "" && AllDigits(digits) && s == sign + digits
  {
    hide Value;
    var n := if s[0] == '+' || s[0] == '-' then 1 else 0;
    sign, digits := s[..n], s[n..];
    assert s == sign + digits && (n == 1 ==> sign == [s[0]]);
  }

  lemma ParseIntOfItoa(n: int)
    ensures ParseInt(Itoa(n)) == if Int64(n) then Some(n) else None
  {
    hide Value, Digits;
    if n < 0 {
      ValueOfDigits(-n);
      assert Itoa(n)[1..] == Digits(-n);
    } else {
      ValueOfDigits(n);
      assert IsDigit(Digits(n)[0]);
    }
  }

  function TrimQuotes(date: string): string {
    var d := if date != "" && date[0] == '"' then date[1..] else date;
    if d != "" && d[|d| - 1] == '"' then d[..|d| - 1] else d
  }

  function CreateToken(id: int, date: string): string {
    var d := TrimQuotes(date);
    if d == "" && id == 0 then "" else Itoa(id) + " " + d
  }

  /** time.Parse and Format for the forms of RFC 3339 dates other than the canonical one. */
  type OtherDates = string -> Option<string>

  function Reserialised(date: string, other: OtherDates): Option<string> {
    var t := Dates.Parse(date);
    if t.Some? then Some(Dates.Format(t.value)) else other(date)
  }

  datatype Error = BadLimit | BadContinue

  datatype Params = Params(limit: int, continueId: string, continueDate: string) | Rejected(error: Error)

  predicate LimitOk(limitString: string) {
    ParseInt(limitString).Some? && MIN_ALLOWED_LIMIT <= ParseInt(limitString).value <= MAX_ALLOWED_LIMIT
  }

  /** The token is an int64 id, one space and a date; the date is passed on as it is reserialised. */
  ghost predicate TokenMeans(token: string, id: string, date: string, other: OtherDates) {
    exists d :: token == id + [' '] + d && ' ' !in id && ' ' !in d
                && ParseInt(id).Some? && Reserialised(d, other) == Some(date)
  }

  ghost predicate Meaningful(token: string, other: OtherDates) {
    exists id, date :: TokenMeans(token, id, date, other)
  }

  function LimitString(limitParam: Option<string>): string {
    if limitParam.Some? then limitParam.value else DEFAULT_LIMIT
  }

  /** What the checks pass on. */
  function Checked(limitParam: Option<string>, token: string, other: OtherDates): Params {
    var limit := LimitString(limitParam);
    if !LimitOk(limit) then Rejected(BadLimit)
    else if token == "" then Params(ParseInt(limit).value, "", "")
    else
      var parts := Split(token, ' ');
      if |parts| == 2 && ParseInt(parts[0]).Some? && Reserialised(parts[1], other).Some?
      then Params(ParseInt(limit).value, parts[0], Reserialised(parts[1], other).value)
      else Rejected(BadContinue)
  }

  /** A token means one id and one date, and those are its two parts. */
  lemma TokenParts(token: string, id: string, date: string, other: OtherDates)
    ensures TokenMeans(token, id, date, other) <==>
            var parts := Split(token, ' ');
            && |parts| == 2 && parts[0] == id
            && ParseInt(id).Some? && Reserialised(parts[1], other) == Some(date)
  {
    hide ParseInt, Reserialised;
    if d :| token == id + [' '] + d && ' ' !in id && ' ' !in d
            && ParseInt(id).Some? && Reserialised(d, other) == Some(date) {
      SplitPair(id, d, ' ');
    }
    if |Split(token, ' ')| == 2 {
      SplitTwo(token, ' ');
      assert Split(token, ' ')[0] in Split(token, ' ') && Split(token, ' ')[1] in Split(token, ' ');
    }
  }

  lemma DefaultLimit()
    ensures LimitOk(DEFAULT_LIMIT) && ParseInt(DEFAULT_LIMIT) == Some(100)
  {
    assert DEFAULT_LIMIT[..2] == "10" && "10"[..1] == "1" && "1"[..0] == "";
    assert Value("1") == 1 && Value("10") == 10;
  }

  lemma CheckedMeans(limitParam: Option<string>, token: string, other: OtherDates)
    ensures var params, limit := Checked(limitParam, token, other), LimitString(limitParam);
            && (params == Rejected(BadLimit) <==> !LimitOk(limit))
            && (params == Rejected(BadContinue) <==> LimitOk(limit) && token != "" && !Meaningful(token, other))
            && (params.Params? ==> ParseInt(limit) == Some(params.limit))
            && (params.Params? ==> if token == "" then params.continueId == params.continueDate == ""
                                   else TokenMeans(token, params.continueId, params.continueDate, other))
  {
    hide ParseInt, Reserialised, TokenMeans, Split;
    forall id, date
      ensures TokenMeans(token, id, date, other) <==>
              var parts := Split(token, ' ');
              && |parts| == 2 && parts[0] == id
              && ParseInt(id).Some? && Reserialised(parts[1], other) == Some(date)
    {
      TokenParts(token, id, date, other);
    }
    var parts := Split(token, ' ');
    if |parts| == 2 && ParseInt(parts[0]).Some? && Reserialised(parts[1], other).Some? {
      assert TokenMeans(token, parts[0], Reserialised(parts[1], other).value, other);
    }
  }

  /** Middleware: without a limit parameter the limit is 100; an empty token is no token. */
  method Middleware(limitParam: Option<string>, continueToken: string, other: OtherDates) returns (params: Params)
    ensures params == Checked(limitParam, continueToken, other)
    ensures params == Rejected(BadLimit) <==>
            limitParam.Some?
            && !(ParseInt(limitParam.value).Some? && 1 <= ParseInt(limitParam.value).value <= 1000)
    ensures params == Rejected(BadContinue) <==>
            && (limitParam.Some? ==>
                  ParseInt(limitParam.value).Some? && 1 <= ParseInt(limitParam.value).value <= 1000)
            && continueToken != "" && !Meaningful(continueToken, other)
    ensures params.Params? ==> params.limit == if limitParam.None? then 100 else ParseInt(limitParam.value).value
    ensures params.Params? ==> if continueToken == "" then params.continueId == params.continueDate == ""
                               else TokenMeans(continueToken, params.continueId, params.continueDate, other)
  {
    hide ParseInt, Reserialised, TokenMeans, Split;
    CheckedMeans(limitParam, continueToken, other);
    DefaultLimit();
    var limitString := if limitParam.Some? then limitParam.value else DEFAULT_LIMIT;
    var limitInteger := ParseInt(limitString);
    if limitInteger.None? {
      return Rejected(BadLimit);
    }
    if limitInteger.value > MAX_ALLOWED_LIMIT {
      return Rejected(BadLimit);
    }
    if limitInteger.value < MIN_ALLOWED_LIMIT {
      return Rejected(BadLimit);
    }
    var continueDate, continueId := "", "";
    if continueToken != "" {
      var continueParts := Split(continueToken, ' ');
      if |continueParts| != 2 {
        return Rejected(BadContinue);
      }
      continueId := continueParts[0];
      if ParseInt(continueId).None? {
        return Rejected(BadContinue);
      }
      var timestamp := Reserialised(continueParts[1], other);
      if timestamp.None? {
        return Rejected(BadContinue);
      }
      continueDate := timestamp.value;
    }
    return Params(limitInteger.value, continueId, continueDate);
  }

  /** The number of rows a request asks for, if its limit is accepted. */
  function PageSize(limitParam: Option<string>): (n: int)
    ensures limitParam.None? ==> n == 100
    ensures limitParam.Some? && ParseInt(limitParam.value).Some? ==> n == ParseInt(limitParam.value).value
  {
    if limitParam.None? then 100
    else if ParseInt(limitParam.value).Some? then ParseInt(limitParam.value).value else 0
  }

  predicate LimitAccepted(limitParam: Option<string>) {
    limitParam.Some? ==> ParseInt(limitParam.value).Some? && 1 <= ParseInt(limitParam.value).value <= 1000
  }

  lemma AcceptedLimit(limitParam: Option<string>)
    ensures LimitAccepted(limitParam) <==> LimitOk(LimitString(limitParam))
    ensures LimitAccepted(limitParam) ==>
              1 <= PageSize(limitParam) <= 1000 && ParseInt(LimitString(limitParam)) == Some(PageSize(limitParam))
  {
    hide ParseInt;
    DefaultLimit();
  }

  /** A token made from a canonical date comes back as the same id and the same date text, with any limit. */
  lemma TokenRoundTrip(limitParam: Option<string>, id: int, date: string, other: OtherDates)
    requires LimitAccepted(limitParam) && Int64(id) && Dates.Canonical(date)
    ensures CreateToken(id, date) != ""
    ensures var params := Checked(limitParam, CreateToken(id, date), other);
            params == Params(PageSize(limitParam), Itoa(id), date) && ParseInt(params.continueId) == Some(id)
  {
    hide Dates.Parse, Dates.Format, Split, ParseInt;
    AcceptedLimit(limitParam);
    CanonicalHasNoSpace(date);
    SplitPair(Itoa(id), date, ' ');
    ParseIntOfItoa(id);
    Dates.ReserialisedIsSame(date);
  }

  /** The quotes of a date taken from JSON make no difference. */
  lemma QuotedDate(id: int, date: string)
    requires date != "" && date[0] != '"' && date[|date| - 1] != '"'
    ensures CreateToken(id, ['"'] + date + ['"']) == CreateToken(id, date) == Itoa(id) + " " + date
  {
    var quoted := ['"'] + date + ['"'];
    assert quoted[1..] == date + ['"'] && quoted[1..][..|date|] == date;
    assert TrimQuotes(quoted) == date && TrimQuotes(date) == date;
  }

  /** A token names one id and one date. */
  lemma OneMeaning(token: string, id: string, date: string, id': string, date': string, other: OtherDates)
    requires TokenMeans(token, id, date, other) && TokenMeans(token, id', date', other)
    ensures id == id' && date == date'
  {
    hide Reserialised, ParseInt, Split, TokenMeans;
    TokenParts(token, id, date, other);
    TokenParts(token, id', date', other);
  }

  lemma CanonicalHasNoSpace(date: string)
    requires Dates.Canonical(date)
    ensures ' ' !in date && TrimQuotes(date) == date
  {
    hide Dates.Format;
    assert forall i | 0 <= i < 20 :: date[i] != ' ' by {
      assert forall i | 0 <= i < 4 :: date[i] == date[0..4][i];
    }
  }
}
