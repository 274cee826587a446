/** The validated fields of a contact: `Phone` (ten digits) and `Birthday`
    (a date read with `strptime(value, "%d.%m.%Y")` and shown with
    `strftime("%d.%m.%Y")`). A `Name` is any string and needs no model. */
module Fields {
  import opened Results
  import opened Text
  import opened Calendar

  /** The two `ValueError`s field construction raises. */
  datatype FieldError = InvalidPhone | InvalidDate

  /** A phone number as `Phone` accepts it: exactly ten digits. */
  predicate ValidPhone(s: string) {
    |s| == 10 && forall k :: 0 <= k < |s| ==> IsDigit(s[k])
  }

  /** `Phone(value)`: keeps the string as given when it is ten digits and
      fails otherwise. */
  function ParsePhone(s: string): (r: Result<string, FieldError>)
    ensures r.Success? <==> ValidPhone(s)
    ensures r.Success? ==> r.value == s
    ensures r.Failure? ==> r.error == InvalidPhone
  {
    if IsDecimal(s) && |s| == 10 then Success(s) else Failure(InvalidPhone)
  }

  predicate InRange(c: char, lo: char, hi: char) {
    lo <= c <= hi
  }

  /** The `%d` directive of `strptime`: one of `3[01]`, `[12]\d`, `0[1-9]`,
      `[1-9]` or a space followed by `[1-9]`, read as its numeric value. */
  function DayToken(t: string): (r: Option<int>)
    ensures r.Some? ==> 1 <= r.value <= 31 && '.' !in t
  {
    if |t| == 1 && InRange(t[0], '1', '9') then Some(DigitValue(t[0]))
    else if |t| == 2 && t[0] == ' ' && InRange(t[1], '1', '9') then Some(DigitValue(t[1]))
    else if |t| == 2 && IsDigit(t[1])
            && ((t[0] == '3' && InRange(t[1], '0', '1'))
                || InRange(t[0], '1', '2')
                || (t[0] == '0' && InRange(t[1], '1', '9')))
    then Some(10 * DigitValue(t[0]) + DigitValue(t[1]))
    else None
  }

  /** The `%m` directive: one of `1[0-2]`, `0[1-9]` or `[1-9]`. */
  function MonthToken(t: string): (r: Option<int>)
    ensures r.Some? ==> 1 <= r.value <= 12 && '.' !in t
  {
    if |t| == 1 && InRange(t[0], '1', '9') then Some(DigitValue(t[0]))
    else if |t| == 2 && ((t[0] == '1' && InRange(t[1], '0', '2'))
                         || (t[0] == '0' && InRange(t[1], '1', '9')))
    then Some(10 * DigitValue(t[0]) + DigitValue(t[1]))
    else None
  }

  /** The `%Y` directive: exactly four digits. */
  function YearToken(t: string): (r: Option<int>)
    ensures r.Some? ==> 0 <= r.value <= 9999 && '.' !in t
  {
    if |t| == 4 && AllDigits(t)
    then Some(1000 * DigitValue(t[0]) + 100 * DigitValue(t[1]) + 10 * DigitValue(t[2]) + DigitValue(t[3]))
    else None
  }

  /** Position of the first `.` in `s`. */
  function FindDot(s: string): (r: Option<nat>)
    ensures r.Some? ==> r.value < |s| && s[r.value] == '.' && '.' !in s[..r.value]
    ensures r.None? ==> '.' !in s
  {
    if |s| == 0 then None
    else if s[0] == '.' then Some(0)
    else match FindDot(s[1..])
      case None => None
      case Some(i) => assert s[..i + 1] == [s[0]] + s[1..][..i]; Some(i + 1)
  }

  /** `s` is the three pieces joined by dots. */
  predicate Layout(s: string, a: string, b: string, c: string) {
    s == a + "." + b + "." + c
  }

  /** `s` matches the pattern `%d.%m.%Y` and its fields read as `dt`. */
  ghost predicate Matches(s: string, dt: Date) {
    exists a, b, c :: Layout(s, a, b, c)
      && DayToken(a) == Some(dt.day) && MonthToken(b) == Some(dt.month) && YearToken(c) == Some(dt.year)
  }

  /** The date named by the day, month and year pieces, if they match
      their directives and form a real date. */
  function ReadPieces(a: string, b: string, c: string): (r: Result<Date, FieldError>)
    ensures r.Success? ==> ValidDate(r.value)
    ensures r.Success? ==> DayToken(a) == Some(r.value.day) && MonthToken(b) == Some(r.value.month)
                           && YearToken(c) == Some(r.value.year)
    ensures r.Failure? ==> r.error == InvalidDate
  {
    var d, m, y := DayToken(a), MonthToken(b), YearToken(c);
    if d.Some? && m.Some? && y.Some? && ValidDate(Date(y.value, m.value, d.value)) then
      Success(Date(y.value, m.value, d.value))
    else
      Failure(InvalidDate)
  }

  /** `Birthday(value)`: the whole string must match `%d.%m.%Y` and the
      fields must form a real date; every failure is the one `ValueError`. */
  function ParseBirthday(s: string): (r: Result<Date, FieldError>)
    ensures r.Success? ==> ValidDate(r.value)
    ensures r.Failure? ==> r.error == InvalidDate
  {
    match FindDot(s)
    case None => Failure(InvalidDate)
    case Some(i) =>
      var rest := s[i + 1..];
      match FindDot(rest)
      case None => Failure(InvalidDate)
      case Some(j) => ReadPieces(s[..i], rest[..j], rest[j + 1..])
  }

  /** Two decimal digits, zero-padded (`%d`, `%m` of `strftime`). */
  function Pad2(n: int): (s: string)
    requires 0 <= n < 100
    ensures |s| == 2 && AllDigits(s)
  {
    [DigitChar(n / 10), DigitChar(n % 10)]
  }

  /** Four decimal digits, zero-padded (`%Y` of `strftime`). */
  function Pad4(n: int): (s: string)
    requires 0 <= n < 10000
    ensures |s| == 4 && AllDigits(s)
  {
    var tens := n / 10;
    var hundreds := tens / 10;
    [DigitChar(hundreds / 10), DigitChar(hundreds % 10), DigitChar(tens % 10), DigitChar(n % 10)]
  }

  /** `strftime("%d.%m.%Y")`. */
  function FormatDate(d: Date): (s: string)
    requires ValidDate(d)
    ensures ZeroPadded(s)
    ensures TwoDigitValue(s[..2]) == d.day && TwoDigitValue(s[3..5]) == d.month
            && FourDigitValue(s[6..]) == d.year
  {
    var s := Pad2(d.day) + "." + Pad2(d.month) + "." + Pad4(d.year);
    assert s[..2] == Pad2(d.day) && s[3..5] == Pad2(d.month) && s[6..] == Pad4(d.year);
    Pad2RoundTrip(Pad2(d.day), d.day);
    Pad2RoundTrip(Pad2(d.month), d.month);
    Pad4Value(d.year);
    s
  }

  lemma FindDotAfterWord(a: string, rest: string)
    requires '.' !in a
    ensures FindDot(a + "." + rest) == Some(|a|)
  {
    assert (a + "." + rest)[|a|] == '.';
  }

  /** How `ParseBirthday` reads a string already cut at its first two dots. */
  lemma ParseOfLayout(a: string, b: string, c: string)
    requires '.' !in a && '.' !in b
    ensures ParseBirthday(a + "." + b + "." + c) == ReadPieces(a, b, c)
  {
    var s := a + "." + b + "." + c;
    assert s == a + "." + (b + "." + c);
    FindDotAfterWord(a, b + "." + c);
    var rest := s[|a| + 1..];
    assert rest == b + "." + c;
    FindDotAfterWord(b, c);
    assert s[..|a|] == a;
    assert rest[..|b|] == b;
    assert rest[|b| + 1..] == c;
  }

  /** Every string of the form day.month.year whose pieces match the
      directives and name a real date is accepted, with exactly that date. */
  lemma ParseAccepts(a: string, b: string, c: string, dt: Date)
    requires DayToken(a) == Some(dt.day) && MonthToken(b) == Some(dt.month) && YearToken(c) == Some(dt.year)
    requires ValidDate(dt)
    ensures ParseBirthday(a + "." + b + "." + c) == Success(dt)
  {
    ParseOfLayout(a, b, c);
  }

  /** `Birthday(s)` yields `dt` exactly when `s` matches `%d.%m.%Y` with the
      fields of `dt` and `dt` is a real date. */
  lemma ParseBirthdayExactly(s: string, dt: Date)
    ensures ParseBirthday(s) == Success(dt) <==> ValidDate(dt) && Matches(s, dt)
  {
    if ValidDate(dt) && Matches(s, dt) {
      var a, b, c :| Layout(s, a, b, c)
        && DayToken(a) == Some(dt.day) && MonthToken(b) == Some(dt.month) && YearToken(c) == Some(dt.year);
      ParseAccepts(a, b, c, dt);
    }
    if ParseBirthday(s) == Success(dt) {
      ParseSound(s, dt);
    }
  }

  lemma ParseSound(s: string, dt: Date)
    requires ParseBirthday(s) == Success(dt)
    ensures Matches(s, dt)
  {
    var a, b, c := ParseCuts(s);
    assert DayToken(a) == Some(dt.day) && MonthToken(b) == Some(dt.month) && YearToken(c) == Some(dt.year);
  }

  /** A string that parses is cut at its first two dots into the pieces
      that were read. */
  lemma ParseCuts(s: string) returns (a: string, b: string, c: string)
    requires ParseBirthday(s).Success?
    ensures Layout(s, a, b, c) && ParseBirthday(s) == ReadPieces(a, b, c)
  {
    var i := FindDot(s).value;
    var rest := s[i + 1..];
    var j := FindDot(rest).value;
    a, b, c := s[..i], rest[..j], rest[j + 1..];
    assert ParseBirthday(s) == ReadPieces(a, b, c);
    CutAtDot(s, i);
    CutAtDot(rest, j);
    JoinThree(s, a, rest, b, c);
  }

  lemma JoinThree(s: string, a: string, rest: string, b: string, c: string)
    requires s == a + "." + rest && rest == b + "." + c
    ensures Layout(s, a, b, c)
  {
    assert a + "." + (b + "." + c) == a + "." + b + "." + c;
  }

  /** A string is its part before a dot, the dot, and its part after. */
  lemma CutAtDot(s: string, i: int)
    requires 0 <= i < |s| && s[i] == '.'
    ensures s == s[..i] + "." + s[i + 1..]
  {
    assert s[..i] + [s[i]] + s[i + 1..] == s;
  }

  /** The value of two digit characters. */
  function TwoDigitValue(t: string): int
    requires |t| == 2 && AllDigits(t)
  {
    10 * DigitValue(t[0]) + DigitValue(t[1])
  }

  lemma Pad2RoundTrip(t: string, n: int)
    requires |t| == 2 && AllDigits(t) && 0 <= n < 100
    ensures Pad2(n) == t <==> TwoDigitValue(t) == n
  {
    var d0, d1 := DigitValue(t[0]), DigitValue(t[1]);
    assert Pad2(n)[0] == DigitChar(n / 10) && Pad2(n)[1] == DigitChar(n % 10);
    if TwoDigitValue(t) == n {
      assert n / 10 == d0 && n % 10 == d1;
      assert DigitChar(d0) == t[0] && DigitChar(d1) == t[1];
    }
  }

  lemma DayTokenOfPad2(n: int)
    requires 1 <= n <= 31
    ensures DayToken(Pad2(n)) == Some(n)
  {
    var t := Pad2(n);
    Pad2RoundTrip(t, n);
  }

  lemma MonthTokenOfPad2(n: int)
    requires 1 <= n <= 12
    ensures MonthToken(Pad2(n)) == Some(n)
  {
    var t := Pad2(n);
    Pad2RoundTrip(t, n);
  }

  /** The value of four digit characters. */
  function FourDigitValue(t: string): int
    requires |t| == 4 && AllDigits(t)
  {
    1000 * DigitValue(t[0]) + 100 * DigitValue(t[1]) + 10 * DigitValue(t[2]) + DigitValue(t[3])
  }

  lemma DivMod10(q: int, r: int)
    requires 0 <= r < 10
    ensures (10 * q + r) / 10 == q && (10 * q + r) % 10 == r
  {
  }

  lemma Pad4Value(n: int)
    requires 0 <= n < 10000
    ensures FourDigitValue(Pad4(n)) == n
  {
    var tens := n / 10;
    var hundreds := tens / 10;
    assert n == 10 * tens + n % 10;
    assert tens == 10 * hundreds + tens % 10;
    assert hundreds == 10 * (hundreds / 10) + hundreds % 10;
  }

  lemma Pad4OfValue(t: string)
    requires |t| == 4 && AllDigits(t)
    ensures Pad4(FourDigitValue(t)) == t
  {
    var d0, d1, d2, d3 := DigitValue(t[0]), DigitValue(t[1]), DigitValue(t[2]), DigitValue(t[3]);
    var n := FourDigitValue(t);
    var tens, hundreds := 100 * d0 + 10 * d1 + d2, 10 * d0 + d1;
    assert n == 10 * tens + d3;
    DivMod10(tens, d3);
    assert tens == 10 * hundreds + d2;
    DivMod10(hundreds, d2);
    DivMod10(d0, d1);
    assert n / 10 == tens && n % 10 == d3;
    assert tens / 10 == hundreds && tens % 10 == d2;
    assert hundreds / 10 == d0 && hundreds % 10 == d1;
    var p := Pad4(n);
    assert p[0] == t[0] && p[1] == t[1] && p[2] == t[2] && p[3] == t[3];
  }

  lemma Pad4RoundTrip(t: string, n: int)
    requires |t| == 4 && AllDigits(t) && 0 <= n < 10000
    ensures Pad4(n) == t <==> FourDigitValue(t) == n
  {
    Pad4Value(n);
    Pad4OfValue(t);
  }

  lemma YearTokenOfPad4(n: int)
    requires 0 <= n < 10000
    ensures YearToken(Pad4(n)) == Some(n)
  {
    Pad4RoundTrip(Pad4(n), n);
  }

  /** Formatting a date and reading it back gives the same date. */
  lemma FormatThenParse(d: Date)
    requires ValidDate(d)
    ensures ParseBirthday(FormatDate(d)) == Success(d)
  {
    DayTokenOfPad2(d.day);
    MonthTokenOfPad2(d.month);
    YearTokenOfPad4(d.year);
    ParseAccepts(Pad2(d.day), Pad2(d.month), Pad4(d.year), d);
  }

  /** The zero-padded shape `DD.MM.YYYY`. */
  predicate ZeroPadded(s: string) {
    && |s| == 10 && s[2] == '.' && s[5] == '.'
    && AllDigits(s[..2]) && AllDigits(s[3..5]) && AllDigits(s[6..])
  }

  lemma DayTokenDigits(t: string)
    requires |t| == 2 && AllDigits(t) && DayToken(t).Some?
    ensures DayToken(t).value == TwoDigitValue(t)
  {
  }

  lemma MonthTokenDigits(t: string)
    requires |t| == 2 && AllDigits(t) && MonthToken(t).Some?
    ensures MonthToken(t).value == TwoDigitValue(t)
  {
  }

  /** A zero-padded string that reads as a date is given back unchanged by
      formatting that date. */
  lemma ParseThenFormat(s: string)
    requires ZeroPadded(s) && ParseBirthday(s).Success?
    ensures FormatDate(ParseBirthday(s).value) == s
  {
    var a, b, c := s[..2], s[3..5], s[6..];
    assert s == a + "." + b + "." + c;
    assert '.' !in a && '.' !in b by {
      assert AllDigits(a) && AllDigits(b);
    }
    ParseOfLayout(a, b, c);
    var dt := ParseBirthday(s).value;
    assert DayToken(a) == Some(dt.day) && MonthToken(b) == Some(dt.month) && YearToken(c) == Some(dt.year);
    DayTokenDigits(a);
    MonthTokenDigits(b);
    Pad2RoundTrip(a, dt.day);
    Pad2RoundTrip(b, dt.month);
    Pad4RoundTrip(c, dt.year);
  }

  /** 31 February does not exist in any year. */
  lemma NoThirtyFirstOfFebruary()
    ensures ParseBirthday("31.02.2024") == Failure(InvalidDate)
  {
    assert ReadPieces("31", "02", "2024") == Failure(InvalidDate) by {
      assert DayToken("31") == Some(31);
      assert MonthToken("02") == Some(2);
      assert YearToken("2024") == Some(2024);
      assert !ValidDate(Date(2024, 2, 31));
    }
    assert "31.02.2024" == "31" + "." + "02" + "." + "2024";
    ParseOfLayout("31", "02", "2024");
  }

  /** 29 February exists only in leap years. */
  lemma NoLeapDayIn2023()
    ensures ParseBirthday("29.02.2023") == Failure(InvalidDate)
  {
    assert ReadPieces("29", "02", "2023") == Failure(InvalidDate) by {
      assert DayToken("29") == Some(29);
      assert MonthToken("02") == Some(2);
      assert YearToken("2023") == Some(2023);
      assert !ValidDate(Date(2023, 2, 29));
    }
    assert "29.02.2023" == "29" + "." + "02" + "." + "2023";
    ParseOfLayout("29", "02", "2023");
  }

  /** A two-digit year is refused. */
  lemma ShortYearRejected()
    ensures ParseBirthday("15.03.90") == Failure(InvalidDate)
  {
    assert ReadPieces("15", "03", "90") == Failure(InvalidDate) by {
      assert YearToken("90") == None;
    }
    assert "15.03.90" == "15" + "." + "03" + "." + "90";
    ParseOfLayout("15", "03", "90");
  }

  /** The year 0000 matches `%Y` but is not a date. */
  lemma YearZeroRejected()
    ensures ParseBirthday("15.03.0000") == Failure(InvalidDate)
  {
    assert ReadPieces("15", "03", "0000") == Failure(InvalidDate) by {
      assert YearToken("0000") == Some(0);
    }
    assert "15.03.0000" == "15" + "." + "03" + "." + "0000";
    ParseOfLayout("15", "03", "0000");
  }

  /** 29 February of a leap year is accepted. */
  lemma LeapDayIn2024Accepted()
    ensures ParseBirthday("29.02.2024") == Success(Date(2024, 2, 29))
  {
    assert ReadPieces("29", "02", "2024") == Success(Date(2024, 2, 29)) by {
      assert DayToken("29") == Some(29);
      assert MonthToken("02") == Some(2);
      assert YearToken("2024") == Some(2024);
    }
    assert "29.02.2024" == "29" + "." + "02" + "." + "2024";
    ParseOfLayout("29", "02", "2024");
  }

  /** One-digit day and month are accepted. */
  lemma ShortFieldsAccepted()
    ensures ParseBirthday("1.2.2024") == Success(Date(2024, 2, 1))
  {
    assert ReadPieces("1", "2", "2024") == Success(Date(2024, 2, 1)) by {
      assert DayToken("1") == Some(1);
      assert MonthToken("2") == Some(2);
      assert YearToken("2024") == Some(2024);
    }
    assert "1.2.2024" == "1" + "." + "2" + "." + "2024";
    ParseOfLayout("1", "2", "2024");
  }
}
