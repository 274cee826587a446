/** The proleptic Gregorian calendar of Python's `datetime.date`: years
    1..9999, leap years, days per month, the day ordinal (`toordinal`, with
    1 January of year 1 as day 1) and the weekday (`weekday`, Monday = 0). */
module Calendar {

  const MinYear := 1
  const MaxYear := 9999

  /** A date as Python stores it: year, month, day. */
  datatype Date = Date(year: int, month: int, day: int)

  datatype Weekday = Monday | Tuesday | Wednesday | Thursday | Friday | Saturday | Sunday

  predicate IsLeap(y: int) {
    y % 4 == 0 && (y % 100 != 0 || y % 400 == 0)
  }

  function DaysInYear(y: int): int {
    if IsLeap(y) then 366 else 365
  }

  function DaysInMonth(y: int, m: int): (n: int)
    requires 1 <= m <= 12
    ensures 28 <= n <= 31
    ensures n == 29 <==> m == 2 && IsLeap(y)
  {
    if m == 2 then (if IsLeap(y) then 29 else 28)
    else if m == 4 || m == 6 || m == 9 || m == 11 then 30
    else 31
  }

  /** A date the `date` constructor accepts. */
  predicate ValidDate(d: Date) {
    && MinYear <= d.year <= MaxYear
    && 1 <= d.month <= 12
    && 1 <= d.day <= DaysInMonth(d.year, d.month)
  }

  /** Python's date ordering: by year, then month, then day. */
  predicate Before(a: Date, b: Date) {
    || a.year < b.year
    || (a.year == b.year && a.month < b.month)
    || (a.year == b.year && a.month == b.month && a.day < b.day)
  }

  /** Days in the years before `y` (`_days_before_year`). */
  function DaysBeforeYear(y: int): int
    requires y >= 1
  {
    var p := y - 1;
    p * 365 + p / 4 - p / 100 + p / 400
  }

  /** Days in the months of year `y` before month `m` (`_days_before_month`). */
  function DaysBeforeMonth(y: int, m: int): int
    requires 1 <= m <= 12
  {
    var before :=
      if m == 1 then 0 else if m == 2 then 31 else if m == 3 then 59
      else if m == 4 then 90 else if m == 5 then 120 else if m == 6 then 151
      else if m == 7 then 181 else if m == 8 then 212 else if m == 9 then 243
      else if m == 10 then 273 else if m == 11 then 304 else 334;
    before + (if m > 2 && IsLeap(y) then 1 else 0)
  }

  /** `date.toordinal()`. */
  function Ordinal(d: Date): int
    requires ValidDate(d)
  {
    DaysBeforeYear(d.year) + DaysBeforeMonth(d.year, d.month) + d.day
  }

  function WeekdayFromIndex(k: int): Weekday
    requires 0 <= k < 7
  {
    [Monday, Tuesday, Wednesday, Thursday, Friday, Saturday, Sunday][k]
  }

  /** The weekday of the date with ordinal `n`: day 1 was a Monday. */
  function WeekdayOfOrdinal(n: int): Weekday {
    WeekdayFromIndex((n + 6) % 7)
  }

  function WeekdayOf(d: Date): Weekday
    requires ValidDate(d)
  {
    WeekdayOfOrdinal(Ordinal(d))
  }

  /** The English name `strftime('%A')` gives in the C locale. */
  function WeekdayName(w: Weekday): string {
    match w
    case Monday => "Monday"
    case Tuesday => "Tuesday"
    case Wednesday => "Wednesday"
    case Thursday => "Thursday"
    case Friday => "Friday"
    case Saturday => "Saturday"
    case Sunday => "Sunday"
  }

  /** A year contributes its own length to the ordinals after it. */
  lemma DaysBeforeNextYear(y: int)
    requires y >= 1
    ensures DaysBeforeYear(y + 1) == DaysBeforeYear(y) + DaysInYear(y)
  {
    var p := y - 1;
    DivStep(p, 4);
    DivStep(p, 100);
    DivStep(p, 400);
    if y % 400 == 0 {
      DivUnique(y, 100, 4 * (y / 400), 0);
    }
    if y % 100 == 0 {
      DivUnique(y, 4, 25 * (y / 100), 0);
    }
  }

  /** Counting one more number adds a multiple of `k` exactly when the new
      number is one. */
  lemma DivStep(p: int, k: int)
    requires p >= 0 && k > 0
    ensures (p + 1) / k == p / k + (if (p + 1) % k == 0 then 1 else 0)
  {
    var q, r := p / k, p % k;
    assert p == k * q + r;
    if r + 1 < k {
      DivUnique(p + 1, k, q, r + 1);
    } else {
      assert p + 1 == k * (q + 1);
      DivUnique(p + 1, k, q + 1, 0);
    }
  }

  /** Quotient and remainder are the only ones with `0 <= r < k`. */
  lemma DivUnique(n: int, k: int, q: int, r: int)
    requires k > 0 && 0 <= r < k && n == k * q + r
    ensures n / k == q && n % k == r
  {
    var q', r' := n / k, n % k;
    assert k * q' + r' == k * q + r;
    if q' < q {
      assert k * (q - q') == k * q - k * q';
      MulAtLeast(k, q - q');
    } else if q' > q {
      assert k * (q' - q) == k * q' - k * q;
      MulAtLeast(k, q' - q);
    }
  }

  lemma MulAtLeast(k: int, d: int)
    requires k > 0 && d >= 1
    ensures k * d >= k
  {
    assert k * d == k * (d - 1) + k;
    assert k * (d - 1) >= 0;
  }

  lemma {:induction false} DaysBeforeYearGrows(y: int, z: int)
    requires 1 <= y < z
    ensures DaysBeforeYear(y) + DaysInYear(y) <= DaysBeforeYear(z)
    decreases z - y
  {
    DaysBeforeNextYear(y);
    if y + 1 < z {
      DaysBeforeYearGrows(y + 1, z);
    }
  }

  /** The days of a month lie between the start of that month and the
      start of any later month; the whole year fits in its length. */
  lemma DaysBeforeMonthGrows(y: int, m: int, n: int)
    requires 1 <= m <= 12 && 1 <= n <= 12
    ensures m < n ==> DaysBeforeMonth(y, m) + DaysInMonth(y, m) <= DaysBeforeMonth(y, n)
    ensures DaysBeforeMonth(y, m) + DaysInMonth(y, m) <= DaysInYear(y)
  {
  }

  lemma OrdinalMonotone(a: Date, b: Date)
    requires ValidDate(a) && ValidDate(b)
    requires Before(a, b)
    ensures Ordinal(a) < Ordinal(b)
  {
    DaysBeforeMonthGrows(a.year, a.month, b.month);
    if a.year < b.year {
      DaysBeforeYearGrows(a.year, b.year);
    }
  }

  /** Comparing dates is comparing their ordinals: `Before` and `<` on
      `toordinal()` agree in both directions. */
  lemma OrdinalOrder(a: Date, b: Date)
    requires ValidDate(a) && ValidDate(b)
    ensures Before(a, b) <==> Ordinal(a) < Ordinal(b)
    ensures a == b <==> Ordinal(a) == Ordinal(b)
  {
    if Before(a, b) {
      OrdinalMonotone(a, b);
    } else if Before(b, a) {
      OrdinalMonotone(b, a);
    } else {
      assert a == b;
    }
  }

  /** Two real dates with the same month and day but different years lie
      at least a common year apart. */
  lemma SameDayYearsApart(a: Date, b: Date)
    requires ValidDate(a) && ValidDate(b)
    requires a.month == b.month && a.day == b.day && a.year < b.year
    ensures Ordinal(b) - Ordinal(a) >= 365
  {
    DaysBeforeYearGrows(a.year, b.year);
  }

  /** Two fixed points of the weekday count: day 1 (1 January of year 1)
      and 10 June 2024 were both Mondays, 13 June 2024 a Thursday. */
  lemma KnownWeekdays()
    ensures WeekdayOf(Date(1, 1, 1)) == Monday
    ensures WeekdayOf(Date(2024, 6, 10)) == Monday
    ensures WeekdayOf(Date(2024, 6, 13)) == Thursday
  {
  }
}
