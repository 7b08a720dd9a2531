/** Calendar dates as the program uses them: text in the `%Y-%m-%d` layout,
    read the way Python's `datetime.strptime` reads it, and turned into
    proleptic-Gregorian day ordinals (0001-01-01 is day 1, as in
    `date.toordinal`), so that `timedelta(days = n)` is plain subtraction. */
module Calendar {

  import opened Outcomes

  datatype Date = Date(year: int, month: int, day: int)

  /** Weekday numbers as `date.weekday` gives them. */
  const Monday := 0
  const Tuesday := 1
  const Wednesday := 2
  const Thursday := 3
  const Friday := 4
  const Saturday := 5
  const Sunday := 6

  predicate IsLeapYear(y: int)
  {
    y % 4 == 0 && (y % 100 != 0 || y % 400 == 0)
  }

  function DaysInMonth(y: int, m: int): (n: int)
    requires 1 <= m <= 12
    ensures 28 <= n <= 31
  {
    if m == 2 then (if IsLeapYear(y) then 29 else 28)
    else if m == 4 || m == 6 || m == 9 || m == 11 then 30
    else 31
  }

  /** The dates `datetime` accepts: years 1 to 9999, real months and days. */
  predicate ValidDate(d: Date)
  {
    && 1 <= d.year <= 9999
    && 1 <= d.month <= 12
    && 1 <= d.day <= DaysInMonth(d.year, d.month)
  }

  function DaysBeforeYear(y: int): (n: int)
    requires y >= 1
    ensures n >= 0
  {
    var y1 := y - 1;
    y1 * 365 + y1 / 4 - y1 / 100 + y1 / 400
  }

  function DaysBeforeMonth(y: int, m: int): (n: int)
    requires 1 <= m <= 12
    ensures n >= 0
  {
    if m == 1 then 0 else DaysBeforeMonth(y, m - 1) + DaysInMonth(y, m - 1)
  }

  function DaysInYear(y: int): int
  {
    if IsLeapYear(y) then 366 else 365
  }

  /** Day number of a date, counting 0001-01-01 as day 1. */
  function Ordinal(d: Date): int
    requires ValidDate(d)
  {
    DaysBeforeYear(d.year) + DaysBeforeMonth(d.year, d.month) + d.day
  }

  /** A date's number is a day of its own year: after every day of the years
      before it and no later than the year's last day. */
  lemma OrdinalWithinYear(d: Date)
    requires ValidDate(d)
    ensures DaysBeforeYear(d.year) < Ordinal(d) <= DaysBeforeYear(d.year) + DaysInYear(d.year)
  {
    MonthWithinYear(d.year, d.month);
  }

  /** Day of the week of a day ordinal, Monday being 0 (0001-01-01 was a Monday). */
  function Weekday(ordinal: int): (w: int)
    ensures 0 <= w < 7
  {
    (ordinal + 6) % 7
  }

  /** `a < b` on the `datetime` values `strptime` returns for two dates:
      year first, then month, then day. */
  predicate DateBefore(a: Date, b: Date)
  {
    || a.year < b.year
    || (a.year == b.year && a.month < b.month)
    || (a.year == b.year && a.month == b.month && a.day < b.day)
  }

  /** The calendar day after `d`. */
  function NextDay(d: Date): Date
    requires ValidDate(d)
  {
    if d.day < DaysInMonth(d.year, d.month) then Date(d.year, d.month, d.day + 1)
    else if d.month < 12 then Date(d.year, d.month + 1, 1)
    else Date(d.year + 1, 1, 1)
  }

  lemma {:induction false} DaysBeforeDecember(y: int)
    ensures DaysBeforeMonth(y, 12) + DaysInMonth(y, 12) == DaysInYear(y)
  {
    var feb := DaysInMonth(y, 2);
    assert DaysBeforeMonth(y, 2) == 31;
    assert DaysBeforeMonth(y, 3) == 31 + feb;
    assert DaysBeforeMonth(y, 4) == 62 + feb;
    assert DaysBeforeMonth(y, 5) == 92 + feb;
    assert DaysBeforeMonth(y, 6) == 123 + feb;
    assert DaysBeforeMonth(y, 7) == 153 + feb;
    assert DaysBeforeMonth(y, 8) == 184 + feb;
    assert DaysBeforeMonth(y, 9) == 215 + feb;
    assert DaysBeforeMonth(y, 10) == 245 + feb;
    assert DaysBeforeMonth(y, 11) == 276 + feb;
    assert DaysBeforeMonth(y, 12) == 306 + feb;
  }

  /** Going from year `y - 1` to `y`, the count of multiples of a leap-rule
      divisor goes up by one exactly when `y` is one. */
  lemma MultiplesStep(y: int, k: int)
    requires k == 4 || k == 100 || k == 400
    ensures y / k - (y - 1) / k == (if y % k == 0 then 1 else 0)
  {
    if k == 4 {
    } else if k == 100 {
    } else {
    }
  }

  /** Multiples of 400 are multiples of 100, which are multiples of 4. */
  lemma DivisorsNest(y: int)
    ensures y % 400 == 0 ==> y % 100 == 0
    ensures y % 100 == 0 ==> y % 4 == 0
  {
    var q400, q100, r100, q4, r4 := y / 400, y / 100, y % 100, y / 4, y % 4;
    assert y == 400 * q400 + y % 400;
    assert y == 100 * q100 + r100 && 0 <= r100 < 100;
    assert y == 4 * q4 + r4 && 0 <= r4 < 4;
    if y % 400 == 0 {
      assert 100 * (4 * q400 - q100) == r100;
    }
    if r100 == 0 {
      assert 4 * (25 * q100 - q4) == r4;
    }
  }

  /** A month ends no later than any later month begins. */
  lemma {:induction false} MonthsBefore(y: int, m1: int, m2: int)
    requires 1 <= m1 < m2 <= 12
    ensures DaysBeforeMonth(y, m1) + DaysInMonth(y, m1) <= DaysBeforeMonth(y, m2)
    decreases m2
  {
    if m1 < m2 - 1 {
      MonthsBefore(y, m1, m2 - 1);
    }
  }

  /** Every month ends within its year. */
  lemma MonthWithinYear(y: int, m: int)
    requires 1 <= m <= 12
    ensures DaysBeforeMonth(y, m) + DaysInMonth(y, m) <= DaysInYear(y)
  {
    if m < 12 {
      MonthsBefore(y, m, 12);
    }
    DaysBeforeDecember(y);
  }

  /** A year ends no later than any later year begins. */
  lemma {:induction false} YearsBefore(y1: int, y2: int)
    requires 1 <= y1 < y2
    ensures DaysBeforeYear(y1) + DaysInYear(y1) <= DaysBeforeYear(y2)
    decreases y2 - y1
  {
    YearLength(y1);
    if y1 + 1 < y2 {
      YearsBefore(y1 + 1, y2);
    }
  }

  lemma YearLength(y: int)
    requires y >= 1
    ensures DaysBeforeYear(y + 1) == DaysBeforeYear(y) + DaysInYear(y)
  {
    MultiplesStep(y, 4);
    MultiplesStep(y, 100);
    MultiplesStep(y, 400);
    var leap := (if y % 4 == 0 then 1 else 0) - (if y % 100 == 0 then 1 else 0) + (if y % 400 == 0 then 1 else 0);
    DivisorsNest(y);
    assert DaysInYear(y) == 365 + leap;
    assert DaysBeforeYear(y + 1) == y * 365 + y / 4 - y / 100 + y / 400;
    assert DaysBeforeYear(y) == (y - 1) * 365 + (y - 1) / 4 - (y - 1) / 100 + (y - 1) / 400;
  }

  /** The ordinal numbering has no gaps or overlaps: the next calendar day
      always has the next ordinal, across month and year ends and leap days.
      So subtracting `n` from an ordinal is going back `n` calendar days. */
  lemma NextDayOrdinal(d: Date)
    requires ValidDate(d)
    requires d.year < 9999 || d.month < 12 || d.day < 31
    ensures ValidDate(NextDay(d))
    ensures Ordinal(NextDay(d)) == Ordinal(d) + 1
  {
    if d.day < DaysInMonth(d.year, d.month) {
    } else if d.month < 12 {
    } else {
      DaysBeforeDecember(d.year);
      YearLength(d.year);
    }
  }

  /** Ordinals order dates as the calendar does, and distinct dates have
      distinct ordinals: comparing ordinals is comparing the dates. */
  lemma OrdinalOrder(a: Date, b: Date)
    requires ValidDate(a) && ValidDate(b)
    ensures DateBefore(a, b) <==> Ordinal(a) < Ordinal(b)
    ensures a == b <==> Ordinal(a) == Ordinal(b)
  {
    OrdinalWithinYear(a);
    OrdinalWithinYear(b);
    if a.year < b.year {
      YearsBefore(a.year, b.year);
    } else if b.year < a.year {
      YearsBefore(b.year, a.year);
    } else if a.month < b.month {
      MonthsBefore(a.year, a.month, b.month);
    } else if b.month < a.month {
      MonthsBefore(a.year, b.month, a.month);
    }
  }

  /** Seven days back is the same weekday. */
  lemma WeekdayPeriodic(ordinal: int, k: int)
    ensures Weekday(ordinal - 7 * k) == Weekday(ordinal)
  {
  }

  /** The days before a Monday are the Sunday, Saturday, Friday and Thursday
      before it. */
  lemma DaysBeforeMonday(ordinal: int)
    requires Weekday(ordinal) == Monday
    ensures Weekday(ordinal - 1) == Sunday
    ensures Weekday(ordinal - 2) == Saturday
    ensures Weekday(ordinal - 3) == Friday
    ensures Weekday(ordinal - 4) == Thursday
  {
  }

  // ---------------------------------------------------------------------------
  // Reading `%Y-%m-%d` text.

  predicate IsDigit(c: char)
  {
    '0' <= c <= '9'
  }

  function DigitValue(c: char): (v: int)
    requires IsDigit(c)
    ensures 0 <= v <= 9
  {
    c as int - '0' as int
  }

  /** The `%m` field: `1[0-2]`, `0[1-9]` or `[1-9]`, tried in that order; yields
      the month and the number of characters read. */
  function MonthField(t: string): Option<(int, int)>
  {
    if |t| >= 2 && t[0] == '1' && '0' <= t[1] <= '2' then Some((10 + DigitValue(t[1]), 2))
    else if |t| >= 2 && t[0] == '0' && '1' <= t[1] <= '9' then Some((DigitValue(t[1]), 2))
    else if |t| >= 1 && '1' <= t[0] <= '9' then Some((DigitValue(t[0]), 1))
    else None
  }

  /** The `%d` field: `3[01]`, `[12]\d`, `0[1-9]`, `[1-9]` or a space and `[1-9]`,
      the first alternative that matches winning; yields the day and the number
      of characters read. */
  function DayField(t: string): Option<(int, int)>
  {
    if |t| >= 2 && t[0] == '3' && '0' <= t[1] <= '1' then Some((30 + DigitValue(t[1]), 2))
    else if |t| >= 2 && '1' <= t[0] <= '2' && IsDigit(t[1]) then Some((10 * DigitValue(t[0]) + DigitValue(t[1]), 2))
    else if |t| >= 2 && t[0] == '0' && '1' <= t[1] <= '9' then Some((DigitValue(t[1]), 2))
    else if |t| >= 1 && '1' <= t[0] <= '9' then Some((DigitValue(t[0]), 1))
    else if |t| >= 2 && t[0] == ' ' && '1' <= t[1] <= '9' then Some((DigitValue(t[1]), 2))
    else None
  }

  /** `datetime.strptime(s, "%Y-%m-%d")`: four year digits, a dash, the month
      field, a dash, the day field, and nothing after it ("unconverted data
      remains" otherwise); then the date must exist (year 0 and 31 April are
      rejected). `None` stands for the `ValueError`. */
  function ParseDate(s: string): (r: Option<Date>)
    ensures r.Some? ==> ValidDate(r.value)
  {
    if |s| < 8 || !(IsDigit(s[0]) && IsDigit(s[1]) && IsDigit(s[2]) && IsDigit(s[3])) || s[4] != '-' then None
    else
      var year := 1000 * DigitValue(s[0]) + 100 * DigitValue(s[1]) + 10 * DigitValue(s[2]) + DigitValue(s[3]);
      match MonthField(s[5..])
      case None => None
      case Some((month, mLen)) =>
        var rest := s[5 + mLen..];
        if |rest| == 0 || rest[0] != '-' then None
        else
          match DayField(rest[1..])
          case None => None
          case Some((day, dLen)) =>
            if dLen != |rest| - 1 then None
            else if ValidDate(Date(year, month, day)) then Some(Date(year, month, day))
            else None
  }

  /** The day ordinal of a date string, `None` where `strptime` raises. */
  function ParseDay(s: string): (r: Option<int>)
    ensures r.Some? ==> r.value >= 1
  {
    match ParseDate(s)
    case None => None
    case Some(d) => Some(Ordinal(d))
  }

  // ---------------------------------------------------------------------------
  // Writing dates as `strftime("%Y-%m-%d")` does for four-digit years.

  function Digit(n: int): (c: char)
    requires 0 <= n <= 9
    ensures IsDigit(c) && DigitValue(c) == n
  {
    ('0' as int + n) as char
  }

  /** A four-digit year as `%Y` writes it: four digits that read back as the
      year. */
  function YearText(y: int): (t: string)
    requires 1000 <= y <= 9999
    ensures |t| == 4 && IsDigit(t[0]) && IsDigit(t[1]) && IsDigit(t[2]) && IsDigit(t[3])
    ensures 1000 * DigitValue(t[0]) + 100 * DigitValue(t[1]) + 10 * DigitValue(t[2]) + DigitValue(t[3]) == y
  {
    var tens := y / 10;
    var hundreds := tens / 10;
    var thousands := hundreds / 10;
    [Digit(thousands), Digit(hundreds % 10), Digit(tens % 10), Digit(y % 10)]
  }

  /** `strftime("%Y-%m-%d")`: the year's four digits, then the month and the
      day as two digits each, zero-padded, separated by dashes. */
  function FormatDate(d: Date): (s: string)
    requires ValidDate(d) && d.year >= 1000
    ensures |s| == 10 && s[4] == '-' && s[7] == '-'
    ensures forall k | 0 <= k < 10 && k != 4 && k != 7 :: IsDigit(s[k])
    ensures 1000 * DigitValue(s[0]) + 100 * DigitValue(s[1]) + 10 * DigitValue(s[2]) + DigitValue(s[3]) == d.year
    ensures 10 * DigitValue(s[5]) + DigitValue(s[6]) == d.month
    ensures 10 * DigitValue(s[8]) + DigitValue(s[9]) == d.day
  {
    YearText(d.year) + ['-', Digit(d.month / 10), Digit(d.month % 10), '-', Digit(d.day / 10), Digit(d.day % 10)]
  }

  /** A zero-padded month is read by the first or second `%m` alternative,
      as two characters, whatever follows it. */
  lemma PaddedMonth(m: int, rest: string)
    requires 1 <= m <= 12
    ensures MonthField([Digit(m / 10), Digit(m % 10)] + rest) == Some((m, 2))
  {
  }

  /** A zero-padded day is read as two characters. */
  lemma PaddedDay(d: int)
    requires 1 <= d <= 31
    ensures DayField([Digit(d / 10), Digit(d % 10)]) == Some((d, 2))
  {
  }

  /** What the program writes it can read back: the zero-padded layout is
      accepted by the `strptime` grammar and yields the same date. */
  lemma ParseFormatRoundTrip(d: Date)
    requires ValidDate(d) && d.year >= 1000
    ensures ParseDate(FormatDate(d)) == Some(d)
  {
    var s := FormatDate(d);
    var yearText := YearText(d.year);
    assert s[..4] == yearText;
    var dayText := [Digit(d.day / 10), Digit(d.day % 10)];
    assert s[5..] == [Digit(d.month / 10), Digit(d.month % 10)] + (['-'] + dayText);
    PaddedMonth(d.month, ['-'] + dayText);
    assert s[7..] == ['-'] + dayText;
    assert s[7..][1..] == dayText;
    PaddedDay(d.day);
  }
}
