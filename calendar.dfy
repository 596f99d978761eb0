/**
 * The date arithmetic behind `days_before_expire`: parsing a `%d-%m-%y`
 * date the way `datetime.strptime` does, and subtracting two dates as
 * day counts of the proleptic Gregorian calendar, as `datetime` does.
 */
module Calendar {

  import opened Wrappers
  import Text

  /** A calendar date; `ValidDate` says when it names a real day. */
  datatype Date = Date(year: int, month: int, day: int)

  predicate IsLeapYear(y: int)
  {
    y % 4 == 0 && (y % 100 != 0 || y % 400 == 0)
  }

  function DaysInMonth(y: int, m: int): (n: int)
    requires 1 <= m <= 12
    ensures 28 <= n <= 31
    ensures n == 29 <==> m == 2 && IsLeapYear(y)
  {
    if m == 2 then (if IsLeapYear(y) then 29 else 28)
    else if m == 4 || m == 6 || m == 9 || m == 11 then 30
    else 31
  }

  function DaysInYear(y: int): int
  {
    if IsLeapYear(y) then 366 else 365
  }

  /** The day exists in the proleptic Gregorian calendar, from year 1 on. */
  predicate ValidDate(d: Date)
  {
    1 <= d.year && 1 <= d.month <= 12 && 1 <= d.day <= DaysInMonth(d.year, d.month)
  }

  /** Number of days in the years before year `y`. */
  function DaysBeforeYear(y: int): int
    requires 1 <= y
  {
    var p := y - 1;
    p * 365 + p / 4 - p / 100 + p / 400
  }

  /** Number of days in the months of year `y` before month `m`. */
  function DaysBeforeMonth(y: int, m: int): int
    requires 1 <= m <= 12
  {
    [0, 31, 59, 90, 120, 151, 181, 212, 243, 273, 304, 334][m - 1]
      + (if m > 2 && IsLeapYear(y) then 1 else 0)
  }

  /** The day count of `d`, 1 January of year 1 being day 1 (`date.toordinal`). */
  function Ordinal(d: Date): int
    requires ValidDate(d)
  {
    DaysBeforeYear(d.year) + DaysBeforeMonth(d.year, d.month) + d.day
  }

  /** The calendar's own successor: the day after `d`. */
  function NextDay(d: Date): (e: Date)
    requires ValidDate(d)
    ensures ValidDate(e)
  {
    if d.day < DaysInMonth(d.year, d.month) then Date(d.year, d.month, d.day + 1)
    else if d.month < 12 then Date(d.year, d.month + 1, 1)
    else Date(d.year + 1, 1, 1)
  }

  /** `a` comes strictly before `b` in calendar order. */
  predicate Before(a: Date, b: Date)
  {
    a.year < b.year
    || (a.year == b.year && (a.month < b.month || (a.month == b.month && a.day < b.day)))
  }

  lemma DaysBeforeMonthStep(y: int, m: int)
    requires 1 <= m < 12
    ensures DaysBeforeMonth(y, m + 1) == DaysBeforeMonth(y, m) + DaysInMonth(y, m)
  {
  }

  /** A year holds `DaysInYear` days: the leap-year rule and the day count agree. */
  lemma DaysBeforeYearStep(y: int)
    requires 1 <= y
    ensures DaysBeforeYear(y + 1) == DaysBeforeYear(y) + DaysInYear(y)
  {
    QuarterStep(y);
    CenturyStep(y);
    QuadCenturyStep(y);
    DivisorsNest(y);
    assert DaysBeforeYear(y + 1) == y * 365 + y / 4 - y / 100 + y / 400;
    assert DaysBeforeYear(y) == (y - 1) * 365 + (y - 1) / 4 - (y - 1) / 100 + (y - 1) / 400;
  }

  /** A multiple of 400 is one of 100, and a multiple of 100 one of 4. */
  lemma DivisorsNest(y: int)
    ensures y % 400 == 0 ==> y % 100 == 0
    ensures y % 100 == 0 ==> y % 4 == 0
  {
  }

  lemma QuarterStep(y: int)
    ensures y / 4 == (y - 1) / 4 + (if y % 4 == 0 then 1 else 0)
  {
  }

  lemma CenturyStep(y: int)
    ensures y / 100 == (y - 1) / 100 + (if y % 100 == 0 then 1 else 0)
  {
  }

  lemma QuadCenturyStep(y: int)
    ensures y / 400 == (y - 1) / 400 + (if y % 400 == 0 then 1 else 0)
  {
  }

  lemma {:induction false} DaysBeforeYearMonotone(y1: int, y2: int)
    requires 1 <= y1 < y2
    ensures DaysBeforeYear(y1) + DaysInYear(y1) <= DaysBeforeYear(y2)
    decreases y2 - y1
  {
    DaysBeforeYearStep(y1);
    if y1 + 1 < y2 {
      DaysBeforeYearMonotone(y1 + 1, y2);
    }
  }

  lemma {:induction false} DaysBeforeMonthMonotone(y: int, m1: int, m2: int)
    requires 1 <= m1 < m2 <= 12
    ensures DaysBeforeMonth(y, m1) + DaysInMonth(y, m1) <= DaysBeforeMonth(y, m2)
    decreases m2 - m1
  {
    DaysBeforeMonthStep(y, m1);
    if m1 + 1 < m2 {
      DaysBeforeMonthMonotone(y, m1 + 1, m2);
    }
  }

  /** The day count agrees with the calendar: the next day is one day later. */
  lemma NextDayOrdinal(d: Date)
    requires ValidDate(d)
    ensures Ordinal(NextDay(d)) == Ordinal(d) + 1
  {
    if d.day == DaysInMonth(d.year, d.month) {
      if d.month < 12 {
        DaysBeforeMonthStep(d.year, d.month);
      } else {
        DaysBeforeYearStep(d.year);
      }
    }
  }

  /** Calendar order and day-count order coincide. */
  lemma OrdinalMonotone(a: Date, b: Date)
    requires ValidDate(a) && ValidDate(b) && Before(a, b)
    ensures Ordinal(a) < Ordinal(b)
  {
    if a.year < b.year {
      DaysBeforeMonthBound(a.year, a.month);
      DaysBeforeYearMonotone(a.year, b.year);
    } else if a.month < b.month {
      DaysBeforeMonthMonotone(a.year, a.month, b.month);
    }
  }

  lemma DaysBeforeMonthBound(y: int, m: int)
    requires 1 <= m <= 12
    ensures DaysBeforeMonth(y, m) + DaysInMonth(y, m) <= DaysInYear(y)
  {
  }

  /**
   * The sign of `Ordinal(b) - Ordinal(a)` tells the calendar order: positive
   * when `a` is earlier, zero for the same day, negative when `a` is later.
   */
  lemma DeltaSign(a: Date, b: Date)
    requires ValidDate(a) && ValidDate(b)
    ensures Ordinal(b) - Ordinal(a) > 0 <==> Before(a, b)
    ensures Ordinal(b) - Ordinal(a) == 0 <==> a == b
    ensures Ordinal(b) - Ordinal(a) < 0 <==> Before(b, a)
  {
    if Before(a, b) {
      OrdinalMonotone(a, b);
    } else if Before(b, a) {
      OrdinalMonotone(b, a);
    }
  }

  predicate IsDigit(c: char)
  {
    '0' <= c <= '9'
  }

  function DigitValue(c: char): (n: int)
    requires IsDigit(c)
    ensures 0 <= n <= 9
  {
    c as int - '0' as int
  }

  /** strptime's `%d`, `3[01]|[12]\d|0[1-9]|[1-9]| [1-9]`, against a whole field. */
  function ParseDayField(f: string): (r: Option<int>)
    ensures r.Some? ==> 1 <= r.value <= 31
  {
    if |f| == 1 && '1' <= f[0] <= '9' then Some(DigitValue(f[0]))
    else if |f| == 2 && f[0] == ' ' && '1' <= f[1] <= '9' then Some(DigitValue(f[1]))
    else if |f| == 2 && ((f[0] == '3' && (f[1] == '0' || f[1] == '1'))
                         || ('1' <= f[0] <= '2' && IsDigit(f[1]))
                         || (f[0] == '0' && '1' <= f[1] <= '9'))
    then Some(10 * DigitValue(f[0]) + DigitValue(f[1]))
    else None
  }

  /** strptime's `%m`, `1[0-2]|0[1-9]|[1-9]`, against a whole field. */
  function ParseMonthField(f: string): (r: Option<int>)
    ensures r.Some? ==> 1 <= r.value <= 12
  {
    if |f| == 1 && '1' <= f[0] <= '9' then Some(DigitValue(f[0]))
    else if |f| == 2 && ((f[0] == '1' && '0' <= f[1] <= '2') || (f[0] == '0' && '1' <= f[1] <= '9'))
    then Some(10 * DigitValue(f[0]) + DigitValue(f[1]))
    else None
  }

  /** strptime's `%y`, `\d\d`; 00 to 68 are 2000 to 2068, 69 to 99 are 1969 to 1999. */
  function ParseYearField(f: string): (r: Option<int>)
    ensures r.Some? ==> 1969 <= r.value <= 2068
  {
    if |f| == 2 && IsDigit(f[0]) && IsDigit(f[1]) then
      var yy := 10 * DigitValue(f[0]) + DigitValue(f[1]);
      Some(if yy <= 68 then 2000 + yy else 1900 + yy)
    else None
  }

  /**
   * `datetime.strptime(s, "%d-%m-%y")`, None standing for the ValueError.
   * No field can contain `-`, so the fields are the text before the first
   * `-`, between the first and the second, and after the second; the whole
   * string must be consumed, and the day must exist in that month.
   */
  function ParseDate(s: string): (r: Option<Date>)
    ensures r.Some? ==> ValidDate(r.value) && 1969 <= r.value.year <= 2068
  {
    match Text.FirstIndex(s, '-')
    case None => None
    case Some(i) =>
      var rest := s[i + 1..];
      match Text.FirstIndex(rest, '-')
      case None => None
      case Some(j) =>
        match (ParseDayField(s[..i]), ParseMonthField(rest[..j]), ParseYearField(rest[j + 1..]))
        case (Some(d), Some(m), Some(y)) =>
          if d <= DaysInMonth(y, m) then Some(Date(y, m, d)) else None
        case _ => None
  }

  /** Two decimal digits for `0 <= n <= 99`, zero-padded as `%02d` writes them. */
  function TwoDigits(n: int): (s: string)
    requires 0 <= n <= 99
    ensures |s| == 2 && IsDigit(s[0]) && IsDigit(s[1])
    ensures 10 * DigitValue(s[0]) + DigitValue(s[1]) == n
  {
    [('0' as int + n / 10) as char, ('0' as int + n % 10) as char]
  }

  /** The `DD-MM-YY` text of a date, as `strftime("%d-%m-%y")` writes it. */
  function FormatDate(d: Date): string
    requires ValidDate(d)
  {
    TwoDigits(d.day) + "-" + TwoDigits(d.month) + "-" + TwoDigits(d.year % 100)
  }

  /** Every date strptime can produce is read back from its `DD-MM-YY` text. */
  lemma ParseFormatRoundTrip(d: Date)
    requires ValidDate(d) && 1969 <= d.year <= 2068
    ensures ParseDate(FormatDate(d)) == Some(d)
  {
    var dd, mm, yy := TwoDigits(d.day), TwoDigits(d.month), TwoDigits(d.year % 100);
    var s := FormatDate(d);
    assert s == dd + "-" + mm + "-" + yy;
    assert s[2] == '-' && '-' !in s[..2];
    assert Text.FirstIndex(s, '-') == Some(2);
    var rest := s[3..];
    assert rest == mm + "-" + yy;
    assert rest[2] == '-' && '-' !in rest[..2];
    assert Text.FirstIndex(rest, '-') == Some(2);
    assert s[..2] == dd && rest[..2] == mm && rest[3..] == yy;
    DayFieldRoundTrip(d.day);
    MonthFieldRoundTrip(d.month);
    YearFieldRoundTrip(d.year);
  }

  lemma DayFieldRoundTrip(n: int)
    requires 1 <= n <= 31
    ensures ParseDayField(TwoDigits(n)) == Some(n)
  {
  }

  lemma MonthFieldRoundTrip(n: int)
    requires 1 <= n <= 12
    ensures ParseMonthField(TwoDigits(n)) == Some(n)
  {
  }

  lemma YearFieldRoundTrip(y: int)
    requires 1969 <= y <= 2068
    ensures ParseYearField(TwoDigits(y % 100)) == Some(y)
  {
  }

  /** The decimal digit written for `0 <= n <= 9`. */
  function Digit(n: int): char
    requires 0 <= n <= 9
  {
    ('0' as int + n) as char
  }

  /**
   * The texts `%d` reads as day `n`: two digits, and for a day below 10
   * also the digit alone or the digit after a space.
   */
  function DaySpellings(n: int): set<string>
    requires 1 <= n <= 31
  {
    {TwoDigits(n)} + (if n <= 9 then {[Digit(n)], [' ', Digit(n)]} else {})
  }

  /** The texts `%m` reads as month `m`: two digits, and for a month below 10 also the digit alone. */
  function MonthSpellings(m: int): set<string>
    requires 1 <= m <= 12
  {
    {TwoDigits(m)} + (if m <= 9 then {[Digit(m)]} else {})
  }

  /**
   * `s` writes the date `d`, which exists and lies in the years `%y` can
   * name, as `%d-%m-%y` in one of the spellings strptime accepts.
   */
  ghost predicate Spells(s: string, d: Date)
  {
    && ValidDate(d) && 1969 <= d.year <= 2068
    && exists df, mf :: WrittenAs(s, d, df, mf)
  }

  /** `s` is the day spelled `df`, `-`, the month spelled `mf`, `-` and the two-digit year. */
  predicate WrittenAs(s: string, d: Date, df: string, mf: string)
  {
    && 1 <= d.day <= 31 && 1 <= d.month <= 12
    && df in DaySpellings(d.day) && mf in MonthSpellings(d.month)
    && s == df + "-" + mf + "-" + TwoDigits(d.year % 100)
  }

  /** `%d` reads exactly the spellings of a day. */
  lemma DayFieldSpelling(f: string, n: int)
    requires 1 <= n <= 31
    ensures ParseDayField(f) == Some(n) <==> f in DaySpellings(n)
  {
    if |f| == 1 {
      assert f == [f[0]];
    } else if |f| == 2 {
      assert f == [f[0], f[1]];
    }
  }

  /** `%m` reads exactly the spellings of a month. */
  lemma MonthFieldSpelling(f: string, m: int)
    requires 1 <= m <= 12
    ensures ParseMonthField(f) == Some(m) <==> f in MonthSpellings(m)
  {
    if |f| == 1 {
      assert f == [f[0]];
    } else if |f| == 2 {
      assert f == [f[0], f[1]];
    }
  }

  /** `%y` reads exactly the two-digit form of a year from 1969 to 2068. */
  lemma YearFieldSpelling(f: string, y: int)
    ensures ParseYearField(f) == Some(y) <==> 1969 <= y <= 2068 && f == TwoDigits(y % 100)
  {
    if ParseYearField(f) == Some(y) {
      YearFieldRead(f);
    }
    if 1969 <= y <= 2068 && f == TwoDigits(y % 100) {
      YearFieldRoundTrip(y);
    }
  }

  /** A field `%y` accepts is the two-digit form of the year it reads. */
  lemma YearFieldRead(f: string)
    requires ParseYearField(f).Some?
    ensures f == TwoDigits(ParseYearField(f).value % 100)
  {
    var yy := 10 * DigitValue(f[0]) + DigitValue(f[1]);
    assert ParseYearField(f).value % 100 == yy;
    assert yy / 10 == DigitValue(f[0]) && yy % 10 == DigitValue(f[1]);
    assert f == [f[0], f[1]];
  }

  /** No day or month spelling holds a `-`. */
  lemma SpellingsHaveNoDash(df: string, day: int, mf: string, month: int)
    requires 1 <= day <= 31 && 1 <= month <= 12
    requires df in DaySpellings(day) && mf in MonthSpellings(month)
    ensures '-' !in df && '-' !in mf
  {
  }

  /** A `-` with none before it is the first one. */
  lemma FirstDash(s: string, i: nat)
    requires i < |s| && s[i] == '-' && '-' !in s[..i]
    ensures Text.FirstIndex(s, '-') == Some(i)
  {
  }

  /**
   * strptime with `%d-%m-%y` yields a date exactly for the texts that
   * spell that date: the right day, month and year, nothing else around
   * them, and a day that exists in its month.
   */
  lemma ParseDateSpells(s: string, d: Date)
    ensures ParseDate(s) == Some(d) <==> Spells(s, d)
  {
    if ParseDate(s) == Some(d) {
      ParsedIsSpelled(s);
    }
    if Spells(s, d) {
      SpelledIsParsed(s, d);
    }
  }

  lemma ParsedIsSpelled(s: string)
    requires ParseDate(s).Some?
    ensures Spells(s, ParseDate(s).value)
  {
    var d := ParseDate(s).value;
    var i := Text.FirstIndex(s, '-').value;
    var rest := s[i + 1..];
    var j := Text.FirstIndex(rest, '-').value;
    var df, mf, yf := s[..i], rest[..j], rest[j + 1..];
    DashSplit(s, i, j);
    DayFieldSpelling(df, d.day);
    MonthFieldSpelling(mf, d.month);
    YearFieldSpelling(yf, d.year);
    assert WrittenAs(s, d, df, mf);
  }

  /** Cutting at two `-` positions and gluing the pieces back gives the text again. */
  lemma DashSplit(s: string, i: nat, j: nat)
    requires i < |s| && s[i] == '-' && j < |s[i + 1..]| && s[i + 1..][j] == '-'
    ensures s == s[..i] + "-" + s[i + 1..][..j] + "-" + s[i + 1..][j + 1..]
  {
    var rest := s[i + 1..];
    assert rest == rest[..j] + "-" + rest[j + 1..];
    assert s == s[..i] + "-" + rest;
  }

  lemma SpelledIsParsed(s: string, d: Date)
    requires Spells(s, d)
    ensures ParseDate(s) == Some(d)
  {
    var df, mf :| WrittenAs(s, d, df, mf);
    WrittenFields(s, d, df, mf);
    var yf := TwoDigits(d.year % 100);
    DayFieldSpelling(df, d.day);
    MonthFieldSpelling(mf, d.month);
    YearFieldSpelling(yf, d.year);
    ParseDateOfFields(s, |df|, |mf|, d);
  }

  /** ParseDate reads the date off the fields it cuts at the first two `-`. */
  lemma ParseDateOfFields(s: string, i: nat, j: nat, d: Date)
    requires Text.FirstIndex(s, '-') == Some(i) && Text.FirstIndex(s[i + 1..], '-') == Some(j)
    requires ParseDayField(s[..i]) == Some(d.day)
    requires ParseMonthField(s[i + 1..][..j]) == Some(d.month)
    requires ParseYearField(s[i + 1..][j + 1..]) == Some(d.year)
    requires d.day <= DaysInMonth(d.year, d.month)
    ensures ParseDate(s) == Some(d)
  {
  }

  /** In a written date the two `-` separators sit right after the day and the month spellings. */
  lemma WrittenFields(s: string, d: Date, df: string, mf: string)
    requires WrittenAs(s, d, df, mf)
    ensures Text.FirstIndex(s, '-') == Some(|df|) && s[..|df|] == df
    ensures var rest := s[|df| + 1..];
      && Text.FirstIndex(rest, '-') == Some(|mf|) && rest[..|mf|] == mf
      && rest[|mf| + 1..] == TwoDigits(d.year % 100)
  {
    var yf := TwoDigits(d.year % 100);
    SpellingsHaveNoDash(df, d.day, mf, d.month);
    assert s[..|df|] == df;
    FirstDash(s, |df|);
    var rest := s[|df| + 1..];
    assert rest == mf + "-" + yf;
    assert rest[..|mf|] == mf;
    FirstDash(rest, |mf|);
    assert rest[|mf| + 1..] == yf;
  }

  /**
   * `(end - start).days` for two `%d-%m-%y` strings, or None when either
   * does not parse: positive when the end date comes later, zero when the
   * two dates are the same day, negative when the end comes first.
   */
  function DaysBetween(start: string, end: string): (r: Option<int>)
    ensures r.Some? <==> ParseDate(start).Some? && ParseDate(end).Some?
    ensures r.Some? ==> r.value == Ordinal(ParseDate(end).value) - Ordinal(ParseDate(start).value)
    ensures r.Some? ==>
      var s, e := ParseDate(start).value, ParseDate(end).value;
      && (r.value > 0 <==> Before(s, e))
      && (r.value == 0 <==> s == e)
      && (r.value < 0 <==> Before(e, s))
  {
    var s, e := ParseDate(start), ParseDate(end);
    if s.Some? && e.Some? then
      DeltaSign(s.value, e.value);
      Some(Ordinal(e.value) - Ordinal(s.value))
    else None
  }

  /** From 1 June 2024 to 1 July 2024 is the thirty days of June: the span counts end minus start. */
  lemma JuneSpan()
    ensures FirstOfMonth(6) == "01-06-24" && FirstOfMonth(7) == "01-07-24"
    ensures DaysBetween(FirstOfMonth(6), FirstOfMonth(7)) == Some(30)
  {
    FirstOfMonthSpan(6);
  }

  /** `01-0m-24`, the first of month `m` of 2024. */
  function FirstOfMonth(m: int): string
    requires 1 <= m <= 9
  {
    ['0', '1', '-', '0', Digit(m), '-', '2', '4']
  }

  lemma FirstOfMonthSpan(m: int)
    requires 1 <= m <= 8
    ensures DaysBetween(FirstOfMonth(m), FirstOfMonth(m + 1)) == Some(DaysInMonth(2024, m))
  {
    assert FormatDate(Date(2024, m, 1)) == FirstOfMonth(m);
    assert FormatDate(Date(2024, m + 1, 1)) == FirstOfMonth(m + 1);
    MonthSpan(2024, m);
  }

  /** From the first of a month to the first of the next month of that year is the month's length. */
  lemma MonthSpan(y: int, m: int)
    requires 1969 <= y <= 2068 && 1 <= m <= 11
    ensures DaysBetween(FormatDate(Date(y, m, 1)), FormatDate(Date(y, m + 1, 1))) == Some(DaysInMonth(y, m))
  {
    FormatSpan(Date(y, m, 1), Date(y, m + 1, 1));
    DaysBeforeMonthStep(y, m);
  }

  /** Between two written dates `DaysBetween` is the difference of their day numbers. */
  lemma FormatSpan(a: Date, b: Date)
    requires ValidDate(a) && 1969 <= a.year <= 2068
    requires ValidDate(b) && 1969 <= b.year <= 2068
    ensures DaysBetween(FormatDate(a), FormatDate(b)) == Some(Ordinal(b) - Ordinal(a))
  {
    ParseFormatRoundTrip(a);
    ParseFormatRoundTrip(b);
    ParsedSpan(FormatDate(a), FormatDate(b), a, b);
  }

  lemma ParsedSpan(start: string, end: string, a: Date, b: Date)
    requires ParseDate(start) == Some(a) && ParseDate(end) == Some(b)
    ensures DaysBetween(start, end) == Some(Ordinal(b) - Ordinal(a))
  {
  }

  /** From 1 December to 1 January of the next year is 31 days. */
  lemma YearEndSpan(y: int)
    requires 1969 <= y <= 2067
    ensures DaysBetween(FormatDate(Date(y, 12, 1)), FormatDate(Date(y + 1, 1, 1))) == Some(31)
  {
    FormatSpan(Date(y, 12, 1), Date(y + 1, 1, 1));
    DaysBeforeYearStep(y);
  }
}
