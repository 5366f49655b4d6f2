/** The proleptic Gregorian calendar as Python's `datetime` and pandas'
    `.dt` accessors compute it: day ordinals, weekday (Monday = 0), ISO-8601
    week number and quarter, and the `'%d/%m/%Y'` date parser. */
module Calendar {
  import opened Options
  import opened Text
  import opened LocaleNumber

  datatype Date = Date(year: int, month: int, day: int)

  predicate IsLeapYear(y: int) {
    y % 4 == 0 && (y % 100 != 0 || y % 400 == 0)
  }

  function DaysInMonth(y: int, m: int): (n: int)
    requires 1 <= m <= 12
    ensures 28 <= n <= 31
    ensures n == 29 <==> m == 2 && IsLeapYear(y)
  {
    if m == 2 then (if IsLeapYear(y) then 29 else 28)
    else if m == 4 || m == 6 || m == 9 || m == 11 then 30
    else 31
  }

  predicate IsValid(d: Date) {
    1 <= d.month <= 12 && 1 <= d.day <= DaysInMonth(d.year, d.month)
  }

  /** Days in the years before `y` (Python's `_days_before_year`). */
  function DaysBeforeYear(y: int): int {
    (y - 1) * 365 + (y - 1) / 4 - (y - 1) / 100 + (y - 1) / 400
  }

  /** Days in the months of `y` before `m` (Python's `_days_before_month`). */
  function DaysBeforeMonth(y: int, m: int): (n: int)
    requires 1 <= m <= 12
    ensures 0 <= n <= 335
  {
    var common :=
      if m == 1 then 0 else if m == 2 then 31 else if m == 3 then 59
      else if m == 4 then 90 else if m == 5 then 120 else if m == 6 then 151
      else if m == 7 then 181 else if m == 8 then 212 else if m == 9 then 243
      else if m == 10 then 273 else if m == 11 then 304 else 334;
    common + (if m > 2 && IsLeapYear(y) then 1 else 0)
  }

  /** Proleptic Gregorian ordinal: 0001-01-01 is day 1 (`date.toordinal()`). */
  function Ordinal(d: Date): int
    requires IsValid(d)
  {
    DaysBeforeYear(d.year) + DaysBeforeMonth(d.year, d.month) + d.day
  }

  function YearLength(y: int): int {
    if IsLeapYear(y) then 366 else 365
  }

  /** The day after `d`. */
  function NextDay(d: Date): (e: Date)
    requires IsValid(d)
    ensures IsValid(e)
  {
    if d.day < DaysInMonth(d.year, d.month) then d.(day := d.day + 1)
    else if d.month < 12 then Date(d.year, d.month + 1, 1)
    else Date(d.year + 1, 1, 1)
  }

  lemma CenturyDivisibility(y: int)
    ensures y % 400 == 0 ==> y % 100 == 0
    ensures y % 100 == 0 ==> y % 4 == 0
  {
  }

  /** A year adds 365 days, 366 when it is a leap year. */
  lemma {:induction false} DaysBeforeNextYear(y: int)
    ensures DaysBeforeYear(y + 1) == DaysBeforeYear(y) + YearLength(y)
  {
    assert y / 4 - (y - 1) / 4 == if y % 4 == 0 then 1 else 0;
    assert y / 100 - (y - 1) / 100 == if y % 100 == 0 then 1 else 0;
    assert y / 400 - (y - 1) / 400 == if y % 400 == 0 then 1 else 0;
    CenturyDivisibility(y);
  }

  /** Consecutive days have consecutive ordinals. */
  lemma {:induction false} OrdinalNextDay(d: Date)
    requires IsValid(d)
    ensures Ordinal(NextDay(d)) == Ordinal(d) + 1
  {
    if d.day < DaysInMonth(d.year, d.month) {
      // Same month: only the day moves.
    } else if d.month < 12 {
      DaysBeforeNextMonth(d.year, d.month);
    } else {
      DaysBeforeNextYear(d.year);
      assert DaysBeforeMonth(d.year, 12) + 31 == YearLength(d.year);
    }
  }

  /** A month adds its own length to the days before it. */
  lemma DaysBeforeNextMonth(y: int, m: int)
    requires 1 <= m < 12
    ensures DaysBeforeMonth(y, m + 1) == DaysBeforeMonth(y, m) + DaysInMonth(y, m)
  {
  }

  /** `dt.dayofweek`: Monday = 0 ... Sunday = 6 (0001-01-01 was a Monday). */
  function Weekday(d: Date): (w: int)
    requires IsValid(d)
    ensures 0 <= w <= 6
  {
    (Ordinal(d) + 6) % 7
  }

  /** The weekday advances by one, cyclically, from each day to the next. */
  lemma WeekdayNextDay(d: Date)
    requires IsValid(d)
    ensures Weekday(NextDay(d)) == (Weekday(d) + 1) % 7
  {
    OrdinalNextDay(d);
    CyclicStep(Ordinal(d));
  }

  lemma CyclicStep(o: int)
    ensures (o + 7) % 7 == ((o + 6) % 7 + 1) % 7
  {
  }

  lemma MondayOfWeek(first: int)
    ensures var wd := (first + 6) % 7; (first - wd + 6) % 7 == 0 && (first - wd + 7 + 6) % 7 == 0
  {
  }

  /** `dt.quarter`: the quarter of the year a month falls in. */
  function Quarter(m: int): (q: int)
    requires 1 <= m <= 12
    ensures 1 <= q <= 4
    ensures 3 * (q - 1) < m <= 3 * q
  {
    (m - 1) / 3 + 1
  }

  /** The ordinal of the Monday that starts ISO week 1 of `y`: the Monday of
      the week holding the year's first Thursday. */
  function Week1Monday(y: int): int {
    var first := Ordinal(Date(y, 1, 1));
    var wd := (first + 6) % 7;
    if wd > 3 then first - wd + 7 else first - wd
  }

  lemma Week1MondayBounds(y: int)
    ensures Ordinal(Date(y, 1, 1)) - 3 <= Week1Monday(y) <= Ordinal(Date(y, 1, 1)) + 3
    ensures (Week1Monday(y) + 6) % 7 == 0
  {
    MondayOfWeek(Ordinal(Date(y, 1, 1)));
  }

  /** ISO-8601 weeks of consecutive years start at most 53 weeks apart. */
  lemma Week1MondayGap(y: int)
    ensures 0 < Week1Monday(y + 1) - Week1Monday(y) <= 371
  {
    Week1MondayBounds(y);
    Week1MondayBounds(y + 1);
    DaysBeforeNextYear(y);
    var a, b := Week1Monday(y) + 6, Week1Monday(y + 1) + 6;
    assert a == 7 * (a / 7) && b == 7 * (b / 7);
    assert b - a == 7 * (b / 7 - a / 7);
  }

  lemma OrdinalWithinYear(d: Date)
    requires IsValid(d)
    ensures Ordinal(Date(d.year, 1, 1)) <= Ordinal(d) < Ordinal(Date(d.year + 1, 1, 1))
  {
    DaysBeforeNextYear(d.year);
  }

  /** `dt.isocalendar().week`, computed as Python's `date.isocalendar()`. */
  function IsoWeek(d: Date): (w: int)
    requires IsValid(d)
    ensures 1 <= w <= 53
  {
    IsoWeekStarts(d);
    WeekNumber(Ordinal(d), Week1Monday(d.year - 1), Week1Monday(d.year), Week1Monday(d.year + 1))
  }

  /** The week number of day `today` given the first Mondays of the ISO
      years before, of and after its calendar year: the days before this
      year's week 1 belong to the last week of the previous year, and the
      days from next year's week 1 on are in week 1. */
  function WeekNumber(today: int, prev: int, start: int, next: int): (w: int)
    requires prev <= today && 0 < start - prev <= 371 && next - start <= 371
    ensures 1 <= w <= 53
  {
    var week := (today - start) / 7;
    if week < 0 then (today - prev) / 7 + 1
    else if week >= 52 && today >= next then 1
    else week + 1
  }

  /** The first Mondays of consecutive ISO years are at most 53 weeks
      apart, and every day of a year comes after the previous year's. */
  lemma IsoWeekStarts(d: Date)
    requires IsValid(d)
    ensures Week1Monday(d.year - 1) <= Ordinal(d)
    ensures 0 < Week1Monday(d.year) - Week1Monday(d.year - 1) <= 371
    ensures Week1Monday(d.year + 1) - Week1Monday(d.year) <= 371
  {
    OrdinalWithinYear(d);
    Week1MondayBounds(d.year - 1);
    DaysBeforeNextYear(d.year - 1);
    Week1MondayGap(d.year - 1);
    Week1MondayGap(d.year);
  }

  /** Lexicographic (year, month, day) order, the order of `datetime64`. */
  predicate DateLt(a: Date, b: Date) {
    a.year < b.year
    || (a.year == b.year && a.month < b.month)
    || (a.year == b.year && a.month == b.month && a.day < b.day)
  }

  predicate DateLe(a: Date, b: Date) {
    a == b || DateLt(a, b)
  }

  /** The midnights pandas' nanosecond `Timestamp` can hold: its range runs
      from 1677-09-21 00:12:43 to 2262-04-11 23:47:16. */
  predicate InTimestampRange(d: Date) {
    DateLe(Date(1677, 9, 22), d) && DateLe(d, Date(2262, 4, 11))
  }

  /** Worked example: 2024-03-15 is a Friday (weekday 4) in ISO week 11 of
      the first quarter. */
  lemma CalendarExample()
    ensures Weekday(Date(2024, 3, 15)) == 4
    ensures IsoWeek(Date(2024, 3, 15)) == 11
    ensures Quarter(3) == 1
  {
    assert Ordinal(Date(2024, 1, 1)) == 738886;
    assert Ordinal(Date(2024, 3, 15)) == 738960;
  }

  /** `%d` of Python's `strptime`: one digit 1-9, a space and a digit 1-9,
      or two digits from 01 to 31. */
  function DayField(t: string): (r: Option<int>)
    ensures r.Some? ==> 1 <= r.value <= 31
  {
    if |t| == 1 && '1' <= t[0] <= '9' then Some(DigitValue(t[0]))
    else if |t| == 2 && t[0] == ' ' && '1' <= t[1] <= '9' then Some(DigitValue(t[1]))
    else if |t| == 2 && IsDigit(t[0]) && IsDigit(t[1]) && 1 <= 10 * DigitValue(t[0]) + DigitValue(t[1]) <= 31 then
      Some(10 * DigitValue(t[0]) + DigitValue(t[1]))
    else None
  }

  /** `%m`: one digit 1-9 or two digits from 01 to 12. */
  function MonthField(t: string): (r: Option<int>)
    ensures r.Some? ==> 1 <= r.value <= 12
  {
    if |t| == 1 && '1' <= t[0] <= '9' then Some(DigitValue(t[0]))
    else if |t| == 2 && IsDigit(t[0]) && IsDigit(t[1]) && 1 <= 10 * DigitValue(t[0]) + DigitValue(t[1]) <= 12 then
      Some(10 * DigitValue(t[0]) + DigitValue(t[1]))
    else None
  }

  /** `%Y`: exactly four digits. */
  function YearField(t: string): (r: Option<int>)
    ensures r.Some? ==> 0 <= r.value <= 9999
  {
    if |t| == 4 && AllDigits(t) then Some(DigitsValue(t)) else None
  }

  /** `s` spells `d` as `%d/%m/%Y` with its two '/'s at `i` and `j`. */
  predicate DateAt(s: string, i: int, j: int, d: Date) {
    0 <= i < j < |s| && s[i] == '/' && s[j] == '/' &&
    DayField(s[..i]) == Some(d.day) && MonthField(s[i + 1..j]) == Some(d.month) &&
    YearField(s[j + 1..]) == Some(d.year)
  }

  /** `s` spells the (not necessarily real) date `d` as `%d/%m/%Y`. */
  predicate DateText(s: string, d: Date) {
    exists i, j | 0 <= i < j < |s| :: DateAt(s, i, j, d)
  }

  /** `pd.to_datetime(text, format='%d/%m/%Y')`: the whole text must be a
      day, '/', a month, '/', a four-digit year naming a real calendar day
      that a nanosecond `Timestamp` can hold; otherwise parsing fails.
      `ParseDateOfText` gives the converse and the rejection of fields that
      name no real or representable day. */
  function ParseDate(s: string): (r: Option<Date>)
    ensures r.Some? ==> IsValid(r.value) && InTimestampRange(r.value)
    ensures r.Some? ==> DateText(s, r.value)
  {
    var i := IndexOf(s, '/');
    if i == |s| then None
    else
      var rest := s[i + 1..];
      var j := IndexOf(rest, '/');
      if j == |rest| then None
      else
        match (DayField(s[..i]), MonthField(rest[..j]), YearField(rest[j + 1..]))
        case (Some(d), Some(m), Some(y)) =>
          var date := Date(y, m, d);
          if IsValid(date) && InTimestampRange(date) then
            assert DateAt(s, i, i + 1 + j, date) by {
              assert rest[..j] == s[i + 1..i + 1 + j] && rest[j + 1..] == s[i + 1 + j + 1..];
            }
            Some(date)
          else None
        case _ => None
  }

  /** Text that spells a date as `%d/%m/%Y` parses to it exactly when the
      date is a real calendar day a `Timestamp` can hold, and fails
      otherwise (so "31/02/2024" fails). */
  lemma ParseDateOfText(s: string, i: int, j: int, d: Date)
    requires DateAt(s, i, j, d)
    ensures ParseDate(s) == if IsValid(d) && InTimestampRange(d) then Some(d) else None
  {
    FieldHasNoSlash(s[..i]);
    IndexOfFirst(s, '/', i);
    var rest := s[i + 1..];
    assert rest[..j - i - 1] == s[i + 1..j] by {
      assert forall k | i + 1 <= k < j :: rest[k - i - 1] == s[k];
    }
    assert rest[j - i..] == s[j + 1..] by {
      assert forall k | j + 1 <= k < |s| :: rest[k - i - 1] == s[k];
    }
    FieldHasNoSlash(s[i + 1..j]);
    IndexOfFirst(rest, '/', j - i - 1);
  }

  /** Text that parses holds only digits, spaces and '/'. */
  lemma DateCharacters(s: string, d: Date)
    requires ParseDate(s) == Some(d)
    ensures |s| > 0 && forall k | 0 <= k < |s| :: IsDigit(s[k]) || s[k] == ' ' || s[k] == '/'
  {
    var i, j :| 0 <= i < j < |s| && DateAt(s, i, j, d);
    var a, b, c := s[..i], s[i + 1..j], s[j + 1..];
    forall k | 0 <= k < |s| ensures IsDigit(s[k]) || s[k] == ' ' || s[k] == '/' {
      if k < i {
        assert s[k] == a[k];
      } else if i < k < j {
        assert s[k] == b[k - i - 1];
      } else if j < k {
        assert s[k] == c[k - j - 1];
      }
    }
  }

  /** Day and month fields hold digits and spaces, never '/'. */
  lemma FieldHasNoSlash(t: string)
    requires DayField(t).Some? || MonthField(t).Some?
    ensures '/' !in t
  {
  }

  /** Worked example: "31/02/2024" names no real day and fails to parse. */
  lemma NoSuchDayExample()
    ensures ParseDate("31/02/2024") == None
  {
    NoSuchDayText();
    ParseDateOfText("31/02/2024", 2, 5, Date(2024, 2, 31));
  }

  /** "31/02/2024" spells 31 February 2024 with its '/'s at 2 and 5. */
  lemma NoSuchDayText()
    ensures DateAt("31/02/2024", 2, 5, Date(2024, 2, 31))
  {
    var s := "31/02/2024";
    assert s[..2] == "31" && s[3..5] == "02" && s[6..] == "2024";
    assert DayField("31") == Some(31) && MonthField("02") == Some(2);
    YearExample();
  }

  lemma YearExample()
    ensures YearField("2024") == Some(2024)
  {
    assert "2024"[..3] == "202" && "202"[..2] == "20" && "20"[..1] == "2" && "2"[..0] == "";
  }

  function DigitChar(n: nat): (c: char)
    requires n <= 9
    ensures IsDigit(c) && DigitValue(c) == n
  {
    ('0' as int + n) as char
  }

  /** Zero-padded decimal text of `n` in `width` digits. */
  function Padded(n: nat, width: nat): (t: string)
    requires n < Pow10(width)
    ensures |t| == width && AllDigits(t) && DigitsValue(t) == n
  {
    if width == 0 then ""
    else
      var t := Padded(n / 10, width - 1) + [DigitChar(n % 10)];
      assert t[..|t| - 1] == Padded(n / 10, width - 1);
      t
  }

  /** The raw consumption table's rendering of a date, `dd/mm/yyyy`. */
  function FormatDate(d: Date): string
    requires IsValid(d) && 0 <= d.year <= 9999
  {
    Padded(d.day, 2) + "/" + Padded(d.month, 2) + "/" + Padded(d.year, 4)
  }

  /** Round trip of the date parser: every representable date rendered as
      `dd/mm/yyyy` parses back to itself. */
  lemma {:induction false} ParseFormatDate(d: Date)
    requires IsValid(d) && InTimestampRange(d)
    ensures ParseDate(FormatDate(d)) == Some(d)
  {
    PaddedDay(d.day);
    PaddedMonth(d.month);
    PaddedYear(d.year);
    ParseDateOfFields(Padded(d.day, 2), Padded(d.month, 2), Padded(d.year, 4), d);
  }

  lemma PaddedYear(n: nat)
    requires n < 10000
    ensures YearField(Padded(n, 4)) == Some(n) && AllDigits(Padded(n, 4))
  {
  }

  /** The parser accepts digit fields joined by '/' that read as a
      representable date. */
  lemma ParseDateOfFields(dd: string, mm: string, yy: string, d: Date)
    requires IsValid(d) && InTimestampRange(d)
    requires AllDigits(dd) && AllDigits(mm) && AllDigits(yy)
    requires DayField(dd) == Some(d.day) && MonthField(mm) == Some(d.month) && YearField(yy) == Some(d.year)
    ensures ParseDate(dd + "/" + mm + "/" + yy) == Some(d)
  {
    var rest := mm + "/" + yy;
    var s := dd + "/" + rest;
    assert s == dd + "/" + mm + "/" + yy;
    assert IndexOf(s, '/') == |dd| && s[..|dd|] == dd && s[|dd| + 1..] == rest by {
      FieldThenSlash(dd, rest);
    }
    assert IndexOf(rest, '/') == |mm| && rest[..|mm|] == mm && rest[|mm| + 1..] == yy by {
      FieldThenSlash(mm, yy);
    }
    ParseDateSplit(s, dd, rest, mm, yy, d);
  }

  /** The parser's three steps on a text that splits at its first '/' into
      `dd` and `rest`, and `rest` at its first '/' into `mm` and `yy`. */
  lemma ParseDateSplit(s: string, dd: string, rest: string, mm: string, yy: string, d: Date)
    requires IsValid(d) && InTimestampRange(d)
    requires IndexOf(s, '/') == |dd| < |s| && s[..|dd|] == dd && s[|dd| + 1..] == rest
    requires IndexOf(rest, '/') == |mm| < |rest| && rest[..|mm|] == mm && rest[|mm| + 1..] == yy
    requires DayField(dd) == Some(d.day) && MonthField(mm) == Some(d.month) && YearField(yy) == Some(d.year)
    ensures ParseDate(s) == Some(d)
  {
  }

  lemma PaddedDay(n: nat)
    requires 1 <= n <= 31
    ensures DayField(Padded(n, 2)) == Some(n) && AllDigits(Padded(n, 2))
  {
    TwoDigitField(n);
    TwoDigitDay(Padded(n, 2), n);
  }

  lemma PaddedMonth(n: nat)
    requires 1 <= n <= 12
    ensures MonthField(Padded(n, 2)) == Some(n) && AllDigits(Padded(n, 2))
  {
    TwoDigitField(n);
    TwoDigitMonth(Padded(n, 2), n);
  }

  lemma TwoDigitDay(t: string, n: int)
    requires |t| == 2 && IsDigit(t[0]) && IsDigit(t[1]) && 10 * DigitValue(t[0]) + DigitValue(t[1]) == n
    requires 1 <= n <= 31
    ensures DayField(t) == Some(n)
  {
  }

  lemma TwoDigitMonth(t: string, n: int)
    requires |t| == 2 && IsDigit(t[0]) && IsDigit(t[1]) && 10 * DigitValue(t[0]) + DigitValue(t[1]) == n
    requires 1 <= n <= 12
    ensures MonthField(t) == Some(n)
  {
  }

  /** A two-digit zero-padded field reads back digit by digit. */
  lemma TwoDigitField(n: nat)
    requires n < 100
    ensures var t := Padded(n, 2);
      IsDigit(t[0]) && IsDigit(t[1]) && 10 * DigitValue(t[0]) + DigitValue(t[1]) == n
  {
    var t := Padded(n, 2);
    assert t[..1] == Padded(n / 10, 1);
    assert DigitsValue(t) == DigitsValue(t[..1]) * 10 + DigitValue(t[1]);
    assert DigitsValue(t[..1]) == DigitValue(t[0]) by {
      assert t[..1][..0] == [];
    }
  }

  /** The first '/' after a run of digits is the one right behind it. */
  lemma {:induction false} FieldThenSlash(f: string, t: string)
    requires AllDigits(f)
    ensures IndexOf(f + "/" + t, '/') == |f|
    decreases |f|
  {
    var s := f + "/" + t;
    if |f| > 0 {
      assert s[0] == f[0] && IsDigit(f[0]);
      assert s[1..] == f[1..] + "/" + t;
      assert AllDigits(f[1..]) by {
        assert forall k | 0 <= k < |f| - 1 :: f[1..][k] == f[k + 1];
      }
      FieldThenSlash(f[1..], t);
    } else {
      assert s[0] == '/';
    }
  }

}
