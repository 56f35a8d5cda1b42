/**
 * Calendar dates as the application's `datetime` values use them: the
 * proleptic Gregorian calendar, a day number equal to Python's
 * `date.toordinal()` (1 January of year 1 is day 1), `weekday()` with
 * 0 = Monday ... 6 = Sunday, the Portuguese weekday names stored with each
 * session, and the strict `DD/MM/YYYY` text form.
 */
module Calendar {
  import opened Wrappers
  import opened Text
  import opened Numerals

  datatype Date = Date(day: int, month: int, year: int)

  predicate IsLeap(y: int) {
    y % 4 == 0 && (y % 100 != 0 || y % 400 == 0)
  }

  function DaysInYear(y: int): int {
    if IsLeap(y) then 366 else 365
  }

  function DaysInMonth(y: int, m: int): int
    requires 1 <= m <= 12
  {
    if m == 2 then (if IsLeap(y) then 29 else 28)
    else if m == 4 || m == 6 || m == 9 || m == 11 then 30
    else 31
  }

  /** A day that exists in the calendar. */
  predicate Valid(d: Date) {
    d.year >= 1 && 1 <= d.month <= 12 && 1 <= d.day <= DaysInMonth(d.year, d.month)
  }

  /** A day in `datetime`'s range (years 1 to 9999), the ones with a four-digit year. */
  predicate Storable(d: Date) {
    Valid(d) && d.year <= 9999
  }

  function DaysBeforeYear(y: int): int
    requires y >= 1
  {
    var n := y - 1;
    n * 365 + n / 4 - n / 100 + n / 400
  }

  function DaysBeforeMonth(y: int, m: int): int
    requires 1 <= m <= 12
  {
    var common :=
      if m == 1 then 0 else if m == 2 then 31 else if m == 3 then 59
      else if m == 4 then 90 else if m == 5 then 120 else if m == 6 then 151
      else if m == 7 then 181 else if m == 8 then 212 else if m == 9 then 243
      else if m == 10 then 273 else if m == 11 then 304 else 334;
    common + (if m > 2 && IsLeap(y) then 1 else 0)
  }

  /** `date.toordinal()`: the days of the years before, then the day's place in its own year. */
  function Ordinal(d: Date): (o: int)
    requires Valid(d)
    ensures DaysBeforeYear(d.year) < o <= DaysBeforeYear(d.year) + DaysInYear(d.year)
  {
    assert DaysBeforeMonth(d.year, d.month) + DaysInMonth(d.year, d.month) <= DaysInYear(d.year);
    DaysBeforeYear(d.year) + DaysBeforeMonth(d.year, d.month) + d.day
  }

  /** `date.weekday()`: 0 = Monday ... 6 = Sunday. */
  function Weekday(d: Date): (w: int)
    requires Valid(d)
    ensures 0 <= w < 7
  {
    (Ordinal(d) + 6) % 7
  }

  /** The day after `d`. */
  function NextDay(d: Date): (n: Date)
    requires Valid(d)
    ensures Valid(n) && Ordinal(n) == Ordinal(d) + 1
  {
    if d.day < DaysInMonth(d.year, d.month) then Date(d.day + 1, d.month, d.year)
    else if d.month < 12 then Date(1, d.month + 1, d.year)
    else
      YearLength(d.year);
      Date(1, 1, d.year + 1)
  }

  lemma YearLength(y: int)
    requires y >= 1
    ensures DaysBeforeYear(y + 1) == DaysBeforeYear(y) + DaysInYear(y)
  {
    var n := y - 1;
    assert (n + 1) / 4 == n / 4 + (if y % 4 == 0 then 1 else 0);
    assert (n + 1) / 100 == n / 100 + (if y % 100 == 0 then 1 else 0);
    assert (n + 1) / 400 == n / 400 + (if y % 400 == 0 then 1 else 0);
  }

  /** The numbering starts right: 1 January of year 1 (proleptic) was a Monday.
      With NextDayWeekday this fixes the weekday of every later day. */
  lemma WeekdayAnchor(d: Date)
    requires d.day == 1 && d.month == 1 && d.year == 1
    ensures Valid(d) && Weekday(d) == 0
  {
  }

  /** Consecutive days have consecutive weekdays, Sunday wrapping to Monday. */
  lemma NextDayWeekday(d: Date)
    requires Valid(d)
    ensures Weekday(NextDay(d)) == (Weekday(d) + 1) % 7
  {
    WeekdayStep(Ordinal(d));
  }

  lemma WeekdayStep(o: int)
    ensures (o + 1 + 6) % 7 == ((o + 6) % 7 + 1) % 7
  {
    var q, w := (o + 6) / 7, (o + 6) % 7;
    assert o + 7 == 7 * q + (w + 1);
    if w < 6 {
      assert (o + 7) % 7 == w + 1;
    } else {
      assert o + 7 == 7 * (q + 1);
    }
  }

  /** Each whole year before year `y2` starts no later than `y2` does. */
  lemma {:induction false} YearsFollowEachOther(y1: int, y2: int)
    requires 1 <= y1 < y2
    ensures DaysBeforeYear(y1) + DaysInYear(y1) <= DaysBeforeYear(y2)
    decreases y2 - y1
  {
    YearLength(y2 - 1);
    if y1 < y2 - 1 {
      YearsFollowEachOther(y1, y2 - 1);
    }
  }

  /** Chronological order on calendar fields. */
  predicate Before(a: Date, b: Date) {
    a.year < b.year || (a.year == b.year && (a.month < b.month || (a.month == b.month && a.day < b.day)))
  }

  /** The day number follows the calendar order. */
  lemma OrdinalMonotone(a: Date, b: Date)
    requires Valid(a) && Valid(b) && Before(a, b)
    ensures Ordinal(a) < Ordinal(b)
  {
    var ya := a.year;
    assert DaysBeforeMonth(ya, a.month) + DaysInMonth(ya, a.month) <= DaysInYear(ya);
    if a.year < b.year {
      YearsFollowEachOther(a.year, b.year);
    } else if a.month < b.month {
      assert DaysBeforeMonth(ya, a.month) + DaysInMonth(ya, a.month) <= DaysBeforeMonth(ya, b.month);
    }
  }

  /** Two valid dates have the same day number exactly when they are the same date. */
  lemma OrdinalInjective(a: Date, b: Date)
    requires Valid(a) && Valid(b)
    ensures Ordinal(a) == Ordinal(b) <==> a == b
  {
    if a != b {
      if Before(a, b) {
        OrdinalMonotone(a, b);
      } else {
        assert Before(b, a);
        OrdinalMonotone(b, a);
      }
    }
  }

  /** A date no later than `e` has a year no later than `e`'s. */
  lemma YearNotAfter(d: Date, e: Date)
    requires Valid(d) && Valid(e) && Ordinal(d) <= Ordinal(e)
    ensures d.year <= e.year
  {
    if e.year < d.year {
      OrdinalMonotone(e, d);
    }
  }

  /** The weekday names of `DIAS_SEMANA_PT`, indexed by `weekday()`. */
  const WeekdayNames: seq<string> :=
    ["segunda-feira", "terça-feira", "quarta-feira", "quinta-feira",
     "sexta-feira", "sábado", "domingo"]

  function WeekdayName(d: Date): (name: string)
    requires Valid(d)
    ensures name in WeekdayNames
    ensures name == "domingo" <==> Weekday(d) == 6
    ensures name == "segunda-feira" <==> Weekday(d) == 0
  {
    WeekdayNames[Weekday(d)]
  }

  function Pad2(n: int): (s: string)
    requires 0 <= n < 100
    ensures |s| == 2 && AllDigits(s)
  {
    [DigitChar(n / 10), DigitChar(n % 10)]
  }

  function Pad4(n: int): (s: string)
    requires 0 <= n < 10000
    ensures |s| == 4 && AllDigits(s)
  {
    Pad2(n / 100) + Pad2(n % 100)
  }

  /** `strftime('%d/%m/%Y')`. */
  function FormatDate(d: Date): (s: string)
    requires Storable(d)
    ensures |s| == 10 && s[2] == '/' && s[5] == '/'
  {
    Pad2(d.day) + "/" + Pad2(d.month) + "/" + Pad4(d.year)
  }

  /** The number written by the two digits of `s` at `i` and `i + 1`. */
  function TwoDigits(s: string, i: nat): (n: int)
    requires i + 1 < |s| && IsDigit(s[i]) && IsDigit(s[i + 1])
    ensures 0 <= n < 100
  {
    DigitValue(s[i]) * 10 + DigitValue(s[i + 1])
  }

  /** `strptime(s, '%d/%m/%Y')`, strict form: two-digit day, two-digit month,
      four-digit year, and the date must exist. */
  function ParseDate(s: string): (r: Option<Date>)
    ensures r.Some? ==> Storable(r.value) && FormatDate(r.value) == s
  {
    if |s| == 10 && s[2] == '/' && s[5] == '/'
       && IsDigit(s[0]) && IsDigit(s[1]) && IsDigit(s[3]) && IsDigit(s[4])
       && IsDigit(s[6]) && IsDigit(s[7]) && IsDigit(s[8]) && IsDigit(s[9])
    then
      var d := Date(TwoDigits(s, 0), TwoDigits(s, 3), TwoDigits(s, 6) * 100 + TwoDigits(s, 8));
      if Valid(d) then
        assert FormatDate(d) == s by {
          RendersBack(s, 0);
          RendersBack(s, 3);
          RendersBack(s, 6);
          RendersBack(s, 8);
          assert d.year / 100 == TwoDigits(s, 6) && d.year % 100 == TwoDigits(s, 8);
        }
        Some(d)
      else None
    else None
  }

  /** Two digits read as a number render back to the same two digits. */
  lemma RendersBack(s: string, i: nat)
    requires i + 1 < |s| && IsDigit(s[i]) && IsDigit(s[i + 1])
    ensures Pad2(TwoDigits(s, i)) == s[i..i + 2]
  {
    var n := TwoDigits(s, i);
    assert n / 10 == DigitValue(s[i]) && n % 10 == DigitValue(s[i + 1]);
  }

  lemma PadValue(n: int)
    requires 0 <= n < 100
    ensures TwoDigits(Pad2(n), 0) == n
  {
  }

  /** Reading back a rendered date gives the date. */
  lemma ParseFormatRoundTrip(d: Date)
    requires Storable(d)
    ensures ParseDate(FormatDate(d)) == Some(d)
  {
    var s := FormatDate(d);
    assert TwoDigits(s, 0) == TwoDigits(Pad2(d.day), 0);
    assert TwoDigits(s, 3) == TwoDigits(Pad2(d.month), 0);
    assert TwoDigits(s, 6) == TwoDigits(Pad2(d.year / 100), 0);
    assert TwoDigits(s, 8) == TwoDigits(Pad2(d.year % 100), 0);
    PadValue(d.day);
    PadValue(d.month);
    PadValue(d.year / 100);
    PadValue(d.year % 100);
  }
}
