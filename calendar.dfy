/** The month window of main.go's outer loop: which year and month the i-th
    iteration scans, its first and last day, the `--since`/`--until` dates
    and the month key the scan's counts are stored under.

    `time.Date` and `AddDate` accept out-of-range months and days and carry
    them into the neighbouring months and years (October 32 is November 1);
    `NormalizeMonth` and `NormalizeDay` state that carrying on the proleptic
    Gregorian calendar Go uses. */
module Calendar {
  import opened Text

  /** A calendar date; `ValidDate` says it is normalised. */
  datatype Date = Date(year: int, month: int, day: int)

  /** A calendar month. */
  datatype YearMonth = YearMonth(year: int, month: int)

  predicate IsLeap(y: int) {
    y % 4 == 0 && (y % 100 != 0 || y % 400 == 0)
  }

  function DaysIn(y: int, m: int): (n: nat)
    requires 1 <= m <= 12
    ensures 28 <= n <= 31
  {
    if m == 2 then (if IsLeap(y) then 29 else 28)
    else if m == 4 || m == 6 || m == 9 || m == 11 then 30
    else 31
  }

  predicate ValidMonth(ym: YearMonth) {
    1 <= ym.month <= 12
  }

  /** A year and a month of that year. */
  type CalendarMonth = ym: YearMonth | ValidMonth(ym) witness YearMonth(1970, 1)

  predicate ValidDate(d: Date) {
    1 <= d.month <= 12 && 1 <= d.day <= DaysIn(d.year, d.month)
  }

  function MonthOf(d: Date): YearMonth {
    YearMonth(d.year, d.month)
  }

  /** Months counted from January of year 0: consecutive months are
      consecutive numbers. */
  function MonthIndex(ym: YearMonth): int {
    12 * ym.year + ym.month - 1
  }

  /** Different valid months have different indices. */
  lemma MonthIndexInjective(a: YearMonth, b: YearMonth)
    requires ValidMonth(a) && ValidMonth(b) && MonthIndex(a) == MonthIndex(b)
    ensures a == b
  {
    assert 12 * (a.year - b.year) == b.month - a.month;
  }

  /** Month `m` of year `y`, where a month outside 1..12 carries into the
      year, as `time.Date` does it. */
  function NormalizeMonth(y: int, m: int): (r: YearMonth)
    ensures ValidMonth(r)
    ensures MonthIndex(r) == 12 * y + m - 1
  {
    YearMonth(y + (m - 1) / 12, (m - 1) % 12 + 1)
  }

  /** Day `d` of month `ym`, where a day outside the month carries into the
      months before or after it, as `time.Date` does it. */
  function NormalizeDay(ym: YearMonth, d: int): (r: Date)
    requires ValidMonth(ym)
    ensures ValidDate(r)
    decreases if d < 1 then 1 - d else 0, d
  {
    if d < 1 then
      var prev := NormalizeMonth(ym.year, ym.month - 1);
      NormalizeDay(prev, d + DaysIn(prev.year, prev.month))
    else if d > DaysIn(ym.year, ym.month) then
      NormalizeDay(NormalizeMonth(ym.year, ym.month + 1), d - DaysIn(ym.year, ym.month))
    else
      Date(ym.year, ym.month, d)
  }

  /** `t.AddDate(years, months, days)` on the calendar date of `t`. */
  function AddDate(t: Date, years: int, months: int, days: int): Date {
    NormalizeDay(NormalizeMonth(t.year + years, t.month + months), t.day + days)
  }

  /** `year, month, _ := now.AddDate(0, -i, 0).Date()`, as main.go:47 computes
      the month of the i-th iteration. */
  function MonthBackAsWritten(now: Date, i: int): (r: YearMonth)
    ensures ValidMonth(r)
  {
    MonthOf(AddDate(now, 0, -i, 0))
  }

  /** The month `i` months before the month of `now`: what the i-th
      iteration is evidently meant to scan, and what it does scan whenever
      that month has the day of `now` (`MonthBackAsWrittenRollsForward`). */
  function MonthBack(now: Date, i: int): (r: YearMonth)
    ensures ValidMonth(r)
    ensures MonthIndex(r) == MonthIndex(MonthOf(now)) - i
  {
    NormalizeMonth(now.year, now.month - i)
  }

  /** The months of the iterations 0, 1, 2, ... are this month, the month
      before, and so on, all different. */
  lemma MonthBackDistinct(now: Date, i: int, j: int)
    requires i != j
    ensures MonthBack(now, i) != MonthBack(now, j)
  {
  }

  /** Subtracting months from a date late in the month can overflow the
      shorter target month: on 2024-03-31, one month back is "February 31",
      which `time.Date` turns into 2024-03-02.  The second iteration then
      scans March again and February is never scanned. */
  lemma MonthBackAsWrittenSkipsFebruary()
    ensures MonthBackAsWritten(Date(2024, 3, 31), 1) == YearMonth(2024, 3)
    ensures MonthBackAsWritten(Date(2024, 3, 31), 0) == YearMonth(2024, 3)
    ensures MonthBack(Date(2024, 3, 31), 1) == YearMonth(2024, 2)
  {
    var feb, mar := YearMonth(2024, 2), YearMonth(2024, 3);
    assert NormalizeMonth(2024, 2) == feb;
    assert NormalizeMonth(2024, 3) == mar;
    assert DaysIn(2024, 2) == 29 by { assert IsLeap(2024); }
    assert DaysIn(2024, 3) == 31;
    assert NormalizeDay(mar, 2) == Date(2024, 3, 2);
    assert NormalizeDay(mar, 31) == Date(2024, 3, 31);
    assert NormalizeDay(feb, 31) == NormalizeDay(mar, 2);
  }

  /** The month computed as written is the intended month or, when the day
      of `now` does not exist in the intended month, the month after it; on
      days 1 to 28 it is always the intended month. */
  lemma MonthBackAsWrittenRollsForward(now: Date, i: int)
    requires ValidDate(now)
    ensures var w := MonthBackAsWritten(now, i);
      ValidMonth(w) &&
      MonthIndex(w) - MonthIndex(MonthBack(now, i)) == if now.day <= DaysIn(MonthBack(now, i).year, MonthBack(now, i).month) then 0 else 1
    ensures now.day <= 28 ==> MonthBackAsWritten(now, i) == MonthBack(now, i)
  {
    var ym := MonthBack(now, i);
    if now.day > DaysIn(ym.year, ym.month) {
      var next := NormalizeMonth(ym.year, ym.month + 1);
      var d := now.day - DaysIn(ym.year, ym.month);
      assert 1 <= d <= 3 <= DaysIn(next.year, next.month);
      assert NormalizeDay(next, d) == Date(next.year, next.month, d);
    }
  }

  /** `time.Date(year, month, 1, ...)`. */
  function FirstDayOfMonth(ym: YearMonth): Date {
    Date(ym.year, ym.month, 1)
  }

  /** `firstDayOfMonth.AddDate(0, 1, -1)`. */
  function LastDayOfMonth(ym: YearMonth): Date {
    AddDate(FirstDayOfMonth(ym), 0, 1, -1)
  }

  /** The last calendar day of a month. */
  function MonthEnd(ym: YearMonth): Date
    requires ValidMonth(ym)
  {
    Date(ym.year, ym.month, DaysIn(ym.year, ym.month))
  }

  /** First of next month minus one day is the last calendar day of the same
      month: the window covers exactly one whole month. */
  lemma LastDayIsMonthEnd(ym: YearMonth)
    requires ValidMonth(ym)
    ensures LastDayOfMonth(ym) == MonthEnd(ym)
    ensures MonthOf(LastDayOfMonth(ym)) == MonthOf(FirstDayOfMonth(ym))
  {
    var next := NormalizeMonth(ym.year, ym.month + 1);
    var prev := NormalizeMonth(next.year, next.month - 1);
    MonthIndexInjective(prev, ym);
    assert NormalizeDay(next, 0) == NormalizeDay(ym, DaysIn(ym.year, ym.month));
  }

  /** `time.Format`'s "2006": the year in at least four digits, after a minus
      sign when negative. */
  function YearField(y: int): string {
    if y < 0 then "-" + Padded(-y, 4) else Padded(y, 4)
  }

  /** `time.Format`'s "January". */
  function MonthName(m: int): string
    requires 1 <= m <= 12
  {
    ["January", "February", "March", "April", "May", "June", "July",
     "August", "September", "October", "November", "December"][m - 1]
  }

  /** `firstDayOfMonth.Format("2006-01-02")`: the `--since`/`--until` argument. */
  function IsoDate(d: Date): string
    requires ValidDate(d)
  {
    YearField(d.year) + "-" + Padded(d.month, 2) + "-" + Padded(d.day, 2)
  }

  /** `firstDayOfMonth.Format("(2006-01) January 2006")`: the month key. It
      depends on the year and month only, so every scan of one month uses the
      same key whatever the day. */
  function MonthKey(ym: YearMonth): string
    requires ValidMonth(ym)
  {
    ("(" + (YearField(ym.year) + "-")) + (Padded(ym.month, 2) + (") " + MonthName(ym.month) + " " + YearField(ym.year)))
  }

  /** The first eight characters of a key, "(YYYY-MM", and the rest. */
  lemma MonthKeySplit(ym: YearMonth)
    requires ValidMonth(ym) && 0 <= ym.year < 10000
    ensures var y := FixedDigits(ym.year, 4);
            var m := FixedDigits(ym.month, 2);
            var rest := ") " + MonthName(ym.month) + " " + y;
            && MonthKey(ym) == "(" + (y + ("-" + (m + rest)))
            && MonthKey(ym) == ("(" + (y + "-")) + (m + rest)
  {
    assert Pow10(4) == 10000 && Pow10(2) == 100;
    PaddedFixed(ym.year, 4);
    PaddedFixed(ym.month, 2);
  }

  /** Keys of different years are ordered by their year digits. */
  lemma MonthKeyOrderByYear(a: YearMonth, b: YearMonth)
    requires ValidMonth(a) && ValidMonth(b)
    requires 0 <= a.year < 10000 && 0 <= b.year < 10000 && a.year != b.year
    ensures LexLess(MonthKey(a), MonthKey(b)) <==> a.year < b.year
  {
    MonthKeySplit(a);
    MonthKeySplit(b);
    var ya, yb := FixedDigits(a.year, 4), FixedDigits(b.year, 4);
    var ta := "-" + (FixedDigits(a.month, 2) + (") " + MonthName(a.month) + " " + ya));
    var tb := "-" + (FixedDigits(b.month, 2) + (") " + MonthName(b.month) + " " + yb));
    assert Pow10(4) == 10000;
    FixedDigitsInjective(a.year, b.year, 4);
    FixedDigitsOrder(a.year, b.year, 4);
    LexLessCommonPrefix("(", ya + ta, yb + tb);
    LexLessSameLength(ya, yb, ta, tb);
  }

  /** Keys of the same year are ordered by their month digits. */
  lemma MonthKeyOrderByMonth(a: YearMonth, b: YearMonth)
    requires ValidMonth(a) && ValidMonth(b)
    requires 0 <= a.year < 10000 && a.year == b.year && a.month != b.month
    ensures LexLess(MonthKey(a), MonthKey(b)) <==> a.month < b.month
  {
    MonthKeySplit(a);
    MonthKeySplit(b);
    var y := FixedDigits(a.year, 4);
    var ma, mb := FixedDigits(a.month, 2), FixedDigits(b.month, 2);
    var ra := ") " + MonthName(a.month) + " " + y;
    var rb := ") " + MonthName(b.month) + " " + y;
    assert Pow10(2) == 100;
    FixedDigitsInjective(a.month, b.month, 2);
    FixedDigitsOrder(a.month, b.month, 2);
    LexLessCommonPrefix("(" + (y + "-"), ma + ra, mb + rb);
    LexLessSameLength(ma, mb, ra, rb);
  }

  /** For years 0 to 9999, sorting the keys as strings (`sort.Strings`) sorts
      the months chronologically. */
  lemma MonthKeyOrder(a: YearMonth, b: YearMonth)
    requires ValidMonth(a) && ValidMonth(b)
    requires 0 <= a.year < 10000 && 0 <= b.year < 10000
    ensures LexLess(MonthKey(a), MonthKey(b)) <==> MonthIndex(a) < MonthIndex(b)
  {
    if a == b {
      LexLessIrreflexive(MonthKey(a));
    } else if a.year != b.year {
      MonthKeyOrderByYear(a, b);
    } else {
      MonthKeyOrderByMonth(a, b);
    }
  }

  /** For years 0 to 9999, different months have different keys. */
  lemma MonthKeyInjective(a: YearMonth, b: YearMonth)
    requires ValidMonth(a) && ValidMonth(b)
    requires 0 <= a.year < 10000 && 0 <= b.year < 10000
    requires MonthKey(a) == MonthKey(b)
    ensures a == b
  {
    MonthKeyOrder(a, b);
    MonthKeyOrder(b, a);
    LexLessIrreflexive(MonthKey(a));
    MonthIndexInjective(a, b);
  }
}
