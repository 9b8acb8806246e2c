/** Proleptic Gregorian calendar dates, the part of PHP's `DateTime` the plugin
    uses: day arithmetic (`P1D`, `P7D`, `P14D`), month arithmetic with PHP's
    overflow rule (`P1M`), `date('w')`, `date('t')` and the `Y-m-d` format. */
module Civil {
  import opened Php

  datatype Date = Date(year: nat, month: nat, day: nat)

  predicate IsLeap(y: nat) {
    y % 4 == 0 && (y % 100 != 0 || y % 400 == 0)
  }

  /** `date('t')`: the number of days in month `m` of year `y`. */
  function DaysInMonth(y: nat, m: nat): (n: nat)
    requires 1 <= m <= 12
    ensures 28 <= n <= 31
  {
    if m == 2 then (if IsLeap(y) then 29 else 28)
    else if m == 4 || m == 6 || m == 9 || m == 11 then 30
    else 31
  }

  predicate Valid(d: Date) {
    1 <= d.month <= 12 && 1 <= d.day <= DaysInMonth(d.year, d.month)
  }

  /** The dates a successful `DateTime` parse can produce. */
  type ValidDate = d: Date | Valid(d) witness Date(1970, 1, 1)

  function YearLength(y: nat): nat {
    if IsLeap(y) then 366 else 365
  }

  /** Days from 0000-01-01 to the first of January of year `y`. */
  function DaysBeforeYear(y: nat): int {
    365 * y + (y + 3) / 4 - (y + 99) / 100 + (y + 399) / 400
  }

  /** Days from the first of January of year `y` to the first of month `m` (13 stands for the next January). */
  function DaysBeforeMonth(y: nat, m: nat): nat
    requires 1 <= m <= 13
  {
    var leap := if IsLeap(y) && m > 2 then 1 else 0;
    leap + (match m
      case 1 => 0 case 2 => 31 case 3 => 59 case 4 => 90 case 5 => 120 case 6 => 151
      case 7 => 181 case 8 => 212 case 9 => 243 case 10 => 273 case 11 => 304 case 12 => 334
      case _ => 365)
  }

  /** The day ordinal PHP compares `DateTime` values by (at equal time of day). */
  function DayNumber(d: Date): int
    requires Valid(d)
  {
    DaysBeforeYear(d.year) + DaysBeforeMonth(d.year, d.month) + d.day - 1
  }

  predicate Before(a: Date, b: Date)
    requires Valid(a) && Valid(b)
  {
    DayNumber(a) < DayNumber(b)
  }

  lemma MonthStep(y: nat, m: nat)
    requires 1 <= m <= 12
    ensures DaysBeforeMonth(y, m + 1) == DaysBeforeMonth(y, m) + DaysInMonth(y, m)
  {
  }

  /** The leap-day counts of `DaysBeforeYear` each move up by one exactly when their
      divisor divides `y`. */
  lemma LeapCountStep4(y: nat)
    ensures (y + 4) / 4 == (y + 3) / 4 + (if y % 4 == 0 then 1 else 0)
  {
  }

  lemma LeapCountStep100(y: nat)
    ensures (y + 100) / 100 == (y + 99) / 100 + (if y % 100 == 0 then 1 else 0)
  {
  }

  lemma LeapCountStep400(y: nat)
    ensures (y + 400) / 400 == (y + 399) / 400 + (if y % 400 == 0 then 1 else 0)
  {
  }

  /** Multiples of 400 are multiples of 100, which are multiples of 4. */
  lemma DivisorsNest(y: nat)
    ensures y % 400 == 0 ==> y % 100 == 0
    ensures y % 100 == 0 ==> y % 4 == 0
  {
    if y % 400 == 0 {
      var q := y / 400;
      assert y == 100 * (4 * q);
    }
    if y % 100 == 0 {
      var q := y / 100;
      assert y == 4 * (25 * q);
    }
  }

  lemma YearStep(y: nat)
    ensures DaysBeforeYear(y + 1) == DaysBeforeYear(y) + YearLength(y)
  {
    DivisorsNest(y);
    LeapCountStep4(y);
    LeapCountStep100(y);
    LeapCountStep400(y);
  }

  /** A later year starts at least a whole year after an earlier one. */
  lemma {:induction false} YearsIncrease(y: nat, y': nat)
    requires y < y'
    ensures DaysBeforeYear(y') >= DaysBeforeYear(y) + YearLength(y)
    decreases y' - y
  {
    YearStep(y);
    if y + 1 < y' {
      YearsIncrease(y + 1, y');
      YearStep(y + 1);
    }
  }

  lemma {:induction false} MonthsIncrease(y: nat, m: nat, m': nat)
    requires 1 <= m < m' <= 13
    ensures DaysBeforeMonth(y, m') >= DaysBeforeMonth(y, m) + DaysInMonth(y, m)
    decreases m' - m
  {
    MonthStep(y, m);
    if m + 1 < m' {
      MonthsIncrease(y, m + 1, m');
    }
  }

  /** The day ordinal orders dates exactly as comparing (year, month, day) in turn does. */
  lemma DayNumberOrder(a: Date, b: Date)
    requires Valid(a) && Valid(b)
    ensures Before(a, b) <==>
      a.year < b.year || (a.year == b.year && (a.month < b.month || (a.month == b.month && a.day < b.day)))
    ensures DayNumber(a) == DayNumber(b) <==> a == b
  {
    if a.year < b.year {
      YearsIncrease(a.year, b.year);
      MonthsIncrease(a.year, a.month, 13);
    } else if b.year < a.year {
      YearsIncrease(b.year, a.year);
      MonthsIncrease(b.year, b.month, 13);
    } else if a.month < b.month {
      MonthsIncrease(a.year, a.month, b.month);
    } else if b.month < a.month {
      MonthsIncrease(b.year, b.month, a.month);
    }
  }

  /** The (year, month) after (y, m). */
  function NextMonth(y: nat, m: nat): (r: (nat, nat))
    requires 1 <= m <= 12
    ensures 1 <= r.1 <= 12
  {
    if m == 12 then (y + 1, 1) else (y, m + 1)
  }

  /** The first of the next month comes exactly one month length after the first of this one. */
  lemma FirstOfNextMonth(y: nat, m: nat)
    requires 1 <= m <= 12
    ensures var (y', m') := NextMonth(y, m);
      DayNumber(Date(y', m', 1)) == DayNumber(Date(y, m, 1)) + DaysInMonth(y, m)
  {
    MonthStep(y, m);
    if m == 12 {
      YearStep(y);
    }
  }

  function NextDay(d: Date): (r: Date)
    requires Valid(d)
    ensures Valid(r) && DayNumber(r) == DayNumber(d) + 1
  {
    if d.day < DaysInMonth(d.year, d.month) then d.(day := d.day + 1)
    else
      FirstOfNextMonth(d.year, d.month);
      var (y', m') := NextMonth(d.year, d.month);
      Date(y', m', 1)
  }

  /** `$date->add(new DateInterval('PnD'))`. */
  function AddDays(d: Date, n: nat): (r: Date)
    requires Valid(d)
    ensures Valid(r) && DayNumber(r) == DayNumber(d) + n
    decreases n
  {
    if n == 0 then d else AddDays(NextDay(d), n - 1)
  }

  /** `$date->add(new DateInterval('P1M'))`: the month number goes up by one and the
      day of month is kept; a day past the end of that month spills over into the
      month after it, so 2023-01-31 becomes 2023-03-03. */
  function AddMonth(d: Date): (r: Date)
    requires Valid(d)
    ensures Valid(r) && DayNumber(d) < DayNumber(r)
    ensures var (y', m') := NextMonth(d.year, d.month);
      DayNumber(r) == DayNumber(Date(y', m', 1)) + d.day - 1
    ensures var (y', m') := NextMonth(d.year, d.month);
      d.day <= DaysInMonth(y', m') ==> r == Date(y', m', d.day)
  {
    var (y1, m1) := NextMonth(d.year, d.month);
    FirstOfNextMonth(d.year, d.month);
    if d.day <= DaysInMonth(y1, m1) then Date(y1, m1, d.day)
    else
      FirstOfNextMonth(y1, m1);
      var (y2, m2) := NextMonth(y1, m1);
      Date(y2, m2, d.day - DaysInMonth(y1, m1))
  }

  /** `date('w')`: 0 for Sunday through 6 for Saturday. */
  function Weekday(d: Date): (w: nat)
    requires Valid(d)
    ensures w < 7
  {
    (DayNumber(d) + 6) % 7
  }

  lemma WeekdayExamples()
    ensures Weekday(Date(1970, 1, 1)) == 4
    ensures Weekday(Date(2024, 1, 1)) == 1
  {
  }

  function FirstOfMonth(d: Date): (r: Date)
    requires Valid(d)
    ensures Valid(r) && r.year == d.year && r.month == d.month && r.day == 1
  {
    d.(day := 1)
  }

  /** `date('Y-m-t')`: the last day of the month of `d`. */
  function LastOfMonth(d: Date): (r: Date)
    requires Valid(d)
    ensures Valid(r) && r.year == d.year && r.month == d.month && r.day == DaysInMonth(d.year, d.month)
  {
    d.(day := DaysInMonth(d.year, d.month))
  }

  /** `date('Y')`: at least four digits. */
  function FormatYear(y: nat): string {
    if y < 10000 then Fixed4(y) else Decimal(y)
  }

  /** `$date->format('Y-m-d')`. */
  function FormatDate(d: Date): (s: string)
    requires Valid(d)
  {
    FormatYear(d.year) + "-" + Fixed2(d.month) + "-" + Fixed2(d.day)
  }

  /** `date('Y-m')`. */
  function FormatYearMonth(d: Date): (s: string)
    requires Valid(d)
  {
    FormatYear(d.year) + "-" + Fixed2(d.month)
  }

  /** The dates of years 0 to 9999 whose `Y-m-d` rendering has exactly ten characters. */
  predicate FourDigitYear(d: Date) {
    Valid(d) && d.year < 10000
  }

  lemma FormatDateLength(d: Date)
    requires FourDigitYear(d)
    ensures |FormatDate(d)| == 10
    ensures FormatDate(d) == FormatYearMonth(d) + "-" + Fixed2(d.day)
  {
  }

  /** Distinct four-digit-year dates format to distinct keys. */
  lemma FormatDateInjective(a: Date, b: Date)
    requires FourDigitYear(a) && FourDigitYear(b)
    ensures FormatDate(a) == FormatDate(b) <==> a == b
  {
    FormatDateOrder(a, b);
  }

  /** On four-digit years, comparing `Y-m-d` strings character by character orders
      dates as the calendar does, and equal strings mean equal dates. */
  lemma FormatDateOrder(a: Date, b: Date)
    requires FourDigitYear(a) && FourDigitYear(b)
    ensures LexLess(FormatDate(a), FormatDate(b)) <==> Before(a, b)
    ensures FormatDate(a) == FormatDate(b) <==> a == b
  {
    var ya, yb := Fixed4(a.year), Fixed4(b.year);
    var ma, mb := Fixed2(a.month), Fixed2(b.month);
    var da, db := Fixed2(a.day), Fixed2(b.day);
    assert FormatDate(a) == ya + ("-" + ma + "-" + da);
    assert FormatDate(b) == yb + ("-" + mb + "-" + db);
    assert "-" + ma + "-" + da == "-" + (ma + ("-" + da));
    assert "-" + mb + "-" + db == "-" + (mb + ("-" + db));
    LexLessAppend(ya, "-" + ma + "-" + da, yb, "-" + mb + "-" + db);
    LexLessAppend("-", ma + ("-" + da), "-", mb + ("-" + db));
    LexLessAppend(ma, "-" + da, mb, "-" + db);
    LexLessAppend("-", da, "-", db);
    LexLessIrreflexive("-");
    Fixed4Order(a.year, b.year);
    Fixed2Order(a.month, b.month);
    Fixed2Order(a.day, b.day);
    Fixed2Injective(a.month, b.month);
    Fixed2Injective(a.day, b.day);
    DayNumberOrder(a, b);
    if FormatDate(a) == FormatDate(b) {
      assert FormatDate(a)[..4] == ya && FormatDate(b)[..4] == yb;
      assert FormatDate(a)[5..7] == ma && FormatDate(b)[5..7] == mb;
      assert FormatDate(a)[8..] == da && FormatDate(b)[8..] == db;
    }
  }
}
