/** Calendar arithmetic of JavaScript's `Date` in UTC, on day numbers: a day
    number counts days since 1970-01-01 (negative before it), which is what
    `Date.UTC(...) / 86400000` gives for a midnight. Dates follow the proleptic
    Gregorian calendar, as ECMAScript specifies. */
module CivilDates {
  import opened Text

  datatype Date = Date(year: int, month: int, day: int)

  predicate IsLeapYear(y: int)
  {
    y % 4 == 0 && (y % 100 != 0 || y % 400 == 0)
  }

  function DaysInYear(y: int): int
  {
    if IsLeapYear(y) then 366 else 365
  }

  /** Day number of 1 January of year `y`, counted year by year from 1970. */
  function YearStart(y: int): int
    decreases if y >= 1970 then y - 1970 else 1970 - y
  {
    if y == 1970 then 0
    else if y > 1970 then YearStart(y - 1) + DaysInYear(y - 1)
    else YearStart(y + 1) - DaysInYear(y)
  }

  /** Consecutive years start `DaysInYear` apart. */
  lemma YearStartStep(y: int)
    ensures YearStart(y + 1) == YearStart(y) + DaysInYear(y)
  {
  }

  /** Years start in increasing order. */
  lemma {:induction false} YearStartMonotone(a: int, b: int)
    requires a <= b
    ensures YearStart(a) + 365 * (b - a) <= YearStart(b)
    decreases b - a
  {
    if a < b {
      YearStartMonotone(a, b - 1);
      YearStartStep(b - 1);
    }
  }

  /** Leap years from year 1 up to, not including, year `y` (for `y >= 1`). */
  function LeapYearsBefore(y: int): int
  {
    (y - 1) / 4 - (y - 1) / 100 + (y - 1) / 400
  }

  /** Passing year `y` adds one leap year exactly when `y` is one. */
  lemma LeapYearsStep(y: int)
    ensures LeapYearsBefore(y + 1) == LeapYearsBefore(y) + (if IsLeapYear(y) then 1 else 0)
  {
    MultiplesStep4(y);
    MultiplesStep100(y);
    MultiplesStep400(y);
  }

  lemma MultiplesStep4(y: int)
    ensures y / 4 == (y - 1) / 4 + (if y % 4 == 0 then 1 else 0)
  {
    assert y - 1 == 4 * ((y - 1) / 4) + (y - 1) % 4;
    assert y == 4 * (y / 4) + y % 4;
  }

  lemma MultiplesStep100(y: int)
    ensures y / 100 == (y - 1) / 100 + (if y % 100 == 0 then 1 else 0)
  {
    assert y - 1 == 100 * ((y - 1) / 100) + (y - 1) % 100;
    assert y == 100 * (y / 100) + y % 100;
  }

  lemma MultiplesStep400(y: int)
    ensures y / 400 == (y - 1) / 400 + (if y % 400 == 0 then 1 else 0)
  {
    assert y - 1 == 400 * ((y - 1) / 400) + (y - 1) % 400;
    assert y == 400 * (y / 400) + y % 400;
  }

  /** The usual closed form of `YearStart` from 1970 on. */
  lemma {:induction false} YearStartClosedForm(y: int)
    requires y >= 1970
    ensures YearStart(y) == 365 * (y - 1970) + LeapYearsBefore(y) - LeapYearsBefore(1970)
    decreases y - 1970
  {
    if y > 1970 {
      YearStartClosedForm(y - 1);
      LeapYearsStep(y - 1);
    }
  }

  /** The year whose days include day number `n`, found by walking from `y`. */
  function YearFrom(n: int, y: int): (r: int)
    ensures YearStart(r) <= n < YearStart(r + 1)
    decreases if n < YearStart(y) then YearStart(y) - n + 1000 else n - YearStart(y)
  {
    YearStartStep(y - 1);
    YearStartStep(y);
    if n < YearStart(y) then YearFrom(n, y - 1)
    else if n >= YearStart(y + 1) then YearFrom(n, y + 1)
    else y
  }

  /** The year of day number `n` (the walk starts from an estimate close to it). */
  function YearOf(n: int): (r: int)
    ensures YearStart(r) <= n < YearStart(r + 1)
  {
    YearFrom(n, 1970 + n / 366)
  }

  /** A year is determined by any of its days. */
  lemma YearOfUnique(n: int, y: int)
    requires YearStart(y) <= n < YearStart(y + 1)
    ensures YearOf(n) == y
  {
    var r := YearOf(n);
    if r < y {
      YearStartMonotone(r + 1, y);
    } else if r > y {
      YearStartMonotone(y + 1, r);
    }
  }

  function DaysInMonth(y: int, m: int): int
    requires 1 <= m <= 12
  {
    if m == 2 then (if IsLeapYear(y) then 29 else 28)
    else if m == 4 || m == 6 || m == 9 || m == 11 then 30
    else 31
  }

  /** Days of year `y` before the first of month `m`. */
  function DaysBeforeMonth(y: int, m: int): int
    requires 1 <= m <= 12
  {
    [0, 31, 59, 90, 120, 151, 181, 212, 243, 273, 304, 334][m - 1]
    + (if m > 2 && IsLeapYear(y) then 1 else 0)
  }

  /** The month of year `y` holding its day `doy` (0-based), searching down from `m`. */
  function MonthFrom(y: int, doy: int, m: int): (r: int)
    requires 1 <= m <= 12
    requires 0 <= doy < DaysBeforeMonth(y, m) + DaysInMonth(y, m)
    ensures 1 <= r <= m
    ensures DaysBeforeMonth(y, r) <= doy < DaysBeforeMonth(y, r) + DaysInMonth(y, r)
    decreases m
  {
    if DaysBeforeMonth(y, m) <= doy || m == 1 then m else MonthFrom(y, doy, m - 1)
  }

  ghost predicate ValidDate(d: Date)
  {
    1 <= d.month <= 12 && 1 <= d.day <= DaysInMonth(d.year, d.month)
  }

  /** The day number of a calendar date. */
  function DayNumber(d: Date): int
    requires 1 <= d.month <= 12
  {
    YearStart(d.year) + DaysBeforeMonth(d.year, d.month) + d.day - 1
  }

  /** The calendar date of a day number (`getUTCFullYear`, `getUTCMonth() + 1`,
      `getUTCDate`). */
  function CivilFromDays(n: int): (d: Date)
    ensures ValidDate(d) && DayNumber(d) == n
  {
    var y := YearOf(n);
    YearStartStep(y);
    var doy := n - YearStart(y);
    var m := MonthFrom(y, doy, 12);
    Date(y, m, doy - DaysBeforeMonth(y, m) + 1)
  }

  /** Months follow each other without gaps. */
  lemma MonthsAdjacent(y: int, m: int)
    requires 1 <= m < 12
    ensures DaysBeforeMonth(y, m) + DaysInMonth(y, m) == DaysBeforeMonth(y, m + 1)
  {
  }

  /** Distinct months of one year cover disjoint day ranges. */
  lemma {:induction false} MonthRangesDisjoint(y: int, a: int, b: int)
    requires 1 <= a < b <= 12
    ensures DaysBeforeMonth(y, a) + DaysInMonth(y, a) <= DaysBeforeMonth(y, b)
    decreases b - a
  {
    MonthsAdjacent(y, b - 1);
    if a < b - 1 {
      MonthRangesDisjoint(y, a, b - 1);
    }
  }

  /** Day numbers and valid calendar dates are in one-to-one correspondence. */
  lemma CivilOfDayNumber(d: Date)
    requires ValidDate(d)
    ensures CivilFromDays(DayNumber(d)) == d
  {
    var n := DayNumber(d);
    YearStartStep(d.year);
    assert DaysBeforeMonth(d.year, d.month) + DaysInMonth(d.year, d.month) <= DaysInYear(d.year) by {
      if d.month < 12 {
        MonthRangesDisjoint(d.year, d.month, 12);
      }
    }
    YearOfUnique(n, d.year);
    var c := CivilFromDays(n);
    assert c.year == d.year;
    if c.month < d.month {
      MonthRangesDisjoint(d.year, c.month, d.month);
    } else if c.month > d.month {
      MonthRangesDisjoint(d.year, d.month, c.month);
    }
  }

  /** `getUTCDay()`: 0 is Sunday, 1970-01-01 was a Thursday. */
  function Weekday(n: int): int
  {
    (n + 4) % 7
  }

  /** `getUTCDay() || 7`: Monday 1 ... Sunday 7. */
  function IsoWeekday(n: int): (r: int)
    ensures 1 <= r <= 7
  {
    if Weekday(n) == 0 then 7 else Weekday(n)
  }

  /** ISO weekdays advance by one each day, wrapping from Sunday to Monday. */
  lemma IsoWeekdayPlus(n: int, i: int)
    requires 0 <= i < 7
    ensures IsoWeekday(n + i) == (IsoWeekday(n) + i - 1) % 7 + 1
  {
    assert n + 4 == 7 * ((n + 4) / 7) + (n + 4) % 7;
    assert n + i + 4 == 7 * ((n + 4) / 7) + ((n + 4) % 7 + i);
  }

  /** Shifting by whole weeks keeps the weekday. */
  lemma IsoWeekdayShift(n: int, k: int)
    ensures IsoWeekday(n + 7 * k) == IsoWeekday(n)
  {
    assert (n + 7 * k + 4) % 7 == (n + 4) % 7;
  }

  /** `Date.UTC(y, m0, d)` as a day number, for a month index `m0` in 0..11.
      Like `Date.UTC`, a year 0..99 is read as 1900..1999, and a day outside
      the month carries into neighbouring months. */
  function UtcDay(y: int, m0: int, d: int): int
    requires 0 <= m0 < 12
  {
    var year := if 0 <= y <= 99 then 1900 + y else y;
    DayNumber(Date(year, m0 + 1, 1)) + d - 1
  }

  /** Rebuilding a date from its own year, month and day gives the same day,
      except in years 0..99, which `Date.UTC` moves to the twentieth century. */
  lemma UtcDayOfCivil(n: int)
    requires !(0 <= CivilFromDays(n).year <= 99)
    ensures var c := CivilFromDays(n); UtcDay(c.year, c.month - 1, c.day) == n
  {
  }

  /** `String(n).padStart(2, '0')`. */
  function Pad2(n: nat): string
  {
    PadStart(NatToString(n), 2, '0')
  }

  /** The year field of `toISOString()`: four digits for 0..9999, otherwise a
      sign and six digits. */
  function IsoYear(y: int): string
  {
    if 0 <= y <= 9999 then PadStart(NatToString(y), 4, '0')
    else (if y < 0 then "-" else "+") + PadStart(NatToString(if y < 0 then -y else y), 6, '0')
  }

  /** `YYYY-MM-DD` of a calendar date. */
  function DateString(c: Date): string
    requires 1 <= c.month && 1 <= c.day
  {
    IsoYear(c.year) + "-" + Pad2(c.month) + "-" + Pad2(c.day)
  }

  /** `MM/DD` of a calendar date. */
  function MonthDayString(c: Date): string
    requires 1 <= c.month && 1 <= c.day
  {
    Pad2(c.month) + "/" + Pad2(c.day)
  }

  /** `toISOString().split('T')[0]` of the midnight of day `n`. */
  function IsoDate(n: int): string
  {
    DateString(CivilFromDays(n))
  }

  /** The `MM/DD` display of day `n` built from `getUTCMonth` and `getUTCDate`. */
  function MonthDay(n: int): string
  {
    MonthDayString(CivilFromDays(n))
  }
  /** `String(n).padStart(2, '0')` of a number below 100 is two digits
      that read as `n`. */
  lemma Pad2Value(n: nat)
    requires n < 100
    ensures |Pad2(n)| == 2 && AllDigits(Pad2(n)) && DigitsValue(Pad2(n)) == n
  {
    NatToStringWidth(n, 2);
    var ds := NatToString(n);
    var zs := Pad2(n)[..|Pad2(n)| - |ds|];
    assert Pad2(n) == zs + ds;
    LeadingZeros(zs, ds);
  }

  /** Where the fields of `y-m-d` and `m/d` sit, for fields of widths 4, 2, 2. */
  lemma FieldSlices(y: string, m: string, d: string)
    requires |y| == 4 && |m| == 2 && |d| == 2
    ensures var s := y + "-" + m + "-" + d;
      |s| == 10 && s[4] == '-' && s[7] == '-' && s[..4] == y && s[5..7] == m && s[8..10] == d
    ensures var t := m + "/" + d; t[..2] == m && t[3..] == d
  {
    var s := y + "-" + m + "-" + d;
    assert s[5..7] == m;
    assert s[8..10] == d;
  }

  /** The `YYYY-MM-DD` form and the `MM/DD` form of a date of the years
      0..9999 name the same month and day: the display form is the last five
      characters of the date form with `/` for `-`, and its two fields read as
      the month and the day of the month. */
  lemma DateStringFields(c: Date)
    requires 0 <= c.year <= 9999 && 1 <= c.month <= 12 && 1 <= c.day <= 31
    ensures |DateString(c)| == 10 && DateString(c)[4] == '-' && DateString(c)[7] == '-'
    ensures DateString(c)[..4] == PadStart(NatToString(c.year), 4, '0')
    ensures MonthDayString(c) == DateString(c)[5..7] + "/" + DateString(c)[8..10]
    ensures AllDigits(MonthDayString(c)[..2]) && DigitsValue(MonthDayString(c)[..2]) == c.month
    ensures AllDigits(MonthDayString(c)[3..]) && DigitsValue(MonthDayString(c)[3..]) == c.day
  {
    NatToStringWidth(c.year, 4);
    Pad2Value(c.month);
    Pad2Value(c.day);
    FieldSlices(IsoYear(c.year), Pad2(c.month), Pad2(c.day));
  }

  /** So the `date` and `displayDate` of a day are the same day. */
  lemma MonthDayOfIsoDate(n: int)
    requires 0 <= CivilFromDays(n).year <= 9999
    ensures |IsoDate(n)| == 10 && IsoDate(n)[4] == '-' && IsoDate(n)[7] == '-'
    ensures MonthDay(n) == IsoDate(n)[5..7] + "/" + IsoDate(n)[8..10]
    ensures AllDigits(MonthDay(n)[..2]) && DigitsValue(MonthDay(n)[..2]) == CivilFromDays(n).month
    ensures AllDigits(MonthDay(n)[3..]) && DigitsValue(MonthDay(n)[3..]) == CivilFromDays(n).day
  {
    DateStringFields(CivilFromDays(n));
  }
}
