/** Week identifiers `YYYY-Www` of the weekly-business pages: `getWeekId`
    (services/index.js), its duplicate `getWeekIdForDate`
    (public/scripts/weekly-business.js), `getWeekInfo` and `getAdjacentWeekId`.
    A date is its UTC day number; local and UTC calendar dates are taken to
    agree (a non-negative UTC offset). ISO 8601 weeks run Monday to Sunday and
    belong to the year of their Thursday. */
module WeekIds {
  import opened Common
  import opened Text
  import opened CivilDates

  // ------------------------------------------------------------ weekdays

  /** The Monday of the Monday-to-Sunday week holding day `n`. */
  function MondayOf(n: int): int
  {
    n - IsoWeekday(n) + 1
  }

  /** `d.setUTCDate(d.getUTCDate() + 4 - (d.getUTCDay() || 7))`: the Thursday
      of the week holding day `n`. */
  function ThursdayOf(n: int): int
  {
    n + 4 - IsoWeekday(n)
  }

  /** Two days with the same weekday lie a whole number of weeks apart. */
  lemma SameWeekdayApart(a: int, b: int)
    requires IsoWeekday(a) == IsoWeekday(b)
    ensures a - b == 7 * ((a - b) / 7)
  {
    assert (a + 4) % 7 == (b + 4) % 7;
    assert a + 4 == 7 * ((a + 4) / 7) + (a + 4) % 7;
    assert b + 4 == 7 * ((b + 4) / 7) + (b + 4) % 7;
    assert a - b == 7 * ((a + 4) / 7 - (b + 4) / 7);
  }

  /** `MondayOf` gives a Monday at most six days back, and `ThursdayOf` is
      three days after it. */
  lemma MondayOfWeek(n: int)
    ensures IsoWeekday(MondayOf(n)) == 1
    ensures MondayOf(n) <= n < MondayOf(n) + 7
    ensures ThursdayOf(n) == MondayOf(n) + 3 && IsoWeekday(ThursdayOf(n)) == 4
  {
    var m := MondayOf(n);
    IsoWeekdayPlus(m, IsoWeekday(n) - 1);
    IsoWeekdayPlus(m, 3);
  }

  /** The day `k` weeks after day `n`. */
  function WeeksLater(n: int, k: int): int
  {
    n + 7 * k
  }

  /** Whole weeks later is the same weekday. */
  lemma WeeksLaterWeekday(n: int, k: int)
    ensures IsoWeekday(WeeksLater(n, k)) == IsoWeekday(n)
  {
    IsoWeekdayShift(n, k);
  }

  /** A Monday is the Monday of every day of its week. */
  lemma MondayOfInWeek(m: int, n: int)
    requires IsoWeekday(m) == 1 && m <= n < m + 7
    ensures MondayOf(n) == m
  {
    IsoWeekdayPlus(m, n - m);
    assert m + (n - m) == n;
  }

  /** Mondays that are less than a week apart coincide. */
  lemma MondaysOrdered(a: int, b: int)
    requires IsoWeekday(a) == 1 && IsoWeekday(b) == 1 && a < b
    ensures a + 7 <= b
  {
    SameWeekdayApart(b, a);
  }

  // --------------------------------------- the years Date.UTC leaves alone

  /** Day `n` and the week before it fall in year 100 or later, clear of the
      years 0..99 that `Date.UTC` moves to 1900..1999. */
  ghost predicate AfterYear100(n: int)
  {
    YearOf(n - 7) >= 100
  }

  /** Later days do not belong to earlier years. */
  lemma YearOfMonotone(a: int, b: int)
    requires a <= b
    ensures YearOf(a) <= YearOf(b)
  {
    var ra := YearOf(a);
    var rb := YearOf(b);
    if rb < ra {
      YearStartMonotone(rb + 1, ra);
    }
  }

  /** Every day from a week before `n` on is clear of the years 0..99. */
  lemma AfterYear100Later(n: int, d: int)
    requires AfterYear100(n) && n - 7 <= d
    ensures YearOf(d) >= 100
  {
    YearOfMonotone(n - 7, d);
  }

  /** 1 January of a year `Date.UTC` does not remap is `YearStart`. */
  lemma UtcNewYear(y: int)
    requires !(0 <= y <= 99)
    ensures UtcDay(y, 0, 1) == YearStart(y)
  {
  }

  // ------------------------------------------------------------- getWeekId

  /** `new Date(Date.UTC(d.getFullYear(), d.getMonth(), d.getDate()))` for the
      date at day `n`. */
  function MidnightOf(n: int): int
  {
    var c := CivilFromDays(n);
    UtcDay(c.year, c.month - 1, c.day)
  }

  /** Rebuilding the midnight keeps the day, for years `Date.UTC` leaves alone. */
  lemma MidnightOfUnshifted(n: int)
    requires AfterYear100(n)
    ensures MidnightOf(n) == n
  {
    AfterYear100Later(n, n);
    UtcDayOfCivil(n);
  }

  /** `d.getUTCFullYear()` after the shift to Thursday. */
  function WeekYearOf(n: int): int
  {
    YearOf(ThursdayOf(MidnightOf(n)))
  }

  /** `Math.ceil((((d - yearStart) / 86400000) + 1) / 7)`, whole days only. */
  function WeekNumberOf(n: int): int
  {
    var t := ThursdayOf(MidnightOf(n));
    var k := t - UtcDay(YearOf(t), 0, 1);
    (k + 1 + 6) / 7
  }

  /** `${year}-W${String(week).padStart(2, '0')}`. */
  function FormatWeekId(year: int, week: int): string
  {
    IntToString(year) + "-W" + PadStart(IntToString(week), 2, '0')
  }

  /** `getWeekId(d)` and `getWeekIdForDate(d)` (the two are the same code) for
      the date at day `n`. */
  function WeekId(n: int): string
  {
    FormatWeekId(WeekYearOf(n), WeekNumberOf(n))
  }

  // ---------------------------------------------- ISO 8601 reference weeks

  /** The Monday of ISO week 1 of year `y`: the week that holds 4 January. */
  function FirstIsoMonday(y: int): (r: int)
    ensures YearStart(y) - 3 <= r <= YearStart(y) + 3 && IsoWeekday(r) == 1
  {
    MondayOfWeek(YearStart(y) + 3);
    MondayOf(YearStart(y) + 3)
  }

  /** Reference definition: day `n` lies in ISO week `w` of ISO year `y`. */
  ghost predicate IsIsoWeek(n: int, y: int, w: int)
  {
    FirstIsoMonday(y) <= n < FirstIsoMonday(y + 1) && w == (n - FirstIsoMonday(y)) / 7 + 1
  }

  /** Every day has at most one ISO year and week. */
  lemma IsoWeekUnique(n: int, y1: int, w1: int, y2: int, w2: int)
    requires IsIsoWeek(n, y1, w1) && IsIsoWeek(n, y2, w2)
    ensures y1 == y2 && w1 == w2
  {
    if y1 + 1 < y2 {
      YearStartMonotone(y1 + 1, y2);
    } else if y2 + 1 < y1 {
      YearStartMonotone(y2 + 1, y1);
    }
  }

  /** What `getWeekId` computes is the ISO week of the date. */
  lemma WeekIdIsIsoWeek(n: int)
    requires AfterYear100(n)
    ensures IsIsoWeek(n, WeekYearOf(n), WeekNumberOf(n))
    ensures 1 <= WeekNumberOf(n) <= 53
  {
    MidnightOfUnshifted(n);
    MondayOfWeek(n);
    var m := MondayOf(n);
    var t := ThursdayOf(n);
    var y := YearOf(t);
    AfterYear100Later(n, t);
    UtcNewYear(y);
    YearStartStep(y);
    var f := FirstIsoMonday(y);
    var g := FirstIsoMonday(y + 1);
    if m < f {
      MondaysOrdered(m, f);
    }
    assert m + 3 < YearStart(y + 1);
    MondaysOrdered(m, g);
    SameWeekdayApart(m, f);
    var q := (m - f) / 7;
    assert n - f == 7 * q + (n - m);
    assert (n - f) / 7 == q;
    var k := t - YearStart(y);
    assert k == 7 * q + (f + 3 - YearStart(y));
    assert (k + 7) / 7 == q + 1;
  }

  /** The ISO week of a date is unique, so `getWeekId` names it exactly:
      both directions of "`n` is in week `w` of `y`". */
  lemma WeekIdMatchesIso(n: int, y: int, w: int)
    requires AfterYear100(n)
    ensures IsIsoWeek(n, y, w) <==> (WeekYearOf(n) == y && WeekNumberOf(n) == w)
  {
    WeekIdIsIsoWeek(n);
    if IsIsoWeek(n, y, w) {
      IsoWeekUnique(n, y, w, WeekYearOf(n), WeekNumberOf(n));
    }
  }

  /** Days of one Monday-to-Sunday week share their id. */
  lemma SameWeekSameId(a: int, b: int, m: int)
    requires MondayOf(a) == m && MondayOf(b) == m && AfterYear100(m)
    ensures WeekId(a) == WeekId(b)
  {
    MondayOfWeek(a);
    MondayOfWeek(b);
    AfterYear100Later(m, a - 7);
    AfterYear100Later(m, b - 7);
    assert AfterYear100(a) && AfterYear100(b);
    MidnightOfUnshifted(a);
    MidnightOfUnshifted(b);
    assert ThursdayOf(MidnightOf(a)) == ThursdayOf(MidnightOf(b));
    assert WeekYearOf(a) == WeekYearOf(b);
    assert WeekNumberOf(a) == WeekNumberOf(b);
  }

  /** All seven days of a Monday-to-Sunday week get the same id. */
  lemma WeekIdConstantOnWeek(m: int, n: int)
    requires IsoWeekday(m) == 1 && m <= n < m + 7
    requires AfterYear100(m)
    ensures WeekId(n) == WeekId(m)
  {
    MondayOfInWeek(m, n);
    MondayOfInWeek(m, m);
    SameWeekSameId(n, m, m);
  }

  /** 1 January of the years 2020 to 2026 as day numbers. */
  lemma RecentYearStarts()
    ensures YearStart(2020) == 18262 && YearStart(2021) == 18628
    ensures YearStart(2022) == 18993 && YearStart(2023) == 19358
    ensures YearStart(2024) == 19723 && YearStart(2025) == 20089
    ensures YearStart(2026) == 20454
  {
    YearStartClosedForm(2020);
    YearStartClosedForm(2021);
    YearStartClosedForm(2022);
    YearStartClosedForm(2023);
    YearStartClosedForm(2024);
    YearStartClosedForm(2025);
    YearStartClosedForm(2026);
  }

  /** The Mondays that open ISO week 1 of 2021, 2022 and 2024 to 2026. */
  lemma RecentFirstIsoMondays()
    ensures FirstIsoMonday(2021) == 18631 && FirstIsoMonday(2022) == 18995
    ensures FirstIsoMonday(2024) == 19723 && FirstIsoMonday(2025) == 20087
    ensures FirstIsoMonday(2026) == 20451
  {
    RecentYearStarts();
  }

  /** Every day from 1970-01-08 on is clear of the years 0..99. */
  lemma AfterYear100FromEpoch(n: int)
    requires n >= 7
    ensures AfterYear100(n)
  {
    var r := YearOf(n - 7);
    if r < 100 {
      YearStartMonotone(r + 1, 1970);
    }
  }

  /** A day's id names its ISO week, for every day clear of the years 0..99. */
  lemma WeekIdOfIsoWeek(n: int, y: int, w: int)
    requires AfterYear100(n) && IsIsoWeek(n, y, w)
    ensures WeekId(n) == FormatWeekId(y, w)
  {
    WeekIdMatchesIso(n, y, w);
  }

  /** Day 19723 (Monday 2024-01-01) is the first day of ISO week 1 of 2024. */
  lemma MondayExampleWeek()
    ensures AfterYear100(19723) && IsIsoWeek(19723, 2024, 1)
  {
    RecentFirstIsoMondays();
    AfterYear100FromEpoch(19723);
  }

  /** Day 20088 (Tuesday 2024-12-31) is the second day of ISO week 1 of 2025. */
  lemma YearEndExampleWeek()
    ensures AfterYear100(20088) && IsIsoWeek(20088, 2025, 1)
  {
    RecentFirstIsoMondays();
    AfterYear100FromEpoch(20088);
  }

  /** Monday 2024-01-01 opens `2024-W01`. */
  lemma WeekIdMondayExample()
    ensures WeekId(19723) == "2024-W01"
  {
    assert FormatWeekId(2024, 1) == "2024-W01";
    MondayExampleWeek();
    WeekIdOfIsoWeek(19723, 2024, 1);
  }

  /** Tuesday 2024-12-31 already belongs to `2025-W01`, the week that holds
      the first Thursday of 2025. */
  lemma WeekIdYearEndExample()
    ensures WeekId(20088) == "2025-W01"
  {
    assert FormatWeekId(2025, 1) == "2025-W01";
    YearEndExampleWeek();
    WeekIdOfIsoWeek(20088, 2025, 1);
  }

  // ------------------------------------------------------ reading an id

  /** `weekId.split('-W').map(Number)` destructured into `[year, week]`; a
      missing part is `undefined` and, like a non-numeric one, reads as NaN
      (None). */
  function ParseWeekId(weekId: string): (r: Option<(int, int)>)
  {
    var parts := Split(weekId, "-W");
    if |parts| < 2 then None
    else match (ToNumber(parts[0]), ToNumber(parts[1]))
      case (Some(year), Some(week)) => Some((year, week))
      case _ => None
  }

  /** A string of digits and minus signs has no `W`, so no "-W" starts inside it. */
  lemma NoSeparatorIn(a: string, b: string)
    requires forall i :: 0 <= i < |a| ==> IsDigit(a[i]) || a[i] == '-'
    requires b != [] && b[0] == '-'
    ensures forall j :: 0 <= j < |a| ==> !OccursAt(a + b, "-W", j)
  {
    forall j | 0 <= j < |a|
      ensures !OccursAt(a + b, "-W", j)
    {
      if j + 2 <= |a + b| {
        assert (a + b)[j..j + 2][1] == (a + b)[j + 1];
        if j + 1 < |a| {
          assert (a + b)[j + 1] == a[j + 1];
        } else {
          assert (a + b)[j + 1] == b[0];
        }
      }
    }
  }

  /** The week field of an id, `String(week).padStart(2, '0')`, reads back
      as `week`. */
  lemma WeekFieldNumber(week: int)
    ensures ToNumber(PadStart(IntToString(week), 2, '0')) == Some(week)
  {
    if week >= 0 {
      ToNumberOfPadded(week, 2);
    } else {
      IntToStringChars(week);
      assert PadStart(IntToString(week), 2, '0') == IntToString(week);
      ToNumberOfIntToString(week);
    }
  }

  /** The week field of an id holds no "-W". */
  lemma WeekFieldNoSeparator(week: int)
    ensures IndexOf(PadStart(IntToString(week), 2, '0'), "-W") == -1
  {
    var w := IntToString(week);
    var ws := PadStart(w, 2, '0');
    IntToStringChars(week);
    forall j | 0 <= j && j + 2 <= |ws|
      ensures !OccursAt(ws, "-W", j)
    {
      assert ws[j..j + 2][1] == ws[j + 1];
      if j + 1 >= |ws| - |w| {
        assert ws[j + 1] == ws[|ws| - |w|..][j + 1 - (|ws| - |w|)];
      }
    }
  }

  /** A formatted id splits on "-W" into its year field and its week field. */
  lemma SplitFormatWeekId(year: int, week: int)
    ensures Split(FormatWeekId(year, week), "-W")
            == [IntToString(year), PadStart(IntToString(week), 2, '0')]
  {
    IntToStringChars(year);
    NoSeparatorIn(IntToString(year), "-W" + PadStart(IntToString(week), 2, '0'));
    assert IntToString(year) + ("-W" + PadStart(IntToString(week), 2, '0')) == FormatWeekId(year, week);
    WeekFieldNoSeparator(week);
    SplitOnce(IntToString(year), "-W", PadStart(IntToString(week), 2, '0'));
  }

  /** Reading back a formatted id gives its year and week. */
  lemma ParseFormatWeekId(year: int, week: int)
    ensures ParseWeekId(FormatWeekId(year, week)) == Some((year, week))
  {
    SplitFormatWeekId(year, week);
    WeekFieldNumber(week);
    ToNumberOfIntToString(year);
  }

  // ------------------------------------------------------------ getWeekInfo

  datatype DayInfo = DayInfo(dayIndex: int, date: string, displayDate: string)

  /** The result of `getWeekInfo`, without the locale-dependent month name and
      title; `start` is the day number of the Monday the days are counted from. */
  datatype WeekInfo = WeekInfo(
    start: int,
    weekOfMonth: int,
    dateRange: string,
    shortDateRange: string,
    days: seq<DayInfo>)

  /** `new Date(Date.UTC(year, 0, 1 + (week - 1) * 7))` moved back to the
      Monday of its week, as `getWeekInfo` does. */
  function ApproxMonday(year: int, week: int): int
  {
    var d := UtcDay(year, 0, 1 + (week - 1) * 7);
    var day := IsoWeekday(d);
    if day != 1 then d - day + 1 else d
  }

  /** Entry `i` (0 for Monday) of the `days` list: `dayIndex` counts from 1,
      `date` is `YYYY-MM-DD` and `displayDate` is `MM/DD` of the same day. */
  function DayAt(start: int, i: int): DayInfo
  {
    DayInfo(i + 1, IsoDate(start + i), MonthDay(start + i))
  }

  /** `Math.ceil(start.getUTCDate() / 7)`: the week of the month, 1 for the
      days 1..7 of the month and 5 for the days 29..31. */
  function WeekOfMonth(start: int): (r: int)
    ensures 1 <= r <= 5
    ensures var day := CivilFromDays(start).day; 7 * (r - 1) < day <= 7 * r
  {
    (CivilFromDays(start).day + 6) / 7
  }

  /** `Array.from({length: 5}, ...)`: the days from Monday `start` to Friday. */
  function WeekDays(start: int): (r: seq<DayInfo>)
    ensures |r| == 5 && forall i :: 0 <= i < 5 ==> r[i] == DayAt(start, i)
  {
    seq(5, i => DayAt(start, i))
  }

  /** `${formatDate(start)} - ${formatDate(end)}` with `end` four days on. */
  function ShortRange(start: int): string
  {
    MonthDay(start) + " - " + MonthDay(start + 4)
  }

  /** The fields `getWeekInfo` derives from the Monday `start`: five days from
      Monday to Friday, the week of the month that holds the Monday, and the
      Monday-to-Friday range. */
  function WeekInfoFrom(start: int): (r: WeekInfo)
    ensures r.start == start && |r.days| == 5
    ensures forall i :: 0 <= i < 5 ==> r.days[i] == DayAt(start, i)
    ensures 1 <= r.weekOfMonth <= 5
    ensures r.dateRange == "(" + r.shortDateRange + ")"
    ensures r.shortDateRange == MonthDay(start) + " - " + MonthDay(start + 4)
  {
    WeekInfo(start, WeekOfMonth(start), "(" + ShortRange(start) + ")",
      ShortRange(start), WeekDays(start))
  }

  /** `getWeekInfo(weekId)` as written: it counts from 1 January plus
      `(week - 1) * 7` days. A malformed id makes a `Date` that is not valid,
      on which `toISOString` throws (None). */
  function WeekInfoAsWritten(weekId: string): (r: Option<WeekInfo>)
    ensures r.Some? <==> ParseWeekId(weekId).Some?
    ensures r.Some? ==> |r.value.days| == 5 && 1 <= r.value.weekOfMonth <= 5
  {
    match ParseWeekId(weekId)
    case None => None
    case Some((year, week)) => Some(WeekInfoFrom(ApproxMonday(year, week)))
  }

  /** The day `getWeekInfo` starts from is a Monday, in the week of
      `1 January + (week - 1) * 7`. */
  lemma ApproxMondayIsMonday(year: int, week: int)
    ensures IsoWeekday(ApproxMonday(year, week)) == 1
    ensures ApproxMonday(year, week) == MondayOf(UtcDay(year, 0, 1 + (week - 1) * 7))
  {
    MondayOfWeek(UtcDay(year, 0, 1 + (week - 1) * 7));
  }

  /** The as-written Monday is the ISO Monday exactly when 1 January is a
      Monday, Tuesday, Wednesday or Thursday; otherwise it is a week early. */
  lemma ApproxMondayVersusIso(year: int, week: int)
    requires !(0 <= year <= 99)
    ensures ApproxMonday(year, week) ==
      FirstIsoMonday(year) + 7 * (week - 1) - (if IsoWeekday(YearStart(year)) <= 4 then 0 else 7)
  {
    UtcDayOfWeekStart(year, week);
    WeeksLaterWeekday(YearStart(year), week - 1);
    FirstIsoMondayFromNewYear(year);
  }

  /** `Date.UTC(year, 0, 1 + (week - 1) * 7)` is `week - 1` weeks after 1 January. */
  lemma UtcDayOfWeekStart(year: int, week: int)
    requires !(0 <= year <= 99)
    ensures UtcDay(year, 0, 1 + (week - 1) * 7) == WeeksLater(YearStart(year), week - 1)
  {
  }

  /** ISO week 1 starts up to three days before 1 January when that is a
      Monday to Thursday, and after it otherwise. */
  lemma FirstIsoMondayFromNewYear(year: int)
    ensures FirstIsoMonday(year) == YearStart(year) - IsoWeekday(YearStart(year))
      + (if IsoWeekday(YearStart(year)) <= 4 then 1 else 8)
  {
    MondayNearDay(YearStart(year));
  }

  /** The Monday of the week holding the Thursday nearest to day `d`. */
  lemma MondayNearDay(d: int)
    ensures MondayOf(d + 3) == d - IsoWeekday(d) + (if IsoWeekday(d) <= 4 then 1 else 8)
  {
    IsoWeekdayPlus(d, 3);
  }

  // ------------------------------------------------- the corrected reading

  /** The Monday of ISO week `week` of year `year`. */
  function IsoMonday(year: int, week: int): int
  {
    FirstIsoMonday(year) + 7 * (week - 1)
  }

  /** `getWeekInfo` counting from the ISO Monday of the week. */
  function IsoWeekInfo(weekId: string): Option<WeekInfo>
  {
    match ParseWeekId(weekId)
    case None => None
    case Some((year, week)) => Some(WeekInfoFrom(IsoMonday(year, week)))
  }

  /** ISO Mondays are Mondays. */
  lemma IsoMondayIsMonday(year: int, week: int)
    ensures IsoWeekday(IsoMonday(year, week)) == 1
  {
    IsoWeekdayShift(FirstIsoMonday(year), week - 1);
  }

  /** Week `week` is one of the weeks of ISO year `year`. */
  ghost predicate ValidIsoWeek(year: int, week: int)
  {
    1 <= week && IsoMonday(year, week) < FirstIsoMonday(year + 1)
  }

  /** The ISO Monday of a week lies in that week. */
  lemma IsoMondayInWeek(year: int, week: int)
    requires ValidIsoWeek(year, week)
    ensures IsIsoWeek(IsoMonday(year, week), year, week)
  {
  }

  /** Each day from the ISO Monday of a week to its Sunday carries that week's id. */
  lemma WeekIdOfIsoWeekDays(year: int, week: int, d: int)
    requires ValidIsoWeek(year, week) && AfterYear100(IsoMonday(year, week))
    requires IsoMonday(year, week) <= d < IsoMonday(year, week) + 7
    ensures WeekId(d) == FormatWeekId(year, week)
  {
    IsoMondayIsMonday(year, week);
    IsoMondayInWeek(year, week);
    WeekIdConstantOnWeek(IsoMonday(year, week), d);
    WeekIdOfIsoWeek(IsoMonday(year, week), year, week);
  }

  /** The corrected `getWeekInfo` of a week's id starts on that week's ISO
      Monday, and every day it lists (Monday to Friday) carries the id it was
      asked for. */
  lemma IsoWeekInfoRoundTrip(year: int, week: int, d: int)
    requires ValidIsoWeek(year, week) && AfterYear100(IsoMonday(year, week))
    requires IsoMonday(year, week) <= d < IsoMonday(year, week) + 5
    ensures IsoWeekInfo(FormatWeekId(year, week)) == Some(WeekInfoFrom(IsoMonday(year, week)))
    ensures IsoWeekday(IsoMonday(year, week)) == 1
    ensures WeekId(d) == FormatWeekId(year, week)
  {
    ParseFormatWeekId(year, week);
    IsoMondayIsMonday(year, week);
    WeekIdOfIsoWeekDays(year, week, d);
  }

  /** The corrected `getWeekInfo` differs from the written one exactly in the
      years whose 1 January is a Friday, Saturday or Sunday. */
  lemma WeekInfoAgreesIffEarlyNewYear(year: int, week: int)
    requires !(0 <= year <= 99)
    ensures WeekInfoAsWritten(FormatWeekId(year, week)) == IsoWeekInfo(FormatWeekId(year, week))
      <==> IsoWeekday(YearStart(year)) <= 4
  {
    ParseFormatWeekId(year, week);
    ApproxMondayVersusIso(year, week);
    if IsoWeekday(YearStart(year)) <= 4 {
      assert ApproxMonday(year, week) == IsoMonday(year, week);
    } else {
      assert WeekInfoFrom(ApproxMonday(year, week)).start != WeekInfoFrom(IsoMonday(year, week)).start;
    }
  }

  // --------------------------------------------------------- getAdjacentWeekId

  /** The week id `7 * direction` days after `1 January + (week - 1) * 7`. */
  function ApproxWeekIdAfter(year: int, week: int, direction: int): string
  {
    WeekId(WeeksLater(UtcDay(year, 0, 1 + (week - 1) * 7), direction))
  }

  /** `getAdjacentWeekId(currentWeekId, direction)` as written: from
      `1 January + (week - 1) * 7`, move `7 * direction` days and take that
      day's week id. A malformed id gives an invalid `Date`, whose week id
      prints as `NaN-WNaN`. */
  function AdjacentWeekIdAsWritten(weekId: string, direction: int): (r: string)
    ensures ParseWeekId(weekId).None? ==> r == "NaN-WNaN"
  {
    match ParseWeekId(weekId)
    case None => "NaN-WNaN"
    case Some((year, week)) => ApproxWeekIdAfter(year, week, direction)
  }

  /** The week id `7 * direction` days after the ISO Monday of the week. */
  function IsoWeekIdAfter(year: int, week: int, direction: int): string
  {
    WeekId(WeeksLater(IsoMonday(year, week), direction))
  }

  /** `getAdjacentWeekId` counting from the ISO Monday of the week. */
  function AdjacentWeekId(weekId: string, direction: int): string
  {
    match ParseWeekId(weekId)
    case None => "NaN-WNaN"
    case Some((year, week)) => IsoWeekIdAfter(year, week, direction)
  }

  /** Both versions of `getAdjacentWeekId` read a formatted id back to its
      year and week before moving. */
  lemma AdjacentOfFormattedId(year: int, week: int, direction: int)
    ensures AdjacentWeekId(FormatWeekId(year, week), direction) == IsoWeekIdAfter(year, week, direction)
    ensures AdjacentWeekIdAsWritten(FormatWeekId(year, week), direction) == ApproxWeekIdAfter(year, week, direction)
  {
    ParseFormatWeekId(year, week);
  }

  /** The id of a Monday names a valid ISO week that starts on that Monday. */
  lemma IsoWeekOfMonday(n: int)
    requires IsoWeekday(n) == 1 && AfterYear100(n)
    ensures ValidIsoWeek(WeekYearOf(n), WeekNumberOf(n))
    ensures IsoMonday(WeekYearOf(n), WeekNumberOf(n)) == n
  {
    WeekIdIsIsoWeek(n);
    SameWeekdayApart(n, FirstIsoMonday(WeekYearOf(n)));
  }

  /** Moving `direction` weeks from a week id gives the id of a valid week
      whose Monday is exactly `7 * direction` days after the week's own. */
  lemma AdjacentWeekIdMoves(year: int, week: int, direction: int)
    requires AfterYear100(WeeksLater(IsoMonday(year, week), direction))
    ensures var n := WeeksLater(IsoMonday(year, week), direction);
      var y := WeekYearOf(n);
      var w := WeekNumberOf(n);
      AdjacentWeekId(FormatWeekId(year, week), direction) == FormatWeekId(y, w) &&
      ValidIsoWeek(y, w) && IsoMonday(y, w) == n
  {
    IsoMondayIsMonday(year, week);
    IsoWeekdayShift(IsoMonday(year, week), direction);
    IsoWeekOfMonday(WeeksLater(IsoMonday(year, week), direction));
    AdjacentOfFormattedId(year, week, direction);
  }

  /** The ISO Monday of a day's week is the Monday before it. */
  lemma IsoMondayOfDay(n: int)
    requires AfterYear100(n)
    ensures IsoMonday(WeekYearOf(n), WeekNumberOf(n)) == MondayOf(n)
  {
    WeekIdIsIsoWeek(n);
    IsoMondayIsMonday(WeekYearOf(n), WeekNumberOf(n));
    assert FirstIsoMonday(WeekYearOf(n)) + 7 * ((n - FirstIsoMonday(WeekYearOf(n))) / 7)
           <= n < FirstIsoMonday(WeekYearOf(n)) + 7 * ((n - FirstIsoMonday(WeekYearOf(n))) / 7) + 7;
    MondayOfInWeek(IsoMonday(WeekYearOf(n), WeekNumberOf(n)), n);
  }

  /** The corrected `getAdjacentWeekId` of a day's id is the id of the day
      `direction` weeks away. */
  lemma AdjacentOfWeekId(n: int, direction: int)
    requires AfterYear100(n) && AfterYear100(WeeksLater(MondayOf(n), direction))
    ensures AdjacentWeekId(WeekId(n), direction) == WeekId(WeeksLater(n, direction))
  {
    IsoMondayOfDay(n);
    AdjacentOfFormattedId(WeekYearOf(n), WeekNumberOf(n), direction);
    MondayOfWeek(n);
    WeeksLaterWeekday(MondayOf(n), direction);
    WeekIdConstantOnWeek(WeeksLater(MondayOf(n), direction), WeeksLater(n, direction));
  }

  /** In a year whose 1 January is Monday to Thursday the written and the
      corrected `getAdjacentWeekId` agree. */
  lemma AdjacentWeekIdAgrees(year: int, week: int, direction: int)
    requires !(0 <= year <= 99) && IsoWeekday(YearStart(year)) <= 4
    requires AfterYear100(WeeksLater(IsoMonday(year, week), direction))
    ensures AdjacentWeekIdAsWritten(FormatWeekId(year, week), direction)
      == AdjacentWeekId(FormatWeekId(year, week), direction)
  {
    ApproxMondayIsMonday(year, week);
    ApproxMondayVersusIso(year, week);
    MondayOfWeek(UtcDay(year, 0, 1 + (week - 1) * 7));
    IsoMondayIsMonday(year, week);
    IsoWeekdayShift(IsoMonday(year, week), direction);
    WeekIdConstantOnWeek(WeeksLater(IsoMonday(year, week), direction),
      WeeksLater(UtcDay(year, 0, 1 + (week - 1) * 7), direction));
    AdjacentOfFormattedId(year, week, direction);
  }

  /** The day the written code moves to lies in the week before the one the
      corrected code moves to, when 1 January is a Friday, Saturday or Sunday. */
  lemma ApproxWeekIdAfterLags(year: int, week: int, direction: int)
    requires !(0 <= year <= 99) && IsoWeekday(YearStart(year)) > 4
    requires AfterYear100(WeeksLater(IsoMonday(year, week), direction - 1))
    ensures ApproxWeekIdAfter(year, week, direction) == IsoWeekIdAfter(year, week, direction - 1)
  {
    ApproxMondayIsMonday(year, week);
    ApproxMondayVersusIso(year, week);
    MondayOfWeek(UtcDay(year, 0, 1 + (week - 1) * 7));
    IsoMondayIsMonday(year, week);
    IsoWeekdayShift(IsoMonday(year, week), direction - 1);
    WeekIdConstantOnWeek(WeeksLater(IsoMonday(year, week), direction - 1),
      WeeksLater(UtcDay(year, 0, 1 + (week - 1) * 7), direction));
  }

  /** So in such a year the written "next week" of a valid week is that same
      week: the navigation is stuck. */
  lemma NextWeekStuckAsWritten(year: int, week: int)
    requires !(0 <= year <= 99) && IsoWeekday(YearStart(year)) > 4
    requires ValidIsoWeek(year, week) && AfterYear100(IsoMonday(year, week))
    ensures AdjacentWeekIdAsWritten(FormatWeekId(year, week), 1) == FormatWeekId(year, week)
  {
    assert WeeksLater(IsoMonday(year, week), 0) == IsoMonday(year, week);
    ApproxWeekIdAfterLags(year, week, 1);
    AdjacentOfFormattedId(year, week, 1);
    WeekIdOfIsoWeekDays(year, week, WeeksLater(IsoMonday(year, week), 0));
  }

  /** The ids of the first two weeks of 2021. */
  lemma WeekIds2021()
    ensures FormatWeekId(2021, 1) == "2021-W01" && FormatWeekId(2021, 2) == "2021-W02"
  {
  }

  /** The written `getWeekInfo` goes wrong in 2021, whose 1 January is a
      Friday: `2021-W01` is listed from Monday 2020-12-28 (day 18624) instead
      of Monday 2021-01-04 (day 18631). */
  lemma JanuaryFirstFridayWeekInfo()
    ensures IsoWeekday(YearStart(2021)) == 5
    ensures ApproxMonday(2021, 1) == 18624 && IsoMonday(2021, 1) == 18631
  {
    RecentYearStarts();
    RecentFirstIsoMondays();
    ApproxMondayVersusIso(2021, 1);
  }

  /** The written `getAdjacentWeekId` goes wrong in 2021: the week after
      `2021-W01` is `2021-W01` again, where the corrected one gives `2021-W02`. */
  lemma JanuaryFirstFridayNextWeek()
    ensures AdjacentWeekIdAsWritten(FormatWeekId(2021, 1), 1) == FormatWeekId(2021, 1)
    ensures AdjacentWeekId(FormatWeekId(2021, 1), 1) == FormatWeekId(2021, 2)
  {
    RecentYearStarts();
    RecentFirstIsoMondays();
    AfterYear100FromEpoch(18631);
    NextWeekStuckAsWritten(2021, 1);
    assert WeeksLater(IsoMonday(2021, 1), 1) == 18638;
    AfterYear100FromEpoch(18638);
    WeekIdOfIsoWeek(18638, 2021, 2);
    AdjacentOfFormattedId(2021, 1, 1);
  }
}
