/** `syslogTime2time_t`: from the fields of a syslog timestamp to seconds since 1970. */
module SyslogTime {
  const START_YEAR := 1967 // yearInSec_startYear

  /** The last second of every year from 1967 to 2099, seven years to a row. */
  const ROW0 := [-63158401, -31536001, -1, 31535999, 63071999, 94694399, 126230399]
  const ROW1 := [157766399, 189302399, 220924799, 252460799, 283996799, 315532799, 347155199]
  const ROW2 := [378691199, 410227199, 441763199, 473385599, 504921599, 536457599, 567993599]
  const ROW3 := [599615999, 631151999, 662687999, 694223999, 725846399, 757382399, 788918399]
  const ROW4 := [820454399, 852076799, 883612799, 915148799, 946684799, 978307199, 1009843199]
  const ROW5 := [1041379199, 1072915199, 1104537599, 1136073599, 1167609599, 1199145599, 1230767999]
  const ROW6 := [1262303999, 1293839999, 1325375999, 1356998399, 1388534399, 1420070399, 1451606399]
  const ROW7 := [1483228799, 1514764799, 1546300799, 1577836799, 1609459199, 1640995199, 1672531199]
  const ROW8 := [1704067199, 1735689599, 1767225599, 1798761599, 1830297599, 1861919999, 1893455999]
  const ROW9 := [1924991999, 1956527999, 1988150399, 2019686399, 2051222399, 2082758399, 2114380799]
  const ROW10 := [2145916799, 2177452799, 2208988799, 2240611199, 2272147199, 2303683199, 2335219199]
  const ROW11 := [2366841599, 2398377599, 2429913599, 2461449599, 2493071999, 2524607999, 2556143999]
  const ROW12 := [2587679999, 2619302399, 2650838399, 2682374399, 2713910399, 2745532799, 2777068799]
  const ROW13 := [2808604799, 2840140799, 2871763199, 2903299199, 2934835199, 2966371199, 2997993599]
  const ROW14 := [3029529599, 3061065599, 3092601599, 3124223999, 3155759999, 3187295999, 3218831999]
  const ROW15 := [3250454399, 3281990399, 3313526399, 3345062399, 3376684799, 3408220799, 3439756799]
  const ROW16 := [3471292799, 3502915199, 3534451199, 3565987199, 3597523199, 3629145599, 3660681599]
  const ROW17 := [3692217599, 3723753599, 3755375999, 3786911999, 3818447999, 3849983999, 3881606399]
  const ROW18 := [3913142399, 3944678399, 3976214399, 4007836799, 4039372799, 4070908799, 4102444799]

  const YEAR_IN_SECS: seq<seq<int>> := [
    ROW0, ROW1, ROW2, ROW3, ROW4, ROW5, ROW6, ROW7, ROW8, ROW9,
    ROW10, ROW11, ROW12, ROW13, ROW14, ROW15, ROW16, ROW17, ROW18]

  function YearInSecs(i: int): int
    requires 0 <= i < 133
  {
    YEAR_IN_SECS[i / 7][i % 7]
  }

  datatype Time = Time(year: int, month: int, day: int, hour: int, minute: int, second: int)

  /** 'Z', or '+' or '-' with hours and minutes. */
  datatype Offset = Offset(hour: int, minute: int, mode: char)

  const UTC := Offset(0, 0, 'Z')

  function MonthInDays(month: int): int {
    match month
    case 1 => 0
    case 2 => 31
    case 3 => 59
    case 4 => 90
    case 5 => 120
    case 6 => 151
    case 7 => 181
    case 8 => 212
    case 9 => 243
    case 10 => 273
    case 11 => 304
    case 12 => 334
    case _ => 0
  }

  function SyslogTime2Time(t: Time, off: Offset): int {
    if t.year < 1970 || t.year > 2100 then 0 else
    var leap := (t.year % 100 != 0 && t.year % 4 == 0) || t.year == 2000;
    var monthInDays := MonthInDays(t.month) + if leap && t.month > 2 then 1 else 0;
    var numberOfDays := monthInDays + t.day - 1;
    var days := YearInSecs(t.year - START_YEAR - 1) + 1 + numberOfDays * 86400;
    var utcOffset := off.hour * 3600 + off.minute * 60;
    days + t.hour * 60 * 60 + t.minute * 60 + t.second + (if off.mode == '+' then -utcOffset else utcOffset)
  }

  // ----- the Gregorian calendar -----

  predicate IsLeap(year: int) {
    year % 4 == 0 && (year % 100 != 0 || year % 400 == 0)
  }

  function DaysInMonth(year: int, month: int): int {
    if month == 2 then if IsLeap(year) then 29 else 28
    else if month in {4, 6, 9, 11} then 30
    else 31
  }

  function DaysBeforeMonth(year: int, month: int): int
    requires month >= 1
    decreases month
  {
    if month == 1 then 0 else DaysBeforeMonth(year, month - 1) + DaysInMonth(year, month - 1)
  }

  /** Days from 1 January 1970. */
  function DaysBeforeYear(year: int): int
    requires year >= 1970
    decreases year
  {
    if year == 1970 then 0 else DaysBeforeYear(year - 1) + DaysBeforeMonth(year - 1, 13)
  }

  function Days(t: Time): int
    requires Valid(t)
  {
    DaysBeforeYear(t.year) + DaysBeforeMonth(t.year, t.month) + t.day - 1
  }

  predicate Valid(t: Time) {
    && 1970 <= t.year <= 2100 && 1 <= t.month <= 12 && 1 <= t.day <= DaysInMonth(t.year, t.month)
    && 0 <= t.hour <= 23 && 0 <= t.minute <= 59 && 0 <= t.second <= 60
  }

  lemma {:induction false} MonthTable(year: int, month: int)
    requires 1 <= month <= 13
    ensures DaysBeforeMonth(year, month) ==
      (if month == 13 then 365 else MonthInDays(month)) + if IsLeap(year) && month > 2 then 1 else 0
  {
  }

  /** The table in closed form: a leap year every fourth year. */
  function Closed(i: int): int {
    86400 * (365 * (i - 2) + (i - 1) / 4) - 1
  }

  predicate RowOk(row: seq<int>, first: int) {
    && |row| == 7
    && row[0] == Closed(first) && row[1] == Closed(first + 1)
    && row[2] == Closed(first + 2) && row[3] == Closed(first + 3)
    && row[4] == Closed(first + 4) && row[5] == Closed(first + 5) && row[6] == Closed(first + 6)
  }

  lemma {:induction false} Rows0()
    ensures RowOk(ROW0, 0) && RowOk(ROW1, 7) && RowOk(ROW2, 14) && RowOk(ROW3, 21) && RowOk(ROW4, 28)
  {
  }

  lemma {:induction false} Rows5()
    ensures RowOk(ROW5, 35) && RowOk(ROW6, 42) && RowOk(ROW7, 49) && RowOk(ROW8, 56) && RowOk(ROW9, 63)
  {
  }

  lemma {:induction false} Rows10()
    ensures RowOk(ROW10, 70) && RowOk(ROW11, 77) && RowOk(ROW12, 84) && RowOk(ROW13, 91) && RowOk(ROW14, 98)
  {
  }

  lemma {:induction false} Rows15()
    ensures RowOk(ROW15, 105) && RowOk(ROW16, 112) && RowOk(ROW17, 119) && RowOk(ROW18, 126)
  {
  }

  lemma {:induction false} Rows(r: nat)
    requires r < 19
    ensures RowOk(YEAR_IN_SECS[r], 7 * r)
  {
    Rows0();
    Rows5();
    Rows10();
    Rows15();
    hide RowOk, Closed;
  }

  lemma {:induction false} RowAt(row: seq<int>, first: int, j: int)
    requires RowOk(row, first) && 0 <= j < 7
    ensures row[j] == Closed(first + j)
  {
    hide Closed;
  }

  lemma {:induction false} Entry(i: int)
    requires 0 <= i < 133
    ensures YearInSecs(i) == Closed(i)
  {
    var r, j := i / 7, i % 7;
    Rows(r);
    hide RowOk, Closed;
    RowAt(YEAR_IN_SECS[r], 7 * r, j);
    assert 7 * r + j == i;
  }

  /** Every entry of the table that a year from 1970 to 2100 uses is right. */
  lemma {:induction false} YearTable(year: int)
    requires 1970 <= year <= 2100
    ensures YearInSecs(year - START_YEAR - 1) + 1 == 86400 * DaysBeforeYear(year)
  {
    Entry(year - START_YEAR - 1);
    YearClosed(year);
    hide YearInSecs, DaysBeforeYear;
  }

  lemma {:induction false} YearClosed(year: int)
    requires 1970 <= year <= 2100
    ensures DaysBeforeYear(year) == 365 * (year - 1970) + (year - 1969) / 4
    decreases year
  {
    if year > 1970 {
      YearClosed(year - 1);
      MonthTable(year - 1, 13);
      LeapAgrees(year - 1);
      hide DaysBeforeMonth, IsLeap;
      Quarter(year - 1969);
    }
  }

  lemma {:induction false} Quarter(k: int)
    ensures k / 4 == (k - 1) / 4 + if (k + 1968) % 4 == 0 then 1 else 0
  {
  }

  /** The short rule of the code is the Gregorian rule in this range. */
  lemma {:induction false} LeapAgrees(year: int)
    requires 1970 <= year <= 2100
    ensures IsLeap(year) <==> (year % 100 != 0 && year % 4 == 0) || year == 2000
    ensures year < 2100 ==> (IsLeap(year) <==> year % 4 == 0)
  {
  }

  /** For every valid date the result is 86400 seconds for every day of the Gregorian
      calendar since 1970, and the time of day, corrected by the offset. */
  lemma {:induction false} ConvertsGregorian(t: Time, off: Offset)
    requires Valid(t)
    ensures SyslogTime2Time(t, off) ==
      86400 * Days(t) + 3600 * t.hour + 60 * t.minute + t.second
      + (if off.mode == '+' then -1 else 1) * (3600 * off.hour + 60 * off.minute)
  {
    YearTable(t.year);
    MonthTable(t.year, t.month);
    LeapAgrees(t.year);
    hide DaysBeforeYear, DaysBeforeMonth, YearInSecs, MonthInDays, IsLeap, DaysInMonth;
  }

  // ----- order -----

  predicate Before(a: Time, b: Time) {
    a.year < b.year || (a.year == b.year &&
    (a.month < b.month || (a.month == b.month &&
    (a.day < b.day || (a.day == b.day &&
    (a.hour < b.hour || (a.hour == b.hour &&
    (a.minute < b.minute || (a.minute == b.minute && a.second < b.second)))))))))
  }

  lemma {:induction false} MonthsGrow(year: int, m1: int, m2: int)
    requires 1 <= m1 < m2 <= 13
    ensures DaysBeforeMonth(year, m1) + DaysInMonth(year, m1) <= DaysBeforeMonth(year, m2)
    decreases m2
  {
    if m1 < m2 - 1 {
      MonthsGrow(year, m1, m2 - 1);
    }
  }

  lemma {:induction false} FirstMonth(year: int)
    ensures DaysBeforeMonth(year, 1) == 0
  {
  }

  lemma {:induction false} YearsGrow(y1: int, y2: int)
    requires 1970 <= y1 < y2
    ensures DaysBeforeYear(y1) + DaysBeforeMonth(y1, 13) <= DaysBeforeYear(y2)
    decreases y2
  {
    hide DaysBeforeMonth;
    if y1 < y2 - 1 {
      YearsGrow(y1, y2 - 1);
      MonthsGrow(y2 - 1, 1, 13);
      FirstMonth(y2 - 1);
    }
  }

  /** A later date is a later day. */
  lemma {:induction false} DaysGrow(a: Time, b: Time)
    requires Valid(a) && Valid(b)
    requires a.year < b.year || (a.year == b.year && (a.month < b.month || (a.month == b.month && a.day < b.day)))
    ensures Days(a) < Days(b)
  {
    MonthsGrow(a.year, a.month, 13);
    if a.year < b.year {
      YearsGrow(a.year, b.year);
      MonthsGrow(b.year, 1, 13);
      if b.month > 1 {
        MonthsGrow(b.year, 1, b.month);
      }
    } else if a.month < b.month {
      MonthsGrow(a.year, a.month, b.month);
    }
  }

  /** In UTC, and without leap seconds, the order of timestamps is the order of the results. */
  lemma {:induction false} OrderKept(a: Time, b: Time)
    requires Valid(a) && Valid(b) && a.second <= 59 && b.second <= 59
    ensures SyslogTime2Time(a, UTC) < SyslogTime2Time(b, UTC) <==> Before(a, b)
  {
    ConvertsGregorian(a, UTC);
    ConvertsGregorian(b, UTC);
    if Before(a, b) {
      InOrder(a, b);
    } else if Before(b, a) {
      InOrder(b, a);
    }
  }

  lemma {:induction false} InOrder(a: Time, b: Time)
    requires Valid(a) && Valid(b) && a.second <= 59 && b.second <= 59 && Before(a, b)
    ensures 86400 * Days(a) + 3600 * a.hour + 60 * a.minute + a.second
      < 86400 * Days(b) + 3600 * b.hour + 60 * b.minute + b.second
  {
    if a.year != b.year || a.month != b.month || a.day != b.day {
      DaysGrow(a, b);
    }
  }

  /** Years outside of the table give 0. */
  lemma {:induction false} OtherYears(t: Time, off: Offset)
    requires t.year < 1970 || t.year > 2100
    ensures SyslogTime2Time(t, off) == 0
  {
    hide YearInSecs, MonthInDays;
  }

  /** A leap second is the first second of the next minute, whatever that is: of the
      same hour, of the next hour, or, in UTC, of the next day. */
  lemma {:induction false} LeapSecond(t: Time, off: Offset)
    requires Valid(t) && t.second == 60
    ensures t.minute < 59 ==>
      SyslogTime2Time(t, off) == SyslogTime2Time(t.(minute := t.minute + 1, second := 0), off)
    ensures t.minute == 59 && t.hour < 23 ==>
      SyslogTime2Time(t, off) == SyslogTime2Time(t.(hour := t.hour + 1, minute := 0, second := 0), off)
    ensures t.minute == 59 && t.hour == 23 ==> SyslogTime2Time(t, UTC) == 86400 * (Days(t) + 1)
  {
    hide YearInSecs, MonthInDays, Days, DaysInMonth;
    ConvertsGregorian(t, UTC);
  }

  /** `n` is the day behind `t` in the calendar. */
  predicate IsNextDay(t: Time, n: Time) {
    || (n.year == t.year && n.month == t.month && n.day == t.day + 1)
    || (n.year == t.year && n.month == t.month + 1 && n.day == 1 && t.day == DaysInMonth(t.year, t.month))
    || (n.year == t.year + 1 && n.month == 1 && n.day == 1 && t.month == 12 && t.day == 31)
  }

  lemma {:induction false} NextDayCounts(t: Time, n: Time)
    requires Valid(t) && Valid(n) && IsNextDay(t, n)
    ensures Days(n) == Days(t) + 1
  {
    if n.year == t.year + 1 { FirstMonth(n.year); }
  }

  /** With every offset the last leap second of a day is the midnight behind it, also
      at the end of a month or a year. */
  lemma {:induction false} LeapSecondAtMidnight(t: Time, n: Time, off: Offset)
    requires Valid(t) && t.second == 60 && t.minute == 59 && t.hour == 23
    requires Valid(n) && n.second == 0 && n.minute == 0 && n.hour == 0 && IsNextDay(t, n)
    ensures SyslogTime2Time(t, off) == SyslogTime2Time(n, off)
  {
    hide SyslogTime2Time, Days, DaysInMonth, IsNextDay;
    ConvertsGregorian(t, off);
    ConvertsGregorian(n, off);
    NextDayCounts(t, n);
  }
}
