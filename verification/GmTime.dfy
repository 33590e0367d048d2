/** time_gmtime of src/core/dfs_time.c against the Gregorian calendar counted day by day. */
module GmTime {
  import opened Log2

  const DAY := 86400

  datatype Tm = Tm(sec: int, min: int, hour: int, mday: int, mon: int, year: int, wday: int)

  // ---- the calendar ----

  predicate Leap(y: int) {
    y % 4 == 0 && (y % 100 != 0 || y % 400 == 0)
  }

  function YearLength(y: int): int {
    if Leap(y) then 366 else 365
  }

  function MonthLength(y: int, m: int): int {
    if m == 2 then (if Leap(y) then 29 else 28)
    else if m in {4, 6, 9, 11} then 30
    else 31
  }

  // Days from January 1, 1970 to January 1 of year y, one year at a time.
  function DaysToYear(y: int): int
    decreases y
  {
    if y <= 1970 then 0 else DaysToYear(y - 1) + YearLength(y - 1)
  }

  // Days from January 1 to the first of month m, one month at a time.
  function DaysToMonth(y: int, m: int): int {
    if m <= 1 then 0 else DaysToMonth(y, m - 1) + MonthLength(y, m - 1)
  }

  function DayCount(tm: Tm): int {
    DaysToYear(tm.year) + DaysToMonth(tm.year, tm.mon) + tm.mday - 1
  }

  function Seconds(tm: Tm): int {
    DayCount(tm) * DAY + tm.hour * 3600 + tm.min * 60 + tm.sec
  }

  // Weekday of a day count: a Thursday, then one on for each day.
  function Weekday(d: nat): int {
    if d == 0 then 4 else if Weekday(d - 1) == 6 then 0 else Weekday(d - 1) + 1
  }

  predicate ValidTm(tm: Tm) {
    && 0 <= tm.sec < 60 && 0 <= tm.min < 60 && 0 <= tm.hour < 24
    && tm.year >= 1970 && 1 <= tm.mon <= 12 && 1 <= tm.mday <= MonthLength(tm.year, tm.mon)
  }

  // ---- the program ----

  // Days before year y of a calendar whose years start on March 1, year 0 being 1 BC.
  function Before(y: int): int {
    365 * y + y / 4 - y / 100 + y / 400
  }

  function YearGuess(days: int): int {
    (days + 2) * 400 / (365 * 400 + 100 - 4 + 1)
  }

  // March-based year and day of the year.
  function MarchYear(days: int): (int, int) {
    var year := YearGuess(days);
    var yday := days - Before(year);
    if yday < 0 then (year - 1, 365 + (if Leap(year) then 1 else 0) + yday) else (year, yday)
  }

  function MonthOf(yday: int): int {
    (yday + 31) * 10 / 306
  }

  function MonthDay(yday: int): int {
    yday - (367 * MonthOf(yday) / 12 - 30) + 1
  }

  /** time_gmtime */
  function GmTime(t: int): Tm {
    var n := t % UINT32;
    var rest := n % DAY;
    var days := n / DAY;
    var (year, yday) := MarchYear(days - (31 + 28) + 719527);
    var mon := MonthOf(yday);
    Tm(rest % 3600 % 60, rest % 3600 / 60, rest / 3600, MonthDay(yday),
       if yday >= 306 then mon - 10 else mon + 2,
       if yday >= 306 then year + 1 else year,
       (4 + days) % 7)
  }

  // ---- why it is right ----

  lemma Quotient(y: int, k: int)
    requires y >= 0 && k in {4, 100, 400}
    ensures k * (y / k) <= y <= k * (y / k) + k - 1
  {
  }

  lemma QuotientStep(y: int)
    requires y >= 0
    ensures (y + 1) / 4 - y / 4 == if (y + 1) % 4 == 0 then 1 else 0
    ensures (y + 1) / 100 - y / 100 == if (y + 1) % 100 == 0 then 1 else 0
    ensures (y + 1) / 400 - y / 400 == if (y + 1) % 400 == 0 then 1 else 0
  {
  }

  lemma Multiples(y: int)
    ensures y % 400 == 0 ==> y % 100 == 0
    ensures y % 100 == 0 ==> y % 4 == 0
  {
  }

  // Before(y) is close to 146097 / 400 days a year.
  lemma BeforeBounds(y: int)
    requires y >= 0
    ensures 146097 * y - 700 <= 400 * Before(y) <= 146097 * y + 396
    ensures Before(y + 1) - Before(y) == YearLength(y + 1)
  {
    Quotient(y, 4);
    Quotient(y, 100);
    Quotient(y, 400);
    QuotientStep(y);
    Multiples(y + 1);
  }

  /** The guess is the March-based year or one more, and the correction settles which. */
  lemma MarchYearExact(days: int)
    requires days >= 0
    ensures var (y, d) := MarchYear(days);
      0 <= y && days == Before(y) + d && 0 <= d < YearLength(y + 1) && (YearGuess(days) == y || YearGuess(days) == y + 1)
  {
    var g := YearGuess(days);
    BeforeBounds(g);
    BeforeBounds(g + 1);
    if g > 0 {
      BeforeBounds(g - 1);
    }
  }

  // Days from March 1 to the first of the k-th month, March being the first.
  function MarchStart(k: int): int {
    if k <= 1 then 0 else if k == 2 then 31 else if k == 3 then 61 else if k == 4 then 92 else if k == 5 then 122
    else if k == 6 then 153 else if k == 7 then 184 else if k == 8 then 214 else if k == 9 then 245 else if k == 10 then 275
    else if k == 11 then 306 else if k == 12 then 337 else 366
  }

  /** The month formula is exact for every day of the year. */
  lemma MonthExact(yday: int)
    requires 0 <= yday < 366
    ensures 1 <= MonthOf(yday) <= 12
    ensures MarchStart(MonthOf(yday)) <= yday < MarchStart(MonthOf(yday) + 1)
    ensures MonthDay(yday) == yday - MarchStart(MonthOf(yday)) + 1
  {
  }

  lemma {:induction false} DaysToYearClosed(y: int)
    requires y >= 1970
    ensures DaysToYear(y) == Before(y - 1) + 306 - 719468
    decreases y
  {
    if y > 1970 {
      DaysToYearClosed(y - 1);
      BeforeBounds(y - 2);
    }
  }

  lemma DaysToMonths(y: int)
    ensures DaysToMonth(y, 1) == 0 && DaysToMonth(y, 2) == 31
    ensures var l := if Leap(y) then 1 else 0;
      && DaysToMonth(y, 3) == 59 + l && DaysToMonth(y, 4) == 90 + l && DaysToMonth(y, 5) == 120 + l && DaysToMonth(y, 6) == 151 + l
      && DaysToMonth(y, 7) == 181 + l && DaysToMonth(y, 8) == 212 + l && DaysToMonth(y, 9) == 243 + l && DaysToMonth(y, 10) == 273 + l
      && DaysToMonth(y, 11) == 304 + l && DaysToMonth(y, 12) == 334 + l
  {
    assert DaysToMonth(y, 1) == 0;
    assert DaysToMonth(y, 2) == 31;
    assert DaysToMonth(y, 3) == 31 + MonthLength(y, 2);
    assert DaysToMonth(y, 4) == DaysToMonth(y, 3) + 31;
    assert DaysToMonth(y, 5) == DaysToMonth(y, 4) + 30;
    assert DaysToMonth(y, 6) == DaysToMonth(y, 5) + 31;
    assert DaysToMonth(y, 7) == DaysToMonth(y, 6) + 30;
    assert DaysToMonth(y, 8) == DaysToMonth(y, 7) + 31;
    assert DaysToMonth(y, 9) == DaysToMonth(y, 8) + 31;
    assert DaysToMonth(y, 10) == DaysToMonth(y, 9) + 30;
    assert DaysToMonth(y, 11) == DaysToMonth(y, 10) + 31;
    assert DaysToMonth(y, 12) == DaysToMonth(y, 11) + 30;
  }

  lemma {:induction false} WeekdayClosed(d: nat)
    ensures Weekday(d) == (4 + d) % 7
  {
    if d > 0 {
      WeekdayClosed(d - 1);
    }
  }

  // From the March-based date to the calendar date.
  lemma CalendarDate(y: int, yday: int)
    requires 0 <= yday < YearLength(y + 1) && y >= 1969 && (y == 1969 ==> yday >= 306)
    ensures var mon, year := if yday >= 306 then MonthOf(yday) - 10 else MonthOf(yday) + 2, if yday >= 306 then y + 1 else y;
      && year >= 1970 && 1 <= mon <= 12 && 1 <= MonthDay(yday) <= MonthLength(year, mon)
      && DaysToYear(year) + DaysToMonth(year, mon) + MonthDay(yday) - 1 == Before(y) + yday - 719468
  {
    MonthExact(yday);
    var k := MonthOf(yday);
    var year := if yday >= 306 then y + 1 else y;
    DaysToYearClosed(year);
    DaysToMonths(year);
    BeforeBounds(y);
    BeforeBounds(y - 1);
  }

  /** The date is valid, its own day count and time of day give back the time modulo 2^32, and
      its weekday is right; so the whole answer is right exactly for times from 0 to 2^32 - 1. */
  lemma GmTimeExact(t: int)
    ensures var tm := GmTime(t);
      && ValidTm(tm) && Seconds(tm) == t % UINT32 && tm.wday == Weekday(t % UINT32 / DAY)
      && (Seconds(tm) == t <==> 0 <= t < UINT32)
  {
    hide Before, YearGuess, MonthOf, MonthDay, DaysToYear, DaysToMonth, MonthLength, YearLength, Leap, Weekday, MarchYear;
    var n := t % UINT32;
    var days := n / DAY;
    MarchYearExact(days + 719468);
    var (y, d) := MarchYear(days + 719468);
    NotBefore1970(y, d, days);
    CalendarDate(y, d);
    WeekdayClosed(days);
  }

  /** Time starts on Thursday, January 1, 1970; 86400 seconds later it is the same time of the
      next day. */
  lemma NextDay(t: int)
    requires 0 <= t < UINT32 - 86400
    ensures var tm, tm' := GmTime(t), GmTime(t + 86400);
      && DayCount(tm') == DayCount(tm) + 1 && tm'.wday == (tm.wday + 1) % 7
      && tm'.hour == tm.hour && tm'.min == tm.min && tm'.sec == tm.sec
    ensures GmTime(0) == Tm(0, 0, 0, 1, 1, 1970, 4)
  {
    Epoch();
    GmTimeExact(t);
    GmTimeExact(t + 86400);
    hide MarchYear, MonthOf, MonthDay, DayCount, MonthLength;
    OneDay(DayCount(GmTime(t)), GmTime(t));
    OneDay(DayCount(GmTime(t + 86400)), GmTime(t + 86400));
  }

  lemma OneDay(d: int, tm: Tm)
    requires 0 <= tm.sec < 60 && 0 <= tm.min < 60 && 0 <= tm.hour < 24
    ensures (d * DAY + tm.hour * 3600 + tm.min * 60 + tm.sec) / DAY == d
  {
  }

  lemma Epoch()
    ensures GmTime(0) == Tm(0, 0, 0, 1, 1, 1970, 4)
  {
    FirstYear();
    FirstMonth();
    hide MarchYear, MonthOf, MonthDay;
  }

  lemma FirstYear()
    ensures MarchYear(719468) == (1969, 306)
  {
    assert YearGuess(719468) == 1969;
    assert Before(1969) == 719162;
  }

  lemma FirstMonth()
    ensures MonthOf(306) == 11 && MonthDay(306) == 1
  {
  }

  lemma NotBefore1970(y: int, d: int, days: int)
    requires days >= 0 && y >= 0 && days + 719468 == Before(y) + d && 0 <= d < YearLength(y + 1)
    ensures y >= 1969 && (y == 1969 ==> d >= 306)
  {
    if y < 1969 {
      BeforeBounds(y);
      BeforeMonotone(y + 1, 1969);
    }
  }

  lemma {:induction false} BeforeMonotone(a: int, b: int)
    requires 0 <= a <= b
    ensures Before(a) <= Before(b)
    decreases b - a
  {
    if a < b {
      BeforeBounds(a);
      BeforeMonotone(a + 1, b);
    }
  }
}
