/**
 The proleptic Gregorian calendar that `time.Time` implements, from year 1 on.

 A `Clock` counts whole seconds since 0001-01-01 00:00:00 on the wall clock of the schedule's
 location.  Its calendar fields are found by search and are proved to be the only ones that lead
 back to it, so seconds and fields are two views of the same instant.
 */
module Calendar {
  type Clock = nat

  const MINUTE := 60
  const HOUR := 3600
  const DAY := 86400

  predicate IsLeap(y: nat) {
    y % 4 == 0 && (y % 100 != 0 || y % 400 == 0)
  }

  function YearDays(y: nat): nat {
    if IsLeap(y) then 366 else 365
  }

  function DaysIn(y: nat, m: nat): (n: nat)
    requires 1 <= m <= 12
    ensures 28 <= n <= 31
  {
    if m == 2 then if IsLeap(y) then 29 else 28
    else if m == 4 || m == 6 || m == 9 || m == 11 then 30
    else 31
  }

  /** Days of year `y` that come before month `m`; `m == 13` gives the length of the year. */
  function DaysBeforeMonth(y: nat, m: nat): nat
    requires 1 <= m <= 13
  {
    if m == 1 then 0 else DaysBeforeMonth(y, m - 1) + DaysIn(y, m - 1)
  }

  /** Days from 0001-01-01 to the first day of year `y`. */
  function DaysBeforeYear(y: nat): nat
    requires y >= 1
  {
    if y == 1 then 0 else DaysBeforeYear(y - 1) + YearDays(y - 1)
  }

  lemma {:induction false} MonthsFillTheYear(y: nat)
    ensures DaysBeforeMonth(y, 13) == YearDays(y)
  {
    var feb := DaysIn(y, 2);
    assert DaysBeforeMonth(y, 2) == 31;
    assert DaysBeforeMonth(y, 3) == 31 + feb;
    assert DaysBeforeMonth(y, 5) == 92 + feb;
    assert DaysBeforeMonth(y, 7) == 153 + feb;
    assert DaysBeforeMonth(y, 9) == 215 + feb;
    assert DaysBeforeMonth(y, 11) == 276 + feb;
  }

  /** How the months lie in the year, in a closed form that does not list their lengths. */
  lemma {:induction false} MonthTable(y: nat, m: nat)
    requires 1 <= m <= 13
    ensures DaysBeforeMonth(y, m) == (367 * m - 362) / 12 - if m <= 2 then 0 else if IsLeap(y) then 1 else 2
  {
    if m > 1 {
      MonthTable(y, m - 1);
    }
  }

  lemma LeapCount(n: nat)
    requires n >= 1
    ensures n / 4 - n / 100 + n / 400
         == (n - 1) / 4 - (n - 1) / 100 + (n - 1) / 400 + if IsLeap(n) then 1 else 0
  {
    assert n % 100 == 0 ==> n % 4 == 0;
    assert n % 400 == 0 ==> n % 100 == 0;
    assert n / 4 == (n - 1) / 4 + if n % 4 == 0 then 1 else 0;
    assert n / 100 == (n - 1) / 100 + if n % 100 == 0 then 1 else 0;
    assert n / 400 == (n - 1) / 400 + if n % 400 == 0 then 1 else 0;
  }

  /** The recursive day count agrees with the usual closed form. */
  lemma {:induction false} DaysBeforeYearClosedForm(y: nat)
    requires y >= 1
    ensures DaysBeforeYear(y) == 365 * (y - 1) + (y - 1) / 4 - (y - 1) / 100 + (y - 1) / 400
  {
    if y > 1 {
      DaysBeforeYearClosedForm(y - 1);
      LeapCount(y - 1);
    }
  }

  lemma {:induction false} MonthsInOrder(y: nat, m: nat, m': nat)
    requires 1 <= m < m' <= 13
    ensures DaysBeforeMonth(y, m) + DaysIn(y, m) <= DaysBeforeMonth(y, m')
  {
    if m + 1 < m' {
      MonthsInOrder(y, m, m' - 1);
    }
  }

  lemma {:induction false} YearsInOrder(y: nat, y': nat)
    requires 1 <= y < y'
    ensures DaysBeforeYear(y) + YearDays(y) <= DaysBeforeYear(y')
  {
    if y + 1 < y' {
      YearsInOrder(y, y' - 1);
    }
  }

  // ---------- from a day number to a date ----------

  function YearFrom(n: nat, y: nat): (r: nat)
    requires 1 <= y && DaysBeforeYear(y) <= n
    ensures y <= r && DaysBeforeYear(r) <= n < DaysBeforeYear(r) + YearDays(r)
    decreases n - DaysBeforeYear(y)
  {
    if n < DaysBeforeYear(y) + YearDays(y) then y else YearFrom(n, y + 1)
  }

  function MonthFrom(y: nat, dayOfYear: nat, m: nat): (r: nat)
    requires 1 <= m <= 12 && DaysBeforeMonth(y, m) <= dayOfYear < DaysBeforeMonth(y, 13)
    ensures m <= r <= 12 && DaysBeforeMonth(y, r) <= dayOfYear < DaysBeforeMonth(y, r) + DaysIn(y, r)
    decreases 12 - m
  {
    if dayOfYear < DaysBeforeMonth(y, m + 1) then m else MonthFrom(y, dayOfYear, m + 1)
  }

  function YearOf(n: nat): (y: nat)
    ensures 1 <= y && DaysBeforeYear(y) <= n < DaysBeforeYear(y) + YearDays(y)
  {
    YearFrom(n, 1)
  }

  function MonthOf(n: nat): (m: nat)
    ensures 1 <= m <= 12
    ensures var k := DaysBeforeYear(YearOf(n)) + DaysBeforeMonth(YearOf(n), m);
            k <= n < k + DaysIn(YearOf(n), m)
  {
    MonthsFillTheYear(YearOf(n));
    MonthFrom(YearOf(n), n - DaysBeforeYear(YearOf(n)), 1)
  }

  function DayOf(n: nat): (d: nat)
    ensures 1 <= d <= DaysIn(YearOf(n), MonthOf(n))
  {
    n - DaysBeforeYear(YearOf(n)) - DaysBeforeMonth(YearOf(n), MonthOf(n)) + 1
  }

  /** Sunday is 0; 0001-01-01 was a Monday. */
  function WeekdayOf(n: nat): (w: nat) ensures w < 7 { (n + 1) % 7 }

  function DayNumber(y: nat, m: nat, d: nat): nat
    requires y >= 1 && 1 <= m <= 13 && d >= 1
  {
    DaysBeforeYear(y) + DaysBeforeMonth(y, m) + d - 1
  }

  lemma DayNumberOfDate(n: nat)
    ensures DayNumber(YearOf(n), MonthOf(n), DayOf(n)) == n
  {}

  lemma YearUnique(n: nat, y: nat)
    requires 1 <= y && DaysBeforeYear(y) <= n < DaysBeforeYear(y) + YearDays(y)
    ensures YearOf(n) == y
  {
    if YearOf(n) < y {
      YearsInOrder(YearOf(n), y);
    } else if y < YearOf(n) {
      YearsInOrder(y, YearOf(n));
    }
  }

  lemma DateOfDayNumber(y: nat, m: nat, d: nat)
    requires y >= 1 && 1 <= m <= 12 && 1 <= d <= DaysIn(y, m)
    ensures var n := DayNumber(y, m, d); YearOf(n) == y && MonthOf(n) == m && DayOf(n) == d
  {
    var n := DayNumber(y, m, d);
    MonthsInOrder(y, m, 13);
    MonthsFillTheYear(y);
    YearUnique(n, y);
    if MonthOf(n) < m {
      MonthsInOrder(y, MonthOf(n), m);
    } else if m < MonthOf(n) {
      MonthsInOrder(y, m, MonthOf(n));
    }
  }

  // ---------- the fields of a clock value ----------

  function Year(t: Clock): (y: nat) ensures y >= 1 { YearOf(t / DAY) }

  function Month(t: Clock): (m: nat) ensures 1 <= m <= 12 { MonthOf(t / DAY) }

  function Day(t: Clock): (d: nat) ensures 1 <= d <= 31 { DayOf(t / DAY) }

  function Weekday(t: Clock): (w: nat) ensures w < 7 { WeekdayOf(t / DAY) }

  function Hour(t: Clock): (h: nat) ensures h < 24 { t % DAY / HOUR }

  function Minute(t: Clock): (m: nat) ensures m < 60 { t % HOUR / MINUTE }

  function Second(t: Clock): (s: nat) ensures s < 60 { t % MINUTE }

  /** `time.Date`: a month past December and a day past the month's end both carry over. */
  function Date(y: nat, m: nat, d: nat, h: nat, min: nat, sec: nat): Clock
    requires y >= 1 && m >= 1 && d >= 1
  {
    DayNumber(y + (m - 1) / 12, (m - 1) % 12 + 1, d) * DAY + h * HOUR + min * MINUTE + sec
  }

  datatype Fields = Fields(year: nat, month: nat, day: nat, hour: nat, minute: nat, second: nat) {
    predicate Valid() {
      && year >= 1 && 1 <= month <= 12 && 1 <= day <= DaysIn(year, month)
      && hour < 24 && minute < 60 && second < 60
    }
  }

  function FieldsOf(t: Clock): (f: Fields)
    ensures f.Valid()
  {
    Fields(Year(t), Month(t), Day(t), Hour(t), Minute(t), Second(t))
  }

  function SecondsOf(f: Fields): Clock
    requires f.Valid()
  {
    Date(f.year, f.month, f.day, f.hour, f.minute, f.second)
  }

  lemma SplitClock(t: Clock)
    ensures t == t / 86400 * 86400 + t % 86400 / 3600 * 3600 + t % 3600 / 60 * 60 + t % 60
  {
    DayOfHour(t);
    HourOfMinute(t);
  }

  lemma JoinClock(n: nat, h: nat, min: nat, sec: nat)
    requires h < 24 && min < 60 && sec < 60
    ensures var t := n * 86400 + h * 3600 + min * 60 + sec;
            t / 86400 == n && t % 86400 / 3600 == h && t % 3600 / 60 == min && t % 60 == sec
  {
    var t := n * 86400 + h * 3600 + min * 60 + sec;
    assert t / 86400 == n;
    assert t / 3600 == n * 24 + h;
    assert t / 60 == n * 1440 + h * 60 + min;
  }

  lemma DateInRange(y: nat, m: nat, d: nat, h: nat, min: nat, sec: nat)
    requires y >= 1 && 1 <= m <= 12 && d >= 1
    ensures Date(y, m, d, h, min, sec) == DayNumber(y, m, d) * DAY + h * HOUR + min * MINUTE + sec
  {
    assert (m - 1) / 12 == 0 && (m - 1) % 12 == m - 1;
  }

  lemma SecondsOfFieldsOf(t: Clock)
    ensures SecondsOf(FieldsOf(t)) == t
  {
    DateInRange(Year(t), Month(t), Day(t), Hour(t), Minute(t), Second(t));
    DayNumberOfDate(t / DAY);
    SplitClock(t);
  }

  lemma FieldsOfSecondsOf(f: Fields)
    requires f.Valid()
    ensures FieldsOf(SecondsOf(f)) == f
  {
    DateInRange(f.year, f.month, f.day, f.hour, f.minute, f.second);
    DateOfDayNumber(f.year, f.month, f.day);
    JoinClock(DayNumber(f.year, f.month, f.day), f.hour, f.minute, f.second);
  }

  /** The days of the week follow one another. */
  lemma WeekdaysFollow(n: nat)
    ensures WeekdayOf(n + 1) == (WeekdayOf(n) + 1) % 7
  {}

  /** The day from which Unix time is counted: 719162 days after 0001-01-01, a Thursday. */
  lemma UnixEpoch()
    ensures DayNumber(1970, 1, 1) == 719162 && WeekdayOf(719162) == 4
  {
    DaysBeforeYearClosedForm(1970);
  }

  /** Two dates whose weekday is known: 2012-07-09 was a Monday, 2016-02-29 too. */
  lemma KnownMondays()
    ensures WeekdayOf(DayNumber(2012, 7, 9)) == 1 && WeekdayOf(DayNumber(2016, 2, 29)) == 1
  {
    hide DaysBeforeYear;
    DaysBeforeYearClosedForm(2012);
    DaysBeforeYearClosedForm(2016);
    assert DaysBeforeMonth(2012, 3) == 60;
    assert DaysBeforeMonth(2012, 5) == 121;
    assert DaysBeforeMonth(2012, 7) == 182;
    assert DaysBeforeMonth(2016, 2) == 31;
  }

  // ---------- the order of fields is the order of seconds ----------

  predicate EarlierDay(a: Fields, b: Fields) {
    || a.year < b.year
    || (a.year == b.year && (a.month < b.month || (a.month == b.month && a.day < b.day)))
  }

  predicate Earlier(a: Fields, b: Fields) {
    || EarlierDay(a, b)
    || (&& a.year == b.year && a.month == b.month && a.day == b.day
        && (|| a.hour < b.hour
            || (a.hour == b.hour &&
                (a.minute < b.minute || (a.minute == b.minute && a.second < b.second)))))
  }

  lemma EarlierDayIsLess(a: Fields, b: Fields)
    requires a.Valid() && b.Valid() && EarlierDay(a, b)
    ensures DayNumber(a.year, a.month, a.day) < DayNumber(b.year, b.month, b.day)
  {
    if a.year < b.year {
      YearsInOrder(a.year, b.year);
      MonthsInOrder(a.year, a.month, 13);
      MonthsFillTheYear(a.year);
    } else if a.month < b.month {
      MonthsInOrder(a.year, a.month, b.month);
    }
  }

  lemma EarlierIsLess(a: Fields, b: Fields)
    requires a.Valid() && b.Valid() && Earlier(a, b)
    ensures SecondsOf(a) < SecondsOf(b)
  {
    DateInRange(a.year, a.month, a.day, a.hour, a.minute, a.second);
    DateInRange(b.year, b.month, b.day, b.hour, b.minute, b.second);
    if EarlierDay(a, b) {
      EarlierDayIsLess(a, b);
    }
  }

  /** Fields and seconds are in bijection, and the bijection keeps the order in both directions. */
  lemma FieldsOrderIsClockOrder(t: Clock, u: Clock)
    ensures SecondsOf(FieldsOf(t)) == t
    ensures t < u <==> Earlier(FieldsOf(t), FieldsOf(u))
  {
    SecondsOfFieldsOf(t);
    SecondsOfFieldsOf(u);
    var a, b := FieldsOf(t), FieldsOf(u);
    if Earlier(a, b) {
      EarlierIsLess(a, b);
    } else if a != b {
      assert Earlier(b, a);
      EarlierIsLess(b, a);
    }
  }

  // ---------- the steps that `Next` takes ----------

  function AddDate(t: Clock, years: nat, months: nat, days: nat): Clock {
    Date(Year(t) + years, Month(t) + months, Day(t) + days, Hour(t), Minute(t), Second(t))
  }

  function StartOfMonth(t: Clock): Clock { Date(Year(t), Month(t), 1, 0, 0, 0) }

  lemma DayEnds(t: Clock, n: nat)
    ensures t < n * 86400 <==> t / 86400 < n
  {}

  function StartOfDay(t: Clock): Clock { Date(Year(t), Month(t), Day(t), 0, 0, 0) }

  /** The day number of the first day of the month after the one day `n` is in. */
  function NextMonthDay(n: nat): (k: nat)
    ensures k > n
  {
    DayNumber(YearOf(n), MonthOf(n), 1) + DaysIn(YearOf(n), MonthOf(n))
  }

  function NextMonth(t: Clock): Clock { NextMonthDay(t / DAY) * DAY }

  function NextDay(t: Clock): Clock { (t / DAY + 1) * DAY }

  function NextHour(t: Clock): Clock { (t / HOUR + 1) * HOUR }

  function NextMinute(t: Clock): Clock { (t / MINUTE + 1) * MINUTE }

  lemma StartOfMonthIs(t: Clock)
    ensures StartOfMonth(t) == DayNumber(Year(t), Month(t), 1) * DAY <= t
  {
    DateInRange(Year(t), Month(t), 1, 0, 0, 0);
    assert DayNumber(Year(t), Month(t), 1) <= t / DAY;
  }

  lemma StartOfDayIs(t: Clock)
    ensures StartOfDay(t) == t / DAY * DAY <= t
  {
    DateInRange(Year(t), Month(t), Day(t), 0, 0, 0);
    DayNumberOfDate(t / DAY);
  }

  lemma AddDayIs(t: Clock)
    ensures AddDate(t, 0, 0, 1) == t + DAY
  {
    DateInRange(Year(t), Month(t), Day(t) + 1, Hour(t), Minute(t), Second(t));
    DayNumberOfDate(t / DAY);
    SplitClock(t);
  }

  lemma DateNextMonth(y: nat, m: nat, d: nat, h: nat, min: nat, sec: nat)
    requires y >= 1 && 1 <= m <= 12 && d >= 1
    ensures Date(y, m + 1, d, h, min, sec)
         == (DayNumber(y, m, d) + DaysIn(y, m)) * DAY + h * HOUR + min * MINUTE + sec
  {
    if m == 12 {
      assert (m + 1 - 1) / 12 == 1 && (m + 1 - 1) % 12 == 0;
      MonthsFillTheYear(y);
      assert DayNumber(y + 1, 1, d) == DayNumber(y, 12, d) + DaysIn(y, 12);
    } else {
      DateInRange(y, m + 1, d, h, min, sec);
    }
  }

  lemma AddMonthIs(t: Clock)
    ensures AddDate(t, 0, 1, 0) == t + DaysIn(Year(t), Month(t)) * DAY
  {
    DateNextMonth(Year(t), Month(t), Day(t), Hour(t), Minute(t), Second(t));
    DayNumberOfDate(t / DAY);
    SplitClock(t);
  }

  /** From the first of a month at midnight a month step lands on the first of the next one. */
  lemma AddMonthFromStart(t: Clock)
    ensures AddDate(StartOfMonth(t), 0, 1, 0) == NextMonth(t) > t
  {
    var first := DayNumber(Year(t), Month(t), 1);
    StartOfMonthIs(t);
    DateOfDayNumber(Year(t), Month(t), 1);
    assert StartOfMonth(t) / DAY == first;
    AddMonthIs(StartOfMonth(t));
    DayEnds(t, NextMonthDay(t / DAY));
  }

  lemma MonthAfter(y: nat, m: nat)
    requires y >= 1 && 1 <= m <= 12
    ensures DayNumber(y, m, 1) + DaysIn(y, m)
         == if m == 12 then DayNumber(y + 1, 1, 1) else DayNumber(y, m + 1, 1)
  {
    MonthsFillTheYear(y);
  }

  lemma FirstDayOfNextMonth(n: nat)
    ensures DayOf(NextMonthDay(n)) == 1
    ensures MonthOf(NextMonthDay(n)) == if MonthOf(n) == 12 then 1 else MonthOf(n) + 1
    ensures YearOf(NextMonthDay(n)) == if MonthOf(n) == 12 then YearOf(n) + 1 else YearOf(n)
  {
    hide DayNumber, DaysBeforeYear, DaysBeforeMonth, DaysIn, YearOf, MonthOf, DayOf;
    MonthAfter(YearOf(n), MonthOf(n));
    if MonthOf(n) == 12 {
      DateOfDayNumber(YearOf(n) + 1, 1, 1);
    } else {
      DateOfDayNumber(YearOf(n), MonthOf(n) + 1, 1);
    }
  }

  lemma SameMonth(n: nat, x: nat)
    requires DayNumber(YearOf(n), MonthOf(n), 1) <= x < NextMonthDay(n)
    ensures YearOf(x) == YearOf(n) && MonthOf(x) == MonthOf(n)
  {
    var d := x - DayNumber(YearOf(n), MonthOf(n), 1) + 1;
    assert DayNumber(YearOf(n), MonthOf(n), d) == x;
    DateOfDayNumber(YearOf(n), MonthOf(n), d);
  }

  /** Less than a month's length after a day of year `y`, the date is in `y` or in the next January. */
  lemma AtMostAMonthLater(n: nat, k: nat)
    requires k <= 31
    ensures YearOf(n + k) != YearOf(n) ==> MonthOf(n + k) == 1
  {
    hide YearOf, MonthOf, DayOf, IsLeap;
    var y := YearOf(n);
    if n + k < DaysBeforeYear(y + 1) {
      YearUnique(n + k, y);
    } else {
      var d := n + k - DaysBeforeYear(y + 1) + 1;
      assert DayNumber(y + 1, 1, d) == n + k;
      DateOfDayNumber(y + 1, 1, d);
    }
  }

  lemma DayOfHour(t: Clock)
    ensures t / 86400 == t / 3600 / 24 && t % 86400 / 3600 == t / 3600 % 24
  {}

  lemma HourOfMinute(t: Clock)
    ensures t / 3600 == t / 60 / 60 && t % 3600 / 60 == t / 60 % 60
  {}

  lemma SameHour(t: Clock, x: Clock)
    requires x / HOUR == t / HOUR
    ensures x / DAY == t / DAY && Hour(x) == Hour(t)
  {
    DayOfHour(t);
    DayOfHour(x);
  }

  lemma SameMinute(t: Clock, x: Clock)
    requires x / MINUTE == t / MINUTE
    ensures x / DAY == t / DAY && Hour(x) == Hour(t) && Minute(x) == Minute(t)
  {
    HourOfMinute(t);
    HourOfMinute(x);
    SameHour(t, x);
  }

  /** The first second after year `y`. */
  function EndOfYear(y: nat): Clock { DaysBeforeYear(y + 1) * DAY }

  lemma YearBefore(t: Clock, y: nat)
    requires y >= 1
    ensures Year(t) <= y <==> t < EndOfYear(y)
  {
    if Year(t) < y {
      YearsInOrder(Year(t), y + 1);
    } else if y < Year(t) {
      YearsInOrder(y, Year(t));
    }
  }
}
