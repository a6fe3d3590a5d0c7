/**
 * A concrete model of the date-fns operations the calendar relies on, over the proleptic
 * Gregorian calendar without time zones.
 *
 * A date-time is a month index (12 * year + month, January being month 0), a day of the month
 * and a minute of the day. Seconds and milliseconds are not modelled. Days are numbered
 * consecutively from 1 January of year 0 (day 0, a Saturday), which gives a total order.
 */
module Dates {

  const MinutesPerDay := 1440
  const LastMinute := MinutesPerDay - 1

  predicate IsLeapYear(year: int) {
    year % 4 == 0 && (year % 100 != 0 || year % 400 == 0)
  }

  /** The length of month index `month`; February has 29 days in a leap year. */
  function DaysInMonth(month: int): (n: int)
    ensures 28 <= n <= 31
  {
    var m := month % 12;
    if m == 1 then (if IsLeapYear(month / 12) then 29 else 28)
    else if m == 3 || m == 5 || m == 8 || m == 10 then 30
    else 31
  }

  /**
   * Day number of the first day of month index `month`: month 0 starts on day 0 and each
   * month starts where the one before it ends.
   */
  function MonthStart(month: int): int
    decreases if month >= 0 then month else -month
  {
    if month == 0 then 0
    else if month > 0 then MonthStart(month - 1) + DaysInMonth(month - 1)
    else MonthStart(month + 1) - DaysInMonth(month)
  }

  /** Months are laid end to end: each starts the day after the previous one ends. */
  lemma MonthStartNext(month: int)
    ensures MonthStart(month + 1) == MonthStart(month) + DaysInMonth(month)
  {
  }

  /** A later month starts after every day of an earlier one. */
  lemma {:induction false} MonthStartOrder(a: int, b: int)
    requires a < b
    ensures MonthStart(a) + DaysInMonth(a) <= MonthStart(b)
    decreases b - a
  {
    MonthStartNext(a);
    if a + 1 < b {
      MonthStartOrder(a + 1, b);
      assert MonthStart(a + 1) + DaysInMonth(a + 1) <= MonthStart(b);
      assert 28 <= DaysInMonth(a + 1);
    }
  }

  /** A calendar date-time: month index, day of month (from 1), minute of the day. */
  datatype DateTime = DateTime(month: int, day: int, minute: int) {
    predicate Valid() {
      1 <= day <= DaysInMonth(month) && 0 <= minute < MinutesPerDay
    }
  }

  /** The date-times that exist, as a JavaScript `Date` always holds one. */
  type Date = t: DateTime | t.Valid() witness DateTime(0, 1, 0)

  /** Consecutive numbering of calendar days. */
  function DayIndex(t: DateTime): int {
    MonthStart(t.month) + t.day - 1
  }

  /** Minutes since the start of day 0, the value a `Date` compares by. */
  function Instant(t: DateTime): int {
    DayIndex(t) * MinutesPerDay + t.minute
  }

  /** `a` comes strictly before `b`: by month, then by day, then by minute. */
  predicate Earlier(a: DateTime, b: DateTime) {
    || a.month < b.month
    || (a.month == b.month && a.day < b.day)
    || (a.month == b.month && a.day == b.day && a.minute < b.minute)
  }

  /** Comparing fields in turn orders valid date-times exactly as their instants do. */
  lemma EarlierIsInstantOrder(a: Date, b: Date)
    ensures Earlier(a, b) <==> Instant(a) < Instant(b)
  {
    if a.month < b.month {
      MonthStartOrder(a.month, b.month);
    } else if b.month < a.month {
      MonthStartOrder(b.month, a.month);
    }
  }

  /** date-fns `isAfter`: strictly later. */
  predicate IsAfter(a: Date, b: Date) {
    Earlier(b, a)
  }

  /** date-fns `isBefore`: strictly earlier. */
  predicate IsBefore(a: Date, b: Date) {
    Earlier(a, b)
  }

  /** date-fns `isSameDay`. */
  predicate IsSameDay(a: Date, b: Date) {
    a.month == b.month && a.day == b.day
  }

  /** date-fns `isSameMonth`. */
  predicate IsSameMonth(a: Date, b: Date) {
    a.month == b.month
  }

  /** Two dates fall on the same calendar day exactly when their day numbers agree. */
  lemma SameDayIndex(a: Date, b: Date)
    ensures IsSameDay(a, b) <==> DayIndex(a) == DayIndex(b)
  {
    if a.month < b.month {
      MonthStartOrder(a.month, b.month);
    } else if b.month < a.month {
      MonthStartOrder(b.month, a.month);
    }
  }

  /** The day lies in month `month`, between its first and last day. */
  lemma DayIndexInMonth(t: Date)
    ensures MonthStart(t.month) <= DayIndex(t) < MonthStart(t.month + 1)
  {
    MonthStartNext(t.month);
  }

  /** date-fns `addDays` for a non-negative count: same time of day, `n` days later. */
  function AddDays(t: Date, n: nat): (r: Date)
    ensures r.minute == t.minute
    ensures n == 0 ==> r == t
    ensures n >= 1 ==> Earlier(t, r)
    decreases n
  {
    var left := DaysInMonth(t.month) - t.day;
    if n <= left then
      DateTime(t.month, t.day + n, t.minute)
    else
      AddDays(DateTime(t.month + 1, 1, t.minute), n - left - 1)
  }

  /** Adding `n` days advances the day number by exactly `n`. */
  lemma {:induction false} AddDaysIndex(t: Date, n: nat)
    ensures DayIndex(AddDays(t, n)) == DayIndex(t) + n
    decreases n
  {
    var left := DaysInMonth(t.month) - t.day;
    if n > left {
      var next := DateTime(t.month + 1, 1, t.minute);
      assert AddDays(t, n) == AddDays(next, n - left - 1);
      MonthStartNext(t.month);
      assert DayIndex(next) == DayIndex(t) + left + 1;
      AddDaysIndex(next, n - left - 1);
    }
  }

  /** `n` days earlier, same time of day. */
  function SubDays(t: Date, n: nat): (r: Date)
    ensures r.minute == t.minute
    decreases n
  {
    if n < t.day then
      DateTime(t.month, t.day - n, t.minute)
    else
      SubDays(DateTime(t.month - 1, DaysInMonth(t.month - 1), t.minute), n - t.day)
  }

  /** Going back `n` days lowers the day number by exactly `n`. */
  lemma {:induction false} SubDaysIndex(t: Date, n: nat)
    ensures DayIndex(SubDays(t, n)) == DayIndex(t) - n
    decreases n
  {
    if n >= t.day {
      var prev := DateTime(t.month - 1, DaysInMonth(t.month - 1), t.minute);
      assert SubDays(t, n) == SubDays(prev, n - t.day);
      MonthStartNext(t.month - 1);
      assert DayIndex(prev) == DayIndex(t) - t.day;
      SubDaysIndex(prev, n - t.day);
    }
  }

  /** A date is fixed by its day number and its time of day. */
  lemma DayIndexDetermines(a: Date, b: Date)
    requires DayIndex(a) == DayIndex(b) && a.minute == b.minute
    ensures a == b
  {
    SameDayIndex(a, b);
  }

  /** Adding `a` days and then `b` more is adding `a + b` days. */
  lemma AddDaysAdd(t: Date, a: nat, b: nat)
    ensures AddDays(AddDays(t, a), b) == AddDays(t, a + b)
  {
    var mid := AddDays(t, a);
    var left, right := AddDays(mid, b), AddDays(t, a + b);
    AddDaysIndex(t, a);
    AddDaysIndex(mid, b);
    AddDaysIndex(t, a + b);
    DayIndexDetermines(left, right);
  }

  /** Going back `n` days and then forward `n` days returns to the same date-time. */
  lemma SubThenAddDays(t: Date, n: nat)
    ensures AddDays(SubDays(t, n), n) == t
  {
    SubDaysIndex(t, n);
    AddDaysIndex(SubDays(t, n), n);
    DayIndexDetermines(AddDays(SubDays(t, n), n), t);
  }

  /** date-fns `addWeeks`. */
  function AddWeeks(t: Date, n: nat): (r: Date)
    ensures r.minute == t.minute
    ensures n >= 1 ==> Earlier(t, r)
  {
    AddDays(t, 7 * n)
  }

  /**
   * date-fns `addMonths`/`subMonths`: the same day of month `n` months on, clamped to the
   * last day of the target month when that month is shorter (31 January + 1 month is the
   * last day of February).
   */
  function AddMonths(t: Date, n: int): (r: Date)
    ensures r.month == t.month + n && r.minute == t.minute
    ensures r.day == if t.day <= DaysInMonth(t.month + n) then t.day else DaysInMonth(t.month + n)
  {
    var target := t.month + n;
    DateTime(target, if t.day <= DaysInMonth(target) then t.day else DaysInMonth(target), t.minute)
  }

  /** Day of the week, 0 = Sunday ... 6 = Saturday. */
  function Weekday(t: Date): (w: int)
    ensures 0 <= w < 7
  {
    (DayIndex(t) + 6) % 7
  }

  /**
   * The weekday read back as the residue of the day number it is computed from: day `t`
   * falls on weekday `w` of week `k`, the week whose Sunday is day `7 * k - 6`.
   */
  lemma WeekdayResidue(t: Date, w: int) returns (k: int)
    requires Weekday(t) == w
    ensures (DayIndex(t) + 6) % 7 == w && DayIndex(t) + 6 == 7 * k + w
  {
    k := (DayIndex(t) + 6) / 7;
  }

  /** date-fns `startOfMonth`: midnight of the first day of the month. */
  function StartOfMonth(t: Date): (r: Date)
    ensures IsSameMonth(r, t) && r.day == 1 && r.minute == 0
  {
    DateTime(t.month, 1, 0)
  }

  /** date-fns `endOfMonth`: the last minute of the last day of the month. */
  function EndOfMonth(t: Date): (r: Date)
    ensures IsSameMonth(r, t) && r.day == DaysInMonth(t.month) && r.minute == LastMinute
  {
    DateTime(t.month, DaysInMonth(t.month), LastMinute)
  }

  /** date-fns `startOfWeek` (weeks start on Sunday): midnight of the Sunday on or before `t`. */
  function StartOfWeek(t: Date): (r: Date)
    ensures Weekday(r) == 0 && r.minute == 0
    ensures DayIndex(t) - 6 <= DayIndex(r) <= DayIndex(t)
  {
    var s := SubDays(t, Weekday(t));
    SubDaysIndex(t, Weekday(t));
    WeekdayShift(DayIndex(t));
    DateTime(s.month, s.day, 0)
  }

  /** date-fns `endOfWeek`: the last minute of the Saturday on or after `t`. */
  function EndOfWeek(t: Date): (r: Date)
    ensures Weekday(r) == 6 && r.minute == LastMinute
    ensures DayIndex(t) <= DayIndex(r) <= DayIndex(t) + 6
  {
    var s := AddDays(t, 6 - Weekday(t));
    AddDaysIndex(t, 6 - Weekday(t));
    WeekdayShift(DayIndex(t));
    DateTime(s.month, s.day, LastMinute)
  }

  lemma WeekdayShift(d: int)
    ensures (d - (d + 6) % 7 + 6) % 7 == 0
    ensures (d + (6 - (d + 6) % 7) + 6) % 7 == 6
  {
    var q := (d + 6) / 7;
    assert d + 6 == 7 * q + (d + 6) % 7;
    assert d - (d + 6) % 7 + 6 == 7 * q;
  }
}
