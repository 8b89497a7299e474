/**
 * Proleptic Gregorian calendar dates, as Python's `datetime.date` has them,
 * and adding a whole number of days (`date + timedelta(n)`).
 */
module Dates {

  datatype Date = Date(year: int, month: int, day: int)

  /** Gregorian leap years: divisible by 4, except centuries not divisible by 400. */
  predicate IsLeap(year: int) {
    year % 4 == 0 && (year % 100 != 0 || year % 400 == 0)
  }

  function DaysInMonth(year: int, month: int): (n: int)
    requires 1 <= month <= 12
    ensures 28 <= n <= 31
    ensures n == 28 <==> month == 2 && !IsLeap(year)
    ensures n == 29 <==> month == 2 && IsLeap(year)
    ensures n == 30 <==> month in {4, 6, 9, 11}
  {
    if month == 2 then (if IsLeap(year) then 29 else 28)
    else if month == 4 || month == 6 || month == 9 || month == 11 then 30
    else 31
  }

  /** A calendar date that `datetime.date` accepts (the upper year bound is not modelled). */
  predicate ValidDate(d: Date) {
    1 <= d.year && 1 <= d.month <= 12 && 1 <= d.day <= DaysInMonth(d.year, d.month)
  }

  /** The day after `d`, rolling over the end of a month and of a year. */
  function NextDay(d: Date): (r: Date)
    requires ValidDate(d)
    ensures ValidDate(r)
    ensures r.year == (if d.month == 12 && d.day == 31 then d.year + 1 else d.year)
    ensures r.day == 1 <==> d.day == DaysInMonth(d.year, d.month)
    ensures r.day == 1 ==> r.month == (if d.month < 12 then d.month + 1 else 1)
    ensures r.day != 1 ==> r.year == d.year && r.month == d.month && r.day == d.day + 1
  {
    if d.day < DaysInMonth(d.year, d.month) then Date(d.year, d.month, d.day + 1)
    else if d.month < 12 then Date(d.year, d.month + 1, 1)
    else Date(d.year + 1, 1, 1)
  }

  /** `d + timedelta(n)` for n >= 0: n steps of one day. */
  function AddDays(d: Date, n: nat): (r: Date)
    requires ValidDate(d)
    ensures ValidDate(r)
    ensures d.year <= r.year
  {
    if n == 0 then d else NextDay(AddDays(d, n - 1))
  }

  /** The (month, day) of a date, the part a birthday is compared on. */
  function MonthDay(d: Date): (int, int) {
    (d.month, d.day)
  }

  /**
   * Closed form of the next six days: a date within six days of `d` is either
   * in the same month, or early in the following month (January of the next
   * year after December).
   */
  lemma {:induction false} AddDaysWithinWeek(d: Date, k: nat)
    requires ValidDate(d) && k <= 6
    ensures var dim := DaysInMonth(d.year, d.month);
      AddDays(d, k) ==
        if d.day + k <= dim then Date(d.year, d.month, d.day + k)
        else if d.month < 12 then Date(d.year, d.month + 1, d.day + k - dim)
        else Date(d.year + 1, 1, d.day + k - dim)
  {
    if k > 0 {
      AddDaysWithinWeek(d, k - 1);
    }
  }

  /**
   * Adding 0..6 days to a date whose day is at most 21 never leaves the month,
   * because every month has at least 28 days.
   */
  lemma {:induction false} AddDaysStaysInMonth(d: Date, k: nat)
    requires ValidDate(d) && d.day <= 21 && k <= 6
    ensures AddDays(d, k) == Date(d.year, d.month, d.day + k)
  {
    AddDaysWithinWeek(d, k);
  }

  /** The seven (month, day) pairs of `today`, `today + 1`, ..., `today + 6`. */
  function CalendarWeek(today: Date): (w: seq<(int, int)>)
    requires ValidDate(today)
    ensures |w| == 7
    ensures forall k :: 0 <= k < 7 ==> w[k] == MonthDay(AddDays(today, k))
  {
    seq(7, k requires 0 <= k < 7 => MonthDay(AddDays(today, k)))
  }

  /** The seven (month, day) pairs the day-of-month shortcut builds: same month, days day..day+6. */
  function ShortcutWeek(today: Date): (w: seq<(int, int)>)
    ensures |w| == 7
    ensures forall k :: 0 <= k < 7 ==> w[k] == (today.month, today.day + k)
  {
    seq(7, k requires 0 <= k < 7 => (today.month, today.day + k))
  }

  /** When the day of month is at most 21, the shortcut and the calendar agree pair by pair. */
  lemma ShortcutWeekIsCalendarWeek(today: Date)
    requires ValidDate(today) && today.day <= 21
    ensures ShortcutWeek(today) == CalendarWeek(today)
  {
    var shortcut, calendar := ShortcutWeek(today), CalendarWeek(today);
    forall k | 0 <= k < 7
      ensures shortcut[k] == calendar[k]
    {
      AddDaysStaysInMonth(today, k);
      assert calendar[k] == MonthDay(AddDays(today, k));
    }
    assert |shortcut| == |calendar|;
  }

  /** No (month, day) pair occurs twice in a seven-day window. */
  lemma CalendarWeekDistinct(today: Date)
    requires ValidDate(today)
    ensures forall i, j :: 0 <= i < j < 7 ==> CalendarWeek(today)[i] != CalendarWeek(today)[j]
  {
    forall i, j | 0 <= i < j < 7
      ensures CalendarWeek(today)[i] != CalendarWeek(today)[j]
    {
      AddDaysWithinWeek(today, i);
      AddDaysWithinWeek(today, j);
    }
  }
}
