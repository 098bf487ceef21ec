/** The part of Python's `calendar` module the expiry repair uses:
    `isleap` and the month length returned by `monthrange`. */
module Calendar {
  import opened Wrappers

  /** Gregorian rule: divisible by 4, and either not by 100 or by 400. */
  predicate IsLeap(year: nat)
  {
    year % 4 == 0 && (year % 100 != 0 || year % 400 == 0)
  }

  /** Days of each month in a common year, indexed 1..12 (index 0 unused). */
  const MonthDays: seq<nat> := [0, 31, 28, 31, 30, 31, 30, 31, 31, 30, 31, 30, 31]

  /** Length of `month` in `year`: the table entry, plus one for February of a leap year. */
  function LastDay(year: nat, month: nat): (d: nat)
    requires 1 <= month <= 12
    ensures 28 <= d <= 31
  {
    MonthDays[month] + (if month == 2 && IsLeap(year) then 1 else 0)
  }

  /** `calendar.monthrange(year, month)[1]`; `None` where it raises
      `IllegalMonthError` (a `ValueError`), i.e. for a month outside 1..12. */
  function MonthRange(year: nat, month: nat): (r: Option<nat>)
    ensures r.Some? <==> 1 <= month <= 12
    ensures r.Some? ==> 28 <= r.value <= 31
  {
    if 1 <= month <= 12 then Some(LastDay(year, month)) else None
  }

  /** February has 29 days exactly in leap years; the other months do not depend on the year. */
  lemma February(year: nat, month: nat)
    requires 1 <= month <= 12
    ensures month == 2 ==> (LastDay(year, month) == 29 <==> IsLeap(year))
    ensures month == 2 ==> (LastDay(year, month) == 28 <==> !IsLeap(year))
    ensures month != 2 ==> LastDay(year, month) == LastDay(0, month)
  {
  }

  /** The thirty-day months are April, June, September and November;
      every other month except February has thirty-one. */
  lemma ThirtyDaysHath(year: nat, month: nat)
    requires 1 <= month <= 12
    ensures LastDay(year, month) == 30 <==> month == 4 || month == 6 || month == 9 || month == 11
    ensures LastDay(year, month) == 31 <==> month != 2 && month != 4 && month != 6 && month != 9 && month != 11
  {
  }

  /** Days in the months before `month` of `year`. */
  function DaysBefore(year: nat, month: nat): nat
    requires 1 <= month <= 13
  {
    if month == 1 then 0 else DaysBefore(year, month - 1) + LastDay(year, month - 1)
  }

  /** The twelve month lengths add up to the length of the year. */
  lemma YearLength(year: nat)
    ensures DaysBefore(year, 13) == if IsLeap(year) then 366 else 365
  {
    var leap := if IsLeap(year) then 1 else 0;
    assert DaysBefore(year, 2) == 31;
    assert DaysBefore(year, 3) == 59 + leap;
    assert DaysBefore(year, 4) == 90 + leap;
    assert DaysBefore(year, 5) == 120 + leap;
    assert DaysBefore(year, 6) == 151 + leap;
    assert DaysBefore(year, 7) == 181 + leap;
    assert DaysBefore(year, 8) == 212 + leap;
    assert DaysBefore(year, 9) == 243 + leap;
    assert DaysBefore(year, 10) == 273 + leap;
    assert DaysBefore(year, 11) == 304 + leap;
    assert DaysBefore(year, 12) == 334 + leap;
  }

  /** The Gregorian calendar repeats every 400 years. */
  lemma FourHundredYearCycle(year: nat, month: nat)
    requires 1 <= month <= 12
    ensures LastDay(year + 400, month) == LastDay(year, month)
  {
    assert IsLeap(year + 400) == IsLeap(year) by {
      assert (year + 400) % 4 == year % 4;
      assert (year + 400) % 100 == year % 100;
      assert (year + 400) % 400 == year % 400;
    }
  }
}
