/** The date the ledger is showing (`fecha_actual`) and the month-to-month
    navigation over it: Gregorian leap years, `calendar.monthrange`, and
    adding or subtracting one day as `datetime` does, within its range of
    years 1 to 9999. */
module Calendar {
  import opened Wrappers
  import opened Months

  /** A `datetime` with its time of day left out; navigation never changes
      the time of day and nothing reads it. */
  datatype Date = Date(year: int, month: int, day: int)

  predicate IsLeap(y: int) {
    y % 4 == 0 && (y % 100 != 0 || y % 400 == 0)
  }

  /** `calendar.monthrange(y, m)[1]`. */
  function DaysInMonth(y: int, m: int): (n: int)
    requires 1 <= m <= 12
    ensures 28 <= n <= 31
  {
    if m == 2 then (if IsLeap(y) then 29 else 28)
    else if m == 4 || m == 6 || m == 9 || m == 11 then 30
    else 31
  }

  function DaysInYear(y: int): int {
    if IsLeap(y) then 366 else 365
  }

  /** The dates `datetime` can represent. */
  predicate ValidDate(d: Date) {
    1 <= d.year <= 9999 && 1 <= d.month <= 12 && 1 <= d.day <= DaysInMonth(d.year, d.month)
  }

  function MonthOf(d: Date): YearMonth {
    YearMonth(d.year, d.month)
  }

  // ---------------------------------------------------------------------------
  // Day numbering, as date.toordinal(): 1 January of year 1 is day 1.
  // ---------------------------------------------------------------------------

  function DaysBeforeYear(y: int): int
    requires y >= 1
  {
    var p := y - 1;
    p * 365 + p / 4 - p / 100 + p / 400
  }

  function DaysBeforeMonth(y: int, m: int): int
    requires 1 <= m <= 12
  {
    if m == 1 then 0 else DaysBeforeMonth(y, m - 1) + DaysInMonth(y, m - 1)
  }

  function Ordinal(d: Date): int
    requires ValidDate(d)
  {
    DaysBeforeYear(d.year) + DaysBeforeMonth(d.year, d.month) + d.day
  }

  /** How many multiples of n (4, 100 or 400) lie in 1..y grows by one
      exactly at a multiple of n. */
  lemma MultiplesStep(p: int)
    requires p >= 0
    ensures (p + 1) / 4 == p / 4 + (if (p + 1) % 4 == 0 then 1 else 0)
    ensures (p + 1) / 100 == p / 100 + (if (p + 1) % 100 == 0 then 1 else 0)
    ensures (p + 1) / 400 == p / 400 + (if (p + 1) % 400 == 0 then 1 else 0)
  {
  }

  /** A multiple of 400 is a multiple of 100, and one of 100 a multiple of 4. */
  lemma MultiplesNest(y: int)
    ensures y % 400 == 0 ==> y % 100 == 0
    ensures y % 100 == 0 ==> y % 4 == 0
  {
  }

  lemma DaysBeforeYearStep(y: int)
    requires y >= 1
    ensures DaysBeforeYear(y + 1) == DaysBeforeYear(y) + DaysInYear(y)
  {
    MultiplesStep(y - 1);
    MultiplesNest(y);
  }

  lemma YearLength(y: int)
    ensures DaysBeforeMonth(y, 12) + DaysInMonth(y, 12) == DaysInYear(y)
  {
    assert DaysBeforeMonth(y, 2) == DaysBeforeMonth(y, 1) + DaysInMonth(y, 1);
    assert DaysBeforeMonth(y, 3) == DaysBeforeMonth(y, 2) + DaysInMonth(y, 2);
    assert DaysBeforeMonth(y, 4) == DaysBeforeMonth(y, 3) + DaysInMonth(y, 3);
    assert DaysBeforeMonth(y, 5) == DaysBeforeMonth(y, 4) + DaysInMonth(y, 4);
    assert DaysBeforeMonth(y, 6) == DaysBeforeMonth(y, 5) + DaysInMonth(y, 5);
    assert DaysBeforeMonth(y, 7) == DaysBeforeMonth(y, 6) + DaysInMonth(y, 6);
    assert DaysBeforeMonth(y, 8) == DaysBeforeMonth(y, 7) + DaysInMonth(y, 7);
    assert DaysBeforeMonth(y, 9) == DaysBeforeMonth(y, 8) + DaysInMonth(y, 8);
    assert DaysBeforeMonth(y, 10) == DaysBeforeMonth(y, 9) + DaysInMonth(y, 9);
    assert DaysBeforeMonth(y, 11) == DaysBeforeMonth(y, 10) + DaysInMonth(y, 10);
    assert DaysBeforeMonth(y, 12) == DaysBeforeMonth(y, 11) + DaysInMonth(y, 11);
  }

  /** The first of month m + 1 follows the last day of month m. */
  lemma MonthBoundary(y: int, m: int)
    requires 1 <= y <= 9999 && 1 <= m < 12
    ensures Ordinal(Date(y, m + 1, 1)) == Ordinal(Date(y, m, DaysInMonth(y, m))) + 1
  {
  }

  /** 1 January of year y + 1 follows 31 December of year y. */
  lemma YearBoundary(y: int)
    requires 1 <= y < 9999
    ensures DaysInMonth(y, 12) == 31
    ensures Ordinal(Date(y + 1, 1, 1)) == Ordinal(Date(y, 12, 31)) + 1
  {
    DaysBeforeYearStep(y);
    YearLength(y);
  }

  // ---------------------------------------------------------------------------
  // One day forward and back: d + timedelta(days=1), d - timedelta(days=1).
  // ---------------------------------------------------------------------------

  /** `d + timedelta(days=1)`; None where `datetime` raises OverflowError,
      which is only after 31 December 9999. The result is the next day number. */
  function AddOneDay(d: Date): (r: Option<Date>)
    requires ValidDate(d)
    ensures r.None? <==> d == Date(9999, 12, 31)
    ensures r.Some? ==> ValidDate(r.value) && Ordinal(r.value) == Ordinal(d) + 1
  {
    if d.day < DaysInMonth(d.year, d.month) then Some(Date(d.year, d.month, d.day + 1))
    else if d.month < 12 then
      MonthBoundary(d.year, d.month);
      Some(Date(d.year, d.month + 1, 1))
    else if d.year < 9999 then
      YearBoundary(d.year);
      Some(Date(d.year + 1, 1, 1))
    else
      assert DaysInMonth(d.year, d.month) == 31;
      None
  }

  /** `d - timedelta(days=1)`; None where `datetime` raises OverflowError,
      which is only before 1 January of year 1. The result is the previous
      day number. */
  function SubOneDay(d: Date): (r: Option<Date>)
    requires ValidDate(d)
    ensures r.None? <==> d == Date(1, 1, 1)
    ensures r.Some? ==> ValidDate(r.value) && Ordinal(r.value) == Ordinal(d) - 1
  {
    if d.day > 1 then Some(Date(d.year, d.month, d.day - 1))
    else if d.month > 1 then
      MonthBoundary(d.year, d.month - 1);
      Some(Date(d.year, d.month - 1, DaysInMonth(d.year, d.month - 1)))
    else if d.year > 1 then
      YearBoundary(d.year - 1);
      Some(Date(d.year - 1, 12, 31))
    else None
  }

  /** Going one day forward and one day back returns to the same date. */
  lemma AddThenSubOneDay(d: Date)
    requires ValidDate(d) && AddOneDay(d).Some?
    ensures SubOneDay(AddOneDay(d).value) == Some(d)
  {
    if d.day < DaysInMonth(d.year, d.month) {
      assert AddOneDay(d) == Some(Date(d.year, d.month, d.day + 1));
    } else if d.month < 12 {
      assert AddOneDay(d) == Some(Date(d.year, d.month + 1, 1));
    } else {
      assert AddOneDay(d) == Some(Date(d.year + 1, 1, 1));
    }
  }

  lemma SubThenAddOneDay(d: Date)
    requires ValidDate(d) && SubOneDay(d).Some?
    ensures AddOneDay(SubOneDay(d).value) == Some(d)
  {
    if d.day > 1 {
      assert SubOneDay(d) == Some(Date(d.year, d.month, d.day - 1));
    } else if d.month > 1 {
      assert SubOneDay(d) == Some(Date(d.year, d.month - 1, DaysInMonth(d.year, d.month - 1)));
    } else {
      assert SubOneDay(d) == Some(Date(d.year - 1, 12, 31));
    }
  }

  // ---------------------------------------------------------------------------
  // mes_anterior and mes_siguiente
  // ---------------------------------------------------------------------------

  /** `mes_anterior`: the first of the month, minus one day. */
  function PreviousMonth(d: Date): (r: Option<Date>)
    requires ValidDate(d)
    ensures r.None? <==> d.year == 1 && d.month == 1
    ensures r.Some? ==> ValidDate(r.value) && r.value.day == DaysInMonth(r.value.year, r.value.month)
    ensures r.Some? ==> MonthIndex(MonthOf(r.value)) == MonthIndex(MonthOf(d)) - 1
  {
    SubOneDay(Date(d.year, d.month, 1))
  }

  /** `mes_siguiente`: the last day of the month, plus one day. */
  function NextMonth(d: Date): (r: Option<Date>)
    requires ValidDate(d)
    ensures r.None? <==> d.year == 9999 && d.month == 12
    ensures r.Some? ==> ValidDate(r.value) && r.value.day == 1
    ensures r.Some? ==> MonthIndex(MonthOf(r.value)) == MonthIndex(MonthOf(d)) + 1
  {
    AddOneDay(Date(d.year, d.month, DaysInMonth(d.year, d.month)))
  }

  /** The next month lands on its first day: December rolls over to January
      of the next year, every other month steps to the following one, and
      only December 9999 overflows. */
  lemma NextMonthLands(d: Date)
    requires ValidDate(d)
    ensures NextMonth(d) ==
      if d.month == 12 then (if d.year == 9999 then None else Some(Date(d.year + 1, 1, 1)))
      else Some(Date(d.year, d.month + 1, 1))
    ensures NextMonth(d).Some? ==>
      MonthIndex(MonthOf(NextMonth(d).value)) == MonthIndex(MonthOf(d)) + 1
  {
  }

  /** The previous month lands on its last day: January rolls back to
      December of the year before, every other month steps to the preceding
      one, and only January of year 1 overflows. */
  lemma PreviousMonthLands(d: Date)
    requires ValidDate(d)
    ensures PreviousMonth(d) ==
      if d.month == 1 then (if d.year == 1 then None else Some(Date(d.year - 1, 12, 31)))
      else Some(Date(d.year, d.month - 1, DaysInMonth(d.year, d.month - 1)))
    ensures PreviousMonth(d).Some? ==>
      MonthIndex(MonthOf(PreviousMonth(d).value)) == MonthIndex(MonthOf(d)) - 1
  {
  }

  /** Next and then previous month shows the month one started from, and so
      does previous and then next. */
  lemma {:induction false} NextThenPrevious(d: Date)
    requires ValidDate(d) && NextMonth(d).Some?
    ensures PreviousMonth(NextMonth(d).value).Some?
    ensures MonthOf(PreviousMonth(NextMonth(d).value).value) == MonthOf(d)
  {
    NextMonthLands(d);
    PreviousMonthLands(NextMonth(d).value);
  }

  lemma {:induction false} PreviousThenNext(d: Date)
    requires ValidDate(d) && PreviousMonth(d).Some?
    ensures NextMonth(PreviousMonth(d).value).Some?
    ensures MonthOf(NextMonth(PreviousMonth(d).value).value) == MonthOf(d)
  {
    PreviousMonthLands(d);
    NextMonthLands(PreviousMonth(d).value);
  }

  /** December 2024 moves on to 1 January 2025 and January 2025 back to
      31 December 2024; March of a leap year moves back to 29 February. */
  lemma NavigationExamples()
    ensures NextMonth(Date(2024, 12, 15)) == Some(Date(2025, 1, 1))
    ensures PreviousMonth(Date(2025, 1, 20)) == Some(Date(2024, 12, 31))
    ensures PreviousMonth(Date(2024, 3, 31)) == Some(Date(2024, 2, 29))
    ensures PreviousMonth(Date(2100, 3, 1)) == Some(Date(2100, 2, 28))
  {
  }
}
