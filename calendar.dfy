/** Civil dates in the proleptic Gregorian calendar over the years 1 to 9999,
    the range of Python's `datetime`, and their day numbers. */
module Calendar {

  const MinYear: int := 1
  const MaxYear: int := 9999

  datatype Date = Date(year: int, month: int, day: int)

  predicate IsLeapYear(y: int) {
    y % 4 == 0 && (y % 100 != 0 || y % 400 == 0)
  }

  function DaysInYear(y: int): int {
    if IsLeapYear(y) then 366 else 365
  }

  /** Days in month `m` of year `y`. */
  function DaysInMonth(y: int, m: int): int
    requires 1 <= m <= 12
  {
    if m == 2 then (if IsLeapYear(y) then 29 else 28)
    else if m == 4 || m == 6 || m == 9 || m == 11 then 30
    else 31
  }

  predicate ValidDate(d: Date) {
    MinYear <= d.year <= MaxYear && 1 <= d.month <= 12 && 1 <= d.day <= DaysInMonth(d.year, d.month)
  }

  const FirstDate: Date := Date(MinYear, 1, 1)
  const LastDate: Date := Date(MaxYear, 12, 31)

  /** Days in the years before `y`: the lengths of years 1 to `y - 1` added up. */
  function DaysBeforeYear(y: int): int
    requires y >= 1
  {
    if y == 1 then 0 else DaysBeforeYear(y - 1) + DaysInYear(y - 1)
  }

  /** The closed form by which Python counts the days before year `y`. */
  function DaysBeforeYearClosed(y: int): int
    requires y >= 1
  {
    var p := y - 1;
    p * 365 + p / 4 - p / 100 + p / 400
  }

  /** Days in the months of year `y` before month `m`, by the cumulative table. */
  function DaysBeforeMonth(y: int, m: int): int
    requires 1 <= m <= 12
  {
    var table := [0, 31, 59, 90, 120, 151, 181, 212, 243, 273, 304, 334];
    table[m - 1] + (if m > 2 && IsLeapYear(y) then 1 else 0)
  }

  /** The day number of a date, 1 for 0001-01-01 (Python's `date.toordinal`). */
  function Ordinal(d: Date): int
    requires ValidDate(d)
  {
    DaysBeforeYear(d.year) + DaysBeforeMonth(d.year, d.month) + d.day
  }

  const LastOrdinal: int := 3652059

  /** Every fourth year divisible by 100 is divisible by 400, and every year
      divisible by 100 is divisible by 4. */
  lemma CenturyDivisibility(q: int)
    ensures q % 100 == 0 ==> q % 4 == 0
    ensures q % 400 == 0 ==> q % 100 == 0
  {
    if q % 100 == 0 {
      var k := q / 100;
      assert q == 4 * (25 * k);
    }
    if q % 400 == 0 {
      var k := q / 400;
      assert q == 100 * (4 * k);
    }
  }

  lemma Div4Step(p: nat)
    ensures (p + 1) / 4 == p / 4 + (if (p + 1) % 4 == 0 then 1 else 0)
  {
  }

  lemma Div100Step(p: nat)
    ensures (p + 1) / 100 == p / 100 + (if (p + 1) % 100 == 0 then 1 else 0)
  {
  }

  lemma Div400Step(p: nat)
    ensures (p + 1) / 400 == p / 400 + (if (p + 1) % 400 == 0 then 1 else 0)
  {
  }

  /** The closed form grows by the length of each year. */
  lemma ClosedFormStep(q: int)
    requires q >= 1
    ensures DaysBeforeYearClosed(q + 1) == DaysBeforeYearClosed(q) + DaysInYear(q)
  {
    var p := q - 1;
    Div4Step(p);
    Div100Step(p);
    Div400Step(p);
    CenturyDivisibility(q);
    var a, b := p / 4, q / 4;
    var c, d := p / 100, q / 100;
    var e, f := p / 400, q / 400;
    assert DaysBeforeYearClosed(q) == p * 365 + a - c + e;
    assert DaysBeforeYearClosed(q + 1) == q * 365 + b - d + f;
  }

  /** The closed form counts the same days as adding up the year lengths. */
  lemma {:induction false} DaysBeforeYearClosedForm(y: int)
    requires y >= 1
    ensures DaysBeforeYear(y) == DaysBeforeYearClosed(y)
  {
    if y > 1 {
      DaysBeforeYearClosedForm(y - 1);
      ClosedFormStep(y - 1);
    }
  }

  /** The last representable date, 9999-12-31, has day number 3652059. */
  lemma LastDateOrdinal()
    ensures Ordinal(LastDate) == LastOrdinal
  {
    DaysBeforeYearClosedForm(MaxYear + 1);
  }

  /** The month table agrees with the month lengths. */
  lemma DaysBeforeNextMonth(y: int, m: int)
    requires 1 <= m < 12
    ensures DaysBeforeMonth(y, m + 1) == DaysBeforeMonth(y, m) + DaysInMonth(y, m)
  {
  }

  lemma DaysBeforeLastMonth(y: int)
    ensures DaysBeforeMonth(y, 12) + DaysInMonth(y, 12) == DaysInYear(y)
  {
  }

  /** The day after `d`, rolling over month and year ends. */
  function NextDay(d: Date): Date
    requires ValidDate(d)
  {
    if d.day < DaysInMonth(d.year, d.month) then Date(d.year, d.month, d.day + 1)
    else if d.month < 12 then Date(d.year, d.month + 1, 1)
    else Date(d.year + 1, 1, 1)
  }

  /** The day before `d`, rolling back over month and year starts. */
  function PrevDay(d: Date): Date
    requires ValidDate(d)
  {
    if d.day > 1 then Date(d.year, d.month, d.day - 1)
    else if d.month > 1 then Date(d.year, d.month - 1, DaysInMonth(d.year, d.month - 1))
    else Date(d.year - 1, 12, 31)
  }

  lemma NextDayStep(d: Date)
    requires ValidDate(d) && d != LastDate
    ensures ValidDate(NextDay(d)) && Ordinal(NextDay(d)) == Ordinal(d) + 1
  {
    if d.day == DaysInMonth(d.year, d.month) {
      if d.month < 12 {
        DaysBeforeNextMonth(d.year, d.month);
      } else {
        DaysBeforeLastMonth(d.year);
      }
    }
  }

  lemma PrevDayStep(d: Date)
    requires ValidDate(d) && d != FirstDate
    ensures ValidDate(PrevDay(d)) && Ordinal(PrevDay(d)) == Ordinal(d) - 1
  {
    if d.day == 1 {
      if d.month > 1 {
        DaysBeforeNextMonth(d.year, d.month - 1);
      } else {
        DaysBeforeLastMonth(d.year - 1);
      }
    }
  }

  datatype ShiftResult = Shifted(date: Date) | OutOfRange

  /** `d` moved by `k` days (back when `k` is negative), one calendar day at a
      time; leaving the years 1 to 9999 is Python's `OverflowError`. */
  function ShiftDays(d: Date, k: int): (r: ShiftResult)
    requires ValidDate(d)
    ensures r.Shifted? ==> ValidDate(r.date)
    decreases if k < 0 then -k else k
  {
    if k == 0 then Shifted(d)
    else if k > 0 then
      if d == LastDate then OutOfRange else ShiftDays(NextDay(d), k - 1)
    else
      if d == FirstDate then OutOfRange else ShiftDays(PrevDay(d), k + 1)
  }

  /** Every valid date has a day number between those of the first and last dates. */
  lemma OrdinalBounds(d: Date)
    requires ValidDate(d)
    ensures 1 <= Ordinal(d) <= LastOrdinal
  {
    DaysBeforeYearMonotone(1, d.year);
    DaysBeforeYearMonotone(d.year + 1, MaxYear + 1);
    LastDateOrdinal();
    DaysBeforeMonthBound(d.year, d.month);
  }

  lemma {:induction false} DaysBeforeYearMonotone(y: int, z: int)
    requires 1 <= y <= z
    ensures DaysBeforeYear(y) <= DaysBeforeYear(z)
    decreases z - y
  {
    if y < z {
      DaysBeforeYearMonotone(y + 1, z);
    }
  }

  lemma DaysBeforeMonthBound(y: int, m: int)
    requires 1 <= m <= 12
    ensures DaysBeforeMonth(y, m) + DaysInMonth(y, m) <= DaysInYear(y)
  {
  }

  /** Shifting by `k` days succeeds exactly when the target day number lies in
      range, and then moves the day number by exactly `k`. */
  lemma {:induction false} ShiftDaysCorrect(d: Date, k: int)
    requires ValidDate(d)
    ensures ShiftDays(d, k).Shifted? <==> 1 <= Ordinal(d) + k <= LastOrdinal
    ensures ShiftDays(d, k).Shifted? ==>
              ValidDate(ShiftDays(d, k).date) && Ordinal(ShiftDays(d, k).date) == Ordinal(d) + k
    decreases if k < 0 then -k else k
  {
    OrdinalBounds(d);
    LastDateOrdinal();
    if k > 0 {
      if d != LastDate {
        NextDayStep(d);
        ShiftDaysCorrect(NextDay(d), k - 1);
      }
    } else if k < 0 {
      if d != FirstDate {
        PrevDayStep(d);
        ShiftDaysCorrect(PrevDay(d), k + 1);
      }
    }
  }

  /** Calendar order: earlier year, else earlier month, else earlier day. */
  predicate DateBefore(a: Date, b: Date) {
    a.year < b.year
    || (a.year == b.year && a.month < b.month)
    || (a.year == b.year && a.month == b.month && a.day < b.day)
  }

  lemma {:induction false} DaysBeforeMonthMonotone(y: int, m: int, n: int)
    requires 1 <= m < n <= 12
    ensures DaysBeforeMonth(y, m) + DaysInMonth(y, m) <= DaysBeforeMonth(y, n)
    decreases n - m
  {
    DaysBeforeNextMonth(y, m);
    if m + 1 < n {
      DaysBeforeMonthMonotone(y, m + 1, n);
    }
  }

  /** Day numbers follow calendar order. */
  lemma OrdinalOrdered(a: Date, b: Date)
    requires ValidDate(a) && ValidDate(b) && DateBefore(a, b)
    ensures Ordinal(a) < Ordinal(b)
  {
    if a.year < b.year {
      DaysBeforeMonthBound(a.year, a.month);
      DaysBeforeYearMonotone(a.year + 1, b.year);
    } else if a.month < b.month {
      DaysBeforeMonthMonotone(a.year, a.month, b.month);
    }
  }

  /** Dates are determined by their day numbers, and a date with a smaller or
      equal day number is not later in the calendar. */
  lemma OrdinalDeterminesOrder(a: Date, b: Date)
    requires ValidDate(a) && ValidDate(b) && Ordinal(a) <= Ordinal(b)
    ensures a == b || DateBefore(a, b)
  {
    if DateBefore(b, a) {
      OrdinalOrdered(b, a);
    } else if a != b && !DateBefore(a, b) {
      assert false;
    }
  }

  /** Moving back `n >= 0` days never gives a later date. */
  lemma ShiftBackNotLater(d: Date, n: int)
    requires ValidDate(d) && n >= 0 && ShiftDays(d, -n).Shifted?
    ensures var s := ShiftDays(d, -n).date; s == d || DateBefore(s, d)
  {
    ShiftDaysCorrect(d, -n);
    OrdinalDeterminesOrder(ShiftDays(d, -n).date, d);
  }
}
