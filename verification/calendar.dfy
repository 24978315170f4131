/**
 Integer calendar: dates are day ordinals in the proleptic Gregorian calendar,
 numbered as Python's `date.toordinal()` numbers them (0001-01-01 is day 1).
 Every timestamp of the price tables is taken to be a midnight, so a date is
 exactly one ordinal and `timedelta(days = k)` is a subtraction of `k`.
 */
module Calendar {

  /** A day ordinal. Unbounded: years before 1 and after 9999 are allowed. */
  type Date = int

  /** A civil (year, month, day) triple. */
  datatype Civil = Civil(year: int, month: int, day: int)

  predicate IsLeap(y: int) {
    y % 4 == 0 && (y % 100 != 0 || y % 400 == 0)
  }

  function DaysInYear(y: int): int {
    if IsLeap(y) then 366 else 365
  }

  function DaysInMonth(y: int, m: int): int
    requires 1 <= m <= 12
  {
    if m == 2 then (if IsLeap(y) then 29 else 28)
    else if m == 4 || m == 6 || m == 9 || m == 11 then 30
    else 31
  }

  /** Days of the years strictly before `y` (counted from 0001-01-01). */
  function DaysBeforeYear(y: int): int {
    var p := y - 1;
    365 * p + p / 4 - p / 100 + p / 400
  }

  /** Days of the months of year `y` strictly before month `m`. */
  function DaysBeforeMonth(y: int, m: int): int
    requires 1 <= m <= 12
  {
    var common :=
      if m == 1 then 0 else if m == 2 then 31 else if m == 3 then 59
      else if m == 4 then 90 else if m == 5 then 120 else if m == 6 then 151
      else if m == 7 then 181 else if m == 8 then 212 else if m == 9 then 243
      else if m == 10 then 273 else if m == 11 then 304 else 334;
    if m > 2 && IsLeap(y) then common + 1 else common
  }

  predicate ValidCivil(c: Civil) {
    1 <= c.month <= 12 && 1 <= c.day <= DaysInMonth(c.year, c.month)
  }

  function ToOrdinal(c: Civil): Date
    requires 1 <= c.month <= 12
  {
    DaysBeforeYear(c.year) + DaysBeforeMonth(c.year, c.month) + c.day
  }

  /** Ordinal of January 1 of year `y` (`pd.Timestamp(y, 1, 1)`). */
  function JanFirst(y: int): Date {
    ToOrdinal(Civil(y, 1, 1))
  }

  /** Ordinal of December 31 of year `y` (`pd.Timestamp(y, 12, 31)`). */
  function DecLast(y: int): Date {
    ToOrdinal(Civil(y, 12, 31))
  }

  // ---------------------------------------------------------------------------
  // Year lengths
  // ---------------------------------------------------------------------------

  lemma YearLength(y: int)
    ensures DaysBeforeYear(y + 1) == DaysBeforeYear(y) + DaysInYear(y)
  {
    assert y / 4 - (y - 1) / 4 == (if y % 4 == 0 then 1 else 0);
    assert y / 100 - (y - 1) / 100 == (if y % 100 == 0 then 1 else 0);
    assert y / 400 - (y - 1) / 400 == (if y % 400 == 0 then 1 else 0);
  }

  lemma {:induction false} YearStartsIncrease(a: int, b: int)
    requires a < b
    ensures DaysBeforeYear(a) + 365 <= DaysBeforeYear(b)
    decreases b - a
  {
    YearLength(a);
    if a + 1 < b {
      YearStartsIncrease(a + 1, b);
    }
  }

  lemma MonthsFillYear(y: int)
    ensures DaysBeforeMonth(y, 12) + DaysInMonth(y, 12) == DaysInYear(y)
  {
  }

  // ---------------------------------------------------------------------------
  // Ordinal to civil
  // ---------------------------------------------------------------------------

  function YearSearchUp(n: Date, y: int): (r: int)
    requires DaysBeforeYear(y) < n
    ensures DaysBeforeYear(r) < n <= DaysBeforeYear(r + 1)
    decreases n - DaysBeforeYear(y)
  {
    YearLength(y);
    if n <= DaysBeforeYear(y + 1) then y else YearSearchUp(n, y + 1)
  }

  function YearSearchDown(n: Date, y: int): (r: int)
    requires n <= DaysBeforeYear(y + 1)
    ensures DaysBeforeYear(r) < n <= DaysBeforeYear(r + 1)
    decreases DaysBeforeYear(y + 1) - n
  {
    YearLength(y);
    if DaysBeforeYear(y) < n then y else YearSearchDown(n, y - 1)
  }

  /** The year containing ordinal `n` (`Timestamp.year`). */
  function YearOf(n: Date): (r: int)
    ensures DaysBeforeYear(r) < n <= DaysBeforeYear(r + 1)
  {
    if n >= 1 then YearSearchUp(n, 1) else YearSearchDown(n, 0)
  }

  /** The year range `(DaysBeforeYear(y), DaysBeforeYear(y + 1)]` determines `y`. */
  lemma YearOfUnique(n: Date, y: int)
    requires DaysBeforeYear(y) < n <= DaysBeforeYear(y + 1)
    ensures YearOf(n) == y
  {
    var r := YearOf(n);
    if r < y {
      YearStartsIncrease(r + 1, y + 1);
      if r + 1 < y { YearStartsIncrease(r + 1, y); }
    } else if y < r {
      if y + 1 < r { YearStartsIncrease(y + 1, r); }
    }
  }

  /** Month containing day-of-year `doy` of year `y`. */
  function MonthOfDayOfYear(y: int, doy: int): (m: int)
    requires 1 <= doy <= DaysInYear(y)
    ensures 1 <= m <= 12
    ensures DaysBeforeMonth(y, m) < doy <= DaysBeforeMonth(y, m) + DaysInMonth(y, m)
  {
    if doy <= DaysBeforeMonth(y, 2) then 1
    else if doy <= DaysBeforeMonth(y, 3) then 2
    else if doy <= DaysBeforeMonth(y, 4) then 3
    else if doy <= DaysBeforeMonth(y, 5) then 4
    else if doy <= DaysBeforeMonth(y, 6) then 5
    else if doy <= DaysBeforeMonth(y, 7) then 6
    else if doy <= DaysBeforeMonth(y, 8) then 7
    else if doy <= DaysBeforeMonth(y, 9) then 8
    else if doy <= DaysBeforeMonth(y, 10) then 9
    else if doy <= DaysBeforeMonth(y, 11) then 10
    else if doy <= DaysBeforeMonth(y, 12) then 11
    else 12
  }

  lemma MonthOfDayOfYearUnique(y: int, doy: int, m: int)
    requires 1 <= m <= 12
    requires DaysBeforeMonth(y, m) < doy <= DaysBeforeMonth(y, m) + DaysInMonth(y, m)
    ensures MonthOfDayOfYear(y, doy) == m
  {
  }

  /** `date.fromordinal(n)`. */
  function FromOrdinal(n: Date): (c: Civil)
    ensures ValidCivil(c)
    ensures ToOrdinal(c) == n
  {
    var y := YearOf(n);
    YearLength(y);
    var doy := n - DaysBeforeYear(y);
    var m := MonthOfDayOfYear(y, doy);
    Civil(y, m, doy - DaysBeforeMonth(y, m))
  }

  /** The month (1..12) containing ordinal `n` (`Timestamp.month`). */
  function MonthOf(n: Date): (m: int)
    ensures 1 <= m <= 12
  {
    FromOrdinal(n).month
  }

  /** Civil to ordinal and back is the identity on valid civil dates. */
  lemma FromToOrdinal(c: Civil)
    requires ValidCivil(c)
    ensures FromOrdinal(ToOrdinal(c)) == c
  {
    var n := ToOrdinal(c);
    MonthsFillYear(c.year);
    YearLength(c.year);
    assert DaysBeforeMonth(c.year, c.month) + DaysInMonth(c.year, c.month) <= DaysInYear(c.year) by {
      if c.month < 12 {
        assert DaysBeforeMonth(c.year, c.month) + DaysInMonth(c.year, c.month) <= DaysBeforeMonth(c.year, 12);
      }
    }
    YearOfUnique(n, c.year);
    MonthOfDayOfYearUnique(c.year, n - DaysBeforeYear(c.year), c.month);
  }

  /** A date belongs to year `y` exactly when it lies between January 1 and December 31 of `y`. */
  lemma YearOfRange(n: Date, y: int)
    ensures YearOf(n) == y <==> JanFirst(y) <= n <= DecLast(y)
  {
    YearLength(y);
    if JanFirst(y) <= n <= DecLast(y) {
      YearOfUnique(n, y);
    }
  }

  /** January 1 and December 31 of `y` belong to `y`, and January 1 of the next year follows December 31. */
  lemma YearEnds(y: int)
    ensures YearOf(JanFirst(y)) == y && YearOf(DecLast(y)) == y
    ensures JanFirst(y) < DecLast(y) && DecLast(y) + 1 == JanFirst(y + 1)
  {
    YearLength(y);
    assert JanFirst(y) == DaysBeforeYear(y) + 1;
    assert DecLast(y) == DaysBeforeYear(y) + DaysInYear(y);
    assert JanFirst(y + 1) == DaysBeforeYear(y + 1) + 1;
    YearOfUnique(JanFirst(y), y);
    YearOfUnique(DecLast(y), y);
  }

  /** A date lies in month `m` of year `y` exactly when it falls between that month's first and last day. */
  lemma InMonthRange(n: Date, y: int, m: int)
    requires 1 <= m <= 12
    ensures (YearOf(n) == y && MonthOf(n) == m)
            <==> ToOrdinal(Civil(y, m, 1)) <= n <= ToOrdinal(Civil(y, m, DaysInMonth(y, m)))
  {
    var c := FromOrdinal(n);
    assert c.year == YearOf(n) && c.month == MonthOf(n);
    if ToOrdinal(Civil(y, m, 1)) <= n <= ToOrdinal(Civil(y, m, DaysInMonth(y, m))) {
      var d := n - ToOrdinal(Civil(y, m, 1)) + 1;
      FromToOrdinal(Civil(y, m, d));
    }
  }

  /** Years are non-decreasing along ordinals. */
  lemma YearOfMonotone(a: Date, b: Date)
    requires a <= b
    ensures YearOf(a) <= YearOf(b)
  {
    var ya, yb := YearOf(a), YearOf(b);
    if yb < ya {
      if yb + 1 < ya { YearStartsIncrease(yb + 1, ya); }
    }
  }

  /** (year, month) pairs are non-decreasing along ordinals. */
  lemma MonthKeyMonotone(a: Date, b: Date)
    requires a <= b
    ensures YearOf(a) < YearOf(b) || (YearOf(a) == YearOf(b) && MonthOf(a) <= MonthOf(b))
  {
    YearOfMonotone(a, b);
  }

  // ---------------------------------------------------------------------------
  // Month arithmetic
  // ---------------------------------------------------------------------------

  /**
   The month before (y, m): December of the previous year for January,
   otherwise month m - 1 of the same year.
   */
  function PrevMonth(y: int, m: int): (r: (int, int))
    requires 1 <= m <= 12
    ensures 1 <= r.1 <= 12 && r.0 * 12 + r.1 == y * 12 + m - 1
  {
    if m == 1 then (y - 1, 12) else (y, m - 1)
  }

  /** The month before ends the day before month `m` begins. */
  lemma PrevMonthAdjacent(y: int, m: int)
    requires 1 <= m <= 12
    ensures var (py, pm) := PrevMonth(y, m);
            ToOrdinal(Civil(py, pm, DaysInMonth(py, pm))) + 1 == ToOrdinal(Civil(y, m, 1))
  {
    if m == 1 {
      YearLength(y - 1);
    }
  }

  /**
   `date - pd.DateOffset(months = k)`: the same day k months earlier, clipped
   to the last day of the target month.
   */
  function MonthsBefore(n: Date, k: nat): (r: Date)
    ensures var c, t := FromOrdinal(n), FromOrdinal(r);
            t.year * 12 + t.month == c.year * 12 + c.month - k &&
            t.day == (if c.day <= DaysInMonth(t.year, t.month) then c.day else DaysInMonth(t.year, t.month))
  {
    var c := FromOrdinal(n);
    var total := c.year * 12 + (c.month - 1) - k;
    var y, m := total / 12, total % 12 + 1;
    var d := if c.day <= DaysInMonth(y, m) then c.day else DaysInMonth(y, m);
    FromToOrdinal(Civil(y, m, d));
    ToOrdinal(Civil(y, m, d))
  }
}
