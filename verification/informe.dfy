/**
 The formulas and the row builder of the extended report (informe_module.py).

 None of these cells is gated by a validator: a formula that cannot compute
 returns NaN, and no cell of the report is ever `"-"`. The month-to-date,
 year-to-date and calendar-year figures are measured from the table's latest
 date, which can differ from the fund's own last date.
 */
module Informe {
  import opened Wrappers
  import opened Calendar
  import opened Text
  import opened Series
  import opened Names
  import opened PaginaReturns

  /**
   The inline guard every formula here ends with: NaN when there is no base
   row or its price is zero, otherwise the simple return of `current` over it.
   */
  function OverBase(s: Series, base: Option<nat>, current: real): (r: Cell)
    requires base.Some? ==> base.value < |s|
    ensures r != Dash
    ensures r.NaN? <==> base.None? || s[base.value].price == 0.0
    ensures r.Num? ==> Grown(s[base.value].price, r.value) == current
  {
    if base.None? || s[base.value].price == 0.0 then NaN
    else
      var x := SimpleReturn(current, s[base.value].price);
      GrowBack(current, s[base.value].price, x);
      Num(x)
  }

  // ---------------------------------------------------------------------------
  // Daily and month-to-date
  // ---------------------------------------------------------------------------

  /**
   `calcular_rentabilidad_diaria(precios)`: the last price over the one before
   it, by position; NaN with fewer than two prices or a zero previous price.
   */
  function Daily(s: Series): (r: Cell)
    ensures r != Dash
    ensures r.NaN? <==> |s| < 2 || s[|s| - 2].price == 0.0
    ensures r.Num? ==> Grown(s[|s| - 2].price, r.value) == Last(s).price
  {
    if |s| < 2 then NaN else OverBase(s, Some(|s| - 2), Last(s).price)
  }

  /** Only the last two observations matter, and on a table series only their number can make the result NaN. */
  lemma DailyReadsLastTwo(s: Series)
    requires Positive(s) && |s| >= 2
    ensures Daily(s) == Daily(s[|s| - 2..])
    ensures Daily(s).Num?
  {
    assert s[|s| - 2..][0] == s[|s| - 2];
  }

  /** The rows of the month before month `m` of year `y`: December of the previous year for January. */
  function PriorMonth(y: int, m: int): (f: DateFilter)
    requires 1 <= m <= 12
    ensures f.InMonth? && 1 <= f.month <= 12
  {
    var p := PrevMonth(y, m);
    InMonth(p.0, p.1)
  }

  /** The month before ends the day before month `m` of year `y` begins. */
  lemma PriorMonthAdjacent(y: int, m: int)
    requires 1 <= m <= 12
    ensures var f := PriorMonth(y, m);
            ToOrdinal(Civil(f.year, f.month, DaysInMonth(f.year, f.month))) + 1 == ToOrdinal(Civil(y, m, 1))
  {
    PrevMonthAdjacent(y, m);
  }

  /** The rows of the calendar month before the month of `d`. */
  function MonthBefore(d: Date): (f: DateFilter)
    ensures f.InMonth? && 1 <= f.month <= 12
  {
    PriorMonth(YearOf(d), MonthOf(d))
  }

  /** A row of the month before lies before the first of `asOf`'s month, at most 61 days before `asOf`. */
  lemma MonthBeforeRange(asOf: Date, d: Date)
    requires Holds(MonthBefore(asOf), d)
    ensures d < ToOrdinal(Civil(YearOf(asOf), MonthOf(asOf), 1)) <= asOf
    ensures asOf - d <= 61
  {
    var f := MonthBefore(asOf);
    PriorMonthAdjacent(YearOf(asOf), MonthOf(asOf));
    InMonthRange(d, f.year, f.month);
    InMonthRange(asOf, YearOf(asOf), MonthOf(asOf));
    AdjacentMonthsGap(asOf, d, YearOf(asOf), MonthOf(asOf), f.year, f.month);
  }

  /** A day of one month and a day of the month right after it are at most 61 days apart. */
  lemma AdjacentMonthsGap(later: Date, d: Date, y: int, m: int, py: int, pm: int)
    requires 1 <= m <= 12 && 1 <= pm <= 12
    requires ToOrdinal(Civil(py, pm, DaysInMonth(py, pm))) + 1 == ToOrdinal(Civil(y, m, 1))
    requires ToOrdinal(Civil(py, pm, 1)) <= d <= ToOrdinal(Civil(py, pm, DaysInMonth(py, pm)))
    requires ToOrdinal(Civil(y, m, 1)) <= later <= ToOrdinal(Civil(y, m, DaysInMonth(y, m)))
    ensures d < ToOrdinal(Civil(y, m, 1)) <= later
    ensures later - d <= 61
  {
  }

  /**
   `calcular_rentabilidad_mtd(precios, fecha_actual)`: the last price over
   the last price of the month before `fecha_actual`'s month; NaN when that
   month has no price or its last price is zero.
   */
  function Mtd(s: Series, asOf: Date): (r: Cell)
    ensures r != Dash
    ensures r.NaN? <==> Count(s, MonthBefore(asOf)) == 0
                        || exists k :: IsLastIn(s, MonthBefore(asOf), k) && s[k].price == 0.0
    ensures r.Num? ==> exists k :: (IsLastIn(s, MonthBefore(asOf), k) && s[k].price != 0.0
                                    && Grown(s[k].price, r.value) == Last(s).price)
  {
    OverLastIn(s, MonthBefore(asOf))
  }

  /**
   The last price over the last price the filter selects; NaN when the filter
   selects nothing or that price is zero.
   */
  function OverLastIn(s: Series, before: DateFilter): (r: Cell)
    ensures r != Dash
    ensures r.NaN? <==> Count(s, before) == 0 || exists k :: IsLastIn(s, before, k) && s[k].price == 0.0
    ensures r.Num? ==> exists k :: (IsLastIn(s, before, k) && s[k].price != 0.0
                                    && Grown(s[k].price, r.value) == Last(s).price)
  {
    LastIndexFinds(s, before);
    OverBase(s, LastIndex(s, before), if |s| > 0 then Last(s).price else 0.0)
  }

  // ---------------------------------------------------------------------------
  // Year-to-date and calendar years
  // ---------------------------------------------------------------------------

  /**
   `calcular_rentabilidad_ytd_mejorado(precios, fecha_actual)`: the last
   price over the last price of the year before `fecha_actual`'s year; NaN
   when that year has no price or its last price is zero.
   */
  function YtdImproved(s: Series, asOf: Date): (r: Cell)
    ensures r != Dash
    ensures r.NaN? <==> Count(s, InYear(YearOf(asOf) - 1)) == 0
                        || exists k :: IsLastIn(s, InYear(YearOf(asOf) - 1), k) && s[k].price == 0.0
    ensures r.Num? ==> exists k :: (IsLastIn(s, InYear(YearOf(asOf) - 1), k) && s[k].price != 0.0
                                    && Grown(s[k].price, r.value) == Last(s).price)
  {
    OverLastIn(s, InYear(YearOf(asOf) - 1))
  }

  /**
   When the fund's last price falls in `asOf`'s year, the report's YTD is the
   dashboard's YTD (`calcular_rentabilidad_ytd` of Pagina.py).
   */
  lemma YtdImprovedMatchesYtd(s: Series, asOf: Date)
    requires Positive(s) && |s| > 0
    requires YearOf(Last(s).date) == YearOf(asOf)
    ensures YtdImproved(s, asOf) == YtdReturn(s, Last(s).price)
  {
    YtdImprovedOverLastPrice(s, asOf);
  }

  /**
   The two disagree once the fund has stopped before the table's year: a fund
   priced 1 in year `y - 1` and last priced 2 in year `y` (say on December 31
   of both), in a table that reaches year `y + 1`, shows 0 in the report and
   100 on the dashboard.
   */
  lemma YtdImprovedFollowsTableDate(s: Series, a: Date, b: Date, asOf: Date)
    requires s == [Obs(a, 1.0), Obs(b, 2.0)]
    requires YearOf(a) + 1 == YearOf(b) && YearOf(b) + 1 == YearOf(asOf)
    ensures YtdImproved(s, asOf) == Num(0.0)
    ensures Positive(s) && YtdReturn(s, 2.0) == Num(100.0)
  {
    YtdImprovedAt(s, a, b, asOf);
    YtdReturnAt(s, a, b);
  }

  lemma YtdImprovedAt(s: Series, a: Date, b: Date, asOf: Date)
    requires s == [Obs(a, 1.0), Obs(b, 2.0)]
    requires YearOf(b) + 1 == YearOf(asOf)
    ensures YtdImproved(s, asOf) == Num(0.0)
  {
    LastIndexIs(s, InYear(YearOf(b)), 1);
    assert YtdImproved(s, asOf) == OverBase(s, Some(1), 2.0);
  }

  lemma YtdReturnAt(s: Series, a: Date, b: Date)
    requires s == [Obs(a, 1.0), Obs(b, 2.0)]
    requires YearOf(a) + 1 == YearOf(b)
    ensures Positive(s) && YtdReturn(s, 2.0) == Num(100.0)
  {
    assert Positive(s) && |s| > 0 && Last(s).date == b;
    assert IsLastIn(s, InYear(YearOf(a)), 0);
    YtdReturnFrom(s, 2.0, 0);
  }

  /** With the last row of the year before located, the dashboard's YTD is measured from it. */
  lemma YtdReturnFrom(s: Series, current: real, k: int)
    requires Positive(s) && |s| > 0 && IsLastIn(s, InYear(YearOf(Last(s).date) - 1), k)
    ensures YtdReturn(s, current) == Num(SimpleReturn(current, s[k].price))
  {
    LastIndexIs(s, InYear(YearOf(Last(s).date) - 1), k);
  }

  /**
   `calcular_rentabilidad_año_especifico(precios, año)`: the last price of
   year `y` over the last price of year `y - 1`; NaN when either year has no
   price or the base price is zero.
   */
  function SpecificYear(s: Series, y: int): (r: Cell)
    ensures r != Dash
    ensures r.NaN? <==> Count(s, InYear(y - 1)) == 0 || Count(s, InYear(y)) == 0
                        || exists i :: IsLastIn(s, InYear(y - 1), i) && s[i].price == 0.0
    ensures r.Num? ==> exists i, j :: (IsLastIn(s, InYear(y - 1), i) && IsLastIn(s, InYear(y), j)
                                       && s[i].price != 0.0 && Grown(s[i].price, r.value) == s[j].price)
  {
    LastOverLast(s, InYear(y - 1), InYear(y))
  }

  /**
   The shape shared by the calendar-year and calendar-month returns: the last
   price of one period over the last price of the period before it; NaN when
   either period has no price or the base price is zero.
   */
  function LastOverLast(s: Series, before: DateFilter, period: DateFilter): (r: Cell)
    ensures r != Dash
    ensures r.NaN? <==> Count(s, before) == 0 || Count(s, period) == 0
                        || exists i :: IsLastIn(s, before, i) && s[i].price == 0.0
    ensures r.Num? ==> exists i, j :: (IsLastIn(s, before, i) && IsLastIn(s, period, j)
                                       && s[i].price != 0.0 && Grown(s[i].price, r.value) == s[j].price)
  {
    LastIndexFinds(s, before);
    LastIndexFinds(s, period);
    var base := LastIndex(s, before);
    var end := LastIndex(s, period);
    if base.None? || end.None? then NaN else OverBase(s, base, s[end.value].price)
  }

  /** For the year the fund's last price falls in, the calendar-year return is the YTD return. */
  lemma SpecificYearOfLastYear(s: Series, asOf: Date)
    requires |s| > 0 && YearOf(Last(s).date) == YearOf(asOf)
    ensures SpecificYear(s, YearOf(asOf)) == YtdImproved(s, asOf)
  {
    SpecificYearAtLast(s, YearOf(asOf));
    YtdImprovedOverLastPrice(s, asOf);
  }

  lemma SpecificYearAtLast(s: Series, y: int)
    requires |s| > 0 && Holds(InYear(y), Last(s).date)
    ensures SpecificYear(s, y) == OverBase(s, LastIndex(s, InYear(y - 1)), Last(s).price)
  {
    LastOverLastAtLast(s, InYear(y - 1), InYear(y));
  }

  lemma YtdImprovedOverLastPrice(s: Series, asOf: Date)
    requires |s| > 0
    ensures YtdImproved(s, asOf) == OverBase(s, LastIndex(s, InYear(YearOf(asOf) - 1)), Last(s).price)
  {
  }

  /** With both last rows located, the return is the later one over the earlier one. */
  lemma LastOverLastAt(s: Series, before: DateFilter, period: DateFilter, i: int, j: int)
    requires IsLastIn(s, before, i) && IsLastIn(s, period, j)
    ensures LastOverLast(s, before, period) == OverBase(s, Some(i), s[j].price)
  {
    LastIndexIs(s, before, i);
    LastIndexIs(s, period, j);
  }

  /** When the last price falls in the period, the period's return runs to the last price. */
  lemma LastOverLastAtLast(s: Series, before: DateFilter, period: DateFilter)
    requires |s| > 0 && Holds(period, Last(s).date)
    ensures LastOverLast(s, before, period) == OverBase(s, LastIndex(s, before), Last(s).price)
  {
    LastIndexIs(s, period, |s| - 1);
  }

  /**
   The report measures a year from the previous year's last price, the
   dashboard's per-year table from the year's own first price: with prices 1
   in year `y - 1` and 2 on January 1 and later in `y` (say December 31 of
   `y - 1`, January 1 and December 31 of `y`), the report shows 100 and the
   dashboard 0.
   */
  lemma SpecificYearDiffersFromCalendarYear(s: Series, a: Date, b: Date, c: Date, y: int)
    requires s == [Obs(a, 1.0), Obs(b, 2.0), Obs(c, 2.0)]
    requires a < b < c && b == JanFirst(y)
    requires YearOf(a) == y - 1 && YearOf(b) == y && YearOf(c) == y
    ensures Sorted(s) && Positive(s)
    ensures SpecificYear(s, y) == Num(100.0)
    ensures CalendarYearCell(s, y) == Num(0.0)
  {
    SpecificYearAt(s, a, b, c, y);
    CalendarYearAt(s, a, b, c, y);
  }

  lemma SpecificYearAt(s: Series, a: Date, b: Date, c: Date, y: int)
    requires s == [Obs(a, 1.0), Obs(b, 2.0), Obs(c, 2.0)]
    requires YearOf(a) == y - 1 && YearOf(b) == y && YearOf(c) == y
    ensures SpecificYear(s, y) == Num(100.0)
  {
    LastOfEachYear(s, a, b, c, y);
    LastOverLastAt(s, InYear(y - 1), InYear(y), 0, 2);
  }

  lemma LastOfEachYear(s: Series, a: Date, b: Date, c: Date, y: int)
    requires s == [Obs(a, 1.0), Obs(b, 2.0), Obs(c, 2.0)]
    requires YearOf(a) == y - 1 && YearOf(b) == y && YearOf(c) == y
    ensures IsLastIn(s, InYear(y - 1), 0) && IsLastIn(s, InYear(y), 2)
  {
  }

  lemma CalendarYearAt(s: Series, a: Date, b: Date, c: Date, y: int)
    requires s == [Obs(a, 1.0), Obs(b, 2.0), Obs(c, 2.0)]
    requires a < b < c && b == JanFirst(y)
    requires YearOf(a) == y - 1 && YearOf(b) == y && YearOf(c) == y
    ensures Sorted(s) && Positive(s)
    ensures CalendarYearCell(s, y) == Num(0.0)
  {
    assert Sorted(s) && Positive(s);
    LastIndexIs(s, InYear(y), 2);
    FirstIndexIs(s, InYear(y), 1);
    CountAtLeastTwo(s, InYear(y), 1, 2);
    assert CalendarYearCell(s, y) == Num(SimpleReturn(2.0, 2.0));
  }

  // ---------------------------------------------------------------------------
  // Annualized returns over exactly N years
  // ---------------------------------------------------------------------------

  /** `fecha_final - timedelta(days = n * 365.25)`. */
  function YearsBack(s: Series, n: nat): real
    requires |s| > 0
  {
    Last(s).date as real - n as real * DaysPerYear
  }

  /**
   `calcular_rentabilidad_anualizada_con_validacion(precios, n)`: NaN with
   fewer than two prices or less than `n` years of history; otherwise the
   growth from the first price on or after `n` years before the last date to
   the last price, annualized over exactly `n` years (NaN when that base is
   zero, or when `n` is 0 and `1 / n` raises).
   */
  function AnnualizedValidated(s: Series, n: nat, pow: (real, real) -> real): (r: Cell)
    requires Sorted(s)
    ensures r != Dash
    ensures r.NaN? <==> (|s| < 2 || 4 * (Last(s).date - s[0].date) < 1461 * n || n == 0
                         || exists k :: IsFirstIn(s, Since(YearsBack(s, n)), k) && s[k].price == 0.0)
    ensures r.Num? ==> |s| >= 2 && exists k :: (IsFirstIn(s, Since(YearsBack(s, n)), k) && s[k].price != 0.0
                         && r.value == Annualize(Last(s).price / s[k].price, n as real, pow))
  {
    if |s| < 2 then NaN
    else if Years(Last(s).date - s[0].date) < n as real then NaN
    else
      var f := Since(YearsBack(s, n));
      assert Holds(f, Last(s).date);
      var k := FirstIndex(s, f).value;
      FirstIndexIs(s, f, k);
      if s[k].price == 0.0 || n == 0 then NaN
      else Num(Annualize(Last(s).price / s[k].price, n as real, pow))
  }

  /** On a table series the zero-price guard never fires: only history length and `n` decide. */
  lemma AnnualizedValidatedGate(s: Series, n: nat, pow: (real, real) -> real)
    requires Sorted(s) && Positive(s)
    ensures AnnualizedValidated(s, n, pow).NaN?
            <==> (|s| < 2 || 4 * (Last(s).date - s[0].date) < 1461 * n || n == 0)
  {
  }

  /** A fund with `n` years of history also has every shorter horizon. */
  lemma AnnualizedValidatedShorter(s: Series, n: nat, m: nat, pow: (real, real) -> real)
    requires Sorted(s) && Positive(s) && 0 < m <= n
    requires AnnualizedValidated(s, n, pow).Num?
    ensures AnnualizedValidated(s, m, pow).Num?
  {
    AnnualizedValidatedGate(s, n, pow);
    AnnualizedValidatedGate(s, m, pow);
  }

  /**
   When the history spans exactly `n` years the window starts at the first
   price, and the figure is the inception-to-date return of the dashboard.
   */
  lemma AnnualizedValidatedAtExactHistory(s: Series, n: nat, pow: (real, real) -> real)
    requires Sorted(s) && Positive(s) && |s| >= 2 && n > 0
    requires 4 * (Last(s).date - s[0].date) == 1461 * n
    ensures AnnualizedValidated(s, n, pow) == Num(Itd(s, pow))
  {
    var f := Since(YearsBack(s, n));
    assert YearsBack(s, n) == s[0].date as real;
    FirstIndexIs(s, f, 0);
    assert Years(Last(s).date - s[0].date) == n as real;
  }

  // ---------------------------------------------------------------------------
  // The report table (calcular_rentabilidades_completas_pdf)
  // ---------------------------------------------------------------------------

  /** `obtener_años_automaticos(fecha_actual)`: the two calendar years before `fecha_actual`'s, latest first. */
  function AutoYears(asOf: Date): (r: (int, int))
    ensures DecLast(r.0) + 1 == JanFirst(YearOf(asOf))
    ensures DecLast(r.1) + 1 == JanFirst(r.0)
    ensures DecLast(r.0) < asOf
  {
    var y := YearOf(asOf);
    YearEnds(y - 1);
    YearEnds(y - 2);
    YearOfRange(asOf, y);
    (y - 1, y - 2)
  }

  /** The `f'Año {año}'` column name. */
  function YearColumn(y: int): (text: string)
    ensures |text| > 4 && text[..4] == "Año " && text[0] == 'A'
  {
    "Año " + IntToString(y)
  }

  /** Different years get different column labels. */
  lemma YearColumnInjective(a: int, b: int)
    requires YearColumn(a) == YearColumn(b)
    ensures a == b
  {
    assert IntToString(a) == YearColumn(a)[4..] == YearColumn(b)[4..] == IntToString(b);
    IntToStringInjective(a, b);
  }

  /** The keys of a report row, in the order the row dict is built. */
  function ReportColumns(asOf: Date): (cols: seq<string>)
    ensures |cols| == 14
    ensures Distinct(cols)
  {
    var years := AutoYears(asOf);
    var cols := ["Fondo", "Serie", "Valor Cuota", "TAC", "Diaria", "1 Mes", "3 Meses", "12 Meses", "MTD", "YTD",
                 YearColumn(years.0), YearColumn(years.1), "3 Años*", "5 Años**"];
    ReportColumnsDistinct(cols, years.0, years.1);
    cols
  }

  lemma ReportColumnsDistinct(cols: seq<string>, a: int, b: int)
    requires a != b
    requires cols == ["Fondo", "Serie", "Valor Cuota", "TAC", "Diaria", "1 Mes", "3 Meses", "12 Meses", "MTD", "YTD",
                      YearColumn(a), YearColumn(b), "3 Años*", "5 Años**"]
    ensures Distinct(cols)
  {
    var fixed := ["Fondo", "Serie", "Valor Cuota", "TAC", "Diaria", "1 Mes", "3 Meses", "12 Meses", "MTD", "YTD",
                  "3 Años*", "5 Años**"];
    FixedColumnsDistinct(fixed);
    assert YearColumn(a) != YearColumn(b) by {
      if YearColumn(a) == YearColumn(b) { YearColumnInjective(a, b); }
    }
    assert cols == fixed[..10] + [YearColumn(a), YearColumn(b)] + fixed[10..];
    InsertTwoDistinct(fixed, YearColumn(a), YearColumn(b), 10, cols);
  }

  /** The report's fixed column names differ in length, first or third character. */
  lemma FixedColumnsDistinct(fixed: seq<string>)
    requires fixed == ["Fondo", "Serie", "Valor Cuota", "TAC", "Diaria", "1 Mes", "3 Meses", "12 Meses", "MTD", "YTD",
                       "3 Años*", "5 Años**"]
    ensures Distinct(fixed)
    ensures forall i :: 0 <= i < |fixed| ==> |fixed[i]| > 0 && fixed[i][0] != 'A'
  {
    forall i, j | 0 <= i < j < |fixed| ensures fixed[i] != fixed[j] {
      assert |fixed[i]| != |fixed[j]| || fixed[i][0] != fixed[j][0] || fixed[i][2] != fixed[j][2];
    }
  }

  /** One row of the report, before rounding; the TAC column is a random placeholder and is not modelled. */
  datatype ReportRow = ReportRow(
    fund: string, serie: string, price: real,
    daily: Cell, month1: Cell, month3: Cell, month12: Cell, mtd: Cell, ytd: Cell,
    yearA: Cell, yearB: Cell, year3: Cell, year5: Cell)

  predicate NoDash(row: ReportRow) {
    && row.daily != Dash && row.month1 != Dash && row.month3 != Dash && row.month12 != Dash
    && row.mtd != Dash && row.ytd != Dash && row.yearA != Dash && row.yearB != Dash
    && row.year3 != Dash && row.year5 != Dash
  }

  /**
   The row of one fund: the 1/3/12-month cells are the dashboard's period
   return (`calcular_rentabilidad_periodo`, the same code in both files)
   with no validator; the other cells are the formulas above, measured from
   the table date `asOf`.
   */
  function ReportRowOf(name: string, s: Series, asOf: Date, pow: (real, real) -> real): (row: ReportRow)
    requires Sorted(s) && Positive(s) && |s| > 0
    ensures (row.fund, row.serie) == DisplaySplit(name)
    ensures row.price == Last(s).price
    ensures NoDash(row)
    ensures row.month1.Num? && row.month3.Num? && row.month12.Num?
    ensures row.daily.NaN? <==> |s| == 1
    ensures row.month1 == PeriodReturn(s, 30, row.price) && row.month3 == PeriodReturn(s, 90, row.price)
    ensures row.month12 == PeriodReturn(s, 365, row.price)
    ensures row.mtd == Mtd(s, asOf) && row.ytd == YtdImproved(s, asOf)
    ensures row.yearA == SpecificYear(s, YearOf(asOf) - 1) && row.yearB == SpecificYear(s, YearOf(asOf) - 2)
    ensures row.year3 == AnnualizedValidated(s, 3, pow) && row.year5 == AnnualizedValidated(s, 5, pow)
  {
    var current := Last(s).price;
    PeriodReturnNumeric(s, 30, current);
    PeriodReturnNumeric(s, 90, current);
    PeriodReturnNumeric(s, 365, current);
    var years := AutoYears(asOf);
    var split := DisplaySplit(name);
    ReportRow(split.0, split.1, current,
      Daily(s), PeriodReturn(s, 30, current), PeriodReturn(s, 90, current), PeriodReturn(s, 365, current),
      Mtd(s, asOf), YtdImproved(s, asOf), SpecificYear(s, years.0), SpecificYear(s, years.1),
      AnnualizedValidated(s, 3, pow), AnnualizedValidated(s, 5, pow))
  }

  /** The live report: one row per kept code, in selection order, every fund measured from the table's latest date. */
  function ReportLive(t: Table, codes: seq<string>, names: seq<string>, pow: (real, real) -> real): (rows: seq<ReportRow>)
    requires WellFormed(t)
    ensures |rows| == |KeptIndices(t, codes, names)|
    ensures forall k :: 0 <= k < |rows| ==>
              var i := KeptIndices(t, codes, names)[k];
              rows[k] == ReportRowOf(names[i], KeptSeries(t, codes, i), TableMax(t), pow)
  {
    var kept := KeptIndices(t, codes, names);
    seq(|kept|, k requires 0 <= k < |kept| =>
      ReportRowOf(names[kept[k]], KeptSeries(t, codes, kept[k]), TableMax(t), pow))
  }
}
