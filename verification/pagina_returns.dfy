/**
 The return formulas and the history validators of the dashboard (Pagina.py).

 Every formula reads a fund's series by position after a date filter; the
 validators decide whether a table cell is computed at all or shows `"-"`.
 The fractional power `x ** e` is a parameter `pow`: the model states which
 base and exponent each formula feeds it, not how a float power is rounded.
 */
module PaginaReturns {
  import opened Wrappers
  import opened Calendar
  import opened Series

  /** Days per year in every annualization and every "N years of history" test. */
  const DaysPerYear: real := 365.25

  /** `dias / 365.25`. */
  function Years(days: int): (r: real)
    ensures r * DaysPerYear == days as real
    ensures r > 0.0 <==> days > 0
  {
    days as real / DaysPerYear
  }

  /** `((growth ** (1 / years)) - 1) * 100`. */
  function Annualize(growth: real, years: real, pow: (real, real) -> real): real
    requires years > 0.0
  {
    (pow(growth, 1.0 / years) - 1.0) * 100.0
  }

  /** The annualized return from observation `i` to observation `j`. */
  function AnnualizedBetween(s: Series, i: nat, j: nat, pow: (real, real) -> real): real
    requires Sorted(s) && Positive(s) && i < j < |s|
  {
    Annualize(s[j].price / s[i].price, Years(s[j].date - s[i].date), pow)
  }

  /** The date the validators measure from: the given date, or the series' last date. */
  function Reference(s: Series, asOf: Option<Date>): Date
    requires |s| > 0
  {
    if asOf.Some? then asOf.value else Last(s).date
  }

  // ---------------------------------------------------------------------------
  // Validators
  // ---------------------------------------------------------------------------

  /**
   `validar_periodo_disponible(precios, periodo_dias, fecha_actual)`: the
   series starts on or before `fecha_actual - periodo_dias`.
   */
  function PeriodAvailable(s: Series, days: int, asOf: Option<Date>): (r: bool)
    requires Sorted(s)
    ensures r <==> |s| > 0 && exists i :: 0 <= i < |s| && s[i].date <= Reference(s, asOf) - days
  {
    |s| > 0 && s[0].date <= Reference(s, asOf) - days
  }

  /** A window that is available stays available when shortened. */
  lemma PeriodAvailableShorter(s: Series, long: int, short: int, asOf: Option<Date>)
    requires Sorted(s)
    requires short <= long && PeriodAvailable(s, long, asOf)
    ensures PeriodAvailable(s, short, asOf)
  {
    var i :| 0 <= i < |s| && s[i].date <= Reference(s, asOf) - long;
    assert s[i].date <= Reference(s, asOf) - short;
  }

  /**
   `validar_periodo_ytd(precios, fecha_actual)`: the series has an
   observation in the year before `fecha_actual`'s year.
   */
  function YtdAvailable(s: Series, asOf: Option<Date>): (r: bool)
    ensures r <==> |s| > 0 && exists i :: 0 <= i < |s| && YearOf(s[i].date) == YearOf(Reference(s, asOf)) - 1
  {
    |s| > 0 && Count(s, InYear(YearOf(Reference(s, asOf)) - 1)) > 0
  }

  /** The YTD validator in calendar terms: an observation between January 1 and December 31 of the previous year. */
  lemma YtdAvailableInDates(s: Series, asOf: Option<Date>)
    requires |s| > 0
    ensures var y := YearOf(Reference(s, asOf)) - 1;
            YtdAvailable(s, asOf) <==> exists i :: 0 <= i < |s| && JanFirst(y) <= s[i].date <= DecLast(y)
  {
    var y := YearOf(Reference(s, asOf)) - 1;
    forall i | 0 <= i < |s| {
      YearOfRange(s[i].date, y);
    }
  }

  // ---------------------------------------------------------------------------
  // Formulas
  // ---------------------------------------------------------------------------

  /** The lower bound of the trailing window of `days` days ending at the last observation. */
  function WindowStart(s: Series, days: int): real
    requires |s| > 0
  {
    (Last(s).date - days) as real
  }

  /**
   `calcular_rentabilidad_periodo(precios, dias, precio_actual)`: the simple
   return of `precio_actual` over the first price on or after
   `max(Dates) - dias`; NaN when no such price exists.
   */
  function PeriodReturn(s: Series, days: int, current: real): (r: Cell)
    requires Sorted(s) && Positive(s)
    ensures r != Dash
    ensures r.NaN? <==> |s| == 0 || forall j :: 0 <= j < |s| ==> !Holds(Since(WindowStart(s, days)), s[j].date)
    ensures r.Num? ==> exists k :: IsFirstIn(s, Since(WindowStart(s, days)), k) && r.value == SimpleReturn(current, s[k].price)
  {
    if |s| == 0 then NaN
    else
      match FirstIndex(s, Since(WindowStart(s, days)))
      case None => NaN
      case Some(k) => Num(SimpleReturn(current, s[k].price))
  }

  /** A window of non-negative length always contains the last observation, so the return is a number. */
  lemma PeriodReturnNumeric(s: Series, days: int, current: real)
    requires Sorted(s) && Positive(s) && |s| > 0 && days >= 0
    ensures PeriodReturn(s, days, current).Num?
  {
    assert Holds(Since(WindowStart(s, days)), Last(s).date);
  }

  /** A window of zero days starts at the last observation: the return of the last price is 0. */
  lemma PeriodReturnEmptyWindow(s: Series)
    requires Sorted(s) && Positive(s) && |s| > 0
    ensures PeriodReturn(s, 0, Last(s).price) == Num(0.0)
  {
    var lo := WindowStart(s, 0);
    assert Holds(Since(lo), Last(s).date);
    assert forall j :: 0 <= j < |s| - 1 ==> !Holds(Since(lo), s[j].date);
    assert FirstIndex(s, Since(lo)) == Some(|s| - 1);
    assert Last(s).price > 0.0;
    DivSelf(Last(s).price);
  }

  lemma DivSelf(x: real)
    requires x != 0.0
    ensures x / x == 1.0
  {
  }

  /**
   `calcular_rentabilidad_ytd(precios, precio_actual)`: the simple return of
   `precio_actual` over the LAST price of the year before the series' own
   last year; NaN when that year has no price.
   */
  function YtdReturn(s: Series, current: real): (r: Cell)
    requires Positive(s)
    ensures r != Dash
    ensures r.NaN? <==> |s| == 0 || forall j :: 0 <= j < |s| ==> YearOf(s[j].date) != YearOf(Last(s).date) - 1
    ensures r.Num? ==> exists k :: IsLastIn(s, InYear(YearOf(Last(s).date) - 1), k) && r.value == SimpleReturn(current, s[k].price)
  {
    if |s| == 0 then NaN
    else
      match LastIndex(s, InYear(YearOf(Last(s).date) - 1))
      case None => NaN
      case Some(k) => Num(SimpleReturn(current, s[k].price))
  }

  /**
   `calcular_rentabilidad_anualizada_periodo(precios, dias)`: over the rows on
   or after `max(Dates) - dias`, the first and last prices annualized over the
   years between them; NaN with fewer than two such rows.
   */
  function AnnualizedPeriod(s: Series, days: int, pow: (real, real) -> real): (r: Cell)
    requires Sorted(s) && Positive(s)
    ensures r != Dash
    ensures |s| == 0 ==> r == NaN
    ensures |s| > 0 ==> (r.Num? <==> Count(s, Since(WindowStart(s, days))) >= 2)
    ensures r.Num? ==> |s| > 0 && exists i, j :: (i < j
              && IsFirstIn(s, Since(WindowStart(s, days)), i) && IsLastIn(s, Since(WindowStart(s, days)), j)
              && r.value == AnnualizedBetween(s, i, j, pow))
  {
    if |s| == 0 then NaN
    else
      var f := Since(WindowStart(s, days));
      if Count(s, f) > 1 then
        CountTwoApart(s, f);
        var i, j := FirstIndex(s, f).value, LastIndex(s, f).value;
        Num(AnnualizedBetween(s, i, j, pow))
      else NaN
  }

  /**
   The inception-to-date figure of `calcular_rentabilidades_anualizadas`:
   the whole history annualized, or 0 when the history spans no time.
   */
  function Itd(s: Series, pow: (real, real) -> real): (r: real)
    requires Sorted(s) && Positive(s) && |s| > 0
    ensures |s| == 1 ==> r == 0.0
    ensures |s| > 1 ==> r == AnnualizedBetween(s, 0, |s| - 1, pow)
  {
    var span := Last(s).date - s[0].date;
    if Years(span) > 0.0 then Annualize(Last(s).price / s[0].price, Years(span), pow) else 0.0
  }

  /** `Años Historial` before rounding: the years between the first and the last observation. */
  function HistoryYears(s: Series): (r: real)
    requires Sorted(s) && |s| > 0
    ensures r >= 0.0
    ensures r == 0.0 <==> |s| == 1
    ensures r * DaysPerYear == (Last(s).date - s[0].date) as real
  {
    Years(Last(s).date - s[0].date)
  }

  /**
   With two or more observations and a window reaching back to the first one,
   the windowed annualized return is the inception-to-date figure.
   */
  lemma WholeWindowIsItd(s: Series, days: int, pow: (real, real) -> real)
    requires Sorted(s) && Positive(s) && |s| >= 2
    requires Last(s).date - days <= s[0].date
    ensures AnnualizedPeriod(s, days, pow) == Num(Itd(s, pow))
  {
    var f := Since(WindowStart(s, days));
    assert forall j :: 0 <= j < |s| ==> Holds(f, s[j].date);
    assert Count(s, f) == |s|;
    assert FirstIndex(s, f) == Some(0);
    assert LastIndex(s, f) == Some(|s| - 1);
    assert s[0].date < Last(s).date;
  }

  /**
   The cell of year `y` in `calcular_rentabilidades_por_año`: `"-"` when the
   fund starts after January 1 of `y` or has fewer than two prices in `y`,
   otherwise the return from the year's first to its last price.
   */
  function CalendarYearCell(s: Series, y: int): (r: Cell)
    requires Sorted(s) && Positive(s) && |s| > 0
    ensures r != NaN
    ensures r == Dash <==> s[0].date > JanFirst(y) || Count(s, InYear(y)) < 2
    ensures r.Num? ==> exists i, j :: (i < j && IsFirstIn(s, InYear(y), i) && IsLastIn(s, InYear(y), j)
              && r.value == SimpleReturn(s[j].price, s[i].price))
  {
    if s[0].date <= JanFirst(y) then FirstToLast(s, InYear(y)) else Dash
  }

  /** The return from the first to the last filtered price; `"-"` with fewer than two of them. */
  function FirstToLast(s: Series, f: DateFilter): (r: Cell)
    requires Positive(s)
    ensures r != NaN
    ensures r == Dash <==> Count(s, f) < 2
    ensures r.Num? ==> exists i, j :: (i < j && IsFirstIn(s, f, i) && IsLastIn(s, f, j)
              && r.value == SimpleReturn(s[j].price, s[i].price))
  {
    if Count(s, f) > 1 then
      CountTwoApart(s, f);
      var i, j := FirstIndex(s, f).value, LastIndex(s, f).value;
      assert IsFirstIn(s, f, i) && IsLastIn(s, f, j);
      Num(SimpleReturn(s[j].price, s[i].price))
    else Dash
  }

  /** A fund that starts after January 1 shows `"-"` for that year and every earlier one. */
  lemma CalendarYearBeforeStart(s: Series, y: int)
    requires Sorted(s) && Positive(s) && |s| > 0
    requires y <= YearOf(s[0].date) && s[0].date != JanFirst(y)
    ensures CalendarYearCell(s, y) == Dash
  {
    YearOfRange(s[0].date, YearOf(s[0].date));
    if y < YearOf(s[0].date) {
      YearOfRange(s[0].date, y);
      YearLength(y);
      YearStartsIncrease(y, YearOf(s[0].date));
    }
  }
}
