/**
 The three return tables of the dashboard (Pagina.py): cumulative returns,
 annualized returns and returns per calendar year.

 Each builder walks `zip(codes, names)` and emits one row for every code that
 is a column of the currency's table and has at least one price
 (`KeptIndices`). The fund and series shown come from splitting the display
 name. A cell gated by a validator shows `"-"` when the history is too short
 and otherwise holds the formula's value. Before any of that, the builder asks
 the precomputed cache (`Dispatch.WithFallback`).
 */
module PaginaTables {
  import opened Wrappers
  import opened Calendar
  import opened Text
  import opened Currencies
  import opened Series
  import opened Names
  import opened PaginaReturns
  import opened Dispatch

  // ---------------------------------------------------------------------------
  // Cumulative returns (calcular_rentabilidades)
  // ---------------------------------------------------------------------------

  /** A cumulative cell: `"-"` unless the validator accepts the window, then the period return. */
  function GatedPeriod(s: Series, days: int, asOf: Date): (c: Cell)
    requires Sorted(s) && Positive(s) && |s| > 0
    requires days >= 0
    ensures c == Dash <==> s[0].date > asOf - days
    ensures c != NaN
    ensures c.Num? ==> exists k :: (IsFirstIn(s, Since(WindowStart(s, days)), k)
              && c.value == SimpleReturn(Last(s).price, s[k].price))
  {
    if PeriodAvailable(s, days, Some(asOf)) then
      PeriodReturnNumeric(s, days, Last(s).price);
      PeriodReturn(s, days, Last(s).price)
    else Dash
  }

  /** The YTD cell: `"-"` unless the YTD validator accepts, then the YTD return (which may still be NaN). */
  function GatedYtd(s: Series, asOf: Date): (c: Cell)
    requires Sorted(s) && Positive(s) && |s| > 0
    ensures c == Dash <==> !YtdAvailable(s, Some(asOf))
    ensures c.NaN? <==> (YtdAvailable(s, Some(asOf))
              && forall j :: 0 <= j < |s| ==> YearOf(s[j].date) != YearOf(Last(s).date) - 1)
    ensures c.Num? ==> exists k :: (IsLastIn(s, InYear(YearOf(Last(s).date) - 1), k)
              && c.value == SimpleReturn(Last(s).price, s[k].price))
  {
    if YtdAvailable(s, Some(asOf)) then YtdReturn(s, Last(s).price) else Dash
  }

  /** One row of the cumulative table (the TAC column is a random placeholder and is not modelled). */
  datatype CumulativeRow = CumulativeRow(
    fund: string, serie: string,
    month1: Cell, month3: Cell, month12: Cell, ytd: Cell, year3: Cell, year5: Cell)

  /** The row of one fund, measured against the table's last date `asOf`. */
  function CumulativeRowOf(name: string, s: Series, asOf: Date): (row: CumulativeRow)
    requires Sorted(s) && Positive(s) && |s| > 0
    ensures (row.fund, row.serie) == DisplaySplit(name)
    ensures row.month1 == GatedPeriod(s, 30, asOf) && row.month3 == GatedPeriod(s, 90, asOf)
    ensures row.month12 == GatedPeriod(s, 365, asOf)
    ensures row.year3 == GatedPeriod(s, 1095, asOf) && row.year5 == GatedPeriod(s, 1825, asOf)
    ensures row.ytd == GatedYtd(s, asOf)
    // A longer window shows a number only when every shorter one does.
    ensures row.year5 != Dash ==> row.year3 != Dash
    ensures row.year3 != Dash ==> row.month12 != Dash
    ensures row.month12 != Dash ==> row.month3 != Dash
    ensures row.month3 != Dash ==> row.month1 != Dash
  {
    var (fund, serie) := DisplaySplit(name);
    CumulativeRow(fund, serie,
      GatedPeriod(s, 30, asOf), GatedPeriod(s, 90, asOf), GatedPeriod(s, 365, asOf),
      GatedYtd(s, asOf), GatedPeriod(s, 1095, asOf), GatedPeriod(s, 1825, asOf))
  }

  /** The fixed windows never show NaN: only the YTD column can. */
  lemma CumulativeOnlyYtdIsNaN(name: string, s: Series, asOf: Date)
    requires Sorted(s) && Positive(s) && |s| > 0
    ensures var row := CumulativeRowOf(name, s, asOf);
            row.month1 != NaN && row.month3 != NaN && row.month12 != NaN && row.year3 != NaN && row.year5 != NaN
  {
  }

  /**
   The YTD cell can be NaN: a fund whose only price falls in some year, read
   in a table whose last date falls in the next year, passes the YTD validator
   (it has a price in the table's previous year) but has no price in the year
   before its own last year.
   */
  lemma CumulativeYtdCanBeNaN(s: Series, d: Date, asOf: Date, name: string)
    requires s == [Obs(d, 1.0)] && YearOf(asOf) == YearOf(d) + 1
    ensures Sorted(s) && Positive(s)
    ensures CumulativeRowOf(name, s, asOf).ytd == NaN
  {
    assert YtdAvailable(s, Some(asOf));
  }

  /** The live cumulative table: one row per kept code, in selection order. */
  function CumulativeLive(t: Table, codes: seq<string>, names: seq<string>): (rows: seq<CumulativeRow>)
    requires WellFormed(t)
    ensures |rows| == |KeptIndices(t, codes, names)|
    ensures forall k :: 0 <= k < |rows| ==>
              var i := KeptIndices(t, codes, names)[k];
              rows[k] == CumulativeRowOf(names[i], KeptSeries(t, codes, i), TableMax(t))
  {
    var kept := KeptIndices(t, codes, names);
    seq(|kept|, k requires 0 <= k < |kept| =>
      CumulativeRowOf(names[kept[k]], KeptSeries(t, codes, kept[k]), TableMax(t)))
  }

  /** `calcular_rentabilidades(df, codigos, nombres)`: the cached frame when it serves, else the live table. */
  function Cumulative(t: Table, isPesoTable: bool, codes: seq<string>, names: seq<string>,
                      upToDate: bool, cache: Cache<CumulativeRow>): (rows: seq<CumulativeRow>)
    requires WellFormed(t)
    ensures rows == CumulativeLive(t, codes, names)
            || (upToDate && cache(CurrencyOf(isPesoTable), codes, names) == Returned(Some(rows)) && |rows| > 0)
    ensures !upToDate ==> rows == CumulativeLive(t, codes, names)
    ensures CacheServes(upToDate, cache(CurrencyOf(isPesoTable), codes, names))
            ==> rows == cache(CurrencyOf(isPesoTable), codes, names).frame.value
  {
    WithFallback(upToDate, cache(CurrencyOf(isPesoTable), codes, names), CumulativeLive(t, codes, names))
  }

  // ---------------------------------------------------------------------------
  // Annualized returns (calcular_rentabilidades_anualizadas)
  // ---------------------------------------------------------------------------

  /**
   An annualized cell: `"-"` unless the validator accepts the window; NaN
   when the window then holds fewer than two prices; otherwise the windowed
   annualized return.
   */
  function GatedAnnualized(s: Series, days: int, asOf: Date, pow: (real, real) -> real): (c: Cell)
    requires Sorted(s) && Positive(s) && |s| > 0
    ensures c == Dash <==> s[0].date > asOf - days
    ensures c == NaN <==> s[0].date <= asOf - days && Count(s, Since(WindowStart(s, days))) < 2
    ensures c.Num? ==> exists i, j :: (i < j
              && IsFirstIn(s, Since(WindowStart(s, days)), i) && IsLastIn(s, Since(WindowStart(s, days)), j)
              && c.value == AnnualizedBetween(s, i, j, pow))
  {
    if PeriodAvailable(s, days, Some(asOf)) then AnnualizedPeriod(s, days, pow) else Dash
  }

  /** One row of the annualized table, before rounding. */
  datatype AnnualizedRow = AnnualizedRow(
    fund: string, serie: string, year1: Cell, year3: Cell, year5: Cell, itd: real, historyYears: real)

  function AnnualizedRowOf(name: string, s: Series, asOf: Date, pow: (real, real) -> real): (row: AnnualizedRow)
    requires Sorted(s) && Positive(s) && |s| > 0
    ensures (row.fund, row.serie) == DisplaySplit(name)
    ensures row.year1 == GatedAnnualized(s, 365, asOf, pow)
    ensures row.year3 == GatedAnnualized(s, 1095, asOf, pow)
    ensures row.year5 == GatedAnnualized(s, 1825, asOf, pow)
    ensures |s| == 1 ==> row.itd == 0.0
    ensures |s| > 1 ==> row.itd == AnnualizedBetween(s, 0, |s| - 1, pow)
    ensures row.historyYears * DaysPerYear == (Last(s).date - s[0].date) as real
    ensures row.year5 != Dash ==> row.year3 != Dash
    ensures row.year3 != Dash ==> row.year1 != Dash
  {
    var (fund, serie) := DisplaySplit(name);
    AnnualizedRow(fund, serie,
      GatedAnnualized(s, 365, asOf, pow), GatedAnnualized(s, 1095, asOf, pow), GatedAnnualized(s, 1825, asOf, pow),
      Itd(s, pow), HistoryYears(s))
  }

  /**
   The validator does not make the annualized cell a number: a fund priced on
   day 0 and day 1000, read at day 1000, is old enough for one year but its
   last 365 days hold a single price.
   */
  lemma AnnualizedGateAdmitsNaN(name: string, pow: (real, real) -> real)
    ensures AnnualizedRowOf(name, [Obs(0, 1.0), Obs(1000, 1.0)], 1000, pow).year1 == NaN
  {
    var s := [Obs(0, 1.0), Obs(1000, 1.0)];
    assert !Holds(Since(WindowStart(s, 365)), s[0].date);
    assert Count(s, Since(WindowStart(s, 365))) == 1 by {
      var m := Mask(s, Since(WindowStart(s, 365)));
      assert m == [false, true] && m[..1] == [false];
    }
  }

  /** The live annualized table: one row per kept code, in selection order. */
  function AnnualizedLive(t: Table, codes: seq<string>, names: seq<string>, pow: (real, real) -> real): (rows: seq<AnnualizedRow>)
    requires WellFormed(t)
    ensures |rows| == |KeptIndices(t, codes, names)|
    ensures forall k :: 0 <= k < |rows| ==>
              var i := KeptIndices(t, codes, names)[k];
              rows[k] == AnnualizedRowOf(names[i], KeptSeries(t, codes, i), TableMax(t), pow)
  {
    var kept := KeptIndices(t, codes, names);
    seq(|kept|, k requires 0 <= k < |kept| =>
      AnnualizedRowOf(names[kept[k]], KeptSeries(t, codes, kept[k]), TableMax(t), pow))
  }

  /** `calcular_rentabilidades_anualizadas(df, codigos, nombres)`. */
  function Annualized(t: Table, isPesoTable: bool, codes: seq<string>, names: seq<string>, pow: (real, real) -> real,
                      upToDate: bool, cache: Cache<AnnualizedRow>): (rows: seq<AnnualizedRow>)
    requires WellFormed(t)
    ensures rows == AnnualizedLive(t, codes, names, pow)
            || (upToDate && cache(CurrencyOf(isPesoTable), codes, names) == Returned(Some(rows)) && |rows| > 0)
    ensures !upToDate ==> rows == AnnualizedLive(t, codes, names, pow)
    ensures CacheServes(upToDate, cache(CurrencyOf(isPesoTable), codes, names))
            ==> rows == cache(CurrencyOf(isPesoTable), codes, names).frame.value
  {
    WithFallback(upToDate, cache(CurrencyOf(isPesoTable), codes, names), AnnualizedLive(t, codes, names, pow))
  }

  // ---------------------------------------------------------------------------
  // Returns per calendar year (calcular_rentabilidades_por_año)
  // ---------------------------------------------------------------------------

  /** `sorted(df['Dates'].dt.year.unique())`. */
  function TableYears(dates: seq<Date>): (ys: seq<int>)
    requires StrictlyIncreasing(dates)
    ensures forall a, b :: 0 <= a < b < |ys| ==> ys[a] < ys[b]
    ensures |dates| > 0 ==> |ys| > 0 && ys[|ys| - 1] == YearOf(dates[|dates| - 1])
  {
    YearsOfSorted(dates);
    Runs(YearsOf(dates))
  }

  /** The year of every date. */
  function YearsOf(dates: seq<Date>): (ys: seq<int>)
    ensures |ys| == |dates| && forall i :: 0 <= i < |dates| ==> ys[i] == YearOf(dates[i])
  {
    seq(|dates|, i requires 0 <= i < |dates| => YearOf(dates[i]))
  }

  predicate NonDecreasing(xs: seq<int>) {
    forall i, j :: 0 <= i < j < |xs| ==> xs[i] <= xs[j]
  }

  /** Later dates never fall in earlier years. */
  lemma YearsOfSorted(dates: seq<Date>)
    requires StrictlyIncreasing(dates)
    ensures NonDecreasing(YearsOf(dates))
  {
    forall i, j | 0 <= i < j < |dates| ensures YearOf(dates[i]) <= YearOf(dates[j]) {
      YearOfMonotone(dates[i], dates[j]);
    }
  }

  /** One entry per run of equal values of a non-decreasing sequence. */
  function Runs(xs: seq<int>): (ys: seq<int>)
    requires NonDecreasing(xs)
    ensures forall a, b :: 0 <= a < b < |ys| ==> ys[a] < ys[b]
    ensures |xs| > 0 ==> |ys| > 0 && ys[|ys| - 1] == xs[|xs| - 1]
  {
    if |xs| == 0 then []
    else
      var n := |xs| - 1;
      var prev := Runs(xs[..n]);
      if |prev| > 0 && prev[|prev| - 1] == xs[n] then prev
      else
        assert |prev| > 0 ==> prev[|prev| - 1] < xs[n] by {
          if |prev| > 0 {
            assert xs[..n][n - 1] == xs[n - 1];
          }
        }
        prev + [xs[n]]
  }

  /** Every value has its run. */
  lemma {:induction false} RunsCover(xs: seq<int>)
    requires NonDecreasing(xs)
    ensures forall i :: 0 <= i < |xs| ==> xs[i] in Runs(xs)
  {
    if |xs| > 0 {
      var n := |xs| - 1;
      RunsCover(xs[..n]);
      forall i | 0 <= i < n ensures xs[i] in Runs(xs) {
        assert xs[..n][i] == xs[i];
      }
    }
  }

  /** Every run is a value of the sequence. */
  lemma {:induction false} RunsFrom(xs: seq<int>)
    requires NonDecreasing(xs)
    ensures forall y :: y in Runs(xs) ==> y in xs
  {
    if |xs| > 0 {
      var n := |xs| - 1;
      RunsFrom(xs[..n]);
      assert forall y :: y in xs[..n] ==> y in xs;
    }
  }

  /** Every date's year is a column of the per-year table. */
  lemma TableYearsCover(dates: seq<Date>)
    requires StrictlyIncreasing(dates)
    ensures forall i :: 0 <= i < |dates| ==> YearOf(dates[i]) in TableYears(dates)
  {
    YearsOfSorted(dates);
    RunsCover(YearsOf(dates));
  }

  /** Every column of the per-year table is the year of some date. */
  lemma TableYearsFromDates(dates: seq<Date>)
    requires StrictlyIncreasing(dates)
    ensures forall y :: y in TableYears(dates) ==> exists i :: 0 <= i < |dates| && YearOf(dates[i]) == y
  {
    YearsOfSorted(dates);
    var ys := YearsOf(dates);
    RunsFrom(ys);
    forall y | y in TableYears(dates) ensures exists i :: 0 <= i < |dates| && YearOf(dates[i]) == y {
      var i :| 0 <= i < |ys| && ys[i] == y;
    }
  }

  /** The column label of a year: `str(año)`. */
  function YearLabel(y: int): (text: string)
    ensures |text| >= 1
  {
    IntToString(y)
  }

  /** Distinct years get distinct column labels, so no two year columns collide. */
  lemma YearLabelsDistinct(a: int, b: int)
    requires a != b
    ensures YearLabel(a) != YearLabel(b)
  {
    if YearLabel(a) == YearLabel(b) {
      IntToStringInjective(a, b);
    }
  }

  /** One row of the per-year table: the fund, the series and one labelled cell per table year. */
  datatype PerYearRow = PerYearRow(fund: string, serie: string, cells: seq<(string, Cell)>)

  function PerYearRowOf(name: string, s: Series, years: seq<int>): (row: PerYearRow)
    requires Sorted(s) && Positive(s) && |s| > 0
    ensures (row.fund, row.serie) == DisplaySplit(name)
    ensures |row.cells| == |years|
    ensures forall m :: 0 <= m < |years| ==>
              row.cells[m].0 == YearLabel(years[m]) && row.cells[m].1 == CalendarYearCell(s, years[m])
    ensures forall m :: 0 <= m < |years| ==> row.cells[m].1 != NaN
  {
    var (fund, serie) := DisplaySplit(name);
    PerYearRow(fund, serie,
      seq(|years|, m requires 0 <= m < |years| => (YearLabel(years[m]), CalendarYearCell(s, years[m]))))
  }

  /** The live per-year table: one row per kept code, one column per year of the table. */
  function PerYearLive(t: Table, codes: seq<string>, names: seq<string>): (rows: seq<PerYearRow>)
    requires WellFormed(t)
    ensures |rows| == |KeptIndices(t, codes, names)|
    ensures forall k :: 0 <= k < |rows| ==>
              var i := KeptIndices(t, codes, names)[k];
              rows[k] == PerYearRowOf(names[i], KeptSeries(t, codes, i), TableYears(t.dates))
  {
    var kept := KeptIndices(t, codes, names);
    var years := TableYears(t.dates);
    seq(|kept|, k requires 0 <= k < |kept| => PerYearRowOf(names[kept[k]], KeptSeries(t, codes, kept[k]), years))
  }

  /** Every row's columns are the table's years, each labelled once. */
  lemma PerYearColumnsDistinct(t: Table, codes: seq<string>, names: seq<string>, k: nat, a: nat, b: nat)
    requires WellFormed(t)
    requires k < |PerYearLive(t, codes, names)|
    requires a < b < |PerYearLive(t, codes, names)[k].cells|
    ensures PerYearLive(t, codes, names)[k].cells[a].0 != PerYearLive(t, codes, names)[k].cells[b].0
  {
    var years := TableYears(t.dates);
    YearLabelsDistinct(years[a], years[b]);
  }

  /**
   A fund that does not start on January 1 shows `"-"` in every year column
   up to and including the year it starts.
   */
  lemma PerYearBeforeStartIsDash(t: Table, codes: seq<string>, names: seq<string>, k: nat, m: nat)
    requires WellFormed(t)
    requires k < |PerYearLive(t, codes, names)|
    requires m < |TableYears(t.dates)|
    requires var s := KeptSeries(t, codes, KeptIndices(t, codes, names)[k]);
             TableYears(t.dates)[m] <= YearOf(s[0].date) && s[0].date != JanFirst(TableYears(t.dates)[m])
    ensures PerYearLive(t, codes, names)[k].cells[m].1 == Dash
  {
    var s := KeptSeries(t, codes, KeptIndices(t, codes, names)[k]);
    CalendarYearBeforeStart(s, TableYears(t.dates)[m]);
  }

  /** `calcular_rentabilidades_por_año(df, codigos, nombres)`. */
  function PerYear(t: Table, isPesoTable: bool, codes: seq<string>, names: seq<string>,
                   upToDate: bool, cache: Cache<PerYearRow>): (rows: seq<PerYearRow>)
    requires WellFormed(t)
    ensures rows == PerYearLive(t, codes, names)
            || (upToDate && cache(CurrencyOf(isPesoTable), codes, names) == Returned(Some(rows)) && |rows| > 0)
    ensures !upToDate ==> rows == PerYearLive(t, codes, names)
    ensures CacheServes(upToDate, cache(CurrencyOf(isPesoTable), codes, names))
            ==> rows == cache(CurrencyOf(isPesoTable), codes, names).frame.value
  {
    WithFallback(upToDate, cache(CurrencyOf(isPesoTable), codes, names), PerYearLive(t, codes, names))
  }
}
