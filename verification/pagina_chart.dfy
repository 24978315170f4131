/**
 The cumulative-returns chart of the dashboard (Pagina.py): the start date
 of the newest selected fund, the years of history that leaves, the start
 date a period button asks for, the snapping of a date to the table's
 dates, and the window of returns rebased to 0 at each fund's first price.
 */
module PaginaChart {
  import opened Wrappers
  import opened Calendar
  import opened Text
  import opened Series
  import opened PaginaReturns

  // ---------------------------------------------------------------------------
  // The newest fund's start and the history it leaves
  // ---------------------------------------------------------------------------

  /** The first date on which a present code has a price. */
  function FirstDate(t: Table, code: string): (d: Date)
    requires WellFormed(t) && Present(t, code)
    ensures d in t.dates
  {
    SeriesOf(t, code).value[0].date
  }

  /**
   The first date is the earliest priced row of the code's column: that row
   is priced, and no row of the column before it is.
   */
  lemma FirstDateIsEarliest(t: Table, code: string)
    requires WellFormed(t) && Present(t, code)
    ensures forall c :: 0 <= c < |t.columns| && t.columns[c].code == code ==>
              exists i :: 0 <= i < |t.dates| && t.dates[i] == FirstDate(t, code) && t.columns[c].cells[i].Some?
    ensures forall c, i ::
              (0 <= c < |t.columns| && t.columns[c].code == code && 0 <= i < |t.dates| && t.columns[c].cells[i].Some?)
              ==> FirstDate(t, code) <= t.dates[i]
  {
    var s := SeriesOf(t, code).value;
    forall c, i | 0 <= c < |t.columns| && t.columns[c].code == code && 0 <= i < |t.dates| && t.columns[c].cells[i].Some?
      ensures s[0].date <= t.dates[i]
    {
      var cells := t.columns[c].cells;
      SeriesOfExact(t, code, c);
      assert Obs(t.dates[i], cells[i].value) in s;
      var k :| 0 <= k < |s| && s[k] == Obs(t.dates[i], cells[i].value);
      assert k == 0 || s[0].date < s[k].date;
    }
  }

  /** The latest of the dates present in the list, or None when none is. */
  function Latest(xs: seq<Option<Date>>): (r: Option<Date>)
    ensures r.None? <==> forall i :: 0 <= i < |xs| ==> xs[i].None?
    ensures r.Some? ==> exists i :: 0 <= i < |xs| && xs[i] == r
    ensures forall i :: 0 <= i < |xs| && xs[i].Some? ==> r.Some? && xs[i].value <= r.value
  {
    if |xs| == 0 then None
    else
      var n := |xs| - 1;
      var rest := Latest(xs[..n]);
      assert forall i :: 0 <= i < n ==> xs[..n][i] == xs[i];
      if xs[n].None? then rest
      else if rest.None? || rest.value < xs[n].value then xs[n]
      else rest
  }

  /** Each selected code's first date, or None when it yields no prices. */
  function StartDates(t: Table, codes: seq<string>): (r: seq<Option<Date>>)
    requires WellFormed(t)
    ensures |r| == |codes|
    ensures forall i :: 0 <= i < |codes| ==> r[i] == if Present(t, codes[i]) then Some(FirstDate(t, codes[i])) else None
  {
    seq(|codes|, i requires 0 <= i < |codes| => if Present(t, codes[i]) then Some(FirstDate(t, codes[i])) else None)
  }

  /**
   `obtener_fecha_inicio_mas_reciente(df, codigos)`: the latest of the
   selected funds' first dates, or None when no selected code has a price.
   */
  function LatestStart(t: Table, codes: seq<string>): (r: Option<Date>)
    requires WellFormed(t)
    ensures r.None? <==> forall i :: 0 <= i < |codes| ==> !Present(t, codes[i])
    ensures r.Some? ==> exists i :: 0 <= i < |codes| && Present(t, codes[i]) && FirstDate(t, codes[i]) == r.value
    ensures forall i :: 0 <= i < |codes| && Present(t, codes[i]) ==> r.Some? && FirstDate(t, codes[i]) <= r.value
  {
    var xs := StartDates(t, codes);
    var r := Latest(xs);
    assert r.None? <==> forall i :: 0 <= i < |codes| ==> !Present(t, codes[i]) by {
      assert forall i :: 0 <= i < |codes| ==> (xs[i].None? <==> !Present(t, codes[i]));
    }
    r
  }

  /** The newest fund's start is a date of the table. */
  lemma LatestStartInTable(t: Table, codes: seq<string>)
    requires WellFormed(t) && LatestStart(t, codes).Some?
    ensures LatestStart(t, codes).value in t.dates
  {
    var i :| 0 <= i < |codes| && Present(t, codes[i]) && FirstDate(t, codes[i]) == LatestStart(t, codes).value;
  }

  /**
   `calcular_anos_disponibles(inicio, fin)`: the years between the two dates,
   or 0 when either is missing.
   */
  function AvailableYears(start: Option<Date>, end: Option<Date>): (r: real)
    ensures start.None? || end.None? ==> r == 0.0
    ensures start.Some? && end.Some? ==> r * DaysPerYear == (end.value - start.value) as real
  {
    if start.None? || end.None? then 0.0 else Years(end.value - start.value)
  }

  /**
   "At least `n` years of history" is an exact test on whole days: four
   times the span reaches `1461 * n` (365.25 is 1461 / 4).
   */
  lemma AvailableYearsThreshold(start: Date, end: Date, n: int)
    ensures AvailableYears(Some(start), Some(end)) >= n as real <==> 4 * (end - start) >= 1461 * n
  {
    var r := AvailableYears(Some(start), Some(end));
    assert r * 365.25 == (end - start) as real;
    assert r >= n as real <==> r * 365.25 >= n as real * 365.25;
  }

  // ---------------------------------------------------------------------------
  // Period buttons
  // ---------------------------------------------------------------------------

  /** The period codes of the chart: '1m', '3m', '6m', 'ytd', '1y', '3y', '5y', 'max', and any other string. */
  datatype ChartPeriod = M1 | M3 | M6 | Ytd | Y1 | Y3 | Y5 | Max | Other

  /** The start date a period asks for, given whether a limit was passed. */
  function PeriodStart(end: Date, period: ChartPeriod, limited: bool): (r: Date)
    requires period != Max
  {
    match period
    case M1 => end - 30
    case M3 => if limited then MonthsBefore(end, 3) else end - 90
    case M6 => if limited then MonthsBefore(end, 6) else end - 180
    case Ytd => DecLast(YearOf(end) - 1)
    case Y1 => end - 365
    case Y3 => end - 1095
    case Y5 => end - 1825
    case Other => end - 365
  }

  /**
   `ajustar_fecha_segun_periodo_y_limite(fin, periodo, limite)` as written:
   with a limit the computed start is returned unchanged, even when it is
   earlier than the limit; 'max' returns the limit, which is None without one.
   */
  function AdjustStartAsWritten(end: Date, period: ChartPeriod, limit: Option<Date>): (r: Option<Date>)
    ensures period == Max ==> r == limit
    ensures period != Max ==> r.Some? && r.value == PeriodStart(end, period, limit.Some?)
    ensures period == Ytd ==> r.value + 1 == JanFirst(YearOf(end))
  {
    if period == Max then limit
    else
      YearEnds(YearOf(end) - 1);
      Some(PeriodStart(end, period, limit.Some?))
  }

  /** The as-written function ignores the limit: one month before day 1000 is day 970, before a limit of day 995. */
  lemma AdjustStartIgnoresLimit()
    ensures AdjustStartAsWritten(1000, M1, Some(995)) == Some(970)
    ensures AdjustStartAsWritten(1000, M1, Some(995)).value < 995
  {
  }

  /**
   The start the function's own comment promises: the later of the
   computed start and the limit, so that the chart never starts before the
   newest fund has prices.
   */
  function AdjustStart(end: Date, period: ChartPeriod, limit: Option<Date>): (r: Option<Date>)
    ensures limit.Some? ==> r.Some? && r.value >= limit.value
    ensures limit.Some? && period != Max ==> r.value >= PeriodStart(end, period, true)
    ensures limit.Some? && period != Max ==>
              (r.value == PeriodStart(end, period, true) || r.value == limit.value)
    ensures limit.None? ==> r == AdjustStartAsWritten(end, period, limit)
    ensures limit.Some? && AdjustStartAsWritten(end, period, limit).value >= limit.value ==>
              r == AdjustStartAsWritten(end, period, limit)
  {
    match AdjustStartAsWritten(end, period, limit)
    case None => None
    case Some(d) =>
      if limit.Some? && d < limit.value then limit else Some(d)
  }

  /** The clamp the returns window applies to its start (`max(inicio, limite)`). */
  function Clamp(start: Date, limit: Option<Date>): (r: Date)
    ensures r >= start
    ensures limit.Some? ==> r >= limit.value
    ensures r == start || (limit.Some? && r == limit.value)
  {
    if limit.Some? && start < limit.value then limit.value else start
  }

  /**
   The defect is masked downstream: once the returns window clamps its start
   to the same limit, the as-written and the corrected start agree.
   */
  lemma ClampMasksAdjust(end: Date, period: ChartPeriod, limit: Option<Date>)
    requires limit.Some? && period != Max
    ensures Clamp(AdjustStartAsWritten(end, period, limit).value, limit) == AdjustStart(end, period, limit).value
  {
  }

  /**
   With a limit, '3m' goes back three calendar months; without one it goes
   back 90 days. From May 31 the two differ: the end of February is earlier
   than 90 days back (March 1 or 2).
   */
  lemma ThreeMonthsIsNot90Days(y: int)
    ensures var end := ToOrdinal(Civil(y, 5, 31));
            PeriodStart(end, M3, true) < PeriodStart(end, M3, false)
  {
    var end := ToOrdinal(Civil(y, 5, 31));
    FromToOrdinal(Civil(y, 5, 31));
    var r := MonthsBefore(end, 3);
    var t := FromOrdinal(r);
    assert t.year * 12 + t.month == y * 12 + 2;
    assert t.year == y && t.month == 2;
    assert r == DaysBeforeYear(y) + 31 + t.day;
    assert t.day <= 29;
  }

  // ---------------------------------------------------------------------------
  // Snapping a date to the table
  // ---------------------------------------------------------------------------

  /** Position of the last date at or before `target`. */
  function LastAtMost(dates: seq<Date>, target: Date): (r: Option<nat>)
    ensures r.Some? ==> r.value < |dates| && dates[r.value] <= target
    ensures r.Some? ==> forall j :: r.value < j < |dates| ==> dates[j] > target
    ensures r.None? <==> forall j :: 0 <= j < |dates| ==> dates[j] > target
  {
    if |dates| == 0 then None
    else if dates[|dates| - 1] <= target then Some(|dates| - 1)
    else LastAtMost(dates[..|dates| - 1], target)
  }

  /**
   `buscar_fecha_exacta_en_datos(df, objetivo)`: the target when it is a
   table date, else the latest table date before it, else the first table
   date; an empty table raises inside the function and the target comes back.
   */
  function FindDate(dates: seq<Date>, target: Date): (r: Date)
    requires StrictlyIncreasing(dates)
    ensures |dates| == 0 ==> r == target
    ensures |dates| > 0 ==> r in dates
    ensures target in dates ==> r == target
    ensures forall j :: 0 <= j < |dates| && dates[j] <= target ==> dates[j] <= r <= target
    ensures |dates| > 0 && target < dates[0] ==> r == dates[0]
  {
    if |dates| == 0 then target
    else if target in dates then target
    else
      match LastAtMost(dates, target)
      case Some(i) =>
        assert forall j :: 0 <= j < |dates| && dates[j] <= target ==> j <= i;
        dates[i]
      case None => dates[0]
  }

  /** A date the table holds is found at or after every table date up to it. */
  lemma FindDateNotBefore(dates: seq<Date>, target: Date, floor: Date)
    requires StrictlyIncreasing(dates)
    requires floor in dates && floor <= target
    ensures FindDate(dates, target) >= floor
  {
  }

  // ---------------------------------------------------------------------------
  // The returns window
  // ---------------------------------------------------------------------------

  /** Positions of the table rows dated between `lo` and `hi`, inclusive, in table order. */
  function RowsBetween(dates: seq<Date>, lo: Date, hi: Date): (r: seq<nat>)
    ensures forall k :: 0 <= k < |r| ==> r[k] < |dates| && lo <= dates[r[k]] <= hi
    ensures forall k, l :: 0 <= k < l < |r| ==> r[k] < r[l]
    ensures forall i :: 0 <= i < |dates| && lo <= dates[i] <= hi ==> i in r
  {
    if |dates| == 0 then []
    else
      var n := |dates| - 1;
      var init := RowsBetween(dates[..n], lo, hi);
      if lo <= dates[n] <= hi then init + [n] else init
  }

  /** Position of the first present cell. */
  function FirstPresent(cells: seq<Option<real>>): (r: Option<nat>)
    ensures r.Some? ==> r.value < |cells| && cells[r.value].Some?
    ensures r.Some? ==> forall j :: 0 <= j < r.value ==> cells[j].None?
    ensures r.None? <==> forall j :: 0 <= j < |cells| ==> cells[j].None?
  {
    if |cells| == 0 then None
    else if cells[0].Some? then Some(0)
    else
      match FirstPresent(cells[1..])
      case None => None
      case Some(k) => Some(k + 1)
  }

  /**
   `((precios / precios.iloc[0]) - 1) * 100` over the present cells: every
   present price as a return over the first present price; missing cells
   stay missing.
   */
  function Rebase(cells: seq<Option<real>>): (r: seq<Option<real>>)
    requires forall i :: 0 <= i < |cells| && cells[i].Some? ==> cells[i].value > 0.0
    ensures |r| == |cells|
    ensures forall i :: 0 <= i < |cells| ==> (r[i].Some? <==> cells[i].Some?)
    ensures FirstPresent(cells).Some? ==> forall i :: 0 <= i < |cells| && cells[i].Some? ==>
              r[i] == Some(SimpleReturn(cells[i].value, cells[FirstPresent(cells).value].value))
  {
    match FirstPresent(cells)
    case None => cells
    case Some(b) =>
      seq(|cells|, i requires 0 <= i < |cells| =>
        if cells[i].Some? then Some(SimpleReturn(cells[i].value, cells[b].value)) else None)
  }

  /** Every rebased series starts at 0. */
  lemma RebaseStartsAtZero(cells: seq<Option<real>>, b: nat)
    requires forall i :: 0 <= i < |cells| && cells[i].Some? ==> cells[i].value > 0.0
    requires FirstPresent(cells) == Some(b)
    ensures Rebase(cells)[b] == Some(0.0)
  {
    DivSelf(cells[b].value);
  }

  /** Rebasing loses nothing: each price is the base price grown by its return. */
  lemma RebaseRecoversPrices(cells: seq<Option<real>>, b: nat, i: nat)
    requires forall j :: 0 <= j < |cells| && cells[j].Some? ==> cells[j].value > 0.0
    requires FirstPresent(cells) == Some(b)
    requires i < |cells| && cells[i].Some?
    ensures cells[i].value == Grown(cells[b].value, Rebase(cells)[i].value)
  {
    var x := SimpleReturn(cells[i].value, cells[b].value);
    assert Rebase(cells)[i].value == x;
    GrowBack(cells[i].value, cells[b].value, x);
  }

  /** The cells of a column at the given rows. */
  function CellsAt(cells: seq<Option<real>>, rows: seq<nat>): (r: seq<Option<real>>)
    requires forall k :: 0 <= k < |rows| ==> rows[k] < |cells|
    ensures |r| == |rows|
    ensures forall k :: 0 <= k < |rows| ==> r[k] == cells[rows[k]]
  {
    seq(|rows|, k requires 0 <= k < |rows| => cells[rows[k]])
  }

  /** A code's rebased column over the window rows, or None when it is not a column or has no price there. */
  function ChartColumn(t: Table, code: string, rows: seq<nat>): (r: Option<Column>)
    requires WellFormed(t)
    requires forall k :: 0 <= k < |rows| ==> rows[k] < |t.dates|
    ensures ColumnIndex(t, code).None? ==> r.None?
    ensures r.Some? ==> r.value.code == code
    ensures ColumnIndex(t, code).Some? ==>
              var window := CellsAt(t.columns[ColumnIndex(t, code).value].cells, rows);
              (r.None? <==> FirstPresent(window).None?)
              && (r.Some? ==> r.value == Column(code, Rebase(window)))
  {
    match ColumnIndex(t, code)
    case None => None
    case Some(c) =>
      var window := CellsAt(t.columns[c].cells, rows);
      if FirstPresent(window).None? then None
      else Some(Column(code, Rebase(window)))
  }

  /**
   Every chart column starts at 0: its first present cell is `Some(0.0)`,
   and the window rows before it are missing.
   */
  lemma ChartColumnStartsAtZero(t: Table, code: string, rows: seq<nat>) returns (b: nat)
    requires WellFormed(t)
    requires forall k :: 0 <= k < |rows| ==> rows[k] < |t.dates|
    requires ChartColumn(t, code, rows).Some?
    ensures b < |rows|
    ensures ChartColumn(t, code, rows).value.cells[b] == Some(0.0)
    ensures forall j :: 0 <= j < b ==> ChartColumn(t, code, rows).value.cells[j].None?
  {
    var c := ColumnIndex(t, code).value;
    var window := CellsAt(t.columns[c].cells, rows);
    b := FirstPresent(window).value;
    RebaseStartsAtZero(window, b);
  }

  /** The rebased columns of the given codes, skipping those `ChartColumn` rejects, in order. */
  function ChartColumns(t: Table, codes: seq<string>, rows: seq<nat>): (r: seq<Column>)
    requires WellFormed(t)
    requires forall k :: 0 <= k < |rows| ==> rows[k] < |t.dates|
    ensures forall j :: 0 <= j < |r| ==> r[j].code in codes
  {
    if |codes| == 0 then []
    else
      var rest := ChartColumns(t, codes[1..], rows);
      match ChartColumn(t, codes[0], rows)
      case None => rest
      case Some(col) => [col] + rest
  }

  /** Each chart column is the rebased column of its code. */
  lemma {:induction false} ChartColumnsSound(t: Table, codes: seq<string>, rows: seq<nat>, j: nat)
    requires WellFormed(t)
    requires forall k :: 0 <= k < |rows| ==> rows[k] < |t.dates|
    requires j < |ChartColumns(t, codes, rows)|
    ensures ChartColumn(t, ChartColumns(t, codes, rows)[j].code, rows) == Some(ChartColumns(t, codes, rows)[j])
  {
    var rest := ChartColumns(t, codes[1..], rows);
    match ChartColumn(t, codes[0], rows)
    case None =>
      ChartColumnsSound(t, codes[1..], rows, j);
    case Some(col) =>
      if j > 0 {
        ChartColumnsSound(t, codes[1..], rows, j - 1);
        assert ChartColumns(t, codes, rows)[j] == rest[j - 1];
      }
  }

  /** Every selected code that has a rebased column gets it in the chart. */
  lemma {:induction false} ChartColumnsComplete(t: Table, codes: seq<string>, rows: seq<nat>, i: nat)
    requires WellFormed(t)
    requires forall k :: 0 <= k < |rows| ==> rows[k] < |t.dates|
    requires i < |codes| && ChartColumn(t, codes[i], rows).Some?
    ensures ChartColumn(t, codes[i], rows).value in ChartColumns(t, codes, rows)
  {
    if i > 0 {
      ChartColumnsComplete(t, codes[1..], rows, i - 1);
      assert codes[1..][i - 1] == codes[i];
    }
  }

  /** Chart columns have one cell per window row. */
  lemma ChartColumnsShape(t: Table, codes: seq<string>, rows: seq<nat>, j: nat)
    requires WellFormed(t)
    requires forall k :: 0 <= k < |rows| ==> rows[k] < |t.dates|
    requires j < |ChartColumns(t, codes, rows)|
    ensures |ChartColumns(t, codes, rows)[j].cells| == |rows|
  {
    ChartColumnsSound(t, codes, rows, j);
  }

  /** The first date of the window: the requested start, clamped to the newest fund's start, snapped to the table. */
  function WindowStart(t: Table, codes: seq<string>, start: Date): Date
    requires WellFormed(t)
  {
    FindDate(t.dates, Clamp(start, LatestStart(t, codes)))
  }

  /** The window never starts before the newest fund's first price. */
  lemma WindowStartAfterLatest(t: Table, codes: seq<string>, start: Date)
    requires WellFormed(t)
    ensures LatestStart(t, codes).Some? ==> WindowStart(t, codes, start) >= LatestStart(t, codes).value
  {
    var limit := LatestStart(t, codes);
    if limit.Some? {
      LatestStartInTable(t, codes);
      FindDateNotBefore(t.dates, Clamp(start, limit), limit.value);
    }
  }

  /** The window the chart reads: the snapped start, clamped to the newest fund's start, to the snapped end. */
  function WindowRows(t: Table, codes: seq<string>, start: Date, end: Date): (rows: seq<nat>)
    requires WellFormed(t)
    ensures forall k :: 0 <= k < |rows| ==> rows[k] < |t.dates|
    ensures forall k, l :: 0 <= k < l < |rows| ==> rows[k] < rows[l]
    ensures forall k :: 0 <= k < |rows| ==> t.dates[rows[k]] <= FindDate(t.dates, end)
    ensures LatestStart(t, codes).Some? ==> forall k :: 0 <= k < |rows| ==> t.dates[rows[k]] >= LatestStart(t, codes).value
    ensures forall k :: 0 <= k < |rows| ==> t.dates[rows[k]] >= WindowStart(t, codes, start)
    ensures forall i :: 0 <= i < |t.dates| && WindowStart(t, codes, start) <= t.dates[i] <= FindDate(t.dates, end)
                        ==> i in rows
  {
    var lo := WindowStart(t, codes, start);
    WindowStartAfterLatest(t, codes, start);
    RowsBetween(t.dates, lo, FindDate(t.dates, end))
  }

  /**
   `calcular_retornos_acumulados_con_limite(df, codigos, inicio, fin)`: the
   table rows of the window, with one rebased column per distinct selected
   code that has a price in the window; an empty frame when nothing is
   selected or no row falls in the window.
   */
  function ReturnsWindow(t: Table, codes: seq<string>, start: Date, end: Date): (r: Table)
    requires WellFormed(t)
    ensures |codes| == 0 ==> r == Table([], [])
    ensures StrictlyIncreasing(r.dates)
    ensures forall k :: 0 <= k < |r.dates| ==> r.dates[k] in t.dates && r.dates[k] <= FindDate(t.dates, end)
    ensures LatestStart(t, codes).Some? ==> forall k :: 0 <= k < |r.dates| ==> r.dates[k] >= LatestStart(t, codes).value
    ensures |codes| > 0 ==> r.columns == ChartColumns(t, Dedup(codes), WindowRows(t, codes, start, end))
    ensures |codes| > 0 ==> r.dates == DatesAt(t.dates, WindowRows(t, codes, start, end))
    ensures |codes| > 0 ==>
              forall i :: 0 <= i < |t.dates| && WindowStart(t, codes, start) <= t.dates[i] <= FindDate(t.dates, end)
                          ==> t.dates[i] in r.dates
  {
    if |codes| == 0 then Table([], [])
    else
      var rows := WindowRows(t, codes, start, end);
      DatesAtIncreasing(t.dates, rows);
      Table(DatesAt(t.dates, rows), ChartColumns(t, Dedup(codes), rows))
  }

  /** The dates of the given rows (`df.loc[filas, 'Dates']`). */
  function DatesAt(dates: seq<Date>, rows: seq<nat>): (ds: seq<Date>)
    requires forall k :: 0 <= k < |rows| ==> rows[k] < |dates|
    ensures |ds| == |rows| && forall k :: 0 <= k < |rows| ==> ds[k] == dates[rows[k]]
  {
    seq(|rows|, k requires 0 <= k < |rows| => dates[rows[k]])
  }

  /** Increasing rows of a table with increasing dates have increasing dates. */
  lemma DatesAtIncreasing(dates: seq<Date>, rows: seq<nat>)
    requires StrictlyIncreasing(dates)
    requires forall k :: 0 <= k < |rows| ==> rows[k] < |dates|
    requires forall k, l :: 0 <= k < l < |rows| ==> rows[k] < rows[l]
    ensures StrictlyIncreasing(DatesAt(dates, rows))
  {
  }

  /** The codes of a list of columns. */
  function CodesOf(cols: seq<Column>): (r: seq<string>)
    ensures |r| == |cols| && forall j :: 0 <= j < |cols| ==> r[j] == cols[j].code
  {
    seq(|cols|, j requires 0 <= j < |cols| => cols[j].code)
  }

  /** The chart has one column per distinct code. */
  lemma {:induction false} DistinctColumns(t: Table, codes: seq<string>, rows: seq<nat>)
    requires WellFormed(t)
    requires forall k :: 0 <= k < |rows| ==> rows[k] < |t.dates|
    requires Distinct(codes)
    ensures Distinct(CodesOf(ChartColumns(t, codes, rows)))
  {
    if |codes| > 0 {
      var tail := codes[1..];
      assert Distinct(tail) by {
        forall i, j | 0 <= i < j < |tail| ensures tail[i] != tail[j] {
          assert tail[i] == codes[i + 1] && tail[j] == codes[j + 1];
        }
      }
      DistinctColumns(t, tail, rows);
      var rest := ChartColumns(t, tail, rows);
      assert codes[0] !in tail by {
        forall i | 0 <= i < |tail| ensures tail[i] != codes[0] {
          assert tail[i] == codes[i + 1];
        }
      }
      assert forall j :: 0 <= j < |rest| ==> rest[j].code != codes[0] by {
        assert forall j :: 0 <= j < |rest| ==> rest[j].code in tail;
      }
      match ChartColumn(t, codes[0], rows)
      case None =>
        assert ChartColumns(t, codes, rows) == rest;
      case Some(col) =>
        assert ChartColumns(t, codes, rows) == [col] + rest;
        DistinctCons(col, rest);
    }
  }

  lemma DistinctCons(col: Column, rest: seq<Column>)
    requires Distinct(CodesOf(rest))
    requires forall j :: 0 <= j < |rest| ==> rest[j].code != col.code
    ensures Distinct(CodesOf([col] + rest))
  {
    var cs := CodesOf([col] + rest);
    forall j, l | 0 <= j < l < |cs| ensures cs[j] != cs[l] {
      if j == 0 {
        assert cs[l] == rest[l - 1].code;
      } else {
        assert cs[j] == CodesOf(rest)[j - 1] && cs[l] == CodesOf(rest)[l - 1];
      }
    }
  }

  /** The columns of the returns window have distinct codes, each a selected one. */
  lemma ReturnsWindowColumnsDistinct(t: Table, codes: seq<string>, start: Date, end: Date)
    requires WellFormed(t)
    ensures Distinct(CodesOf(ReturnsWindow(t, codes, start, end).columns))
  {
    if |codes| > 0 {
      var rows := WindowRows(t, codes, start, end);
      DistinctColumns(t, Dedup(codes), rows);
    }
  }
}
