/**
 The monthly annex (anexo_mensual_module.py): one return per calendar month
 for the twelve months that end at the table's latest date, plus a trailing
 twelve-month return, for every selected fund.

 The twelve months are found by stepping back 30 days at a time, so a month
 can be listed twice and another skipped. The row of a fund is a dict keyed
 by the month labels: a repeated label writes the same cell again, and the
 row keeps one column per distinct label.
 */
module Anexo {
  import opened Wrappers
  import opened Calendar
  import opened Text
  import opened Currencies
  import opened Series
  import opened Names
  import opened PaginaReturns
  import opened Dispatch
  import opened Informe

  // ---------------------------------------------------------------------------
  // The twelve months (obtener_meses_para_calculo)
  // ---------------------------------------------------------------------------

  type MonthNumber = m: int | 1 <= m <= 12 witness 1

  /** One header month: its year and month number; its label is `Heading`. */
  datatype MonthEntry = MonthEntry(year: int, month: MonthNumber)

  const MonthAbbr: seq<string> := ["ene", "feb", "mar", "abr", "may", "jun", "jul", "ago", "sep", "oct", "nov", "dic"]

  /** `f"{meses_es[mes - 1]}-{año}"`. */
  function MonthLabel(y: int, m: int): (text: string)
    requires 1 <= m <= 12
    ensures |text| > 4 && text[3] == '-'
  {
    MonthAbbr[m - 1] + "-" + IntToString(y)
  }

  /** A label names one month: different months have different labels. */
  lemma MonthLabelInjective(y1: int, m1: int, y2: int, m2: int)
    requires 1 <= m1 <= 12 && 1 <= m2 <= 12
    requires MonthLabel(y1, m1) == MonthLabel(y2, m2)
    ensures y1 == y2 && m1 == m2
  {
    var a, b := MonthLabel(y1, m1), MonthLabel(y2, m2);
    assert MonthAbbr[m1 - 1] == a[..3] == b[..3] == MonthAbbr[m2 - 1];
    MonthAbbrDistinct();
    assert IntToString(y1) == a[4..] == b[4..] == IntToString(y2);
    IntToStringInjective(y1, y2);
  }

  /** The twelve abbreviations are three letters each and pairwise different. */
  lemma MonthAbbrDistinct()
    ensures forall i :: 0 <= i < 12 ==> |MonthAbbr[i]| == 3
    ensures Distinct(MonthAbbr)
  {
    forall i, j | 0 <= i < j < 12 ensures MonthAbbr[i] != MonthAbbr[j] {
      assert MonthAbbr[i][0] != MonthAbbr[j][0] || MonthAbbr[i][1] != MonthAbbr[j][1] || MonthAbbr[i][2] != MonthAbbr[j][2];
    }
  }

  /** The (year, month) of an entry as one number that grows with time. */
  function Key(e: MonthEntry): int {
    e.year * 12 + e.month
  }

  /** The column label of an entry. */
  function Heading(e: MonthEntry): string {
    MonthLabel(e.year, e.month)
  }

  /** The entry of the month date `d` falls in. */
  function EntryOf(d: Date): (e: MonthEntry)
    ensures e.year == YearOf(d) && e.month == MonthOf(d)
  {
    MonthEntry(YearOf(d), MonthOf(d))
  }

  /** Later dates never have earlier months. */
  lemma EntryKeyMonotone(a: Date, b: Date)
    requires a <= b
    ensures Key(EntryOf(a)) <= Key(EntryOf(b))
  {
    MonthKeyMonotone(a, b);
  }

  /**
   `obtener_meses_para_calculo(fecha_actual)`: twelve labelled months, the
   first of them `fecha_actual`'s own, never moving forward in time.
   */
  function MonthsForCalc(asOf: Date): (r: seq<MonthEntry>)
    ensures |r| == 12 && forall i :: 0 <= i < 12 ==> r[i] == EntryOf(StepDate(asOf, i))
  {
    seq(12, i requires 0 <= i < 12 => EntryOf(StepDate(asOf, i)))
  }

  /** `fecha_actual - timedelta(days = 30 * i)`. */
  function StepDate(asOf: Date, i: int): (d: Date)
    ensures d == asOf - 30 * i
  {
    asOf - 30 * i
  }

  /** The first listed month is `fecha_actual`'s own. */
  lemma MonthsStartAtAsOf(asOf: Date)
    ensures MonthsForCalc(asOf)[0].year == YearOf(asOf) && MonthsForCalc(asOf)[0].month == MonthOf(asOf)
  {
    assert MonthsForCalc(asOf)[0] == EntryOf(StepDate(asOf, 0));
  }

  /** Two listed entries, found from dates `a <= b`, are in time order. */
  lemma EntriesInOrder(r: seq<MonthEntry>, a: Date, b: Date, i: int, j: int)
    requires 0 <= i < |r| && 0 <= j < |r| && a <= b && r[j] == EntryOf(a) && r[i] == EntryOf(b)
    ensures Key(r[j]) <= Key(r[i])
  {
    EntryKeyMonotone(a, b);
  }

  /** A later step never lands in a later month than an earlier step. */
  lemma StepsInOrder(asOf: Date, i: int, j: int)
    requires 0 <= i <= j < 12
    ensures Key(MonthsForCalc(asOf)[j]) <= Key(MonthsForCalc(asOf)[i])
  {
    EntriesInOrder(MonthsForCalc(asOf), StepDate(asOf, j), StepDate(asOf, i), i, j);
  }

  /** The listed months never move forward in time. */
  lemma MonthsNeverForward(asOf: Date)
    ensures forall i, j :: 0 <= i < j < 12 ==> Key(MonthsForCalc(asOf)[j]) <= Key(MonthsForCalc(asOf)[i])
  {
    forall i, j | 0 <= i < j < 12 ensures Key(MonthsForCalc(asOf)[j]) <= Key(MonthsForCalc(asOf)[i]) {
      StepsInOrder(asOf, i, j);
    }
  }

  /** The 30-day steps can list a month twice: from January 31 the second step lands on January 1. */
  lemma MonthsCanRepeat(y: int)
    ensures var r := MonthsForCalc(ToOrdinal(Civil(y, 1, 31)));
            r[0] == r[1] && r[0].month == 1
  {
    var d := ToOrdinal(Civil(y, 1, 31));
    assert d - 30 * 1 == ToOrdinal(Civil(y, 1, 1));
    StepAt(d, 0, Civil(y, 1, 31));
    StepAt(d, 1, Civil(y, 1, 1));
  }

  /** The 30-day steps can skip a month: from March 1 of a common year, February never appears. */
  lemma MonthsCanSkip(y: int)
    requires !IsLeap(y)
    ensures var r := MonthsForCalc(ToOrdinal(Civil(y, 3, 1)));
            r[0].month == 3 && r[1].month == 1 && forall i :: 0 <= i < |r| ==> !(r[i].year == y && r[i].month == 2)
  {
    var d := ToOrdinal(Civil(y, 3, 1));
    assert d - 30 * 1 == ToOrdinal(Civil(y, 1, 30));
    StepAt(d, 0, Civil(y, 3, 1));
    StepAt(d, 1, Civil(y, 1, 30));
    NoMonthBetween(d, y);
  }

  /** The entry of a civil date is that date's year and month. */
  lemma EntryOfCivil(c: Civil)
    requires ValidCivil(c)
    ensures EntryOf(ToOrdinal(c)) == MonthEntry(c.year, c.month)
  {
    FromToOrdinal(c);
  }

  /** Step `i` lists the month of the civil date `30 * i` days before `asOf`. */
  lemma StepAt(asOf: Date, i: int, c: Civil)
    requires 0 <= i < 12 && ValidCivil(c) && asOf - 30 * i == ToOrdinal(c)
    ensures MonthsForCalc(asOf)[i] == MonthEntry(c.year, c.month)
  {
    EntryOfCivil(c);
    assert MonthsForCalc(asOf)[i] == EntryOf(StepDate(asOf, i));
  }

  /** When the first two steps are March and January of year `y`, no step is February of `y`. */
  lemma NoMonthBetween(asOf: Date, y: int)
    requires MonthsForCalc(asOf)[0] == MonthEntry(y, 3) && MonthsForCalc(asOf)[1] == MonthEntry(y, 1)
    ensures forall i :: 0 <= i < 12 ==> !(MonthsForCalc(asOf)[i].year == y && MonthsForCalc(asOf)[i].month == 2)
  {
    forall i | 1 <= i < 12 ensures Key(MonthsForCalc(asOf)[i]) <= y * 12 + 1 {
      StepsInOrder(asOf, 1, i);
    }
  }

  // ---------------------------------------------------------------------------
  // Monthly and trailing twelve-month returns
  // ---------------------------------------------------------------------------

  /**
   `calcular_rentabilidad_mes(precios, año, mes)`: the last price of the month
   over the last price of the month before; NaN when either month has no
   price or the base price is zero.
   */
  function MonthReturn(s: Series, y: int, m: int): (r: Cell)
    requires 1 <= m <= 12
    ensures r != Dash
    ensures r.NaN? <==> (Count(s, InMonth(y, m)) == 0 || Count(s, PriorMonth(y, m)) == 0
                         || exists i :: IsLastIn(s, PriorMonth(y, m), i) && s[i].price == 0.0)
    ensures r.Num? ==> exists i, j :: (IsLastIn(s, PriorMonth(y, m), i) && IsLastIn(s, InMonth(y, m), j)
                                       && s[i].price != 0.0 && Grown(s[i].price, r.value) == s[j].price)
  {
    LastOverLast(s, PriorMonth(y, m), InMonth(y, m))
  }

  /** The return of the month holding the fund's last price is the report's month-to-date return. */
  lemma MonthReturnIsMtd(s: Series, asOf: Date)
    requires |s| > 0
    requires YearOf(Last(s).date) == YearOf(asOf) && MonthOf(Last(s).date) == MonthOf(asOf)
    ensures MonthReturn(s, YearOf(asOf), MonthOf(asOf)) == Mtd(s, asOf)
  {
    var y, m := YearOf(asOf), MonthOf(asOf);
    MonthReturnAtLast(s, y, m);
    assert Mtd(s, asOf) == OverBase(s, LastIndex(s, PriorMonth(y, m)), Last(s).price);
  }

  /** When the last price falls in month `m`, the month's return runs to the last price. */
  lemma MonthReturnAtLast(s: Series, y: int, m: int)
    requires |s| > 0 && 1 <= m <= 12 && Holds(InMonth(y, m), Last(s).date)
    ensures MonthReturn(s, y, m) == OverBase(s, LastIndex(s, PriorMonth(y, m)), Last(s).price)
  {
    LastOverLastAtLast(s, PriorMonth(y, m), InMonth(y, m));
  }

  /** The lower bound `fecha_actual - timedelta(days = 365)`. */
  function YearAgo(asOf: Date): DateFilter {
    Since((asOf - 365) as real)
  }

  /**
   `calcular_rentabilidad_12_meses(precios, fecha_actual)`: the last price
   over the first price on or after 365 days before `fecha_actual`; NaN when
   there is no such price or it is zero.
   */
  function TwelveMonthReturn(s: Series, asOf: Date): (r: Cell)
    ensures r != Dash
    ensures r.NaN? <==> (Count(s, YearAgo(asOf)) == 0
                         || exists k :: IsFirstIn(s, YearAgo(asOf), k) && s[k].price == 0.0)
    ensures r.Num? ==> exists k :: (IsFirstIn(s, YearAgo(asOf), k) && s[k].price != 0.0
                                    && Grown(s[k].price, r.value) == Last(s).price)
  {
    OverBase(s, FirstIndex(s, YearAgo(asOf)), if |s| > 0 then Last(s).price else 0.0)
  }

  /** Measured from the fund's own last date, it is the dashboard's 12-month return. */
  lemma TwelveMonthMatchesPeriod(s: Series)
    requires Sorted(s) && Positive(s) && |s| > 0
    ensures TwelveMonthReturn(s, Last(s).date) == PeriodReturn(s, 365, Last(s).price)
  {
    assert YearAgo(Last(s).date) == Since(WindowStart(s, 365));
  }

  /** Measured from the table's date, a fund that stopped more than a year earlier gets NaN. */
  lemma TwelveMonthCanBeNaN()
    ensures TwelveMonthReturn([Obs(0, 1.0)], 400) == NaN
  {
    assert !Holds(YearAgo(400), 0);
  }

  // ---------------------------------------------------------------------------
  // A fund's row (calcular_retornos_mensuales_tiempo_real)
  // ---------------------------------------------------------------------------

  /** An insertion-ordered dict from column label to cell. */
  type Assoc = seq<(string, Cell)>

  function KeysOf(a: Assoc): (ks: seq<string>)
    ensures |ks| == |a| && forall i :: 0 <= i < |a| ==> ks[i] == a[i].0
  {
    seq(|a|, i requires 0 <= i < |a| => a[i].0)
  }

  /**
   `d[k] = v`: an existing key keeps its place and takes the new value; a
   new key is added last.
   */
  function AssocPut(a: Assoc, k: string, v: Cell): (r: Assoc)
    ensures KeysOf(r) == if k in KeysOf(a) then KeysOf(a) else KeysOf(a) + [k]
    ensures forall i :: 0 <= i < |r| && r[i].0 == k && (forall q :: 0 <= q < i && q < |a| ==> a[q].0 != k) ==> r[i].1 == v
    ensures forall i :: 0 <= i < |r| && r[i].0 != k ==> i < |a| && r[i] == a[i]
  {
    match FindKey(a, k)
    case None => a + [(k, v)]
    case Some(p) =>
      assert KeysOf(a[p := (k, v)]) == KeysOf(a);
      a[p := (k, v)]
  }

  /** The position of the first entry under `k`, if any. */
  function FindKey(a: Assoc, k: string): (p: Option<nat>)
    ensures p.None? <==> k !in KeysOf(a)
    ensures p.Some? ==> p.value < |a| && a[p.value].0 == k && forall q :: 0 <= q < p.value ==> a[q].0 != k
  {
    if |a| == 0 then None
    else if a[0].0 == k then Some(0)
    else
      match FindKey(a[1..], k)
      case None =>
        assert KeysOf(a) == [a[0].0] + KeysOf(a[1..]);
        None
      case Some(p) =>
        assert forall q :: 1 <= q < |a| ==> a[q] == a[1..][q - 1];
        Some(p + 1)
  }

  /** The label of every month, in order. */
  function Labels(months: seq<MonthEntry>, name: MonthEntry -> string): (ls: seq<string>)
    ensures |ls| == |months| && forall i :: 0 <= i < |months| ==> ls[i] == name(months[i])
  {
    seq(|months|, i requires 0 <= i < |months| => name(months[i]))
  }

  /** Different months get different labels. */
  ghost predicate Injective(name: MonthEntry -> string) {
    forall x, y :: name(x) == name(y) ==> x == y
  }

  lemma HeadingInjective()
    ensures Injective(Heading)
  {
    forall x, y | Heading(x) == Heading(y) ensures x == y {
      MonthLabelInjective(x.year, x.month, y.year, y.month);
    }
  }

  /** `resultado[name(e)] = cell(e)` for every month `e` in turn. */
  function Cells(months: seq<MonthEntry>, name: MonthEntry -> string, cell: MonthEntry -> Cell): Assoc {
    if |months| == 0 then []
    else
      var n := |months| - 1;
      AssocPut(Cells(months[..n], name, cell), name(months[n]), cell(months[n]))
  }

  /** The cells have one column per distinct label, in first-occurrence order. */
  lemma {:induction false} CellsKeys(months: seq<MonthEntry>, name: MonthEntry -> string, cell: MonthEntry -> Cell)
    ensures KeysOf(Cells(months, name, cell)) == Dedup(Labels(months, name))
  {
    if |months| > 0 {
      var n := |months| - 1;
      CellsKeys(months[..n], name, cell);
      assert Labels(months, name)[..n] == Labels(months[..n], name);
    }
  }

  /** Each column holds the cell of the month its label names. */
  lemma CellsValues(months: seq<MonthEntry>, name: MonthEntry -> string, cell: MonthEntry -> Cell)
    requires Injective(name)
    ensures forall i, j :: 0 <= i < |Cells(months, name, cell)| && 0 <= j < |months|
              && Cells(months, name, cell)[i].0 == name(months[j])
              ==> Cells(months, name, cell)[i].1 == cell(months[j])
  {
    forall i, j | 0 <= i < |Cells(months, name, cell)| && 0 <= j < |months|
                  && Cells(months, name, cell)[i].0 == name(months[j])
      ensures Cells(months, name, cell)[i].1 == cell(months[j])
    {
      CellValue(months, name, cell, i, j);
    }
  }

  /** The column at position `i`, labelled as month `j`, holds month `j`'s cell. */
  lemma {:induction false} CellValue(months: seq<MonthEntry>, name: MonthEntry -> string, cell: MonthEntry -> Cell, i: int, j: int)
    requires Injective(name)
    requires 0 <= i < |Cells(months, name, cell)| && 0 <= j < |months|
    requires Cells(months, name, cell)[i].0 == name(months[j])
    ensures Cells(months, name, cell)[i].1 == cell(months[j])
  {
    var n := |months| - 1;
    if Cells(months, name, cell)[i].0 == name(months[n]) {
      CellValueOfLast(months, name, cell, i, j);
    } else {
      CellValueOfEarlier(months, name, cell, i, j);
      CellValue(months[..n], name, cell, i, j);
    }
  }

  /** A column labelled as the last month holds the last month's cell. */
  lemma CellValueOfLast(months: seq<MonthEntry>, name: MonthEntry -> string, cell: MonthEntry -> Cell, i: int, j: int)
    requires Injective(name)
    requires 0 <= i < |Cells(months, name, cell)| && 0 <= j < |months|
    requires Cells(months, name, cell)[i].0 == name(months[j]) == name(months[|months| - 1])
    ensures Cells(months, name, cell)[i].1 == cell(months[j])
  {
    var n := |months| - 1;
    CellsKeys(months[..n], name, cell);
    LastPutWins(Cells(months[..n], name, cell), name(months[n]), cell(months[n]), i);
  }

  /** A column not labelled as the last month is unchanged by the last put. */
  lemma CellValueOfEarlier(months: seq<MonthEntry>, name: MonthEntry -> string, cell: MonthEntry -> Cell, i: int, j: int)
    requires 0 <= i < |Cells(months, name, cell)| && 0 <= j < |months|
    requires Cells(months, name, cell)[i].0 == name(months[j]) != name(months[|months| - 1])
    ensures j < |months| - 1 && months[..|months| - 1][j] == months[j]
    ensures i < |Cells(months[..|months| - 1], name, cell)|
    ensures Cells(months, name, cell)[i] == Cells(months[..|months| - 1], name, cell)[i]
  {
  }

  /** A column holding the key just put holds the value just put, when the keys were distinct. */
  lemma LastPutWins(a: Assoc, k: string, v: Cell, i: int)
    requires Distinct(KeysOf(a))
    requires 0 <= i < |AssocPut(a, k, v)| && AssocPut(a, k, v)[i].0 == k
    ensures AssocPut(a, k, v)[i].1 == v
  {
    if i < |a| && a[i].0 == k {
      forall q | 0 <= q < i ensures a[q].0 != k {
        assert KeysOf(a)[q] != KeysOf(a)[i];
      }
    }
  }

  /**
   The month cells of a row: `resultado[mes_texto] = rentabilidad_mes` for
   every month in turn. One column per distinct label, in first-occurrence
   order, each holding its month's return.
   */
  function MonthCells(s: Series, months: seq<MonthEntry>): (a: Assoc)
    ensures KeysOf(a) == Dedup(Labels(months, Heading))
    ensures forall i, j :: 0 <= i < |a| && 0 <= j < |months| && a[i].0 == Heading(months[j])
              ==> a[i].1 == MonthReturn(s, months[j].year, months[j].month)
  {
    var cell := (e: MonthEntry) => MonthReturn(s, e.year, e.month);
    HeadingInjective();
    CellsKeys(months, Heading, cell);
    CellsValues(months, Heading, cell);
    Cells(months, Heading, cell)
  }

  // ---------------------------------------------------------------------------
  // The live table (calcular_retornos_mensuales_tiempo_real)
  // ---------------------------------------------------------------------------

  const BaseColumns: seq<string> := ["Fondo", "Serie"]
  const TwelveColumn: string := "12 M"

  /** One row of the monthly table: fund, series, the month cells and the 12-month cell. */
  datatype MonthlyRow = MonthlyRow(fund: string, serie: string, cells: Assoc, twelve: Cell)

  /** The keys of a row's dict, in insertion order. */
  function RowKeys(row: MonthlyRow): seq<string> {
    BaseColumns + KeysOf(row.cells) + [TwelveColumn]
  }

  /** The columns every live row has: fund, series, each distinct month label once, then `12 M`. */
  function MonthlyColumns(asOf: Date): seq<string> {
    BaseColumns + Dedup(Labels(MonthsForCalc(asOf), Heading)) + [TwelveColumn]
  }

  /**
   The row of one fund measured from the table date `asOf`: the month cells
   of the twelve listed months and the trailing twelve-month return.
   */
  function MonthlyRowOf(name: string, s: Series, asOf: Date): (row: MonthlyRow)
    ensures (row.fund, row.serie) == DisplaySplit(name)
    ensures RowKeys(row) == MonthlyColumns(asOf)
    ensures var months := MonthsForCalc(asOf);
            forall i, j :: 0 <= i < |row.cells| && 0 <= j < |months| && row.cells[i].0 == Heading(months[j])
              ==> row.cells[i].1 == MonthReturn(s, months[j].year, months[j].month)
    ensures row.twelve == TwelveMonthReturn(s, asOf)
  {
    var split := DisplaySplit(name);
    MonthlyRow(split.0, split.1, MonthCells(s, MonthsForCalc(asOf)), TwelveMonthReturn(s, asOf))
  }

  /** A month label never collides with the fixed columns. */
  lemma LabelIsNotFixed(e: MonthEntry)
    ensures Heading(e) !in BaseColumns && Heading(e) != TwelveColumn
  {
    var h := Heading(e);
    assert h[3] == '-';
    assert "Fondo"[3] != '-' && "Serie"[3] != '-' && TwelveColumn[3] != '-';
  }

  /** No label of a month list collides with the fixed columns. */
  lemma LabelsAreMonthColumns(months: seq<MonthEntry>)
    ensures forall l :: l in Dedup(Labels(months, Heading)) ==> IsMonthColumn(l)
  {
    forall l | l in Dedup(Labels(months, Heading)) ensures IsMonthColumn(l) {
      var k :| 0 <= k < |months| && Labels(months, Heading)[k] == l;
      LabelIsNotFixed(months[k]);
    }
  }

  /** Fixed columns around distinct month columns are all distinct. */
  lemma LayoutDistinct(labels: seq<string>)
    requires Distinct(labels) && forall l :: l in labels ==> IsMonthColumn(l)
    ensures Distinct(BaseColumns + labels + [TwelveColumn])
  {
    var cols := BaseColumns + labels + [TwelveColumn];
    forall i, j | 0 <= i < j < |cols| ensures cols[i] != cols[j] {
      if 2 <= i && j < |cols| - 1 {
        assert cols[i] == labels[i - 2] && cols[j] == labels[j - 2];
      } else if i < 2 && 2 <= j < |cols| - 1 {
        assert cols[j] == labels[j - 2];
        assert cols[j] in labels;
      } else if 2 <= i && j == |cols| - 1 {
        assert cols[i] == labels[i - 2];
        assert cols[i] in labels;
      }
    }
  }

  /** The live columns are distinct, so the frame has exactly one column per key. */
  lemma MonthlyColumnsDistinct(asOf: Date)
    ensures Distinct(MonthlyColumns(asOf))
  {
    LabelsAreMonthColumns(MonthsForCalc(asOf));
    LayoutDistinct(Dedup(Labels(MonthsForCalc(asOf), Heading)));
  }

  /**
   The live monthly table: one row per kept code, in selection order, every
   fund measured from the table's latest date and keyed by the same columns.
   */
  function MonthlyLive(t: Table, codes: seq<string>, names: seq<string>): (rows: seq<MonthlyRow>)
    requires WellFormed(t)
    ensures |rows| == |KeptIndices(t, codes, names)|
    ensures forall k :: 0 <= k < |rows| ==>
              var i := KeptIndices(t, codes, names)[k];
              rows[k] == MonthlyRowOf(names[i], KeptSeries(t, codes, i), TableMax(t))
    ensures forall k :: 0 <= k < |rows| ==> RowKeys(rows[k]) == MonthlyColumns(TableMax(t))
  {
    var kept := KeptIndices(t, codes, names);
    seq(|kept|, k requires 0 <= k < |kept| =>
      MonthlyRowOf(names[kept[k]], KeptSeries(t, codes, kept[k]), TableMax(t)))
  }

  // ---------------------------------------------------------------------------
  // Currency detection and the cache (calcular_retornos_mensuales_completos*)
  // ---------------------------------------------------------------------------

  /**
   The currency `calcular_retornos_mensuales_completos` guesses for its
   frame: USD only when the dashboard's globals exist, the frame does not
   equal the peso table and equals the dollar table, and nothing raised;
   CLP in every other case.
   */
  function DetectCurrency(hasGlobals: bool, equalsPeso: bool, equalsDollar: bool, raised: bool): (c: Currency)
    ensures c == USD <==> !raised && hasGlobals && !equalsPeso && equalsDollar
  {
    if raised || !hasGlobals then CLP
    else if equalsPeso then CLP
    else if equalsDollar then USD
    else CLP
  }

  /**
   Given one of two different tables, the guess is the table's own currency,
   the one the dashboard's callers pass explicitly.
   */
  lemma DetectCurrencyOfOwnTable(isPesoTable: bool)
    ensures DetectCurrency(true, isPesoTable, !isPesoTable, false) == CurrencyOf(isPesoTable)
  {
  }

  /** `calcular_retornos_mensuales_completos_con_moneda`: the cached frame for `cur` when it serves, else the live table. */
  function MonthlyWithCurrency(t: Table, cur: Currency, codes: seq<string>, names: seq<string>,
                               upToDate: bool, cache: Cache<MonthlyRow>): (rows: seq<MonthlyRow>)
    requires WellFormed(t)
    ensures rows == MonthlyLive(t, codes, names)
            || (upToDate && cache(cur, codes, names) == Returned(Some(rows)) && |rows| > 0)
    ensures !upToDate ==> rows == MonthlyLive(t, codes, names)
    ensures CacheServes(upToDate, cache(cur, codes, names)) ==> rows == cache(cur, codes, names).frame.value
  {
    WithFallback(upToDate, cache(cur, codes, names), MonthlyLive(t, codes, names))
  }

  /**
   `calcular_retornos_mensuales_completos`: the same as the builder with an
   explicit currency, asking the cache in the guessed currency.
   */
  function MonthlyComplete(t: Table, hasGlobals: bool, equalsPeso: bool, equalsDollar: bool, raised: bool,
                           codes: seq<string>, names: seq<string>,
                           upToDate: bool, cache: Cache<MonthlyRow>): (rows: seq<MonthlyRow>)
    requires WellFormed(t)
    ensures rows == MonthlyLive(t, codes, names)
            || (upToDate && |rows| > 0
                && cache(DetectCurrency(hasGlobals, equalsPeso, equalsDollar, raised), codes, names) == Returned(Some(rows)))
    ensures !upToDate ==> rows == MonthlyLive(t, codes, names)
    ensures CacheServes(upToDate, cache(DetectCurrency(hasGlobals, equalsPeso, equalsDollar, raised), codes, names))
            ==> rows == cache(DetectCurrency(hasGlobals, equalsPeso, equalsDollar, raised), codes, names).frame.value
  {
    MonthlyWithCurrency(t, DetectCurrency(hasGlobals, equalsPeso, equalsDollar, raised), codes, names, upToDate, cache)
  }

  /**
   When the frame is recognised as its own table, the guessing builder and
   the explicit one return the same rows.
   */
  lemma MonthlyCompleteAgrees(t: Table, isPesoTable: bool, codes: seq<string>, names: seq<string>,
                              upToDate: bool, cache: Cache<MonthlyRow>)
    requires WellFormed(t)
    ensures MonthlyComplete(t, true, isPesoTable, !isPesoTable, false, codes, names, upToDate, cache)
            == MonthlyWithCurrency(t, CurrencyOf(isPesoTable), codes, names, upToDate, cache)
  {
    DetectCurrencyOfOwnTable(isPesoTable);
  }

  // ---------------------------------------------------------------------------
  // Column order (crear_tabla_categoria_mensual)
  // ---------------------------------------------------------------------------

  /** Whether a column is one of the month columns (neither fixed column nor `12 M`). */
  predicate IsMonthColumn(c: string) {
    c !in BaseColumns && c != TwelveColumn
  }

  /** `[col for col in cols if col not in columnas_base and col != '12 M']`. */
  function MonthColumns(cols: seq<string>): (r: seq<string>)
    ensures forall c :: c in r <==> c in cols && IsMonthColumn(c)
  {
    FilterMembers(cols, IsMonthColumn);
    Filter(cols, IsMonthColumn)
  }

  /** `[col for col in cols if keep(col)]`. */
  function Filter(cols: seq<string>, keep: string -> bool): seq<string> {
    if |cols| == 0 then []
    else
      var n := |cols| - 1;
      Filter(cols[..n], keep) + (if keep(cols[n]) then [cols[n]] else [])
  }

  /** The filter keeps exactly the columns that pass it. */
  lemma {:induction false} FilterMembers(cols: seq<string>, keep: string -> bool)
    ensures forall c :: c in Filter(cols, keep) <==> c in cols && keep(c)
  {
    if |cols| > 0 {
      var n := |cols| - 1;
      FilterMembers(cols[..n], keep);
      assert cols == cols[..n] + [cols[n]];
    }
  }

  /** Filtering a concatenation filters each part. */
  lemma {:induction false} FilterAppend(a: seq<string>, b: seq<string>, keep: string -> bool)
    ensures Filter(a + b, keep) == Filter(a, keep) + Filter(b, keep)
  {
    if |b| == 0 {
      assert a + b == a;
    } else {
      var n := |b| - 1;
      FilterAppend(a, b[..n], keep);
      assert (a + b)[..|a + b| - 1] == a + b[..n];
      assert (a + b)[|a + b| - 1] == b[n];
    }
  }

  /** Columns that all pass the filter come through unchanged. */
  lemma {:induction false} FilterKeeps(cols: seq<string>, keep: string -> bool)
    requires forall i :: 0 <= i < |cols| ==> keep(cols[i])
    ensures Filter(cols, keep) == cols
  {
    if |cols| > 0 {
      var n := |cols| - 1;
      FilterKeeps(cols[..n], keep);
      assert cols[..n] + [cols[n]] == cols;
    }
  }

  /** Columns that all fail the filter are dropped. */
  lemma {:induction false} FilterDrops(cols: seq<string>, keep: string -> bool)
    requires forall i :: 0 <= i < |cols| ==> !keep(cols[i])
    ensures Filter(cols, keep) == []
  {
    if |cols| > 0 {
      FilterDrops(cols[..|cols| - 1], keep);
    }
  }

  /** Membership in `cols`, as a filter. */
  function InCols(cols: seq<string>): string -> bool {
    c => c in cols
  }

  /** `[col for col in order if col in cols]`. */
  function Available(order: seq<string>, cols: seq<string>): (r: seq<string>)
    ensures forall c :: c in r <==> c in order && c in cols
    ensures |order| > 0 && order[0] in cols ==> |r| > 0 && r[0] == order[0]
    ensures |order| > 0 && order[|order| - 1] in cols ==> |r| > 0 && r[|r| - 1] == order[|order| - 1]
  {
    FilterMembers(order, InCols(cols));
    FilterEnds(order, InCols(cols));
    Filter(order, InCols(cols))
  }

  /** A first or last column that passes the filter stays first or last. */
  lemma {:induction false} FilterEnds(cols: seq<string>, keep: string -> bool)
    ensures |cols| > 0 && keep(cols[0]) ==> |Filter(cols, keep)| > 0 && Filter(cols, keep)[0] == cols[0]
    ensures |cols| > 0 && keep(cols[|cols| - 1]) ==> |Filter(cols, keep)| > 0 && Filter(cols, keep)[|Filter(cols, keep)| - 1] == cols[|cols| - 1]
  {
    if |cols| > 1 {
      var n := |cols| - 1;
      FilterEnds(cols[..n], keep);
      assert cols[..n][0] == cols[0];
    }
  }

  /** Keeping the columns that exist changes nothing when every column exists. */
  lemma AvailableKeeps(order: seq<string>, cols: seq<string>)
    requires forall i :: 0 <= i < |order| ==> order[i] in cols
    ensures Available(order, cols) == order
  {
    FilterKeeps(order, InCols(cols));
  }

  /**
   The column order of the monthly category table: fund and series first,
   then the other columns in frame order, `12 M` last, keeping only columns
   the frame has.
   */
  function ColumnOrder(cols: seq<string>): (r: seq<string>)
    ensures forall c :: c in r <==> c in cols
    ensures "Fondo" in cols ==> |r| > 0 && r[0] == "Fondo"
    ensures TwelveColumn in cols ==> |r| > 0 && r[|r| - 1] == TwelveColumn
    ensures r == IfIn("Fondo", cols) + IfIn("Serie", cols) + MonthColumns(cols) + IfIn(TwelveColumn, cols)
  {
    var order := BaseColumns + MonthColumns(cols) + [TwelveColumn];
    assert order[0] == "Fondo" && order[|order| - 1] == TwelveColumn;
    ColumnOrderParts(cols);
    Available(order, cols)
  }

  /** The column `c` alone when the frame has it, nothing otherwise. */
  function IfIn(c: string, cols: seq<string>): seq<string> {
    if c in cols then [c] else []
  }

  /** A single column passes the filter or is dropped. */
  lemma FilterSingle(c: string, keep: string -> bool)
    ensures Filter([c], keep) == if keep(c) then [c] else []
  {
    assert [c][..0] == [];
  }

  /** Keeping the present columns of the fixed order, piece by piece. */
  lemma ColumnOrderParts(cols: seq<string>)
    ensures Filter(BaseColumns + MonthColumns(cols) + [TwelveColumn], InCols(cols))
            == IfIn("Fondo", cols) + IfIn("Serie", cols) + MonthColumns(cols) + IfIn(TwelveColumn, cols)
  {
    var keep := InCols(cols);
    var months := MonthColumns(cols);
    FilterSingle("Fondo", keep);
    FilterSingle("Serie", keep);
    FilterSingle(TwelveColumn, keep);
    assert BaseColumns == ["Fondo"] + ["Serie"];
    FilterAppend(["Fondo"], ["Serie"], keep);
    FilterKeeps(months, keep);
    FilterAppend(BaseColumns, months, keep);
    FilterAppend(BaseColumns + months, [TwelveColumn], keep);
  }

  /** Fixed columns around month columns are already in display order. */
  lemma ColumnOrderKeepsLayout(labels: seq<string>)
    requires forall l :: l in labels ==> IsMonthColumn(l)
    ensures ColumnOrder(BaseColumns + labels + [TwelveColumn]) == BaseColumns + labels + [TwelveColumn]
  {
    var cols := BaseColumns + labels + [TwelveColumn];
    MonthColumnsOfLayout(labels);
    AvailableKeeps(cols, cols);
    assert ColumnOrder(cols) == Available(cols, cols);
  }

  /** The month columns of the layout are its labels. */
  lemma MonthColumnsOfLayout(labels: seq<string>)
    requires forall l :: l in labels ==> IsMonthColumn(l)
    ensures MonthColumns(BaseColumns + labels + [TwelveColumn]) == labels
  {
    assert !IsMonthColumn(BaseColumns[0]) && !IsMonthColumn(BaseColumns[1]) && !IsMonthColumn(TwelveColumn);
    FilterSurrounded(BaseColumns, labels, [TwelveColumn], IsMonthColumn);
  }

  /** Between two runs of columns that fail the filter, the filter keeps a run that passes it. */
  lemma FilterSurrounded(before: seq<string>, middle: seq<string>, after: seq<string>, keep: string -> bool)
    requires forall i :: 0 <= i < |before| ==> !keep(before[i])
    requires forall i :: 0 <= i < |middle| ==> keep(middle[i])
    requires forall i :: 0 <= i < |after| ==> !keep(after[i])
    ensures Filter(before + middle + after, keep) == middle
  {
    var front := before + middle;
    FilterDrops(before, keep);
    FilterKeeps(middle, keep);
    FilterAppend(before, middle, keep);
    assert Filter(front, keep) == [] + middle == middle;
    FilterDrops(after, keep);
    FilterAppend(front, after, keep);
    assert Filter(front + after, keep) == middle + [] == middle;
  }

  /** The live frame is already in display order: reordering leaves its columns as they are. */
  lemma ColumnOrderKeepsLiveLayout(asOf: Date)
    ensures ColumnOrder(MonthlyColumns(asOf)) == MonthlyColumns(asOf)
  {
    LabelsAreMonthColumns(MonthsForCalc(asOf));
    ColumnOrderKeepsLayout(Dedup(Labels(MonthsForCalc(asOf), Heading)));
  }

  // ---------------------------------------------------------------------------
  // The category table (crear_tabla_categoria_mensual)
  // ---------------------------------------------------------------------------

  /** Every row's keys, one row after another. */
  function AllKeys(rows: seq<MonthlyRow>): (ks: seq<string>)
    ensures forall c :: c in ks <==> exists k :: 0 <= k < |rows| && c in RowKeys(rows[k])
  {
    if |rows| == 0 then []
    else
      var n := |rows| - 1;
      var init := AllKeys(rows[..n]);
      assert forall k :: 0 <= k < n ==> rows[..n][k] == rows[k];
      init + RowKeys(rows[n])
  }

  /** The columns of `pd.DataFrame(rows)`: every key of every row, in first-appearance order. */
  function FrameColumns(rows: seq<MonthlyRow>): (cols: seq<string>)
    ensures Distinct(cols)
    ensures forall c :: c in cols <==> exists k :: 0 <= k < |rows| && c in RowKeys(rows[k])
  {
    Dedup(AllKeys(rows))
  }

  /** Rows that all have the same distinct keys make a frame with exactly those columns. */
  lemma {:induction false} SharedKeysFrame(rows: seq<MonthlyRow>, cols: seq<string>)
    requires |rows| > 0 && Distinct(cols)
    requires forall k :: 0 <= k < |rows| ==> RowKeys(rows[k]) == cols
    ensures FrameColumns(rows) == cols
  {
    var n := |rows| - 1;
    var init := rows[..n];
    if n == 0 {
      assert init == [];
      assert AllKeys(rows) == cols;
      DedupOfDistinct(cols);
    } else {
      SharedKeysFrame(init, cols);
      assert AllKeys(rows) == AllKeys(init) + cols;
      DedupAppendSeen(AllKeys(init), cols);
    }
  }

  /** A category table as displayed: its ordered columns and its rows. */
  datatype TableView = TableView(columns: seq<string>, rows: seq<MonthlyRow>)

  /**
   `crear_tabla_categoria_mensual`: nothing (an empty `html.Div`) when the
   category has no fund, no fund has a code in the currency, or the builder
   returns no row; otherwise the rows under the reordered frame columns.
   */
  function MonthlyCategoryTable(funds: seq<string>, m: Mappings, t: Table, cur: Currency,
                                upToDate: bool, cache: Cache<MonthlyRow>): (r: Option<TableView>)
    requires WellFormed(t)
    ensures |funds| == 0 ==> r.None?
    ensures |CategoryCodes(funds, m, cur).0| == 0 ==> r.None?
    ensures var cn := CategoryCodes(funds, m, cur);
            var rows := MonthlyWithCurrency(t, cur, cn.0, cn.1, upToDate, cache);
            && (r.Some? <==> |funds| > 0 && |cn.0| > 0 && |rows| > 0)
            && (r.Some? ==> r.value.rows == rows)
    ensures r.Some? ==> Displayed(r.value)
    ensures r.Some? ==> var cols := FrameColumns(r.value.rows);
            r.value.columns == IfIn("Fondo", cols) + IfIn("Serie", cols) + MonthColumns(cols) + IfIn(TwelveColumn, cols)
  {
    if |funds| == 0 then None
    else
      var cn := CategoryCodes(funds, m, cur);
      if |cn.0| == 0 then None
      else
        var rows := MonthlyWithCurrency(t, cur, cn.0, cn.1, upToDate, cache);
        if |rows| == 0 then None else Some(ViewOf(rows))
  }

  /**
   A shown table: it has rows, its columns are exactly the keys some row
   has, and `12 M`, when present, is the last column.
   */
  ghost predicate Displayed(v: TableView) {
    && |v.rows| > 0
    && (forall c :: c in v.columns <==> exists k :: 0 <= k < |v.rows| && c in RowKeys(v.rows[k]))
    && (TwelveColumn in v.columns ==> v.columns[|v.columns| - 1] == TwelveColumn)
  }

  /** The rows under the frame's columns in display order. */
  function ViewOf(rows: seq<MonthlyRow>): (v: TableView)
    requires |rows| > 0
    ensures v.rows == rows && Displayed(v)
    ensures var cols := FrameColumns(rows);
            v.columns == IfIn("Fondo", cols) + IfIn("Serie", cols) + MonthColumns(cols) + IfIn(TwelveColumn, cols)
  {
    TableView(ColumnOrder(FrameColumns(rows)), rows)
  }

  /**
   Computed live, a category table shows fund, series, each distinct month
   label once in listing order, then `12 M`, whatever the number of funds.
   */
  lemma MonthlyCategoryLiveLayout(funds: seq<string>, m: Mappings, t: Table, cur: Currency, cache: Cache<MonthlyRow>)
    requires WellFormed(t)
    requires MonthlyCategoryTable(funds, m, t, cur, false, cache).Some?
    ensures MonthlyCategoryTable(funds, m, t, cur, false, cache).value.columns == MonthlyColumns(TableMax(t))
  {
    var (codes, names) := CategoryCodes(funds, m, cur);
    var rows := MonthlyLive(t, codes, names);
    MonthlyColumnsDistinct(TableMax(t));
    SharedKeysFrame(rows, MonthlyColumns(TableMax(t)));
    ColumnOrderKeepsLiveLayout(TableMax(t));
  }
}
