/**
 Price series, the wide price table they are cut from, and the result cell.

 A series is what `df[['Dates', codigo]].dropna()` produces: the observations
 of one fund code in table order, with the missing prices removed. Every
 formula of the system reads such a series by POSITION: it filters the rows
 by a date condition and takes `iloc[0]` or `iloc[-1]` of what is left. The
 functions `FirstIndex`, `LastIndex` and `Count` below are exactly those three
 readings.
 */
module Series {
  import opened Wrappers
  import opened Calendar

  /** One (date, price) observation. */
  datatype Obs = Obs(date: Date, price: real)

  type Series = seq<Obs>

  /**
   A result cell: a number (a percentage), the numeric NaN that the inline
   checks return, or the `"-"` marker that the validator-gated tables write.
   */
  datatype Cell = Num(value: real) | NaN | Dash

  /** Dates strictly increase along the series. */
  predicate Sorted(s: Series) {
    forall i, j :: 0 <= i < j < |s| ==> s[i].date < s[j].date
  }

  /** Every price is strictly positive. */
  predicate Positive(s: Series) {
    forall i :: 0 <= i < |s| ==> s[i].price > 0.0
  }

  function Last(s: Series): Obs
    requires |s| > 0
  {
    s[|s| - 1]
  }

  /** `(actual / base - 1) * 100`, the simple return in percent. */
  function SimpleReturn(current: real, base: real): (r: real)
    requires base != 0.0
    ensures r / 100.0 + 1.0 == current / base
  {
    (current / base - 1.0) * 100.0
  }

  /** A price grown by a return in percent: the inverse of `SimpleReturn`. */
  function Grown(base: real, ret: real): real {
    base * (ret / 100.0 + 1.0)
  }

  lemma GrowBack(current: real, base: real, ret: real)
    requires base != 0.0 && ret / 100.0 + 1.0 == current / base
    ensures current == Grown(base, ret)
  {
    assert base * (current / base) == current;
  }

  // ---------------------------------------------------------------------------
  // Date filters and their positional readings
  // ---------------------------------------------------------------------------

  /**
   The row conditions the formulas filter on: `Dates >= lo` (with `lo` a real
   number of days, so that `timedelta(days = N * 365.25)` is exact),
   `Dates.dt.year == y`, and `Dates.dt.year == y & Dates.dt.month == m`.
   */
  datatype DateFilter = Since(lo: real) | InYear(year: int) | InMonth(year: int, month: int)

  predicate Holds(f: DateFilter, d: Date) {
    match f
    case Since(lo) => d as real >= lo
    case InYear(y) => YearOf(d) == y
    case InMonth(y, m) => YearOf(d) == y && MonthOf(d) == m
  }

  /** Position of `s[filter].iloc[0]`, or None when the filtered frame is empty. */
  function FirstIndex(s: Series, f: DateFilter): (r: Option<nat>)
    ensures r.Some? ==> r.value < |s| && Holds(f, s[r.value].date)
    ensures r.Some? ==> forall j :: 0 <= j < r.value ==> !Holds(f, s[j].date)
    ensures r.None? <==> forall j :: 0 <= j < |s| ==> !Holds(f, s[j].date)
  {
    FirstTrue(Mask(s, f), 0)
  }

  /** Whether each row passes the filter (the boolean mask `s[filter]` applies). */
  function Mask(s: Series, f: DateFilter): (m: seq<bool>)
    ensures |m| == |s| && forall j :: 0 <= j < |s| ==> m[j] == Holds(f, s[j].date)
  {
    seq(|s|, j requires 0 <= j < |s| => Holds(f, s[j].date))
  }

  /** The first position at or after `i` where the mask is set. */
  function FirstTrue(m: seq<bool>, i: nat): (r: Option<nat>)
    requires i <= |m|
    ensures r.Some? ==> i <= r.value < |m| && m[r.value]
    ensures r.Some? ==> forall j :: i <= j < r.value ==> !m[j]
    ensures r.None? <==> forall j :: i <= j < |m| ==> !m[j]
    decreases |m| - i
  {
    if i == |m| then None
    else if m[i] then Some(i)
    else FirstTrue(m, i + 1)
  }

  /** Position of `s[filter].iloc[-1]`, or None when the filtered frame is empty. */
  function LastIndex(s: Series, f: DateFilter): (r: Option<nat>)
    ensures r.Some? ==> r.value < |s| && Holds(f, s[r.value].date)
    ensures r.Some? ==> forall j :: r.value < j < |s| ==> !Holds(f, s[j].date)
    ensures r.None? <==> forall j :: 0 <= j < |s| ==> !Holds(f, s[j].date)
  {
    LastTrue(Mask(s, f), |s|)
  }

  /** The last position before `n` where the mask is set. */
  function LastTrue(m: seq<bool>, n: nat): (r: Option<nat>)
    requires n <= |m|
    ensures r.Some? ==> r.value < n && m[r.value]
    ensures r.Some? ==> forall j :: r.value < j < n ==> !m[j]
    ensures r.None? <==> forall j :: 0 <= j < n ==> !m[j]
  {
    if n == 0 then None
    else if m[n - 1] then Some(n - 1)
    else LastTrue(m, n - 1)
  }

  /** `len(s[filter])`: the rows the mask selects. */
  function Count(s: Series, f: DateFilter): (r: nat)
    ensures r <= |s|
    ensures r == 0 <==> forall j :: 0 <= j < |s| ==> !Holds(f, s[j].date)
    ensures r == |s| <==> forall j :: 0 <= j < |s| ==> Holds(f, s[j].date)
  {
    CountTrue(Mask(s, f))
  }

  /** The number of set positions of a mask. */
  function CountTrue(m: seq<bool>): (r: nat)
    ensures r <= |m|
    ensures r == 0 <==> forall j :: 0 <= j < |m| ==> !m[j]
    ensures r == |m| <==> forall j :: 0 <= j < |m| ==> m[j]
  {
    if |m| == 0 then 0
    else
      var n := |m| - 1;
      assert forall j :: 0 <= j < n ==> m[..n][j] == m[j];
      (if m[n] then 1 else 0) + CountTrue(m[..n])
  }

  /** Two set positions make a count of at least two. */
  lemma {:induction false} CountTrueAtLeastTwo(m: seq<bool>, i: int, j: int)
    requires 0 <= i < j < |m| && m[i] && m[j]
    ensures CountTrue(m) >= 2
  {
    var n := |m| - 1;
    assert m[..n][i] == m[i];
    if j < n {
      assert m[..n][j] == m[j];
      CountTrueAtLeastTwo(m[..n], i, j);
    } else {
      assert CountTrue(m[..n]) >= 1;
    }
  }

  /** A mask set at most at position `i` counts at most one. */
  lemma {:induction false} CountTrueAtMostOne(m: seq<bool>, i: int)
    requires forall j :: 0 <= j < |m| && j != i ==> !m[j]
    ensures CountTrue(m) <= 1
  {
    if |m| > 0 {
      var n := |m| - 1;
      if n == i {
        assert forall j :: 0 <= j < n ==> !m[..n][j];
      } else {
        assert forall j :: 0 <= j < n && j != i ==> !m[..n][j];
        CountTrueAtMostOne(m[..n], i);
      }
    }
  }

  /** Two filtered rows make a count of at least two. */
  lemma CountAtLeastTwo(s: Series, f: DateFilter, i: int, j: int)
    requires 0 <= i < j < |s| && Holds(f, s[i].date) && Holds(f, s[j].date)
    ensures Count(s, f) >= 2
  {
    CountTrueAtLeastTwo(Mask(s, f), i, j);
  }

  /** `k` is the position of the first filtered row (`s[filter].iloc[0]`). */
  predicate IsFirstIn(s: Series, f: DateFilter, k: int) {
    0 <= k < |s| && Holds(f, s[k].date) && forall j :: 0 <= j < k ==> !Holds(f, s[j].date)
  }

  /** `k` is the position of the last filtered row (`s[filter].iloc[-1]`). */
  predicate IsLastIn(s: Series, f: DateFilter, k: int) {
    0 <= k < |s| && Holds(f, s[k].date) && forall j :: k < j < |s| ==> !Holds(f, s[j].date)
  }

  /** The first filtered row is located by `FirstIndex`. */
  lemma FirstIndexIs(s: Series, f: DateFilter, k: int)
    requires IsFirstIn(s, f, k)
    ensures FirstIndex(s, f) == Some(k)
  {
  }

  /** The last filtered row is located by `LastIndex`. */
  lemma LastIndexIs(s: Series, f: DateFilter, k: int)
    requires IsLastIn(s, f, k)
    ensures LastIndex(s, f) == Some(k)
  {
  }

  /** `LastIndex` finds the last filtered row, and finds none exactly when the filter selects nothing. */
  lemma LastIndexFinds(s: Series, f: DateFilter)
    ensures LastIndex(s, f).None? <==> Count(s, f) == 0
    ensures LastIndex(s, f).Some? ==> IsLastIn(s, f, LastIndex(s, f).value)
    ensures forall k :: IsLastIn(s, f, k) ==> LastIndex(s, f) == Some(k)
  {
    forall k | IsLastIn(s, f, k) ensures LastIndex(s, f) == Some(k) {
      LastIndexIs(s, f, k);
    }
  }

  /** Two or more filtered rows put the first and the last of them at different positions. */
  lemma CountTwoApart(s: Series, f: DateFilter)
    requires Count(s, f) >= 2
    ensures FirstIndex(s, f).Some? && LastIndex(s, f).Some?
    ensures FirstIndex(s, f).value < LastIndex(s, f).value
  {
    var m := Mask(s, f);
    var i, k := FirstIndex(s, f).value, LastIndex(s, f).value;
    if k <= i {
      assert forall j :: 0 <= j < |m| && j != i ==> !m[j];
      CountTrueAtMostOne(m, i);
    }
  }


  /** On a sorted series the first row at or after `lo` is the earliest such observation. */
  lemma SinceIsSuffix(s: Series, lo: real, k: nat)
    requires Sorted(s)
    requires FirstIndex(s, Since(lo)) == Some(k)
    ensures forall j :: k <= j < |s| ==> s[j].date as real >= lo
    ensures forall j :: 0 <= j < k ==> s[j].date as real < lo
  {
  }

  // ---------------------------------------------------------------------------
  // The wide price table
  // ---------------------------------------------------------------------------

  /** One price column: its fund code and one optional price per table date. */
  datatype Column = Column(code: string, cells: seq<Option<real>>)

  /** A currency's price table: the `Dates` column and one column per fund code. */
  datatype Table = Table(dates: seq<Date>, columns: seq<Column>)

  predicate StrictlyIncreasing(ds: seq<Date>) {
    forall i, j :: 0 <= i < j < |ds| ==> ds[i] < ds[j]
  }

  /**
   The shape every table has: dates strictly increase, every column has one
   cell per date, codes are distinct, and every price present is positive.
   */
  predicate WellFormed(t: Table) {
    && StrictlyIncreasing(t.dates)
    && (forall c :: 0 <= c < |t.columns| ==> |t.columns[c].cells| == |t.dates|)
    && (forall c, d :: 0 <= c < d < |t.columns| ==> t.columns[c].code != t.columns[d].code)
    && (forall c, i :: 0 <= c < |t.columns| && 0 <= i < |t.columns[c].cells| && t.columns[c].cells[i].Some?
          ==> t.columns[c].cells[i].value > 0.0)
  }

  /** Position of the column named `code` (`codigo in df.columns`). */
  function ColumnIndex(t: Table, code: string): (r: Option<nat>)
    ensures r.Some? ==> r.value < |t.columns| && t.columns[r.value].code == code
    ensures r.None? <==> forall c :: 0 <= c < |t.columns| ==> t.columns[c].code != code
    decreases |t.columns|
  {
    if |t.columns| == 0 then None
    else if t.columns[0].code == code then Some(0)
    else
      match ColumnIndex(Table(t.dates, t.columns[1..]), code)
      case None => None
      case Some(k) => Some(k + 1)
  }

  /** The dates and prices of the rows whose price is present, in table order (`dropna`). */
  function DropMissing(dates: seq<Date>, cells: seq<Option<real>>): (s: Series)
    requires |dates| == |cells|
    ensures |s| <= |dates|
    ensures |s| == 0 <==> forall i :: 0 <= i < |cells| ==> cells[i].None?
    ensures StrictlyIncreasing(dates) ==> Sorted(s)
    ensures forall k :: 0 <= k < |s| ==>
              exists i :: 0 <= i < |dates| && dates[i] == s[k].date && cells[i] == Some(s[k].price)
    ensures forall i {:trigger Obs(dates[i], cells[i].value)} :: 0 <= i < |cells| && cells[i].Some? ==> Obs(dates[i], cells[i].value) in s
  {
    if |dates| == 0 then []
    else
      var n := |dates| - 1;
      var pd, pc := dates[..n], cells[..n];
      var init := DropMissing(pd, pc);
      var r := if cells[n].Some? then init + [Obs(dates[n], cells[n].value)] else init;
      PrefixFacts(dates, cells, pd, pc, init);
      DropStepEmpty(cells, |init| == 0);
      DropStepSound(dates, cells, init, r);
      DropStepComplete(dates, cells, init, r);
      DropStepSorted(dates, cells, init, r);
      r
  }

  /** `s` holds exactly the present cells of a column, each with its row's date. */
  ghost predicate ExactlyPresent(dates: seq<Date>, cells: seq<Option<real>>, s: Series)
    requires |dates| == |cells|
  {
    && (forall k :: 0 <= k < |s| ==>
          exists i :: 0 <= i < |dates| && dates[i] == s[k].date && cells[i] == Some(s[k].price))
    && (forall i {:trigger Obs(dates[i], cells[i].value)} :: 0 <= i < |cells| && cells[i].Some? ==> Obs(dates[i], cells[i].value) in s)
  }

  /** What the recursive call states about the prefix, restated on the whole column's indices. */
  lemma PrefixFacts(dates: seq<Date>, cells: seq<Option<real>>, pd: seq<Date>, pc: seq<Option<real>>, init: Series)
    requires |dates| == |cells| > 0 && pd == dates[..|dates| - 1] && pc == cells[..|cells| - 1]
    requires |init| == 0 <==> forall i :: 0 <= i < |pc| ==> pc[i].None?
    requires forall k :: 0 <= k < |init| ==>
               exists i :: 0 <= i < |pd| && pd[i] == init[k].date && pc[i] == Some(init[k].price)
    requires forall i {:trigger Obs(pd[i], pc[i].value)} :: 0 <= i < |pc| && pc[i].Some? ==> Obs(pd[i], pc[i].value) in init
    ensures |init| == 0 <==> forall i :: 0 <= i < |cells| - 1 ==> cells[i].None?
    ensures forall k :: 0 <= k < |init| ==>
              exists i :: 0 <= i < |dates| - 1 && dates[i] == init[k].date && cells[i] == Some(init[k].price)
    ensures forall i {:trigger Obs(dates[i], cells[i].value)} :: 0 <= i < |cells| - 1 && cells[i].Some? ==> Obs(dates[i], cells[i].value) in init
  {
    assert forall i :: 0 <= i < |pd| ==> pd[i] == dates[i] && pc[i] == cells[i];
  }

  /** No price is present in the whole column exactly when none is in its prefix and the last is missing. */
  lemma DropStepEmpty(cells: seq<Option<real>>, prefixEmpty: bool)
    requires |cells| > 0
    requires prefixEmpty <==> forall i :: 0 <= i < |cells| - 1 ==> cells[i].None?
    ensures (prefixEmpty && cells[|cells| - 1].None?) <==> forall i :: 0 <= i < |cells| ==> cells[i].None?
  {
  }

  /** Each row kept after one more `dropna` step is a present cell of the longer column. */
  lemma DropStepSound(dates: seq<Date>, cells: seq<Option<real>>, init: Series, r: Series)
    requires |dates| == |cells| > 0
    requires forall k :: 0 <= k < |init| ==>
               exists i :: 0 <= i < |dates| - 1 && dates[i] == init[k].date && cells[i] == Some(init[k].price)
    requires r == if cells[|cells| - 1].Some? then init + [Obs(dates[|dates| - 1], cells[|cells| - 1].value)] else init
    ensures forall k :: 0 <= k < |r| ==>
              exists i :: 0 <= i < |dates| && dates[i] == r[k].date && cells[i] == Some(r[k].price)
  {
    var n := |dates| - 1;
    forall k | 0 <= k < |r|
      ensures exists i :: 0 <= i < |dates| && dates[i] == r[k].date && cells[i] == Some(r[k].price)
    {
      if k < |init| {
        var i :| 0 <= i < n && dates[i] == init[k].date && cells[i] == Some(init[k].price);
        assert r[k] == init[k];
      } else {
        assert r[k] == Obs(dates[n], cells[n].value);
      }
    }
  }

  /** Every present cell of the longer column is kept after one more `dropna` step. */
  lemma DropStepComplete(dates: seq<Date>, cells: seq<Option<real>>, init: Series, r: Series)
    requires |dates| == |cells| > 0
    requires forall i {:trigger Obs(dates[i], cells[i].value)} :: 0 <= i < |cells| - 1 && cells[i].Some? ==> Obs(dates[i], cells[i].value) in init
    requires r == if cells[|cells| - 1].Some? then init + [Obs(dates[|dates| - 1], cells[|cells| - 1].value)] else init
    ensures forall i {:trigger Obs(dates[i], cells[i].value)} :: 0 <= i < |cells| && cells[i].Some? ==> Obs(dates[i], cells[i].value) in r
  {
    var n := |dates| - 1;
    if cells[n].Some? {
      assert r[|r| - 1] == Obs(dates[n], cells[n].value);
    }
  }

  /** On strictly increasing dates, one more `dropna` step keeps the kept rows sorted. */
  lemma DropStepSorted(dates: seq<Date>, cells: seq<Option<real>>, init: Series, r: Series)
    requires |dates| == |cells| > 0
    requires StrictlyIncreasing(dates[..|dates| - 1]) ==> Sorted(init)
    requires forall k :: 0 <= k < |init| ==>
               exists i :: 0 <= i < |dates| - 1 && dates[i] == init[k].date && cells[i] == Some(init[k].price)
    requires r == if cells[|cells| - 1].Some? then init + [Obs(dates[|dates| - 1], cells[|cells| - 1].value)] else init
    ensures StrictlyIncreasing(dates) ==> Sorted(r)
  {
    var n := |dates| - 1;
    if !StrictlyIncreasing(dates) { return; }
    assert StrictlyIncreasing(dates[..n]);
    forall k | 0 <= k < |init| ensures init[k].date < dates[n] {
      var i :| 0 <= i < n && dates[i] == init[k].date && cells[i] == Some(init[k].price);
    }
  }

  /** `df[['Dates', code]].dropna()`, or None when `code` is not a column of the table. */
  function SeriesOf(t: Table, code: string): (r: Option<Series>)
    requires WellFormed(t)
    ensures r.Some? <==> exists c :: 0 <= c < |t.columns| && t.columns[c].code == code
    ensures r.Some? ==> Sorted(r.value) && Positive(r.value)
    ensures r.Some? ==> forall k :: 0 <= k < |r.value| ==> r.value[k].date in t.dates
  {
    match ColumnIndex(t, code)
    case None => None
    case Some(c) =>
      var s := DropMissing(t.dates, t.columns[c].cells);
      assert Positive(s) by {
        forall k | 0 <= k < |s| ensures s[k].price > 0.0 {
          var i :| 0 <= i < |t.dates| && t.dates[i] == s[k].date && t.columns[c].cells[i] == Some(s[k].price);
        }
      }
      Some(s)
  }

  /** The series of a column holds exactly the column's present prices, each with its row's date. */
  lemma SeriesOfExact(t: Table, code: string, c: nat)
    requires WellFormed(t) && c < |t.columns| && t.columns[c].code == code
    ensures SeriesOf(t, code).Some? && ExactlyPresent(t.dates, t.columns[c].cells, SeriesOf(t, code).value)
  {
    assert ColumnIndex(t, code) == Some(c);
  }

  /** A code yields a row: it is a column and it has at least one price. */
  predicate Present(t: Table, code: string)
    requires WellFormed(t)
  {
    SeriesOf(t, code).Some? && |SeriesOf(t, code).value| > 0
  }

  /** `df['Dates'].max()`; only read when the table has rows, so an empty table yields 0. */
  function TableMax(t: Table): (d: Date)
    requires WellFormed(t)
    ensures |t.dates| > 0 ==> d in t.dates
    ensures forall i :: 0 <= i < |t.dates| ==> t.dates[i] <= d
  {
    if |t.dates| == 0 then 0 else t.dates[|t.dates| - 1]
  }

  /**
   The codes that produce a row, as positions into the `zip(codes, names)`
   walk: exactly the positions whose code is a column with some price, in
   increasing order.
   */
  function KeptIndices(t: Table, codes: seq<string>, names: seq<string>): (r: seq<nat>)
    requires WellFormed(t)
    ensures forall k :: 0 <= k < |r| ==> r[k] < |codes| && r[k] < |names| && Present(t, codes[r[k]])
    ensures forall k, l :: 0 <= k < l < |r| ==> r[k] < r[l]
    ensures forall i :: 0 <= i < |codes| && i < |names| && Present(t, codes[i]) ==> i in r
  {
    var n := if |codes| <= |names| then |codes| else |names|;
    var keep := seq(n, j requires 0 <= j < n => Present(t, codes[j]));
    TrueFrom(keep, 0)
  }

  /** The positions `i ..` of `keep` that hold `true`, in increasing order. */
  function TrueFrom(keep: seq<bool>, i: nat): (r: seq<nat>)
    requires i <= |keep|
    ensures forall k :: 0 <= k < |r| ==> i <= r[k] < |keep| && keep[r[k]]
    ensures forall k, l :: 0 <= k < l < |r| ==> r[k] < r[l]
    ensures forall j :: i <= j < |keep| && keep[j] ==> j in r
    decreases |keep| - i
  {
    if i == |keep| then []
    else
      var rest := TrueFrom(keep, i + 1);
      if keep[i] then [i] + rest else rest
  }

  /** The fund's series of a kept position. */
  function KeptSeries(t: Table, codes: seq<string>, i: nat): (s: Series)
    requires WellFormed(t) && i < |codes| && Present(t, codes[i])
    ensures Sorted(s) && Positive(s) && |s| > 0
  {
    SeriesOf(t, codes[i]).value
  }
}
