/**
 Fund names, series names and fund codes (Pagina.py, and the code/name
 collection repeated in informe_module.py and anexo_mensual_module.py).

 A price column is named `"<fund> - <series>"`. Two different splits of such a
 name coexist in the system: the mapping builder splits on the LAST separator
 and defaults the series to `"Base"`, while the return calculators split the
 display name on the FIRST separator, keep only the piece after it up to the
 next separator, and default the series to `"N/A"`.
 */
module Names {
  import opened Wrappers
  import opened Text
  import opened Currencies

  // ---------------------------------------------------------------------------
  // The two splits of a name
  // ---------------------------------------------------------------------------

  /**
   `separar_nombre_y_serie`: split on the last separator; without a separator
   the whole name is the fund and the series is `"Base"`.
   */
  function SeparateNameAndSeries(name: string): (r: (string, string))
    ensures !HasSep(name) ==> r == (name, "Base")
    ensures HasSep(name) ==> r.0 + Sep + r.1 == name && !HasSep(r.1)
  {
    if !HasSep(name) then (name, "Base")
    else
      var parts := Split(name);
      assert |parts| >= 2 by {
        if |parts| == 1 {
          JoinSplit(name);
          SplitPiecesHaveNoSep(name);
        }
      }
      var init := parts[..|parts| - 1];
      var serie := parts[|parts| - 1];
      JoinSplit(name);
      SplitPiecesHaveNoSep(name);
      JoinSnoc(init, serie);
      assert init + [serie] == parts;
      (Join(init), serie)
  }

  /**
   The split the calculators apply to a display name:
   `partes = nombre.split(' - ')`, the fund is `partes[0]` and the series is
   `partes[1]`, or `"N/A"` when there is no separator.
   */
  function DisplaySplit(name: string): (r: (string, string))
    ensures !HasSep(r.0)
    ensures !HasSep(name) ==> r == (name, "N/A")
    ensures HasSep(name) ==>
              && !HasSep(r.1)
              && |r.0| + |Sep| + |r.1| <= |name|
              && name[..|r.0| + |Sep| + |r.1|] == r.0 + Sep + r.1
              && (|name| == |r.0| + |Sep| + |r.1| || SepAt(name, |r.0| + |Sep| + |r.1|))
  {
    var fund := FirstPiece(name);
    if HasSep(name) then
      var rest := name[|fund| + |Sep|..];
      SecondPiece(name, fund, rest);
      (fund, FirstPiece(rest))
    else
      (fund, "N/A")
  }

  /** The piece after the first separator sits right after it, and ends at the end or at the next separator. */
  lemma SecondPiece(name: string, fund: string, rest: string)
    requires fund == FirstPiece(name) && HasSep(name)
    requires |fund| + |Sep| <= |name| && rest == name[|fund| + |Sep|..]
    ensures var n := |fund| + |Sep| + |FirstPiece(rest)|;
            n <= |name| && name[..n] == fund + Sep + FirstPiece(rest)
            && (|name| == n || SepAt(name, n))
  {
    SecondPiecePrefix(name, fund, rest, FirstPiece(rest));
    if HasSep(rest) {
      SepInSuffix(name, |fund| + |Sep|, |FirstPiece(rest)|);
    }
  }

  lemma SecondPiecePrefix(name: string, fund: string, rest: string, serie: string)
    requires SepAt(name, |fund|) && name[..|fund|] == fund
    requires rest == name[|fund| + |Sep|..] && |serie| <= |rest| && rest[..|serie|] == serie
    ensures name[..|fund| + |Sep| + |serie|] == fund + Sep + serie
  {
    CutAtSep(name, |fund|);
    PrefixThrough(name, fund + Sep, rest, serie);
  }

  /** `DisplaySplit` reads the first two entries of Python's `split`. */
  lemma DisplaySplitReadsSplit(name: string)
    ensures DisplaySplit(name).0 == Split(name)[0]
    ensures |Split(name)| > 1 ==> DisplaySplit(name).1 == Split(name)[1]
    ensures |Split(name)| == 1 ==> DisplaySplit(name).1 == "N/A"
  {
    FirstPieceIsSplitHead(name);
    if HasSep(name) {
      FirstPieceIsSplitHead(name[|FirstPiece(name)| + |Sep|..]);
    }
  }

  /** Three one-character pieces joined by the separator split back into those pieces. */
  lemma SplitThreePieces(n: string, a: char, b: char, c: char)
    requires n == [a] + Sep + [b] + Sep + [c] && a != ' ' && b != ' '
    ensures HasSep(n)
    ensures Split(n) == [[a], [b], [c]]
  {
    assert n == [a] + Sep + ([b] + Sep + [c]);
    SplitAfterChar(a, [b] + Sep + [c]);
    SplitAfterChar(b, [c]);
    SplitShort([c]);
  }

  /**
   The two splits disagree on a name whose fund part carries the separator:
   on `"A - B - C"` the mapping builder keeps the fund `"A - B"` whole with
   series `"C"`, the calculators cut it to fund `"A"` with series `"B"`.
   */
  lemma SplitsDisagree(n: string, a: char, b: char, c: char)
    requires n == [a] + Sep + [b] + Sep + [c] && a != ' ' && b != ' '
    ensures SeparateNameAndSeries(n) == ([a] + Sep + [b], [c])
    ensures DisplaySplit(n) == ([a], [b])
  {
    SplitThreePieces(n, a, b, c);
    assert Join([[a], [b]]) == [a] + Sep + [b] by {
      assert [[a], [b]][1..] == [[b]];
    }
    assert [[a], [b], [c]][..2] == [[a], [b]];
    DisplaySplitReadsSplit(n);
  }

  /** `"Base"` holds no separator. */
  lemma BaseHasNoSep()
    ensures !HasSep("Base")
  {
    assert "Base"[..3] != Sep by { assert "Base"[..3][0] == 'B'; }
    assert "Base"[1..] == "ase";
    assert "ase"[..3] != Sep by { assert "ase"[..3][0] == 'a'; }
    assert "ase"[1..] == "se";
    SplitShort("se");
  }

  /** A column without separator and the same name suffixed `" - Base"` split to the same key. */
  lemma BaseSuffixCollides(x: char)
    requires x != ' '
    ensures SeparateNameAndSeries([x]) == SeparateNameAndSeries([x] + Sep + "Base")
  {
    SplitAfterChar(x, "Base");
    BaseHasNoSep();
    SplitShort("Base"[..0]);
    assert Split("Base") == ["Base"];
    assert [[x], "Base"][..1] == [[x]];
    SplitShort([x]);
  }

  // ---------------------------------------------------------------------------
  // Mappings built from the column names
  // ---------------------------------------------------------------------------

  /** The series of one fund, per currency (`{'CLP': [...], 'USD': [...]}`). */
  datatype SeriesLists = SeriesLists(clp: seq<string>, usd: seq<string>)

  function SeriesFor(l: SeriesLists, cur: Currency): seq<string> {
    match cur
    case CLP => l.clp
    case USD => l.usd
  }

  function WithSeries(l: SeriesLists, cur: Currency, serie: string): (r: SeriesLists)
    ensures SeriesFor(r, cur) == SeriesFor(l, cur) + [serie]
    ensures forall c :: c != cur ==> SeriesFor(r, c) == SeriesFor(l, c)
  {
    match cur
    case CLP => l.(clp := l.clp + [serie])
    case USD => l.(usd := l.usd + [serie])
  }

  type Key = (string, string, Currency)

  /**
   `fondos_unicos`, `fondos_a_series` and `fondo_serie_a_codigo`: the funds in
   first-appearance order, the series of each fund per currency, and the
   column code of each (fund, series, currency).
   */
  datatype Mappings = Mappings(funds: seq<string>, fundSeries: map<string, SeriesLists>, codeOf: map<Key, string>)

  /** The name of the date column, never a fund code. */
  const DatesColumn: string := "Dates"

  /** A column name together with the (fund, series) it splits into. */
  datatype Entry = Entry(column: string, fund: string, serie: string)

  /** Each column name with its `separar_nombre_y_serie` split. */
  function Entries(columns: seq<string>): (es: seq<Entry>)
    ensures |es| == |columns|
    ensures forall i :: 0 <= i < |columns| ==>
              es[i].column == columns[i] && (es[i].fund, es[i].serie) == SeparateNameAndSeries(columns[i])
  {
    seq(|columns|, i requires 0 <= i < |columns| =>
      var fs := SeparateNameAndSeries(columns[i]);
      Entry(columns[i], fs.0, fs.1))
  }

  /** The mapping key a column of currency `cur` is filed under. */
  function KeyOf(column: string, cur: Currency): Key {
    var fs := SeparateNameAndSeries(column);
    (fs.0, fs.1, cur)
  }

  function EntryKey(e: Entry, cur: Currency): Key {
    (e.fund, e.serie, cur)
  }

  /** The funds list and the fund map describe the same funds, each once. */
  predicate Consistent(m: Mappings) {
    && (forall i, j :: 0 <= i < j < |m.funds| ==> m.funds[i] != m.funds[j])
    && (forall f :: f in m.fundSeries ==> f in m.funds)
    && (forall i :: 0 <= i < |m.funds| ==> m.funds[i] in m.fundSeries)
  }

  /**
   The loop body of `crear_mapeos_desde_columnas` for one column: file the
   code under its (fund, series, currency) key, overwriting an earlier one,
   append the series to the fund's list, and register a new fund at the end.
   */
  function AddColumn(m: Mappings, e: Entry, cur: Currency): (r: Mappings)
    ensures r.codeOf == m.codeOf[EntryKey(e, cur) := e.column]
    ensures r.fundSeries.Keys == m.fundSeries.Keys + {e.fund}
    ensures SeriesFor(r.fundSeries[e.fund], cur) == (if e.fund in m.fundSeries then SeriesFor(m.fundSeries[e.fund], cur) else []) + [e.serie]
    ensures forall c :: c != cur ==> SeriesFor(r.fundSeries[e.fund], c) == (if e.fund in m.fundSeries then SeriesFor(m.fundSeries[e.fund], c) else [])
    ensures forall f :: f in m.fundSeries && f != e.fund ==> r.fundSeries[f] == m.fundSeries[f]
  {
    var known := e.fund in m.fundSeries;
    var lists := if known then m.fundSeries[e.fund] else SeriesLists([], []);
    Mappings(
      if known then m.funds else m.funds + [e.fund],
      m.fundSeries[e.fund := WithSeries(lists, cur, e.serie)],
      m.codeOf[EntryKey(e, cur) := e.column])
  }

  /** One step of the column loop: `Dates` is skipped. */
  function Step(m: Mappings, e: Entry, cur: Currency): (r: Mappings)
    ensures Consistent(m) ==> Consistent(r)
  {
    if e.column == DatesColumn then m else AddColumn(m, e, cur)
  }

  /** Processes the columns of one currency table in order. */
  function AddColumns(m: Mappings, es: seq<Entry>, cur: Currency): (r: Mappings)
    ensures Consistent(m) ==> Consistent(r)
    decreases |es|
  {
    if |es| == 0 then m else AddColumns(Step(m, es[0], cur), es[1..], cur)
  }

  /** The loop leaves the other currency's codes and series untouched and never drops a fund or a series. */
  lemma {:induction false} AddColumnsKeeps(m: Mappings, es: seq<Entry>, cur: Currency)
    ensures var r := AddColumns(m, es, cur);
            && (forall k :: k in m.codeOf ==> k in r.codeOf)
            && (forall k :: k in m.codeOf && k.2 != cur ==> r.codeOf[k] == m.codeOf[k])
            && (forall f :: f in m.fundSeries ==> f in r.fundSeries)
            && (forall f, c :: f in m.fundSeries && c != cur ==> SeriesFor(r.fundSeries[f], c) == SeriesFor(m.fundSeries[f], c))
            && (forall f, x :: f in m.fundSeries && x in SeriesFor(m.fundSeries[f], cur) ==> x in SeriesFor(r.fundSeries[f], cur))
    decreases |es|
  {
    if |es| > 0 {
      AddColumnsKeeps(Step(m, es[0], cur), es[1..], cur);
    }
  }

  /** `code` is the column of an entry of `es` other than `Dates` whose key is `k`. */
  predicate FiledFrom(es: seq<Entry>, cur: Currency, k: Key, code: string) {
    exists i :: 0 <= i < |es| && es[i].column != DatesColumn && EntryKey(es[i], cur) == k && code == es[i].column
  }

  /** Every key the loop adds comes from a non-`Dates` column, whose name is the code stored. */
  lemma {:induction false} AddColumnsOrigin(m: Mappings, es: seq<Entry>, cur: Currency)
    ensures var r := AddColumns(m, es, cur);
            forall k :: k in r.codeOf ==> (k in m.codeOf && r.codeOf[k] == m.codeOf[k]) || FiledFrom(es, cur, k, r.codeOf[k])
    decreases |es|
  {
    if |es| > 0 {
      var m1 := Step(m, es[0], cur);
      var r := AddColumns(m, es, cur);
      AddColumnsOrigin(m1, es[1..], cur);
      forall k | k in r.codeOf
        ensures (k in m.codeOf && r.codeOf[k] == m.codeOf[k]) || FiledFrom(es, cur, k, r.codeOf[k])
      {
        if !(k in m1.codeOf && r.codeOf[k] == m1.codeOf[k]) {
          var i :| 0 <= i < |es[1..]| && es[1..][i].column != DatesColumn && EntryKey(es[1..][i], cur) == k && r.codeOf[k] == es[1..][i].column;
          assert es[i + 1] == es[1..][i];
        } else if !(k in m.codeOf && m1.codeOf[k] == m.codeOf[k]) {
          assert es[0].column != DatesColumn && EntryKey(es[0], cur) == k;
        }
      }
    }
  }

  /** Every non-`Dates` column is filed: its key has a code and its series is listed under its fund. */
  lemma {:induction false} AddColumnsFiles(m: Mappings, es: seq<Entry>, cur: Currency)
    ensures var r := AddColumns(m, es, cur);
            forall i :: 0 <= i < |es| && es[i].column != DatesColumn ==>
              && EntryKey(es[i], cur) in r.codeOf
              && es[i].fund in r.fundSeries
              && es[i].serie in SeriesFor(r.fundSeries[es[i].fund], cur)
    decreases |es|
  {
    if |es| > 0 {
      var m1 := Step(m, es[0], cur);
      var rest := es[1..];
      AddColumnsFiles(m1, rest, cur);
      AddColumnsKeeps(m1, rest, cur);
      assert forall i :: 1 <= i < |es| ==> es[i] == rest[i - 1];
    }
  }

  /** The code filed under a key is the last non-`Dates` column that splits to it. */
  lemma {:induction false} AddColumnsLastWins(m: Mappings, es: seq<Entry>, cur: Currency, i: nat)
    requires i < |es| && es[i].column != DatesColumn
    requires forall j :: i < j < |es| && es[j].column != DatesColumn ==> EntryKey(es[j], cur) != EntryKey(es[i], cur)
    ensures var r := AddColumns(m, es, cur);
            EntryKey(es[i], cur) in r.codeOf && r.codeOf[EntryKey(es[i], cur)] == es[i].column
    decreases |es|
  {
    var m1 := Step(m, es[0], cur);
    var rest := es[1..];
    var k := EntryKey(es[i], cur);
    if i == 0 {
      AddColumnsOrigin(m1, rest, cur);
      AddColumnsKeeps(m1, rest, cur);
      assert k in m1.codeOf && m1.codeOf[k] == es[0].column;
      assert forall j :: 0 <= j < |rest| ==> rest[j] == es[j + 1];
    } else {
      assert es[i] == rest[i - 1];
      assert forall j :: i - 1 < j < |rest| ==> rest[j] == es[j + 1];
      AddColumnsLastWins(m1, rest, cur, i - 1);
    }
  }

  /** `f` is the fund of an entry of `es` other than `Dates`. */
  predicate FundFrom(es: seq<Entry>, f: string) {
    exists i :: 0 <= i < |es| && es[i].column != DatesColumn && es[i].fund == f
  }

  /** A fund the loop registers is the fund of some non-`Dates` column. */
  lemma {:induction false} AddColumnsFundOrigin(m: Mappings, es: seq<Entry>, cur: Currency)
    ensures var r := AddColumns(m, es, cur);
            forall f :: f in r.fundSeries && f !in m.fundSeries ==> FundFrom(es, f)
    decreases |es|
  {
    if |es| > 0 {
      var m1 := Step(m, es[0], cur);
      var r := AddColumns(m, es, cur);
      AddColumnsFundOrigin(m1, es[1..], cur);
      forall f | f in r.fundSeries && f !in m.fundSeries
        ensures FundFrom(es, f)
      {
        if f in m1.fundSeries {
          assert es[0].column != DatesColumn && es[0].fund == f;
        } else {
          var i :| 0 <= i < |es[1..]| && es[1..][i].column != DatesColumn && es[1..][i].fund == f;
          assert es[i + 1] == es[1..][i];
        }
      }
    }
  }

  /** The funds of the entries other than `Dates`, one per entry, in entry order. */
  function EntryFunds(es: seq<Entry>): seq<string> {
    if |es| == 0 then []
    else (if es[0].column == DatesColumn then [] else [es[0].fund]) + EntryFunds(es[1..])
  }

  lemma EntryFundsCons(es: seq<Entry>)
    requires |es| > 0
    ensures EntryFunds(es) == EntryFunds([es[0]]) + EntryFunds(es[1..])
  {
    assert [es[0]][1..] == [];
  }

  /** One loop step registers the entry's fund exactly when it is new, at the end of the list. */
  lemma StepFunds(m: Mappings, e: Entry, cur: Currency)
    requires Consistent(m)
    ensures Step(m, e, cur).funds == Dedup(m.funds + EntryFunds([e]))
  {
    EntryFundsOne(e);
    if e.column == DatesColumn {
      DedupOfDistinct(m.funds);
      assert m.funds + [] == m.funds;
    } else {
      DedupSnoc(m.funds, e.fund);
      assert e.fund in m.funds <==> e.fund in m.fundSeries;
    }
  }

  lemma EntryFundsOne(e: Entry)
    ensures EntryFunds([e]) == if e.column == DatesColumn then [] else [e.fund]
  {
    assert [e][1..] == [];
  }

  /** The loop lists the funds it meets, each once, in order of first appearance after those already known. */
  lemma {:induction false} AddColumnsFunds(m: Mappings, es: seq<Entry>, cur: Currency)
    requires Consistent(m)
    ensures AddColumns(m, es, cur).funds == Dedup(m.funds + EntryFunds(es))
    decreases |es|
  {
    if |es| == 0 {
      assert m.funds + EntryFunds(es) == m.funds;
      DedupOfDistinct(m.funds);
    } else {
      var m1 := Step(m, es[0], cur);
      AddColumnsFunds(m1, es[1..], cur);
      StepFunds(m, es[0], cur);
      EntryFundsCons(es);
      DedupInTwo(m.funds, EntryFunds([es[0]]), EntryFunds(es[1..]));
    }
  }

  /**
   `crear_mapeos_desde_columnas(pesos_df, dolares_df)`: the peso columns
   first, then the dollar columns. Every fund is listed once, in order of
   first appearance (`Text.DedupOrder`).
   */
  function MappingsFromColumns(clpColumns: seq<string>, usdColumns: seq<string>): (m: Mappings)
    ensures Consistent(m)
    ensures m.funds == Dedup(EntryFunds(Entries(clpColumns)) + EntryFunds(Entries(usdColumns)))
  {
    MappingsFromEntries(Entries(clpColumns), Entries(usdColumns))
  }

  /** The column loop over the split peso columns, then the split dollar columns. */
  function MappingsFromEntries(ce: seq<Entry>, ue: seq<Entry>): (m: Mappings)
    ensures Consistent(m)
    ensures m.funds == Dedup(EntryFunds(ce) + EntryFunds(ue))
  {
    var empty := Mappings([], map[], map[]);
    var m1 := AddColumns(empty, ce, CLP);
    AddColumnsFunds(empty, ce, CLP);
    assert empty.funds + EntryFunds(ce) == EntryFunds(ce);
    AddColumnsFunds(m1, ue, USD);
    DedupOfDedup(EntryFunds(ce), EntryFunds(ue));
    AddColumns(m1, ue, USD)
  }

  /** The columns of currency `cur`. */
  function ColumnsOf(clpColumns: seq<string>, usdColumns: seq<string>, cur: Currency): seq<string> {
    if cur == CLP then clpColumns else usdColumns
  }

  /** The split columns of currency `cur`. */
  function EntriesOf(ce: seq<Entry>, ue: seq<Entry>, cur: Currency): seq<Entry> {
    if cur == CLP then ce else ue
  }

  /** Splitting the columns of one currency gives that currency's entries. */
  lemma EntriesOfColumns(clpColumns: seq<string>, usdColumns: seq<string>, cur: Currency)
    ensures EntriesOf(Entries(clpColumns), Entries(usdColumns), cur) == Entries(ColumnsOf(clpColumns, usdColumns, cur))
  {
  }

  /** Every code filed is the column of an entry of its key's currency, never `Dates`. */
  lemma EntriesCodesOrigin(ce: seq<Entry>, ue: seq<Entry>)
    ensures var m := MappingsFromEntries(ce, ue);
            forall k :: k in m.codeOf ==> FiledFrom(EntriesOf(ce, ue, k.2), k.2, k, m.codeOf[k])
  {
    var empty := Mappings([], map[], map[]);
    var m1 := AddColumns(empty, ce, CLP);
    AddColumnsOrigin(empty, ce, CLP);
    AddColumnsOrigin(m1, ue, USD);
    CombineOrigins(ce, ue, m1.codeOf, AddColumns(m1, ue, USD).codeOf);
  }

  /** Codes filed by the peso pass and then the dollar pass each come from their own currency's entries. */
  lemma CombineOrigins(ce: seq<Entry>, ue: seq<Entry>, c1: map<Key, string>, c: map<Key, string>)
    requires forall k :: k in c1 ==> FiledFrom(ce, CLP, k, c1[k])
    requires forall k :: k in c ==> (k in c1 && c[k] == c1[k]) || FiledFrom(ue, USD, k, c[k])
    ensures forall k :: k in c ==> FiledFrom(EntriesOf(ce, ue, k.2), k.2, k, c[k])
  {
  }

  /**
   Every code of the mappings is a column of its key's currency, never
   `Dates`, and that column splits to the key it is filed under.
   */
  lemma MappingsCodesAreColumns(clpColumns: seq<string>, usdColumns: seq<string>)
    ensures var m := MappingsFromColumns(clpColumns, usdColumns);
            forall k :: k in m.codeOf ==>
              var cols := ColumnsOf(clpColumns, usdColumns, k.2);
              && m.codeOf[k] != DatesColumn
              && exists i :: 0 <= i < |cols| && cols[i] == m.codeOf[k] && KeyOf(cols[i], k.2) == k
  {
    var ce, ue := Entries(clpColumns), Entries(usdColumns);
    var m := MappingsFromEntries(ce, ue);
    EntriesCodesOrigin(ce, ue);
    forall k | k in m.codeOf
      ensures var cols := ColumnsOf(clpColumns, usdColumns, k.2);
              && m.codeOf[k] != DatesColumn
              && exists i :: 0 <= i < |cols| && cols[i] == m.codeOf[k] && KeyOf(cols[i], k.2) == k
    {
      var es := EntriesOf(ce, ue, k.2);
      assert FiledFrom(es, k.2, k, m.codeOf[k]);
      var i :| 0 <= i < |es| && es[i].column != DatesColumn && EntryKey(es[i], k.2) == k && m.codeOf[k] == es[i].column;
      EntriesOfColumns(clpColumns, usdColumns, k.2);
    }
  }

  /**
   Every entry other than `Dates` is filed: its key has a code, its series is
   listed under its fund, and when no later entry of the same currency has
   the same key the code is that entry's column.
   */
  lemma EntriesFiled(ce: seq<Entry>, ue: seq<Entry>, cur: Currency, i: nat)
    requires var es := EntriesOf(ce, ue, cur); i < |es| && es[i].column != DatesColumn
    ensures var m, es := MappingsFromEntries(ce, ue), EntriesOf(ce, ue, cur);
            var k := EntryKey(es[i], cur);
            && k in m.codeOf && k.0 in m.fundSeries && k.1 in SeriesFor(m.fundSeries[k.0], cur)
            && ((forall j :: i < j < |es| && es[j].column != DatesColumn ==> EntryKey(es[j], cur) != k) ==> m.codeOf[k] == es[i].column)
  {
    var empty := Mappings([], map[], map[]);
    var m1 := AddColumns(empty, ce, CLP);
    var es := EntriesOf(ce, ue, cur);
    AddColumnsFiles(empty, ce, CLP);
    AddColumnsFiles(m1, ue, USD);
    AddColumnsKeeps(m1, ue, USD);
    if forall j :: i < j < |es| && es[j].column != DatesColumn ==> EntryKey(es[j], cur) != EntryKey(es[i], cur) {
      if cur == CLP {
        AddColumnsLastWins(empty, ce, CLP, i);
      } else {
        AddColumnsLastWins(m1, ue, USD, i);
      }
    }
  }

  /**
   Every column other than `Dates` is filed: its key has a code, its series
   is listed under its fund for that currency, and when no later column of
   the same currency splits to the same key the code is that column.
   */
  lemma MappingsFileEveryColumn(clpColumns: seq<string>, usdColumns: seq<string>, cur: Currency, i: nat)
    requires var cols := ColumnsOf(clpColumns, usdColumns, cur); i < |cols| && cols[i] != DatesColumn
    ensures var m, cols := MappingsFromColumns(clpColumns, usdColumns), ColumnsOf(clpColumns, usdColumns, cur);
            var k := KeyOf(cols[i], cur);
            && k in m.codeOf && k.0 in m.fundSeries && k.1 in SeriesFor(m.fundSeries[k.0], cur)
            && ((forall j :: i < j < |cols| && cols[j] != DatesColumn ==> KeyOf(cols[j], cur) != k) ==> m.codeOf[k] == cols[i])
  {
    var ce, ue := Entries(clpColumns), Entries(usdColumns);
    var cols := ColumnsOf(clpColumns, usdColumns, cur);
    var es := EntriesOf(ce, ue, cur);
    EntriesOfColumns(clpColumns, usdColumns, cur);
    assert forall j :: 0 <= j < |cols| ==> EntryKey(es[j], cur) == KeyOf(cols[j], cur) && es[j].column == cols[j];
    EntriesFiled(ce, ue, cur, i);
  }

  /** Every fund of the mappings is the fund of some entry other than `Dates`. */
  lemma EntriesFundsOrigin(ce: seq<Entry>, ue: seq<Entry>)
    ensures var m := MappingsFromEntries(ce, ue);
            forall f :: f in m.fundSeries ==> FundFrom(ce, f) || FundFrom(ue, f)
  {
    var empty := Mappings([], map[], map[]);
    var m1 := AddColumns(empty, ce, CLP);
    AddColumnsFundOrigin(empty, ce, CLP);
    AddColumnsFundOrigin(m1, ue, USD);
    CombineFundOrigins(ce, ue, m1.fundSeries.Keys, AddColumns(m1, ue, USD).fundSeries.Keys);
  }

  /** Funds registered by the peso pass and then the dollar pass each come from one of the two. */
  lemma CombineFundOrigins(ce: seq<Entry>, ue: seq<Entry>, f1: set<string>, f2: set<string>)
    requires forall f :: f in f1 ==> FundFrom(ce, f)
    requires forall f :: f in f2 && f !in f1 ==> FundFrom(ue, f)
    ensures forall f :: f in f2 ==> FundFrom(ce, f) || FundFrom(ue, f)
  {
  }

  /** Every fund of the mappings is the fund of some column other than `Dates`. */
  lemma MappingsFundsFromColumns(clpColumns: seq<string>, usdColumns: seq<string>)
    ensures var m := MappingsFromColumns(clpColumns, usdColumns);
            forall f :: f in m.fundSeries ==>
              (exists i :: 0 <= i < |clpColumns| && clpColumns[i] != DatesColumn && KeyOf(clpColumns[i], CLP).0 == f) ||
              (exists i :: 0 <= i < |usdColumns| && usdColumns[i] != DatesColumn && KeyOf(usdColumns[i], USD).0 == f)
  {
    var ce, ue := Entries(clpColumns), Entries(usdColumns);
    EntriesFundsOrigin(ce, ue);
    assert forall i :: 0 <= i < |clpColumns| ==> ce[i].fund == KeyOf(clpColumns[i], CLP).0 && ce[i].column == clpColumns[i];
    assert forall i :: 0 <= i < |usdColumns| ==> ue[i].fund == KeyOf(usdColumns[i], USD).0 && ue[i].column == usdColumns[i];
  }

  // ---------------------------------------------------------------------------
  // Collecting codes and display names
  // ---------------------------------------------------------------------------

  /** `f"{fondo} - {serie}"`. */
  function DisplayName(fund: string, serie: string): string {
    fund + Sep + serie
  }

  /**
   The calculators' split gives back the fund and the series a display name
   was built from, provided the fund followed by `" -"` holds no separator
   (so the first separator is the one `DisplayName` inserted) and the series
   holds none.
   */
  lemma DisplaySplitOfDisplayName(fund: string, serie: string)
    requires !HasSep(fund + " -") && !HasSep(serie)
    ensures DisplaySplit(DisplayName(fund, serie)) == (fund, serie)
  {
    var name := DisplayName(fund, serie);
    assert SepAt(name, |fund|) by {
      assert name[|fund|..|fund| + |Sep|] == Sep;
    }
    var p := FirstPiece(name);
    FirstPieceEndsAtFirstSep(name);
    assert |p| <= |fund|;
    if |p| < |fund| {
      assert SepAt(name, |p|);
      assert name[..|fund| + 2] == fund + " -";
      assert (fund + " -")[|p|..|p| + |Sep|] == name[|p|..|p| + |Sep|];
      assert SepAt(fund + " -", |p|);
      assert false;
    }
    assert p == fund;
    assert name[|fund| + |Sep|..] == serie;
  }

  /** Positions of the (fund, series) pairs that have a code in currency `cur`. */
  function MappedPositions(pairs: seq<(string, string)>, cur: Currency, codeOf: map<Key, string>): (r: seq<nat>)
    ensures forall k :: 0 <= k < |r| ==> r[k] < |pairs| && (pairs[r[k]].0, pairs[r[k]].1, cur) in codeOf
    ensures forall k, l :: 0 <= k < l < |r| ==> r[k] < r[l]
    ensures forall j :: 0 <= j < |pairs| && (pairs[j].0, pairs[j].1, cur) in codeOf ==> j in r
  {
    if |pairs| == 0 then []
    else
      var n := |pairs| - 1;
      var init := MappedPositions(pairs[..n], cur, codeOf);
      if (pairs[n].0, pairs[n].1, cur) in codeOf then init + [n] else init
  }

  /**
   The loop shared by `procesar_selecciones_multiples` and the two
   `crear_tabla_categoria*` functions: for each candidate (fund, series) with
   a code in `cur`, append the code and the display name.
   */
  function CollectCodes(pairs: seq<(string, string)>, cur: Currency, codeOf: map<Key, string>): (r: (seq<string>, seq<string>))
    ensures var pos := MappedPositions(pairs, cur, codeOf);
            && |r.0| == |pos| && |r.1| == |pos|
            && forall k :: 0 <= k < |pos| ==>
                 && r.0[k] == codeOf[(pairs[pos[k]].0, pairs[pos[k]].1, cur)]
                 && r.1[k] == DisplayName(pairs[pos[k]].0, pairs[pos[k]].1)
  {
    CollectedAtPositions(pairs, cur, codeOf);
    Collected(pairs, cur, codeOf)
  }

  /** The loop itself: one candidate at a time, appending the code and name of each that has a code. */
  function Collected(pairs: seq<(string, string)>, cur: Currency, codeOf: map<Key, string>): (seq<string>, seq<string>) {
    if |pairs| == 0 then ([], [])
    else
      var n := |pairs| - 1;
      var init := Collected(pairs[..n], cur, codeOf);
      var key := (pairs[n].0, pairs[n].1, cur);
      if key in codeOf then (init.0 + [codeOf[key]], init.1 + [DisplayName(pairs[n].0, pairs[n].1)])
      else init
  }

  /** The loop collects, in order, the code and name of each candidate at a mapped position. */
  lemma {:induction false} CollectedAtPositions(pairs: seq<(string, string)>, cur: Currency, codeOf: map<Key, string>)
    ensures var pos, r := MappedPositions(pairs, cur, codeOf), Collected(pairs, cur, codeOf);
            && |r.0| == |pos| && |r.1| == |pos|
            && forall k :: 0 <= k < |pos| ==>
                 && r.0[k] == codeOf[(pairs[pos[k]].0, pairs[pos[k]].1, cur)]
                 && r.1[k] == DisplayName(pairs[pos[k]].0, pairs[pos[k]].1)
  {
    if |pairs| > 0 {
      var n := |pairs| - 1;
      CollectedAtPositions(pairs[..n], cur, codeOf);
      assert forall j :: 0 <= j < n ==> pairs[..n][j] == pairs[j];
    }
  }

  /** Every collected (code, name) pair comes from a candidate pair that has a code. */
  lemma CollectCodesSound(pairs: seq<(string, string)>, cur: Currency, codeOf: map<Key, string>, k: nat) returns (j: nat)
    requires k < |CollectCodes(pairs, cur, codeOf).0|
    ensures j < |pairs| && (pairs[j].0, pairs[j].1, cur) in codeOf
    ensures CollectCodes(pairs, cur, codeOf).0[k] == codeOf[(pairs[j].0, pairs[j].1, cur)]
    ensures CollectCodes(pairs, cur, codeOf).1[k] == DisplayName(pairs[j].0, pairs[j].1)
  {
    var pos := MappedPositions(pairs, cur, codeOf);
    j := pos[k];
  }

  /** Every candidate pair that has a code is collected. */
  lemma CollectCodesComplete(pairs: seq<(string, string)>, cur: Currency, codeOf: map<Key, string>, j: nat) returns (k: nat)
    requires j < |pairs| && (pairs[j].0, pairs[j].1, cur) in codeOf
    ensures k < |CollectCodes(pairs, cur, codeOf).0|
    ensures CollectCodes(pairs, cur, codeOf).0[k] == codeOf[(pairs[j].0, pairs[j].1, cur)]
    ensures CollectCodes(pairs, cur, codeOf).1[k] == DisplayName(pairs[j].0, pairs[j].1)
  {
    var pos := MappedPositions(pairs, cur, codeOf);
    assert j in pos;
    k :| 0 <= k < |pos| && pos[k] == j;
  }

  /** Collecting over two runs of candidates collects over the first, then over the second. */
  lemma CollectCodesAppend(a: seq<(string, string)>, b: seq<(string, string)>, cur: Currency, codeOf: map<Key, string>)
    ensures var ra, rb := CollectCodes(a, cur, codeOf), CollectCodes(b, cur, codeOf);
            CollectCodes(a + b, cur, codeOf) == (ra.0 + rb.0, ra.1 + rb.1)
  {
    CollectedAppend(a, b, cur, codeOf);
  }

  lemma {:induction false} CollectedAppend(a: seq<(string, string)>, b: seq<(string, string)>, cur: Currency,
                                           codeOf: map<Key, string>)
    ensures var ra, rb := Collected(a, cur, codeOf), Collected(b, cur, codeOf);
            Collected(a + b, cur, codeOf) == (ra.0 + rb.0, ra.1 + rb.1)
    decreases |b|
  {
    var ra := Collected(a, cur, codeOf);
    if |b| == 0 {
      assert a + b == a;
      assert ra.0 + [] == ra.0 && ra.1 + [] == ra.1;
    } else {
      var n := |b| - 1;
      CollectedAppend(a, b[..n], cur, codeOf);
      AppendLast(a, b);
      var rb := Collected(b[..n], cur, codeOf);
      var key := (b[n].0, b[n].1, cur);
      if key in codeOf {
        var c, d := codeOf[key], DisplayName(b[n].0, b[n].1);
        AppendAssoc(ra.0, rb.0, [c]);
        AppendAssoc(ra.1, rb.1, [d]);
      }
    }
  }

  /** The last candidate adds, at the end, what collecting it alone gives. */
  lemma CollectCodesLast(p: seq<(string, string)>, cur: Currency, codeOf: map<Key, string>)
    requires |p| > 0
    ensures var n := |p| - 1;
            var ri, rq := CollectCodes(p[..n], cur, codeOf), CollectCodes([p[n]], cur, codeOf);
            CollectCodes(p, cur, codeOf) == (ri.0 + rq.0, ri.1 + rq.1)
  {
    var n := |p| - 1;
    assert p == p[..n] + [p[n]];
    CollectedAppend(p[..n], [p[n]], cur, codeOf);
  }

  /** One fund selection of the dashboard: a fund and the series ticked for it. */
  datatype Selection = Selection(fund: string, series: seq<string>)

  /** The fund of one selection with each of its ticked series. */
  function PairsOf(x: Selection): seq<(string, string)> {
    seq(|x.series|, k requires 0 <= k < |x.series| => (x.fund, x.series[k]))
  }

  /** The (fund, series) pairs of the selections, in selection order: exactly the ticked series of each fund. */
  function SelectionPairs(sels: seq<Selection>): (r: seq<(string, string)>)
    ensures forall j :: 0 <= j < |r| ==> exists i :: 0 <= i < |sels| && r[j].0 == sels[i].fund && r[j].1 in sels[i].series
    ensures forall i, s :: 0 <= i < |sels| && s in sels[i].series ==> (sels[i].fund, s) in r
  {
    if |sels| == 0 then []
    else
      var rest := SelectionPairs(sels[1..]);
      var here := PairsOf(sels[0]);
      assert forall j :: 0 <= j < |rest| ==> exists i :: 1 <= i < |sels| && rest[j].0 == sels[i].fund && rest[j].1 in sels[i].series by {
        forall j | 0 <= j < |rest| ensures exists i :: 1 <= i < |sels| && rest[j].0 == sels[i].fund && rest[j].1 in sels[i].series {
          var i :| 0 <= i < |sels[1..]| && rest[j].0 == sels[1..][i].fund && rest[j].1 in sels[1..][i].series;
          assert sels[1..][i] == sels[i + 1];
        }
      }
      assert forall i, s :: 0 <= i < |sels| && s in sels[i].series ==> (sels[i].fund, s) in here + rest by {
        forall i, s | 0 <= i < |sels| && s in sels[i].series ensures (sels[i].fund, s) in here + rest {
          if i == 0 {
            var k :| 0 <= k < |sels[0].series| && sels[0].series[k] == s;
            assert here[k] == (sels[i].fund, s);
          } else {
            assert sels[1..][i - 1] == sels[i];
            assert (sels[i].fund, s) in rest;
          }
        }
      }
      here + rest
  }

  /** The pairs of one selection: its fund with each ticked series, in the order ticked. */
  lemma SelectionPairsOne(x: Selection)
    ensures |SelectionPairs([x])| == |x.series|
    ensures forall k :: 0 <= k < |x.series| ==> SelectionPairs([x])[k] == (x.fund, x.series[k])
  {
    assert [x][1..] == [];
  }

  /** The pairs of two runs of selections are those of the first run followed by those of the second. */
  lemma {:induction false} SelectionPairsAppend(a: seq<Selection>, b: seq<Selection>)
    ensures SelectionPairs(a + b) == SelectionPairs(a) + SelectionPairs(b)
  {
    if |a| == 0 {
      assert a + b == b;
      assert SelectionPairs(a) == [];
      EmptyAppend(SelectionPairs(b));
    } else {
      SelectionPairsAppend(a[1..], b);
      ConsAppend(a, b);
      SelectionPairsCons(a);
      SelectionPairsCons(a + b);
      AppendAssoc(PairsOf(a[0]), SelectionPairs(a[1..]), SelectionPairs(b));
    }
  }

  /** The pairs of a non-empty run: those of its first selection, then those of the rest. */
  lemma SelectionPairsCons(a: seq<Selection>)
    requires |a| > 0
    ensures SelectionPairs(a) == PairsOf(a[0]) + SelectionPairs(a[1..])
  {
  }

  /**
   `procesar_selecciones_multiples(selecciones, moneda)`: parallel code and
   display-name lists for the selected (fund, series) pairs that exist in the
   currency, in selection order.
   */
  function ProcessSelections(sels: seq<Selection>, cur: Currency, codeOf: map<Key, string>): (r: (seq<string>, seq<string>))
    ensures |r.0| == |r.1|
    ensures |sels| == 0 ==> r == ([], [])
  {
    CollectCodes(SelectionPairs(sels), cur, codeOf)
  }

  /** The codes and names of two runs of selections are those of the first run followed by those of the second. */
  lemma ProcessSelectionsAppend(a: seq<Selection>, b: seq<Selection>, cur: Currency, codeOf: map<Key, string>)
    ensures var ra, rb := ProcessSelections(a, cur, codeOf), ProcessSelections(b, cur, codeOf);
            ProcessSelections(a + b, cur, codeOf) == (ra.0 + rb.0, ra.1 + rb.1)
  {
    SelectionPairsAppend(a, b);
    CollectCodesAppend(SelectionPairs(a), SelectionPairs(b), cur, codeOf);
  }

  /** Each collected entry is a ticked series of a selected fund that has a code in the currency. */
  lemma ProcessSelectionsSound(sels: seq<Selection>, cur: Currency, codeOf: map<Key, string>, k: nat)
    requires k < |ProcessSelections(sels, cur, codeOf).0|
    ensures var r := ProcessSelections(sels, cur, codeOf);
            exists i, s :: 0 <= i < |sels| && s in sels[i].series && (sels[i].fund, s, cur) in codeOf
              && r.0[k] == codeOf[(sels[i].fund, s, cur)] && r.1[k] == DisplayName(sels[i].fund, s)
  {
    var pairs := SelectionPairs(sels);
    var j := CollectCodesSound(pairs, cur, codeOf, k);
    var i :| 0 <= i < |sels| && pairs[j].0 == sels[i].fund && pairs[j].1 in sels[i].series;
    var s := pairs[j].1;
    assert s in sels[i].series && (sels[i].fund, s, cur) in codeOf;
  }

  /** Each ticked series of a selected fund that has a code in the currency is collected, with its name. */
  lemma ProcessSelectionsComplete(sels: seq<Selection>, cur: Currency, codeOf: map<Key, string>, i: nat, s: string)
    returns (k: nat)
    requires i < |sels| && s in sels[i].series && (sels[i].fund, s, cur) in codeOf
    ensures var r := ProcessSelections(sels, cur, codeOf);
            k < |r.0| && r.0[k] == codeOf[(sels[i].fund, s, cur)] && r.1[k] == DisplayName(sels[i].fund, s)
  {
    var pairs := SelectionPairs(sels);
    assert (sels[i].fund, s) in pairs;
    var j :| 0 <= j < |pairs| && pairs[j] == (sels[i].fund, s);
    k := CollectCodesComplete(pairs, cur, codeOf, j);
  }

  /** The candidates of one fund: its series in `cur` when the map knows it. */
  function FundPairs(f: string, fundSeries: map<string, SeriesLists>, cur: Currency): seq<(string, string)> {
    if f in fundSeries then
      var ss := SeriesFor(fundSeries[f], cur);
      seq(|ss|, k requires 0 <= k < |ss| => (f, ss[k]))
    else []
  }

  /** The candidate pairs of a category: each listed fund known to the map, with its series in `cur`. */
  function CategoryPairs(funds: seq<string>, fundSeries: map<string, SeriesLists>, cur: Currency): (r: seq<(string, string)>)
    ensures forall j :: 0 <= j < |r| ==> r[j].0 in funds && r[j].0 in fundSeries && r[j].1 in SeriesFor(fundSeries[r[j].0], cur)
    ensures forall f, s :: f in funds && f in fundSeries && s in SeriesFor(fundSeries[f], cur) ==> (f, s) in r
  {
    if |funds| == 0 then []
    else
      var rest := CategoryPairs(funds[1..], fundSeries, cur);
      var f := funds[0];
      var here := FundPairs(f, fundSeries, cur);
      assert forall s :: f in fundSeries && s in SeriesFor(fundSeries[f], cur) ==> (f, s) in here by {
        forall s | f in fundSeries && s in SeriesFor(fundSeries[f], cur) ensures (f, s) in here {
          var ss := SeriesFor(fundSeries[f], cur);
          var k :| 0 <= k < |ss| && ss[k] == s;
          assert here[k] == (f, s);
        }
      }
      here + rest
  }

  /** The candidates of one fund: nothing when the map does not know it, else its series in `cur`, in list order. */
  lemma CategoryPairsOne(f: string, fundSeries: map<string, SeriesLists>, cur: Currency)
    ensures f !in fundSeries ==> CategoryPairs([f], fundSeries, cur) == []
    ensures f in fundSeries ==>
              && |CategoryPairs([f], fundSeries, cur)| == |SeriesFor(fundSeries[f], cur)|
              && forall k :: 0 <= k < |SeriesFor(fundSeries[f], cur)| ==>
                   CategoryPairs([f], fundSeries, cur)[k] == (f, SeriesFor(fundSeries[f], cur)[k])
  {
    assert [f][1..] == [];
  }

  /** The candidates of two runs of funds are those of the first run followed by those of the second. */
  lemma {:induction false} CategoryPairsAppend(a: seq<string>, b: seq<string>, fundSeries: map<string, SeriesLists>, cur: Currency)
    ensures CategoryPairs(a + b, fundSeries, cur) == CategoryPairs(a, fundSeries, cur) + CategoryPairs(b, fundSeries, cur)
  {
    if |a| == 0 {
      assert a + b == b;
    } else {
      CategoryPairsAppend(a[1..], b, fundSeries, cur);
      assert (a + b)[0] == a[0] && (a + b)[1..] == a[1..] + b;
      var here := FundPairs(a[0], fundSeries, cur);
      assert CategoryPairs(a, fundSeries, cur) == here + CategoryPairs(a[1..], fundSeries, cur);
      assert CategoryPairs(a + b, fundSeries, cur) == here + CategoryPairs(a[1..] + b, fundSeries, cur);
      AppendAssoc(here, CategoryPairs(a[1..], fundSeries, cur), CategoryPairs(b, fundSeries, cur));
    }
  }

  /**
   The code/name collection of `crear_tabla_categoria` and
   `crear_tabla_categoria_mensual`: parallel lists holding, for each fund of
   the category in order, the series listed for the currency that have a code.
   */
  function CategoryCodes(funds: seq<string>, m: Mappings, cur: Currency): (r: (seq<string>, seq<string>))
    ensures |r.0| == |r.1|
  {
    CollectCodes(CategoryPairs(funds, m.fundSeries, cur), cur, m.codeOf)
  }

  /** The codes and names of two runs of category funds are those of the first run followed by those of the second. */
  lemma CategoryCodesAppend(a: seq<string>, b: seq<string>, m: Mappings, cur: Currency)
    ensures var ra, rb := CategoryCodes(a, m, cur), CategoryCodes(b, m, cur);
            CategoryCodes(a + b, m, cur) == (ra.0 + rb.0, ra.1 + rb.1)
  {
    CategoryPairsAppend(a, b, m.fundSeries, cur);
    CollectCodesAppend(CategoryPairs(a, m.fundSeries, cur), CategoryPairs(b, m.fundSeries, cur), cur, m.codeOf);
  }

  /** Each collected entry is a listed series, in the currency, of a fund of the category. */
  lemma CategoryCodesSound(funds: seq<string>, m: Mappings, cur: Currency, k: nat)
    requires k < |CategoryCodes(funds, m, cur).0|
    ensures var r := CategoryCodes(funds, m, cur);
            exists f, s :: f in funds && f in m.fundSeries && s in SeriesFor(m.fundSeries[f], cur)
              && (f, s, cur) in m.codeOf && r.0[k] == m.codeOf[(f, s, cur)] && r.1[k] == DisplayName(f, s)
  {
    var pairs := CategoryPairs(funds, m.fundSeries, cur);
    var j := CollectCodesSound(pairs, cur, m.codeOf, k);
    var f, s := pairs[j].0, pairs[j].1;
    assert f in funds && f in m.fundSeries && s in SeriesFor(m.fundSeries[f], cur);
  }

  /** Each listed series of a category fund that has a code in the currency is collected. */
  lemma CategoryCodesComplete(funds: seq<string>, m: Mappings, cur: Currency, f: string, s: string) returns (k: nat)
    requires f in funds && f in m.fundSeries && s in SeriesFor(m.fundSeries[f], cur) && (f, s, cur) in m.codeOf
    ensures k < |CategoryCodes(funds, m, cur).0|
    ensures CategoryCodes(funds, m, cur).0[k] == m.codeOf[(f, s, cur)]
    ensures CategoryCodes(funds, m, cur).1[k] == DisplayName(f, s)
  {
    var pairs := CategoryPairs(funds, m.fundSeries, cur);
    var j :| 0 <= j < |pairs| && pairs[j] == (f, s);
    k := CollectCodesComplete(pairs, cur, m.codeOf, j);
  }

  // ---------------------------------------------------------------------------
  // The SURA subset used by the reports
  // ---------------------------------------------------------------------------

  /** `FONDOS_SURA_PDF`. */
  const SuraFunds: seq<string> := [
    "Fondo Mutuo SURA Estrategia Conservadora",
    "Fondo Mutuo SURA Multiactivo Agresivo",
    "Fondo Mutuo SURA Multiactivo Moderado",
    "Fondo Mutuo SURA Renta Bonos Chile",
    "Fondo Mutuo SURA Renta Corporativa Largo Plazo",
    "Fondo Mutuo SURA Renta Corto Plazo Chile",
    "Fondo Mutuo SURA Renta Deposito Chile",
    "Fondo Mutuo SURA Renta Internacional",
    "Fondo Mutuo SURA Renta Local UF",
    "Fondo Mutuo SURA Seleccion Acciones Chile",
    "Fondo Mutuo SURA Seleccion Acciones Emergentes",
    "Fondo Mutuo SURA Seleccion Acciones Latam",
    "Fondo Mutuo SURA Seleccion Acciones USA",
    "Fondo Mutuo SURA Seleccion Global",
    "Fondo Mutuo SURA Renta Corto Plazo UF Chile",
    "Fondo Mutuo SURA Money Market Dólar",
    "Fondo Mutuo SURA Cartera Patrimonial Conservadora",
    "Renta Local",
    "Gestion Activa",
    "Global Desarrollado",
    "Global Emergente",
    "Chile Equities"
  ]

  /** The listed funds present in the map, in list order. */
  function KnownFunds(list: seq<string>, fundSeries: map<string, SeriesLists>): (r: seq<string>)
    ensures forall f :: f in r <==> f in list && f in fundSeries
    ensures |r| <= |list|
  {
    if |list| == 0 then []
    else (if list[0] in fundSeries then [list[0]] else []) + KnownFunds(list[1..], fundSeries)
  }

  /** A single listed fund is kept exactly when the map knows it. */
  lemma KnownFundsOne(f: string, fundSeries: map<string, SeriesLists>)
    ensures f in fundSeries ==> KnownFunds([f], fundSeries) == [f]
    ensures f !in fundSeries ==> KnownFunds([f], fundSeries) == []
  {
    assert [f][1..] == [];
  }

  /** Filtering two runs of the list filters the first, then the second: the list order is kept. */
  lemma {:induction false} KnownFundsAppend(a: seq<string>, b: seq<string>, fundSeries: map<string, SeriesLists>)
    ensures KnownFunds(a + b, fundSeries) == KnownFunds(a, fundSeries) + KnownFunds(b, fundSeries)
  {
    if |a| == 0 {
      assert a + b == b;
      assert KnownFunds(a, fundSeries) == [];
      EmptyAppend(KnownFunds(b, fundSeries));
    } else {
      KnownFundsAppend(a[1..], b, fundSeries);
      ConsAppend(a, b);
      var here := if a[0] in fundSeries then [a[0]] else [];
      assert KnownFunds(a, fundSeries) == here + KnownFunds(a[1..], fundSeries);
      assert KnownFunds(a + b, fundSeries) == here + KnownFunds(a[1..] + b, fundSeries);
      AppendAssoc(here, KnownFunds(a[1..], fundSeries), KnownFunds(b, fundSeries));
    }
  }

  /**
   `filtrar_solo_fondos_sura`: the SURA funds present in the mappings, their
   series lists unchanged, and the codes of exactly their listed series.
   */
  function FilterSura(m: Mappings): (r: Mappings)
    ensures forall f :: f in r.funds <==> f in SuraFunds && f in m.fundSeries
    ensures r.funds == KnownFunds(SuraFunds, m.fundSeries)
    ensures forall f :: f in r.fundSeries <==> f in r.funds
    ensures forall f :: f in r.fundSeries ==> r.fundSeries[f] == m.fundSeries[f]
    ensures forall k :: k in r.codeOf <==>
              k in m.codeOf && k.0 in r.fundSeries && k.1 in SeriesFor(m.fundSeries[k.0], k.2)
    ensures forall k :: k in r.codeOf ==> r.codeOf[k] == m.codeOf[k]
  {
    var funds := KnownFunds(SuraFunds, m.fundSeries);
    var fs := map f | f in funds :: m.fundSeries[f];
    var codes := map k | k in m.codeOf && k.0 in fs && k.1 in SeriesFor(m.fundSeries[k.0], k.2) :: m.codeOf[k];
    Mappings(funds, fs, codes)
  }
}
