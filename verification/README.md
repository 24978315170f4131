# Panel de Rentabilidad — return computations

This project models the return-computation layer of the fund-returns dashboard
(`Pagina.py`) and of its two reports: the extended returns report
(`informe_module.py`) and the monthly annex (`anexo_mensual_module.py`). It then
proves properties of that model in Dafny.

A fund's prices come from one column of a wide price table. Taking the table's
`Dates` column and that fund's column and dropping the missing prices
(`dropna`) gives a price series. Every formula reads the series by position:
it filters the rows by a date condition, then takes the first or last row left
(`iloc[0]` / `iloc[-1]`).

The formulas give three kinds of result cell:

- a percentage;
- NaN, from the inline checks of the report formulas;
- the `"-"` marker, from the dashboard's availability validators.

The model keeps these three apart (`Series.Cell`).

On top of the formulas, the model covers:

- the table builders (cumulative, annualized and per-year tables, the extended report, and the monthly annex), which try the precomputed results first and otherwise compute each table live;
- the fund/series/code mappings built from column names;
- the keyword classifier that groups funds into categories;
- the window and rebasing of the cumulative-returns chart.

Modules follow the program's structure:

| Module | Contents |
|---|---|
| `Calendar` | Proleptic Gregorian day numbers: Python's `date.toordinal`, with `dt.year` / `dt.month`, `pd.Timestamp(y, m, d)` and `pd.DateOffset(months=k)` |
| `Series` | Observations, series, the wide table, `dropna`, and the positional readings `FirstIndex` / `LastIndex` / `Count` under a date filter |
| `Text` | `str.split(' - ')` / `' - '.join`, `str.lower`, `str(int)`, de-duplication |
| `Names` | `separar_nombre_y_serie`, the display-name split of the table builders, `crear_mapeos_desde_columnas`, `filtrar_solo_fondos_sura`, the code/name collection of `procesar_selecciones_multiples` and of the category tables |
| `Categories` | `categorizar_fondos` (the two modules hold identical copies, defined once here) |
| `Dispatch` | The cache-or-live pattern |
| `PaginaReturns` | The dashboard's validators and formulas |
| `PaginaTables` | The dashboard's three live tables and their dispatch |
| `PaginaChart` | The chart window: latest fund start, period start, exact-date search, rebasing |
| `Informe` | The extended report's formulas and rows |
| `Anexo` | The monthly annex: month listing, monthly and 12-month returns, rows, currency detection, column order |

Where the code and its design notes disagree, the model follows the code. Three such cases are proved as lemmas:

- The per-year table of the dashboard and the year columns of the report measure "the return of year y" from different bases:
  - the per-year table runs from the year's first price to its last (`Pagina.py:917-918`);
  - the report runs from the previous year's last price to the year's last (`informe_module.py:163-169`).
  - `Informe.SpecificYearDiffersFromCalendarYear` gives one series where the two disagree.
- `separar_nombre_y_serie` and the table builders split a name differently:
  - `separar_nombre_y_serie` splits at the LAST `" - "` and defaults the series to `Base`;
  - the table builders split at the FIRST `" - "` and default the series to `N/A`.
  - `Names.SplitsDisagree` gives a name where the two splits differ.
- The monthly annex lists its months by stepping back 30 days at a time. The list can therefore name a month twice (`Anexo.MonthsCanRepeat`) or skip one (`Anexo.MonthsCanSkip`), although its own documentation describes the last 12 months.

## Model

| member | source | states |
|---|---|---|
| Calendar.YearOf | informe_module.py:128 | `Timestamp.year`: the year whose day range, from the day after the previous year's end through its own last day, contains the date |
| Calendar.FromOrdinal | informe_module.py:89-90 | Converting a day number to a calendar date gives a valid date that converts back to the same day number |
| Calendar.FromToOrdinal | informe_module.py:89-90 | A valid calendar date converts to its day number and back unchanged, so `.year` and `.month` of a timestamp read its own calendar fields |
| Calendar.YearOfRange | informe_module.py:132 | A date's year is `y` exactly when it lies between January 1 and December 31 of `y`, so the `dt.year == año` filter selects one closed date interval |
| Calendar.YearEnds | Pagina.py:1126-1127 | December 31 and January 1 of a year both belong to it, and December 31 of `y` is the day before January 1 of `y + 1` |
| Calendar.InMonthRange | informe_module.py:101-104 | A date has year `y` and month `m` exactly when it lies between the first and the last day of that month |
| Calendar.YearOfMonotone | Pagina.py:891 | A later date never falls in an earlier year |
| Calendar.MonthKeyMonotone | anexo_mensual_module.py:72-75 | The (year, month) of a later date is never earlier in calendar order |
| Calendar.PrevMonth | informe_module.py:93-98 | The month before (y, m) is a valid month exactly one month earlier in calendar order: December of `y - 1` for January |
| Calendar.PrevMonthAdjacent | anexo_mensual_module.py:105-110 | The last day of the previous month is the day before the first day of month `m` |
| Calendar.MonthsBefore | Pagina.py:1143-1145 | `date - DateOffset(months=k)` lands `k` months earlier in calendar order, on the same day clipped to that month's length |
| Series.SimpleReturn | Pagina.py:937 | `((current / base) - 1) * 100` is the percentage `r` with `r / 100 + 1 == current / base` |
| Series.FirstIndex | Pagina.py:933-936 | `filter(...).iloc[0]`: the position found satisfies the filter and no earlier row does; there is no position exactly when no row satisfies it |
| Series.LastIndex | informe_module.py:101-110 | `filter(...).iloc[-1]`: the position found satisfies the filter and no later row does; there is no position exactly when no row satisfies it |
| Series.Count | Pagina.py:914-916 | `len(filter(...))` is at most the length, 0 exactly when no row satisfies the filter, and the full length exactly when every row does |
| Series.CountAtLeastTwo | Pagina.py:916 | Two distinct rows that satisfy a filter make its count at least two |
| Series.CountTwoApart | Pagina.py:916-918 | With at least two filtered rows, the first filtered position is strictly before the last one |
| Series.LastIndexFinds | informe_module.py:106-110 | The last filtered position is missing exactly when the filtered count is 0, and it is the unique position that is last in the filter |
| Series.SinceIsSuffix | Pagina.py:933 | On a sorted series, the rows on or after a bound are exactly the rows from the first such position on |
| Series.DropMissing | Pagina.py:624 | `dropna` keeps exactly the rows whose price is present: every kept row is such a row with its date and price, and every such row is kept. It keeps no more rows than the table, is empty exactly when every price is missing, and sorted dates stay sorted |
| Series.SeriesOf | Pagina.py:623-624 | A code yields a series exactly when it is a column of the table; that series is sorted, positive and dated by table dates |
| Series.SeriesOfExact | Pagina.py:623-624 | The series of a column holds exactly the column's present prices: each observation is a priced row with its date and price, and every priced row is an observation |
| Series.KeptIndices | Pagina.py:622-626 | The (code, name) pairs that produce a row are the codes that are columns and have a price, in input order, and every such pair is kept |
| Series.TableMax | Pagina.py:620 | `df['Dates'].max()` is a table date no earlier than any other |
| Text.JoinSplit | Pagina.py:253-255 | Joining the pieces of `split(' - ')` with `' - '` gives back the original string |
| Text.SplitPiecesHaveNoSep | Pagina.py:253-254 | No piece of `split(' - ')` contains `' - '` |
| Text.FirstPiece | Pagina.py:666-667 | `split(' - ')[0]` is a separator-free prefix of the name that ends at the first separator, or the whole name when there is none |
| Text.FirstPieceIsSplitHead | Pagina.py:666-668 | The first piece of the split is that prefix, and the remaining pieces are the split of what follows the first separator |
| Text.Lower | informe_module.py:328 | `str.lower` on ASCII text: the length is kept, and each ASCII capital letter becomes its lower-case letter in place |
| Text.ParseNatToString | Pagina.py:920 | The decimal text of a natural number reads back as that number |
| Text.IntToStringInjective | Pagina.py:920 | Distinct years have distinct `str(año)` texts |
| Text.Dedup | Pagina.py:1005-1011 | Repeating a code in the selection yields one column: the result has no repeats and the same members |
| Text.DedupOrder | Pagina.py:1005-1011 | The columns appear in the order in which each code first occurs in the selection |
| Names.SeparateNameAndSeries | Pagina.py:244-257 | Without `' - '` the result is `(name, 'Base')`; otherwise fund, `' - '` and series rebuild the name and the series contains no separator (it is the last piece) |
| Names.BaseSuffixCollides | Pagina.py:249-255 | A one-character name `x` and the name `x - Base` split to the same (fund, series), so both columns are filed under one key |
| Names.DisplaySplit | Pagina.py:666-668 | The table builders' split: without a separator `(name, 'N/A')`; otherwise the fund and the series are the first two separator-free pieces and `fund - serie` is a prefix of the name that ends at a separator or at the end |
| Names.DisplaySplitReadsSplit | Pagina.py:666-668 | The display split is `parts[0]` and `parts[1]` of `split(' - ')`, or `'N/A'` when there is one piece |
| Names.SplitsDisagree | Pagina.py:253-255 | For `a - b - c` the mapping split gives (`a - b`, `c`) and the table builders' split gives (`a`, `b`) |
| Names.DisplaySplitOfDisplayName | Pagina.py:516 | The display name `f"{fondo} - {serie}"` splits back into that fund and series when neither introduces an extra separator |
| Names.Entries | Pagina.py:220-221 | Each column is paired with its `separar_nombre_y_serie` split, in column order |
| Names.AddColumn | Pagina.py:221-227 | One column files its code under (fund, series, currency), overwriting an earlier one; it appends the series to that fund's list for the currency only and leaves every other fund unchanged |
| Names.AddColumns | Pagina.py:220-227 | The column loop keeps the fund list naming each fund once and exactly the funds of the fund map |
| Names.AddColumnsKeeps | Pagina.py:230-237 | The loop over one currency never removes a key, a fund or a series, and leaves the other currency's codes and series untouched |
| Names.AddColumnsOrigin | Pagina.py:220-227 | Every key the loop adds holds a non-`Dates` column that splits to that key |
| Names.AddColumnsFiles | Pagina.py:226-227 | Every non-`Dates` column has a code under its key and its series in its fund's list for the currency |
| Names.AddColumnsLastWins | Pagina.py:227 | The code filed under a key is the last column that splits to that key |
| Names.AddColumnsFundOrigin | Pagina.py:223-224 | Every fund the loop adds is the fund of some non-`Dates` column |
| Names.MappingsFromColumns | Pagina.py:208-241 | The fund list built from both tables names each fund once, names exactly the funds of the fund map, and is the deduplicated funds of the non-`Dates` peso columns followed by those of the dollar columns, so each fund sits where it first appears (`Text.DedupOrder`) |
| Names.AddColumnsFunds | Pagina.py:220-224 | The column loop appends each fund the first time one of its columns is met, after the funds already known, and never again |
| Text.DedupOfDedup | Pagina.py:229-239 | Deduplicating the funds met in the peso pass and then going on with the dollar columns is deduplicating over both passes at once |
| Names.MappingsCodesAreColumns | Pagina.py:208-241 | Every mapped code is a non-`Dates` column of its key's currency, and that column splits to the key |
| Names.MappingsFileEveryColumn | Pagina.py:220-237 | Every non-`Dates` column of a currency is mapped, with its series listed under its fund; when no later column splits to the same key, the code stored is that column |
| Names.MappingsFundsFromColumns | Pagina.py:239 | Every fund of `fondos_unicos` comes from some non-`Dates` column of one of the two tables |
| Names.WithSeries | Pagina.py:226 | Appending a series changes only the list of the given currency |
| Names.MappedPositions | Pagina.py:512-519 | The candidate (fund, series) pairs that have a code in the currency, in order, all of them |
| Names.CollectCodes | Pagina.py:512-519 | The parallel code and name lists hold, for each mapped candidate in order, its code and `fondo - serie` |
| Names.CollectCodesSound | Pagina.py:514-519 | Every collected entry is the code and display name of a mapped candidate |
| Names.CollectCodesComplete | Pagina.py:514-519 | Every mapped candidate is collected with its code and display name |
| Names.CollectCodesAppend | Pagina.py:512-519 | Collecting two runs of candidates gives the first run's codes and names followed by the second's: the loop keeps candidate order |
| Names.CollectCodesLast | Pagina.py:512-519 | The last candidate appends, at the end, exactly what collecting it alone gives |
| Names.SelectionPairs | Pagina.py:508-512 | The candidate pairs are exactly the selected funds with their ticked series: every pair is one, and every ticked series of a selected fund is one |
| Names.SelectionPairsOne | Pagina.py:509-512 | One selection gives its fund paired with each ticked series, in the order ticked, once each |
| Names.SelectionPairsAppend | Pagina.py:508-512 | The pairs of two runs of selections are the first run's followed by the second's: selection order is kept, and with the one-selection case this fixes the list, repeats included |
| Names.ProcessSelections | Pagina.py:498-521 | The two lists are parallel, and no selection gives two empty lists |
| Names.ProcessSelectionsAppend | Pagina.py:508-519 | The codes and names of two runs of selections are the first run's followed by the second's, so they come in selection order |
| Names.ProcessSelectionsSound | Pagina.py:508-519 | Every collected entry is a ticked series of a selected fund with a code in the currency, with that code and `fondo - serie` |
| Names.ProcessSelectionsComplete | Pagina.py:508-519 | Every ticked series of a selected fund that has a code in the currency is collected, with that code and `fondo - serie` |
| Names.CategoryPairs | informe_module.py:368-372 | The candidates of a category are exactly the listed funds known to the map, each paired with its series for the currency |
| Names.CategoryPairsOne | informe_module.py:369-372 | One fund gives nothing when the map does not know it, and otherwise the fund with each of its series for the currency, in list order |
| Names.CategoryPairsAppend | informe_module.py:368-372 | The candidates of two runs of funds are the first run's followed by the second's: category order is kept, and with the one-fund case this fixes the list |
| Names.CategoryCodes | informe_module.py:365-377 | The code and name lists of a category table are parallel |
| Names.CategoryCodesAppend | informe_module.py:368-377 | The codes and names of two runs of category funds are the first run's followed by the second's, so they come in category order |
| Names.CategoryCodesSound | informe_module.py:368-377 | Each collected entry is a listed series, in the currency, of a fund of the category, with its code and `fondo - serie` |
| Names.CategoryCodesComplete | anexo_mensual_module.py:365-373 | Each listed series of a category fund that has a code in the currency is collected |
| Names.KnownFunds | Pagina.py:462-463 | The SURA list filtered to the funds in the map holds those funds and only those, and is no longer than the list |
| Names.KnownFundsOne | Pagina.py:462-464 | A single listed fund is kept exactly when the map knows it |
| Names.KnownFundsAppend | Pagina.py:462-464 | Filtering two runs of the list gives the first run's kept funds followed by the second's, so the list order is kept |
| Names.FilterSura | Pagina.py:455-473 | The filtered mappings hold exactly the SURA funds present, in the order of the SURA list (the `KnownFunds` filter, whose order `KnownFundsAppend` fixes), with unchanged series lists, and exactly the codes of those funds' listed series |
| Categories.CategoryOf | informe_module.py:327-353 | A fund is domestic fixed income exactly when its lower-cased name has a debt word and a Chile word, and is `Otros` exactly when it has no word of any single-list rule |
| Categories.FirstMatch | informe_module.py:330-353 | The first-matching-rule search returns `Otros` or the category of a rule that matches, and `Otros` when no rule matches |
| Categories.FirstMatchIsFirst | informe_module.py:330-353 | When rule `i` matches and no earlier rule does, the result is rule `i`'s category |
| Categories.CategoryOfIsFirstMatch | informe_module.py:330-353 | The `if`/`elif` chain is the first-match search over the rules in priority order |
| Categories.DebtWordsAreForeignDebtWords | informe_module.py:331-336 | A name with a domestic-debt word also matches the international fixed-income list |
| Categories.Members | informe_module.py:327-353 | One category's list holds exactly the input funds of that category, and is no longer than the input |
| Categories.Categorize | anexo_mensual_module.py:311-352 | All six keys are present, and each key's list holds exactly the input funds of that category |
| Categories.CategorizePartitions | informe_module.py:318-355 | The six lists together hold as many names as the input, so each input fund is listed once |
| Dispatch.WithFallback | Pagina.py:603-617 | The builder returns the live table, or else a non-empty cached frame that was returned while up to date; it returns the live table when the cache is stale, raised, returned None or returned an empty frame, and the cached frame whenever the cache is up to date and returns a non-empty frame |
| Currencies.CurrencyOf | Pagina.py:601 | A table is read as CLP exactly when it is the peso table |
| PaginaReturns.Years | Pagina.py:780 | `days / 365.25` times 365.25 is the day count, and it is positive exactly when the days are |
| PaginaReturns.PeriodAvailable | Pagina.py:1064-1086 | `validar_periodo_disponible` holds exactly when the series is non-empty and has a date on or before the reference date minus the window |
| PaginaReturns.PeriodAvailableShorter | Pagina.py:1082-1086 | A window that is available stays available when it is shortened |
| PaginaReturns.YtdAvailable | Pagina.py:1088-1101 | `validar_periodo_ytd` holds exactly when the series has an observation in the year before the reference date's year |
| PaginaReturns.YtdAvailableInDates | Pagina.py:1098-1101 | The same test in dates: some observation lies between January 1 and December 31 of the previous year |
| PaginaReturns.PeriodReturn | Pagina.py:931-938 | NaN exactly when no observation is on or after the last date minus `days`; otherwise the return of the current price over the first such observation |
| PaginaReturns.PeriodReturnNumeric | Pagina.py:935-938 | On a non-empty series with a non-negative window, the window holds the last observation, so the NaN branch is unreachable |
| PaginaReturns.PeriodReturnEmptyWindow | Pagina.py:931-937 | A zero-day window starts at the last observation, so the last price's return is 0 |
| PaginaReturns.YtdReturn | Pagina.py:940-960 | NaN exactly when the year before the series' own last year has no observation; otherwise the return over that year's last observation |
| PaginaReturns.AnnualizedPeriod | Pagina.py:962-975 | A number exactly when at least two observations lie in the window, annualized from the first to the last of them; NaN on an empty series |
| PaginaReturns.Itd | Pagina.py:780-785 | The inception-to-date figure is 0 for a single observation, and otherwise the annualized return from the first to the last observation |
| PaginaReturns.HistoryYears | Pagina.py:780 | The history length in years is non-negative, 0 exactly for a single observation, and spans the first to the last date |
| PaginaReturns.WholeWindowIsItd | Pagina.py:962-975 | A window that reaches back to the first observation gives the inception-to-date figure |
| PaginaReturns.CalendarYearCell | Pagina.py:908-925 | `"-"` exactly when the fund starts after January 1 or the year has fewer than two prices; otherwise the return from the year's first price to its last price; never NaN |
| PaginaReturns.FirstToLast | Pagina.py:916-922 | `"-"` exactly when fewer than two rows satisfy the filter; otherwise the return of the last filtered price over the first one |
| PaginaReturns.CalendarYearBeforeStart | Pagina.py:910-925 | A fund that does not start on January 1 shows `"-"` for its first year and every earlier one |
| PaginaTables.GatedPeriod | Pagina.py:630-663 | A fixed-window cell is `"-"` exactly when the fund starts after the table date minus the window; it is never NaN, and otherwise it is the return over the first price in the window |
| PaginaTables.GatedYtd | Pagina.py:648-651 | The YTD cell is `"-"` exactly when the YTD validator fails; it is NaN exactly when the validator passes but the year before the fund's own last year has no price |
| PaginaTables.CumulativeRowOf | Pagina.py:622-680 | A cumulative row holds the display split, the gated cells for 30/90/365/1095/1825 days and the gated YTD; a longer window shown implies every shorter window is shown |
| PaginaTables.CumulativeOnlyYtdIsNaN | Pagina.py:630-663 | In a cumulative row only the YTD cell can be NaN |
| PaginaTables.CumulativeYtdCanBeNaN | Pagina.py:648-651 | A single-price fund read a year after its price passes the YTD validator, yet its YTD cell is NaN |
| PaginaTables.CumulativeLive | Pagina.py:619-682 | The live cumulative table has one row per kept code, in input order, each the row of that code's series measured at the table's last date |
| PaginaTables.Cumulative | Pagina.py:595-617 | `calcular_rentabilidades` returns the live table or a non-empty cached frame answered while up to date; it returns the live table when the cache is stale, and the cached frame whenever an up-to-date cache returns a non-empty one |
| PaginaTables.GatedAnnualized | Pagina.py:789-804 | An annualized cell is `"-"` exactly when the validator fails, NaN exactly when the validator passes but the window has fewer than two prices, and otherwise the windowed annualized return |
| PaginaTables.AnnualizedRowOf | Pagina.py:770-819 | An annualized row holds the display split, the gated 1/3/5-year cells, the inception-to-date figure and the history span; a longer horizon shown implies every shorter one is shown |
| PaginaTables.AnnualizedGateAdmitsNaN | Pagina.py:789-790 | The validator does not ensure a number: a fund priced on days 0 and 1000 passes the one-year gate but gets NaN |
| PaginaTables.AnnualizedLive | Pagina.py:767-821 | The live annualized table has one row per kept code, in input order |
| PaginaTables.Annualized | Pagina.py:743-765 | `calcular_rentabilidades_anualizadas` returns the live table or a non-empty cached frame answered while up to date; the live table when the cache is stale, and the cached frame whenever an up-to-date cache returns a non-empty one |
| PaginaTables.TableYears | Pagina.py:891 | The year columns strictly increase and end at the year of the table's last date |
| PaginaTables.YearsOfSorted | Pagina.py:891 | The years of sorted dates are non-decreasing |
| PaginaTables.Runs | Pagina.py:891 | `unique` of a sorted year sequence strictly increases and ends at its last value |
| PaginaTables.RunsCover | Pagina.py:891 | Every value of the sequence appears among the unique values |
| PaginaTables.RunsFrom | Pagina.py:891 | Every unique value occurs in the sequence |
| PaginaTables.TableYearsCover | Pagina.py:891 | Every date's year is a column of the per-year table |
| PaginaTables.TableYearsFromDates | Pagina.py:891 | Every column of the per-year table is the year of some table date |
| PaginaTables.YearLabelsDistinct | Pagina.py:920 | Distinct years get distinct column labels |
| PaginaTables.PerYearRowOf | Pagina.py:897-927 | A per-year row has the display split and one cell per table year, labelled by the year and holding that year's calendar cell; no cell is NaN |
| PaginaTables.PerYearLive | Pagina.py:890-929 | The live per-year table has one row per kept code, in input order, each over every year of the whole table |
| PaginaTables.PerYearColumnsDistinct | Pagina.py:908-920 | No two year columns of a row share a label |
| PaginaTables.PerYearBeforeStartIsDash | Pagina.py:910-925 | A fund that does not start on January 1 shows `"-"` in every year column up to and including its first year |
| PaginaTables.PerYear | Pagina.py:866-887 | `calcular_rentabilidades_por_año` returns the live table or a non-empty cached frame answered while up to date; the live table when the cache is stale, and the cached frame whenever an up-to-date cache returns a non-empty one |
| PaginaChart.FirstDate | Pagina.py:1033-1035 | A fund's first date is a date of the table |
| PaginaChart.FirstDateIsEarliest | Pagina.py:1031-1036 | A fund's first date is the earliest date on which its column has a price: that row is priced, and no priced row of the column comes before it |
| PaginaChart.Latest | Pagina.py:1038-1042 | `max` over the found start dates: None exactly when none was found, otherwise one of them and no earlier than any |
| PaginaChart.StartDates | Pagina.py:1031-1036 | One entry per selected code: its first date when it is present, otherwise nothing |
| PaginaChart.LatestStart | Pagina.py:1015-1042 | The newest fund's start: None exactly when no selected code has prices; otherwise the first date of some selected fund, no earlier than any selected fund's first date |
| PaginaChart.LatestStartInTable | Pagina.py:1035-1042 | The newest fund's start is a table date |
| PaginaChart.AvailableYears | Pagina.py:1044-1061 | The years available are 0 without both dates, and otherwise span the days between them at 365.25 days a year |
| PaginaChart.AvailableYearsThreshold | Pagina.py:1058-1059 | At least `n` years are available exactly when four times the day span reaches `1461 * n` |
| PaginaChart.AdjustStartAsWritten | Pagina.py:1103-1162 | As written, `max` returns the limit (None without one); every other period returns its computed start, which depends on the limit only in counting 3 and 6 months by calendar, and is never raised to the limit; YTD returns December 31 of the previous year |
| PaginaChart.AdjustStartIgnoresLimit | Pagina.py:1140-1162 | With the limit on day 995, `'1m'` before day 1000 returns day 970, which is earlier than the limit |
| PaginaChart.AdjustStart | Pagina.py:1139-1162 | The corrected start never precedes the limit and is either the computed start or the limit; without a limit it is the as-written start |
| PaginaChart.Clamp | Pagina.py:988-991 | The window start is the requested start raised to the limit: no earlier than either, and equal to one of them |
| PaginaChart.ClampMasksAdjust | Pagina.py:988-991 | Once the window clamps its start to the same limit, the as-written and the corrected start give the same window start |
| PaginaChart.ThreeMonthsIsNot90Days | Pagina.py:1120-1143 | From May 31, three calendar months back (with a limit) is earlier than 90 days back (without one) |
| PaginaChart.LastAtMost | Pagina.py:1185-1188 | The latest date not after the target: it exists exactly when some date is not after the target, and no later date qualifies |
| PaginaChart.FindDate | Pagina.py:1165-1194 | The exact date when present; otherwise the latest table date not after the target, or the first date when the target precedes them all; the target itself for an empty table |
| PaginaChart.FindDateNotBefore | Pagina.py:1181-1188 | Searching a target no earlier than a table date never returns an earlier date |
| PaginaChart.RowsBetween | Pagina.py:998 | The rows whose dates lie between the two bounds: all of them, in order |
| PaginaChart.FirstPresent | Pagina.py:1007-1009 | The first non-missing price of the window: none exactly when all are missing |
| PaginaChart.Rebase | Pagina.py:1007-1011 | Rebasing keeps the missing cells missing and maps each price to its return over the first present price |
| PaginaChart.RebaseStartsAtZero | Pagina.py:1009-1010 | The rebased series is 0 at its first price |
| PaginaChart.RebaseRecoversPrices | Pagina.py:1009-1010 | Every price is recovered from the base price and its rebased value |
| PaginaChart.CellsAt | Pagina.py:998 | The window's cells are the column's cells at the window rows |
| PaginaChart.ChartColumn | Pagina.py:1005-1011 | A code gets a column exactly when it is a table column with a price in the window, and that column is its rebased window |
| PaginaChart.ChartColumnStartsAtZero | Pagina.py:1007-1011 | Every chart column is missing before its first price and 0 there |
| PaginaChart.ChartColumns | Pagina.py:1005-1011 | Every chart column belongs to a selected code |
| PaginaChart.ChartColumnsSound | Pagina.py:1005-1011 | Every chart column is the rebased column of its code |
| PaginaChart.ChartColumnsComplete | Pagina.py:1005-1011 | Every selected code with a price in the window has its column in the chart |
| PaginaChart.DistinctColumns | Pagina.py:1011 | Distinct selected codes give distinct chart columns |
| PaginaChart.WindowRows | Pagina.py:985-998 | The window rows are exactly the table rows dated from the window's start to the snapped end date (`Dates` between the two bounds, both included), in increasing order, and never before the newest fund's first date |
| PaginaChart.WindowStartAfterLatest | Pagina.py:985-991 | The snapped, clamped start of the window is never before the newest fund's first price |
| PaginaChart.ReturnsWindow | Pagina.py:977-1013 | The window is empty without a selection; otherwise its dates are the dates of the window rows: increasing table dates up to the snapped end, never before the newest fund's start, and including every table date between the window's start and the snapped end; its columns are the rebased columns of the distinct selected codes |
| PaginaChart.DatesAtIncreasing | Pagina.py:998 | The window's dates increase |
| PaginaChart.ReturnsWindowColumnsDistinct | Pagina.py:1005-1011 | The window has no repeated column |
| Informe.OverBase | informe_module.py:106-118 | NaN exactly when there is no base row or its price is 0; otherwise the percentage that grows the base price into the current one |
| Informe.Daily | informe_module.py:68-81 | NaN exactly when there are fewer than two prices or the penultimate one is 0; otherwise the return that grows the penultimate price into the last |
| Informe.DailyReadsLastTwo | informe_module.py:72-81 | The daily return depends only on the last two observations, and is a number on a positive series of two or more |
| Informe.PriorMonth | informe_module.py:93-98 | The previous month filter names a valid month |
| Informe.PriorMonthAdjacent | informe_module.py:93-98 | The previous month ends the day before month `m` begins, December of `y - 1` for January |
| Informe.MonthBeforeRange | informe_module.py:89-104 | Every date of the month before the as-of date lies before the first of the as-of month and at most 61 days earlier |
| Informe.Mtd | informe_module.py:83-121 | NaN exactly when the previous month has no price or its last price is 0; otherwise the return of the series' last price over the previous month's last price |
| Informe.OverLastIn | informe_module.py:106-118 | NaN exactly when no row satisfies the base filter or the last such price is 0; otherwise the last price over that base |
| Informe.YtdImproved | informe_module.py:123-149 | NaN exactly when the year before the as-of year has no price or its last price is 0; otherwise the last price over that year's last price |
| Informe.YtdImprovedMatchesYtd | informe_module.py:128-146 | When the fund's last price is in the as-of year, the report's YTD equals the dashboard's YTD |
| Informe.YtdImprovedFollowsTableDate | informe_module.py:128-138 | A fund whose prices stop a year before the table date gets a different report YTD (0) than dashboard YTD (100) |
| Informe.YtdReturnFrom | Pagina.py:950-957 | The dashboard YTD is the return over the last price of the previous year whenever that price exists |
| Informe.SpecificYear | informe_module.py:151-177 | NaN exactly when the previous year or the target year has no price, or the base is 0; otherwise the target year's last price over the previous year's last price |
| Informe.LastOverLast | informe_module.py:157-174 | NaN exactly when either filter selects nothing or the base is 0; otherwise the last filtered price over the last base price |
| Informe.SpecificYearOfLastYear | informe_module.py:151-174 | For the fund's own last year, the year return equals the report's YTD |
| Informe.SpecificYearAtLast | informe_module.py:163-169 | When the last price is in the target year, the year return is that price over the previous year's last price |
| Informe.YtdImprovedOverLastPrice | informe_module.py:132-146 | The report YTD is the last price over the previous year's last price |
| Informe.LastOverLastAt | informe_module.py:163-174 | With known last positions of both filters, the result is the return between those two prices |
| Informe.LastOverLastAtLast | informe_module.py:163-174 | When the last price satisfies the period filter, the result is measured to the last price |
| Informe.SpecificYearDiffersFromCalendarYear | informe_module.py:163-169 | A series where the report's year return (100) and the dashboard's calendar-year cell (0) differ |
| Informe.CalendarYearAt | Pagina.py:916-919 | The per-year cell of a year whose first and last prices are equal is 0 |
| Informe.AnnualizedValidated | informe_module.py:179-231 | NaN exactly when there are fewer than two prices, less than `n` years of history, `n = 0`, or a zero base; otherwise the last price over the first price on or after `n * 365.25` days back, annualized over exactly `n` years |
| Informe.AnnualizedValidatedGate | informe_module.py:191-202 | On a positive series, only the history length and `n` decide NaN |
| Informe.AnnualizedValidatedShorter | informe_module.py:198-202 | A fund with `n` years of history has every shorter positive horizon |
| Informe.AnnualizedValidatedAtExactHistory | informe_module.py:204-228 | With exactly `n` years of history, the figure is the dashboard's inception-to-date return |
| Informe.AutoYears | informe_module.py:233-238 | The two automatic years are the two calendar years immediately before the as-of date's year, the later first |
| Informe.YearColumn | informe_module.py:300-301 | The `Año {y}` column name starts with `Año ` |
| Informe.YearColumnInjective | informe_module.py:300-301 | Distinct years give distinct year columns |
| Informe.ReportColumns | informe_module.py:289-303 | The report has fourteen distinct column names |
| Informe.ReportRowOf | informe_module.py:261-302 | A report row holds the display split, the last price, ungated period returns that are always numbers, daily NaN exactly for a single price, MTD/YTD from the table date, the two automatic years and the 3/5-year figures, and never `"-"` |
| Informe.ReportLive | informe_module.py:253-306 | The report has one row per kept code, in input order, every fund measured from the table's latest date |
| Anexo.MonthLabel | anexo_mensual_module.py:64-76 | A month heading is longer than four characters, with a dash after its three-letter month abbreviation |
| Anexo.MonthLabelInjective | anexo_mensual_module.py:64-76 | Distinct (year, month) pairs give distinct headings |
| Anexo.MonthAbbrDistinct | anexo_mensual_module.py:64-67 | The twelve Spanish abbreviations are distinct and three letters long |
| Anexo.EntryOf | anexo_mensual_module.py:73-75 | The entry of a date records its year and month |
| Anexo.EntryKeyMonotone | anexo_mensual_module.py:72-75 | A later date never has an earlier entry |
| Anexo.MonthsForCalc | anexo_mensual_module.py:54-80 | Exactly twelve entries, entry `i` the month of the date `30 * i` days back |
| Anexo.StepDate | anexo_mensual_module.py:73 | Step `i` is the as-of date minus `30 * i` days |
| Anexo.MonthsStartAtAsOf | anexo_mensual_module.py:72-78 | The first entry is the month of the as-of date |
| Anexo.MonthsNeverForward | anexo_mensual_module.py:72-78 | The (year, month) sequence never moves forward |
| Anexo.MonthsCanRepeat | anexo_mensual_module.py:72-78 | From January 31 the first two entries are both January |
| Anexo.MonthsCanSkip | anexo_mensual_module.py:72-78 | From March 1 of a common year, February never appears |
| Anexo.MonthReturn | anexo_mensual_module.py:82-137 | NaN exactly when the month or the month before has no price, or the base is 0; otherwise the month's last price over the previous month's last price |
| Anexo.MonthReturnIsMtd | anexo_mensual_module.py:96-131 | For the month of the fund's last price, the monthly return equals the report's MTD |
| Anexo.MonthReturnAtLast | anexo_mensual_module.py:121-131 | When the last price is in the month, the return is that price over the previous month's last price |
| Anexo.TwelveMonthReturn | anexo_mensual_module.py:139-161 | NaN exactly when no price is on or after the date 365 days back or the base is 0; otherwise the last price over the first such price |
| Anexo.TwelveMonthMatchesPeriod | anexo_mensual_module.py:143-158 | Measured from the fund's own last date, the 12-month return is the dashboard's 365-day period return |
| Anexo.TwelveMonthCanBeNaN | anexo_mensual_module.py:143-150 | Measured from a table date 400 days after a fund's only price, the 12-month return is NaN |
| Anexo.KeysOf | anexo_mensual_module.py:276-288 | The keys of the row's dict, in insertion order |
| Anexo.AssocPut | anexo_mensual_module.py:282-284 | Assigning a dict key keeps an existing key's place or appends a new key, and stores the value |
| Anexo.FindKey | anexo_mensual_module.py:282-284 | The first position of a key, found exactly when the key is present |
| Anexo.LastPutWins | anexo_mensual_module.py:282-284 | After an assignment, the key holds the assigned value |
| Anexo.Labels | anexo_mensual_module.py:282-284 | One heading per listed month |
| Anexo.HeadingInjective | anexo_mensual_module.py:76 | Distinct months have distinct headings |
| Anexo.CellsKeys | anexo_mensual_module.py:282-284 | The month keys of a row are the distinct headings in listing order |
| Anexo.CellsValues | anexo_mensual_module.py:282-284 | Each month key holds the value computed for its month |
| Anexo.CellValue | anexo_mensual_module.py:282-284 | The cell under a month's heading holds that month's value |
| Anexo.MonthCells | anexo_mensual_module.py:282-284 | The month cells of a row: one key per distinct heading, each holding that month's return |
| Anexo.MonthlyRowOf | anexo_mensual_module.py:269-288 | A monthly row has the display split, the keys fund, series, the distinct month headings and `12 M`, each month key holding that month's return, and the 12-month return |
| Anexo.LabelIsNotFixed | anexo_mensual_module.py:276-288 | No month heading collides with `Fondo`, `Serie` or `12 M` |
| Anexo.MonthlyColumnsDistinct | anexo_mensual_module.py:276-288 | A monthly row's columns are distinct |
| Anexo.MonthlyLive | anexo_mensual_module.py:980-1002 | One row per kept code, in input order, each that code's monthly row measured from the table's last date; every row has the same column list |
| Anexo.DetectCurrency | anexo_mensual_module.py:224-241 | The guessed currency is USD exactly when nothing raised, the globals exist, and the frame equals the dollar table but not the peso table |
| Anexo.DetectCurrencyOfOwnTable | anexo_mensual_module.py:229-233 | Given one of the two distinct tables, the guess is that table's currency |
| Anexo.MonthlyWithCurrency | anexo_mensual_module.py:959-978 | The live table, or a non-empty cached frame answered for the currency while up to date; the live table when the cache is stale, and the cached frame whenever an up-to-date cache returns a non-empty one |
| Anexo.MonthlyComplete | anexo_mensual_module.py:211-292 | The live table, or a non-empty cached frame answered for the guessed currency while up to date; the live table when the cache is stale, and the cached frame whenever an up-to-date cache for the guessed currency returns a non-empty one |
| Anexo.MonthlyCompleteAgrees | anexo_mensual_module.py:224-255 | When the frame is recognised as its own table, guessing the currency gives the same table as passing it |
| Anexo.MonthColumns | anexo_mensual_module.py:386 | The month columns are exactly the frame columns other than `Fondo`, `Serie` and `12 M` |
| Anexo.FilterMembers | anexo_mensual_module.py:386-390 | A list comprehension filter keeps exactly the members satisfying its test |
| Anexo.Available | anexo_mensual_module.py:390-391 | The available columns are exactly the ordered columns present in the frame, keeping the first and the last when present |
| Anexo.AvailableKeeps | anexo_mensual_module.py:390-391 | When every ordered column is present, nothing is dropped |
| Anexo.ColumnOrder | anexo_mensual_module.py:385-391 | The reordered columns are `Fondo` and `Serie` when present, then the month columns in frame order, then `12 M` when present; nothing else is kept and nothing is lost |
| Anexo.ColumnOrderKeepsLayout | anexo_mensual_module.py:385-391 | The live layout is already in display order |
| Anexo.MonthColumnsOfLayout | anexo_mensual_module.py:386 | The month columns of the live layout are its month headings |
| Anexo.FrameColumns | anexo_mensual_module.py:292 | The frame's columns are distinct and are exactly the keys of some row |
| Anexo.SharedKeysFrame | anexo_mensual_module.py:292 | Rows with the same key order give a frame with exactly those columns |
| Anexo.MonthlyCategoryTable | anexo_mensual_module.py:354-391 | A table is shown exactly when the category has funds, some fund has a code in the currency, and the builder returns rows. A shown table holds those rows, its columns are exactly the keys of its rows, ordered `Fondo`, `Serie`, the month columns in frame order, then `12 M` (each fixed column only when present) |
| Anexo.ViewOf | anexo_mensual_module.py:385-391 | The displayed view keeps the rows and shows the frame's columns as `Fondo`, `Serie` (each when present), the month columns in frame order, then `12 M` when present |
| Anexo.MonthlyCategoryLiveLayout | anexo_mensual_module.py:385-391 | Computed live, a category table shows fund, series, each distinct month heading once in listing order, then `12 M` |

## Left out

- The Dash UI: layouts, callbacks, modals, selectors, component-ID searches and the Plotly figures.
- The Excel and PDF report generation: openpyxl, reportlab, column widths and font/logo paths.
- Data loading (`cargar_datos_optimizado`) and every other file access.
- The precomputed-results module (`precalculos_optimizado`) is not part of this model. Its freshness flag and lookups are inputs:
  - freshness is the `upToDate` parameter;
  - each lookup is a function from (currency, codes, names) to "raised" or a frame that may be None.
  - So the model does not show that a cached frame equals the live table.
- The TAC column: it is a random placeholder, so the rows omit it.
- Rounding (`.round(2)`, `round(x, 1)`, `round(rentabilidad, 2)`): cells hold the unrounded values.
- Floating point: prices and returns are exact reals, and NaN and infinities from pandas arithmetic are not modelled.
- The fractional power: `x ** (1 / years)` is a function parameter `pow`, so annualized figures are stated in terms of it.
- Timestamps are taken at midnight, as a day number each. `timedelta(days = n * 365.25)` becomes the real bound `date - n * 365.25`.
- Session caches kept in callback state: the date-keyed report and annex caches, and the dashboard's table caches.
- The cache call of `descargar_informe` (`informe_module.py:1736`) is not modelled because it is callback code. It passes every SURA code and every SURA fund name (two lists that are not parallel) for each category.
- `obtener_codigos_indices` and the index-fund tables: not part of the return computations.
- Inputs that are not a well-formed table are not modelled. A well-formed table has strictly increasing dates, one cell per date in each column, and present prices that are positive. Under that condition:
  - the dashboard formulas with no zero-price guard (`calcular_rentabilidad_periodo`, `_ytd`, `_anualizada_periodo`, the ITD and the per-year return) require positive prices;
  - the report and annex formulas keep their explicit zero guards and need only sorted dates.
- The `try`/`except` blocks of the formulas: on a well-formed series nothing in them raises. The one exception modelled is the division `1 / años_objetivo` when `n = 0`, which is returned as NaN.
- Names.ProcessSelections: the contract itself states only that the lists are parallel and that an empty selection gives empty lists. Their contents are stated by `Names.ProcessSelectionsSound` and `Names.ProcessSelectionsComplete`, and their order by `Names.ProcessSelectionsAppend` with `Names.SelectionPairsOne` and the `Names.CollectCodes` contract.
- Names.CategoryCodes: the contract itself states only that the lists are parallel. Their contents are stated by `Names.CategoryCodesSound` and `Names.CategoryCodesComplete`, and their order by `Names.CategoryCodesAppend` with `Names.CategoryPairsOne` and the `Names.CollectCodes` contract.
- Names.FilterSura: the fund list is the SURA list filtered in place, where the source takes the keys of a dict filled in list order. The two agree because the SURA list names no fund twice; that distinctness is not proved here, since comparing the 22 literal names is too costly for the solver.
- Text.Lower: only ASCII capital letters are lower-cased. Python's `str.lower` also lower-cases accented and other non-ASCII capitals. None of the classifier keywords contains a non-ASCII letter.
- Anexo.MonthlyCategoryTable: returns the rows and ordered columns that would be rendered, not the `html.Div` and `DataTable`. It gives no result where the source returns an empty `html.Div`.
- Informe.ReportRowOf: the `yearA`/`yearB` cells are keyed by field, not by the `Año {y}` text. `Informe.YearColumnInjective` and `Informe.ReportColumns` state that those texts are distinct.

## Findings

| source | as written | input that shows it | evidently intended | confidence | as-written member | corrected member |
|---|---|---|---|---|---|---|
| Pagina.py:1161-1162 | With a limit, `ajustar_fecha_segun_periodo_y_limite` returns the computed start unchanged, although its comment says it returns the more recent of the computed start and the limit | end day 1000, period `'1m'`, limit day 995: the result is day 970, before the limit (`PaginaChart.AdjustStartIgnoresLimit`) | the later of the computed start and the limit (the window builder masks the difference by clamping again at `Pagina.py:988-991`) | not executed | PaginaChart.AdjustStartAsWritten | PaginaChart.AdjustStart |
