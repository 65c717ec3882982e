# Stock analysis dashboard: the analytics core in Dafny

This project models the analytics of a small stock-analysis dashboard
(`app_streamlit_mysql.py`). The dashboard loads two tables. The first is a
daily price table: ticker, date, close and daily return. The second is a
reference table mapping each ticker to its sector. Six pages are drawn from
them. This model keeps what those pages compute and drops the database, the
widgets and the charts. Every computation is a pure function over immutable
sequences of records, with exact `real` arithmetic. A NaN or NULL cell is
`None`. The Monthly Movers page fails on an empty price table, because
`pd.concat` of no frames raises; the model returns `None` there.

Modules, leaf first:

- `Wrappers`: `Option`, the nullable cell.
- `Seqs`: `Distinct` (the key column of a group-by), `Filter` (a boolean-mask
  selection) with its counting lemmas, `NoDup`, `Min`.
- `Sorting`: a comparator-generic insertion sort. It stands for every
  `sort_values` call, and its result is proved to be a sorted permutation.
- `Stats`: sum, mean (`MeanOrNone` is pandas `mean()` once NaN is skipped),
  sample variance, relative change and compound growth.
- `Prices`: the `Row`, `Stock` and `Date` records and load normalisation.
  Normalisation upper-cases the tickers and orders the rows by
  (ticker, date). The module also has the group-by-ticker view and its
  partition property.
- `Ranking`: (name, metric) tables. `Top` models `head(n)`, `nlargest` and
  `nsmallest`. An undefined metric sorts last in both directions, as pandas
  places NaN.
- `Overview`, `Volatility`, `Cumulative`, `Sector`, `Monthly`: one module
  per dashboard page.

The page functions take the price table as loaded. Where a page relies on
the load order, a lemma states what follows under `Normalised`. For
example, the Overview page takes each ticker's first and last row without
sorting again.

## Model

| member | source | states |
|---|---|---|
| `Prices.Normalise` | app_streamlit_mysql.py:22-24 | every ticker is upper case; the rows are a permutation of the loaded rows with tickers upper-cased, ordered by (ticker, date) |
| `Prices.NormaliseStocks` | app_streamlit_mysql.py:23 | the stocks table keeps its rows and sectors, with each ticker upper-cased |
| `Prices.Upper` | app_streamlit_mysql.py:22-23 | the result is upper case and the same length; only lower-case letters change, each to its capital |
| `Prices.UpperFixesUpperCase` | app_streamlit_mysql.py:22-23 | upper-casing leaves a string unchanged exactly when it is already upper case; it is idempotent |
| `Prices.StrLeTotal` | app_streamlit_mysql.py:24 | the ticker order of the sort is total |
| `Prices.StrLeTransitive` | app_streamlit_mysql.py:24 | the ticker order of the sort is transitive |
| `Prices.StrLeAntisymmetric` | app_streamlit_mysql.py:24 | two tickers ordered both ways are equal |
| `Prices.NormalisedGroupsContiguous` | app_streamlit_mysql.py:24 | in the loaded table each ticker's rows are contiguous and date-ascending |
| `Prices.Tickers` | app_streamlit_mysql.py:36 | the group keys: each ticker occurring in the table, exactly once |
| `Prices.RowsOf` | app_streamlit_mysql.py:36 | a group holds exactly the table's rows of that ticker, each as often as it occurs in the table |
| `Prices.RowsOfKeepsOrder` | app_streamlit_mysql.py:36-37 | a group keeps any order the table was in |
| `Prices.NormalisedGroupEndpoints` | app_streamlit_mysql.py:24-37 | on the loaded table a group's first row is the ticker's earliest and its last row its latest |
| `Prices.ReturnColumnCounts` | app_streamlit_mysql.py:61 | each cell of the `daily_return` column occurs once per row carrying it |
| `Prices.DatedGroup` | app_streamlit_mysql.py:71 | `g.sort_values("date")`: the ticker's rows, in date order |
| `Prices.GroupsPartition` | app_streamlit_mysql.py:36-37 | the groups together hold every row of the table exactly once (multiset equality) |
| `Sorting.Sort` | app_streamlit_mysql.py:24 | the result is sorted by the comparator and is a permutation of the input |
| `Sorting.SortedPrefixDominates` | app_streamlit_mysql.py:41-42 | in a sorted sequence every element of a prefix may precede every element after it |
| `Seqs.Distinct` | app_streamlit_mysql.py:36 | no duplicates, and the same elements as the input |
| `Seqs.FilterCounts` | app_streamlit_mysql.py:129 | a boolean-mask selection keeps each selected element exactly as often as it occurs, and no other element |
| `Seqs.ImagePermutation` | app_streamlit_mysql.py:71 | a column taken from a reordered table holds the same values, each as often |
| `Seqs.FilterKeepsOrder` | app_streamlit_mysql.py:120-121 | a selection from a sorted sequence is sorted |
| `Seqs.NoDupUnderPermutation` | app_streamlit_mysql.py:127 | a permutation of a sequence without duplicates has none |
| `Ranking.Ranked` | app_streamlit_mysql.py:74 | `sort_values`: a permutation ordered by metric, undefined metrics last |
| `Ranking.Top` | app_streamlit_mysql.py:41-42 | `min(n, size)` entries drawn from the input, in rank order; no entry left out ranks above one kept |
| `Stats.RelativeChange` | app_streamlit_mysql.py:39 | `to = from * (1 + r)`, undefined exactly when `from` is 0 |
| `Stats.MeanBetween` | app_streamlit_mysql.py:46 | the mean lies between the smallest and the largest value |
| `Stats.MeanOrNone` | app_streamlit_mysql.py:46 | `mean()` over the defined values: undefined exactly when there are none; otherwise times their count it gives their sum, and it lies between the smallest and the largest of them |
| `Stats.MeanShift` | app_streamlit_mysql.py:91-94 | adding `c` to every value adds exactly `c` to the mean |
| `Stats.VarianceOfFlatIsZero` | app_streamlit_mysql.py:61 | the sample variance is non-negative and is 0 for a flat series |
| `Stats.NonNullCounts` | app_streamlit_mysql.py:61 | skipping NULLs keeps each defined value as often as its cell occurs, and drops exactly the NULL cells |
| `Stats.NonNullShift` | app_streamlit_mysql.py:91-94 | when each cell is another's plus `c`, the defined values are shifted by `c` |
| `Overview.SummaryOf` | app_streamlit_mysql.py:36-39 | the ticker's row; `end_close = start_close * (1 + yearly_return)`, and the return is undefined exactly when `start_close` is 0 |
| `Overview.Summarise` | app_streamlit_mysql.py:36-38 | exactly one summary row per distinct ticker, and each is that ticker's row |
| `Overview.SummaryEndpoints` | app_streamlit_mysql.py:24-37 | on the loaded table `start_close` is the close of the ticker's earliest row and `end_close` that of its latest |
| `Overview.SingleRowYearlyReturn` | app_streamlit_mysql.py:36-39 | a ticker with one row has yearly return 0 (undefined if that close is 0) |
| `Overview.GreenCount` | app_streamlit_mysql.py:44 | at most the number of rows; 0 exactly when no row has a positive return, and all rows exactly when every row has one |
| `Overview.RedCount` | app_streamlit_mysql.py:45 | at most the number of rows; 0 exactly when no row has a defined return at most 0, and all rows exactly when every row has one |
| `Overview.CountsPartition` | app_streamlit_mysql.py:44-45 | green + red + undefined is the number of rows; nothing is undefined exactly when every return is defined |
| `Overview.MarketCountsAddUp` | app_streamlit_mysql.py:44-45 | green + red never exceeds the ticker count and equals it when no start close is 0 |
| `Overview.AvgLastClose` | app_streamlit_mysql.py:46 | undefined exactly for an empty table; otherwise times the ticker count it gives the sum of last closes, and it lies between the smallest and the largest last close |
| `Overview.TopGainers` | app_streamlit_mysql.py:41 | `min(10, #tickers)` entries taken from the summary without repetition (a sub-multiset of it), each a ticker with its own yearly return, descending; no ticker left out has a higher return |
| `Overview.TopLosers` | app_streamlit_mysql.py:42 | the mirror image: `min(10, #tickers)` entries, a sub-multiset of the summary, ascending; no ticker left out has a lower return |
| `Volatility.ReturnsOfExact` | app_streamlit_mysql.py:61 | a value is among a ticker's returns exactly when some row of that ticker carries it as a defined daily return; it occurs once per such row, so the count behind the two-returns rule is the ticker's rows minus those with a NULL return |
| `Volatility.Dispersion` | app_streamlit_mysql.py:61 | undefined with fewer than two returns, otherwise non-negative, and 0 for a flat series |
| `Volatility.VolatilityEntries` | app_streamlit_mysql.py:61 | after `dropna`, exactly the tickers with at least two defined returns, each with its own dispersion, none twice |
| `Volatility.VolatilityChart` | app_streamlit_mysql.py:61-62 | at most 20 entries, a sub-multiset of the per-ticker dispersions (so none twice), in descending order of dispersion; a ticker with fewer than two returns is never shown, and no ticker left out is more volatile than one shown |
| `Cumulative.DatedReturnsExact` | app_streamlit_mysql.py:70-72 | one return per row of the ticker: the same `daily_return` cells as the ticker's rows, each exactly as often (multiset equality) |
| `Cumulative.DatedReturnsLast` | app_streamlit_mysql.py:71-73 | the last dated return, the one `cum.iloc[-1]` reads, is the return of a row of the ticker that no other row of it postdates |
| `Cumulative.GrowthAt` | app_streamlit_mysql.py:72 | position `i` of `(1 + r).cumprod()` is NULL exactly where the return is NULL |
| `Cumulative.GrowthAtStep` | app_streamlit_mysql.py:72 | at a defined position the factor is the one accumulated over the earlier defined returns times `1 + r` |
| `Cumulative.RunningStep` | app_streamlit_mysql.py:72 | one loop step: the accumulator carried over a NULL, or times `1 + r`, is the closed form at the next position |
| `Cumulative.RunningProduct` | app_streamlit_mysql.py:72 | the one-accumulator running product agrees at every position with the closed form: NULL stays NULL, else the product of `1 + r` over the defined returns so far |
| `Cumulative.NoLookAhead` | app_streamlit_mysql.py:72 | position `i` of the running product depends only on the returns up to `i` |
| `Cumulative.FinalCumReturn` | app_streamlit_mysql.py:72-73 | `cum.iloc[-1]` is the product of `1 + r` over the defined returns minus 1, and NULL exactly when the last return is NULL |
| `Cumulative.CompoundingExample` | app_streamlit_mysql.py:72-73 | returns NULL, 0.10, 0.10 give a final cumulative return of 0.21 |
| `Cumulative.FinalEntries` | app_streamlit_mysql.py:69-74 | one entry per ticker, in group order, carrying its final cumulative return |
| `Cumulative.TopCumulative` | app_streamlit_mysql.py:74-75 | `min(N, #tickers)` tickers, a sub-multiset of the final entries (so none twice), descending by final cumulative return; none left out has a larger final value |
| `Sector.FinalGrowth` | app_streamlit_mysql.py:91 | the final growth factor is defined exactly when the final cumulative return is, and exceeds it by exactly 1 |
| `Sector.JoinTicker` | app_streamlit_mysql.py:93 | one merged row per stocks row of that ticker, counted as often as the stocks row occurs, and no other row |
| `Sector.Join` | app_streamlit_mysql.py:93-94 | each merged row pairs a priced ticker with a stocks row for it and carries the ticker's final growth; it occurs as often as that stocks row, and every such pair occurs |
| `Sector.UnlistedTickerIgnored` | app_streamlit_mysql.py:93-94 | a ticker with no stocks row gives no merged row, so it is in no sector |
| `Sector.SectorRows` | app_streamlit_mysql.py:94 | a sector's group holds exactly the merged rows of that sector, each as often as in the merged frame |
| `Sector.SectorValuesExact` | app_streamlit_mysql.py:94 | the values averaged for a sector are exactly the defined `final_cum` cells of its merged rows |
| `Sector.SectorValueCounts` | app_streamlit_mysql.py:94 | each averaged value occurs once per merged row of the sector carrying it, so the mean weighs every row and the values number the sector's rows minus its NULL cells |
| `Sector.SectorMean` | app_streamlit_mysql.py:94 | undefined exactly when no merged row of the sector has a defined value; otherwise the mean of those values, lying between the sector's smallest and largest defined value |
| `Sector.SectorMeanIsShiftedCumMean` | app_streamlit_mysql.py:91-94 | a sector's value is the mean of its tickers' final cumulative returns plus exactly 1, and is undefined exactly when none of them is defined |
| `Sector.JoinedSectors` | app_streamlit_mysql.py:93-94 | the merged frame's sectors are exactly the sectors of stocks rows whose ticker has prices |
| `Sector.SectorEntries` | app_streamlit_mysql.py:94 | one entry per sector, none twice, each with its sector mean |
| `Sector.SectorPerformance` | app_streamlit_mysql.py:94 | sorted descending with undefined means last; each listed sector once; exactly the sectors of priced tickers; each with its mean |
| `Sector.NamesOfPermutation` | app_streamlit_mysql.py:94 | reordering a table with distinct names keeps the names distinct and the same |
| `Monthly.Bucket` | app_streamlit_mysql.py:121 | a month's bucket holds exactly the group's rows of that month, each as often as in the group |
| `Monthly.BucketKeepsOrder` | app_streamlit_mysql.py:120-121 | a bucket of a date-sorted group is date-sorted |
| `Monthly.MonthRow` | app_streamlit_mysql.py:121-122 | the row carries its ticker and month, and `last = first * (1 + monthly_return)` with the return undefined exactly when `first` is 0 |
| `Monthly.MonthRowEndpoints` | app_streamlit_mysql.py:120-121 | in a date-sorted group a month's first close is its earliest row's close and its last close its latest row's |
| `Monthly.MonthlyOf` | app_streamlit_mysql.py:121 | one row per month with an observation and none for any other month, no month twice |
| `Monthly.MonthlyTableOf` | app_streamlit_mysql.py:119-126 | the union over tickers: each row is its bucket's row; each observed (ticker, month) has a row; no pair twice |
| `Monthly.MonthlyTable` | app_streamlit_mysql.py:119-126 | with no price rows `pd.concat` raises and the page fails (`None`) exactly then; otherwise the table is non-empty and no (ticker, month) pair occurs twice |
| `Monthly.MonthlyRowsExact` | app_streamlit_mysql.py:119-126 | a (ticker, month) pair has a monthly row exactly when it has at least one observation |
| `Monthly.MonthlyRowEndpoints` | app_streamlit_mysql.py:120-122 | a row's first and last close are those of the ticker's earliest and latest observation of that month, related by the monthly return |
| `Monthly.TwoMonthExample` | app_streamlit_mysql.py:121-122 | closes from 2 January to 5 February give exactly two rows, and February's first close is the 1 February close |
| `Monthly.SelectMonth` | app_streamlit_mysql.py:129 | exactly the rows of the chosen month, each as often as in the table; possibly none |
| `Monthly.MonthOptions` | app_streamlit_mysql.py:127 | every month of the table once, latest first |
| `Monthly.OfferedMonthsAreNonEmpty` | app_streamlit_mysql.py:127-129 | a month is offered exactly when selecting it yields at least one row |
| `Monthly.Gainers` | app_streamlit_mysql.py:131 | `min(5, #rows of the month)` rows of that month, a sub-multiset of them (so none twice), descending by return; none left out is larger |
| `Monthly.Losers` | app_streamlit_mysql.py:133 | `min(5, #rows of the month)` rows of that month, a sub-multiset of them, ascending by return; none left out is smaller |

## Left out

- The MySQL connection, the SQL text and `@st.cache_data` (lines 7-21, 27). They are I/O and framework caching. The two tables are parameters.
- Date parsing (`parse_dates`). A date is a (year, month, day) triple of integers, ordered lexicographically. Calendar validity is not checked.
- The open, high, low, volume and company columns. No page uses them.
- All Streamlit and plotly rendering, the page radio and the headers. Chart building is also left out: the per-ticker plot frame, its date index and its forward fill (lines 77-83). The slider value `N` and the selected month are parameters.
- The correlation page (lines 98-112). It needs square roots and pandas NaN semantics. Its `fillna(0)` is a display substitution.
- Volatility.Dispersion: the source plots the sample standard deviation, while the model uses the sample variance. The square root is left out. The root is monotone, so the set of tickers shown and their order are the same, but the plotted values are not.
- Overview.SummaryOf: when the start close is 0, the source divides by zero as a float. It gets +inf, -inf or NaN. The model has one undefined value (`None`) for all three. As a result, a ticker the source would count green (+inf) or red (-inf) is counted as neither, and an infinite return is ranked last rather than first or last. The same holds for `Monthly.MonthRow` when a month's first close is 0.
- Prices.Upper: only ASCII letters are upper-cased. Python's `str.upper` also maps other letters, and some of those change the string's length.
- Ranking.Top: the order among equal metrics is not specified. pandas `sort_values`, `nlargest` and `nsmallest` make no stability promise here. The model proves sortedness and membership, not a tie-break.
- Monthly.Gainers: the model follows the pandas versions in which `nlargest` and `nsmallest` fill the `n` places with NaN rows after the defined ones (NaN last). Older pandas versions drop NaN rows there instead, so they show fewer rows. The same holds for `Monthly.Losers`.
- Prices.DatedGroup: the model re-sorts a group by date with a stable sort. pandas' default sort is not stable, so rows with the same ticker and date may come out in another order.
- Prices.Tickers: the groups come in first-appearance order, while pandas sorts the group keys. The two agree on the loaded table. Group order only affects ties in the rankings.
- Monthly.MonthKey: a month is a (year, month) pair rather than the `"%Y-%m"` string. The string is the same pair written out.
- `groupby().first()` / `.last()` skip NULLs per column. The model assumes `close` is never NULL.
- A NULL sector in the stocks table, which the sector group-by would drop. A sector is always a string here.

Three behaviours of the code are easy to misread; the model follows the code:

- No deterministic tie-break is applied in rankings.
- The final cumulative return of a ticker whose last daily return is NULL is NULL: for example, a ticker with a single row. It does not treat that NULL as 0. This follows the code, because `cumprod` keeps NULL positions.
- The sector value is the mean of `prod(1 + r)` with no `- 1`. So it is the mean final cumulative return plus exactly 1 (`Sector.SectorMeanIsShiftedCumMean`).
