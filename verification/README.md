# SimFin fundamentals page: data-shaping core in Dafny

This project models the part of the dashboard's fundamentals page (`pages/sf.py`) that is
plain sequence logic rather than HTTP, caching or plotting:

- the **request guard** in front of both fetches (at most 10 tickers, end year not before
  start year, ticker limit checked first) and the mapping from the statement selector's
  label to the API's statement code, with `all` as the fallback;
- the **fetchers' shaping work**: defaulting the year range, building the `fyear`,
  `ticker`, `start` and `end` query parameters, and merging the decoded response pages:
  pages not `found` or with empty `data` are skipped, the schema comes from the first
  kept page, and the rows of all kept pages are concatenated;
- the table constructor the merged pages are fed to (`pd.DataFrame(rows, columns=...)`),
  which pads short rows with missing values and fails unless the widest row has exactly
  one value per column label;
- the two **column projectors**: `subset_fundamental` keeps allow-listed columns in the
  table's own order and indexes by `Publish Date` (a `KeyError` when that column is
  absent, even for a table with no columns at all; several columns with that label are
  modelled as a failure of the index assignment, see "Left out"); `subset_prices` reindexes to exactly
  its allow-list, in allow-list order, filling absent columns with missing values, and
  indexes by `Date`, which therefore always exists;
- the indicator choices offered after each projection (`columns.unique().drop(base)`);
- the **chart rules**: a trace stays visible by default only when its name is among the
  first 3 (line chart) or first 1 (spread chart) distinct categories in order of first
  occurrence, every other trace is set to legend-only and none is removed; the line chart's
  reference line is at 3 for `Altman Z Score (ttm)` and at 0 otherwise; the spread chart's
  is always at 0 (`Charts.SpreadChartReferenceLines`); the three spread presets each name
  two price columns.

Modules: `Wrappers` (Option/Result), `Text` (comma join, split, decimal year text),
`Seqs` (`unique()`, `[:k]`, order-preserving embedding), `Tables` (cells, frames, constructor, index),
`Fetch` (pages, merge, years, query parameters), `Projection`, `Dashboard`, `Charts`.

The current year, the API's answer to a request (the `respond` parameter of
`Fetch.GetSimfinFundamental` / `Fetch.GetSimfinPrices`) and the trace list Plotly builds
are inputs. Cells are kept as the provider's raw text or a missing marker.

Behaviour of the code worth knowing:

- A missing `year_start` defaults to `year_end - 1` (pages/sf.py:320), although the
  docstring of `get_simfin_fundamental` (pages/sf.py:307) says it defaults to the current year.
- The schema is taken from the first kept page whose `columns` list is non-empty: the loop
  tests `len(columns) == 0`, so a kept page reporting no labels lets a later page set them.
- An empty ticker selection passes the guard; equal start and end years are accepted
  although the warning speaks of "larger".
- An empty fetch result makes `subset_fundamental` raise `KeyError`
  (`Dashboard.EmptyFetchFundamentalProjection`), while `subset_prices` returns an empty
  table with all its columns (`Dashboard.EmptyFetchPriceProjection`).

## Model

| member | source | states |
|---|---|---|
| Dashboard.CheckRequest | pages/sf.py:47-51 | The fetch is reached iff there are at most 10 tickers and start ≤ end; the ticker warning fires iff there are more than 10; the year warning fires iff the ticker count is fine and end < start. |
| Dashboard.StatementCode | pages/sf.py:52-62 | The code is one of pl, bs, cf, derived, all; it is `all` exactly when the label is none of the four specific statement labels. |
| Dashboard.StatementCodeRoundTrip | pages/sf.py:53-62 | Every specific code leads back to the one label it came from, so the mapping is injective on specific labels; the fallback has no label. |
| Dashboard.StatementChoicesMapToCodes | pages/sf.py:44 | The five selector labels map, in order, to pl, bs, cf, derived, all. |
| Dashboard.FundamentalsStep | pages/sf.py:46-71 | Exactly one of fetch or warning; fetch iff ≤ 10 tickers and start ≤ end; the request carries the mapped statement code, the comma-joined tickers and the fiscal-year list of the chosen range; the warning text follows the branch taken. |
| Dashboard.PricesStep | pages/sf.py:95-106 | Same guard as the fundamentals branch; a fetch asks from January 1 of the start year to December 31 of the end year for the comma-joined tickers. |
| Dashboard.YearChoices | pages/sf.py:40-42 | The year selector lists current year downwards, one per year, and has current − 2000 entries. |
| Dashboard.YearChoicesRange | pages/sf.py:40 | A year is offered iff it lies between 2001 and the current year. |
| Dashboard.DerivedRatiosScenario | pages/sf.py:53-71 | One ticker, "Derived Ratios", 2019–2020 leads to a statements request with code `derived`, ticker `AAPL`, quarterly period and fyear `2019,2020`. |
| Dashboard.EmptyFetchFundamentalProjection | pages/sf.py:331-360 | When no page is kept the fetched table is empty and the fundamental projection fails with `KeyError` on "Publish Date". |
| Dashboard.EmptyFetchPriceProjection | pages/sf.py:371-378 | When no page is kept the price projection still succeeds with all allow-listed columns and no rows. |
| Fetch.MergePages | pages/sf.py:331-335 | The loop ends with the schema of the first kept page that reports labels and with the concatenation of the rows of all kept pages, in response order. |
| Fetch.RowsAppend | pages/sf.py:291-295 | Merged rows of a concatenated response are the merged rows of each part, in order. |
| Fetch.SchemaAppend | pages/sf.py:293-294 | Once a prefix of the response has set the schema, later pages never change it. |
| Fetch.SkippedPagesContributeNothing | pages/sf.py:332 | Rows and schema are unchanged when the pages that are not found or have no data are removed first. |
| Fetch.RowsMembership | pages/sf.py:335 | A row is in the merged output iff some kept page carries it. |
| Fetch.SchemaFromFirstKeptPage | pages/sf.py:333-334 | After any run of skipped pages, the first kept page with labels fixes the schema regardless of what follows. |
| Fetch.NothingKept | pages/sf.py:323-324 | With no kept page both the schema and the rows stay empty. |
| Fetch.NothingKeptEmptyFrame | pages/sf.py:337 | With no kept page the fetch returns an empty table with no columns, not an error. |
| Fetch.UniformPagesFrame | pages/sf.py:337 | When every kept row has one value per schema label the table holds exactly the merged rows under that schema. |
| Fetch.WiderRowFails | pages/sf.py:297 | A kept row wider than the first page's schema makes the table constructor fail. |
| Tables.BuildFrame | pages/sf.py:297 | The table is built iff no row is wider than the label list and, when rows exist, one row matches it; then rows are kept in order, short rows padded with missing values. |
| Tables.SetIndex | pages/sf.py:360 | Setting the index succeeds iff exactly one column carries the label; the index then holds that column's cells row by row and the column stays in the table; an absent label is a `KeyError`, a label on several columns is the error of an index built from a table. |
| Fetch.ResolveYears | pages/sf.py:315-320 | A given year is kept; a missing end year becomes the current year; a missing start year becomes the end year minus one. |
| Fetch.DefaultStartSpansTwoYears | pages/sf.py:319-320 | With the start year missing, the requested fiscal years are the year before the end year and the end year. |
| Fetch.FiscalYears | pages/sf.py:327 | The year list has end − start + 1 entries (none when start > end), the i-th being start + i. |
| Fetch.FYearParamReadsBack | pages/sf.py:327 | The fyear text is empty for an empty range; otherwise splitting it on commas gives one piece per year that reads back as start + i. |
| Fetch.StatementRequest | pages/sf.py:327 | The statements request keeps the statement code and asks for quarters; an empty ticker list gives an empty ticker text, and a non-empty list of comma-free tickers splits back out of it; the fyear text is empty for an empty year range and otherwise reads back as the resolved years in order. |
| Fetch.PriceRequest | pages/sf.py:287 | The prices request splits back into the tickers as above and carries the ratios flag; its start and end read back as the resolved start and end years, suffixed with -01-01 and -12-31. |
| Fetch.TickerParamReadsBack | pages/sf.py:287 | The ticker text is empty for no tickers, and a non-empty list of comma-free tickers is recovered by splitting it on commas. |
| Fetch.MergedFrame | pages/sf.py:297 | The fetch builds its table iff no merged row is wider than the schema and, when rows exist, one row matches it; the table then has the schema as labels, one row per merged row, and each row's values padded with missing values. |
| Fetch.GetSimfinFundamental | pages/sf.py:302-338 | Sends the statements request for the resolved years; a built table has the merged schema and one row per merged row of the answer. |
| Fetch.GetSimfinPrices | pages/sf.py:269-298 | Sends the prices request for the resolved years; a built table has the merged schema and one row per merged row of the answer. |
| Text.SplitJoin | pages/sf.py:287 | Comma-joining pieces without commas is undone by splitting on commas. |
| Text.ReadIntText | pages/sf.py:327 | The decimal text of a year reads back to that year. |
| Projection.Subset | pages/sf.py:354-357 | The `subset` list holds allowed labels only, read off the table's labels in order at exactly the kept positions. |
| Projection.KeptPositions | pages/sf.py:354-357 | The kept positions are in range, strictly increasing, carry allowed labels, and include every position with an allowed label. |
| Projection.SelectAllowed | pages/sf.py:359 | The selection keeps one column per kept position, in order, with each row's cells at those positions. |
| Projection.SubsetMembership | pages/sf.py:355-357 | A label survives the filter iff it is in the table and in the allow-list. |
| Projection.SelectAllowedColumns | pages/sf.py:354-359 | The filtered labels are exactly the allowed input labels and embed in the input's labels in order (`Seqs.Embeds`). |
| Projection.SubsetExample | pages/sf.py:354-359 | ["Ticker", "Foo", "Revenue"] filters to ["Ticker", "Revenue"] when only those two are allowed. |
| Projection.FilterAndIndex | pages/sf.py:359-360 | Filtering then indexing by an allowed key succeeds iff exactly one input column carries the key; it keeps the key as a column and the index holds, row by row, the input's cells under that column; an absent key is a `KeyError`, a repeated one the error of an index built from a table. |
| Projection.ProjectFundamental | pages/sf.py:340-361 | The fundamental projection succeeds iff exactly one input column is "Publish Date"; it then is the allow-list selection indexed by "Publish Date", the index holding each input row's "Publish Date" cell; an absent column is `KeyError("Publish Date")`, a repeated one the error of an index built from a table. |
| Projection.RepeatedPublishDateFails | pages/sf.py:359-360 | In the model, a table with two "Publish Date" columns makes the projection fail at the index assignment rather than pick one of them. |
| Projection.SubsetLabelledOnce | pages/sf.py:359-360 | An allowed label is on exactly one column after the filter iff it was on exactly one before it. |
| Projection.Reindex | pages/sf.py:377 | Reindexing succeeds iff the requested list is empty or the labels are distinct, failing with the duplicate-labels error otherwise; the result has exactly the requested labels and the same row count. |
| Projection.ReindexAndIndex | pages/sf.py:371-378 | Filter-reindex-index succeeds iff no allowed label repeats in the input and the key is listed once in the allow-list; the reindex error comes first; on success columns are exactly the allow-list, each cell is the input cell of that label or missing, and the index is the key column's cells or missing. |
| Projection.ReindexCells | pages/sf.py:371-377 | After the filter, the reindexed table carries under each allowed label the cells of the first input column with that label, or missing values. |
| Projection.ProjectPrices | pages/sf.py:363-379 | The price projection succeeds iff no allowed label repeats, and otherwise fails on the reindex; its columns are then exactly the price allow-list in that order, indexed by "Date". |
| Projection.PriceColumnsDistinct | pages/sf.py:364-370 | No label appears twice in the price allow-list. |
| Projection.SubsetRepeats | pages/sf.py:371-377 | The filtered labels repeat iff an allowed label repeats in the input. |
| Projection.SubsetFind | pages/sf.py:376-377 | After the filter, the first column carrying an allowed label has the same cells as the first such column before it. |
| Projection.IndicatorChoices | pages/sf.py:77-79 | Dropping the base labels succeeds iff all of them are present, listing the missing ones otherwise; the choices are distinct and are exactly the non-base labels. |
| Projection.Without | pages/sf.py:79 | Dropping keeps exactly the elements not listed and keeps a duplicate-free list duplicate-free. |
| Projection.WithoutKeepsOrder | pages/sf.py:79 | Dropping keeps the remaining labels in their order: the result embeds in the input. |
| Projection.IndicatorChoicesOrder | pages/sf.py:77-79 | The choices list the labels in the order in which they first occur in the table. |
| Projection.PriceChoicesList | pages/sf.py:111-113 | Dropping the six base price labels from the price allow-list leaves its last twelve labels in order. |
| Projection.PriceChoices | pages/sf.py:111-113 | The price allow-list offers exactly its labels from "Market-Cap" on, in order, "Market-Cap" first. |
| Projection.BasePriceColumnsAllowed | pages/sf.py:111 | Every base price column is in the price allow-list. |
| Projection.PriceIndicatorChoices | pages/sf.py:111-116 | After a price projection the indicator choices always exist and are exactly the non-base price columns, in allow-list order, so the selector's default indicator is "Market-Cap". |
| Projection.BaseFundamentalColumnsAllowed | pages/sf.py:77 | Every base fundamental column is in the fundamental allow-list. |
| Projection.ChoicesAfterFilter | pages/sf.py:77-79 | After filtering by an allow-list containing the base labels, the choices exist iff the raw table had every base label. |
| Projection.FundamentalIndicatorChoices | pages/sf.py:72-79 | After a fundamental projection the indicator choices exist iff the raw table had all five base columns. |
| Seqs.Unique | pages/sf.py:189 | `unique()` has no duplicates and holds exactly the values of its input. |
| Seqs.UniqueOfDistinct | pages/sf.py:112 | `unique()` leaves a list without repeats unchanged. |
| Seqs.FirstDistinctMembership | pages/sf.py:189 | A value is among the first k of `unique()` iff it occurs and fewer than k distinct values occur before its first occurrence. |
| Charts.LegendLabels | pages/sf.py:189 | The legend labels number at most k, are distinct, and are exactly the categories with fewer than k distinct categories before their first occurrence. |
| Charts.HideOutsideLegend | pages/sf.py:189-192 | No trace is added, removed or renamed; a trace keeps its visibility iff its name is among the first k categories and is legend-only otherwise; a trace that starts visible ends visible iff its name is in the legend labels. |
| Charts.LineChartLegend | pages/sf.py:189-192 | On the line chart the traces of the first three distinct categories keep their visibility and all others become legend-only; none is removed. |
| Charts.SpreadLegendIsFirstCategory | pages/sf.py:248 | With k = 1 a category is among the first k exactly when it is the first category. |
| Charts.SpreadChartLegend | pages/sf.py:248-251 | On the spread chart only traces named after the first category keep their visibility; all others become legend-only; none is removed. |
| Charts.LineLegendExample | pages/sf.py:189 | With categories AAPL, MSFT, GOOG, AMZN the line chart shows AAPL, MSFT and GOOG by default. |
| Charts.LineChartReferenceLines | pages/sf.py:194-197 | Exactly one reference line is added: at 3 iff the indicator is "Altman Z Score (ttm)", at 0 otherwise. |
| Charts.SpreadChartReferenceLines | pages/sf.py:228-231 | The spread chart adds exactly the reference lines the line chart adds for any indicator other than "Altman Z Score (ttm)": one line at 0. |
| Charts.SpreadIndicators | pages/sf.py:203-208 | Exactly the three presets are known, each naming two different indicators; any other preset leaves the indicator unbound. |
| Charts.SpreadIndicatorsArePriceColumns | pages/sf.py:203-210 | Every preset's indicators are price allow-list columns, so selecting them on a projected price table cannot fail. |

## Left out

- HTTP requests, JSON decoding and the API key from the secrets store: the decoded pages are an input (`respond`), and the `api-key` parameter is not part of the modelled queries.
- The ticker catalog fetch (`get_simfin_tickers`): one HTTP call and a table built from its answer, with no logic of its own.
- Memoization by the caching decorator: framework behaviour, not visible in the source.
- The clock and time zone: the current year is a parameter.
- Streamlit widgets, sector presets for the default ticker selection, AgGrid tables, and Plotly figure construction (titles, axis ranges, range selector, bear-regime shading): rendering only.
- Conversion of indicator columns to floating point: cells stay raw text.
- How Plotly names traces: the trace list is an input to `Charts.HideOutsideLegend`.
- `app.py`: page navigation and sidebar markup.
- Projection.SelectAllowed: with an allowed label on several input columns, the dataframe library selects all of them once per occurrence in the `subset` list, grouped by label: labels `["Revenue", "Ticker", "Revenue"]` select positions 0, 2, 1, 0, 2, while the model keeps each position once, in table order (0, 1, 2). Both the number and the order of the columns differ in that case.
- Projection.ProjectFundamental: inherits the duplicate-column difference of `Projection.SelectAllowed`; several "Publish Date" columns are modelled as a failure, whereas the dataframe library builds an index of row tuples when those cells are text and raises only for numeric cells.
- Projection.FilterAndIndex: same as `Projection.ProjectFundamental`, for any repeated key.
- Projection.RepeatedPublishDateFails: states the modelled failure; with text cells the dataframe library instead builds an index of row tuples and the page goes on.
- Projection.IndicatorChoices: its own contract states which labels are offered; their order is stated by `Projection.IndicatorChoicesOrder`.
- Tables.SetIndex: a label on several columns is modelled as a failure (`IndexNotOneDimensional`); the dataframe library builds an index of row tuples from such a table when its cells are text and raises only for numeric cells, and its exception text is not modelled.
- Fetch.GetSimfinFundamental: its contract states the schema and row count; row contents are stated by `Fetch.MergePages`, `Fetch.RowsMembership` and `Fetch.UniformPagesFrame`.
- Fetch.GetSimfinPrices: same as `Fetch.GetSimfinFundamental`.
- The `statement='pl'` default of `get_simfin_fundamental` (pages/sf.py:302): `Fetch.GetSimfinFundamental` takes the statement code as a required argument, and the only caller (pages/sf.py:66-71) always passes one.
