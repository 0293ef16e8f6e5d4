# Oil price history to SQL: a Dafny model

`oil_prices.py` turns the CPC price-history page into an SQL script. The steps are:

1. It reads the `MyGridView` table.
2. It keeps the adjustment date and the prices of unleaded 92, 95 and 98 and of premium diesel.
3. It restricts the records to the months named on the command line.
4. It averages each price per calendar month.
5. It writes one `INSERT INTO otdb064_oil_prices` statement per month and fuel that has an average.
6. It saves the statements to `oil_prices_<today>_<months>.sql`.

This project models those steps and proves properties about them. The modules are:

- `Wrappers`: `Option` and `Result`.
- `Seqs`: generic `Map` and `Filter`, plus `Kept`, the indices `Filter` keeps. It carries lemmas on membership, order, concatenation and permutation.
- `Text`: the string operations the script uses. These are `str.strip()` (Python's whitespace set), `%Y`/`%m`/`%d` zero padding, `int()` on a digit string, `str.split`, `str.join` and `str.replace`.
- `OilData`: dates, calendar months (pandas' monthly `Period`), the four fuels and a price record.
- `OilTable`: `fetch_oil_prices` once the page is parsed. The row-extraction loop is a method proved against `Extracted`. After it come the `header.index` lookup, the projection of each row, the empty-cell-to-missing coercion and the period filter. `FetchOilPrices` is proved against the function `Fetched`.
- `MonthlyAverage`: `calculate_monthly_average`. Group keys are the distinct months of the dated records in ascending order. Each fuel's mean skips missing values. Each row's period is written as `YYYY-MM`.
- `SqlRender`: `generate_sql_from_dataframe`. The two nested loops are methods proved against `Rendered`. A statement is the record of the thirteen values it inserts. The clock reading is a parameter, and so is the identifier generator: `newId(k)` is the `k`-th `uuid4()`.
- `OutputName`: in `main`, how the target months are parsed and how the file name is built.

The price parser and the date parser (`pd.to_numeric`, `pd.to_datetime`, both with `errors='coerce'`) are function parameters that return `Option`. An empty cell is missing before either parser sees it, as `df.replace("", None)` makes it.

Where the script raises, the model returns an error value:

- `TableNotFound`: `find` returns `None`.
- `MissingColumn`: `list.index` fails; the error names the first label that is absent.
- `RowTooShort`: `row[i]` is out of range.
- `MalformedPeriod`: a period does not split into exactly two parts at `-`, so `year, month = ...` cannot unpack it.
- `BadMonth`: `int(month)` rejects the month text. The conversion runs only while a statement is built, so only a row with at least one mean can raise it.

## Model

| member | source | states |
|---|---|---|
| OilTable.ExtractRows | oil_prices.py:17-23 | the loop's result is the stripped cell lists of the rows that have cells, in order |
| OilTable.ExtractedRows | oil_prices.py:19-23 | output row k is input row Kept[k] with its cells stripped; the kept indices ascend; a row is kept iff it has a cell |
| Text.Strip | oil_prices.py:21 | the result is a slice of the input; only whitespace is cut at either end; the result neither starts nor ends with whitespace |
| Text.StripIdempotent | oil_prices.py:21 | stripping a stripped text changes nothing |
| OilTable.IndexOf | oil_prices.py:27 | None iff the name is absent; otherwise the position holds the name and no earlier position does |
| OilTable.Lookup | oil_prices.py:25-27 | Ok iff every label is in the header; each index is the label's first position; on error, the first absent label is named |
| OilTable.Project | oil_prices.py:29 | fails iff some row is shorter than some index needs (then RowTooShort); otherwise cell t of row i is data[i][indices[t]] |
| OilTable.FetchOilPrices | oil_prices.py:9-41 | the method's result equals the composed function Fetched: table lookup, extraction, lookup, projection, coercion, filter |
| OilTable.FetchMissingColumn | oil_prices.py:25-27 | the fetch fails with MissingColumn iff a target label is missing from the stripped th texts; the error names the first one missing |
| OilTable.FetchRowTooShort | oil_prices.py:27-29 | with every label present, the fetch fails with RowTooShort iff some data row has no cell at some label's first header position |
| OilTable.FetchProjects | oil_prices.py:27-36 | for the unfiltered fetch (no target months), with labels present and rows long enough, record i comes from data row i: the date and each fuel's price are the coerced cells at the labels' first positions |
| OilTable.FetchThenSelect | oil_prices.py:29-39 | a fetch for target months is the unfiltered fetch followed by the period selection: the same error, or the unfiltered records that SelectPeriodsKeeps keeps |
| OilTable.NormalizeCoerces | oil_prices.py:31-36 | an empty cell is missing and any other cell is what its column's parser makes of it; column 0 gives the date, column Rank(f)+1 the price of fuel f |
| OilTable.SelectPeriodsKeeps | oil_prices.py:38-39 | no targets keeps everything; otherwise the kept records are, in original order, exactly those dated in a target `YYYY/MM` month |
| OilData.PeriodTextInjective | oil_prices.py:54 | distinct months have distinct period texts |
| MonthlyAverage.DatedMonths | oil_prices.py:45 | a month occurs iff some record's valid date falls in it |
| MonthlyAverage.Earliest | oil_prices.py:48 | the chosen month is present and no present month precedes it |
| MonthlyAverage.Months | oil_prices.py:48 | strictly ascending, and holds exactly the months of the input |
| MonthlyAverage.AscendingUnique | oil_prices.py:48 | two strictly ascending month lists with the same members are equal |
| MonthlyAverage.AggregateOneRowPerMonth | oil_prices.py:45-54 | one row per month some dated record falls in, ascending, labelled `YYYY-MM`, no two rows sharing a period |
| MonthlyAverage.Mean | oil_prices.py:49 | missing exactly when no value is present |
| MonthlyAverage.MeanBounds | oil_prices.py:49 | a mean lies within any bounds that all averaged values respect |
| MonthlyAverage.GroupValuesSelect | oil_prices.py:48-49 | the averaged values are exactly the present prices of that fuel in that month's records, each once, in order |
| MonthlyAverage.AggregateMeans | oil_prices.py:47-50 | a row's fuel mean is missing iff no record of the month has that fuel; otherwise it is the sum of the month's values for it over their count |
| MonthlyAverage.AggregateMeanBounds | oil_prices.py:47-50 | a row's fuel mean lies between any bounds that the month's values for that fuel respect |
| MonthlyAverage.SumPermutation | oil_prices.py:49 | a sum does not depend on the order of its terms |
| MonthlyAverage.AggregateOrderIndependent | oil_prices.py:47-52 | permuting the input records leaves the monthly rows unchanged |
| MonthlyAverage.AggregateIgnoresUndated | oil_prices.py:45-48 | records whose date did not parse contribute nothing: dropping them first gives the same rows |
| SqlRender.RenderStatements | oil_prices.py:69-79 | the outer loop returns Rendered(rows): the statements row by row, or the error of the first row that fails |
| SqlRender.AppendRowStatements | oil_prices.py:71-78 | the inner loop, converting the month text with int() only for a fuel with a value, appends the row's statements numbered on from the list's length, or raises BadMonth |
| SqlRender.SplitPeriod | oil_prices.py:70 | Ok iff the period splits into exactly two parts at `-`; the two parts, rejoined with `-`, give the period back |
| SqlRender.RowStatementsLazy | oil_prices.py:71-76 | with an integer month text a row gives one statement per present fuel; with no mean it gives none whatever the text; otherwise it raises BadMonth |
| SqlRender.RowWithoutMeansAddsNothing | oil_prices.py:70-72 | a row with no mean whose period splits in two at `-` adds no statement and raises nothing, whatever its month text |
| SqlRender.RowWithMeanNeedsMonth | oil_prices.py:72-76 | after rows that render, a row that splits in two, has a mean and has a month text int() rejects makes the rendering fail with BadMonth |
| SqlRender.MonthTextUnusedExample | oil_prices.py:70-76 | the row `2024-xx` with no means renders to nothing |
| SqlRender.FuelStatementsSelect | oil_prices.py:71-78 | a row's statement n is for its n-th present fuel in column order, with that mean and identifier newId(base+n) |
| SqlRender.RenderedFollowsSelection | oil_prices.py:69-78 | a successful rendering has one statement per (row, fuel) pair with a mean, in selection order; statement k carries the row's year and month, the fuel's label and mean, and id newId(k) |
| SqlRender.SelectionMembers | oil_prices.py:69-72 | the selection holds exactly the (row, fuel) pairs whose mean is present |
| SqlRender.SelectionOrdered | oil_prices.py:69-71 | the selection is ordered by row, then by column order, so no pair repeats |
| SqlRender.RenderRowOutcome | oil_prices.py:70-76 | one row succeeds iff its period splits in two and its month text is an integer or it has no mean; otherwise it raises that row's error |
| SqlRender.RenderedFails | oil_prices.py:69-76 | rendering succeeds iff every row renders; otherwise it fails with the first failing row's error, MalformedPeriod for a bad split, BadMonth for a bad month text |
| SqlRender.RenderedErrExtends | oil_prices.py:70 | once a prefix of the rows fails, the whole rendering fails with the same error |
| SqlRender.SplitPeriodText | oil_prices.py:54-76 | a `YYYY-MM` period text splits into the four-digit year and the two-digit month, which int() reads as the month number |
| SqlRender.RenderedStable | oil_prices.py:67-76 | another clock reading or id generator changes only id, created_at and updated_at of each statement |
| SqlRender.RenderedIdsDistinct | oil_prices.py:76 | an injective id generator gives pairwise distinct statement ids |
| SqlRender.AggregateRenders | oil_prices.py:93-94 | rendering the monthly averages never fails; each statement carries its month's four-digit year and month number, the fuel's label and the mean of that fuel's prices in that month |
| SqlRender.RenderExample | oil_prices.py:70-78 | one `2024-11` row with 92, 98 and diesel prices gives three statements in column order, with ids newId(0..2) |
| OutputName.TargetMonths | oil_prices.py:89 | the argument splits into at least one period, none containing a comma |
| Text.JoinSplit | oil_prices.py:89 | joining the split parts with the separator gives the text back |
| Text.JoinSplitReplace | oil_prices.py:98 | joining the split parts with another glue is replacing the separator by it |
| OutputName.FileNameOfArgument | oil_prices.py:89-98 | the months part of the name is the argument with `,` turned into `_` and `/` into `-` |
| OutputName.MonthsTextOfPeriods | oil_prices.py:98 | periods written `YYYY/MM` appear as `YYYY-MM`, joined by `_` |
| OutputName.DayText | oil_prices.py:97 | today's date is ten characters with `-` at positions 4 and 7 |
| OutputName.DayTextRoundTrip | oil_prices.py:97 | the year, month and day read back from today's date text |
| OutputName.FileNameShape | oil_prices.py:97-99 | the name has no `/`; it is the fixed prefix, the date, `_`, the months text, `.sql` |
| OutputName.FileNameExample | oil_prices.py:97-99 | run on 2024-12-01 for `2024/10,2024/11`, the name is `oil_prices_2024-12-01_2024-10_2024-11.sql` |
| OutputName.EmptyArgumentSelectsNothing | oil_prices.py:89-92 | an empty argument still splits into one target, `""`, which matches no record, so nothing is selected |
| Text.Pad2RoundTrip | oil_prices.py:70 | a two-digit zero-padded number parses back to itself |
| Text.Pad4RoundTrip | oil_prices.py:54 | a four-digit zero-padded number parses back to itself |
| Text.ReplaceRemoves | oil_prices.py:98 | after replacing a character by a different one, none of it is left |
| Seqs.FilterSelects | oil_prices.py:39 | the filtered sequence is the input at the ascending kept indices, and an index is kept iff its element passes |
| Seqs.FilterPermutation | oil_prices.py:48 | filtering permuted inputs gives permuted results |

## Left out

- Fetching the page (`requests.get`, the response encoding) and parsing the HTML with BeautifulSoup (lines 10-17, 20 and 25). The table arrives as a `Table` value: the text of each `tr`'s `td` cells and the text of every `th`. A missing table is `None`.
- `pd.to_datetime` and `pd.to_numeric` are parameters. They apply cell by cell, so pandas' column-wide inference of the date format is not modelled.
- `df.replace("", None)`: modelled as pandas 2 behaves, where an empty cell becomes missing. Older pandas read `None` as "pad" here and forward-filled such cells instead.
- Dates are limited to years 1677 to 2262, the range of a pandas timestamp; every such year prints with four digits.
- MonthlyAverage.AggregateMeans: means are exact rationals; the `round(2)` of line 50 is not modelled. Price values are `real`, not IEEE doubles.
- MonthlyAverage.AggregateMeanBounds: the bounds are stated of the exact mean, before `round(2)`.
- MonthlyAverage.AggregateOrderIndependent: holds because sums of `real` are exact; the floating-point summation of line 49 can differ in the last bit with the order of the records, and `round(2)` can expose that at a `.xx5` boundary. Float summation order is not modelled.
- SqlRender.AggregateRenders: each statement's price is the exact group mean; the source prints the `round(2)` value of line 50, which is not modelled.
- SqlRender.RenderStatements: a statement is the record of its thirteen column values. The exact SQL text is not modelled: the layout, the fixed table name, the `strip()` and how Python prints a float.
- `uuid.uuid4()` and `datetime.now()` are inputs: `newId` gives the k-th identifier, `now` is a string, `today` is a `Date`. Their randomness and formatting are not modelled.
- `int()` accepts ASCII digits only. Python also accepts signs, surrounding whitespace, underscores and other Unicode digits. Month texts produced by `astype(str)` never contain those.
- `main`'s argument-count check, `sys.exit`, writing the file and `print` (lines 84-86 and 102-105) are I/O and are left out.
- The DataFrames are modelled as values. The in-place changes are not modelled: `df.replace(..., inplace=True)`, and the `月份` column that `calculate_monthly_average` adds to its caller's frame.
- pandas on an empty frame: when no record survives the filter, the model gives no monthly rows and so no statements. pandas' column shapes for an empty `groupby().apply()` are not modelled.
