# Interim market value tool, modelled in Dafny

This project models the computational core of a small tool. Given a ticker, a date range, a beginning
market value and a list of dated share trades, the tool does three things:

- it downloads daily Open/Close prices for a business-day-adjusted window;
- it links the daily close-to-close returns into one geometric return for the period;
- it rolls the beginning value forward trade by trade into *interim market values*.

The repository has two variants of this core, and both are modelled:

- **`FinanceData`** (`trade_data_extract.py`, module `TradeDataExtract`) is a class. Its
  `calculate_interim_values` skips trades outside the window and trades with no price row. It returns
  dates aligned with the values.
- **The script** (`interim_mv_tool.py`, module `InterimMvTool`) has a `load_data` with a blank-ticker
  guard and inline boundary arithmetic. Its `calculate_interim_values` drops zero-share trades. It fails
  with an index error when a traded date has no price row, and returns the dates of *all* selected
  trades.

Shared pieces:

- `Calendar` holds weekday arithmetic over day numbers (day 0 is a Monday) and the two pandas
  business-day offsets the code uses.
- `Prices` holds the price table, the lookup of the first row on or after a date, the one-trade
  revaluation `(value / Open + shares) * Close`, and `Chain`. `Chain` is the value recurrence that both
  variants are proved to compute over their own filtered trades.
- `Returns` holds the percent-change arithmetic and the telescoping of the linked returns to
  `last Close / first Close - 1`.

Both `calculate_interim_values` loops are imperative methods. Each is proved against a
prefix-recursive specification function: `Interim` for the class, `Fold` for the script. The
properties the code promises are lemmas about those functions. `FinanceData` is a class whose fields
are set once by its constructor.

Two behaviours of the code are easy to misread:

- A trade dated after the last row has no row on or after it; the class skips it and the script
  raises. A trade dated before the first row executes at the first row.
- The script's end boundary (`interim_mv_tool.py:26-28`) rolls a Saturday or Sunday forward to the
  Monday.

## Model

| member | source | states |
|---|---|---|
| Calendar.BusinessDayBefore | trade_data_extract.py:14 | `date - BDay(1)` is a business day strictly before the date, at most three days earlier |
| Calendar.BusinessDayBeforeIsLatest | trade_data_extract.py:14 | no business day lies strictly between `date - BDay(1)` and the date: it is the latest business day before it |
| Calendar.FirstBusinessDayFrom | interim_mv_tool.py:28 | `date_range(d, periods=1, freq="B")[0]` is a business day on or after `d`, at most two days later |
| Calendar.FirstBusinessDayFromIsEarliest | interim_mv_tool.py:28 | no business day lies between `d` and that result: it is the earliest business day on or after `d` |
| Prices.FirstOnOrAfter | trade_data_extract.py:36-37 | the selection `data.index >= date` yields a row dated on or after the date with every earlier row before it; it is empty exactly when every row is dated before the date |
| Prices.Revalue | trade_data_extract.py:39 | one trade: the carried value is turned into shares at the row's Open, the traded shares are added, and the position is marked at its Close (also `interim_mv_tool.py:68-70`); its meaning is split out by `RevalueSplitsPosition` |
| Prices.RowOnOrAfterIsEarliest | trade_data_extract.py:36-39 | in a date-sorted table the row a trade executes at is the earliest row dated on or after the trade, and a trade on a day with a row executes at that row |
| Prices.RevalueSplitsPosition | trade_data_extract.py:39 | the revalued position is the old value times Close/Open plus the traded shares times Close; with zero shares it is a pure Open-to-Close re-mark |
| Prices.TradesInWindow | interim_mv_tool.py:48-55 | the selected trades are exactly the input trades dated inside the inclusive window, and no more of them than the input |
| Prices.TradesInWindowConcat | interim_mv_tool.py:48-55 | selection distributes over concatenation, so the selected trades keep their input order |
| Prices.Days | interim_mv_tool.py:74 | the date list has one entry per trade: the k-th trade's date |
| Prices.Chain | trade_data_extract.py:37-41 | one value per executed trade; the first revalues the beginning value and each later one revalues the previous value, at the row on or after its trade with its shares |
| Returns.Closes | trade_data_extract.py:22 | the Close column: one price per row, the row's close |
| Returns.PctChange | trade_data_extract.py:23 | one daily return per pair of consecutive closes; compounding the i-th return onto the i-th close gives the next close |
| Returns.ReturnPlotData | trade_data_extract.py:24 | the percent returns, one per daily return; compounding the i-th percent return onto the i-th close gives the next close |
| Returns.Compound | trade_data_extract.py:25 | `(1 + rates).prod()`: the growth factor of the linked rates, 1 for none (also `interim_mv_tool.py:41`); its properties are `CompoundConcat` and `CompoundLinks` |
| Returns.CompoundConcat | trade_data_extract.py:25 | linking the returns of two consecutive periods multiplies their growth factors |
| Returns.CompoundLinks | trade_data_extract.py:25 | any rates that carry each price to the next compound from the first price to the last |
| Returns.CompoundTelescopes | trade_data_extract.py:23-25 | the product of `1 + daily return` carries the first close to the last close |
| Returns.GeometricMean | trade_data_extract.py:25 | `(1 + daily_return).prod() - 1` (also `interim_mv_tool.py:41`): for positive closes it telescopes to last close / first close - 1, and is 0 for at most one close |
| Returns.Derive | trade_data_extract.py:22-27 | the returned table, its closes, the percent returns of those closes, and a geometric mean of last/first - 1 for a non-empty table and 0 for an empty one |
| TradeDataExtract.AsciiUpper | trade_data_extract.py:7 | the upper-cased ticker keeps its length, has no lower-case letter left and changes only lower-case letters, each to its capital |
| TradeDataExtract.AdjustDateForWeekend | trade_data_extract.py:12-15 | Monday to Friday is unchanged; Saturday and Sunday go to the preceding Friday; the result is always a business day, never later and at most two days earlier |
| TradeDataExtract.AdjustDateForWeekendIsLatest | trade_data_extract.py:12-15 | the adjusted date is the latest business day on or before the date |
| TradeDataExtract.AdjustDateForWeekendIdempotent | trade_data_extract.py:12-15 | adjusting twice is adjusting once |
| TradeDataExtract.DownloadWindow | trade_data_extract.py:18-19 | the download starts at the latest business day strictly before `start` and ends at the latest business day on or before `end + 1` |
| TradeDataExtract.FridayEndIsNotDownloaded | trade_data_extract.py:19 | for an `end` on a Friday the exclusive download end is that Friday (Finding 2, as written) |
| TradeDataExtract.IntendedDownloadWindow | trade_data_extract.py:19 | the corrected window ends at the first business day after `end`, with no business day skipped in between (Finding 2, corrected) |
| TradeDataExtract.LoadData | trade_data_extract.py:17-27 | all four results: the table fetched for the weekend-adjusted dates, its closes, their percent returns, and a geometric mean that telescopes to last/first - 1 |
| TradeDataExtract.ExecutedTrades | trade_data_extract.py:34-37 | the trades that produce a value are exactly the input trades inside the window that have a row on or after their date, and every one of them has such a row |
| TradeDataExtract.Step | trade_data_extract.py:32-42 | one iteration: a trade that does not execute leaves the state unchanged; one that does appends the revalued position and the trade's date and carries the value forward |
| TradeDataExtract.Interim | trade_data_extract.py:29-44 | the state after the loop over a prefix of the trades: always as many values as dates, and no more than trades |
| TradeDataExtract.ExecutedTradesConcat | trade_data_extract.py:32-37 | the executed trades of a concatenation are the concatenation of the executed trades, so the output follows input order |
| TradeDataExtract.InterimIsChain | trade_data_extract.py:29-44 | the loop's values are the chain of the executed trades from the beginning value, its dates are those trades' dates, and the carried value is the last value (the beginning value when none) |
| TradeDataExtract.InterimDatesMatchValues | trade_data_extract.py:37-42 | values and dates have equal length; the k-th date is the date of the trade that produced the k-th value, and that value revalues the previous one at the row on or after that date |
| TradeDataExtract.ExecutedTradesSkip | trade_data_extract.py:34-37 | removing a trade that does not execute leaves the executed trades unchanged |
| TradeDataExtract.SkippedTradeChangesNothing | trade_data_extract.py:34-37 | a trade outside the window, or with no row on or after it, can be removed from anywhere without changing values, dates or the carried value |
| TradeDataExtract.NothingExecutedKeepsBeginningValue | trade_data_extract.py:30-32 | with no executed trade both lists are empty and the value stays at the beginning value |
| TradeDataExtract.ZeroShareTradeIsRemarked | trade_data_extract.py:35-40 | an executed zero-share trade still appends a value and its date, and the new value times Open equals the old value times Close |
| TradeDataExtract.FinanceData.constructor | trade_data_extract.py:6-10 | the ticker is upper-cased, the range widened by one day on each side, and the table and its returns are those `load_data` derives for the download window |
| TradeDataExtract.FinanceData.CalculateInterimValues | trade_data_extract.py:29-44 | the loop returns the values and dates of `Interim`, which have equal length |
| InterimMvTool.StartBoundary | interim_mv_tool.py:22-24 | `start - 1` is kept when Monday to Thursday; a Friday goes to the Thursday and a Saturday or Sunday to the preceding Friday; always a business day before `start`, at most three days earlier |
| InterimMvTool.EndBoundary | interim_mv_tool.py:26-28 | `end + 1` is kept when Monday to Friday, a Saturday or Sunday rolls forward to the Monday; the result is the first business day after `end` |
| InterimMvTool.SaturdayStartReachesThursday | interim_mv_tool.py:23 | for a start on a Saturday the boundary is the Thursday, although the Friday before the start is a business day (Finding 1, as written) |
| InterimMvTool.IntendedStartBoundary | interim_mv_tool.py:23-24 | the corrected boundary is `adjust_date_for_weekend(start - 1)`: the latest business day strictly before the start (Finding 1, corrected) |
| InterimMvTool.LoadData | interim_mv_tool.py:17-41 | a blank ticker returns nothing; otherwise all four results: the table fetched for the adjusted boundaries, its closes, their percent returns, and a geometric mean that telescopes to last/first - 1 |
| InterimMvTool.NonZeroTrades | interim_mv_tool.py:60-61 | the trades that produce a value are exactly those with non-zero shares, and all of them exactly when no trade has zero shares |
| InterimMvTool.NonZeroTradesConcat | interim_mv_tool.py:60-61 | dropping the zero-share trades distributes over concatenation, so the trades that produce a value keep their input order |
| InterimMvTool.Step | interim_mv_tool.py:59-72 | one iteration: after a raise, or for a zero-share trade, the state is unchanged; a non-zero trade with no row raises; otherwise the revalued position is appended and carried |
| InterimMvTool.Fold | interim_mv_tool.py:57-72 | the loop state over a prefix of the trades: when it has not raised, never more values than trades |
| InterimMvTool.FoldRaisesIffUnpriced | interim_mv_tool.py:63-67 | the loop raises exactly when some trade with non-zero shares has no row on or after its date |
| InterimMvTool.FoldIsChain | interim_mv_tool.py:57-72 | when the loop does not raise, its values are the chain of the non-zero trades from the beginning value and the carried value is the last value |
| InterimMvTool.ZeroShareTradeChangesNothing | interim_mv_tool.py:60-61 | a zero-share trade can be removed from anywhere in the selected trades without changing the outcome |
| InterimMvTool.ValuesNoMoreThanTrades | interim_mv_tool.py:74 | there are never more values than returned dates, and as many exactly when no selected trade has zero shares |
| InterimMvTool.DisplayPairsValueWithWrongDate | interim_mv_tool.py:118-121 | a concrete input where the only value, produced by the day-7 trade, is displayed against day 3 (Finding 3, as written) |
| InterimMvTool.AlignedTradeDates | interim_mv_tool.py:74 | the corrected dates list has one date per non-zero trade: the k-th is that trade's date (Finding 3, corrected) |
| InterimMvTool.AlignedDatesMatchValues | interim_mv_tool.py:74 | with the corrected dates every value is paired with the date and shares of the trade that produced it |
| InterimMvTool.RaisedIsFinal | interim_mv_tool.py:67 | once `iloc[0]` has raised, the later trades do not change the outcome |
| InterimMvTool.SelectTrades | interim_mv_tool.py:48-55 | the first loop appends exactly the trades inside the window, in input order |
| InterimMvTool.ValueTrades | interim_mv_tool.py:57-74 | the second loop returns the values of `Fold` with the dates of all selected trades, or the error for the first unpriced non-zero trade |
| InterimMvTool.CalculateInterimValues | interim_mv_tool.py:46-74 | the function returns the values of `Fold` over the selected trades with all their dates, or the index error |

## Left out

- Downloading prices (`yf.download`) is network I/O. The table is a parameter: `fetch` maps a ticker
  and the two window dates to rows of (day, Open, Close). The model does not state that rows are sorted
  or that the exclusive end is respected; `RowOnOrAfterIsEarliest` takes sorted rows as a premise.
- The script downloads the table a second time for `price`. The model takes its Close column from the
  one table, which assumes the two downloads agree.
- Streamlit widgets and messages, the trade-input loop's sidebar widgets, the top-level script, plotly
  figures, `describe()` and string formatting are UI. Trades, window and beginning value are
  parameters.
- `@st.cache_data` memoisation is framework caching with no logic of its own.
- Time-zone localisation of the trade date reduces to comparing calendar days, which day numbers do
  directly.
- Holidays are absent because pandas' `BDay` has none. The offsets are specified by weekday arithmetic,
  not by pandas internals.
- Floating point, rounding and NaN propagation are not modelled. Prices and values are reals, and the
  leading missing percent change is simply absent.
- Non-ASCII letters in `str.upper()` are not modelled: `AsciiUpper` only maps `a`-`z`.
- Nothing in the model consumes the download window beyond `fetch`. It stays as written, and the
  corrected window is stated beside it.
- TradeDataExtract.FinanceData.CalculateInterimValues: requires every Open to be positive. The source
  divides by Open unguarded, and a zero Open gives an IEEE infinity or NaN that reals cannot represent.
- InterimMvTool.CalculateInterimValues: requires every Open to be positive, for the same reason.
- InterimMvTool.ValueTrades: requires every Open to be positive, for the same reason.
- TradeDataExtract.FinanceData.constructor: requires the downloaded closes to be positive. A zero
  close makes the float percent change infinite or NaN.
- TradeDataExtract.LoadData: requires positive closes, for the same reason.
- InterimMvTool.LoadData: requires positive closes for a non-blank ticker, for the same reason.
- Returns.Derive: requires positive closes, for the same reason.

## Findings

| source | as written | input that shows it | evidently intended | confidence | as-written member | corrected member |
|---|---|---|---|---|---|---|
| interim_mv_tool.py:23 | `range(1, 5)` treats a Friday `start - 1` as a weekend day and moves it to Thursday | a start on a Saturday: `start - 1` is a Friday, and the window starts on the Thursday before it | keep Monday to Friday, as `range(1, 6)` in `adjust_date_for_weekend` does, so the window starts at the latest business day before the start | not executed | InterimMvTool.SaturdayStartReachesThursday | InterimMvTool.IntendedStartBoundary |
| trade_data_extract.py:19 | `end + 1` is adjusted backward, and the download's end date is exclusive | an end on a Friday: `end + 1` is a Saturday, adjusted back to that Friday, so the Friday is not downloaded | roll the exclusive end forward to the first business day after `end` | not executed | TradeDataExtract.FridayEndIsNotDownloaded | TradeDataExtract.IntendedDownloadWindow |
| interim_mv_tool.py:74 | the returned dates include zero-share trades, but the values do not, and lines 120-121 pair them by index | Open 100, Close 110 on day 10, beginning value 1000, trades (day 3, 0 shares) then (day 7, 10 shares): the value 2200 is shown against day 3 | return the dates of the trades that produced a value, as `FinanceData` does | not executed | InterimMvTool.DisplayPairsValueWithWrongDate | InterimMvTool.AlignedTradeDates |
