# finance-data-warehouse, modelled in Dafny

This project models the ingestion-and-derivation core of a small SQLite price
warehouse. It does not model the charts.

- **etl.py** registers ticker symbols in a `tickers` table. For each symbol it
  downloads daily OHLCV bars. It deletes that ticker's stored rows and appends
  the fresh batch to `daily_prices`.
- **metrics.py** reads one ticker's closes back with a join ordered by date.
  It sorts them by date and adds three columns:
  - the simple daily return;
  - the 20-row rolling mean of that return;
  - the 20-row rolling sample standard deviation of that return.

The model has five modules:

- `Wrappers` (wrappers.dfy) holds `Option`. `None` stands for a missing SQL row,
  and for a pandas NaN or infinity.
- `Tables` (tables.dfy) gives both tables as sequences of rows. It states each
  statement etl.py runs as a function:
  - `Lookup` for `SELECT id … fetchone()`;
  - `InsertOrIgnore` and `Registered` for the INSERT OR IGNORE loop;
  - `Purge` for the DELETE;
  - `Tag` for the column mapping;
  - `Load` for one `load_prices_for_ticker` call;
  - `LoadAll` for `main`'s loop.

  The lemmas about these functions are in the same file.
- `Etl` (etl.dfy) holds the class `Warehouse`. Its fields are the two tables,
  and its methods change them in place:
  - `InsertTickers` is a loop of INSERT OR IGNORE;
  - `LoadPricesForTicker` returns early, or deletes and then appends;
  - `Run` is `main`.

  Each method is proved against the `Tables` function that specifies it.
- `Metrics` (metrics.dfy) models `add_return_metrics` as pure functions over
  `seq<real>`:
  - `SortByDate`, a date sort proved sorted and a permutation;
  - `PctChange`;
  - `RollingMean` and `RollingVariance` over windows of 20, with `min_periods`
    equal to the window.

  It also holds lemmas about row definedness, values and bounds.
- `PriceQuery` (query.dfy) models the query in `get_price_data`: the join, the
  symbol filter, the projection and the `ORDER BY`. It relates the query's
  result to what the loader stored.

Modelling choices:

- **Ticker ids.** A new ticker gets SQLite's rowid: one more than the largest
  id in the table, or 1 in an empty table.
- **Constraints.** The model assumes the constraints of the warehouse's logical
  schema: `UNIQUE(symbol)` on `tickers` and `UNIQUE(ticker_id, date)` on
  `daily_prices`.
- **A refused append.** `to_sql` appends in one transaction, so a batch that
  repeats a date is refused as a whole. This is the `InsertRejected` outcome.
- **The replace is not atomic.** etl.py commits the DELETE (etl.py:80-81)
  before `to_sql` runs. After a refused append the ticker has no rows left; the
  old batch is not kept. The exception also leaves `main`'s loop, so later
  symbols are not loaded.
- **Where the code differs from the documented design,** the model follows the
  code. The design describes an atomic replace, per-symbol isolation of
  failures, and an unknown-ticker check before the download.
  - The code commits the delete first.
  - An exception ends the whole run.
  - The empty-download check (etl.py:42-44) comes before the ticker lookup
    (etl.py:68-74).
- **Volatility.** The volatility is a square root. The model carries its square,
  the sample variance with denominator 19 (pandas `std` has `ddof=1` by
  default). It proves that this value is never negative, so the root exists.
- **Parameters.** The download and today's date are parameters: `batch` and
  `batches` are what `yf.download` returned.

## Model

| member | source | states |
|---|---|---|
| Tables.Lookup | etl.py:68-74 | The lookup finds an id iff some row has the symbol, and the row found is exactly (id, symbol). |
| Tables.MaxId | etl.py:27-30 | The largest id is at least every id in the table and is attained in a non-empty table. A new row's id is this plus one. |
| Tables.LookupInjective | etl.py:69-70 | Under the table's constraints, two symbols that look up the same id are the same symbol. |
| Tables.InsertOrIgnoreValid | etl.py:27-30 | INSERT OR IGNORE keeps ids strictly increasing and symbols unique. |
| Tables.RegisteredValid | etl.py:23-31 | `insert_tickers` keeps the constraints and never shrinks the table. Every id it hands out is larger than every id that was there before, so new ids are fresh and pairwise distinct. |
| Tables.RegisteredExtends | etl.py:23-31 | The old rows stay in place unchanged. Each added row's symbol is in the list and was not registered before, so no symbol gets a second row. |
| Tables.RegisteredContainsAll | etl.py:23-31 | Every symbol of the list has a row afterwards. |
| Tables.RegisteredKeepsIds | etl.py:27-30 | A symbol that was registered keeps its id. |
| Tables.RegisteredFirstAppearance | etl.py:26-30 | The added rows come in the order in which their symbols first appear in the list. |
| Tables.RegisteredNoop | etl.py:27-30 | Registering only symbols that are already present changes nothing. |
| Tables.RegisteredIdempotent | etl.py:23-31 | Calling `insert_tickers` twice with one list leaves the table of one call. |
| Tables.Purge | etl.py:80 | After the DELETE, a row remains iff it was there and belongs to another ticker. |
| Tables.Select | metrics.py:18-20 | A ticker's rows are exactly the stored rows with its id. |
| Tables.SelectPurge | etl.py:80 | The DELETE empties the ticker and leaves every other ticker's rows, in order. |
| Tables.Tag | etl.py:76-106 | The frame written has one row per downloaded bar, each with the looked-up ticker id and the bar's date. |
| Tables.LoadSelect | etl.py:34-110 | After one load, the ticker's rows are exactly the batch if the append went through, and empty if it was refused. Every other ticker, and every ticker on the empty-download and unknown-symbol paths, keeps its rows. |
| Tables.LoadOtherTicker | etl.py:79-81 | A load never changes the rows of a ticker other than the one its symbol resolves to. |
| Tables.LoadOwnTicker | etl.py:42-109 | For a registered symbol and a batch that repeats no date, the append is not refused. The ticker then holds exactly the batch, or its old rows when the batch is empty. |
| Tables.LoadIdempotent | etl.py:79-109 | Loading the same batch twice gives the table of one load, so a rerun adds no duplicates. |
| Tables.LoadKeepsUniqueDates | etl.py:79-109 | A load keeps UNIQUE(ticker_id, date): no ticker ends with two rows for one date. |
| Tables.LoadAllAbortStays | etl.py:124-125 | Once a refused append has raised, `main` loads no further symbol. |
| Tables.LoadAllPerTicker | etl.py:124-125 | This covers the loop over registered, distinct symbols whose downloads repeat no date. The loop runs to the end. Each symbol's ticker holds its download, or its old rows when the download was empty. Tickers outside the list keep their rows. |
| Tables.MainLoadsEverySymbol | etl.py:113-128 | Take `main` with distinct symbols whose downloads repeat no date. After registration every symbol has a row, the loop completes, and each ticker holds its own download. |
| Etl.Warehouse.InsertTickers | etl.py:23-31 | The loop leaves `tickers` equal to the fold of INSERT OR IGNORE over the list. It keeps the constraints and does not touch `daily_prices`. |
| Etl.Warehouse.LoadPricesForTicker | etl.py:34-110 | The outcome and the new `daily_prices` are those of `Load`: the early returns, then the delete, then the append or its refusal. `tickers` is unchanged and the constraints hold. |
| Etl.Warehouse.Run | etl.py:113-128 | `main` registers all symbols and then loads them in order. The result is `LoadAll` over the registered table, and `completed` is false exactly when a refused append ended the loop. |
| Metrics.SortByDate | metrics.py:32 | The sorted frame is in ascending date order and is a permutation of the input. |
| Metrics.SortedPermutationUnique | metrics.py:32 | When a date determines its row, two date-sorted permutations of a frame are equal. So any sort algorithm, stable or not, gives the same frame. |
| Metrics.PctChange | metrics.py:34-35 | The return series has the length of the closes. It is undefined at row 0, and defined at row i ≥ 1 iff close i-1 is nonzero, so it is never 0 where pandas gives inf or NaN. |
| Metrics.PctChangeIsRelativeChange | metrics.py:34-35 | A defined return is (P_t - P_{t-1}) / P_{t-1}, and the previous close grown by it is the close. |
| Metrics.PctChangeExample | metrics.py:34-35 | Closes 100, 110, 99 give no return, +10 %, then -10 %. |
| Metrics.CompoundInvertsPctChange | metrics.py:34-35 | With nonzero closes, compounding the returns from the first close rebuilds every close. |
| Metrics.FullWindowIff | metrics.py:37-38 | A row has a full window of 20 defined returns iff it is row 20 or later and the 20 closes before it are nonzero. |
| Metrics.RollingDefinedAt | metrics.py:37-41 | The rolling mean at i is defined iff the full-window condition holds. The rolling variance is defined at exactly the same rows. |
| Metrics.WindowMeanBounds | metrics.py:37-38 | The mean of a full window lies between any bounds of its 20 returns. |
| Metrics.VarianceZeroIff | metrics.py:40-41 | The sample variance (denominator n-1) is zero iff all values are equal. |
| Metrics.WindowVarianceProperties | metrics.py:40-41 | A full window's variance is ≥ 0, and it is 0 iff all 20 returns are equal. |
| Metrics.AddReturnMetrics | metrics.py:29-43 | The result has one row per input row, is sorted by date, is a permutation of the input rows, and has no return at row 0. It is a new value, so the caller's frame is not altered. |
| Metrics.MetricsIgnoreInputOrder | metrics.py:32 | When a date determines its row, the derived frame does not depend on the order of the input rows. |
| Metrics.DailyReturnAt | metrics.py:34-35 | The output return at row i is defined iff i ≥ 1 and the previous close is nonzero. The previous close grown by it is the close. |
| Metrics.RollingDefinedIff | metrics.py:37-41 | The output rolling mean at i is defined iff i ≥ 20 and the 20 previous closes are nonzero. The rolling volatility is defined at exactly the same rows. |
| Metrics.ZeroCloseUndefines | metrics.py:34-41 | A zero close leaves the next row without a return, and the 20 rows after it without rolling values. |
| Metrics.NonZeroClosesBoundary | metrics.py:34-41 | With nonzero closes, the return is defined exactly from row 1, and both rolling values exactly from row 20. |
| Metrics.ShortFrameUndefined | metrics.py:37-41 | A frame of at most 20 rows has no rolling values. This covers the empty and one-row frames. |
| Metrics.RollingMeanBounds | metrics.py:37-38 | The rolling mean lies between any bounds of the returns in its window. |
| Metrics.RollingVarianceProperties | metrics.py:40-41 | The squared volatility is ≥ 0, so the square root exists. It is 0 iff the window's 20 returns are equal. |
| PriceQuery.PriceData | metrics.py:13-24 | The query result is in ascending date order and is a permutation of the joined, filtered rows. |
| PriceQuery.JoinsSymbolIff | metrics.py:18-20 | Under the constraints, the join keeps a row iff its ticker id is the one the symbol looks up. |
| PriceQuery.JoinedIsSelect | metrics.py:13-21 | The query of a registered symbol projects exactly that ticker's rows. The query of an unregistered symbol is empty. |
| PriceQuery.PriceDataAfterLoad | etl.py:79-109 | After a successful load, the symbol's query returns exactly the downloaded (symbol, date, close) rows, sorted by date. |
| PriceQuery.PriceDataAfterRejectedLoad | etl.py:79-81 | After a refused append, the symbol's query is empty, because the committed delete removed the old rows. |
| PriceQuery.PriceDataOtherSymbol | etl.py:79-81 | Loading one symbol does not change the query result of any other symbol. |
| PriceQuery.MetricsOfStoredRowsDeterministic | metrics.py:29-32 | Under UNIQUE(ticker_id, date), a date determines its row in the query result. So `add_return_metrics` gives the same frame for any order of those rows. |

## Left out

- `create_tables` and schema.sql: schema.sql is not part of this model. The
  UNIQUE constraints come from the warehouse's logical schema.
- `yf.download` and `dt.date.today()` need the network and the clock. Their
  results are the `batch`/`batches` parameters.
- Opening and committing the SQLite connection, `to_sql`, `read_sql` and
  `conn.close` are storage I/O. The tables are sequences; commits are not
  separate steps.
- `print` output, the CSV export in metrics.py's `main`, and the hard-coded
  symbol list, path and start date are outside the model.
- The MultiIndex flattening, `reset_index`, the renaming and the column
  reordering of the downloaded frame are pandas shape handling. A bar arrives
  already as a `RawBar`, and a shape mismatch is not modelled.
- Dates are day numbers: ISO date strings and `parse_dates` are not modelled.
- Concurrency: etl.py runs sequentially.
- Plotting and visualisation scripts: they only read the derived data.
- Metrics.AddReturnMetrics: the volatility column is carried as its square, the
  sample variance. The model has reals without square roots.
- Metrics.PctChange: closes are finite reals. NaN closes, pandas' `fill_method`
  padding and IEEE rounding are not modelled. A zero previous close gives
  `None` for both inf and NaN.
- Metrics.SortByDate: it is a stable insertion sort. pandas' default quicksort
  is not stable, so with repeated dates the two may order tied rows
  differently. `SortedPermutationUnique` proves they agree whenever a date
  determines its row, which the stored rows of one ticker guarantee.
- PriceQuery.PriceData: SQLite leaves the order of rows with equal dates
  unspecified; the model fixes one order. `MetricsOfStoredRowsDeterministic`
  shows that no tie exists under UNIQUE(ticker_id, date).
- Tables.Load: only a batch that repeats a date is refused. Other database
  failures are not modelled: NOT NULL and type errors, a full disk, or an
  exception thrown by the download.
- Tables.MaxId: the rowid limit of 2^63-1 (after which SQLite picks a random
  unused id) is not modelled.
