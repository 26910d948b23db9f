/**
 * etl.py: the warehouse connection with its `tickers` and `daily_prices` tables,
 * updated in place by `insert_tickers`, `load_prices_for_ticker` and `main`.
 * The download (`yf.download`) is the `batch` parameter; the database is the object.
 */
module Etl {
  import opened Wrappers
  import opened Tables

  class Warehouse {
    var tickers: seq<TickerRow>
    var prices: seq<PriceRecord>

    /** The UNIQUE constraints of both tables (and rowids growing in insertion order). */
    ghost predicate Valid()
      reads this
    {
      TickersValid(tickers) && UniqueDates(prices)
    }

    /** A connection to a warehouse that already holds these tables. */
    constructor Open(t: seq<TickerRow>, p: seq<PriceRecord>)
      requires TickersValid(t) && UniqueDates(p)
      ensures Valid() && tickers == t && prices == p
    {
      tickers := t;
      prices := p;
    }

    /** `insert_tickers`: one INSERT OR IGNORE per symbol, in list order. */
    method InsertTickers(symbols: seq<string>)
      requires Valid()
      modifies this
      ensures Valid()
      ensures tickers == Registered(old(tickers), symbols)
      ensures prices == old(prices)
    {
      var i := 0;
      while i < |symbols|
        invariant 0 <= i <= |symbols|
        invariant tickers == Registered(old(tickers), symbols[..i])
        invariant TickersValid(tickers)
        invariant prices == old(prices)
      {
        InsertOrIgnoreValid(tickers, symbols[i]);
        assert symbols[..i + 1][..i] == symbols[..i];
        tickers := InsertOrIgnore(tickers, symbols[i]);
        i := i + 1;
      }
      assert symbols[..|symbols|] == symbols;
    }

    /**
     * `load_prices_for_ticker` once the download returned `batch`: an empty batch or
     * an unregistered symbol returns early; otherwise the ticker's rows are deleted
     * (and committed) before the batch is appended.
     */
    method LoadPricesForTicker(symbol: string, batch: seq<RawBar>) returns (outcome: LoadOutcome)
      requires Valid()
      modifies this
      ensures Valid()
      ensures tickers == old(tickers)
      ensures (outcome, prices) == Load(old(tickers), old(prices), symbol, batch)
    {
      LoadKeepsUniqueDates(tickers, prices, symbol, batch);
      if |batch| == 0 {
        return NoDataReturned;
      }
      var row := Lookup(tickers, symbol);
      if row.None? {
        return UnknownTicker;
      }
      var tickerId := row.value;
      prices := Purge(prices, tickerId);
      if !DistinctDates(batch) {
        return InsertRejected;
      }
      prices := prices + Tag(batch, tickerId);
      outcome := Loaded(|batch|);
    }

    /**
     * `main` (after `create_tables`): register every symbol, then load them one at a
     * time; `batches[k]` is what the download returned for `symbols[k]`. A rejected
     * insert raises out of the loop, so `completed` is false and later symbols are
     * not loaded.
     */
    method Run(symbols: seq<string>, batches: seq<seq<RawBar>>) returns (completed: bool)
      requires Valid()
      requires |batches| == |symbols|
      modifies this
      ensures Valid()
      ensures tickers == Registered(old(tickers), symbols)
      ensures (prices, !completed) == LoadAll(tickers, old(prices), symbols, batches)
    {
      InsertTickers(symbols);
      var k := 0;
      while k < |symbols|
        invariant 0 <= k <= |symbols|
        invariant Valid()
        invariant tickers == Registered(old(tickers), symbols)
        invariant (prices, false) == LoadAll(tickers, old(prices), symbols[..k], batches[..k])
      {
        var outcome := LoadPricesForTicker(symbols[k], batches[k]);
        assert symbols[..k + 1][..k] == symbols[..k] && batches[..k + 1][..k] == batches[..k];
        if outcome.InsertRejected? {
          LoadAllAbortStays(tickers, old(prices), symbols, batches, k + 1);
          return false;
        }
        k := k + 1;
      }
      assert symbols[..k] == symbols && batches[..k] == batches;
      completed := true;
    }
  }
}
