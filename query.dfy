/**
 * metrics.py, `get_price_data`: the rows of `daily_prices` joined with `tickers` on
 * the ticker id, restricted to one symbol, projected to (symbol, date, close) and
 * ordered by date.
 */
module PriceQuery {
  import opened Wrappers
  import opened Tables
  import Metrics

  /** `JOIN tickers t ON dp.ticker_id = t.id WHERE t.symbol = ?` keeps `rec`. */
  predicate JoinsSymbol(t: seq<TickerRow>, symbol: string, rec: PriceRecord) {
    exists j :: 0 <= j < |t| && t[j].id == rec.tickerId && t[j].symbol == symbol
  }

  /** `SELECT t.symbol, dp.date, dp.close` of one joined row. */
  function Project(rec: PriceRecord, symbol: string): Metrics.PriceRow {
    Metrics.PriceRow(symbol, rec.date, rec.close)
  }

  function ProjectAll(p: seq<PriceRecord>, symbol: string): (rows: seq<Metrics.PriceRow>)
    ensures |rows| == |p| && forall k :: 0 <= k < |p| ==> rows[k] == Project(p[k], symbol)
  {
    seq(|p|, k requires 0 <= k < |p| => Project(p[k], symbol))
  }

  /** The joined and filtered rows, projected, in table order. */
  function Joined(t: seq<TickerRow>, p: seq<PriceRecord>, symbol: string): (rows: seq<Metrics.PriceRow>)
    ensures |rows| <= |p|
  {
    if p == [] then []
    else
      var rest := Joined(t, p[1..], symbol);
      if JoinsSymbol(t, symbol, p[0]) then [Project(p[0], symbol)] + rest else rest
  }

  /** `get_price_data(symbol)`: the joined rows with `ORDER BY dp.date`. */
  function PriceData(t: seq<TickerRow>, p: seq<PriceRecord>, symbol: string): (rows: seq<Metrics.PriceRow>)
    ensures Metrics.SortedByDate(rows)
    ensures multiset(rows) == multiset(Joined(t, p, symbol))
  {
    Metrics.SortByDate(Joined(t, p, symbol))
  }

  /** The rows a download contributes to the query of its symbol. */
  function BatchRows(batch: seq<RawBar>, symbol: string): (rows: seq<Metrics.PriceRow>)
    ensures |rows| == |batch|
    ensures forall k :: 0 <= k < |batch| ==>
              rows[k] == Metrics.PriceRow(symbol, batch[k].date, batch[k].close)
  {
    seq(|batch|, k requires 0 <= k < |batch| => Metrics.PriceRow(symbol, batch[k].date, batch[k].close))
  }

  // ---------------------------------------------------------------- lemmas

  /** With unique ids and symbols, the join keeps exactly the rows of the symbol's id. */
  lemma JoinsSymbolIff(t: seq<TickerRow>, symbol: string, rec: PriceRecord)
    requires TickersValid(t)
    ensures JoinsSymbol(t, symbol, rec) <==> Lookup(t, symbol) == Some(rec.tickerId)
  {
    if JoinsSymbol(t, symbol, rec) {
      var j :| 0 <= j < |t| && t[j].id == rec.tickerId && t[j].symbol == symbol;
      assert HasSymbol(t, symbol);
      var i :| 0 <= i < |t| && t[i] == TickerRow(Lookup(t, symbol).value, symbol);
    }
    if Lookup(t, symbol) == Some(rec.tickerId) {
      var i :| 0 <= i < |t| && t[i] == TickerRow(rec.tickerId, symbol);
    }
  }

  /**
   * The query of a registered symbol returns the projection of that ticker's rows,
   * and the query of an unregistered symbol returns nothing.
   */
  lemma {:induction false} JoinedIsSelect(t: seq<TickerRow>, p: seq<PriceRecord>, symbol: string)
    requires TickersValid(t)
    ensures Joined(t, p, symbol) ==
              match Lookup(t, symbol)
              case None => []
              case Some(id) => ProjectAll(Select(p, id), symbol)
  {
    if p != [] {
      JoinedIsSelect(t, p[1..], symbol);
      JoinsSymbolIff(t, symbol, p[0]);
      if Lookup(t, symbol).Some? {
        ProjectSelectFirst(p, Lookup(t, symbol).value, symbol);
      }
    }
  }

  lemma ProjectSelectFirst(p: seq<PriceRecord>, id: int, symbol: string)
    requires p != []
    ensures ProjectAll(Select(p, id), symbol) ==
              (if p[0].tickerId == id then [Project(p[0], symbol)] else []) + ProjectAll(Select(p[1..], id), symbol)
  {
    if p[0].tickerId == id {
      assert Select(p, id) == [p[0]] + Select(p[1..], id);
      ProjectAllAppend([p[0]], Select(p[1..], id), symbol);
    } else {
      assert Select(p, id) == Select(p[1..], id);
    }
  }

  lemma ProjectAllAppend(a: seq<PriceRecord>, b: seq<PriceRecord>, symbol: string)
    ensures ProjectAll(a + b, symbol) == ProjectAll(a, symbol) + ProjectAll(b, symbol)
  {
    var l, r := ProjectAll(a + b, symbol), ProjectAll(a, symbol) + ProjectAll(b, symbol);
    forall k | 0 <= k < |l| ensures l[k] == r[k] {
      if k < |a| {
        assert (a + b)[k] == a[k];
      } else {
        assert (a + b)[k] == b[k - |a|];
      }
    }
  }

  /** After a successful load the query returns exactly the download, in date order. */
  lemma PriceDataAfterLoad(t: seq<TickerRow>, p: seq<PriceRecord>, symbol: string, batch: seq<RawBar>)
    requires TickersValid(t) && Load(t, p, symbol, batch).0.Loaded?
    ensures PriceData(t, Load(t, p, symbol, batch).1, symbol) == Metrics.SortByDate(BatchRows(batch, symbol))
  {
    var id := Lookup(t, symbol).value;
    var q := Load(t, p, symbol, batch).1;
    LoadSelect(t, p, symbol, batch, id);
    JoinedIsSelect(t, q, symbol);
    assert ProjectAll(Tag(batch, id), symbol) == BatchRows(batch, symbol);
  }

  /**
   * After a refused append the symbol's query is empty: the delete had already been
   * committed, so the old rows are gone too.
   */
  lemma PriceDataAfterRejectedLoad(t: seq<TickerRow>, p: seq<PriceRecord>, symbol: string, batch: seq<RawBar>)
    requires TickersValid(t) && Load(t, p, symbol, batch).0.InsertRejected?
    ensures PriceData(t, Load(t, p, symbol, batch).1, symbol) == []
  {
    var id := Lookup(t, symbol).value;
    var q := Load(t, p, symbol, batch).1;
    LoadSelect(t, p, symbol, batch, id);
    JoinedIsSelect(t, q, symbol);
  }

  /** Loading one symbol does not change the query of any other symbol. */
  lemma PriceDataOtherSymbol(t: seq<TickerRow>, p: seq<PriceRecord>, symbol: string, batch: seq<RawBar>,
                             other: string)
    requires TickersValid(t) && other != symbol
    ensures PriceData(t, Load(t, p, symbol, batch).1, other) == PriceData(t, p, other)
  {
    var q := Load(t, p, symbol, batch).1;
    JoinedIsSelect(t, p, other);
    JoinedIsSelect(t, q, other);
    if Lookup(t, other).Some? {
      var id := Lookup(t, other).value;
      if Lookup(t, symbol) == Some(id) {
        LookupInjective(t, symbol, other);
      }
      LoadOtherTicker(t, p, symbol, batch, id);
    }
  }

  lemma ProjectedDatesDetermineRows(p: seq<PriceRecord>, symbol: string)
    requires RecordDatesDistinct(p)
    ensures Metrics.DateDeterminesRow(ProjectAll(p, symbol))
  {
    var rows := ProjectAll(p, symbol);
    forall i, j | 0 <= i < |rows| && 0 <= j < |rows| && rows[i].date == rows[j].date
      ensures rows[i] == rows[j]
    {
      assert rows[i].date == p[i].date && rows[j].date == p[j].date;
    }
  }

  /**
   * Under UNIQUE(ticker_id, date) a date determines its row in the query result, so
   * `add_return_metrics` gives the same frame whatever order the rows arrive in.
   */
  lemma MetricsOfStoredRowsDeterministic(t: seq<TickerRow>, p: seq<PriceRecord>, symbol: string,
                                         rows: seq<Metrics.PriceRow>)
    requires TickersValid(t) && UniqueDates(p)
    requires multiset(rows) == multiset(PriceData(t, p, symbol))
    ensures Metrics.DateDeterminesRow(PriceData(t, p, symbol))
    ensures Metrics.AddReturnMetrics(rows) == Metrics.AddReturnMetrics(PriceData(t, p, symbol))
  {
    var joined := Joined(t, p, symbol);
    JoinedIsSelect(t, p, symbol);
    match Lookup(t, symbol) {
      case None =>
      case Some(id) =>
        assert RecordDatesDistinct(Select(p, id));
        ProjectedDatesDetermineRows(Select(p, id), symbol);
    }
    Metrics.DateDeterminesRowPermutation(joined, PriceData(t, p, symbol));
    Metrics.MetricsIgnoreInputOrder(PriceData(t, p, symbol), rows);
  }
}
