/**
 * The two tables of the price warehouse, `tickers` and `daily_prices`, as values,
 * and the effect of each statement that etl.py runs against them.
 */
module Tables {
  import opened Wrappers

  /** A calendar day, as a day number. */
  type Date = int

  /** A row of `tickers(id INTEGER PRIMARY KEY, symbol TEXT UNIQUE)`. */
  datatype TickerRow = TickerRow(id: int, symbol: string)

  /** A row of `daily_prices`, tagged with the ticker it belongs to. */
  datatype PriceRecord = PriceRecord(
    tickerId: int, date: Date,
    open: real, high: real, low: real, close: real, adjClose: real,
    volume: int)

  /** One row of the downloaded frame after its index became the `Date` column. */
  datatype RawBar = RawBar(
    date: Date,
    open: real, high: real, low: real, close: real, adjClose: real,
    volume: int)

  /** What one call of `load_prices_for_ticker` ended with. */
  datatype LoadOutcome =
    | NoDataReturned        // the download was empty
    | UnknownTicker         // no `tickers` row for the symbol
    | Loaded(count: nat)    // old rows purged, `count` new rows appended
    | InsertRejected        // rows purged, then the append broke UNIQUE(ticker_id, date)

  // ---------------------------------------------------------------- tickers

  predicate HasSymbol(t: seq<TickerRow>, s: string) {
    exists i :: 0 <= i < |t| && t[i].symbol == s
  }

  /** The table's constraints: ids and symbols unique, ids growing in insertion order. */
  predicate TickersValid(t: seq<TickerRow>) {
    && (forall i, j :: 0 <= i < j < |t| ==> t[i].id < t[j].id)
    && (forall i, j :: 0 <= i < j < |t| ==> t[i].symbol != t[j].symbol)
  }

  /** `SELECT id FROM tickers WHERE symbol = ?` followed by `fetchone()`. */
  function Lookup(t: seq<TickerRow>, s: string): (r: Option<int>)
    ensures r.Some? <==> HasSymbol(t, s)
    ensures r.Some? ==> exists i :: 0 <= i < |t| && t[i] == TickerRow(r.value, s)
  {
    if t == [] then None
    else if t[0].symbol == s then Some(t[0].id)
    else
      var r := Lookup(t[1..], s);
      assert r.Some? ==> t[1..][0 + 0] == t[1];
      assert HasSymbol(t, s) && t[0].symbol != s ==> HasSymbol(t[1..], s) by {
        if HasSymbol(t, s) && t[0].symbol != s {
          var i :| 0 <= i < |t| && t[i].symbol == s;
          assert t[1..][i - 1] == t[i];
        }
      }
      assert r.Some? ==> exists i :: 0 <= i < |t| && t[i] == TickerRow(r.value, s) by {
        if r.Some? {
          var i :| 0 <= i < |t[1..]| && t[1..][i] == TickerRow(r.value, s);
          assert t[i + 1] == t[1..][i];
        }
      }
      r
  }

  /** The largest id in the table, 0 when it is empty. */
  function MaxId(t: seq<TickerRow>): (m: int)
    ensures forall i :: 0 <= i < |t| ==> t[i].id <= m
    ensures t != [] ==> exists i :: 0 <= i < |t| && t[i].id == m
  {
    if t == [] then 0
    else
      var m := MaxId(t[..|t| - 1]);
      var last := t[|t| - 1].id;
      assert forall i :: 0 <= i < |t| - 1 ==> t[..|t| - 1][i] == t[i];
      if t[..|t| - 1] == [] || last > m then last else m
  }

  /**
   * `INSERT OR IGNORE INTO tickers (symbol) VALUES (?)`: the UNIQUE constraint on
   * `symbol` turns a repeated symbol into a no-op; a new row gets the SQLite rowid
   * one larger than the largest in the table (1 in an empty table).
   */
  function InsertOrIgnore(t: seq<TickerRow>, s: string): seq<TickerRow> {
    if Lookup(t, s).Some? then t else t + [TickerRow(MaxId(t) + 1, s)]
  }

  /** The `tickers` table after `insert_tickers` went through `symbols` in order. */
  function Registered(t: seq<TickerRow>, symbols: seq<string>): seq<TickerRow> {
    if symbols == [] then t
    else InsertOrIgnore(Registered(t, symbols[..|symbols| - 1]), symbols[|symbols| - 1])
  }

  /** Index of the first occurrence of `s` in `symbols`. */
  function FirstIndex(symbols: seq<string>, s: string): (k: nat)
    requires s in symbols
    ensures k < |symbols| && symbols[k] == s
    ensures forall j :: 0 <= j < k ==> symbols[j] != s
  {
    if symbols[0] == s then 0
    else
      var k := FirstIndex(symbols[1..], s);
      assert forall j :: 1 <= j < k + 1 ==> symbols[j] == symbols[1..][j - 1];
      k + 1
  }

  // ---------------------------------------------------------------- daily_prices

  /** The rows of ticker `id`, in table order. */
  function Select(p: seq<PriceRecord>, id: int): (r: seq<PriceRecord>)
    ensures forall x :: x in r <==> x in p && x.tickerId == id
  {
    if p == [] then []
    else if p[0].tickerId == id then [p[0]] + Select(p[1..], id)
    else Select(p[1..], id)
  }

  /** `DELETE FROM daily_prices WHERE ticker_id = ?`. */
  function Purge(p: seq<PriceRecord>, id: int): (r: seq<PriceRecord>)
    ensures forall x :: x in r <==> x in p && x.tickerId != id
  {
    if p == [] then []
    else if p[0].tickerId == id then Purge(p[1..], id)
    else [p[0]] + Purge(p[1..], id)
  }

  /** The fixed column mapping of the downloaded frame onto a `daily_prices` row. */
  function Normalize(bar: RawBar, id: int): PriceRecord {
    PriceRecord(id, bar.date, bar.open, bar.high, bar.low, bar.close, bar.adjClose, bar.volume)
  }

  /** The frame with its `ticker_id` column set and the eight table columns kept. */
  function Tag(batch: seq<RawBar>, id: int): (r: seq<PriceRecord>)
    ensures |r| == |batch|
    ensures forall i :: 0 <= i < |r| ==> r[i].tickerId == id && r[i].date == batch[i].date
  {
    seq(|batch|, i requires 0 <= i < |batch| => Normalize(batch[i], id))
  }

  predicate DistinctDates(batch: seq<RawBar>) {
    forall i, j :: 0 <= i < j < |batch| ==> batch[i].date != batch[j].date
  }

  predicate RecordDatesDistinct(p: seq<PriceRecord>) {
    forall i, j :: 0 <= i < j < |p| ==> p[i].date != p[j].date
  }

  /** UNIQUE(ticker_id, date): no ticker has two rows for one date. */
  ghost predicate UniqueDates(p: seq<PriceRecord>) {
    forall id :: RecordDatesDistinct(Select(p, id))
  }

  /**
   * The outcome and the new `daily_prices` of `load_prices_for_ticker(symbol)` when
   * the download returned `batch`. The empty check comes first, then the lookup,
   * then the committed delete, then the append, which the database refuses as a
   * whole when the batch repeats a date.
   */
  function Load(t: seq<TickerRow>, p: seq<PriceRecord>, symbol: string, batch: seq<RawBar>)
    : (LoadOutcome, seq<PriceRecord>)
  {
    if |batch| == 0 then (NoDataReturned, p)
    else match Lookup(t, symbol)
      case None => (UnknownTicker, p)
      case Some(id) =>
        var purged := Purge(p, id);
        if !DistinctDates(batch) then (InsertRejected, purged)
        else (Loaded(|batch|), purged + Tag(batch, id))
  }

  /**
   * `daily_prices` after loading `symbols[k]` with `batches[k]` in order, and whether a
   * rejected insert raised and ended the run early.
   */
  function LoadAll(t: seq<TickerRow>, p: seq<PriceRecord>, symbols: seq<string>, batches: seq<seq<RawBar>>)
    : (seq<PriceRecord>, bool)
    requires |symbols| == |batches|
  {
    if symbols == [] then (p, false)
    else
      var n := |symbols| - 1;
      var (q, aborted) := LoadAll(t, p, symbols[..n], batches[..n]);
      if aborted then (q, true)
      else
        var (outcome, q') := Load(t, q, symbols[n], batches[n]);
        (q', outcome.InsertRejected?)
  }

  // ---------------------------------------------------------------- registry lemmas

  lemma LookupStable(t: seq<TickerRow>, u: seq<TickerRow>, s: string)
    requires HasSymbol(t, s)
    ensures Lookup(t + u, s) == Lookup(t, s)
  {
    if t[0].symbol != s {
      var i :| 0 <= i < |t| && t[i].symbol == s;
      assert t[1..][i - 1] == t[i];
      assert (t + u)[1..] == t[1..] + u;
      LookupStable(t[1..], u, s);
    }
  }

  /** Under the table's constraints one id belongs to one symbol. */
  lemma LookupInjective(t: seq<TickerRow>, s1: string, s2: string)
    requires TickersValid(t)
    requires Lookup(t, s1).Some? && Lookup(t, s1) == Lookup(t, s2)
    ensures s1 == s2
  {
    var id := Lookup(t, s1).value;
    var i1 :| 0 <= i1 < |t| && t[i1] == TickerRow(id, s1);
    var i2 :| 0 <= i2 < |t| && t[i2] == TickerRow(id, s2);
    assert i1 == i2;
  }

  lemma InsertOrIgnoreValid(t: seq<TickerRow>, s: string)
    requires TickersValid(t)
    ensures TickersValid(InsertOrIgnore(t, s))
  {
    if !HasSymbol(t, s) {
      var r := t + [TickerRow(MaxId(t) + 1, s)];
      forall i, j | 0 <= i < j < |r| ensures r[i].symbol != r[j].symbol {
        if j == |t| { assert r[i] == t[i]; }
      }
    }
  }

  /**
   * `insert_tickers` keeps the table's constraints, and every id it hands out is
   * larger than every id that was there before.
   */
  lemma {:induction false} RegisteredValid(t: seq<TickerRow>, symbols: seq<string>)
    requires TickersValid(t)
    ensures TickersValid(Registered(t, symbols))
    ensures |t| <= |Registered(t, symbols)|
    ensures forall i, j :: 0 <= i < |t| <= j < |Registered(t, symbols)| ==>
              t[i].id < Registered(t, symbols)[j].id
  {
    if symbols != [] {
      var pre := symbols[..|symbols| - 1];
      RegisteredValid(t, pre);
      RegisteredExtends(t, pre);
      InsertOrIgnoreValid(Registered(t, pre), symbols[|symbols| - 1]);
      RegisteredExtends(t, symbols);
      var r := Registered(t, symbols);
      forall i, j | 0 <= i < |t| <= j < |r| ensures t[i].id < r[j].id {
        assert r[i] == t[i];
      }
    }
  }

  /**
   * Rows already in `tickers` stay as they were, in place (no second row, no new id);
   * each row added carries a symbol from `symbols` that was not registered before.
   */
  lemma {:induction false} RegisteredExtends(t: seq<TickerRow>, symbols: seq<string>)
    ensures |t| <= |Registered(t, symbols)| && Registered(t, symbols)[..|t|] == t
    ensures forall j :: |t| <= j < |Registered(t, symbols)| ==>
              Registered(t, symbols)[j].symbol in symbols && !HasSymbol(t, Registered(t, symbols)[j].symbol)
  {
    if symbols != [] {
      var pre := symbols[..|symbols| - 1];
      var x := symbols[|symbols| - 1];
      RegisteredExtends(t, pre);
      var r' := Registered(t, pre);
      var r := Registered(t, symbols);
      assert r == InsertOrIgnore(r', x);
      forall j | |t| <= j < |r| ensures r[j].symbol in symbols && !HasSymbol(t, r[j].symbol) {
        if j < |r'| {
          assert r[j] == r'[j];
          assert r'[j].symbol in pre;
        } else {
          assert r[j].symbol == x;
        }
      }
    }
  }

  /** After `insert_tickers(symbols)` every symbol of `symbols` has a row. */
  lemma {:induction false} RegisteredContainsAll(t: seq<TickerRow>, symbols: seq<string>)
    ensures forall s :: s in symbols ==> HasSymbol(Registered(t, symbols), s)
  {
    if symbols != [] {
      var pre := symbols[..|symbols| - 1];
      var x := symbols[|symbols| - 1];
      RegisteredContainsAll(t, pre);
      var r' := Registered(t, pre);
      var r := Registered(t, symbols);
      forall s | s in symbols ensures HasSymbol(r, s) {
        if s == x {
          if !HasSymbol(r', x) { assert r[|r| - 1].symbol == x; }
        } else {
          assert s in pre;
          var i :| 0 <= i < |r'| && r'[i].symbol == s;
          assert r[i] == r'[i];
        }
      }
    }
  }

  /** A symbol that was registered keeps its id through `insert_tickers`. */
  lemma RegisteredKeepsIds(t: seq<TickerRow>, symbols: seq<string>, s: string)
    requires HasSymbol(t, s)
    ensures Lookup(Registered(t, symbols), s) == Lookup(t, s)
  {
    RegisteredExtends(t, symbols);
    var r := Registered(t, symbols);
    assert r == t + r[|t|..];
    LookupStable(t, r[|t|..], s);
  }

  lemma FirstIndexAppend(a: seq<string>, b: seq<string>, s: string)
    requires s in a
    ensures FirstIndex(a + b, s) == FirstIndex(a, s)
  {
    var k1, k2 := FirstIndex(a + b, s), FirstIndex(a, s);
    assert (a + b)[k2] == s;
    assert a[k1] == (a + b)[k1];
  }

  /** The new rows of `r` (those past `|t|`) come in first-appearance order in `symbols`. */
  ghost predicate InFirstAppearanceOrder(t: seq<TickerRow>, r: seq<TickerRow>, symbols: seq<string>) {
    && |t| <= |r|
    && (forall j :: |t| <= j < |r| ==> r[j].symbol in symbols)
    && (forall j, k :: |t| <= j < k < |r| ==> FirstIndex(symbols, r[j].symbol) < FirstIndex(symbols, r[k].symbol))
  }

  /** Appending a symbol to the list keeps the order of the rows already there. */
  lemma FirstAppearanceExtend(t: seq<TickerRow>, r: seq<TickerRow>, pre: seq<string>, x: string)
    requires InFirstAppearanceOrder(t, r, pre)
    ensures InFirstAppearanceOrder(t, r, pre + [x])
    ensures forall j :: |t| <= j < |r| ==> FirstIndex(pre + [x], r[j].symbol) < |pre|
  {
    forall j | |t| <= j < |r|
      ensures FirstIndex(pre + [x], r[j].symbol) == FirstIndex(pre, r[j].symbol) < |pre|
    {
      FirstIndexAppend(pre, [x], r[j].symbol);
    }
  }

  lemma FirstAppearanceStep(t: seq<TickerRow>, r: seq<TickerRow>, pre: seq<string>, x: string)
    requires InFirstAppearanceOrder(t, r, pre)
    requires forall s :: s in pre ==> HasSymbol(r, s)
    ensures InFirstAppearanceOrder(t, InsertOrIgnore(r, x), pre + [x])
  {
    FirstAppearanceExtend(t, r, pre, x);
    if Lookup(r, x).None? {
      var r' := r + [TickerRow(MaxId(r) + 1, x)];
      var symbols := pre + [x];
      assert x !in pre;
      assert symbols[|pre|] == x;
      var fx := FirstIndex(symbols, x);
      assert fx == |pre|;
      forall j | |t| <= j < |r'| ensures r'[j].symbol in symbols {
        if j < |r| { assert r'[j] == r[j]; }
      }
      forall j, k | |t| <= j < k < |r'|
        ensures FirstIndex(symbols, r'[j].symbol) < FirstIndex(symbols, r'[k].symbol)
      {
        assert r'[j] == r[j];
        if k < |r| { assert r'[k] == r[k]; }
      }
      assert InsertOrIgnore(r, x) == r';
    }
  }

  /**
   * The rows `insert_tickers` adds come in the order in which their symbols first
   * appear in `symbols`.
   */
  lemma {:induction false} RegisteredFirstAppearance(t: seq<TickerRow>, symbols: seq<string>)
    ensures InFirstAppearanceOrder(t, Registered(t, symbols), symbols)
  {
    if symbols != [] {
      var pre := symbols[..|symbols| - 1];
      assert symbols == pre + [symbols[|symbols| - 1]];
      RegisteredFirstAppearance(t, pre);
      RegisteredContainsAll(t, pre);
      FirstAppearanceStep(t, Registered(t, pre), pre, symbols[|symbols| - 1]);
    }
  }

  /** Registering symbols that are all present already changes nothing. */
  lemma {:induction false} RegisteredNoop(t: seq<TickerRow>, symbols: seq<string>)
    requires forall s :: s in symbols ==> HasSymbol(t, s)
    ensures Registered(t, symbols) == t
  {
    if symbols != [] {
      var pre := symbols[..|symbols| - 1];
      assert forall s :: s in pre ==> s in symbols;
      RegisteredNoop(t, pre);
      assert symbols[|symbols| - 1] in symbols;
    }
  }

  /** Calling `insert_tickers` twice with the same list gives the table of one call. */
  lemma RegisteredIdempotent(t: seq<TickerRow>, symbols: seq<string>)
    ensures Registered(Registered(t, symbols), symbols) == Registered(t, symbols)
  {
    RegisteredContainsAll(t, symbols);
    RegisteredNoop(Registered(t, symbols), symbols);
  }

  // ---------------------------------------------------------------- daily_prices lemmas

  lemma {:induction false} SelectAppend(a: seq<PriceRecord>, b: seq<PriceRecord>, id: int)
    ensures Select(a + b, id) == Select(a, id) + Select(b, id)
  {
    if a != [] {
      assert (a + b)[1..] == a[1..] + b;
      SelectAppend(a[1..], b, id);
    } else {
      assert a + b == b;
    }
  }

  lemma {:induction false} PurgeAppend(a: seq<PriceRecord>, b: seq<PriceRecord>, id: int)
    ensures Purge(a + b, id) == Purge(a, id) + Purge(b, id)
  {
    if a != [] {
      assert (a + b)[1..] == a[1..] + b;
      PurgeAppend(a[1..], b, id);
    } else {
      assert a + b == b;
    }
  }

  /** The delete empties ticker `id` and leaves the rows of every other ticker, in order. */
  lemma {:induction false} SelectPurge(p: seq<PriceRecord>, id: int, k: int)
    ensures Select(Purge(p, id), k) == if k == id then [] else Select(p, k)
  {
    if p != [] {
      SelectPurge(p[1..], id, k);
    }
  }

  /** The appended batch holds rows of ticker `id` only. */
  lemma {:induction false} SelectTag(batch: seq<RawBar>, id: int, k: int)
    ensures Select(Tag(batch, id), k) == if k == id then Tag(batch, id) else []
  {
    if batch != [] {
      assert Tag(batch, id)[1..] == Tag(batch[1..], id);
      SelectTag(batch[1..], id, k);
    }
  }

  lemma {:induction false} PurgeTag(batch: seq<RawBar>, id: int)
    ensures Purge(Tag(batch, id), id) == []
  {
    if batch != [] {
      assert Tag(batch, id)[1..] == Tag(batch[1..], id);
      PurgeTag(batch[1..], id);
    }
  }

  lemma {:induction false} PurgeIdempotent(p: seq<PriceRecord>, id: int)
    ensures Purge(Purge(p, id), id) == Purge(p, id)
  {
    if p != [] {
      PurgeIdempotent(p[1..], id);
    }
  }

  /**
   * What `load_prices_for_ticker` does to each ticker's rows: on the two paths past
   * the delete, ticker `id` ends with exactly the new batch (or nothing, when the
   * append was refused); every other ticker, and every ticker on the early-return
   * paths, keeps its rows.
   */
  lemma LoadSelect(t: seq<TickerRow>, p: seq<PriceRecord>, symbol: string, batch: seq<RawBar>, k: int)
    ensures var (outcome, q) := Load(t, p, symbol, batch);
      Select(q, k) ==
        if (outcome.Loaded? || outcome.InsertRejected?) && Lookup(t, symbol) == Some(k)
        then (if outcome.Loaded? then Tag(batch, k) else [])
        else Select(p, k)
  {
    if |batch| > 0 && Lookup(t, symbol).Some? {
      var id := Lookup(t, symbol).value;
      SelectPurge(p, id, k);
      if DistinctDates(batch) {
        SelectAppend(Purge(p, id), Tag(batch, id), k);
        SelectTag(batch, id, k);
      }
    }
  }

  /** Loading the same batch twice leaves the table of one load: no duplicates on rerun. */
  lemma LoadIdempotent(t: seq<TickerRow>, p: seq<PriceRecord>, symbol: string, batch: seq<RawBar>)
    ensures Load(t, Load(t, p, symbol, batch).1, symbol, batch) == Load(t, p, symbol, batch)
  {
    if |batch| > 0 && Lookup(t, symbol).Some? {
      var id := Lookup(t, symbol).value;
      PurgeIdempotent(p, id);
      if DistinctDates(batch) {
        PurgeAppend(Purge(p, id), Tag(batch, id), id);
        PurgeTag(batch, id);
        assert Purge(p, id) + [] == Purge(p, id);
      }
    }
  }

  /** Loading keeps UNIQUE(ticker_id, date). */
  lemma LoadKeepsUniqueDates(t: seq<TickerRow>, p: seq<PriceRecord>, symbol: string, batch: seq<RawBar>)
    requires UniqueDates(p)
    ensures UniqueDates(Load(t, p, symbol, batch).1)
  {
    var q := Load(t, p, symbol, batch).1;
    if |batch| > 0 && Lookup(t, symbol).Some? {
      var id := Lookup(t, symbol).value;
      forall k ensures RecordDatesDistinct(Select(q, k)) {
        LoadSelect(t, p, symbol, batch, k);
        if k != id {
          assert Select(q, k) == Select(p, k);
          assert RecordDatesDistinct(Select(p, k));
        }
      }
    }
  }

  /** Once a rejected insert has raised, the remaining symbols are not loaded. */
  lemma {:induction false} LoadAllAbortStays(t: seq<TickerRow>, p: seq<PriceRecord>, symbols: seq<string>,
                                             batches: seq<seq<RawBar>>, n: nat)
    requires |symbols| == |batches| && n <= |symbols|
    requires LoadAll(t, p, symbols[..n], batches[..n]).1
    ensures LoadAll(t, p, symbols, batches) == LoadAll(t, p, symbols[..n], batches[..n])
  {
    if n < |symbols| {
      var m := |symbols| - 1;
      assert symbols[..m][..n] == symbols[..n] && batches[..m][..n] == batches[..n];
      LoadAllAbortStays(t, p, symbols[..m], batches[..m], n);
    } else {
      assert symbols[..n] == symbols && batches[..n] == batches;
    }
  }

  /** One load, seen from a ticker that is not the one being loaded. */
  lemma LoadOtherTicker(t: seq<TickerRow>, p: seq<PriceRecord>, symbol: string, batch: seq<RawBar>, id: int)
    requires Lookup(t, symbol) != Some(id)
    ensures Select(Load(t, p, symbol, batch).1, id) == Select(p, id)
  {
    LoadSelect(t, p, symbol, batch, id);
  }

  /** One load of a registered symbol whose download repeats no date. */
  lemma LoadOwnTicker(t: seq<TickerRow>, p: seq<PriceRecord>, symbol: string, batch: seq<RawBar>)
    requires HasSymbol(t, symbol) && DistinctDates(batch)
    ensures !Load(t, p, symbol, batch).0.InsertRejected?
    ensures Select(Load(t, p, symbol, batch).1, Lookup(t, symbol).value) ==
              if batch == [] then Select(p, Lookup(t, symbol).value) else Tag(batch, Lookup(t, symbol).value)
  {
    LoadSelect(t, p, symbol, batch, Lookup(t, symbol).value);
  }

  /** Each listed ticker holds its download, or its rows of `p` when the download was empty. */
  ghost predicate HoldsDownloads(t: seq<TickerRow>, p: seq<PriceRecord>, q: seq<PriceRecord>,
                                 symbols: seq<string>, batches: seq<seq<RawBar>>)
    requires |symbols| == |batches|
    requires forall k :: 0 <= k < |symbols| ==> HasSymbol(t, symbols[k])
  {
    forall k :: 0 <= k < |symbols| ==>
      Select(q, Lookup(t, symbols[k]).value) ==
        if batches[k] == [] then Select(p, Lookup(t, symbols[k]).value)
        else Tag(batches[k], Lookup(t, symbols[k]).value)
  }

  /** Every ticker that no listed symbol resolves to has the same rows in `q` as in `p`. */
  ghost predicate KeepsUnlisted(t: seq<TickerRow>, p: seq<PriceRecord>, q: seq<PriceRecord>, symbols: seq<string>) {
    forall id :: (forall k :: 0 <= k < |symbols| ==> Lookup(t, symbols[k]) != Some(id)) ==>
      Select(q, id) == Select(p, id)
  }

  lemma KeepsUnlistedStep(t: seq<TickerRow>, p: seq<PriceRecord>, q: seq<PriceRecord>, pre: seq<string>,
                          x: string, b: seq<RawBar>)
    requires KeepsUnlisted(t, p, q, pre)
    ensures KeepsUnlisted(t, p, Load(t, q, x, b).1, pre + [x])
  {
    forall id | forall k :: 0 <= k < |pre| + 1 ==> Lookup(t, (pre + [x])[k]) != Some(id)
      ensures Select(Load(t, q, x, b).1, id) == Select(p, id)
    {
      assert Lookup(t, (pre + [x])[|pre|]) != Some(id);
      LoadOtherTicker(t, q, x, b, id);
      assert forall k :: 0 <= k < |pre| ==> (pre + [x])[k] == pre[k];
    }
  }

  lemma HoldsDownloadsStep(t: seq<TickerRow>, p: seq<PriceRecord>, q: seq<PriceRecord>,
                           pre: seq<string>, bpre: seq<seq<RawBar>>, x: string, b: seq<RawBar>)
    requires TickersValid(t) && |pre| == |bpre|
    requires forall k :: 0 <= k < |pre| ==> HasSymbol(t, pre[k]) && pre[k] != x
    requires HasSymbol(t, x) && DistinctDates(b)
    requires HoldsDownloads(t, p, q, pre, bpre) && KeepsUnlisted(t, p, q, pre)
    ensures HoldsDownloads(t, p, Load(t, q, x, b).1, pre + [x], bpre + [b])
  {
    var q' := Load(t, q, x, b).1;
    var symbols, batches := pre + [x], bpre + [b];
    var idx := Lookup(t, x).value;
    LoadOwnTicker(t, q, x, b);
    forall j | 0 <= j < |pre| ensures Lookup(t, pre[j]) != Some(idx) {
      if Lookup(t, pre[j]) == Some(idx) { LookupInjective(t, pre[j], x); }
    }
    forall k | 0 <= k < |symbols|
      ensures Select(q', Lookup(t, symbols[k]).value) ==
                if batches[k] == [] then Select(p, Lookup(t, symbols[k]).value)
                else Tag(batches[k], Lookup(t, symbols[k]).value)
    {
      if k < |pre| {
        assert symbols[k] == pre[k] && batches[k] == bpre[k];
        LoadOtherTicker(t, q, x, b, Lookup(t, pre[k]).value);
      } else {
        assert symbols[k] == x && batches[k] == b;
      }
    }
  }

  /**
   * The loading loop of `main` over registered, pairwise distinct symbols whose
   * downloads repeat no date: it runs to the end, each symbol's ticker holds exactly
   * its download (or its old rows when the download was empty), and tickers outside
   * the list keep their rows.
   */
  lemma {:induction false} LoadAllPerTicker(t: seq<TickerRow>, p: seq<PriceRecord>, symbols: seq<string>,
                                            batches: seq<seq<RawBar>>)
    requires |symbols| == |batches| && TickersValid(t)
    requires forall k :: 0 <= k < |symbols| ==> HasSymbol(t, symbols[k]) && DistinctDates(batches[k])
    requires forall j, k :: 0 <= j < k < |symbols| ==> symbols[j] != symbols[k]
    ensures !LoadAll(t, p, symbols, batches).1
    ensures HoldsDownloads(t, p, LoadAll(t, p, symbols, batches).0, symbols, batches)
    ensures KeepsUnlisted(t, p, LoadAll(t, p, symbols, batches).0, symbols)
  {
    if symbols != [] {
      var n := |symbols| - 1;
      var pre, bpre := symbols[..n], batches[..n];
      assert symbols == pre + [symbols[n]] && batches == bpre + [batches[n]];
      LoadAllPerTicker(t, p, pre, bpre);
      var q := LoadAll(t, p, pre, bpre).0;
      LoadOwnTicker(t, q, symbols[n], batches[n]);
      KeepsUnlistedStep(t, p, q, pre, symbols[n], batches[n]);
      HoldsDownloadsStep(t, p, q, pre, bpre, symbols[n], batches[n]);
    }
  }

  /**
   * `main` end to end: after registering pairwise distinct symbols, loading downloads
   * that repeat no date runs to the end and leaves each symbol's ticker holding
   * exactly its download (or its old rows when the download was empty).
   */
  lemma MainLoadsEverySymbol(t: seq<TickerRow>, p: seq<PriceRecord>, symbols: seq<string>,
                             batches: seq<seq<RawBar>>)
    requires |symbols| == |batches| && TickersValid(t)
    requires forall k :: 0 <= k < |symbols| ==> DistinctDates(batches[k])
    requires forall j, k :: 0 <= j < k < |symbols| ==> symbols[j] != symbols[k]
    ensures forall k :: 0 <= k < |symbols| ==> HasSymbol(Registered(t, symbols), symbols[k])
    ensures !LoadAll(Registered(t, symbols), p, symbols, batches).1
    ensures HoldsDownloads(Registered(t, symbols), p, LoadAll(Registered(t, symbols), p, symbols, batches).0,
                           symbols, batches)
    ensures KeepsUnlisted(Registered(t, symbols), p, LoadAll(Registered(t, symbols), p, symbols, batches).0,
                          symbols)
  {
    var r := Registered(t, symbols);
    RegisteredValid(t, symbols);
    RegisteredContainsAll(t, symbols);
    forall k | 0 <= k < |symbols| ensures HasSymbol(r, symbols[k]) {
      assert symbols[k] in symbols;
    }
    LoadAllPerTicker(r, p, symbols, batches);
  }
}
