/**
 * The application database as the fetcher sees it: stocks keyed by ticker,
 * quotes keyed by `(stock_id, date)`, insiders keyed by name, and trades
 * as an append-only list with no key beyond `id`. Every write either
 * succeeds and commits or raises and leaves the tables as they were.
 */
module Store {
  import opened Wrappers
  import opened Models
  import opened Tables

  datatype Store = Store(
    stocks: Table<string, StockData>,
    quotes: Table<(nat, Date), QuoteData>,
    insiders: Table<string, InsiderData>,
    trades: seq<Row<TradeData>>,
    nextTradeId: nat)

  /** Why a write raised. */
  datatype StoreError =
    | DataError       // a value the column cannot hold: too long, or not an enum member
    | IntegrityError  // a foreign key that names no row
    | NoResidentRow   // the insert conflicted, but no row has the key to update

  function EmptyStore(): Store {
    Store(EmptyTable(), EmptyTable(), EmptyTable(), [], 1)
  }

  ghost predicate TradesValid(s: Store) {
    && (forall i :: 0 <= i < |s.trades| ==> s.trades[i].id < s.nextTradeId)
    && (forall i, j :: 0 <= i < j < |s.trades| ==> s.trades[i].id < s.trades[j].id)
    && (forall i :: 0 <= i < |s.trades| ==> s.trades[i].data.stockId in Ids(s.stocks))
    && (forall i :: 0 <= i < |s.trades| ==> s.trades[i].data.insiderId in Ids(s.insiders))
    && (forall i :: 0 <= i < |s.trades| ==> TradeFits(s.trades[i].data))
  }

  /**
   * The constraints of the models: unique natural keys and ids, column
   * widths, and foreign keys from quotes and trades to existing rows.
   */
  ghost predicate Valid(s: Store) {
    && Tables.Valid(s.stocks, StockKey)
    && (forall k :: k in s.stocks.rows ==> StockFits(s.stocks.rows[k].data))
    && Tables.Valid(s.quotes, QuoteKey)
    && (forall k :: k in s.quotes.rows ==> s.quotes.rows[k].data.stockId in Ids(s.stocks))
    && Tables.Valid(s.insiders, InsiderKey)
    && (forall k :: k in s.insiders.rows ==> InsiderFits(s.insiders.rows[k].data))
    && TradesValid(s)
  }

  lemma EmptyStoreValid()
    ensures Valid(EmptyStore())
  {
  }

  /**
   * `upsert(Stock, {ticker}, keys=('ticker',))`. A ticker longer than the
   * column raises; otherwise the stock row for the ticker exists afterwards
   * and keeps its id if it was there.
   */
  function UpsertStock(s: Store, ticker: string): (r: Result<(Store, Row<StockData>), StoreError>)
    ensures r.Failure? <==> |ticker| > TickerWidth
    ensures r.Failure? ==> r.error == DataError
    ensures r.Success? ==>
      var (s', row) := r.value;
      && row.data.ticker == ticker
      && ticker in s'.stocks.rows && s'.stocks.rows[ticker] == row
      && (ticker in s.stocks.rows ==> row.id == s.stocks.rows[ticker].id)
      && Ids(s.stocks) <= Ids(s'.stocks) && row.id in Ids(s'.stocks)
      && s'.stocks.rows.Keys == s.stocks.rows.Keys + {ticker}
      && (forall k :: k in s.stocks.rows && k != ticker ==> s'.stocks.rows[k] == s.stocks.rows[k])
      && s'.quotes == s.quotes && s'.insiders == s.insiders
      && s'.trades == s.trades && s'.nextTradeId == s.nextTradeId
    ensures r.Success? && Valid(s) ==> Valid(r.value.0)
  {
    var data := StockData(ticker);
    if !StockFits(data) then Failure(DataError)
    else
      var (t, row) := Upsert(s.stocks, StockKey, data);
      UpsertKeepsIds(s.stocks, StockKey, data);
      var s' := s.(stocks := t);
      assert row.id in Ids(t) by {
        assert t.rows[ticker] == row;
      }
      assert Valid(s) ==> Valid(s') by {
        if Valid(s) {
          assert TradesValid(s');
        }
      }
      Success((s', row))
  }

  /** Upserting a stock that is already stored changes nothing and returns its row. */
  lemma UpsertStockAgain(s: Store, ticker: string)
    requires Valid(s) && ticker in s.stocks.rows
    ensures UpsertStock(s, ticker) == Success((s, s.stocks.rows[ticker]))
  {
    var row := s.stocks.rows[ticker];
    assert row.data == StockData(ticker) by {
      assert StockKey(row.data) == ticker;
    }
    assert s.stocks.rows[ticker := Row(row.id, StockData(ticker))] == s.stocks.rows;
  }

  /**
   * `upsert(Quote, item, keys=('date', 'stock_id'))`. A quote for an
   * existing `(stock_id, date)` is overwritten in place; a new one is
   * inserted when its stock exists. Otherwise the insert fails on the
   * foreign key and the fallback finds no row to update.
   */
  function UpsertQuote(s: Store, data: QuoteData): (r: Result<(Store, Row<QuoteData>), StoreError>)
    ensures r.Failure? <==> QuoteKey(data) !in s.quotes.rows && data.stockId !in Ids(s.stocks)
    ensures r.Failure? ==> r.error == NoResidentRow
    ensures r.Success? ==>
      var (s', row) := r.value;
      var key := QuoteKey(data);
      && row.data == data
      && key in s'.quotes.rows && s'.quotes.rows[key] == row
      && (key in s.quotes.rows ==> row.id == s.quotes.rows[key].id)
      && (forall k :: k in s.quotes.rows && k != key ==> k in s'.quotes.rows && s'.quotes.rows[k] == s.quotes.rows[k])
      && s'.quotes.rows.Keys == s.quotes.rows.Keys + {key}
      && s'.stocks == s.stocks && s'.insiders == s.insiders
      && s'.trades == s.trades && s'.nextTradeId == s.nextTradeId
    ensures r.Success? && Valid(s) ==> Valid(r.value.0)
  {
    var key := QuoteKey(data);
    if key !in s.quotes.rows && data.stockId !in Ids(s.stocks) then Failure(NoResidentRow)
    else
      var (t, row) := Upsert(s.quotes, QuoteKey, data);
      var s' := s.(quotes := t);
      assert Valid(s) ==> Valid(s') by {
        if Valid(s) {
          forall k | k in t.rows
            ensures t.rows[k].data.stockId in Ids(s.stocks)
          {
            if k == key {
              assert data.stockId == key.0;
              if key in s.quotes.rows {
                assert s.quotes.rows[key].data.stockId == key.0;
              }
            }
          }
          assert TradesValid(s');
        }
      }
      Success((s', row))
  }

  /**
   * `upsert(Insider, {name, relation}, keys=('name',))`. Values too long for
   * their columns raise; otherwise the insider row for the name holds the
   * given relation and keeps its id if it was there.
   */
  function UpsertInsider(s: Store, data: InsiderData): (r: Result<(Store, Row<InsiderData>), StoreError>)
    ensures r.Failure? <==> !InsiderFits(data)
    ensures r.Failure? ==> r.error == DataError
    ensures r.Success? ==>
      var (s', row) := r.value;
      && row.data == data
      && data.name in s'.insiders.rows && s'.insiders.rows[data.name] == row
      && (data.name in s.insiders.rows ==> row.id == s.insiders.rows[data.name].id)
      && Ids(s.insiders) <= Ids(s'.insiders) && row.id in Ids(s'.insiders)
      && s'.insiders.rows.Keys == s.insiders.rows.Keys + {data.name}
      && (forall n :: n in s.insiders.rows && n != data.name ==> s'.insiders.rows[n] == s.insiders.rows[n])
      && s'.stocks == s.stocks && s'.quotes == s.quotes
      && s'.trades == s.trades && s'.nextTradeId == s.nextTradeId
    ensures r.Success? && Valid(s) ==> Valid(r.value.0)
  {
    if !InsiderFits(data) then Failure(DataError)
    else
      var (t, row) := Upsert(s.insiders, InsiderKey, data);
      UpsertKeepsIds(s.insiders, InsiderKey, data);
      var s' := s.(insiders := t);
      assert row.id in Ids(t) by {
        assert t.rows[data.name] == row;
      }
      assert Valid(s) ==> Valid(s') by {
        if Valid(s) {
          assert TradesValid(s');
        }
      }
      Success((s', row))
  }

  /** The keyword arguments of `Trade(...)`: the owner type is still text and the share counts are floats. */
  datatype NewTrade = NewTrade(
    stockId: nat,
    insiderId: nat,
    transactionType: string,
    ownerType: string,
    lastDate: Date,
    sharesTraded: real,
    lastPrice: Option<real>,
    sharesHold: real)

  /**
   * The row data a new trade is stored as, when its owner type names a
   * member: the share counts rounded into the `Integer` columns.
   */
  function TradeDataOf(t: NewTrade): (r: Option<TradeData>)
    ensures r.Some? <==> OwnerTypeFromName(t.ownerType).Some?
    ensures r.Some? ==> OwnerTypeName(r.value.ownerType) == t.ownerType
    ensures r.Some? ==> r.value.sharesTraded == RoundToInteger(t.sharesTraded)
    ensures r.Some? ==> r.value.sharesHold == RoundToInteger(t.sharesHold)
  {
    match OwnerTypeFromName(t.ownerType)
    case None => None
    case Some(o) =>
      Some(TradeData(t.stockId, t.insiderId, t.transactionType, o, t.lastDate,
                     RoundToInteger(t.sharesTraded), t.lastPrice, RoundToInteger(t.sharesHold)))
  }

  /** The column values of a new trade that the database accepts. */
  predicate TradeValuesFit(t: NewTrade) {
    && OwnerTypeFromName(t.ownerType).Some?
    && |t.transactionType| <= TransactionTypeWidth
    && FitsInteger(RoundToInteger(t.sharesTraded))
    && FitsInteger(RoundToInteger(t.sharesHold))
  }

  /**
   * `session.add(Trade(...)); session.commit()`. No natural key is checked:
   * the trade is appended with a fresh id, or the commit raises (an owner
   * type that is not a member, an over-long transaction type, a share
   * count out of the `integer` range, or a missing stock or insider) and
   * nothing is written.
   */
  function AddTrade(s: Store, t: NewTrade): (r: Result<(Store, Row<TradeData>), StoreError>)
    ensures r.Success? <==>
      && OwnerTypeFromName(t.ownerType).Some?
      && |t.transactionType| <= TransactionTypeWidth
      && FitsInteger(RoundToInteger(t.sharesTraded))
      && FitsInteger(RoundToInteger(t.sharesHold))
      && t.stockId in Ids(s.stocks) && t.insiderId in Ids(s.insiders)
    ensures r.Failure? ==> (r.error == if TradeValuesFit(t) then IntegrityError else DataError)
    ensures r.Success? ==>
      var (s', row) := r.value;
      && s'.trades == s.trades + [row]
      && Some(row.data) == TradeDataOf(t)
      && row.id == s.nextTradeId && s'.nextTradeId == s.nextTradeId + 1
      && s'.stocks == s.stocks && s'.quotes == s.quotes && s'.insiders == s.insiders
    ensures r.Success? && Valid(s) ==> Valid(r.value.0)
  {
    match TradeDataOf(t)
    case None => Failure(DataError)
    case Some(data) =>
      if !TradeFits(data) then Failure(DataError)
      else if t.stockId !in Ids(s.stocks) || t.insiderId !in Ids(s.insiders) then Failure(IntegrityError)
      else
        var row := Row(s.nextTradeId, data);
        var s' := s.(trades := s.trades + [row], nextTradeId := s.nextTradeId + 1);
        assert Valid(s) ==> Valid(s') by {
          if Valid(s) {
            assert forall i :: 0 <= i < |s.trades| ==> s'.trades[i] == s.trades[i];
          }
        }
        Success((s', row))
  }

  /**
   * A share count that rounds past the top of the `integer` range, such as
   * the 3,000,000,000 of a large holding, makes the commit raise `DataError`.
   */
  lemma AddTradeOutOfRange(s: Store, t: NewTrade)
    requires t.sharesHold >= IntegerMax as real + 0.5
    ensures AddTrade(s, t) == Failure(DataError)
  {
    assert RoundToInteger(t.sharesHold) > IntegerMax;
  }

  /**
   * Trades are never deduplicated: adding the same trade twice stores two
   * rows with equal data and different ids.
   */
  lemma AddTradeTwiceKeepsBoth(s: Store, t: NewTrade)
    requires AddTrade(s, t).Success?
    ensures var s1 := AddTrade(s, t).value.0;
      && AddTrade(s1, t).Success?
      && var s2 := AddTrade(s1, t).value.0;
      && |s2.trades| == |s.trades| + 2
      && s2.trades[|s.trades|].data == s2.trades[|s.trades| + 1].data
      && s2.trades[|s.trades|].id != s2.trades[|s.trades| + 1].id
  {
  }
}
