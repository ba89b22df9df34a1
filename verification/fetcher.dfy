/**
 * The data fetcher: the task schedule over tickers and trade pages, the
 * history and trade tasks with their writes, and the run of all tasks with
 * every failure caught. The program only logs each task's result or error;
 * the report's two counts are this model's summary of those log lines, not
 * something the program computes. Tasks run one after another in
 * submission order here; each write commits on its own, so a task that
 * fails part-way keeps the writes it already made.
 */
module Fetcher {
  import opened Wrappers
  import opened Models
  import Tables
  import opened Store
  import opened Dom
  import opened Parser

  datatype Task = HistoryTask(ticker: string) | TradesTask(ticker: string, page: int)

  /** What a task raised: a fetch or parse error, or a write the database refused. */
  datatype TaskError = ParseFailed(parse: Parser.Error) | WriteFailed(write: StoreError)

  /** The result a task reports: the number of parsed items, or the error it raised. */
  datatype Outcome = Collected(count: nat) | Failed(error: TaskError)

  /** Everything outside the model that a task consults: the site and the conversions. */
  datatype Source = Source(web: Web, conv: Converters)

  /** The summary of a run: one outcome per task and the two tallies. */
  datatype Report = Report(outcomes: seq<Outcome>, succeeded: nat, failed: nat)

  /** The number of trade pages asked for per ticker: `range(max_trades_pages)` is empty below 1. */
  function PageBudget(maxTradesPages: int): nat {
    if maxTradesPages < 0 then 0 else maxTradesPages
  }

  /** One ticker's tasks: its history, then trade pages 1 to `pages`. */
  function TickerTasks(ticker: string, pages: nat): (r: seq<Task>)
    ensures |r| == 1 + pages
    ensures r[0] == HistoryTask(ticker)
    ensures forall p :: 1 <= p <= pages ==> r[p] == TradesTask(ticker, p)
  {
    [HistoryTask(ticker)] + seq(pages, k => TradesTask(ticker, k + 1))
  }

  /**
   * The tasks `fetch` submits, in submission order: for each ticker one
   * history task and one trade task per page up to the budget.
   */
  function Schedule(tickers: seq<string>, maxTradesPages: int): (r: seq<Task>)
    ensures forall k :: 0 <= k < |r| ==> r[k].ticker in tickers
    ensures forall k :: 0 <= k < |r| && r[k].TradesTask? ==> 1 <= r[k].page <= PageBudget(maxTradesPages)
  {
    if |tickers| == 0 then []
    else
      var head := TickerTasks(tickers[0], PageBudget(maxTradesPages));
      var rest := Schedule(tickers[1..], maxTradesPages);
      assert forall k :: 0 <= k < |head| ==> head[k].ticker == tickers[0];
      assert forall k :: 0 <= k < |rest| ==> rest[k].ticker in tickers by {
        forall k | 0 <= k < |rest|
          ensures rest[k].ticker in tickers
        {
          var j :| 0 <= j < |tickers[1..]| && tickers[1..][j] == rest[k].ticker;
          assert tickers[j + 1] == rest[k].ticker;
        }
      }
      head + rest
  }

  /** Every ticker contributes a block of the same length. */
  lemma {:induction false} ScheduleLength(tickers: seq<string>, maxTradesPages: int)
    ensures |Schedule(tickers, maxTradesPages)| == |tickers| * (1 + PageBudget(maxTradesPages))
  {
    if |tickers| > 0 {
      var n := 1 + PageBudget(maxTradesPages);
      ScheduleLength(tickers[1..], maxTradesPages);
      assert |tickers| * n == n + (|tickers| - 1) * n;
    }
  }

  /**
   * The task at position `p` of ticker `i`'s block: the tickers' blocks are
   * laid out one after another, each of the same length.
   */
  lemma {:induction false} ScheduleAt(tickers: seq<string>, maxTradesPages: int, i: nat, p: nat) returns (k: nat)
    requires i < |tickers| && p <= PageBudget(maxTradesPages)
    ensures k == i * (1 + PageBudget(maxTradesPages)) + p
    ensures k < |Schedule(tickers, maxTradesPages)|
    ensures Schedule(tickers, maxTradesPages)[k] == TickerTasks(tickers[i], PageBudget(maxTradesPages))[p]
  {
    var n := 1 + PageBudget(maxTradesPages);
    var head := TickerTasks(tickers[0], PageBudget(maxTradesPages));
    var rest := Schedule(tickers[1..], maxTradesPages);
    assert Schedule(tickers, maxTradesPages) == head + rest;
    if i == 0 {
      k := p;
    } else {
      var j := ScheduleAt(tickers[1..], maxTradesPages, i - 1, p);
      BlockStart(i - 1, n);
      k := n + j;
      assert tickers[1..][i - 1] == tickers[i];
      assert (head + rest)[k] == rest[j];
    }
  }

  /** Block `a + 1` starts one block after block `a` (a lemma of its own, so that `ScheduleAt` stays small). */
  lemma BlockStart(a: nat, n: nat)
    ensures (a + 1) * n == a * n + n
  {
  }

  /** The quote a history item is stored as. */
  function QuoteDataOf(stockId: nat, item: HistoryItem): QuoteData {
    QuoteData(stockId, item.date, item.openPrice, item.closePrice, item.highPrice, item.lowPrice, item.volume)
  }

  /** `items[i]` is the last item for its date. */
  predicate LastForDate(items: seq<HistoryItem>, i: nat)
    requires i < |items|
  {
    forall j :: i < j < |items| ==> items[j].date != items[i].date
  }

  /**
   * The loop of `fetch_history` that upserts each item as a quote of the
   * stock, stopping at the first write that raises. Only quotes change,
   * and a resident quote keeps its id.
   */
  function SaveQuotes(s: Store, stockId: nat, items: seq<HistoryItem>): (r: (Store, Option<StoreError>))
    ensures r.0.stocks == s.stocks && r.0.insiders == s.insiders
    ensures r.0.trades == s.trades && r.0.nextTradeId == s.nextTradeId
    ensures forall k :: k in s.quotes.rows ==> k in r.0.quotes.rows && r.0.quotes.rows[k].id == s.quotes.rows[k].id
    decreases |items|
  {
    if |items| == 0 then (s, None)
    else
      match UpsertQuote(s, QuoteDataOf(stockId, items[0]))
      case Failure(e) => (s, Some(e))
      case Success((s1, _)) => SaveQuotes(s1, stockId, items[1..])
  }

  /** On a valid database whose stock exists, every quote write succeeds and the database stays valid. */
  lemma {:induction false} SaveQuotesValid(s: Store, stockId: nat, items: seq<HistoryItem>)
    requires stockId in Tables.Ids(s.stocks)
    ensures Valid(s) ==> SaveQuotes(s, stockId, items).1.None? && Valid(SaveQuotes(s, stockId, items).0)
    decreases |items|
  {
    if Valid(s) && |items| > 0 {
      SaveQuotesValid(UpsertQuote(s, QuoteDataOf(stockId, items[0])).value.0, stockId, items[1..]);
    }
  }

  /**
   * When every quote is already resident, the writes succeed without adding
   * a row or drawing an id.
   */
  lemma {:induction false} SaveQuotesResident(s: Store, stockId: nat, items: seq<HistoryItem>)
    requires forall i :: 0 <= i < |items| ==> (stockId, items[i].date) in s.quotes.rows
    ensures SaveQuotes(s, stockId, items).1.None?
    ensures SaveQuotes(s, stockId, items).0.quotes.rows.Keys == s.quotes.rows.Keys
    ensures SaveQuotes(s, stockId, items).0.quotes.nextId == s.quotes.nextId
    decreases |items|
  {
    if |items| > 0 {
      var s1 := UpsertQuote(s, QuoteDataOf(stockId, items[0])).value.0;
      assert forall i :: 1 <= i < |items| ==> items[i] == items[1..][i - 1];
      SaveQuotesResident(s1, stockId, items[1..]);
    }
  }

  /** Writing a history leaves the quotes of other stocks and other dates as they were. */
  lemma {:induction false} SaveQuotesKeepsOthers(s: Store, stockId: nat, items: seq<HistoryItem>, k: (nat, Date))
    requires SaveQuotes(s, stockId, items).1.None?
    requires k in s.quotes.rows && (k.0 != stockId || forall j :: 0 <= j < |items| ==> items[j].date != k.1)
    ensures SaveQuotes(s, stockId, items).0.quotes.rows[k] == s.quotes.rows[k]
    decreases |items|
  {
    if |items| > 0 {
      var s1 := UpsertQuote(s, QuoteDataOf(stockId, items[0])).value.0;
      var tail := items[1..];
      assert k != (stockId, items[0].date);
      assert s1.quotes.rows[k] == s.quotes.rows[k];
      if k.0 == stockId {
        forall j | 0 <= j < |tail|
          ensures tail[j].date != k.1
        {
          assert tail[j] == items[j + 1];
        }
      }
      SaveQuotesKeepsOthers(s1, stockId, tail, k);
    }
  }

  /** After a history is written, each of its dates has a quote of the stock. */
  lemma {:induction false} SaveQuotesCovers(s: Store, stockId: nat, items: seq<HistoryItem>)
    requires SaveQuotes(s, stockId, items).1.None?
    ensures forall i :: 0 <= i < |items| ==> (stockId, items[i].date) in SaveQuotes(s, stockId, items).0.quotes.rows
    decreases |items|
  {
    if |items| > 0 {
      var s1 := UpsertQuote(s, QuoteDataOf(stockId, items[0])).value.0;
      var tail := items[1..];
      SaveQuotesCovers(s1, stockId, tail);
      forall i | 1 <= i < |items|
        ensures (stockId, items[i].date) in SaveQuotes(s1, stockId, tail).0.quotes.rows
      {
        assert items[i] == tail[i - 1];
      }
    }
  }

  /**
   * After a history is written, each of its dates holds the quote of the
   * last item with that date: later rows of the page overwrite earlier ones.
   */
  lemma {:induction false} SaveQuotesLastWins(s: Store, stockId: nat, items: seq<HistoryItem>, i: nat)
    requires SaveQuotes(s, stockId, items).1.None?
    requires i < |items| && LastForDate(items, i)
    ensures (stockId, items[i].date) in SaveQuotes(s, stockId, items).0.quotes.rows
    ensures SaveQuotes(s, stockId, items).0.quotes.rows[(stockId, items[i].date)].data == QuoteDataOf(stockId, items[i])
    decreases |items|
  {
    var u := UpsertQuote(s, QuoteDataOf(stockId, items[0]));
    var s1 := u.value.0;
    var tail := items[1..];
    assert SaveQuotes(s, stockId, items) == SaveQuotes(s1, stockId, tail);
    if i == 0 {
      var first := (stockId, items[0].date);
      assert first in s1.quotes.rows && s1.quotes.rows[first].data == QuoteDataOf(stockId, items[0]);
      forall j | 0 <= j < |tail|
        ensures tail[j].date != items[0].date
      {
        assert tail[j] == items[j + 1];
      }
      SaveQuotesKeepsOthers(s1, stockId, tail, first);
    } else {
      assert items[i] == tail[i - 1];
      forall j | i - 1 < j < |tail|
        ensures tail[j].date != tail[i - 1].date
      {
        assert tail[j] == items[j + 1];
      }
      assert LastForDate(tail, i - 1);
      assert SaveQuotes(s1, stockId, tail).1.None?;
      SaveQuotesLastWins(s1, stockId, tail, i - 1);
    }
  }

  /** The last item with the same date as `items[j]`. */
  lemma LastForDateOf(items: seq<HistoryItem>, j: nat) returns (i: nat)
    requires j < |items|
    ensures j <= i < |items| && items[i].date == items[j].date && LastForDate(items, i)
    decreases |items| - j
  {
    if LastForDate(items, j) {
      i := j;
    } else {
      var j' :| j < j' < |items| && items[j'].date == items[j].date;
      i := LastForDateOf(items, j');
    }
  }

  /**
   * Writing the same history twice stores what writing it once does:
   * every quote is already resident with its final data and id.
   */
  lemma SaveQuotesAgain(s: Store, stockId: nat, items: seq<HistoryItem>)
    requires SaveQuotes(s, stockId, items).1.None?
    ensures var once := SaveQuotes(s, stockId, items).0;
      SaveQuotes(once, stockId, items) == (once, None)
  {
    var once := SaveQuotes(s, stockId, items).0;
    SaveQuotesCovers(s, stockId, items);
    SaveQuotesResident(once, stockId, items);
    var twice := SaveQuotes(once, stockId, items).0;
    forall k | k in once.quotes.rows
      ensures twice.quotes.rows[k] == once.quotes.rows[k]
    {
      SaveQuotesAgainAt(s, stockId, items, k);
    }
    assert twice.quotes.rows == once.quotes.rows;
  }

  /** One quote of a history written twice: the second write leaves it as the first wrote it. */
  lemma SaveQuotesAgainAt(s: Store, stockId: nat, items: seq<HistoryItem>, k: (nat, Date))
    requires SaveQuotes(s, stockId, items).1.None?
    requires SaveQuotes(SaveQuotes(s, stockId, items).0, stockId, items).1.None?
    requires k in SaveQuotes(s, stockId, items).0.quotes.rows
    ensures var once := SaveQuotes(s, stockId, items).0;
      SaveQuotes(once, stockId, items).0.quotes.rows[k] == once.quotes.rows[k]
  {
    var once := SaveQuotes(s, stockId, items).0;
    if k.0 == stockId && exists j :: 0 <= j < |items| && items[j].date == k.1 {
      var j :| 0 <= j < |items| && items[j].date == k.1;
      var i := LastForDateOf(items, j);
      SaveQuotesLastWins(s, stockId, items, i);
      SaveQuotesLastWins(once, stockId, items, i);
    } else {
      SaveQuotesKeepsOthers(once, stockId, items, k);
    }
  }

  /** A trade row stored for `item`, given the ids of its stock and insider. */
  predicate TradeMatches(d: TradeData, stockId: nat, insiderId: nat, item: TradeItem) {
    && d.stockId == stockId
    && d.insiderId == insiderId
    && d.transactionType == item.transactionType
    && OwnerTypeName(d.ownerType) == item.ownerType
    && d.lastDate == item.lastDate
    && d.sharesTraded == RoundToInteger(item.sharesTraded)
    && d.lastPrice == item.lastPrice
    && d.sharesHold == RoundToInteger(item.sharesHold)
  }

  /** The keyword arguments `fetch_trades` passes to `Trade(...)`. */
  function NewTradeOf(stockId: nat, insiderId: nat, item: TradeItem): NewTrade {
    NewTrade(stockId, insiderId, item.transactionType, item.ownerType, item.lastDate,
             item.sharesTraded, item.lastPrice, item.sharesHold)
  }

  /**
   * The write of one trade item that the database refuses, decided from the
   * item alone: an insider row that does not fit, or a trade whose owner
   * type is no member, whose transaction type is too long, or whose share
   * counts round outside the `integer` range.
   */
  function ItemProblem(item: TradeItem): Option<StoreError> {
    if !InsiderFits(InsiderData(item.insider, item.relation)) then Some(DataError)
    else if OwnerTypeFromName(item.ownerType).None? then Some(DataError)
    else if |item.transactionType| > TransactionTypeWidth then Some(DataError)
    else if !FitsInteger(RoundToInteger(item.sharesTraded)) then Some(DataError)
    else if !FitsInteger(RoundToInteger(item.sharesHold)) then Some(DataError)
    else None
  }

  /** The first write of a trade page that the database refuses. */
  function FirstTradeProblem(items: seq<TradeItem>): Option<StoreError> {
    if |items| == 0 then None
    else if ItemProblem(items[0]).Some? then ItemProblem(items[0])
    else FirstTradeProblem(items[1..])
  }

  /**
   * The position of the first refused item, or `|items|` when none is: the
   * first problem of a page is the problem of the item at that position.
   */
  function FirstRefused(items: seq<TradeItem>): (k: nat)
    ensures k <= |items|
    ensures forall j :: 0 <= j < k ==> ItemProblem(items[j]).None?
    ensures k < |items| ==> ItemProblem(items[k]).Some?
    ensures FirstTradeProblem(items) == if k < |items| then ItemProblem(items[k]) else None
  {
    if |items| == 0 then 0
    else if ItemProblem(items[0]).Some? then 0
    else
      var k := FirstRefused(items[1..]);
      assert forall j :: 1 <= j < |items| ==> items[j] == items[1..][j - 1];
      1 + k
  }

  /**
   * The loop of `fetch_trades`: for each item, upsert its insider by name,
   * then append the trade that refers to it; stop at the first write that
   * raises. Trades are only ever appended, and existing ids never change.
   */
  function SaveTrades(s: Store, stockId: nat, items: seq<TradeItem>): (r: (Store, Option<StoreError>))
    ensures r.0.stocks == s.stocks && r.0.quotes == s.quotes
    ensures s.trades <= r.0.trades
    ensures forall n :: n in s.insiders.rows ==> n in r.0.insiders.rows && r.0.insiders.rows[n].id == s.insiders.rows[n].id
    decreases |items|
  {
    if |items| == 0 then (s, None)
    else
      var item := items[0];
      match UpsertInsider(s, InsiderData(item.insider, item.relation))
      case Failure(e) => (s, Some(e))
      case Success((s1, insider)) =>
        match AddTrade(s1, NewTradeOf(stockId, insider.id, item))
        case Failure(e) => (s1, Some(e))
        case Success((s2, _)) => SaveTrades(s2, stockId, items[1..])
  }

  /**
   * On a valid database whose stock exists, the trade writes fail exactly
   * at the first item the columns refuse, and the database stays valid.
   */
  lemma {:induction false} SaveTradesValid(s: Store, stockId: nat, items: seq<TradeItem>)
    requires stockId in Tables.Ids(s.stocks)
    ensures Valid(s) ==> SaveTrades(s, stockId, items).1 == FirstTradeProblem(items)
    ensures Valid(s) ==> Valid(SaveTrades(s, stockId, items).0)
    decreases |items|
  {
    if Valid(s) && |items| > 0 {
      var item := items[0];
      var u := UpsertInsider(s, InsiderData(item.insider, item.relation));
      if u.Success? {
        var (s1, insider) := u.value;
        var a := AddTrade(s1, NewTradeOf(stockId, insider.id, item));
        if a.Success? {
          SaveTradesValid(a.value.0, stockId, items[1..]);
        }
      }
    }
  }

  /**
   * On a valid database whose stock exists, the trade writes stop at the
   * first refused item: one trade is appended for each item before it, and
   * when that item's insider fits, its insider row was still written.
   */
  lemma {:induction false} SaveTradesStopsAt(s: Store, stockId: nat, items: seq<TradeItem>)
    requires Valid(s) && stockId in Tables.Ids(s.stocks)
    ensures var k := FirstRefused(items);
      var r := SaveTrades(s, stockId, items).0;
      && Appended(s, r, stockId, items[..k])
      && (k < |items| && InsiderFits(InsiderData(items[k].insider, items[k].relation)) ==>
            && items[k].insider in r.insiders.rows
            && r.insiders.rows[items[k].insider].data == InsiderData(items[k].insider, items[k].relation))
    decreases |items|
  {
    if |items| > 0 {
      if ItemProblem(items[0]).Some? {
        StopsAtHead(s, stockId, items);
      } else {
        var (s1, insider) := UpsertInsider(s, InsiderData(items[0].insider, items[0].relation)).value;
        var s2 := AddTrade(s1, NewTradeOf(stockId, insider.id, items[0])).value.0;
        SaveTradesStopsAt(s2, stockId, items[1..]);
        StopsPastHead(s, s1, insider, s2, stockId, items);
      }
    }
  }

  /** A refused first item: nothing is appended, and its insider row is written when it fits. */
  lemma StopsAtHead(s: Store, stockId: nat, items: seq<TradeItem>)
    requires Valid(s) && stockId in Tables.Ids(s.stocks)
    requires |items| > 0 && ItemProblem(items[0]).Some?
    ensures var r := SaveTrades(s, stockId, items).0;
      && Appended(s, r, stockId, items[..0])
      && (InsiderFits(InsiderData(items[0].insider, items[0].relation)) ==>
            && items[0].insider in r.insiders.rows
            && r.insiders.rows[items[0].insider].data == InsiderData(items[0].insider, items[0].relation))
  {
  }

  /** An accepted first item: its trade comes first, then the writes of the rest up to their stop. */
  lemma StopsPastHead(s: Store, s1: Store, insider: Tables.Row<InsiderData>, s2: Store, stockId: nat, items: seq<TradeItem>)
    requires |items| > 0 && ItemProblem(items[0]).None?
    requires UpsertInsider(s, InsiderData(items[0].insider, items[0].relation)) == Success((s1, insider))
    requires AddTrade(s1, NewTradeOf(stockId, insider.id, items[0])).Success?
    requires AddTrade(s1, NewTradeOf(stockId, insider.id, items[0])).value.0 == s2
    requires var tail := items[1..];
      var k := FirstRefused(tail);
      var r := SaveTrades(s2, stockId, tail).0;
      && Appended(s2, r, stockId, tail[..k])
      && (k < |tail| && InsiderFits(InsiderData(tail[k].insider, tail[k].relation)) ==>
            && tail[k].insider in r.insiders.rows
            && r.insiders.rows[tail[k].insider].data == InsiderData(tail[k].insider, tail[k].relation))
    ensures var k := FirstRefused(items);
      var r := SaveTrades(s, stockId, items).0;
      && Appended(s, r, stockId, items[..k])
      && (k < |items| && InsiderFits(InsiderData(items[k].insider, items[k].relation)) ==>
            && items[k].insider in r.insiders.rows
            && r.insiders.rows[items[k].insider].data == InsiderData(items[k].insider, items[k].relation))
  {
    var item := items[0];
    var tail := items[1..];
    var k := FirstRefused(tail);
    assert FirstRefused(items) == k + 1;
    var r := SaveTrades(s2, stockId, tail).0;
    assert SaveTrades(s, stockId, items).0 == r;
    PrefixTail(items, k);
    if k < |tail| {
      assert items[k + 1] == tail[k];
    }
    assert item.insider in s1.insiders.rows && s1.insiders.rows[item.insider].id == insider.id;
    FirstTradeStored(s1, stockId, insider.id, item, r);
    AppendedCons(s, s2, r, stockId, items[..k + 1]);
  }

  /** Dropping the head of a prefix is taking the prefix of the tail (a lemma of its own, so that `StopsPastHead` stays small). */
  lemma PrefixTail<T>(xs: seq<T>, k: nat)
    requires k < |xs|
    ensures xs[..k + 1][1..] == xs[1..][..k]
  {
  }

  /**
   * When every write succeeds, one trade is appended per item, in item
   * order, each referring to the stock and to its insider's row.
   */
  lemma {:induction false} SaveTradesAppends(s: Store, stockId: nat, items: seq<TradeItem>)
    requires SaveTrades(s, stockId, items).1.None?
    ensures Appended(s, SaveTrades(s, stockId, items).0, stockId, items)
    decreases |items|
  {
    if |items| > 0 {
      var item := items[0];
      var u := UpsertInsider(s, InsiderData(item.insider, item.relation));
      var s1 := u.value.0;
      var insider := u.value.1;
      var a := AddTrade(s1, NewTradeOf(stockId, insider.id, item));
      var s2 := a.value.0;
      var tail := items[1..];
      assert SaveTrades(s, stockId, items) == SaveTrades(s2, stockId, tail);
      var r := SaveTrades(s2, stockId, tail).0;
      assert SaveTrades(s2, stockId, tail).1.None?;
      SaveTradesAppends(s2, stockId, tail);
      assert item.insider in s1.insiders.rows && s1.insiders.rows[item.insider].id == insider.id;
      assert a.Success? && s2.trades <= r.trades;
      FirstTradeStored(s1, stockId, insider.id, item, r);
      AppendedCons(s, s2, r, stockId, items);
    }
  }

  /**
   * `after` holds one trade per item past the trades of `before`, in item
   * order, each referring to the stock and to its insider's row in `after`.
   */
  predicate Appended(before: Store, after: Store, stockId: nat, items: seq<TradeItem>) {
    && |after.trades| == |before.trades| + |items|
    && forall k :: 0 <= k < |items| ==>
         && items[k].insider in after.insiders.rows
         && TradeMatches(after.trades[|before.trades| + k].data, stockId, after.insiders.rows[items[k].insider].id, items[k])
  }

  /** One item's trade in an appended batch. */
  lemma AppendedAt(before: Store, after: Store, stockId: nat, items: seq<TradeItem>, j: nat)
    requires Appended(before, after, stockId, items) && j < |items|
    ensures items[j].insider in after.insiders.rows
    ensures TradeMatches(after.trades[|before.trades| + j].data, stockId, after.insiders.rows[items[j].insider].id, items[j])
  {
  }

  /** A batch is appended when its first trade is, right before the rest. */
  lemma AppendedCons(before: Store, mid: Store, after: Store, stockId: nat, items: seq<TradeItem>)
    requires |items| > 0 && |mid.trades| == |before.trades| + 1
    requires Appended(mid, after, stockId, items[1..])
    requires items[0].insider in after.insiders.rows
    requires TradeMatches(after.trades[|before.trades|].data, stockId, after.insiders.rows[items[0].insider].id, items[0])
    ensures Appended(before, after, stockId, items)
  {
    forall k | 1 <= k < |items|
      ensures items[k].insider in after.insiders.rows
      ensures TradeMatches(after.trades[|before.trades| + k].data, stockId, after.insiders.rows[items[k].insider].id, items[k])
    {
      AppendedAt(mid, after, stockId, items[1..], k - 1);
    }
  }

  /** The trade appended for an item survives later writes that keep insider ids and append only. */
  lemma FirstTradeStored(s1: Store, stockId: nat, insiderId: nat, item: TradeItem, r: Store)
    requires item.insider in s1.insiders.rows && s1.insiders.rows[item.insider].id == insiderId
    requires AddTrade(s1, NewTradeOf(stockId, insiderId, item)).Success?
    requires AddTrade(s1, NewTradeOf(stockId, insiderId, item)).value.0.trades <= r.trades
    requires forall n :: n in s1.insiders.rows ==> n in r.insiders.rows && r.insiders.rows[n].id == s1.insiders.rows[n].id
    ensures item.insider in r.insiders.rows
    ensures TradeMatches(r.trades[|s1.trades|].data, stockId, r.insiders.rows[item.insider].id, item)
  {
    var a := AddTrade(s1, NewTradeOf(stockId, insiderId, item)).value;
    assert r.trades[|s1.trades|] == a.0.trades[|s1.trades|] == a.1;
  }

  /**
   * `fetch_history`: parse the history page, upsert the stock, then upsert
   * every item as a quote of it. Reports the number of parsed items.
   */
  function RunHistory(s: Store, src: Source, ticker: string): (r: (Store, Outcome))
    ensures Valid(s) ==> Valid(r.0) && r.1 == HistoryOutcome(src, ticker)
    ensures r.1.Failed? && r.1.error.ParseFailed? ==> r.0 == s
    ensures Valid(s) && r.1.Failed? ==> r.0 == s
    ensures r.0.insiders == s.insiders && r.0.trades == s.trades
    ensures forall t :: t in s.stocks.rows ==> t in r.0.stocks.rows && r.0.stocks.rows[t].id == s.stocks.rows[t].id
  {
    match ParseHistory(src.web, src.conv, ticker)
    case Failure(e) => (s, Failed(ParseFailed(e)))
    case Success(items) =>
      match UpsertStock(s, ticker)
      case Failure(e) => (s, Failed(WriteFailed(e)))
      case Success((s1, stock)) =>
        var (s2, problem) := SaveQuotes(s1, stock.id, items);
        SaveQuotesValid(s1, stock.id, items);
        match problem
        case Some(e) => (s2, Failed(WriteFailed(e)))
        case None => (s2, Collected(|items|))
  }

  /**
   * `fetch_trades`: parse the trade page, upsert the stock, then for each
   * item upsert the insider and append the trade. Reports the number of
   * parsed items.
   */
  function RunTrades(s: Store, src: Source, ticker: string, page: int): (r: (Store, Outcome))
    ensures Valid(s) ==> Valid(r.0) && r.1 == TradesOutcome(src, ticker, page)
    ensures r.1.Failed? && r.1.error.ParseFailed? ==> r.0 == s
    ensures r.0.quotes == s.quotes && s.trades <= r.0.trades
    ensures forall t :: t in s.stocks.rows ==> t in r.0.stocks.rows && r.0.stocks.rows[t].id == s.stocks.rows[t].id
    ensures forall n :: n in s.insiders.rows ==> n in r.0.insiders.rows && r.0.insiders.rows[n].id == s.insiders.rows[n].id
  {
    match ParseTrades(src.web, src.conv, ticker, page)
    case Failure(e) => (s, Failed(ParseFailed(e)))
    case Success(items) =>
      match UpsertStock(s, ticker)
      case Failure(e) => (s, Failed(WriteFailed(e)))
      case Success((s1, stock)) =>
        var (s2, problem) := SaveTrades(s1, stock.id, items);
        SaveTradesValid(s1, stock.id, items);
        match problem
        case Some(e) => (s2, Failed(WriteFailed(e)))
        case None => (s2, Collected(|items|))
  }

  /**
   * What a history page leaves for a stock: a quote under every item's
   * date, holding the data of the last item with that date.
   */
  predicate HistoryStored(s: Store, stockId: nat, items: seq<HistoryItem>) {
    && (forall j :: 0 <= j < |items| ==> (stockId, items[j].date) in s.quotes.rows)
    && (forall i :: 0 <= i < |items| && LastForDate(items, i) ==>
          s.quotes.rows[(stockId, items[i].date)].data == QuoteDataOf(stockId, items[i]))
  }

  /**
   * A collected history task leaves its stock's row, stores the parsed
   * history under it, and leaves every quote of every other stock as it was.
   */
  lemma RunHistoryStores(s: Store, src: Source, ticker: string)
    requires Valid(s) && RunHistory(s, src, ticker).1.Collected?
    ensures var r := RunHistory(s, src, ticker).0;
      && ParseHistory(src.web, src.conv, ticker).Success?
      && ticker in r.stocks.rows
      && HistoryStored(r, r.stocks.rows[ticker].id, ParseHistory(src.web, src.conv, ticker).value)
      && forall k :: k in s.quotes.rows && k.0 != r.stocks.rows[ticker].id ==>
           k in r.quotes.rows && r.quotes.rows[k] == s.quotes.rows[k]
  {
    var items := ParseHistory(src.web, src.conv, ticker).value;
    var (s1, stock) := UpsertStock(s, ticker).value;
    SaveQuotesValid(s1, stock.id, items);
    var r := SaveQuotes(s1, stock.id, items).0;
    assert RunHistory(s, src, ticker).0 == r;
    SaveQuotesCovers(s1, stock.id, items);
    forall i | 0 <= i < |items| && LastForDate(items, i)
      ensures r.quotes.rows[(stock.id, items[i].date)].data == QuoteDataOf(stock.id, items[i])
    {
      SaveQuotesLastWins(s1, stock.id, items, i);
    }
    forall k | k in s.quotes.rows && k.0 != stock.id
      ensures k in r.quotes.rows && r.quotes.rows[k] == s.quotes.rows[k]
    {
      SaveQuotesKeepsOthers(s1, stock.id, items, k);
    }
  }

  /**
   * A collected trade task leaves its stock's row and appends one trade per
   * parsed item, in page order, each referring to the stock and its insider.
   */
  lemma RunTradesStores(s: Store, src: Source, ticker: string, page: int)
    requires Valid(s) && RunTrades(s, src, ticker, page).1.Collected?
    ensures var r := RunTrades(s, src, ticker, page).0;
      && ParseTrades(src.web, src.conv, ticker, page).Success?
      && ticker in r.stocks.rows
      && Appended(s, r, r.stocks.rows[ticker].id, ParseTrades(src.web, src.conv, ticker, page).value)
  {
    var items := ParseTrades(src.web, src.conv, ticker, page).value;
    var (s1, stock) := UpsertStock(s, ticker).value;
    SaveTradesValid(s1, stock.id, items);
    var r := SaveTrades(s1, stock.id, items).0;
    assert RunTrades(s, src, ticker, page).0 == r;
    SaveTradesAppends(s1, stock.id, items);
    assert r.stocks.rows[ticker].id == stock.id;
    AppendedFrom(s1, s, r, stock.id, items);
  }

  /** Whether a batch was appended depends on the earlier database only through its number of trades. */
  lemma AppendedFrom(before: Store, before': Store, after: Store, stockId: nat, items: seq<TradeItem>)
    requires Appended(before, after, stockId, items) && |before'.trades| == |before.trades|
    ensures Appended(before', after, stockId, items)
  {
  }

  /**
   * A stored history survives any later task: a task for another ticker
   * writes only under that ticker's stock id, and a task for the same
   * ticker stores the same page again.
   */
  lemma RunTaskKeepsHistory(s: Store, src: Source, task: Task, ticker: string, items: seq<HistoryItem>)
    requires Valid(s) && ticker in s.stocks.rows
    requires ParseHistory(src.web, src.conv, ticker) == Success(items)
    requires HistoryStored(s, s.stocks.rows[ticker].id, items)
    ensures var r := RunTask(s, src, task).0;
      && ticker in r.stocks.rows && r.stocks.rows[ticker].id == s.stocks.rows[ticker].id
      && HistoryStored(r, s.stocks.rows[ticker].id, items)
  {
    var id := s.stocks.rows[ticker].id;
    var r := RunTask(s, src, task);
    if task.HistoryTask? && r.1.Collected? {
      var t := task.ticker;
      RunHistoryStores(s, src, t);
      if t != ticker {
        assert r.0.stocks.rows[t].id != id by {
          assert Tables.Valid(r.0.stocks, StockKey);
        }
        forall j | 0 <= j < |items|
          ensures (id, items[j].date) in r.0.quotes.rows
          ensures r.0.quotes.rows[(id, items[j].date)] == s.quotes.rows[(id, items[j].date)]
        {
        }
      }
    }
  }

  /** A stored history survives a run of later tasks. */
  lemma {:induction false} RunAllKeepsHistory(s: Store, src: Source, tasks: seq<Task>, ticker: string, items: seq<HistoryItem>)
    requires Valid(s) && ticker in s.stocks.rows
    requires ParseHistory(src.web, src.conv, ticker) == Success(items)
    requires HistoryStored(s, s.stocks.rows[ticker].id, items)
    ensures var r := RunAll(s, src, tasks).0;
      && ticker in r.stocks.rows && r.stocks.rows[ticker].id == s.stocks.rows[ticker].id
      && HistoryStored(r, s.stocks.rows[ticker].id, items)
    decreases |tasks|
  {
    if |tasks| > 0 {
      RunTaskKeepsHistory(s, src, tasks[0], ticker, items);
      RunAllKeepsHistory(RunTask(s, src, tasks[0]).0, src, tasks[1..], ticker, items);
    }
  }

  /** A run's final database is that of the rest of the run after the first task. */
  lemma RunAllFirst(s: Store, src: Source, tasks: seq<Task>)
    requires |tasks| > 0
    ensures RunAll(s, src, tasks).0 == RunAll(RunTask(s, src, tasks[0]).0, src, tasks[1..]).0
  {
  }

  /** A collecting history task run as a task stores its history. */
  lemma FirstHistoryStores(s: Store, src: Source, ticker: string)
    requires Valid(s) && HistoryOutcome(src, ticker).Collected?
    ensures var r := RunTask(s, src, HistoryTask(ticker)).0;
      && Valid(r)
      && ParseHistory(src.web, src.conv, ticker).Success?
      && ticker in r.stocks.rows
      && HistoryStored(r, r.stocks.rows[ticker].id, ParseHistory(src.web, src.conv, ticker).value)
  {
    RunHistoryStores(s, src, ticker);
  }

  /** A collecting trade task run as a task stores its page's trades right after the earlier ones. */
  lemma FirstTradesStored(s: Store, src: Source, ticker: string, page: int)
    requires Valid(s) && TradesOutcome(src, ticker, page).Collected?
    ensures var r := RunTask(s, src, TradesTask(ticker, page)).0;
      && ParseTrades(src.web, src.conv, ticker, page).Success?
      && ticker in r.stocks.rows
      && TradesStoredAt(r, |s.trades|, r.stocks.rows[ticker].id, ParseTrades(src.web, src.conv, ticker, page).value)
  {
    RunTradesStores(s, src, ticker, page);
    var r := RunTrades(s, src, ticker, page).0;
  }

  /** A history task of a run that collects leaves its history in the run's final database. */
  lemma RunAllStoresHistory(s: Store, src: Source, tasks: seq<Task>, j: nat, ticker: string)
    requires Valid(s) && j < |tasks| && tasks[j] == HistoryTask(ticker)
    requires HistoryOutcome(src, ticker).Collected?
    ensures var r := RunAll(s, src, tasks).0;
      && ParseHistory(src.web, src.conv, ticker).Success?
      && ticker in r.stocks.rows
      && HistoryStored(r, r.stocks.rows[ticker].id, ParseHistory(src.web, src.conv, ticker).value)
  {
    RunAllSplit(s, src, tasks, j);
    var mid := RunAll(s, src, tasks[..j]).0;
    FirstHistoryStores(mid, src, ticker);
    RunAllKeepsHistory(RunTask(mid, src, HistoryTask(ticker)).0, src, tasks[j + 1..], ticker, ParseHistory(src.web, src.conv, ticker).value);
  }

  /**
   * A run is the run of the tasks before position `j`, then task `j`, then
   * the run of the tasks after it.
   */
  lemma {:induction false} RunAllSplit(s: Store, src: Source, tasks: seq<Task>, j: nat)
    requires j < |tasks|
    ensures RunAll(s, src, tasks).0 == RunAll(RunTask(RunAll(s, src, tasks[..j]).0, src, tasks[j]).0, src, tasks[j + 1..]).0
    decreases j
  {
    RunAllFirst(s, src, tasks);
    if j == 0 {
      assert tasks[..0] == [];
      assert tasks[0 + 1..] == tasks[1..];
    } else {
      var first := RunTask(s, src, tasks[0]).0;
      RunAllSplit(first, src, tasks[1..], j - 1);
      assert tasks[1..][j - 1] == tasks[j];
      SplitTail(tasks, j);
      RunAllFirst(s, src, tasks[..j]);
    }
  }

  /** The prefix and suffix around position `j` seen from the tail. */
  lemma SplitTail<T>(xs: seq<T>, j: nat)
    requires 0 < j < |xs|
    ensures xs[1..][..j - 1] == xs[..j][1..]
    ensures xs[1..][j - 1 + 1..] == xs[j + 1..]
    ensures xs[..j][0] == xs[0]
  {
  }

  /**
   * Fetching a history again changes nothing: the stock and every quote
   * are upserted over themselves, so history refreshes are idempotent.
   */
  lemma RunHistoryAgain(s: Store, src: Source, ticker: string)
    requires Valid(s) && RunHistory(s, src, ticker).1.Collected?
    ensures var once := RunHistory(s, src, ticker);
      RunHistory(once.0, src, ticker) == once
  {
    var items := ParseHistory(src.web, src.conv, ticker).value;
    var (s1, stock) := UpsertStock(s, ticker).value;
    SaveQuotesValid(s1, stock.id, items);
    var once := SaveQuotes(s1, stock.id, items).0;
    UpsertStockAgain(once, ticker);
    SaveQuotesAgain(s1, stock.id, items);
  }

  /** Two trade rows that match the same item under the same ids are equal. */
  lemma TradeMatchesUnique(d1: TradeData, d2: TradeData, stockId: nat, insiderId: nat, item: TradeItem)
    requires TradeMatches(d1, stockId, insiderId, item) && TradeMatches(d2, stockId, insiderId, item)
    ensures d1 == d2
  {
    OwnerTypeMembers();
    assert OwnerTypeFromName(OwnerTypeName(d1.ownerType)) == OwnerTypeFromName(OwnerTypeName(d2.ownerType));
  }

  /** The data fields of a run of trade rows, in order. */
  function TradeDataSeq(rows: seq<Tables.Row<TradeData>>): (r: seq<TradeData>)
    ensures |r| == |rows|
    ensures forall k :: 0 <= k < |rows| ==> r[k] == rows[k].data
  {
    seq(|rows|, k requires 0 <= k < |rows| => rows[k].data)
  }

  /** Two batches appended for the same items, under the same insider ids, hold the same data. */
  lemma SameBatch(s: Store, once: Store, twice: Store, stockId: nat, items: seq<TradeItem>)
    requires Appended(s, once, stockId, items) && Appended(once, twice, stockId, items)
    requires forall n :: n in once.insiders.rows ==> n in twice.insiders.rows && twice.insiders.rows[n].id == once.insiders.rows[n].id
    ensures TradeDataSeq(twice.trades[|once.trades|..]) == TradeDataSeq(once.trades[|s.trades|..])
  {
    var first := TradeDataSeq(once.trades[|s.trades|..]);
    var second := TradeDataSeq(twice.trades[|once.trades|..]);
    forall k | 0 <= k < |items|
      ensures second[k] == first[k]
    {
      assert second[k] == twice.trades[|once.trades| + k].data;
      assert first[k] == once.trades[|s.trades| + k].data;
      TradeMatchesUnique(second[k], first[k], stockId, once.insiders.rows[items[k].insider].id, items[k]);
    }
  }

  /** Writing the same trade items twice appends the same trade data twice. */
  lemma SaveTradesAgain(s: Store, stockId: nat, items: seq<TradeItem>)
    requires Valid(s) && stockId in Tables.Ids(s.stocks)
    requires SaveTrades(s, stockId, items).1.None?
    ensures var once := SaveTrades(s, stockId, items).0;
      var twice := SaveTrades(once, stockId, items);
      && twice.1.None?
      && |once.trades| == |s.trades| + |items|
      && |twice.0.trades| == |once.trades| + |items|
      && TradeDataSeq(twice.0.trades[|once.trades|..]) == TradeDataSeq(once.trades[|s.trades|..])
  {
    var once := SaveTrades(s, stockId, items).0;
    SaveTradesValid(s, stockId, items);
    SaveTradesAppends(s, stockId, items);
    SaveTradesValid(once, stockId, items);
    var twice := SaveTrades(once, stockId, items).0;
    SaveTradesAppends(once, stockId, items);
    SameBatch(s, once, twice, stockId, items);
  }

  /**
   * Fetching a trade page again appends every trade a second time: trades
   * have no natural key, so a re-run duplicates them with new ids.
   */
  lemma RunTradesAgain(s: Store, src: Source, ticker: string, page: int)
    requires Valid(s) && RunTrades(s, src, ticker, page).1.Collected?
    ensures var once := RunTrades(s, src, ticker, page);
      var twice := RunTrades(once.0, src, ticker, page);
      && twice.1 == once.1
      && |once.0.trades| == |s.trades| + once.1.count
      && |twice.0.trades| == |once.0.trades| + once.1.count
      && TradeDataSeq(twice.0.trades[|once.0.trades|..]) == TradeDataSeq(once.0.trades[|s.trades|..])
  {
    var items := ParseTrades(src.web, src.conv, ticker, page).value;
    var (s1, stock) := UpsertStock(s, ticker).value;
    SaveTradesValid(s1, stock.id, items);
    var once := SaveTrades(s1, stock.id, items).0;
    UpsertStockAgain(once, ticker);
    SaveTradesAgain(s1, stock.id, items);
  }

  /**
   * The outcome a task reports, computed without the database: it depends
   * only on the task and on what the site serves.
   */
  function TaskOutcome(src: Source, task: Task): Outcome {
    match task
    case HistoryTask(ticker) => HistoryOutcome(src, ticker)
    case TradesTask(ticker, page) => TradesOutcome(src, ticker, page)
  }

  function HistoryOutcome(src: Source, ticker: string): Outcome {
    match ParseHistory(src.web, src.conv, ticker)
    case Failure(e) => Failed(ParseFailed(e))
    case Success(items) =>
      if |ticker| > TickerWidth then Failed(WriteFailed(DataError)) else Collected(|items|)
  }

  function TradesOutcome(src: Source, ticker: string, page: int): Outcome {
    match ParseTrades(src.web, src.conv, ticker, page)
    case Failure(e) => Failed(ParseFailed(e))
    case Success(items) =>
      if |ticker| > TickerWidth then Failed(WriteFailed(DataError))
      else match FirstTradeProblem(items)
        case Some(e) => Failed(WriteFailed(e))
        case None => Collected(|items|)
  }

  /**
   * One task against the database. On a valid database the task keeps it
   * valid and reports exactly `TaskOutcome`, whatever the database held
   * before: no task's outcome depends on what other tasks did.
   */
  function RunTask(s: Store, src: Source, task: Task): (r: (Store, Outcome))
    ensures Valid(s) ==> Valid(r.0) && r.1 == TaskOutcome(src, task)
    ensures s.trades <= r.0.trades
    ensures forall t :: t in s.stocks.rows ==> t in r.0.stocks.rows && r.0.stocks.rows[t].id == s.stocks.rows[t].id
    ensures forall n :: n in s.insiders.rows ==> n in r.0.insiders.rows && r.0.insiders.rows[n].id == s.insiders.rows[n].id
  {
    match task
    case HistoryTask(ticker) => RunHistory(s, src, ticker)
    case TradesTask(ticker, page) => RunTrades(s, src, ticker, page)
  }

  /** All tasks, one after another; a failed task is recorded and the run goes on. */
  function RunAll(s: Store, src: Source, tasks: seq<Task>): (r: (Store, seq<Outcome>))
    ensures |r.1| == |tasks|
    ensures s.trades <= r.0.trades
    ensures forall t :: t in s.stocks.rows ==> t in r.0.stocks.rows && r.0.stocks.rows[t].id == s.stocks.rows[t].id
    ensures Valid(s) ==> Valid(r.0) && forall i :: 0 <= i < |tasks| ==> r.1[i] == TaskOutcome(src, tasks[i])
    decreases |tasks|
  {
    if |tasks| == 0 then (s, [])
    else
      var first := RunTask(s, src, tasks[0]);
      var rest := RunAll(first.0, src, tasks[1..]);
      var outcomes := [first.1] + rest.1;
      assert Valid(s) ==> forall i :: 0 <= i < |tasks| ==> outcomes[i] == TaskOutcome(src, tasks[i]) by {
        if Valid(s) {
          forall i | 0 <= i < |tasks|
            ensures outcomes[i] == TaskOutcome(src, tasks[i])
          {
            if i > 0 {
              assert tasks[i] == tasks[1..][i - 1];
              assert outcomes[i] == rest.1[i - 1];
            }
          }
        }
      }
      (rest.0, outcomes)
  }

  /**
   * The number of outcomes that succeeded and the number that failed: the
   * counts of the positions holding a collected and a failed outcome.
   */
  function Tally(outcomes: seq<Outcome>): (r: (nat, nat))
    ensures r.0 == |set i | 0 <= i < |outcomes| && outcomes[i].Collected?|
    ensures r.1 == |set i | 0 <= i < |outcomes| && outcomes[i].Failed?|
    ensures r.0 + r.1 == |outcomes|
    ensures r.1 == 0 <==> forall i :: 0 <= i < |outcomes| ==> outcomes[i].Collected?
  {
    if |outcomes| == 0 then (0, 0)
    else
      var n := |outcomes| - 1;
      var (ok, failed) := Tally(outcomes[..n]);
      TallyLast(outcomes);
      if outcomes[n].Collected? then (ok + 1, failed) else (ok, failed + 1)
  }

  /** The positions of each kind of outcome grow by the last position, for its kind. */
  lemma TallyLast(outcomes: seq<Outcome>)
    requires |outcomes| > 0
    ensures var n := |outcomes| - 1;
      && (set i | 0 <= i < |outcomes| && outcomes[i].Collected?)
           == (set i | 0 <= i < n && outcomes[..n][i].Collected?) + (if outcomes[n].Collected? then {n} else {})
      && (set i | 0 <= i < |outcomes| && outcomes[i].Failed?)
           == (set i | 0 <= i < n && outcomes[..n][i].Failed?) + (if outcomes[n].Failed? then {n} else {})
      && (forall i :: 0 <= i < |outcomes| ==> outcomes[i].Collected?)
           == (outcomes[n].Collected? && forall i :: 0 <= i < n ==> outcomes[..n][i].Collected?)
  {
    var n := |outcomes| - 1;
    assert forall i :: 0 <= i < n ==> outcomes[..n][i] == outcomes[i];
  }

  /**
   * `fetch`: submit the schedule and wait for every task; the two counts are
   * this model's summary of the logged outcomes. There is
   * one outcome per scheduled task, and on a valid database each outcome is
   * the task's own, untouched by the failure of any other.
   */
  function Fetch(s: Store, src: Source, tickers: seq<string>, maxTradesPages: int): (r: (Store, Report))
    ensures |r.1.outcomes| == |Schedule(tickers, maxTradesPages)| == |tickers| * (1 + PageBudget(maxTradesPages))
    ensures r.1.succeeded == |set i | 0 <= i < |r.1.outcomes| && r.1.outcomes[i].Collected?|
    ensures r.1.failed == |set i | 0 <= i < |r.1.outcomes| && r.1.outcomes[i].Failed?|
    ensures r.1.succeeded + r.1.failed == |r.1.outcomes|
    ensures s.trades <= r.0.trades
    ensures Valid(s) ==> Valid(r.0)
    ensures Valid(s) ==> forall i :: 0 <= i < |r.1.outcomes| ==>
      r.1.outcomes[i] == TaskOutcome(src, Schedule(tickers, maxTradesPages)[i])
  {
    var run := RunAll(s, src, Schedule(tickers, maxTradesPages));
    var tally := Tally(run.1);
    ScheduleLength(tickers, maxTradesPages);
    (run.0, Report(run.1, tally.0, tally.1))
  }

  /**
   * The trades from position `start` on record `items`, in order, each
   * referring to the stock and to its insider's row.
   */
  predicate TradesStoredAt(s: Store, start: nat, stockId: nat, items: seq<TradeItem>) {
    && start + |items| <= |s.trades|
    && forall k :: 0 <= k < |items| ==>
         && items[k].insider in s.insiders.rows
         && TradeMatches(s.trades[start + k].data, stockId, s.insiders.rows[items[k].insider].id, items[k])
  }

  /** Stored trades survive a run of later tasks: trades are only appended and stock and insider ids stay. */
  lemma {:induction false} RunAllKeepsTrades(s: Store, src: Source, tasks: seq<Task>, start: nat, ticker: string, items: seq<TradeItem>)
    requires ticker in s.stocks.rows
    requires TradesStoredAt(s, start, s.stocks.rows[ticker].id, items)
    ensures var r := RunAll(s, src, tasks).0;
      && ticker in r.stocks.rows && r.stocks.rows[ticker].id == s.stocks.rows[ticker].id
      && TradesStoredAt(r, start, s.stocks.rows[ticker].id, items)
    decreases |tasks|
  {
    if |tasks| > 0 {
      var first := RunTask(s, src, tasks[0]).0;
      forall x | start <= x < start + |items|
        ensures first.trades[x] == s.trades[x]
      {
      }
      RunAllFirst(s, src, tasks);
      RunAllKeepsTrades(first, src, tasks[1..], start, ticker, items);
    }
  }

  /** A trade task of a run that collects leaves its page's trades in the run's final database. */
  lemma RunAllStoresTrades(s: Store, src: Source, tasks: seq<Task>, j: nat, ticker: string, page: int) returns (start: nat)
    requires Valid(s) && j < |tasks| && tasks[j] == TradesTask(ticker, page)
    requires TradesOutcome(src, ticker, page).Collected?
    ensures var r := RunAll(s, src, tasks).0;
      && ParseTrades(src.web, src.conv, ticker, page).Success?
      && ticker in r.stocks.rows
      && TradesStoredAt(r, start, r.stocks.rows[ticker].id, ParseTrades(src.web, src.conv, ticker, page).value)
  {
    RunAllSplit(s, src, tasks, j);
    var mid := RunAll(s, src, tasks[..j]).0;
    FirstTradesStored(mid, src, ticker, page);
    start := |mid.trades|;
    RunAllKeepsTrades(RunTask(mid, src, TradesTask(ticker, page)).0, src, tasks[j + 1..], start, ticker, ParseTrades(src.web, src.conv, ticker, page).value);
  }


  /**
   * On a valid database, every ticker whose history task collects ends the
   * fetch with its stock row and that page's quotes stored, whatever the
   * other tasks did.
   */
  lemma FetchStoresHistory(s: Store, src: Source, tickers: seq<string>, maxTradesPages: int, i: nat)
    requires Valid(s) && i < |tickers| && HistoryOutcome(src, tickers[i]).Collected?
    ensures var r := Fetch(s, src, tickers, maxTradesPages).0;
      && ParseHistory(src.web, src.conv, tickers[i]).Success?
      && tickers[i] in r.stocks.rows
      && HistoryStored(r, r.stocks.rows[tickers[i]].id, ParseHistory(src.web, src.conv, tickers[i]).value)
  {
    var k := ScheduleAt(tickers, maxTradesPages, i, 0);
    RunAllStoresHistory(s, src, Schedule(tickers, maxTradesPages), k, tickers[i]);
  }

  /**
   * On a valid database, every trade page that is collected ends the fetch
   * with its trades stored, in page order, from some position on.
   */
  lemma FetchStoresTrades(s: Store, src: Source, tickers: seq<string>, maxTradesPages: int, i: nat, p: nat) returns (start: nat)
    requires Valid(s) && i < |tickers| && 1 <= p <= PageBudget(maxTradesPages)
    requires TradesOutcome(src, tickers[i], p).Collected?
    ensures var r := Fetch(s, src, tickers, maxTradesPages).0;
      && ParseTrades(src.web, src.conv, tickers[i], p).Success?
      && tickers[i] in r.stocks.rows
      && TradesStoredAt(r, start, r.stocks.rows[tickers[i]].id, ParseTrades(src.web, src.conv, tickers[i], p).value)
  {
    var k := ScheduleAt(tickers, maxTradesPages, i, p);
    start := RunAllStoresTrades(s, src, Schedule(tickers, maxTradesPages), k, tickers[i], p);
  }

  /**
   * In a fetch on a valid database, ticker `i`'s history outcome and each of
   * its trade-page outcomes sit at their place in the schedule and are
   * decided by that ticker and page alone.
   */
  lemma FetchOutcomeAt(s: Store, src: Source, tickers: seq<string>, maxTradesPages: int, i: nat, p: nat) returns (k: nat)
    requires Valid(s) && i < |tickers| && p <= PageBudget(maxTradesPages)
    ensures k == i * (1 + PageBudget(maxTradesPages)) + p
    ensures var outcomes := Fetch(s, src, tickers, maxTradesPages).1.outcomes;
      && k < |outcomes|
      && outcomes[k] == if p == 0 then HistoryOutcome(src, tickers[i]) else TradesOutcome(src, tickers[i], p)
  {
    k := ScheduleAt(tickers, maxTradesPages, i, p);
    var task := TickerTasks(tickers[i], PageBudget(maxTradesPages))[p];
    var outcomes := Fetch(s, src, tickers, maxTradesPages).1.outcomes;
    assert outcomes[k] == TaskOutcome(src, task);
  }
}
