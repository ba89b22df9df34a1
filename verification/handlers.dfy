/**
 * The request handlers of the web application: the JSON-or-HTML decision,
 * the lookups that answer not-found for an unknown ticker or insider, the
 * validation of the query arguments of the analytic pages, and the
 * analytic pages themselves.
 */
module Handlers {
  import opened Wrappers
  import opened Models
  import Tables
  import opened Store
  import opened Queries

  /** A request is an API request when its path starts with `/api`. */
  predicate IsApiRequest(path: string): (r: bool)
    ensures r <==> |path| >= 4 && path[..4] == "/api"
  {
    "/api" <= path
  }

  /** What a handler answers with. */
  datatype Reply<T> =
    | Json(body: T)                       // the data serialized as JSON
    | Html(template: string, body: T)     // the template rendered with the data
    | NotFound                            // `first_or_404` found no row
    | Unprocessable(fields: set<string>)  // the query arguments named here failed validation

  /** `build_response`: JSON for an API request, the rendered template otherwise. */
  function BuildResponse<T>(path: string, body: T, template: string): (r: Reply<T>)
    ensures r.Json? <==> IsApiRequest(path)
    ensures r.Json? || (r.Html? && r.template == template)
    ensures r.body == body
  {
    if IsApiRequest(path) then Json(body) else Html(template, body)
  }

  /**
   * The application answers both `/<route>` and `/api/<route>` with the same
   * handlers. A prefixed path always gets JSON; an unprefixed path gets HTML
   * unless what follows the slash starts with `api`, as the page of a
   * ticker spelled `apix` would.
   */
  lemma ApiPrefix<T>(route: string, body: T, template: string)
    ensures BuildResponse("/api" + route, body, template).Json?
    ensures BuildResponse("/" + route, body, template).Html? <==> !("api" <= route)
  {
    assert ("/api" + route)[..4] == "/api";
    PrefixAfterSlash("api", route);
  }

  /** Prefixes after a common first character. */
  lemma PrefixAfterSlash(a: string, b: string)
    ensures ("/" + a <= "/" + b) <==> a <= b
  {
    if "/" + a <= "/" + b {
      assert a == ("/" + a)[1..] && b == ("/" + b)[1..];
    }
    if a <= b {
      assert ("/" + b)[..|a| + 1] == "/" + b[..|a|];
    }
  }

  // ---------------------------------------------------------------------------
  // Lookups
  // ---------------------------------------------------------------------------

  /** `Quote.query.filter_by(stock_id=...).all()`: the stock's quote rows, in no order. */
  function QuotesOf(s: Store, stockId: nat): (r: set<Tables.Row<QuoteData>>)
    ensures forall q :: q in r <==> q.data.stockId == stockId && exists k :: k in s.quotes.rows && s.quotes.rows[k] == q
  {
    set k | k in s.quotes.rows && s.quotes.rows[k].data.stockId == stockId :: s.quotes.rows[k]
  }

  /**
   * `Trade.query.filter_by(...)`: the trades of a stock, or of a stock and
   * insider. The query has no `ORDER BY`; the model lists the rows in the
   * order they were appended, one order among those PostgreSQL may return.
   */
  function TradesOf(trades: seq<Tables.Row<TradeData>>, stockId: nat, insiderId: Option<nat>): (r: seq<Tables.Row<TradeData>>)
    ensures forall t :: t in r <==> t in trades && t.data.stockId == stockId && (insiderId.Some? ==> t.data.insiderId == insiderId.value)
    ensures |r| <= |trades|
  {
    if |trades| == 0 then []
    else
      var t := trades[0];
      var rest := TradesOf(trades[1..], stockId, insiderId);
      assert trades == [t] + trades[1..];
      if t.data.stockId == stockId && (insiderId.Some? ==> t.data.insiderId == insiderId.value)
      then [t] + rest
      else rest
  }

  /**
   * Filtering the trades of a stock by insider gives the trades of that
   * stock and insider: the insider page lists a sub-sequence of the ticker's
   * insider page.
   */
  lemma {:induction false} TradesOfRefines(trades: seq<Tables.Row<TradeData>>, stockId: nat, insiderId: nat)
    ensures TradesOf(TradesOf(trades, stockId, None), stockId, Some(insiderId)) == TradesOf(trades, stockId, Some(insiderId))
  {
    if |trades| > 0 {
      TradesOfRefines(trades[1..], stockId, insiderId);
    }
  }

  /** `get_ticker`: the stock's quotes, or not-found when no stock has the ticker. */
  function GetTicker(s: Store, path: string, ticker: string): (r: Reply<set<Tables.Row<QuoteData>>>)
    ensures r.NotFound? <==> ticker !in s.stocks.rows
    ensures r.Unprocessable? == false
    ensures !r.NotFound? ==>
      && (r.Json? <==> IsApiRequest(path))
      && forall q :: q in r.body <==>
           q.data.stockId == s.stocks.rows[ticker].id && exists k :: k in s.quotes.rows && s.quotes.rows[k] == q
  {
    match Tables.Lookup(s.stocks, ticker)
    case None => NotFound
    case Some(stock) => BuildResponse(path, QuotesOf(s, stock.id), "quotes.html")
  }

  /**
   * On a valid database the quotes of a ticker page form a time series: no
   * two of them share a date.
   */
  lemma TickerQuotesByDate(s: Store, path: string, ticker: string)
    requires Valid(s) && ticker in s.stocks.rows
    ensures var body := GetTicker(s, path, ticker).body;
      forall a, b :: a in body && b in body && a.data.date == b.data.date ==> a == b
  {
    var body := GetTicker(s, path, ticker).body;
    forall a, b | a in body && b in body && a.data.date == b.data.date
      ensures a == b
    {
      var ka :| ka in s.quotes.rows && s.quotes.rows[ka] == a;
      var kb :| kb in s.quotes.rows && s.quotes.rows[kb] == b;
      assert ka == QuoteKey(a.data) && kb == QuoteKey(b.data);
    }
  }

  /** `get_insiders`: the stock's trades, or not-found when no stock has the ticker. */
  function GetInsiders(s: Store, path: string, ticker: string): (r: Reply<seq<Tables.Row<TradeData>>>)
    ensures r.NotFound? <==> ticker !in s.stocks.rows
    ensures r.Unprocessable? == false
    ensures !r.NotFound? ==>
      && (r.Json? <==> IsApiRequest(path))
      && forall t :: t in r.body <==> t in s.trades && t.data.stockId == s.stocks.rows[ticker].id
  {
    match Tables.Lookup(s.stocks, ticker)
    case None => NotFound
    case Some(stock) => BuildResponse(path, TradesOf(s.trades, stock.id, None), "insiders.html")
  }

  /**
   * `get_insider`: the trades of the stock made by the insider, or not-found
   * when the ticker or the insider name has no row.
   */
  function GetInsider(s: Store, path: string, ticker: string, name: string): (r: Reply<seq<Tables.Row<TradeData>>>)
    ensures r.NotFound? <==> ticker !in s.stocks.rows || name !in s.insiders.rows
    ensures r.Unprocessable? == false
    ensures !r.NotFound? ==>
      && (r.Json? <==> IsApiRequest(path))
      && forall t :: t in r.body <==>
           && t in s.trades
           && t.data.stockId == s.stocks.rows[ticker].id
           && t.data.insiderId == s.insiders.rows[name].id
  {
    match Tables.Lookup(s.stocks, ticker)
    case None => NotFound
    case Some(stock) =>
      match Tables.Lookup(s.insiders, name)
      case None => NotFound
      case Some(insider) => BuildResponse(path, TradesOf(s.trades, stock.id, Some(insider.id)), "insider.html")
  }

  /**
   * The insider page of a ticker lists exactly the ticker's trades made by
   * that insider; both pages list rows in the model's append order.
   */
  lemma InsiderWithinTicker(s: Store, path: string, ticker: string, name: string)
    requires ticker in s.stocks.rows && name in s.insiders.rows
    ensures GetInsider(s, path, ticker, name).body ==
      TradesOf(GetInsiders(s, path, ticker).body, s.stocks.rows[ticker].id, Some(s.insiders.rows[name].id))
  {
    TradesOfRefines(s.trades, s.stocks.rows[ticker].id, s.insiders.rows[name].id);
  }

  // ---------------------------------------------------------------------------
  // Query arguments
  // ---------------------------------------------------------------------------

  /** The query arguments of a request: the first value of each name. */
  type Args = map<string, string>

  /** The field conversions of the argument schemas; they are not modelled. */
  datatype FieldConverters = FieldConverters(date: string -> Option<Date>, number: string -> Option<real>)

  /** The value of a required field, when present and convertible. */
  function Field<T>(args: Args, name: string, convert: string -> Option<T>): (r: Option<T>)
    ensures r.Some? <==> name in args && convert(args[name]).Some?
    ensures r.Some? ==> r.value == convert(args[name]).value
  {
    if name in args then convert(args[name]) else None
  }

  /** `{name}` when the condition fails, else no field. */
  function Blame(ok: bool, name: string): set<string> {
    if ok then {} else {name}
  }

  /** `analytics_request_schema`: two required dates; their order is not checked. */
  function ValidateAnalytics(args: Args, conv: FieldConverters): (r: Result<(Date, Date), set<string>>)
    ensures r.Success? <==> Field(args, "date_from", conv.date).Some? && Field(args, "date_to", conv.date).Some?
    ensures r.Success? ==> r.value == (Field(args, "date_from", conv.date).value, Field(args, "date_to", conv.date).value)
    ensures r.Failure? ==> r.error != {} && forall f :: f in r.error <==>
      (f == "date_from" && Field(args, "date_from", conv.date).None?) || (f == "date_to" && Field(args, "date_to", conv.date).None?)
  {
    var from := Field(args, "date_from", conv.date);
    var to := Field(args, "date_to", conv.date);
    if from.Some? && to.Some? then Success((from.value, to.value))
    else Failure(Blame(from.Some?, "date_from") + Blame(to.Some?, "date_to"))
  }

  /** The validated arguments of the delta page. */
  datatype DeltaArgs = DeltaArgs(value: real, priceType: PriceType)

  /**
   * `delta_request_schema`: a required number that is at least zero and a
   * required string that is one of the price type names.
   */
  function ValidateDelta(args: Args, conv: FieldConverters): (r: Result<DeltaArgs, set<string>>)
    ensures var value := Field(args, "value", conv.number);
      var valueOk := value.Some? && value.value >= 0.0;
      var typeOk := "type" in args && args["type"] in PriceTypeNames();
      && (r.Success? <==> valueOk && typeOk)
      && (r.Success? ==> r.value.value == value.value && PriceTypeName(r.value.priceType) == args["type"])
      && (r.Failure? ==> r.error != {} && forall f :: f in r.error <==> (f == "value" && !valueOk) || (f == "type" && !typeOk))
  {
    var value := Field(args, "value", conv.number);
    var valueOk := value.Some? && value.value >= 0.0;
    var priceType := if "type" in args then PriceTypeFromName(args["type"]) else None;
    PriceTypeMembers(if "type" in args then args["type"] else "");
    if valueOk && priceType.Some? then Success(DeltaArgs(value.value, priceType.value))
    else Failure(Blame(valueOk, "value") + Blame(priceType.Some?, "type"))
  }

  /** The column a valid delta request compares is the type name followed by `_price`. */
  lemma DeltaColumn(args: Args, conv: FieldConverters, q: QuoteData)
    requires ValidateDelta(args, conv).Success?
    ensures QuoteColumn(q, args["type"] + "_price") == Some(Price(q, ValidateDelta(args, conv).value.priceType))
  {
    PriceColumnSelects(q, ValidateDelta(args, conv).value.priceType);
  }

  // ---------------------------------------------------------------------------
  // Analytic pages. The arguments are validated before the handler runs, so
  // bad arguments are reported even for an unknown ticker. `quotes` is the
  // quote table as the database scans it.
  // ---------------------------------------------------------------------------

  /** `quotes` lists the data of the stored quotes, in some scan order. */
  ghost predicate ScansQuotes(s: Store, quotes: seq<QuoteData>) {
    forall q :: q in quotes <==> exists k :: k in s.quotes.rows && s.quotes.rows[k].data == q
  }

  /** `get_analytics`. */
  method GetAnalytics(s: Store, quotes: seq<QuoteData>, path: string, ticker: string, args: Args, conv: FieldConverters)
    returns (r: Reply<seq<AnalyticsRow>>)
    requires ScansQuotes(s, quotes)
    ensures r.Unprocessable? <==> ValidateAnalytics(args, conv).Failure?
    ensures r.Unprocessable? ==> r.fields == ValidateAnalytics(args, conv).error
    ensures r.NotFound? <==> ValidateAnalytics(args, conv).Success? && ticker !in s.stocks.rows
    ensures (r.Json? || r.Html?) ==>
      && (r.Json? <==> IsApiRequest(path))
      && var (dateFrom, dateTo) := ValidateAnalytics(args, conv).value;
         forall row :: row in r.body <==> row in AnalyticsSpec(quotes, s.stocks.rows[ticker].id, dateFrom, dateTo)
  {
    var valid := ValidateAnalytics(args, conv);
    if valid.Failure? {
      return Unprocessable(valid.error);
    }
    var stock := Tables.Lookup(s.stocks, ticker);
    if stock.None? {
      return NotFound;
    }
    var (dateFrom, dateTo) := valid.value;
    var rows := AnalyticsQuery(quotes, stock.value.id, dateFrom, dateTo);
    r := BuildResponse(path, rows, "analytics.html");
  }

  /** `get_delta`. */
  method GetDelta(s: Store, quotes: seq<QuoteData>, path: string, ticker: string, args: Args, conv: FieldConverters)
    returns (r: Reply<seq<DeltaRow>>)
    requires ScansQuotes(s, quotes)
    ensures r.Unprocessable? <==> ValidateDelta(args, conv).Failure?
    ensures r.Unprocessable? ==> r.fields == ValidateDelta(args, conv).error
    ensures r.NotFound? <==> ValidateDelta(args, conv).Success? && ticker !in s.stocks.rows
    ensures (r.Json? || r.Html?) ==>
      && (r.Json? <==> IsApiRequest(path))
      && var a := ValidateDelta(args, conv).value;
         && (forall row :: row in r.body <==> row in DeltaSpec(quotes, s.stocks.rows[ticker].id, a.priceType, a.value))
         && (|r.body| == 0 <==> DeltaCandidates(quotes, s.stocks.rows[ticker].id, a.priceType, a.value) == {})
  {
    var valid := ValidateDelta(args, conv);
    if valid.Failure? {
      return Unprocessable(valid.error);
    }
    var stock := Tables.Lookup(s.stocks, ticker);
    if stock.None? {
      return NotFound;
    }
    var rows := DeltaQuery(quotes, stock.value.id, valid.value.priceType, valid.value.value);
    r := BuildResponse(path, rows, "delta.html");
  }
}
