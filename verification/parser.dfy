/**
 * The page parser of the data fetcher: locating tags, turning a table into
 * trimmed cell strings, converting history and insider-trade rows into
 * records, and reading the trade page count from the "last page" link.
 */
module Parser {
  import opened Wrappers
  import opened Text
  import opened Models
  import opened Dom

  /** Why a fetch-and-parse step raised. */
  datatype Error =
    | TransportError            // the request got no response
    | HttpError(status: int)    // `raise_for_status` on a 4xx or 5xx status
    | ParsingError(sel: Selector) // `find_tag` found nothing
    | ValueError                // `urlparse` refused the link, or `int()` the page number
    | ConversionError           // the date parser raised something other than `ValueError`
    | AttributeError            // the history table has no `tbody`

  /**
   * What a converter gives back: a value, a `ValueError` (the row is
   * skipped), or any other exception (it escapes and fails the task).
   */
  datatype Converted<T> = Value(v: T) | Rejected | Raised

  /**
   * The foreign conversions: the date parser, and Python's `float()` on a
   * string, which only ever raises `ValueError` (`None` here).
   */
  datatype Converters = Converters(date: string -> Converted<Date>, number: string -> Option<real>)

  /** The result of converting one table row. */
  datatype RowOutcome<T> = Skip | Item(value: T) | Crash(error: Error)

  /** A history row as the parser returns it. */
  datatype HistoryItem = HistoryItem(
    date: Date,
    openPrice: real,
    highPrice: real,
    lowPrice: real,
    closePrice: real,
    volume: real)

  /** A trade row as the parser returns it; the owner type is still the cell text. */
  datatype TradeItem = TradeItem(
    insider: string,
    relation: string,
    lastDate: Date,
    transactionType: string,
    ownerType: string,
    sharesTraded: real,
    lastPrice: Option<real>,
    sharesHold: real)

  const BaseUrl := "https://www.nasdaq.com"

  const HistoryDiv := Selector(Some("div"), Some("quotes_content_left_pnlAJAX"), None)
  const TableTag := Selector(Some("table"), None, None)
  const BodyTag := Selector(Some("tbody"), None, None)
  const TradesDiv := Selector(Some("div"), None, Some("genTable"))
  const LastPageLink := Selector(None, Some("quotes_content_left_lb_LastPage"), None)

  const HistoryCells := 6
  const TradeCells := 8

  function HistoryUrl(ticker: string): string {
    BaseUrl + "/symbol/" + Lower(ticker) + "/historical"
  }

  function TradesUrl(ticker: string): string {
    BaseUrl + "/symbol/" + Lower(ticker) + "/insider-trades"
  }

  /** `parse_page`: issue the request and fail on no response or on an error status. */
  function ParsePage(web: Web, req: Request): (r: Result<Element, Error>)
    ensures web(req).Unreachable? ==> r == Failure(TransportError)
    ensures web(req).Response? && 400 <= web(req).status < 600 ==> r == Failure(HttpError(web(req).status))
    ensures web(req).Response? && !(400 <= web(req).status < 600) ==> r == Success(web(req).body)
  {
    match web(req)
    case Unreachable => Failure(TransportError)
    case Response(status, body) =>
      if 400 <= status < 600 then Failure(HttpError(status)) else Success(body)
  }

  /** `find_tag`: the tag found, or `ParsingError` exactly when the lookup finds nothing. */
  function FindTag(e: Element, sel: Selector): (r: Result<Element, Error>)
    ensures r.Failure? <==> Find(e, sel).None?
    ensures r.Failure? ==> r.error == ParsingError(sel)
    ensures r.Success? ==> Find(e, sel) == Some(r.value)
  {
    match Find(e, sel)
    case None => Failure(ParsingError(sel))
    case Some(t) => Success(t)
  }

  /** `parse_table`: one list per direct `tr` row, every cell text stripped. */
  function ParseTable(table: Element): (r: seq<seq<string>>)
    ensures |r| == |table.rows|
    ensures forall i :: 0 <= i < |r| ==> |r[i]| == |table.rows[i]|
    ensures forall i, j :: 0 <= i < |r| && 0 <= j < |r[i]| ==> IsTrimmed(r[i][j])
    ensures forall i, j :: 0 <= i < |r| && 0 <= j < |r[i]| ==> Strip(table.rows[i][j]) == r[i][j]
  {
    seq(|table.rows|, i requires 0 <= i < |table.rows| =>
      seq(|table.rows[i]|, j requires 0 <= j < |table.rows[i]| => Strip(table.rows[i][j])))
  }

  /** A number cell: thousands separators removed, then `float()`. */
  function Number(conv: Converters, cell: string): Option<real> {
    conv.number(RemoveChar(cell, ','))
  }

  /**
   * One history row: only 6-cell rows are converted; the date is parsed
   * first, then the five numbers with their commas removed. A `ValueError`
   * anywhere skips the row.
   */
  function HistoryRow(conv: Converters, row: seq<string>): (r: RowOutcome<HistoryItem>)
    ensures |row| != HistoryCells ==> r == Skip
    ensures r.Crash? ==> |row| == HistoryCells && conv.date(row[0]).Raised? && r.error == ConversionError
    ensures |row| == HistoryCells && conv.date(row[0]).Raised? ==> r == Crash(ConversionError)
    ensures r.Item? ==>
      && |row| == HistoryCells
      && conv.date(row[0]) == Value(r.value.date)
      && Number(conv, row[1]) == Some(r.value.openPrice)
      && Number(conv, row[2]) == Some(r.value.highPrice)
      && Number(conv, row[3]) == Some(r.value.lowPrice)
      && Number(conv, row[4]) == Some(r.value.closePrice)
      && Number(conv, row[5]) == Some(r.value.volume)
    ensures (&& |row| == HistoryCells
             && conv.date(row[0]).Value?
             && (forall k :: 1 <= k < HistoryCells ==> Number(conv, row[k]).Some?)) ==> r.Item?
  {
    if |row| != HistoryCells then Skip
    else
      match conv.date(row[0])
      case Raised => Crash(ConversionError)
      case Rejected => Skip
      case Value(d) =>
        var open := Number(conv, row[1]);
        var high := Number(conv, row[2]);
        var low := Number(conv, row[3]);
        var close := Number(conv, row[4]);
        var volume := Number(conv, row[5]);
        if open.Some? && high.Some? && low.Some? && close.Some? && volume.Some? then
          Item(HistoryItem(d, open.value, high.value, low.value, close.value, volume.value))
        else Skip
  }

  /**
   * One trade row: only 8-cell rows are converted. The last price is absent
   * exactly when its cell is empty, and it is converted without removing
   * commas; the other two numbers have theirs removed.
   */
  function TradeRow(conv: Converters, row: seq<string>): (r: RowOutcome<TradeItem>)
    ensures |row| != TradeCells ==> r == Skip
    ensures r.Crash? ==> |row| == TradeCells && conv.date(row[2]).Raised? && r.error == ConversionError
    ensures |row| == TradeCells && conv.date(row[2]).Raised? ==> r == Crash(ConversionError)
    ensures r.Item? ==>
      && |row| == TradeCells
      && r.value.insider == row[0]
      && r.value.relation == row[1]
      && conv.date(row[2]) == Value(r.value.lastDate)
      && r.value.transactionType == row[3]
      && r.value.ownerType == row[4]
      && Number(conv, row[5]) == Some(r.value.sharesTraded)
      && (r.value.lastPrice.None? <==> row[6] == "")
      && (r.value.lastPrice.Some? ==> conv.number(row[6]) == r.value.lastPrice)
      && Number(conv, row[7]) == Some(r.value.sharesHold)
    ensures (&& |row| == TradeCells
             && conv.date(row[2]).Value?
             && Number(conv, row[5]).Some? && Number(conv, row[7]).Some?
             && (row[6] == "" || conv.number(row[6]).Some?)) ==> r.Item?
  {
    if |row| != TradeCells then Skip
    else
      match conv.date(row[2])
      case Raised => Crash(ConversionError)
      case Rejected => Skip
      case Value(d) =>
        var traded := Number(conv, row[5]);
        var price := if row[6] == "" then Some(None) else
          (match conv.number(row[6]) case Some(p) => Some(Some(p)) case None => None);
        var hold := Number(conv, row[7]);
        if traded.Some? && price.Some? && hold.Some? then
          Item(TradeItem(row[0], row[1], d, row[3], row[4], traded.value, price.value, hold.value))
        else Skip
  }

  /**
   * The loop over the table rows shared by both parsers: skipped rows are
   * left out, items are kept in table order, and the first crash aborts.
   */
  function CollectRows<T>(f: seq<string> -> RowOutcome<T>, table: seq<seq<string>>): (r: Result<seq<T>, Error>)
    ensures r.Success? <==> forall i :: 0 <= i < |table| ==> !f(table[i]).Crash?
    ensures r.Failure? ==> exists i :: 0 <= i < |table| && f(table[i]) == Crash(r.error)
                                      && forall j :: 0 <= j < i ==> !f(table[j]).Crash?
    ensures r.Success? ==> |r.value| <= |table|
    ensures r.Success? ==> forall k :: 0 <= k < |r.value| ==> exists i :: 0 <= i < |table| && f(table[i]) == Item(r.value[k])
    ensures r.Success? ==> forall i :: 0 <= i < |table| && f(table[i]).Item? ==> f(table[i]).value in r.value
  {
    if |table| == 0 then Success([])
    else
      var rest := CollectRows(f, table[1..]);
      match f(table[0])
      case Crash(e) => Failure(e)
      case Skip =>
        if rest.Success? then
          assert forall i :: 1 <= i < |table| ==> table[i] == table[1..][i - 1];
          rest
        else
          var k :| 0 <= k < |table[1..]| && f(table[1..][k]) == Crash(rest.error)
                   && forall j :: 0 <= j < k ==> !f(table[1..][j]).Crash?;
          assert f(table[k + 1]) == Crash(rest.error);
          rest
      case Item(x) =>
        if rest.Success? then
          assert forall i :: 1 <= i < |table| ==> table[i] == table[1..][i - 1];
          Success([x] + rest.value)
        else
          var k :| 0 <= k < |table[1..]| && f(table[1..][k]) == Crash(rest.error)
                   && forall j :: 0 <= j < k ==> !f(table[1..][j]).Crash?;
          assert f(table[k + 1]) == Crash(rest.error);
          Failure(rest.error)
  }

  /**
   * Row processing is sequential: the items of `a + b` are the items of `a`
   * followed by those of `b`, and the first crash in `a + b` decides the error.
   */
  lemma {:induction false} CollectRowsAppend<T>(f: seq<string> -> RowOutcome<T>, a: seq<seq<string>>, b: seq<seq<string>>)
    ensures CollectRows(f, a + b) ==
      match CollectRows(f, a)
      case Failure(e) => Failure(e)
      case Success(xs) =>
        match CollectRows(f, b)
        case Failure(e) => Failure(e)
        case Success(ys) => Success(xs + ys)
    decreases |a|
  {
    if |a| == 0 {
      assert a + b == b;
      assert CollectRows(f, a) == Success([]);
      match CollectRows(f, b)
      case Failure(e) =>
      case Success(ys) =>
        assert [] + ys == ys;
    } else {
      assert (a + b)[0] == a[0];
      assert (a + b)[1..] == a[1..] + b;
      CollectRowsAppend(f, a[1..], b);
      match f(a[0])
      case Crash(e) =>
      case Skip =>
      case Item(x) =>
        match CollectRows(f, a[1..])
        case Failure(e) =>
        case Success(xs) =>
          match CollectRows(f, b)
          case Failure(e) =>
          case Success(ys) =>
            assert [x] + (xs + ys) == ([x] + xs) + ys;
    }
  }

  /** A skipped row leaves no trace: removing it from the table changes nothing. */
  lemma SkippedRowIsInvisible<T>(f: seq<string> -> RowOutcome<T>, a: seq<seq<string>>, row: seq<string>, b: seq<seq<string>>)
    requires f(row) == Skip
    ensures CollectRows(f, a + [row] + b) == CollectRows(f, a + b)
  {
    assert CollectRows(f, [row][1..]) == Success([]) by {
      assert [row][1..] == [];
    }
    assert CollectRows(f, [row]) == Success([]);
    CollectRowsAppend(f, a + [row], b);
    CollectRowsAppend(f, a, [row]);
    CollectRowsAppend(f, a, b);
    match CollectRows(f, a)
    case Failure(e) =>
    case Success(xs) =>
      assert xs + [] == xs;
  }

  /** The history table converted row by row. */
  function HistoryTable(conv: Converters, table: seq<seq<string>>): Result<seq<HistoryItem>, Error> {
    CollectRows(row => HistoryRow(conv, row), table)
  }

  /** The trades table converted row by row. */
  function TradesTable(conv: Converters, table: seq<seq<string>>): Result<seq<TradeItem>, Error> {
    CollectRows(row => TradeRow(conv, row), table)
  }

  /**
   * `parse_history`: fetch the history page, locate the content `div`, its
   * `table` and that table's `tbody`, and convert the rows.
   */
  function ParseHistory(web: Web, conv: Converters, ticker: string): (r: Result<seq<HistoryItem>, Error>)
    ensures r.Success? ==> exists dom, div, table, body ::
      && ParsePage(web, Request(HistoryUrl(ticker), None)) == Success(dom)
      && Find(dom, HistoryDiv) == Some(div)
      && Find(div, TableTag) == Some(table)
      && Find(table, BodyTag) == Some(body)
      && HistoryTable(conv, ParseTable(body)) == r
    ensures var page := ParsePage(web, Request(HistoryUrl(ticker), None));
      && (page.Failure? ==> r == Failure(page.error))
      && (page.Success? && Find(page.value, HistoryDiv).None? ==> r == Failure(ParsingError(HistoryDiv)))
    ensures forall dom, div :: (ParsePage(web, Request(HistoryUrl(ticker), None)) == Success(dom)
                                && Find(dom, HistoryDiv) == Some(div)) ==>
      && (Find(div, TableTag).None? ==> r == Failure(ParsingError(TableTag)))
      && (forall table :: Find(div, TableTag) == Some(table) ==>
            && (Find(table, BodyTag).None? ==> r == Failure(AttributeError))
            && (forall body :: Find(table, BodyTag) == Some(body) ==> r == HistoryTable(conv, ParseTable(body))))
  {
    var dom :- ParsePage(web, Request(HistoryUrl(ticker), None));
    var div :- FindTag(dom, HistoryDiv);
    var table :- FindTag(div, TableTag);
    match Find(table, BodyTag)
    case None => Failure(AttributeError)
    case Some(body) => HistoryTable(conv, ParseTable(body))
  }

  /** `parse_qs(query).get(name, ...)[0]`: the first non-blank value given to `name`. */
  predicate Gives(field: string, name: string) {
    match SplitOnce(field, '=')
    case None => false
    case Some(nv) => nv.0 == name && nv.1 != ""
  }

  function FirstValue(fields: seq<string>, name: string): (r: Option<string>)
    ensures r.None? <==> forall i :: 0 <= i < |fields| ==> !Gives(fields[i], name)
    ensures r.Some? ==> exists i :: (&& 0 <= i < |fields|
                                     && Gives(fields[i], name)
                                     && SplitOnce(fields[i], '=').value.1 == r.value
                                     && forall j :: 0 <= j < i ==> !Gives(fields[j], name))
  {
    var k := FirstGiving(fields, name);
    if k < |fields| then
      var v := SplitOnce(fields[k], '=').value.1;
      assert Gives(fields[k], name) && SplitOnce(fields[k], '=').value.1 == v;
      Some(v)
    else None
  }

  /** Position of the first field that gives `name` a non-blank value, or `|fields|` when none does. */
  function FirstGiving(fields: seq<string>, name: string): (k: nat)
    ensures k <= |fields|
    ensures forall j :: 0 <= j < k ==> !Gives(fields[j], name)
    ensures k < |fields| ==> Gives(fields[k], name)
  {
    if |fields| == 0 || Gives(fields[0], name) then 0
    else
      var m := FirstGiving(fields[1..], name);
      assert forall j :: 1 <= j < 1 + m ==> fields[j] == fields[1..][j - 1];
      1 + m
  }

  /** Each piece split again on a second separator, all pieces kept in order. */
  function SplitEach(pieces: seq<string>, sep: char): (r: seq<string>)
    ensures forall i :: 0 <= i < |r| ==> sep !in r[i]
    ensures |r| >= |pieces|
    ensures Join(r, sep) == Join(pieces, sep)
  {
    if |pieces| == 0 then []
    else
      var first := Split(pieces[0], sep);
      var rest := SplitEach(pieces[1..], sep);
      JoinSplit(pieces[0], sep);
      if |pieces| > 1 then
        JoinAppend(first, rest, sep);
        first + rest
      else
        assert first + rest == first;
        first + rest
  }

  /** The fields of a query string: split on `&`, then each part on `;`. */
  function QueryFields(query: string): (r: seq<string>)
    ensures forall i :: 0 <= i < |r| ==> ';' !in r[i]
    ensures |r| >= 1
    ensures Join(r, ';') == Join(Split(query, '&'), ';')
  {
    SplitEach(Split(query, '&'), ';')
  }

  /**
   * `urlparse(url).query` when `urlparse` accepts the address (see
   * `UrlParse`): the text after the first `?`, with any `#` fragment cut off first.
   */
  function UrlQuery(url: string): (r: string)
    ensures '#' !in r
    ensures '?' !in Before(url, '#') ==> r == ""
    ensures var head := Before(url, '#');
      '?' in head ==> (&& |r| < |head|
                       && head == head[..|head| - |r| - 1] + "?" + r
                       && '?' !in head[..|head| - |r| - 1])
  {
    var rest := Before(url, '#');
    match SplitOnce(rest, '?')
    case None => ""
    case Some(parts) =>
      assert rest[..|rest| - |parts.1| - 1] == parts.0;
      parts.1
  }

  /** Python's `scheme_chars`: the characters a URL scheme may hold. */
  predicate IsSchemeChar(c: char) {
    || 'a' <= c <= 'z' || 'A' <= c <= 'Z' || '0' <= c <= '9'
    || c == '+' || c == '-' || c == '.'
  }

  /** The characters that end a network location: `/`, `?` and `#`. */
  predicate EndsHost(c: char) {
    c == '/' || c == '?' || c == '#'
  }

  /** Length of the run that starts `s` and holds no `/`, `?` or `#`. */
  function HostLength(s: string): (n: nat)
    ensures n <= |s|
    ensures forall j :: 0 <= j < n ==> !EndsHost(s[j])
    ensures n < |s| ==> EndsHost(s[n])
  {
    if |s| == 0 || EndsHost(s[0]) then 0
    else
      var m := HostLength(s[1..]);
      assert forall j :: 1 <= j < 1 + m ==> s[j] == s[1..][j - 1];
      1 + m
  }

  /**
   * Where `urlsplit` reads a network location: right after a leading `//`,
   * or right after `scheme://` when the text before the first `:` is a
   * non-empty run of scheme characters. The position is that of the first
   * character after `//`.
   */
  function HostStart(url: string): (r: Option<nat>)
    ensures r.Some? ==> 2 <= r.value <= |url| && url[r.value - 2] == '/' && url[r.value - 1] == '/'
  {
    if |url| >= 2 && url[0] == '/' && url[1] == '/' then Some(2)
    else
      match IndexOf(url, ':')
      case None => None
      case Some(i) =>
        if 0 < i && (forall j :: 0 <= j < i ==> IsSchemeChar(url[j]))
           && i + 3 <= |url| && url[i + 1] == '/' && url[i + 2] == '/'
        then Some(i + 3)
        else None
  }

  /** `urlsplit(url).netloc` when the address has one: the text after `//` up to the first `/`, `?` or `#`. */
  function NetLoc(url: string): (r: Option<string>)
    ensures r.Some? <==> HostStart(url).Some?
    ensures r.Some? ==> var k := HostStart(url).value;
      && k + |r.value| <= |url|
      && r.value == url[k..k + |r.value|]
      && (forall j :: 0 <= j < |r.value| ==> !EndsHost(r.value[j]))
      && (k + |r.value| < |url| ==> EndsHost(url[k + |r.value|]))
  {
    match HostStart(url)
    case None => None
    case Some(k) =>
      var rest := url[k..];
      var n := HostLength(rest);
      assert url[k..k + n] == rest[..n];
      assert forall j :: 0 <= j < n ==> rest[..n][j] == rest[j];
      assert k + n < |url| ==> url[k + n] == rest[n];
      Some(rest[..n])
  }

  /**
   * `urlsplit` raises `ValueError("Invalid IPv6 URL")` when the network
   * location holds a `[` without a `]`, or a `]` without a `[`.
   */
  predicate MalformedHost(url: string) {
    NetLoc(url).Some? && (('[' in NetLoc(url).value) != (']' in NetLoc(url).value))
  }

  /** `urlparse(url).query`: the query, or the `ValueError` raised on a malformed network location. */
  function UrlParse(url: string): (r: Result<string, Error>)
    ensures r.Failure? <==> MalformedHost(url)
    ensures r.Failure? ==> r.error == ValueError
    ensures r.Success? ==> r.value == UrlQuery(url)
  {
    if MalformedHost(url) then Failure(ValueError) else Success(UrlQuery(url))
  }

  /** A character that ends a network location ends the run there: what follows it does not matter. */
  lemma {:induction false} HostLengthStops(a: string, b: string)
    requires |b| > 0 && EndsHost(b[0])
    ensures HostLength(a + b) == HostLength(a)
    decreases |a|
  {
    if |a| > 0 && !EndsHost(a[0]) {
      assert (a + b)[1..] == a[1..] + b;
      HostLengthStops(a[1..], b);
    }
  }

  /** Whether and where a network location starts is decided before the `?` that ends the path. */
  lemma HostStartPrefix(path: string, rest: string)
    requires '?' !in path
    ensures HostStart(path + "?" + rest) == HostStart(path)
  {
    var u := path + "?" + rest;
    assert u[|path|] == '?';
    assert forall j :: 0 <= j < |path| ==> u[j] == path[j];
    if !(|path| >= 2 && path[0] == '/' && path[1] == '/') {
      assert !(|u| >= 2 && u[0] == '/' && u[1] == '/');
      match IndexOf(u, ':')
      case None =>
        assert ':' !in path by {
          assert forall j :: 0 <= j < |path| ==> path[j] == u[j];
        }
      case Some(i) =>
        if i < |path| {
          assert path[i] == ':' && ':' !in path[..i] by {
            assert path[..i] == u[..i];
          }
          assert IndexOf(path, ':') == Some(i);
        } else {
          assert ':' !in path by {
            assert path == u[..|path|];
          }
          assert !IsSchemeChar(u[|path|]);
        }
    }
  }

  /** The network location of `path?rest` is that of `path`: the query never changes it. */
  lemma NetLocPrefix(path: string, rest: string)
    requires '?' !in path
    ensures NetLoc(path + "?" + rest) == NetLoc(path)
  {
    var u := path + "?" + rest;
    HostStartPrefix(path, rest);
    match HostStart(path)
    case None =>
    case Some(k) =>
      var n := HostLength(path[k..]);
      HostRunPrefix(path, rest, k);
      NetLocAt(u, k, n);
      NetLocAt(path, k, n);
  }

  /** From any position of `path`, the host run of `path?rest` ends where that of `path` does. */
  lemma HostRunPrefix(path: string, rest: string, k: nat)
    requires k <= |path|
    ensures var n := HostLength(path[k..]);
      && HostLength((path + "?" + rest)[k..]) == n
      && (path + "?" + rest)[k..k + n] == path[k..k + n]
  {
    var u := path + "?" + rest;
    var tail := path[k..];
    assert u[k..] == tail + ("?" + rest);
    HostLengthStops(tail, "?" + rest);
    var n := HostLength(tail);
    assert u[k..k + n] == path[k..k + n];
  }

  /** So `urlparse` refuses `path?rest` exactly when it refuses `path`. */
  lemma HostCheckPrefix(path: string, rest: string)
    requires '?' !in path
    ensures MalformedHost(path + "?" + rest) == MalformedHost(path)
  {
    NetLocPrefix(path, rest);
  }

  /** The network location found at `k` is the run up to the first `/`, `?` or `#` after it. */
  lemma NetLocAt(url: string, k: nat, n: nat)
    requires HostStart(url) == Some(k) && n == HostLength(url[k..])
    ensures k + n <= |url| && NetLoc(url) == Some(url[k..k + n])
  {
  }

  /**
   * A last-page link to `http://` followed by a host with one bracket but
   * not the other fails the page count with `ValueError`, whatever follows
   * the host, as `urlparse("http://[x?page=3")` raises.
   */
  lemma UnbalancedHostFails(dom: Element, host: string, rest: string)
    requires Find(dom, LastPageLink).Some?
    requires Attr(Find(dom, LastPageLink).value, "href", "") == "http://" + host + rest
    requires forall j :: 0 <= j < |host| ==> !EndsHost(host[j])
    requires ('[' in host) != (']' in host)
    requires rest == "" || EndsHost(rest[0])
    ensures PageCount(dom) == Failure(ValueError)
  {
    var url := "http://" + host + rest;
    assert url[4] == ':' && ':' !in url[..4];
    assert IndexOf(url, ':') == Some(4);
    assert HostStart(url) == Some(7);
    assert url[7..] == host + rest;
    if rest == "" {
      assert host + rest == host;
      HostLengthAll(host);
    } else {
      HostLengthStops(host, rest);
      HostLengthAll(host);
    }
    assert url[7..7 + |host|] == host;
    assert NetLoc(url) == Some(host);
  }

  /** A run without `/`, `?` or `#` is its own network location. */
  lemma {:induction false} HostLengthAll(s: string)
    requires forall j :: 0 <= j < |s| ==> !EndsHost(s[j])
    ensures HostLength(s) == |s|
    decreases |s|
  {
    if |s| > 0 {
      HostLengthAll(s[1..]);
    }
  }

  /** The `page` value in the query of a link's `href`, if the query gives one. */
  function LinkPage(link: Element): (r: Option<string>)
    ensures r.Some? ==> r.value != ""
    ensures '?' !in Attr(link, "href", "") ==> r.None?
  {
    var href := Attr(link, "href", "");
    NoQueryNoPage(href);
    FirstValue(QueryFields(UrlQuery(href)), "page")
  }

  /** An address without `?` has an empty query and so no `page` field. */
  lemma NoQueryNoPage(href: string)
    ensures '?' !in href ==> FirstValue(QueryFields(UrlQuery(href)), "page").None?
  {
    if '?' !in href {
      assert '?' !in Before(href, '#');
      var fields := QueryFields("");
      assert Split("", '&') == [""];
      assert fields == [""];
      assert !Gives("", "page");
    }
  }

  /**
   * `parse_trades_page_count`: the `page` query value of the last-page
   * link's `href`, read with `int()`, defaulting to 1 when the link carries
   * no `page` value. A missing link raises `ParsingError`; an address whose
   * network location `urlparse` refuses, or a value `int()` rejects, raises
   * `ValueError`.
   */
  function PageCount(dom: Element): (r: Result<int, Error>)
    ensures Find(dom, LastPageLink).None? <==> r == Failure(ParsingError(LastPageLink))
    ensures Find(dom, LastPageLink).Some? && MalformedHost(Attr(Find(dom, LastPageLink).value, "href", "")) ==>
      r == Failure(ValueError)
    ensures (&& Find(dom, LastPageLink).Some? && !MalformedHost(Attr(Find(dom, LastPageLink).value, "href", ""))
             && LinkPage(Find(dom, LastPageLink).value).None?) ==> r == Success(1)
    ensures (&& Find(dom, LastPageLink).Some? && !MalformedHost(Attr(Find(dom, LastPageLink).value, "href", ""))
             && LinkPage(Find(dom, LastPageLink).value).Some?) ==>
      r == match ParseInt(LinkPage(Find(dom, LastPageLink).value).value)
           case None => Failure(ValueError)
           case Some(n) => Success(n)
  {
    var link :- FindTag(dom, LastPageLink);
    var _ :- UrlParse(Attr(link, "href", ""));
    match LinkPage(link)
    case None => Success(1)  // the default `['1']`, read by `int()`
    case Some(value) =>
      match ParseInt(value)
      case None => Failure(ValueError)
      case Some(n) => Success(n)
  }

  /** The default `['1']` of a link without a `page` value reads as one page. */
  lemma DefaultPageCount()
    ensures ParseInt("1") == Some(1)
  {
    assert "1"[..0] == [];
    assert DigitsValue("1") == 1;
    ParseDigits("1");
  }

  /**
   * `parse_trades`: fetch the requested trade page and read the page count;
   * past the last page the result is empty, otherwise the `genTable` div's
   * table is located and its rows are converted.
   */
  function ParseTrades(web: Web, conv: Converters, ticker: string, page: int): (r: Result<seq<TradeItem>, Error>)
    ensures r.Success? ==> exists dom ::
      && ParsePage(web, Request(TradesUrl(ticker), Some(page))) == Success(dom)
      && PageCount(dom).Success?
      && (page > PageCount(dom).value ==> r.value == [])
    ensures var resp := ParsePage(web, Request(TradesUrl(ticker), Some(page)));
      && (resp.Failure? ==> r == Failure(resp.error))
      && (resp.Success? && PageCount(resp.value).Failure? ==> r == Failure(PageCount(resp.value).error))
    ensures forall dom, count :: (ParsePage(web, Request(TradesUrl(ticker), Some(page))) == Success(dom)
                                  && PageCount(dom) == Success(count) && page <= count) ==>
      && (Find(dom, TradesDiv).None? ==> r == Failure(ParsingError(TradesDiv)))
      && (forall div :: Find(dom, TradesDiv) == Some(div) ==>
            && (Find(div, TableTag).None? ==> r == Failure(ParsingError(TableTag)))
            && (forall table :: Find(div, TableTag) == Some(table) ==> r == TradesTable(conv, ParseTable(table))))
  {
    var dom :- ParsePage(web, Request(TradesUrl(ticker), Some(page)));
    var count :- PageCount(dom);
    if page <= count then
      var div :- FindTag(dom, TradesDiv);
      var table :- FindTag(div, TableTag);
      TradesTable(conv, ParseTable(table))
    else Success([])
  }

  /**
   * Asking for a page past the last one yields no rows and no error,
   * whatever the page holds where the table would be.
   */
  lemma PastLastPageIsEmpty(web: Web, conv: Converters, ticker: string, page: int, dom: Element, count: int)
    requires ParsePage(web, Request(TradesUrl(ticker), Some(page))) == Success(dom)
    requires PageCount(dom) == Success(count) && page > count
    ensures ParseTrades(web, conv, ticker, page) == Success([])
  {
  }

  /** A `#` fragment after the query is cut off: the query of `path?query#fragment` is `query`. */
  lemma UrlQueryWithFragment(path: string, query: string, fragment: string)
    requires '?' !in path && '#' !in path && '#' !in query
    ensures UrlQuery(path + "?" + query + "#" + fragment) == query
    ensures UrlParse(path + "?" + query + "#" + fragment) == if MalformedHost(path) then Failure(ValueError) else Success(query)
  {
    assert path + "?" + query + "#" + fragment == path + "?" + (query + "#" + fragment);
    HostCheckPrefix(path, query + "#" + fragment);
    var head := path + "?" + query;
    var url := head + "#" + fragment;
    assert '#' !in head by {
      forall i | 0 <= i < |head|
        ensures head[i] != '#'
      {
        if i < |path| {
          assert head[i] == path[i];
        } else if i > |path| {
          assert head[i] == query[i - |path| - 1];
        }
      }
    }
    var b := Before(url, '#');
    assert url[|head|] == '#';
    assert forall i :: 0 <= i < |head| ==> url[i] == head[i];
    assert b == head;
    assert Before(head, '#') == head;
    UrlQueryOf(path, query);
  }

  /**
   * The query of `path?query` when the path has neither `?` nor `#` and the
   * query has no `#`; `urlparse` gives it unless the host of `path` is malformed.
   */
  lemma UrlQueryOf(path: string, query: string)
    requires '?' !in path && '#' !in path && '#' !in query
    ensures UrlQuery(path + "?" + query) == query
    ensures UrlParse(path + "?" + query) == if MalformedHost(path) then Failure(ValueError) else Success(query)
  {
    QueryOfPath(path, query);
    HostCheckPrefix(path, query);
  }

  /** The query text of `path?query`, leaving aside whether `urlparse` accepts the host. */
  lemma QueryOfPath(path: string, query: string)
    requires '?' !in path && '#' !in path && '#' !in query
    ensures UrlQuery(path + "?" + query) == query
  {
    var href := path + "?" + query;
    assert '#' !in href by {
      forall i | 0 <= i < |href|
        ensures href[i] != '#'
      {
        if i < |path| {
          assert href[i] == path[i];
        } else if i > |path| {
          assert href[i] == query[i - |path| - 1];
        }
      }
    }
    assert Before(href, '#') == href;
    var parts := SplitOnce(href, '?').value;
    assert href[|path|] == '?';
    assert |parts.0| == |path|;
    assert parts.0 + ['?'] + parts.1 == href;
    assert parts.1 == href[|path| + 1..];
    assert href[|path| + 1..] == query;
  }

  /** A query of one `name=value` field, with no separators, gives `value` for `name`. */
  lemma SingleFieldValue(query: string, name: string, value: string)
    requires query == name + "=" + value
    requires '=' !in name && value != ""
    requires '&' !in name + value && ';' !in name + value
    ensures FirstValue(QueryFields(query), name) == Some(value)
  {
    assert '&' !in query && ';' !in query by {
      forall i | 0 <= i < |query|
        ensures query[i] != '&' && query[i] != ';'
      {
        if i < |name| {
          assert query[i] == (name + value)[i];
        } else if i > |name| {
          assert query[i] == (name + value)[i - 1];
        }
      }
    }
    assert Split(query, '&') == [query];
    assert Split(query, ';') == [query];
    assert SplitEach([query], ';') == Split(query, ';') + SplitEach([], ';');
    assert QueryFields(query) == [query];
    var nv := SplitOnce(query, '=').value;
    assert query[|name|] == '=';
    assert |nv.0| == |name|;
    assert nv.0 + ['='] + nv.1 == query;
    assert nv.0 == query[..|name|] == name;
    assert nv.1 == query[|name| + 1..] == value;
    assert Gives(query, name);
  }

  /**
   * A last-page link whose `href` is `path?page=N` announces `N` pages, unless
   * `path` has a malformed network location, which `urlparse` refuses.
   */
  lemma PageCountOfLink(dom: Element, path: string, n: int)
    requires '?' !in path && '#' !in path
    requires Find(dom, LastPageLink).Some?
    requires Attr(Find(dom, LastPageLink).value, "href", "") == path + "?" + "page=" + IntToString(n)
    ensures PageCount(dom) == if MalformedHost(path) then Failure(ValueError) else Success(n)
  {
    var digits := IntToString(n);
    var href := Attr(Find(dom, LastPageLink).value, "href", "");
    assert href == path + "?" + ("page=" + digits);
    HostCheckPrefix(path, "page=" + digits);
    if MalformedHost(path) {
      PageCountOfRefusedLink(dom);
    } else {
      PageCountOfAcceptedLink(dom, path, n);
    }
  }

  /** A link whose host `urlparse` refuses gives `ValueError`, whatever its query. */
  lemma PageCountOfRefusedLink(dom: Element)
    requires Find(dom, LastPageLink).Some?
    requires MalformedHost(Attr(Find(dom, LastPageLink).value, "href", ""))
    ensures PageCount(dom) == Failure(ValueError)
  {
  }

  /** The same for a link whose host `urlparse` accepts. */
  lemma PageCountOfAcceptedLink(dom: Element, path: string, n: int)
    requires '?' !in path && '#' !in path
    requires Find(dom, LastPageLink).Some?
    requires Attr(Find(dom, LastPageLink).value, "href", "") == path + "?" + "page=" + IntToString(n)
    requires !MalformedHost(Attr(Find(dom, LastPageLink).value, "href", ""))
    ensures PageCount(dom) == Success(n)
  {
    LinkPageOf(Find(dom, LastPageLink).value, path, IntToString(n));
    IntToStringRoundTrip(n);
  }

  /** The `page` value of a link to `path?page=N`. */
  lemma LinkPageOf(link: Element, path: string, digits: string)
    requires '?' !in path && '#' !in path && digits != ""
    requires forall i :: 0 <= i < |digits| ==> digits[i] == '-' || IsDigit(digits[i])
    requires Attr(link, "href", "") == path + "?" + "page=" + digits
    ensures LinkPage(link) == Some(digits)
  {
    HrefQuery(Attr(link, "href", ""), path, digits);
    QueryAlphabet(digits);
    PageField(digits);
    SingleFieldValue("page" + "=" + digits, "page", digits);
  }

  /** The same with a `#` fragment after the page field: the fragment does not change the page. */
  lemma LinkPageWithFragment(link: Element, path: string, digits: string, fragment: string)
    requires '?' !in path && '#' !in path && digits != ""
    requires forall i :: 0 <= i < |digits| ==> digits[i] == '-' || IsDigit(digits[i])
    requires Attr(link, "href", "") == path + "?" + "page=" + digits + "#" + fragment
    ensures LinkPage(link) == Some(digits)
    ensures UrlParse(Attr(link, "href", "")) == if MalformedHost(path) then Failure(ValueError) else Success("page=" + digits)
  {
    var href := Attr(link, "href", "");
    HrefQueryWithFragment(href, path, digits, fragment);
    PageLink(link, digits);
  }

  /** A link whose query is exactly `page=N` gives `N`. */
  lemma PageLink(link: Element, digits: string)
    requires digits != ""
    requires forall i :: 0 <= i < |digits| ==> digits[i] == '-' || IsDigit(digits[i])
    requires UrlQuery(Attr(link, "href", "")) == "page=" + digits
    ensures LinkPage(link) == Some(digits)
  {
    QueryAlphabet(digits);
    PageField(digits);
    SingleFieldValue("page" + "=" + digits, "page", digits);
  }

  lemma HrefQueryWithFragment(href: string, path: string, digits: string, fragment: string)
    requires '?' !in path && '#' !in path
    requires forall i :: 0 <= i < |digits| ==> digits[i] == '-' || IsDigit(digits[i])
    requires href == path + "?" + "page=" + digits + "#" + fragment
    ensures UrlQuery(href) == "page=" + digits
    ensures UrlParse(href) == if MalformedHost(path) then Failure(ValueError) else Success("page=" + digits)
  {
    var query := "page=" + digits;
    Regroup(path + "?", "page=", digits, "#");
    assert href == path + "?" + query + "#" + fragment;
    QueryAlphabet(digits);
    UrlQueryWithFragment(path, query, fragment);
  }

  /** `"page=" + N` regrouped (a lemma of its own, so that `PageLink` and `LinkPageOf` stay small). */
  lemma PageField(digits: string)
    ensures "page=" + digits == "page" + "=" + digits
  {
    assert "page" + "=" == "page=";
  }

  lemma HrefQuery(href: string, path: string, digits: string)
    requires '?' !in path && '#' !in path
    requires forall i :: 0 <= i < |digits| ==> digits[i] == '-' || IsDigit(digits[i])
    requires href == path + "?" + "page=" + digits
    ensures UrlQuery(href) == "page=" + digits
  {
    var query := "page=" + digits;
    assert href == path + "?" + query;
    QueryAlphabet(digits);
    UrlQueryOf(path, query);
  }

  lemma QueryAlphabet(digits: string)
    requires forall i :: 0 <= i < |digits| ==> digits[i] == '-' || IsDigit(digits[i])
    ensures '#' !in "page=" + digits
    ensures '&' !in "page" + digits && ';' !in "page" + digits
  {
    var query := "page=" + digits;
    assert forall i :: 0 <= i < |query| ==> query[i] in "page=" || query[i] == '-' || IsDigit(query[i]);
    assert forall i :: 0 <= i < |"page" + digits| ==> ("page" + digits)[i] in "page" || ("page" + digits)[i] == '-' || IsDigit(("page" + digits)[i]);
  }

  /**
   * The last price is converted without removing commas: with a `float()`
   * that rejects every comma, a trade whose last price is written with a
   * thousands separator is never turned into an item.
   */
  lemma CommaInLastPriceDropsTrade(conv: Converters, row: seq<string>)
    requires forall s: string :: ',' in s ==> conv.number(s).None?
    requires |row| == TradeCells && ',' in row[6]
    ensures !TradeRow(conv, row).Item?
  {
  }

  /** A history number cell with thousands separators reads as the same cell without them. */
  lemma HistoryNumberIgnoresCommas(conv: Converters, a: string, b: string)
    ensures Number(conv, a + "," + b) == Number(conv, a + b)
  {
    RemoveCharAppend(a + ",", b, ',');
    RemoveCharAppend(a, ",", ',');
    assert RemoveChar(",", ',') == "" by {
      assert ","[1..] == "";
    }
    assert RemoveChar(a, ',') + "" == RemoveChar(a, ',');
    RemoveCharAppend(a, b, ',');
  }
}
