/**
 * The database models of the stocks application: the two enumerations with
 * their `__str__`, the data fields of `Stock`, `Quote`, `Insider` and
 * `Trade`, their natural keys and the column constraints the database
 * enforces on them.
 */
module Models {
  import opened Wrappers

  /** How an insider holds the traded shares. */
  datatype OwnerType = Direct | Indirect

  /** The enum value: `direct = 1`, `indirect = 2`. */
  function OwnerTypeValue(o: OwnerType): int {
    match o
    case Direct => 1
    case Indirect => 2
  }

  /** `str(o)`, which is the member name. */
  function OwnerTypeName(o: OwnerType): (r: string)
    ensures r == ["direct", "indirect"][OwnerTypeValue(o) - 1]
  {
    match o
    case Direct => "direct"
    case Indirect => "indirect"
  }

  /** The members in declaration order. */
  const OwnerTypes: seq<OwnerType> := [Direct, Indirect]

  /** The member a name denotes, as the enum column accepts a member name. */
  function OwnerTypeFromName(s: string): (r: Option<OwnerType>)
    ensures r.Some? ==> OwnerTypeName(r.value) == s
    ensures r.None? ==> forall o: OwnerType :: OwnerTypeName(o) != s
  {
    if s == "direct" then Some(Direct)
    else if s == "indirect" then Some(Indirect)
    else None
  }

  /** Exactly two members, with distinct values 1 and 2, each found again from its name. */
  lemma OwnerTypeMembers()
    ensures forall o: OwnerType :: o in OwnerTypes
    ensures |OwnerTypes| == 2
    ensures forall i :: 0 <= i < |OwnerTypes| ==> OwnerTypeValue(OwnerTypes[i]) == i + 1
    ensures forall o: OwnerType :: OwnerTypeFromName(OwnerTypeName(o)) == Some(o)
  {
    forall o: OwnerType
      ensures o in OwnerTypes
    {
      assert OwnerTypes[OwnerTypeValue(o) - 1] == o;
    }
  }

  /** Which of the four daily prices of a quote is meant. */
  datatype PriceType = Open | Close | Low | High

  /** The enum value: `open = 1`, `close = 2`, `low = 3`, `high = 4`. */
  function PriceTypeValue(p: PriceType): int {
    match p
    case Open => 1
    case Close => 2
    case Low => 3
    case High => 4
  }

  /** `str(p)`, which is the member name. */
  function PriceTypeName(p: PriceType): (r: string)
    ensures r == ["open", "close", "low", "high"][PriceTypeValue(p) - 1]
  {
    match p
    case Open => "open"
    case Close => "close"
    case Low => "low"
    case High => "high"
  }

  /** The members in declaration order. */
  const PriceTypes: seq<PriceType> := [Open, Close, Low, High]

  /** `list(map(str, PriceType))`: the accepted spellings of a price type. */
  function PriceTypeNames(): (r: seq<string>)
    ensures |r| == |PriceTypes|
    ensures forall i :: 0 <= i < |r| ==> r[i] == PriceTypeName(PriceTypes[i])
  {
    ["open", "close", "low", "high"]
  }

  function PriceTypeFromName(s: string): (r: Option<PriceType>)
    ensures r.Some? ==> PriceTypeName(r.value) == s
    ensures r.None? ==> forall p: PriceType :: PriceTypeName(p) != s
  {
    if s == "open" then Some(Open)
    else if s == "close" then Some(Close)
    else if s == "low" then Some(Low)
    else if s == "high" then Some(High)
    else None
  }

  /** Exactly four members with values 1 to 4, and a string is a member name iff it names one. */
  lemma PriceTypeMembers(s: string)
    ensures forall p: PriceType :: p in PriceTypes
    ensures |PriceTypes| == 4
    ensures forall i :: 0 <= i < |PriceTypes| ==> PriceTypeValue(PriceTypes[i]) == i + 1
    ensures forall p: PriceType :: PriceTypeFromName(PriceTypeName(p)) == Some(p)
    ensures s in PriceTypeNames() <==> PriceTypeFromName(s).Some?
  {
    forall p: PriceType
      ensures p in PriceTypes
    {
      assert PriceTypes[PriceTypeValue(p) - 1] == p;
    }
  }

  /** A calendar date, as a day number, so that subtracting two dates counts days. */
  type Date = int

  /** The data fields of a `Stock` row (everything but `id`). */
  datatype StockData = StockData(ticker: string)

  /** The data fields of a `Quote` row. */
  datatype QuoteData = QuoteData(
    stockId: nat,
    date: Date,
    openPrice: real,
    closePrice: real,
    highPrice: real,
    lowPrice: real,
    volume: real)

  /** The data fields of an `Insider` row. */
  datatype InsiderData = InsiderData(name: string, relation: string)

  /** The data fields of a `Trade` row; `lastPrice` is its only nullable one. */
  datatype TradeData = TradeData(
    stockId: nat,
    insiderId: nat,
    transactionType: string,
    ownerType: OwnerType,
    lastDate: Date,
    sharesTraded: int,
    lastPrice: Option<real>,
    sharesHold: int)

  /** Column widths of the `String(n)` columns. */
  const TickerWidth := 5
  const InsiderNameWidth := 100
  const RelationWidth := 50
  const TransactionTypeWidth := 100

  /** A stock row the database stores: the ticker fits `String(5)`. */
  predicate StockFits(d: StockData) {
    |d.ticker| <= TickerWidth
  }

  /** An insider row the database stores: name fits `String(100)`, relation `String(50)`. */
  predicate InsiderFits(d: InsiderData) {
    |d.name| <= InsiderNameWidth && |d.relation| <= RelationWidth
  }

  /** The range of PostgreSQL's `integer`, the type of a `db.Integer` column. */
  const IntegerMin := -0x8000_0000
  const IntegerMax := 0x7fff_ffff

  predicate FitsInteger(n: int) {
    IntegerMin <= n <= IntegerMax
  }

  /**
   * A float written into a `db.Integer` column. The driver sends it as a
   * numeric literal, and PostgreSQL rounds a numeric to the nearest
   * integer, halves away from zero.
   */
  function RoundToInteger(x: real): (n: int)
    ensures x >= 0.0 ==> n as real - 0.5 <= x < n as real + 0.5
    ensures x < 0.0 ==> n as real - 0.5 < x <= n as real + 0.5
  {
    if x >= 0.0 then (x + 0.5).Floor else -((-x + 0.5).Floor)
  }

  /** A whole number is stored as itself, and rounding is monotone. */
  lemma RoundToIntegerWhole(n: int, x: real, y: real)
    requires x <= y
    ensures RoundToInteger(n as real) == n
    ensures RoundToInteger(x) <= RoundToInteger(y)
  {
  }

  /**
   * A trade row the database stores: the transaction type fits
   * `String(100)` and both share counts fit `integer`.
   */
  predicate TradeFits(d: TradeData) {
    && |d.transactionType| <= TransactionTypeWidth
    && FitsInteger(d.sharesTraded)
    && FitsInteger(d.sharesHold)
  }

  /** Natural keys: `Stock.ticker` and `Insider.name` are unique, `Quote` is unique on `(stock_id, date)`. */
  function StockKey(d: StockData): string {
    d.ticker
  }

  function QuoteKey(d: QuoteData): (nat, Date) {
    (d.stockId, d.date)
  }

  function InsiderKey(d: InsiderData): string {
    d.name
  }

  /** The value of the price column that a price type selects. */
  function Price(q: QuoteData, p: PriceType): real {
    match p
    case Open => q.openPrice
    case Close => q.closePrice
    case Low => q.lowPrice
    case High => q.highPrice
  }

  /** The column name a delta request compares: the type name followed by `_price`. */
  function PriceColumn(p: PriceType): string {
    PriceTypeName(p) + "_price"
  }

  /** A numeric column of a quote looked up by its database name. */
  function QuoteColumn(q: QuoteData, column: string): Option<real> {
    if column == "open_price" then Some(q.openPrice)
    else if column == "close_price" then Some(q.closePrice)
    else if column == "high_price" then Some(q.highPrice)
    else if column == "low_price" then Some(q.lowPrice)
    else if column == "volume" then Some(q.volume)
    else None
  }

  /** The column a price type names is the quote field that price type selects. */
  lemma PriceColumnSelects(q: QuoteData, p: PriceType)
    ensures QuoteColumn(q, PriceColumn(p)) == Some(Price(q, p))
  {
    match p
    case Open => assert PriceColumn(p) == "open_price";
    case Close => assert PriceColumn(p) == "close_price";
    case Low => assert PriceColumn(p) == "low_price";
    case High => assert PriceColumn(p) == "high_price";
  }
}
