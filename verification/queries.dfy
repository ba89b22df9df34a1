/**
 * The result sets of the two analytic queries over the quote table. Each
 * query is a self-join of quotes; its meaning is stated as a set
 * comprehension over pairs of quotes, and the loops that compute it return
 * a sequence holding exactly those rows. SQL gives no row order, so only
 * membership is promised.
 */
module Queries {
  import opened Wrappers
  import opened Models

  /** A row of the analytics query: one price type compared between two dates. */
  datatype AnalyticsRow = AnalyticsRow(
    startDate: Date,
    endDate: Date,
    startPrice: real,
    endPrice: real,
    priceType: PriceType,
    priceDiff: real)

  /** A row of the delta query: one price column compared between two dates. */
  datatype DeltaRow = DeltaRow(
    startDate: Date,
    endDate: Date,
    startPrice: real,
    endPrice: real,
    dateDiff: int,
    priceDiff: real)

  /** SQL `abs`. */
  function Abs(x: real): (r: real)
    ensures r >= 0.0 && (r == x || r == -x)
  {
    if x < 0.0 then -x else x
  }

  /** The rows a join produces from each pair of quotes, collected over all pairs. */
  function JoinSet<R(==)>(left: seq<QuoteData>, right: seq<QuoteData>, f: (QuoteData, QuoteData) -> seq<R>): set<R> {
    set a, b, r | a in left && b in right && r in f(a, b) :: r
  }

  /**
   * The nested-loop join of the quote table with itself: every pair of
   * quotes, in either order and including a quote with itself, contributes
   * its rows.
   */
  method SelfJoin<R(==)>(quotes: seq<QuoteData>, f: (QuoteData, QuoteData) -> seq<R>) returns (rows: seq<R>)
    ensures forall r :: r in rows <==> r in JoinSet(quotes, quotes, f)
  {
    rows := [];
    for i := 0 to |quotes|
      invariant forall r :: r in rows <==> r in JoinSet(quotes[..i], quotes, f)
    {
      for j := 0 to |quotes|
        invariant forall r :: r in rows <==> r in JoinSet(quotes[..i], quotes, f) || r in JoinSet([quotes[i]], quotes[..j], f)
      {
        assert quotes[..j + 1] == quotes[..j] + [quotes[j]];
        rows := rows + f(quotes[i], quotes[j]);
      }
      assert quotes[..i + 1] == quotes[..i] + [quotes[i]];
      assert quotes[..|quotes|] == quotes;
    }
    assert quotes[..|quotes|] == quotes;
  }

  // ---------------------------------------------------------------------------
  // Analytics: `pivoted` lists each quote once per price type; the join pairs
  // two pivoted rows of the same stock and price type with p1.date < p2.date,
  // p1.date >= date_from and p2.date <= date_to.
  // ---------------------------------------------------------------------------

  /** The join and WHERE conditions of the analytics query, apart from the price type. */
  predicate AnalyticsPair(q1: QuoteData, q2: QuoteData, stockId: nat, dateFrom: Date, dateTo: Date) {
    && q1.stockId == stockId && q2.stockId == stockId
    && q1.date < q2.date
    && dateFrom <= q1.date && q2.date <= dateTo
  }

  /** The output row for two quotes and one price type. */
  function AnalyticsOf(q1: QuoteData, q2: QuoteData, p: PriceType): AnalyticsRow {
    AnalyticsRow(q1.date, q2.date, Price(q1, p), Price(q2, p), p, Abs(Price(q1, p) - Price(q2, p)))
  }

  /** The result set of the analytics query for one stock and date window. */
  function AnalyticsSpec(quotes: seq<QuoteData>, stockId: nat, dateFrom: Date, dateTo: Date): set<AnalyticsRow> {
    set q1, q2, p | q1 in quotes && q2 in quotes && p in PriceTypes && AnalyticsPair(q1, q2, stockId, dateFrom, dateTo)
      :: AnalyticsOf(q1, q2, p)
  }

  /** The rows one pair of quotes contributes: one per price type when the pair qualifies. */
  function AnalyticsRowsOf(stockId: nat, dateFrom: Date, dateTo: Date, q1: QuoteData, q2: QuoteData): (r: seq<AnalyticsRow>)
    ensures forall row :: row in r <==>
      AnalyticsPair(q1, q2, stockId, dateFrom, dateTo) && exists p :: p in PriceTypes && row == AnalyticsOf(q1, q2, p)
  {
    if AnalyticsPair(q1, q2, stockId, dateFrom, dateTo) then
      var r := seq(|PriceTypes|, k requires 0 <= k < |PriceTypes| => AnalyticsOf(q1, q2, PriceTypes[k]));
      assert forall p :: p in PriceTypes ==> AnalyticsOf(q1, q2, p) in r by {
        forall p | p in PriceTypes
          ensures AnalyticsOf(q1, q2, p) in r
        {
          var k :| 0 <= k < |PriceTypes| && PriceTypes[k] == p;
          assert r[k] == AnalyticsOf(q1, q2, p);
        }
      }
      r
    else []
  }

  /**
   * The analytics query: exactly the rows of the specification, each
   * spanning a positive number of days inside the window with a
   * non-negative price difference.
   */
  method AnalyticsQuery(quotes: seq<QuoteData>, stockId: nat, dateFrom: Date, dateTo: Date) returns (rows: seq<AnalyticsRow>)
    ensures forall r :: r in rows <==> r in AnalyticsSpec(quotes, stockId, dateFrom, dateTo)
    ensures forall r :: r in rows ==>
      && dateFrom <= r.startDate < r.endDate <= dateTo
      && r.priceDiff == Abs(r.startPrice - r.endPrice) && r.priceDiff >= 0.0
  {
    var f := (q1, q2) => AnalyticsRowsOf(stockId, dateFrom, dateTo, q1, q2);
    rows := SelfJoin(quotes, f);
    forall r
      ensures r in JoinSet(quotes, quotes, f) <==> r in AnalyticsSpec(quotes, stockId, dateFrom, dateTo)
    {
      if r in AnalyticsSpec(quotes, stockId, dateFrom, dateTo) {
        var q1, q2, p :| q1 in quotes && q2 in quotes && p in PriceTypes
          && AnalyticsPair(q1, q2, stockId, dateFrom, dateTo) && r == AnalyticsOf(q1, q2, p);
        assert r in f(q1, q2);
      }
    }
  }

  /**
   * Every analytics row pairs two quotes of the stock inside the window, the
   * earlier first, with the prices of its own price type; and every such
   * pair and price type yields a row.
   */
  lemma AnalyticsRowMeaning(quotes: seq<QuoteData>, stockId: nat, dateFrom: Date, dateTo: Date, r: AnalyticsRow)
    ensures r in AnalyticsSpec(quotes, stockId, dateFrom, dateTo) <==>
      exists q1, q2 :: JoinedBy(r, q1, q2, quotes, stockId, dateFrom, dateTo)
  {
    PriceTypeMembers("");
    if r in AnalyticsSpec(quotes, stockId, dateFrom, dateTo) {
      var q1, q2, p :| q1 in quotes && q2 in quotes && p in PriceTypes
        && AnalyticsPair(q1, q2, stockId, dateFrom, dateTo) && r == AnalyticsOf(q1, q2, p);
      assert JoinedBy(r, q1, q2, quotes, stockId, dateFrom, dateTo);
    }
    if exists q1, q2 :: JoinedBy(r, q1, q2, quotes, stockId, dateFrom, dateTo) {
      var q1, q2 :| JoinedBy(r, q1, q2, quotes, stockId, dateFrom, dateTo);
      assert r == AnalyticsOf(q1, q2, r.priceType);
    }
  }

  /** `r` is the row the analytics join makes from `q1` and `q2` for its price type. */
  predicate JoinedBy(r: AnalyticsRow, q1: QuoteData, q2: QuoteData, quotes: seq<QuoteData>, stockId: nat, dateFrom: Date, dateTo: Date) {
    && q1 in quotes && q2 in quotes
    && q1.stockId == stockId && q2.stockId == stockId
    && dateFrom <= q1.date < q2.date <= dateTo
    && r.startDate == q1.date && r.endDate == q2.date
    && r.startPrice == Price(q1, r.priceType) && r.endPrice == Price(q2, r.priceType)
    && r.priceDiff == Abs(r.startPrice - r.endPrice)
  }

  /** A window of no days holds no pair of dates. */
  lemma AnalyticsEmptyWindow(quotes: seq<QuoteData>, stockId: nat, dateFrom: Date, dateTo: Date)
    requires dateTo <= dateFrom
    ensures AnalyticsSpec(quotes, stockId, dateFrom, dateTo) == {}
  {
  }

  // ---------------------------------------------------------------------------
  // Delta: `diff_subquery` pairs two quotes of the stock with q1.date <
  // q2.date whose chosen prices differ by at least `value`; the query keeps
  // the pairs whose day gap equals the smallest gap among them.
  // ---------------------------------------------------------------------------

  /** The WHERE conditions of `diff_subquery`. */
  predicate DeltaPair(q1: QuoteData, q2: QuoteData, stockId: nat, p: PriceType, value: real) {
    && q1.stockId == stockId && q2.stockId == stockId
    && q1.date < q2.date
    && Abs(Price(q1, p) - Price(q2, p)) >= value
  }

  function DeltaOf(q1: QuoteData, q2: QuoteData, p: PriceType): DeltaRow {
    DeltaRow(q1.date, q2.date, Price(q1, p), Price(q2, p), q2.date - q1.date, Abs(Price(q1, p) - Price(q2, p)))
  }

  /** The rows of `diff_subquery`: every qualifying pair. */
  function DeltaCandidates(quotes: seq<QuoteData>, stockId: nat, p: PriceType, value: real): set<DeltaRow> {
    set q1, q2 | q1 in quotes && q2 in quotes && DeltaPair(q1, q2, stockId, p, value) :: DeltaOf(q1, q2, p)
  }

  /** The result set of the delta query: the qualifying pairs with the smallest gap. */
  function DeltaSpec(quotes: seq<QuoteData>, stockId: nat, p: PriceType, value: real): set<DeltaRow> {
    var candidates := DeltaCandidates(quotes, stockId, p, value);
    set r | r in candidates && forall c :: c in candidates ==> r.dateDiff <= c.dateDiff
  }

  function DeltaRowsOf(stockId: nat, p: PriceType, value: real, q1: QuoteData, q2: QuoteData): (r: seq<DeltaRow>)
    ensures forall row :: row in r <==> DeltaPair(q1, q2, stockId, p, value) && row == DeltaOf(q1, q2, p)
  {
    if DeltaPair(q1, q2, stockId, p, value) then [DeltaOf(q1, q2, p)] else []
  }

  /** The smallest gap among the candidates, when there is one: SQL `MIN(date_diff)`. */
  method MinDateDiff(candidates: seq<DeltaRow>) returns (m: Option<int>)
    ensures m.None? <==> |candidates| == 0
    ensures m.Some? ==>
      && (exists k :: 0 <= k < |candidates| && candidates[k].dateDiff == m.value)
      && (forall k :: 0 <= k < |candidates| ==> m.value <= candidates[k].dateDiff)
  {
    m := None;
    for i := 0 to |candidates|
      invariant m.None? <==> i == 0
      invariant m.Some? ==>
        && (exists k :: 0 <= k < i && candidates[k].dateDiff == m.value)
        && (forall k :: 0 <= k < i ==> m.value <= candidates[k].dateDiff)
    {
      if m.None? || candidates[i].dateDiff < m.value {
        m := Some(candidates[i].dateDiff);
      }
    }
  }

  /** The candidates with the given gap, in order: `WHERE date_diff = ...`. */
  method KeepDateDiff(candidates: seq<DeltaRow>, gap: int) returns (rows: seq<DeltaRow>)
    ensures forall r :: r in rows <==> r in candidates && r.dateDiff == gap
    ensures |rows| <= |candidates|
  {
    rows := [];
    for i := 0 to |candidates|
      invariant forall r :: r in rows <==> r in candidates[..i] && r.dateDiff == gap
      invariant |rows| <= i
    {
      assert candidates[..i + 1] == candidates[..i] + [candidates[i]];
      if candidates[i].dateDiff == gap {
        rows := rows + [candidates[i]];
      }
    }
    assert candidates[..|candidates|] == candidates;
  }

  /**
   * The delta query: exactly the rows of the specification. All rows share
   * one gap, the smallest among qualifying pairs, and the result is empty
   * exactly when no pair qualifies.
   */
  method DeltaQuery(quotes: seq<QuoteData>, stockId: nat, p: PriceType, value: real) returns (rows: seq<DeltaRow>)
    ensures forall r :: r in rows <==> r in DeltaSpec(quotes, stockId, p, value)
    ensures forall i, j :: 0 <= i < |rows| && 0 <= j < |rows| ==> rows[i].dateDiff == rows[j].dateDiff
    ensures |rows| == 0 <==> DeltaCandidates(quotes, stockId, p, value) == {}
  {
    var f := (q1, q2) => DeltaRowsOf(stockId, p, value, q1, q2);
    var candidates := SelfJoin(quotes, f);
    ghost var spec := DeltaCandidates(quotes, stockId, p, value);
    forall r
      ensures r in candidates <==> r in spec
    {
      if r in spec {
        var q1, q2 :| q1 in quotes && q2 in quotes && DeltaPair(q1, q2, stockId, p, value) && r == DeltaOf(q1, q2, p);
        assert r in f(q1, q2);
      }
    }
    var least := MinDateDiff(candidates);
    if least.None? {
      rows := [];
    } else {
      rows := KeepDateDiff(candidates, least.value);
      var k :| 0 <= k < |candidates| && candidates[k].dateDiff == least.value;
      assert candidates[k] in rows;
      forall r
        ensures r in rows <==> r in DeltaSpec(quotes, stockId, p, value)
      {
        if r in DeltaSpec(quotes, stockId, p, value) {
          assert candidates[k] in spec;
        }
      }
    }
  }

  /**
   * Every delta row joins two quotes of the stock, the earlier first, whose
   * chosen prices differ by at least `value`; its gap is the number of days
   * between them, and no qualifying pair is closer.
   */
  lemma DeltaRowMeaning(quotes: seq<QuoteData>, stockId: nat, p: PriceType, value: real, r: DeltaRow)
    requires r in DeltaSpec(quotes, stockId, p, value)
    ensures exists q1, q2 ::
      (&& q1 in quotes && q2 in quotes
       && q1.stockId == stockId && q2.stockId == stockId
       && r.startDate == q1.date && r.endDate == q2.date
       && r.startPrice == Price(q1, p) && r.endPrice == Price(q2, p))
    ensures 0 < r.dateDiff == r.endDate - r.startDate
    ensures r.priceDiff == Abs(r.startPrice - r.endPrice) >= value
    ensures forall q1, q2 :: q1 in quotes && q2 in quotes && DeltaPair(q1, q2, stockId, p, value) ==>
      r.dateDiff <= q2.date - q1.date
  {
    forall q1, q2 | q1 in quotes && q2 in quotes && DeltaPair(q1, q2, stockId, p, value)
      ensures r.dateDiff <= q2.date - q1.date
    {
      assert DeltaOf(q1, q2, p) in DeltaCandidates(quotes, stockId, p, value);
    }
  }

  /** A non-empty set of rows holds one whose gap is smallest. */
  lemma {:induction false} SmallestGap(rows: set<DeltaRow>) returns (m: DeltaRow)
    requires rows != {}
    ensures m in rows && forall c :: c in rows ==> m.dateDiff <= c.dateDiff
    decreases |rows|
  {
    var x :| x in rows;
    if rows == {x} {
      m := x;
    } else {
      var rest := SmallestGap(rows - {x});
      m := if x.dateDiff < rest.dateDiff then x else rest;
    }
  }

  /**
   * The delta result is empty exactly when no pair qualifies, and a larger
   * threshold never admits a pair a smaller one rejects, so it can only
   * widen the smallest gap.
   */
  lemma DeltaThreshold(quotes: seq<QuoteData>, stockId: nat, p: PriceType, v1: real, v2: real)
    requires v1 <= v2
    ensures DeltaSpec(quotes, stockId, p, v1) == {} <==> DeltaCandidates(quotes, stockId, p, v1) == {}
    ensures DeltaCandidates(quotes, stockId, p, v2) <= DeltaCandidates(quotes, stockId, p, v1)
    ensures forall r1, r2 :: r1 in DeltaSpec(quotes, stockId, p, v1) && r2 in DeltaSpec(quotes, stockId, p, v2) ==>
      r1.dateDiff <= r2.dateDiff
  {
    var c1 := DeltaCandidates(quotes, stockId, p, v1);
    if c1 != {} {
      var m := SmallestGap(c1);
      assert m in DeltaSpec(quotes, stockId, p, v1);
    }
    assert DeltaCandidates(quotes, stockId, p, v2) <= c1;
  }
}
