/**
 * Price aggregation for one pair: the five exchange prices are collected in
 * a fixed order, nulls dropped, and the lowest and highest price reported
 * together with the first exchange that quotes each.
 */
module PriceAnalysis {

  import opened Wrappers
  import opened Exchanges
  import opened CommonPairs

  /** The five price lookups for one pair; `None` is a lookup that failed or found no price. */
  datatype Prices = Prices(
    binance: Option<real>,
    jbex: Option<real>,
    poloniex: Option<real>,
    bybit: Option<real>,
    whitebit: Option<real>)

  /** A price together with the exchange that quoted it. */
  datatype Quote = Quote(exchange: Exchange, price: real)

  /** The result of an analysis: the `min_price` and `max_price` entries. */
  datatype Analysis = Analysis(minPrice: Quote, maxPrice: Quote)

  function PriceOf(p: Prices, e: Exchange): Option<real>
  {
    match e
    case Binance => p.binance
    case Jbex => p.jbex
    case Poloniex => p.poloniex
    case Bybit => p.bybit
    case Whitebit => p.whitebit
  }

  /** No exchange returned a price. */
  predicate NoPrices(p: Prices)
  {
    forall e :: PriceOf(p, e).None?
  }

  /** The exchange of `q` returned exactly the price of `q`. */
  predicate Quoted(p: Prices, q: Quote)
  {
    PriceOf(p, q.exchange) == Some(q.price)
  }

  /** `v` is at most every returned price. */
  predicate Lowest(p: Prices, v: real)
  {
    forall e :: PriceOf(p, e).Some? ==> v <= PriceOf(p, e).value
  }

  /** `v` is at least every returned price. */
  predicate Highest(p: Prices, v: real)
  {
    forall e :: PriceOf(p, e).Some? ==> PriceOf(p, e).value <= v
  }

  /** `q` is quoted, and no exchange earlier in the collection order returned the same price. */
  predicate FirstToQuote(p: Prices, q: Quote)
  {
    Quoted(p, q) && forall e :: Rank(e) < Rank(q.exchange) ==> PriceOf(p, e) != Some(q.price)
  }

  /**
   * What an analysis of `p` means: the lowest and the highest returned
   * price, each attributed to the first exchange, in collection order,
   * that returned it.
   */
  predicate IsAnalysisOf(p: Prices, a: Analysis)
  {
    && FirstToQuote(p, a.minPrice) && Lowest(p, a.minPrice.price)
    && FirstToQuote(p, a.maxPrice) && Highest(p, a.maxPrice.price)
  }

  /** Quotes listed in strictly increasing collection order. */
  predicate InCollectionOrder(qs: seq<Quote>)
  {
    forall i, j :: 0 <= i < j < |qs| ==> Rank(qs[i].exchange) < Rank(qs[j].exchange)
  }

  /**
   * `array_filter` dropping null prices: the quoted exchanges of `order`,
   * with their prices, in `order`'s order.
   */
  function FilterPrices(p: Prices, order: seq<Exchange>): (qs: seq<Quote>)
    requires RankSorted(order)
    ensures forall q :: q in qs <==> q.exchange in order && Quoted(p, q)
    ensures InCollectionOrder(qs)
    ensures qs == [] <==> forall e :: e in order ==> PriceOf(p, e).None?
  {
    if order == [] then []
    else
      var rest := FilterPrices(p, order[1..]);
      match PriceOf(p, order[0])
      case None => rest
      case Some(v) =>
        assert forall j :: 0 <= j < |rest| ==> Rank(order[0]) < Rank(rest[j].exchange) by {
          forall j | 0 <= j < |rest| ensures Rank(order[0]) < Rank(rest[j].exchange) {
            assert rest[j] in rest;
            var k :| 0 <= k < |order[1..]| && order[1..][k] == rest[j].exchange;
            assert order[k + 1] == rest[j].exchange;
          }
        }
        [Quote(order[0], v)] + rest
  }

  /** PHP's `min` over the filtered prices: one of them, and at most each. */
  function MinPrice(qs: seq<Quote>): (m: real)
    requires qs != []
    ensures exists i :: 0 <= i < |qs| && qs[i].price == m
    ensures forall i :: 0 <= i < |qs| ==> m <= qs[i].price
  {
    if |qs| == 1 then qs[0].price
    else
      var rest := MinPrice(qs[1..]);
      if qs[0].price <= rest then qs[0].price else rest
  }

  /** PHP's `max` over the filtered prices: one of them, and at least each. */
  function MaxPrice(qs: seq<Quote>): (m: real)
    requires qs != []
    ensures exists i :: 0 <= i < |qs| && qs[i].price == m
    ensures forall i :: 0 <= i < |qs| ==> qs[i].price <= m
  {
    if |qs| == 1 then qs[0].price
    else
      var rest := MaxPrice(qs[1..]);
      if qs[0].price >= rest then qs[0].price else rest
  }

  /** `k` is the first position in `qs` whose price is `needle`. */
  predicate FirstMatchAt(qs: seq<Quote>, needle: real, k: int)
  {
    0 <= k < |qs| && qs[k].price == needle && forall j :: 0 <= j < k ==> qs[j].price != needle
  }

  /**
   * `array_search`: the exchange of the first quote whose price is
   * `needle`, or `None` (PHP's `false`) when no quote has that price.
   */
  function ArraySearch(needle: real, qs: seq<Quote>): (r: Option<Exchange>)
    ensures r.None? <==> forall i :: 0 <= i < |qs| ==> qs[i].price != needle
    ensures r.Some? ==> exists k :: FirstMatchAt(qs, needle, k) && qs[k].exchange == r.value
  {
    if qs == [] then None
    else if qs[0].price == needle then
      assert FirstMatchAt(qs, needle, 0);
      Some(qs[0].exchange)
    else
      var r := ArraySearch(needle, qs[1..]);
      assert r.Some? ==> exists k :: FirstMatchAt(qs, needle, k) && qs[k].exchange == r.value by {
        if r.Some? {
          var k :| FirstMatchAt(qs[1..], needle, k) && qs[1..][k].exchange == r.value;
          assert FirstMatchAt(qs, needle, k + 1) by {
            forall j | 0 <= j < k + 1 ensures qs[j].price != needle {
              if j > 0 { assert qs[j] == qs[1..][j - 1]; }
            }
          }
        }
      }
      r
  }

  /**
   * Searching quotes kept in collection order for a quoted price finds the
   * first exchange, in that order, that quoted it.
   */
  lemma SearchFindsFirstToQuote(p: Prices, qs: seq<Quote>, needle: real)
    requires forall q :: q in qs <==> Quoted(p, q)
    requires InCollectionOrder(qs)
    requires exists i :: 0 <= i < |qs| && qs[i].price == needle
    ensures ArraySearch(needle, qs).Some?
    ensures FirstToQuote(p, Quote(ArraySearch(needle, qs).value, needle))
  {
    var found := ArraySearch(needle, qs);
    var k :| FirstMatchAt(qs, needle, k) && qs[k].exchange == found.value;
    assert qs[k] in qs;
    forall e | PriceOf(p, e) == Some(needle) ensures Rank(qs[k].exchange) <= Rank(e) {
      assert Quote(e, needle) in qs;
      var i :| 0 <= i < |qs| && qs[i] == Quote(e, needle);
      if k < i {
        assert Rank(qs[k].exchange) < Rank(qs[i].exchange);
      }
    }
  }

  /** The filtered minimum is the lowest returned price, the maximum the highest. */
  lemma ExtremesBoundAllPrices(p: Prices, qs: seq<Quote>)
    requires forall q :: q in qs <==> Quoted(p, q)
    requires qs != []
    ensures Lowest(p, MinPrice(qs)) && Highest(p, MaxPrice(qs))
  {
    forall e | PriceOf(p, e).Some?
      ensures MinPrice(qs) <= PriceOf(p, e).value <= MaxPrice(qs)
    {
      assert Quote(e, PriceOf(p, e).value) in qs;
    }
  }

  lemma OrderIsSorted()
    ensures RankSorted(Order)
    ensures forall e :: e in Order
  {
    forall e ensures e in Order {
      assert Order[Rank(e)] == e;
    }
  }

  /**
   * The aggregation of lines 59-91 of `analyzePriceForPair`: no result when
   * no exchange returned a price, otherwise the lowest and highest price,
   * each attributed to the first exchange in collection order that returned
   * it.
   */
  function AnalyzePrices(p: Prices): (r: Option<Analysis>)
    ensures r.None? <==> NoPrices(p)
    ensures r.Some? ==> IsAnalysisOf(p, r.value)
    ensures r.Some? ==> r.value.minPrice.price <= r.value.maxPrice.price
  {
    OrderIsSorted();
    var filtered := FilterPrices(p, Order);
    if filtered == [] then None
    else
      var minPrice := MinPrice(filtered);
      var maxPrice := MaxPrice(filtered);
      SearchFindsFirstToQuote(p, filtered, minPrice);
      SearchFindsFirstToQuote(p, filtered, maxPrice);
      ExtremesBoundAllPrices(p, filtered);
      var minExchange := ArraySearch(minPrice, filtered);
      var maxExchange := ArraySearch(maxPrice, filtered);
      Some(Analysis(Quote(minExchange.value, minPrice), Quote(maxExchange.value, maxPrice)))
  }

  /** Two analyses of the same prices are the same analysis. */
  lemma AnalysisUnique(p: Prices, a: Analysis, b: Analysis)
    requires IsAnalysisOf(p, a) && IsAnalysisOf(p, b)
    ensures a == b
  {
    // both minima are returned prices bounding each other, likewise the
    // maxima, and only one exchange can be the first to quote a price
  }

  /**
   * The aggregation returns exactly the analysis that `IsAnalysisOf`
   * describes: the result is `a` if and only if `a` is an analysis of `p`.
   */
  lemma AnalyzePricesCharacterised(p: Prices, a: Analysis)
    ensures AnalyzePrices(p) == Some(a) <==> IsAnalysisOf(p, a)
  {
    if IsAnalysisOf(p, a) {
      assert !NoPrices(p) by {
        assert PriceOf(p, a.minPrice.exchange).Some?;
      }
      AnalysisUnique(p, AnalyzePrices(p).value, a);
    }
  }

  /** When exactly one exchange returns a price, both minimum and maximum are that quote. */
  lemma SingleQuote(p: Prices, e: Exchange, v: real)
    requires PriceOf(p, e) == Some(v)
    requires forall other :: other != e ==> PriceOf(p, other).None?
    ensures AnalyzePrices(p) == Some(Analysis(Quote(e, v), Quote(e, v)))
  {
    AnalyzePricesCharacterised(p, Analysis(Quote(e, v), Quote(e, v)));
  }

  /**
   * `analyzePriceForPair`, with the five price lookups for `pair` given
   * as `p`: no result for a pair that is not common to all five listings
   * (whatever the prices), nor when no exchange returned a price;
   * otherwise the analysis of the prices.
   */
  function AnalyzePriceForPair(l: Listings, pair: string, p: Prices): (r: Option<Analysis>)
    ensures r.Some? <==> ListedEverywhere(l, pair) && !NoPrices(p)
    ensures r.Some? ==> IsAnalysisOf(p, r.value)
    ensures r.Some? ==> r.value.minPrice.price <= r.value.maxPrice.price
  {
    if pair in GetCommonPairs(l) then AnalyzePrices(p) else None
  }
}
