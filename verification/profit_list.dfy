/**
 * The profit list: every common pair with an analysis, with the spread
 * between its lowest and highest price as a percentage of the lowest.
 */
module ProfitList {

  import opened Wrappers
  import opened Exchanges
  import opened CommonPairs
  import opened PriceAnalysis

  /** One row of the list. */
  datatype ProfitEntry = ProfitEntry(
    pair: string,
    minExchange: Exchange,
    maxExchange: Exchange,
    minPrice: real,
    maxPrice: real,
    profitPercentage: real)

  /**
   * `(max - min) / min * 100`: never negative for a positive minimum not
   * above the maximum, and zero exactly when the two prices agree.
   */
  function ProfitPercentage(minPrice: real, maxPrice: real): (profit: real)
    requires minPrice != 0.0
    ensures profit == 0.0 <==> minPrice == maxPrice
    ensures 0.0 < minPrice ==> (0.0 <= profit <==> minPrice <= maxPrice)
  {
    (maxPrice - minPrice) / minPrice * 100.0
  }

  /** The spread of 100 against 110 is 10 percent; of 50 against 50, none. */
  lemma ProfitPercentageExamples()
    ensures ProfitPercentage(100.0, 110.0) == 10.0
    ensures ProfitPercentage(50.0, 50.0) == 0.0
  {
  }

  /**
   * The analysis the command obtains for each pair: `analyzePriceForPair`
   * over the fixed listings, with the price lookups `quotesFor(pair)`.
   */
  function AnalysisOf(l: Listings, quotesFor: string -> Prices): string -> Option<Analysis>
  {
    pair => AnalyzePriceForPair(l, pair, quotesFor(pair))
  }

  /**
   * An analysis whose minimum price is not zero. The source divides by that
   * price without a guard, so this is what its callers must provide.
   */
  predicate NonZeroMinimum(a: Option<Analysis>)
  {
    a.Some? ==> a.value.minPrice.price != 0.0
  }

  /**
   * `entry` is the row of analysis `a`: it copies the analysis unchanged and
   * carries `(max - min) / min * 100` as its profit.
   */
  predicate IsRowOf(entry: ProfitEntry, a: Analysis)
  {
    && a == Analysis(Quote(entry.minExchange, entry.minPrice), Quote(entry.maxExchange, entry.maxPrice))
    && entry.minPrice != 0.0
    && entry.profitPercentage == (entry.maxPrice - entry.minPrice) / entry.minPrice * 100.0
  }

  /**
   * A row's profit has the sign of its spread: for a positive minimum it is
   * not negative exactly when the minimum is at most the maximum.
   */
  lemma RowProfitSign(entry: ProfitEntry, a: Analysis)
    requires IsRowOf(entry, a)
    ensures 0.0 < entry.minPrice ==> (0.0 <= entry.profitPercentage <==> a.minPrice.price <= a.maxPrice.price)
  {
    // the row's profit is line 33's formula over the analysis's prices
  }

  /** The row for one pair, present exactly when the pair has an analysis. */
  function EntryFor(pair: string, prices: Option<Analysis>): (entry: Option<ProfitEntry>)
    requires NonZeroMinimum(prices)
    ensures entry.Some? <==> prices.Some?
    ensures entry.Some? ==> entry.value.pair == pair && IsRowOf(entry.value, prices.value)
  {
    if prices.None? then None
    else
      var minPrice := prices.value.minPrice.price;
      var maxPrice := prices.value.maxPrice.price;
      Some(ProfitEntry(pair, prices.value.minPrice.exchange, prices.value.maxPrice.exchange,
        minPrice, maxPrice, ProfitPercentage(minPrice, maxPrice)))
  }

  /** The rows for `pairs`, in their order, skipping the pairs without an analysis. */
  function ProfitEntries(analysisOf: string -> Option<Analysis>, pairs: seq<string>): seq<ProfitEntry>
    requires forall pair :: pair in pairs ==> NonZeroMinimum(analysisOf(pair))
  {
    if pairs == [] then []
    else
      var init := ProfitEntries(analysisOf, pairs[..|pairs| - 1]);
      var last := pairs[|pairs| - 1];
      match EntryFor(last, analysisOf(last))
      case None => init
      case Some(entry) => init + [entry]
  }

  /** The rows of a concatenation are the rows of each part, in order. */
  lemma {:induction false} ProfitEntriesAppend(analysisOf: string -> Option<Analysis>, a: seq<string>, b: seq<string>)
    requires forall pair :: pair in a + b ==> NonZeroMinimum(analysisOf(pair))
    ensures ProfitEntries(analysisOf, a + b) == ProfitEntries(analysisOf, a) + ProfitEntries(analysisOf, b)
    decreases |b|
  {
    if b == [] {
      assert a + b == a;
    } else {
      var b' := b[..|b| - 1];
      assert (a + b)[..|a + b| - 1] == a + b';
      assert (a + b)[|a + b| - 1] == b[|b| - 1];
      ProfitEntriesAppend(analysisOf, a, b');
    }
  }

  /** Every row is the row of one of the pairs; there are at most as many rows as pairs. */
  lemma {:induction false} ProfitEntriesSound(analysisOf: string -> Option<Analysis>, pairs: seq<string>)
    requires forall pair :: pair in pairs ==> NonZeroMinimum(analysisOf(pair))
    ensures |ProfitEntries(analysisOf, pairs)| <= |pairs|
    ensures forall entry :: entry in ProfitEntries(analysisOf, pairs) ==>
      entry.pair in pairs && analysisOf(entry.pair).Some? && IsRowOf(entry, analysisOf(entry.pair).value)
  {
    if pairs != [] {
      var init := pairs[..|pairs| - 1];
      assert forall pair :: pair in init ==> pair in pairs;
      ProfitEntriesSound(analysisOf, init);
    }
  }

  /** Every pair with an analysis gets a row. */
  lemma {:induction false} ProfitEntriesComplete(analysisOf: string -> Option<Analysis>, pairs: seq<string>, pair: string)
    requires forall p :: p in pairs ==> NonZeroMinimum(analysisOf(p))
    requires pair in pairs && analysisOf(pair).Some?
    ensures exists entry :: entry in ProfitEntries(analysisOf, pairs) && entry.pair == pair
  {
    var last := pairs[|pairs| - 1];
    var init := pairs[..|pairs| - 1];
    assert forall p :: p in init ==> p in pairs;
    var rows := ProfitEntries(analysisOf, pairs);
    var initRows := ProfitEntries(analysisOf, init);
    var lastRow := EntryFor(last, analysisOf(last));
    assert rows == initRows + (if lastRow.Some? then [lastRow.value] else []);
    if pair == last {
      assert lastRow.value in rows;
    } else {
      assert pairs == init + [last];
      ProfitEntriesComplete(analysisOf, init, pair);
      var entry :| entry in initRows && entry.pair == pair;
      assert entry in rows;
    }
  }

  /**
   * On the command's own analyses, a common pair has a row exactly when at
   * least one exchange returned a price for it; the other common pairs get
   * no row. This takes the error report on the no-price path to return
   * normally.
   */
  lemma CommonPairRowIffPriced(l: Listings, quotesFor: string -> Prices, pair: string)
    requires forall p :: p in GetCommonPairs(l) ==> NonZeroMinimum(AnalysisOf(l, quotesFor)(p))
    requires pair in GetCommonPairs(l)
    ensures (exists entry :: entry in ProfitEntries(AnalysisOf(l, quotesFor), GetCommonPairs(l)) && entry.pair == pair)
      <==> !NoPrices(quotesFor(pair))
  {
    var analysisOf := AnalysisOf(l, quotesFor);
    var common := GetCommonPairs(l);
    assert analysisOf(pair) == AnalyzePriceForPair(l, pair, quotesFor(pair));
    if !NoPrices(quotesFor(pair)) {
      ProfitEntriesComplete(analysisOf, common, pair);
    } else {
      ProfitEntriesSound(analysisOf, common);
    }
  }

  /**
   * On the command's own analyses, every row holds its pair's lowest and
   * highest price, each with the first exchange that quoted it, and a
   * profit that is not negative when the lowest price is positive.
   */
  lemma CommonPairRowFaithful(l: Listings, quotesFor: string -> Prices, entry: ProfitEntry)
    requires forall p :: p in GetCommonPairs(l) ==> NonZeroMinimum(AnalysisOf(l, quotesFor)(p))
    requires entry in ProfitEntries(AnalysisOf(l, quotesFor), GetCommonPairs(l))
    ensures entry.pair in GetCommonPairs(l)
    ensures IsAnalysisOf(quotesFor(entry.pair),
      Analysis(Quote(entry.minExchange, entry.minPrice), Quote(entry.maxExchange, entry.maxPrice)))
    ensures 0.0 < entry.minPrice ==> 0.0 <= entry.profitPercentage
  {
    var analysisOf := AnalysisOf(l, quotesFor);
    assert entry.pair in GetCommonPairs(l) && analysisOf(entry.pair).Some?
      && IsRowOf(entry, analysisOf(entry.pair).value) by {
      ProfitEntriesSound(analysisOf, GetCommonPairs(l));
    }
    var a := analysisOf(entry.pair).value;
    assert IsAnalysisOf(quotesFor(entry.pair), a) && a.minPrice.price <= a.maxPrice.price by {
      assert analysisOf(entry.pair) == AnalyzePriceForPair(l, entry.pair, quotesFor(entry.pair));
    }
    RowProfitSign(entry, a);
  }

  /** Extending a prefix of the pairs by one pair adds that pair's row, if it has one, at the end. */
  lemma ProfitEntriesStep(analysisOf: string -> Option<Analysis>, pairs: seq<string>, i: nat)
    requires i < |pairs|
    requires forall p :: p in pairs ==> NonZeroMinimum(analysisOf(p))
    ensures forall p :: p in pairs[..i + 1] ==> NonZeroMinimum(analysisOf(p))
    ensures ProfitEntries(analysisOf, pairs[..i + 1]) ==
      ProfitEntries(analysisOf, pairs[..i]) + (match EntryFor(pairs[i], analysisOf(pairs[i])) case None => [] case Some(row) => [row])
  {
    assert pairs[..i + 1][..i] == pairs[..i];
  }

  /**
   * `ProfitList::handle` up to the table output: walk the common pairs in
   * order and append a row for every pair that has an analysis.
   */
  method Handle(l: Listings, quotesFor: string -> Prices) returns (profitList: seq<ProfitEntry>)
    requires forall pair :: pair in GetCommonPairs(l) ==> NonZeroMinimum(AnalysisOf(l, quotesFor)(pair))
    ensures profitList == ProfitEntries(AnalysisOf(l, quotesFor), GetCommonPairs(l))
  {
    ghost var analysisOf := AnalysisOf(l, quotesFor);
    var commonPairs := GetCommonPairs(l);
    profitList := [];
    for i := 0 to |commonPairs|
      invariant forall p :: p in commonPairs[..i] ==> NonZeroMinimum(analysisOf(p))
      invariant profitList == ProfitEntries(analysisOf, commonPairs[..i])
    {
      var pair := commonPairs[i];
      ProfitEntriesStep(analysisOf, commonPairs, i);
      var prices := AnalyzePriceForPair(l, pair, quotesFor(pair));
      assert prices == analysisOf(pair);
      if prices.Some? {
        var minPrice := prices.value.minPrice.price;
        var maxPrice := prices.value.maxPrice.price;
        var profitPercentage := ProfitPercentage(minPrice, maxPrice);
        profitList := profitList + [ProfitEntry(pair, prices.value.minPrice.exchange,
          prices.value.maxPrice.exchange, minPrice, maxPrice, profitPercentage)];
      }
    }
    assert commonPairs[..|commonPairs|] == commonPairs;
  }
}
