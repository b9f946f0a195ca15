/**
 * Common-pair resolution: each exchange's listing becomes a list of
 * `BASE/QUOTE` strings, and the Binance list is intersected with the others.
 */
module CommonPairs {

  import opened Wrappers
  import opened Exchanges
  import opened PairFormat

  /** One entry of an exchange's market listing: its base and quote asset names. */
  datatype Symbol = Symbol(base: string, quote: string)

  /**
   * The parsed listing responses of the five exchanges. `None` stands for a
   * listing request that threw or whose response lacked the expected array.
   */
  datatype Listings = Listings(
    binance: Option<seq<Symbol>>,
    jbex: Option<seq<Symbol>>,
    poloniex: Option<seq<Symbol>>,
    bybit: Option<seq<Symbol>>,
    whitebit: Option<seq<Symbol>>)

  function ListingOf(l: Listings, e: Exchange): Option<seq<Symbol>>
  {
    match e
    case Binance => l.binance
    case Jbex => l.jbex
    case Poloniex => l.poloniex
    case Bybit => l.bybit
    case Whitebit => l.whitebit
  }

  /**
   * The pairs an exchange lists: every entry mapped to base `/` quote, in
   * listing order; a failed listing gives no pairs.
   */
  function ExchangePairs(listing: Option<seq<Symbol>>): (pairs: seq<string>)
    ensures listing.None? ==> pairs == []
    ensures listing.Some? ==> |pairs| == |listing.value|
  {
    match listing
    case None => []
    case Some(symbols) => seq(|symbols|, i requires 0 <= i < |symbols| => JoinPair(symbols[i].base, symbols[i].quote))
  }

  /**
   * Each listed pair is its entry's base, `/` and quote; when the asset
   * names have no `/`, its exchange symbol is base, separator and quote.
   */
  lemma ExchangePairAt(symbols: seq<Symbol>, i: nat, e: Exchange)
    requires i < |symbols|
    ensures ExchangePairs(Some(symbols))[i] == JoinPair(symbols[i].base, symbols[i].quote)
    ensures '/' !in symbols[i].base && '/' !in symbols[i].quote ==>
      FormatPairFor(e, ExchangePairs(Some(symbols))[i]) == symbols[i].base + Separator(e) + symbols[i].quote
  {
    if '/' !in symbols[i].base && '/' !in symbols[i].quote {
      FormatJoinedPair(e, symbols[i].base, symbols[i].quote);
    }
  }

  function Pairs(l: Listings, e: Exchange): seq<string>
  {
    ExchangePairs(ListingOf(l, e))
  }

  /** `x` occurs in every list of `others`. */
  predicate InEvery(x: string, others: seq<seq<string>>)
  {
    forall j :: 0 <= j < |others| ==> x in others[j]
  }

  /**
   * PHP's `array_intersect`: the elements of `first`, in their order and
   * with their repetitions, that occur in every one of `others`.
   */
  function ArrayIntersect(first: seq<string>, others: seq<seq<string>>): (r: seq<string>)
    ensures forall x :: x in r <==> x in first && InEvery(x, others)
    ensures |r| <= |first|
  {
    if first == [] then []
    else (if InEvery(first[0], others) then [first[0]] else []) + ArrayIntersect(first[1..], others)
  }

  /** The intersection keeps the order of `first`: it distributes over concatenation. */
  lemma {:induction false} ArrayIntersectAppend(a: seq<string>, b: seq<string>, others: seq<seq<string>>)
    ensures ArrayIntersect(a + b, others) == ArrayIntersect(a, others) + ArrayIntersect(b, others)
  {
    if a == [] {
      assert a + b == b;
    } else {
      assert (a + b)[0] == a[0] && (a + b)[1..] == a[1..] + b;
      ArrayIntersectAppend(a[1..], b, others);
    }
  }

  /** An empty list among `others` empties the intersection. */
  lemma {:induction false} ArrayIntersectWithEmpty(first: seq<string>, others: seq<seq<string>>, j: nat)
    requires j < |others| && others[j] == []
    ensures ArrayIntersect(first, others) == []
  {
    if first != [] {
      assert first[0] !in others[j];
      ArrayIntersectWithEmpty(first[1..], others, j);
    }
  }

  /** When every element of `first` occurs everywhere, the intersection is `first` itself. */
  lemma {:induction false} ArrayIntersectKeepsAll(first: seq<string>, others: seq<seq<string>>)
    requires forall i :: 0 <= i < |first| ==> InEvery(first[i], others)
    ensures ArrayIntersect(first, others) == first
  {
    if first != [] {
      ArrayIntersectKeepsAll(first[1..], others);
    }
  }

  /** Occurring in every one of four lists, spelled out. */
  lemma InEveryOfFour(x: string, a: seq<string>, b: seq<string>, c: seq<string>, d: seq<string>)
    ensures InEvery(x, [a, b, c, d]) <==> x in a && x in b && x in c && x in d
  {
    var others := [a, b, c, d];
    assert others[0] == a && others[1] == b && others[2] == c && others[3] == d;
    if InEvery(x, others) {
      assert x in others[0] && x in others[1] && x in others[2] && x in others[3];
    }
    if x in a && x in b && x in c && x in d {
      forall j | 0 <= j < 4 ensures x in others[j] {
        if j == 0 {} else if j == 1 {} else if j == 2 {} else {}
      }
    }
  }

  /** A pair is listed by all five exchanges. */
  predicate ListedEverywhere(l: Listings, pair: string)
  {
    forall e :: pair in Pairs(l, e)
  }

  /** Listed everywhere means listed by each of the five exchanges in turn. */
  lemma ListedEverywhereByExchange(l: Listings, pair: string)
    ensures ListedEverywhere(l, pair) <==>
      pair in Pairs(l, Binance) && pair in Pairs(l, Jbex) && pair in Pairs(l, Poloniex) &&
      pair in Pairs(l, Bybit) && pair in Pairs(l, Whitebit)
  {
    // the case split over the five values of `Exchange` keeps the proof
    // of the forall cheap on every solver seed
    if pair in Pairs(l, Binance) && pair in Pairs(l, Jbex) && pair in Pairs(l, Poloniex) &&
      pair in Pairs(l, Bybit) && pair in Pairs(l, Whitebit)
    {
      forall e ensures pair in Pairs(l, e) {
        match e
        case Binance =>
        case Jbex =>
        case Poloniex =>
        case Bybit =>
        case Whitebit =>
      }
    }
  }

  /**
   * `getCommonPairs`: the Binance pairs, in Binance order, that JBEX,
   * Poloniex, Bybit and Whitebit all list too.
   */
  function GetCommonPairs(l: Listings): (common: seq<string>)
    ensures forall pair :: pair in common <==> ListedEverywhere(l, pair)
    ensures |common| <= |Pairs(l, Binance)|
  {
    var others := [Pairs(l, Jbex), Pairs(l, Poloniex), Pairs(l, Bybit), Pairs(l, Whitebit)];
    var common := ArrayIntersect(Pairs(l, Binance), others);
    forall pair ensures pair in common <==> ListedEverywhere(l, pair) {
      InEveryOfFour(pair, Pairs(l, Jbex), Pairs(l, Poloniex), Pairs(l, Bybit), Pairs(l, Whitebit));
      ListedEverywhereByExchange(l, pair);
    }
    common
  }

  /**
   * One exchange whose listing failed, or lists nothing, empties the
   * common pairs.
   */
  lemma FailedListingEmptiesCommon(l: Listings, e: Exchange)
    requires ListingOf(l, e).None? || Pairs(l, e) == []
    ensures GetCommonPairs(l) == []
  {
    var others := [Pairs(l, Jbex), Pairs(l, Poloniex), Pairs(l, Bybit), Pairs(l, Whitebit)];
    if e != Binance {
      var j := Rank(e) - 1;
      assert others[j] == Pairs(l, e);
      ArrayIntersectWithEmpty(Pairs(l, Binance), others, j);
    }
  }

  /** When every Binance pair is listed everywhere, the common pairs are the Binance list unchanged. */
  lemma CommonPairsKeepBinanceList(l: Listings)
    requires forall i :: 0 <= i < |Pairs(l, Binance)| ==> ListedEverywhere(l, Pairs(l, Binance)[i])
    ensures GetCommonPairs(l) == Pairs(l, Binance)
  {
    var binance := Pairs(l, Binance);
    var others := [Pairs(l, Jbex), Pairs(l, Poloniex), Pairs(l, Bybit), Pairs(l, Whitebit)];
    forall i | 0 <= i < |binance| ensures InEvery(binance[i], others) {
      var pair := binance[i];
      ListedEverywhereByExchange(l, pair);
      InEveryOfFour(pair, Pairs(l, Jbex), Pairs(l, Poloniex), Pairs(l, Bybit), Pairs(l, Whitebit));
    }
    ArrayIntersectKeepsAll(binance, others);
  }
}
