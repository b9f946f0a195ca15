/**
 * The five exchanges the analyser queries, and the fixed order in which
 * their prices are gathered (the key order of the `$prices` array).
 */
module Exchanges {

  datatype Exchange = Binance | Jbex | Poloniex | Bybit | Whitebit

  /** The array key under which an exchange's price is stored and reported. */
  function Key(e: Exchange): string
  {
    match e
    case Binance => "binance"
    case Jbex => "jbex"
    case Poloniex => "poloniex"
    case Bybit => "bybit"
    case Whitebit => "whitebit"
  }

  /** Position of the exchange in the collection order. */
  function Rank(e: Exchange): nat
  {
    match e
    case Binance => 0
    case Jbex => 1
    case Poloniex => 2
    case Bybit => 3
    case Whitebit => 4
  }

  /** The collection order: binance, jbex, poloniex, bybit, whitebit. */
  const Order: seq<Exchange> := [Binance, Jbex, Poloniex, Bybit, Whitebit]

  /** The keys of the `$prices` array, in the order they are written. */
  const PriceKeys: seq<string> := ["binance", "jbex", "poloniex", "bybit", "whitebit"]

  /**
   * The collection order is the key order of `$prices`, each exchange sits
   * at its rank, and the reported key names the exchange unambiguously.
   */
  lemma KeysFollowOrder()
    ensures |Order| == |PriceKeys|
    ensures forall i :: 0 <= i < |Order| ==> Key(Order[i]) == PriceKeys[i]
    ensures forall e :: Order[Rank(e)] == e
    ensures forall e1, e2 :: Key(e1) == Key(e2) ==> e1 == e2
  {
    // the five keys are distinct string literals
  }

  /** Strictly increasing rank along a sequence of exchanges. */
  predicate RankSorted(es: seq<Exchange>)
  {
    forall i, j :: 0 <= i < j < |es| ==> Rank(es[i]) < Rank(es[j])
  }
}
