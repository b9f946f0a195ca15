/**
 * Pair strings: how a listing entry becomes a `BASE/QUOTE` pair, and how a
 * pair is turned into each exchange's native symbol.
 */
module PairFormat {

  import opened Exchanges

  /** How often `c` occurs in `s`. */
  function Occurrences(s: string, c: char): (n: nat)
    ensures n <= |s|
    ensures n == 0 <==> c !in s
  {
    if s == [] then 0 else (if s[0] == c then 1 else 0) + Occurrences(s[1..], c)
  }

  /**
   * PHP's `str_replace` for a one-character search string: every
   * occurrence of `search` in `s` is replaced by `replace`.
   */
  function StrReplace(s: string, search: char, replace: string): (r: string)
    ensures search !in replace ==> search !in r
    ensures search !in s ==> r == s
  {
    if s == [] then []
    else (if s[0] == search then replace else [s[0]]) + StrReplace(s[1..], search, replace)
  }

  /** Each occurrence of `search` costs one character and adds `|replace|`. */
  lemma {:induction false} StrReplaceLength(s: string, search: char, replace: string)
    ensures |StrReplace(s, search, replace)| == |s| - Occurrences(s, search) + Occurrences(s, search) * |replace|
  {
    if s != [] {
      StrReplaceLength(s[1..], search, replace);
      var n, k := Occurrences(s[1..], search), |replace|;
      var head := if s[0] == search then replace else [s[0]];
      assert StrReplace(s, search, replace) == head + StrReplace(s[1..], search, replace);
      if s[0] == search {
        assert (n + 1) * k == n * k + k;
      }
    }
  }

  /** Replacing in a concatenation is replacing in each part. */
  lemma {:induction false} StrReplaceAppend(a: string, b: string, search: char, replace: string)
    ensures StrReplace(a + b, search, replace) == StrReplace(a, search, replace) + StrReplace(b, search, replace)
  {
    if a == [] {
      assert a + b == b;
    } else {
      assert (a + b)[0] == a[0] && (a + b)[1..] == a[1..] + b;
      StrReplaceAppend(a[1..], b, search, replace);
    }
  }

  /** With a one-character replacement, the string is rewritten position by position. */
  lemma {:induction false} StrReplaceAt(s: string, search: char, replace: char)
    ensures |StrReplace(s, search, [replace])| == |s|
    ensures forall i :: 0 <= i < |s| ==>
      StrReplace(s, search, [replace])[i] == (if s[i] == search then replace else s[i])
  {
    if s != [] {
      StrReplaceAt(s[1..], search, replace);
    }
  }

  /**
   * Replacing one character by another and back restores the string,
   * provided the second character did not occur in it.
   */
  lemma {:induction false} StrReplaceRoundTrip(s: string, search: char, replace: char)
    requires replace !in s
    ensures StrReplace(StrReplace(s, search, [replace]), replace, [search]) == s
  {
    if s != [] {
      StrReplaceRoundTrip(s[1..], search, replace);
      var head := if s[0] == search then [replace] else [s[0]];
      StrReplaceAppend(head, StrReplace(s[1..], search, [replace]), replace, [search]);
    }
  }

  /** A listed pair: base and quote joined with `/`. */
  function JoinPair(base: string, quote: string): (pair: string)
    ensures |pair| == |base| + 1 + |quote|
    ensures pair[|base|] == '/' && pair[..|base|] == base && pair[|base| + 1..] == quote
  {
    base + "/" + quote
  }

  /** What the exchange's symbol puts in place of the `/` of a pair. */
  function Separator(e: Exchange): string
  {
    match e
    case Binance => ""
    case Jbex => ""
    case Poloniex => "_"
    case Bybit => ""
    case Whitebit => "_"
  }

  /**
   * The exchange-native symbol for a pair: `/` removed for Binance, JBEX and
   * Bybit, replaced by `_` for Poloniex and Whitebit.
   */
  function FormatPairFor(e: Exchange, pair: string): (symbol: string)
    ensures '/' !in symbol
    ensures Separator(e) == "" ==> |symbol| == |pair| - Occurrences(pair, '/')
    ensures Separator(e) == "_" ==> |symbol| == |pair| && forall i :: 0 <= i < |pair| ==>
      symbol[i] == (if pair[i] == '/' then '_' else pair[i])
  {
    StrReplaceLength(pair, '/', Separator(e));
    StrReplaceAt(pair, '/', '_');
    StrReplace(pair, '/', Separator(e))
  }

  /**
   * For Poloniex and Whitebit, a pair without `_` is recovered from its
   * symbol by turning `_` back into `/`.
   */
  lemma UnderscoreSymbolRoundTrip(e: Exchange, pair: string)
    requires Separator(e) == "_"
    requires '_' !in pair
    ensures StrReplace(FormatPairFor(e, pair), '_', "/") == pair
  {
    StrReplaceRoundTrip(pair, '/', '_');
  }

  /**
   * The symbol of a listed pair is its base, the exchange's separator and
   * its quote, when neither part contains `/`.
   */
  lemma FormatJoinedPair(e: Exchange, base: string, quote: string)
    requires '/' !in base && '/' !in quote
    ensures FormatPairFor(e, JoinPair(base, quote)) == base + Separator(e) + quote
  {
    StrReplaceAppend(base + "/", quote, '/', Separator(e));
    StrReplaceAppend(base, "/", '/', Separator(e));
  }

  /** The symbol of `BTC/USDT`: `BTCUSDT` on Binance, JBEX and Bybit, `BTC_USDT` on Poloniex and Whitebit. */
  lemma FormatExample(e: Exchange)
    ensures FormatPairFor(e, "BTC/USDT") == if Separator(e) == "" then "BTCUSDT" else "BTC_USDT"
  {
    var base, quote := "BTC", "USDT";
    assert JoinPair(base, quote) == "BTC/USDT";
    assert base + "" + quote == "BTCUSDT";
    assert base + "_" + quote == "BTC_USDT";
    FormatJoinedPair(e, base, quote);
  }
}
