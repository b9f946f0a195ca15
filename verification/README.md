# Crypto price analyzer — verified model of the pair, price and profit logic

The analyzer is a Laravel console application with two commands.
`price:analyze {pair}` finds the pairs that five exchanges (Binance, Bitget
— called "JBEX" in the code —, Poloniex, Bybit, Whitebit) all list, fetches
the pair's last price from each, and reports the lowest and highest price
with the exchange that quoted it. `price:profit` does this for every common
pair and lists the spread `(max - min) / min * 100` per pair.

This project models, in Dafny, the logic between the HTTP calls:

- **Pair strings** (`pair_format.dfy`, module `PairFormat`): a listing entry
  becomes `base + "/" + quote`; PHP's `str_replace` with a one-character
  search string; the five `formatPairFor*` methods as one function
  `FormatPairFor` over the exchange (`/` removed for Binance, JBEX and Bybit,
  replaced by `_` for Poloniex and Whitebit).
- **Common pairs** (`common_pairs.dfy`, module `CommonPairs`): each
  exchange's listing as a sequence of base/quote entries (`None` when the
  request failed or the response lacked the expected array, which the source
  turns into `[]`), PHP's `array_intersect` over sequences, and
  `getCommonPairs`.
- **Price aggregation** (`price_analysis.dfy`, module `PriceAnalysis`): the
  five price lookups as `Option<real>` values, `array_filter` of nulls in the
  fixed order binance, jbex, poloniex, bybit, whitebit (`exchanges.dfy`),
  `min`, `max`, `array_search` as a first match, and `analyzePriceForPair`.
  The predicate `IsAnalysisOf` states what an analysis is — the lowest and
  highest returned price, each attributed to the first exchange in that
  order that returned it — and `AnalyzePricesCharacterised` proves the
  aggregation returns exactly that analysis.
- **Profit list** (`profit_list.dfy`, module `ProfitList`): `handle`'s loop
  as the method `Handle`, proved equal to the specification function
  `ProfitEntries`, whose rows are proved sound, complete and in the order of
  the common pairs.

The HTTP responses are parameters: `Listings` holds the five parsed listing
responses and `Prices` the five price lookups for one pair; `Handle` takes a
function `quotesFor` giving the lookups for each pair.

The model follows the code as written: pairs are not upper-cased or
otherwise normalised; the common pairs are a sequence in Binance order (with Binance's repetitions),
not a set; a pair that is not common and a pair without prices both give
`None`, with no distinguishing reason; a zero minimum price is not skipped
(the source divides by it, see below); the profit list is not sorted.

`in_array` in `analyzePriceForPair` compares loosely, but every listed pair
contains `/` and so is never a numeric string; loose and strict comparison
agree, and the model uses sequence membership.

## Model

| member | source | states |
|---|---|---|
| `Exchanges.KeysFollowOrder` | app/Console/Commands/AnalyzePrice.php:59-65 | the collection order is the key order of `$prices`, each exchange sits at its rank, and the key reported as an exchange (lines 85, 89) names exactly one exchange |
| `PairFormat.StrReplace` | app/Console/Commands/AnalyzePrice.php:295-318 | no occurrence of the search character remains when the replacement does not contain it; a string without it is returned unchanged |
| `PairFormat.StrReplaceLength` | app/Console/Commands/AnalyzePrice.php:295-318 | the result's length is the input's, less one per occurrence, plus the replacement's length per occurrence |
| `PairFormat.StrReplaceAppend` | app/Console/Commands/AnalyzePrice.php:295-318 | replacing in a concatenation is replacing in each part |
| `PairFormat.StrReplaceAt` | app/Console/Commands/AnalyzePrice.php:305-318 | with a one-character replacement, length is kept and each position is rewritten on its own |
| `PairFormat.StrReplaceRoundTrip` | app/Console/Commands/AnalyzePrice.php:305-318 | replacing `c` by `d` and then `d` by `c` restores a string that had no `d` |
| `PairFormat.JoinPair` | app/Console/Commands/AnalyzePrice.php:108-110 | the listed pair is the base, a `/` at position `|base|`, then the quote |
| `PairFormat.FormatPairFor` | app/Console/Commands/AnalyzePrice.php:295-318 | the symbol has no `/`; for Binance, JBEX and Bybit its length is the pair's less the number of `/`; for Poloniex and Whitebit it has the pair's length and `_` exactly where the pair had `/` |
| `PairFormat.UnderscoreSymbolRoundTrip` | app/Console/Commands/AnalyzePrice.php:305-318 | for Poloniex and Whitebit, turning `_` back into `/` recovers a pair that had no `_` |
| `PairFormat.FormatJoinedPair` | app/Console/Commands/AnalyzePrice.php:295-318 | the symbol of a listed pair is base, the exchange's separator (`""` or `_`), quote, when neither part has `/` |
| `PairFormat.FormatExample` | app/Console/Commands/AnalyzePrice.php:295-318 | `BTC/USDT` becomes `BTCUSDT` on Binance, JBEX and Bybit and `BTC_USDT` on Poloniex and Whitebit |
| `CommonPairs.ExchangePairs` | app/Console/Commands/AnalyzePrice.php:98-208 | a failed listing gives no pairs; otherwise exactly one pair per listing entry |
| `CommonPairs.ExchangePairAt` | app/Console/Commands/AnalyzePrice.php:108-110 | the pair at each position is that entry's `base/quote`, and the exchange's symbol for it is base, separator, quote |
| `CommonPairs.ArrayIntersect` | app/Console/Commands/AnalyzePrice.php:43 | an element is in the result if and only if it is in the first list and in every other list; the result is no longer than the first list |
| `CommonPairs.ArrayIntersectAppend` | app/Console/Commands/AnalyzePrice.php:43 | the intersection keeps the first list's order: it distributes over concatenation |
| `CommonPairs.ArrayIntersectKeepsAll` | app/Console/Commands/AnalyzePrice.php:43 | when every element of the first list occurs everywhere, the result is the first list unchanged |
| `CommonPairs.ArrayIntersectWithEmpty` | app/Console/Commands/AnalyzePrice.php:43 | an empty list among the others empties the result |
| `CommonPairs.GetCommonPairs` | app/Console/Commands/AnalyzePrice.php:35-46 | a pair is common if and only if all five exchanges list it; there are no more common pairs than Binance pairs |
| `CommonPairs.FailedListingEmptiesCommon` | app/Console/Commands/AnalyzePrice.php:98-208 | one exchange whose listing failed (its `[]` path) or lists nothing leaves no common pair |
| `CommonPairs.CommonPairsKeepBinanceList` | app/Console/Commands/AnalyzePrice.php:35-46 | when every Binance pair is listed everywhere, the common pairs are the Binance list in Binance order |
| `PriceAnalysis.FilterPrices` | app/Console/Commands/AnalyzePrice.php:59-69 | a quote is kept if and only if its exchange returned exactly that price; kept quotes are in collection order; none is kept exactly when all prices are null |
| `PriceAnalysis.MinPrice` | app/Console/Commands/AnalyzePrice.php:76 | the minimum is one of the filtered prices and at most each of them |
| `PriceAnalysis.MaxPrice` | app/Console/Commands/AnalyzePrice.php:77 | the maximum is one of the filtered prices and at least each of them |
| `PriceAnalysis.ArraySearch` | app/Console/Commands/AnalyzePrice.php:79-80 | no result if and only if no quote has the price; otherwise the exchange of the first quote with that price |
| `PriceAnalysis.SearchFindsFirstToQuote` | app/Console/Commands/AnalyzePrice.php:79-80 | searching the filtered quotes for a returned price finds the first exchange in collection order that returned it |
| `PriceAnalysis.ExtremesBoundAllPrices` | app/Console/Commands/AnalyzePrice.php:76-77 | the filtered minimum is at most, and the maximum at least, every returned price |
| `PriceAnalysis.AnalyzePrices` | app/Console/Commands/AnalyzePrice.php:59-91 | no result exactly when all five prices are null; otherwise min ≤ max, each is a returned price, min is at most and max at least every returned price, and each is attributed to the first exchange in order binance, jbex, poloniex, bybit, whitebit that returned it (a null-priced exchange is never chosen) |
| `PriceAnalysis.AnalysisUnique` | app/Console/Commands/AnalyzePrice.php:76-80 | the lowest/highest price with first-match tie-break determines the analysis uniquely |
| `PriceAnalysis.AnalyzePricesCharacterised` | app/Console/Commands/AnalyzePrice.php:59-91 | the aggregation returns `a` if and only if `a` is the lowest and highest price with first-match attribution |
| `PriceAnalysis.SingleQuote` | app/Console/Commands/AnalyzePrice.php:59-80 | when exactly one exchange returned a price, minimum and maximum are both that exchange's quote |
| `PriceAnalysis.AnalyzePriceForPair` | app/Console/Commands/AnalyzePrice.php:48-96 | a result exists if and only if the pair is listed by all five exchanges and some exchange returned a price, whatever the prices of an uncommon pair; a result is the analysis of the prices, with min ≤ max |
| `ProfitList.ProfitPercentage` | app/Console/Commands/ProfitList.php:33 | the profit is zero exactly when min = max; for a positive minimum it is non-negative exactly when min ≤ max |
| `ProfitList.ProfitPercentageExamples` | app/Console/Commands/ProfitList.php:33 | min 100, max 110 gives 10; min 50, max 50 gives 0 |
| `ProfitList.EntryFor` | app/Console/Commands/ProfitList.php:27-42 | a row exists exactly when the analysis does; it carries the pair, copies exchanges and prices unchanged, and its profit is `(max - min) / min * 100` |
| `ProfitList.RowProfitSign` | app/Console/Commands/ProfitList.php:30-33 | for a positive minimum, a row's profit is not negative exactly when the minimum is at most the maximum |
| `ProfitList.ProfitEntriesAppend` | app/Console/Commands/ProfitList.php:24-44 | rows of consecutive pairs follow each other: rows appear in the relative order of the pairs |
| `ProfitList.ProfitEntriesSound` | app/Console/Commands/ProfitList.php:26-43 | no more rows than pairs; every row belongs to a pair with an analysis and is that analysis's row |
| `ProfitList.ProfitEntriesComplete` | app/Console/Commands/ProfitList.php:26-43 | every pair with an analysis gets a row |
| `ProfitList.CommonPairRowIffPriced` | app/Console/Commands/ProfitList.php:22-43 | a common pair has a row in the profit list if and only if some exchange returned a price for it |
| `ProfitList.CommonPairRowFaithful` | app/Console/Commands/ProfitList.php:26-42 | every row belongs to a common pair; its prices are the lowest and highest returned prices, attributed to the first exchanges that returned them; its profit is non-negative when the minimum is positive |
| `ProfitList.Handle` | app/Console/Commands/ProfitList.php:20-44 | the loop builds exactly the rows of the common pairs, in their order |

## Left out

- The HTTP requests, `json_decode` and the walk through each exchange's
  response (app/Console/Commands/AnalyzePrice.php:98-293): network I/O
  against third-party APIs. Their outcomes are the parameters `Listings`
  and `Prices`; the listing field names (`baseAsset`, `baseCoin`,
  `baseCurrencyName`, `base_currency`, `stock` and their quote partners) all
  become `Symbol(base, quote)`.
- The `try`/`catch` blocks and error messages: only their results, `[]`
  for a listing and `null` for a price, are modelled.
- Console I/O (`argument`, `info`, `error`, `table`), `number_format` of the
  profit, and the constructors that inject the HTTP client and the analyser.
- Every `$this->error(...)` call is taken to log and return normally, as it
  does when `price:analyze` runs. Under `price:profit` the analyser is
  injected through the constructor (app/Console/Commands/ProfitList.php:14-17)
  and never run as a command itself, so whether its `error` reports can write
  anywhere depends on the console framework, which is not part of this model.
  Should they throw, a common pair without prices (app/Console/Commands/AnalyzePrice.php:72), a
  failed listing or a failed price request would end the whole command
  instead of giving no row; the skip stated by
  `ProfitList.CommonPairRowIffPriced` and the `[]`/`null` error results of
  the listings and prices rest on that assumption.
- Prices are exact reals: PHP's float rounding and its loose comparison of
  numeric strings in `min`, `max` and `array_search` are not modelled.
- `analyzePriceForPair` fetches the listings again on every call; the model
  uses one fixed `Listings` value throughout, as responses that change
  between calls cannot be modelled.
- `array_intersect` keeps the first array's keys, so the common pairs have
  gaps in their numbering; the model uses a sequence, since the code only
  iterates over the result and tests membership.
- ProfitList.Handle: requires a non-zero minimum price for every common pair
  with an analysis, because line 33 divides by it without a guard (PHP
  raises an error there); the crash itself is not modelled.
