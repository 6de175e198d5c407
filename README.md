# BTC-e exchange adapter of CoinTicker

CoinTicker is a macOS menu-bar app that shows the price of one currency pair on
one exchange. This project models the decision logic of its BTC-e adapter,
`BTCEExchange`:

- the catalog parse of `start()`. Every key of the `pairs` object of
  `https://btc-e.com/api/3/info` (such as `"btc_usd"`) is split on `_`, with
  empty pieces dropped. The first piece is the base code and the last piece is
  the quote code. A key is kept when both codes build to a currency and the
  base is a cryptocurrency. Its quote is then appended to the base's list in
  the `CurrencyMatrix`, and the list is created first when the base is new;
- the reaction to the catalog response: store the matrix, report it to the
  delegate and fetch the first price. This happens only when the response is
  a dictionary with a dictionary-valued `pairs` member;
- `fetchPrice()`. The product id is the lower-cased `"<base>_<quote>"`. The
  request goes to `https://btc-e.com/api/3/ticker/<id>`. The `buy` number
  found under that id is reported, and it arms the poll timer;
- the optional `requestTimer`. `stop()` and the timer callback clear it, and a
  successful price fetch sets it.

Modules:

- `Wrappers` (`wrappers.dfy`) holds `Option`.
- `JsonValues` (`json.dfy`) holds decoded JSON as nested maps and the `as?`
  casts the adapter uses. A price is an opaque 64-bit `Double`.
- `PairKeys` (`pair_keys.dfy`) holds splitting, key resolution and product
  ids. The host's `Currency` type is a type parameter `C`. `Currencies<C>`
  supplies its `build(fromCode:)`, `isCrypto` and `code`.
- `CurrencyMatrices` (`currency_matrix.dfy`) holds the matrix-building loop
  (`BuildCurrencyMatrix` and its step `AddKey`). Beside it is a reference
  definition: `MatrixOf` folds the accepted pairs, where `AcceptedPairs` lists
  the pair of each accepted key in key order. Lemmas prove the matrix
  properties about that reference definition.
- `Tickers` (`tickers.dfy`) holds the two endpoints and the reading of their
  responses.
- `BtceExchanges` (`btce_exchange.dfy`) holds the class `BtceExchange`. Its
  fields are the stored matrix, the timer flag and the delegate calls made so
  far. It has one method per entry point and per response closure.

## Model

| member | source | states |
|---|---|---|
| PairKeys.Split | CoinTicker/Source/Exchanges/BTCEExchange.swift:51 | every piece of a split key is non-empty and free of `_` |
| PairKeys.SplitAtSeparator | CoinTicker/Source/Exchanges/BTCEExchange.swift:51 | splitting `a_b` gives the pieces of `a` followed by the pieces of `b` |
| PairKeys.SplitNoSeparator | CoinTicker/Source/Exchanges/BTCEExchange.swift:51 | a key without `_` is one piece, or none when it is empty |
| PairKeys.SplitJoin | CoinTicker/Source/Exchanges/BTCEExchange.swift:51 | splitting undoes joining non-empty, `_`-free pieces with `_` |
| PairKeys.ParsePair | CoinTicker/Source/Exchanges/BTCEExchange.swift:51-52 | a key gives a pair if and only if it has a piece, its first piece builds to a crypto currency and its last piece builds to a currency; the pair is those two currencies |
| PairKeys.ParseSeparatorsOnly | CoinTicker/Source/Exchanges/BTCEExchange.swift:51-52 | an empty key, or one made only of `_`, is skipped |
| PairKeys.ParseSinglePiece | CoinTicker/Source/Exchanges/BTCEExchange.swift:51-52 | a key without `_` uses the same code for base and quote |
| PairKeys.ParseTwoPieces | CoinTicker/Source/Exchanges/BTCEExchange.swift:51-52 | `<base>_<quote>` is resolved from `base` and `quote` |
| PairKeys.ParseIgnoresMiddle | CoinTicker/Source/Exchanges/BTCEExchange.swift:51-52 | in `<base>_<middle>_<quote>` the middle pieces play no part |
| PairKeys.Lower | CoinTicker/Source/Exchanges/BTCEExchange.swift:84 | lower-casing keeps the length and maps each character on its own |
| PairKeys.LowerIdempotent | CoinTicker/Source/Exchanges/BTCEExchange.swift:84 | lower-cased text has no upper-case ASCII letter, and lower-casing it again changes nothing |
| PairKeys.ProductId | CoinTicker/Source/Exchanges/BTCEExchange.swift:84 | the product id is the lower-cased base code, `_`, then the lower-cased quote code; it has no upper-case ASCII letter and is its own lower-case form |
| PairKeys.ProductIdSplits | CoinTicker/Source/Exchanges/BTCEExchange.swift:84 | a product id of two `_`-free codes splits back into the two lower-cased codes |
| CurrencyMatrices.Bases | CoinTicker/Source/Exchanges/BTCEExchange.swift:53-55 | the bases of the accepted pairs are listed without repetition |
| CurrencyMatrices.BuildCurrencyMatrix | CoinTicker/Source/Exchanges/BTCEExchange.swift:47-59 | the loop builds exactly the fold of the accepted pairs in key order; every base in the result is a crypto currency with a non-empty list |
| CurrencyMatrices.AddKey | CoinTicker/Source/Exchanges/BTCEExchange.swift:51-57 | an accepted key appends its quote to its base's list, creating the list when the base is new; any other key leaves the matrix unchanged |
| CurrencyMatrices.MatrixPrefixStep | CoinTicker/Source/Exchanges/BTCEExchange.swift:50-57 | one more key extends the matrix of the keys before it by that key's single contribution |
| CurrencyMatrices.LookupMatrixOf | CoinTicker/Source/Exchanges/BTCEExchange.swift:53-57 | a base has an entry if and only if some accepted pair has that base, and its list is the quotes of those pairs in order |
| CurrencyMatrices.MatrixEntries | CoinTicker/Source/Exchanges/BTCEExchange.swift:53-57 | the entries are exactly the accepted bases, each list is non-empty, and `q` is listed under `b` if and only if `(b, q)` was accepted |
| CurrencyMatrices.AcceptedPairsFromKeys | CoinTicker/Source/Exchanges/BTCEExchange.swift:50-52 | every accepted pair comes from some key, and every accepted key's pair is among them |
| CurrencyMatrices.MatrixSound | CoinTicker/Source/Exchanges/BTCEExchange.swift:52-57 | every base in the matrix is a crypto currency, and every quote under a base comes from some key that parses to that pair |
| CurrencyMatrices.MatrixComplete | CoinTicker/Source/Exchanges/BTCEExchange.swift:50-57 | every accepted key's quote is listed under its base |
| CurrencyMatrices.MatrixNonEmpty | CoinTicker/Source/Exchanges/BTCEExchange.swift:53-57 | no list in the matrix is empty |
| CurrencyMatrices.MatrixKeepsDuplicates | CoinTicker/Source/Exchanges/BTCEExchange.swift:50-57 | a quote appears under a base as many times as that pair is accepted, which is the number of key positions that resolve to it, so duplicates are kept |
| CurrencyMatrices.AcceptedPairsAppend | CoinTicker/Source/Exchanges/BTCEExchange.swift:50-52 | the pairs of two key sequences in a row are the pairs of the first followed by those of the second |
| CurrencyMatrices.MatrixOrder | CoinTicker/Source/Exchanges/BTCEExchange.swift:50-57 | within a base, quotes from earlier keys come before quotes from later keys |
| CurrencyMatrices.MatrixTotal | CoinTicker/Source/Exchanges/BTCEExchange.swift:50-57 | the lists of the distinct bases have a total length equal to the number of accepted keys; this is both the number of accepted pairs and the number of positions of accepted keys |
| CurrencyMatrices.AcceptedPairsCount | CoinTicker/Source/Exchanges/BTCEExchange.swift:50-52 | there are as many accepted pairs as key positions whose key is accepted |
| CurrencyMatrices.AcceptedPairMultiplicity | CoinTicker/Source/Exchanges/BTCEExchange.swift:50-52 | a pair is accepted once per key position that resolves to it |
| CurrencyMatrices.CatalogExample | CoinTicker/Source/Exchanges/BTCEExchange.swift:47-59 | a catalog of `<crypto>_<fiat>` and `<fiat>_<other>` lists only the fiat currency, under the crypto currency |
| JsonValues.AsObject | CoinTicker/Source/Exchanges/BTCEExchange.swift:49 | `as? [String: Any]` succeeds exactly on a dictionary and yields its members |
| JsonValues.MemberObject | CoinTicker/Source/Exchanges/BTCEExchange.swift:49 | a member cast to a dictionary succeeds exactly when the member is present and is a dictionary |
| JsonValues.MemberDouble | CoinTicker/Source/Exchanges/BTCEExchange.swift:87 | a member cast to `Double` succeeds exactly when the member is present and is a number |
| Tickers.TickerUrl | CoinTicker/Source/Exchanges/BTCEExchange.swift:34 | the ticker URL is the ticker endpoint followed by the product id |
| Tickers.CatalogPairs | CoinTicker/Source/Exchanges/BTCEExchange.swift:49 | the pairs are found if and only if the response is a dictionary with a dictionary-valued `pairs` member, and they are that member's contents |
| Tickers.ExtractPrice | CoinTicker/Source/Exchanges/BTCEExchange.swift:87 | the price is `p` if and only if the response is a dictionary whose entry under the product id is a dictionary whose `buy` is the number `p` |
| Tickers.ExtractPriceReadsOnlyProductId | CoinTicker/Source/Exchanges/BTCEExchange.swift:87 | two ticker responses that agree under the product id give the same price |
| Tickers.ExtractPriceOtherKey | CoinTicker/Source/Exchanges/BTCEExchange.swift:87 | a price filed under any other key is not reported |
| Tickers.TickerExample | CoinTicker/Source/Exchanges/BTCEExchange.swift:84-87 | the product id of `BTC`/`USD` is `btc_usd`, and `{"btc_usd": {"buy": p}}` gives the price `p` |
| BtceExchanges.BtceExchange.constructor | CoinTicker/Source/Exchanges/BTCEExchange.swift:38-42 | a new adapter has no timer (line 38) and no delegate calls; the configured pair and the empty matrix stand for base-class state whose initialisation is not part of this model |
| BtceExchanges.BtceExchange.Start | CoinTicker/Source/Exchanges/BTCEExchange.swift:44-48 | `start()` requests the catalog endpoint |
| BtceExchanges.BtceExchange.OnCatalogResponse | CoinTicker/Source/Exchanges/BTCEExchange.swift:49-64 | with a `pairs` dictionary, the adapter stores the matrix of its keys, reports that matrix to the delegate and fetches the configured pair, and every stored base is crypto with a non-empty list; otherwise nothing is stored, reported or fetched |
| BtceExchanges.BtceExchange.FetchPrice | CoinTicker/Source/Exchanges/BTCEExchange.swift:84-86 | the request's product id is the product id of the configured pair's codes, and its URL is the ticker URL of that id |
| BtceExchanges.BtceExchange.OnTickerResponse | CoinTicker/Source/Exchanges/BTCEExchange.swift:87-92 | a price under the request's product id is reported and arms the timer; otherwise nothing is reported and the timer is unchanged |
| BtceExchanges.BtceExchange.Stop | CoinTicker/Source/Exchanges/BTCEExchange.swift:69-74 | after `stop()` no timer is set |
| BtceExchanges.BtceExchange.OnRequestTimerFired | CoinTicker/Source/Exchanges/BTCEExchange.swift:76-81 | the callback clears the timer and fetches the configured pair again |

## Left out

- Network I/O. The Alamofire requests, the `apiRequests` list, the response serializers and the concurrent response queue are not modelled (source lines 28, 37, 48 and 86). A request is the URL a method returns. Its outcome is the decoded response handed to the matching `On…Response` method, and `None` stands for a failed request or a body that is not JSON.
- The move to the main queue and the 10-second `Timer` (lines 90-91). Only whether a timer is set is modelled, as the flag `requestTimer`. `invalidate()` is folded into clearing the flag.
- The race in which a request still in flight during `stop()` sets the timer again afterwards. This is concurrency, and the model treats each closure as one atomic step.
- `Currency.build(fromCode:)`, `isCrypto`, `code`, the `CurrencyMatrix` type and the `Exchange` base class, including `super.start()`, `super.stop()` and the delegate. Their definitions are not part of this model. The first three are the functions of `Currencies<C>`, and `CurrencyMatrix` is a map from a base to a list of quotes. The configured pair and the delegate come from the base class: the pair is two fields, and the delegate is the record of the calls made to it.
- Order of dictionary keys. Swift leaves this order unspecified, so `OnCatalogResponse` takes it as `keyOrder`. `keyOrder` must list every key of `pairs` exactly once.
- JSON decoding. Responses arrive already decoded.
- JsonValues.MemberDouble: only a JSON number is read as a price. Swift's `as? Double` also succeeds on a JSON boolean, which Foundation bridges to `NSNumber`; that case is not modelled.
- PairKeys.Split: keys are sequences of Unicode code points, not Swift `Character`s (grapheme clusters). A `_` followed by a combining mark, which Swift treats as one `Character` and does not split at, is a separator here. Dictionary keys are also compared exactly, whereas Swift's `String` equality, used by the lookups at lines 49 and 87, is canonical equivalence.
- BtceExchanges.BtceExchange.OnTickerResponse, BtceExchanges.BtceExchange.Stop: the timer is one flag, so setting it on success overwrites the previous handle without `invalidate()`, as line 91 does. A timer orphaned that way (two fetch chains, for instance after `start()` is called twice without `stop()`) keeps running in the source, fires into the callback and restarts polling after `stop()`. The model does not capture such a second timer: after `Stop` no timer is pending, by construction.
- Floating-point arithmetic. The price is an opaque 64-bit value that is passed through unchanged.
- PairKeys.Lower: lower-cases only the ASCII letters `A`-`Z`. Other characters are left as they are, whereas `String.lowercased()` also lower-cases non-ASCII letters.
