/**
  The two endpoints the adapter talks to and the parts of their responses it
  reads: the `pairs` object of the catalog and the `buy` price of a ticker.
*/
module Tickers {
  import opened Wrappers
  import opened JsonValues
  import opened PairKeys

  const ProductListApiPath: string := "https://btc-e.com/api/3/info"
  const TickerApiPathPrefix: string := "https://btc-e.com/api/3/ticker/"

  /** `String(format: TickerAPIPathFormat, productId)`: the `%@` is the product id. */
  function TickerUrl(productId: string): (url: string)
    ensures |url| == |TickerApiPathPrefix| + |productId|
    ensures url[..|TickerApiPathPrefix|] == TickerApiPathPrefix
    ensures url[|TickerApiPathPrefix|..] == productId
  {
    TickerApiPathPrefix + productId
  }

  /** The response of the catalog request has a dictionary-valued `pairs` member. */
  ghost predicate HasPairs(response: Option<Json>)
  {
    && response.Some?
    && response.value.Object?
    && "pairs" in response.value.members
    && response.value.members["pairs"].Object?
  }

  /** `response.result.value as? [String: Any]` then `result["pairs"] as? [String: Any]`. */
  function CatalogPairs(response: Option<Json>): (pairs: Option<map<string, Json>>)
    ensures pairs.Some? <==> HasPairs(response)
    ensures pairs.Some? ==> pairs.value == response.value.members["pairs"].members
  {
    match response
    case None => None
    case Some(result) =>
      match AsObject(result)
      case None => None
      case Some(members) => MemberObject(members, "pairs")
  }

  /** The ticker response carries the number `price` under `response[productId]["buy"]`. */
  ghost predicate HasBuyPrice(response: Option<Json>, productId: string, price: Double)
  {
    && response.Some?
    && response.value.Object?
    && productId in response.value.members
    && response.value.members[productId].Object?
    && "buy" in response.value.members[productId].members
    && response.value.members[productId].members["buy"] == Number(price)
  }

  /**
    The optional chain of the ticker closure: the price, when the response is
    a dictionary whose entry under the product id is a dictionary holding a
    `buy` number; nothing otherwise.
  */
  function ExtractPrice(response: Option<Json>, productId: string): (price: Option<Double>)
    ensures forall p :: price == Some(p) <==> HasBuyPrice(response, productId, p)
  {
    match response
    case None => None
    case Some(tickerData) =>
      match AsObject(tickerData)
      case None => None
      case Some(members) =>
        match MemberObject(members, productId)
        case None => None
        case Some(priceData) => MemberDouble(priceData, "buy")
  }

  /** The ticker is read under exactly the product id: entries under other keys play no part. */
  lemma ExtractPriceReadsOnlyProductId(members1: map<string, Json>, members2: map<string, Json>, productId: string)
    requires productId in members1 <==> productId in members2
    requires productId in members1 ==> members1[productId] == members2[productId]
    ensures ExtractPrice(Some(Object(members1)), productId) == ExtractPrice(Some(Object(members2)), productId)
  {
  }

  /** A price published under any key other than the product id is not reported. */
  lemma ExtractPriceOtherKey(key: string, productId: string, price: Double)
    requires key != productId
    ensures ExtractPrice(Some(Object(map[key := Object(map["buy" := Number(price)])])), productId) == None
  {
  }

  /** `{"btc_usd": {"buy": price}}` answers the ticker of BTC/USD with `price`. */
  lemma TickerExample(price: Double)
    ensures ProductId("BTC", "USD") == "btc_usd"
    ensures ExtractPrice(Some(Object(map["btc_usd" := Object(map["buy" := Number(price)])])), ProductId("BTC", "USD")) == Some(price)
  {
    assert ProductId("BTC", "USD") == Lower("BTC") + "_" + Lower("USD");
  }
}
