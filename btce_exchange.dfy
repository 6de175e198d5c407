/**
  The BTC-e exchange adapter: its stored currency matrix, its optional
  request timer, and the calls it makes on its delegate. Each response
  closure of the source is a method here, called with the decoded response.
*/
module BtceExchanges {
  import opened Wrappers
  import opened JsonValues
  import opened PairKeys
  import opened CurrencyMatrices
  import opened Tickers

  /** A delegate callback fired by the adapter, with its argument. */
  datatype DelegateCall<C> =
    | DidLoadCurrencyMatrix(matrix: CurrencyMatrix<C>)
    | DidUpdatePrice(price: Double)

  /** A ticker request in flight: its URL and the product id its closure captured. */
  datatype TickerRequest = TickerRequest(url: string, productId: string)

  /** `Array(currencyPairs.keys)`: every key of the pairs dictionary, each exactly once. */
  ghost predicate EnumeratesKeys(order: seq<string>, members: map<string, Json>)
  {
    && (forall i, j :: 0 <= i < j < |order| ==> order[i] != order[j])
    && (forall k :: k in members <==> k in order)
  }

  class BtceExchange<C(==)> {
    const currencies: Currencies<C>
    /** The configured pair, held by the `Exchange` base class. */
    var baseCurrency: C
    var quoteCurrency: C
    var currencyMatrix: CurrencyMatrix<C>
    /** `requestTimer != nil`: a poll is scheduled. */
    var requestTimer: bool
    /** The delegate callbacks fired so far, oldest first. */
    var delegateCalls: seq<DelegateCall<C>>

    constructor (currencies: Currencies<C>, baseCurrency: C, quoteCurrency: C)
      ensures this.currencies == currencies
      ensures this.baseCurrency == baseCurrency && this.quoteCurrency == quoteCurrency
      ensures currencyMatrix == map[] && !requestTimer && delegateCalls == []
    {
      this.currencies := currencies;
      this.baseCurrency := baseCurrency;
      this.quoteCurrency := quoteCurrency;
      currencyMatrix := map[];
      requestTimer := false;
      delegateCalls := [];
    }

    /** `start()` issues one request, to the catalog endpoint, and changes nothing else. */
    method Start() returns (url: string)
      ensures url == ProductListApiPath
    {
      url := ProductListApiPath;
    }

    /**
      The catalog closure of `start()`. Only a dictionary response with a
      dictionary-valued `pairs` member builds and stores the matrix, reports
      it to the delegate and triggers the first price fetch; any other
      response changes nothing and fetches nothing.
    */
    method OnCatalogResponse(response: Option<Json>, keyOrder: seq<string>) returns (fetch: Option<TickerRequest>)
      requires HasPairs(response) ==> EnumeratesKeys(keyOrder, response.value.members["pairs"].members)
      modifies this`currencyMatrix, this`delegateCalls
      ensures HasPairs(response) ==>
        && currencyMatrix == MatrixOf(AcceptedPairs(keyOrder, currencies))
        && delegateCalls == old(delegateCalls) + [DidLoadCurrencyMatrix(currencyMatrix)]
        && fetch == Some(TickerRequestFor(baseCurrency, quoteCurrency))
      ensures !HasPairs(response) ==>
        && currencyMatrix == old(currencyMatrix)
        && delegateCalls == old(delegateCalls)
        && fetch == None
      ensures HasPairs(response) ==>
        forall b :: b in currencyMatrix ==> currencies.isCrypto(b) && currencyMatrix[b] != []
    {
      var pairs := CatalogPairs(response);
      if pairs.Some? {
        var matrix := BuildCurrencyMatrix(keyOrder, currencies);
        currencyMatrix := matrix;
        delegateCalls := delegateCalls + [DidLoadCurrencyMatrix(matrix)];
        var request := FetchPrice();
        fetch := Some(request);
      } else {
        fetch := None;
      }
    }

    /** The request `fetchPrice()` issues for the given pair. */
    function TickerRequestFor(base: C, quote: C): TickerRequest
    {
      var productId := ProductId(currencies.code(base), currencies.code(quote));
      TickerRequest(TickerUrl(productId), productId)
    }

    /**
      `fetchPrice()`: requests the ticker of the configured pair under its
      product id, which the response closure keeps for the lookup.
    */
    method FetchPrice() returns (request: TickerRequest)
      ensures request.productId == ProductId(currencies.code(baseCurrency), currencies.code(quoteCurrency))
      ensures request.url == TickerUrl(request.productId)
    {
      request := TickerRequestFor(baseCurrency, quoteCurrency);
    }

    /**
      The ticker closure of `fetchPrice()`: a price found under the request's
      product id is reported and arms the timer for the next poll; otherwise
      nothing is reported and no timer is armed.
    */
    method OnTickerResponse(request: TickerRequest, response: Option<Json>)
      modifies this`requestTimer, this`delegateCalls
      ensures match ExtractPrice(response, request.productId)
        case Some(price) =>
          delegateCalls == old(delegateCalls) + [DidUpdatePrice(price)] && requestTimer
        case None =>
          delegateCalls == old(delegateCalls) && requestTimer == old(requestTimer)
    {
      var price := ExtractPrice(response, request.productId);
      if price.Some? {
        delegateCalls := delegateCalls + [DidUpdatePrice(price.value)];
        requestTimer := true;
      }
    }

    /** `stop()`: invalidates and clears the timer. */
    method Stop()
      modifies this`requestTimer
      ensures !requestTimer
    {
      requestTimer := false;
    }

    /** `onRequestTimerFired`: clears the timer, then fetches the price again. */
    method OnRequestTimerFired() returns (request: TickerRequest)
      modifies this`requestTimer
      ensures !requestTimer
      ensures request == TickerRequestFor(baseCurrency, quoteCurrency)
    {
      requestTimer := false;
      request := FetchPrice();
    }
  }
}
