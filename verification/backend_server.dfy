/** The response-shaping decisions of backend/dist/index.js. The scraper is an
    oracle from set name to the id it returned (`undefined` as `None`); the
    upstream price service is an oracle as in `PriceApi`. */
module BackendServer {
  import opened Options
  import opened PriceApi

  /** The JSON body of `/search/:setName` with its status; `error` is present
      only on the 404 reply, and `None` in the other fields is JSON `null`. */
  datatype SearchReply<Doc> = SearchReply(
    status: int,
    error: Option<string>,
    setName: string,
    productId: Option<string>,
    priceHistory: Option<Doc>)

  /** The JSON body of `/price-history/:productId`. */
  datatype PriceReply<Doc> = PriceReply(productId: string, range: string, priceHistory: Option<Doc>)

  function NotFoundMessage(setName: string): string {
    "No collector booster display found for set: " + setName
  }

  /** The request `fetchPriceHistory` sends, with browser-like headers. */
  function PriceRequestFor(productId: string, range: RangeCode): PriceRequest {
    PriceRequest(PriceUrl(productId, RangeName(range)), true)
  }

  /** `/search/:setName`: scrape the id; without one, answer 404 with null id and
      prices and fetch nothing; with one, fetch its prices once at the default
      range and echo the name and id. */
  function Search<Doc>(setName: string, scrape: string -> Option<string>,
                       upstream: PriceRequest -> Upstream<Doc>): (x: Exchange<SearchReply<Doc>>)
    ensures x.reply.setName == setName
    ensures Falsy(scrape(setName)) ==>
              x.reply.status == 404
              && x.reply.error == Some("No collector booster display found for set: " + setName)
              && x.reply.productId.None? && x.reply.priceHistory.None? && x.requests == []
    ensures !Falsy(scrape(setName)) ==>
              x.reply.status == 200 && x.reply.error.None?
              && x.reply.productId == scrape(setName)
              && x.requests == [PriceRequestFor(scrape(setName).value, DefaultRange)]
              && x.reply.priceHistory == FetchPriceHistory(upstream, x.requests[0])
  {
    var productId := scrape(setName);
    if Falsy(productId) then
      Exchange(SearchReply(404, Some(NotFoundMessage(setName)), setName, None, None), [])
    else
      var request := PriceRequestFor(productId.value, DefaultRange);
      Exchange(SearchReply(200, None, setName, productId, FetchPriceHistory(upstream, request)), [request])
  }

  /** A search fetches prices exactly when it finds an id, and prices appear in
      the reply only when that fetch succeeded. */
  lemma SearchFetchesIffFound<Doc>(setName: string, scrape: string -> Option<string>,
                                   upstream: PriceRequest -> Upstream<Doc>)
    ensures var x := Search(setName, scrape, upstream);
            (|x.requests| == 1 <==> x.reply.status == 200)
            && (x.requests == [] <==> x.reply.status == 404)
            && (x.reply.priceHistory.Some? ==>
                  |x.requests| == 1 && upstream(x.requests[0]).Answered?
                  && Succeeded(upstream(x.requests[0]).status))
  {
  }

  /** `/price-history/:productId`: coerce the range, fetch once at that range,
      and report the effective range rather than the requested one. */
  function PriceHistory<Doc>(productId: string, range: QueryValue,
                             upstream: PriceRequest -> Upstream<Doc>): (x: Exchange<PriceReply<Doc>>)
    ensures x.reply.productId == productId
    ensures x.reply.range in ValidRangeNames
    ensures range.Single? && range.value in ValidRangeNames ==> x.reply.range == range.value
    ensures !(range.Single? && range.value in ValidRangeNames) ==> x.reply.range == "quarter"
    ensures |x.requests| == 1 && x.requests[0].url == PriceUrl(productId, x.reply.range)
    ensures x.reply.priceHistory == FetchPriceHistory(upstream, x.requests[0])
  {
    var valid := CoerceRange(range);
    var request := PriceRequestFor(productId, valid);
    Exchange(PriceReply(productId, RangeName(valid), FetchPriceHistory(upstream, request)), [request])
  }

  /** A missing, unknown or repeated range is served exactly as `quarter`. */
  lemma InvalidRangeIsQuarter<Doc>(productId: string, range: QueryValue,
                                   upstream: PriceRequest -> Upstream<Doc>)
    requires !(range.Single? && range.value in ValidRangeNames)
    ensures PriceHistory(productId, range, upstream) == PriceHistory(productId, Single("quarter"), upstream)
  {
  }
}
