/** The response-shaping decisions of the typed entry point index.ts: the same
    routes as the compiled backend, with `collectorBoosterIds` echoing the id in
    a successful search. */
module TypedServer {
  import opened Options
  import opened PriceApi
  import BackendServer

  /** The JSON body of `/search/:setName`; `collectorBoosterIds` is `None` when
      the field is absent (the 404 reply). */
  datatype SearchReply<Doc> = SearchReply(
    status: int,
    error: Option<string>,
    setName: string,
    productId: Option<string>,
    collectorBoosterIds: Option<string>,
    priceHistory: Option<Doc>)

  /** The JSON body of `/price-history/:productId`; its range has the
      `PriceRange` type, so it is a code rather than free text. */
  datatype PriceReply<Doc> = PriceReply(productId: string, range: RangeCode, priceHistory: Option<Doc>)

  function Search<Doc>(setName: string, scrape: string -> Option<string>,
                       upstream: PriceRequest -> Upstream<Doc>): (x: Exchange<SearchReply<Doc>>)
    ensures x.reply.setName == setName
    ensures Falsy(scrape(setName)) ==>
              x.reply.status == 404
              && x.reply.error == Some("No collector booster display found for set: " + setName)
              && x.reply.productId.None? && x.reply.collectorBoosterIds.None?
              && x.reply.priceHistory.None? && x.requests == []
    ensures !Falsy(scrape(setName)) ==>
              x.reply.status == 200 && x.reply.error.None?
              && x.reply.productId == scrape(setName)
              && x.reply.collectorBoosterIds == x.reply.productId
              && x.requests == [BackendServer.PriceRequestFor(scrape(setName).value, Quarter)]
              && x.reply.priceHistory == FetchPriceHistory(upstream, x.requests[0])
  {
    var productId := scrape(setName);
    if Falsy(productId) then
      Exchange(SearchReply(404, Some(BackendServer.NotFoundMessage(setName)), setName, None, None, None), [])
    else
      var request := BackendServer.PriceRequestFor(productId.value, DefaultRange);
      Exchange(SearchReply(200, None, setName, productId, productId, FetchPriceHistory(upstream, request)), [request])
  }

  function PriceHistory<Doc>(productId: string, range: QueryValue,
                             upstream: PriceRequest -> Upstream<Doc>): (x: Exchange<PriceReply<Doc>>)
    ensures x.reply.productId == productId
    ensures range.Single? && range.value in ValidRangeNames ==> RangeName(x.reply.range) == range.value
    ensures !(range.Single? && range.value in ValidRangeNames) ==> x.reply.range == Quarter
    ensures x.requests == [BackendServer.PriceRequestFor(productId, x.reply.range)]
    ensures x.reply.priceHistory == FetchPriceHistory(upstream, x.requests[0])
  {
    var valid := CoerceRange(range);
    var request := BackendServer.PriceRequestFor(productId, valid);
    Exchange(PriceReply(productId, valid, FetchPriceHistory(upstream, request)), [request])
  }

  /** Apart from the extra echo field, the typed search replies and fetches
      exactly as the compiled backend does. */
  lemma SearchMatchesBackend<Doc>(setName: string, scrape: string -> Option<string>,
                                  upstream: PriceRequest -> Upstream<Doc>)
    ensures var t := Search(setName, scrape, upstream);
            var b := BackendServer.Search(setName, scrape, upstream);
            t.requests == b.requests
            && t.reply.status == b.reply.status && t.reply.error == b.reply.error
            && t.reply.setName == b.reply.setName && t.reply.productId == b.reply.productId
            && t.reply.priceHistory == b.reply.priceHistory
  {
  }

  /** The typed price-history route reports the same range name and sends the
      same request as the compiled backend. */
  lemma PriceHistoryMatchesBackend<Doc>(productId: string, range: QueryValue,
                                        upstream: PriceRequest -> Upstream<Doc>)
    ensures var t := PriceHistory(productId, range, upstream);
            var b := BackendServer.PriceHistory(productId, range, upstream);
            t.requests == b.requests && RangeName(t.reply.range) == b.reply.range
            && t.reply.priceHistory == b.reply.priceHistory
  {
  }
}
