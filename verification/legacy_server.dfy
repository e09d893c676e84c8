/** The response-shaping decisions of the older entry point index.js: the search
    returns every id found plus their count and fetches prices only for the
    first; the price-history route forwards the requested range unchecked and
    sends no browser headers. */
module LegacyServer {
  import opened Options
  import opened PriceApi

  /** The JSON body of `/search/:setName` (always status 200). */
  datatype SearchReply<Doc> = SearchReply(
    setName: string,
    collectorBoosterIds: seq<string>,
    count: int,
    priceHistory: Option<Doc>)

  /** The JSON body of `/price-history/:productId`; the range is echoed as it
      was given, after the default. */
  datatype PriceReply<Doc> = PriceReply(productId: string, range: QueryValue, priceHistory: Option<Doc>)

  /** How a query value reads inside a template string: an array is joined with
      commas. */
  function QueryText(q: QueryValue): string {
    match q
    case Absent => "undefined"
    case Single(s) => s
    case Repeated(values) => JoinComma(values)
  }

  function JoinComma(values: seq<string>): string
    decreases |values|
  {
    if values == [] then ""
    else if |values| == 1 then values[0]
    else values[0] + "," + JoinComma(values[1..])
  }

  /** `fetchPriceHistory` of this version: a bare GET, no headers. */
  function PlainRequest(productId: string, range: string): PriceRequest {
    PriceRequest(PriceUrl(productId, range), false)
  }

  /** `/search/:setName`: scrape every id; fetch prices for the first one at the
      default range only when there is one. */
  function Search<Doc>(setName: string, scrapeIds: string -> seq<string>,
                       upstream: PriceRequest -> Upstream<Doc>): (x: Exchange<SearchReply<Doc>>)
    ensures x.reply.setName == setName
    ensures x.reply.collectorBoosterIds == scrapeIds(setName)
    ensures x.reply.count == |x.reply.collectorBoosterIds|
    ensures scrapeIds(setName) == [] ==> x.requests == [] && x.reply.priceHistory.None?
    ensures scrapeIds(setName) != [] ==>
              x.requests == [PlainRequest(scrapeIds(setName)[0], "quarter")]
              && x.reply.priceHistory == FetchPriceHistory(upstream, x.requests[0])
  {
    var productIds := scrapeIds(setName);
    if |productIds| > 0 then
      var request := PlainRequest(productIds[0], RangeName(Quarter));
      Exchange(SearchReply(setName, productIds, |productIds|, FetchPriceHistory(upstream, request)), [request])
    else
      Exchange(SearchReply(setName, productIds, |productIds|, None), [])
  }

  /** At most one fetch, always for the first id; prices only when it succeeded. */
  lemma SearchFetchesFirstOnly<Doc>(setName: string, scrapeIds: string -> seq<string>,
                                    upstream: PriceRequest -> Upstream<Doc>)
    ensures var x := Search(setName, scrapeIds, upstream);
            |x.requests| <= 1
            && (|x.requests| == 1 <==> x.reply.count > 0)
            && (x.reply.priceHistory.Some? ==>
                  x.reply.count > 0 && upstream(x.requests[0]).Answered?
                  && Succeeded(upstream(x.requests[0]).status))
  {
  }

  /** `/price-history/:productId`: the range defaults to `quarter` only when it
      is missing and is otherwise forwarded and echoed as given. */
  function PriceHistory<Doc>(productId: string, range: QueryValue,
                             upstream: PriceRequest -> Upstream<Doc>): (x: Exchange<PriceReply<Doc>>)
    ensures x.reply.productId == productId
    ensures range == Absent ==> x.reply.range == Single("quarter")
    ensures range != Absent ==> x.reply.range == range
    ensures x.requests == [PlainRequest(productId, QueryText(x.reply.range))]
    ensures x.reply.priceHistory == FetchPriceHistory(upstream, x.requests[0])
  {
    var r := RangeOrDefault(range);
    var request := PlainRequest(productId, QueryText(r));
    Exchange(PriceReply(productId, r, FetchPriceHistory(upstream, request)), [request])
  }

  /** Any range text at all reaches the upstream URL and the reply unchanged,
      valid or not; the compiled backend would have asked for `quarter`. */
  lemma UnvalidatedRangeForwarded<Doc>(productId: string, range: string,
                                       upstream: PriceRequest -> Upstream<Doc>)
    ensures var x := PriceHistory(productId, Single(range), upstream);
            x.reply.range == Single(range) && x.requests[0].url == PriceUrl(productId, range)
  {
  }

  /** `decade` is not a range the upstream service knows, yet it is requested. */
  lemma ExampleDecadeForwarded<Doc>(productId: string, upstream: PriceRequest -> Upstream<Doc>)
    ensures "decade" !in ValidRangeNames
    ensures PriceHistory(productId, Single("decade"), upstream).requests[0].url == PriceUrl(productId, "decade")
  {
  }
}
