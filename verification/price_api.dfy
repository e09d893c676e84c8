/** The pieces the three server entry points share: the four price-history
    ranges, the query value Express hands over, the upstream price request and
    `fetchPriceHistory`, which turns every failure into `null`. The upstream
    service is an oracle from the request sent to what came back. */
module PriceApi {
  import opened Options

  /** The range codes the upstream price service accepts. */
  datatype RangeCode = Month | Quarter | SemiAnnual | Annual

  const DefaultRange: RangeCode := Quarter

  function RangeName(r: RangeCode): (name: string)
    ensures name in ValidRangeNames
  {
    match r
    case Month => "month"
    case Quarter => "quarter"
    case SemiAnnual => "semi-annual"
    case Annual => "annual"
  }

  /** The list the routes check a requested range against. */
  const ValidRangeNames: seq<string> := ["month", "quarter", "semi-annual", "annual"]

  /** The range code with the given name, if there is one. */
  function ParseRange(name: string): (r: Option<RangeCode>)
    ensures r.Some? <==> name in ValidRangeNames
    ensures r.Some? ==> RangeName(r.value) == name
  {
    if name == "month" then Some(Month)
    else if name == "quarter" then Some(Quarter)
    else if name == "semi-annual" then Some(SemiAnnual)
    else if name == "annual" then Some(Annual)
    else None
  }

  /** Names and codes correspond one to one. */
  lemma ParseRangeName(r: RangeCode)
    ensures ParseRange(RangeName(r)) == Some(r)
  {
  }

  lemma RangeNameInjective(r1: RangeCode, r2: RangeCode)
    ensures RangeName(r1) == RangeName(r2) <==> r1 == r2
  {
    ParseRangeName(r1);
    ParseRangeName(r2);
  }

  /** A query parameter as Express parses it: missing, given once, or repeated
      (which yields an array). */
  datatype QueryValue = Absent | Single(value: string) | Repeated(values: seq<string>)

  /** `const { range = 'quarter' } = req.query`: the default applies only when
      the parameter is missing. */
  function RangeOrDefault(query: QueryValue): (q: QueryValue)
    ensures q != Absent
    ensures query == Absent ==> q == Single("quarter")
    ensures query != Absent ==> q == query
  {
    if query == Absent then Single(RangeName(DefaultRange)) else query
  }

  /** The effective range: the requested one when the list of valid names
      includes it (an array never equals a string), otherwise `quarter`. */
  function CoerceRange(query: QueryValue): (r: RangeCode)
    ensures query.Single? && query.value in ValidRangeNames ==> RangeName(r) == query.value
    ensures !(query.Single? && query.value in ValidRangeNames) ==> r == Quarter
  {
    var q := RangeOrDefault(query);
    if q.Single? && q.value in ValidRangeNames then ParseRange(q.value).value else DefaultRange
  }

  /** Coercion leaves a valid range alone, so coercing twice is coercing once. */
  lemma CoerceRangeIdempotent(query: QueryValue)
    ensures CoerceRange(Single(RangeName(CoerceRange(query)))) == CoerceRange(query)
  {
    RangeNameInjective(CoerceRange(Single(RangeName(CoerceRange(query)))), CoerceRange(query));
  }

  /** What the upstream service did with a request. */
  datatype Upstream<Doc> = Answered(status: int, body: Doc) | TransportError

  /** A GET to the price service; the typed servers send browser-like headers,
      the older one sends none. */
  datatype PriceRequest = PriceRequest(url: string, browserHeaders: bool)

  const PriceEndpoint: string := "https://infinite-api.tcgplayer.com/price/history/"
  const DetailPath: string := "/detailed?range="

  function PriceUrl(productId: string, range: string): (url: string)
    ensures |url| == |PriceEndpoint| + |productId| + |DetailPath| + |range|
    ensures url[..|PriceEndpoint|] == PriceEndpoint
    ensures url[|PriceEndpoint|..|PriceEndpoint| + |productId|] == productId
    ensures url[|PriceEndpoint| + |productId|..|url| - |range|] == DetailPath
    ensures url[|url| - |range|..] == range
  {
    var url := PriceEndpoint + productId + DetailPath + range;
    assert url[|PriceEndpoint|..|PriceEndpoint| + |productId|] == productId;
    assert url[|PriceEndpoint| + |productId|..|url| - |range|] == DetailPath;
    url
  }

  /** The range comes back out of the URL it was put into, so the URL records
      which range was requested. */
  lemma PriceUrlRangeRecoverable(productId: string, r1: RangeCode, r2: RangeCode)
    ensures PriceUrl(productId, RangeName(r1)) == PriceUrl(productId, RangeName(r2)) <==> r1 == r2
  {
    var u1, u2 := PriceUrl(productId, RangeName(r1)), PriceUrl(productId, RangeName(r2));
    if u1 == u2 {
      var n := |PriceEndpoint| + |productId| + |DetailPath|;
      assert u1[n..] == RangeName(r1);
      assert u2[n..] == RangeName(r2);
      RangeNameInjective(r1, r2);
    }
  }

  /** axios' default status check: only a 2xx answer resolves. */
  predicate Succeeded(status: int) {
    200 <= status < 300
  }

  /** `fetchPriceHistory`: the answer's body, or `null` when the request fails in
      transport or the answer's status is outside 2xx. */
  function FetchPriceHistory<Doc>(upstream: PriceRequest -> Upstream<Doc>, request: PriceRequest): (r: Option<Doc>)
    ensures r.Some? <==> upstream(request).Answered? && Succeeded(upstream(request).status)
    ensures r.Some? ==> r.value == upstream(request).body
  {
    match upstream(request)
    case Answered(status, body) => if Succeeded(status) then Some(body) else None
    case TransportError => None
  }

  /** A reply together with every price request made while producing it, in order. */
  datatype Exchange<R> = Exchange(reply: R, requests: seq<PriceRequest>)

  /** JavaScript's `!value` on an optional string: missing or empty. */
  predicate Falsy(value: Option<string>) {
    value.None? || value.value == ""
  }
}
