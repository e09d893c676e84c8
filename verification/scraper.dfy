/** The two scrapers around the extractor: build the search URL from the slug,
    load the page in a headless browser, collect the ids, and close the browser
    whatever happens. The browser is an oracle from the visit it is asked to
    make to what the page turned out to be; launching it is counted, not
    performed. */
module Scraper {
  import opened Options
  import opened ProductLinks
  import SetNameSlug
  import LegacySetNameSlug

  const BaseUrl: string := "https://www.tcgplayer.com/search/magic/"
  const QueryPrefix: string := "?productLineName=magic&page=1&view=grid&ProductTypeName=Sealed+Products&setName="
  /** The selector both scrapers wait for before reading the page. */
  const ResultsSelector: string := ".search-results"
  const TypedTimeoutMs: nat := 15000
  const LegacyTimeoutMs: nat := 10000

  /** What the scraper asks of the browser: the URL, whether navigation waits
      for the network to go idle, and how long to wait for the results. */
  datatype Visit = Visit(url: string, waitForIdle: bool, selector: string, timeoutMs: nat)

  /** The outcome of a visit: the page's anchors in document order, or the step
      that threw. */
  datatype PageLoad =
    | Loaded(anchors: seq<Anchor>)
    | NavigationFailed
    | SelectorTimeout

  /** How many times the browser was launched and closed during one scrape. */
  datatype Session = Session(launched: nat, closed: nat) {
    /** Every launched browser has been closed exactly once. */
    predicate Released() {
      launched == 1 && closed == 1
    }
  }

  /** The search URL: the slug is both the last path segment and the value of
      the `setName` parameter. */
  function SearchUrl(slug: string): (url: string)
    ensures |url| == |BaseUrl| + |QueryPrefix| + 2 * |slug|
    ensures url[..|BaseUrl|] == BaseUrl && url[|url| - |slug|..] == slug
    ensures url[|BaseUrl|..|BaseUrl| + |slug|] == slug
    ensures url[|BaseUrl| + |slug|..|url| - |slug|] == QueryPrefix
  {
    var url := BaseUrl + slug + QueryPrefix + slug;
    assert url[|BaseUrl|..|BaseUrl| + |slug|] == slug;
    assert url[|BaseUrl| + |slug|..|url| - |slug|] == QueryPrefix;
    url
  }

  /** Two slugs give the same search URL only when they are the same slug: the
      URL determines the slug it was built from. */
  lemma SearchUrlInjective(s1: string, s2: string)
    ensures SearchUrl(s1) == SearchUrl(s2) <==> s1 == s2
  {
    if SearchUrl(s1) == SearchUrl(s2) {
      assert |s1| == |s2|;
      assert s1 == SearchUrl(s1)[|BaseUrl|..|BaseUrl| + |s1|];
    }
  }

  /** The visit of the backend scraper: wait for network idle, then up to
      fifteen seconds for the results. */
  function TypedVisit(setName: string): Visit {
    Visit(SearchUrl(SetNameSlug.TransformSetName(setName)), true, ResultsSelector, TypedTimeoutMs)
  }

  /** The visit of the older scraper: default navigation, then up to ten seconds. */
  function LegacyVisit(setName: string): Visit {
    Visit(SearchUrl(LegacySetNameSlug.TransformSetName(setName)), false, ResultsSelector, LegacyTimeoutMs)
  }

  /** `scrapeCollectorBoosterId`: collect every qualifying id and return the
      first; any failure after the launch gives no id; the browser is closed on
      every path. */
  method ScrapeCollectorBoosterId(setName: string, browser: Visit -> PageLoad)
    returns (id: Option<string>, session: Session)
    ensures session.Released()
    ensures browser(TypedVisit(setName)).Loaded? ==> id == FirstId(browser(TypedVisit(setName)).anchors)
    ensures !browser(TypedVisit(setName)).Loaded? ==> id == None
    ensures id.Some? ==> IsProductId(id.value)
  {
    session := Session(1, 0);
    var load := browser(TypedVisit(setName));
    match load {
      case Loaded(anchors) =>
        var ids := CollectIds(anchors);
        FirstIdIsHead(anchors);
        id := if |ids| > 0 then Some(ids[0]) else None;
      case NavigationFailed =>
        id := None;
      case SelectorTimeout =>
        id := None;
    }
    session := session.(closed := session.closed + 1);
  }

  /** `scrapeCollectorBoosterIds`: every qualifying id in document order, or no
      ids at all when anything fails after the launch; the browser is closed on
      every path. */
  method ScrapeCollectorBoosterIds(setName: string, browser: Visit -> PageLoad)
    returns (ids: seq<string>, session: Session)
    ensures session.Released()
    ensures browser(LegacyVisit(setName)).Loaded? ==> ids == QualifyingIds(browser(LegacyVisit(setName)).anchors)
    ensures !browser(LegacyVisit(setName)).Loaded? ==> ids == []
    ensures forall k :: 0 <= k < |ids| ==> IsProductId(ids[k])
  {
    session := Session(1, 0);
    var load := browser(LegacyVisit(setName));
    if load.Loaded? {
      ids := CollectIds(load.anchors);
    } else {
      ids := [];
    }
    session := session.(closed := session.closed + 1);
  }

  /** Given the same page, the two scrapers agree: the backend scraper's id is
      the older scraper's first id, and it finds none exactly when the older
      scraper finds none. */
  method ScrapersAgree(setName: string, browser: Visit -> PageLoad)
    returns (id: Option<string>, ids: seq<string>)
    ensures browser(TypedVisit(setName)).Loaded? && browser(LegacyVisit(setName)) == browser(TypedVisit(setName)) ==>
              (id == None <==> ids == []) && (ids != [] ==> id == Some(ids[0]))
  {
    var typedSession, legacySession;
    id, typedSession := ScrapeCollectorBoosterId(setName, browser);
    ids, legacySession := ScrapeCollectorBoosterIds(setName, browser);
    var load := browser(TypedVisit(setName));
    if load.Loaded? {
      FirstIdIsHead(load.anchors);
    }
  }
}
