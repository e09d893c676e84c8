# MTG collector booster price tracker — a Dafny model

The tracker finds the collector-booster-display product of a Magic: The
Gathering set on TCGplayer and serves its price history. It does four things:

- It turns a set name into a URL slug.
- It loads TCGplayer's search page for that slug in a headless browser.
- It picks the product id out of the page's product links.
- It asks TCGplayer's price service for the history of that id over one of four
  ranges.

A React dashboard keeps the list of sets the user follows and the range each
chart shows.

The repository holds three generations of the server side. This model covers
all three:

- **Older**: `index.js` with `utils/scraper.js` and `utils/setNameUtils.js`. The
  slug keeps colons, every matching id is returned, and the requested range is
  forwarded unchecked.
- **Typed**: `index.ts` with `backend/utils/scraper.ts` and
  `backend/utils/setNameUtils.ts`.
- **Compiled**: `backend/dist/index.js`, an earlier build that differs from
  `index.ts` in four ways:
  - It enables CORS (lines 13-17).
  - It serves the frontend's static files (lines 70-74).
  - Its search reply has no `collectorBoosterIds` echo (`index.ts:59`).
  - It has no "hello world" root route (`index.ts:31-33`).

  The two price-history routes and the 404 reply are the same. Its slug function
  `backend/dist/utils/setNameUtils.js` is the same four steps as the typed one,
  so both are modelled by `SetNameSlug`.

The modules follow that structure:

| module | file | what it holds |
|---|---|---|
| `Options` | options.dfy | `Option<T>` |
| `Text` | text.dfy | JavaScript `\s`, ASCII `toLowerCase`, deletion of a character, `trim`, `includes` |
| `SetNameSlug` | slug.dfy | the backend slug and its properties |
| `LegacySetNameSlug` | legacy_slug.dfy | the older slug, which keeps colons, and how it relates to the backend one |
| `ProductLinks` | product_links.dfy | the anchor filter, `/\/product\/(\d+)\//`, and the ids collected from a page |
| `Scraper` | scraper.dfy | search URL, browser visit, both scrape functions |
| `PriceApi` | price_api.dfy | ranges, query values, the price URL, `fetchPriceHistory` |
| `BackendServer`, `TypedServer`, `LegacyServer` | backend_server.dfy, typed_server.dfy, legacy_server.dfy | the two routes of each entry point |
| `Dashboard` | dashboard.dfy | the dashboard state and its three handlers |

The browser and the upstream price service are parameters: functions from the
request made to what came back. Routes return an `Exchange`: the JSON reply
plus every price request sent while producing it, in order. Properties such as
"fetches exactly once" or "fetches only for the first id" are stated over that
list.

## Model

| member | source | states |
|---|---|---|
| Text.Lower | backend/utils/setNameUtils.ts:3 | same length; each character case-folded in place; no upper-case letter remains |
| Text.LowerKeeps | backend/utils/setNameUtils.ts:3 | case folding never creates or removes white space, an apostrophe or a colon |
| Text.LowerOfNoUpper | backend/utils/setNameUtils.ts:3 | folding text without capitals changes nothing, so folding is idempotent |
| Text.Without | backend/utils/setNameUtils.ts:4-5 | the character is gone; every other character of the input is kept and nothing new appears; the result is no longer; text without it is unchanged |
| Text.WithoutAppend | backend/utils/setNameUtils.ts:4-5 | deletion works piecewise over concatenation |
| Text.Trim | frontend/src/App.tsx:33-34 | the result is no longer than the input and neither begins nor ends with white space |
| Text.TrimIsMiddle | frontend/src/App.tsx:33-34 | the trimmed text is a middle slice between an all-white-space prefix and suffix |
| Text.TrimIdempotent | frontend/src/App.tsx:33-34 | trimming a trimmed name changes nothing |
| Text.Contains | backend/utils/scraper.ts:62 | `includes`: the empty string is included in every text, and nothing longer than the text is |
| Text.ContainsIffOccurs | backend/utils/scraper.ts:62 | the `includes` scan succeeds exactly when the needle occurs at some index |
| Text.ContainsPiece | backend/utils/scraper.ts:62 | text that includes a phrase includes every piece of it |
| SetNameSlug.Collapse | backend/utils/setNameUtils.ts:6 | no white space in the result; never longer; only hyphens are new; white-space-free text is unchanged |
| SetNameSlug.CollapseScan | backend/utils/setNameUtils.ts:6 | a single left-to-right pass that emits one hyphen on entering a run computes the collapse |
| SetNameSlug.TransformSetName | backend/utils/setNameUtils.ts:1-7 | the slug has no apostrophe, colon, white space or capital and is no longer than the name |
| SetNameSlug.TransformIdempotent | backend/utils/setNameUtils.ts:1-7 | a slug is its own slug |
| SetNameSlug.KeepsSignificantInOrder | backend/utils/setNameUtils.ts:1-7 | every character other than white space, apostrophe, colon and hyphen survives, folded and in order, and no other such character appears |
| SetNameSlug.CollapseKeepsFiltered | backend/utils/setNameUtils.ts:6 | the collapse changes nothing a filter that ignores white space and hyphens can see |
| SetNameSlug.CollapseHyphenCount | backend/utils/setNameUtils.ts:6 | the hyphen count is the input's hyphens plus one per maximal white-space run, with runs counted by an independent definition |
| SetNameSlug.CollapseSpacesThen | backend/utils/setNameUtils.ts:6 | a white-space run becomes exactly one hyphen |
| SetNameSlug.CollapseWordThen | backend/utils/setNameUtils.ts:6 | a white-space-free prefix is copied unchanged |
| SetNameSlug.CollapseEndsWithHyphen | backend/utils/setNameUtils.ts:6 | text ending in white space collapses to text ending in a hyphen |
| SetNameSlug.CollapseJoin | backend/utils/setNameUtils.ts:6 | word, white-space run, word gives word, one hyphen, word |
| SetNameSlug.LeadingSpaceKept | backend/utils/setNameUtils.ts:1-7 | nothing is trimmed: leading white space gives a leading hyphen |
| SetNameSlug.TrailingSpaceKept | backend/utils/setNameUtils.ts:1-7 | trailing white space gives a trailing hyphen |
| SetNameSlug.Stripped | backend/utils/setNameUtils.ts:3-5 | steps one to three: the result is no longer and holds no apostrophe, colon or capital |
| SetNameSlug.StrippedAppend | backend/utils/setNameUtils.ts:3-5 | folding and both deletions distribute over concatenation |
| SetNameSlug.StrippedDrop | backend/utils/setNameUtils.ts:4-5 | an apostrophe or colon anywhere is deleted without a trace |
| SetNameSlug.DeletedAnywhere | backend/utils/setNameUtils.ts:1-7 | the slug is the same with or without an apostrophe or colon at any position |
| SetNameSlug.WordThen | backend/utils/setNameUtils.ts:1-7 | a white-space-free leading word contributes its folded, stripped self |
| SetNameSlug.SpacesThen | backend/utils/setNameUtils.ts:1-7 | a leading white-space run before a word contributes one hyphen |
| SetNameSlug.ExampleWilds | backend/utils/setNameUtils.ts:1-7 | "Wilds of Eldraine" gives "wilds-of-eldraine" |
| SetNameSlug.CollapseTwoJoins | backend/utils/setNameUtils.ts:6 | three space-free words with one white-space character between each become the words joined by two hyphens |
| SetNameSlug.ExampleTarkir | backend/dist/utils/setNameUtils.js:1-7 | "Tarkir: Dragonstorm" gives "tarkir-dragonstorm" |
| SetNameSlug.ExampleAssassins | backend/utils/setNameUtils.ts:1-7 | "Assassin's Creed" gives "assassins-creed" |
| SetNameSlug.ExampleSpacedColon | backend/utils/setNameUtils.ts:5-6 | "a : b" gives "a-b": the colon goes before the collapse, leaving one run |
| LegacySetNameSlug.TransformSetName | utils/setNameUtils.js:1-6 | the slug has no apostrophe, white space or capital and is no longer than the name |
| LegacySetNameSlug.Stripped | utils/setNameUtils.js:3-4 | steps one and two: the result is no longer and holds no apostrophe or capital; it holds a colon exactly when the name does |
| LegacySetNameSlug.KeepsSignificantInOrder | utils/setNameUtils.js:1-6 | every character but white space, apostrophe and hyphen, colons included, survives folded and in order |
| LegacySetNameSlug.ColonsKept | utils/setNameUtils.js:1-6 | the slug has a colon exactly when the name has one |
| LegacySetNameSlug.AgreesWithoutColons | utils/setNameUtils.js:1-6 | on names without colons the older and the backend slug are equal |
| LegacySetNameSlug.StripColonsAgrees | utils/setNameUtils.js:1-6 | deleting colons from the older slug gives the backend slug unless a colon run sits between two white-space characters |
| LegacySetNameSlug.CollapseWithoutCommute | utils/setNameUtils.js:5 | collapsing and then deleting a character equals deleting and then collapsing, under that same condition |
| LegacySetNameSlug.ExampleTarkir | utils/setNameUtils.js:1-6 | "Tarkir: Dragonstorm" gives "tarkir:-dragonstorm" |
| LegacySetNameSlug.ExampleSpacedColon | utils/setNameUtils.js:1-6 | "a : b" gives "a-:-b"; deleting its colon gives "a--b", not the backend's "a-b" |
| ProductLinks.DigitRun | backend/utils/scraper.ts:64 | the greedy `\d+`: a slice of digits that cannot be extended |
| ProductLinks.DigitRunUnique | backend/utils/scraper.ts:64 | any non-extendable digit slice at that index is the greedy run |
| ProductLinks.MatchAtIff | backend/utils/scraper.ts:64 | at one index the pattern matches with group d exactly when the matcher returns d, so at most one group per index |
| ProductLinks.MatchGivesIdAt | backend/utils/scraper.ts:64 | what the matcher returns is a real occurrence of `/product/` digits `/` |
| ProductLinks.IdAtGivesMatch | backend/utils/scraper.ts:64 | every such occurrence is found by the matcher |
| ProductLinks.FirstMatchFromIsLeftmost | backend/utils/scraper.ts:64 | the scan from an index returns d exactly when d's match is the leftmost from there |
| ProductLinks.ProductIdIsLeftmost | backend/utils/scraper.ts:64 | the extracted id is the group of the leftmost match; none exactly when nothing matches |
| ProductLinks.MatchGivesId | backend/utils/scraper.ts:64-65 | a match anywhere means an id is extracted |
| ProductLinks.LeftmostExists | backend/utils/scraper.ts:64 | if there is a match there is a leftmost one |
| ProductLinks.SelectorImpliedByMatch | backend/utils/scraper.ts:57-64 | an href the pattern matches always contains `/product/`, so the selector drops nothing the pattern would use |
| ProductLinks.ProductIdOf | backend/utils/scraper.ts:64 | `href.match(/\/product\/(\d+)\//)?.[1]`: whatever it returns is a non-empty digit string |
| ProductLinks.ProductIdOfLeading | backend/utils/scraper.ts:64 | `/product/` digits `/` anything yields those digits |
| ProductLinks.AnchorId | backend/utils/scraper.ts:57-65 | an id from an anchor is all digits, from a selected anchor whose text qualifies |
| ProductLinks.Selected | backend/utils/scraper.ts:57 | `a[href*="/product/"]`: the anchor has an href and it contains `/product/` |
| ProductLinks.TextQualifies | backend/utils/scraper.ts:61-62 | the lower-cased text includes `collector booster display` and does not include `case` |
| ProductLinks.AnchorIdIff | backend/utils/scraper.ts:57-65 | an anchor gives d exactly when it has an href, its text qualifies, and d is the leftmost match's group |
| ProductLinks.QualifyingIds | backend/utils/scraper.ts:55-66 | at most one id per anchor, each all digits |
| ProductLinks.CollectIds | backend/utils/scraper.ts:57-66 | the `.each` loop pushing ids computes the ids of the anchors in document order |
| ProductLinks.QualifyingIdsAppend | backend/utils/scraper.ts:57-66 | the ids of two pages of anchors are the ids of the first followed by those of the second |
| ProductLinks.QualifyingIdsSingle | backend/utils/scraper.ts:64-65 | one anchor contributes exactly its own id or nothing |
| ProductLinks.QualifyingIdSource | backend/utils/scraper.ts:57-66 | every collected id comes from some anchor |
| ProductLinks.QualifyingIdFromAnchor | backend/utils/scraper.ts:57-66 | every anchor's id is collected |
| ProductLinks.QualifyingIdsMember | backend/utils/scraper.ts:57-66 | d is collected exactly when some anchor gives d |
| ProductLinks.FirstId | backend/utils/scraper.ts:70 | the returned id, when there is one, is all digits |
| ProductLinks.FirstIdIsEarliest | backend/utils/scraper.ts:57-70 | there is an id exactly when some anchor gives one, and it comes from the earliest such anchor |
| ProductLinks.FirstIdWitness | backend/utils/scraper.ts:57-70 | the anchor the id comes from has no contributing anchor before it |
| ProductLinks.FirstIdFound | backend/utils/scraper.ts:57-70 | any contributing anchor means an id is returned |
| ProductLinks.FirstIdIsHead | backend/utils/scraper.ts:65-70 | the returned id is the head of the collected list |
| ProductLinks.CaseRejected | backend/utils/scraper.ts:61-62 | text mentioning "case" in any letter case is rejected |
| ProductLinks.ShowcaseRejected | backend/utils/scraper.ts:61-62 | text mentioning "showcase" is rejected too |
| ProductLinks.DisplayCaseRejected | backend/utils/scraper.ts:61-62 | "collector booster display case" is rejected although it contains the phrase |
| ProductLinks.NoHrefSkipped | backend/utils/scraper.ts:59 | an anchor without an href contributes nothing |
| ProductLinks.IdAtClosingSlash | backend/utils/scraper.ts:64 | a match needs a `/` right after the digits |
| ProductLinks.NoClosingSlash | backend/utils/scraper.ts:64 | `/product/` followed by digits to the end of the href yields no id |
| ProductLinks.ExampleNoClosingSlash | backend/utils/scraper.ts:64 | "/product/123" yields no id |
| ProductLinks.DisplayPhraseHasNoCase | backend/utils/scraper.ts:62 | the display phrase does not itself contain "case" |
| ProductLinks.PhraseQualifies | backend/utils/scraper.ts:61-62 | text that folds to exactly the phrase qualifies |
| ProductLinks.LeadingAnchorId | backend/utils/scraper.ts:57-65 | a qualifying anchor with href `/product/`d`/`… gives d |
| ProductLinks.ExampleDisplayThenCase | backend/utils/scraper.ts:57-70 | a display followed by a display case yields only the display's id, and that id is returned |
| Scraper.SearchUrl | backend/utils/scraper.ts:19-21 | the URL is the base, the slug, the query prefix (sealed-product filter and the `setName=` key), then the slug again |
| Scraper.SearchUrlInjective | backend/utils/scraper.ts:19-21 | different slugs give different URLs |
| Scraper.ScrapeCollectorBoosterId | backend/utils/scraper.ts:15-76 | the browser is closed exactly once on every path; a loaded page gives its first id; a failed navigation or selector wait gives none |
| Scraper.ScrapeCollectorBoosterIds | utils/scraper.js:10-54 | the browser is closed exactly once on every path; a loaded page gives all its ids in order; any failure gives the empty list |
| Scraper.ScrapersAgree | utils/scraper.js:34-47 | when both visits load the same page, the backend scraper's id is the older scraper's first id, and the backend scraper finds none exactly when the older one finds none |
| PriceApi.RangeName | index.ts:8 | every range code names a valid range |
| PriceApi.ParseRange | backend/dist/index.js:61 | a name parses exactly when it is in the valid list, and parses to the code with that name |
| PriceApi.ParseRangeName | index.ts:8 | parsing a range's name gives the range back |
| PriceApi.RangeNameInjective | index.ts:8 | different ranges have different names |
| PriceApi.RangeOrDefault | backend/dist/index.js:60 | a missing parameter becomes `quarter`; any given value, valid or not, is kept as it is |
| PriceApi.CoerceRange | backend/dist/index.js:60-61 | a single valid name is kept; a missing, unknown or repeated parameter becomes `quarter` |
| PriceApi.CoerceRangeIdempotent | backend/dist/index.js:60-61 | coercing an already coerced range changes nothing |
| PriceApi.PriceUrl | backend/dist/index.js:20 | the URL is the endpoint, the product id, `/detailed?range=`, then the range |
| PriceApi.PriceUrlRangeRecoverable | backend/dist/index.js:20 | for one product, different ranges give different URLs |
| PriceApi.FetchPriceHistory | backend/dist/index.js:18-34 | the body is returned exactly when the service answered with a 2xx status; otherwise `null` |
| PriceApi.Succeeded | backend/dist/index.js:21 | axios' default status check: an answer resolves only with a status from 200 to 299 |
| BackendServer.Search | backend/dist/index.js:36-56 | a missing or empty id gives 404 with the message "No collector booster display found for set: " and the name, null id and prices, and no fetch; otherwise 200 echoing the id, after one fetch at `quarter` |
| BackendServer.SearchFetchesIffFound | backend/dist/index.js:39-54 | one fetch exactly when the reply is 200, none exactly when it is 404; prices only after a 2xx answer |
| BackendServer.PriceHistory | backend/dist/index.js:58-68 | the reported range is always valid: the requested one when valid, otherwise `quarter`; one fetch at that range |
| BackendServer.InvalidRangeIsQuarter | backend/dist/index.js:60-62 | an invalid, missing or repeated range is served exactly as `quarter` |
| TypedServer.Search | index.ts:36-62 | as the compiled backend, with the same 404 message, and `collectorBoosterIds` echoes the single id |
| TypedServer.PriceHistory | index.ts:65-78 | the range is a code: the requested one when valid, otherwise `quarter`; one fetch at that range |
| TypedServer.SearchMatchesBackend | index.ts:36-62 | the typed search sends the same requests and the same status, error, name, id and prices as the compiled one |
| TypedServer.PriceHistoryMatchesBackend | index.ts:65-78 | the typed price route sends the same request and reports the same range name as the compiled one |
| LegacyServer.Search | index.js:19-37 | all ids and their count are returned; prices are fetched only for the first id, at `quarter`, and only when there is one |
| LegacyServer.SearchFetchesFirstOnly | index.js:26-29 | at most one fetch, made exactly when some id was found; prices only after a 2xx answer |
| LegacyServer.PriceHistory | index.js:39-50 | the range defaults only when missing and is otherwise forwarded and echoed unvalidated, with an array joined by commas |
| LegacyServer.QueryText | index.js:10 | how the range reads in the URL template: `undefined` when missing, the text when single, the values joined by commas when repeated |
| LegacyServer.UnvalidatedRangeForwarded | index.js:41-48 | any range text reaches the upstream URL and the reply unchanged |
| LegacyServer.ExampleDecadeForwarded | index.js:41-43 | `decade`, not a valid range, is still requested upstream |
| Dashboard.InitialValid | frontend/src/App.tsx:28-30 | the initial state satisfies the invariant |
| Dashboard.DisplayedRange | frontend/src/App.tsx:93 | the chart's range is `setRanges[set]`, or `'quarter'` when that is falsy: `quarter` when no range is stored, and the stored range for every listed set of a valid state |
| Dashboard.AddSet | frontend/src/App.tsx:32-39 | the state changes exactly when the trimmed input is non-empty and new. It then appends the name, stores `quarter` as its range and clears the input. Every other name keeps exactly the entry it had, or keeps having none |
| Dashboard.Remove | frontend/src/App.tsx:42 | the filtered list holds exactly the other names |
| Dashboard.RemoveAppend | frontend/src/App.tsx:42 | filtering works piecewise, so the names kept stay in order |
| Dashboard.RemoveAbsent | frontend/src/App.tsx:42 | filtering out a name that is not there changes nothing |
| Dashboard.RemoveDistinct | frontend/src/App.tsx:42 | filtering keeps a list free of repeats and removes exactly one entry when the name is there |
| Dashboard.RemoveOne | frontend/src/App.tsx:42 | in a list without repeats, filtering out the name at position k gives the list before k followed by the list after k, in order |
| Dashboard.RemoveSet | frontend/src/App.tsx:41-46 | the name leaves the list and the ranges. The new list is the filtered list, so the other names keep their order (see RemoveOne). Every other name keeps exactly the entry it had, or keeps having none. The input is untouched |
| Dashboard.RangeChange | frontend/src/App.tsx:48-50 | the name's entry is now the chosen range, whether or not it had one or is listed. Every other name keeps exactly the entry it had, or keeps having none. The list and the input are untouched |
| Dashboard.AppendNewName | frontend/src/App.tsx:33-35 | appending a new trimmed name keeps the list trimmed and free of repeats |
| Dashboard.AddSetPreservesValid | frontend/src/App.tsx:32-39 | adding keeps the invariant: distinct, trimmed, non-empty names with a range for exactly the listed names |
| Dashboard.AddNamePreservesValid | frontend/src/App.tsx:34-36 | the accepting branch keeps the invariant |
| Dashboard.RemoveSetPreservesValid | frontend/src/App.tsx:41-46 | removing keeps the invariant |
| Dashboard.RangeChangePreservesValid | frontend/src/App.tsx:48-50 | a range change for a listed set keeps the invariant |
| Dashboard.RangeChangeUnselectedBreaksValid | frontend/src/App.tsx:48-50 | the handler does not check the name: a change for an unlisted set would break the invariant |
| Dashboard.RemoveUndoesAdd | frontend/src/App.tsx:32-46 | removing a set just added restores the list and the ranges |
| Dashboard.RemoveUndoesAppend | frontend/src/App.tsx:35-44 | filtering out an appended new name restores the list, and deleting its key restores the ranges |
| Dashboard.AddingAgainRejected | frontend/src/App.tsx:33 | entering the same name again after adding it is rejected |
| Dashboard.DisplayedRangeIsStored | frontend/src/App.tsx:93 | in a valid state every chart gets its stored range; the `'quarter'` fallback never applies |
| Dashboard.Step | frontend/src/App.tsx:32-96 | only adding or removing changes the list, and only adding lengthens it, by one. Only typing or adding changes the input, and adding only clears it. Typing never changes the ranges |
| Dashboard.StepPreservesValid | frontend/src/App.tsx:32-50 | each single action keeps the invariant |
| Dashboard.RunPreservesValid | frontend/src/App.tsx:28-96 | any sequence of typing, adding, removing and range picks keeps the invariant |
| Dashboard.ReachableValid | frontend/src/App.tsx:28-50 | every state reachable from the first render is valid |

## Left out

- Browser automation is not modelled: launch arguments, `newPage`, `page.content`, the diagnostic URL, title and body-text logging, and console output. The browser is a parameter from the requested visit to `Loaded(anchors)`, `NavigationFailed` or `SelectorTimeout`.
- Scraper.ScrapeCollectorBoosterId, Scraper.ScrapeCollectorBoosterIds: both scrapers await `browser.close()` in their `finally` (backend/utils/scraper.ts:75, utils/scraper.js:53). If that call rejects, its error replaces the result, and the route fails. The model counts the close and assumes it succeeds, so the contracts do not cover a failing close.
- Both scrapers call `puppeteer.launch` outside their `try`, so a launch failure escapes to the route. The model assumes the launch succeeds; that failure and its effect on the route are not modelled.
- HTML parsing is not modelled. A page is the sequence of its anchors in document order, each with its `href` attribute, if any, and its text.
- The network is not modelled. Headers are a flag; `response.data` is an opaque document. Non-2xx answers are treated as errors, following axios' default status check.
- Express plumbing is left out: routing, parameter decoding, CORS, static files, the root routes, `listen` and JSON serialisation. Query values nested as objects are also left out; the model covers missing, single and repeated values.
- frontend/src/PriceChart.tsx and frontend/src/api.ts are not part of this model. They do charting and client-side fetching, outside the core.
- Dashboard rendering is left out. The input's `onChange` and Enter key are `Type` and `Add` actions. The commented-out local-storage code is left out. Range controls exist only on listed sets' charts, so `Step` ignores a pick for any other name.
- Object lookup in `setRanges` is modelled as a map. Inherited prototype properties (a set called `constructor`) are not modelled: a listed name always has its own entry, as `Dashboard.DisplayedRangeIsStored` shows.
- Text.Lower: only ASCII letters are folded. JavaScript's full Unicode case mapping, and UTF-16 surrogate pairs, are not modelled.
- The time-outs (15 s and 10 s) and the idle wait are recorded in the visit but not simulated. A time-out is one of the browser's outcomes.
