# scrap-cron: PDF-link extraction and per-stock reconciliation, in Dafny

This project models the core of a scheduled scraper. For each stock in a
`Stock` table, the job renders the stock's web page, collects the links to
PDF reports, and upserts one `stockdetail` row per stock, keyed by
`stock_id`. The model covers three parts:

- **Link normaliser** (`LinkNormalizer`, `link_normalizer.dfy`). This is the
  map-then-filter of `scrapeReports.js` that turns raw anchors `{href, text}`
  into `{title, link}` reports. It is a pure function over `seq<RawAnchor>`.
  `new URL(href, url)` is an uninterpreted function value `resolve` that
  returns `None` when the constructor throws. `location.protocol` is a
  function `protocol` of the page URL that returns an `Option<string>`:
  `NodeProtocol` returns `None` everywhere, standing for the reference
  throwing, and `PageProtocol` gives each page its own lower-cased scheme.
- **Report extractor** (`ReportExtractor`, `report_extractor.dfy`). This is
  the retry loop of `scrapeReports`, written as a method with a `while` loop.
  The browser is an oracle `render(attempt)` that says how each attempt ends.
  A ghost log records, for each attempt, whether a browser was launched, how
  often `browser.close()` was called, and the back-off that followed.
- **Batch reconciler** (`BatchReconciler`, `batch_reconciler.dfy`). This is
  `run()` of `scrape-and-upsert.js`. The `stockdetail` table is the class
  `StockDetailTable`, which holds a `map<int, Record>`. Its `Upsert` either
  replaces the row for the key or fails, as an oracle decides. The loop scrapes
  each stock with the extractor, builds the payload, and carries on past failed
  upserts. A ghost trace records one step per stock, each with its 800 ms
  delay.

`Wrappers` (`wrappers.dfy`) holds the `Option` datatype.

The store's effect is specified by a function, `Reconcile`, that folds the
run's upsert attempts over the old rows. The lemmas about it state what a
run is meant to guarantee:
- the last successful write wins;
- ids nobody wrote keep their rows, or stay absent;
- every row sits under its own `stock_id`;
- replaying the writes changes nothing;
- a rerun with new timestamps keeps the same ids and the same links.

Where the intended behaviour and the code disagree, the model follows the
code and records the difference under Findings:
- Every emitted link is meant to start with `http://` or `https://`. The
  code never checks the scheme of what `new URL` returns, so `mailto:x.pdf`
  is emitted as a `mailto:` URL (`MailtoLinkEmitted`). A protocol-relative
  link is whatever `location.protocol` yields followed by the href.
  `EmittedLinksAreHttp` proves the rule only under the assumption that both
  sources produce http(s) URLs. `NormalizeAllHttpOnly` adds the missing
  scheme check and proves the rule with no assumption.
- `//host/a.pdf` on an https page is meant to become `https://host/a.pdf`.
  The code reads `location.protocol`, which throws in Node. The `catch` then
  drops the anchor.

## Model

| member | source | states |
|---|---|---|
| `LinkNormalizer.ToLower` | scrapeReports.js:58 | the lower-cased href has the same length, and each character is the folded character of the input |
| `LinkNormalizer.Includes` | scrapeReports.js:59 | `lower.includes('.pdf')`, checked offset by offset; `IncludesIffOccurs` states that it holds exactly when the pattern occurs at some offset |
| `LinkNormalizer.IncludesIffOccurs` | scrapeReports.js:59 | the position-by-position `includes` check holds exactly when the pattern occurs at some offset (both directions) |
| `LinkNormalizer.TitleFor` | scrapeReports.js:65-70 | the title is the anchor text when that text is non-empty and `Untitled PDF` when it is empty, so it is never empty |
| `LinkNormalizer.Qualifies` | scrapeReports.js:57-59 | the href is present, non-empty and contains ".pdf" once lower-cased; `PdfInfixQualifies`, `UpperCasePdfQualifies` and `NoDotDoesNotQualify` state which hrefs pass |
| `LinkNormalizer.IsHttpUrl` | scrapeReports.js:67 | the link starts with `http://` or `https://`; `EmittedLinksAreHttp`, `MailtoLinkEmitted` and `NormalizeAllHttpOnly` state when emitted links meet it |
| `LinkNormalizer.Normalize` | scrapeReports.js:56-74 | an anchor with a null or empty href, or whose lower-cased href lacks ".pdf", gives no report; every report has title `TitleFor(text)`; a protocol-relative href gives protocol + href, or nothing when the protocol reference fails; an http(s) href passes unchanged; any other href gives the resolved URL, or nothing when resolution fails |
| `LinkNormalizer.NormalizeAll` | scrapeReports.js:55-75 | the filtered list is no longer than the anchor list |
| `LinkNormalizer.Positions` | scrapeReports.js:55-75 | the positions a per-element test accepts, in range and strictly increasing; `KeptIndices` is this with the normaliser as the test |
| `LinkNormalizer.PositionsExact` | scrapeReports.js:55-75 | a position is listed exactly when the test accepts its element (both directions) |
| `LinkNormalizer.KeptIndices` | scrapeReports.js:55-75 | the kept positions are in range and strictly increasing |
| `LinkNormalizer.KeptIndicesExact` | scrapeReports.js:55-75 | a position is kept exactly when its anchor normalises to a report (both directions) |
| `LinkNormalizer.NormalizeAllIsSubsequence` | scrapeReports.js:55-75 | the output has one report per kept position, in order, each being that anchor's normalised report (order preserved, nothing merged) |
| `LinkNormalizer.NormalizeAllAppend` | scrapeReports.js:55-75 | normalising a concatenation gives the concatenation of the normalised parts |
| `LinkNormalizer.DuplicatesKept` | scrapeReports.js:55-75 | a page that lists its anchors twice yields its reports twice, so duplicates are not removed |
| `LinkNormalizer.EmittedLinksAreHttp` | scrapeReports.js:62-73 | if the protocol is http:/https: or fails, and resolution only yields http(s) URLs, then every emitted link is an http(s) URL |
| `LinkNormalizer.LinkKeepsPdf` | scrapeReports.js:63-68 | a link kept verbatim or prefixed with the protocol still contains ".pdf" case-insensitively |
| `LinkNormalizer.PdfInfixQualifies` | scrapeReports.js:57-59 | an href with any part that lower-cases to ".pdf" qualifies, whatever surrounds it |
| `LinkNormalizer.UpperCasePdfQualifies` | scrapeReports.js:58-59 | the check ignores case: `….PDF?x=1` qualifies |
| `LinkNormalizer.NoDotDoesNotQualify` | scrapeReports.js:58-59 | an href without a dot (such as `/about`) never qualifies |
| `LinkNormalizer.NodeProtocol` | scrapeReports.js:65 | the protocol reference fails for every page, since `location` is not defined in Node; it never gives the protocol a browser page would report |
| `LinkNormalizer.NormalizeInNode` | scrapeReports.js:56-74 | `Normalize` with `NodeProtocol`, the callback as the code runs it: a protocol-relative href yields nothing, and any report it yields comes from another branch |
| `LinkNormalizer.NodeAgreesOffProtocolRelative` | scrapeReports.js:57-73 | for every href that is not protocol-relative, the Node run and any reading of the page protocol give the same result |
| `LinkNormalizer.ResolvedLinkEmitted` | scrapeReports.js:69-70 | a qualifying href that is neither protocol-relative nor http(s) is emitted as `new URL` resolves it, titled `TitleFor(text)`, whatever its scheme |
| `LinkNormalizer.ProtocolRelativeDroppedInNode` | scrapeReports.js:62-73 | under Node, where the protocol reference throws, no protocol-relative href is emitted |
| `LinkNormalizer.ProtocolRelativeCounterexample` | scrapeReports.js:65 | `//host/a.pdf` on `https://acme.example/reports` is dropped as the code runs |
| `LinkNormalizer.PageProtocol` | scrapeReports.js:65 | there is no protocol exactly when the URL has no colon (with `PageProtocolFirstColon`), and otherwise it is non-empty and no longer than the URL |
| `LinkNormalizer.PageProtocolFirstColon` | scrapeReports.js:65 | when the first colon of the URL is at position n, the protocol is the lower-cased prefix up to and including it |
| `LinkNormalizer.PageProtocolOfScheme` | scrapeReports.js:65 | the protocol of `scheme:rest` is the lower-cased scheme followed by `:` when the scheme has no colon |
| `LinkNormalizer.NormalizeWithPageProtocol` | scrapeReports.js:63-66 | with the page's own protocol, a qualifying protocol-relative href becomes the page protocol + href |
| `LinkNormalizer.HttpsPageProtocol` | scrapeReports.js:65 | the protocol of an `https://` page is `https:` |
| `LinkNormalizer.ProtocolRelativePdfQualifies` | scrapeReports.js:57-63 | an href `//….pdf` qualifies and takes the protocol-relative branch |
| `LinkNormalizer.ProtocolRelativeIntended` | scrapeReports.js:63-66 | with the page's protocol, `//host….pdf` on an `https://` page becomes `https://host….pdf`, titled `TitleFor(text)` |
| `LinkNormalizer.MailtoLinkEmitted` | scrapeReports.js:69-70 | when `new URL` returns `mailto:x.pdf` unchanged, the code emits that link, titled `TitleFor(text)`, and it is not an http(s) URL |
| `LinkNormalizer.NormalizeHttpOnly` | scrapeReports.js:56-74 | with the scheme check, a report is kept only when its link is http(s), it is then the report `Normalize` gives, and every http(s) report of `Normalize` is kept |
| `LinkNormalizer.NormalizeAllHttpOnly` | scrapeReports.js:55-75 | with the scheme check, the filtered list is no longer than the anchors and every link in it is an http(s) URL, whatever the protocol and `new URL` return; `NormalizeAllHttpOnlyIsFilter` shows it is the code's output with the non-http(s) links removed |
| `LinkNormalizer.FilterHttp` | scrapeReports.js:69-70 | the kept reports are http(s) and come from the input, and every http(s) report of the input is kept |
| `LinkNormalizer.NormalizeAllHttpOnlyIsFilter` | scrapeReports.js:55-75 | the corrected filter is exactly the code's output with its non-http(s) links removed, in order |
| `LinkNormalizer.HttpOnlyAgreesWhenHttp` | scrapeReports.js:62-73 | when the protocol and `new URL` only yield http(s) URLs, the corrected filter and the code give the same list |
| `LinkNormalizer.MailtoLinkDropped` | scrapeReports.js:69-70 | with the scheme check, the `mailto:x.pdf` anchor yields no report |
| `ReportExtractor.FirstSuccess` | scrapeReports.js:14-82 | the attempt found is in range and succeeds, and every earlier attempt fails; when none is found, every attempt in range fails |
| `ReportExtractor.FirstSuccessFrom` | scrapeReports.js:14-82 | an attempt that succeeds after only failures is the first success |
| `ReportExtractor.ScrapeResult` | scrapeReports.js:13-98 | the result is empty when `maxRetries < 1` or every attempt fails, and otherwise it is the normalised anchors of the first successful attempt |
| `ReportExtractor.AttemptCount` | scrapeReports.js:14 | the renderer runs at most `max(maxRetries, 0)` times and at least once when `maxRetries >= 1`; it stops early only on success, and every attempt before the last failed |
| `ReportExtractor.SingleAttempt` | scrapeReports.js:10-14 | with the default `maxRetries = 1` there is exactly one attempt, and the result is its normalised anchors or `[]` |
| `ReportExtractor.Scrape` | scrapeReports.js:13-98 | never fails and returns `ScrapeResult`; logs attempts 1..`AttemptCount` in order; an attempt launched a browser exactly when launching did not throw, and it called close at least once exactly when it launched; the back-off after failed attempt k < maxRetries is 1000*k ms, and there is none after a success or after the final attempt |
| `BatchReconciler.PdfLinks` | scrape-and-upsert.js:27 | `pdf_links` has the same length and order as the reports, and each entry is that report's link |
| `BatchReconciler.BuildPayload` | scrape-and-upsert.js:28-36 | `stock_id`, `stock_name` and `stock_url` are the stock's id, name and url; `title` is the stock name, not a report title; `pdf_links` lists the report links in order; `scraped_at` and `updated_at` are the two given timestamps |
| `BatchReconciler.Apply` | scrape-and-upsert.js:37-38 | a failed upsert leaves the rows as they were; a successful one stores the payload under its `stock_id` and changes no other row |
| `BatchReconciler.Reconcile` | scrape-and-upsert.js:23-44 | the upserts of a run never remove a row; `LastWriteWins`, `ReconcileKeys` and `ReconcileKeyedById` state which row each id ends with |
| `BatchReconciler.LastWrite` | scrape-and-upsert.js:37 | the last write found is one of the writes and carries the id; when none is found, no successful write has that id |
| `BatchReconciler.LastWriteAt` | scrape-and-upsert.js:37 | a successful write with no later successful write for its id is the last write for that id |
| `BatchReconciler.LastWriteWins` | scrape-and-upsert.js:37 | after the writes, an id's row is its last successful write; an id never written successfully keeps its old row, or stays absent |
| `BatchReconciler.ReconcileKeyedById` | scrape-and-upsert.js:37 | upserts keep every row under its own `stock_id`, so there is one row per key |
| `BatchReconciler.WrittenIds` | scrape-and-upsert.js:37 | an id is among the written ids exactly when some successful write carries it |
| `BatchReconciler.ReconcileKeys` | scrape-and-upsert.js:37 | the stored ids are the old ids plus the ids written successfully |
| `BatchReconciler.RerunIdempotent` | scrape-and-upsert.js:37 | replaying the same writes leaves the store unchanged |
| `BatchReconciler.LastWriteSameWrites` | scrape-and-upsert.js:37 | two write lists that fail alike and agree on content have the same last writes, up to timestamps |
| `BatchReconciler.RerunConverges` | scrape-and-upsert.js:23-45 | a second batch of writes that fail alike and agree on content keeps the first batch's ids and row contents, up to timestamps |
| `BatchReconciler.RerunWithNewClock` | scrape-and-upsert.js:23-45 | rerunning over the same stocks, extractor results and store replies at other clock readings keeps exactly the same ids, with the same links, names and urls |
| `BatchReconciler.Writes` | scrape-and-upsert.js:23-44 | there is one upsert attempt per listed stock |
| `BatchReconciler.WriteFor` | scrape-and-upsert.js:28-38 | one stock's upsert attempt: nothing when the store reports an error, otherwise `BuildPayload` of the stock and its reports; `WriteAt` places it in the run |
| `BatchReconciler.Scraped` | scrape-and-upsert.js:26 | one extractor result per listed stock, being `ScrapeResult` of the stock's url with the default single attempt; `SingleAttempt` gives its value |
| `BatchReconciler.WriteAt` | scrape-and-upsert.js:23-44 | the attempt at position i is nothing when the i-th upsert fails, and otherwise the payload built from the i-th stock, its reports and the clock readings 2i and 2i+1 |
| `BatchReconciler.StoredPayload` | scrape-and-upsert.js:28-37 | after the run, a stock whose last upsert succeeded has as its row exactly the payload built from its reports and its own two clock readings |
| `BatchReconciler.FailedUpsertsKeepRow` | scrape-and-upsert.js:37-42 | a stock whose upserts all fail keeps its previous row, or stays absent, whatever the other stocks do |
| `BatchReconciler.StockDetailTable.Upsert` | scrape-and-upsert.js:37-38 | a successful upsert replaces exactly the row for `payload.stock_id`, and a failed one changes nothing; rows stay keyed by id |
| `BatchReconciler.StepFor` | scrape-and-upsert.js:23-44 | the step logged for one stock: its id and url, one render attempt, whether the upsert succeeded, and the 800 ms delay that follows either way; `ProcessAll` logs one per stock |
| `BatchReconciler.ProcessStock` | scrape-and-upsert.js:24-42 | one render attempt, whose reports are what the extractor returns for the page; the store changes by exactly this stock's write or, on failure, not at all |
| `BatchReconciler.ProcessNext` | scrape-and-upsert.js:24-44 | processing the stock at position i applies exactly the i-th write of the run to the store and logs that stock's step |
| `BatchReconciler.ProcessAll` | scrape-and-upsert.js:23-45 | in list order, each stock gets one scrape, one upsert attempt and an 800 ms delay whatever the outcome; the store ends as `Reconcile` of the old rows with the run's writes, built from each stock's page scraped with one attempt |
| `BatchReconciler.Run` | scrape-and-upsert.js:15-46 | a query error fails the run before any scrape or upsert; a null or empty list returns normally with no writes; otherwise every stock is processed as in `ProcessAll` |

## Findings

| source | as written | input that shows it | evidently intended | confidence | as-written member | corrected member |
|---|---|---|---|---|---|---|
| scrapeReports.js:65 | a protocol-relative href reads `location.protocol`; `location` does not exist in Node, so the reference throws and the `catch` at line 71 drops the anchor | anchor `{href: "//host/a.pdf", text: "A"}` on page `https://acme.example/reports` | use the page's protocol, giving `https://host/a.pdf` | high; not executed | `LinkNormalizer.ProtocolRelativeCounterexample` | `LinkNormalizer.ProtocolRelativeIntended` |
| scrapeReports.js:70 | any href that contains ".pdf" and is neither protocol-relative nor http(s) is emitted as `new URL` resolves it, whatever its scheme | anchor `{href: "mailto:x.pdf", text: "A"}`, which `new URL` keeps as `mailto:x.pdf` | emit only http(s) links | medium; not executed | `LinkNormalizer.MailtoLinkEmitted` | `LinkNormalizer.NormalizeAllHttpOnly` |

The drivers (`Scrape`, `ProcessStock`, `ProcessAll`, `Run`) take a `UrlEnv`
and normalise each page's anchors with that page's URL. With
`protocol = NodeProtocol` they behave as the code does under Node. With
`protocol = PageProtocol` every page, in a list that mixes http and https
pages too, has its protocol-relative links completed with its own scheme,
which is `NormalizeWithPageProtocol`. The drivers keep the code's missing
scheme check of line 70; `NormalizeAllHttpOnly` is the corrected filter on
its own.

## Left out

- Puppeteer plumbing (launch options, user agent, headers, `goto`, `waitForSelector`, DOM extraction) is browser I/O. Each attempt is reduced to an `AttemptOutcome` oracle value, and the extracted anchors are part of that value.
- The full WHATWG URL parser behind `new URL` is foreign code. It is the uninterpreted `resolve`, which returns `None` where the constructor throws.
- `setTimeout` delays (back-off and the 800 ms politeness delay) are recorded as values in the ghost logs. No time passes in the model.
- `new Date().toISOString()` is modelled as successive readings of an abstract `clock`, read twice per stock.
- The Supabase client, the network calls and the `Stock` query are replaced by the `StockQuery` input, the map-backed `StockDetailTable`, and an `upsertFails` oracle. A network error that throws and an `{ error }` reply are treated alike as a failed upsert.
- Environment-variable checks, `process.exit`, and the top-level `run().catch` are process plumbing. `Run` returns `Fatal(error)` where the code throws.
- Console logging and the unused `cheerio` import are left out.
- async/await is left out. Execution is sequential, so awaits are ordinary calls.
- LinkNormalizer.ToLower: folds ASCII letters only, not full Unicode `toLowerCase`. No other character lower-cases to `.`, `p`, `d` or `f`, so the ".pdf" test is the same.
- ReportExtractor.Scrape: `maxRetries` is an integer. A fractional value (where `attempt === maxRetries` never holds and the loop ends at line 98 after a back-off) is not modelled.
- ReportExtractor.Scrape: the log records how many times `browser.close()` was called, not whether closing succeeded. After a failing close at line 81 the catch calls close again and the outcome is unknown.
- `pdf_links`: the `r.link ?? r` fallback and the non-array branch of line 27 are not modelled, because the extractor always returns an array of reports whose `link` is a string.
- A `null` entry in the stock list is not modelled. There `stock.url` throws inside the `try`, and `stock.id` throws again in the catch. Query rows are never null.
- No lemma is stated on a concrete page with literal strings, such as three anchors on `https://acme.example/reports`. The general lemmas `PdfInfixQualifies`, `UpperCasePdfQualifies`, `NoDotDoesNotQualify` and `Normalize` cover each kind of anchor such a page holds.
