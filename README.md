# monzo-crawler: the traversal engine and the URL canonicaliser in Dafny

This project models the core of `monzo-crawler`, a single-host web crawler.

- **The canonicaliser** (`crawler/url_utils.py`):
  - `normalise_url` resolves an `href` against the page it appears on. It keeps only `http` and `https` results, lower-cases the network location, drops a default port, collapses runs of slashes in the path and drops the fragment.
  - `canonicalize_start` applies the same rule to the seed URL, which it resolves against itself. It raises when the seed is rejected.
  - `same_subdomain` tests whether a URL lies on the root network location (exact equality after lower-casing).
  - `_collapse_slashes` is the path rule.
- **The traversal engine** (`crawler/crawler.py`, class `SequentialCrawler`). It is a breadth-first crawl over a FIFO queue of `(url, depth)` entries and a `seen` set. It stops when the queue is empty or `max_pages` pages have been seen. Each page is fetched through an injected fetcher. A page that is not HTML is recorded with no links. An HTML page is recorded with its in-scope links, which come from `_extract_inbounds` and are sorted. When one more hop stays within `max_depth`, the unseen links are queued one hop deeper.

Modules, in dependency order:

| module | file | contents |
|---|---|---|
| `Wrappers` | `wrappers.dfy` | `Option` and `Result` |
| `Text` | `text.dfy` | ASCII `str.lower`, `find`/`rfind`, `startswith`/`endswith`/`in` on strings |
| `Ordering` | `ordering.dfy` | Python's `<` on `str`; `sorted` as an insertion sort; the order-preserving de-duplication loop |
| `UrlParse` | `urlparse.dfy` | the parts of `urllib.parse` the canonicaliser calls: `urlparse` (`Split`, which is `urlsplit` as `SplitUrl` followed by the removal of the last segment's `;params` as `ParamsOff`), `urljoin` (`Join`, where the path branch uses sections 5.2.3 and 5.2.4 of RFC 3986), and `urlunparse` (`Unparse`) for the records the canonicaliser builds |
| `UrlUtils` | `url_utils.dfy` | `normalise_url`, `canonicalize_start`, `same_subdomain`, `_collapse_slashes` |
| `Frontier` | `frontier.dfy` | the crawl as a state machine: `Step` is one iteration of `run`'s loop and `Crawl` is the whole loop, with its invariant `Inv` and the lemmas about what the loop returns |
| `Crawler` | `crawler.dfy` | the class `SequentialCrawler`: the construction, the imperative `Run` and `ExtractInbounds` loops (proved against `Frontier.Crawl` and `Ordering.Dedup`), and the properties of its results |

Injected collaborators:
- The fetcher becomes the field `fetch: string -> Response`.
- BeautifulSoup becomes the field `hrefs: string -> seq<string>`, which gives the anchor `href` values of a document in document order.

The `Run` loop keeps the queue, the `seen` set and the results list as local variables, as in the source. Its loop invariant ties them to a ghost state of `Frontier` at every iteration. That ghost state also holds `depths`, the depth at which each record's page was visited; the source does not keep this list, and the model uses it only in proofs. The invariant `Frontier.Inv`:
- `|results| == |seen|`, and `seen` holds exactly the recorded URLs;
- at most `max_pages` records;
- every queued entry was discovered earlier and has a depth between 1 and `max_depth`;
- the start page is at depth 0, and every later page and every queued entry is a link of an earlier record one hop shallower;
- every link of a record whose depth plus one is within `max_depth` is in `seen` or in the queue. So when the loop stops on an empty queue, each such link has a record.

Limits outside the usual range:
- `__init__` (`crawler.py:15`, `crawler.py:19`) accepts any integer `max_pages`. The loop test at `crawler.py:27` fails at once when `max_pages <= 0`, so the crawl returns no record. `Frontier.CrawlSpec` states that there is a record exactly when `max_pages >= 1`.
- With `max_depth <= 0`, the test at `crawler.py:42` never queues a link. So only the start page is visited, provided `max_pages >= 1`.

## Model

| member | source | states |
|---|---|---|
| `Text.Lower` | monzo-crawler/crawler/url_utils.py:13 | lower-casing keeps the length and maps each character by itself (ASCII letters to lower case); the result has no upper-case letter, and a string without upper-case letters is left unchanged, so lower-casing is idempotent |
| `UrlParse.SplitUrl` | monzo-crawler/crawler/url_utils.py:8 | `urlsplit`: the location contains no `/`, `?` or `#`; the path contains no `?` or `#`; the query contains no `#` |
| `UrlParse.DropParams` | monzo-crawler/crawler/url_utils.py:8 | the parameters of the last path segment are cut off: the result is a prefix of the path with no `;` in its last segment; when something is cut, the cut starts at a `;` after which the path has no `/`, so it is the first `;` of the last segment; a path without such a `;` is kept whole |
| `UrlParse.DropParamsExamples` | monzo-crawler/crawler/url_utils.py:20 | `/a;x` loses its parameters, and `/a;x/b` keeps its `;`, which is not in the last segment |
| `UrlParse.ParamsOff` | monzo-crawler/crawler/url_utils.py:8 | for the schemes that use parameters the path loses those of its last segment, and otherwise it is kept; the other parts are unchanged and the record stays well formed |
| `UrlParse.Split` | monzo-crawler/crawler/url_utils.py:8 | `urlparse`, with the parameters that `normalise_url` drops already removed: the record is well formed, and for the schemes that use parameters no `;` is left in the last path segment |
| `UrlParse.Merge` | monzo-crawler/crawler/url_utils.py:7 | merging ends in the relative path; under a base with a location and an empty path the result is `/` followed by the relative path; under a base path without `/` it is the relative path alone; otherwise what precedes the relative path is the base path up to and including its last `/` |
| `UrlParse.MergeExcludes` | monzo-crawler/crawler/url_utils.py:7 | merging a base path and a reference path that are free of `?` and `#` gives a path free of them |
| `UrlParse.RemoveDotsExcludes` | monzo-crawler/crawler/url_utils.py:7 | dot-segment removal adds no character but `/`: when the input and the output so far avoid a set of characters that excludes `/`, so does the result |
| `UrlParse.RemoveDotSegments` | monzo-crawler/crawler/url_utils.py:7 | dot-segment removal keeps a path whose segments are neither `.` nor `..` exactly as it is |
| `UrlParse.RemoveDotsDotFree` | monzo-crawler/crawler/url_utils.py:7 | the removal loop moves a path without `.` or `..` segments to the output unchanged, whatever the output so far |
| `UrlParse.Resolve` | monzo-crawler/crawler/url_utils.py:7 | the fragment is always the reference's; a reference with a location keeps its location, path and query; a reference with another scheme is returned as it is; a relative reference under a scheme that resolves takes the base scheme and location; when its path is empty (or, for a scheme with parameters, is `;` alone, which `urlparse` reads as empty path and empty parameters) it takes the base path, and the base query unless it has its own; otherwise it keeps its own query and gets a non-empty path, which is exactly its rooted path, or its path merged under the base directory, whenever that has no `.` or `..` segments |
| `UrlParse.ResolveRootExamples` | monzo-crawler/tests/test_crawler.py:111-126 | against `https://example.com/`, the hrefs `./a`, `/a` and `/a#frag` all resolve to the path `/a`, the last keeping the fragment `frag` |
| `UrlParse.ResolveDirectoryExample` | monzo-crawler/tests/test_url_utils.py:7-9 | `about#team` against `/blog/` resolves to `/blog/about` with the fragment `team` |
| `UrlParse.ResolveSemicolonExample` | monzo-crawler/crawler/url_utils.py:7 | the reference `;` against `https://e.com/a/b?q=1` keeps the base path `/a/b` and the base query `q=1` |
| `UrlParse.ResolveWellFormed` | monzo-crawler/crawler/url_utils.py:7 | resolving a well-formed reference against a well-formed base, including merging and dot-segment removal, yields a well-formed record |
| `UrlParse.Join` | monzo-crawler/crawler/url_utils.py:7-8 | the parsed result of `urljoin` is well formed whatever the base and the reference, with no parameters left for the schemes that use them; `JoinRootExamples`, `JoinDirectoryExample` and `JoinSemicolonExample` give its value on the strings of the tests |
| `UrlParse.JoinRootExamples` | monzo-crawler/tests/test_crawler.py:111-126 | `urljoin` then `urlparse` of `./a`, `/a` and `/a#frag` against `https://example.com/` give the scheme `https`, the location `example.com`, the path `/a` and no query, with the fragment `frag` for the last |
| `UrlParse.JoinDirectoryExample` | monzo-crawler/tests/test_url_utils.py:7-9 | `about#team` against `https://example.com/blog/` parses to the path `/blog/about` on `example.com` with the fragment `team` |
| `UrlParse.JoinSemicolonExample` | monzo-crawler/crawler/url_utils.py:7-8 | the href `;` against `https://e.com/a/b?q=1` parses to that same URL: path `/a/b`, query `q=1` |
| `UrlParse.Unparse` | monzo-crawler/crawler/url_utils.py:20 | `urlunparse` for an http(s) record with a `/`-rooted path; `SplitUnparse` states that parsing inverts it |
| `UrlParse.SplitUnparse` | monzo-crawler/crawler/url_utils.py:20 | `urlunparse` then `urlparse`: parsing the URL rebuilt from an http(s) scheme, a delimiter-free location, a `/`-rooted path without parameters and a query gives back those four parts and an empty fragment |
| `UrlParse.SplitRelative` | monzo-crawler/crawler/url_utils.py:7 | `urlsplit` of a reference with no `:`, `?` or `#` that does not start with `//` gives only its path; with `#` and a fragment appended it also gives that fragment |
| `UrlUtils.CollapseRuns` | monzo-crawler/crawler/url_utils.py:40 | `re.sub(r"/{2,}", "/", path)`: the result has no `//`; a path without `//` is unchanged; the characters other than `/` are exactly those of the input, in order; the first character is kept; the result is no longer; and it only holds characters of the input |
| `UrlUtils.CollapseRunsKeepsSlash` | monzo-crawler/crawler/url_utils.py:40 | a path with a `/` keeps one after collapsing |
| `UrlUtils.CollapseRunsNoParams` | monzo-crawler/crawler/url_utils.py:40 | collapsing slashes adds no `;` to the last segment |
| `UrlUtils.CollapseSlashes` | monzo-crawler/crawler/url_utils.py:36-41 | the result is non-empty, starts with `/` and has no `//`; a `/`-rooted path without `//` is returned unchanged; the characters other than `/` are exactly those of the input, in order; every character of the result is `/` or comes from the input |
| `UrlUtils.CollapseSlashesExample` | monzo-crawler/tests/test_url_utils.py:16 | `//x//y` becomes `/x/y` |
| `UrlUtils.CollapseSlashesIdempotent` | monzo-crawler/crawler/url_utils.py:36-41 | collapsing twice gives the same path as collapsing once |
| `UrlUtils.CollapseSlashesExcludes` | monzo-crawler/crawler/url_utils.py:18 | collapsing adds no character other than `/`, so a path free of `?` and `#` stays free of them |
| `UrlUtils.CollapseSlashesNoParams` | monzo-crawler/crawler/url_utils.py:18 | a path without parameters keeps none after collapsing, so the rebuilt URL parses back to the same path |
| `UrlUtils.BeforeLast` | monzo-crawler/crawler/url_utils.py:16 | `rsplit(":", 1)[0]`: a prefix of its input; the whole input when it has no `:`; otherwise the part before the last `:` |
| `UrlUtils.StripDefaultPort` | monzo-crawler/crawler/url_utils.py:13-16 | the default-port rule keeps a prefix of the location |
| `UrlUtils.StripDefaultPortSpec` | monzo-crawler/crawler/url_utils.py:13-16 | `:80` is removed from an http location ending in it, `:443` from an https location ending in it, and every other location (other ports, or a default port under the other scheme) is kept unchanged |
| `UrlUtils.StripDefaultPortKeeps` | monzo-crawler/crawler/url_utils.py:13-16 | the stripped location is still lower-case and free of `/`, `?` and `#` |
| `UrlUtils.NormaliseUrl` | monzo-crawler/crawler/url_utils.py:4-20 | `normalise_url`; what it returns is stated by `NormaliseUrlSpec` |
| `UrlUtils.NormaliseUrlSpec` | monzo-crawler/crawler/url_utils.py:4-20 | an empty href gives nothing; otherwise there is a result exactly when the resolved scheme is http or https; any result is a non-empty canonical URL whose parsed parts are the resolved ones, with the location lower-cased and stripped of its default port, the path collapsed (`/` when empty), no parameters, the query unchanged and no fragment |
| `UrlUtils.NormaliseUrlOfNormal` | monzo-crawler/crawler/url_utils.py:4-20 | when the resolved record already has an http(s) scheme, a lower-case location without its default port, and a `/`-rooted path without `//`, `normalise_url` gives that record rebuilt, with its query and without its fragment |
| `UrlUtils.NormaliseUrlRootExamples` | monzo-crawler/tests/test_crawler.py:111-126 | against `https://example.com/`, the hrefs `./a`, `/a` and `/a#frag` all normalise to `https://example.com/a`, so the crawler keeps one link for the three |
| `UrlUtils.NormaliseUrlDirectoryExample` | monzo-crawler/tests/test_url_utils.py:7-9 | `about#team` against `https://example.com/blog/` normalises to `https://example.com/blog/about` |
| `UrlUtils.NormaliseUrlSemicolonExample` | monzo-crawler/crawler/url_utils.py:4-20 | the href `;` against `https://e.com/a/b?q=1` normalises to `https://e.com/a/b?q=1`: the base path and query are kept |
| `UrlUtils.NormalisedParts` | monzo-crawler/crawler/url_utils.py:13-20 | the rebuilt location is lower-case and delimiter-free, and parsing the rebuilt URL gives back exactly the record that was rendered |
| `UrlUtils.CanonicalizeStart` | monzo-crawler/crawler/url_utils.py:22-28 | it fails exactly when normalising the seed against itself gives nothing; otherwise it returns that normalised URL, which is canonical and has a non-empty path |
| `UrlUtils.SameSubdomain` | monzo-crawler/crawler/url_utils.py:30-34 | `same_subdomain`: its answer is stated by `SameSubdomainCanonical`, `SameSubdomainIgnoresCase` and `SameSubdomainRejectsSubdomains` |
| `UrlUtils.SameSubdomainCanonical` | monzo-crawler/crawler/url_utils.py:30-34 | for a canonical URL the test holds exactly when its location equals the lower-cased root |
| `UrlUtils.SameSubdomainIgnoresCase` | monzo-crawler/crawler/url_utils.py:30-34 | the test gives the same answer for the root and its lower-cased form, and every URL is in the scope of its own location |
| `UrlUtils.SameSubdomainRejectsSubdomains` | monzo-crawler/crawler/url_utils.py:30-34 | a URL whose location is `sub.` followed by the root is never in scope |
| `Ordering.Less` | monzo-crawler/crawler/crawler.py:39 | Python's `<` on `str`; its order properties are the four lemmas below |
| `Ordering.LessIrreflexive` | monzo-crawler/crawler/crawler.py:39 | no string is less than itself |
| `Ordering.LessAsymmetric` | monzo-crawler/crawler/crawler.py:39 | no two strings are each less than the other |
| `Ordering.LessTotal` | monzo-crawler/crawler/crawler.py:39 | Python's string `<` orders any two different strings one way or the other |
| `Ordering.LessTransitive` | monzo-crawler/crawler/crawler.py:39 | Python's string `<` is transitive |
| `Ordering.Sort` | monzo-crawler/crawler/crawler.py:39 | `sorted` returns a non-decreasing permutation of its input |
| `Ordering.SortDistinct` | monzo-crawler/crawler/crawler.py:38-39 | sorting a list without repeats gives a strictly ascending list without repeats that has the same elements |
| `Ordering.StrictlySortedUnique` | monzo-crawler/crawler/crawler.py:39 | two strictly ascending lists with the same elements are equal, so the stored link list is determined by its set of links |
| `Ordering.Dedup` | monzo-crawler/crawler/crawler.py:59-66 | the de-duplicated list is no longer than its input |
| `Ordering.DedupSpec` | monzo-crawler/crawler/crawler.py:59-66 | the de-duplicated list has no repeats and has exactly the elements of its input |
| `Ordering.DedupFirstSeenOrder` | monzo-crawler/crawler/crawler.py:59-66 | the de-duplicated list keeps the elements in the order of their first occurrence in the input |
| `Ordering.DedupOfDistinct` | monzo-crawler/crawler/crawler.py:59-66 | a list without repeats is left as it is |
| `Ordering.FirstIndex` | monzo-crawler/crawler/crawler.py:62-65 | the index found holds the element, and no earlier index does |
| `Frontier.Successors` | monzo-crawler/crawler/crawler.py:42-45 | the entries the inner loop appends; what they are is stated by `SuccessorsSpec` |
| `Frontier.SuccessorsSpec` | monzo-crawler/crawler/crawler.py:42-45 | the entries queued for a page all carry the given depth, their URLs are exactly the page's links not in `seen`, they are in ascending order when the links are, and there are no more of them than links |
| `Frontier.SuccessorsDistinct` | monzo-crawler/crawler/crawler.py:43-45 | a page whose links have no repeats queues no URL twice |
| `Frontier.Step` | monzo-crawler/crawler/crawler.py:27-45 | one iteration either adds one URL to `seen` or leaves `seen` alone and shortens the queue, so the loop terminates |
| `Frontier.StepSkip` | monzo-crawler/crawler/crawler.py:28-30 | an iteration whose head was already seen drops it and changes nothing else |
| `Frontier.StepVisit` | monzo-crawler/crawler/crawler.py:28-45 | an iteration whose head is unseen marks it seen, appends its record, and queues its unseen links exactly when one more hop is within `max_depth` |
| `Frontier.VisitEffect` | monzo-crawler/crawler/crawler.py:31-45 | after a visit, every queue entry is either one that was already waiting or a link of the visited page one hop deeper, and only when that hop is within `max_depth` |
| `Frontier.VisitKeepsClosed` | monzo-crawler/crawler/crawler.py:31-45 | a visit keeps every link of a record whose depth leaves one more hop in `seen` or in the queue: the visited page's links are queued when that hop is allowed |
| `Frontier.Final` | monzo-crawler/crawler/crawler.py:27-47 | the loop stops with an empty queue or with `max_pages` pages seen |
| `Frontier.Crawl` | monzo-crawler/crawler/crawler.py:22-47 | the records `run` returns; what they are is stated by `CrawlSpec` and `CrawlComplete` |
| `Frontier.InitialInv` | monzo-crawler/crawler/crawler.py:23-25 | the initial queue, `seen` set and results satisfy the loop invariant |
| `Frontier.StepPreservesInv` | monzo-crawler/crawler/crawler.py:27-45 | an iteration taken while the loop condition holds keeps the invariant: one record per URL in `seen`, at most `max_pages` records, no page twice, the first record for the start page, every later one discovered earlier, the queue holding discovered URLs at depths 1 to `max_depth`, every later page and queued entry a link of a record one hop shallower, and the links of records with a hop left seen or queued |
| `Frontier.CrawlUnfold` | monzo-crawler/crawler/crawler.py:27 | while the loop condition holds, the outcome is that of the state after one more iteration |
| `Frontier.CrawlDone` | monzo-crawler/crawler/crawler.py:27 | once the queue is empty or `max_pages` pages are seen, the results so far are returned |
| `Frontier.CrawlKeepsResults` | monzo-crawler/crawler/crawler.py:35-40 | records are only appended: the results of any state are a prefix of what the crawl returns |
| `Frontier.FinalKeepsInv` | monzo-crawler/crawler/crawler.py:27-47 | the invariant holds in the state in which the loop exits |
| `Frontier.CrawlSpec` | monzo-crawler/crawler/crawler.py:22-47 | the crawl returns at most `max_pages` records, at least one exactly when `max_pages >= 1`, the first for the start page with its links, no page twice, every later page among the links of an earlier record, each record's links as the page gives them, and exactly one record (or none when `max_pages <= 0`) when `max_depth <= 0` |
| `Frontier.ExitComplete` | monzo-crawler/crawler/crawler.py:27-45 | in a state where the loop has stopped, the start page is at depth 0, every later page is a link of an earlier one, one hop shallower, and at most `max_depth` deep; with fewer than `max_pages` records, every link of a record with a hop left has a record |
| `Frontier.DepthAtMostIndex` | monzo-crawler/crawler/crawler.py:42-45 | a page is never deeper than its position in the visit order |
| `Frontier.CrawlComplete` | monzo-crawler/crawler/crawler.py:22-47 | breadth-first completeness of the whole crawl: the depths above hold for the records returned, and when fewer than `max_pages` records come back, every link of a page visited with one more hop allowed is among them |
| `Frontier.StartWithoutLinks` | monzo-crawler/crawler/crawler.py:27-47 | a start page without links ends the crawl with exactly its own record |
| `Frontier.StepKeepsRest` | monzo-crawler/crawler/crawler.py:28-45 | visiting the head keeps the rest of the queue in front of the new entries |
| `Frontier.VisitHead` | monzo-crawler/crawler/crawler.py:27-45 | when the first `k` queued URLs are distinct, unseen and within the page budget, visiting the head appends its record and leaves the other `k - 1` at the front of the queue, still unseen |
| `Frontier.VisitsInQueueOrder` | monzo-crawler/crawler/crawler.py:27-45 | first in, first out: when the first `k` queued URLs are distinct, unseen and within the page budget, the next `k` records are theirs, in queue order |
| `Frontier.FirstVisit` | monzo-crawler/crawler/crawler.py:23-45 | when pages and hops are allowed, the first iteration records the start page and queues its links other than itself at depth 1 |
| `Frontier.StartChildrenVisitedInOrder` | monzo-crawler/crawler/crawler.py:39-45 | with enough page budget and at least one hop, the records after the start page's are, one each and in list order, the start page's links other than itself; when the links are strictly ascending, so are these |
| `Crawler.IsHtml` | monzo-crawler/crawler/crawler.py:34 | the HTML test of `run`; `IsHtmlIgnoresCase` states its property |
| `Crawler.IsHtmlIgnoresCase` | monzo-crawler/crawler/crawler.py:34 | the content-type test does not depend on the case of the header |
| `Crawler.EnqueueUnseen` | monzo-crawler/crawler/crawler.py:43-45 | the loop appends to the queue exactly the unseen links, in order, at the given depth |
| `Crawler.SequentialCrawler.constructor` | monzo-crawler/crawler/crawler.py:15-20 | the crawler stores the canonical seed, the seed's location as root, the fetcher and the two limits |
| `Crawler.SequentialCrawler.Create` | monzo-crawler/crawler/crawler.py:15-20 | construction fails, with the canonicaliser's error, exactly when the seed cannot be canonicalised; otherwise it gives a fresh crawler whose fields are the canonical seed, its location, the fetcher and the limits |
| `Crawler.SequentialCrawler.InScopeLinks` | monzo-crawler/crawler/crawler.py:51-58 | the list `out` has at most one link per href; `InScopeLinksOrder` states where each element comes from and `InScopeLinksMembers` which links it holds |
| `Crawler.SequentialCrawler.InScopeLinksOrder` | monzo-crawler/crawler/crawler.py:52-58 | the list `out` is traced by strictly increasing indices into the hrefs: its `k`-th link is the normalised form, on the root location, of the href at the `k`-th index, so the links come in document order, one per accepted href |
| `Crawler.SequentialCrawler.InScopeLinksMembers` | monzo-crawler/crawler/crawler.py:52-58 | the list `out` holds exactly the links that some href of the page normalises to and that lie on the root location |
| `Crawler.SequentialCrawler.DedupInScopeLinks` | monzo-crawler/crawler/crawler.py:59-66 | de-duplicating `out` leaves no repeats, keeps exactly the in-scope normalised hrefs, and keeps them in the order of their first occurrence |
| `Crawler.SequentialCrawler.ExtractInbounds` | monzo-crawler/crawler/crawler.py:49-66 | the returned links are the de-duplicated `out`: without repeats, exactly the in-scope normalised forms of the page's hrefs, in the order of their first occurrence |
| `Crawler.SequentialCrawler.PageLinks` | monzo-crawler/crawler/crawler.py:33-40 | the links a record holds; what they are is stated by `PageLinksSpec` |
| `Crawler.SequentialCrawler.PageLinksSpec` | monzo-crawler/crawler/crawler.py:33-40 | the links of a page's record are strictly ascending and without repeats, empty when the page is not HTML, and otherwise exactly the in-scope normalised hrefs; each is canonical and on the root location |
| `Crawler.SequentialCrawler.NonHtmlQueuesNothing` | monzo-crawler/crawler/crawler.py:33-36 | visiting a page that is not HTML records it with no links and leaves the rest of the queue as the whole queue |
| `Crawler.SequentialCrawler.RecordsSpec` | monzo-crawler/crawler/crawler.py:35-40 | records that satisfy the invariant have strictly ascending links, no links for pages that are not HTML, and lie, with all their links, on the root location |
| `Crawler.SequentialCrawler.CrawlResultsSpec` | monzo-crawler/crawler/crawler.py:22-47 | `run` returns at most `max_pages` records, at least one exactly when `max_pages >= 1`, the first for the start page, no page twice, every later page linked from an earlier record, only the start page when `max_depth <= 0`; each record holds its page's sorted in-scope links, none for a page that is not HTML, and every page and link lies on the root location |
| `Crawler.SequentialCrawler.NonHtmlStart` | monzo-crawler/tests/test_crawler.py:150-155 | a start page that is not HTML gives exactly one record, for itself, with no links |
| `Crawler.SequentialCrawler.LinkedPagesVisited` | monzo-crawler/tests/test_crawler.py:77-87 | when `run` returns fewer than `max_pages` records, every in-scope link of an HTML page visited with one more hop allowed has a record (that no page has two records is stated by `CrawlResultsSpec`) |
| `Crawler.SequentialCrawler.StartLinksVisitedInOrder` | monzo-crawler/crawler/crawler.py:39-45 | with enough page budget and at least one hop, the pages visited after the start page are its links other than itself, in ascending order |
| `Crawler.SequentialCrawler.Run` | monzo-crawler/crawler/crawler.py:22-47 | the loop returns exactly the records of the crawl that `CrawlResultsSpec`, `LinkedPagesVisited` and `NonHtmlStart` describe, and it keeps the invariant at every iteration |

## Left out

- Fetching: the fetcher is the field `fetch`, a total function from URL to `(status, body, content type)`. Network failure, retries and timeouts are the fetcher's own business (`crawler/fetcher.py` is not part of this model). The fetcher is assumed to give the same answer for the same URL.
- HTML parsing: BeautifulSoup's `find_all("a", href=True)` is the field `hrefs`, an uninterpreted function from document to its `href` values in document order.
- The command-line entry point `crawler/__main__.py` and its printing are not part of this model.
- `urllib.parse` is modelled only as far as the canonicaliser uses it. Not modelled:
  - IPv6 literals, user information, stripping of whitespace and control characters, and the `ValueError` that `urlparse` raises on a malformed IPv6 location.
- `UrlParse.Join`: `urljoin` sets the parameters of both URLs apart before it resolves, and puts them back afterwards. `Join` resolves the whole path with any `;` text in place, and removes the parameters at the end, as `urlparse` does in `normalise_url`. The two can differ when a `;` lies in a segment that dot-segment removal handles, such as `..;p`. A reference that is `;` alone is treated as empty, as `urljoin` does, so it keeps the base path and query.
- `UrlParse.Join` also differs from CPython's own segment loop in edge cases, because it follows the dot-segment removal of section 5.2.4 of RFC 3986. One example is an empty segment in the middle of a path followed by `..`.
- The string round trip `urljoin` → string → `urlparse` is collapsed into one function, `Join`, that returns the parsed record. `urlunparse` is modelled only for records with an http(s) scheme and a `/`-rooted path, which are the only ones the canonicaliser renders.
- `Text.Lower`: only ASCII letters are lower-cased. Python's Unicode case mapping is not modelled.
- `UrlUtils.StripDefaultPortSpec`: the default port is stripped once, as in the source. So `a.com:80:80` becomes `a.com:80`, and normalising that result again strips once more.
- `UrlUtils.SameSubdomain`: the `except` branch is not reachable in the model, because no parse raises. The function is total.
- `Crawler.SequentialCrawler.Run`: the inner `for link in links` loop is the method `EnqueueUnseen`. The result of `_extract_inbounds` is sorted by the function `Sort`, an insertion sort proved to give Python's `sorted` order. Records are the datatype `Record(url, links)` rather than dictionaries.
- The default arguments `max_pages = 500` and `max_depth = 32` of `__init__` are not modelled; both limits are explicit parameters of `Create`.
