/**
 * The traversal engine: `SequentialCrawler`, a breadth-first crawl of one network
 * location bounded by a page count and a hop count.
 */
module Crawler {
  import opened Wrappers
  import opened Text
  import opened Ordering
  import opened UrlParse
  import opened UrlUtils
  import opened Frontier

  /** What the injected fetcher returns for a URL: status, body text and content type. */
  datatype Response = Response(status: int, body: string, contentType: string)

  /** The test of `run` that decides whether a fetched page is parsed for links. */
  predicate IsHtml(r: Response)
  {
    !(r.status != 200 || r.contentType == "" || !Contains(Lower(r.contentType), "text/html"))
  }

  /** The content-type test ignores case: only the lower-cased header is searched. */
  lemma IsHtmlIgnoresCase(r: Response)
    ensures IsHtml(r) == IsHtml(r.(contentType := Lower(r.contentType)))
  {
  }

  /** The inner loop of `run`: appends `(link, depth)` to the queue for every link not in `seen`. */
  method EnqueueUnseen(queue: seq<Entry>, links: seq<string>, seen: set<string>, depth: nat) returns (q: seq<Entry>)
    ensures q == queue + Successors(links, seen, depth)
  {
    q := queue;
    for k := 0 to |links|
      invariant q == queue + Successors(links[..k], seen, depth)
    {
      assert links[..k + 1] == links[..k] + [links[k]];
      if links[k] !in seen {
        q := q + [Entry(links[k], depth)];
      }
    }
    assert links[..|links|] == links;
  }

  class SequentialCrawler {
    /** The canonicalised start URL. */
    const start: string
    /** The network location of the start URL: the scope of the crawl. */
    const rootNetloc: string
    /** The injected fetcher. */
    const fetch: string -> Response
    /** The anchor `href` values of an HTML document, in document order (the HTML parser). */
    const hrefs: string -> seq<string>
    const maxPages: int
    const maxDepth: int

    ghost predicate Valid()
    {
      IsCanonical(start) && rootNetloc == Split(start).netloc
    }

    /** The part of `__init__` after `canonicalize_start` has accepted the seed. */
    constructor (startUrl: string, fetch: string -> Response, hrefs: string -> seq<string>, maxPages: int, maxDepth: int)
      requires CanonicalizeStart(startUrl).Success?
      ensures Valid()
      ensures start == CanonicalizeStart(startUrl).value && rootNetloc == Split(start).netloc
      ensures this.fetch == fetch && this.hrefs == hrefs
      ensures this.maxPages == maxPages && this.maxDepth == maxDepth
    {
      var s := CanonicalizeStart(startUrl).value;
      start := s;
      rootNetloc := Split(s).netloc;
      this.fetch := fetch;
      this.hrefs := hrefs;
      this.maxPages := maxPages;
      this.maxDepth := maxDepth;
    }

    /** `SequentialCrawler(start_url, fetcher, max_pages, max_depth)`, which raises for a seed that cannot be canonicalised. */
    static method Create(startUrl: string, fetch: string -> Response, hrefs: string -> seq<string>, maxPages: int, maxDepth: int)
      returns (r: Result<SequentialCrawler, string>)
      ensures r.Failure? <==> CanonicalizeStart(startUrl).Failure?
      ensures r.Failure? ==> r.error == CanonicalizeStart(startUrl).error
      ensures r.Success? ==> fresh(r.value) && r.value.Valid()
      ensures r.Success? ==> r.value.start == CanonicalizeStart(startUrl).value
      ensures r.Success? ==> r.value.rootNetloc == Split(r.value.start).netloc
      ensures r.Success? ==> r.value.fetch == fetch && r.value.hrefs == hrefs
      ensures r.Success? ==> r.value.maxPages == maxPages && r.value.maxDepth == maxDepth
    {
      var canonical := CanonicalizeStart(startUrl);
      if canonical.Failure? {
        r := Failure(canonical.error);
      } else {
        var c := new SequentialCrawler(startUrl, fetch, hrefs, maxPages, maxDepth);
        r := Success(c);
      }
    }

    /** `href` yields `link` on page `baseUrl`: it normalises to `link`, and `link` is in scope. */
    predicate IsLinkFrom(baseUrl: string, href: string, link: string)
    {
      NormaliseUrl(baseUrl, href) == Some(link) && SameSubdomain(link, rootNetloc)
    }

    /** `idx` picks, for each link of `r` in turn, a strictly later href of `hs` that yields it. */
    ghost predicate TracedTo(baseUrl: string, hs: seq<string>, r: seq<string>, idx: seq<int>)
    {
      && |idx| == |r|
      && (forall k :: 0 <= k < |idx| ==> 0 <= idx[k] < |hs| && IsLinkFrom(baseUrl, hs[idx[k]], r[k]))
      && (forall k, m :: 0 <= k < m < |idx| ==> idx[k] < idx[m])
    }

    /** More hrefs after the traced ones keep the trace. */
    lemma TracedToExtend(baseUrl: string, init: seq<string>, h: string, r: seq<string>)
      requires exists idx :: TracedTo(baseUrl, init, r, idx)
      ensures exists idx :: TracedTo(baseUrl, init + [h], r, idx)
    {
      hide IsLinkFrom;
      var idx :| TracedTo(baseUrl, init, r, idx);
      assert forall k :: 0 <= k < |idx| ==> (init + [h])[idx[k]] == init[idx[k]];
      assert TracedTo(baseUrl, init + [h], r, idx);
    }

    /** A link yielded by a new last href extends the trace by that href. */
    lemma TracedToAppend(baseUrl: string, init: seq<string>, h: string, r: seq<string>, l: string)
      requires exists idx :: TracedTo(baseUrl, init, r, idx)
      requires IsLinkFrom(baseUrl, h, l)
      ensures exists idx :: TracedTo(baseUrl, init + [h], r + [l], idx)
    {
      hide IsLinkFrom;
      var idx :| TracedTo(baseUrl, init, r, idx);
      var idx' := idx + [|init|];
      assert forall k :: 0 <= k < |idx| ==> (init + [h])[idx[k]] == init[idx[k]];
      assert TracedTo(baseUrl, init + [h], r + [l], idx');
    }

    /** The first loop of `_extract_inbounds` (the list `out`), over the given hrefs. */
    function InScopeLinks(baseUrl: string, hs: seq<string>): (r: seq<string>)
      ensures |r| <= |hs|
    {
      if hs == [] then []
      else
        var before := InScopeLinks(baseUrl, hs[..|hs| - 1]);
        var norm := NormaliseUrl(baseUrl, hs[|hs| - 1]);
        if norm.None? || norm.value == "" then before
        else if !SameSubdomain(norm.value, rootNetloc) then before
        else before + [norm.value]
    }

    /** Each link of `out` comes from its own href, and the links keep the order of those hrefs. */
    lemma {:induction false} InScopeLinksOrder(baseUrl: string, hs: seq<string>)
      ensures exists idx :: TracedTo(baseUrl, hs, InScopeLinks(baseUrl, hs), idx)
    {
      hide NormaliseUrl, SameSubdomain;
      if hs == [] {
        var none: seq<int> := [];
        assert TracedTo(baseUrl, hs, InScopeLinks(baseUrl, hs), none);
      } else {
        var init, last := hs[..|hs| - 1], hs[|hs| - 1];
        assert hs == init + [last];
        InScopeLinksOrder(baseUrl, init);
        var before := InScopeLinks(baseUrl, init);
        var norm := NormaliseUrl(baseUrl, last);
        if norm.None? || norm.value == "" || !SameSubdomain(norm.value, rootNetloc) {
          assert InScopeLinks(baseUrl, hs) == before;
          TracedToExtend(baseUrl, init, last, before);
        } else {
          assert InScopeLinks(baseUrl, hs) == before + [norm.value];
          TracedToAppend(baseUrl, init, last, before, norm.value);
        }
      }
    }

    /** `out` holds exactly the in-scope normalised forms of the hrefs. */
    lemma {:induction false} InScopeLinksMembers(baseUrl: string, hs: seq<string>)
      ensures forall l :: l in InScopeLinks(baseUrl, hs) <==> exists h :: h in hs && IsLinkFrom(baseUrl, h, l)
    {
      hide NormaliseUrl, SameSubdomain;
      if hs != [] {
        var init, last := hs[..|hs| - 1], hs[|hs| - 1];
        assert hs == init + [last];
        InScopeLinksMembers(baseUrl, init);
        forall l ensures l in InScopeLinks(baseUrl, hs) <==> exists h :: h in hs && IsLinkFrom(baseUrl, h, l) {
          if l in InScopeLinks(baseUrl, hs) && l !in InScopeLinks(baseUrl, init) {
            assert IsLinkFrom(baseUrl, last, l);
          }
          if exists h :: h in hs && IsLinkFrom(baseUrl, h, l) {
            var h :| h in hs && IsLinkFrom(baseUrl, h, l);
            if h == last {
              NormaliseUrlSpec(baseUrl, last);
            } else {
              assert h in init;
            }
          }
        }
      }
    }

    /** What de-duplicating `out` keeps: no repeats, the in-scope normalised hrefs, in first-occurrence order. */
    lemma DedupInScopeLinks(baseUrl: string, hs: seq<string>)
      ensures Distinct(Dedup(InScopeLinks(baseUrl, hs)))
      ensures forall l :: l in Dedup(InScopeLinks(baseUrl, hs)) <==> exists h :: h in hs && IsLinkFrom(baseUrl, h, l)
      ensures forall i, j :: 0 <= i < j < |Dedup(InScopeLinks(baseUrl, hs))| ==>
                var out, uniq := InScopeLinks(baseUrl, hs), Dedup(InScopeLinks(baseUrl, hs));
                uniq[i] in out && uniq[j] in out && FirstIndex(out, uniq[i]) < FirstIndex(out, uniq[j])
    {
      hide InScopeLinks, NormaliseUrl, SameSubdomain, Dedup;
      var out := InScopeLinks(baseUrl, hs);
      InScopeLinksMembers(baseUrl, hs);
      DedupSpec(out);
      DedupFirstSeenOrder(out);
    }

    /**
     * `_extract_inbounds(base_url, html)`: the in-scope normalised links of the page,
     * without repeats, in the order of their first occurrence.
     */
    method ExtractInbounds(baseUrl: string, html: string) returns (uniq: seq<string>)
      ensures uniq == Dedup(InScopeLinks(baseUrl, hrefs(html)))
      ensures Distinct(uniq)
      ensures forall l :: l in uniq <==> exists h :: h in hrefs(html) && IsLinkFrom(baseUrl, h, l)
      ensures forall i, j :: 0 <= i < j < |uniq| ==>
                var out := InScopeLinks(baseUrl, hrefs(html));
                uniq[i] in out && uniq[j] in out && FirstIndex(out, uniq[i]) < FirstIndex(out, uniq[j])
    {
      hide NormaliseUrl, SameSubdomain;
      var anchors := hrefs(html);
      var out: seq<string> := [];
      for i := 0 to |anchors|
        invariant out == InScopeLinks(baseUrl, anchors[..i])
      {
        assert anchors[..i + 1][..i] == anchors[..i] && anchors[..i + 1][i] == anchors[i];
        var norm := NormaliseUrl(baseUrl, anchors[i]);
        if norm.None? || norm.value == "" {
        } else if !SameSubdomain(norm.value, rootNetloc) {
        } else {
          out := out + [norm.value];
        }
      }
      assert anchors[..|anchors|] == anchors;
      uniq := [];
      var seen: set<string> := {};
      for i := 0 to |out|
        invariant uniq == Dedup(out[..i])
        invariant forall x :: x in seen <==> x in out[..i]
      {
        assert out[..i + 1] == out[..i] + [out[i]];
        if out[i] !in seen {
          seen := seen + {out[i]};
          uniq := uniq + [out[i]];
        }
      }
      assert out[..|out|] == out;
      DedupInScopeLinks(baseUrl, anchors);
    }

    /** The links a record for `url` holds: none for a page that is not HTML, else `sorted(_extract_inbounds(...))`. */
    function PageLinks(url: string): (r: seq<string>)
    {
      var response := fetch(url);
      if !IsHtml(response) then []
      else Sort(Dedup(InScopeLinks(url, hrefs(response.body))))
    }

    /**
     * A record's links are strictly ascending (hence without repeats), empty for a page
     * that is not HTML, and exactly the in-scope normalised forms of the page's hrefs.
     */
    lemma PageLinksSpec(url: string)
      ensures StrictlySorted(PageLinks(url)) && Distinct(PageLinks(url))
      ensures !IsHtml(fetch(url)) ==> PageLinks(url) == []
      ensures forall l :: l in PageLinks(url) <==>
                IsHtml(fetch(url)) && exists h :: h in hrefs(fetch(url).body) && IsLinkFrom(url, h, l)
      ensures forall l :: l in PageLinks(url) ==> IsCanonical(l) && SameSubdomain(l, rootNetloc)
    {
      var response := fetch(url);
      if IsHtml(response) {
        var d := Dedup(InScopeLinks(url, hrefs(response.body)));
        DedupSpec(InScopeLinks(url, hrefs(response.body)));
        SortDistinct(d);
        InScopeLinksMembers(url, hrefs(response.body));
        forall l | l in PageLinks(url) ensures IsCanonical(l) && SameSubdomain(l, rootNetloc) {
          var h :| h in hrefs(response.body) && IsLinkFrom(url, h, l);
          NormaliseUrlSpec(url, h);
        }
      }
    }

    /** The parameters of the breadth-first traversal this crawler performs. */
    function Config(): (c: Setup)
    {
      Setup(start, maxPages, maxDepth, PageLinks)
    }

    /** What the invariant says of the records, unfolded through `PageLinksSpec`. */
    lemma RecordsSpec(rs: seq<Record>)
      requires Valid()
      requires rs != [] ==> rs[0].url == start
      requires forall i :: 0 <= i < |rs| ==> rs[i].links == PageLinks(rs[i].url)
      requires DiscoveredEarlier(rs)
      ensures forall i :: 0 <= i < |rs| ==> StrictlySorted(rs[i].links)
      ensures forall i :: 0 <= i < |rs| && !IsHtml(fetch(rs[i].url)) ==> rs[i].links == []
      ensures forall i, l :: 0 <= i < |rs| && l in rs[i].links ==> SameSubdomain(l, rootNetloc)
      ensures forall i :: 0 <= i < |rs| ==> SameSubdomain(rs[i].url, rootNetloc)
    {
      hide PageLinks, InScopeLinks, NormaliseUrl, SameSubdomain, IsCanonical, Split;
      forall i | 0 <= i < |rs|
        ensures StrictlySorted(rs[i].links)
        ensures !IsHtml(fetch(rs[i].url)) ==> rs[i].links == []
        ensures forall l :: l in rs[i].links ==> SameSubdomain(l, rootNetloc)
        ensures SameSubdomain(rs[i].url, rootNetloc)
      {
        PageLinksSpec(rs[i].url);
        if i == 0 {
          SameSubdomainIgnoresCase(start, rootNetloc);
        } else {
          var j, l :| 0 <= j < |rs[..i]| && l in rs[..i][j].links && l == rs[i].url;
          assert rs[..i][j] == rs[j];
          PageLinksSpec(rs[j].url);
        }
      }
    }

    /**
     * The records `run` returns, and what they satisfy: at most `maxPages` of them, at least
     * one exactly when `maxPages >= 1`, the first for the start page, no page twice, each
     * later page linked from an earlier record, only the start page when `maxDepth <= 0`;
     * and every record's links are its page's in-scope links, strictly ascending, empty for
     * a page that is not HTML, and every recorded page and link lies on `rootNetloc`.
     */
    lemma CrawlResultsSpec()
      requires Valid()
      ensures |Crawl(Config(), Initial(Config()))| <= Max0(maxPages)
      ensures Crawl(Config(), Initial(Config())) != [] <==> maxPages >= 1
      ensures maxPages >= 1 ==> Crawl(Config(), Initial(Config()))[0] == Record(start, PageLinks(start))
      ensures DistinctUrls(Crawl(Config(), Initial(Config())))
      ensures forall i :: 0 < i < |Crawl(Config(), Initial(Config()))| ==>
                var rs := Crawl(Config(), Initial(Config()));
                rs[i].url in Discovered(rs[..i])
      ensures maxDepth <= 0 ==> |Crawl(Config(), Initial(Config()))| == (if maxPages >= 1 then 1 else 0)
      ensures forall r :: r in Crawl(Config(), Initial(Config())) ==>
                && r.links == PageLinks(r.url)
                && StrictlySorted(r.links)
                && (!IsHtml(fetch(r.url)) ==> r.links == [])
                && SameSubdomain(r.url, rootNetloc)
                && forall l :: l in r.links ==> SameSubdomain(l, rootNetloc)
    {
      hide Final, Crawl, Step, InScopeLinks, NormaliseUrl, SameSubdomain, Split, IsCanonical, Sort, Dedup;
      var c := Config();
      var rs := Crawl(c, Initial(c));
      CrawlSpec(c);
      RecordsSpec(rs);
      forall r | r in rs
        ensures r.links == PageLinks(r.url) && StrictlySorted(r.links)
        ensures !IsHtml(fetch(r.url)) ==> r.links == []
        ensures SameSubdomain(r.url, rootNetloc) && forall l :: l in r.links ==> SameSubdomain(l, rootNetloc)
      {
        var i :| 0 <= i < |rs| && rs[i] == r;
      }
    }

    /** A start page that is not HTML yields exactly one record, for itself, with no links. */
    lemma NonHtmlStart()
      requires Valid() && maxPages >= 1 && !IsHtml(fetch(start))
      ensures Crawl(Config(), Initial(Config())) == [Record(start, [])]
    {
      PageLinksSpec(start);
      StartWithoutLinks(Config());
    }

    /**
     * Breadth-first completeness in the crawler's terms: when `run` returns fewer than
     * `maxPages` records, every in-scope link of an HTML page visited with one more hop
     * allowed has a record, and exactly one, since no page is recorded twice.
     */
    lemma LinkedPagesVisited()
      requires Valid()
      ensures var f := Final(Config(), Initial(Config()));
              f.results == Crawl(Config(), Initial(Config())) && |f.depths| == |f.results| &&
              (|f.results| < maxPages ==>
                 forall i, h, l :: 0 <= i < |f.results| && f.depths[i] + 1 <= maxDepth &&
                                   IsHtml(fetch(f.results[i].url)) && h in hrefs(fetch(f.results[i].url).body) &&
                                   IsLinkFrom(f.results[i].url, h, l) ==>
                   l in UrlSet(f.results))
    {
      hide Final, Crawl, Step, InScopeLinks, NormaliseUrl, SameSubdomain, Split, IsCanonical, Sort, Dedup;
      var c := Config();
      var f := Final(c, Initial(c));
      CrawlComplete(c);
      CrawlSpec(c);
      if |f.results| < maxPages {
        forall i, h, l | 0 <= i < |f.results| && f.depths[i] + 1 <= maxDepth &&
                         IsHtml(fetch(f.results[i].url)) && h in hrefs(fetch(f.results[i].url).body) &&
                         IsLinkFrom(f.results[i].url, h, l)
          ensures l in UrlSet(f.results)
        {
          PageLinksSpec(f.results[i].url);
          assert l in f.results[i].links;
        }
      }
    }

    /** Visiting a page that is not HTML records it with no links and queues nothing. */
    lemma NonHtmlQueuesNothing(s: State)
      requires s.queue != [] && s.queue[0].url !in s.seen && !IsHtml(fetch(s.queue[0].url))
      ensures Step(Config(), s) == State(s.queue[1..], s.seen + {s.queue[0].url}, s.results + [Record(s.queue[0].url, [])], s.depths + [s.queue[0].depth])
    {
      SuccessorsOfNone(s.seen + {s.queue[0].url}, s.queue[0].depth + 1);
    }

    /**
     * Visit order is first in, first out over the sorted link list: with enough pages and at
     * least one hop allowed, the records after the start page's are its links other than
     * itself, one each, in ascending order.
     */
    lemma StartLinksVisitedInOrder()
      requires Valid()
      requires maxDepth >= 1 && maxPages >= 1 + |PageLinks(start)|
      ensures forall l :: l in StartChildren(Config()) <==> l in PageLinks(start) && l != start
      ensures StrictlySorted(StartChildren(Config()))
      ensures |Crawl(Config(), Initial(Config()))| >= 1 + |StartChildren(Config())|
      ensures forall i :: 0 <= i < |StartChildren(Config())| ==>
                Crawl(Config(), Initial(Config()))[1 + i].url == StartChildren(Config())[i]
    {
      var c := Config();
      PageLinksSpec(start);
      StartChildrenVisitedInOrder(c);
    }

    /** The links `run` records for a page, as the traversal's parameters give them. */
    lemma ConfigLinks(url: string)
      ensures !IsHtml(fetch(url)) ==> Config().links(url) == []
      ensures IsHtml(fetch(url)) ==> Config().links(url) == Sort(Dedup(InScopeLinks(url, hrefs(fetch(url).body))))
    {
    }

    /**
     * `run()`: the breadth-first loop over `queue`, `seen` and `results`, returning exactly
     * the records the state machine `Crawl` produces from the initial state.
     */
    method Run() returns (results: seq<Record>)
      ensures results == Crawl(Config(), Initial(Config()))
    {
      hide Crawl, Final, Step, Successors, InScopeLinks, Inv, PageLinks, Sort, Dedup;
      ghost var c := Config();
      var queue := [Entry(start, 0)];
      var seen: set<string> := {};
      results := [];
      ghost var depths: seq<nat> := [];
      ghost var st := Initial(c);
      InitialInv(c);
      while queue != [] && |seen| < maxPages
        invariant st == State(queue, seen, results, depths)
        invariant Inv(c, st)
        invariant Crawl(c, st) == Crawl(c, Initial(c))
        decreases maxPages - |seen|, |queue|
      {
        StepPreservesInv(c, st);
        CrawlUnfold(c, st);
        var entry := queue[0];
        queue := queue[1..];
        if entry.url in seen {
          StepSkip(c, st);
        } else {
          seen := seen + {entry.url};
          var response := fetch(entry.url);
          ConfigLinks(entry.url);
          if !IsHtml(response) {
            results := results + [Record(entry.url, [])];
            depths := depths + [entry.depth];
            assert c.links(entry.url) == [];
            SuccessorsOfNone(seen, entry.depth + 1);
            assert queue + Successors([], seen, entry.depth + 1) == queue;
            StepVisit(c, st, queue);
          } else {
            var links := ExtractInbounds(entry.url, response.body);
            links := Sort(links);
            assert links == c.links(entry.url);
            results := results + [Record(entry.url, links)];
            depths := depths + [entry.depth];
            if entry.depth + 1 <= maxDepth {
              queue := EnqueueUnseen(queue, links, seen, entry.depth + 1);
            }
            StepVisit(c, st, queue);
          }
        }
        st := Step(c, st);
      }
      CrawlDone(c, st);
    }
  }
}
