/**
 * The breadth-first state machine that `SequentialCrawler.run` executes: a FIFO queue of
 * `(url, depth)` entries, a set of visited URLs and an append-only list of records.
 * A page's links are given by the function `links` of a `Setup`, so this module holds
 * the traversal reasoning apart from how links are found.
 */
module Frontier {
  import opened Ordering

  /** A queue entry: a canonical URL and its hop count from the start page. */
  datatype Entry = Entry(url: string, depth: nat)

  /** One visit record: the page and the links stored for it. */
  datatype Record = Record(url: string, links: seq<string>)

  /**
   * The three variables of the crawl loop, and the depth at which each record's page was
   * visited (`depths[i]` belongs to `results[i]`; the loop itself does not keep it).
   */
  datatype State = State(queue: seq<Entry>, seen: set<string>, results: seq<Record>, depths: seq<nat>)

  /** The crawl's parameters: the start page, the two bounds, and the links recorded for each page. */
  datatype Setup = Setup(start: string, maxPages: int, maxDepth: int, links: string -> seq<string>)

  /** `n` when it is not negative, else 0. */
  function Max0(n: int): (r: nat)
  {
    if n < 0 then 0 else n
  }

  /** The URLs of the entries, in queue order. */
  function EntryUrls(q: seq<Entry>): (r: seq<string>)
    ensures |r| == |q| && forall i :: 0 <= i < |q| ==> r[i] == q[i].url
  {
    seq(|q|, i requires 0 <= i < |q| => q[i].url)
  }

  /** The pages that have a record. */
  function UrlSet(rs: seq<Record>): (r: set<string>)
  {
    set i | 0 <= i < |rs| :: rs[i].url
  }

  /** Every link that appears in some record. */
  function Discovered(rs: seq<Record>): set<string>
  {
    set i, l | 0 <= i < |rs| && l in rs[i].links :: l
  }

  /** No page is the subject of two records. */
  predicate DistinctUrls(rs: seq<Record>)
  {
    forall i, j :: 0 <= i < j < |rs| ==> rs[i].url != rs[j].url
  }

  /** Every record after the first is for a page that an earlier record links to. */
  ghost predicate DiscoveredEarlier(rs: seq<Record>)
  {
    forall i :: 0 < i < |rs| ==> rs[i].url in Discovered(rs[..i])
  }

  /** The entries the inner loop of `run` appends: `(link, depth)` for every link not in `seen`, in order. */
  function Successors(links: seq<string>, seen: set<string>, depth: nat): (r: seq<Entry>)
  {
    if links == [] then []
    else
      var init, last := links[..|links| - 1], links[|links| - 1];
      var before := Successors(init, seen, depth);
      if last in seen then before else before + [Entry(last, depth)]
  }

  /**
   * The appended entries all carry `depth`; their URLs are exactly the links not in `seen`,
   * and they stay in ascending order when the links are.
   */
  lemma {:induction false} SuccessorsSpec(links: seq<string>, seen: set<string>, depth: nat)
    ensures forall x :: x in Successors(links, seen, depth) ==> x.depth == depth && x.url in links && x.url !in seen
    ensures forall l :: l in EntryUrls(Successors(links, seen, depth)) <==> l in links && l !in seen
    ensures StrictlySorted(links) ==> StrictlySorted(EntryUrls(Successors(links, seen, depth)))
    ensures |Successors(links, seen, depth)| <= |links|
  {
    if links != [] {
      var init, last := links[..|links| - 1], links[|links| - 1];
      assert links == init + [last];
      SuccessorsSpec(init, seen, depth);
      var before := Successors(init, seen, depth);
      if last !in seen {
        assert EntryUrls(before + [Entry(last, depth)]) == EntryUrls(before) + [last];
      }
      if StrictlySorted(links) {
        assert StrictlySorted(init);
        assert forall l :: l in init ==> Less(l, last);
      }
    }
  }

  lemma SuccessorsOfNone(seen: set<string>, depth: nat)
    ensures Successors([], seen, depth) == []
  {
  }

  lemma UrlSetGrows(rs: seq<Record>, r: Record)
    ensures UrlSet(rs + [r]) == UrlSet(rs) + {r.url}
  {
    var rs' := rs + [r];
    forall u | u in UrlSet(rs') ensures u in UrlSet(rs) + {r.url} {
      var i :| 0 <= i < |rs'| && rs'[i].url == u;
      if i < |rs| { assert rs'[i] == rs[i]; }
    }
    forall u | u in UrlSet(rs) ensures u in UrlSet(rs') {
      var i :| 0 <= i < |rs| && rs[i].url == u;
      assert rs'[i] == rs[i];
    }
    assert rs'[|rs|].url == r.url;
  }

  lemma DistinctUrlsGrows(rs: seq<Record>, r: Record)
    requires DistinctUrls(rs) && r.url !in UrlSet(rs)
    ensures DistinctUrls(rs + [r])
  {
    var rs' := rs + [r];
    forall i, j | 0 <= i < j < |rs'| ensures rs'[i].url != rs'[j].url {
      assert rs'[i] == rs[i];
      if j < |rs| {
        assert rs'[j] == rs[j];
      } else {
        assert rs[i].url in UrlSet(rs);
      }
    }
  }

  lemma DiscoveredGrows(rs: seq<Record>, r: Record)
    ensures Discovered(rs + [r]) == Discovered(rs) + (set l | l in r.links)
  {
    var rs' := rs + [r];
    forall l | l in Discovered(rs) ensures l in Discovered(rs') {
      var i :| 0 <= i < |rs| && l in rs[i].links;
      assert rs'[i] == rs[i];
    }
    forall l | l in r.links ensures l in Discovered(rs') {
      assert rs'[|rs|] == r;
    }
    forall l | l in Discovered(rs') ensures l in Discovered(rs) || l in r.links {
      var i :| 0 <= i < |rs'| && l in rs'[i].links;
      if i < |rs| { assert rs'[i] == rs[i]; }
    }
  }

  lemma DiscoveredEarlierGrows(rs: seq<Record>, r: Record)
    requires DiscoveredEarlier(rs)
    requires rs != [] ==> r.url in Discovered(rs)
    ensures DiscoveredEarlier(rs + [r])
  {
    var rs' := rs + [r];
    forall i | 0 < i < |rs'| ensures rs'[i].url in Discovered(rs'[..i]) {
      if i < |rs| {
        assert rs'[..i] == rs[..i];
      } else {
        assert rs'[..i] == rs;
      }
    }
  }

  /** The loop variables before the first iteration. */
  function Initial(c: Setup): (s: State)
  {
    State([Entry(c.start, 0)], {}, [], [])
  }

  /**
   * One iteration: pop the head; skip it if seen; otherwise mark it seen, record its links
   * and, when one more hop is within `maxDepth`, queue its links that are not yet seen.
   */
  function Step(c: Setup, s: State): (r: State)
    requires s.queue != []
    ensures |r.seen| == |s.seen| + 1 || (r.seen == s.seen && |r.queue| == |s.queue| - 1)
  {
    var e, rest := s.queue[0], s.queue[1..];
    if e.url in s.seen then State(rest, s.seen, s.results, s.depths)
    else
      var seen := s.seen + {e.url};
      var links := c.links(e.url);
      var queue := if e.depth + 1 <= c.maxDepth then rest + Successors(links, seen, e.depth + 1) else rest;
      State(queue, seen, s.results + [Record(e.url, links)], s.depths + [e.depth])
  }

  /** The state in which the loop exits from `s`: it runs while the queue is non-empty and fewer than `maxPages` pages are seen. */
  function Final(c: Setup, s: State): (r: State)
    ensures r.queue == [] || |r.seen| >= c.maxPages
    decreases c.maxPages - |s.seen|, |s.queue|
  {
    if s.queue == [] || |s.seen| >= c.maxPages then s
    else Final(c, Step(c, s))
  }

  /** The records the loop returns from `s`. */
  function Crawl(c: Setup, s: State): (r: seq<Record>)
  {
    Final(c, s).results
  }

  /** The bookkeeping of the loop: one record per insertion into `seen`, at most `maxPages` of them. */
  ghost predicate Counted(c: Setup, s: State)
  {
    && s.seen == UrlSet(s.results)
    && |s.seen| == |s.results|
    && |s.results| <= Max0(c.maxPages)
  }

  /** The records: no page twice, the first for the start page, each later one discovered earlier, links as `links` gives them. */
  ghost predicate RecordsOk(c: Setup, rs: seq<Record>)
  {
    && DistinctUrls(rs)
    && (forall i :: 0 <= i < |rs| ==> rs[i].links == c.links(rs[i].url))
    && (rs != [] ==> rs[0].url == c.start)
    && DiscoveredEarlier(rs)
  }

  /** The queue: the start entry alone before the first visit, afterwards discovered links at depths 1 to `maxDepth`. */
  ghost predicate QueueOk(c: Setup, s: State)
  {
    && (s.results == [] ==> s.queue == [Entry(c.start, 0)])
    && (s.results != [] ==> forall e :: e in s.queue ==> e.url in Discovered(s.results) && 1 <= e.depth <= c.maxDepth)
  }

  /** The URLs of the queued entries. */
  function QueuedUrls(q: seq<Entry>): set<string>
  {
    set e | e in q :: e.url
  }

  /** One of the first `n` records, visited at depth `depth - 1`, links to `url`. */
  ghost predicate LinkedFrom(rs: seq<Record>, ds: seq<nat>, url: string, depth: nat, n: int)
  {
    exists j :: 0 <= j < n && j < |rs| && j < |ds| && ds[j] + 1 == depth && url in rs[j].links
  }

  /**
   * The depths are hop counts: the start page is at 0, and every later record and every
   * queued entry is a link of an earlier record one hop shallower, within `maxDepth`.
   */
  ghost predicate DepthsOk(c: Setup, s: State)
  {
    && |s.depths| == |s.results|
    && (s.results != [] ==> s.depths[0] == 0)
    && (forall i :: 0 < i < |s.results| ==>
          1 <= s.depths[i] <= c.maxDepth && LinkedFrom(s.results, s.depths, s.results[i].url, s.depths[i], i))
    && (s.results != [] ==> forall e :: e in s.queue ==> LinkedFrom(s.results, s.depths, e.url, e.depth, |s.results|))
  }

  /** Breadth-first closure: every link of a record with one more hop allowed is visited or waiting in the queue. */
  ghost predicate Closed(c: Setup, s: State)
  {
    forall i, l :: 0 <= i < |s.results| && i < |s.depths| && s.depths[i] + 1 <= c.maxDepth && l in s.results[i].links ==>
      l in s.seen || l in QueuedUrls(s.queue)
  }

  /** What holds at the top of every iteration. */
  ghost predicate Inv(c: Setup, s: State)
  {
    && Counted(c, s)
    && RecordsOk(c, s.results)
    && QueueOk(c, s)
    && (c.maxDepth <= 0 ==> |s.results| <= 1)
    && DepthsOk(c, s)
    && Closed(c, s)
  }

  /** Visiting the head entry: it is marked seen, its record is appended, and every new queue entry is one of its links one hop further. */
  lemma VisitEffect(c: Setup, s: State)
    requires s.queue != [] && s.queue[0].url !in s.seen
    ensures Step(c, s).seen == s.seen + {s.queue[0].url}
    ensures Step(c, s).results == s.results + [Record(s.queue[0].url, c.links(s.queue[0].url))]
    ensures forall x :: x in Step(c, s).queue ==>
              || x in s.queue[1..]
              || (s.queue[0].depth + 1 <= c.maxDepth && x.depth == s.queue[0].depth + 1 && x.url in c.links(s.queue[0].url))
  {
    SuccessorsSpec(c.links(s.queue[0].url), s.seen + {s.queue[0].url}, s.queue[0].depth + 1);
  }

  lemma VisitKeepsCounted(c: Setup, s: State)
    requires Counted(c, s) && s.queue != [] && s.queue[0].url !in s.seen && |s.seen| < c.maxPages
    ensures Counted(c, Step(c, s))
  {
    VisitEffect(c, s);
    UrlSetGrows(s.results, Record(s.queue[0].url, c.links(s.queue[0].url)));
  }

  lemma VisitKeepsRecordsOk(c: Setup, s: State)
    requires Counted(c, s) && RecordsOk(c, s.results) && QueueOk(c, s)
    requires s.queue != [] && s.queue[0].url !in s.seen
    ensures RecordsOk(c, Step(c, s).results)
  {
    hide Step;
    VisitEffect(c, s);
    var rec := Record(s.queue[0].url, c.links(s.queue[0].url));
    DistinctUrlsGrows(s.results, rec);
    assert s.queue[0] in s.queue;
    DiscoveredEarlierGrows(s.results, rec);
    var rs := s.results + [rec];
    assert forall i :: 0 <= i < |s.results| ==> rs[i] == s.results[i];
  }

  lemma VisitKeepsQueueOk(c: Setup, s: State)
    requires Inv(c, s) && s.queue != [] && s.queue[0].url !in s.seen
    ensures QueueOk(c, Step(c, s))
  {
    VisitEffect(c, s);
    var e := s.queue[0];
    var t := Step(c, s);
    DiscoveredGrows(s.results, Record(e.url, c.links(e.url)));
    forall x | x in t.queue ensures x.url in Discovered(t.results) && 1 <= x.depth <= c.maxDepth {
      if x in s.queue[1..] {
        assert x in s.queue;
      }
    }
  }

  /** A record appended later does not undo a link found among the first records. */
  lemma LinkedFromGrows(rs: seq<Record>, ds: seq<nat>, url: string, depth: nat, n: int, r: Record, d: nat, m: int)
    requires LinkedFrom(rs, ds, url, depth, n) && n <= m
    ensures LinkedFrom(rs + [r], ds + [d], url, depth, m)
  {
    var j :| 0 <= j < n && j < |rs| && j < |ds| && ds[j] + 1 == depth && url in rs[j].links;
    assert (rs + [r])[j] == rs[j] && (ds + [d])[j] == ds[j];
  }

  /** The fields of the state after a visit, one by one. */
  lemma VisitShape(c: Setup, s: State)
    requires s.queue != [] && s.queue[0].url !in s.seen
    ensures Step(c, s).seen == s.seen + {s.queue[0].url}
    ensures Step(c, s).results == s.results + [Record(s.queue[0].url, c.links(s.queue[0].url))]
    ensures Step(c, s).depths == s.depths + [s.queue[0].depth]
    ensures Step(c, s).queue == s.queue[1..] +
              if s.queue[0].depth + 1 <= c.maxDepth
              then Successors(c.links(s.queue[0].url), s.seen + {s.queue[0].url}, s.queue[0].depth + 1)
              else []
  {
  }

  /** A link of the newest record, one hop deeper than it, is linked from it. */
  lemma LinkedFromLast(rs: seq<Record>, ds: seq<nat>, r: Record, d: nat, url: string)
    requires |rs| == |ds| && url in r.links
    ensures LinkedFrom(rs + [r], ds + [d], url, d + 1, |rs| + 1)
  {
    assert (rs + [r])[|rs|] == r && (ds + [d])[|rs|] == d;
  }

  /** After a visit, every record keeps its hop count, the new one taking its entry's. */
  lemma VisitKeepsRecordDepths(c: Setup, s: State)
    requires QueueOk(c, s) && DepthsOk(c, s) && s.queue != [] && s.queue[0].url !in s.seen
    ensures |Step(c, s).depths| == |Step(c, s).results|
    ensures Step(c, s).results != [] ==> Step(c, s).depths[0] == 0
    ensures forall i :: 0 < i < |Step(c, s).results| ==>
              1 <= Step(c, s).depths[i] <= c.maxDepth &&
              LinkedFrom(Step(c, s).results, Step(c, s).depths, Step(c, s).results[i].url, Step(c, s).depths[i], i)
  {
    VisitShape(c, s);
    hide Step, LinkedFrom;
    var e := s.queue[0];
    var t := Step(c, s);
    var rec := Record(e.url, c.links(e.url));
    assert e in s.queue;
    assert t.results[|s.results|] == rec && t.depths[|s.results|] == e.depth;
    forall i | 0 < i < |t.results|
      ensures 1 <= t.depths[i] <= c.maxDepth && LinkedFrom(t.results, t.depths, t.results[i].url, t.depths[i], i)
    {
      if i < |s.results| {
        assert t.results[i] == s.results[i] && t.depths[i] == s.depths[i];
        LinkedFromGrows(s.results, s.depths, s.results[i].url, s.depths[i], i, rec, e.depth, i);
      } else {
        LinkedFromGrows(s.results, s.depths, e.url, e.depth, |s.results|, rec, e.depth, i);
      }
    }
  }

  /** After a visit, every queued entry is still a link of a record one hop shallower. */
  lemma VisitKeepsQueueDepths(c: Setup, s: State)
    requires QueueOk(c, s) && DepthsOk(c, s) && s.queue != [] && s.queue[0].url !in s.seen
    ensures forall x :: x in Step(c, s).queue ==>
              LinkedFrom(Step(c, s).results, Step(c, s).depths, x.url, x.depth, |Step(c, s).results|)
  {
    VisitShape(c, s);
    hide Step, LinkedFrom, Successors;
    var e := s.queue[0];
    var t := Step(c, s);
    var rec := Record(e.url, c.links(e.url));
    var succ := Successors(c.links(e.url), t.seen, e.depth + 1);
    SuccessorsSpec(c.links(e.url), t.seen, e.depth + 1);
    forall x | x in t.queue ensures LinkedFrom(t.results, t.depths, x.url, x.depth, |t.results|) {
      if s.results != [] && x in s.queue[1..] {
        assert x in s.queue;
        LinkedFromGrows(s.results, s.depths, x.url, x.depth, |s.results|, rec, e.depth, |t.results|);
      } else {
        assert s.results == [] ==> s.queue[1..] == [];
        assert x in succ;
        LinkedFromLast(s.results, s.depths, rec, e.depth, x.url);
      }
    }
  }

  lemma VisitKeepsClosed(c: Setup, s: State)
    requires Closed(c, s) && |s.depths| == |s.results| && s.queue != [] && s.queue[0].url !in s.seen
    ensures Closed(c, Step(c, s))
  {
    VisitShape(c, s);
    hide Step, Successors;
    var e := s.queue[0];
    var t := Step(c, s);
    var succ := Successors(c.links(e.url), t.seen, e.depth + 1);
    SuccessorsSpec(c.links(e.url), t.seen, e.depth + 1);
    assert t.results[|s.results|].links == c.links(e.url) && t.depths[|s.results|] == e.depth;
    forall i, l | 0 <= i < |t.results| && i < |t.depths| && t.depths[i] + 1 <= c.maxDepth && l in t.results[i].links
      ensures l in t.seen || l in QueuedUrls(t.queue)
    {
      if i < |s.results| {
        assert t.results[i] == s.results[i] && t.depths[i] == s.depths[i];
        if l !in s.seen && l != e.url {
          var x :| x in s.queue && x.url == l;
          assert x != e && x in s.queue[1..];
          assert x in t.queue;
        }
      } else if l !in t.seen {
        assert t.queue == s.queue[1..] + succ;
        assert l in EntryUrls(succ);
        var k :| 0 <= k < |succ| && EntryUrls(succ)[k] == l;
        assert succ[k] in t.queue;
      }
    }
  }

  lemma SkipKeepsInv(c: Setup, s: State)
    requires Inv(c, s) && s.queue != [] && s.queue[0].url in s.seen
    ensures Inv(c, Step(c, s))
  {
    var t := Step(c, s);
    assert t == State(s.queue[1..], s.seen, s.results, s.depths);
    forall x | x in t.queue ensures x in s.queue { }
    forall l | l in QueuedUrls(s.queue) && l !in s.seen ensures l in QueuedUrls(t.queue) {
      var x :| x in s.queue && x.url == l;
      assert x != s.queue[0] && x in t.queue;
    }
  }

  /** One iteration taken while the loop condition holds keeps the invariant. */
  lemma StepPreservesInv(c: Setup, s: State)
    requires Inv(c, s) && s.queue != [] && |s.seen| < c.maxPages
    ensures Inv(c, Step(c, s))
  {
    if s.queue[0].url !in s.seen {
      VisitKeepsCounted(c, s);
      VisitKeepsRecordsOk(c, s);
      VisitKeepsQueueOk(c, s);
      VisitKeepsRecordDepths(c, s);
      VisitKeepsQueueDepths(c, s);
      VisitKeepsClosed(c, s);
      VisitEffect(c, s);
    } else {
      SkipKeepsInv(c, s);
    }
  }

  /** While the loop condition holds, the outcome is that of the state after one more iteration. */
  lemma CrawlUnfold(c: Setup, s: State)
    requires s.queue != [] && |s.seen| < c.maxPages
    ensures Crawl(c, s) == Crawl(c, Step(c, s))
  {
  }

  /** Once the loop condition fails, the outcome is the records collected so far. */
  lemma CrawlDone(c: Setup, s: State)
    requires s.queue == [] || |s.seen| >= c.maxPages
    ensures Crawl(c, s) == s.results
  {
  }

  /** An iteration that drops an already visited head leaves the rest of the queue and changes nothing else. */
  lemma StepSkip(c: Setup, s: State)
    requires s.queue != [] && s.queue[0].url in s.seen
    ensures Step(c, s) == State(s.queue[1..], s.seen, s.results, s.depths)
  {
  }

  /** An iteration that visits the head marks it seen, records its links and queues its unseen links if one more hop is allowed. */
  lemma StepVisit(c: Setup, s: State, queue: seq<Entry>)
    requires s.queue != [] && s.queue[0].url !in s.seen
    requires queue == if s.queue[0].depth + 1 <= c.maxDepth
                      then s.queue[1..] + Successors(c.links(s.queue[0].url), s.seen + {s.queue[0].url}, s.queue[0].depth + 1)
                      else s.queue[1..]
    ensures Step(c, s) == State(queue, s.seen + {s.queue[0].url}, s.results + [Record(s.queue[0].url, c.links(s.queue[0].url))], s.depths + [s.queue[0].depth])
  {
  }

  /** Before the first iteration the invariant holds. */
  lemma InitialInv(c: Setup)
    ensures Inv(c, Initial(c))
  {
  }

  /** Iterations only append: the records of any state are a prefix of the records the crawl returns from it. */
  lemma {:induction false} CrawlKeepsResults(c: Setup, s: State)
    ensures |s.results| <= |Crawl(c, s)|
    ensures forall i :: 0 <= i < |s.results| ==> Crawl(c, s)[i] == s.results[i]
    decreases c.maxPages - |s.seen|, |s.queue|
  {
    if s.queue != [] && |s.seen| < c.maxPages {
      var t := Step(c, s);
      CrawlKeepsResults(c, t);
      assert forall i :: 0 <= i < |s.results| ==> t.results[i] == s.results[i];
    }
  }

  /** The invariant carries over to the state in which the loop exits. */
  lemma {:induction false} FinalKeepsInv(c: Setup, s: State)
    requires Inv(c, s)
    ensures Inv(c, Final(c, s))
    decreases c.maxPages - |s.seen|, |s.queue|
  {
    if s.queue != [] && |s.seen| < c.maxPages {
      StepPreservesInv(c, s);
      FinalKeepsInv(c, Step(c, s));
    }
  }

  /**
   * What the whole crawl returns: at most `maxPages` records, at least one exactly when
   * `maxPages >= 1`, the first for the start page, no page twice, each page with its own
   * links, each later page linked from an earlier one, and only the start page when
   * `maxDepth <= 0`.
   */
  lemma CrawlSpec(c: Setup)
    ensures |Crawl(c, Initial(c))| <= Max0(c.maxPages)
    ensures Crawl(c, Initial(c)) != [] <==> c.maxPages >= 1
    ensures c.maxPages >= 1 ==> Crawl(c, Initial(c))[0] == Record(c.start, c.links(c.start))
    ensures DistinctUrls(Crawl(c, Initial(c)))
    ensures forall i :: 0 <= i < |Crawl(c, Initial(c))| ==>
              Crawl(c, Initial(c))[i].links == c.links(Crawl(c, Initial(c))[i].url)
    ensures DiscoveredEarlier(Crawl(c, Initial(c)))
    ensures c.maxDepth <= 0 ==> |Crawl(c, Initial(c))| == (if c.maxPages >= 1 then 1 else 0)
  {
    var s := Initial(c);
    InitialInv(c);
    FinalKeepsInv(c, s);
    if c.maxPages >= 1 {
      var t := Step(c, s);
      assert t.results == [Record(c.start, c.links(c.start))];
      CrawlKeepsResults(c, t);
    }
  }

  /**
   * What the invariant says about a state in which the loop has stopped: the start page
   * is at depth 0, every later page is a link of an earlier page one hop shallower, and
   * with fewer than `maxPages` records (so on an empty queue) every link of a page
   * visited with one more hop allowed has a record.
   */
  lemma ExitComplete(c: Setup, f: State)
    requires Inv(c, f) && (f.queue == [] || |f.seen| >= c.maxPages)
    ensures |f.depths| == |f.results|
    ensures f.results != [] ==> f.depths[0] == 0
    ensures forall i :: 0 < i < |f.results| ==>
              1 <= f.depths[i] <= c.maxDepth && LinkedFrom(f.results, f.depths, f.results[i].url, f.depths[i], i)
    ensures |f.results| < c.maxPages ==>
              forall i, l :: 0 <= i < |f.results| && f.depths[i] + 1 <= c.maxDepth && l in f.results[i].links ==>
                l in UrlSet(f.results)
  {
    if |f.results| < c.maxPages {
      assert f.queue == [];
      assert QueuedUrls(f.queue) == {};
    }
  }

  /** A page is never deeper than its position in the visit order. */
  lemma {:induction false} DepthAtMostIndex(rs: seq<Record>, ds: seq<nat>, i: int)
    requires |ds| == |rs| && (rs != [] ==> ds[0] == 0)
    requires forall k :: 0 < k < |rs| ==> LinkedFrom(rs, ds, rs[k].url, ds[k], k)
    requires 0 <= i < |rs|
    ensures ds[i] <= i
    decreases i
  {
    if i > 0 {
      assert LinkedFrom(rs, ds, rs[i].url, ds[i], i);
      var j :| 0 <= j < i && j < |rs| && j < |ds| && ds[j] + 1 == ds[i] && rs[i].url in rs[j].links;
      DepthAtMostIndex(rs, ds, j);
    }
  }

  /**
   * Breadth-first completeness of the whole crawl, with `depths` the hop count at which
   * each page was visited.
   */
  lemma CrawlComplete(c: Setup)
    ensures var f := Final(c, Initial(c));
            f.results == Crawl(c, Initial(c)) && |f.depths| == |f.results| &&
            (c.maxPages >= 1 ==> f.results != [] && f.depths[0] == 0) &&
            (forall i :: 0 < i < |f.results| ==>
               1 <= f.depths[i] <= c.maxDepth && LinkedFrom(f.results, f.depths, f.results[i].url, f.depths[i], i)) &&
            (|f.results| < c.maxPages ==>
               forall i, l :: 0 <= i < |f.results| && f.depths[i] + 1 <= c.maxDepth && l in f.results[i].links ==>
                 l in UrlSet(f.results)) &&
            (forall i :: 0 <= i < |f.results| ==> f.depths[i] <= i)
  {
    var f := Final(c, Initial(c));
    InitialInv(c);
    FinalKeepsInv(c, Initial(c));
    CrawlSpec(c);
    ExitComplete(c, f);
    forall i | 0 <= i < |f.results| ensures f.depths[i] <= i {
      DepthAtMostIndex(f.results, f.depths, i);
    }
  }

  /** A start page without links ends the crawl after one record. */
  lemma StartWithoutLinks(c: Setup)
    requires c.maxPages >= 1 && c.links(c.start) == []
    ensures Crawl(c, Initial(c)) == [Record(c.start, [])]
  {
    var s := Initial(c);
    VisitShape(c, s);
    SuccessorsOfNone({c.start}, 1);
    CrawlUnfold(c, s);
    CrawlDone(c, Step(c, s));
  }

  /** Visiting the head keeps the rest of the queue in front of whatever is appended. */
  lemma StepKeepsRest(c: Setup, s: State)
    requires s.queue != [] && s.queue[0].url !in s.seen
    ensures s.queue[1..] <= Step(c, s).queue
  {
  }

  /** Visiting an unseen head under the page budget: the next state as the queue-order argument needs it. */
  lemma VisitHead(c: Setup, s: State, k: nat)
    requires 0 < k <= |s.queue| && |s.seen| + k <= c.maxPages
    requires forall i :: 0 <= i < k ==> s.queue[i].url !in s.seen
    requires forall i, j :: 0 <= i < j < k ==> s.queue[i].url != s.queue[j].url
    ensures Crawl(c, s) == Crawl(c, Step(c, s))
    ensures Step(c, s).results == s.results + [Record(s.queue[0].url, c.links(s.queue[0].url))]
    ensures k - 1 <= |Step(c, s).queue| && |Step(c, s).seen| + (k - 1) <= c.maxPages
    ensures forall i :: 0 <= i < k - 1 ==> Step(c, s).queue[i] == s.queue[i + 1]
    ensures forall i :: 0 <= i < k - 1 ==> Step(c, s).queue[i].url !in Step(c, s).seen
  {
    CrawlUnfold(c, s);
    VisitEffect(c, s);
    StepKeepsRest(c, s);
    var t := Step(c, s);
    forall i | 0 <= i < k - 1 ensures t.queue[i] == s.queue[i + 1] {
      assert s.queue[1..][i] == s.queue[i + 1];
    }
  }

  /**
   * First in, first out: when the first `k` queue entries are distinct unvisited pages and
   * the page budget covers them, the next `k` records are theirs, in queue order.
   */
  lemma {:induction false} VisitsInQueueOrder(c: Setup, s: State, k: nat)
    requires k <= |s.queue| && |s.seen| + k <= c.maxPages
    requires forall i :: 0 <= i < k ==> s.queue[i].url !in s.seen
    requires forall i, j :: 0 <= i < j < k ==> s.queue[i].url != s.queue[j].url
    ensures |Crawl(c, s)| >= |s.results| + k
    ensures forall i :: 0 <= i < k ==>
              Crawl(c, s)[|s.results| + i] == Record(s.queue[i].url, c.links(s.queue[i].url))
    decreases k
  {
    hide Step, Crawl, Final;
    CrawlKeepsResults(c, s);
    if k > 0 {
      VisitHead(c, s, k);
      var t := Step(c, s);
      VisitsInQueueOrder(c, t, k - 1);
      CrawlKeepsResults(c, t);
      forall i | 0 <= i < k
        ensures Crawl(c, s)[|s.results| + i] == Record(s.queue[i].url, c.links(s.queue[i].url))
      {
        if i > 0 {
          assert t.queue[i - 1] == s.queue[i];
          assert Crawl(c, t)[|t.results| + (i - 1)] == Record(t.queue[i - 1].url, c.links(t.queue[i - 1].url));
        }
      }
    }
  }

  /** The start page's links that enter the queue on the first visit, in the order they are queued. */
  function StartChildren(c: Setup): (r: seq<string>)
  {
    EntryUrls(Successors(c.links(c.start), {c.start}, 1))
  }

  /**
   * With room for them, the start page's links (other than itself) are the next pages
   * visited, in the order the start page's record lists them; a link list in ascending
   * order is visited in ascending order.
   */
  lemma StartChildrenVisitedInOrder(c: Setup)
    requires c.maxDepth >= 1 && c.maxPages >= 1 + |c.links(c.start)|
    requires Distinct(c.links(c.start))
    ensures forall l :: l in StartChildren(c) <==> l in c.links(c.start) && l != c.start
    ensures StrictlySorted(c.links(c.start)) ==> StrictlySorted(StartChildren(c))
    ensures |Crawl(c, Initial(c))| >= 1 + |StartChildren(c)|
    ensures forall i :: 0 <= i < |StartChildren(c)| ==>
              Crawl(c, Initial(c))[1 + i] == Record(StartChildren(c)[i], c.links(StartChildren(c)[i]))
  {
    hide Crawl, Step;
    var links := c.links(c.start);
    var succ := Successors(links, {c.start}, 1);
    var children := StartChildren(c);
    var t := State(succ, {c.start}, [Record(c.start, links)], [0]);
    SuccessorsSpec(links, {c.start}, 1);
    SuccessorsDistinct(links, {c.start}, 1);
    FirstVisit(c);
    forall i, j | 0 <= i < j < |succ| ensures succ[i].url != succ[j].url {
      assert children[i] == succ[i].url && children[j] == succ[j].url;
    }
    forall i | 0 <= i < |succ| ensures succ[i].url !in t.seen {
      assert succ[i] in succ;
    }
    VisitsInQueueOrder(c, t, |succ|);
    forall i | 0 <= i < |children|
      ensures Crawl(c, Initial(c))[1 + i] == Record(children[i], c.links(children[i]))
    {
      assert children[i] == t.queue[i].url;
      assert Crawl(c, t)[|t.results| + i] == Record(t.queue[i].url, c.links(t.queue[i].url));
    }
  }

  /** The first iteration visits the start page and, one hop being allowed, queues its links. */
  lemma FirstVisit(c: Setup)
    requires c.maxDepth >= 1 && c.maxPages >= 1
    ensures Crawl(c, Initial(c)) ==
            Crawl(c, State(Successors(c.links(c.start), {c.start}, 1), {c.start}, [Record(c.start, c.links(c.start))], [0]))
  {
    var s := Initial(c);
    var succ := Successors(c.links(c.start), {c.start}, 1);
    assert s.queue[1..] + succ == succ;
    assert s.queue[0] == Entry(c.start, 0) && s.seen + {c.start} == {c.start};
    StepVisit(c, s, succ);
    assert Step(c, s) == State(succ, {c.start}, [Record(c.start, c.links(c.start))], [0]);
    CrawlUnfold(c, s);
  }

  /** Successors of a list without repeats have no repeated URL. */
  lemma {:induction false} SuccessorsDistinct(links: seq<string>, seen: set<string>, depth: nat)
    requires Distinct(links)
    ensures Distinct(EntryUrls(Successors(links, seen, depth)))
  {
    if links != [] {
      var init, last := links[..|links| - 1], links[|links| - 1];
      assert links == init + [last];
      assert Distinct(init);
      SuccessorsDistinct(init, seen, depth);
      SuccessorsSpec(init, seen, depth);
      var before := Successors(init, seen, depth);
      if last !in seen {
        assert last !in init;
        assert EntryUrls(before + [Entry(last, depth)]) == EntryUrls(before) + [last];
      }
    }
  }
}
