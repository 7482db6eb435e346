/** What a whole crawl returns, for every schedule: at-most-once requests, real
  * depths, completeness, and a page count that no schedule can change. */
module CrawlResults {
  import opened Wrappers
  import opened Scope
  import opened Crawl

  // ----- reachability, stated without the crawler -----

  /** A link path from the seed: each page answers and links to the next. */
  ghost predicate IsPath(req: Request, web: Web, path: seq<Url>) {
    && path != []
    && path[0] == req.seed
    && forall i | 0 <= i < |path| - 1 :: req.Edge(web, path[i], path[i + 1])
  }

  ghost predicate Reachable(req: Request, web: Web, key: Url) {
    exists path :: IsPath(req, web, path) && req.Key(Last(path)) == key
  }

  /** Reachable, and the page answers. */
  ghost predicate Scrapable(req: Request, web: Web, key: Url) {
    exists path :: IsPath(req, web, path) && req.Key(Last(path)) == key && web(Last(path)).Some?
  }

  /** URLs with one normalised key are one page. */
  ghost predicate KeyRespecting(req: Request, web: Web) {
    forall u, v | req.Key(u) == req.Key(v) :: web(u) == web(v)
  }

  /** The depth limit cannot bind: it is at least the number of pages there are. */
  ghost predicate DepthUnlimited(req: Request, web: Web, universe: set<Url>) {
    && (forall key | Reachable(req, web, key) :: key in universe)
    && req.DepthAllows(|universe|)
  }

  // ----- at most once -----

  /** No two requests of a run, finished or in flight, are for the same page. */
  lemma NoPageIsRequestedTwice(req: Request, web: Web, run: seq<State>)
    requires IsRun(req, web, run)
    ensures var s := Last(run); KeysDistinct(req, s.log + s.inflight)
  {
    InvHolds(req, web, run);
    var s := Last(run);
    assert s.log + s.inflight <= All(s);
  }

  // ----- recorded depths are lengths of real paths -----

  lemma ExtendPath(req: Request, web: Web, path: seq<Url>, url: Url)
    requires IsPath(req, web, path) && req.Edge(web, Last(path), url)
    ensures IsPath(req, web, path + [url])
  {
  }

  lemma ParentOf(req: Request, web: Web, s: State, job: Job) returns (parent: Job)
    requires Inv(req, web, s) && job in s.found && job != Job(req.seed, 0)
    ensures parent in s.found && parent.depth + 1 == job.depth && req.Edge(web, parent.url, job.url)
  {
    assert Rooted(req, web, s.log, job);
    parent :| parent in s.log && parent.depth + 1 == job.depth && req.Edge(web, parent.url, job.url);
    assert parent in All(s);
  }

  lemma {:induction false} PathTo(req: Request, web: Web, s: State, job: Job) returns (path: seq<Url>)
    requires Inv(req, web, s) && job in s.found
    ensures IsPath(req, web, path) && Last(path) == job.url && |path| == job.depth + 1
    decreases job.depth
  {
    if job == Job(req.seed, 0) {
      path := [req.seed];
    } else {
      var parent := ParentOf(req, web, s, job);
      var prefix := PathTo(req, web, s, parent);
      ExtendPath(req, web, prefix, job.url);
      path := prefix + [job.url];
    }
  }

  /** Whatever the concurrency and the schedule, every job that was ever
    * enqueued was enqueued at a depth at which a real path reaches it. */
  lemma RecordedDepthIsARealPath(req: Request, web: Web, run: seq<State>, job: Job) returns (path: seq<Url>)
    requires IsRun(req, web, run) && job in Last(run).found
    ensures IsPath(req, web, path) && Last(path) == job.url && |path| == job.depth + 1
    ensures req.DepthAllows(job.depth)
  {
    InvHolds(req, web, run);
    path := PathTo(req, web, Last(run), job);
    assert Rooted(req, web, Last(run).log, job);
  }

  // ----- completeness -----

  /** Two jobs with the same key are the same job. */
  lemma OneJobPerKey(req: Request, jobs: seq<Job>, j: Job, k: Job)
    requires KeysDistinct(req, jobs) && j in jobs && k in jobs && req.Key(j.url) == req.Key(k.url)
    ensures j == k
  {
    var a :| 0 <= a < |jobs| && jobs[a] == j;
    var b :| 0 <= b < |jobs| && jobs[b] == k;
  }

  predicate FoundWithin(req: Request, s: State, depth: nat, key: Url) {
    exists job | job in s.found :: req.Key(job.url) == key && job.depth <= depth
  }

  /** A job at depth d has d + 1 distinct pages on the chain that found it. */
  lemma {:induction false} ChainOfKeys(req: Request, web: Web, s: State, job: Job) returns (keys: set<Url>)
    requires Inv(req, web, s) && job in s.found
    ensures |keys| == job.depth + 1
    ensures forall k | k in keys :: FoundWithin(req, s, job.depth, k)
    decreases job.depth
  {
    if job == Job(req.seed, 0) {
      keys := {req.Key(job.url)};
      assert FoundWithin(req, s, 0, req.Key(job.url));
    } else {
      var parent := ParentOf(req, web, s, job);
      var above := ChainOfKeys(req, web, s, parent);
      keys := ExtendChain(req, s, parent.depth, job, above);
    }
  }

  lemma NotAbove(req: Request, s: State, depth: nat, job: Job)
    requires KeysDistinct(req, s.found) && job in s.found && depth < job.depth
    ensures !FoundWithin(req, s, depth, req.Key(job.url))
  {
    forall j | j in s.found && req.Key(j.url) == req.Key(job.url) ensures j == job {
      OneJobPerKey(req, s.found, j, job);
    }
  }

  lemma ExtendChain(req: Request, s: State, depth: nat, job: Job, above: set<Url>) returns (keys: set<Url>)
    requires KeysDistinct(req, s.found) && job in s.found && depth < job.depth
    requires forall k | k in above :: FoundWithin(req, s, depth, k)
    ensures |keys| == |above| + 1
    ensures forall k | k in keys :: FoundWithin(req, s, job.depth, k)
  {
    NotAbove(req, s, depth, job);
    keys := above + {req.Key(job.url)};
    forall k | k in above ensures FoundWithin(req, s, job.depth, k) {
      assert FoundWithin(req, s, depth, k);
    }
  }

  lemma FoundIsReachable(req: Request, web: Web, s: State, job: Job)
    requires Inv(req, web, s) && job in s.found
    ensures Reachable(req, web, req.Key(job.url))
  {
    var path := PathTo(req, web, s, job);
  }

  lemma DepthsStayBelowLimit(req: Request, web: Web, universe: set<Url>, s: State, job: Job)
    requires Inv(req, web, s) && job in s.found && DepthUnlimited(req, web, universe)
    ensures job.depth < req.MaxDepth()
  {
    var keys := ChainOfKeys(req, web, s, job);
    forall k | k in keys ensures k in universe {
      assert FoundWithin(req, s, job.depth, k);
      var j :| j in s.found && req.Key(j.url) == k;
      FoundIsReachable(req, web, s, j);
    }
    SubsetIsSmaller(keys, universe);
  }

  lemma {:induction false} SubsetIsSmaller<T>(a: set<T>, b: set<T>)
    requires a <= b
    ensures |a| <= |b|
    ensures |a| == |b| ==> a == b
  {
    assert b == a + (b - a);
    assert |b| == |a| + |b - a|;
  }

  predicate Drained(s: State) {
    s.queue == [] && s.inflight == []
  }

  lemma LinkIsVisited(req: Request, web: Web, universe: set<Url>, s: State, u: Url, v: Url)
    requires Inv(req, web, s) && Drained(s) && KeyRespecting(req, web) && DepthUnlimited(req, web, universe)
    requires req.Key(u) in s.visited && req.Edge(web, u, v)
    ensures req.Key(v) in s.visited
  {
    hide DepthUnlimited, Rooted;
    assert s.visited == KeySet(req, s.found) && All(s) == s.log;
    var job :| job in s.found && req.Key(job.url) == req.Key(u);
    DepthsStayBelowLimit(req, web, universe, s, job);
    assert Expanded(req, web, s.visited, job) && req.Edge(web, job.url, v);
  }

  lemma {:induction false} PathIsVisited(req: Request, web: Web, universe: set<Url>, s: State, path: seq<Url>)
    requires Inv(req, web, s) && Drained(s) && KeyRespecting(req, web) && DepthUnlimited(req, web, universe)
    requires IsPath(req, web, path)
    ensures req.Key(Last(path)) in s.visited
  {
    hide DepthUnlimited, Rooted, KeysDistinct;
    if |path| == 1 {
      assert Start(req).found[0] in s.found;
    } else {
      var prefix := path[..|path| - 1];
      assert IsPath(req, web, prefix);
      PathIsVisited(req, web, universe, s, prefix);
      assert req.Edge(web, path[|path| - 2], path[|path| - 2 + 1]);
      LinkIsVisited(req, web, universe, s, Last(prefix), Last(path));
    }
  }

  /** If the queue drains, the visited keys are exactly the reachable ones. */
  lemma DrainedCrawlIsComplete(req: Request, web: Web, universe: set<Url>, run: seq<State>)
    requires IsRun(req, web, run) && Drained(Last(run))
    requires KeyRespecting(req, web) && DepthUnlimited(req, web, universe)
    ensures forall key :: key in Last(run).visited <==> Reachable(req, web, key)
    ensures KeySet(req, Last(run).log) == Last(run).visited
  {
    var s := Last(run);
    InvHolds(req, web, run);
    assert All(s) == s.log;
    forall key | key in s.visited ensures Reachable(req, web, key) {
      var job :| job in s.found && req.Key(job.url) == key;
      FoundIsReachable(req, web, s, job);
    }
    forall key | Reachable(req, web, key) ensures key in s.visited {
      var path :| IsPath(req, web, path) && req.Key(Last(path)) == key;
      PathIsVisited(req, web, universe, s, path);
    }
  }

  // ----- how many pages come back -----

  /** The keys of the completed requests that answered. */
  function ScrapedKeys(req: Request, web: Web, log: seq<Job>): set<Url> {
    set job | job in log && web(job.url).Some? :: req.Key(job.url)
  }

  lemma {:induction false} OnePagePerScrapedKey(req: Request, web: Web, log: seq<Job>)
    requires KeysDistinct(req, log)
    ensures |Pages(web, log)| == |ScrapedKeys(req, web, log)|
  {
    hide ScrapedKeys;
    if log == [] {
      assert ScrapedKeys(req, web, []) == {} by { NothingScraped(req, web); }
    } else {
      var before := log[..|log| - 1];
      assert log == before + [Last(log)];
      OnePagePerScrapedKey(req, web, before);
      ScrapedOneMore(req, web, before, Last(log));
    }
  }

  lemma NothingScraped(req: Request, web: Web)
    ensures ScrapedKeys(req, web, []) == {}
  {
  }

  lemma ScrapedOneMore(req: Request, web: Web, log: seq<Job>, job: Job)
    requires KeysDistinct(req, log + [job])
    ensures var keys := ScrapedKeys(req, web, log);
      && ScrapedKeys(req, web, log + [job]) == keys + (if web(job.url).Some? then {req.Key(job.url)} else {})
      && req.Key(job.url) !in keys
  {
    var all := log + [job];
    assert all[|log|] == job;
    forall j | j in log ensures req.Key(j.url) != req.Key(job.url) {
      var a :| 0 <= a < |log| && log[a] == j;
      assert all[a] == j;
    }
    assert forall j :: j in all <==> j in log || j == job;
  }

  function Min(a: nat, b: nat): nat {
    if a <= b then a else b
  }

  ghost function ScrapableKeys(req: Request, web: Web, universe: set<Url>): set<Url> {
    set key | key in universe && Scrapable(req, web, key)
  }

  lemma ScrapedKeysAreScrapable(req: Request, web: Web, universe: set<Url>, s: State)
    requires Inv(req, web, s) && DepthUnlimited(req, web, universe)
    ensures ScrapedKeys(req, web, s.log) <= ScrapableKeys(req, web, universe)
    ensures |s.collected| == |ScrapedKeys(req, web, s.log)|
  {
    assert s.log <= All(s);
    OnePagePerScrapedKey(req, web, s.log);
    forall key | key in ScrapedKeys(req, web, s.log) ensures key in ScrapableKeys(req, web, universe) {
      var job :| job in s.log && web(job.url).Some? && req.Key(job.url) == key;
      assert job in All(s);
      var path := PathTo(req, web, s, job);
      assert Reachable(req, web, key) && Scrapable(req, web, key);
    }
  }

  lemma DrainedCrawlScrapesAll(req: Request, web: Web, universe: set<Url>, run: seq<State>)
    requires IsRun(req, web, run) && Drained(Last(run))
    requires KeyRespecting(req, web) && DepthUnlimited(req, web, universe)
    ensures ScrapedKeys(req, web, Last(run).log) == ScrapableKeys(req, web, universe)
  {
    var s := Last(run);
    InvHolds(req, web, run);
    ScrapedKeysAreScrapable(req, web, universe, s);
    DrainedCrawlIsComplete(req, web, universe, run);
    forall key | key in ScrapableKeys(req, web, universe) ensures key in ScrapedKeys(req, web, s.log) {
      var path :| IsPath(req, web, path) && req.Key(Last(path)) == key && web(Last(path)).Some?;
      assert Reachable(req, web, key);
      var job :| job in s.log && req.Key(job.url) == key;
    }
  }

  /** Every finished crawl returns min(limit, scrapable pages) pages, and all
    * of them when the limit is not hit. */
  lemma CrawlCount(req: Request, web: Web, universe: set<Url>, run: seq<State>)
    requires IsRun(req, web, run) && Finished(req, Last(run))
    requires KeyRespecting(req, web) && DepthUnlimited(req, web, universe)
    ensures var scrapable := ScrapableKeys(req, web, universe);
      && |Last(run).collected| == Min(|scrapable|, req.Limit())
      && (|scrapable| <= req.Limit() ==> ScrapedKeys(req, web, Last(run).log) == scrapable)
  {
    var s, scrapable := Last(run), ScrapableKeys(req, web, universe);
    InvHolds(req, web, run);
    ScrapedKeysAreScrapable(req, web, universe, s);
    SubsetIsSmaller(ScrapedKeys(req, web, s.log), scrapable);
    if |s.collected| < req.Limit() {
      DrainedCrawlScrapesAll(req, web, universe, run);
    }
  }

  // ----- which pages come back -----

  /** Some link path from the seed ends at a page that answers this. */
  ghost predicate ReachablePage(req: Request, web: Web, page: Page) {
    exists path :: IsPath(req, web, path) && web(Last(path)) == Some(page)
  }

  lemma {:induction false} PageHasJob(web: Web, log: seq<Job>, page: Page)
    ensures page in Pages(web, log) <==> exists job | job in log :: web(job.url) == Some(page)
  {
    if log != [] {
      PageHasJob(web, log[..|log| - 1], page);
      assert log == log[..|log| - 1] + [Last(log)];
    }
  }

  /** Under any schedule, limit and depth, only reachable pages come back. */
  lemma CollectedAreReachable(req: Request, web: Web, run: seq<State>, page: Page)
    requires IsRun(req, web, run) && page in Last(run).collected
    ensures ReachablePage(req, web, page)
  {
    InvHolds(req, web, run);
    var s := Last(run);
    PageHasJob(web, s.log, page);
    var job :| job in s.log && web(job.url) == Some(page);
    assert job in All(s);
    var path := PathTo(req, web, s, job);
  }

  /** A crawl that the limit did not stop returns every reachable page. */
  lemma ReachableAreCollected(req: Request, web: Web, universe: set<Url>, run: seq<State>, page: Page)
    requires IsRun(req, web, run) && Drained(Last(run))
    requires KeyRespecting(req, web) && DepthUnlimited(req, web, universe)
    requires ReachablePage(req, web, page)
    ensures page in Last(run).collected
  {
    InvHolds(req, web, run);
    DrainedCrawlIsComplete(req, web, universe, run);
    var s := Last(run);
    var path :| IsPath(req, web, path) && web(Last(path)) == Some(page);
    assert Reachable(req, web, req.Key(Last(path)));
    var job :| job in s.log && req.Key(job.url) == req.Key(Last(path));
    PageHasJob(web, s.log, page);
  }

  /** The number of pages asked for; nobody can ask for none. */
  function PageLimit(req: Request): nat {
    if req.pageLimit == 0 then 1 else req.pageLimit
  }

  /** What the crawl promises of its result, in terms of the site alone: only
    * reachable pages; and, if depth cannot bind, as many as there are up to the
    * limit, and all of them if the limit is not reached. */
  ghost predicate Promised(req: Request, web: Web, collected: seq<Page>) {
    && (forall page | page in collected :: ReachablePage(req, web, page))
    && |collected| <= PageLimit(req)
    && (req.skipDiscovery ==> |collected| <= 1 && forall page | page in collected :: web(req.seed) == Some(page))
    && (KeyRespecting(req, web) ==>
          forall universe | DepthUnlimited(req, web, universe) ::
            && |collected| == Min(|ScrapableKeys(req, web, universe)|, PageLimit(req))
            && (|collected| < PageLimit(req) ==> forall page | ReachablePage(req, web, page) :: page in collected))
  }

  /** Without discovery only the seed is ever requested. */
  lemma SkippedDiscovery(req: Request, web: Web, run: seq<State>)
    requires IsRun(req, web, run) && req.skipDiscovery
    ensures var collected := Last(run).collected;
      |collected| <= 1 && forall page | page in collected :: web(req.seed) == Some(page)
  {
    InvHolds(req, web, run);
    var s := Last(run);
    forall job | job in s.log ensures job.url == req.seed {
      assert job in All(s);
      var path := PathTo(req, web, s, job);
      assert |path| > 1 ==> req.Edge(web, path[0], path[0 + 1]);
    }
    forall page | page in s.collected ensures web(req.seed) == Some(page) {
      PageHasJob(web, s.log, page);
    }
    assert s.log <= All(s);
    OnePagePerScrapedKey(req, web, s.log);
    SubsetIsSmaller(ScrapedKeys(req, web, s.log), {req.Key(req.seed)});
  }

  lemma FinishedCrawlIsPromised(req: Request, web: Web, run: seq<State>)
    requires IsRun(req, web, run) && Finished(req, Last(run))
    ensures Promised(req, web, Last(run).collected)
  {
    var s := Last(run);
    InvHolds(req, web, run);
    forall page | page in s.collected ensures ReachablePage(req, web, page) {
      CollectedAreReachable(req, web, run, page);
    }
    if req.skipDiscovery {
      SkippedDiscovery(req, web, run);
    }
    if KeyRespecting(req, web) {
      forall universe | DepthUnlimited(req, web, universe)
        ensures |s.collected| == Min(|ScrapableKeys(req, web, universe)|, req.Limit())
        ensures |s.collected| < req.Limit() ==> forall page | ReachablePage(req, web, page) :: page in s.collected
      {
        CrawlCount(req, web, universe, run);
        if |s.collected| < req.Limit() {
          forall page | ReachablePage(req, web, page) ensures page in s.collected {
            ReachableAreCollected(req, web, universe, run, page);
          }
        }
      }
    }
  }

  /** Schedule independence: two finished crawls of the same site, under any
    * two concurrency settings and any two completion orders, return equally
    * many pages; and the same pages whenever the limit leaves room for all. */
  lemma ScheduleIndependence(req: Request, concurrency: Option<nat>, web: Web, universe: set<Url>,
                             run: seq<State>, run': seq<State>)
    requires IsRun(req, web, run) && Finished(req, Last(run))
    requires var req' := req.(maxConcurrency := concurrency); IsRun(req', web, run') && Finished(req', Last(run'))
    requires KeyRespecting(req, web) && DepthUnlimited(req, web, universe)
    ensures |Last(run).collected| == |Last(run').collected|
    ensures |Last(run).collected| < req.Limit() ==>
      ScrapedKeys(req, web, Last(run).log) == ScrapedKeys(req, web, Last(run').log)
  {
    var req' := req.(maxConcurrency := concurrency);
    SamePaths(req, req', web);
    assert KeyRespecting(req', web) && DepthUnlimited(req', web, universe);
    assert ScrapableKeys(req, web, universe) == ScrapableKeys(req', web, universe);
    CrawlCount(req, web, universe, run);
    CrawlCount(req', web, universe, run');
    assert ScrapedKeys(req, web, Last(run').log) == ScrapedKeys(req', web, Last(run').log);
  }

  /** Concurrency does not enter into reachability. */
  lemma SamePaths(req: Request, req': Request, web: Web)
    requires req' == req.(maxConcurrency := req'.maxConcurrency)
    ensures forall url :: req.Key(url) == req'.Key(url)
    ensures forall path :: IsPath(req, web, path) <==> IsPath(req', web, path)
    ensures forall key :: Reachable(req, web, key) <==> Reachable(req', web, key)
    ensures forall key :: Scrapable(req, web, key) <==> Scrapable(req', web, key)
  {
    assert forall u, v :: req.Edge(web, u, v) <==> req'.Edge(web, u, v);
    forall path ensures IsPath(req, web, path) <==> IsPath(req', web, path) {
    }
    forall key ensures Reachable(req, web, key) <==> Reachable(req', web, key) {
    }
  }

  // ----- termination -----

  /** Every step lowers (pages still wanted, work in hand), in that order, for
    * every web: no finite-universe assumption is needed. */
  lemma StepsTerminate(req: Request, web: Web, s: State, s': State)
    requires Step(req, web, s, s')
    ensures |s'.collected| <= |s.collected| + 1
    ensures |s'.collected| > |s.collected|
      || (|s'.collected| == |s.collected| && 2 * |s'.queue| + |s'.inflight| < 2 * |s.queue| + |s.inflight|)
  {
  }
}
