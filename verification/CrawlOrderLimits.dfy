/** What the number of concurrent requests costs, exactly: the order of the
  * results, shortest depths and full coverage of a depth limit are kept if and
  * only if it is one, and completions stray as far as it allows. */
module CrawlOrderLimits {
  import opened Wrappers
  import opened Scope
  import opened Crawl
  import opened CrawlResults
  import CrawlOrder
  import CrawlEngine

  /** Every finished crawl of every site with `c` requests at a time returns its
    * pages in the order it discovered them. */
  ghost predicate ReturnsInOrder(c: nat) {
    forall req: Request, web: Web, run: seq<State> |
      req.Concurrency() == c && KeyRespecting(req, web) && IsRun(req, web, run) && Finished(req, Last(run)) ::
      CrawlOrder.ResultsInOrder(web, Last(run))
  }

  /** In every crawl with `c` requests at a time each request completes fewer
    * than k places from where it was discovered. */
  ghost predicate CompletesWithin(c: nat, k: nat) {
    forall req: Request, web: Web, run: seq<State> | req.Concurrency() == c && IsRun(req, web, run) ::
      AllNear(Last(run), k)
  }

  predicate AllNear(s: State, k: nat) {
    forall i | 0 <= i < |s.log| :: CrawlOrder.NearItsPlace(s.found, s.log[i], k, i)
  }

  /** Every drained crawl of every site with `c` requests at a time has requested
    * exactly the pages within its depth limit. */
  ghost predicate CoversDepth(c: nat) {
    forall req: Request, web: Web, run: seq<State> |
      req.Concurrency() == c && KeyRespecting(req, web) && IsRun(req, web, run) && Drained(Last(run)) ::
      ReachesDepth(req, web, Last(run))
  }

  ghost predicate ReachesDepth(req: Request, web: Web, s: State) {
    forall key :: key in KeySet(req, s.log) <==> CrawlOrder.WithinDepth(req, web, key)
  }

  /** Every crawl of every site with `c` requests at a time records shortest distances. */
  ghost predicate RecordsShortestDepths(c: nat) {
    forall req: Request, web: Web, run: seq<State> | req.Concurrency() == c && KeyRespecting(req, web) && IsRun(req, web, run) ::
      ShortestDepths(req, web, Last(run))
  }

  ghost predicate ShortestDepths(req: Request, web: Web, s: State) {
    forall job, path | job in s.found && IsPath(req, web, path) && req.Key(Last(path)) == req.Key(job.url) ::
      job.depth <= |path| - 1
  }

  // ----- sites that defeat every larger batch size -----

  function U(n: nat): Url {
    Url("https", "", Some("site"), None, seq(n, _ => 'x'), None, None)
  }

  lemma DistinctPages(m: nat, n: nat)
    ensures U(m) == U(n) <==> m == n
  {
    assert |U(m).path| == m && |U(n).path| == n;
  }

  function Links(lo: nat, hi: nat): seq<Option<Url>>
    decreases hi - lo
  {
    if lo >= hi then [] else [Some(U(lo))] + Links(lo + 1, hi)
  }

  function Jobs(lo: nat, hi: nat, depth: u32): seq<Job>
    decreases hi - lo
  {
    if lo >= hi then [] else [Job(U(lo), depth)] + Jobs(lo + 1, hi, depth)
  }

  lemma JobsShape(lo: nat, hi: nat, depth: u32)
    requires lo <= hi
    ensures |Jobs(lo, hi, depth)| == hi - lo
    ensures forall i | 0 <= i < hi - lo :: (Jobs(lo, hi, depth)[i] == Job(U(lo + i), depth))
    decreases hi - lo
  {
    if lo < hi {
      JobsShape(lo + 1, hi, depth);
      var rest := Jobs(lo + 1, hi, depth);
      forall i | 0 <= i < hi - lo ensures Jobs(lo, hi, depth)[i] == Job(U(lo + i), depth) {
        if i > 0 { assert Jobs(lo, hi, depth)[i] == rest[i - 1]; }
      }
    }
  }

  /** Page 0 links to pages 1 .. c+1; page 1 links to page c+2, both page c+1
    * and page c+2 link to page c+3, and that to page c+4; nothing else answers. */
  function Site(c: nat): Web {
    (url: Url) =>
      var page := url.(fragment := None);
      if page == U(0) then Some(Page("", Links(1, c + 2)))
      else if page == U(1) then Some(Page("", [Some(U(c + 2))]))
      else if page == U(c + 1) || page == U(c + 2) then Some(Page("", [Some(U(c + 3))]))
      else if page == U(c + 3) then Some(Page("", [Some(U(c + 4))]))
      else None
  }

  /** Page 0 links to pages 1 and 2, which answer differently. */
  function Fork(): Web {
    (url: Url) =>
      var page := url.(fragment := None);
      if page == U(0) then Some(Page("", Links(1, 3)))
      else if page == U(1) then Some(Page("1", []))
      else if page == U(2) then Some(Page("2", []))
      else None
  }

  function Visit(c: nat): Request {
    Request(U(0), false, [], [], false, true, false, Some(3), 10, Some(c))
  }

  lemma {:induction false} DiscoverFan(req: Request, lo: nat, hi: nat, depth: u32, visited: set<Url>)
    requires req.allowExternal && req.includes == [] && req.excludes == [] && !req.ignoreQuery
    requires forall n | lo <= n < hi :: U(n) !in visited
    ensures Discover(req, Links(lo, hi), depth, visited) == Jobs(lo, hi, depth)
    decreases hi - lo
  {
    if lo < hi {
      forall n | lo + 1 <= n < hi ensures U(n) !in visited + {U(lo)} { DistinctPages(n, lo); }
      DiscoverFan(req, lo + 1, hi, depth, visited + {U(lo)});
      assert Links(lo, hi)[1..] == Links(lo + 1, hi);
      assert req.Admissible(U(lo)) && req.Key(U(lo)) == U(lo);
    }
  }

  lemma OneStep(req: Request, web: Web, run: seq<State>, i: nat) returns (run': seq<State>)
    requires IsRun(req, web, run) && |Last(run).collected| < req.Limit() && i < |Last(run).inflight|
    ensures IsRun(req, web, run') && Last(run') == Complete(req, web, Last(run), i)
  {
    run' := run + [Complete(req, web, Last(run), i)];
    CrawlEngine.ExtendRun(req, web, run, Last(run'));
  }

  lemma OneLaunch(req: Request, web: Web, run: seq<State>) returns (run': seq<State>)
    requires IsRun(req, web, run) && |Last(run).collected| < req.Limit()
    requires Last(run).inflight == [] && Last(run).queue != []
    ensures IsRun(req, web, run') && Last(run') == LaunchBatch(req, Last(run))
  {
    run' := run + [LaunchBatch(req, Last(run))];
    CrawlEngine.ExtendRun(req, web, run, Last(run'));
  }

  function FanState(c: nat, queue: seq<Job>, inflight: seq<Job>): State {
    var seed := Job(U(0), 0);
    State({U(0)} + KeySet(Visit(c), Jobs(1, c + 2, 1)), queue, inflight,
          [Page("", Links(1, c + 2))], [seed] + Jobs(1, c + 2, 1), [seed])
  }

  lemma SeedFansOut(c: nat)
    ensures Complete(Visit(c), Site(c), State({U(0)}, [], [Job(U(0), 0)], [], [Job(U(0), 0)], []), 0)
         == FanState(c, Jobs(1, c + 2, 1), [])
  {
    hide Discover, Links, Jobs, KeySet;
    forall n | 1 <= n < c + 2 ensures U(n) !in {U(0)} { DistinctPages(n, 0); }
    DiscoverFan(Visit(c), 1, c + 2, 1, {U(0)});
    var s' := Complete(Visit(c), Site(c), State({U(0)}, [], [Job(U(0), 0)], [], [Job(U(0), 0)], []), 0);
    assert s'.queue == [] + Jobs(1, c + 2, 1) == Jobs(1, c + 2, 1);
    assert s'.inflight == [];
  }

  lemma FanSplits(c: nat)
    requires c >= 2
    ensures var queue := Jobs(1, c + 2, 1);
      |queue| == c + 1 && queue[..c] == Jobs(1, c + 1, 1) && queue[c..] == [Job(U(c + 1), 1)]
  {
    JobsShape(1, c + 2, 1);
    JobsShape(1, c + 1, 1);
  }

  lemma FanLaunches(c: nat)
    requires c >= 2
    ensures LaunchBatch(Visit(c), FanState(c, Jobs(1, c + 2, 1), [])) == FanState(c, [Job(U(c + 1), 1)], Jobs(1, c + 1, 1))
  {
    FanSplits(c);
    assert Visit(c).Concurrency() == c;
    assert [] + Jobs(1, c + 1, 1) == Jobs(1, c + 1, 1);
  }

  /** The seed and its links: the queue holds pages 1 .. c+1, and the first c
    * of them are launched. */
  lemma FirstBatch(c: nat) returns (run: seq<State>)
    requires c >= 2
    ensures IsRun(Visit(c), Site(c), run)
    ensures Last(run) == FanState(c, [Job(U(c + 1), 1)], Jobs(1, c + 1, 1))
  {
    var req, web := Visit(c), Site(c);
    run := [Start(req)];
    assert req.Key(req.seed) == U(0);
    run := OneLaunch(req, web, run);
    assert Last(run) == State({U(0)}, [], [Job(U(0), 0)], [], [Job(U(0), 0)], []);
    SeedFansOut(c);
    run := OneStep(req, web, run, 0);
    JobsShape(1, c + 2, 1);
    FanLaunches(c);
    run := OneLaunch(req, web, run);
  }

  /** The seed alone is in flight. */
  lemma SeedLaunches(c: nat, web: Web) returns (run: seq<State>)
    requires c >= 1
    ensures IsRun(Visit(c), web, run) && Last(run) == State({U(0)}, [], [Job(U(0), 0)], [], [Job(U(0), 0)], [])
  {
    var req := Visit(c);
    run := [Start(req)];
    assert req.Key(req.seed) == U(0);
    run := OneLaunch(req, web, run);
  }

  lemma ForkDiscovers(c: nat)
    ensures var s := State({U(0)}, [], [Job(U(0), 0)], [], [Job(U(0), 0)], []);
      NewJobs(Visit(c), Fork(), s, Job(U(0), 0)) == [Job(U(1), 1), Job(U(2), 1)]
  {
    hide Discover, Links, Fork;
    ForkAnswers();
    forall n | 1 <= n < 3 ensures U(n) !in {U(0)} { DistinctPages(n, 0); }
    DiscoverFan(Visit(c), 1, 3, 1, {U(0)});
    assert Jobs(1, 3, 1) == [Job(U(1), 1), Job(U(2), 1)];
  }

  /** Both pages of the fork are in flight, the seed's page is collected. */
  lemma ForkOpens(c: nat) returns (run: seq<State>)
    requires c >= 2
    ensures IsRun(Visit(c), Fork(), run)
    ensures var s := Last(run);
      && s.queue == [] && s.inflight == [Job(U(1), 1), Job(U(2), 1)] && s.collected == [Page("", Links(1, 3))]
      && s.found == [Job(U(0), 0), Job(U(1), 1), Job(U(2), 1)]
  {
    hide NewJobs, Links, Fork, U, KeySet;
    ForkAnswers();
    ForkDiscovers(c);
    var req, web := Visit(c), Fork();
    run := SeedLaunches(c, web);
    run := OneStep(req, web, run, 0);
    assert Last(run).queue == [Job(U(1), 1), Job(U(2), 1)] && Last(run).inflight == [];
    run := OneLaunch(req, web, run);
    assert Last(run).inflight == [Job(U(1), 1), Job(U(2), 1)];
  }

  lemma ForkAnswers()
    ensures Fork()(U(0)) == Some(Page("", Links(1, 3))) && Fork()(U(1)) == Some(Page("1", [])) && Fork()(U(2)) == Some(Page("2", []))
  {
    DistinctPages(0, 1);
    DistinctPages(0, 2);
    DistinctPages(1, 2);
  }

  /** When the second page of the fork answers first, the crawl returns the two
    * in the wrong order. */
  lemma BatchesBreakOrder(c: nat) returns (run: seq<State>)
    requires c >= 2
    ensures IsRun(Visit(c), Fork(), run) && Drained(Last(run))
    ensures Last(run).collected == [Page("", Links(1, 3)), Page("2", []), Page("1", [])]
    ensures !CrawlOrder.ResultsInOrder(Fork(), Last(run))
  {
    hide Links, Fork, U;
    ForkAnswers();
    run := ForkOpens(c);
    run := OneStep(Visit(c), Fork(), run, 1);
    assert Last(run).inflight == [Job(U(1), 1)] && Last(run).found == [Job(U(0), 0), Job(U(1), 1), Job(U(2), 1)];
    run := OneStep(Visit(c), Fork(), run, 0);
    assert Last(run).found == [Job(U(0), 0), Job(U(1), 1), Job(U(2), 1)];
    ForkInOrder();
    var pages := [Page("", Links(1, 3)), Page("1", []), Page("2", [])];
    forall k | 0 <= k <= 3 ensures Last(run).collected != Pages(Fork(), Last(run).found[..k]) {
      assert Pages(Fork(), Last(run).found[..k]) == pages[..k];
      assert k == 3 ==> pages[..k][1] == Page("1", []) && Last(run).collected[1] == Page("2", []);
    }
  }

  /** In discovery order page 1 comes before page 2. */
  lemma ForkInOrder()
    ensures var found, pages := [Job(U(0), 0), Job(U(1), 1), Job(U(2), 1)], [Page("", Links(1, 3)), Page("1", []), Page("2", [])];
      forall k | 0 <= k <= 3 :: Pages(Fork(), found[..k]) == pages[..k]
  {
    hide Links, Fork, U, Pages;
    var web, none := Fork(), [];
    ForkAnswers();
    assert Pages(web, none) == [] by { PagesOfNone(web); }
    PagesAppend(web, none, Job(U(0), 0));
    PagesAppend(web, [Job(U(0), 0)], Job(U(1), 1));
    PagesAppend(web, [Job(U(0), 0), Job(U(1), 1)], Job(U(2), 1));
    var found, pages := [Job(U(0), 0), Job(U(1), 1), Job(U(2), 1)], [Page("", Links(1, 3)), Page("1", []), Page("2", [])];
    assert found[..0] == none && found[..1] == none + [Job(U(0), 0)];
    assert found[..2] == [Job(U(0), 0)] + [Job(U(1), 1)];
    assert found[..3] == [Job(U(0), 0), Job(U(1), 1)] + [Job(U(2), 1)];
    assert [Job(U(0), 0)] == none + [Job(U(0), 0)] && [Job(U(0), 0), Job(U(1), 1)] == [Job(U(0), 0)] + [Job(U(1), 1)];
  }

  lemma PagesOfNone(web: Web)
    ensures Pages(web, []) == []
  {
  }

  lemma PagesAppend(web: Web, log: seq<Job>, job: Job)
    ensures Pages(web, log + [job]) == Pages(web, log) + Answer(web, job)
  {
    assert (log + [job])[..|log|] == log;
  }

  /** A job discovered at place j that completes at place i has strayed by j - i. */
  lemma Strays(req: Request, web: Web, run: seq<State>, i: nat, j: nat, k: nat)
    requires IsRun(req, web, run) && i < |Last(run).log| && j < |Last(run).found|
    requires Last(run).found[j] == Last(run).log[i] && j >= i + k
    ensures !AllNear(Last(run), k)
  {
    InvHolds(req, web, run);
    var s := Last(run);
    assert !CrawlOrder.NearItsPlace(s.found, s.log[i], k, i);
  }

  /** When the last page of the first batch answers first, it completes c - 1
    * places early. */
  lemma BatchesStrayFar(c: nat, k: nat) returns (run: seq<State>)
    requires k < c
    ensures IsRun(Visit(c), Site(c), run) && !AllNear(Last(run), k)
  {
    hide Discover, Links, Jobs, KeySet, Site, NewJobs, Answer;
    var req, web := Visit(c), Site(c);
    if c == 1 {
      run := OneLaunch(req, web, [Start(req)]);
      run := OneStep(req, web, run, 0);
      assert Last(run).log == [] + [Job(U(0), 0)];
      Strays(req, web, run, 0, 0, k);
    } else {
      run := FirstBatch(c);
      JobsShape(1, c + 1, 1);
      JobsShape(1, c + 2, 1);
      run := OneStep(req, web, run, c - 1);
      assert Last(run).log[1] == Job(U(c), 1) == Last(run).found[c];
      Strays(req, web, run, 1, c, k);
    }
  }

  /** Pages 2 .. c do not answer; completing them changes nothing but the log. */
  lemma {:induction false} CompleteDeadPages(c: nat, lo: nat, run: seq<State>) returns (run': seq<State>)
    requires IsRun(Visit(c), Site(c), run) && |Last(run).collected| < 10
    requires 2 <= lo <= c + 1 && Last(run).inflight == Jobs(lo, c + 1, 1)
    ensures IsRun(Visit(c), Site(c), run')
    ensures Last(run') == Last(run).(inflight := [], log := Last(run').log)
    decreases c - lo
  {
    if lo == c + 1 {
      run' := run;
    } else {
      forall n | n in {0, 1, c + 1, c + 2, c + 3} ensures U(lo) != U(n) { DistinctPages(lo, n); }
      assert Site(c)(U(lo)) == None;
      var next := OneStep(Visit(c), Site(c), run, 0);
      assert Last(next).inflight == Jobs(lo + 1, c + 1, 1);
      assert Last(next).visited == Last(run).visited;
      run' := CompleteDeadPages(c, lo + 1, next);
    }
  }

  /** Completing a page with one link, to an unvisited page, queues that page. */
  lemma FollowOneLink(c: nat, s: State, i: nat, n: nat)
    requires i < |s.inflight| && s.inflight[i].depth < 3 && U(n) !in s.visited
    requires Site(c)(s.inflight[i].url) == Some(Page("", [Some(U(n))]))
    ensures var s', job := Complete(Visit(c), Site(c), s, i), Job(U(n), s.inflight[i].depth + 1);
      && s'.queue == s.queue + [job] && s'.found == s.found + [job] && s'.visited == s.visited + {U(n)}
      && s'.inflight == s.inflight[..i] + s.inflight[i + 1..] && |s'.collected| == |s.collected| + 1
  {
    var req, depth := Visit(c), s.inflight[i].depth + 1;
    DiscoverFan(req, n, n + 1, depth, s.visited);
    assert Links(n, n + 1) == [Some(U(n))] && Jobs(n, n + 1, depth) == [Job(U(n), depth)];
    assert KeySet(req, [Job(U(n), depth)]) == {U(n)} by { assert Job(U(n), depth) in [Job(U(n), depth)]; }
  }

  lemma SitePages(c: nat)
    requires c >= 2
    ensures Site(c)(U(1)) == Some(Page("", [Some(U(c + 2))]))
    ensures Site(c)(U(c + 1)) == Site(c)(U(c + 2)) == Some(Page("", [Some(U(c + 3))]))
    ensures Site(c)(U(c + 3)) == Some(Page("", [Some(U(c + 4))]))
    ensures U(c + 3) != U(c + 2) && U(c + 4) != U(c + 2) && U(c + 4) != U(c + 3)
    ensures forall n | n in {c + 2, c + 3, c + 4} :: U(n) !in {U(0)} + KeySet(Visit(c), Jobs(1, c + 2, 1))
  {
    forall m, n | m in {0, 1, c + 1, c + 2, c + 3, c + 4} && n in {0, 1, c + 1, c + 2, c + 3, c + 4} && m != n
      ensures U(m) != U(n) { DistinctPages(m, n); }
    JobsShape(1, c + 2, 1);
    forall n, j | n in {c + 2, c + 3, c + 4} && j in Jobs(1, c + 2, 1) ensures j.url != U(n) {
      var i :| 0 <= i < c + 1 && Jobs(1, c + 2, 1)[i] == j;
      DistinctPages(1 + i, n);
    }
  }

  /** The first batch completes, page 1 first, leaving page c+1 (one link from
    * the seed) and page c+2 (two links) for the second batch. */
  lemma SecondBatch(c: nat) returns (run: seq<State>)
    requires c >= 2
    ensures IsRun(Visit(c), Site(c), run) && |Last(run).collected| == 2
    ensures Last(run).inflight == [Job(U(c + 1), 1), Job(U(c + 2), 2)] && Last(run).queue == []
    ensures U(c + 3) !in Last(run).visited && U(c + 4) !in Last(run).visited
  {
    var req, web := Visit(c), Site(c);
    SitePages(c);
    run := FirstBatch(c);
    FollowOneLink(c, Last(run), 0, c + 2);
    run := OneStep(req, web, run, 0);
    assert Last(run).inflight == Jobs(2, c + 1, 1);
    run := CompleteDeadPages(c, 2, run);
    assert Last(run).queue == [Job(U(c + 1), 1), Job(U(c + 2), 2)];
    run := OneLaunch(req, web, run);
  }

  /** With two or more requests at a time a page two links away is recorded at
    * depth three. */
  lemma BatchesMisrecordDepth(c: nat) returns (run: seq<State>)
    requires c >= 2
    ensures IsRun(Visit(c), Site(c), run) && |Last(run).collected| == 3
    ensures Last(run).inflight == [Job(U(c + 1), 1)] && Last(run).queue == [Job(U(c + 3), 3)]
    ensures U(c + 3) in Last(run).visited && U(c + 4) !in Last(run).visited
    ensures !ShortestDepths(Visit(c), Site(c), Last(run))
  {
    SitePages(c);
    run := SecondBatch(c);
    FollowOneLink(c, Last(run), 1, c + 3);
    run := OneStep(Visit(c), Site(c), run, 1);
    assert Job(U(c + 3), 3) in Last(run).found;
    TwoLinksAway(c);
  }

  /** Page c+3 then counts as too deep to expand, and page c+4, three links from
    * the seed and so within the limit, is never requested. */
  lemma BatchesMissPages(c: nat) returns (run: seq<State>)
    requires c >= 2
    ensures IsRun(Visit(c), Site(c), run) && Drained(Last(run)) && !ReachesDepth(Visit(c), Site(c), Last(run))
  {
    var req, web := Visit(c), Site(c);
    SitePages(c);
    run := BatchesMisrecordDepth(c);
    NothingNew(req, Last(run).visited, U(c + 3), 2);
    run := OneStep(req, web, run, 0);
    assert Last(run).inflight == [] && Last(run).queue == [Job(U(c + 3), 3)];
    run := OneLaunch(req, web, run);
    assert Last(run).inflight == [Job(U(c + 3), 3)] && Last(run).queue == [];
    assert NewJobs(req, web, Last(run), Job(U(c + 3), 3)) == [];
    run := OneStep(req, web, run, 0);
    ThreeLinksAway(c);
    NotVisitedNotRequested(req, web, run, U(c + 4));
  }

  lemma NothingNew(req: Request, visited: set<Url>, url: Url, depth: u32)
    requires req.Key(url) in visited
    ensures Discover(req, [Some(url)], depth, visited) == [] && KeySet(req, []) == {}
  {
    assert [Some(url)][1..] == [];
  }

  lemma NotVisitedNotRequested(req: Request, web: Web, run: seq<State>, key: Url)
    requires IsRun(req, web, run) && key !in Last(run).visited
    ensures key !in KeySet(req, Last(run).log)
  {
    InvHolds(req, web, run);
    assert forall job | job in Last(run).log :: job in All(Last(run));
  }

  lemma ThreeLinksAway(c: nat)
    requires c >= 2
    ensures CrawlOrder.WithinDepth(Visit(c), Site(c), U(c + 4))
  {
    var req, path := Visit(c), [U(0), U(c + 1), U(c + 3), U(c + 4)];
    SitePages(c);
    FanHasLink(1, c + 2, c + 1);
    assert req.Admissible(path[1]) && req.Admissible(path[2]) && req.Admissible(path[3]);
    assert req.Edge(Site(c), path[0], path[1]) && req.Edge(Site(c), path[1], path[2]) && req.Edge(Site(c), path[2], path[3]);
    assert IsPath(req, Site(c), path);
  }

  lemma TwoLinksAway(c: nat)
    requires c >= 2
    ensures IsPath(Visit(c), Site(c), [U(0), U(c + 1), U(c + 3)])
  {
    var req, path := Visit(c), [U(0), U(c + 1), U(c + 3)];
    SitePages(c);
    FanHasLink(1, c + 2, c + 1);
    assert req.Admissible(path[1]) && req.Admissible(path[2]);
    assert req.Edge(Site(c), path[0], path[1]) && req.Edge(Site(c), path[1], path[2]);
  }

  lemma {:induction false} FanHasLink(lo: nat, hi: nat, n: nat)
    requires lo <= n < hi
    ensures Some(U(n)) in Links(lo, hi)
    decreases hi - lo
  {
    if lo < n {
      FanHasLink(lo + 1, hi, n);
    }
  }

  // ----- the exact conditions -----

  /** The documented order of the returned list. */
  lemma ResultOrderIffSerial(c: nat)
    requires c > 0
    ensures ReturnsInOrder(c) <==> c == 1
  {
    if c == 1 {
      forall req: Request, web: Web, run: seq<State> |
        req.Concurrency() == c && KeyRespecting(req, web) && IsRun(req, web, run) && Finished(req, Last(run))
        ensures CrawlOrder.ResultsInOrder(web, Last(run))
      {
        CrawlOrder.SerialCrawlIsBreadthFirst(req, web, run);
      }
    } else {
      var run := BatchesBreakOrder(c);
      assert KeyRespecting(Visit(c), Fork());
    }
  }

  /** Completions stay within k places for every site exactly if k is at least
    * the number of concurrent requests. */
  lemma CompletionBoundIsExact(c: nat, k: nat)
    requires c > 0
    ensures CompletesWithin(c, k) <==> k >= c
  {
    if k >= c {
      forall req: Request, web: Web, run: seq<State> | req.Concurrency() == c && IsRun(req, web, run)
        ensures AllNear(Last(run), k)
      {
        forall i | 0 <= i < |Last(run).log| ensures CrawlOrder.NearItsPlace(Last(run).found, Last(run).log[i], k, i) {
          CrawlOrder.CompletionStaysNear(req, web, run, i);
        }
      }
    } else {
      var run := BatchesStrayFar(c, k);
    }
  }

  /** The cost of wrong depths: pages within the limit are missed. */
  lemma DepthCoverageIffSerial(c: nat)
    requires c > 0
    ensures CoversDepth(c) <==> c == 1
  {
    if c == 1 {
      forall req: Request, web: Web, run: seq<State> |
        req.Concurrency() == c && KeyRespecting(req, web) && IsRun(req, web, run) && Drained(Last(run))
        ensures ReachesDepth(req, web, Last(run))
      {
        CrawlOrder.SerialCrawlCoversDepth(req, web, run);
      }
    } else {
      var run := BatchesMissPages(c);
      assert KeyRespecting(Visit(c), Site(c));
    }
  }

  lemma ShortestDepthsIffSerial(c: nat)
    requires c > 0
    ensures RecordsShortestDepths(c) <==> c == 1
  {
    if c == 1 {
      forall req: Request, web: Web, run: seq<State> | req.Concurrency() == c && KeyRespecting(req, web) && IsRun(req, web, run)
        ensures ShortestDepths(req, web, Last(run))
      {
        forall job, path | job in Last(run).found && IsPath(req, web, path) && req.Key(Last(path)) == req.Key(job.url)
          ensures job.depth <= |path| - 1
        {
          CrawlOrder.SerialDepthIsShortest(req, web, run, job, path);
        }
      }
    } else {
      var run := BatchesMisrecordDepth(c);
      assert KeyRespecting(Visit(c), Site(c));
    }
  }

  // ----- in terms of the request's own setting -----

  /** The documented order is kept for all sites exactly when a request asks for one
    * page at a time, or, which is taken as one, for none. */
  lemma OrderBySetting(setting: Option<nat>)
    ensures (forall req: Request, web: Web, run: seq<State> |
               req.maxConcurrency == setting && KeyRespecting(req, web) && IsRun(req, web, run) && Finished(req, Last(run)) ::
               CrawlOrder.ResultsInOrder(web, Last(run)))
       <==> setting == Some(0) || setting == Some(1)
  {
    var c := Visit(0).(maxConcurrency := setting).Concurrency();
    ResultOrderIffSerial(c);
    if setting == Some(0) || setting == Some(1) {
      forall req: Request, web: Web, run: seq<State> |
        req.maxConcurrency == setting && KeyRespecting(req, web) && IsRun(req, web, run) && Finished(req, Last(run))
        ensures CrawlOrder.ResultsInOrder(web, Last(run))
      {
        CrawlOrder.SerialCrawlIsBreadthFirst(req, web, run);
      }
    } else {
      var run := BatchesBreakOrder(c);
      var req := Visit(c).(maxConcurrency := setting);
      SettingDoesNotMatter(Visit(c), req, Fork(), run);
      assert KeyRespecting(req, Fork()) by { assert KeyRespecting(Visit(c), Fork()); }
    }
  }

  /** A run depends on the setting only through the number of concurrent requests. */
  lemma SettingDoesNotMatter(req: Request, req': Request, web: Web, run: seq<State>)
    requires req' == req.(maxConcurrency := req'.maxConcurrency) && req.Concurrency() == req'.Concurrency()
    requires IsRun(req, web, run)
    ensures IsRun(req', web, run)
  {
    assert Start(req) == Start(req');
    forall i | 0 <= i < |run| - 1 ensures Step(req', web, run[i], run[i + 1]) {
      assert Step(req, web, run[i], run[i + 1]);
      SameStep(req, req', web, run[i], run[i + 1]);
    }
  }

  lemma SameStep(req: Request, req': Request, web: Web, s: State, s': State)
    requires req' == req.(maxConcurrency := req'.maxConcurrency) && req.Concurrency() == req'.Concurrency()
    requires Step(req, web, s, s')
    ensures Step(req', web, s, s')
  {
    if s.inflight != [] {
      var i :| 0 <= i < |s.inflight| && s' == Complete(req, web, s, i);
      SameNewJobs(req, req', web, s, s.inflight[i]);
      assert s' == Complete(req', web, s, i);
    }
  }

  lemma SameNewJobs(req: Request, req': Request, web: Web, s: State, job: Job)
    requires req' == req.(maxConcurrency := req'.maxConcurrency)
    ensures NewJobs(req, web, s, job) == NewJobs(req', web, s, job)
    ensures KeySet(req, NewJobs(req, web, s, job)) == KeySet(req', NewJobs(req, web, s, job))
  {
    if web(job.url).Some? && job.depth < req.MaxDepth() {
      SameDiscover(req, req', web(job.url).value.links, job.depth + 1, s.visited);
    }
  }

  lemma {:induction false} SameDiscover(req: Request, req': Request, links: seq<Option<Url>>, depth: u32, visited: set<Url>)
    requires req' == req.(maxConcurrency := req'.maxConcurrency)
    ensures Discover(req, links, depth, visited) == Discover(req', links, depth, visited)
  {
    if links != [] {
      SameDiscover(req, req', links[1..], depth, visited);
      if links[0].Some? {
        SameDiscover(req, req', links[1..], depth, visited + {req.Key(links[0].value)});
      }
    }
  }

  /** How many requests a setting lets run at a time: five by default. */
  lemma StrayingBySetting(setting: Option<nat>, k: nat)
    ensures (forall req: Request, web: Web, run: seq<State> | req.maxConcurrency == setting && IsRun(req, web, run) ::
               AllNear(Last(run), k))
       <==> k >= match setting case None => 5 case Some(n) => if n == 0 then 1 else n
  {
    var c := match setting case None => 5 case Some(n) => if n == 0 then 1 else n;
    CompletionBoundIsExact(c, k);
    if k >= c {
      forall req: Request, web: Web, run: seq<State> | req.maxConcurrency == setting && IsRun(req, web, run)
        ensures AllNear(Last(run), k)
      {
        assert req.Concurrency() == c;
      }
    } else {
      var run := BatchesStrayFar(c, k);
      SettingDoesNotMatter(Visit(c), Visit(c).(maxConcurrency := setting), Site(c), run);
    }
  }
}
