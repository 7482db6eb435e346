/** The crawl engine as a state machine over its steps.  A step either takes the
  * next batch off the queue or completes one of the requests in flight; which
  * one completes first is open, so a run stands for one schedule.  The web is
  * a function from URLs to answers: no run asks for the same page twice
  * (NoPageIsRequestedTwice), so every sequence of answers is covered. */
module Crawl {
  import opened Wrappers
  import opened Scope

  const U32_MAX: nat := 0xFFFF_FFFF

  type u32 = n: nat | n <= U32_MAX

  /** A scraped page and the links found on it; None is a link that does not parse. */
  datatype Page = Page(content: string, links: seq<Option<Url>>)

  type Web = Url -> Option<Page>

  datatype Request = Request(
    seed: Url,
    ignoreQuery: bool,
    includes: seq<string>,
    excludes: seq<string>,
    allowSubdomains: bool,
    allowExternal: bool,
    skipDiscovery: bool,
    maxDiscoveryDepth: Option<u32>,
    pageLimit: nat,
    maxConcurrency: Option<nat>)
  {
    function Limit(): (n: nat) { if pageLimit == 0 then 1 else pageLimit }

    function Concurrency(): (n: nat) {
      match maxConcurrency
      case None => 5
      case Some(c) => if c == 0 then 1 else c
    }

    /** Pages at distance n from the seed may be requested, as far as depth goes. */
    predicate DepthAllows(n: nat) {
      match maxDiscoveryDepth
      case None => n <= 0xFFFF_FFFF
      case Some(d) => n <= d
    }

    function MaxDepth(): u32 {
      match maxDiscoveryDepth
      case None => U32_MAX
      case Some(d) => d
    }

    function Key(url: Url): Url { NormalizeUrl(url, ignoreQuery) }

    predicate Admissible(url: Url) {
      InScope(seed, url, allowSubdomains, allowExternal) && ShouldVisit(url, includes, excludes)
    }

    /** The page at `from` answers and links to `to`, and the filters let `to` through. */
    predicate Edge(web: Web, from: Url, to: Url) {
      && !skipDiscovery
      && web(from).Some?
      && Some(to) in web(from).value.links
      && Admissible(to)
    }
  }

  /** A URL to scrape, at the depth recorded for it. */
  datatype Job = Job(url: Url, depth: u32)

  /** The loop's variables: `visited` keys, the `queue`, the requests in flight
    * and the pages collected; and two histories, `found` (every job ever
    * enqueued, in that order) and `log` (the jobs completed, in that order). */
  datatype State = State(visited: set<Url>, queue: seq<Job>, inflight: seq<Job>, collected: seq<Page>,
                         found: seq<Job>, log: seq<Job>)

  // ----- the steps -----

  function Start(req: Request): State {
    var job := Job(req.seed, 0);
    State({req.Key(req.seed)}, [job], [], [], [job], [])
  }

  /** The jobs that the links of one page add to the queue. */
  function Discover(req: Request, links: seq<Option<Url>>, depth: u32, visited: set<Url>): (jobs: seq<Job>) {
    if links == [] then []
    else match links[0]
      case None => Discover(req, links[1..], depth, visited)
      case Some(url) =>
        if !req.Admissible(url) || req.Key(url) in visited then Discover(req, links[1..], depth, visited)
        else [Job(url, depth)] + Discover(req, links[1..], depth, visited + {req.Key(url)})
  }

  function KeySet(req: Request, jobs: seq<Job>): set<Url> {
    set job | job in jobs :: req.Key(job.url)
  }

  predicate Finished(req: Request, s: State) {
    |s.collected| >= req.Limit() || (s.queue == [] && s.inflight == [])
  }

  function LaunchBatch(req: Request, s: State): State {
    var n := if req.Concurrency() <= |s.queue| then req.Concurrency() else |s.queue|;
    s.(queue := s.queue[n..], inflight := s.inflight + s.queue[..n])
  }

  /** What completing `job` adds to the queue. */
  function NewJobs(req: Request, web: Web, s: State, job: Job): seq<Job> {
    match web(job.url)
    case None => []
    case Some(page) =>
      if !req.skipDiscovery && job.depth < req.MaxDepth()
      then Discover(req, page.links, job.depth + 1, s.visited) else []
  }

  function Complete(req: Request, web: Web, s: State, i: nat): State
    requires i < |s.inflight|
  {
    var job := s.inflight[i];
    var added := NewJobs(req, web, s, job);
    State(s.visited + KeySet(req, added), s.queue + added, s.inflight[..i] + s.inflight[i + 1..],
          s.collected + Answer(web, job), s.found + added, s.log + [job])
  }

  function Answer(web: Web, job: Job): seq<Page> {
    match web(job.url)
    case None => []
    case Some(page) => [page]
  }

  ghost predicate Step(req: Request, web: Web, s: State, s': State) {
    && |s.collected| < req.Limit()
    && if s.inflight == [] then s.queue != [] && s' == LaunchBatch(req, s)
       else exists i | 0 <= i < |s.inflight| :: s' == Complete(req, web, s, i)
  }

  ghost predicate IsRun(req: Request, web: Web, run: seq<State>) {
    && run != []
    && run[0] == Start(req)
    && forall i | 0 <= i < |run| - 1 :: Step(req, web, run[i], run[i + 1])
  }

  function Last<T>(s: seq<T>): T
    requires s != []
  {
    s[|s| - 1]
  }

  // ----- what every step keeps -----

  predicate KeysDistinct(req: Request, jobs: seq<Job>) {
    forall a, b | 0 <= a < b < |jobs| :: req.Key(jobs[a].url) != req.Key(jobs[b].url)
  }

  function All(s: State): seq<Job> {
    s.log + s.inflight + s.queue
  }

  /** `job` is the seed, or a completed page one level up links to it. */
  predicate Rooted(req: Request, web: Web, log: seq<Job>, job: Job) {
    || job == Job(req.seed, 0)
    || exists p | p in log :: p.depth < req.MaxDepth() && p.depth + 1 == job.depth && req.Edge(web, p.url, job.url)
  }

  ghost predicate Expanded(req: Request, web: Web, visited: set<Url>, job: Job) {
    job.depth < req.MaxDepth() ==> forall v | req.Edge(web, job.url, v) :: req.Key(v) in visited
  }

  function Pages(web: Web, log: seq<Job>): seq<Page> {
    if log == [] then [] else Pages(web, log[..|log| - 1]) + Answer(web, Last(log))
  }

  ghost predicate Inv(req: Request, web: Web, s: State) {
    && Start(req).found <= s.found
    && s.visited == KeySet(req, s.found)
    && KeysDistinct(req, s.found)
    && KeysDistinct(req, All(s))
    && (forall job :: job in s.found <==> job in All(s))
    && (forall job | job in s.found :: Rooted(req, web, s.log, job))
    && (forall job | job in s.log :: Expanded(req, web, s.visited, job))
    && s.collected == Pages(web, s.log)
    && |s.collected| <= req.Limit()
  }

  lemma {:induction false} DiscoverProperties(req: Request, links: seq<Option<Url>>, depth: u32, visited: set<Url>)
    ensures var added := Discover(req, links, depth, visited);
      && KeysDistinct(req, added)
      && (forall job | job in added ::
            job.depth == depth && Some(job.url) in links && req.Admissible(job.url) && req.Key(job.url) !in visited)
      && (forall url | Some(url) in links && req.Admissible(url) ::
            req.Key(url) in visited || req.Key(url) in KeySet(req, added))
  {
    hide Request.Admissible, Request.Key;
    if links != [] {
      var added, tail := Discover(req, links, depth, visited), links[1..];
      DiscoverProperties(req, tail, depth, visited);
      if links[0].Some? && req.Admissible(links[0].value) && req.Key(links[0].value) !in visited {
        var url := links[0].value;
        var more := Discover(req, tail, depth, visited + {req.Key(url)});
        DiscoverProperties(req, tail, depth, visited + {req.Key(url)});
        assert added == [Job(url, depth)] + more;
        assert KeySet(req, added) == {req.Key(url)} + KeySet(req, more) by {
          assert Job(url, depth) in added;
          assert forall job | job in more :: job in added;
        }
      }
    }
  }

  /** `at` gives the link each job came from: the jobs follow the order of the links,
    * and each comes from the first admissible link with its key. */
  predicate InLinkOrder(req: Request, links: seq<Option<Url>>, jobs: seq<Job>, at: seq<nat>) {
    && |at| == |jobs|
    && (forall a | 0 <= a < |at| :: at[a] < |links| && links[at[a]] == Some(jobs[a].url))
    && (forall a, b | 0 <= a < b < |at| :: at[a] < at[b])
    && (forall a, i | 0 <= a < |at| && 0 <= i < at[a] :: NotKeyOf(req, links[i], jobs[a]))
  }

  predicate NotKeyOf(req: Request, link: Option<Url>, job: Job) {
    link.Some? && req.Admissible(link.value) ==> req.Key(link.value) != req.Key(job.url)
  }

  lemma ShiftLinkOrder(req: Request, links: seq<Option<Url>>, jobs: seq<Job>, at: seq<nat>) returns (shifted: seq<nat>)
    requires links != [] && InLinkOrder(req, links[1..], jobs, at)
    requires forall job | job in jobs :: NotKeyOf(req, links[0], job)
    ensures InLinkOrder(req, links, jobs, shifted) && forall a | 0 <= a < |shifted| :: shifted[a] > 0
  {
    hide NotKeyOf;
    shifted := seq(|at|, a requires 0 <= a < |at| => at[a] + 1);
    forall a, i | 0 <= a < |shifted| && 0 <= i < shifted[a] ensures NotKeyOf(req, links[i], jobs[a]) {
      if i > 0 {
        assert links[1..][i - 1] == links[i];
      }
    }
  }

  /** New pages are queued in the order of their links, each at its first link. */
  lemma {:induction false} DiscoverKeepsLinkOrder(req: Request, links: seq<Option<Url>>, depth: u32, visited: set<Url>)
    returns (at: seq<nat>)
    ensures InLinkOrder(req, links, Discover(req, links, depth, visited), at)
  {
    hide Request.Admissible, Request.Key, InLinkOrder;
    if links == [] {
      at := [];
      NothingInOrder(req);
    } else if links[0].Some? && req.Admissible(links[0].value) && req.Key(links[0].value) !in visited {
      var tail, key := links[1..], req.Key(links[0].value);
      var rest := DiscoverKeepsLinkOrder(req, tail, depth, visited + {key});
      DiscoverProperties(req, tail, depth, visited + {key});
      rest := ShiftLinkOrder(req, links, Discover(req, tail, depth, visited + {key}), rest);
      at := FirstLink(req, links, Job(links[0].value, depth), Discover(req, tail, depth, visited + {key}), rest);
    } else {
      at := DiscoverKeepsLinkOrder(req, links[1..], depth, visited);
      DiscoverProperties(req, links[1..], depth, visited);
      at := ShiftLinkOrder(req, links, Discover(req, links[1..], depth, visited), at);
    }
  }

  lemma NothingInOrder(req: Request)
    ensures InLinkOrder(req, [], [], [])
  {
  }

  lemma FirstLink(req: Request, links: seq<Option<Url>>, job: Job, jobs: seq<Job>, at: seq<nat>) returns (all: seq<nat>)
    requires links != [] && links[0] == Some(job.url)
    requires InLinkOrder(req, links, jobs, at) && forall a | 0 <= a < |at| :: at[a] > 0
    ensures InLinkOrder(req, links, [job] + jobs, all)
  {
    hide NotKeyOf;
    all := [0] + at;
  }

  /** Completing the i-th request in flight only moves its job within All. */
  lemma CompletionReorders(req: Request, log: seq<Job>, inflight: seq<Job>, queue: seq<Job>, i: nat)
    requires i < |inflight|
    requires KeysDistinct(req, log + inflight + queue)
    ensures var after := (log + [inflight[i]]) + (inflight[..i] + inflight[i + 1..]) + queue;
      && KeysDistinct(req, after)
      && (forall job :: job in after <==> job in log + inflight + queue)
  {
    var before, rest := log + inflight + queue, inflight[..i] + inflight[i + 1..];
    var after := (log + [inflight[i]]) + rest + queue;
    assert inflight == inflight[..i] + [inflight[i]] + inflight[i + 1..];
    forall a, b | 0 <= a < b < |after| ensures req.Key(after[a].url) != req.Key(after[b].url) {
      var c, d := PlaceBefore(|log|, i, a), PlaceBefore(|log|, i, b);
      assert after[a] == before[c] && after[b] == before[d] && c != d;
    }
  }

  /** Where the element now at index `a` was before element n + i moved to n. */
  function PlaceBefore(n: nat, i: nat, a: nat): nat {
    if a == n then n + i else if n < a <= n + i then a - 1 else a
  }

  lemma InvAtStart(req: Request, web: Web)
    ensures Inv(req, web, Start(req))
  {
    var s := Start(req);
    assert All(s) == s.queue;
    assert s.found[0] in s.found;
  }

  lemma InvLaunch(req: Request, web: Web, s: State)
    requires Inv(req, web, s)
    ensures Inv(req, web, LaunchBatch(req, s))
  {
    hide KeysDistinct, Rooted, Expanded, KeySet, Pages, Start, Request.Limit;
    assert All(LaunchBatch(req, s)) == All(s);
  }

  lemma InvComplete(req: Request, web: Web, s: State, i: nat)
    requires Inv(req, web, s) && |s.collected| < req.Limit() && i < |s.inflight|
    ensures Inv(req, web, Complete(req, web, s, i))
  {
    var s' := Complete(req, web, s, i);
    CompleteKeepsJobs(req, web, s, i);
    CompleteKeepsRoots(req, web, s, i);
    CompleteExpands(req, web, s, i);
    assert s'.log[..|s'.log| - 1] == s.log;
  }

  lemma CompleteKeepsJobs(req: Request, web: Web, s: State, i: nat)
    requires s.visited == KeySet(req, s.found) && KeysDistinct(req, s.found) && KeysDistinct(req, All(s))
    requires forall job :: job in s.found <==> job in All(s)
    requires i < |s.inflight|
    ensures var s' := Complete(req, web, s, i);
      && s'.visited == KeySet(req, s'.found) && KeysDistinct(req, s'.found) && KeysDistinct(req, All(s'))
      && (forall job :: job in s'.found <==> job in All(s'))
  {
    hide Request.Edge, Request.Key, Expanded, NewJobs, Answer;
    var s', job := Complete(req, web, s, i), s.inflight[i];
    var added := NewJobs(req, web, s, job);
    NewJobsProperties(req, web, s, job);
    CompletionReorders(req, s.log, s.inflight, s.queue, i);
    var moved := (s.log + [job]) + s'.inflight + s.queue;
    assert All(s') == moved + added;
    AppendedJobs(req, s.found, added, s.visited);
    AppendedJobs(req, moved, added, s.visited);
  }

  lemma CompleteKeepsRoots(req: Request, web: Web, s: State, i: nat)
    requires i < |s.inflight|
    requires forall job | job in s.found :: Rooted(req, web, s.log, job)
    ensures var s' := Complete(req, web, s, i); forall job | job in s'.found :: Rooted(req, web, s'.log, job)
  {
    var s', job := Complete(req, web, s, i), s.inflight[i];
    NewJobsProperties(req, web, s, job);
    assert job in s'.log;
    forall j | j in s'.found ensures Rooted(req, web, s'.log, j) {
      if j in s.found {
        assert Rooted(req, web, s.log, j);
        assert forall p | p in s.log :: p in s'.log;
      }
    }
  }

  lemma CompleteExpands(req: Request, web: Web, s: State, i: nat)
    requires i < |s.inflight|
    requires forall job | job in s.log :: Expanded(req, web, s.visited, job)
    ensures var s' := Complete(req, web, s, i); forall job | job in s'.log :: Expanded(req, web, s'.visited, job)
  {
    var s', job := Complete(req, web, s, i), s.inflight[i];
    NewJobsProperties(req, web, s, job);
    forall j | j in s'.log ensures Expanded(req, web, s'.visited, j) {
      if j in s.log {
        assert Expanded(req, web, s.visited, j);
      }
    }
  }

  /** Jobs whose keys are unvisited keep keys distinct and extend the key set. */
  lemma AppendedJobs(req: Request, jobs: seq<Job>, added: seq<Job>, visited: set<Url>)
    requires KeysDistinct(req, jobs) && KeysDistinct(req, added)
    requires KeySet(req, jobs) <= visited
    requires forall j | j in added :: req.Key(j.url) !in visited
    ensures KeysDistinct(req, jobs + added)
    ensures KeySet(req, jobs + added) == KeySet(req, jobs) + KeySet(req, added)
  {
    assert forall j | j in jobs :: req.Key(j.url) in KeySet(req, jobs);
    assert forall j | j in jobs + added :: j in jobs || j in added;
    assert forall j | j in jobs :: j in jobs + added;
    assert forall j | j in added :: j in jobs + added;
  }

  lemma NoKeys(req: Request)
    ensures KeysDistinct(req, []) && KeySet(req, []) == {}
  {
  }

  lemma NewJobsProperties(req: Request, web: Web, s: State, job: Job)
    ensures var added := NewJobs(req, web, s, job);
      && KeysDistinct(req, added)
      && (forall j | j in added ::
            && job.depth < req.MaxDepth() && j.depth == job.depth + 1
            && req.Edge(web, job.url, j.url) && req.Key(j.url) !in s.visited)
      && Expanded(req, web, s.visited + KeySet(req, added), job)
  {
    hide Request.Admissible, Request.Key, Request.MaxDepth, Discover, KeysDistinct;
    NoKeys(req);
    if web(job.url).Some? && !req.skipDiscovery && job.depth < req.MaxDepth() {
      DiscoverProperties(req, web(job.url).value.links, job.depth + 1, s.visited);
    }
  }

  lemma {:induction false} InvHolds(req: Request, web: Web, run: seq<State>)
    requires IsRun(req, web, run)
    ensures Inv(req, web, Last(run))
  {
    if |run| == 1 {
      InvAtStart(req, web);
    } else {
      var before := run[..|run| - 1];
      assert IsRun(req, web, before);
      InvHolds(req, web, before);
      var s, s' := Last(before), Last(run);
      assert s == run[|run| - 2] && Step(req, web, s, run[|run| - 2 + 1]);
      if s.inflight == [] {
        InvLaunch(req, web, s);
      } else {
        var i :| 0 <= i < |s.inflight| && s' == Complete(req, web, s, i);
        InvComplete(req, web, s, i);
      }
    }
  }
}
