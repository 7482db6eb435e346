/** The crawl loop itself.  Which request of a batch completes next is an
  * arbitrary choice, so the method is proved for every schedule; its result is
  * tied to a run of the state machine, whose properties then apply. */
module CrawlEngine {
  import opened Wrappers
  import opened Scope
  import opened Crawl
  import opened CrawlResults

  lemma ExtendRun(req: Request, web: Web, run: seq<State>, s: State)
    requires IsRun(req, web, run) && Step(req, web, Last(run), s)
    ensures IsRun(req, web, run + [s])
  {
  }

  lemma KeySetAppends(req: Request, jobs: seq<Job>, job: Job)
    ensures KeySet(req, jobs + [job]) == KeySet(req, jobs) + {req.Key(job.url)}
  {
    var more := jobs + [job];
    assert job in more && forall j | j in jobs :: j in more;
  }

  lemma DiscoverHead(req: Request, links: seq<Option<Url>>, i: nat, depth: u32, visited: set<Url>)
    requires i < |links|
    ensures Discover(req, links[i..], depth, visited) ==
      match links[i]
      case None => Discover(req, links[i + 1..], depth, visited)
      case Some(url) =>
        if !req.Admissible(url) || req.Key(url) in visited then Discover(req, links[i + 1..], depth, visited)
        else [Job(url, depth)] + Discover(req, links[i + 1..], depth, visited + {req.Key(url)})
  {
    assert links[i..][1..] == links[i + 1..];
  }

  lemma NoJobs(req: Request, depth: u32, visited: set<Url>)
    ensures KeySet(req, []) == {} && Discover(req, [], depth, visited) == []
  {
  }

  /** The loop over the links of one page. */
  method EnqueueLinks(req: Request, links: seq<Option<Url>>, depth: u32, visited0: set<Url>, queue0: seq<Job>)
    returns (visited: set<Url>, queue: seq<Job>)
    ensures queue == queue0 + Discover(req, links, depth, visited0)
    ensures visited == visited0 + KeySet(req, Discover(req, links, depth, visited0))
  {
    hide KeySet, Discover, Request.Admissible;
    NoJobs(req, depth, visited0);
    visited, queue := visited0, queue0;
    ghost var added: seq<Job> := [];
    assert links[0..] == links;
    for i := 0 to |links|
      invariant queue == queue0 + added && visited == visited0 + KeySet(req, added)
      invariant added + Discover(req, links[i..], depth, visited) == Discover(req, links, depth, visited0)
    {
      DiscoverHead(req, links, i, depth, visited);
      if links[i].Some? {
        var parsed := links[i].value;
        if req.Admissible(parsed) {
          var key := NormalizeUrl(parsed, req.ignoreQuery);
          if key !in visited {
            var job := Job(parsed, depth);
            KeySetAppends(req, added, job);
            visited := visited + {key};
            queue := queue + [job];
            added := added + [job];
          }
        }
      }
    }
    assert links[|links|..] == [] && added + [] == added;
    NoJobs(req, depth, visited);
  }

  /** What the code does with one completed request. */
  method HandleResult(req: Request, web: Web, job: Job, visited0: set<Url>, queue0: seq<Job>, collected0: seq<Page>,
                      ghost s: State)
    returns (visited: set<Url>, queue: seq<Job>, collected: seq<Page>)
    requires visited0 == s.visited && queue0 == s.queue && collected0 == s.collected
    ensures visited == s.visited + KeySet(req, NewJobs(req, web, s, job))
    ensures queue == s.queue + NewJobs(req, web, s, job)
    ensures collected == s.collected + Answer(web, job)
  {
    visited, queue, collected := visited0, queue0, collected0;
    match web(job.url) {
      case None =>
      case Some(page) =>
        if !req.skipDiscovery && job.depth < req.MaxDepth() {
          visited, queue := EnqueueLinks(req, page.links, job.depth + 1, visited, queue);
        }
        collected := collected + [page];
    }
  }

  ghost predicate Tracks(s: State, visited: set<Url>, queue: seq<Job>, tasks: seq<Job>, collected: seq<Page>) {
    s.visited == visited && s.queue == queue && s.inflight == tasks && s.collected == collected
  }

  /** The crawl's result is the last state of some run, and keeps the promise. */
  ghost predicate IsResult(req: Request, web: Web, collected: seq<Page>) {
    exists run :: IsRun(req, web, run) && Finished(req, Last(run)) && collected == Last(run).collected
  }

  method CrwCrawl(req: Request, web: Web) returns (collected: seq<Page>)
    ensures IsResult(req, web, collected)
    ensures Promised(req, web, collected)
  {
    hide Promised, KeySet, Discover;
    var maxConcurrency, limit := req.Concurrency(), req.Limit();
    var visited, queue := {NormalizeUrl(req.seed, req.ignoreQuery)}, [Job(req.seed, 0)];
    collected := [];
    ghost var run := [Start(req)];

    while queue != []
      invariant IsRun(req, web, run) && Tracks(Last(run), visited, queue, [], collected)
      invariant |collected| < limit
      decreases limit - |collected|, |queue|
    {
      var n := if maxConcurrency <= |queue| then maxConcurrency else |queue|;
      var tasks := queue[..n];
      ghost var launched := LaunchBatch(req, Last(run));
      ExtendRun(req, web, run, launched);
      run, queue := run + [launched], queue[n..];
      ghost var wanted, waiting := limit - |collected|, |queue|;

      while tasks != []
        invariant IsRun(req, web, run) && Tracks(Last(run), visited, queue, tasks, collected)
        invariant 0 < limit - |collected| <= wanted
        invariant limit - |collected| == wanted ==> |queue| == waiting
        decreases |tasks|
      {
        var i :| 0 <= i < |tasks|;
        var job := tasks[i];
        ghost var s := Last(run);
        visited, queue, collected := HandleResult(req, web, job, visited, queue, collected, s);
        tasks := tasks[..i] + tasks[i + 1..];
        ExtendRun(req, web, run, Complete(req, web, s, i));
        run := run + [Complete(req, web, s, i)];
        if |collected| >= limit {
          FinishedCrawlIsPromised(req, web, run);
          return;
        }
      }
    }
    FinishedCrawlIsPromised(req, web, run);
  }
}
