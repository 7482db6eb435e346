/** When the promise of breadth-first order holds: with one request at a time,
  * always; with more, never for all sites. */
module CrawlOrder {
  import opened Wrappers
  import opened Scope
  import opened Crawl
  import opened CrawlResults

  // ----- one request at a time -----

  /** `url` was found at depth at most `depth`. */
  predicate FoundBy(req: Request, found: seq<Job>, depth: nat, url: Url) {
    exists job | job in found :: req.Key(job.url) == req.Key(url) && job.depth <= depth
  }

  /** Everything `job` links to was found at most one level below it. */
  ghost predicate ExpandedTightly(req: Request, web: Web, found: seq<Job>, job: Job) {
    job.depth < req.MaxDepth() ==>
      forall v | req.Edge(web, job.url, v) :: FoundBy(req, found, job.depth + 1, v)
  }

  predicate DepthsAscend(jobs: seq<Job>) {
    forall a, b | 0 <= a < b < |jobs| :: jobs[a].depth <= jobs[b].depth
  }

  /** Spans of at most two levels from index n on. */
  predicate SpansTwoLevels(jobs: seq<Job>, n: nat) {
    forall b | n <= b < |jobs| :: jobs[b].depth <= jobs[n].depth + 1
  }

  /** Jobs are completed in the order they were found; depths ascend, and from
    * the first unfinished job on they span at most two levels. */
  ghost predicate SerialInv(req: Request, web: Web, s: State) {
    && s.found == All(s)
    && |s.inflight| <= 1
    && DepthsAscend(s.found)
    && SpansTwoLevels(s.found, |s.log|)
    && (forall job | job in s.log :: ExpandedTightly(req, web, s.found, job))
  }

  lemma SerialLaunch(req: Request, web: Web, s: State)
    requires SerialInv(req, web, s) && req.Concurrency() == 1 && s.inflight == []
    ensures SerialInv(req, web, LaunchBatch(req, s))
  {
    assert All(LaunchBatch(req, s)) == All(s);
  }

  lemma AppendOneLevel(found: seq<Job>, n: nat, added: seq<Job>)
    requires n < |found| && DepthsAscend(found) && SpansTwoLevels(found, n)
    requires forall job | job in added :: job.depth == found[n].depth + 1
    ensures DepthsAscend(found + added) && SpansTwoLevels(found + added, n + 1)
  {
    var all := found + added;
    forall a, b | 0 <= a < b < |all| ensures all[a].depth <= all[b].depth {
      if b >= |found| {
        assert all[b] in added;
        if a >= |found| { assert all[a] in added; } else { assert a <= n || found[a].depth <= found[n].depth + 1; }
      }
    }
    forall b | n <= b < |all| ensures all[b].depth <= all[n].depth + 1 {
      if b >= |found| { assert all[b] in added; }
    }
  }

  lemma SerialCompleteShape(req: Request, web: Web, s: State)
    requires s.found == All(s) && |s.inflight| == 1
    ensures var s' := Complete(req, web, s, 0);
      s'.found == All(s') && s'.inflight == [] && s.found[|s.log|] == s.inflight[0]
  {
    var s' := Complete(req, web, s, 0);
    assert s.inflight == [s.inflight[0]] && s'.inflight == [];
  }

  lemma SerialComplete(req: Request, web: Web, s: State)
    requires s.visited == KeySet(req, s.found) && SerialInv(req, web, s) && |s.inflight| == 1
    ensures SerialInv(req, web, Complete(req, web, s, 0))
  {
    var job := s.inflight[0];
    var added := NewJobs(req, web, s, job);
    SerialCompleteShape(req, web, s);
    NewJobsProperties(req, web, s, job);
    AppendOneLevel(s.found, |s.log|, added);
    SerialExpands(req, web, s, job, added);
  }

  lemma SerialExpands(req: Request, web: Web, s: State, job: Job, added: seq<Job>)
    requires SerialInv(req, web, s) && s.visited == KeySet(req, s.found)
    requires |s.log| < |s.found| && s.found[|s.log|] == job
    requires forall j | j in added :: j.depth == job.depth + 1
    requires Expanded(req, web, s.visited + KeySet(req, added), job)
    ensures forall j | j in s.log + [job] :: ExpandedTightly(req, web, s.found + added, j)
  {
    forall j | j in s.found ensures j.depth <= job.depth + 1 {
      var a :| 0 <= a < |s.found| && s.found[a] == j;
    }
    NewlyExpanded(req, web, s, job, added);
    forall j | j in s.log ensures ExpandedTightly(req, web, s.found + added, j) {
      FoundByGrows(req, web, s.found, added, j);
    }
  }

  lemma FoundByGrows(req: Request, web: Web, found: seq<Job>, added: seq<Job>, job: Job)
    requires ExpandedTightly(req, web, found, job)
    ensures ExpandedTightly(req, web, found + added, job)
  {
    if job.depth < req.MaxDepth() {
      forall v | req.Edge(web, job.url, v) ensures FoundBy(req, found + added, job.depth + 1, v) {
        assert FoundBy(req, found, job.depth + 1, v);
        var j :| j in found && req.Key(j.url) == req.Key(v) && j.depth <= job.depth + 1;
        assert j in found + added;
      }
    }
  }

  lemma NewlyExpanded(req: Request, web: Web, s: State, job: Job, added: seq<Job>)
    requires s.visited == KeySet(req, s.found)
    requires forall j | j in s.found :: j.depth <= job.depth + 1
    requires forall j | j in added :: j.depth == job.depth + 1
    requires Expanded(req, web, s.visited + KeySet(req, added), job)
    ensures ExpandedTightly(req, web, s.found + added, job)
  {
    if job.depth < req.MaxDepth() {
      forall v | req.Edge(web, job.url, v) ensures FoundBy(req, s.found + added, job.depth + 1, v) {
        var j :| (j in s.found || j in added) && req.Key(j.url) == req.Key(v);
        assert j in s.found + added;
      }
    }
  }

  lemma {:induction false} SerialInvHolds(req: Request, web: Web, run: seq<State>)
    requires IsRun(req, web, run) && req.Concurrency() == 1
    ensures Inv(req, web, Last(run)) && SerialInv(req, web, Last(run))
  {
    InvHolds(req, web, run);
    if |run| == 1 {
      assert All(Start(req)) == Start(req).found;
    } else {
      var before := run[..|run| - 1];
      assert IsRun(req, web, before);
      SerialInvHolds(req, web, before);
      var s, s' := Last(before), Last(run);
      assert s == run[|run| - 2] && Step(req, web, s, run[|run| - 2 + 1]);
      if s.inflight == [] {
        SerialLaunch(req, web, s);
      } else {
        SerialComplete(req, web, s);
      }
    }
  }

  /** The pages returned are the answers of the pages discovered, in that order,
    * up to some point. */
  ghost predicate ResultsInOrder(web: Web, s: State) {
    exists k | 0 <= k <= |s.found| :: s.collected == Pages(web, s.found[..k])
  }

  /** Results come back in the order pages were discovered, the depths of the
    * discovered pages ascend, and the queue spans at most two levels. */
  lemma SerialCrawlIsBreadthFirst(req: Request, web: Web, run: seq<State>)
    requires IsRun(req, web, run) && req.Concurrency() == 1
    ensures var s := Last(run);
      && ResultsInOrder(web, s)
      && s.log <= s.found
      && DepthsAscend(s.found)
      && (forall a, b | 0 <= a < |s.queue| && 0 <= b < |s.queue| :: s.queue[b].depth <= s.queue[a].depth + 1)
  {
    SerialInvHolds(req, web, run);
    var s := Last(run);
    assert s.queue == s.found[|s.log| + |s.inflight|..];
    assert s.found[..|s.log|] == s.log;
  }

  /** Along any path, either the i-th page was found by depth i, or nothing
    * deeper than i has been found yet. */
  lemma {:induction false} PathBoundsDepth(req: Request, web: Web, s: State, path: seq<Url>)
    requires Inv(req, web, s) && SerialInv(req, web, s) && KeyRespecting(req, web) && IsPath(req, web, path)
    ensures FoundBy(req, s.found, |path| - 1, Last(path)) || forall job | job in s.found :: job.depth <= |path| - 1
    ensures s.log == s.found && |path| - 1 <= req.MaxDepth() ==> FoundBy(req, s.found, |path| - 1, Last(path))
  {
    if |path| == 1 {
      assert Start(req).found[0] in s.found;
    } else {
      var prefix, to := path[..|path| - 1], Last(path);
      assert IsPath(req, web, prefix);
      PathBoundsDepth(req, web, s, prefix);
      assert req.Edge(web, path[|path| - 2], path[|path| - 2 + 1]);
      if FoundBy(req, s.found, |path| - 2, Last(prefix)) {
        var job :| job in s.found && req.Key(job.url) == req.Key(Last(prefix)) && job.depth <= |path| - 2;
        PathStep(req, web, s, job, to, |path| - 1);
      }
    }
  }

  lemma PathStep(req: Request, web: Web, s: State, job: Job, to: Url, n: nat)
    requires Inv(req, web, s) && SerialInv(req, web, s)
    requires job in s.found && job.depth < n && req.Edge(web, job.url, to)
    ensures FoundBy(req, s.found, n, to) || forall j | j in s.found :: j.depth <= n
    ensures s.log == s.found && n <= req.MaxDepth() ==> FoundBy(req, s.found, n, to)
  {
    if job in s.log {
      if job.depth < req.MaxDepth() {
        assert ExpandedTightly(req, web, s.found, job) && FoundBy(req, s.found, job.depth + 1, to);
        var j :| j in s.found && req.Key(j.url) == req.Key(to) && j.depth <= job.depth + 1;
      } else {
        DepthsAreBounded(req, web, s);
      }
    } else {
      UnfinishedBoundsDepths(req, web, s, job);
    }
  }

  lemma UnfinishedBoundsDepths(req: Request, web: Web, s: State, job: Job)
    requires SerialInv(req, web, s) && job in s.found && job !in s.log
    ensures forall j | j in s.found :: j.depth <= job.depth + 1
  {
    var a :| 0 <= a < |s.found| && s.found[a] == job;
    assert s.log == s.found[..|s.log|];
    assert a >= |s.log|;
    forall j | j in s.found ensures j.depth <= job.depth + 1 {
      var b :| 0 <= b < |s.found| && s.found[b] == j;
    }
  }

  lemma DepthsAreBounded(req: Request, web: Web, s: State)
    requires Inv(req, web, s)
    ensures forall job | job in s.found :: job.depth <= req.MaxDepth()
  {
    forall job | job in s.found ensures job.depth <= req.MaxDepth() {
      assert Rooted(req, web, s.log, job);
    }
  }

  /** Every recorded depth is the shortest link distance. */
  lemma SerialDepthIsShortest(req: Request, web: Web, run: seq<State>, job: Job, path: seq<Url>)
    requires IsRun(req, web, run) && req.Concurrency() == 1 && KeyRespecting(req, web)
    requires job in Last(run).found && IsPath(req, web, path) && req.Key(Last(path)) == req.Key(job.url)
    ensures job.depth <= |path| - 1
  {
    SerialInvHolds(req, web, run);
    var s := Last(run);
    PathBoundsDepth(req, web, s, path);
    if FoundBy(req, s.found, |path| - 1, Last(path)) {
      var j :| j in s.found && req.Key(j.url) == req.Key(Last(path)) && j.depth <= |path| - 1;
      OneJobPerKey(req, s.found, j, job);
    }
  }

  /** Some link path reaches the page within the depth limit. */
  ghost predicate WithinDepth(req: Request, web: Web, key: Url) {
    exists path :: IsPath(req, web, path) && req.DepthAllows(|path| - 1) && req.Key(Last(path)) == key
  }

  /** A depth-limited serial crawl whose queue drains has requested exactly the
    * pages within that distance of the seed. */
  lemma SerialCrawlCoversDepth(req: Request, web: Web, run: seq<State>)
    requires IsRun(req, web, run) && req.Concurrency() == 1 && KeyRespecting(req, web) && Drained(Last(run))
    ensures forall key :: key in KeySet(req, Last(run).log) <==> WithinDepth(req, web, key)
  {
    SerialInvHolds(req, web, run);
    var s := Last(run);
    assert All(s) == s.log;
    forall key | key in KeySet(req, s.log) ensures WithinDepth(req, web, key) {
      var job :| job in s.log && req.Key(job.url) == key;
      var path := PathTo(req, web, s, job);
      DepthsAreBounded(req, web, s);
    }
    forall key | WithinDepth(req, web, key) ensures key in KeySet(req, s.log) {
      var path :| IsPath(req, web, path) && req.DepthAllows(|path| - 1) && req.Key(Last(path)) == key;
      PathBoundsDepth(req, web, s, path);
      assert FoundBy(req, s.found, |path| - 1, Last(path));
    }
  }

  // ----- several requests at a time -----

  predicate FoundIn(found: seq<Job>, lo: nat, hi: nat, job: Job)
    requires lo <= hi <= |found|
  {
    exists j | lo <= j < hi :: found[j] == job
  }

  /** The i-th job completed was discovered fewer than c places away from i. */
  predicate NearItsPlace(found: seq<Job>, job: Job, c: nat, i: nat) {
    exists j | 0 <= j < |found| :: found[j] == job && i < j + c && j < i + c
  }

  /** Requests in flight come from the window of discovered jobs that starts at
    * `b`, where their batch started, and the queue is what follows the window. */
  predicate WindowInv(req: Request, s: State, b: nat) {
    var end := |s.log| + |s.inflight|;
    && b <= |s.log| && end <= b + req.Concurrency() && end <= |s.found|
    && s.queue == s.found[end..]
    && (forall i | 0 <= i < |s.inflight| :: FoundIn(s.found, b, end, s.inflight[i]))
    && (forall i | 0 <= i < |s.log| :: NearItsPlace(s.found, s.log[i], req.Concurrency(), i))
  }

  lemma WindowLaunch(req: Request, s: State, b: nat)
    requires WindowInv(req, s, b) && s.inflight == []
    ensures WindowInv(req, LaunchBatch(req, s), |s.log|)
  {
    hide NearItsPlace;
    var s', n := LaunchBatch(req, s), |s.log|;
    var end := n + |s'.inflight|;
    assert s'.queue == s.found[end..];
    forall i | 0 <= i < |s'.inflight| ensures FoundIn(s.found, n, end, s'.inflight[i]) {
      assert s.found[n + i] == s.queue[i] == s'.inflight[i];
    }
  }

  lemma GrowKeepsPlaces(found: seq<Job>, added: seq<Job>, lo: nat, hi: nat, c: nat)
    requires lo <= hi <= |found|
    ensures forall job | FoundIn(found, lo, hi, job) :: FoundIn(found + added, lo, hi, job)
    ensures forall job, i: nat | NearItsPlace(found, job, c, i) :: NearItsPlace(found + added, job, c, i)
  {
    assert forall j | 0 <= j < |found| :: (found + added)[j] == found[j];
  }

  lemma BatchIsNear(found: seq<Job>, lo: nat, hi: nat, job: Job, c: nat, i: nat)
    requires lo <= i < hi <= |found| && hi <= lo + c && FoundIn(found, lo, hi, job)
    ensures NearItsPlace(found, job, c, i)
  {
  }

  lemma WindowComplete(req: Request, web: Web, s: State, b: nat, i: nat)
    requires WindowInv(req, s, b) && i < |s.inflight|
    ensures WindowInv(req, Complete(req, web, s, i), b)
  {
    hide NearItsPlace, FoundIn, NewJobs, Answer, KeySet, Request.Concurrency;
    var s', job, c := Complete(req, web, s, i), s.inflight[i], req.Concurrency();
    var end, added := |s.log| + |s.inflight|, NewJobs(req, web, s, job);
    GrowKeepsPlaces(s.found, added, b, end, c);
    BatchIsNear(s.found, b, end, job, c, |s.log|);
    assert s'.queue == s'.found[end..];
  }

  lemma {:induction false} WindowHolds(req: Request, web: Web, run: seq<State>) returns (b: nat)
    requires IsRun(req, web, run)
    ensures WindowInv(req, Last(run), b)
  {
    if |run| == 1 {
      b := 0;
    } else {
      var before := run[..|run| - 1];
      assert IsRun(req, web, before);
      b := WindowHolds(req, web, before);
      var s, s' := Last(before), Last(run);
      assert s == run[|run| - 2] && Step(req, web, s, run[|run| - 2 + 1]);
      if s.inflight == [] {
        WindowLaunch(req, s, b);
        b := |s.log|;
      } else {
        var i :| 0 <= i < |s.inflight| && s' == Complete(req, web, s, i);
        WindowComplete(req, web, s, b, i);
      }
    }
  }

  /** What is left of the order at any concurrency c: every request completes
    * fewer than c places from where it was discovered. */
  lemma CompletionStaysNear(req: Request, web: Web, run: seq<State>, i: nat)
    requires IsRun(req, web, run) && i < |Last(run).log|
    ensures var s := Last(run); NearItsPlace(s.found, s.log[i], req.Concurrency(), i)
  {
    var b := WindowHolds(req, web, run);
  }
}
