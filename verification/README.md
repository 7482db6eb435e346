# crw-shield: a verified model

crw-shield is a web scraping and crawling service. This project models the parts of it that
carry state over many steps and proves what they keep. Everything the program cannot decide for
itself (pages, backends, clocks, random choices, the order in which concurrent requests finish)
is a parameter or a nondeterministic choice, so each theorem covers every answer and every
schedule.

| area | modules | the main results |
|---|---|---|
| crawl engine | `Glob`, `Scope`, `Crawl`, `CrawlEngine`, `CrawlResults`, `CrawlOrder`, `CrawlOrderLimits` | schedule independence, completeness, at-most-once requests; ordered results, shortest depths and full coverage of a depth limit if and only if one request runs at a time, and how far the order strays otherwise; the path filter's compilation preserves meaning |
| content extraction | `Dom`, `Serialise`, `Kept`, `TagReader`, `Walker`, `VisibleText` | the output is that of a walk of the document that knows nothing of pruning; printed tags and the event stream can be read back; pruning is idempotent; the cut leaves exactly the heading's ancestors open; the character scanner counts the surviving text if and only if that text has no angle bracket |
| cookies | `Hosts`, `CookieJar`, `HitlSolve`, `CookieRuns`, `CookieText` | headers are exactly the live domain-matching cookies; exactly which solved cookies survive the L1 clears of the hour, with clears running between the steps of the solve; save, load and re-seed; printing and parsing are inverse exactly on readable cookies |
| rotation | `Rotation`, `RotationRuns`, `TlsProxy` | the exact number of rotations and L1 clears that overlapping requests can reach, for every ladder; the profile ladder ends if and only if its profiles are distinct |
| fetch ladder | `Ladder` | the calls, the result and its label of one pass, determined for all answers; the jar as the effects of the calls in order; the two-pass wrapper |
| timed and cyclic state | `UserAgents`, `BrowserSlot`, `RateLimiter` | fairness over all draws; a launch bound over all windows, kept if and only if no call is dropped between a launch and its record; grant spacing if and only if callers do not overlap, and the exact number of grants in a window otherwise |

`Wrappers` and `Text` hold the shared datatypes and string operations.

How to read the code. Where the program updates state in place (the jar, the counters, the proxy,
the walkers, the rotator, the browser slot, the limiter) the model is a class whose methods are
tied to functions of the old state; the laws are lemmas about those functions. Where several
requests interleave between the steps of one operation (crawl, rotation, rate limiter) the model
is also a transition system whose runs are sequences of steps.

## Where the code differs from its own documentation

The model follows the code. In each case the exact condition is proved.

- The crawl's comment (crates/crawl/src/lib.rs:190-192) promises the pages in BFS order. The list
  returned is in order for every site if and only if the concurrency is 1 (`ResultOrderIffSerial`);
  the same holds for recorded depths being shortest distances (`ShortestDepthsIffSerial`) and for
  a depth limit being covered in full (`DepthCoverageIffSerial`). At concurrency c every request
  completes fewer than c places from where it was discovered, and no smaller bound holds
  (`CompletionBoundIsExact`); a recorded depth is still the length of a real path
  (`RecordedDepthIsARealPath`).
- Rate limiting (crates/server/src/rate_limit.rs:51-60) promises a minimum interval between scrapes.
  The lock is dropped during the sleep, so it holds for every run if and only if no caller enters
  while another sleeps (`SpacingIffSerial`). With at most c callers inside, a window as long as the
  interval holds at most c grants, and no smaller bound holds (`WindowBoundIsExact`).
- The browser launcher (crates/fetch/src/cdp.rs:240-250) promises a cooldown after two failed
  launches. A request dropped while it waits for a launch or for the backoff records no failure, and
  the next call launches at once; so the launches in a window stay within the allowance for all runs
  if and only if no call is dropped there (`AllowanceKeptIff`), and otherwise exceed it by at most
  two for each dropped call (`WindowBound`).
- A wildcard allowlist entry is compared with a lower-cased host but is itself kept as typed, so it
  can match something if and only if it was typed in lower case (`EntryAllowsSomeHostIff`).
- The rotation budget of three (crates/antibot/src/rotation.rs:29-31) can be overrun. With at most n
  requests for a host overlapping, the most rotations are exactly `MostRotations`: none if n is 0 or
  there is nothing to rotate to, n with two distinct profiles, and n + 2 with any other ladder
  (`RotationBoundIsExact`). So the budget is kept by all runs if and only if requests do not overlap,
  or there is at most one profile, or there are two distinct ones and n is at most three
  (`BudgetKeptIff`). The L1 clear happens "only on the first block" if and only if requests do not
  overlap (`ClearsAreBounded`, `ClearBoundIsReached`, `ClearsOnceIffSerial`).
- The TLS ladder is meant to run out. It does if and only if its profiles are pairwise distinct
  (`ExhaustedIffDistinct`). The ladder built from the environment does if and only if the configured
  list is distinct and the initial profile heads it or does not occur in it (`EnvLadderEndsIff`);
  with the default list and the initial profile `chrome_117` it never does (`DefaultLadderCanCircle`).
- An empty list of profiles is meant to switch rotation off (crates/fetch/src/tls_proxy.rs:160-163).
  It gives the default ladder instead (`BlankListStillRotates`, `EmptyListIsBlank`); rotation is off
  from the start if and only if the list is the initial profile alone (`NoRotationIff`).
- A FlareSolverr cookie whose expiry has passed is stored as one that never expires; another is kept
  longer by the clock advance between two readings (`SolvedCookieNeverExpiresIff`).
- Normalising a host twice is not always normalising it once: white space behind leading dots
  needs a second pass (`NormalizeTwice`, `NormalizeTwiceCanDiffer`).
- The comment on a solve (crates/server/src/handlers.rs:271-273) stamps the cookies' domain if all carry
  the same one. The code takes the first domain that any cookie has, whatever the others say
  (`HandleHitlSolve`).
- The HITL stamp protects only the resolved host of a solve. A cookie of the solve survives all L1
  clears of the hour if and only if it is stored under that host, under a domain that carries a
  stamp as late, or under the empty domain (`SolveCoverageIff`, `TwoDomainSolveLosesOne`); and a
  clear that reaches an unprotected bucket between the injection and the stamp drops even the
  covered ones
  (`DisturbedSolveIff`).

## Model

| member | source | states |
|---|---|---|
| `Glob.Compile` | crates/crawl/src/lib.rs:73-91 | the in-place compiler emits `^`, each pattern character's own text in order, `$` |
| `Glob.GlobMatch` | crates/crawl/src/lib.rs:73-91 | compiling and running the engine decides the compiled filter's language |
| `Glob.ReadBodyInvertsCompile` | crates/crawl/src/lib.rs:73-91 | the engine never rejects a compiled pattern, and reading it back gives each pattern character's own item |
| `Glob.CompilationPreservesMeaning` | crates/crawl/src/lib.rs:73-91 | for every pattern and text the compiled filter accepts what a backtracking glob matcher accepts; on newline-free texts the wildcards lose nothing |
| `Glob.WildcardsRefuseNewline` | crates/crawl/src/lib.rs:73-91 | the newline proviso is needed: `*` does not match a newline |
| `Scope.SameKeyIff` | crates/crawl/src/lib.rs:179-188 | two URLs share a key exactly when they agree in scheme, user info, host, port and path and, unless it is ignored, query; normalising is idempotent |
| `Scope.InScopeIff` | crates/crawl/src/lib.rs:43-63 | a page is in scope exactly if external links are allowed, or it is on the seed's host, or subdomains are allowed and its host is below the seed's |
| `Scope.ShouldVisitMeansGlobs` | crates/crawl/src/lib.rs:25-38 | a page passes the filter exactly when its path matches no exclude glob and, if there are include globs, one of them |
| `Crawl.DiscoverProperties` | crates/crawl/src/lib.rs:242-268 | the links of a page add exactly its admissible unvisited keys, each once, one level down |
| `Crawl.DiscoverKeepsLinkOrder` | crates/crawl/src/lib.rs:242-268 | new pages are queued in the order of their links, each from the first admissible link with its key |
| `Crawl.InvComplete` | crates/crawl/src/lib.rs:228-280 | completing any in-flight request, in any order, keeps the crawl invariant (distinct keys, every job rooted in a completed parent, every completed job expanded, results in step with the log) |
| `Crawl.InvHolds` | crates/crawl/src/lib.rs:206-281 | the crawl invariant holds at the end of every run of every schedule |
| `CrawlEngine.EnqueueLinks` | crates/crawl/src/lib.rs:241-269 | the link loop's new queue and visited set are those of the discovery function |
| `CrawlEngine.HandleResult` | crates/crawl/src/lib.rs:228-279 | handling one completion is one step of the state machine: failures change nothing, successes enqueue and collect |
| `CrawlEngine.CrwCrawl` | crates/crawl/src/lib.rs:193-285 | for every completion order the loop terminates with the pages of a finished run: only reachable pages, at most `limit` of them (one for 0), the seed's alone if discovery is skipped; and if no depth limit is set and there are at most 2^32 - 1 pages, or the limit set is at least their number, exactly the minimum of `limit` and the reachable answering pages, and all of them below the limit |
| `CrawlResults.NoPageIsRequestedTwice` | crates/crawl/src/lib.rs:206-281 | no two requests of a run, completed or in flight, share a key |
| `CrawlResults.RecordedDepthIsARealPath` | crates/crawl/src/lib.rs:214-269 | under any concurrency and schedule, each recorded depth is the length of a real link path from the seed and within the limit |
| `CrawlResults.DepthsStayBelowLimit` | crates/crawl/src/lib.rs:240-241 | a depth limit at least the number of reachable pages never binds |
| `CrawlResults.DrainedCrawlIsComplete` | crates/crawl/src/lib.rs:193-285 | if the queue drains, the visited keys are exactly the keys reachable by in-scope, filter-passing links, and all were requested |
| `CrawlResults.CrawlCount` | crates/crawl/src/lib.rs:193-285 | every finished crawl returns exactly min(limit, number of reachable answering pages), and all of those when they fit |
| `CrawlResults.CollectedAreReachable` | crates/crawl/src/lib.rs:206-281 | under any schedule, limit and depth, every page returned is the answer at the end of a real link path from the seed |
| `CrawlResults.ReachableAreCollected` | crates/crawl/src/lib.rs:193-285 | if the queue drains, every page at the end of such a path is returned |
| `CrawlResults.ScheduleIndependence` | crates/crawl/src/lib.rs:193-285 | two finished crawls with any two concurrencies and completion orders return equally many pages, and the same pages when the limit is not reached |
| `CrawlResults.StepsTerminate` | crates/crawl/src/lib.rs:214-281 | every step lowers (pages still wanted, work in hand) lexicographically, for every site, finite or not |
| `CrawlOrder.SerialCrawlIsBreadthFirst` | crates/crawl/src/lib.rs:190-192 | with one request at a time the returned pages are the answers of the discovered pages in discovery order, depths ascend, and the queue spans at most two levels |
| `CrawlOrder.SerialDepthIsShortest` | crates/crawl/src/lib.rs:214-269 | with one request at a time no path to a page is shorter than its recorded depth |
| `CrawlOrder.SerialCrawlCoversDepth` | crates/crawl/src/lib.rs:240-269 | a drained serial crawl requested exactly the pages within the link distance set, or within 2^32 - 1 if none is |
| `CrawlOrder.CompletionStaysNear` | crates/crawl/src/lib.rs:214-228 | with c requests at a time every request completes fewer than c places from where it was discovered, in every run |
| `CrawlOrderLimits.BatchesBreakOrder` | crates/crawl/src/lib.rs:190-222 | for every concurrency of two or more a drained crawl of a concrete site returns two answering pages in the wrong order |
| `CrawlOrderLimits.BatchesStrayFar` | crates/crawl/src/lib.rs:214-228 | for every concurrency c and every k below it some run completes a request k places or more from where it was discovered |
| `CrawlOrderLimits.BatchesMisrecordDepth` | crates/crawl/src/lib.rs:214-269 | for every concurrency of two or more a concrete run records depth three for a page two links away |
| `CrawlOrderLimits.BatchesMissPages` | crates/crawl/src/lib.rs:240-269 | that run drains with depth limit three without ever requesting a page three links away |
| `CrawlOrderLimits.ResultOrderIffSerial` | crates/crawl/src/lib.rs:190-285 | the documented order of the returned list holds for all sites and schedules if and only if the concurrency is 1 |
| `CrawlOrderLimits.CompletionBoundIsExact` | crates/crawl/src/lib.rs:214-228 | completions stay within k places of discovery for all sites and schedules if and only if k is at least the concurrency |
| `CrawlOrderLimits.ShortestDepthsIffSerial` | crates/crawl/src/lib.rs:214-285 | recorded depths are shortest for all sites and schedules if and only if the concurrency is 1 |
| `CrawlOrderLimits.DepthCoverageIffSerial` | crates/crawl/src/lib.rs:240-285 | drained crawls cover exactly their depth limit for all sites and schedules if and only if the concurrency is 1 |
| `CrawlOrderLimits.OrderBySetting` | crates/crawl/src/lib.rs:198-285 | in terms of `max_concurrency`: the documented order holds for all sites if and only if it is set to 1 or to 0, which is taken as 1 |
| `CrawlOrderLimits.StrayingBySetting` | crates/crawl/src/lib.rs:198-228 | completions stay within k places if and only if k is at least the setting, 1 for 0 and 5 for none |
| `Dom.DropStyleKeepsWanted` | crates/extract/src/content.rs:277-394 | removing the style attribute never makes a kept element unwanted |
| `Dom.HeadingUnwantedIffHidden` | crates/extract/src/content.rs:277-336 | the noise words never remove a heading: it is unwanted exactly when it is hidden |
| `Dom.HidingStyleIff` | crates/extract/src/content.rs:338-394 | an inline style hides its element whatever its spacing and case, exactly if it then holds one of the three declarations |
| `Dom.ListedWordIsNoise` | crates/extract/src/content.rs:277-336 | a listed word or prefix among the classes or the id makes any element but a heading unwanted, case and underscores aside |
| `Dom.DataImageIsUnwanted` | crates/extract/src/content.rs:402-412 | an image with its data in place is unwanted |
| `Dom.TailHeadingIff` | crates/extract/src/content.rs:1124-1142 | exactly which headings open the tail: by id, case and underscores aside, or by the whole text, case and blanks aside |
| `Dom.HiddenIsUnwanted` | crates/extract/src/content.rs:338-394 | each explicit way to hide an element makes it unwanted, whatever its tag |
| `Serialise.PruneTwice` | crates/extract/src/content.rs:264-275 | pruning a pruned forest changes nothing |
| `Serialise.EventsAreWellNested` | crates/extract/src/content.rs:396-437 | the emitted open and close events of any forest, pruned or not, are well nested |
| `Kept.PrunedEventsAreKept` | crates/extract/src/content.rs:396-437 | the events of the pruned forest are, nesting and all, those of a walk of the document that keeps a wanted element's tags whatever it is in, drops an unwanted one's, and keeps text outside unwanted elements |
| `Kept.KeptTagsAreWantedElements` | crates/extract/src/content.rs:413-425 | the tags kept are exactly the wanted elements', in document order, those under unwanted elements included, each with its attributes other than style |
| `Kept.EventsReadBack` | crates/extract/src/content.rs:1089-1122 | the uncut events lose nothing but comments: the forest can be built back from them |
| `TagReader.UnescapeInvertsEscape` | crates/extract/src/content.rs:463-473 | an escaped value holds no quote and reads back as the value |
| `TagReader.OpenTagReadsBack` | crates/extract/src/content.rs:439-461 | a printed opening tag reads back as its name and its attributes other than style, with every value intact |
| `Walker.Walk.PushEscapedAttr` | crates/extract/src/content.rs:463-473 | the escaper appends exactly the escaped value |
| `Walker.Walk.SerialiseOpen` | crates/extract/src/content.rs:439-461 | the opening tag appended leaves out style, escapes values, and self-closes the six void names |
| `Walker.Walk.WalkAndSerialise` | crates/extract/src/content.rs:396-437 | the recursive walk emits exactly the events of the pruned node under the current ancestors and restores the ancestor stack |
| `Walker.Walk.WalkChildren` | crates/extract/src/content.rs:396-437 | the loop over children emits exactly the events of the pruned forest and restores the stack |
| `Walker.StripUnwanted` | crates/extract/src/content.rs:267-275 | the output is the serialisation of the pruned forest, and equally what the independent walk keeps: `<p>Hi</p>` stays `<p>Hi</p>` |
| `Walker.UntilTailIsLongestPrefix` | crates/extract/src/content.rs:1067-1122 | the kept events are the prefix that ends exactly before the first tail heading opens |
| `Walker.KeptTextIsPrefix` | crates/extract/src/content.rs:1067-1122 | the kept text is a prefix of the uncut serialisation |
| `Walker.OpenElementsAreAncestors` | crates/extract/src/content.rs:1075-1122 | at the cut the elements left open are exactly the tail heading's ancestors, outermost first |
| `Walker.Walk.WalkWithCut` | crates/extract/src/content.rs:1089-1122 | the cutting walk emits the node's events up to its first tail heading, none once cut, and sets the flag exactly when it met one |
| `Walker.Walk.WalkChildrenWithCut` | crates/extract/src/content.rs:1089-1122 | the same for a forest: a cut in one child silences all later ones |
| `Walker.StripWikipediaTail` | crates/extract/src/content.rs:1067-1087 | the result is the serialisation before the first tail heading, or the input when that is empty |
| `VisibleText.VisibleTextLen` | crates/extract/src/content.rs:1024-1037 | the scanning loop computes the count of non-white-space characters outside tags |
| `VisibleText.EscapeRemovesBrackets` | crates/extract/src/content.rs:463-473 | no escaped attribute value contains an angle bracket |
| `VisibleText.TagIsInvisible` | crates/extract/src/content.rs:1024-1037 | a tag without inner `>` counts nothing and leaves the scanner outside, whatever state it was in |
| `VisibleText.PrunedTextSurvives` | crates/extract/src/content.rs:396-437 | the text of the pruned forest is the text of the nodes without unwanted ancestors, in order |
| `VisibleText.VisibleTextIsSurvivingText` | crates/extract/src/content.rs:1024-1037 | on walker output, for every attribute value, the scanner never over-counts, and equals the non-white-space count of the surviving text if and only if that text has no angle bracket |
| `Hosts.NormalizeTwice` | crates/antibot/src/cookie_jar.rs:516-518 | normalising again changes nothing exactly when the trimmed host has no white space behind its leading dots |
| `Hosts.NormalizeTwiceCanDiffer` | crates/antibot/src/cookie_jar.rs:516-518 | a dot, a space and a letter need two passes |
| `Hosts.NormalizeHostForgets` | crates/antibot/src/cookie_jar.rs:516-518 | blanks around a host, dots before it and the case of its letters do not matter, and nothing else is lost |
| `Hosts.HostCandidates` | crates/antibot/src/cookie_jar.rs:544-560 | the loop returns the normalised host and each non-empty parent domain |
| `Hosts.CandidatesAreDomainMatches` | crates/antibot/src/cookie_jar.rs:542-560 | a name is a candidate of a host exactly when the host domain-matches it (section 5.1.3 of RFC 6265, without the IP clause) |
| `Hosts.CandidatesDescend` | crates/antibot/src/cookie_jar.rs:544-560 | candidates come in strictly decreasing length, each once |
| `Hosts.FromHosts` | crates/fetch/src/flaresolverr.rs:113-131 | the built list allows a host exactly when one of the configured entries does; blank entries allow nothing |
| `Hosts.IsAllowed` | crates/fetch/src/flaresolverr.rs:143-170 | the search answers for the lower-cased host: exact entry, wildcard suffix or parent domain |
| `Hosts.EntryAllowsSomeHostIff` | crates/fetch/src/flaresolverr.rs:113-170 | a configured entry can allow some host if and only if it is not blank and, when a wildcard, was typed in lower case |
| `Hosts.OneDomainRule` | crates/antibot/src/cookie_jar.rs:544-560 | the FlareSolverr cookie test, the allowlist's walk over any set of entries and the crawler's subdomain test all ask about membership in the jar's candidate list |
| `CookieJar.Jar.SetCookie` | crates/antibot/src/cookie_jar.rs:112-131 | one entry is stored under the normalised host with its absolute expiry; overflow means none |
| `CookieJar.BucketParts` | crates/antibot/src/cookie_jar.rs:146-151 | a bucket yields each unexpired cookie exactly once, in some order |
| `CookieJar.Jar.CookieHeaderFor` | crates/antibot/src/cookie_jar.rs:139-159 | the header carries exactly the stored cookies whose host the URL host domain-matches and whose expiry, if any, the clock has not reached, each once, longest host first |
| `CookieJar.LifetimeLaw` | crates/antibot/src/cookie_jar.rs:112-159 | a cookie stored at t with age s > 0 is sent to each matching host at t' exactly while t' < t + s (for ever if t + s does not fit 64 bits), with age 0 never from t on, without an age always |
| `CookieJar.Jar.ClearExpired` | crates/antibot/src/cookie_jar.rs:163-170 | exactly the unexpired part remains, without empty buckets |
| `CookieJar.LiveMeans` | crates/antibot/src/cookie_jar.rs:163-170 | a sweep keeps exactly the cookies whose expiry the clock has not reached, unchanged, and no empty bucket |
| `CookieJar.Jar.ClearForHost` | crates/antibot/src/cookie_jar.rs:182-195 | exactly the candidate buckets go, and the result is the drop in total cookie count |
| `CookieJar.Jar.ClearForHostExceptHitl` | crates/antibot/src/cookie_jar.rs:245-270 | exactly the unprotected candidate buckets go, and the result is the drop in total cookie count |
| `HitlSolve.L1ClearBucketByBucket` | crates/antibot/src/cookie_jar.rs:245-270 | a bucket survives an L1 clear, unchanged, exactly when it is non-empty and the clear does not reach it or it is protected; no empty bucket is left |
| `HitlSolve.PlainClearBucketByBucket` | crates/antibot/src/cookie_jar.rs:182-195 | a plain clear takes exactly the buckets of the host and its parent domains |
| `HitlSolve.EntrySurvivesIff` | crates/antibot/src/cookie_jar.rs:112-270 | over any interleaving of stores, stamps and L1 clears, an entry not stored again is there unchanged at the end exactly when no clear reached it unprotected |
| `HitlSolve.LifetimeOverRuns` | crates/antibot/src/cookie_jar.rs:112-270 | over any run of stores, stamps and clears that neither replaces nor drops it, a cookie is sent exactly for its lifetime |
| `HitlSolve.SurvivesHourIff` | crates/antibot/src/cookie_jar.rs:209-270 | a cookie survives every sequence of L1 clears within 3600 s of t, of any hosts, if and only if its bucket was stamped at t or later or is one no clear looks at |
| `HitlSolve.StampExpires` | crates/antibot/src/cookie_jar.rs:245-270 | from 3600 s on, an L1 clear of the host empties its bucket |
| `HitlSolve.HandleHitlSolve` | crates/server/src/handlers.rs:274-325 | a solve is refused, changing nothing, exactly without cookies or without any domain or host; else the only new stamp is that of the first cookie with a domain, or of the entry's host if none has one; every cookie is stored under its own domain or that host with its own clock reading; and each one under the stamped host survives all L1 clears of the hour |
| `HitlSolve.SolveCoverageIff` | crates/server/src/handlers.rs:293-325 | a cookie of an undisturbed solve survives all L1 clears of the hour if and only if its domain is the resolved host, carries a stamp as late, or is empty |
| `HitlSolve.TwoDomainSolveLosesOne` | crates/server/src/handlers.rs:298-325 | a concrete solve for two domains covers the first cookie and not the second |
| `HitlSolve.DisturbedSolveIff` | crates/server/src/handlers.rs:298-325 | with other calls between the steps of a solve, a cookie under the resolved host is there at the end of the hour exactly when no clear dropped it between its injection and the stamp |
| `CookieRuns.LoadFromPath` | crates/antibot/src/cookie_jar.rs:453-495 | loading fails exactly on an unreadable file; a missing or empty one gives an empty jar, a snapshot exactly its unexpired part |
| `CookieRuns.Load` | crates/antibot/src/cookie_jar.rs:474-487 | the copying loop yields exactly the unexpired part, without empty buckets |
| `CookieRuns.SweepsDoNotChangeHeaders` | crates/antibot/src/cookie_jar.rs:163-170 | dropping expired cookies changes no header built then or later, for any host, under a monotone clock |
| `CookieRuns.SeedCookieJar` | crates/server/src/state.rs:266-280 | the re-seed loop stores every loaded cookie with its expiry converted to an age and back |
| `CookieRuns.ReseedRestoresExpiry` | crates/server/src/state.rs:267-279 | the expiry comes back later by exactly the clock advance between the two readings; what no longer fits 64 bits never expires |
| `CookieRuns.RowsAreRestoredIff` | crates/server/src/state.rs:266-280 | re-seeding a fresh jar brings every row back, re-dated, and nothing else, if and only if no two rows that normalise to one host and name differ |
| `CookieRuns.SaveLoadReseed` | crates/antibot/src/cookie_jar.rs:399-495 | after save, load and re-seed every entry is an unexpired cookie with its value under its normalised host, its expiry later by at most the clock advance and lost only if it no longer fits 64 bits; every unexpired cookie's normalised host and name has an entry, its own if no two stored hosts with that name normalise alike |
| `CookieText.ParseCookiesText` | crates/server/src/handlers.rs:525-566 | the loop returns the readable pairs in order, hands on a JSON array, and fails when nothing is readable |
| `CookieText.ReadBackCookies` | crates/fetch/src/cdp.rs:532-538 | the loop stores each pair of the text, in order, as a session cookie of the page's host |
| `CookieText.ReadBackIsStored` | crates/fetch/src/cdp.rs:532-538 | every cookie read back is stored for good under the page's host, unless a later one of its name replaced it |
| `CookieText.ReadBackLeavesTheRest` | crates/fetch/src/cdp.rs:532-538 | nothing else in the jar changes |
| `CookieText.EveryParseIsReadable` | crates/server/src/handlers.rs:541-562 | whatever the text, each parsed cookie is trimmed and free of separators |
| `CookieText.ParseTakesApart` | crates/server/src/handlers.rs:541-562 | both readers take any text apart at semicolons, the solve form at newlines too, and read the parts one by one |
| `CookieText.ParseReadsPair` | crates/server/src/handlers.rs:543-556 | a part without an equals sign is skipped; else the first one parts name and value, both trimmed; only the solve form skips an empty name |
| `CookieText.PrintJoins` | crates/antibot/src/cookie_jar.rs:139-159 | printed cookies are `name=value` joined by a semicolon and a space |
| `CookieText.ReadBackRoundTrip` | crates/fetch/src/cdp.rs:532-538 | printed pairs are read back unchanged and in order if and only if each is readable |
| `CookieText.CookieHeaderFor` | crates/antibot/src/cookie_jar.rs:139-159 | there is no header exactly when no cookie is carried; otherwise it is the carried pairs joined, and the browser loop reads it back as those, in order, if and only if each carried cookie is readable |
| `CookieText.SolveFormRoundTrip` | crates/server/src/handlers.rs:525-566 | the solve form reads printed pairs back if and only if there is one, each is readable, and the text does not open with a bracket |
| `CookieText.ParsingIsStable` | crates/server/src/handlers.rs:525-566 | parse, print, parse again changes nothing unless the first name opens with a bracket |
| `Rotation.HostCounters.CounterFor` | crates/antibot/src/block_detection.rs:395-400 | get-or-create returns the host's own counter, keeps every other counter object and value, and never shares one |
| `Rotation.HostCounters.RecordRotation` | crates/fetch/src/ladder.rs:861 | one host's count rises by one, all other hosts unchanged |
| `Rotation.HostCounters.Decide` | crates/antibot/src/rotation.rs:69-121 | the decision and the host's new counter are those of the decision function, all other hosts unchanged |
| `Rotation.SerialLife` | crates/antibot/src/rotation.rs:69-121 | over any number of blocks handled one at a time the first clears, the next three rotate, first to profile five if there is one and then to the next in turn, and every later one fails |
| `RotationRuns.RotationsAreBounded` | crates/antibot/src/rotation.rs:77-120 | under any interleaving completed rotations never exceed 3 - 1 + the most requests that ever overlapped |
| `RotationRuns.BudgetBoundIsReached` | crates/antibot/src/rotation.rs:77-120 | for every ladder, host and overlap some interleaving of the separate profile read, respawn and record steps reaches the most rotations there can be |
| `RotationRuns.RotationBoundIsExact` | crates/antibot/src/rotation.rs:77-120 | for every ladder, host, overlap n and k: all runs stay within k rotations if and only if k is at least none, n or n + 2, by the ladder's shape |
| `RotationRuns.BudgetKeptIff` | crates/antibot/src/rotation.rs:77-120 | the budget of three is kept by all runs if and only if requests for the host do not overlap, there is at most one profile, or there are two distinct ones and at most three requests overlap |
| `RotationRuns.ClearsAreBounded` | crates/antibot/src/rotation.rs:93-100 | a host is L1-cleared at most as often as requests ever overlapped |
| `RotationRuns.ClearBoundIsReached` | crates/antibot/src/rotation.rs:93-100 | for every host and overlap some interleaving clears exactly that often |
| `RotationRuns.ClearsOnceIffSerial` | crates/antibot/src/rotation.rs:93-100 | a host is cleared at most once in all runs if and only if requests for it do not overlap |
| `RotationRuns.SpentBudgetFails` | crates/antibot/src/rotation.rs:85-91 | once the count is three, every later blocked request fails, whatever happened in between |
| `RotationRuns.CountersNeverFall` | crates/antibot/src/block_detection.rs:337-375 | along any run counts never fall and the L1 flag stays set |
| `RotationRuns.HostsAreIndependent` | crates/antibot/src/block_detection.rs:391-400 | a step for one host leaves another host's counter and requests as they were |
| `RotationRuns.NoProxyNeverFails` | crates/fetch/src/ladder.rs:869-894 | without a TLS proxy, or with a single profile, nothing is ever recorded and no request fails |
| `RotationRuns.StepsRefineDecide` | crates/antibot/src/rotation.rs:77-120 | run without interruption, the interleaved steps are the in-place `decide` |
| `RotationRuns.StepsRefineRotate` | crates/fetch/src/tls_proxy.rs:381-457 | run without interruption, the profile read and the respawn are the in-place `rotate` |
| `TlsProxy.PrependKeepsDistinct` | crates/fetch/src/tls_proxy.rs:174-184 | the ladder starts with the initial profile, and is distinct exactly when the list was and the profile heads it or does not occur in it |
| `TlsProxy.ListIsRead` | crates/fetch/src/tls_proxy.rs:163-174 | the list is read at its commas, each entry trimmed, blank ones left out; an empty result or no list gives the five default profiles |
| `TlsProxy.Proxy.Rotate` | crates/fetch/src/tls_proxy.rs:381-458 | exhaustion changes nothing; success moves to the profile after the current one; failure keeps the profile and leaves no child |
| `TlsProxy.NextAfterFirst` | crates/fetch/src/tls_proxy.rs:355-365 | the next profile is the entry after the first occurrence of the current one |
| `TlsProxy.NextAfterStranger` | crates/fetch/src/tls_proxy.rs:355-365 | a profile that is not on the ladder has no successor |
| `TlsProxy.DistinctLadderIsServedInOrder` | crates/fetch/src/tls_proxy.rs:355-457 | on a distinct ladder n successes, with any failures between, serve entry n, and exhaustion comes after exactly len - 1 successes |
| `TlsProxy.RepeatedLadderNeverEnds` | crates/fetch/src/tls_proxy.rs:355-457 | with a repeat the walk circles between its two occurrences forever and never serves a new entry beyond it |
| `TlsProxy.ExhaustedIffDistinct` | crates/fetch/src/tls_proxy.rs:355-457 | some sequence of calls exhausts the ladder if and only if its profiles are distinct |
| `TlsProxy.EnvLadderEndsIff` | crates/fetch/src/tls_proxy.rs:162-184 | the ladder built from the environment can be exhausted if and only if the configured or default list is distinct and the initial profile heads it or does not occur in it |
| `TlsProxy.DefaultLadderCanCircle` | crates/fetch/src/tls_proxy.rs:162-184 | with no list configured and `chrome_117` first, the walk goes round two profiles forever |
| `TlsProxy.NoRotationIff` | crates/fetch/src/tls_proxy.rs:160-184 | there is nothing to rotate to from the start if and only if the list is the initial profile alone |
| `TlsProxy.BlankListStillRotates` | crates/fetch/src/tls_proxy.rs:160-174 | a list without a non-blank entry gives the default ladder, which rotates |
| `UserAgents.UserAgentRotator.Next` | crates/antibot/src/http_stealth.rs:145-158 | an empty pool gives the empty agent; otherwise one index is drawn, keeping all finished cycles permutations and the current one repeat-free |
| `UserAgents.Pigeonhole` | crates/antibot/src/http_stealth.rs:148-155 | fewer than n distinct draws leave an agent over; n leave none |
| `UserAgents.ChosenIsNew` | crates/antibot/src/http_stealth.rs:148-155 | within a cycle some agent is available, so the fallback to index 0 is never taken, and the chosen one was not drawn in this cycle |
| `UserAgents.AnyCanBeChosen` | crates/antibot/src/http_stealth.rs:148-155 | each available agent is some random choice's pick |
| `UserAgents.DrawsAreFair` | crates/antibot/src/http_stealth.rs:142-158 | after any m draws from n agents, each was drawn floor(m/n) or ceiling(m/n) times, for every random choice |
| `UserAgents.BlocksArePermutations` | crates/antibot/src/http_stealth.rs:142-158 | each aligned block of n draws is a permutation of the pool |
| `BrowserSlot.Slot.GetOrInit` | crates/fetch/src/cdp.rs:251-336 | the attempt loop, with the request possibly dropped after any launch, changes the slot as the step function says and returns a browser exactly when one lives |
| `BrowserSlot.StepLaunches` | crates/fetch/src/cdp.rs:251-336 | at most two launches a call, none once a browser lives, within the cooldown or with a bad configuration; a live browser stays |
| `BrowserSlot.StepOutcome` | crates/fetch/src/cdp.rs:251-336 | exactly when a call launches (no browser, no failure within thirty seconds, a good configuration), exactly when it launches again, when the browser lives, and that two failures start the cooldown |
| `BrowserSlot.LaunchesInWindow` | crates/fetch/src/cdp.rs:251-336 | launches spaced by backoff and cooldown: a window of T seconds holds at most 2 (floor(T/32) + 1), hence at most 2 (floor(T/30) + 1) |
| `BrowserSlot.WindowBound` | crates/fetch/src/cdp.rs:251-336 | in every run any window holds at most that allowance plus two launches for each call dropped between a launch and its record |
| `BrowserSlot.AllowanceKeptIff` | crates/fetch/src/cdp.rs:251-336 | the allowance is kept by all runs with at most k dropped calls if and only if k is 0 |
| `RateLimiter.Limiter.Wait` | crates/server/src/rate_limit.rs:55-103 | an undisturbed call is granted at once if the interval plus its jitter has passed since the last grant or there is none, else when it wakes after that; and it is the enter and wake steps of the interleavings run together |
| `RateLimiter.SleepIsExact` | crates/server/src/rate_limit.rs:82-96 | a caller sleeps exactly when the time asked for has not passed, and exactly until it has |
| `RateLimiter.GrantsFollowTheirRead` | crates/server/src/rate_limit.rs:82-102 | under any interleaving a grant is at least the interval after the grant its caller read |
| `RateLimiter.LastCallNeverDecreases` | crates/server/src/rate_limit.rs:82-102 | under any interleaving the recorded grant never moves back |
| `RateLimiter.SerialGrantsSpread` | crates/server/src/rate_limit.rs:55-103 | in serial runs the j-th and i-th grants are at least (j - i) intervals apart |
| `RateLimiter.OverlappingCallersCollide` | crates/server/src/rate_limit.rs:94-98 | two sleepers that read the same grant are granted at the same instant |
| `RateLimiter.SpacingIffSerial` | crates/server/src/rate_limit.rs:51-103 | the documented spacing holds for all runs if and only if no caller enters while another sleeps |
| `RateLimiter.WindowBoundIsExact` | crates/server/src/rate_limit.rs:82-102 | with at most c callers inside, all windows as long as the interval hold at most k grants if and only if k is at least c |
| `Ladder.InjectCookies` | crates/fetch/src/ladder.rs:514-557 | the loop stores, in order, exactly the solution's cookies whose domain the target matches, each with its own two clock readings |
| `Ladder.InjectionStaysOnSite` | crates/fetch/src/ladder.rs:510-548 | a solution changes no bucket but the target's own |
| `Ladder.InjectionIsOffered` | crates/fetch/src/ladder.rs:517-547 | every entry it changes was offered for a domain the target matches, with that value |
| `Ladder.OfferedIsInjected` | crates/fetch/src/ladder.rs:514-547 | every cookie that names no domain, or the target or a parent domain of it, is in the target's bucket afterwards with its value and expiry, unless a later one of its name replaced it |
| `Ladder.SolvedCookieNeverExpiresIff` | crates/fetch/src/ladder.rs:535-546 | a solution cookie is kept without expiry exactly when it names none or is already past; otherwise its expiry comes out later by exactly the advance between the two clock readings |
| `Ladder.FetchLadder.TryHttp` | crates/fetch/src/http.rs:277-281 | whatever the answer, the response's cookies are in the jar when it is judged |
| `Ladder.HeadersAreStored` | crates/fetch/src/http.rs:277-281 | every header's cookie is in the jar afterwards, with its value and lifetime, unless a later header replaced it |
| `Ladder.HeadersLeaveTheRest` | crates/fetch/src/http.rs:277-281 | nothing else in the jar changes |
| `Ladder.FetchLadder.TryCdp` | crates/fetch/src/cdp.rs:532-538 | whatever the answer, the cookies read back from the page are in the jar, if the browser shares it |
| `Ladder.FetchLadder.TryFlareSolverr` | crates/fetch/src/ladder.rs:420-575 | FlareSolverr is called exactly for an allowlisted host with a client; a rejected or failed solution leaves the jar alone, an accepted one injects its cookies |
| `Ladder.FetchLadder.Escalate` | crates/fetch/src/ladder.rs:598-660 | where FlareSolverr is wanted its answer is final when it is called, else the given result stands; either way the pass keeps its promises |
| `Ladder.CallsInLadderOrder` | crates/fetch/src/ladder.rs:578-747 | the calls of a pass: each backend at most once, in ladder order, never an absent or forbidden one, none only where the browser is required and missing |
| `Ladder.FetchLadder.RunLadder` | crates/fetch/src/ladder.rs:578-747 | the branches of a pass make exactly the specified calls and return the last one's answer under a fitting label, the jar following the calls |
| `Ladder.FetchLadder.Fetch` | crates/fetch/src/ladder.rs:578-747 | for all answers: HTTP unless the browser is required, the browser exactly when it is there and HTTP was skipped, failed or must escalate, FlareSolverr exactly when it may be used and what came before is rejected or missing after an HTTP page; the result is the last call's answer, rejected solutions being errors; the jar is the response's cookies, then the page's, then an accepted solution's |
| `Ladder.NoRejectedPage` | crates/fetch/src/ladder.rs:578-747 | where FlareSolverr may be used no pass succeeds with a page its own test rejects, except one FlareSolverr gave, and a browser failing after a rejected HTTP page leads to FlareSolverr |
| `Ladder.NothingAfterAcceptance` | crates/fetch/src/ladder.rs:578-747 | no backend is called after a page its own test accepts |
| `Ladder.PassIsDetermined` | crates/fetch/src/ladder.rs:578-747 | these promises leave one possible result under one label |
| `Ladder.FetchLadder.RotateAndRecord` | crates/fetch/src/ladder.rs:817-861 | the count rises exactly when the proxy really moved, to the profile after its current one; otherwise its profile stays |
| `Ladder.FetchLadder.ClearAndRefetch` | crates/fetch/src/ladder.rs:784-809 | the second pass of an L1 clear runs from the jar with the host's unprotected buckets gone |
| `Ladder.ClearForgetsFirstPass` | crates/fetch/src/ladder.rs:784-809 | after the clear nothing the blocked first pass stored for the host is left, except under recently solved domains |
| `Ladder.FetchLadder.FetchWithRotation` | crates/fetch/src/ladder.rs:767-909 | one or two passes, each with the promises of a pass; the second exactly after an L1 clear or a successful rotation; the result, counter and proxy profile of all cases, and the jar as the effects of the first pass's calls, the clear, and the second pass's calls; other hosts untouched |

## Left out

- URL parsing and printing: a parsed URL is a value whose serialisation is one-to-one; a crawl seed that does not parse is an error in the source and not modelled.
- HTML parsing and link extraction: trees and the links of a page are inputs; `br` and the other void names print both ` />` and a closing tag, so the walkers are stated over open, close and text events, not over a re-parse of the output.
- The regular-expression engine beyond the fragment the compiler emits, and its size limit.
- The web is a function from URL to answer in the crawl; since no page is requested twice, this covers changing sites for one crawl. Comparing two crawls assumes that both meet the same site.
- Request fields of the crawl that its loop does not read, and the scraping pipeline that turns a fetch into a page.
- "Unlimited" crawl depth is the 32-bit bound in the code, so completeness asks for a depth limit of at least the number of reachable pages.
- JSON: cookie arrays in the solve form are handed on unread, and the snapshot file is a value, its rename one step.
- `set_from_set_cookie`: a response's cookies enter the ladder as its parse of each header (host, name, value, age), not as text; and the fallback host parsing of `url_host` and `url_host_str`: hosts are inputs.
- Ladder.FetchLadder.Fetch: other requests that use the same jar between its calls; `HitlSolve.EntrySurvivesIff` is about such interleavings.
- HTTP, browser, FlareSolverr, proxy process and webhook I/O: their outcomes are parameters.
- Page heuristics (`detect`, `diagnose`, `http_should_escalate`, `cdp_is_empty_or_blocked`, `validate_flaresolverr_solution`) are uninterpreted; `needs_cdp` is a flag of the request.
- Situation reports, screenshots, scores, Bezier mouse paths and other floating-point tuning.
- Environment variables other than the profile ladder, routes, authentication, the HITL queue file, the crawl-job status machine, sitemap and search mapping.
- Case folding, trimming and comparison are on single characters: full Unicode lower-casing is ASCII lower-casing here.
- Wrap-around of the 64-bit rotation counter. In the interleavings the proxy's respawn is one step, with its outcome a parameter; whose child process survives two overlapping respawns is not modelled.
- HitlSolve.HandleHitlSolve: the queue file is not modelled, nor is a solve that fails on it after its injections.
- Setters whose contract is their assignments (`Jar.Snapshot`, `Jar.MarkHitlSolved`, `HostBlockCounter.MarkL1Attempted`, `HostBlockCounter.RecordRotation`, `Proxy.Kill`) have no row; `SaveLoadReseed`, `HandleHitlSolve`, `CountersNeverFall`, `HostCounters.RecordRotation` and `Proxy.Rotate` say what they are for.
- RateLimiter.Limiter.Wait: a call's grant is the instant it writes under the lock; the caller may resume later. The limiter with both settings zero returns before its lock and takes no part in the interleavings.
- BrowserSlot.Slot.GetOrInit: that a request is dropped, and when, is an input; the error text of the last launch is not modelled, only that there is one.
