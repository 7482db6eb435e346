/** The fetch ladder: HTTP, then the browser, then FlareSolverr, wrapped in the
  * rotation ladder.  The backends' answers and the page heuristics are
  * parameters, so the results hold for every combination of outcomes. */
module Ladder {
  import opened Wrappers
  import Text
  import Hosts
  import CookieJar
  import CookieText
  import HitlSolve
  import Rotation
  import TlsProxy

  datatype Backend = Http | Cdp | Flare

  datatype Source = FromHttp | FromCdp | FromHttpThenCdp | FromFlare | FromCdpThenFlare

  datatype Fetch = Fetch(url: string, status: nat, html: string)

  type i64 = n: int | -0x8000_0000_0000_0000 <= n <= 0x7FFF_FFFF_FFFF_FFFF

  /** A cookie of a FlareSolverr solution; `expires` is a signed Unix time. */
  datatype SolvedCookie = SolvedCookie(name: string, value: string, domain: Option<string>, expires: Option<i64>)

  datatype Solution = Solution(fetch: Fetch, cookies: seq<SolvedCookie>)

  /** What is configured, and what the request asks for.  The HTTP fetcher's jar is
    * always the ladder's; the browser's is if `cdpSharesJar`. */
  datatype Settings = Settings(needsCdp: bool, hasCdp: bool, cdpSharesJar: bool, hasFlare: bool,
                               host: Option<string>, allowlist: Hosts.Allowlist)

  /** The page heuristics, uninterpreted. */
  datatype Judge = Judge(httpShouldEscalate: Fetch -> bool, emptyOrBlocked: Fetch -> bool,
                         suggestsFlare: Fetch -> bool, solutionRejected: Fetch -> bool)

  /** One `Set-Cookie` header of a response, as parsed, and the clock when it is stored. */
  datatype SetCookie = SetCookie(host: string, name: string, value: string, maxAge: Option<nat>, now: CookieJar.Clock)

  /** The text of `document.cookie` on the host of the page. */
  datatype DocumentCookie = DocumentCookie(host: string, text: string)

  /** What the backends answer during one pass.  Whether a call succeeds or not, the
    * HTTP response may have set cookies and the browser may have read some back;
    * `clock` is read twice for each cookie of a FlareSolverr solution. */
  datatype Answers = Answers(http: Result<Fetch, string>, setCookies: seq<SetCookie>,
                             cdp: Result<Fetch, string>, document: Option<DocumentCookie>,
                             flare: Result<Solution, string>, clock: nat -> CookieJar.Clock)

  datatype LadderResult = LadderResult(fetch: Fetch, source: Source)

  // ----- FlareSolverr -----

  predicate FlareAllowed(s: Settings) {
    s.host.Some? && Hosts.ListAllows(s.allowlist, Text.ToAsciiLower(s.host.value)) && s.hasFlare
  }

  function CookieDomain(c: SolvedCookie, target: string): string {
    match c.domain
    case None => target
    case Some(d) => Text.ToAsciiLower(Text.TrimStartOf(d, '.'))
  }

  function MaxAge(c: SolvedCookie, now: nat): Option<nat> {
    match c.expires
    case None => None
    case Some(exp) => if exp > now then Some(exp - now) else None
  }

  /** The entry stored for the i-th cookie: its age is taken at one clock reading
    * and added to the next. */
  function SolvedEntry(c: SolvedCookie, clock: nat -> CookieJar.Clock, i: nat): CookieJar.Entry {
    CookieJar.Entry(c.value, CookieJar.ExpiryOf(MaxAge(c, CookieJar.Seconds(clock(2 * i))), clock(2 * i + 1)))
  }

  function InjectAll(jar: CookieJar.Cookies, cookies: seq<SolvedCookie>, target: string, clock: nat -> CookieJar.Clock): CookieJar.Cookies {
    if cookies == [] then jar
    else
      var last := |cookies| - 1;
      var c, before := cookies[last], InjectAll(jar, cookies[..last], target, clock);
      if Hosts.DomainMatch(target, CookieDomain(c, target))
      then CookieJar.Store(before, Hosts.NormalizeHost(target), c.name, SolvedEntry(c, clock, last)) else before
  }

  method InjectCookies(jar: CookieJar.Jar, cookies: seq<SolvedCookie>, target: string, clock: nat -> CookieJar.Clock)
    modifies jar`cookies
    ensures jar.cookies == InjectAll(old(jar.cookies), cookies, target, clock)
  {
    hide Hosts.NormalizeHost, CookieDomain, CookieJar.Store, CookieJar.ExpiryOf, MaxAge;
    for i := 0 to |cookies|
      invariant jar.cookies == InjectAll(old(jar.cookies), cookies[..i], target, clock)
    {
      assert cookies[..i + 1][..i] == cookies[..i];
      var c := cookies[i];
      var cookieDomain := CookieDomain(c, target);
      var domainOk := cookieDomain == target || Text.EndsWith(target, "." + cookieDomain);
      if !domainOk {
        continue;
      }
      var maxAge := MaxAge(c, CookieJar.Seconds(clock(2 * i)));
      jar.SetCookie(target, c.name, c.value, maxAge, clock(2 * i + 1));
    }
    assert cookies[..|cookies|] == cookies;
  }

  /** The solution holds this value under this name, for a domain that the target matches. */
  predicate Offered(cookies: seq<SolvedCookie>, target: string, name: string, value: string) {
    exists c | c in cookies :: c.name == name && c.value == value && Hosts.DomainMatch(target, CookieDomain(c, target))
  }

  /** The jar holds the same entry for host and name before and after. */
  predicate SameEntry(before: CookieJar.Cookies, after: CookieJar.Cookies, host: string, name: string) {
    (host in after && name in after[host]) ==>
      host in before && name in before[host] && before[host][name] == after[host][name]
  }

  /** Solver cookies never leak across sites: only the target's own bucket changes. */
  lemma {:induction false} InjectionStaysOnSite(jar: CookieJar.Cookies, cookies: seq<SolvedCookie>, target: string,
                                                clock: nat -> CookieJar.Clock)
    ensures var after := InjectAll(jar, cookies, target, clock);
      forall h | h != Hosts.NormalizeHost(target) :: (h in after <==> h in jar) && (h in jar ==> after[h] == jar[h])
  {
    hide Hosts.NormalizeHost, Hosts.DomainMatch, CookieDomain;
    if cookies != [] {
      InjectionStaysOnSite(jar, cookies[..|cookies| - 1], target, clock);
    }
  }

  /** And every changed entry was offered for a domain that the target matches. */
  lemma {:induction false} InjectionIsOffered(jar: CookieJar.Cookies, cookies: seq<SolvedCookie>, target: string,
                                              clock: nat -> CookieJar.Clock, n: string)
    requires !SameEntry(jar, InjectAll(jar, cookies, target, clock), Hosts.NormalizeHost(target), n)
    ensures Offered(cookies, target, n, InjectAll(jar, cookies, target, clock)[Hosts.NormalizeHost(target)][n].value)
  {
    hide Hosts.NormalizeHost, Hosts.DomainMatch, CookieDomain;
    if cookies != [] {
      var before, c := cookies[..|cookies| - 1], cookies[|cookies| - 1];
      assert c in cookies && forall d | d in before :: d in cookies;
      if !Hosts.DomainMatch(target, CookieDomain(c, target)) || n != c.name {
        InjectionIsOffered(jar, before, target, clock, n);
      }
    }
  }

  /** Every cookie offered for a domain the target matches, given in the text's own
    * terms, is in the target's bucket afterwards, unless a later one of its name
    * replaced it. */
  lemma {:induction false} OfferedIsInjected(jar: CookieJar.Cookies, cookies: seq<SolvedCookie>, target: string,
                                             clock: nat -> CookieJar.Clock, i: nat)
    requires i < |cookies| && IsForTarget(cookies[i], target)
    requires forall k | i < k < |cookies| && cookies[k].name == cookies[i].name :: !IsForTarget(cookies[k], target)
    ensures CookieJar.Lookup(InjectAll(jar, cookies, target, clock), Hosts.NormalizeHost(target), cookies[i].name)
         == Some(SolvedEntry(cookies[i], clock, i))
  {
    hide Hosts.NormalizeHost, CookieJar.Store, CookieJar.Lookup, SolvedEntry, IsForTarget, Hosts.DomainMatch;
    var last := |cookies| - 1;
    var before, c := InjectAll(jar, cookies[..last], target, clock), cookies[last];
    MatchIsForTarget(c, target);
    CookieJar.LookupAfterStore(before, Hosts.NormalizeHost(target), c.name, SolvedEntry(c, clock, last));
    if i < last {
      OfferedIsInjected(jar, cookies[..last], target, clock, i);
    }
  }

  /** The cookie names no domain, or, its case and leading dots aside, the target or a
    * parent domain of it. */
  predicate IsForTarget(c: SolvedCookie, target: string) {
    match c.domain
    case None => true
    case Some(d) =>
      var domain := Text.ToAsciiLower(Text.TrimStartOf(d, '.'));
      target == domain || Text.EndsWith(target, "." + domain)
  }

  lemma MatchIsForTarget(c: SolvedCookie, target: string)
    ensures Hosts.DomainMatch(target, CookieDomain(c, target)) <==> IsForTarget(c, target)
  {
  }

  /** A solver cookie is stored without an expiry, that is, kept for good, exactly when
    * it names none or is already past; otherwise its expiry comes out later by the
    * advance of the clock between its two readings, which fit a signed 64-bit number. */
  lemma SolvedCookieNeverExpiresIff(c: SolvedCookie, clock: nat -> CookieJar.Clock, i: nat)
    requires clock(2 * i).Some? && clock(2 * i + 1).Some?
    requires clock(2 * i).value <= clock(2 * i + 1).value <= 0x7FFF_FFFF_FFFF_FFFF
    ensures var stored, first, second := SolvedEntry(c, clock, i).expiresAt, clock(2 * i).value, clock(2 * i + 1).value;
      && (stored.None? <==> c.expires.None? || c.expires.value <= first)
      && (stored.Some? ==> stored.value == c.expires.value + (second - first))
  {
  }

  // ----- what the other backends store -----

  /** The headers of a response, stored in order. */
  function StoreHeaders(jar: CookieJar.Cookies, headers: seq<SetCookie>): CookieJar.Cookies {
    if headers == [] then jar
    else
      var last := headers[|headers| - 1];
      CookieJar.Store(StoreHeaders(jar, headers[..|headers| - 1]), Hosts.NormalizeHost(last.host), last.name,
                      CookieJar.Entry(last.value, CookieJar.ExpiryOf(last.maxAge, last.now)))
  }

  /** Every header's cookie is in the jar afterwards, unless a later one replaced it. */
  lemma {:induction false} HeadersAreStored(jar: CookieJar.Cookies, headers: seq<SetCookie>, i: nat)
    requires i < |headers|
    requires forall k | i < k < |headers| :: !SameCookie(headers[k], headers[i])
    ensures CookieJar.Lookup(StoreHeaders(jar, headers), Hosts.NormalizeHost(headers[i].host), headers[i].name)
         == Some(CookieJar.Entry(headers[i].value, CookieJar.ExpiryOf(headers[i].maxAge, headers[i].now)))
  {
    hide Hosts.NormalizeHost, CookieJar.Store, CookieJar.Lookup, CookieJar.ExpiryOf;
    var before, last := headers[..|headers| - 1], headers[|headers| - 1];
    CookieJar.LookupAfterStore(StoreHeaders(jar, before), Hosts.NormalizeHost(last.host), last.name,
                               CookieJar.Entry(last.value, CookieJar.ExpiryOf(last.maxAge, last.now)));
    if i < |headers| - 1 {
      assert !SameCookie(last, headers[i]);
      HeadersAreStored(jar, before, i);
    }
  }

  /** And nothing else changes. */
  lemma {:induction false} HeadersLeaveTheRest(jar: CookieJar.Cookies, headers: seq<SetCookie>, host: string, name: string)
    requires forall h | h in headers :: Hosts.NormalizeHost(h.host) != host || h.name != name
    ensures CookieJar.Lookup(StoreHeaders(jar, headers), host, name) == CookieJar.Lookup(jar, host, name)
  {
    hide Hosts.NormalizeHost, CookieJar.Store, CookieJar.Lookup, CookieJar.ExpiryOf;
    if headers != [] {
      var before, last := headers[..|headers| - 1], headers[|headers| - 1];
      assert last in headers && forall h | h in before :: h in headers;
      HeadersLeaveTheRest(jar, before, host, name);
      CookieJar.LookupAfterStore(StoreHeaders(jar, before), Hosts.NormalizeHost(last.host), last.name,
                                 CookieJar.Entry(last.value, CookieJar.ExpiryOf(last.maxAge, last.now)));
    }
  }

  predicate SameCookie(one: SetCookie, other: SetCookie) {
    one.name == other.name && Hosts.NormalizeHost(one.host) == Hosts.NormalizeHost(other.host)
  }

  method TakeHeaders(jar: CookieJar.Jar, headers: seq<SetCookie>)
    modifies jar`cookies
    ensures jar.cookies == StoreHeaders(old(jar.cookies), headers)
  {
    for i := 0 to |headers|
      invariant jar.cookies == StoreHeaders(old(jar.cookies), headers[..i])
    {
      assert headers[..i + 1][..i] == headers[..i];
      jar.SetCookie(headers[i].host, headers[i].name, headers[i].value, headers[i].maxAge, headers[i].now);
    }
    assert headers[..|headers|] == headers;
  }

  function StoreDocument(jar: CookieJar.Cookies, s: Settings, document: Option<DocumentCookie>): CookieJar.Cookies {
    if s.cdpSharesJar && document.Some?
    then CookieText.StoreAll(jar, Hosts.NormalizeHost(document.value.host), CookieText.Parse(document.value.text, CookieText.ReadBack))
    else jar
  }

  // ----- one pass -----

  /** The calls of a pass: each backend at most once, in ladder order. */
  function Rank(b: Backend): nat {
    match b case Http => 0 case Cdp => 1 case Flare => 2
  }

  predicate InLadderOrder(trace: seq<Backend>) {
    forall i, j | 0 <= i < j < |trace| :: Rank(trace[i]) < Rank(trace[j])
  }

  /** The label names the last backend called, and what came before it. */
  predicate SourceFits(source: Source, trace: seq<Backend>, a: Answers) {
    match source
    case FromHttp => trace == [Http]
    case FromCdp => trace == [Cdp] || (trace == [Http, Cdp] && a.http.Err?)
    case FromHttpThenCdp => trace == [Http, Cdp] && a.http.Ok?
    case FromFlare => trace == [Http, Flare]
    case FromCdpThenFlare => trace == [Cdp, Flare] || trace == [Http, Cdp, Flare]
  }

  /** What the last backend called answered. */
  function LastAnswer(trace: seq<Backend>, a: Answers, j: Judge): Result<Fetch, string>
    requires trace != []
  {
    match trace[|trace| - 1]
    case Http => a.http
    case Cdp => a.cdp
    case Flare =>
      match a.flare
      case Err(e) => Err(e)
      case Ok(solution) =>
        if j.solutionRejected(solution.fetch) then Err("flaresolverr returned anti-bot page") else Ok(solution.fetch)
  }

  /** When a pass that may use FlareSolverr does: nothing cheaper gave an acceptable page. */
  predicate WantsFlare(s: Settings, j: Judge, a: Answers) {
    var blockedInBrowser := a.cdp.Ok? && j.emptyOrBlocked(a.cdp.value);
    if s.needsCdp then s.hasCdp && a.cdp.Ok? && j.suggestsFlare(a.cdp.value)
    else if a.http.Err? then s.hasCdp && blockedInBrowser
    else j.httpShouldEscalate(a.http.value) && (s.hasCdp ==> a.cdp.Err? || blockedInBrowser)
  }

  /** When a pass uses the browser: it is there, and HTTP was skipped or not enough. */
  predicate WantsCdp(s: Settings, j: Judge, a: Answers) {
    s.hasCdp && (s.needsCdp || a.http.Err? || j.httpShouldEscalate(a.http.value))
  }

  /** What one call leaves in the jar: the response's headers, the page's cookies, or
    * the cookies of an accepted solution. */
  function JarAfterCall(jar: CookieJar.Cookies, s: Settings, j: Judge, a: Answers, call: Backend): CookieJar.Cookies {
    match call
    case Http => StoreHeaders(jar, a.setCookies)
    case Cdp => StoreDocument(jar, s, a.document)
    case Flare =>
      if s.host.Some? && LastAnswer([Flare], a, j).Ok?
      then InjectAll(jar, a.flare.value.cookies, Text.ToAsciiLower(s.host.value), a.clock) else jar
  }

  /** The calls of a pass, each with its effect on the jar, in order. */
  function JarAfter(jar: CookieJar.Cookies, s: Settings, j: Judge, a: Answers, trace: seq<Backend>): CookieJar.Cookies {
    if trace == [] then jar
    else JarAfterCall(JarAfter(jar, s, j, a, trace[..|trace| - 1]), s, j, a, trace[|trace| - 1])
  }

  lemma JarAfterOneMore(jar: CookieJar.Cookies, s: Settings, j: Judge, a: Answers, trace: seq<Backend>, call: Backend)
    ensures JarAfter(jar, s, j, a, trace + [call]) == JarAfterCall(JarAfter(jar, s, j, a, trace), s, j, a, call)
  {
    assert (trace + [call])[..|trace|] == trace;
  }

  lemma NothingCalled(jar: CookieJar.Cookies, s: Settings, j: Judge, a: Answers)
    ensures JarAfter(jar, s, j, a, []) == jar
  {
  }

  lemma JarAfterNone(jar: CookieJar.Cookies, s: Settings, j: Judge, a: Answers)
    ensures JarAfter(jar, s, j, a, []) == jar
  {
  }

  /** The calls of a pass before FlareSolverr. */
  function CheapCalls(s: Settings, j: Judge, a: Answers): seq<Backend> {
    if !WantsCdp(s, j, a) then (if s.needsCdp then [] else [Http])
    else if s.needsCdp then [Cdp] else [Http, Cdp]
  }

  /** The calls of a pass. */
  function Calls(s: Settings, j: Judge, a: Answers): seq<Backend> {
    CheapCalls(s, j, a) + if FlareAllowed(s) && WantsFlare(s, j, a) then [Flare] else []
  }

  /** Each backend is called at most once, in ladder order, and never an absent one. */
  lemma CallsInLadderOrder(s: Settings, j: Judge, a: Answers)
    ensures var calls := Calls(s, j, a);
      && InLadderOrder(calls)
      && (Http in calls <==> !s.needsCdp)
      && (Cdp in calls ==> s.hasCdp)
      && (Flare in calls ==> FlareAllowed(s))
      && (Flare in calls && s.hasCdp ==> Cdp in calls)
      && (calls == [] <==> s.needsCdp && !s.hasCdp)
  {
  }

  /** The result is the last call's answer, under a label that fits. */
  predicate IsLastAnswer(j: Judge, a: Answers, r: Result<LadderResult, string>, trace: seq<Backend>)
    requires trace != []
  {
    match r
    case Ok(result) => SourceFits(result.source, trace, a) && LastAnswer(trace, a, j) == Ok(result.fetch)
    case Err(e) => LastAnswer(trace, a, j) == Err(e)
  }

  /** Everything a pass promises, whatever the backends answer. */
  predicate PassOutcome(s: Settings, j: Judge, a: Answers, r: Result<LadderResult, string>, trace: seq<Backend>) {
    && trace == Calls(s, j, a)
    && if trace == [] then r == Err("CDP fetcher not configured") else IsLastAnswer(j, a, r, trace)
  }

  lemma OutcomeFixesCalls(s: Settings, j: Judge, a: Answers, r: Result<LadderResult, string>, trace: seq<Backend>)
    requires PassOutcome(s, j, a, r, trace)
    ensures trace == Calls(s, j, a)
  {
  }

  /** A pass may end where its cheap calls end when FlareSolverr is not wanted. */
  lemma EndCheaply(s: Settings, j: Judge, a: Answers, r: Result<LadderResult, string>, trace: seq<Backend>)
    requires !WantsFlare(s, j, a) && trace == CheapCalls(s, j, a)
    requires if trace == [] then r == Err("CDP fetcher not configured") else IsLastAnswer(j, a, r, trace)
    ensures PassOutcome(s, j, a, r, trace)
  {
  }

  // ----- the same promises, told apart from the code that keeps them -----

  predicate MayUseFlare(s: Settings) {
    s.hasFlare && s.host.Some? && Hosts.ListAllows(s.allowlist, Text.ToAsciiLower(s.host.value))
  }

  /** The pass has no page to show that it need not improve on: its last answer is
    * missing, or the test that applies to it rejects the page.  A page of the browser
    * is tested as blocked after HTTP, and as unsolved where the browser was required. */
  predicate Unsatisfied(s: Settings, j: Judge, a: Answers, browserUsed: bool) {
    if !browserUsed then a.http.Ok? ==> j.httpShouldEscalate(a.http.value)
    else if s.needsCdp then a.cdp.Ok? ==> j.suggestsFlare(a.cdp.value)
    else a.cdp.Ok? ==> j.emptyOrBlocked(a.cdp.value)
  }

  /** Nothing went wrong that FlareSolverr is not there to mend: HTTP or the browser
    * gave a page, and the browser was not the only one asked. */
  predicate FlareCanMend(s: Settings, a: Answers, browserUsed: bool) {
    if !browserUsed then !s.needsCdp && a.http.Ok?
    else a.cdp.Ok? || (!s.needsCdp && a.http.Ok?)
  }

  /** Which backends a pass calls, in terms of the answers alone: HTTP unless the browser
    * is required, the browser exactly when it is there and HTTP was skipped or left the
    * pass unsatisfied, FlareSolverr exactly when it may be used, the pass is still
    * unsatisfied, and there is something to mend. */
  ghost predicate EscalatesExactly(s: Settings, j: Judge, a: Answers, trace: seq<Backend>) {
    && InLadderOrder(trace)
    && (Http in trace <==> !s.needsCdp)
    && (Cdp in trace <==> s.hasCdp && (s.needsCdp || Unsatisfied(s, j, a, false)))
    && (Flare in trace <==> MayUseFlare(s) && Unsatisfied(s, j, a, s.hasCdp) && FlareCanMend(s, a, s.hasCdp)
                            && (s.needsCdp || Unsatisfied(s, j, a, false)))
  }

  /** What a pass returns, in terms of the answer of the last backend called. */
  ghost predicate ReturnsLast(j: Judge, a: Answers, r: Result<LadderResult, string>, trace: seq<Backend>) {
    if Flare in trace then
      match a.flare
      case Err(e) => r == Err(e)
      case Ok(solution) =>
        if j.solutionRejected(solution.fetch) then r == Err("flaresolverr returned anti-bot page")
        else r == Ok(LadderResult(solution.fetch, if Cdp in trace then FromCdpThenFlare else FromFlare))
    else if Cdp in trace then
      match a.cdp
      case Err(e) => r == Err(e)
      case Ok(page) => r == Ok(LadderResult(page, if Http in trace && a.http.Ok? then FromHttpThenCdp else FromCdp))
    else if Http in trace then
      match a.http
      case Err(e) => r == Err(e)
      case Ok(page) => r == Ok(LadderResult(page, FromHttp))
    else r == Err("CDP fetcher not configured")
  }

  lemma OutcomeMeans(s: Settings, j: Judge, a: Answers, r: Result<LadderResult, string>, trace: seq<Backend>)
    requires PassOutcome(s, j, a, r, trace)
    ensures EscalatesExactly(s, j, a, trace) && ReturnsLast(j, a, r, trace)
  {
    hide Hosts.ListAllows, Text.ToAsciiLower;
  }

  /** Where FlareSolverr may be used, no pass succeeds with a page that its own test
    * rejects, except one FlareSolverr gave; and a browser that fails after an HTTP page
    * was rejected leads to FlareSolverr. */
  lemma NoRejectedPage(s: Settings, j: Judge, a: Answers, r: Result<LadderResult, string>, trace: seq<Backend>)
    requires EscalatesExactly(s, j, a, trace) && ReturnsLast(j, a, r, trace) && MayUseFlare(s)
    ensures r.Ok? && Flare !in trace && Cdp !in trace ==> !j.httpShouldEscalate(r.value.fetch)
    ensures r.Ok? && Flare !in trace && Cdp in trace && Http in trace ==> !j.emptyOrBlocked(r.value.fetch)
    ensures r.Ok? && Flare !in trace && Cdp in trace && Http !in trace ==> !j.suggestsFlare(r.value.fetch)
    ensures a.http.Ok? && Http in trace && j.httpShouldEscalate(a.http.value) && Cdp in trace && a.cdp.Err? ==> Flare in trace
  {
    hide MayUseFlare;
  }

  /** No backend is called after a page that its own test accepts. */
  lemma NothingAfterAcceptance(s: Settings, j: Judge, a: Answers, trace: seq<Backend>)
    requires EscalatesExactly(s, j, a, trace)
    ensures Http in trace && a.http.Ok? && !j.httpShouldEscalate(a.http.value) ==> Cdp !in trace && Flare !in trace
    ensures Cdp in trace && Http in trace && a.cdp.Ok? && !j.emptyOrBlocked(a.cdp.value) ==> Flare !in trace
    ensures Cdp in trace && Http !in trace && a.cdp.Ok? && !j.suggestsFlare(a.cdp.value) ==> Flare !in trace
  {
  }

  /** The jar a pass leaves: the response's headers, then the page's cookies, then those
    * of an accepted solution, each if that backend was called. */
  ghost predicate JarHolds(jar0: CookieJar.Cookies, jar: CookieJar.Cookies, s: Settings, j: Judge, a: Answers, trace: seq<Backend>) {
    var jar1 := if Http in trace then StoreHeaders(jar0, a.setCookies) else jar0;
    var jar2 :=
      if Cdp in trace && s.cdpSharesJar && a.document.Some?
      then CookieText.StoreAll(jar1, Hosts.NormalizeHost(a.document.value.host), CookieText.Parse(a.document.value.text, CookieText.ReadBack))
      else jar1;
    jar ==
      if Flare in trace && a.flare.Ok? && !j.solutionRejected(a.flare.value.fetch) && s.host.Some?
      then InjectAll(jar2, a.flare.value.cookies, Text.ToAsciiLower(s.host.value), a.clock) else jar2
  }

  lemma JarMeans(jar0: CookieJar.Cookies, s: Settings, j: Judge, a: Answers)
    ensures JarHolds(jar0, JarAfter(jar0, s, j, a, Calls(s, j, a)), s, j, a, Calls(s, j, a))
  {
    hide StoreHeaders, CookieText.StoreAll, CookieText.Parse, InjectAll, JarAfter, FlareAllowed, WantsFlare, WantsCdp;
    hide Hosts.NormalizeHost, Text.ToAsciiLower;
    var none: seq<Backend> := [];
    JarAfterNone(jar0, s, j, a);
    JarAfterOneMore(jar0, s, j, a, none, Http);
    JarAfterOneMore(jar0, s, j, a, none, Cdp);
    JarAfterOneMore(jar0, s, j, a, [Http], Cdp);
    assert none + [Http] == [Http] && none + [Cdp] == [Cdp] && [Http] + [Cdp] == [Http, Cdp];
    var cheap := CheapCalls(s, j, a);
    JarAfterOneMore(jar0, s, j, a, cheap, Flare);
    assert cheap + none == cheap;
  }

  /** The promises leave nothing open: one result, under one label. */
  lemma PassIsDetermined(s: Settings, j: Judge, a: Answers, r: Result<LadderResult, string>, r': Result<LadderResult, string>)
    requires PassOutcome(s, j, a, r, Calls(s, j, a)) && PassOutcome(s, j, a, r', Calls(s, j, a))
    ensures r == r'
  {
  }

  class FetchLadder {
    const settings: Settings
    const judge: Judge
    const cookies: CookieJar.Jar
    const counters: Rotation.HostCounters
    const tlsProxy: TlsProxy.Proxy?

    constructor (settings: Settings, judge: Judge, cookies: CookieJar.Jar, counters: Rotation.HostCounters, tlsProxy: TlsProxy.Proxy?)
      ensures this.settings == settings && this.judge == judge && this.cookies == cookies
      ensures this.counters == counters && this.tlsProxy == tlsProxy
    {
      this.settings, this.judge, this.cookies, this.counters, this.tlsProxy := settings, judge, cookies, counters, tlsProxy;
    }

    /** The jar holds what the calls so far left in `jar0`. */
    ghost predicate JarFollows(jar0: CookieJar.Cookies, a: Answers, trace: seq<Backend>)
      reads cookies`cookies
    {
      cookies.cookies == JarAfter(jar0, settings, judge, a, trace)
    }

    /** `try_http`: the answer's headers go into the jar before it is judged. */
    method TryHttp(a: Answers, trace0: seq<Backend>, ghost jar0: CookieJar.Cookies)
      returns (r: Result<Fetch, string>, trace: seq<Backend>)
      requires JarFollows(jar0, a, trace0)
      modifies cookies`cookies
      ensures r == a.http && trace == trace0 + [Http] && JarFollows(jar0, a, trace)
    {
      JarAfterOneMore(jar0, settings, judge, a, trace0, Http);
      TakeHeaders(cookies, a.setCookies);
      return a.http, trace0 + [Http];
    }

    /** `try_cdp`, with a browser attached: the page's cookies are read back. */
    method TryCdp(a: Answers, trace0: seq<Backend>, ghost jar0: CookieJar.Cookies)
      returns (r: Result<Fetch, string>, trace: seq<Backend>)
      requires JarFollows(jar0, a, trace0)
      modifies cookies`cookies
      ensures r == a.cdp && trace == trace0 + [Cdp] && JarFollows(jar0, a, trace)
    {
      JarAfterOneMore(jar0, settings, judge, a, trace0, Cdp);
      if settings.cdpSharesJar && a.document.Some? {
        CookieText.ReadBackCookies(cookies, a.document.value.host, a.document.value.text, None);
      }
      return a.cdp, trace0 + [Cdp];
    }

    /** `try_flaresolverr`: None when it may not be used at all. */
    method TryFlareSolverr(a: Answers, fromCdp: bool) returns (r: Result<Option<LadderResult>, string>, called: bool)
      requires "" !in settings.allowlist.hosts
      modifies cookies`cookies
      ensures called <==> FlareAllowed(settings)
      ensures !called ==> r == Ok(None) && cookies.cookies == old(cookies.cookies)
      ensures called ==>
        && cookies.cookies == JarAfterCall(old(cookies.cookies), settings, judge, a, Flare)
        && match LastAnswer([Flare], a, judge)
           case Err(e) => r == Err(e)
           case Ok(fetch) => r == Ok(Some(LadderResult(fetch, if fromCdp then FromCdpThenFlare else FromFlare)))
    {
      if settings.host.None? {
        return Ok(None), false;
      }
      var allowed := Hosts.IsAllowed(settings.allowlist, settings.host.value);
      if !allowed {
        return Ok(None), false;
      }
      if !settings.hasFlare {
        return Ok(None), false;
      }
      match a.flare {
        case Err(e) => return Err(e), true;
        case Ok(solution) =>
          if judge.solutionRejected(solution.fetch) {
            return Err("flaresolverr returned anti-bot page"), true;
          }
          InjectCookies(cookies, solution.cookies, Text.ToAsciiLower(settings.host.value), a.clock);
          return Ok(Some(LadderResult(solution.fetch, if fromCdp then FromCdpThenFlare else FromFlare))), true;
      }
    }

    /** The escalation step of a pass: FlareSolverr's word is final when it is
      * called, else the pass ends with `otherwise`. */
    method Escalate(a: Answers, trace0: seq<Backend>, fromCdp: bool, otherwise: Result<LadderResult, string>,
                    ghost jar0: CookieJar.Cookies)
      returns (r: Result<LadderResult, string>, trace: seq<Backend>)
      requires "" !in settings.allowlist.hosts && JarFollows(jar0, a, trace0)
      requires WantsFlare(settings, judge, a) && trace0 == CheapCalls(settings, judge, a) != []
      requires IsLastAnswer(judge, a, otherwise, trace0) && (fromCdp <==> settings.hasCdp)
      modifies cookies`cookies
      ensures PassOutcome(settings, judge, a, r, trace)
      ensures trace == (if FlareAllowed(settings) then trace0 + [Flare] else trace0) && JarFollows(jar0, a, trace)
      ensures r ==
        if !FlareAllowed(settings) then otherwise
        else match LastAnswer([Flare], a, judge)
          case Err(e) => Err(e)
          case Ok(fetch) => Ok(LadderResult(fetch, if fromCdp then FromCdpThenFlare else FromFlare))
    {
      hide JarAfterCall, JarAfter;
      JarAfterOneMore(jar0, settings, judge, a, trace0, Flare);
      var fs, called := TryFlareSolverr(a, fromCdp);
      trace := trace0;
      if called {
        trace := trace + [Flare];
      }
      if fs.Err? {
        return Err(fs.error), trace;
      }
      if fs.value.Some? {
        return Ok(fs.value.value), trace;
      }
      return otherwise, trace;
    }

    /** `fetch`: one pass of the ladder, with the calls it made. */
    method Fetch(a: Answers) returns (r: Result<LadderResult, string>, trace: seq<Backend>)
      requires "" !in settings.allowlist.hosts
      modifies cookies`cookies
      ensures PassOutcome(settings, judge, a, r, trace)
      ensures JarFollows(old(cookies.cookies), a, trace)
      ensures EscalatesExactly(settings, judge, a, trace) && ReturnsLast(judge, a, r, trace)
      ensures JarHolds(old(cookies.cookies), cookies.cookies, settings, judge, a, trace)
    {
      r, trace := RunLadder(a);
      hide PassOutcome, EscalatesExactly, ReturnsLast, JarHolds, JarAfter;
      OutcomeMeans(settings, judge, a, r, trace);
      assert trace == Calls(settings, judge, a) by { OutcomeFixesCalls(settings, judge, a, r, trace); }
      JarMeans(old(cookies.cookies), settings, judge, a);
    }

    /** The ladder itself, backend by backend. */
    method RunLadder(a: Answers) returns (r: Result<LadderResult, string>, trace: seq<Backend>)
      requires "" !in settings.allowlist.hosts
      modifies cookies`cookies
      ensures PassOutcome(settings, judge, a, r, trace)
      ensures JarFollows(old(cookies.cookies), a, trace)
    {
      hide JarAfter, FlareAllowed, PassOutcome;
      trace := [];
      ghost var jar0 := cookies.cookies;
      JarAfterNone(jar0, settings, judge, a);
      if !settings.needsCdp {
        var http;
        http, trace := TryHttp(a, trace, jar0);
        match http {
          case Ok(fetch) =>
            if !judge.httpShouldEscalate(fetch) {
              EndCheaply(settings, judge, a, Ok(LadderResult(fetch, FromHttp)), trace);
              return Ok(LadderResult(fetch, FromHttp)), trace;
            }
            if settings.hasCdp {
              var cdp;
              cdp, trace := TryCdp(a, trace, jar0);
              match cdp {
                case Ok(page) =>
                  var result := Ok(LadderResult(page, FromHttpThenCdp));
                  if judge.emptyOrBlocked(page) {
                    r, trace := Escalate(a, trace, true, result, jar0);
                    return;
                  }
                  EndCheaply(settings, judge, a, result, trace);
                  return result, trace;
                case Err(e) =>
                  r, trace := Escalate(a, trace, true, Err(e), jar0);
                  return;
              }
            }
            r, trace := Escalate(a, trace, false, Ok(LadderResult(fetch, FromHttp)), jar0);
            return;
          case Err(e) =>
            if settings.hasCdp {
              var cdp;
              cdp, trace := TryCdp(a, trace, jar0);
              if cdp.Err? {
                EndCheaply(settings, judge, a, Err(cdp.error), trace);
                return Err(cdp.error), trace;
              }
              var result := Ok(LadderResult(cdp.value, FromCdp));
              if judge.emptyOrBlocked(cdp.value) {
                r, trace := Escalate(a, trace, true, result, jar0);
                return;
              }
              EndCheaply(settings, judge, a, result, trace);
              return result, trace;
            }
            EndCheaply(settings, judge, a, Err(e), trace);
            return Err(e), trace;
        }
      }
      if !settings.hasCdp {
        EndCheaply(settings, judge, a, Err("CDP fetcher not configured"), trace);
        return Err("CDP fetcher not configured"), trace;
      }
      var cdp;
      cdp, trace := TryCdp(a, trace, jar0);
      if cdp.Err? {
        EndCheaply(settings, judge, a, Err(cdp.error), trace);
        return Err(cdp.error), trace;
      }
      var result := Ok(LadderResult(cdp.value, FromCdp));
      if judge.suggestsFlare(cdp.value) {
        r, trace := Escalate(a, trace, true, result, jar0);
        return;
      }
      EndCheaply(settings, judge, a, result, trace);
      return result, trace;
    }

    /** The L2 step: respawn the proxy on its next profile and, only if that
      * worked, record the rotation. */
    method RotateAndRecord(host: string, proxyReady: bool, nowMs: nat) returns (rotated: bool)
      requires counters.Valid()
      modifies counters.Repr(), if tlsProxy != null then {tlsProxy} else {}
      ensures counters.Valid() && fresh(counters.Repr() - old(counters.Repr()))
      ensures rotated <==> ProxyCanRotate(proxyReady, old(ProfileOf(tlsProxy)))
      ensures ProfileOf(tlsProxy) == ProfileAfter(proxyReady, old(ProfileOf(tlsProxy)))
      ensures !rotated ==> ProfileOf(tlsProxy) == old(ProfileOf(tlsProxy))
      ensures counters.View(host).l1Attempted == old(counters.View(host)).l1Attempted
      ensures counters.View(host).rotations == old(counters.View(host)).rotations + if rotated then 1 else 0
      ensures forall h | h != host :: counters.View(h) == old(counters.View(h))
    {
      if tlsProxy == null {
        return false;
      }
      var rotation := tlsProxy.Rotate(proxyReady);
      if rotation.Err? || rotation.value.None? {
        return false;
      }
      counters.RecordRotation(host, nowMs);
      return true;
    }

    /** The L1 step: clear the host's cookies and run the ladder again. */
    method ClearAndRefetch(a: Answers, host: string, clearTime: CookieJar.Clock)
      returns (r: Result<LadderResult, string>, trace: seq<Backend>)
      requires "" !in settings.allowlist.hosts
      modifies cookies`cookies
      ensures PassOutcome(settings, judge, a, r, trace)
      ensures JarFollows(Cleared(old(cookies.cookies), cookies.stamps, host, clearTime), a, trace)
    {
      hide PassOutcome, EscalatesExactly, ReturnsLast, JarHolds, JarAfter, CookieJar.Without, CookieJar.Unprotected;
      var removed := cookies.ClearForHostExceptHitl(host, clearTime);
      r, trace := Fetch(a);
    }

    predicate ProxyCanRotate(proxyReady: bool, profile: string) {
      tlsProxy != null && proxyReady && TlsProxy.NextAfter(tlsProxy.profiles, profile).Some?
    }

    /** The proxy's profile after an attempt to rotate: the next one, if there is one
      * and the proxy came up on it. */
    function ProfileAfter(proxyReady: bool, profile: string): string {
      if tlsProxy == null then profile else TlsProxy.Stepped(tlsProxy.profiles, profile, proxyReady)
    }

    /** `fetch_with_rotation`.  `first` and `second` are the answers of the two
      * passes it may make, `signal` what block detection says of the first result,
      * `host` the request's host, `clearTime` the clock at an L1 clear and
      * `proxyReady` whether a respawned proxy comes up. */
    method FetchWithRotation(first: Answers, second: Answers, signal: Option<string>, host: string,
                             clearTime: CookieJar.Clock, proxyReady: bool, nowMs: nat)
      returns (r: Result<LadderResult, string>, passes: seq<seq<Backend>>)
      requires "" !in settings.allowlist.hosts && counters.Valid()
      modifies cookies, counters.Repr(), if tlsProxy != null then {tlsProxy} else {}
      ensures counters.Valid()
      ensures 1 <= |passes| <= 2
      ensures forall h | h != host :: counters.View(h) == old(counters.View(h))
      ensures
        var jar1 := JarAfter(old(cookies.cookies), settings, judge, first, passes[0]);
        var (d, c) := Rotation.Decided(signal, old(counters.View(host)), 0, POOL_SIZE);
        var rotated := d.Rotate? && ProxyCanRotate(proxyReady, old(ProfileOf(tlsProxy)));
        // The first pass always runs; if it fails nothing else happens.
        if |passes| == 1 then
          && PassOutcome(settings, judge, first, r, passes[0])
          && cookies.cookies == jar1
          && (r.Err? ==> counters.View(host) == old(counters.View(host)) && ProfileOf(tlsProxy) == old(ProfileOf(tlsProxy)))
          && (r.Ok? ==> counters.View(host) == c && !d.ClearAndRetry? && !rotated
                        && ProfileOf(tlsProxy) == old(ProfileOf(tlsProxy)))
        else
          // A second pass follows an L1 clear or a rotation, and gives the result.
          && (exists r1: Result<LadderResult, string> :: r1.Ok? && PassOutcome(settings, judge, first, r1, passes[0]))
          && PassOutcome(settings, judge, second, r, passes[1])
          && (d.ClearAndRetry? || rotated)
          && ProfileOf(tlsProxy) ==
             (if rotated then ProfileAfter(proxyReady, old(ProfileOf(tlsProxy))) else old(ProfileOf(tlsProxy)))
          && counters.View(host) == (if rotated then c.(rotations := c.rotations + 1) else c)
          && cookies.cookies == JarAfter(
               if rotated then jar1
               else Cleared(jar1, old(cookies.stamps), host, clearTime),
               settings, judge, second, passes[1])
    {
      hide PassOutcome, EscalatesExactly, ReturnsLast, JarHolds, JarAfter, Cleared, FetchLadder.ProxyCanRotate, FetchLadder.ProfileAfter;
      hide Rotation.Decided, Rotation.HostCounters.View, Rotation.HostCounters.Valid;
      var trace;
      r, trace := Fetch(first);
      passes := [trace];
      ghost var r1 := r;
      assert PassOutcome(settings, judge, first, r1, passes[0]);
      if r.Err? {
        return;
      }
      var decision := counters.Decide(signal, host, 0, POOL_SIZE);
      match decision {
        case Accept =>
        case Fail(_, _) =>
        case ClearAndRetry(_) =>
          r, trace := ClearAndRefetch(second, host, clearTime);
          passes := passes + [trace];
        case Rotate(_, _) =>
          var rotated := RotateAndRecord(host, proxyReady, nowMs);
          if rotated {
            r, trace := Fetch(second);
            passes := passes + [trace];
          }
      }
    }
  }

  /** The jar after an L1 clear of `host`. */
  function Cleared(jar: CookieJar.Cookies, stamps: map<string, nat>, host: string, now: CookieJar.Clock): CookieJar.Cookies {
    CookieJar.Without(jar, CookieJar.Unprotected(stamps, host, CookieJar.Seconds(now)))
  }

  /** After an L1 clear nothing the blocked first pass stored for the host is left,
    * unless it is under a recently solved domain: the second pass starts without it. */
  lemma ClearForgetsFirstPass(jar: CookieJar.Cookies, stamps: map<string, nat>, s: Settings, j: Judge, a: Answers,
                              trace: seq<Backend>, host: string, now: nat, h: string)
    requires HitlSolve.Reaches(host, h) && !CookieJar.Protected(stamps, h, now)
    ensures h !in Cleared(JarAfter(jar, s, j, a, trace), stamps, host, Some(now))
  {
    hide JarAfter;
    if h in JarAfter(jar, s, j, a, trace) {
      HitlSolve.L1ClearBucketByBucket(JarAfter(jar, s, j, a, trace), stamps, host, now, h);
    }
  }

  const POOL_SIZE: nat := 7

  function ProfileOf(proxy: TlsProxy.Proxy?): string
    reads if proxy == null then {} else {proxy}
  {
    if proxy == null then "" else proxy.currentProfile
  }
}
