/** HITL solves and L1 clears: what a solve stores, stamps and so protects, with
  * the clears of other requests running between its steps. */
module HitlSolve {
  import opened Wrappers
  import opened Text
  import opened Hosts
  import opened CookieJar

  // ----- one L1 clear, bucket by bucket -----

  /** An L1 clear of `host` looks at the bucket `h`. */
  predicate Reaches(host: string, h: string) {
    var target := NormalizeHost(NormalizeHost(host));
    h != "" && target != "" && DomainMatch(target, h)
  }

  /** A non-empty bucket survives an L1 clear, unchanged, exactly when the clear does
    * not reach it or it was solved within the last hour; an empty one never. */
  lemma L1ClearBucketByBucket(cookies: Cookies, stamps: map<string, nat>, host: string, now: nat, h: string)
    requires h in cookies
    ensures var after := Without(cookies, Unprotected(stamps, host, now));
      && (h in after <==> cookies[h] != map[] && (Protected(stamps, h, now) || !Reaches(host, h)))
      && (h in after ==> after[h] == cookies[h])
      && NoEmptyBucket(after)
      && after.Keys <= cookies.Keys
  {
    hide NormalizeHost, DomainMatch, Candidates, Protected;
    var target := NormalizeHost(NormalizeHost(host));
    if target != "" {
      CandidatesAreDomainMatches(target, h);
    } else {
      NoCandidates();
    }
  }

  lemma NoCandidates()
    ensures Candidates("") == []
  {
  }

  /** A plain clear of `host` takes exactly the buckets it reaches. */
  lemma PlainClearBucketByBucket(cookies: Cookies, host: string, h: string)
    ensures var after := Without(cookies, SetOf(Candidates(NormalizeHost(NormalizeHost(host)))));
      && (h in after <==> h in cookies && cookies[h] != map[] && !Reaches(host, h))
      && (h in after ==> after[h] == cookies[h])
  {
    hide NormalizeHost, DomainMatch, Candidates;
    var target := NormalizeHost(NormalizeHost(host));
    if target != "" {
      CandidatesAreDomainMatches(target, h);
    } else {
      NoCandidates();
    }
  }

  /** From 3600 seconds on, an L1 clear of the host itself empties it. */
  lemma StampExpires(cookies: Cookies, stamps: map<string, nat>, h: string, now: nat)
    requires h != "" && NormalizeHost(h) == h && h in stamps && h in cookies
    requires now >= stamps[h] + 3600
    ensures h !in Without(cookies, Unprotected(stamps, h, now))
  {
    L1ClearBucketByBucket(cookies, stamps, h, now, h);
  }

  // ----- interleaved calls -----

  /** What the jar's lock guards. */
  datatype Shared = Shared(cookies: Cookies, stamps: map<string, nat>)

  /** One call under the lock: a cookie stored, a host stamped, an L1 clear. */
  datatype Act = Put(host: string, name: string, entry: Entry) | Stamp(host: string, at: nat) | L1(host: string, now: nat)

  function Apply(s: Shared, a: Act): Shared {
    match a
    case Put(h, n, e) => s.(cookies := Store(s.cookies, h, n, e))
    case Stamp(h, t) => s.(stamps := s.stamps[h := t])
    case L1(host, now) => s.(cookies := Without(s.cookies, Unprotected(s.stamps, host, now)))
  }

  function Exec(s: Shared, acts: seq<Act>): Shared {
    if acts == [] then s else Apply(Exec(s, acts[..|acts| - 1]), acts[|acts| - 1])
  }

  lemma {:induction false} ExecAppends(s: Shared, a: seq<Act>, b: seq<Act>)
    ensures Exec(s, a + b) == Exec(Exec(s, a), b)
  {
    if b == [] {
      assert a + b == a;
    } else {
      ExecAppends(s, a, b[..|b| - 1]);
      assert (a + b)[..|a + b| - 1] == a + b[..|b| - 1];
    }
  }

  /** The call drops the entry, if it is there. */
  predicate Drops(s: Shared, a: Act, h: string) {
    a.L1? && Reaches(a.host, h) && !Protected(s.stamps, h, a.now)
  }

  predicate Stores(a: Act, h: string, n: string) {
    a.Put? && a.host == h && a.name == n
  }

  lemma OneCall(s: Shared, a: Act, h: string, n: string)
    requires !Stores(a, h, n)
    ensures Lookup(Apply(s, a).cookies, h, n) == if Drops(s, a, h) then None else Lookup(s.cookies, h, n)
  {
    hide Reaches, Protected, Unprotected;
    match a {
      case Put(g, m, e) => LookupAfterStore(s.cookies, g, m, e);
      case Stamp(_, _) =>
      case L1(host, now) =>
        if h in s.cookies {
          L1ClearBucketByBucket(s.cookies, s.stamps, host, now, h);
        }
    }
  }

  /** Some call of the run drops the bucket h. */
  ghost predicate Dropped(s: Shared, acts: seq<Act>, h: string) {
    exists k | 0 <= k < |acts| :: Drops(Exec(s, acts[..k]), acts[k], h)
  }

  lemma DroppedUnfolds(s: Shared, acts: seq<Act>, h: string)
    requires acts != []
    ensures var before := acts[..|acts| - 1];
      Dropped(s, acts, h) <==> Dropped(s, before, h) || Drops(Exec(s, before), acts[|acts| - 1], h)
  {
    hide Drops, Exec;
    var before := acts[..|acts| - 1];
    assert forall k | 0 <= k <= |before| :: before[..k] == acts[..k];
    if Dropped(s, before, h) {
      var k :| 0 <= k < |before| && Drops(Exec(s, before[..k]), before[k], h);
      assert Drops(Exec(s, acts[..k]), acts[k], h);
    }
  }

  /** Whatever else runs, an entry that is not stored again is there unchanged at
    * the end exactly when no clear reached it unprotected. */
  lemma {:induction false} EntrySurvivesIff(s: Shared, acts: seq<Act>, h: string, n: string)
    requires forall a | a in acts :: !Stores(a, h, n)
    ensures Lookup(Exec(s, acts).cookies, h, n) == if Dropped(s, acts, h) then None else Lookup(s.cookies, h, n)
  {
    if acts != [] {
      hide Dropped, Drops, Apply, Lookup, Stores;
      var before := acts[..|acts| - 1];
      EntrySurvivesIff(s, before, h, n);
      DroppedUnfolds(s, acts, h);
      OneCall(Exec(s, before), acts[|acts| - 1], h, n);
    } else {
      assert !Dropped(s, acts, h);
    }
  }

  /** The lifetime of a cookie over a whole run: stored at time t, not stored again and not
    * dropped by a clear, it is sent at time t' exactly as if nothing else had happened. */
  lemma LifetimeOverRuns(s: Shared, stored: string, name: string, value: string, maxAge: Option<nat>, t: nat, acts: seq<Act>,
                         host: string, t': nat)
    requires var key := NormalizeHost(stored);
      var s1 := Apply(s, Put(key, name, Entry(value, ExpiryOf(maxAge, Some(t)))));
      (forall a | a in acts :: !Stores(a, key, name)) && !Dropped(s1, acts, key)
    ensures var key := NormalizeHost(stored);
      var s1 := Apply(s, Put(key, name, Entry(value, ExpiryOf(maxAge, Some(t)))));
      Carries(Exec(s1, acts).cookies, host, Some(t'), Part(key, name, value)) <==>
        && Matches(host, key)
        && match maxAge
           case None => true
           case Some(age) => t' < t + age || (age > 0 && t + age > 0xFFFF_FFFF_FFFF_FFFF)
  {
    hide NormalizeHost, Exec, Dropped, Matches, ExpiryOf, Store, Carries, Lookup;
    var key := NormalizeHost(stored);
    var s1 := Apply(s, Put(key, name, Entry(value, ExpiryOf(maxAge, Some(t)))));
    LifetimeLaw(s.cookies, stored, name, value, maxAge, t, host, t');
    EntrySurvivesIff(s1, acts, key, name);
    CarriesMeans(Exec(s1, acts).cookies, host, Some(t'));
    CarriesMeans(s1.cookies, host, Some(t'));
  }

  /** A stamp stays at least as late as it was if later ones are. */
  lemma {:induction false} StampStays(s: Shared, acts: seq<Act>, h: string, t: nat)
    requires h in s.stamps && s.stamps[h] >= t
    requires forall a | a in acts && a.Stamp? && a.host == h :: a.at >= t
    ensures var after := Exec(s, acts).stamps; h in after && after[h] >= t
  {
    if acts != [] {
      StampStays(s, acts[..|acts| - 1], h, t);
      assert acts[|acts| - 1] in acts;
    }
  }

  // ----- the hour after a stamp -----

  /** L1 clears before t + 3600 seconds, and nothing else. */
  predicate HourOfClears(acts: seq<Act>, t: nat) {
    forall a | a in acts :: a.L1? && a.now < t + 3600
  }

  /** Every cookie that the bucket h holds now survives any L1 clears of the hour after t. */
  ghost predicate SurvivesHour(s: Shared, h: string, n: string, t: nat) {
    forall clears | HourOfClears(clears, t) :: Lookup(Exec(s, clears).cookies, h, n) == Lookup(s.cookies, h, n)
  }

  lemma ClearsSpareStamped(s: Shared, clears: seq<Act>, h: string, t: nat)
    requires HourOfClears(clears, t) && (h == "" || (h in s.stamps && s.stamps[h] >= t))
    ensures !Dropped(s, clears, h)
  {
    hide Exec, NormalizeHost, DomainMatch;
    forall k | 0 <= k < |clears| ensures !Drops(Exec(s, clears[..k]), clears[k], h) {
      assert clears[k] in clears;
      if h != "" {
        assert forall a | a in clears[..k] :: a in clears;
        StampStays(s, clears[..k], h, t);
      }
    }
  }

  lemma OneClearDrops(s: Shared, host: string, h: string, now: nat)
    requires Reaches(host, h) && !Protected(s.stamps, h, now)
    ensures Dropped(s, [L1(host, now)], h)
  {
    assert [L1(host, now)][..0] == [] && Drops(Exec(s, [L1(host, now)][..0]), [L1(host, now)][0], h);
  }

  /** A cookie survives every L1 clear of the hour after t, of any hosts, if and only if
    * no clear reaches its bucket at all or the bucket was stamped at t or later. */
  lemma SurvivesHourIff(s: Shared, h: string, n: string, t: nat, raw: string)
    requires Lookup(s.cookies, h, n).Some? && h == NormalizeHost(raw)
    ensures SurvivesHour(s, h, n, t) <==> h == "" || (h in s.stamps && s.stamps[h] >= t)
  {
    hide Lookup, NormalizeHost, Dropped, Exec, Reaches;
    if h == "" || (h in s.stamps && s.stamps[h] >= t) {
      forall clears | HourOfClears(clears, t) ensures Lookup(Exec(s, clears).cookies, h, n) == Lookup(s.cookies, h, n) {
        EntrySurvivesIff(s, clears, h, n);
        ClearsSpareStamped(s, clears, h, t);
      }
    } else {
      var now := t + 3600 - 1;
      var clears := [L1("b." + h, now)];
      SubdomainReaches(raw);
      OneClearDrops(s, "b." + h, h, now);
      EntrySurvivesIff(s, clears, h, n);
      assert HourOfClears(clears, t);
    }
  }

  /** Every non-empty stored host is reached by a clear of some host. */
  lemma SubdomainReaches(raw: string)
    ensures var h := NormalizeHost(raw); h != "" ==> Reaches("b." + h, h)
  {
    var h := NormalizeHost(raw);
    if h != "" {
      NormalizedShape(raw);
      LowerFacts(TrimStartOf(Trim(raw), '.'));
      var sub := "b." + h;
      assert sub[|sub| - 1] == h[|h| - 1];
      TrimKeepsTrimmed(sub);
      assert ToAsciiLower(sub) == sub by {
        LowerFacts(sub);
        assert forall i | 2 <= i < |sub| :: sub[i] == h[i - 2];
      }
      assert sub[1..] == "." + h;
      hide ToAsciiLower, Trim;
      assert NormalizeHost(sub) == sub;
    }
  }

  // ----- a HITL solve -----

  datatype HitlCookie = HitlCookie(name: string, value: string, domain: Option<string>, maxAge: Option<nat>)

  function FirstDomain(cookies: seq<HitlCookie>): Option<string> {
    if cookies == [] then None
    else if cookies[0].domain.Some? then cookies[0].domain
    else FirstDomain(cookies[1..])
  }

  /** The host of the solve: the first domain among the cookies, else the queue entry's host. */
  function ResolvedHost(cookies: seq<HitlCookie>, urlHost: Option<string>): Option<string> {
    if FirstDomain(cookies).Some? then FirstDomain(cookies) else urlHost
  }

  function CookieKey(c: HitlCookie, resolved: string): string {
    NormalizeHost(if c.domain.Some? then c.domain.value else resolved)
  }

  // ----- the stamped host, told apart from the code that finds it -----

  predicate IsFirstDomain(solved: seq<HitlCookie>, i: int) {
    0 <= i < |solved| && solved[i].domain.Some? && forall k | 0 <= k < i :: solved[k].domain.None?
  }

  /** The domain of the first cookie that has one, or the entry's host if none has. */
  ghost predicate IsStampedHost(solved: seq<HitlCookie>, urlHost: Option<string>, host: string) {
    || (exists i | 0 <= i < |solved| :: IsFirstDomain(solved, i) && solved[i].domain == Some(host))
    || ((forall c | c in solved :: c.domain.None?) && urlHost == Some(host))
  }

  /** Where a cookie of the solve is stored. */
  function KeyOf(c: HitlCookie, stamped: string): string {
    match c.domain
    case Some(domain) => NormalizeHost(domain)
    case None => NormalizeHost(stamped)
  }

  /** No later cookie of the solve replaces the i-th. */
  predicate IsLastOfItsName(solved: seq<HitlCookie>, stamped: string, i: nat)
    requires i < |solved|
  {
    forall k | i < k < |solved| :: solved[k].name != solved[i].name || KeyOf(solved[k], stamped) != KeyOf(solved[i], stamped)
  }

  /** Only `host` is stamped, and each cookie of the solve under it survives the hour. */
  ghost predicate StampsAndProtects(jar: Jar, stampsBefore: map<string, nat>, solved: seq<HitlCookie>, host: string, t: nat)
    reads jar
  {
    && jar.stamps == stampsBefore[NormalizeHost(host) := t]
    && forall c | c in solved && KeyOf(c, host) == NormalizeHost(host) ::
         SurvivesHour(Shared(jar.cookies, jar.stamps), NormalizeHost(host), c.name, t)
  }

  lemma {:induction false} FirstDomainMeans(solved: seq<HitlCookie>)
    ensures FirstDomain(solved).None? <==> forall c | c in solved :: c.domain.None?
    ensures FirstDomain(solved).Some? ==> exists i | 0 <= i < |solved| :: IsFirstDomain(solved, i)
    ensures forall i | IsFirstDomain(solved, i) :: FirstDomain(solved) == solved[i].domain
  {
    if solved != [] {
      var rest := solved[1..];
      FirstDomainMeans(rest);
      assert forall c :: c in solved <==> c == solved[0] || c in rest;
      if solved[0].domain.Some? {
        assert IsFirstDomain(solved, 0);
      } else {
        forall i | IsFirstDomain(solved, i) ensures FirstDomain(solved) == solved[i].domain {
          assert IsFirstDomain(rest, i - 1);
        }
        if FirstDomain(rest).Some? {
          var i :| 0 <= i < |rest| && IsFirstDomain(rest, i);
          assert IsFirstDomain(solved, i + 1);
        }
      }
    }
  }

  lemma ResolvedMeans(solved: seq<HitlCookie>, urlHost: Option<string>)
    ensures ResolvedHost(solved, urlHost).Some? <==> urlHost.Some? || exists c | c in solved :: c.domain.Some?
    ensures forall i | IsFirstDomain(solved, i) :: ResolvedHost(solved, urlHost) == solved[i].domain
    ensures (forall c | c in solved :: c.domain.None?) ==> ResolvedHost(solved, urlHost) == urlHost
    ensures forall host | IsStampedHost(solved, urlHost, host) :: ResolvedHost(solved, urlHost) == Some(host)
  {
    FirstDomainMeans(solved);
  }

  function PutOf(c: HitlCookie, resolved: string, now: Clock): Act {
    Put(CookieKey(c, resolved), c.name, Entry(c.value, ExpiryOf(c.maxAge, now)))
  }

  /** The calls of the first n injections; the i-th reads the clock at `clock(i)`. */
  function Injections(solved: seq<HitlCookie>, resolved: string, clock: nat -> Clock, n: nat): (acts: seq<Act>)
    requires n <= |solved|
  {
    seq(n, i requires 0 <= i < n => PutOf(solved[i], resolved, clock(i)))
  }

  function StampTime(solved: seq<HitlCookie>, clock: nat -> Clock): nat {
    Seconds(clock(|solved|))
  }

  function SolveActs(solved: seq<HitlCookie>, resolved: string, clock: nat -> Clock): seq<Act> {
    Injections(solved, resolved, clock, |solved|) + [Stamp(NormalizeHost(resolved), StampTime(solved, clock))]
  }

  lemma NothingInjected(s: Shared, solved: seq<HitlCookie>, resolved: string, clock: nat -> Clock)
    ensures Exec(s, Injections(solved, resolved, clock, 0)) == s
  {
  }

  lemma ExecSolve(s: Shared, solved: seq<HitlCookie>, resolved: string, clock: nat -> Clock, i: nat)
    requires i < |solved|
    ensures Exec(s, Injections(solved, resolved, clock, i + 1))
         == Apply(Exec(s, Injections(solved, resolved, clock, i)), PutOf(solved[i], resolved, clock(i)))
  {
    assert Injections(solved, resolved, clock, i + 1)[..i] == Injections(solved, resolved, clock, i);
  }

  /** The jar's part of `handle_hitl_solve`, undisturbed: inject each cookie under its
    * own domain or the resolved host, snapshot, then stamp the resolved host only. */
  method HandleHitlSolve(jar: Jar, solved: seq<HitlCookie>, urlHost: Option<string>, clock: nat -> Clock)
    returns (r: Result<Cookies, string>)
    modifies jar
    ensures r.Err? <==> solved == [] || ResolvedHost(solved, urlHost).None?
    ensures r.Err? ==> jar.cookies == old(jar.cookies) && jar.stamps == old(jar.stamps)
    ensures r.Ok? ==>
      && Shared(jar.cookies, jar.stamps)
         == Exec(old(Shared(jar.cookies, jar.stamps)), SolveActs(solved, ResolvedHost(solved, urlHost).value, clock))
      && r.value == jar.cookies
    // The stamped host is that of the first cookie with a domain, or the entry's own.
    ensures r.Ok? ==> forall i | IsFirstDomain(solved, i) ::
      StampsAndProtects(jar, old(jar.stamps), solved, solved[i].domain.value, Seconds(clock(|solved|)))
    ensures r.Ok? && (forall c | c in solved :: c.domain.None?) ==>
      urlHost.Some? && StampsAndProtects(jar, old(jar.stamps), solved, urlHost.value, Seconds(clock(|solved|)))
    ensures r.Ok? <==> solved != [] && (urlHost.Some? || exists c | c in solved :: c.domain.Some?)
    // Every cookie is stored, under its own domain or the stamped host.
    ensures r.Ok? ==> forall i, stamped | 0 <= i < |solved| && IsStampedHost(solved, urlHost, stamped) && IsLastOfItsName(solved, stamped, i) ::
      Lookup(jar.cookies, KeyOf(solved[i], stamped), solved[i].name)
      == Some(Entry(solved[i].value, ExpiryOf(solved[i].maxAge, clock(i))))
  {
    ResolvedMeans(solved, urlHost);
    if solved == [] {
      return Err("no cookies provided");
    }
    var host := ResolvedHost(solved, urlHost);
    if host.None? {
      return Err("could not resolve host");
    }
    var resolved := host.value;
    ghost var s := Shared(jar.cookies, jar.stamps);
    hide Injections, Store, NormalizeHost, ExpiryOf;
    assert Exec(s, Injections(solved, resolved, clock, 0)) == s by { NothingInjected(s, solved, resolved, clock); }
    for i := 0 to |solved|
      invariant Shared(jar.cookies, jar.stamps) == Exec(s, Injections(solved, resolved, clock, i))
    {
      var c := solved[i];
      var cookieHost := if c.domain.Some? then c.domain.value else resolved;
      jar.SetCookie(cookieHost, c.name, c.value, c.maxAge, clock(i));
      ExecSolve(s, solved, resolved, clock, i);
    }
    var saved := jar.Snapshot();
    jar.MarkHitlSolved(resolved, Seconds(clock(|solved|)));
    assert SolveActs(solved, resolved, clock)[..|solved|] == Injections(solved, resolved, clock, |solved|);
    SolveMeans(s, solved, resolved, clock);
    return Ok(saved);
  }

  lemma {:induction false} InjectionsStore(s: Shared, solved: seq<HitlCookie>, resolved: string, clock: nat -> Clock, n: nat)
    requires n <= |solved|
    ensures var after := Exec(s, Injections(solved, resolved, clock, n));
      && after.stamps == s.stamps
      && forall i | 0 <= i < n :: Lookup(after.cookies, CookieKey(solved[i], resolved), solved[i].name).Some?
  {
    hide Lookup, Store, CookieKey;
    if n > 0 {
      var acts := Injections(solved, resolved, clock, n);
      assert acts[..n - 1] == Injections(solved, resolved, clock, n - 1);
      InjectionsStore(s, solved, resolved, clock, n - 1);
      var before, a := Exec(s, acts[..n - 1]), PutOf(solved[n - 1], resolved, clock(n - 1));
      assert acts[n - 1] == a;
      LookupAfterStore(before.cookies, a.host, a.name, a.entry);
    }
  }

  /** What an undisturbed solve leaves, for the host that it resolves. */
  lemma SolveMeans(s: Shared, solved: seq<HitlCookie>, resolved: string, clock: nat -> Clock)
    ensures var after, t := Exec(s, SolveActs(solved, resolved, clock)), StampTime(solved, clock);
      && after.stamps == s.stamps[NormalizeHost(resolved) := t]
      && (forall c | c in solved && KeyOf(c, resolved) == NormalizeHost(resolved) ::
            SurvivesHour(after, NormalizeHost(resolved), c.name, t))
      && (forall i | 0 <= i < |solved| && IsLastOfItsName(solved, resolved, i) ::
            Lookup(after.cookies, KeyOf(solved[i], resolved), solved[i].name)
            == Some(Entry(solved[i].value, ExpiryOf(solved[i].maxAge, clock(i)))))
  {
    hide NormalizeHost, Lookup, SurvivesHour, ExpiryOf;
    var acts := SolveActs(solved, resolved, clock);
    assert acts[..|solved|] == Injections(solved, resolved, clock, |solved|);
    InjectionsStore(s, solved, resolved, clock, |solved|);
    forall c | c in solved && KeyOf(c, resolved) == NormalizeHost(resolved)
      ensures SurvivesHour(Exec(s, acts), NormalizeHost(resolved), c.name, StampTime(solved, clock))
    {
      SolveCoverageIff(s, solved, resolved, clock, c);
    }
    forall i | 0 <= i < |solved| && IsLastOfItsName(solved, resolved, i)
      ensures Lookup(Exec(s, acts).cookies, KeyOf(solved[i], resolved), solved[i].name)
           == Some(Entry(solved[i].value, ExpiryOf(solved[i].maxAge, clock(i))))
    {
      LastInjectionStays(s, solved, resolved, clock, |solved|, i);
    }
  }

  lemma {:induction false} LastInjectionStays(s: Shared, solved: seq<HitlCookie>, resolved: string, clock: nat -> Clock, n: nat, i: nat)
    requires i < n <= |solved|
    requires forall k | i < k < n :: solved[k].name != solved[i].name || KeyOf(solved[k], resolved) != KeyOf(solved[i], resolved)
    ensures Lookup(Exec(s, Injections(solved, resolved, clock, n)).cookies, KeyOf(solved[i], resolved), solved[i].name)
         == Some(Entry(solved[i].value, ExpiryOf(solved[i].maxAge, clock(i))))
  {
    hide NormalizeHost, Lookup, Store, ExpiryOf, Exec, Injections;
    var last := solved[n - 1];
    ExecSolve(s, solved, resolved, clock, n - 1);
    LookupAfterStore(Exec(s, Injections(solved, resolved, clock, n - 1)).cookies, CookieKey(last, resolved), last.name,
                     Entry(last.value, ExpiryOf(last.maxAge, clock(n - 1))));
    if i < n - 1 {
      LastInjectionStays(s, solved, resolved, clock, n - 1, i);
    }
  }

  /** Which cookies of an undisturbed solve are covered: exactly those under the
    * resolved host, under a domain stamped at that very second or later, or under
    * the empty domain, which no clear looks at, survive all L1 clears of the hour. */
  lemma SolveCoverageIff(s: Shared, solved: seq<HitlCookie>, resolved: string, clock: nat -> Clock, c: HitlCookie)
    requires c in solved
    ensures var after, key, t := Exec(s, SolveActs(solved, resolved, clock)), CookieKey(c, resolved), StampTime(solved, clock);
      && Lookup(after.cookies, key, c.name).Some?
      && (SurvivesHour(after, key, c.name, t) <==>
            key == "" || key == NormalizeHost(resolved) || (key in s.stamps && s.stamps[key] >= t))
  {
    hide NormalizeHost, Lookup, SurvivesHour;
    var acts, key, t := SolveActs(solved, resolved, clock), CookieKey(c, resolved), StampTime(solved, clock);
    assert acts[..|solved|] == Injections(solved, resolved, clock, |solved|);
    InjectionsStore(s, solved, resolved, clock, |solved|);
    SurvivesHourIff(Exec(s, acts), key, c.name, t, if c.domain.Some? then c.domain.value else resolved);
  }

  const TWO_DOMAINS: seq<HitlCookie> := [HitlCookie("a", "1", Some("x"), None), HitlCookie("b", "2", Some("y"), None)]

  /** A solve for two domains covers the first one's cookie; the second one's is
    * lost to some L1 clear of the hour. */
  lemma TwoDomainSolveLosesOne(clock: nat -> Clock)
    ensures var after, t := Exec(Shared(map[], map[]), SolveActs(TWO_DOMAINS, "x", clock)), StampTime(TWO_DOMAINS, clock);
      SurvivesHour(after, "x", "a", t) && !SurvivesHour(after, "y", "b", t)
  {
    OneLetterHosts();
    SolveCoverageIff(Shared(map[], map[]), TWO_DOMAINS, "x", clock, TWO_DOMAINS[0]);
    SolveCoverageIff(Shared(map[], map[]), TWO_DOMAINS, "x", clock, TWO_DOMAINS[1]);
  }

  lemma OneLetterHosts()
    ensures NormalizeHost("x") == "x" && NormalizeHost("y") == "y"
  {
    assert Trim("x") == "x" && Trim("y") == "y";
    assert ToAsciiLower("x") == "x" && ToAsciiLower("y") == "y";
  }

  // ----- a solve disturbed -----

  /** In any run in which a solve stores an entry under the resolved host at step p and
    * stamps that host at step q, and whose clears after the stamp fall within the hour,
    * the entry is there at the end exactly when no clear dropped it between the two. */
  lemma DisturbedSolveIff(s: Shared, acts: seq<Act>, p: nat, q: nat, h: string, n: string, t: nat)
    requires p < q < |acts| && Stores(acts[p], h, n) && acts[q] == Stamp(h, t)
    requires forall k | p < k < |acts| :: !Stores(acts[k], h, n)
    requires forall k | q < k < |acts| && acts[k].Stamp? && acts[k].host == h :: acts[k].at >= t
    requires forall k | q < k < |acts| && acts[k].L1? :: acts[k].now < t + 3600
    ensures Lookup(Exec(s, acts).cookies, h, n) ==
      if exists k | p < k < q :: Drops(Exec(s, acts[..k]), acts[k], h) then None else Some(acts[p].entry)
  {
    hide Lookup, Apply, Drops, Exec;
    var stored, rest := Exec(s, acts[..p + 1]), acts[p + 1..];
    StoredAt(s, acts, p, h, n);
    ExecAppends(s, acts[..p + 1], rest);
    assert acts == acts[..p + 1] + rest;
    EntrySurvivesIff(stored, rest, h, n);
    forall k | 0 <= k < |rest| ensures Exec(stored, rest[..k]) == Exec(s, acts[..p + 1 + k]) {
      ExecAppends(s, acts[..p + 1], rest[..k]);
      assert acts[..p + 1 + k] == acts[..p + 1] + rest[..k];
    }
    forall k | q <= k < |acts| ensures !Drops(Exec(s, acts[..k]), acts[k], h) {
      StampedIsSafe(s, acts, q, h, t, k);
    }
    if k :| p < k < q && Drops(Exec(s, acts[..k]), acts[k], h) {
      assert Drops(Exec(stored, rest[..k - p - 1]), rest[k - p - 1], h);
    }
  }

  lemma StoredAt(s: Shared, acts: seq<Act>, p: nat, h: string, n: string)
    requires p < |acts| && Stores(acts[p], h, n)
    ensures Lookup(Exec(s, acts[..p + 1]).cookies, h, n) == Some(acts[p].entry)
  {
    assert acts[..p + 1][..p] == acts[..p];
    LookupAfterStore(Exec(s, acts[..p]).cookies, h, n, acts[p].entry);
  }

  lemma StampedIsSafe(s: Shared, acts: seq<Act>, q: nat, h: string, t: nat, k: nat)
    requires q <= k < |acts| && acts[q] == Stamp(h, t)
    requires forall i | q < i < |acts| && acts[i].Stamp? && acts[i].host == h :: acts[i].at >= t
    requires forall i | q < i < |acts| && acts[i].L1? :: acts[i].now < t + 3600
    ensures !Drops(Exec(s, acts[..k]), acts[k], h)
  {
    if k > q {
      hide Reaches;
      var stamped, more := Exec(s, acts[..q + 1]), acts[q + 1..k];
      assert acts[..q + 1][..q] == acts[..q];
      ExecAppends(s, acts[..q + 1], more);
      assert acts[..k] == acts[..q + 1] + more;
      StampStays(stamped, more, h, t);
    }
  }
}
