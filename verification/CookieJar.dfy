/** The shared cookie jar.  Every method holds the jar's lock from start to end,
  * so a concurrent run is a sequence of these calls; the clock is a parameter
  * (None when the system clock reads before 1970). */
module CookieJar {
  import opened Wrappers
  import opened Hosts

  const U64_MAX: nat := 0xFFFF_FFFF_FFFF_FFFF
  const HITL_PROTECT_WINDOW_SECS: nat := 3600

  datatype Entry = Entry(value: string, expiresAt: Option<nat>)

  type Bucket = map<string, Entry>

  type Cookies = map<string, Bucket>

  /** One cookie of a request header, with the host it was stored under. */
  datatype Part = Part(host: string, name: string, value: string)

  type Clock = Option<nat>

  // ----- expiry -----

  predicate IsExpired(expiresAt: Option<nat>, now: Clock) {
    expiresAt.Some? && now.Some? && expiresAt.value <= now.value
  }

  /** The absolute expiry stored for a relative age; an age that overflows the
    * 64-bit clock becomes "no expiry". */
  function ExpiryOf(maxAge: Option<nat>, now: Clock): Option<nat> {
    match maxAge
    case None => None
    case Some(secs) =>
      if secs == 0 then now
      else match now
        case None => None
        case Some(t) => if t + secs > U64_MAX then None else Some(t + secs)
  }

  /** Clocks that do not run backwards. */
  predicate NotLater(a: Clock, b: Clock) {
    a.Some? ==> b.Some? && a.value <= b.value
  }

  // ----- the contents, as a value -----

  function Store(cookies: Cookies, host: string, name: string, entry: Entry): Cookies {
    var bucket := if host in cookies then cookies[host] else map[];
    cookies[host := bucket[name := entry]]
  }

  function Lookup(cookies: Cookies, host: string, name: string): Option<Entry> {
    if host in cookies && name in cookies[host] then Some(cookies[host][name]) else None
  }

  lemma LookupAfterStore(cookies: Cookies, host: string, name: string, entry: Entry)
    ensures forall h, n ::
      Lookup(Store(cookies, host, name, entry), h, n) == (if h == host && n == name then Some(entry) else Lookup(cookies, h, n))
  {
  }

  predicate NoEmptyBucket(cookies: Cookies) {
    forall h | h in cookies :: cookies[h] != map[]
  }

  function DropEmpty(cookies: Cookies): Cookies {
    map h | h in cookies && cookies[h] != map[] :: cookies[h]
  }

  function LiveBucket(bucket: Bucket, now: Clock): Bucket {
    map n | n in bucket && !IsExpired(bucket[n].expiresAt, now) :: bucket[n]
  }

  /** The part that has not expired, without empty buckets. */
  function Live(cookies: Cookies, now: Clock): Cookies {
    map h | h in cookies && LiveBucket(cookies[h], now) != map[] :: LiveBucket(cookies[h], now)
  }

  /** `part` is an unexpired cookie of the jar. */
  predicate IsLive(cookies: Cookies, now: Clock, part: Part) {
    && part.host in cookies
    && part.name in cookies[part.host]
    && var entry := cookies[part.host][part.name];
       part.value == entry.value && !IsExpired(entry.expiresAt, now)
  }

  function SetOf<T>(xs: seq<T>): set<T> {
    set x | x in xs
  }

  /** `part` is one of the cookies a request to `host` carries: an unexpired
    * one, stored under a host that `host` domain-matches. */
  predicate Carries(cookies: Cookies, host: string, now: Clock, part: Part) {
    var h := NormalizeHost(host);
    h != "" && part.host != "" && DomainMatch(h, part.host) && IsLive(cookies, now, part)
  }

  /** `domain` is the host or a parent domain of it. */
  predicate Matches(host: string, domain: string) {
    NormalizeHost(host) != "" && domain != "" && DomainMatch(NormalizeHost(host), domain)
  }

  /** The jar holds the cookie, and the clock has not reached its expiry, if it has one. */
  predicate HasTimeLeft(cookies: Cookies, part: Part, now: Clock) {
    match Lookup(cookies, part.host, part.name)
    case None => false
    case Some(Entry(value, expiresAt)) =>
      value == part.value && (expiresAt.None? || now.None? || now.value < expiresAt.value)
  }

  lemma CarriesMeans(cookies: Cookies, host: string, now: Clock)
    ensures forall p :: Carries(cookies, host, now, p) <==> Matches(host, p.host) && HasTimeLeft(cookies, p, now)
  {
    hide NormalizeHost;
  }

  /** How long a cookie stored at time t is sent: with a positive age that fits the clock,
    * until that age is over; with age 0, not from t on; without one, or with one that
    * overflows the clock, for ever; and always to the hosts that match its own. */
  lemma LifetimeLaw(cookies: Cookies, stored: string, name: string, value: string, maxAge: Option<nat>, t: nat,
                    host: string, t': nat)
    ensures var key := NormalizeHost(stored);
      var jar := Store(cookies, key, name, Entry(value, ExpiryOf(maxAge, Some(t))));
      Carries(jar, host, Some(t'), Part(key, name, value)) <==>
        && Matches(host, key)
        && match maxAge
           case None => true
           case Some(age) => t' < t + age || (age > 0 && t + age > 0xFFFF_FFFF_FFFF_FFFF)
  {
    hide NormalizeHost;
    var key := NormalizeHost(stored);
    LookupAfterStore(cookies, key, name, Entry(value, ExpiryOf(maxAge, Some(t))));
    CarriesMeans(Store(cookies, key, name, Entry(value, ExpiryOf(maxAge, Some(t)))), host, Some(t'));
  }

  /** Sweeping keeps exactly the cookies whose expiry the clock has not reached, and
    * no empty bucket. */
  lemma LiveMeans(cookies: Cookies, now: Clock, h: string, n: string)
    ensures NoEmptyBucket(Live(cookies, now))
    ensures var before, after := Lookup(cookies, h, n), Lookup(Live(cookies, now), h, n);
      after == if before.Some? && (before.value.expiresAt.None? || now.None? || now.value < before.value.expiresAt.value)
               then before else None
  {
    if Lookup(cookies, h, n).Some? && !IsExpired(cookies[h][n].expiresAt, now) {
      assert n in LiveBucket(cookies[h], now);
    }
  }

  predicate NoRepeats(parts: seq<Part>) {
    forall i, j | 0 <= i < j < |parts| :: parts[i] != parts[j]
  }

  predicate HostsShorten(parts: seq<Part>) {
    forall i, j | 0 <= i < j < |parts| :: |parts[i].host| >= |parts[j].host|
  }

  /** The unexpired cookies of one bucket, in whatever order the map yields them. */
  method BucketParts(host: string, bucket: Bucket, now: Clock) returns (parts: seq<Part>)
    ensures NoRepeats(parts)
    ensures forall p :: p in parts <==> p.host == host && IsLive(map[host := bucket], now, p)
  {
    parts := [];
    var names := bucket.Keys;
    while names != {}
      invariant names <= bucket.Keys && NoRepeats(parts)
      invariant forall p: Part :: p in parts <==> p.host == host && p.name !in names && IsLive(map[host := bucket], now, p)
      decreases names
    {
      var name :| name in names;
      if !IsExpired(bucket[name].expiresAt, now) {
        parts := parts + [Part(host, name, bucket[name].value)];
      }
      names := names - {name};
    }
  }

  predicate Protected(stamps: map<string, nat>, host: string, now: nat) {
    host in stamps && (if now < stamps[host] then 0 else now - stamps[host]) < HITL_PROTECT_WINDOW_SECS
  }

  /** The contents after emptying the buckets in `doomed`. */
  function Without(cookies: Cookies, doomed: set<string>): Cookies {
    map h | h in cookies && h !in doomed && cookies[h] != map[] :: cookies[h]
  }

  /** The buckets an L1 clear of `host` empties. */
  function Unprotected(stamps: map<string, nat>, host: string, now: nat): set<string> {
    set h | h in Candidates(NormalizeHost(NormalizeHost(host))) && !Protected(stamps, h, now)
  }

  // ----- counting cookies -----

  ghost function Total(cookies: Cookies): nat {
    if cookies == map[] then 0
    else
      var h :| h in cookies;
      |cookies[h]| + Total(cookies - {h})
  }

  lemma TotalUnfolds(cookies: Cookies) returns (g: string)
    requires cookies != map[]
    ensures g in cookies && Total(cookies) == |cookies[g]| + Total(cookies - {g})
    ensures |cookies - {g}| < |cookies|
  {
    g :| g in cookies && Total(cookies) == |cookies[g]| + Total(cookies - {g});
    assert (cookies - {g}).Keys == cookies.Keys - {g};
  }

  lemma {:induction false} TotalSplits(cookies: Cookies, h: string)
    requires h in cookies
    ensures Total(cookies) == |cookies[h]| + Total(cookies - {h})
    decreases |cookies|
  {
    hide Total;
    var g := TotalUnfolds(cookies);
    if g != h {
      assert (cookies - {h}).Keys == cookies.Keys - {h};
      TotalSplits(cookies - {g}, h);
      TotalSplits(cookies - {h}, g);
      assert cookies - {g} - {h} == cookies - {h} - {g};
    }
  }

  /** The contents with the buckets in `gone` emptied but not yet dropped. */
  function Emptied(cookies: Cookies, gone: set<string>): Cookies {
    map h | h in cookies :: if h in gone then map[] else cookies[h]
  }

  lemma EmptiedNone(cookies: Cookies)
    ensures Emptied(cookies, {}) == cookies
  {
  }

  lemma EmptiedKeys(cookies: Cookies, gone: set<string>)
    ensures Emptied(cookies, gone).Keys == cookies.Keys
  {
  }

  lemma EmptiedOneMore(cookies: Cookies, gone: set<string>, h: string)
    ensures var sofar, next := Emptied(cookies, gone), Emptied(cookies, gone + {h});
      if h in cookies then next == sofar[h := map[]] && Total(next) + |sofar[h]| == Total(sofar)
      else next == sofar
  {
    hide Total;
    if h in cookies {
      var sofar, next := Emptied(cookies, gone), Emptied(cookies, gone + {h});
      assert next == sofar[h := map[]];
      TotalSplits(sofar, h);
      TotalSplits(next, h);
      assert next - {h} == sofar - {h};
    } else {
      assert Emptied(cookies, gone + {h}) == Emptied(cookies, gone);
    }
  }

  lemma {:induction false} TotalWithoutEmpty(cookies: Cookies)
    ensures Total(DropEmpty(cookies)) == Total(cookies)
    decreases |cookies|
  {
    if cookies == map[] {
      assert DropEmpty(cookies) == map[];
    } else {
      hide Total, DropEmpty;
      var h := TotalUnfolds(cookies);
      TotalWithoutEmpty(cookies - {h});
      DropEmptySplits(cookies, h);
      if cookies[h] != map[] {
        TotalSplits(DropEmpty(cookies), h);
      }
    }
  }

  lemma DropEmptySplits(cookies: Cookies, h: string)
    requires h in cookies
    ensures if cookies[h] == map[] then DropEmpty(cookies) == DropEmpty(cookies - {h})
      else h in DropEmpty(cookies) && DropEmpty(cookies)[h] == cookies[h]
           && DropEmpty(cookies) - {h} == DropEmpty(cookies - {h})
  {
  }

  lemma DroppingEmptied(cookies: Cookies, gone: set<string>)
    ensures DropEmpty(Emptied(cookies, gone)) == Without(cookies, gone)
    ensures Total(Without(cookies, gone)) == Total(Emptied(cookies, gone))
  {
    hide Total;
    TotalWithoutEmpty(Emptied(cookies, gone));
    assert DropEmpty(Emptied(cookies, gone)) == Without(cookies, gone);
  }

  // ----- collecting a header -----

  lemma LiveIsLocal(cookies: Cookies, h: string, now: Clock)
    ensures h in cookies ==> forall p: Part | p.host == h :: IsLive(cookies, now, p) <==> IsLive(map[h := cookies[h]], now, p)
    ensures h !in cookies ==> forall p: Part | p.host == h :: !IsLive(cookies, now, p)
  {
  }

  lemma AppendParts(parts: seq<Part>, more: seq<Part>, hosts: seq<string>, i: nat)
    requires i < |hosts| && LengthsDescend(hosts)
    requires NoRepeats(parts) && HostsShorten(parts) && forall p | p in parts :: p.host in hosts[..i]
    requires NoRepeats(more) && forall p | p in more :: p.host == hosts[i]
    ensures NoRepeats(parts + more) && HostsShorten(parts + more)
  {
    forall p, q | p in parts && q in more ensures |p.host| > |q.host| {
      var k :| 0 <= k < i && hosts[..i][k] == p.host;
      assert hosts[k] == p.host;
    }
    var all := parts + more;
    forall a, b | 0 <= a < b < |all| ensures all[a] != all[b] && |all[a].host| >= |all[b].host| {
      if b >= |parts| {
        assert all[b] in more;
        if a < |parts| { assert all[a] in parts; } else { assert all[a] in more; }
      }
    }
  }

  lemma CandidatesCarry(cookies: Cookies, host: string, now: Clock)
    ensures forall p: Part :: p.host in Candidates(NormalizeHost(host)) && IsLive(cookies, now, p) <==> Carries(cookies, host, now, p)
  {
    hide NormalizeHost, IsLive, DomainMatch;
    var h := NormalizeHost(host);
    if h != "" {
      forall p: Part ensures p.host in Candidates(h) <==> p.host != "" && DomainMatch(h, p.host) {
        CandidatesAreDomainMatches(h, p.host);
      }
    }
  }

  // ----- the jar -----

  class Jar {
    var cookies: Cookies
    var stamps: map<string, nat>

    constructor ()
      ensures cookies == map[] && stamps == map[]
    {
      cookies, stamps := map[], map[];
    }

    method SetCookie(host: string, name: string, value: string, maxAge: Option<nat>, now: Clock)
      modifies this`cookies
      ensures cookies == Store(old(cookies), NormalizeHost(host), name, Entry(value, ExpiryOf(maxAge, now)))
    {
      var key := NormalizeHost(host);
      if key !in cookies {
        cookies := cookies[key := map[]];
      }
      cookies := cookies[key := cookies[key][name := Entry(value, ExpiryOf(maxAge, now))]];
    }

    /** The header of a request to `host`: for each candidate host in turn, its
      * unexpired cookies in some order. */
    method CookieHeaderFor(host: string, now: Clock) returns (parts: seq<Part>)
      ensures forall p :: p in parts <==> Carries(cookies, host, now, p)
      ensures forall p :: p in parts <==> Matches(host, p.host) && HasTimeLeft(cookies, p, now)
      ensures NoRepeats(parts) && HostsShorten(parts)
    {
      hide NormalizeHost, IsLive, Candidates, Carries, Matches, HasTimeLeft;
      CarriesMeans(cookies, host, now);
      var candidates := HostCandidates(host);
      CandidatesDescend(NormalizeHost(host));
      parts := [];
      for i := 0 to |candidates|
        invariant forall p: Part :: p in parts <==> p.host in candidates[..i] && IsLive(cookies, now, p)
        invariant NoRepeats(parts) && HostsShorten(parts)
      {
        var h := candidates[i];
        assert candidates[..i + 1] == candidates[..i] + [h];
        if h in cookies {
          var more := BucketParts(h, cookies[h], now);
          LiveIsLocal(cookies, h, now);
          AppendParts(parts, more, candidates, i);
          parts := parts + more;
        } else {
          LiveIsLocal(cookies, h, now);
        }
      }
      assert candidates[..|candidates|] == candidates;
      CandidatesCarry(cookies, host, now);
    }

    method ClearExpired(now: Clock)
      modifies this`cookies
      ensures cookies == Live(old(cookies), now)
    {
      cookies := map h | h in cookies :: LiveBucket(cookies[h], now);
      cookies := DropEmpty(cookies);
    }

    /** `clear_for_host`: empties every candidate bucket and says how many
      * cookies that removed. */
    method ClearForHost(host: string) returns (removed: nat)
      modifies this`cookies
      ensures cookies == Without(old(cookies), SetOf(Candidates(NormalizeHost(NormalizeHost(host)))))
      ensures removed == Total(old(cookies)) - Total(cookies)
    {
      hide Total, Without, Emptied;
      var candidates := HostCandidates(NormalizeHost(host));
      EmptiedNone(cookies);
      assert SetOf(candidates[..0]) == {};
      removed := 0;
      for i := 0 to |candidates|
        invariant cookies == Emptied(old(cookies), SetOf(candidates[..i]))
        invariant removed + Total(cookies) == Total(old(cookies))
      {
        var h := candidates[i];
        assert SetOf(candidates[..i + 1]) == SetOf(candidates[..i]) + {h};
        EmptiedOneMore(old(cookies), SetOf(candidates[..i]), h);
        EmptiedKeys(old(cookies), SetOf(candidates[..i]));
        if h in cookies {
          removed := removed + |cookies[h]|;
          cookies := cookies[h := map[]];
        }
      }
      assert candidates[..|candidates|] == candidates;
      DroppingEmptied(old(cookies), SetOf(candidates));
      cookies := DropEmpty(cookies);
    }

    method MarkHitlSolved(host: string, timestamp: nat)
      modifies this`stamps
      ensures stamps == old(stamps)[NormalizeHost(host) := timestamp]
    {
      stamps := stamps[NormalizeHost(host) := timestamp];
    }

    /** `clear_for_host_except_hitl`: the L1 clear.  Recently solved hosts are skipped. */
    method ClearForHostExceptHitl(host: string, now: Clock) returns (removed: nat)
      modifies this`cookies
      ensures cookies == Without(old(cookies), Unprotected(stamps, host, Seconds(now)))
      ensures removed == Total(old(cookies)) - Total(cookies)
    {
      hide Total, Without, Emptied, Protected;
      var candidates := HostCandidates(NormalizeHost(host));
      var seconds := Seconds(now);
      EmptiedNone(cookies);
      ghost var gone: set<string> := {};
      removed := 0;
      for i := 0 to |candidates|
        invariant gone == set h | h in candidates[..i] && !Protected(stamps, h, seconds)
        invariant cookies == Emptied(old(cookies), gone)
        invariant removed + Total(cookies) == Total(old(cookies))
      {
        var h := candidates[i];
        assert candidates[..i + 1] == candidates[..i] + [h];
        if Protected(stamps, h, seconds) {
          continue;
        }
        EmptiedOneMore(old(cookies), gone, h);
        EmptiedKeys(old(cookies), gone);
        gone := gone + {h};
        if h in cookies {
          removed := removed + |cookies[h]|;
          cookies := cookies[h := map[]];
        }
      }
      assert candidates[..|candidates|] == candidates;
      DroppingEmptied(old(cookies), gone);
      cookies := DropEmpty(cookies);
    }

    /** `save_to_path`: the snapshot written, here a value. */
    method Snapshot() returns (saved: Cookies)
      ensures saved == cookies
    {
      saved := cookies;
    }
  }

  function Seconds(now: Clock): nat {
    if now.Some? then now.value else 0
  }
}
