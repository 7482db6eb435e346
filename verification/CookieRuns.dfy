/** What the jar keeps across restarts: the disk round trip, and headers under
  * sweeps and reloads. */
module CookieRuns {
  import opened Wrappers
  import opened Hosts
  import opened CookieJar

  // ----- the disk snapshot -----

  /** What is found at the snapshot's path. */
  datatype SnapshotFile = Missing | Empty | Unreadable(error: string) | Holding(saved: Cookies)

  /** `load_from_path`: a first boot is an empty jar, a corrupted file is an error. */
  method LoadFromPath(file: SnapshotFile, now: Clock) returns (r: Result<Cookies, string>)
    ensures r.Ok? <==> !file.Unreadable?
    ensures r.Ok? ==> r.value == if file.Holding? then Live(file.saved, now) else map[]
  {
    match file {
      case Missing => return Ok(map[]);
      case Empty => return Ok(map[]);
      case Unreadable(error) => return Err(error);
      case Holding(saved) =>
        var cookies := Load(saved, now);
        return Ok(cookies);
    }
  }

  /** The copying loop: the unexpired cookies of the snapshot, host by host. */
  method Load(saved: Cookies, now: Clock) returns (cookies: Cookies)
    ensures cookies == Live(saved, now)
  {
    hide LiveBucket;
    cookies := map[];
    var hosts := saved.Keys;
    while hosts != {}
      invariant hosts <= saved.Keys
      invariant cookies == map h | h in saved && h !in hosts && LiveBucket(saved[h], now) != map[] :: LiveBucket(saved[h], now)
      decreases hosts
    {
      var host :| host in hosts;
      var kept := LoadBucket(saved[host], now);
      if kept != map[] {
        cookies := cookies[host := kept];
      }
      hosts := hosts - {host};
    }
  }

  method LoadBucket(bucket: Bucket, now: Clock) returns (kept: Bucket)
    ensures kept == LiveBucket(bucket, now)
  {
    kept := map[];
    var names := bucket.Keys;
    while names != {}
      invariant names <= bucket.Keys
      invariant kept == map n | n in bucket && n !in names && !IsExpired(bucket[n].expiresAt, now) :: bucket[n]
      decreases names
    {
      var name :| name in names;
      if !IsExpired(bucket[name].expiresAt, now) {
        kept := kept[name := bucket[name]];
      }
      names := names - {name};
    }
  }

  /** Neither a sweep nor a reload at one time changes any header built then or
    * later, for any host, while the clock does not run backwards. */
  lemma SweepsDoNotChangeHeaders(cookies: Cookies, now: Clock, host: string, later: Clock, part: Part)
    requires NotLater(now, later)
    ensures Carries(Live(cookies, now), host, later, part) <==> Carries(cookies, host, later, part)
  {
    hide NormalizeHost, DomainMatch;
    if IsLive(cookies, later, part) {
      var entry := cookies[part.host][part.name];
      assert part.name in LiveBucket(cookies[part.host], now);
    }
  }

  // ----- re-seeding through relative ages -----

  function RemainingAge(expiresAt: Option<nat>, first: nat): Option<nat> {
    match expiresAt
    case None => None
    case Some(t) => Some(if t <= first then 0 else t - first)
  }

  /** What `seed_cookie_jar` turns an absolute expiry into: the remaining age at
    * the first clock reading, added back to the second. */
  function ReseededExpiry(expiresAt: Option<nat>, first: nat, second: nat): Option<nat> {
    ExpiryOf(RemainingAge(expiresAt, first), Some(second))
  }

  /** The expiry comes back up to the clock advance between the readings; an
    * expiry already past becomes the second reading; one that then no longer fits 64
    * bits is lost, and the cookie never expires. */
  lemma ReseedRestoresExpiry(t: nat, first: nat, second: nat)
    requires first <= second <= U64_MAX
    ensures var back := (if t <= first then first else t) + (second - first);
      ReseededExpiry(Some(t), first, second) == if back <= U64_MAX then Some(back) else None
    ensures ReseededExpiry(None, first, second) == None
  {
  }

  datatype Row = Row(host: string, name: string, entry: Entry)

  /** `rows` lists every cookie once, in some order (`CookieJar::iter`). */
  predicate IsListing(rows: seq<Row>, cookies: Cookies) {
    && (forall r | r in rows :: r.host in cookies && r.name in cookies[r.host] && cookies[r.host][r.name] == r.entry)
    && (forall h, n | h in cookies && n in cookies[h] :: Row(h, n, cookies[h][n]) in rows)
    && (forall i, j | 0 <= i < j < |rows| :: rows[i] != rows[j])
  }

  /** Storing the first n rows; row i uses clock readings 2i and 2i+1. */
  function Reseeded(jar: Cookies, rows: seq<Row>, clock: nat -> nat, n: nat): Cookies
    requires n <= |rows|
  {
    if n == 0 then jar
    else
      var r := rows[n - 1];
      Store(Reseeded(jar, rows, clock, n - 1), NormalizeHost(r.host), r.name, ReseededEntry(r, clock, n - 1))
  }

  function ReseededEntry(r: Row, clock: nat -> nat, i: nat): Entry {
    Entry(r.entry.value, ReseededExpiry(r.entry.expiresAt, clock(2 * i), clock(2 * i + 1)))
  }

  lemma ReseededOneMore(jar: Cookies, rows: seq<Row>, clock: nat -> nat, n: nat)
    requires n < |rows|
    ensures Reseeded(jar, rows, clock, 0) == jar
    ensures Reseeded(jar, rows, clock, n + 1) ==
      Store(Reseeded(jar, rows, clock, n), NormalizeHost(rows[n].host), rows[n].name, ReseededEntry(rows[n], clock, n))
  {
  }

  method SeedCookieJar(jar: Jar, rows: seq<Row>, clock: nat -> nat)
    modifies jar
    ensures jar.cookies == Reseeded(old(jar.cookies), rows, clock, |rows|) && jar.stamps == old(jar.stamps)
  {
    ghost var before := jar.cookies;
    for i := 0 to |rows|
      invariant jar.cookies == Reseeded(before, rows, clock, i) && jar.stamps == old(jar.stamps)
    {
      hide NormalizeHost, Store, ExpiryOf, Reseeded, RemainingAge;
      ReseededOneMore(before, rows, clock, i);
      var r := rows[i];
      var maxAge := RemainingAge(r.entry.expiresAt, clock(2 * i));
      jar.SetCookie(r.host, r.name, r.entry.value, maxAge, Some(clock(2 * i + 1)));
    }
  }

  function RowKey(r: Row): (string, string) {
    (NormalizeHost(r.host), r.name)
  }

  /** The first n rows are in the jar, re-dated, and nothing else is. */
  ghost predicate Restored(jar: Cookies, rows: seq<Row>, clock: nat -> nat, n: nat)
    requires n <= |rows|
  {
    && (forall i | 0 <= i < n :: Lookup(jar, RowKey(rows[i]).0, RowKey(rows[i]).1) == Some(ReseededEntry(rows[i], clock, i)))
    && (forall h, m | Lookup(jar, h, m).Some? :: exists i | 0 <= i < n :: RowKey(rows[i]) == (h, m))
  }

  /** Rows that normalise to one host and name, if any, come back alike. */
  ghost predicate Agree(rows: seq<Row>, clock: nat -> nat, n: nat)
    requires n <= |rows|
  {
    forall i, j | 0 <= i < j < n && RowKey(rows[i]) == RowKey(rows[j]) ::
      ReseededEntry(rows[i], clock, i) == ReseededEntry(rows[j], clock, j)
  }

  lemma RestoreOneMore(jar: Cookies, rows: seq<Row>, clock: nat -> nat, n: nat)
    requires n < |rows| && Restored(jar, rows, clock, n) && Agree(rows, clock, n + 1)
    ensures var r := rows[n]; Restored(Store(jar, NormalizeHost(r.host), r.name, ReseededEntry(r, clock, n)), rows, clock, n + 1)
  {
    hide ReseededEntry, Store, Lookup, NormalizeHost;
    var r := rows[n];
    var after := Store(jar, NormalizeHost(r.host), r.name, ReseededEntry(r, clock, n));
    LookupAfterStore(jar, NormalizeHost(r.host), r.name, ReseededEntry(r, clock, n));
    forall h, m | Lookup(after, h, m).Some? ensures exists i | 0 <= i < n + 1 :: RowKey(rows[i]) == (h, m) {
      if (h, m) == RowKey(r) {
        assert RowKey(rows[n]) == (h, m);
      } else {
        var i :| 0 <= i < n && RowKey(rows[i]) == (h, m);
      }
    }
  }

  /** Re-seeding a fresh jar brings every row back, and nothing else, exactly when
    * no two rows that normalise to one host and name differ. */
  lemma {:induction false} RowsAreRestoredIff(rows: seq<Row>, clock: nat -> nat, n: nat)
    requires n <= |rows|
    ensures Restored(Reseeded(map[], rows, clock, n), rows, clock, n) <==> Agree(rows, clock, n)
  {
    hide NormalizeHost, Store, ReseededEntry;
    if n > 0 && Agree(rows, clock, n) {
      RowsAreRestoredIff(rows, clock, n - 1);
      RestoreOneMore(Reseeded(map[], rows, clock, n - 1), rows, clock, n - 1);
    }
  }

  /** An expiry that comes back does so at most `advance` later; it is lost only
    * if it then no longer fits 64 bits. */
  predicate SameOrAdvanced(before: Option<nat>, after: Option<nat>, advance: nat) {
    match (before, after)
    case (None, _) => after == None
    case (Some(t), Some(t')) => t <= t' <= t + advance
    case (Some(t), None) => t + advance > U64_MAX
  }

  /** No two stored hosts that hold a cookie of one name normalise alike. */
  ghost predicate HostsApart(cookies: Cookies) {
    forall g, h, n | Lookup(cookies, g, n).Some? && Lookup(cookies, h, n).Some? && NormalizeHost(g) == NormalizeHost(h) :: g == h
  }

  /** One of the first n rows normalises to this host and name and is re-dated to this entry. */
  ghost predicate FromRow(rows: seq<Row>, clock: nat -> nat, n: nat, k: string, m: string, entry: Entry)
    requires n <= |rows|
  {
    exists i | 0 <= i < n :: RowKey(rows[i]) == (k, m) && entry == ReseededEntry(rows[i], clock, i)
  }

  /** Every entry of the jar is one of the first n rows', and each of those has one. */
  ghost predicate HoldsRows(jar: Cookies, rows: seq<Row>, clock: nat -> nat, n: nat)
    requires n <= |rows|
  {
    && (forall i | 0 <= i < n :: Lookup(jar, NormalizeHost(rows[i].host), rows[i].name).Some?)
    && (forall k, m | Lookup(jar, k, m).Some? :: FromRow(rows, clock, n, k, m, Lookup(jar, k, m).value))
  }

  /** Whatever the rows, re-seeding holds them. */
  lemma {:induction false} ReseededHoldsRows(rows: seq<Row>, clock: nat -> nat, n: nat)
    requires n <= |rows|
    ensures HoldsRows(Reseeded(map[], rows, clock, n), rows, clock, n)
  {
    hide NormalizeHost, Store, ReseededEntry, HoldsRows;
    if n == 0 {
      assert HoldsRows(map[], rows, clock, 0) by { NoRows(rows, clock); }
    } else {
      ReseededHoldsRows(rows, clock, n - 1);
      OneMoreRow(Reseeded(map[], rows, clock, n - 1), rows, clock, n - 1);
    }
  }

  lemma NoRows(rows: seq<Row>, clock: nat -> nat)
    ensures HoldsRows(map[], rows, clock, 0)
  {
    hide NormalizeHost, FromRow;
  }

  lemma OneMoreRow(jar: Cookies, rows: seq<Row>, clock: nat -> nat, n: nat)
    requires n < |rows| && HoldsRows(jar, rows, clock, n)
    ensures var r := rows[n]; HoldsRows(Store(jar, NormalizeHost(r.host), r.name, ReseededEntry(r, clock, n)), rows, clock, n + 1)
  {
    hide NormalizeHost, Store, ReseededEntry, Lookup;
    var r := rows[n];
    var after := Store(jar, NormalizeHost(r.host), r.name, ReseededEntry(r, clock, n));
    LookupAfterStore(jar, NormalizeHost(r.host), r.name, ReseededEntry(r, clock, n));
    forall k, m | Lookup(after, k, m).Some? ensures FromRow(rows, clock, n + 1, k, m, Lookup(after, k, m).value) {
      if k == NormalizeHost(r.host) && m == r.name {
        assert RowKey(rows[n]) == (k, m);
      } else {
        assert FromRow(rows, clock, n, k, m, Lookup(jar, k, m).value);
      }
    }
  }

  /** `after` is `before` with its value, re-dated by at most `advance`. */
  predicate ComesBack(before: Entry, after: Entry, advance: nat) {
    after.value == before.value && SameOrAdvanced(before.expiresAt, after.expiresAt, advance)
  }

  /** An entry of the re-seeded jar is a live cookie come back, under its normalised host. */
  lemma EntryComesBack(saved: Cookies, loadTime: nat, rows: seq<Row>, clock: nat -> nat, end: nat, k: string, n: string)
    returns (h: string)
    requires IsListing(rows, Live(saved, Some(loadTime)))
    requires forall i, j | i <= j :: clock(i) <= clock(j)
    requires loadTime <= clock(0) && clock(2 * |rows|) <= end <= U64_MAX
    requires Lookup(Reseeded(map[], rows, clock, |rows|), k, n).Some?
    ensures NormalizeHost(h) == k && Lookup(Live(saved, Some(loadTime)), h, n).Some?
    ensures ComesBack(Lookup(Live(saved, Some(loadTime)), h, n).value, Lookup(Reseeded(map[], rows, clock, |rows|), k, n).value, end - loadTime)
  {
    hide NormalizeHost, ReseededEntry, ReseededExpiry, SameOrAdvanced, Reseeded, FromRow, Lookup, Live;
    ReseededHoldsRows(rows, clock, |rows|);
    h := HostOfRow(saved, loadTime, rows, clock, end, k, n, Lookup(Reseeded(map[], rows, clock, |rows|), k, n).value);
  }

  lemma HostOfRow(saved: Cookies, loadTime: nat, rows: seq<Row>, clock: nat -> nat, end: nat, k: string, n: string, entry: Entry)
    returns (h: string)
    requires IsListing(rows, Live(saved, Some(loadTime))) && FromRow(rows, clock, |rows|, k, n, entry)
    requires forall i, j | i <= j :: clock(i) <= clock(j)
    requires loadTime <= clock(0) && clock(2 * |rows|) <= end <= U64_MAX
    ensures NormalizeHost(h) == k && Lookup(Live(saved, Some(loadTime)), h, n).Some?
    ensures ComesBack(Lookup(Live(saved, Some(loadTime)), h, n).value, entry, end - loadTime)
  {
    hide NormalizeHost, ReseededEntry, ReseededExpiry, SameOrAdvanced, Live;
    var i :| 0 <= i < |rows| && RowKey(rows[i]) == (k, n) && entry == ReseededEntry(rows[i], clock, i);
    assert rows[i] in rows;
    h := rows[i].host;
    assert clock(0) <= clock(2 * i) <= clock(2 * i + 1) <= clock(2 * |rows|);
    LiveEntriesExpireLater(saved, loadTime, h, n);
    ReseedAdvances(rows[i], clock, i, loadTime, end);
  }

  /** Saving, loading and re-seeding into a fresh jar.  Every entry of the new jar is
    * an unexpired cookie with its value, under its normalised host and its name, its
    * expiry at most the clock advance later; every unexpired cookie's normalised host
    * and name has an entry; and it is the cookie's own if no two stored hosts that
    * hold that name normalise alike.  Clock readings do not run backwards. */
  lemma SaveLoadReseed(saved: Cookies, loadTime: nat, rows: seq<Row>, clock: nat -> nat, end: nat)
    requires IsListing(rows, Live(saved, Some(loadTime)))
    requires forall i, j | i <= j :: clock(i) <= clock(j)
    requires loadTime <= clock(0) && clock(2 * |rows|) <= end <= U64_MAX
    ensures var jar, live, advance := Reseeded(map[], rows, clock, |rows|), Live(saved, Some(loadTime)), end - loadTime;
      && (forall k, n | Lookup(jar, k, n).Some? :: exists h ::
            NormalizeHost(h) == k && Lookup(live, h, n).Some? && ComesBack(Lookup(live, h, n).value, Lookup(jar, k, n).value, advance))
      && (forall h, n | Lookup(live, h, n).Some? :: Lookup(jar, NormalizeHost(h), n).Some?)
      && (HostsApart(live) ==> forall h, n | Lookup(live, h, n).Some? ::
            ComesBack(Lookup(live, h, n).value, Lookup(jar, NormalizeHost(h), n).value, advance))
  {
    hide NormalizeHost, Lookup, ComesBack, Reseeded, Live;
    var jar, live, advance := Reseeded(map[], rows, clock, |rows|), Live(saved, Some(loadTime)), end - loadTime;
    forall k, n | Lookup(jar, k, n).Some?
      ensures exists h :: NormalizeHost(h) == k && Lookup(live, h, n).Some? && ComesBack(Lookup(live, h, n).value, Lookup(jar, k, n).value, advance)
    {
      var h := EntryComesBack(saved, loadTime, rows, clock, end, k, n);
    }
    forall h, n | Lookup(live, h, n).Some?
      ensures Lookup(jar, NormalizeHost(h), n).Some?
      ensures HostsApart(live) ==> ComesBack(Lookup(live, h, n).value, Lookup(jar, NormalizeHost(h), n).value, advance)
    {
      EveryCookieHasAnEntry(live, rows, clock, h, n);
      var g := EntryComesBack(saved, loadTime, rows, clock, end, NormalizeHost(h), n);
      assert HostsApart(live) ==> g == h;
    }
  }

  lemma EveryCookieHasAnEntry(live: Cookies, rows: seq<Row>, clock: nat -> nat, h: string, n: string)
    requires IsListing(rows, live) && Lookup(live, h, n).Some?
    ensures Lookup(Reseeded(map[], rows, clock, |rows|), NormalizeHost(h), n).Some?
  {
    hide NormalizeHost, Reseeded;
    ReseededHoldsRows(rows, clock, |rows|);
    var r := Row(h, n, live[h][n]);
    assert r in rows;
    var i :| 0 <= i < |rows| && rows[i] == r;
  }

  lemma LiveEntriesExpireLater(saved: Cookies, now: nat, h: string, n: string)
    requires Lookup(Live(saved, Some(now)), h, n).Some?
    ensures var e := Lookup(Live(saved, Some(now)), h, n).value.expiresAt; e.Some? ==> now < e.value
  {
  }

  lemma ReseedAdvances(r: Row, clock: nat -> nat, i: nat, loadTime: nat, end: nat)
    requires loadTime <= clock(2 * i) <= clock(2 * i + 1) <= end <= U64_MAX
    requires r.entry.expiresAt.Some? ==> loadTime < r.entry.expiresAt.value
    ensures ReseededEntry(r, clock, i).value == r.entry.value
    ensures SameOrAdvanced(r.entry.expiresAt, ReseededEntry(r, clock, i).expiresAt, end - loadTime)
  {
    if r.entry.expiresAt.Some? {
      ReseedRestoresExpiry(r.entry.expiresAt.value, clock(2 * i), clock(2 * i + 1));
    }
  }
}
