/** The scrape rate limiter: the call in place, and its interleavings.  A caller
  * reads the last grant under the lock, drops the lock while it sleeps, and
  * takes it again to write its own grant.  A call's grant is the instant it
  * writes to `last_call`. */
module RateLimiter {
  import opened Wrappers

  // ----- one call -----

  /** How long a caller that reads the clock at `now` must still sleep, if at all. */
  function SleepFor(last: Option<nat>, now: nat, required: nat): Option<nat> {
    if last.Some? && last.value <= now && now - last.value < required then Some(required - (now - last.value)) else None
  }

  /** A caller sleeps exactly when the time asked for has not passed, and exactly
    * until it has. */
  lemma SleepIsExact(last: Option<nat>, now: nat, required: nat)
    requires last.Some? ==> last.value <= now
    ensures SleepFor(last, now, required).Some? <==> last.Some? && now < last.value + required
    ensures SleepFor(last, now, required).Some? ==> now + SleepFor(last, now, required).value == last.value + required
  {
  }

  class Limiter {
    const minInterval: nat
    const maxJitter: nat
    var lastCall: Option<nat>

    constructor (minInterval: nat, maxJitter: nat)
      ensures this.minInterval == minInterval && this.maxJitter == maxJitter && lastCall == None
    {
      this.minInterval, this.maxJitter, lastCall := minInterval, maxJitter, None;
    }

    /** The jitter drawn from the random source, below the maximum. */
    function Jitter(seed: nat): (jitter: nat)
      ensures jitter < maxJitter || jitter == maxJitter == 0
    {
      if maxJitter == 0 then 0 else seed % maxJitter
    }

    /** `wait`, undisturbed.  `seed` is the random source, `now` the clock when
      * the lock is taken, `wake` the clock when a sleeper has the lock again,
      * after at least the sleep it asked for. */
    method Wait(seed: nat, now: nat, wake: nat)
      requires lastCall.Some? ==> lastCall.value <= now
      requires lastCall.Some? && now < lastCall.value + minInterval + Jitter(seed) ==> lastCall.value + minInterval + Jitter(seed) <= wake
      modifies this`lastCall
      ensures if minInterval == 0 && maxJitter == 0 then lastCall == old(lastCall)
        else
          && (if old(lastCall).Some? && now < old(lastCall).value + minInterval + Jitter(seed) then lastCall == Some(wake)
              else lastCall == Some(now))
          && (old(lastCall).Some? ==> old(lastCall).value + minInterval + Jitter(seed) <= lastCall.value)
          && lastCall == Undisturbed(old(lastCall), minInterval, Jitter(seed), now, wake)
    {
      if minInterval == 0 && maxJitter == 0 {
        return;
      }
      var jitter := if maxJitter == 0 then 0 else seed % maxJitter;
      var sleep := SleepFor(lastCall, now, minInterval + jitter);
      if sleep.Some? {
        lastCall := Some(wake);
      } else {
        lastCall := Some(now);
      }
    }
  }

  // ----- interleaved calls -----

  /** A caller asleep since it read `read`, or granted at `at`. */
  datatype Caller = Sleeping(read: nat, wakeAt: nat) | Granted(read': Option<nat>, at: nat)

  datatype Sys = Sys(last: Option<nat>, clock: nat, callers: seq<Caller>)

  /** Time passes; a new caller takes the lock and is granted or goes to sleep; a
    * sleeper whose time has come takes the lock and is granted. */
  datatype Action = Tick(delta: nat) | Enter(jitter: nat) | Wake(id: nat)

  function Apply(s: Sys, a: Action, minInterval: nat): Sys {
    match a
    case Tick(delta) => s.(clock := s.clock + delta)
    case Enter(jitter) =>
      (match SleepFor(s.last, s.clock, minInterval + jitter)
       case Some(sleep) => s.(callers := s.callers + [Sleeping(s.last.value, s.clock + sleep)])
       case None => s.(last := Some(s.clock), callers := s.callers + [Granted(s.last, s.clock)]))
    case Wake(id) =>
      if id < |s.callers| && s.callers[id].Sleeping? && s.callers[id].wakeAt <= s.clock
      then s.(last := Some(s.clock), callers := s.callers[id := Granted(Some(s.callers[id].read), s.clock)])
      else s
  }

  /** The grant recorded after one caller alone enters at `now` and, if it has to
    * sleep, wakes at `wake`. */
  function Undisturbed(last: Option<nat>, minInterval: nat, jitter: nat, now: nat, wake: nat): Option<nat> {
    var entered := Apply(Sys(last, now, []), Enter(jitter), minInterval);
    if entered.callers[0].Granted? then entered.last
    else Apply(entered.(clock := wake), Wake(0), minInterval).last
  }

  const INITIAL: Sys := Sys(None, 0, [])

  function Exec(actions: seq<Action>, minInterval: nat): Sys {
    if actions == [] then INITIAL
    else Apply(Exec(actions[..|actions| - 1], minInterval), actions[|actions| - 1], minInterval)
  }

  predicate CallerOk(c: Caller, clock: nat, minInterval: nat) {
    match c
    case Sleeping(read, wakeAt) => read + minInterval <= wakeAt
    case Granted(read, at) => at <= clock && (read.Some? ==> read.value + minInterval <= at)
  }

  ghost predicate Inv(s: Sys, minInterval: nat) {
    && (s.last.Some? ==> s.last.value <= s.clock)
    && (forall i | 0 <= i < |s.callers| :: CallerOk(s.callers[i], s.clock, minInterval))
  }

  lemma {:induction false} InvHolds(actions: seq<Action>, minInterval: nat)
    ensures Inv(Exec(actions, minInterval), minInterval)
  {
    if actions != [] {
      InvHolds(actions[..|actions| - 1], minInterval);
    }
  }

  /** Under any interleaving every grant is at least the interval after the
    * grant that its caller read, if it read one. */
  lemma GrantsFollowTheirRead(actions: seq<Action>, minInterval: nat, id: nat)
    requires var s := Exec(actions, minInterval); id < |s.callers| && s.callers[id].Granted?
    ensures var c := Exec(actions, minInterval).callers[id]; c.read'.Some? ==> c.read'.value + minInterval <= c.at
  {
    InvHolds(actions, minInterval);
    assert CallerOk(Exec(actions, minInterval).callers[id], Exec(actions, minInterval).clock, minInterval);
  }

  /** Under any interleaving the recorded grant never moves back. */
  lemma LastCallNeverDecreases(actions: seq<Action>, a: Action, minInterval: nat)
    ensures var s, s' := Exec(actions, minInterval), Exec(actions + [a], minInterval);
      s.last.Some? ==> s'.last.Some? && s.last.value <= s'.last.value
  {
    InvHolds(actions, minInterval);
    assert (actions + [a])[..|actions|] == actions;
  }

  // ----- spacing -----

  function Count(callers: seq<Caller>, p: Caller -> bool): nat {
    if callers == [] then 0
    else Count(callers[..|callers| - 1], p) + if p(callers[|callers| - 1]) then 1 else 0
  }

  predicate IsAsleep(c: Caller) {
    c.Sleeping?
  }

  function Asleep(callers: seq<Caller>): nat {
    Count(callers, IsAsleep)
  }

  /** No caller enters while c others are between their read and their grant. */
  ghost predicate InsideAtMost(actions: seq<Action>, minInterval: nat, c: nat) {
    forall k | 0 <= k < |actions| && actions[k].Enter? :: Asleep(Exec(actions[..k], minInterval).callers) < c
  }

  /** Any two grants, numbered in order of arrival, are an interval apart per step. */
  predicate GrantsSpaced(callers: seq<Caller>, minInterval: nat) {
    forall i, j | 0 <= i < j < |callers| && callers[i].Granted? && callers[j].Granted? ::
      callers[j].at >= callers[i].at + (j - i) * minInterval
  }

  /** Every run with at most c callers inside at a time spaces its grants. */
  ghost predicate SpacesGrants(minInterval: nat, c: nat) {
    forall actions | InsideAtMost(actions, minInterval, c) :: GrantsSpaced(Exec(actions, minInterval).callers, minInterval)
  }

  /** Serial runs: everyone but the newest caller is granted, in order, an
    * interval apart, and the newest read the grant before its own. */
  ghost predicate SerialInv(s: Sys, minInterval: nat) {
    var n := |s.callers|;
    && (forall i | 0 <= i < n - 1 :: s.callers[i].Granted?)
    && (forall i | 0 <= i < n - 2 :: s.callers[i + 1].at >= s.callers[i].at + minInterval)
    && (n == 0 ==> s.last == None)
    && (n > 0 && s.callers[n - 1].Granted? ==>
          s.last == Some(s.callers[n - 1].at) && (n > 1 ==> s.callers[n - 1].at >= s.callers[n - 2].at + minInterval))
    && (n > 0 && s.callers[n - 1].Sleeping? ==>
          n > 1 && s.last == Some(s.callers[n - 2].at) && s.callers[n - 1].wakeAt >= s.callers[n - 2].at + minInterval)
    && (s.last.Some? ==> s.last.value <= s.clock)
  }

  lemma NobodyAsleep(callers: seq<Caller>)
    requires Asleep(callers) == 0 && callers != []
    ensures callers[|callers| - 1].Granted?
  {
  }

  lemma {:induction false} SerialInvHolds(actions: seq<Action>, minInterval: nat)
    requires InsideAtMost(actions, minInterval, 1)
    ensures SerialInv(Exec(actions, minInterval), minInterval)
  {
    if actions != [] {
      var before, a := actions[..|actions| - 1], actions[|actions| - 1];
      assert forall k | 0 <= k < |before| :: before[..k] == actions[..k] && before[k] == actions[k];
      SerialInvHolds(before, minInterval);
      var s := Exec(before, minInterval);
      if a.Enter? && s.callers != [] {
        assert before == actions[..|before|];
        NobodyAsleep(s.callers);
      }
      SerialStep(s, a, minInterval);
    }
  }

  lemma SerialStep(s: Sys, a: Action, minInterval: nat)
    requires SerialInv(s, minInterval)
    requires a.Enter? && s.callers != [] ==> s.callers[|s.callers| - 1].Granted?
    ensures SerialInv(Apply(s, a, minInterval), minInterval)
  {
    match a {
      case Tick(_) =>
      case Enter(jitter) => SerialEnter(s, jitter, minInterval);
      case Wake(id) => SerialWake(s, id, minInterval);
    }
  }

  lemma SerialEnter(s: Sys, jitter: nat, minInterval: nat)
    requires SerialInv(s, minInterval)
    requires s.callers != [] ==> s.callers[|s.callers| - 1].Granted?
    ensures SerialInv(Apply(s, Enter(jitter), minInterval), minInterval)
  {
    var s', n := Apply(s, Enter(jitter), minInterval), |s.callers|;
    assert s'.callers[..n] == s.callers && |s'.callers| == n + 1;
    assert forall i | 0 <= i < n :: s'.callers[i] == s.callers[i];
  }

  lemma SerialWake(s: Sys, id: nat, minInterval: nat)
    requires SerialInv(s, minInterval)
    ensures SerialInv(Apply(s, Wake(id), minInterval), minInterval)
  {
    var s', n := Apply(s, Wake(id), minInterval), |s.callers|;
    if s' != s {
      assert id == n - 1 && forall i | 0 <= i < n - 1 :: s'.callers[i] == s.callers[i];
    }
  }

  lemma {:induction false} SerialGrantsSpread(s: Sys, minInterval: nat, i: nat, j: nat)
    requires SerialInv(s, minInterval) && i <= j < |s.callers| && s.callers[i].Granted? && s.callers[j].Granted?
    ensures s.callers[j].at >= s.callers[i].at + (j - i) * minInterval
  {
    if i < j {
      SerialGrantsSpread(s, minInterval, i, j - 1);
      assert s.callers[j - 1 + 1].at >= s.callers[j - 1].at + minInterval;
      assert (j - i) * minInterval == (j - 1 - i) * minInterval + minInterval;
    }
  }

  /** One grant and two sleepers that read it: both wake at the same instant. */
  function Collision(minInterval: nat): seq<Action> {
    [Enter(0), Enter(0), Enter(0), Tick(minInterval), Wake(1), Wake(2)]
  }

  lemma ExecUnfolds(actions: seq<Action>, minInterval: nat, k: nat)
    requires k < |actions|
    ensures Exec(actions[..k + 1], minInterval) == Apply(Exec(actions[..k], minInterval), actions[k], minInterval)
    ensures Exec(actions[..0], minInterval) == INITIAL
  {
    assert actions[..k + 1][..k] == actions[..k];
  }

  lemma CollisionRun(minInterval: nat)
    requires minInterval > 0
    ensures var r, m := Collision(minInterval), minInterval;
      var granted, asleep, woken := Granted(None, 0), Sleeping(0, m), Granted(Some(0), m);
      && Exec(r[..0], m).callers == []
      && Exec(r[..1], m).callers == [granted]
      && Exec(r[..2], m).callers == [granted, asleep]
      && Exec(r[..6], m).callers == [granted, woken, woken]
  {
    hide Exec;
    var r, m := Collision(minInterval), minInterval;
    var granted, asleep, woken := Granted(None, 0), Sleeping(0, m), Granted(Some(0), m);
    ExecUnfolds(r, m, 0);
    assert Exec(r[..1], m) == Sys(Some(0), 0, [granted]);
    ExecUnfolds(r, m, 1);
    assert Exec(r[..2], m) == Sys(Some(0), 0, [granted, asleep]);
    ExecUnfolds(r, m, 2);
    assert Exec(r[..3], m) == Sys(Some(0), 0, [granted, asleep, asleep]);
    ExecUnfolds(r, m, 3);
    assert Exec(r[..4], m) == Sys(Some(0), m, [granted, asleep, asleep]);
    ExecUnfolds(r, m, 4);
    assert Exec(r[..5], m) == Sys(Some(m), m, [granted, woken, asleep]);
    ExecUnfolds(r, m, 5);
    assert Exec(r[..6], m) == Sys(Some(m), m, [granted, woken, woken]);
  }

  lemma OverlappingCallersCollide(minInterval: nat)
    requires minInterval > 0
    ensures InsideAtMost(Collision(minInterval), minInterval, 2)
    ensures !GrantsSpaced(Exec(Collision(minInterval), minInterval).callers, minInterval)
  {
    hide Exec, Apply;
    var r, m := Collision(minInterval), minInterval;
    CollisionRun(m);
    AsleepOfTwo(Granted(None, 0), Sleeping(0, m));
    forall k | 0 <= k < |r| && r[k].Enter? ensures Asleep(Exec(r[..k], m).callers) < 2 {
      assert k == 0 || k == 1 || k == 2;
    }
    assert r[..6] == r;
    var callers := Exec(r, m).callers;
    assert callers[1] == callers[2] == Granted(Some(0), m) && (2 - 1) * m == m;
  }

  lemma AsleepOfTwo(a: Caller, b: Caller)
    ensures Asleep([]) == 0 && Asleep([a]) <= 1 && Asleep([a, b]) <= 1 + (if a.Sleeping? then 1 else 0)
  {
    assert [a][..0] == [] && [a, b][..1] == [a];
  }

  /** The documented spacing holds for every run exactly when no caller enters
    * while another sleeps. */
  lemma SpacingIffSerial(minInterval: nat, c: nat)
    requires minInterval > 0
    ensures SpacesGrants(minInterval, c) <==> c <= 1
  {
    if c <= 1 {
      forall actions | InsideAtMost(actions, minInterval, c) ensures GrantsSpaced(Exec(actions, minInterval).callers, minInterval) {
        SerialInvHolds(actions, minInterval);
        var s := Exec(actions, minInterval);
        forall i, j | 0 <= i < j < |s.callers| && s.callers[i].Granted? && s.callers[j].Granted?
          ensures s.callers[j].at >= s.callers[i].at + (j - i) * minInterval
        {
          SerialGrantsSpread(s, minInterval, i, j);
        }
      }
    } else {
      OverlappingCallersCollide(minInterval);
      assert InsideAtMost(Collision(minInterval), minInterval, c);
    }
  }

  // ----- what is left when callers overlap -----

  /** Grants within `span` from t on. */
  function GrantedIn(t: nat, span: nat): Caller -> bool {
    (c: Caller) => c.Granted? && t <= c.at < t + span
  }

  /** Asleep since a grant before t. */
  function AsleepSince(t: nat): Caller -> bool {
    (c: Caller) => c.Sleeping? && c.read < t
  }

  lemma CountAppends(callers: seq<Caller>, c: Caller, p: Caller -> bool)
    ensures Count(callers + [c], p) == Count(callers, p) + if p(c) then 1 else 0
  {
    assert (callers + [c])[..|callers|] == callers;
  }

  lemma {:induction false} CountAfterUpdate(callers: seq<Caller>, id: nat, c: Caller, p: Caller -> bool)
    requires id < |callers|
    ensures Count(callers[id := c], p) + (if p(callers[id]) then 1 else 0) == Count(callers, p) + (if p(c) then 1 else 0)
  {
    var last, after := |callers| - 1, callers[id := c];
    if id == last {
      assert after[..last] == callers[..last];
    } else {
      CountAfterUpdate(callers[..last], id, c, p);
      assert after[..last] == callers[..last][id := c];
    }
  }

  lemma {:induction false} StaleAreAsleep(callers: seq<Caller>, t: nat)
    ensures Count(callers, AsleepSince(t)) <= Asleep(callers)
  {
    if callers != [] {
      StaleAreAsleep(callers[..|callers| - 1], t);
    }
  }

  /** Once the window has its first grant, only callers asleep since before it can
    * have another grant in it. */
  ghost predicate WindowInv(s: Sys, minInterval: nat, c: nat, t: nat) {
    && Asleep(s.callers) <= c
    && var granted, stale := Count(s.callers, GrantedIn(t, minInterval)), Count(s.callers, AsleepSince(t));
       if s.last.Some? && s.last.value >= t then granted + stale <= c else granted == 0
  }

  lemma WindowStep(s: Sys, a: Action, minInterval: nat, c: nat, t: nat)
    requires Inv(s, minInterval) && WindowInv(s, minInterval, c, t) && (a.Enter? ==> Asleep(s.callers) < c)
    ensures WindowInv(Apply(s, a, minInterval), minInterval, c, t)
  {
    hide Count;
    StaleAreAsleep(s.callers, t);
    var s' := Apply(s, a, minInterval);
    if a.Enter? {
      var last := s'.callers[|s.callers|];
      assert s'.callers == s.callers + [last];
      CountAppends(s.callers, last, IsAsleep);
      CountAppends(s.callers, last, GrantedIn(t, minInterval));
      CountAppends(s.callers, last, AsleepSince(t));
    } else if s' != s && a.Wake? {
      CountAfterUpdate(s.callers, a.id, s'.callers[a.id], IsAsleep);
      CountAfterUpdate(s.callers, a.id, s'.callers[a.id], GrantedIn(t, minInterval));
      CountAfterUpdate(s.callers, a.id, s'.callers[a.id], AsleepSince(t));
    }
  }

  lemma {:induction false} WindowHolds(actions: seq<Action>, minInterval: nat, c: nat, t: nat)
    requires InsideAtMost(actions, minInterval, c)
    ensures WindowInv(Exec(actions, minInterval), minInterval, c, t)
  {
    if actions != [] {
      hide WindowInv, Asleep, Apply;
      var before, a := actions[..|actions| - 1], actions[|actions| - 1];
      assert forall k | 0 <= k < |before| :: before[..k] == actions[..k] && before[k] == actions[k];
      WindowHolds(before, minInterval, c, t);
      InvHolds(before, minInterval);
      assert before == actions[..|before|] && actions[|before|] == a;
      WindowStep(Exec(before, minInterval), a, minInterval, c, t);
    }
  }

  lemma OneMore(actions: seq<Action>, a: Action, minInterval: nat, c: nat)
    requires InsideAtMost(actions, minInterval, c)
    requires a.Enter? ==> Asleep(Exec(actions, minInterval).callers) < c
    ensures InsideAtMost(actions + [a], minInterval, c)
    ensures Exec(actions + [a], minInterval) == Apply(Exec(actions, minInterval), a, minInterval)
  {
    hide Asleep, Apply;
    var more := actions + [a];
    assert more[..|actions|] == actions;
    assert forall k | 0 <= k <= |actions| :: more[..k] == actions[..k];
  }

  /** One grant at time 0, then callers that read it: the first j of them granted
    * again after the interval, the others asleep. */
  function PileAt(minInterval: nat, j: nat, i: nat): Caller {
    if i == 0 then Granted(None, 0) else if i <= j then Granted(Some(0), minInterval) else Sleeping(0, minInterval)
  }

  function Pile(minInterval: nat, j: nat, c: nat): (callers: seq<Caller>)
    ensures |callers| == c + 1 && forall i | 0 <= i <= c :: callers[i] == PileAt(minInterval, j, i)
  {
    seq(c + 1, i requires 0 <= i <= c => PileAt(minInterval, j, i))
  }

  lemma {:induction false} PileCounts(minInterval: nat, j: nat, c: nat)
    requires j <= c && minInterval > 0
    ensures var pile := Pile(minInterval, j, c);
      Asleep(pile) == c - j && Count(pile, GrantedIn(minInterval, minInterval)) == j
  {
    PileCountsBelow(minInterval, j, c);
  }

  lemma {:induction false} PileCountsBelow(minInterval: nat, j: nat, c: nat)
    requires minInterval > 0
    ensures var pile, woken := Pile(minInterval, j, c), if j <= c then j else c;
      Asleep(pile) == c - woken && Count(pile, GrantedIn(minInterval, minInterval)) == woken
  {
    hide Count, Pile;
    var window, last := GrantedIn(minInterval, minInterval), PileAt(minInterval, j, c);
    if c == 0 {
      assert Pile(minInterval, j, c) == [last];
      CountOne(last, IsAsleep);
      CountOne(last, window);
    } else {
      var before := Pile(minInterval, j, c - 1);
      assert Pile(minInterval, j, c) == before + [last];
      PileCountsBelow(minInterval, j, c - 1);
      CountAppends(before, last, IsAsleep);
      CountAppends(before, last, window);
    }
  }

  lemma CountOne(c: Caller, p: Caller -> bool)
    ensures Count([c], p) == if p(c) then 1 else 0
  {
    assert [c][..0] == [];
  }

  lemma NothingYet(minInterval: nat, c: nat)
    ensures InsideAtMost([], minInterval, c) && Exec([], minInterval) == INITIAL && Asleep([]) == 0
  {
  }

  lemma {:induction false} PileUp(minInterval: nat, c: nat, limit: nat) returns (actions: seq<Action>)
    requires minInterval > 0 && c <= limit && limit > 0
    ensures InsideAtMost(actions, minInterval, limit)
    ensures Exec(actions, minInterval) == Sys(Some(0), 0, Pile(minInterval, 0, c))
  {
    hide InsideAtMost, Exec, Asleep, Pile;
    if c == 0 {
      NothingYet(minInterval, limit);
      actions := [];
      assert [] + [PileAt(minInterval, 0, 0)] == Pile(minInterval, 0, 0);
    } else {
      actions := PileUp(minInterval, c - 1, limit);
      PileCounts(minInterval, 0, c - 1);
      assert Pile(minInterval, 0, c - 1) + [PileAt(minInterval, 0, c)] == Pile(minInterval, 0, c);
    }
    OneMore(actions, Enter(0), minInterval, limit);
    actions := actions + [Enter(0)];
  }

  lemma {:induction false} WakeUp(minInterval: nat, j: nat, c: nat) returns (actions: seq<Action>)
    requires minInterval > 0 && j <= c && c > 0
    ensures InsideAtMost(actions, minInterval, c)
    ensures var s := Exec(actions, minInterval); s.clock == minInterval && s.callers == Pile(minInterval, j, c)
  {
    hide InsideAtMost, Exec, Asleep, Pile, Count;
    if j == 0 {
      actions := PileUp(minInterval, c, c);
      OneMore(actions, Tick(minInterval), minInterval, c);
      actions := actions + [Tick(minInterval)];
    } else {
      actions := WakeUp(minInterval, j - 1, c);
      PileCounts(minInterval, j - 1, c);
      PileCounts(minInterval, j, c);
      OneMore(actions, Wake(j), minInterval, c);
      assert Pile(minInterval, j - 1, c)[j := Granted(Some(0), minInterval)] == Pile(minInterval, j, c);
      actions := actions + [Wake(j)];
    }
  }

  /** In every run with at most c callers inside at a time, any window as long as the
    * interval holds at most k grants. */
  ghost predicate WindowHoldsAtMost(minInterval: nat, c: nat, k: nat) {
    forall actions, t: nat | InsideAtMost(actions, minInterval, c) ::
      Count(Exec(actions, minInterval).callers, GrantedIn(t, minInterval)) <= k
  }

  /** What is left of the spacing with c callers inside: a window holds at most c
    * grants, and no smaller bound holds. */
  lemma WindowBoundIsExact(minInterval: nat, c: nat, k: nat)
    requires minInterval > 0
    ensures WindowHoldsAtMost(minInterval, c, k) <==> k >= c
  {
    hide InsideAtMost, Exec, Count;
    if k >= c {
      forall actions, t: nat | InsideAtMost(actions, minInterval, c)
        ensures Count(Exec(actions, minInterval).callers, GrantedIn(t, minInterval)) <= k
      {
        WindowHolds(actions, minInterval, c, t);
      }
    } else {
      var actions := WakeUp(minInterval, c, c);
      PileCounts(minInterval, c, c);
      assert Count(Exec(actions, minInterval).callers, GrantedIn(minInterval, minInterval)) == c;
    }
  }
}
