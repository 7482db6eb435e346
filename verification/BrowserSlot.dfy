/** Launching the browser: two attempts two seconds apart, then a cooldown of
  * thirty seconds.  Calls hold the slot's lock, so they are serial; but a request
  * that is dropped while it waits for a launch or for the backoff takes its call
  * with it.  Times are in milliseconds; the clock, the outcomes of the attempts and
  * the drops are parameters. */
module BrowserSlot {
  import opened Wrappers

  const RETRY_COOLDOWN: nat := 30_000
  const BACKOFF: nat := 2_000
  const MAX_ATTEMPTS: nat := 2

  /** One launch attempt: when it starts, whether it succeeds, when it is over. */
  datatype Attempt = Attempt(start: nat, succeeds: bool, end: nat)

  /** What one call meets: its start, the configuration, the attempts it could make,
    * and the attempt, if any, after whose start the request is dropped before the
    * outcome is recorded. */
  datatype Call = Call(now: nat, configOk: bool, attempts: seq<Attempt>, dropped: Option<nat>)
  {
    /** A clock that moves forward, and a backoff that lasts as long as asked. */
    predicate Possible() {
      && |attempts| == 2
      && now <= attempts[0].start <= attempts[0].end
      && attempts[0].end + 2_000 <= attempts[1].start <= attempts[1].end
      && (dropped.Some? ==> 1 <= dropped.value <= 2 && (dropped.value == 2 ==> !attempts[0].succeeds))
    }

    /** How many launches a call makes that gets to launch at all. */
    function Launches(): (n: nat)
      requires Possible()
      ensures 1 <= n <= 2
    {
      if dropped.Some? then dropped.value else if attempts[0].succeeds then 1 else 2
    }

    /** When they start. */
    function Burst(): seq<nat>
      requires Possible()
    {
      seq(Launches(), i requires 0 <= i < Launches() => attempts[i].start)
    }
  }

  /** The slot, and the launches so far: those of calls that ran to their end, and
    * those of dropped calls. */
  datatype State = State(live: bool, lastInitFailure: Option<nat>, recorded: seq<nat>, lost: seq<nat>, time: nat)

  const INITIAL: State := State(false, None, [], [], 0)

  /** Nothing may be launched: the last failure is less than a cooldown ago. */
  predicate CoolingDown(s: State, now: nat) {
    s.lastInitFailure.Some? && now < s.lastInitFailure.value + RETRY_COOLDOWN
  }

  /** `get_or_init`, as a function of the slot. */
  function Step(s: State, call: Call): State
    requires call.Possible()
  {
    if s.live || CoolingDown(s, call.now) then s.(time := call.now)
    else if !call.configOk then s.(lastInitFailure := None, time := call.now)
    else
      var last := call.attempts[call.Launches() - 1];
      if call.dropped.Some? then s.(lastInitFailure := None, lost := s.lost + call.Burst(), time := last.start)
      else if last.succeeds then s.(live := true, lastInitFailure := None, recorded := s.recorded + call.Burst(), time := last.end)
      else s.(lastInitFailure := Some(last.end), recorded := s.recorded + call.Burst(), time := last.end)
  }

  class Slot {
    var live: bool
    var lastInitFailure: Option<nat>
    ghost var recorded: seq<nat>
    ghost var lost: seq<nat>
    ghost var time: nat

    ghost function View(): State
      reads this
    {
      State(live, lastInitFailure, recorded, lost, time)
    }

    constructor ()
      ensures View() == INITIAL
    {
      live, lastInitFailure, recorded, lost, time := false, None, [], [], 0;
    }

    /** `get_or_init`; None when the request is dropped. */
    method GetOrInit(call: Call) returns (r: Option<Result<(), string>>)
      requires call.Possible()
      modifies this
      ensures View() == Step(old(View()), call)
      ensures r.None? ==> call.dropped.Some?
      ensures r.Some? ==> (r.value.Ok? <==> live)
    {
      time := call.now;
      if live {
        return Some(Ok(()));
      }
      if lastInitFailure.Some? {
        if call.now < lastInitFailure.value + RETRY_COOLDOWN {
          return Some(Err("browser initialisation previously failed (retry cooldown)"));
        }
        lastInitFailure := None;
      }
      if !call.configOk {
        return Some(Err("browser config"));
      }
      ghost var before := View();
      var attempt := 1;
      while attempt <= MAX_ATTEMPTS
        invariant 1 <= attempt <= MAX_ATTEMPTS + 1 && View() == before
        invariant attempt > 1 ==> !call.attempts[0].succeeds && call.dropped != Some(1)
        invariant attempt > 2 ==> !call.attempts[1].succeeds && call.dropped != Some(2)
      {
        var a := call.attempts[attempt - 1];
        if call.dropped == Some(attempt) {
          lost, time := lost + call.Burst(), a.start;
          return None;
        }
        if a.succeeds {
          recorded, time := recorded + call.Burst(), a.end;
          live := true;
          return Some(Ok(()));
        }
        attempt := attempt + 1;
      }
      recorded, time := recorded + call.Burst(), call.attempts[MAX_ATTEMPTS - 1].end;
      lastInitFailure := Some(call.attempts[MAX_ATTEMPTS - 1].end);
      return Some(Err("browser config"));
    }
  }

  /** A call launches at most twice, and not at all once a browser lives, within the
    * cooldown or with a bad configuration; a live browser stays. */
  lemma StepLaunches(s: State, call: Call)
    requires call.Possible()
    ensures var s' := Step(s, call);
      && s.recorded <= s'.recorded && s.lost <= s'.lost
      && |s'.recorded| + |s'.lost| <= |s.recorded| + |s.lost| + 2
      && (s.live ==> s'.live)
      && (s.live || CoolingDown(s, call.now) || !call.configOk ==> s'.recorded == s.recorded && s'.lost == s.lost)
      && (call.dropped.None? ==> s'.lost == s.lost)
  {
  }

  /** Exactly when a call launches: no browser lives, the last failure, if any, is thirty
    * seconds ago, and the configuration is good.  It launches again exactly if the first
    * launch failed and the request is still there; the browser lives exactly if the last
    * launch succeeded; and two failures start the cooldown when the second is over. */
  lemma StepOutcome(s: State, call: Call)
    requires call.Possible()
    ensures var s', first, second := Step(s, call), call.attempts[0], call.attempts[1];
      var launched, gone := s'.recorded != s.recorded || s'.lost != s.lost, call.dropped.Some?;
      && (launched <==> !s.live && call.configOk && (s.lastInitFailure.Some? ==> call.now >= s.lastInitFailure.value + 30_000))
      && (launched ==>
            var burst := if gone then s'.lost[|s.lost|..] else s'.recorded[|s.recorded|..];
            && burst == (if first.succeeds || call.dropped == Some(1) then [first.start] else [first.start, second.start])
            && (s'.live <==> !gone && (first.succeeds || second.succeeds))
            && s'.lastInitFailure == if gone || s'.live then None else Some(second.end))
  {
    var launches := call.Burst();
    assert launches == (if |launches| == 1 then [call.attempts[0].start] else [call.attempts[0].start, call.attempts[1].start]);
    assert (s.recorded + launches)[|s.recorded|..] == launches && (s.lost + launches)[|s.lost|..] == launches;
  }

  // ----- runs -----

  /** The slot after some calls. */
  function Exec(calls: seq<Call>): State
    requires forall c | c in calls :: c.Possible()
  {
    if calls == [] then INITIAL else Step(Exec(calls[..|calls| - 1]), calls[|calls| - 1])
  }

  /** Each call starts after the one before is over. */
  ghost predicate IsRun(calls: seq<Call>) {
    && (forall c | c in calls :: c.Possible())
    && (forall i | 0 <= i < |calls| :: calls[i].now >= Exec(calls[..i]).time)
  }

  function Drops(calls: seq<Call>): nat {
    if calls == [] then 0 else Drops(calls[..|calls| - 1]) + if calls[|calls| - 1].dropped.Some? then 1 else 0
  }

  // ----- spacing of the recorded launches -----

  /** The gaps between launches: the backoff inside a call, the cooldown between calls. */
  predicate Spaced(launches: seq<nat>) {
    forall i | 0 <= i < |launches| - 1 ::
      launches[i + 1] >= launches[i] + (if i % 2 == 0 then 2_000 else 30_000)
  }

  ghost predicate Inv(s: State) {
    && Spaced(s.recorded)
    && (!s.live ==> |s.recorded| % 2 == 0)
    && (!s.live && s.recorded != [] ==>
          match s.lastInitFailure
          case Some(f) => s.recorded[|s.recorded| - 1] <= f
          case None => s.recorded[|s.recorded| - 1] + RETRY_COOLDOWN <= s.time)
  }

  /** A call's launches after an even number of them and a cooldown. */
  lemma SpacedBurst(launches: seq<nat>, burst: seq<nat>)
    requires Spaced(launches) && |launches| % 2 == 0 && 1 <= |burst| <= 2
    requires launches == [] || burst[0] >= launches[|launches| - 1] + RETRY_COOLDOWN
    requires |burst| == 2 ==> burst[1] >= burst[0] + BACKOFF
    ensures Spaced(launches + burst) && (launches + burst)[|launches + burst| - 1] == burst[|burst| - 1]
  {
  }

  lemma StepKeepsInv(s: State, call: Call)
    requires Inv(s) && call.Possible() && call.now >= s.time
    ensures Inv(Step(s, call))
  {
    hide Spaced;
    if !s.live && !CoolingDown(s, call.now) && call.configOk && call.dropped.None? {
      SpacedBurst(s.recorded, call.Burst());
    }
  }

  lemma {:induction false} RunKeepsInv(calls: seq<Call>)
    requires IsRun(calls)
    ensures Inv(Exec(calls)) && |Exec(calls).lost| <= MAX_ATTEMPTS * Drops(calls)
  {
    if calls != [] {
      hide Inv, Step;
      var before, call := calls[..|calls| - 1], calls[|calls| - 1];
      assert forall i | 0 <= i <= |before| :: before[..i] == calls[..i];
      assert call in calls && forall i | 0 <= i < |before| :: before[i] == calls[i];
      RunKeepsInv(before);
      assert before == calls[..|before|] && call.now >= Exec(before).time;
      StepKeepsInv(Exec(before), call);
      StepLaunches(Exec(before), call);
      LostGrowth(Exec(before), call);
    } else {
      NothingLaunched();
    }
  }

  lemma NothingLaunched()
    ensures Inv(INITIAL) && INITIAL.lost == []
  {
  }

  lemma LostGrowth(s: State, call: Call)
    requires call.Possible()
    ensures |Step(s, call).lost| <= |s.lost| + if call.dropped.Some? then MAX_ATTEMPTS else 0
  {
  }

  // ----- launches in a window -----

  /** Launches two apart are at least a backoff and a cooldown apart. */
  lemma {:induction false} LaunchesSpread(launches: seq<nat>, a: nat, k: nat)
    requires Spaced(launches) && a + 2 * k < |launches|
    ensures launches[a + 2 * k] >= launches[a] + k * 32_000
  {
    if k > 0 {
      LaunchesSpread(launches, a, k - 1);
      var i := a + 2 * (k - 1);
      assert launches[i + 1] >= launches[i] + (if i % 2 == 0 then BACKOFF else RETRY_COOLDOWN);
      assert launches[i + 2] >= launches[i + 1] + (if (i + 1) % 2 == 0 then BACKOFF else RETRY_COOLDOWN);
    }
  }

  /** The documented allowance: two launches per backoff and cooldown begun. */
  function Allowance(span: nat): nat {
    2 * (span / 32_000 + 1)
  }

  lemma LaunchesInWindow(launches: seq<nat>, a: nat, b: nat, span: nat)
    requires Spaced(launches) && a <= b < |launches| && launches[b] <= launches[a] + span
    ensures b - a + 1 <= Allowance(span) <= 2 * (span / 30_000 + 1)
  {
    var k := (b - a) / 2;
    LaunchesSpread(launches, a, k);
    if a + 2 * k < b {
      assert launches[a + 2 * k + 1] >= launches[a + 2 * k];
    }
    assert k * 32_000 <= span;
  }

  /** How many launches start in the window of length `span` from t on. */
  function CountIn(launches: seq<nat>, t: nat, span: nat): nat {
    if launches == [] then 0
    else CountIn(launches[..|launches| - 1], t, span) + if t <= launches[|launches| - 1] <= t + span then 1 else 0
  }

  lemma {:induction false} CountIsWithin(launches: seq<nat>, t: nat, span: nat) returns (a: nat, b: nat)
    requires CountIn(launches, t, span) > 0
    ensures a <= b < |launches| && t <= launches[a] <= t + span && t <= launches[b] <= t + span
    ensures CountIn(launches, t, span) <= b - a + 1 <= |launches|
  {
    var last := |launches| - 1;
    var before := launches[..last];
    if CountIn(before, t, span) == 0 {
      a, b := last, last;
    } else {
      a, b := CountIsWithin(before, t, span);
      if t <= launches[last] <= t + span {
        b := last;
      }
    }
  }

  lemma RecordedInWindow(launches: seq<nat>, t: nat, span: nat)
    requires Spaced(launches)
    ensures CountIn(launches, t, span) <= Allowance(span)
  {
    if CountIn(launches, t, span) > 0 {
      var a, b := CountIsWithin(launches, t, span);
      LaunchesInWindow(launches, a, b, span);
    }
  }

  /** All launches in a window, recorded or lost. */
  ghost function LaunchesIn(calls: seq<Call>, t: nat, span: nat): nat
    requires IsRun(calls)
  {
    CountIn(Exec(calls).recorded, t, span) + CountIn(Exec(calls).lost, t, span)
  }

  /** In every run any window holds at most the allowance, plus two launches for each
    * call that was dropped between a launch and its record. */
  lemma WindowBound(calls: seq<Call>, t: nat, span: nat)
    requires IsRun(calls)
    ensures LaunchesIn(calls, t, span) <= Allowance(span) + 2 * Drops(calls)
  {
    RunKeepsInv(calls);
    RecordedInWindow(Exec(calls).recorded, t, span);
    if CountIn(Exec(calls).lost, t, span) > 0 {
      var a, b := CountIsWithin(Exec(calls).lost, t, span);
    }
  }

  /** The allowance is kept in every run with at most k dropped calls. */
  ghost predicate AllowanceKept(k: nat) {
    forall calls, t: nat, span: nat | IsRun(calls) && Drops(calls) <= k :: LaunchesIn(calls, t, span) <= Allowance(span)
  }

  /** A dropped call leaves no trace, so the next one launches at once. */
  lemma DropDefeatsCooldown() returns (calls: seq<Call>)
    ensures IsRun(calls) && Drops(calls) == 1 && LaunchesIn(calls, 0, BACKOFF) == 3 > Allowance(BACKOFF)
  {
    var attempts := [Attempt(0, false, 0), Attempt(BACKOFF, false, BACKOFF)];
    var lostCall, next := Call(0, true, attempts, Some(1)), Call(0, true, attempts, None);
    calls := [lostCall, next];
    assert calls[..1] == [lostCall] && calls[..0] == [] && [lostCall][..0] == [];
    assert lostCall.Burst() == [0] && next.Burst() == [0, BACKOFF];
    assert Exec([]) == INITIAL;
    assert Exec([lostCall]) == State(false, None, [], [0], 0);
    assert Exec(calls) == State(false, Some(BACKOFF), [0, BACKOFF], [0], BACKOFF);
    assert [0, BACKOFF][..1] == [0] && [0][..0] == [];
    assert CountIn([0], 0, BACKOFF) == 1 && CountIn([0, BACKOFF], 0, BACKOFF) == 2;
    assert Drops([]) == 0 && Drops([lostCall]) == 1;
  }

  /** The allowance is kept by all runs exactly when no call is dropped between a
    * launch and its record. */
  lemma AllowanceKeptIff(k: nat)
    ensures AllowanceKept(k) <==> k == 0
  {
    hide IsRun, Exec, Drops;
    if k == 0 {
      forall calls, t: nat, span: nat | IsRun(calls) && Drops(calls) <= k ensures LaunchesIn(calls, t, span) <= Allowance(span) {
        WindowBound(calls, t, span);
      }
    } else {
      var calls := DropDefeatsCooldown();
    }
  }
}
