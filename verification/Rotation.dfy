/** Rotation on blocks: the per-host counters and `decide` as the program updates
  * them in place, and the serial life of a host. */
module Rotation {
  import opened Wrappers

  const MAX_ROTATIONS_PER_HOST: nat := 3

  // ----- the counters, in place -----

  /** The value of one host's counter. */
  datatype Counter = Counter(rotations: nat, l1Attempted: bool)

  const UNTOUCHED: Counter := Counter(0, false)

  class HostBlockCounter {
    var rotations: nat
    var l1Attempted: bool
    var lastRotationUnixMs: nat

    constructor ()
      ensures rotations == 0 && !l1Attempted && lastRotationUnixMs == 0
    {
      rotations, l1Attempted, lastRotationUnixMs := 0, false, 0;
    }

    method MarkL1Attempted()
      modifies this`l1Attempted
      ensures l1Attempted
    {
      l1Attempted := true;
    }

    method RecordRotation(nowMs: nat)
      modifies this`rotations, this`lastRotationUnixMs
      ensures rotations == old(rotations) + 1 && lastRotationUnixMs == nowMs
    {
      rotations := rotations + 1;
      lastRotationUnixMs := nowMs;
    }
  }

  datatype Decision =
    | Accept
    | ClearAndRetry(signal: string)
    | Rotate(signal: string, nextProfileIdx: nat)
    | Fail(signal: string, rotationsUsed: nat)

  class HostCounters {
    var counters: map<string, HostBlockCounter>

    constructor ()
      ensures counters == map[]
    {
      counters := map[];
    }

    /** No two hosts share a counter object. */
    ghost predicate Valid()
      reads this
    {
      forall g, h | g in counters && h in counters && g != h :: counters[g] != counters[h]
    }

    ghost function Repr(): set<object>
      reads this
    {
      {this} + set h | h in counters :: counters[h]
    }

    /** The value of a host's counter; a host never seen counts as untouched. */
    function View(host: string): Counter
      reads this, if host in counters then {counters[host]} else {}
    {
      if host in counters then Counter(counters[host].rotations, counters[host].l1Attempted) else UNTOUCHED
    }

    /** `counter_for`: get or create; no host's view changes. */
    method CounterFor(host: string) returns (counter: HostBlockCounter)
      requires Valid()
      modifies this
      ensures Valid() && host in counters && counter == counters[host]
      ensures forall h | h in old(counters) :: h in counters && counters[h] == old(counters)[h]
      ensures forall h | h in counters && h !in old(counters) :: fresh(counters[h])
      ensures counters.Keys == old(counters).Keys + {host}
      ensures fresh(Repr() - old(Repr()))
      ensures counter.rotations == old(View(host)).rotations && counter.l1Attempted == old(View(host)).l1Attempted
    {
      if host !in counters {
        var created := new HostBlockCounter();
        counters := counters[host := created];
      }
      counter := counters[host];
    }

    /** `counter_for(host).record_rotation()`. */
    method RecordRotation(host: string, nowMs: nat)
      requires Valid()
      modifies Repr()
      ensures Valid() && fresh(Repr() - old(Repr()))
      ensures View(host) == old(View(host)).(rotations := old(View(host)).rotations + 1)
      ensures forall h | h != host :: View(h) == old(View(h))
    {
      var counter := CounterFor(host);
      counter.RecordRotation(nowMs);
    }

    /** `decide`, for a detected signal (None when the page is not blocked). */
    method Decide(signal: Option<string>, host: string, profileIdx: nat, totalProfiles: nat) returns (d: Decision)
      requires Valid() && totalProfiles > 0
      modifies Repr()
      ensures Valid()
      ensures (d, View(host)) == Decided(signal, old(View(host)), profileIdx, totalProfiles)
      ensures forall h | h != host :: View(h) == old(View(h))
      ensures fresh(Repr() - old(Repr()))
    {
      if signal.None? {
        return Accept;
      }
      var counter := CounterFor(host);
      var rotationsUsed := counter.rotations;
      if rotationsUsed >= MAX_ROTATIONS_PER_HOST {
        return Fail(signal.value, rotationsUsed);
      }
      if !counter.l1Attempted {
        counter.MarkL1Attempted();
        return ClearAndRetry(signal.value);
      }
      var next := if rotationsUsed == 0 && totalProfiles >= 6 then 5 else (profileIdx + 1) % totalProfiles;
      return Rotate(signal.value, next);
    }
  }

  /** The decision and the host's next counter value. */
  function Decided(signal: Option<string>, c: Counter, profileIdx: nat, totalProfiles: nat): (Decision, Counter)
    requires totalProfiles > 0
  {
    match signal
    case None => (Accept, c)
    case Some(s) =>
      if c.rotations >= MAX_ROTATIONS_PER_HOST then (Fail(s, c.rotations), c)
      else if !c.l1Attempted then (ClearAndRetry(s), c.(l1Attempted := true))
      else (Rotate(s, if c.rotations == 0 && totalProfiles >= 6 then 5 else (profileIdx + 1) % totalProfiles), c)
  }

  /** A host's counter after n blocked requests, one at a time, each of whose
    * rotations succeeded and was recorded. */
  function AfterBlocks(signal: string, profileIdx: nat, totalProfiles: nat, n: nat): Counter
    requires totalProfiles > 0
  {
    if n == 0 then UNTOUCHED
    else
      var (d, c) := Decided(Some(signal), AfterBlocks(signal, profileIdx, totalProfiles, n - 1), profileIdx, totalProfiles);
      if d.Rotate? then c.(rotations := c.rotations + 1) else c
  }

  /** Serial life of a host: the first block clears, the next three rotate, to profile
    * five if there is one and then to the next in turn, and every later one fails. */
  lemma {:induction false} SerialLife(signal: string, profileIdx: nat, totalProfiles: nat, n: nat)
    requires totalProfiles > 0
    ensures var c := AfterBlocks(signal, profileIdx, totalProfiles, n);
      var d := Decided(Some(signal), c, profileIdx, totalProfiles).0;
      && (d.ClearAndRetry? <==> n == 0)
      && (d.Rotate? <==> 1 <= n <= 3)
      && (d.Fail? <==> n > 3)
      && (d.Rotate? ==> d.nextProfileIdx == if n == 1 && totalProfiles >= 6 then 5 else (profileIdx + 1) % totalProfiles)
      && c == Counter(if n == 0 then 0 else if n <= 3 then n - 1 else 3, n > 0)
  {
    if n > 0 {
      SerialLife(signal, profileIdx, totalProfiles, n - 1);
    }
  }
}
