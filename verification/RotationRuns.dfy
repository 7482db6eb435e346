/** The rotation ladder as interleaved request steps.  Between any two steps of
  * one request, others may run: the budget read, the L1 flag check, its store,
  * the read of the proxy's profile, its respawn and the counter increment are separate.  A run is a
  * sequence of actions; actions that are not enabled do nothing, so every
  * sequence is a run and every interleaving is covered. */
module RotationRuns {
  import opened Wrappers
  import opened Rotation
  import TlsProxy

  datatype Outcome = Accepted | Failed | Retried | Unrotated | Rotated

  /** Where a request is: before its budget read; past it with rotations left;
    * about to set the L1 flag; about to rotate; waiting for the proxy to come up
    * on the profile it read; about to record; finished. */
  datatype Pc = Fetched | Budgeted | Marking | Rotating | Spawning(next: string) | Recording | Finished(outcome: Outcome)

  datatype Req = Req(host: string, pc: Pc)

  /** The counters, the requests, and the current profile of the one proxy. */
  datatype Sys = Sys(counters: map<string, Counter>, reqs: seq<Req>, profile: string)
  {
    function Of(host: string): Counter {
      if host in counters then counters[host] else UNTOUCHED
    }
  }

  datatype Action =
    | Arrive(host: string)
    | ReadBudget(id: nat, blocked: bool)
    | CheckL1(id: nat)
    | MarkL1(id: nat)
    | ReadProfile(id: nat)
    | Respawn(id: nat, ready: bool)
    | Record(id: nat)

  function Move(s: Sys, id: nat, pc: Pc): Sys
    requires id < |s.reqs|
  {
    s.(reqs := s.reqs[id := s.reqs[id].(pc := pc)])
  }

  predicate At(s: Sys, id: nat, pc: Pc) {
    id < |s.reqs| && s.reqs[id].pc == pc
  }

  /** One step; `ladder` is the profile ladder of the TLS proxy, empty when none is attached. */
  function Apply(s: Sys, a: Action, ladder: seq<string>): Sys {
    match a
    case Arrive(host) => s.(reqs := s.reqs + [Req(host, Fetched)])
    case ReadBudget(id, blocked) =>
      if !At(s, id, Fetched) then s
      else if !blocked then Move(s, id, Finished(Accepted))
      else if s.Of(s.reqs[id].host).rotations >= MAX_ROTATIONS_PER_HOST then Move(s, id, Finished(Failed))
      else Move(s, id, Budgeted)
    case CheckL1(id) =>
      if !At(s, id, Budgeted) then s
      else Move(s, id, if s.Of(s.reqs[id].host).l1Attempted then Rotating else Marking)
    case MarkL1(id) =>
      if !At(s, id, Marking) then s
      else
        var h := s.reqs[id].host;
        Move(s.(counters := s.counters[h := s.Of(h).(l1Attempted := true)]), id, Finished(Retried))
    case ReadProfile(id) =>
      if !At(s, id, Rotating) then s
      else
        (match TlsProxy.NextAfter(ladder, s.profile)
         case None => Move(s, id, Finished(Unrotated))
         case Some(next) => Move(s, id, Spawning(next)))
    case Respawn(id, ready) =>
      if id < |s.reqs| && s.reqs[id].pc.Spawning? then
        if ready then Move(s.(profile := s.reqs[id].pc.next), id, Recording) else Move(s, id, Finished(Unrotated))
      else s
    case Record(id) =>
      if !At(s, id, Recording) then s
      else
        var h := s.reqs[id].host;
        Move(s.(counters := s.counters[h := s.Of(h).(rotations := s.Of(h).rotations + 1)]), id, Finished(Rotated))
  }

  /** The proxy starts on the first profile. */
  function Initial(ladder: seq<string>): Sys {
    Sys(map[], [], if ladder == [] then "" else ladder[0])
  }

  function Exec(s: Sys, actions: seq<Action>, ladder: seq<string>): Sys {
    if actions == [] then s
    else Apply(Exec(s, actions[..|actions| - 1], ladder), actions[|actions| - 1], ladder)
  }

  // ----- counting requests -----

  predicate InWindow(pc: Pc) {
    pc.Budgeted? || pc.Marking? || pc.Rotating? || pc.Spawning? || pc.Recording?
  }

  predicate IsMarking(pc: Pc) {
    pc.Marking?
  }

  predicate IsRetried(pc: Pc) {
    pc == Finished(Retried)
  }

  /** How many requests for `host` are at a place that `p` selects. */
  function Count(reqs: seq<Req>, host: string, p: Pc -> bool): nat {
    if reqs == [] then 0
    else Count(reqs[..|reqs| - 1], host, p) + Weight(reqs[|reqs| - 1], host, p)
  }

  function Weight(r: Req, host: string, p: Pc -> bool): nat {
    if r.host == host && p(r.pc) then 1 else 0
  }

  /** Requests for `host` between their budget read and their last step. */
  function Overlap(s: Sys, host: string): nat {
    Count(s.reqs, host, InWindow)
  }

  /** Requests for `host` that cleared its cookies. */
  function Clears(s: Sys, host: string): nat {
    Count(s.reqs, host, IsRetried)
  }

  lemma {:induction false} CountAfterMove(reqs: seq<Req>, id: nat, r: Req, host: string, p: Pc -> bool)
    requires id < |reqs|
    ensures Count(reqs[id := r], host, p) + Weight(reqs[id], host, p) == Count(reqs, host, p) + Weight(r, host, p)
  {
    var last, after := |reqs| - 1, reqs[id := r];
    if id == last {
      assert after[..last] == reqs[..last];
    } else {
      CountAfterMove(reqs[..last], id, r, host, p);
      assert after[..last] == reqs[..last][id := r];
    }
  }

  lemma CountAfterArrival(reqs: seq<Req>, r: Req, host: string, p: Pc -> bool)
    ensures Count(reqs + [r], host, p) == Count(reqs, host, p) + Weight(r, host, p)
  {
    assert (reqs + [r])[..|reqs|] == reqs;
  }

  lemma {:induction false} CountOrder(reqs: seq<Req>, host: string)
    ensures Count(reqs, host, IsMarking) <= Count(reqs, host, InWindow)
  {
    if reqs != [] {
      CountOrder(reqs[..|reqs| - 1], host);
    }
  }

  // ----- the rotation budget -----

  /** At no point of the run do more than n requests for the host overlap. */
  ghost predicate OverlapAtMost(actions: seq<Action>, ladder: seq<string>, host: string, n: nat) {
    forall k | 0 <= k <= |actions| :: Overlap(Exec(Initial(ladder), actions[..k], ladder), host) <= n
  }

  ghost predicate BudgetInv(s: Sys, host: string, n: nat) {
    var rotations := s.Of(host).rotations;
    rotations < MAX_ROTATIONS_PER_HOST || rotations + Overlap(s, host) <= MAX_ROTATIONS_PER_HOST - 1 + n
  }

  lemma BudgetStep(s: Sys, a: Action, ladder: seq<string>, host: string, n: nat)
    requires BudgetInv(s, host, n) && Overlap(s, host) <= n
    ensures BudgetInv(Apply(s, a, ladder), host, n)
  {
    hide Count;
    var s' := Apply(s, a, ladder);
    if a.Arrive? {
      CountAfterArrival(s.reqs, Req(a.host, Fetched), host, InWindow);
    } else if a.id < |s.reqs| && s' != s {
      assert s'.reqs == s.reqs[a.id := s'.reqs[a.id]];
      CountAfterMove(s.reqs, a.id, s'.reqs[a.id], host, InWindow);
    }
  }

  lemma {:induction false} BudgetHolds(actions: seq<Action>, ladder: seq<string>, host: string, n: nat)
    requires OverlapAtMost(actions, ladder, host, n)
    ensures BudgetInv(Exec(Initial(ladder), actions, ladder), host, n)
  {
    if actions != [] {
      var before := actions[..|actions| - 1];
      assert forall k | 0 <= k <= |before| :: before[..k] == actions[..k];
      BudgetHolds(before, ladder, host, n);
      assert before == actions[..|before|];
      BudgetStep(Exec(Initial(ladder), before, ladder), actions[|actions| - 1], ladder, host, n);
    }
  }

  /** Completed rotations never exceed the budget less one plus the most
    * requests that ever overlapped; so three, when they do not overlap. */
  lemma RotationsAreBounded(actions: seq<Action>, ladder: seq<string>, host: string, n: nat)
    requires OverlapAtMost(actions, ladder, host, n)
    ensures Exec(Initial(ladder), actions, ladder).Of(host).rotations <= 2 + n
  {
    BudgetHolds(actions, ladder, host, n);
  }

  // ----- the bound is reached -----

  /** The actions lead to `s`, with never more than n requests overlapping. */
  ghost predicate Leads(actions: seq<Action>, ladder: seq<string>, host: string, n: nat, s: Sys) {
    Exec(Initial(ladder), actions, ladder) == s && OverlapAtMost(actions, ladder, host, n)
  }

  lemma OneMore(actions: seq<Action>, ladder: seq<string>, host: string, n: nat, s: Sys, a: Action)
    requires Leads(actions, ladder, host, n, s) && Overlap(Apply(s, a, ladder), host) <= n
    ensures Leads(actions + [a], ladder, host, n, Apply(s, a, ladder))
  {
    hide Overlap, Apply, Initial;
    var more := actions + [a];
    assert more[..|actions|] == actions;
    forall k | 0 <= k <= |more| ensures Overlap(Exec(Initial(ladder), more[..k], ladder), host) <= n {
      if k <= |actions| {
        assert more[..k] == actions[..k];
      } else {
        assert more[..k] == more;
      }
    }
  }

  lemma MoveCounts(s: Sys, id: nat, pc: Pc, host: string)
    requires id < |s.reqs| && s.reqs[id].host == host
    ensures Overlap(Move(s, id, pc), host) + (if InWindow(s.reqs[id].pc) then 1 else 0)
         == Overlap(s, host) + (if InWindow(pc) then 1 else 0)
    ensures Clears(Move(s, id, pc), host) + (if IsRetried(s.reqs[id].pc) then 1 else 0)
         == Clears(s, host) + (if IsRetried(pc) then 1 else 0)
  {
    CountAfterMove(s.reqs, id, s.reqs[id].(pc := pc), host, InWindow);
    CountAfterMove(s.reqs, id, s.reqs[id].(pc := pc), host, IsRetried);
  }

  /** A new request reads the budget while it lasts. */
  lemma Enter(actions: seq<Action>, ladder: seq<string>, host: string, n: nat, s: Sys) returns (more: seq<Action>, s': Sys)
    requires Leads(actions, ladder, host, n, s) && Overlap(s, host) < n && s.Of(host).rotations < MAX_ROTATIONS_PER_HOST
    ensures Leads(more, ladder, host, n, s') && s' == s.(reqs := s.reqs + [Req(host, Budgeted)])
    ensures Overlap(s', host) == Overlap(s, host) + 1 && Clears(s', host) == Clears(s, host)
  {
    hide Count, Leads;
    var id := |s.reqs|;
    CountAfterArrival(s.reqs, Req(host, Fetched), host, InWindow);
    CountAfterArrival(s.reqs, Req(host, Fetched), host, IsRetried);
    var arrived := Apply(s, Arrive(host), ladder);
    OneMore(actions, ladder, host, n, s, Arrive(host));
    MoveCounts(arrived, id, Budgeted, host);
    s' := Apply(arrived, ReadBudget(id, true), ladder);
    assert s'.reqs == s.reqs + [Req(host, Budgeted)];
    OneMore(actions + [Arrive(host)], ladder, host, n, arrived, ReadBudget(id, true));
    more := actions + [Arrive(host)] + [ReadBudget(id, true)];
  }

  /** A step of one request of the host, inside its window before and after. */
  lemma Inside(actions: seq<Action>, ladder: seq<string>, host: string, n: nat, s: Sys, a: Action, pc: Pc)
    returns (more: seq<Action>, s': Sys)
    requires Leads(actions, ladder, host, n, s) && Overlap(s, host) <= n
    requires !a.Arrive? && a.id < |s.reqs| && s.reqs[a.id].host == host
    requires InWindow(s.reqs[a.id].pc) && InWindow(pc) && Apply(s, a, ladder).reqs == Move(s, a.id, pc).reqs
    ensures Leads(more, ladder, host, n, s') && s' == Apply(s, a, ladder)
    ensures Overlap(s', host) == Overlap(s, host) && Clears(s', host) == Clears(s, host)
  {
    hide Leads, Count, Apply;
    MoveCounts(s, a.id, pc, host);
    OneMore(actions, ladder, host, n, s, a);
    more, s' := actions + [a], Apply(s, a, ladder);
  }

  /** The last step of one request of the host. */
  lemma Finish(actions: seq<Action>, ladder: seq<string>, host: string, n: nat, s: Sys, a: Action, outcome: Outcome)
    returns (more: seq<Action>, s': Sys)
    requires Leads(actions, ladder, host, n, s) && Overlap(s, host) <= n
    requires !a.Arrive? && a.id < |s.reqs| && s.reqs[a.id].host == host
    requires InWindow(s.reqs[a.id].pc) && Apply(s, a, ladder).reqs == Move(s, a.id, Finished(outcome)).reqs
    ensures Leads(more, ladder, host, n, s') && s' == Apply(s, a, ladder)
    ensures Overlap(s', host) + 1 == Overlap(s, host)
    ensures Clears(s', host) == Clears(s, host) + if outcome == Retried then 1 else 0
  {
    hide Leads, Count, Apply;
    MoveCounts(s, a.id, Finished(outcome), host);
    OneMore(actions, ladder, host, n, s, a);
    more, s' := actions + [a], Apply(s, a, ladder);
  }

  /** m requests read the budget and the profile before any of them is done; then
    * all of them rotate to the same profile and record, whatever the count is by then. */
  lemma {:induction false} Overrun(actions: seq<Action>, ladder: seq<string>, host: string, n: nat, s: Sys, m: nat)
    returns (more: seq<Action>, s': Sys)
    requires Leads(actions, ladder, host, n, s) && Overlap(s, host) + m <= n
    requires s.Of(host).l1Attempted && s.Of(host).rotations < MAX_ROTATIONS_PER_HOST
    requires TlsProxy.NextAfter(ladder, s.profile).Some?
    ensures Leads(more, ladder, host, n, s') && Overlap(s', host) == Overlap(s, host)
    ensures s.reqs <= s'.reqs && s'.Of(host) == Counter(s.Of(host).rotations + m, true)
    ensures s'.profile == if m == 0 then s.profile else TlsProxy.NextAfter(ladder, s.profile).value
    decreases m
  {
    hide Leads, Overlap, Clears, TlsProxy.NextAfter;
    if m == 0 {
      more, s' := actions, s;
    } else {
      var id, next := |s.reqs|, TlsProxy.NextAfter(ladder, s.profile).value;
      more, s' := Enter(actions, ladder, host, n, s);
      more, s' := Inside(more, ladder, host, n, s', CheckL1(id), Rotating);
      more, s' := Inside(more, ladder, host, n, s', ReadProfile(id), Spawning(next));
      more, s' := Overrun(more, ladder, host, n, s', m - 1);
      more, s' := Inside(more, ladder, host, n, s', Respawn(id, true), Recording);
      more, s' := Finish(more, ladder, host, n, s', Record(id), Rotated);
    }
  }

  /** m requests check the L1 flag before any of them has set it; then all clear. */
  lemma {:induction false} Overclear(actions: seq<Action>, ladder: seq<string>, host: string, n: nat, s: Sys, m: nat)
    returns (more: seq<Action>, s': Sys)
    requires Leads(actions, ladder, host, n, s) && Overlap(s, host) + m <= n
    requires s.Of(host) == UNTOUCHED
    ensures Leads(more, ladder, host, n, s') && Overlap(s', host) == Overlap(s, host)
    ensures s.reqs <= s'.reqs && s'.profile == s.profile && s'.Of(host) == Counter(0, m > 0)
    ensures Clears(s', host) == Clears(s, host) + m
    decreases m
  {
    hide Leads, Overlap, Clears;
    if m == 0 {
      more, s' := actions, s;
    } else {
      var id := |s.reqs|;
      more, s' := Enter(actions, ladder, host, n, s);
      more, s' := Inside(more, ladder, host, n, s', CheckL1(id), Marking);
      more, s' := Overclear(more, ladder, host, n, s', m - 1);
      more, s' := Finish(more, ladder, host, n, s', MarkL1(id), Retried);
    }
  }

  lemma NobodyYet(ladder: seq<string>, host: string, n: nat)
    ensures Leads([], ladder, host, n, Initial(ladder))
    ensures Overlap(Initial(ladder), host) == 0 == Clears(Initial(ladder), host)
  {
  }

  // ----- the most rotations, for every ladder -----

  predicate TwoProfiles(ladder: seq<string>) {
    |ladder| == 2 && ladder[0] != ladder[1]
  }

  /** The most rotations for a host of which at most n requests ever overlap. */
  function MostRotations(ladder: seq<string>, n: nat): nat {
    if n == 0 || |ladder| <= 1 then 0
    else if TwoProfiles(ladder) then n
    else 2 + n
  }

  lemma {:induction false} InsideCounts(reqs: seq<Req>, id: nat, host: string)
    requires id < |reqs| && reqs[id].host == host && InWindow(reqs[id].pc)
    ensures Count(reqs, host, InWindow) > 0
  {
    if id < |reqs| - 1 {
      InsideCounts(reqs[..|reqs| - 1], id, host);
    }
  }

  lemma NobodyRotatesStep(s: Sys, a: Action, ladder: seq<string>, host: string)
    requires Overlap(s, host) == 0
    ensures Apply(s, a, ladder).Of(host).rotations == s.Of(host).rotations
  {
    hide Count;
    if !a.Arrive? && a.id < |s.reqs| && s.reqs[a.id].host == host && InWindow(s.reqs[a.id].pc) {
      InsideCounts(s.reqs, a.id, host);
    }
  }

  /** Without a request past its budget read nothing is recorded. */
  lemma {:induction false} NobodyRotates(actions: seq<Action>, ladder: seq<string>, host: string)
    requires OverlapAtMost(actions, ladder, host, 0)
    ensures Exec(Initial(ladder), actions, ladder).Of(host).rotations == 0
  {
    if actions != [] {
      hide Overlap, Apply;
      var before, a := actions[..|actions| - 1], actions[|actions| - 1];
      assert forall k | 0 <= k <= |before| :: before[..k] == actions[..k];
      assert before == actions[..|before|];
      NobodyRotates(before, ladder, host);
      NobodyRotatesStep(Exec(Initial(ladder), before, ladder), a, ladder, host);
    }
  }

  /** About to come up on the second profile, or to record it. */
  predicate IsMoving(pc: Pc) {
    pc.Spawning? || pc.Recording?
  }

  lemma {:induction false} MovingIsInside(reqs: seq<Req>, host: string)
    ensures Count(reqs, host, IsMoving) <= Count(reqs, host, InWindow)
  {
    if reqs != [] {
      MovingIsInside(reqs[..|reqs| - 1], host);
    }
  }

  /** With two profiles nothing is recorded before the proxy is on the second, and no
    * request sets out for it afterwards. */
  ghost predicate TwoProfilesInv(s: Sys, ladder: seq<string>, host: string, n: nat)
    requires TwoProfiles(ladder)
  {
    && (s.profile == ladder[0] || s.profile == ladder[1])
    && (forall r | r in s.reqs && r.pc.Spawning? :: r.pc.next == ladder[1])
    && if s.profile == ladder[0] then s.Of(host).rotations == 0 && forall r | r in s.reqs :: r.pc != Recording
       else s.Of(host).rotations + Count(s.reqs, host, IsMoving) <= n
  }

  lemma TwoProfilesWalk(ladder: seq<string>)
    requires TwoProfiles(ladder)
    ensures TlsProxy.NextAfter(ladder, ladder[0]) == Some(ladder[1]) && TlsProxy.NextAfter(ladder, ladder[1]) == None
  {
    assert ladder[1..][0] == ladder[1];
  }

  lemma TwoProfilesStep(s: Sys, a: Action, ladder: seq<string>, host: string, n: nat)
    requires TwoProfiles(ladder) && TwoProfilesInv(s, ladder, host, n) && Overlap(s, host) <= n
    ensures TwoProfilesInv(Apply(s, a, ladder), ladder, host, n)
  {
    hide Count, TlsProxy.NextAfter;
    TwoProfilesWalk(ladder);
    MovingIsInside(s.reqs, host);
    var s' := Apply(s, a, ladder);
    if a.Arrive? {
      CountAfterArrival(s.reqs, Req(a.host, Fetched), host, IsMoving);
      assert forall r | r in s'.reqs :: r in s.reqs || r == Req(a.host, Fetched);
    } else if a.id < |s.reqs| && s' != s {
      assert s.reqs[a.id] in s.reqs;
      assert s'.reqs == s.reqs[a.id := s'.reqs[a.id]];
      assert forall r | r in s'.reqs :: r in s.reqs || r == s'.reqs[a.id];
      CountAfterMove(s.reqs, a.id, s'.reqs[a.id], host, IsMoving);
    }
  }

  lemma {:induction false} TwoProfilesHold(actions: seq<Action>, ladder: seq<string>, host: string, n: nat)
    requires TwoProfiles(ladder) && OverlapAtMost(actions, ladder, host, n)
    ensures TwoProfilesInv(Exec(Initial(ladder), actions, ladder), ladder, host, n)
  {
    if actions != [] {
      var before := actions[..|actions| - 1];
      assert forall k | 0 <= k <= |before| :: before[..k] == actions[..k];
      TwoProfilesHold(before, ladder, host, n);
      assert before == actions[..|before|];
      TwoProfilesStep(Exec(Initial(ladder), before, ladder), actions[|actions| - 1], ladder, host, n);
    }
  }

  lemma NeverMore(actions: seq<Action>, ladder: seq<string>, host: string, n: nat)
    requires OverlapAtMost(actions, ladder, host, n)
    ensures Exec(Initial(ladder), actions, ladder).Of(host).rotations <= MostRotations(ladder, n)
  {
    hide Exec, Initial, Overlap;
    if n == 0 {
      NobodyRotates(actions, ladder, host);
    } else if |ladder| <= 1 {
      NoProxyNeverFails(actions, ladder);
    } else if TwoProfiles(ladder) {
      TwoProfilesHold(actions, ladder, host, n);
    } else {
      RotationsAreBounded(actions, ladder, host, n);
    }
  }

  /** A step for another host. */
  lemma Elsewhere(actions: seq<Action>, ladder: seq<string>, host: string, n: nat, s: Sys, a: Action)
    returns (more: seq<Action>, s': Sys)
    requires Leads(actions, ladder, host, n, s) && Overlap(s, host) <= n && HostOf(s, a) != host
    ensures Leads(more, ladder, host, n, s') && s' == Apply(s, a, ladder)
    ensures Overlap(s', host) == Overlap(s, host) && s'.Of(host) == s.Of(host)
  {
    hide Leads, Count;
    more, s' := actions + [a], Apply(s, a, ladder);
    HostsAreIndependent(s, a, ladder, host);
    if a.Arrive? {
      CountAfterArrival(s.reqs, Req(a.host, Fetched), host, InWindow);
    } else if a.id < |s.reqs| && s' != s {
      assert s'.reqs == s.reqs[a.id := s'.reqs[a.id]];
      CountAfterMove(s.reqs, a.id, s'.reqs[a.id], host, InWindow);
    }
    OneMore(actions, ladder, host, n, s, a);
  }

  /** A request for another host clears, a second one reads the first profile and
    * is left waiting; the host itself has seen nothing. */
  lemma StrangerWaits(ladder: seq<string>, host: string, n: nat, next: string)
    returns (actions: seq<Action>, s: Sys)
    requires TlsProxy.NextAfter(ladder, Initial(ladder).profile) == Some(next)
    ensures Leads(actions, ladder, host, n, s) && Overlap(s, host) == 0 && s.Of(host) == UNTOUCHED
    ensures s.profile == Initial(ladder).profile
    ensures |s.reqs| == 2 && s.reqs[1] == Req(host + "!", Spawning(next))
  {
    hide Leads, Overlap, TlsProxy.NextAfter;
    var other := host + "!";
    assert |other| != |host|;
    NobodyYet(ladder, host, n);
    s := Initial(ladder);
    actions, s := Elsewhere([], ladder, host, n, s, Arrive(other));
    actions, s := Elsewhere(actions, ladder, host, n, s, ReadBudget(0, true));
    actions, s := Elsewhere(actions, ladder, host, n, s, CheckL1(0));
    actions, s := Elsewhere(actions, ladder, host, n, s, MarkL1(0));
    actions, s := StrangerReads(actions, ladder, host, n, s, other, next);
  }

  lemma StrangerReads(actions: seq<Action>, ladder: seq<string>, host: string, n: nat, s: Sys, other: string, next: string)
    returns (more: seq<Action>, s': Sys)
    requires Leads(actions, ladder, host, n, s) && Overlap(s, host) <= n && other != host
    requires s.Of(other) == Counter(0, true) && TlsProxy.NextAfter(ladder, s.profile) == Some(next)
    ensures Leads(more, ladder, host, n, s') && Overlap(s', host) == Overlap(s, host) && s'.Of(host) == s.Of(host)
    ensures s'.profile == s.profile && s'.reqs == s.reqs + [Req(other, Spawning(next))]
  {
    hide Leads, Overlap, TlsProxy.NextAfter;
    var id := |s.reqs|;
    more, s' := Elsewhere(actions, ladder, host, n, s, Arrive(other));
    more, s' := Elsewhere(more, ladder, host, n, s', ReadBudget(id, true));
    more, s' := Elsewhere(more, ladder, host, n, s', CheckL1(id));
    more, s' := Elsewhere(more, ladder, host, n, s', ReadProfile(id));
  }

  /** The second profile has a successor: two rotations come one after the other; then
    * a request for another host, late to come up, sets the proxy back to the second
    * profile, and n more overlap. */
  lemma LongLadderWitness(ladder: seq<string>, host: string, n: nat) returns (actions: seq<Action>)
    requires n > 0 && |ladder| >= 2 && !TwoProfiles(ladder)
    ensures OverlapAtMost(actions, ladder, host, n)
    ensures Exec(Initial(ladder), actions, ladder).Of(host).rotations == 2 + n
  {
    hide Leads, Overlap, Clears, TlsProxy.NextAfter;
    var s;
    ProfilesFollow(ladder);
    actions, s := StrangerWaits(ladder, host, n, ladder[1]);
    actions, s := Overclear(actions, ladder, host, n, s, 1);
    actions, s := Overrun(actions, ladder, host, n, s, 1);
    actions, s := Overrun(actions, ladder, host, n, s, 1);
    actions, s := Elsewhere(actions, ladder, host, n, s, Respawn(1, true));
    actions, s := Overrun(actions, ladder, host, n, s, n);
    LeadsTo(actions, ladder, host, n, s);
  }

  lemma ProfilesFollow(ladder: seq<string>)
    requires |ladder| >= 2 && !TwoProfiles(ladder)
    ensures TlsProxy.NextAfter(ladder, ladder[0]) == Some(ladder[1])
    ensures TlsProxy.NextAfter(ladder, ladder[1]).Some?
  {
    if |ladder| >= 3 {
      TlsProxy.NextAfterMember(ladder, 1);
    }
  }

  /** With two profiles, n requests that read the first one before any came up. */
  lemma ShortLadderWitness(ladder: seq<string>, host: string, n: nat) returns (actions: seq<Action>)
    requires n > 0 && TwoProfiles(ladder)
    ensures OverlapAtMost(actions, ladder, host, n)
    ensures Exec(Initial(ladder), actions, ladder).Of(host).rotations == n
  {
    hide Leads, Overlap, Clears, TlsProxy.NextAfter;
    var s := Initial(ladder);
    NobodyYet(ladder, host, n);
    TwoProfilesWalk(ladder);
    actions, s := Overclear([], ladder, host, n, s, 1);
    actions, s := Overrun(actions, ladder, host, n, s, n);
    LeadsTo(actions, ladder, host, n, s);
  }

  lemma LeadsTo(actions: seq<Action>, ladder: seq<string>, host: string, n: nat, s: Sys)
    requires Leads(actions, ladder, host, n, s)
    ensures OverlapAtMost(actions, ladder, host, n) && Exec(Initial(ladder), actions, ladder) == s
  {
  }

  /** For every ladder, host and n some interleaving with overlap at most n completes
    * the most rotations there can be. */
  lemma BudgetBoundIsReached(ladder: seq<string>, host: string, n: nat) returns (actions: seq<Action>)
    ensures OverlapAtMost(actions, ladder, host, n)
    ensures Exec(Initial(ladder), actions, ladder).Of(host).rotations == MostRotations(ladder, n)
  {
    if n == 0 || |ladder| <= 1 {
      actions := [];
      NobodyYet(ladder, host, n);
    } else if TwoProfiles(ladder) {
      actions := ShortLadderWitness(ladder, host, n);
    } else {
      actions := LongLadderWitness(ladder, host, n);
    }
  }

  /** Every run in which at most n requests for the host overlap completes at most k
    * rotations. */
  ghost predicate RotatesAtMost(ladder: seq<string>, host: string, n: nat, k: nat) {
    forall actions | OverlapAtMost(actions, ladder, host, n) :: Exec(Initial(ladder), actions, ladder).Of(host).rotations <= k
  }

  /** The bound is exact for every ladder, host and overlap. */
  lemma RotationBoundIsExact(ladder: seq<string>, host: string, n: nat, k: nat)
    ensures RotatesAtMost(ladder, host, n, k) <==> k >= MostRotations(ladder, n)
  {
    hide OverlapAtMost, Exec, MostRotations;
    if k >= MostRotations(ladder, n) {
      forall actions | OverlapAtMost(actions, ladder, host, n)
        ensures Exec(Initial(ladder), actions, ladder).Of(host).rotations <= k
      {
        NeverMore(actions, ladder, host, n);
      }
    } else {
      var actions := BudgetBoundIsReached(ladder, host, n);
    }
  }

  /** The documented budget of three is kept exactly when requests for the host do
    * not overlap, there is nothing to rotate to, or there are just two profiles and
    * at most three requests overlap. */
  lemma BudgetKeptIff(ladder: seq<string>, host: string, n: nat)
    ensures RotatesAtMost(ladder, host, n, 3) <==>
      n <= 1 || |ladder| <= 1 || (TwoProfiles(ladder) && n <= 3)
  {
    RotationBoundIsExact(ladder, host, n, 3);
  }

  // ----- how often L1 clears -----

  ghost predicate ClearInv(s: Sys, host: string, n: nat) {
    var marking, retried := Count(s.reqs, host, IsMarking), Count(s.reqs, host, IsRetried);
    if s.Of(host).l1Attempted then retried + marking <= n else retried == 0
  }

  lemma ClearStep(s: Sys, a: Action, ladder: seq<string>, host: string, n: nat)
    requires ClearInv(s, host, n) && Overlap(s, host) <= n
    ensures ClearInv(Apply(s, a, ladder), host, n)
  {
    hide Count;
    CountOrder(s.reqs, host);
    var s' := Apply(s, a, ladder);
    if a.Arrive? {
      CountAfterArrival(s.reqs, Req(a.host, Fetched), host, IsMarking);
      CountAfterArrival(s.reqs, Req(a.host, Fetched), host, IsRetried);
    } else if a.id < |s.reqs| && s' != s {
      var r := s'.reqs[a.id];
      assert s'.reqs == s.reqs[a.id := r];
      CountAfterMove(s.reqs, a.id, r, host, IsMarking);
      CountAfterMove(s.reqs, a.id, r, host, IsRetried);
    }
  }

  lemma {:induction false} ClearHolds(actions: seq<Action>, ladder: seq<string>, host: string, n: nat)
    requires OverlapAtMost(actions, ladder, host, n)
    ensures ClearInv(Exec(Initial(ladder), actions, ladder), host, n)
  {
    if actions != [] {
      var before := actions[..|actions| - 1];
      assert forall k | 0 <= k <= |before| :: before[..k] == actions[..k];
      ClearHolds(before, ladder, host, n);
      assert before == actions[..|before|];
      ClearStep(Exec(Initial(ladder), before, ladder), actions[|actions| - 1], ladder, host, n);
    }
  }

  /** "Only on the first block" holds for L1 up to overlap: a host is cleared
    * at most as often as requests ever overlapped. */
  lemma ClearsAreBounded(actions: seq<Action>, ladder: seq<string>, host: string, n: nat)
    requires OverlapAtMost(actions, ladder, host, n)
    ensures Clears(Exec(Initial(ladder), actions, ladder), host) <= n
  {
    ClearHolds(actions, ladder, host, n);
  }

  /** And as often as that, for every n, with any ladder or none. */
  lemma ClearBoundIsReached(ladder: seq<string>, host: string, n: nat) returns (actions: seq<Action>)
    ensures OverlapAtMost(actions, ladder, host, n)
    ensures Clears(Exec(Initial(ladder), actions, ladder), host) == n
  {
    hide Overlap, Clears;
    var s := Initial(ladder);
    NobodyYet(ladder, host, n);
    actions, s := Overclear([], ladder, host, n, s, n);
  }

  /** A host is cleared only on its first block, in every run in which at most n
    * requests for it overlap, if and only if n is at most 1. */
  lemma ClearsOnceIffSerial(ladder: seq<string>, host: string, n: nat)
    ensures (forall actions | OverlapAtMost(actions, ladder, host, n) ::
               Clears(Exec(Initial(ladder), actions, ladder), host) <= 1) <==> n <= 1
  {
    hide OverlapAtMost, Exec, Clears;
    if n <= 1 {
      forall actions | OverlapAtMost(actions, ladder, host, n) ensures Clears(Exec(Initial(ladder), actions, ladder), host) <= 1 {
        ClearsAreBounded(actions, ladder, host, n);
      }
    } else {
      var actions := ClearBoundIsReached(ladder, host, n);
    }
  }

  // ----- after the budget is spent -----

  lemma {:induction false} CountersNeverFall(s: Sys, more: seq<Action>, ladder: seq<string>, host: string)
    ensures Exec(s, more, ladder).Of(host).rotations >= s.Of(host).rotations
    ensures s.Of(host).l1Attempted ==> Exec(s, more, ladder).Of(host).l1Attempted
  {
    if more != [] {
      CountersNeverFall(s, more[..|more| - 1], ladder, host);
    }
  }

  /** Once a host's count reaches three, every block seen later, by a request
    * that arrived before or after, fails. */
  lemma SpentBudgetFails(s: Sys, more: seq<Action>, ladder: seq<string>, id: nat)
    requires var s' := Exec(s, more, ladder);
      At(s', id, Fetched) && s.Of(s'.reqs[id].host).rotations >= 3
    ensures At(Apply(Exec(s, more, ladder), ReadBudget(id, true), ladder), id, Finished(Failed))
  {
    CountersNeverFall(s, more, ladder, Exec(s, more, ladder).reqs[id].host);
  }

  // ----- hosts do not interfere -----

  function HostOf(s: Sys, a: Action): string {
    match a
    case Arrive(host) => host
    case _ => if a.id < |s.reqs| then s.reqs[a.id].host else ""
  }

  /** The places of the requests for one host, in arrival order. */
  function Places(reqs: seq<Req>, host: string): seq<Pc> {
    if reqs == [] then []
    else Places(reqs[..|reqs| - 1], host) + if reqs[|reqs| - 1].host == host then [reqs[|reqs| - 1].pc] else []
  }

  lemma {:induction false} PlacesOfOthers(reqs: seq<Req>, id: nat, pc: Pc, host: string)
    requires id < |reqs| && reqs[id].host != host
    ensures Places(reqs[id := reqs[id].(pc := pc)], host) == Places(reqs, host)
  {
    var last, after := |reqs| - 1, reqs[id := reqs[id].(pc := pc)];
    if id == last {
      assert after[..last] == reqs[..last];
    } else {
      PlacesOfOthers(reqs[..last], id, pc, host);
      assert after[..last] == reqs[..last][id := reqs[id].(pc := pc)];
    }
  }

  /** A step of a request for one host leaves another host's counter and its
    * requests exactly as they were. */
  lemma HostsAreIndependent(s: Sys, a: Action, ladder: seq<string>, host: string)
    requires HostOf(s, a) != host
    ensures var s' := Apply(s, a, ladder); s'.Of(host) == s.Of(host) && Places(s'.reqs, host) == Places(s.reqs, host)
  {
    match a {
      case Arrive(h) => assert (s.reqs + [Req(h, Fetched)])[..|s.reqs|] == s.reqs;
      case _ =>
        if a.id < |s.reqs| && Apply(s, a, ladder) != s {
          PlacesOfOthers(s.reqs, a.id, Apply(s, a, ladder).reqs[a.id].pc, host);
        }
    }
  }

  // ----- without a proxy -----

  ghost predicate NothingRecorded(s: Sys) {
    && (forall host | host in s.counters :: s.counters[host].rotations == 0)
    && (forall r | r in s.reqs :: !r.pc.Spawning? && r.pc != Recording && r.pc != Finished(Failed) && r.pc != Finished(Rotated))
  }

  /** Without a proxy, or with one that knows a single profile, nothing is ever
    * recorded, so no request ever fails. */
  lemma {:induction false} NoProxyNeverFails(actions: seq<Action>, ladder: seq<string>)
    requires |ladder| <= 1
    ensures var s := Exec(Initial(ladder), actions, ladder); NothingRecorded(s) && s.profile == Initial(ladder).profile
  {
    if actions != [] {
      var s, a := Exec(Initial(ladder), actions[..|actions| - 1], ladder), actions[|actions| - 1];
      NoProxyNeverFails(actions[..|actions| - 1], ladder);
      if !a.Arrive? && a.id < |s.reqs| {
        assert s.reqs[a.id] in s.reqs;
      }
    }
  }

  // ----- one request alone is `decide` -----

  /** Run without interruption, the budget read, the flag check and the flag
    * store are the decision function of the in-place counters. */
  lemma StepsRefineDecide(s: Sys, id: nat, ladder: seq<string>, signal: string, profileIdx: nat, totalProfiles: nat)
    requires At(s, id, Fetched) && totalProfiles > 0
    ensures var h := s.reqs[id].host;
      var (d, c) := Decided(Some(signal), s.Of(h), profileIdx, totalProfiles);
      var s' := Apply(Apply(Apply(s, ReadBudget(id, true), ladder), CheckL1(id), ladder), MarkL1(id), ladder);
      && s'.Of(h) == c
      && s'.reqs[id].pc == match d {
           case Fail(_, _) => Finished(Failed)
           case ClearAndRetry(_) => Finished(Retried)
           case Rotate(_, _) => Rotating
           case Accept => Finished(Accepted)
         }
  {
  }

  /** Run without interruption, the profile read and the respawn are `rotate`. */
  lemma StepsRefineRotate(s: Sys, id: nat, ladder: seq<string>, ready: bool)
    requires At(s, id, Rotating)
    ensures var s' := Apply(Apply(s, ReadProfile(id), ladder), Respawn(id, ready), ladder);
      && s'.profile == TlsProxy.Stepped(ladder, s.profile, ready)
      && s'.reqs[id].pc == (if ready && TlsProxy.NextAfter(ladder, s.profile).Some? then Recording else Finished(Unrotated))
      && s'.counters == s.counters
  {
  }
}
