/** The TLS profile ladder: how the environment builds it, and how `rotate`
  * walks it. */
module TlsProxy {
  import opened Wrappers
  import opened Text

  const DEFAULT_PROFILES: seq<string> := ["chrome_120", "chrome_117", "chrome_107", "firefox_117", "safari_16_0"]

  // ----- building the ladder -----

  function SplitCommas(s: string): (pieces: seq<string>)
    ensures pieces != []
  {
    if s == "" then [""]
    else
      var rest := SplitCommas(s[1..]);
      if s[0] == ',' then [""] + rest else [[s[0]] + rest[0]] + rest[1..]
  }

  function TrimmedNonEmpty(pieces: seq<string>): seq<string> {
    if pieces == [] then []
    else (if Trim(pieces[0]) == "" then [] else [Trim(pieces[0])]) + TrimmedNonEmpty(pieces[1..])
  }

  /** The configured list, or the default one when it is unset or blank. */
  function BaseLadder(configured: Option<string>): (list: seq<string>)
    ensures list != []
  {
    var list := if configured.None? then [] else TrimmedNonEmpty(SplitCommas(configured.value));
    if list == [] then DEFAULT_PROFILES else list
  }

  /** Puts the initial profile first, unless it is there already. */
  function WithInitial(profile: string, list: seq<string>): seq<string> {
    if list == [] || list[0] != profile then [profile] + list else list
  }

  function FromEnv(profile: string, configured: Option<string>): seq<string> {
    WithInitial(profile, BaseLadder(configured))
  }

  // ----- how the configured list is read -----

  lemma {:induction false} SplitAtComma(a: string, b: string)
    ensures SplitCommas(a + "," + b) == SplitCommas(a) + SplitCommas(b)
  {
    var s := a + "," + b;
    if a == "" {
      assert s[1..] == b;
    } else {
      assert s[1..] == a[1..] + "," + b;
      SplitAtComma(a[1..], b);
      CommaPieces(a[0], SplitCommas(a[1..]), SplitCommas(b));
    }
  }

  lemma CommaPieces(c: char, a: seq<string>, b: seq<string>)
    requires a != []
    ensures [""] + (a + b) == ([""] + a) + b
    ensures [[c] + (a + b)[0]] + (a + b)[1..] == ([[c] + a[0]] + a[1..]) + b
  {
  }

  lemma {:induction false} TrimmedAppends(a: seq<string>, b: seq<string>)
    ensures TrimmedNonEmpty(a + b) == TrimmedNonEmpty(a) + TrimmedNonEmpty(b)
  {
    hide Trim;
    if a == [] {
      assert a + b == b;
    } else {
      assert (a + b)[1..] == a[1..] + b;
      TrimmedAppends(a[1..], b);
    }
  }

  lemma {:induction false} NoCommaNoSplit(s: string)
    requires ',' !in s
    ensures SplitCommas(s) == [s]
  {
    if s != "" {
      NoCommaNoSplit(s[1..]);
      assert [s[0]] + s[1..] == s;
    }
  }

  /** The configured list is read at its commas: each entry trimmed, blank ones left
    * out; and an empty result, like no list, gives the five default profiles. */
  lemma ListIsRead(a: string, b: string)
    ensures TrimmedNonEmpty(SplitCommas(a + "," + b)) == TrimmedNonEmpty(SplitCommas(a)) + TrimmedNonEmpty(SplitCommas(b))
    ensures ',' !in a ==> TrimmedNonEmpty(SplitCommas(a)) == if Trim(a) == "" then [] else [Trim(a)]
    ensures BaseLadder(Some(a)) ==
      if TrimmedNonEmpty(SplitCommas(a)) != [] then TrimmedNonEmpty(SplitCommas(a))
      else ["chrome_120", "chrome_117", "chrome_107", "firefox_117", "safari_16_0"]
    ensures BaseLadder(None) == ["chrome_120", "chrome_117", "chrome_107", "firefox_117", "safari_16_0"]
  {
    hide Trim;
    SplitAtComma(a, b);
    TrimmedAppends(SplitCommas(a), SplitCommas(b));
    if ',' !in a {
      NoCommaNoSplit(a);
      assert [a][1..] == [];
    }
  }

  predicate Distinct(list: seq<string>) {
    forall i, j | 0 <= i < j < |list| :: list[i] != list[j]
  }

  /** The prepend keeps a distinct list distinct exactly when the initial
    * profile heads it or does not occur in it. */
  lemma PrependKeepsDistinct(profile: string, list: seq<string>)
    ensures WithInitial(profile, list) != [] && WithInitial(profile, list)[0] == profile
    ensures Distinct(WithInitial(profile, list)) <==>
      Distinct(list) && ((list != [] && list[0] == profile) || profile !in list)
  {
    var ladder := WithInitial(profile, list);
    if list == [] || list[0] != profile {
      assert ladder == [profile] + list;
      assert forall i | 0 <= i < |list| :: list[i] == ladder[i + 1];
    }
  }

  // ----- walking it -----

  /** `skip_while(p != current).nth(1)`: the entry after the first occurrence. */
  function NextAfter(list: seq<string>, current: string): Option<string> {
    if list == [] then None
    else if list[0] == current then (if |list| > 1 then Some(list[1]) else None)
    else NextAfter(list[1..], current)
  }

  class Proxy {
    const profiles: seq<string>
    var currentProfile: string
    var childRunning: bool

    /** `spawn`, once the child is ready. */
    constructor (profiles: seq<string>, profile: string)
      ensures this.profiles == profiles && childRunning
      ensures currentProfile == if profiles == [] then profile else profiles[0]
    {
      this.profiles := profiles;
      currentProfile := if profiles == [] then profile else profiles[0];
      childRunning := true;
    }

    /** `rotate`; `ready` says whether the new child starts and becomes ready. */
    method Rotate(ready: bool) returns (r: Result<Option<string>, string>)
      modifies this`currentProfile, this`childRunning
      ensures var next := NextAfter(profiles, old(currentProfile));
        if next.None? then
          r == Ok(None) && currentProfile == old(currentProfile) && childRunning == old(childRunning)
        else if ready then
          r == Ok(next) && currentProfile == next.value && childRunning
        else
          r.Err? && currentProfile == old(currentProfile) && !childRunning
      ensures currentProfile == Stepped(profiles, old(currentProfile), ready)
    {
      var next := NextAfter(profiles, currentProfile);
      if next.None? {
        return Ok(None);
      }
      childRunning := false;
      if !ready {
        return Err("tls-impersonate-proxy did not become ready");
      }
      childRunning := true;
      currentProfile := next.value;
      return Ok(next);
    }

    method Kill()
      modifies this`childRunning
      ensures !childRunning
    {
      childRunning := false;
    }
  }

  /** The current profile after one `rotate` call. */
  function Stepped(list: seq<string>, current: string, ready: bool): string {
    match NextAfter(list, current)
    case None => current
    case Some(next) => if ready then next else current
  }

  /** The current profile after a sequence of `rotate` calls. */
  function AfterCalls(list: seq<string>, calls: seq<bool>): string
    requires list != []
  {
    if calls == [] then list[0]
    else Stepped(list, AfterCalls(list, calls[..|calls| - 1]), calls[|calls| - 1])
  }

  function Successes(calls: seq<bool>): nat {
    if calls == [] then 0 else Successes(calls[..|calls| - 1]) + if calls[|calls| - 1] then 1 else 0
  }

  /** A profile that is not on the ladder has no successor. */
  lemma {:induction false} NextAfterStranger(list: seq<string>, current: string)
    requires current !in list
    ensures NextAfter(list, current) == None
  {
    if list != [] {
      assert list[0] in list;
      NextAfterStranger(list[1..], current);
    }
  }

  lemma {:induction false} NextAfterFirst(list: seq<string>, i: nat)
    requires i < |list| && list[i] !in list[..i]
    ensures NextAfter(list, list[i]) == if i + 1 < |list| then Some(list[i + 1]) else None
  {
    if i > 0 {
      assert list[0] == list[..i][0];
      assert list[1..][..i - 1] == list[..i][1..];
      NextAfterFirst(list[1..], i - 1);
    }
  }

  /** Every profile but the last has a successor. */
  lemma {:induction false} NextAfterMember(list: seq<string>, i: nat)
    requires i + 1 < |list|
    ensures NextAfter(list, list[i]).Some?
    ensures i == 0 ==> NextAfter(list, list[i]) == Some(list[1])
  {
    if list[0] != list[i] {
      NextAfterMember(list[1..], i - 1);
    }
  }

  lemma DistinctIsFirst(list: seq<string>, i: nat)
    requires Distinct(list) && i < |list|
    ensures list[i] !in list[..i]
  {
  }

  /** On a distinct ladder each call that succeeds moves to the next profile,
    * failures lose no place, and the walk stops at the last profile: after exactly
    * |list| - 1 successes `rotate` reports exhaustion, and not before. */
  lemma {:induction false} DistinctLadderIsServedInOrder(list: seq<string>, calls: seq<bool>)
    requires list != [] && Distinct(list)
    ensures var n := Successes(calls); var i := if n < |list| then n else |list| - 1;
      && AfterCalls(list, calls) == list[i]
      && (NextAfter(list, AfterCalls(list, calls)) == None <==> n >= |list| - 1)
      && (n < |list| - 1 ==> NextAfter(list, AfterCalls(list, calls)) == Some(list[n + 1]))
  {
    var n := Successes(calls);
    var i := if n < |list| then n else |list| - 1;
    if calls != [] {
      DistinctLadderIsServedInOrder(list, calls[..|calls| - 1]);
    }
    DistinctIsFirst(list, i);
    NextAfterFirst(list, i);
  }

  // ----- a ladder with a repeat -----

  /** Entry j is the first that occurred before, first at i. */
  predicate FirstRepeat(list: seq<string>, i: nat, j: nat) {
    i < j < |list| && list[i] == list[j] && Distinct(list[..j])
  }

  lemma {:induction false} RepeatExists(list: seq<string>) returns (i: nat, j: nat)
    requires !Distinct(list)
    ensures FirstRepeat(list, i, j)
  {
    var last := |list| - 1;
    var before := list[..last];
    if Distinct(before) {
      j := last;
      var a, b :| 0 <= a < b < |list| && list[a] == list[b];
      assert forall x | 0 <= x < last :: before[x] == list[x];
      i := a;
    } else {
      i, j := RepeatExists(before);
      assert list[..j] == before[..j];
    }
  }

  /** The place of the k-th profile served: straight on to the repeat, then
    * round and round between its two occurrences. */
  function Place(i: nat, j: nat, k: nat): (p: nat)
    requires i < j
    ensures p < j
  {
    if k < j then k else Place(i, j, k - (j - i))
  }

  lemma {:induction false} PlaceAdvances(i: nat, j: nat, k: nat)
    requires i < j
    ensures Place(i, j, k + 1) == if Place(i, j, k) + 1 == j then i else Place(i, j, k) + 1
  {
    if k >= j {
      PlaceAdvances(i, j, k - (j - i));
    }
  }

  /** With a repeat the walk never ends, whatever fails in between, and never
    * serves an entry beyond the repeat that did not occur before it. */
  lemma {:induction false} RepeatedLadderNeverEnds(list: seq<string>, i: nat, j: nat, calls: seq<bool>)
    requires FirstRepeat(list, i, j)
    ensures AfterCalls(list, calls) == list[Place(i, j, Successes(calls))]
    ensures AfterCalls(list, calls) in list[..j]
    ensures NextAfter(list, AfterCalls(list, calls)).Some?
  {
    var k := Successes(calls);
    if calls != [] {
      RepeatedLadderNeverEnds(list, i, j, calls[..|calls| - 1]);
      var before := Successes(calls[..|calls| - 1]);
      PlaceAdvances(i, j, before);
      StepInLoop(list, i, j, Place(i, j, before));
    }
    PlaceAdvances(i, j, k);
    StepInLoop(list, i, j, Place(i, j, k));
    assert list[..j][Place(i, j, k)] == list[Place(i, j, k)];
  }

  lemma StepInLoop(list: seq<string>, i: nat, j: nat, p: nat)
    requires FirstRepeat(list, i, j) && p < j
    ensures NextAfter(list, list[p]) == Some(list[p + 1])
    ensures list[p + 1] == list[if p + 1 == j then i else p + 1]
  {
    forall q | 0 <= q < p ensures list[q] != list[p] {
      assert list[..j][q] != list[..j][p];
    }
    NextAfterFirst(list, p);
  }

  /** The ladder can be exhausted exactly when its profiles are distinct. */
  lemma ExhaustedIffDistinct(list: seq<string>)
    requires list != []
    ensures (exists calls :: NextAfter(list, AfterCalls(list, calls)).None?) <==> Distinct(list)
  {
    if Distinct(list) {
      var calls := AllSucceed(|list|);
      DistinctLadderIsServedInOrder(list, calls);
    } else {
      var i, j := RepeatExists(list);
      forall calls ensures NextAfter(list, AfterCalls(list, calls)).Some? {
        RepeatedLadderNeverEnds(list, i, j, calls);
      }
    }
  }

  lemma {:induction false} AllSucceed(n: nat) returns (calls: seq<bool>)
    ensures Successes(calls) == n
  {
    if n == 0 {
      calls := [];
    } else {
      calls := AllSucceed(n - 1);
      assert (calls + [true])[..|calls|] == calls;
      calls := calls + [true];
    }
  }

  // ----- the ladder the environment builds -----

  /** The ladder built from the environment can be exhausted exactly when the
    * configured list is distinct and the initial profile heads it or does not
    * occur in it. */
  lemma EnvLadderEndsIff(profile: string, configured: Option<string>)
    ensures var list, ladder := BaseLadder(configured), FromEnv(profile, configured);
      (exists calls :: NextAfter(ladder, AfterCalls(ladder, calls)).None?) <==>
        Distinct(list) && (list[0] == profile || profile !in list)
  {
    PrependKeepsDistinct(profile, BaseLadder(configured));
    ExhaustedIffDistinct(FromEnv(profile, configured));
  }

  /** There is nothing to rotate to from the start exactly when the list is the
    * initial profile alone. */
  lemma NoRotationIff(profile: string, configured: Option<string>)
    ensures NextAfter(FromEnv(profile, configured), profile).None? <==> BaseLadder(configured) == [profile]
  {
    var list, ladder := BaseLadder(configured), FromEnv(profile, configured);
    NextAfterFirst(ladder, 0);
    assert list[0] == profile && |list| == 1 ==> list == [profile];
  }

  /** An empty or blank list does not switch rotation off: it is the default ladder. */
  lemma BlankListStillRotates(profile: string, raw: string)
    requires TrimmedNonEmpty(SplitCommas(raw)) == []
    ensures FromEnv(profile, Some(raw)) == FromEnv(profile, None)
    ensures NextAfter(FromEnv(profile, Some(raw)), profile).Some?
  {
    NoRotationIff(profile, Some(raw));
  }

  lemma EmptyListIsBlank()
    ensures TrimmedNonEmpty(SplitCommas("")) == []
  {
    assert [""][1..] == [];
  }

  /** Starting on the second default profile, with no list configured, goes round
    * two profiles for ever and never reaches the other three. */
  lemma DefaultLadderCanCircle(calls: seq<bool>)
    ensures var ladder := FromEnv("chrome_117", None);
      NextAfter(ladder, AfterCalls(ladder, calls)).Some? && AfterCalls(ladder, calls) in ["chrome_117", "chrome_120"]
  {
    var ladder := FromEnv("chrome_117", None);
    assert ladder[..2] == ["chrome_117", "chrome_120"];
    assert FirstRepeat(ladder, 0, 2);
    RepeatedLadderNeverEnds(ladder, 0, 2, calls);
  }
}
