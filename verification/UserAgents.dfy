/** The user-agent rotator: a random draw from the agents not drawn recently.
  * The random choice is a parameter, so the results hold for every generator. */
module UserAgents {

  /** The indices below n that are not in `recent`, in order. */
  function Available(n: nat, recent: seq<nat>): seq<nat> {
    if n == 0 then [] else Available(n - 1, recent) + if n - 1 in recent then [] else [n - 1]
  }

  lemma {:induction false} AvailableIsComplement(n: nat, recent: seq<nat>)
    ensures forall i: nat :: i in Available(n, recent) <==> i < n && i !in recent
  {
    if n > 0 {
      AvailableIsComplement(n - 1, recent);
    }
  }

  /** The random generator's pick, or index 0 when there is nothing to pick from. */
  function Choose(available: seq<nat>, choice: nat): nat {
    if available == [] then 0 else available[choice % |available|]
  }

  /** Every available agent can be picked. */
  lemma AnyCanBeChosen(available: seq<nat>, i: nat)
    requires i < |available|
    ensures Choose(available, i) == available[i]
  {
  }

  predicate NoRepeats(s: seq<nat>) {
    forall i, j | 0 <= i < j < |s| :: s[i] != s[j]
  }

  predicate Below(s: seq<nat>, n: nat) {
    forall i | 0 <= i < |s| :: s[i] < n
  }

  /** Each of 0 .. n-1 exactly once. */
  predicate IsPermutation(s: seq<nat>, n: nat) {
    |s| == n && NoRepeats(s) && Below(s, n)
  }

  function Indices(n: nat): set<nat> {
    if n == 0 then {} else Indices(n - 1) + {n - 1}
  }

  lemma {:induction false} IndicesCount(n: nat)
    ensures |Indices(n)| == n
    ensures forall i: nat :: i in Indices(n) <==> i < n
  {
    if n > 0 {
      IndicesCount(n - 1);
    }
  }

  function Elements(s: seq<nat>): set<nat> {
    set x | x in s
  }

  lemma {:induction false} ElementsCount(s: seq<nat>)
    requires NoRepeats(s)
    ensures |Elements(s)| == |s|
  {
    if s != [] {
      var last := |s| - 1;
      ElementsCount(s[..last]);
      assert s == s[..last] + [s[last]];
      assert Elements(s) == Elements(s[..last]) + {s[last]};
      assert s[last] !in s[..last];
    }
  }

  /** Pigeonhole: fewer than n distinct draws leave an index over, n leave none. */
  lemma Pigeonhole(s: seq<nat>, n: nat)
    requires NoRepeats(s) && Below(s, n)
    ensures |s| <= n
    ensures |s| < n ==> exists i: nat :: i < n && i !in s
    ensures |s| == n ==> forall i: nat | i < n :: i in s
  {
    IndicesCount(n);
    ElementsCount(s);
    var all, drawn := Indices(n), Elements(s);
    assert drawn <= all;
    assert all == drawn + (all - drawn);
    if |s| < n {
      var i :| i in all - drawn;
      assert i < n && i !in s;
    } else {
      assert all - drawn == {};
      forall i: nat | i < n ensures i in s {
        assert i in all;
      }
    }
  }

  // ----- the rotator -----

  class UserAgentRotator {
    var pool: seq<string>
    var recent: seq<nat>
    ghost var cycles: seq<seq<nat>>

    /** Finished cycles are permutations of the pool; the current one has no repeat. */
    ghost predicate Valid()
      reads this
    {
      IsFair(cycles, recent, |pool|)
    }

    /** Every index drawn so far, in order. */
    ghost function Draws(): seq<nat>
      reads this
    {
      Flatten(cycles) + recent
    }

    constructor WithPool(pool: seq<string>)
      ensures Valid() && this.pool == pool && Draws() == []
    {
      this.pool, recent, cycles := pool, [], [];
    }

    /** `next`; `choice` is the random generator's pick among the available agents. */
    method Next(choice: nat) returns (agent: string)
      requires Valid()
      modifies this`recent, this`cycles
      ensures Valid()
      ensures pool == [] ==> agent == "" && Draws() == old(Draws())
      ensures pool != [] ==> exists pick: nat :: pick < |pool| && agent == pool[pick] && Draws() == old(Draws()) + [pick]
    {
      if pool == [] {
        return "";
      }
      hide Flatten, IsFair, Available, Choose;
      if |recent| >= |pool| {
        CycleEnds(cycles, recent, |pool|);
        cycles := cycles + [recent];
        recent := [];
      }
      var available := Available(|pool|, recent);
      ChosenIsNew(cycles, recent, |pool|, choice);
      var pick := Choose(available, choice);
      PickStaysFair(cycles, recent, |pool|, pick);
      assert Flatten(cycles) + (recent + [pick]) == old(Draws()) + [pick];
      recent := recent + [pick];
      agent := pool[pick];
    }
  }

  ghost predicate IsFair(cycles: seq<seq<nat>>, recent: seq<nat>, n: nat) {
    && (forall c | c in cycles :: IsPermutation(c, n))
    && NoRepeats(recent) && Below(recent, n) && |recent| <= n
  }

  function Flatten(cycles: seq<seq<nat>>): seq<nat> {
    if cycles == [] then [] else Flatten(cycles[..|cycles| - 1]) + cycles[|cycles| - 1]
  }

  lemma FlattenAppends(cycles: seq<seq<nat>>, last: seq<nat>)
    ensures Flatten(cycles + [last]) == Flatten(cycles) + last
  {
    assert (cycles + [last])[..|cycles|] == cycles;
  }

  // ----- fairness -----

  /** A full `recent` is a finished cycle. */
  lemma CycleEnds(cycles: seq<seq<nat>>, recent: seq<nat>, n: nat)
    requires IsFair(cycles, recent, n) && |recent| >= n
    ensures IsFair(cycles + [recent], [], n) && Flatten(cycles + [recent]) == Flatten(cycles) + recent
  {
    FlattenAppends(cycles, recent);
  }

  /** Before that some agent is available, so the fallback to index 0 is not taken,
    * and the chosen one was not drawn in this cycle. */
  lemma ChosenIsNew(cycles: seq<seq<nat>>, recent: seq<nat>, n: nat, choice: nat)
    requires IsFair(cycles, recent, n) && |recent| < n
    ensures var available := Available(n, recent);
      available != [] && Choose(available, choice) < n && Choose(available, choice) !in recent
  {
    AvailableIsComplement(n, recent);
    Pigeonhole(recent, n);
    var available := Available(n, recent);
    assert Choose(available, choice) in available;
  }

  lemma PickStaysFair(cycles: seq<seq<nat>>, recent: seq<nat>, n: nat, pick: nat)
    requires IsFair(cycles, recent, n) && |recent| < n && pick < n && pick !in recent
    ensures IsFair(cycles, recent + [pick], n)
  {
  }

  /** How often i was drawn. */
  function Times(draws: seq<nat>, i: nat): nat {
    multiset(draws)[i]
  }

  lemma {:induction false} CountInDistinct(s: seq<nat>, i: nat)
    requires NoRepeats(s)
    ensures Times(s, i) == if i in s then 1 else 0
  {
    if s != [] {
      var last := |s| - 1;
      assert s == s[..last] + [s[last]];
      CountInDistinct(s[..last], i);
    }
  }

  /** b * n, by repeated addition. */
  function Offset(b: nat, n: nat): nat {
    if b == 0 then 0 else Offset(b - 1, n) + n
  }

  lemma {:induction false} OffsetIsProduct(b: nat, n: nat)
    ensures Offset(b, n) == b * n
  {
    if b > 0 {
      OffsetIsProduct(b - 1, n);
      assert b * n == (b - 1) * n + n;
    }
  }

  lemma {:induction false} OffsetGrows(b: nat, c: nat, n: nat)
    ensures b <= c ==> Offset(b, n) <= Offset(c, n)
    ensures b < c ==> Offset(b, n) + n <= Offset(c, n)
  {
    if b < c {
      OffsetGrows(b, c - 1, n);
    }
  }

  lemma {:induction false} CountInCycles(cycles: seq<seq<nat>>, n: nat, i: nat)
    requires forall c | c in cycles :: IsPermutation(c, n)
    ensures |Flatten(cycles)| == Offset(|cycles|, n)
    ensures i < n ==> Times(Flatten(cycles), i) == |cycles|
  {
    if cycles != [] {
      var before, last := cycles[..|cycles| - 1], cycles[|cycles| - 1];
      assert last in cycles && forall c | c in before :: c in cycles;
      CountInCycles(before, n, i);
      Pigeonhole(last, n);
      CountInDistinct(last, i);
    }
  }

  /** Between floor and ceiling, read off products. */
  lemma FloorOrCeiling(count: nat, m: nat, n: nat)
    requires m < Offset(count + 1, n) && (count > 0 ==> Offset(count - 1, n) < m) && n > 0
    ensures m / n <= count <= m / n + (if m % n == 0 then 0 else 1)
  {
    var d := m / n;
    OffsetIsProduct(d, n);
    assert m == Offset(d, n) + m % n;
    OffsetGrows(count + 1, d, n);
    if count > 0 {
      OffsetGrows(d + 1, count - 1, n);
    }
  }

  /** After any m draws from a pool of n agents each agent was drawn floor(m / n)
    * or ceiling(m / n) times. */
  lemma DrawsAreFair(cycles: seq<seq<nat>>, recent: seq<nat>, n: nat, i: nat)
    requires IsFair(cycles, recent, n) && i < n
    ensures var draws := Flatten(cycles) + recent; var m, count := |draws|, Times(draws, i);
      m / n <= count <= m / n + (if m % n == 0 then 0 else 1)
  {
    CountInCycles(cycles, n, i);
    CountInDistinct(recent, i);
    Pigeonhole(recent, n);
    var draws: seq<nat> := Flatten(cycles) + recent;
    var count := |cycles| + if i in recent then 1 else 0;
    assert Times(draws, i) == count;
    FloorOrCeiling(count, |draws|, n);
  }

  /** Each aligned block of n draws is a permutation of the pool. */
  lemma {:induction false} BlocksArePermutations(cycles: seq<seq<nat>>, recent: seq<nat>, n: nat, b: nat)
    requires IsFair(cycles, recent, n) && n > 0 && (b + 1) * n <= |Flatten(cycles) + recent|
    ensures 0 <= b * n <= (b + 1) * n
    ensures IsPermutation((Flatten(cycles) + recent)[b * n..(b + 1) * n], n)
  {
    OffsetIsProduct(b, n);
    OffsetIsProduct(b + 1, n);
    BlockAt(cycles, recent, n, b);
  }

  lemma SliceOfPrefix(a: seq<nat>, b: seq<nat>, lo: nat, hi: nat)
    requires lo <= hi <= |a|
    ensures (a + b)[lo..hi] == a[lo..hi]
  {
  }

  lemma SliceOfMiddle(a: seq<nat>, b: seq<nat>, c: seq<nat>)
    ensures (a + b + c)[|a|..|a| + |b|] == b
  {
  }

  lemma {:induction false} BlockAt(cycles: seq<seq<nat>>, recent: seq<nat>, n: nat, b: nat)
    requires IsFair(cycles, recent, n) && n > 0 && Offset(b + 1, n) <= |Flatten(cycles) + recent|
    ensures IsPermutation((Flatten(cycles) + recent)[Offset(b, n)..Offset(b + 1, n)], n)
  {
    var draws := Flatten(cycles);
    CountInCycles(cycles, n, 0);
    OffsetGrows(|cycles| + 1, b, n);
    if |cycles| <= b {
      OffsetGrows(|cycles|, b, n);
      SliceOfMiddle(draws, recent, []);
      assert draws + recent + [] == draws + recent;
    } else {
      hide IsPermutation, Below, NoRepeats;
      OffsetGrows(b + 1, |cycles|, n);
      SliceOfPrefix(draws, recent, Offset(b, n), Offset(b + 1, n));
      BlockInCycles(cycles, n, b);
    }
  }

  lemma {:induction false} BlockInCycles(cycles: seq<seq<nat>>, n: nat, b: nat)
    requires b < |cycles| && n > 0 && forall c | c in cycles :: IsPermutation(c, n)
    ensures Offset(b + 1, n) <= |Flatten(cycles)|
    ensures IsPermutation(Flatten(cycles)[Offset(b, n)..Offset(b + 1, n)], n)
  {
    var before, last := cycles[..|cycles| - 1], cycles[|cycles| - 1];
    assert last in cycles && |last| == n;
    CountInCycles(before, n, 0);
    hide IsPermutation;
    if b == |before| {
      SliceOfMiddle(Flatten(before), last, []);
      assert Flatten(before) + last + [] == Flatten(cycles);
    } else {
      BlockInCycles(before, n, b);
      SliceOfPrefix(Flatten(before), last, Offset(b, n), Offset(b + 1, n));
    }
  }
}
