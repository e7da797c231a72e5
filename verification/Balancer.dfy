/** The round-robin balancer of internal/application/loadbalancer.go: a 64-bit counter that wraps. */
module Balancer {
  import opened Text

  const WRAP := 0x1_0000_0000_0000_0000

  newtype uint64 = x: int | 0 <= x < 0x1_0000_0000_0000_0000

  class RoundRobinBalancer {
    var counter: uint64

    constructor ()
      ensures counter == 0
    {
      counter := 0;
    }

    /** The index is taken from n - 1 in 64-bit arithmetic, where 0 - 1 is the largest value. */
    method Select<T>(instances: seq<T>) returns (selected: Option<T>)
      modifies this
      ensures instances == [] ==> selected == None && counter == old(counter)
      ensures instances != [] ==>
        && selected == Some(instances[old(counter) as int % |instances|])
        && counter as int == (old(counter) as int + 1) % 0x1_0000_0000_0000_0000
    {
      if |instances| == 0 {
        return None;
      }
      counter := if counter == 0xFFFF_FFFF_FFFF_FFFF then 0 else counter + 1;
      var n := counter;
      var before := if n == 0 then 0xFFFF_FFFF_FFFF_FFFF else n - 1;
      var idx := before as int % |instances|;
      return Some(instances[idx]);
    }

    /** What a caller gets who selects m times in a row. */
    method SelectEach<T>(instances: seq<T>, m: nat) returns (selected: seq<T>)
      requires instances != []
      modifies this
      ensures |selected| == m
      ensures forall i :: 0 <= i < m ==> selected[i] == instances[Pick(old(counter) as int, |instances|, i)]
      ensures counter as int == (old(counter) as int + m) % WRAP
    {
      selected := [];
      ghost var c := counter as int;
      CounterValue(c, 0, c);
      for i := 0 to m
        invariant counter as int == (c + i) % WRAP && |selected| == i
        invariant forall j :: 0 <= j < i ==> selected[j] == instances[Pick(c, |instances|, j)]
      {
        CounterNext(c, i);
        var next := Select(instances);
        assert next.value == instances[Pick(c, |instances|, i)];
        selected := selected + [next.value];
      }
    }
  }

  lemma CounterValue(c: nat, i: nat, value: nat)
    requires value < WRAP && value == c + i
    ensures (c + i) % WRAP == value
  {
    DivModUnique(value, WRAP, 0, value);
  }

  lemma CounterNext(c: nat, i: nat)
    ensures ((c + i) % WRAP + 1) % WRAP == (c + (i + 1)) % WRAP
  {
    var r := (c + i) % WRAP;
    DivModNext(c + i, WRAP);
    if r + 1 < WRAP {
      DivModUnique(r + 1, WRAP, 0, r + 1);
    } else {
      DivModUnique(WRAP, WRAP, 1, 0);
    }
  }

  lemma PickUnwrapped(c: nat, n: nat, i: nat)
    requires n > 0 && c + i < WRAP
    ensures Pick(c, n, i) == (c + i) % n
  {
    CounterValue(c, i, c + i);
  }

  /** The index picked by the i-th select from counter value c on, over a list of length n. */
  function Pick(c: nat, n: nat, i: nat): (k: nat)
    requires n > 0
    ensures k < n
  {
    ((c + i) % WRAP) % n
  }

  /** How often index k is picked in m selects. */
  function Count(c: nat, n: nat, m: nat, k: nat): nat
    requires n > 0
  {
    if m == 0 then 0 else Count(c, n, m - 1, k) + if Pick(c, n, m - 1) == k then 1 else 0
  }

  /** How many of 0 .. b - 1 leave remainder k. */
  function Below(b: nat, n: nat, k: nat): nat
    requires n > 0
  {
    b / n + if b % n > k then 1 else 0
  }

  lemma MulAtLeast(d: int, n: nat)
    ensures d >= 1 ==> d * n >= n
    ensures d <= -1 ==> d * n + n <= 0
  {
  }

  lemma DivModUnique(b: nat, n: nat, q: nat, r: nat)
    requires n > 0 && r < n && b == q * n + r
    ensures b / n == q && b % n == r
  {
    var d := b / n - q;
    assert d * n == (b / n) * n - q * n;
    MulAtLeast(d, n);
  }

  lemma DivModNext(b: nat, n: nat)
    requires n > 0
    ensures b % n + 1 < n ==> (b + 1) / n == b / n && (b + 1) % n == b % n + 1
    ensures b % n + 1 == n ==> (b + 1) / n == b / n + 1 && (b + 1) % n == 0
  {
    var q, r := b / n, b % n;
    if r + 1 < n {
      DivModUnique(b + 1, n, q, r + 1);
    } else {
      NextMultiple(b, n, q);
      DivModUnique(b + 1, n, q + 1, 0);
    }
  }

  lemma NextMultiple(b: nat, n: nat, q: nat)
    ensures (q + 1) * n == q * n + n
  {
  }

  lemma DivModRound(b: nat, n: nat)
    requires n > 0
    ensures (b + n) / n == b / n + 1 && (b + n) % n == b % n
  {
    NextMultiple(b, n, b / n);
    DivModUnique(b + n, n, b / n + 1, b % n);
  }

  lemma BelowNext(b: nat, n: nat, k: nat)
    requires n > 0 && k < n
    ensures Below(b + 1, n, k) == Below(b, n, k) + if b % n == k then 1 else 0
  {
    DivModNext(b, n);
  }

  /** Without a wrap, counting picks is counting remainders. */
  lemma {:induction false} CountIsBelow(c: nat, n: nat, m: nat, k: nat)
    requires n > 0 && k < n && c + m <= WRAP
    ensures Count(c, n, m, k) == Below(c + m, n, k) - Below(c, n, k)
  {
    if m == 0 {
      assert Below(c + 0, n, k) == Below(c, n, k);
    } else {
      CountIsBelow(c, n, m - 1, k);
      OneMorePick(c, n, m - 1, k);
    }
  }

  lemma OneMorePick(c: nat, n: nat, i: nat, k: nat)
    requires n > 0 && k < n && c + i < WRAP
    ensures Count(c, n, i + 1, k) - Count(c, n, i, k) == Below(c + (i + 1), n, k) - Below(c + i, n, k)
  {
    PickUnwrapped(c, n, i);
    BelowNext(c + i, n, k);
    assert c + i + 1 == c + (i + 1);
  }

  /** Any n consecutive selects without a wrap pick every index exactly once. */
  lemma FullRoundPicksEachOnce(c: nat, n: nat, k: nat)
    requires n > 0 && k < n && c + n <= WRAP
    ensures Count(c, n, n, k) == 1
  {
    CountIsBelow(c, n, n, k);
    DivModRound(c, n);
  }

  /** In any window without a wrap, two indices are picked equally often, up to one. */
  lemma WindowIsFair(c: nat, n: nat, m: nat, k: nat, j: nat)
    requires n > 0 && k < n && j < n && c + m <= WRAP
    ensures Count(c, n, m, k) <= Count(c, n, m, j) + 1
  {
    CountIsBelow(c, n, m, k);
    CountIsBelow(c, n, m, j);
  }

  lemma {:induction false} CountSplits(c: nat, n: nat, m: nat, m': nat, k: nat)
    requires n > 0 && c + m == WRAP
    ensures Count(c, n, m + m', k) == Count(c, n, m, k) + Count(0, n, m', k)
  {
    if m' > 0 {
      CountSplits(c, n, m, m' - 1, k);
      PickAfterWrap(c, n, m, m' - 1);
    }
  }

  lemma PickAfterWrap(c: nat, n: nat, m: nat, i: nat)
    requires n > 0 && c + m == WRAP
    ensures Pick(c, n, m + i) == Pick(0, n, i)
  {
    DivModRound(i, WRAP);
    assert c + (m + i) == i + WRAP;
  }

  /** In a window that crosses one wrap of the counter, up to two. */
  lemma WrappedWindowIsFair(c: nat, n: nat, m: nat, k: nat, j: nat)
    requires n > 0 && k < n && j < n && c < WRAP < c + m <= 2 * WRAP
    ensures Count(c, n, m, k) <= Count(c, n, m, j) + 2
  {
    var m1 := WRAP - c;
    CountSplits(c, n, m1, m - m1, k);
    CountSplits(c, n, m1, m - m1, j);
    WindowIsFair(c, n, m1, k, j);
    WindowIsFair(0, n, m - m1, k, j);
  }

  /** The wrap is seamless, the next index following the last, exactly when n divides 2^64. */
  lemma WrapIsSeamlessIff(n: nat)
    requires n > 0
    ensures Pick(WRAP - 1, n, 1) == (Pick(WRAP - 1, n, 0) + 1) % n <==> WRAP % n == 0
  {
    DivModNext(WRAP - 1, n);
    assert (WRAP - 1 + 1) % WRAP == 0 && (WRAP - 1 + 0) % WRAP == WRAP - 1;
    DivModUnique(0, n, 0, 0);
    var r := (WRAP - 1) % n;
    if r + 1 < n {
      DivModUnique(r + 1, n, 0, r + 1);
    } else {
      DivModUnique(n, n, 1, 0);
    }
  }

  /** The bound of two is reached: with three instances, the selects before and after the wrap
      both pick the first. */
  lemma WrapRepeatsIndex()
    ensures Count(WRAP - 1, 3, 2, 0) == 2 && Count(WRAP - 1, 3, 2, 1) == 0
  {
    FirstOfThree();
    assert Count(WRAP - 1, 3, 0, 0) == 0 && Count(WRAP - 1, 3, 0, 1) == 0;
    assert Count(WRAP - 1, 3, 1, 0) == 1 && Count(WRAP - 1, 3, 1, 1) == 0;
  }

  lemma FirstOfThree()
    ensures Pick(WRAP - 1, 3, 0) == 0 && Pick(WRAP - 1, 3, 1) == 0
  {
    CounterValue(WRAP - 1, 0, WRAP - 1);
    DivModUnique(WRAP - 1, 3, 0x5555_5555_5555_5555, 0);
    DivModUnique(WRAP, WRAP, 1, 0);
    DivModUnique(0, 3, 0, 0);
  }

  // ---------- concurrent callers ----------

  /** A select is one atomic increment, whose value the caller keeps, and later one use of it. */
  datatype Act = Increment(caller: nat) | Use(caller: nat)

  datatype Callers = Callers(counter: nat, holding: map<nat, nat>, used: multiset<nat>)

  predicate CanAct(s: Callers, a: Act) {
    match a
    case Increment(caller) => caller !in s.holding
    case Use(caller) => caller in s.holding
  }

  function AfterAct(s: Callers, a: Act, n: nat): Callers
    requires n > 0 && CanAct(s, a)
  {
    match a
    case Increment(caller) => s.(counter := s.counter + 1, holding := s.holding[caller := Pick(s.counter, n, 0)])
    case Use(caller) => s.(holding := s.holding - {caller}, used := s.used + multiset{s.holding[caller]})
  }

  /** The indices of the increments so far, each either used or still held. */
  predicate Accounted(s: Callers, c: nat, n: nat)
    requires n > 0
  {
    c <= s.counter && forall k: nat :: k < n ==> s.used[k] + |Holders(s, k)| == Count(c, n, s.counter - c, k)
  }

  function Holders(s: Callers, k: nat): set<nat> {
    set caller | caller in s.holding && s.holding[caller] == k
  }

  lemma IncrementAccounted(s: Callers, caller: nat, c: nat, n: nat, k: nat)
    requires n > 0 && k < n && caller !in s.holding && c <= s.counter
    requires s.used[k] + |Holders(s, k)| == Count(c, n, s.counter - c, k)
    ensures var s' := AfterAct(s, Increment(caller), n);
            s'.used[k] + |Holders(s', k)| == Count(c, n, s'.counter - c, k)
  {
    var s', p := AfterAct(s, Increment(caller), n), Pick(s.counter, n, 0);
    assert p == Pick(c, n, s.counter - c);
    assert Holders(s', k) == if p == k then Holders(s, k) + {caller} else Holders(s, k);
    assert s'.counter - c == (s.counter - c) + 1;
  }

  lemma UseAccounted(s: Callers, caller: nat, n: nat, k: nat)
    requires n > 0 && caller in s.holding
    ensures var s' := AfterAct(s, Use(caller), n);
            s'.used[k] + |Holders(s', k)| == s.used[k] + |Holders(s, k)|
  {
    var s' := AfterAct(s, Use(caller), n);
    assert Holders(s', k) == if s.holding[caller] == k then Holders(s, k) - {caller} else Holders(s, k);
  }

  lemma ActKeepsAccount(s: Callers, a: Act, c: nat, n: nat)
    requires n > 0 && CanAct(s, a) && Accounted(s, c, n)
    ensures Accounted(AfterAct(s, a, n), c, n)
  {
    forall k: nat | k < n
      ensures AfterAct(s, a, n).used[k] + |Holders(AfterAct(s, a, n), k)| ==
              Count(c, n, AfterAct(s, a, n).counter - c, k)
    {
      match a
      case Increment(caller) => IncrementAccounted(s, caller, c, n, k);
      case Use(caller) => UseAccounted(s, caller, n, k);
    }
  }

  /** Whatever the schedule, once nobody holds a value the picks used are those of the counter
      values passed: they depend on how many selects ran, not on how they interleaved. */
  lemma CountsIgnoreSchedule(states: seq<Callers>, acts: seq<Act>, c: nat, n: nat, k: nat)
    requires n > 0 && k < n && |states| == |acts| + 1
    requires states[0] == Callers(c, map[], multiset{})
    requires forall i :: 0 <= i < |acts| ==>
             CanAct(states[i], acts[i]) && states[i + 1] == AfterAct(states[i], acts[i], n)
    requires states[|acts|].holding == map[]
    ensures states[|acts|].counter >= c && states[|acts|].used[k] == Count(c, n, states[|acts|].counter - c, k)
  {
    for i := 0 to |acts|
      invariant Accounted(states[i], c, n)
    {
      ActKeepsAccount(states[i], acts[i], c, n);
    }
    assert Holders(states[|acts|], k) == {};
  }
}
