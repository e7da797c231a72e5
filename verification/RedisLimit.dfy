/** The Redis limiter of internal/infrastructure/ratelimit: five commands on a sorted set, what
    the set stands for, and how its answers compare with the in-memory limiter's. */
module RedisLimit {
  import opened Clock
  import opened RateLimit
  import opened Text

  // ---------- the sorted set ----------

  /** A sorted set whose members are their own scores: strictly increasing. */
  type Members = seq<int>

  predicate Increasing(ts: seq<int>) {
    forall i, j :: 0 <= i < j < |ts| ==> ts[i] < ts[j]
  }

  /** ZREMRANGEBYSCORE key lo hi */
  function ZRemRangeByScore(z: Members, lo: int, hi: int): Members {
    if z == [] then []
    else
      var last, front := z[|z| - 1], ZRemRangeByScore(z[..|z| - 1], lo, hi);
      if lo <= last <= hi then front else front + [last]
  }

  /** ZADD key x x */
  function ZAdd(z: Members, x: int): Members {
    if z == [] || z[|z| - 1] < x then z + [x]
    else if z[|z| - 1] == x then z
    else ZAdd(z[..|z| - 1], x) + [z[|z| - 1]]
  }

  /** ZPOPMIN key */
  function ZPopMin(z: Members): Members {
    if z == [] then [] else z[1..]
  }

  /** A key: its members, and the time at which EXPIRE removes it. */
  datatype Entry = Entry(members: Members, expiresAt: int)

  /** What a command at time now finds. */
  function Live(e: Entry, now: int): Members {
    if now >= e.expiresAt then [] else e.members
  }

  const ABSENT := Entry([], 0)

  function RedisCount(z: Members, window: int, now: int): nat {
    |ZRemRangeByScore(z, 0, now - window)|
  }

  /** What becomes of the commands of one call: the pipeline does not reach the server, or is
      carried out with its answer lost, or is answered, and then the ZPOPMIN that follows a
      refusal arrives or not. */
  datatype Fate = Unsent | Unanswered | Answered(pops: bool)

  predicate Refuses(z: Members, window: int, c: Call) {
    RedisCount(z, window, c.at) >= c.limit
  }

  /** The members after the pipeline, and after ZPOPMIN when the request is refused. */
  function RedisAfter(z: Members, window: int, c: Call, pops: bool): Members {
    var added := ZAdd(ZRemRangeByScore(z, 0, c.at - window), c.at);
    if Refuses(z, window, c) && pops then ZPopMin(added) else added
  }

  /** The entry after one call. */
  function RedisStep(e: Entry, window: int, c: Call, fate: Fate): Entry {
    if fate.Unsent? then e
    else Entry(RedisAfter(Live(e, c.at), window, c, fate.Answered? && fate.pops), c.at + window + SECOND)
  }

  function Found(keys: map<string, Entry>, key: string): Entry {
    if key in keys then keys[key] else ABSENT
  }

  class Limiter {
    /** The server's key space. */
    var keys: map<string, Entry>
    const window: int := MINUTE

    constructor ()
      ensures keys == map[] && window == 60 * 1_000_000_000
    {
      keys := map[];
    }

    /** The commands of the pipeline, in their order; the count is taken before the addition. */
    method Pipeline(key: string, now: int) returns (count: nat)
      modifies this
      ensures count == RedisCount(Live(Found(old(keys), key), now), window, now)
      ensures var pruned := ZRemRangeByScore(Live(Found(old(keys), key), now), 0, now - window);
              keys == old(keys)[key := Entry(ZAdd(pruned, now), now + window + SECOND)]
    {
      var windowStart := now - window;
      var members := Live(Found(keys, key), now);
      members := ZRemRangeByScore(members, 0, windowStart);
      keys := keys[key := Entry(members, Found(keys, key).expiresAt)];
      count := |members|;
      members := ZAdd(members, now);
      keys := keys[key := Entry(members, Found(keys, key).expiresAt)];
      keys := keys[key := Entry(members, now + window + SECOND)];
    }

    method PopOldest(key: string)
      requires key in keys
      modifies this
      ensures keys == old(keys)[key := old(keys)[key].(members := ZPopMin(old(keys)[key].members))]
    {
      keys := keys[key := keys[key].(members := ZPopMin(keys[key].members))];
    }

    /** None is the error of a failed pipeline; that of ZPOPMIN is ignored. */
    method Allow(key: string, limit: int, now: int, fate: Fate) returns (result: Option<Result>)
      modifies this
      ensures keys == if fate.Unsent? then old(keys)
                      else old(keys)[key := RedisStep(Found(old(keys), key), window, Call(now, limit), fate)]
      ensures result.Some? <==> fate.Answered?
      ensures result.Some? ==>
        var z, r := Live(Found(old(keys), key), now), result.value;
        && r.allowed == !Refuses(z, window, Call(now, limit))
        && r.remaining == (if r.allowed then limit - RedisCount(z, window, now) - 1 else 0)
        && r.limit == limit && r.resetAt == now + window && r.remaining >= 0
    {
      if fate.Unsent? {
        return None;
      }
      var count := Pipeline(key, now);
      if fate.Unanswered? {
        return None;
      }
      var remaining := limit - count - 1;
      if remaining < 0 {
        remaining := 0;
      }
      var answer := Result(count < limit, limit, remaining, now + window);
      if !answer.allowed {
        if fate.pops {
          PopOldest(key);
        }
        answer := answer.(remaining := 0);
      }
      return Some(answer);
    }
  }

  // ---------- what the sorted set stands for ----------

  predicate StrictlyOrdered(calls: seq<Call>) {
    && (forall i :: 0 <= i < |calls| ==> calls[i].at >= 0)
    && (forall i, j :: 0 <= i < j < |calls| ==> calls[i].at < calls[j].at)
  }

  predicate FixedLimit(calls: seq<Call>, limit: int) {
    forall i :: 0 <= i < |calls| ==> calls[i].limit == limit
  }

  /** The times of those of the first n calls that reached the server. */
  function Log(calls: seq<Call>, fates: seq<Fate>, n: nat): (ts: seq<int>)
    requires n <= |calls| == |fates|
  {
    if n == 0 then []
    else Log(calls, fates, n - 1) + if fates[n - 1].Unsent? then [] else [calls[n - 1].at]
  }

  /** The entries before, between and after the calls on one key. */
  predicate IsRedisRun(calls: seq<Call>, fates: seq<Fate>, window: int, entries: seq<Entry>) {
    && |entries| == |calls| + 1 && |fates| == |calls|
    && entries[0] == ABSENT
    && forall i :: 0 <= i < |calls| ==> IsRedisStep(calls, fates, window, entries, i)
  }

  predicate IsRedisStep(calls: seq<Call>, fates: seq<Fate>, window: int, entries: seq<Entry>, i: nat)
    requires i < |calls| == |fates| < |entries|
  {
    entries[i + 1] == RedisStep(entries[i], window, calls[i], fates[i])
  }

  /** No call fails and no ZPOPMIN is lost. */
  predicate Faultless(fates: seq<Fate>) {
    forall i :: 0 <= i < |fates| ==> fates[i] == Answered(true)
  }

  predicate RedisAllows(e: Entry, window: int, c: Call) {
    !Refuses(Live(e, c.at), window, c)
  }

  /** The last k elements, or all of them. */
  function Latest(s: seq<int>, k: nat): seq<int> {
    if |s| <= k then s else s[|s| - k..]
  }

  function Cap(limit: int): nat {
    if limit > 0 then limit else 0
  }

  lemma {:induction false} RemRangeIsSince(z: Members, hi: int)
    requires forall i :: 0 <= i < |z| ==> z[i] >= 0
    ensures ZRemRangeByScore(z, 0, hi) == Since(z, hi)
  {
    if z != [] {
      RemRangeIsSince(z[..|z| - 1], hi);
    }
  }

  /** ZADD puts a member in its place, once. */
  lemma {:induction false} AddedInOrder(z: Members, x: int)
    requires Increasing(z)
    ensures Increasing(ZAdd(z, x))
    ensures forall t :: t in ZAdd(z, x) <==> t in z || t == x
  {
    if z != [] && z[|z| - 1] > x {
      AddedInOrder(z[..|z| - 1], x);
      var added := ZAdd(z[..|z| - 1], x);
      forall i | 0 <= i < |added| ensures added[i] < z[|z| - 1] {
        assert added[i] in added;
      }
    }
  }

  /** Pruning the latest k of an increasing log gives the latest k of the pruned log. */
  lemma {:induction false} SinceLatest(s: seq<int>, k: nat, start: int)
    requires Increasing(s)
    ensures Since(Latest(s, k), start) == Latest(Since(s, start), k)
  {
    if s == [] || k == 0 {
      LatestNone(s);
      LatestNone(Since(s, start));
    } else {
      var front, last := s[..|s| - 1], s[|s| - 1];
      if last > start {
        SinceLatest(front, k - 1, start);
        SinceLatestKept(front, last, k, start, s);
      } else {
        AllOld(s, k, start);
      }
    }
  }

  lemma SinceLatestKept(front: seq<int>, last: int, k: nat, start: int, s: seq<int>)
    requires k > 0 && last > start && s == front + [last]
    requires Since(Latest(front, k - 1), start) == Latest(Since(front, start), k - 1)
    ensures Since(Latest(s, k), start) == Latest(Since(s, start), k)
  {
    LatestLast(front, last, k, s);
    SinceSnoc(Latest(front, k - 1), last, start);
    SinceSnoc(front, last, start);
    LatestLast(Since(front, start), last, k, Since(s, start));
  }

  lemma AllOld(s: seq<int>, k: nat, start: int)
    requires Increasing(s) && s != [] && s[|s| - 1] <= start
    ensures Since(s, start) == [] && Since(Latest(s, k), start) == []
  {
    NoneSince(s, start);
    NoneSince(Latest(s, k), start);
  }

  lemma LatestNone(s: seq<int>)
    ensures Latest(s, 0) == []
  {
  }

  lemma LatestLast(front: seq<int>, last: int, k: nat, s: seq<int>)
    requires k > 0 && s == front + [last]
    ensures Latest(s, k) == Latest(front, k - 1) + [last]
  {
  }

  lemma {:induction false} NoneSince(s: seq<int>, start: int)
    requires forall i :: 0 <= i < |s| ==> s[i] <= start
    ensures Since(s, start) == []
  {
    if s != [] {
      NoneSince(s[..|s| - 1], start);
    }
  }

  lemma {:induction false} SinceIncreasing(s: seq<int>, start: int)
    requires Increasing(s)
    ensures Increasing(Since(s, start))
  {
    if s != [] {
      var front := s[..|s| - 1];
      SinceIncreasing(front, start);
      SinceIn(front, start);
      forall i | 0 <= i < |Since(front, start)| ensures Since(front, start)[i] < s[|s| - 1] {
        assert Since(front, start)[i] in Since(front, start);
      }
    }
  }

  // ---------- the bounded set stands for an unbounded log ----------

  predicate Within(s: seq<int>, lo: int, hi: int) {
    forall i :: 0 <= i < |s| ==> lo <= s[i] <= hi
  }

  /** An entry that EXPIRE has removed would have been pruned to nothing anyway. */
  lemma ExpiryIsInvisible(e: Entry, window: int, now: int)
    requires Within(e.members, 0, e.expiresAt - window - SECOND)
    ensures ZRemRangeByScore(Live(e, now), 0, now - window) == Since(e.members, now - window)
  {
    RemRangeIsSince(Live(e, now), now - window);
    if now >= e.expiresAt {
      NoneSince(e.members, now - window);
    }
  }

  /** What one call makes of a pruned set. */
  function Recorded(kept: seq<int>, c: Call, pops: bool): seq<int> {
    if |kept| >= c.limit && pops then ZPopMin(kept + [c.at]) else kept + [c.at]
  }

  lemma StepOnPruned(e: Entry, window: int, c: Call, pops: bool, kept: seq<int>)
    requires kept == ZRemRangeByScore(Live(e, c.at), 0, c.at - window)
    requires forall t :: t in kept ==> t < c.at
    ensures RedisAllows(e, window, c) <==> |kept| < c.limit
    ensures RedisAfter(Live(e, c.at), window, c, pops) == Recorded(kept, c, pops)
  {
    assert kept != [] ==> kept[|kept| - 1] in kept;
  }

  /** The step on the members alone. */
  lemma StepOnMembers(e: Entry, window: int, c: Call, pops: bool, kept: seq<int>)
    requires Within(e.members, 0, e.expiresAt - window - SECOND) && Within(e.members, 0, c.at - 1)
    requires kept == Since(e.members, c.at - window)
    ensures RedisAllows(e, window, c) <==> |kept| < c.limit
    ensures RedisAfter(Live(e, c.at), window, c, pops) == Recorded(kept, c, pops)
  {
    ExpiryIsInvisible(e, window, c.at);
    SinceIn(e.members, c.at - window);
    StepOnPruned(e, window, c, pops, kept);
  }

  lemma LatestBounds(log: seq<int>, start: int, k: nat, hi: int)
    requires Within(log, 0, hi)
    ensures Within(Latest(Since(log, start), k), 0, hi)
  {
    SinceWithin(log, start, hi);
  }

  lemma RecordedLatest(all: seq<int>, k: nat, c: Call, pops: bool)
    requires k >= Cap(c.limit)
    ensures var k' := NextCapacity(|Latest(all, k)|, k, c, pops);
            k' >= Cap(c.limit) && Recorded(Latest(all, k), c, pops) == Latest(all + [c.at], k')
    ensures pops && k == Cap(c.limit) ==> NextCapacity(|Latest(all, k)|, k, c, pops) == k
  {
    LatestSize(all, k);
    if |Latest(all, k)| >= c.limit {
      LatestLast(all, c.at, k + 1, all + [c.at]);
      if pops {
        PopLatest(all + [c.at], k + 1);
        LatestSize(all + [c.at], k + 1);
      }
    }
  }

  lemma LatestSize(s: seq<int>, k: nat)
    ensures |Latest(s, k)| == if |s| <= k then |s| else k
    ensures |s| <= k ==> Latest(s, k) == s
  {
  }

  lemma PopLatest(s: seq<int>, k: nat)
    requires s != [] && k > 0
    ensures ZPopMin(Latest(s, k)) == Latest(s, |Latest(s, k)| - 1)
  {
    var n := |Latest(s, k)|;
    assert Latest(s, k) == s[|s| - n..];
    assert s[|s| - n..][1..] == s[|s| - (n - 1)..];
  }

  /** Pruning the latest attempts of an earlier window gives the latest of the new one. */
  lemma PrunedLatest(log: seq<int>, k: nat, a: int, b: int, members: seq<int>)
    requires Increasing(log) && a <= b && members == Latest(Since(log, a), k)
    ensures Since(members, b) == Latest(Since(log, b), k)
  {
    var all := Since(log, a);
    SinceIncreasing(log, a);
    SinceLatest(all, k, b);
    SinceTwice(log, a, b);
  }

  /** The set holds the latest attempts of its last one's window, up to k of them. */
  predicate HoldsLatest(e: Entry, log: seq<int>, window: int, k: nat) {
    if log == [] then e == ABSENT
    else
      var last := log[|log| - 1];
      e.expiresAt == last + window + SECOND && e.members == Latest(Since(log, last - window), k)
  }

  /** All attempts so far lie before t. */
  predicate Earlier(log: seq<int>, t: int) {
    Increasing(log) && Within(log, 0, t - 1) && 0 <= t
  }

  lemma HeldWithin(e: Entry, log: seq<int>, window: int, k: nat)
    requires log != [] && HoldsLatest(e, log, window, k) && Earlier(log, log[|log| - 1] + 1)
    ensures Within(e.members, 0, e.expiresAt - window - SECOND) && e.expiresAt == log[|log| - 1] + window + SECOND
  {
    LatestBounds(log, log[|log| - 1] - window, k, log[|log| - 1]);
  }

  lemma HeldPruned(e: Entry, log: seq<int>, window: int, k: nat, start: int)
    requires log != [] && HoldsLatest(e, log, window, k) && Increasing(log) && log[|log| - 1] - window <= start
    ensures Since(e.members, start) == Latest(Since(log, start), k)
  {
    var a := log[|log| - 1] - window;
    assert e.members == Latest(Since(log, a), k);
    PrunedLatest(log, k, a, start, e.members);
  }

  /** The next call finds the latest attempts of its own window. */
  lemma FoundByCall(e: Entry, log: seq<int>, window: int, k: nat, c: Call, pops: bool, kept: seq<int>)
    requires HoldsLatest(e, log, window, k) && Earlier(log, c.at) && 0 < window
    requires kept == Latest(Since(log, c.at - window), k)
    ensures RedisAllows(e, window, c) <==> |kept| < c.limit
    ensures RedisAfter(Live(e, c.at), window, c, pops) == Recorded(kept, c, pops)
  {
    if log == [] {
      StepOnPruned(ABSENT, window, c, pops, []);
    } else {
      HeldWithin(e, log, window, k);
      HeldPruned(e, log, window, k, c.at - window);
      StepOnMembers(e, window, c, pops, kept);
    }
  }

  lemma HoldsAfter(log: seq<int>, window: int, at: int, members: Members, k: nat)
    requires 0 < window && members == Latest(Since(log, at - window) + [at], k)
    ensures HoldsLatest(Entry(members, at + window + SECOND), log + [at], window, k)
  {
    SinceSnoc(log, at, at - window);
  }

  /** The capacity after a call: a refusal whose ZPOPMIN is lost lets the set grow. */
  function NextCapacity(held: nat, k: nat, c: Call, pops: bool): nat {
    if held < c.limit then k else if pops then held else k + 1
  }

  lemma SetStep(e: Entry, log: seq<int>, window: int, k: nat, c: Call, fate: Fate) returns (k': nat)
    requires HoldsLatest(e, log, window, k) && Earlier(log, c.at) && 0 < window && k >= Cap(c.limit) && !fate.Unsent?
    ensures k' >= Cap(c.limit) && (fate == Answered(true) && k == Cap(c.limit) ==> k' == k)
    ensures HoldsLatest(RedisStep(e, window, c, fate), log + [c.at], window, k')
  {
    var all, pops := Since(log, c.at - window), fate.Answered? && fate.pops;
    FoundByCall(e, log, window, k, c, pops, Latest(all, k));
    k' := NextCapacity(|Latest(all, k)|, k, c, pops);
    RecordedLatest(all, k, c, pops);
    HoldsAfter(log, window, c.at, Recorded(Latest(all, k), c, pops), k');
  }

  lemma CallStep(e: Entry, log: seq<int>, window: int, k: nat, c: Call, fate: Fate) returns (k': nat)
    requires HoldsLatest(e, log, window, k) && Earlier(log, c.at) && 0 < window && k >= Cap(c.limit)
    ensures k' >= Cap(c.limit) && (fate == Answered(true) && k == Cap(c.limit) ==> k' == k)
    ensures HoldsLatest(RedisStep(e, window, c, fate), if fate.Unsent? then log else log + [c.at], window, k')
  {
    if fate.Unsent? {
      k' := k;
    } else {
      k' := SetStep(e, log, window, k, c, fate);
    }
  }

  lemma StepOf(calls: seq<Call>, fates: seq<Fate>, window: int, entries: seq<Entry>, n: nat)
    requires IsRedisRun(calls, fates, window, entries) && 0 < n <= |calls|
    ensures entries[n] == RedisStep(entries[n - 1], window, calls[n - 1], fates[n - 1])
  {
    assert IsRedisStep(calls, fates, window, entries, n - 1);
  }

  lemma LogNext(calls: seq<Call>, fates: seq<Fate>, n: nat)
    requires 0 < n <= |calls| == |fates|
    ensures var log := Log(calls, fates, n - 1);
            Log(calls, fates, n) == if fates[n - 1].Unsent? then log else log + [calls[n - 1].at]
  {
    assert Log(calls, fates, n - 1) + [] == Log(calls, fates, n - 1);
  }

  lemma FaultlessFront(fates: seq<Fate>, n: nat)
    requires 0 < n <= |fates|
    ensures Faultless(fates[..n]) ==> Faultless(fates[..n - 1]) && fates[n - 1] == Answered(true)
  {
    assert fates[..n][..n - 1] == fates[..n - 1] && fates[..n][n - 1] == fates[n - 1];
  }

  lemma {:induction false} LogEarlier(calls: seq<Call>, fates: seq<Fate>, n: nat)
    requires StrictlyOrdered(calls) && |fates| == |calls| && n <= |calls|
    ensures Increasing(Log(calls, fates, n))
    ensures n > 0 ==> Within(Log(calls, fates, n), 0, calls[n - 1].at)
    ensures n < |calls| ==> Earlier(Log(calls, fates, n), calls[n].at)
  {
    if n > 0 {
      LogEarlier(calls, fates, n - 1);
    }
  }

  /** After any calls with strictly increasing times and one limit, whatever failed on the way,
      the sorted set holds the latest attempts of the window, refused ones included, up to some
      number not below limit; up to exactly limit if nothing failed. */
  lemma {:induction false} SetIsLatestAttempts(
      calls: seq<Call>, fates: seq<Fate>, window: int, limit: int, entries: seq<Entry>, n: nat) returns (k: nat)
    requires StrictlyOrdered(calls) && FixedLimit(calls, limit) && 0 < window
    requires IsRedisRun(calls, fates, window, entries) && n <= |calls|
    ensures k >= Cap(limit) && (Faultless(fates[..n]) ==> k == Cap(limit))
    ensures HoldsLatest(entries[n], Log(calls, fates, n), window, k)
  {
    if n == 0 {
      k := Cap(limit);
    } else {
      var before := SetIsLatestAttempts(calls, fates, window, limit, entries, n - 1);
      StepOf(calls, fates, window, entries, n);
      FaultlessFront(fates, n);
      LogEarlier(calls, fates, n - 1);
      k := CallStep(entries[n - 1], Log(calls, fates, n - 1), window, before, calls[n - 1], fates[n - 1]);
      LogNext(calls, fates, n);
    }
  }

  /** So, whatever failed on the way, a call is allowed exactly when fewer than limit attempts
      that reached the server, of any outcome, fall in the window before it. */
  lemma RedisDecidesByAttempts(calls: seq<Call>, fates: seq<Fate>, window: int, limit: int, entries: seq<Entry>, n: nat)
    requires StrictlyOrdered(calls) && FixedLimit(calls, limit) && 0 < window
    requires IsRedisRun(calls, fates, window, entries) && n < |calls|
    ensures RedisAllows(entries[n], window, calls[n]) <==> |Since(Log(calls, fates, n), calls[n].at - window)| < limit
  {
    var k := SetIsLatestAttempts(calls, fates, window, limit, entries, n);
    LogEarlier(calls, fates, n);
    AllowsByLog(entries[n], Log(calls, fates, n), window, k, calls[n]);
  }

  lemma AllowsByLog(e: Entry, log: seq<int>, window: int, k: nat, c: Call)
    requires HoldsLatest(e, log, window, k) && Earlier(log, c.at) && 0 < window && k >= Cap(c.limit)
    ensures RedisAllows(e, window, c) <==> |Since(log, c.at - window)| < c.limit
  {
    var all := Since(log, c.at - window);
    FoundByCall(e, log, window, k, c, true, Latest(all, k));
    LatestLength(all, k, c.limit);
  }

  lemma LatestLength(s: seq<int>, k: nat, limit: int)
    requires k >= Cap(limit)
    ensures |Latest(s, k)| < limit <==> |s| < limit
  {
  }

  // ---------- every window is bounded ----------

  /** What the calls were answered; a failed call admits nothing. */
  function RedisHistory(calls: seq<Call>, fates: seq<Fate>, window: int, entries: seq<Entry>): (h: seq<Attempt>)
    requires |calls| == |fates| < |entries|
    ensures |h| == |calls|
    ensures forall i :: 0 <= i < |h| ==>
      h[i] == Attempt(calls[i].at, fates[i].Answered? && RedisAllows(entries[i], window, calls[i]))
  {
    seq(|calls|, i requires 0 <= i < |calls| =>
      Attempt(calls[i].at, fates[i].Answered? && RedisAllows(entries[i], window, calls[i])))
  }

  /** What was admitted was logged. */
  lemma {:induction false} AdmittedIsLogged(calls: seq<Call>, fates: seq<Fate>, h: seq<Attempt>, n: nat, lo: int,
      hi: int)
    requires n <= |calls| == |fates| == |h|
    requires forall i :: 0 <= i < |h| ==> h[i].at == calls[i].at && (h[i].allowed ==> fates[i].Answered?)
    ensures Admitted(h[..n], lo, hi) <= |Since(Log(calls, fates, n), lo)|
  {
    if n > 0 {
      AdmittedIsLogged(calls, fates, h, n - 1, lo, hi);
      assert h[..n] == h[..n - 1] + [h[n - 1]];
      LogNext(calls, fates, n);
      OneMoreLogged(h[..n - 1], h[n - 1], Log(calls, fates, n - 1), fates[n - 1], lo, hi);
    }
  }

  lemma OneMoreLogged(h: seq<Attempt>, a: Attempt, log: seq<int>, fate: Fate, lo: int, hi: int)
    requires Admitted(h, lo, hi) <= |Since(log, lo)| && (a.allowed ==> fate.Answered?)
    ensures Admitted(h + [a], lo, hi) <= |Since(if fate.Unsent? then log else log + [a.at], lo)|
  {
    AdmittedSnoc(h, a, lo, hi);
    SinceSnoc(log, a.at, lo);
  }

  /** Every window of the configured length, wherever it is placed, holds at most limit allowed
      requests, however many calls fail and however many ZPOPMINs are lost. */
  lemma EveryRedisWindowIsBounded(calls: seq<Call>, fates: seq<Fate>, window: int, limit: nat, entries: seq<Entry>,
      x: int)
    requires StrictlyOrdered(calls) && FixedLimit(calls, limit) && 0 < window
    requires IsRedisRun(calls, fates, window, entries)
    ensures Admitted(RedisHistory(calls, fates, window, entries), x, x + window) <= limit
  {
    var h := RedisHistory(calls, fates, window, entries);
    forall i | 0 <= i < |h| && h[i].allowed ensures Admitted(h[..i], h[i].at - window, h[i].at) < limit {
      RedisDecidesByAttempts(calls, fates, window, limit, entries, i);
      AdmittedIsLogged(calls, fates, h, i, h[i].at - window, h[i].at);
    }
    LawfulIsBounded(h, window, limit, x);
  }

  // ---------- key expiry ----------

  /** A run on a server that never expires a key. */
  predicate IsUnexpiringRun(calls: seq<Call>, fates: seq<Fate>, window: int, sets: seq<Members>) {
    && |sets| == |calls| + 1 && |fates| == |calls|
    && sets[0] == []
    && forall i :: 0 <= i < |calls| ==> IsUnexpiringStep(calls, fates, window, sets, i)
  }

  predicate IsUnexpiringStep(calls: seq<Call>, fates: seq<Fate>, window: int, sets: seq<Members>, i: nat)
    requires i < |calls| == |fates| < |sets|
  {
    sets[i + 1] == if fates[i].Unsent? then sets[i]
                   else RedisAfter(sets[i], window, calls[i], fates[i].Answered? && fates[i].pops)
  }

  lemma PruneUnexpired(e: Entry, log: seq<int>, window: int, k: nat, now: int)
    requires HoldsLatest(e, log, window, k) && Earlier(log, now)
    ensures ZRemRangeByScore(Live(e, now), 0, now - window) == ZRemRangeByScore(e.members, 0, now - window)
  {
    if log != [] {
      HeldWithin(e, log, window, k);
      ExpiryIsInvisible(e, window, now);
      RemRangeIsSince(e.members, now - window);
    }
  }

  lemma PrunedAlike(
      calls: seq<Call>, fates: seq<Fate>, window: int, limit: int, entries: seq<Entry>, n: nat)
    requires StrictlyOrdered(calls) && FixedLimit(calls, limit) && 0 < window
    requires IsRedisRun(calls, fates, window, entries) && n < |calls|
    ensures var now := calls[n].at;
            ZRemRangeByScore(Live(entries[n], now), 0, now - window) ==
                ZRemRangeByScore(entries[n].members, 0, now - window)
  {
    var k := SetIsLatestAttempts(calls, fates, window, limit, entries, n);
    LogEarlier(calls, fates, n);
    PruneUnexpired(entries[n], Log(calls, fates, n), window, k, calls[n].at);
  }

  lemma {:induction false} SameMembers(
      calls: seq<Call>, fates: seq<Fate>, window: int, limit: int, entries: seq<Entry>, sets: seq<Members>, n: nat)
    requires StrictlyOrdered(calls) && FixedLimit(calls, limit) && 0 < window
    requires IsRedisRun(calls, fates, window, entries) && IsUnexpiringRun(calls, fates, window, sets) && n <= |calls|
    ensures sets[n] == entries[n].members
  {
    if n > 0 {
      SameMembers(calls, fates, window, limit, entries, sets, n - 1);
      PrunedAlike(calls, fates, window, limit, entries, n - 1);
      StepOf(calls, fates, window, entries, n);
      assert IsUnexpiringStep(calls, fates, window, sets, n - 1);
      SameStep(entries[n - 1], window, calls[n - 1], fates[n - 1]);
    }
  }

  lemma SameStep(e: Entry, window: int, c: Call, fate: Fate)
    requires ZRemRangeByScore(Live(e, c.at), 0, c.at - window) == ZRemRangeByScore(e.members, 0, c.at - window)
    ensures RedisStep(e, window, c, fate).members ==
            if fate.Unsent? then e.members else RedisAfter(e.members, window, c, fate.Answered? && fate.pops)
  {
  }

  /** Key expiry is never observable: a server that never expires a key holds the same members
      and gives the same answers throughout. */
  lemma ExpiryIsNeverObservable(
      calls: seq<Call>, fates: seq<Fate>, window: int, limit: int, entries: seq<Entry>, sets: seq<Members>, n: nat)
    requires StrictlyOrdered(calls) && FixedLimit(calls, limit) && 0 < window
    requires IsRedisRun(calls, fates, window, entries) && IsUnexpiringRun(calls, fates, window, sets) && n < |calls|
    ensures sets[n] == entries[n].members
    ensures RedisAllows(entries[n], window, calls[n]) <==> !Refuses(sets[n], window, calls[n])
  {
    SameMembers(calls, fates, window, limit, entries, sets, n);
    PrunedAlike(calls, fates, window, limit, entries, n);
  }

  // ---------- the Redis limiter is the stricter one ----------

  /** The stored states of the two limiters after the same calls. */
  predicate Related(memory: seq<int>, redis: Members, limit: int) {
    && Increasing(memory) && Increasing(redis)
    && (|redis| < limit ==> forall t :: t in memory ==> t in redis)
    && (redis != [] ==> forall t :: t in memory && t >= redis[0] ==> t in redis)
  }

  lemma {:induction false} SubsetIsShorter(a: seq<int>, b: seq<int>)
    requires Increasing(a) && forall t :: t in a ==> t in b
    ensures |a| <= |b|
  {
    if a != [] {
      var front, last := a[..|a| - 1], a[|a| - 1];
      assert last in a && last in b;
      var i :| 0 <= i < |b| && b[i] == last;
      var rest := b[..i] + b[i + 1..];
      forall t | t in front ensures t in rest {
        assert t in a && t in b;
        var j :| 0 <= j < |b| && b[j] == t;
        assert t in b[..i] || t in b[i + 1..];
      }
      SubsetIsShorter(front, rest);
    }
  }

  /** Once the Redis set has room, everything the memory limiter still counts is in it. */
  lemma PrunedRelated(memory: seq<int>, redis: Members, limit: int, start: int)
    requires Related(memory, redis, limit)
    ensures Related(Since(memory, start), Since(redis, start), limit)
  {
    SinceIn(memory, start);
    SinceIn(redis, start);
    SinceIncreasing(memory, start);
    SinceIncreasing(redis, start);
    var redis' := Since(redis, start);
    if redis != [] && redis[0] > start {
      SinceKeepsAll(redis, start);
    }
    assert redis != [] ==> redis[0] in redis;
    if redis' != [] {
      assert redis'[0] in redis';
      forall t | t in Since(memory, start) && t >= redis'[0] ensures t in redis' {
        assert redis'[0] in redis && redis[0] <= redis'[0];
      }
    }
  }

  lemma {:induction false} SinceKeepsAll(s: seq<int>, start: int)
    requires Increasing(s) && (s != [] ==> s[0] > start)
    ensures Since(s, start) == s
  {
    if s != [] {
      SinceKeepsAll(s[..|s| - 1], start);
    }
  }

  lemma SimulationStep(memory: seq<int>, redis: Members, window: int, c: Call, pops: bool)
    requires Related(memory, redis, c.limit) && 0 < window
    requires forall t :: t in memory || t in redis ==> t < c.at
    ensures var kept := Since(redis, c.at - window);
      && (|kept| < c.limit ==> MemoryAllows(memory, window, c))
      && Related(MemoryAfter(memory, window, c), Recorded(kept, c, pops), c.limit)
  {
    var start := c.at - window;
    var valid, kept := Since(memory, start), Since(redis, start);
    PrunedRelated(memory, redis, c.limit, start);
    SinceIn(memory, start);
    SinceIn(redis, start);
    if |kept| < c.limit {
      SubsetIsShorter(valid, kept);
    }
    RecordedRelated(valid, kept, c, pops, MemoryAllows(memory, window, c));
  }

  lemma RecordedRelated(valid: seq<int>, kept: seq<int>, c: Call, pops: bool, allowed: bool)
    requires Related(valid, kept, c.limit)
    requires forall t :: t in valid || t in kept ==> t < c.at
    requires |kept| < c.limit ==> allowed
    requires allowed ==> c.limit > 0
    ensures Related(if allowed then valid + [c.at] else valid, Recorded(kept, c, pops), c.limit)
  {
    var memory := if allowed then valid + [c.at] else valid;
    var added := kept + [c.at];
    assert forall i :: 0 <= i < |valid| ==> valid[i] in valid;
    assert forall i :: 0 <= i < |kept| ==> kept[i] in kept;
    if |kept| >= c.limit && pops && kept != [] {
      var redis := ZPopMin(added);
      assert redis == kept[1..] + [c.at];
      forall t | t in memory && t >= redis[0] ensures t in redis {
        if t != c.at {
          assert kept[0] < redis[0];
          var i :| 0 <= i < |kept| && kept[i] == t;
          assert i > 0 && redis[i - 1] == t;
        }
      }
    }
  }

  /** Related states, all of whose times lie before last. */
  predicate RelatedUpTo(memory: seq<int>, e: Entry, window: int, limit: int, last: int) {
    && Related(memory, e.members, limit)
    && Within(memory, 0, last) && Within(e.members, 0, last)
    && (e.members != [] ==> e.expiresAt == last + window + SECOND)
  }

  lemma RelatedStep(memory: seq<int>, e: Entry, window: int, last: int, c: Call, fate: Fate)
    requires RelatedUpTo(memory, e, window, c.limit, last) && 0 < window && last < c.at && 0 <= c.at && !fate.Unsent?
    ensures RedisAllows(e, window, c) ==> MemoryAllows(memory, window, c)
    ensures RelatedUpTo(MemoryAfter(memory, window, c), RedisStep(e, window, c, fate), window, c.limit, c.at)
  {
    var pops := fate.Answered? && fate.pops;
    StepOnMembers(e, window, c, pops, Since(e.members, c.at - window));
    SimulationStep(memory, e.members, window, c, pops);
    RecordedWithin(memory, e.members, window, last, c, pops);
  }

  lemma RecordedWithin(memory: seq<int>, redis: seq<int>, window: int, last: int, c: Call, pops: bool)
    requires Within(memory, 0, last) && Within(redis, 0, last) && last < c.at && 0 <= c.at
    ensures Within(MemoryAfter(memory, window, c), 0, c.at) &&
            Within(Recorded(Since(redis, c.at - window), c, pops), 0, c.at)
  {
    var valid, kept := Since(memory, c.at - window), Since(redis, c.at - window);
    SinceWithin(memory, c.at - window, last);
    SinceWithin(redis, c.at - window, last);
    AppendWithin(valid, last, c.at);
    AppendWithin(kept, last, c.at);
  }

  lemma AppendWithin(s: seq<int>, last: int, t: int)
    requires Within(s, 0, last) && last < t && 0 <= t
    ensures Within(s, 0, t) && Within(s + [t], 0, t) && Within(ZPopMin(s + [t]), 0, t)
  {
  }

  lemma SinceWithin(s: seq<int>, start: int, hi: int)
    requires Within(s, 0, hi)
    ensures Within(Since(s, start), 0, hi)
  {
    SinceIn(s, start);
    var all := Since(s, start);
    forall i | 0 <= i < |all| ensures 0 <= all[i] <= hi {
      assert all[i] in all;
    }
  }

  /** Every pipeline is carried out; answers and ZPOPMINs may be lost. */
  predicate AllReach(fates: seq<Fate>) {
    forall i :: 0 <= i < |fates| ==> !fates[i].Unsent?
  }

  lemma {:induction false} StatesRelated(
      calls: seq<Call>, fates: seq<Fate>, window: int, limit: int, entries: seq<Entry>, n: nat)
    requires StrictlyOrdered(calls) && FixedLimit(calls, limit) && 0 < window
    requires IsRedisRun(calls, fates, window, entries) && AllReach(fates) && n <= |calls|
    ensures RelatedUpTo(MemoryState(calls[..n], window), entries[n], window, limit,
                        if n == 0 then -1 else calls[n - 1].at)
  {
    if n > 0 {
      StatesRelated(calls, fates, window, limit, entries, n - 1);
      StepOf(calls, fates, window, entries, n);
      MemoryStateSnoc(calls, window, n - 1);
      var last := if n == 1 then -1 else calls[n - 2].at;
      RelatedStep(MemoryState(calls[..n - 1], window), entries[n - 1], window, last, calls[n - 1], fates[n - 1]);
    }
  }

  lemma MemoryStateSnoc(calls: seq<Call>, window: int, n: nat)
    requires n < |calls|
    ensures MemoryState(calls[..n + 1], window) == MemoryAfter(MemoryState(calls[..n], window), window, calls[n])
  {
    assert calls[..n + 1][..n] == calls[..n];
  }

  /** On the same calls, whatever the Redis limiter allows the in-memory limiter allows. */
  lemma RedisAllowedIsMemoryAllowed(
      calls: seq<Call>, fates: seq<Fate>, window: int, limit: int, entries: seq<Entry>, n: nat)
    requires StrictlyOrdered(calls) && FixedLimit(calls, limit) && 0 < window
    requires IsRedisRun(calls, fates, window, entries) && AllReach(fates) && n < |calls|
    ensures RedisAllows(entries[n], window, calls[n]) ==> MemoryHistory(calls, window)[n].allowed
  {
    StatesRelated(calls, fates, window, limit, entries, n);
    var last := if n == 0 then -1 else calls[n - 1].at;
    RelatedStep(MemoryState(calls[..n], window), entries[n], window, last, calls[n], fates[n]);
    HistoryAt(calls, window, n);
  }

  /** The two answer alike exactly when the window has room for one more attempt of any outcome,
      or is already full of admitted ones. */
  lemma AnswersAgreeIff(calls: seq<Call>, fates: seq<Fate>, window: int, limit: int, entries: seq<Entry>, n: nat)
    requires StrictlyOrdered(calls) && FixedLimit(calls, limit) && 0 < window
    requires IsRedisRun(calls, fates, window, entries) && AllReach(fates) && n < |calls|
    ensures var h, at := MemoryHistory(calls, window), calls[n].at;
      (RedisAllows(entries[n], window, calls[n]) <==> h[n].allowed) <==>
      (|Since(Log(calls, fates, n), at - window)| < limit || Admitted(h[..n], at - window, at) >= limit)
  {
    RedisDecidesByAttempts(calls, fates, window, limit, entries, n);
    DecidesByHistory(calls, window, n);
    RedisAllowedIsMemoryAllowed(calls, fates, window, limit, entries, n);
  }

  /** They do differ: with the code's window of a minute and a limit of 1, the refused request at
      41 seconds keeps the one at 71 seconds out of Redis, but not out of memory. */
  lemma MemoryAllowsMore(entries: seq<Entry>)
    requires IsRedisRun(ThreeCalls(), [Answered(true), Answered(true), Answered(true)], MINUTE, entries)
    ensures MemoryHistory(ThreeCalls(), MINUTE)[2].allowed
    ensures !RedisAllows(entries[2], MINUTE, ThreeCalls()[2])
  {
    var calls, fates := ThreeCalls(), [Answered(true), Answered(true), Answered(true)];
    var first, second, third := calls[0].at, calls[1].at, calls[2].at;
    RedisDecidesByAttempts(calls, fates, MINUTE, 1, entries, 2);
    assert Log(calls, fates, 1) == [] + [first] == [first];
    assert Log(calls, fates, 2) == [first] + [second];
    SinceSnoc([first], second, third - MINUTE);
    HistoryAt(calls, MINUTE, 2);
    MemoryStateSnoc(calls, MINUTE, 0);
    MemoryStateSnoc(calls, MINUTE, 1);
    OneSince(first, second - MINUTE);
    OneSince(first, third - MINUTE);
  }

  lemma OneSince(t: int, start: int)
    ensures Since([t], start) == if t > start then [t] else []
  {
    assert [] + [t] == [t];
    SinceSnoc([], t, start);
  }

  function ThreeCalls(): seq<Call> {
    [Call(1 * SECOND, 1), Call(41 * SECOND, 1), Call(71 * SECOND, 1)]
  }
}
