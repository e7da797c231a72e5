/** The in-memory sliding-window rate limiter of internal/infrastructure/ratelimit, against
    the full history of the requests it has seen. */
module RateLimit {
  import opened Clock

  datatype Result = Result(allowed: bool, limit: int, remaining: int, resetAt: int)

  /** The timestamps after start, in order. */
  function Since(ts: seq<int>, start: int): (r: seq<int>)
    ensures |r| <= |ts|
  {
    if ts == [] then []
    else
      var last, front := ts[|ts| - 1], Since(ts[..|ts| - 1], start);
      if last > start then front + [last] else front
  }

  lemma {:induction false} SinceIn(ts: seq<int>, start: int)
    ensures forall t :: t in Since(ts, start) <==> t in ts && t > start
  {
    if ts != [] {
      SinceIn(ts[..|ts| - 1], start);
      assert ts == ts[..|ts| - 1] + [ts[|ts| - 1]];
    }
  }

  lemma SinceSnoc(ts: seq<int>, t: int, start: int)
    ensures Since(ts + [t], start) == if t > start then Since(ts, start) + [t] else Since(ts, start)
  {
    assert (ts + [t])[..|ts|] == ts;
  }

  lemma {:induction false} SinceTwice(ts: seq<int>, a: int, b: int)
    requires a <= b
    ensures Since(Since(ts, a), b) == Since(ts, b)
  {
    if ts != [] {
      var front, last := ts[..|ts| - 1], ts[|ts| - 1];
      SinceTwice(front, a, b);
      if last > a {
        SinceSnoc(Since(front, a), last, b);
      }
    }
  }

  /** A request: when it came, and the limit it was checked against. */
  datatype Call = Call(at: int, limit: int)

  datatype Attempt = Attempt(at: int, allowed: bool)

  // ---------- in memory ----------

  function Recent(ts: seq<int>, window: int, now: int): seq<int> {
    Since(ts, now - window)
  }

  function MemoryAllows(ts: seq<int>, window: int, c: Call): bool {
    |Recent(ts, window, c.at)| < c.limit
  }

  function MemoryAfter(ts: seq<int>, window: int, c: Call): seq<int> {
    if MemoryAllows(ts, window, c) then Recent(ts, window, c.at) + [c.at] else Recent(ts, window, c.at)
  }

  function Stored(requests: map<string, seq<int>>, key: string): seq<int> {
    if key in requests then requests[key] else []
  }

  class InMemoryLimiter {
    var requests: map<string, seq<int>>
    const window: int := MINUTE

    constructor ()
      ensures requests == map[] && window == 60 * 1_000_000_000
    {
      requests := map[];
    }

    method Allow(key: string, limit: int, now: int) returns (result: Result)
      modifies this
      ensures requests == old(requests)[key := MemoryAfter(Stored(old(requests), key), window, Call(now, limit))]
      ensures result.allowed == MemoryAllows(Stored(old(requests), key), window, Call(now, limit))
      ensures result.limit == limit && result.resetAt == now + window
      ensures result.remaining == if result.allowed then limit - |Stored(requests, key)| else 0
      ensures result.remaining >= 0
    {
      var windowStart := now - window;
      var timestamps := Stored(requests, key);
      var validTimestamps: seq<int> := [];
      for i := 0 to |timestamps|
        invariant validTimestamps == Since(timestamps[..i], windowStart) && requests == old(requests)
      {
        assert timestamps[..i + 1] == timestamps[..i] + [timestamps[i]];
        SinceSnoc(timestamps[..i], timestamps[i], windowStart);
        if timestamps[i] > windowStart {
          validTimestamps := validTimestamps + [timestamps[i]];
        }
      }
      assert timestamps[..|timestamps|] == timestamps;
      var count := |validTimestamps|;
      var allowed := count < limit;
      assert validTimestamps == Recent(timestamps, window, now);
      if allowed {
        validTimestamps := validTimestamps + [now];
      }
      requests := requests[key := validTimestamps];
      var remaining := limit - count - 1;
      if remaining < 0 {
        remaining := 0;
      }
      if !allowed {
        remaining := 0;
      }
      return Result(allowed, limit, remaining, now + window);
    }
  }

  predicate Ordered(calls: seq<Call>) {
    forall i, j :: 0 <= i < j < |calls| ==> calls[i].at <= calls[j].at
  }

  /** What the limiter keeps after a sequence of calls on one key. */
  function MemoryState(calls: seq<Call>, window: int): seq<int> {
    if calls == [] then [] else MemoryAfter(MemoryState(calls[..|calls| - 1], window), window, calls[|calls| - 1])
  }

  /** What it answered. */
  function MemoryHistory(calls: seq<Call>, window: int): (h: seq<Attempt>)
    ensures |h| == |calls|
    ensures forall i :: 0 <= i < |h| ==> h[i].at == calls[i].at
  {
    if calls == [] then []
    else
      var front, c := calls[..|calls| - 1], calls[|calls| - 1];
      MemoryHistory(front, window) + [Attempt(c.at, MemoryAllows(MemoryState(front, window), window, c))]
  }

  /** How many attempts the history admits in the window (lo, hi]. */
  function Admitted(h: seq<Attempt>, lo: int, hi: int): nat {
    if h == [] then 0
    else
      var last := h[|h| - 1];
      Admitted(h[..|h| - 1], lo, hi) + if last.allowed && lo < last.at <= hi then 1 else 0
  }

  lemma AdmittedSnoc(h: seq<Attempt>, a: Attempt, lo: int, hi: int)
    ensures Admitted(h + [a], lo, hi) == Admitted(h, lo, hi) + if a.allowed && lo < a.at <= hi then 1 else 0
  {
    assert (h + [a])[..|h|] == h;
  }

  /** A wider window admits no fewer. */
  lemma {:induction false} AdmittedWider(h: seq<Attempt>, lo: int, hi: int, lo': int, hi': int)
    requires forall i :: 0 <= i < |h| && lo < h[i].at <= hi ==> lo' < h[i].at <= hi'
    ensures Admitted(h, lo, hi) <= Admitted(h, lo', hi')
  {
    if h != [] {
      AdmittedWider(h[..|h| - 1], lo, hi, lo', hi');
    }
  }

  lemma AfterSince(kept: seq<int>, window: int, c: Call, start: int)
    ensures Since(MemoryAfter(kept, window, c), start) ==
            Since(Recent(kept, window, c.at), start) +
            if MemoryAllows(kept, window, c) && c.at > start then [c.at] else []
  {
    if MemoryAllows(kept, window, c) {
      SinceSnoc(Recent(kept, window, c.at), c.at, start);
    }
  }

  lemma KeptStep(kept: seq<int>, h: seq<Attempt>, window: int, c: Call, start: int, hi: int)
    requires |Since(kept, start)| == Admitted(h, start, hi) && c.at - window <= start && c.at <= hi
    ensures |Since(MemoryAfter(kept, window, c), start)| ==
            Admitted(h + [Attempt(c.at, MemoryAllows(kept, window, c))], start, hi)
  {
    SinceTwice(kept, c.at - window, start);
    AfterSince(kept, window, c, start);
    AdmittedSnoc(h, Attempt(c.at, MemoryAllows(kept, window, c)), start, hi);
  }

  lemma OrderedFront(calls: seq<Call>)
    requires Ordered(calls) && calls != []
    ensures var front := calls[..|calls| - 1];
            Ordered(front) && (front != [] ==> front[|front| - 1].at <= calls[|calls| - 1].at)
  {
  }

  /** Forgetting is invisible: for any window starting no earlier than the last pruning, the kept
      timestamps count what the full history admits. */
  lemma {:induction false} KeptIsHistory(calls: seq<Call>, window: int, start: int, hi: int)
    requires Ordered(calls)
    requires calls != [] ==> start >= calls[|calls| - 1].at - window && hi >= calls[|calls| - 1].at
    ensures |Since(MemoryState(calls, window), start)| == Admitted(MemoryHistory(calls, window), start, hi)
  {
    if calls != [] {
      var front, c := calls[..|calls| - 1], calls[|calls| - 1];
      var kept := MemoryState(front, window);
      OrderedFront(calls);
      KeptIsHistory(front, window, start, hi);
      KeptStep(kept, MemoryHistory(front, window), window, c, start, hi);
    }
  }

  /** The n-th answer is the one given on what the calls before it left. */
  lemma {:induction false} HistoryAt(calls: seq<Call>, window: int, n: nat)
    requires n < |calls|
    ensures MemoryHistory(calls, window)[..n] == MemoryHistory(calls[..n], window)
    ensures MemoryHistory(calls, window)[n].allowed == MemoryAllows(MemoryState(calls[..n], window), window, calls[n])
  {
    var front := calls[..|calls| - 1];
    if n < |front| {
      HistoryAt(front, window, n);
      assert front[..n] == calls[..n];
      assert MemoryHistory(calls, window)[..n] == MemoryHistory(front, window)[..n];
    } else {
      assert MemoryHistory(calls, window)[..n] == MemoryHistory(front, window);
    }
  }

  /** Every answer is the full-history one: a request is refused exactly when the window that
      ends with it has already admitted limit requests. */
  lemma DecidesByHistory(calls: seq<Call>, window: int, n: nat)
    requires Ordered(calls) && 0 <= window && n < |calls|
    ensures var h := MemoryHistory(calls, window);
            h[n].allowed <==> Admitted(h[..n], calls[n].at - window, calls[n].at) < calls[n].limit
  {
    HistoryAt(calls, window, n);
    KeptBefore(calls, window, n);
  }

  /** What is kept when the n-th call comes counts what its window has admitted. */
  lemma KeptBefore(calls: seq<Call>, window: int, n: nat)
    requires Ordered(calls) && 0 <= window && n < |calls|
    ensures var front, at := calls[..n], calls[n].at;
            |Since(MemoryState(front, window), at - window)| == Admitted(MemoryHistory(front, window), at - window, at)
  {
    var front := calls[..n];
    assert front != [] ==> front[|front| - 1] == calls[n - 1] && calls[n - 1].at <= calls[n].at;
    KeptIsHistory(front, window, calls[n].at - window, calls[n].at);
  }

  /** In h, a request is admitted only when its window has room. */
  predicate Lawful(h: seq<Attempt>, window: int, limit: int) {
    && (forall i, j :: 0 <= i < j < |h| ==> h[i].at <= h[j].at)
    && (forall i :: 0 <= i < |h| && h[i].allowed ==> Admitted(h[..i], h[i].at - window, h[i].at) < limit)
  }

  lemma LawfulFront(h: seq<Attempt>, window: int, limit: int)
    requires h != [] && Lawful(h, window, limit)
    ensures Lawful(h[..|h| - 1], window, limit)
  {
    var front := h[..|h| - 1];
    forall i | 0 <= i < |front| && front[i].allowed
      ensures Admitted(front[..i], front[i].at - window, front[i].at) < limit
    {
      assert front[..i] == h[..i];
    }
  }

  lemma {:induction false} LawfulIsBounded(h: seq<Attempt>, window: int, limit: nat, x: int)
    requires Lawful(h, window, limit) && 0 <= window
    ensures Admitted(h, x, x + window) <= limit
  {
    if h != [] {
      var front, a := h[..|h| - 1], h[|h| - 1];
      LawfulFront(h, window, limit);
      LawfulIsBounded(front, window, limit, x);
      OneMoreAdmitted(front, a, window, limit, x);
      assert h == front + [a];
    }
  }

  /** Every window of the configured length, wherever it is placed, holds at most limit
      admitted requests. */
  lemma EveryWindowIsBounded(calls: seq<Call>, window: int, limit: nat, x: int)
    requires Ordered(calls) && 0 <= window
    requires forall i :: 0 <= i < |calls| ==> calls[i].limit <= limit
    ensures Admitted(MemoryHistory(calls, window), x, x + window) <= limit
  {
    var h := MemoryHistory(calls, window);
    forall i | 0 <= i < |h| && h[i].allowed ensures Admitted(h[..i], h[i].at - window, h[i].at) < limit {
      DecidesByHistory(calls, window, i);
    }
    LawfulIsBounded(h, window, limit, x);
  }

  lemma OneMoreAdmitted(h: seq<Attempt>, a: Attempt, window: int, limit: nat, x: int)
    requires 0 <= window && Admitted(h, x, x + window) <= limit
    requires a.allowed ==> Admitted(h, a.at - window, a.at) < limit
    requires forall i :: 0 <= i < |h| ==> h[i].at <= a.at
    ensures Admitted(h + [a], x, x + window) <= limit
  {
    AdmittedSnoc(h, a, x, x + window);
    if a.allowed && x < a.at <= x + window {
      AdmittedWider(h, x, x + window, a.at - window, a.at);
    }
  }

  /** The half-open window the other way round, [x, x + window), is one of those. */
  lemma EveryLeftClosedWindowIsBounded(calls: seq<Call>, window: int, limit: nat, x: int)
    requires Ordered(calls) && 0 <= window
    requires forall i :: 0 <= i < |calls| ==> calls[i].limit <= limit
    ensures Admitted(MemoryHistory(calls, window), x - 1, x + window - 1) <= limit
  {
    EveryWindowIsBounded(calls, window, limit, x - 1);
  }

  // ---------- several keys ----------

  datatype KeyedCall = KeyedCall(key: string, call: Call)

  function MemoryTable(calls: seq<KeyedCall>, window: int): map<string, seq<int>> {
    if calls == [] then map[]
    else
      var table, c := MemoryTable(calls[..|calls| - 1], window), calls[|calls| - 1];
      table[c.key := MemoryAfter(Stored(table, c.key), window, c.call)]
  }

  function OnKey(calls: seq<KeyedCall>, key: string): seq<Call> {
    if calls == [] then []
    else OnKey(calls[..|calls| - 1], key) + if calls[|calls| - 1].key == key then [calls[|calls| - 1].call] else []
  }

  /** Keys do not affect each other: what is kept for a key is what its own calls leave. */
  lemma {:induction false} KeysAreIndependent(calls: seq<KeyedCall>, window: int, key: string)
    ensures Stored(MemoryTable(calls, window), key) == MemoryState(OnKey(calls, key), window)
  {
    if calls != [] {
      var front, c := calls[..|calls| - 1], calls[|calls| - 1];
      KeysAreIndependent(front, window, key);
      if c.key == key {
        var mine := OnKey(front, key);
        assert (mine + [c.call])[..|mine|] == mine;
      } else {
        assert OnKey(calls, key) == OnKey(front, key);
      }
    }
  }
}
