/** How stale the registry can be: time bounds over timed runs, with the cleanup ticker
    replaced by a bound on the gap between sweeps. */
module Staleness {
  import opened Clock
  import opened Filtering
  import opened RegistrySpec
  import opened Runs

  function Max(a: int, b: int): int {
    if a >= b then a else b
  }

  /** The ticker period of cleanupLoop: half the TTL, truncated toward zero, at least a second. */
  function CleanupInterval(ttl: int): int {
    Max(if ttl >= 0 then ttl / 2 else -(-ttl / 2), SECOND)
  }

  /** That is half the TTL, to the nanosecond below, from two seconds on, and else a second. */
  lemma IntervalSpelled(ttl: int)
    ensures ttl >= 2_000_000_000 ==> 2 * CleanupInterval(ttl) <= ttl <= 2 * CleanupInterval(ttl) + 1
    ensures ttl < 2_000_000_000 ==> CleanupInterval(ttl) == 1_000_000_000
  {
  }

  predicate ClockRuns(events: seq<Event>, t0: int) {
    && (forall i :: 0 <= i < |events| ==> t0 <= events[i].at)
    && (forall i, j :: 0 <= i <= j < |events| ==> events[i].at <= events[j].at)
  }

  /** No registration waits longer than delay between taking its timestamp and its commit. */
  predicate CommitsWithin(tr: Trace, delay: int)
    requires |tr.events| < |tr.states|
  {
    forall i :: 0 <= i < |tr.events| && tr.events[i].op.Finish? && tr.events[i].op.ticket in tr.states[i].pending ==>
      tr.events[i].at - tr.states[i].pending[tr.events[i].op.ticket].now <= delay
  }

  /** The time of the last sweep among the first n events; t0 if there was none. */
  function LastSweep(events: seq<Event>, n: nat, t0: int): int
    requires n <= |events|
  {
    if n == 0 then t0 else if events[n - 1].op.Cleanup? then events[n - 1].at else LastSweep(events, n - 1, t0)
  }

  lemma {:induction false} LastSweepBefore(events: seq<Event>, n: nat, t0: int, t: int)
    requires n <= |events| && t0 <= t && forall i :: 0 <= i < n ==> events[i].at <= t
    ensures LastSweep(events, n, t0) <= t
  {
    if n > 0 {
      LastSweepBefore(events, n - 1, t0, t);
    }
  }

  /** Measured from the last sweep, who may still be listed, and who may still be healthy. */
  predicate RecentEnough(instances: map<Id, Instance>, sweep: int, ttl: int, delay: int) {
    forall id :: id in instances ==>
      && sweep - instances[id].lastHeartbeat <= Max(ttl * 2, delay)
      && (instances[id].status == Healthy ==> sweep - instances[id].lastHeartbeat <= Max(ttl, delay))
  }

  lemma {:induction false} SweepKeepsRecent(cfg: Config, tr: Trace, n: nat, t0: int, delay: int)
    requires IsRun(cfg, tr) && ClockRuns(tr.events, t0) && CommitsWithin(tr, delay) && 0 <= delay
    requires n <= |tr.events|
    ensures RecentEnough(tr.states[n].st.instances, LastSweep(tr.events, n, t0), cfg.heartbeatTTL, delay)
  {
    if n > 0 {
      SweepKeepsRecent(cfg, tr, n - 1, t0, delay);
      RunKeepsInv(cfg, tr, n - 1);
      assert IsStep(tr, n - 1);
      LastSweepBefore(tr.events, n - 1, t0, tr.events[n - 1].at);
      RecentStep(tr.states[n - 1], tr.events[n - 1], LastSweep(tr.events, n - 1, t0), delay);
    }
  }

  lemma RecentStep(sys: Sys, e: Event, sweep: int, delay: int)
    requires Enabled(sys, e.op) && sweep <= e.at && 0 <= delay
    requires e.op.Finish? ==> e.at - sys.pending[e.op.ticket].now <= delay
    requires RecentEnough(sys.st.instances, sweep, sys.cfg.heartbeatTTL, delay)
    ensures RecentEnough(Next(sys, e).st.instances, if e.op.Cleanup? then e.at else sweep, sys.cfg.heartbeatTTL, delay)
  {
    if e.op.Cleanup? {
      var ttl := sys.cfg.heartbeatTTL;
      CleanupInstances(sys.st, ttl, e.at);
      var after := Next(sys, e).st.instances;
      forall id | id in after
        ensures e.at - after[id].lastHeartbeat <= ttl * 2
        ensures after[id].status == Healthy ==> e.at - after[id].lastHeartbeat <= ttl
      {
        assert after[id].(status := sys.st.instances[id].status) == sys.st.instances[id];
      }
    }
  }

  /** In every interleaving whose sweeps come at most gap apart and whose commits take at most
      delay: at any time, an instance listed as healthy had a heartbeat (or registered) within
      max(TTL, delay) + gap, and an instance registered at all within max(2 TTL, delay) + gap. */
  lemma StalenessBound(cfg: Config, tr: Trace, n: nat, t0: int, gap: int, delay: int, now: int, id: Id)
    requires IsRun(cfg, tr) && ClockRuns(tr.events, t0) && CommitsWithin(tr, delay) && 0 <= delay
    requires n <= |tr.events| && now - LastSweep(tr.events, n, t0) <= gap
    requires id in tr.states[n].st.instances
    ensures var inst := tr.states[n].st.instances[id];
      && now - inst.lastHeartbeat <= Max(cfg.heartbeatTTL * 2, delay) + gap
      && (inst.status == Healthy ==> now - inst.lastHeartbeat <= Max(cfg.heartbeatTTL, delay) + gap)
  {
    SweepKeepsRecent(cfg, tr, n, t0, delay);
  }

  lemma AtomicHasNoPending(cfg: Config, tr: Trace)
    requires IsRun(cfg, tr) && Atomic(tr.events)
    ensures CommitsWithin(tr, 0)
  {
  }

  /** With atomic registration and the ticker's own period as the gap: TTL and twice the TTL,
      plus one period. */
  lemma AtomicStalenessBound(cfg: Config, tr: Trace, n: nat, t0: int, now: int, id: Id)
    requires IsRun(cfg, tr) && Atomic(tr.events) && ClockRuns(tr.events, t0) && 0 <= cfg.heartbeatTTL
    requires n <= |tr.events| && now - LastSweep(tr.events, n, t0) <= CleanupInterval(cfg.heartbeatTTL)
    requires id in tr.states[n].st.instances
    ensures var inst := tr.states[n].st.instances[id]; var P := CleanupInterval(cfg.heartbeatTTL);
      && now - inst.lastHeartbeat <= cfg.heartbeatTTL * 2 + P
      && (inst.status == Healthy ==> now - inst.lastHeartbeat <= cfg.heartbeatTTL + P)
  {
    AtomicHasNoPending(cfg, tr);
    StalenessBound(cfg, tr, n, t0, CleanupInterval(cfg.heartbeatTTL), 0, now, id);
  }

  // ---------- an instance that keeps beating ----------

  /** The time of the last heartbeat for id among events i to j; first if there was none. */
  function LastBeat(events: seq<Event>, i: nat, j: nat, id: Id, first: int): int
    requires i <= j <= |events|
    decreases j
  {
    if j == i then first
    else if events[j - 1].op == Heartbeat(id) then events[j - 1].at
    else LastBeat(events, i, j - 1, id, first)
  }

  /** From i to j nobody deregisters id, and every sweep comes within bound of its last beat. */
  predicate KeepsBeating(events: seq<Event>, i: nat, j: nat, id: Id, first: int, bound: int)
    requires i <= j <= |events|
  {
    forall k :: i <= k < j ==> Spares(events[k], id, LastBeat(events, i, k, id, first), bound)
  }

  predicate Spares(e: Event, id: Id, last: int, bound: int) {
    e.op != Deregister(id) && (e.op.Cleanup? ==> e.at - last <= bound)
  }

  lemma KeepsBeatingSnoc(events: seq<Event>, i: nat, j: nat, id: Id, first: int, bound: int)
    requires i < j <= |events|
    ensures KeepsBeating(events, i, j, id, first, bound) <==>
            && KeepsBeating(events, i, j - 1, id, first, bound)
            && Spares(events[j - 1], id, LastBeat(events, i, j - 1, id, first), bound)
  {
  }

  lemma UntouchedByOthers(sys: Sys, e: Event, id: Id)
    requires Inv(sys) && Enabled(sys, e.op) && id in sys.st.instances
    requires e.op != Deregister(id) && e.op != Heartbeat(id) && !e.op.Cleanup?
    ensures id in Next(sys, e).st.instances && Next(sys, e).st.instances[id] == sys.st.instances[id]
  {
  }

  /** What one step does to an instance whose last beat was at last. */
  lemma InstanceStep(sys: Sys, e: Event, id: Id, last: int)
    requires Inv(sys) && Enabled(sys, e.op) && id in sys.st.instances && sys.st.instances[id].lastHeartbeat == last
    requires 0 <= sys.cfg.heartbeatTTL
    ensures var before, after, ttl := sys.st.instances[id], Next(sys, e).st.instances, sys.cfg.heartbeatTTL;
      var marked := before.status == Healthy && !Spares(e, id, last, ttl);
      && (id in after <==> Spares(e, id, last, ttl * 2))
      && (id in after ==> after[id].lastHeartbeat == if e.op == Heartbeat(id) then e.at else last)
      && (id in after ==> after[id].status == if marked then Unhealthy else before.status)
  {
    if e.op.Cleanup? {
      CleanupInstances(sys.st, sys.cfg.heartbeatTTL, e.at);
      var after := Next(sys, e).st.instances;
      if id in after {
        assert after[id].(status := sys.st.instances[id].status) == sys.st.instances[id];
      }
    } else if e.op != Heartbeat(id) && e.op != Deregister(id) {
      UntouchedByOthers(sys, e, id);
    }
  }

  lemma {:induction false} LogGrows(cfg: Config, tr: Trace, i: nat, j: nat, id: Id)
    requires IsRun(cfg, tr) && i <= j <= |tr.events| && id in tr.states[i].st.instances
    ensures id in tr.states[j].log
    decreases j
  {
    if i == j {
      RunKeepsInv(cfg, tr, i);
    } else {
      LogGrows(cfg, tr, i, j - 1, id);
      assert IsStep(tr, j - 1);
    }
  }

  /** In any interleaving, an instance stays registered exactly as long as nobody deregisters it
      and every sweep finds it within twice the TTL of its last beat; and as long as it does, the
      registry's record of its heartbeat is the last one sent. */
  lemma {:induction false} RegisteredIffBeating(cfg: Config, tr: Trace, i: nat, j: nat, id: Id)
    requires IsRun(cfg, tr) && i <= j <= |tr.events| && 0 <= cfg.heartbeatTTL && id in tr.states[i].st.instances
    ensures var first, instances := tr.states[i].st.instances[id].lastHeartbeat, tr.states[j].st.instances;
      && (id in instances <==> KeepsBeating(tr.events, i, j, id, first, cfg.heartbeatTTL * 2))
      && (id in instances ==> instances[id].lastHeartbeat == LastBeat(tr.events, i, j, id, first))
    decreases j
  {
    if i < j {
      var first := tr.states[i].st.instances[id].lastHeartbeat;
      RegisteredIffBeating(cfg, tr, i, j - 1, id);
      KeepsBeatingSnoc(tr.events, i, j, id, first, cfg.heartbeatTTL * 2);
      StepAt(cfg, tr, i, j, id);
      RegisteredStep(tr.states[j - 1], tr.events[j - 1], id, LastBeat(tr.events, i, j - 1, id, first));
    }
  }

  lemma StepAt(cfg: Config, tr: Trace, i: nat, j: nat, id: Id)
    requires IsRun(cfg, tr) && i < j <= |tr.events| && id in tr.states[i].st.instances
    ensures var sys, e := tr.states[j - 1], tr.events[j - 1];
            Inv(sys) && sys.cfg == cfg && Enabled(sys, e.op) && id in sys.log && tr.states[j] == Next(sys, e)
  {
    RunKeepsInv(cfg, tr, j - 1);
    LogGrows(cfg, tr, i, j - 1, id);
    assert IsStep(tr, j - 1);
  }

  lemma RegisteredStep(sys: Sys, e: Event, id: Id, last: int)
    requires Inv(sys) && Enabled(sys, e.op) && id in sys.log && 0 <= sys.cfg.heartbeatTTL
    requires id in sys.st.instances ==> sys.st.instances[id].lastHeartbeat == last
    ensures var after := Next(sys, e).st.instances;
      && (id in after <==> id in sys.st.instances && Spares(e, id, last, sys.cfg.heartbeatTTL * 2))
      && (id in after ==> after[id].lastHeartbeat == if e.op == Heartbeat(id) then e.at else last)
  {
    if id in sys.st.instances {
      InstanceStep(sys, e, id, last);
    } else {
      AbsentStep(sys, e, id);
    }
  }

  predicate IsHealthy(instances: map<Id, Instance>, id: Id) {
    id in instances && instances[id].status == Healthy
  }

  lemma HealthyStep(sys: Sys, e: Event, id: Id, last: int)
    requires Inv(sys) && Enabled(sys, e.op) && id in sys.log && 0 <= sys.cfg.heartbeatTTL
    requires id in sys.st.instances ==> sys.st.instances[id].lastHeartbeat == last
    ensures IsHealthy(Next(sys, e).st.instances, id) <==>
            IsHealthy(sys.st.instances, id) && Spares(e, id, last, sys.cfg.heartbeatTTL)
  {
    if id !in sys.st.instances {
      AbsentStep(sys, e, id);
    } else if sys.st.instances[id].status != Healthy {
      UnhealthyStep(sys, e, id);
    } else {
      InstanceStep(sys, e, id, last);
    }
  }

  /** A healthy instance stays registered and healthy exactly as long as nobody deregisters it
      and every sweep finds it within the TTL of its last beat. */
  lemma {:induction false} HealthyIffBeating(cfg: Config, tr: Trace, i: nat, j: nat, id: Id)
    requires IsRun(cfg, tr) && i <= j <= |tr.events| && 0 <= cfg.heartbeatTTL
    requires IsHealthy(tr.states[i].st.instances, id)
    ensures var first := tr.states[i].st.instances[id].lastHeartbeat;
            IsHealthy(tr.states[j].st.instances, id) <==> KeepsBeating(tr.events, i, j, id, first, cfg.heartbeatTTL)
    decreases j
  {
    if i < j {
      var first := tr.states[i].st.instances[id].lastHeartbeat;
      HealthyIffBeating(cfg, tr, i, j - 1, id);
      RegisteredIffBeating(cfg, tr, i, j - 1, id);
      KeepsBeatingSnoc(tr.events, i, j, id, first, cfg.heartbeatTTL);
      HealthyNext(cfg, tr, i, j, id, LastBeat(tr.events, i, j - 1, id, first));
    }
  }

  lemma HealthyNext(cfg: Config, tr: Trace, i: nat, j: nat, id: Id, last: int)
    requires IsRun(cfg, tr) && i < j <= |tr.events| && id in tr.states[i].st.instances && 0 <= cfg.heartbeatTTL
    requires var before := tr.states[j - 1].st.instances; id in before ==> before[id].lastHeartbeat == last
    ensures IsHealthy(tr.states[j].st.instances, id) <==>
            IsHealthy(tr.states[j - 1].st.instances, id) && Spares(tr.events[j - 1], id, last, cfg.heartbeatTTL)
  {
    StepAt(cfg, tr, i, j, id);
    HealthyStep(tr.states[j - 1], tr.events[j - 1], id, last);
  }

  /** So a beat that comes later than the TTL may come too late for good: if a sweep lies between,
      the instance is unhealthy from then on, though it is registered and its beat is recorded. */
  lemma LateBeatLeavesItUnhealthy(sys: Sys, id: Id, sweepAt: int, beatAt: int)
    requires Inv(sys) && id in sys.st.instances && sys.st.instances[id].status == Healthy
    requires var late := sweepAt - sys.st.instances[id].lastHeartbeat;
             0 <= sys.cfg.heartbeatTTL < late <= sys.cfg.heartbeatTTL * 2
    ensures var after := Next(Next(sys, Event(sweepAt, Cleanup)), Event(beatAt, Heartbeat(id))).st.instances;
            id in after && after[id].status == Unhealthy && after[id].lastHeartbeat == beatAt
  {
    var swept := MarkedStep(sys, Event(sweepAt, Cleanup), id);
    BeatStep(swept, Event(beatAt, Heartbeat(id)), id);
  }

  lemma MarkedStep(sys: Sys, e: Event, id: Id) returns (sys': Sys)
    requires Inv(sys) && e.op == Cleanup && id in sys.st.instances && sys.st.instances[id].status == Healthy
    requires 0 <= sys.cfg.heartbeatTTL < e.at - sys.st.instances[id].lastHeartbeat <= sys.cfg.heartbeatTTL * 2
    ensures sys' == Next(sys, e) && Inv(sys') && id in sys'.st.instances && sys'.st.instances[id].status == Unhealthy
  {
    sys' := Next(sys, e);
    InstanceStep(sys, e, id, sys.st.instances[id].lastHeartbeat);
    StepKeepsInv(sys, e);
  }

  lemma BeatStep(sys: Sys, e: Event, id: Id)
    requires Inv(sys) && e.op == Heartbeat(id) && id in sys.st.instances && 0 <= sys.cfg.heartbeatTTL
    ensures var after := Next(sys, e).st.instances;
            id in after && after[id] == sys.st.instances[id].(lastHeartbeat := e.at)
  {
    InstanceStep(sys, e, id, sys.st.instances[id].lastHeartbeat);
  }

  /** Heartbeats land at most ttl apart, the last one at most ttl before end. */
  predicate BeatsApart(events: seq<Event>, i: nat, j: nat, id: Id, first: int, ttl: int, end: int)
    requires i <= j <= |events|
  {
    && (forall k :: i <= k < j ==> events[k].op != Deregister(id) && events[k].at <= end)
    && (forall k :: i <= k < j && events[k].op == Heartbeat(id) ==>
       events[k].at - LastBeat(events, i, k, id, first) <= ttl)
    && end - LastBeat(events, i, j, id, first) <= ttl
  }

  /** On a clock that never runs back, that is enough for every sweep. */
  lemma {:induction false} BeatsApartIsKeepsBeating(events: seq<Event>, i: nat, j: nat, id: Id, first: int, ttl: int,
      end: int)
    requires i <= j <= |events|
    requires forall a, b :: 0 <= a <= b < |events| ==> events[a].at <= events[b].at
    requires BeatsApart(events, i, j, id, first, ttl, end)
    ensures KeepsBeating(events, i, j, id, first, ttl)
    decreases j
  {
    if i < j {
      var e := events[j - 1];
      assert events[j - 1].at <= end;
      assert e.op == Heartbeat(id) ==> e.at - LastBeat(events, i, j - 1, id, first) <= ttl;
      assert e.op != Heartbeat(id) ==> LastBeat(events, i, j, id, first) == LastBeat(events, i, j - 1, id, first);
      assert e.at - LastBeat(events, i, j - 1, id, first) <= ttl;
      BeatsApartIsKeepsBeating(events, i, j - 1, id, first, ttl, e.at);
      KeepsBeatingSnoc(events, i, j, id, first, ttl);
    }
  }

  // ---------- the status, and the rest of an instance ----------

  /** The k-th event is a sweep that finds the instance more than the TTL after its last beat. */
  predicate FindsLate(tr: Trace, k: nat, id: Id)
    requires k < |tr.events| < |tr.states|
  {
    && tr.events[k].op.Cleanup? && id in tr.states[k].st.instances
    && tr.events[k].at - tr.states[k].st.instances[id].lastHeartbeat > tr.states[k].cfg.heartbeatTTL
  }

  predicate FoundLate(tr: Trace, n: nat, id: Id)
    requires n <= |tr.events| < |tr.states|
  {
    exists k :: 0 <= k < n && FindsLate(tr, k, id)
  }

  predicate RightStatus(instances: map<Id, Instance>, id: Id, late: bool) {
    id in instances ==> instances[id].status == if late then Unhealthy else Healthy
  }

  /** In every state of every interleaving, an instance is healthy, or unhealthy, and the latter
      exactly when some sweep has found it more than the TTL after its last heartbeat. */
  lemma {:induction false} StatusInEveryRun(cfg: Config, tr: Trace, n: nat, id: Id)
    requires IsRun(cfg, tr) && n <= |tr.events| && 0 <= cfg.heartbeatTTL
    ensures id in tr.states[n].st.instances ==>
      tr.states[n].st.instances[id].status == if FoundLate(tr, n, id) then Unhealthy else Healthy
  {
    if n > 0 {
      StatusInEveryRun(cfg, tr, n - 1, id);
      RunKeepsInv(cfg, tr, n - 1);
      assert IsStep(tr, n - 1);
      if id !in tr.states[n - 1].log {
        NeverFound(cfg, tr, n, id);
      }
      FoundLateSnoc(tr, n, id);
      StatusStep(tr.states[n - 1], tr.events[n - 1], id, FoundLate(tr, n - 1, id));
    }
  }

  lemma FoundLateSnoc(tr: Trace, n: nat, id: Id)
    requires 0 < n <= |tr.events| < |tr.states|
    ensures FoundLate(tr, n, id) <==> FoundLate(tr, n - 1, id) || FindsLate(tr, n - 1, id)
  {
  }

  /** A sweep finds only what has been committed. */
  lemma NeverFound(cfg: Config, tr: Trace, n: nat, id: Id)
    requires IsRun(cfg, tr) && 0 < n <= |tr.events| && id !in tr.states[n - 1].log
    ensures !FoundLate(tr, n, id)
  {
    if k :| 0 <= k < n && FindsLate(tr, k, id) {
      LogGrows(cfg, tr, k, n - 1, id);
      assert false;
    }
  }

  lemma StatusStep(sys: Sys, e: Event, id: Id, late: bool)
    requires Inv(sys) && Enabled(sys, e.op) && 0 <= sys.cfg.heartbeatTTL && RightStatus(sys.st.instances, id, late)
    requires id !in sys.log ==> !late
    ensures var now := e.op.Cleanup? && id in sys.st.instances &&
                       e.at - sys.st.instances[id].lastHeartbeat > sys.cfg.heartbeatTTL;
            RightStatus(Next(sys, e).st.instances, id, late || now)
  {
    if id in sys.st.instances {
      InstanceStep(sys, e, id, sys.st.instances[id].lastHeartbeat);
    } else if id in sys.log {
      AbsentStep(sys, e, id);
    } else {
      NewInstanceStep(sys, e, id);
    }
  }

  /** An instance that appears is healthy. */
  lemma NewInstanceStep(sys: Sys, e: Event, id: Id)
    requires Inv(sys) && Enabled(sys, e.op) && id !in sys.st.instances
    ensures id in Next(sys, e).st.instances ==> Next(sys, e).st.instances[id].status == Healthy
  {
  }

  lemma DataStep(sys: Sys, e: Event, id: Id)
    requires Inv(sys) && Enabled(sys, e.op) && id in sys.st.instances && id in Next(sys, e).st.instances
    ensures var before, after := sys.st.instances[id], Next(sys, e).st.instances[id];
            after == before.(status := after.status, lastHeartbeat := after.lastHeartbeat)
  {
    if e.op.Cleanup? {
      CleanupInstances(sys.st, sys.cfg.heartbeatTTL, e.at);
      assert Next(sys, e).st.instances[id].(status := sys.st.instances[id].status) == sys.st.instances[id];
    }
  }

  /** Nothing but the status and the last heartbeat of an instance ever changes. */
  lemma {:induction false} DataIsKept(cfg: Config, tr: Trace, i: nat, j: nat, id: Id)
    requires IsRun(cfg, tr) && i <= j <= |tr.events| && id in tr.states[i].st.instances
    ensures id in tr.states[j].st.instances ==>
      var before, after := tr.states[i].st.instances[id], tr.states[j].st.instances[id];
      after == before.(status := after.status, lastHeartbeat := after.lastHeartbeat)
    decreases j
  {
    if i < j {
      DataIsKept(cfg, tr, i, j - 1, id);
      StepAt(cfg, tr, i, j, id);
      if id !in tr.states[j - 1].st.instances {
        AbsentStep(tr.states[j - 1], tr.events[j - 1], id);
      } else if id in tr.states[j].st.instances {
        DataStep(tr.states[j - 1], tr.events[j - 1], id);
      }
    }
  }

  // ---------- what never comes back ----------

  /** A committed id is never committed again, so an instance once gone stays gone. */
  lemma {:induction false} GoneStaysGone(cfg: Config, tr: Trace, i: nat, j: nat, id: Id)
    requires IsRun(cfg, tr) && i <= j <= |tr.events|
    requires id in tr.states[i].log && id !in tr.states[i].st.instances
    ensures id in tr.states[j].log && id !in tr.states[j].st.instances
    decreases j
  {
    if i < j {
      GoneStaysGone(cfg, tr, i, j - 1, id);
      RunKeepsInv(cfg, tr, j - 1);
      assert IsStep(tr, j - 1);
      AbsentStep(tr.states[j - 1], tr.events[j - 1], id);
    }
  }

  lemma AbsentStep(sys: Sys, e: Event, id: Id)
    requires Inv(sys) && Enabled(sys, e.op) && id in sys.log && id !in sys.st.instances
    ensures id in Next(sys, e).log && id !in Next(sys, e).st.instances
  {
  }

  lemma UnhealthyStep(sys: Sys, e: Event, id: Id)
    requires Inv(sys) && Enabled(sys, e.op) && id in sys.st.instances && sys.st.instances[id].status != Healthy
    ensures id in Next(sys, e).log
    ensures id in Next(sys, e).st.instances ==> Next(sys, e).st.instances[id].status != Healthy
  {
  }

  /** No operation makes an instance healthy again: once marked, it stays unhealthy for as long
      as it is registered, however often it beats. */
  lemma {:induction false} NeverHealthyAgain(cfg: Config, tr: Trace, i: nat, j: nat, id: Id)
    requires IsRun(cfg, tr) && i <= j <= |tr.events|
    requires id in tr.states[i].st.instances && tr.states[i].st.instances[id].status != Healthy
    ensures id in tr.states[j].st.instances ==> tr.states[j].st.instances[id].status != Healthy
    ensures id in tr.states[j].log
    decreases j
  {
    RunKeepsInv(cfg, tr, i);
    if i < j {
      NeverHealthyAgain(cfg, tr, i, j - 1, id);
      RunKeepsInv(cfg, tr, j - 1);
      assert IsStep(tr, j - 1);
      if id in tr.states[j - 1].st.instances {
        UnhealthyStep(tr.states[j - 1], tr.events[j - 1], id);
      } else {
        AbsentStep(tr.states[j - 1], tr.events[j - 1], id);
      }
    }
  }
}
