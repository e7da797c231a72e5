/** Whole runs of the registry. Register is taken both as one step and in the two halves it
    really has: validation under the read lock, then a commit under the write lock, with any
    other operations in between. */
module Runs {
  import opened Filtering
  import opened RegistrySpec

  datatype Op =
    | Begin(ticket: nat, id: Id, req: Request)
    | Finish(ticket: nat)
    | Register(id: Id, req: Request)
    | Deregister(id: Id)
    | Heartbeat(id: Id)
    | Cleanup

  datatype Event = Event(at: int, op: Op)

  /** A validated request that has its id and its timestamp, and waits for the write lock. */
  datatype Pending = Pending(id: Id, req: Request, now: int)

  datatype Sys = Sys(cfg: Config, st: State, log: seq<Id>, pending: map<nat, Pending>)

  function Start(cfg: Config): Sys {
    Sys(cfg, EMPTY, [], map[])
  }

  /** An id no instance ever had and no pending registration holds. */
  predicate Fresh(sys: Sys, id: Id) {
    id !in sys.log && forall t :: t in sys.pending ==> sys.pending[t].id != id
  }

  predicate Enabled(sys: Sys, op: Op) {
    match op
    case Begin(ticket, id, _) => ticket !in sys.pending && Fresh(sys, id)
    case Finish(ticket) => ticket in sys.pending
    case Register(id, _) => Fresh(sys, id)
    case _ => true
  }

  predicate Admits(sys: Sys, req: Request) {
    Validate(req).None? && Accepted(sys.cfg, sys.st.routes, req)
  }

  function Committed(sys: Sys, p: Pending): Sys {
    sys.(st := Commit(sys.st, p.id, p.req, p.now), log := sys.log + [p.id])
  }

  function Next(sys: Sys, e: Event): Sys
    requires Enabled(sys, e.op)
  {
    match e.op
    case Begin(ticket, id, req) =>
      if Admits(sys, req) then sys.(pending := sys.pending[ticket := Pending(id, req, e.at)]) else sys
    case Finish(ticket) =>
      Committed(sys.(pending := sys.pending - {ticket}), sys.pending[ticket])
    case Register(id, req) =>
      if Admits(sys, req) then Committed(sys, Pending(id, req, e.at)) else sys
    case Deregister(id) =>
      if id in sys.st.instances then sys.(st := Remove(sys.st, {id})) else sys
    case Heartbeat(id) =>
      sys.(st := Beat(sys.st, id, e.at))
    case Cleanup =>
      sys.(st := RegistrySpec.Cleanup(sys.st, sys.cfg.heartbeatTTL, e.at))
  }

  /** A run: the events, and the states before, between and after them. */
  datatype Trace = Trace(states: seq<Sys>, events: seq<Event>)

  predicate IsRun(cfg: Config, tr: Trace) {
    && |tr.states| == |tr.events| + 1
    && tr.states[0] == Start(cfg)
    && forall i :: 0 <= i < |tr.events| ==> IsStep(tr, i)
  }

  predicate IsStep(tr: Trace, i: nat)
    requires i < |tr.events| < |tr.states|
  {
    Enabled(tr.states[i], tr.events[i].op) && tr.states[i + 1] == Next(tr.states[i], tr.events[i])
  }

  predicate Atomic(events: seq<Event>) {
    forall i :: 0 <= i < |events| ==> !events[i].op.Begin? && !events[i].op.Finish?
  }

  // ---------- the invariant of every interleaving ----------

  ghost predicate Inv(sys: Sys) {
    && Consistent(sys.log, sys.st)
    && (forall t :: t in sys.pending ==> sys.pending[t].id !in sys.log)
    && (forall t, t' :: t in sys.pending && t' in sys.pending && t != t' ==> sys.pending[t].id != sys.pending[t'].id)
  }

  lemma StepKeepsInv(sys: Sys, e: Event)
    requires Inv(sys) && Enabled(sys, e.op)
    ensures Inv(Next(sys, e))
  {
    match e.op
    case Begin(_, _, _) =>
    case Finish(ticket) =>
      var p := sys.pending[ticket];
      CommitConsistent(sys.log, sys.st, p.id, p.req, p.now);
    case Register(id, req) =>
      CommitConsistent(sys.log, sys.st, id, req, e.at);
    case Deregister(id) =>
      RemoveConsistent(sys.log, sys.st, {id});
    case Heartbeat(id) =>
      BeatConsistent(sys.log, sys.st, id, e.at);
    case Cleanup =>
      CleanupConsistent(sys.log, sys.st, sys.cfg.heartbeatTTL, e.at);
  }

  lemma {:induction false} RunKeepsInv(cfg: Config, tr: Trace, n: nat)
    requires IsRun(cfg, tr) && n <= |tr.events|
    ensures Inv(tr.states[n]) && tr.states[n].cfg == cfg
  {
    if n == 0 {
      assert Indexed([], EMPTY);
    } else {
      RunKeepsInv(cfg, tr, n - 1);
      assert IsStep(tr, n - 1);
      StepKeepsInv(tr.states[n - 1], tr.events[n - 1]);
    }
  }

  /** In every interleaving of the two-phase Register with the other operations, the services
      map is the index of the instances: what a service's entry holds is the commit order cut
      down to its instances, with no duplicate and no entry empty, and no route dangles. */
  lemma IndexInEveryRun(cfg: Config, tr: Trace, n: nat)
    requires IsRun(cfg, tr) && n <= |tr.events|
    ensures var sys := tr.states[n];
      && (forall s :: IdsOf(sys.st.services, s) == Filter(sys.log, Members(sys.st.instances, s)))
      && (forall s :: s in sys.st.services <==> Members(sys.st.instances, s) != {})
      && (forall s :: NoDup(IdsOf(sys.st.services, s)))
      && (forall k :: k in sys.st.routes ==> Members(sys.st.instances, sys.st.routes[k].serviceName) != {})
  {
    RunKeepsInv(cfg, tr, n);
    var sys := tr.states[n];
    forall s
      ensures IdsOf(sys.st.services, s) == Filter(sys.log, Members(sys.st.instances, s))
      ensures s in sys.st.services <==> Members(sys.st.instances, s) != {}
      ensures NoDup(IdsOf(sys.st.services, s))
    {
      LiveIff(sys.log, sys.st, s);
    }
  }

  lemma LiveIff(log: seq<Id>, st: State, s: string)
    requires Consistent(log, st)
    ensures IdsOf(st.services, s) == Filter(log, Members(st.instances, s))
    ensures s in st.services <==> Members(st.instances, s) != {}
    ensures NoDup(IdsOf(st.services, s))
  {
    ListSound(log, st, s);
    ServiceIffMembers(log, st, s);
    assert IdsOf(st.services, s) == Listed(log, st.instances, s);
  }

  /** With nothing between them, the two halves are the one step. */
  lemma HalvesMakeOneStep(sys: Sys, ticket: nat, id: Id, req: Request, at: int, later: int)
    requires Enabled(sys, Begin(ticket, id, req)) && Admits(sys, req)
    ensures var mid := Next(sys, Event(at, Begin(ticket, id, req)));
            Next(mid, Event(later, Finish(ticket))) == Next(sys, Event(at, Register(id, req)))
  {
    assert sys.pending[ticket := Pending(id, req, at)] - {ticket} == sys.pending;
  }

  // ---------- ownership ----------

  predicate Owns(st: State, s: string, k: string) {
    k in st.routes && st.routes[k].serviceName == s
  }

  lemma AcceptedKeysAreFree(cfg: Config, routes: map<string, RouteEntry>, req: Request, k: string)
    requires Accepted(cfg, routes, req) && k in KeysOf(req.basePath, req.routes) && k in routes
    ensures routes[k].serviceName == req.serviceName
  {
    var i :| 0 <= i < |req.routes| && k == KeyOf(req.basePath, req.routes[i]);
    assert Clear(cfg, routes, req.serviceName, req.basePath, req.routes[i]);
  }

  lemma AfterCommit(st: State, id: Id, req: Request, now: int, k: string)
    ensures var st' := Commit(st, id, req, now);
      && (k in st'.routes <==> k in st.routes || k in KeysOf(req.basePath, req.routes))
      && (k in KeysOf(req.basePath, req.routes) ==> st'.routes[k].serviceName == req.serviceName)
      && (k in st.routes && k !in KeysOf(req.basePath, req.routes) ==> st'.routes[k] == st.routes[k])
  {
    AddRoutesAt(st.routes, req.serviceName, req.basePath, req.routes, now);
  }

  lemma AfterRemove(log: seq<Id>, st: State, dead: set<Id>, k: string)
    requires Consistent(log, st) && k in st.routes
    ensures var st' := Remove(st, dead); var s := st.routes[k].serviceName;
      && (k in st'.routes ==> st'.routes[k] == st.routes[k])
      && (k in st'.routes <==> s in st'.services)
      && (k in st'.routes <==> Members(st'.instances, s) != {})
  {
    RemoveConsistent(log, st, dead);
    RemoveRoute(log, st, dead, k);
    LiveIff(log, Remove(st, dead), st.routes[k].serviceName);
  }

  /** One atomic step: an owned key keeps its owner, or becomes free because its owner has
      no instance left. */
  lemma StepKeepsOwner(sys: Sys, e: Event, s: string, k: string)
    requires Inv(sys) && Enabled(sys, e.op) && !e.op.Finish?
    requires Owns(sys.st, s, k)
    ensures var st' := Next(sys, e).st;
            Owns(st', s, k) || (k !in st'.routes && Members(st'.instances, s) == {})
  {
    match e.op
    case Begin(_, _, _) =>
    case Heartbeat(_) =>
    case Register(id, req) =>
      if Admits(sys, req) {
        AfterCommit(sys.st, id, req, e.at, k);
        if k in KeysOf(req.basePath, req.routes) {
          AcceptedKeysAreFree(sys.cfg, sys.st.routes, req, k);
        }
      }
    case Deregister(id) =>
      AfterRemove(sys.log, sys.st, {id}, k);
    case Cleanup =>
      var ttl := sys.cfg.heartbeatTTL;
      SweepConsistent(sys.log, sys.st, ttl, e.at);
      AfterRemove(sys.log, sys.st.(instances := SweepAll(sys.st.instances, ttl, e.at)),
          ExpiredIds(sys.st.instances, ttl, e.at), k);
  }

  /** With atomic registration, a key never passes from one service to another without a
      state in between in which it is free and the first service has no instance. */
  lemma {:induction false} OwnershipIsStable(cfg: Config, tr: Trace, i: nat, j: nat, a: string, b: string, k: string)
      returns (m: nat)
    requires IsRun(cfg, tr) && Atomic(tr.events) && i <= j <= |tr.events| && a != b
    requires Owns(tr.states[i].st, a, k) && Owns(tr.states[j].st, b, k)
    ensures i < m < j
    ensures k !in tr.states[m].st.routes && Members(tr.states[m].st.instances, a) == {}
    decreases j - i
  {
    RunKeepsInv(cfg, tr, i);
    assert i < j && IsStep(tr, i);
    StepKeepsOwner(tr.states[i], tr.events[i], a, k);
    if Owns(tr.states[i + 1].st, a, k) {
      m := OwnershipIsStable(cfg, tr, i + 1, j, a, b, k);
    } else {
      m := i + 1;
    }
  }

  /** The commit half on its own keeps every owner exactly when none of its routes is, by
      then, held by another service. */
  lemma FinishKeepsOwnersIff(sys: Sys, ticket: nat, at: int)
    requires Inv(sys) && ticket in sys.pending
    ensures var req := sys.pending[ticket].req; var st' := Next(sys, Event(at, Finish(ticket))).st;
      (forall k :: k in sys.st.routes ==> Owns(st', sys.st.routes[k].serviceName, k)) <==>
      (forall i :: 0 <= i < |req.routes| ==>
         !ExactClash(sys.st.routes, req.serviceName, req.routes[i].verb, req.routes[i].FullPath(req.basePath)))
  {
    var p := sys.pending[ticket];
    var req := p.req;
    var st' := Next(sys, Event(at, Finish(ticket))).st;
    forall k | k in sys.st.routes
      ensures Owns(st', sys.st.routes[k].serviceName, k) <==>
              (k in KeysOf(req.basePath, req.routes) ==> sys.st.routes[k].serviceName == req.serviceName)
    {
      AfterCommit(sys.st, p.id, req, p.now, k);
    }
    forall i | 0 <= i < |req.routes| ensures KeyOf(req.basePath, req.routes[i]) in KeysOf(req.basePath, req.routes) {
    }
  }

  /** In two halves, ownership is not stable: any two valid requests of different services that
      share a key can both be validated first, and then the second commit takes the key while
      the first service has an instance. */
  lemma TwoPhaseTakesRoute(cfg: Config, reqA: Request, reqB: Request, k: string, at: int) returns (tr: Trace)
    requires Validate(reqA).None? && Validate(reqB).None? && reqA.serviceName != reqB.serviceName
    requires k in KeysOf(reqA.basePath, reqA.routes) && k in KeysOf(reqB.basePath, reqB.routes)
    ensures IsRun(cfg, tr) && |tr.events| == 4
    ensures Owns(tr.states[3].st, reqA.serviceName, k) && Owns(tr.states[4].st, reqB.serviceName, k)
    ensures "a" in Members(tr.states[4].st.instances, reqA.serviceName)
  {
    tr := BothBegunThenFinished(cfg, reqA, reqB, "a", "b", at);
    AfterCommit(EMPTY, "a", reqA, at, k);
    AfterCommit(tr.states[3].st, "b", reqB, at, k);
  }

  /** Two registrations in a row, the second of which is accepted. */
  lemma BothRegistered(cfg: Config, reqA: Request, reqB: Request, idA: Id, idB: Id, at: int) returns (tr: Trace)
    requires Validate(reqA).None? && Validate(reqB).None? && idA != idB
    requires Accepted(cfg, Commit(EMPTY, idA, reqA, at).routes, reqB)
    ensures IsRun(cfg, tr) && tr.events == [Event(at, Register(idA, reqA)), Event(at, Register(idB, reqB))]
    ensures tr.states[2].st == Commit(Commit(EMPTY, idA, reqA, at), idB, reqB, at)
  {
    var s0 := Start(cfg);
    var s1 := Sys(cfg, Commit(EMPTY, idA, reqA, at), [idA], map[]);
    var s2 := Sys(cfg, Commit(s1.st, idB, reqB, at), [idA, idB], map[]);
    tr := Trace([s0, s1, s2], [Event(at, Register(idA, reqA)), Event(at, Register(idB, reqB))]);
    assert [] + [idA] == [idA] && [idA] + [idB] == [idA, idB];
    assert Admits(s0, reqA) && Admits(s1, reqB);
    assert IsStep(tr, 0) && IsStep(tr, 1);
  }

  /** On an empty registry any two valid requests are both validated; then both commit. */
  lemma BothBegunThenFinished(cfg: Config, reqA: Request, reqB: Request, idA: Id, idB: Id, at: int) returns (tr: Trace)
    requires Validate(reqA).None? && Validate(reqB).None? && idA != idB
    ensures IsRun(cfg, tr) && |tr.events| == 4
    ensures tr.states[3].st == Commit(EMPTY, idA, reqA, at)
    ensures tr.states[4].st == Commit(tr.states[3].st, idB, reqB, at)
  {
    var pA, pB := Pending(idA, reqA, at), Pending(idB, reqB, at);
    var s0 := Start(cfg);
    var s1 := s0.(pending := s0.pending[0 := pA]);
    var s2 := s1.(pending := s1.pending[1 := pB]);
    var s3 := Sys(cfg, Commit(EMPTY, idA, reqA, at), [] + [idA], s2.pending - {0});
    var s4 := Sys(cfg, Commit(s3.st, idB, reqB, at), s3.log + [idB], s3.pending - {1});
    BeginOnEmpty(s0, 0, pA, s1);
    BeginOnEmpty(s1, 1, pB, s2);
    FinishGives(s2, 0, pA, s3);
    FinishGives(s3, 1, pB, s4);
    tr := Trace([s0, s1, s2, s3, s4],
                [Event(at, Begin(0, idA, reqA)), Event(at, Begin(1, idB, reqB)),
                 Event(at, Finish(0)), Event(at, Finish(1))]);
    FourSteps(cfg, tr);
  }

  lemma FourSteps(cfg: Config, tr: Trace)
    requires |tr.events| == 4 && |tr.states| == 5 && tr.states[0] == Start(cfg)
    requires IsStep(tr, 0) && IsStep(tr, 1) && IsStep(tr, 2) && IsStep(tr, 3)
    ensures IsRun(cfg, tr)
  {
  }

  lemma BeginOnEmpty(sys: Sys, ticket: nat, p: Pending, sys': Sys)
    requires sys.st == EMPTY && ticket !in sys.pending && Fresh(sys, p.id) && Validate(p.req).None?
    requires sys' == sys.(pending := sys.pending[ticket := p])
    ensures Enabled(sys, Begin(ticket, p.id, p.req)) && Next(sys, Event(p.now, Begin(ticket, p.id, p.req))) == sys'
  {
    assert Admits(sys, p.req);
  }

  lemma FinishGives(sys: Sys, ticket: nat, p: Pending, sys': Sys)
    requires ticket in sys.pending && sys.pending[ticket] == p
    requires sys' == Sys(sys.cfg, Commit(sys.st, p.id, p.req, p.now), sys.log + [p.id], sys.pending - {ticket})
    ensures Enabled(sys, Finish(ticket)) && Next(sys, Event(p.now, Finish(ticket))) == sys'
  {
  }

  // ---------- live services and their keys ----------

  function KeysOwned(st: State, s: string): set<string> {
    set k | k in st.routes && st.routes[k].serviceName == s
  }

  /** The keys a service registered, within the first n events, since it last went from no
      instance to one. */
  function KeysSince(tr: Trace, n: nat, s: string): set<string>
    requires n <= |tr.events| < |tr.states|
  {
    if n == 0 then {}
    else
      var before, e := tr.states[n - 1], tr.events[n - 1];
      if e.op.Register? && e.op.req.serviceName == s && Admits(before, e.op.req) then
        KeysOf(e.op.req.basePath, e.op.req.routes) + if s in before.st.services then KeysSince(tr, n - 1, s) else {}
      else KeysSince(tr, n - 1, s)
  }

  lemma RegisterKeys(sys: Sys, id: Id, req: Request, at: int, s: string)
    requires Inv(sys) && Fresh(sys, id) && Admits(sys, req)
    ensures KeysOwned(Commit(sys.st, id, req, at), s) ==
            KeysOwned(sys.st, s) + if s == req.serviceName then KeysOf(req.basePath, req.routes) else {}
  {
    var keys := KeysOf(req.basePath, req.routes);
    forall k
      ensures k in KeysOwned(Commit(sys.st, id, req, at), s) <==>
              k in KeysOwned(sys.st, s) || (s == req.serviceName && k in keys)
    {
      AfterCommit(sys.st, id, req, at, k);
      if k in keys && k in sys.st.routes {
        AcceptedKeysAreFree(sys.cfg, sys.st.routes, req, k);
      }
    }
  }

  lemma RemoveKeys(log: seq<Id>, st: State, dead: set<Id>, s: string)
    requires Consistent(log, st)
    ensures s in Remove(st, dead).services ==> s in st.services && KeysOwned(Remove(st, dead), s) == KeysOwned(st, s)
  {
    forall k | k in st.routes
      ensures k in Remove(st, dead).routes <==> st.routes[k].serviceName in Remove(st, dead).services
      ensures k in Remove(st, dead).routes ==> Remove(st, dead).routes[k] == st.routes[k]
    {
      RemoveRoute(log, st, dead, k);
    }
  }

  lemma DeadServiceOwnsNothing(log: seq<Id>, st: State, s: string)
    requires Consistent(log, st) && s !in st.services
    ensures KeysOwned(st, s) == {}
  {
  }

  /** With atomic registration, the keys of a live service are exactly those it registered
      since it last came to life; there is at least one, so the live services are the owners. */
  lemma {:induction false} LiveServiceKeys(cfg: Config, tr: Trace, n: nat, s: string)
    requires IsRun(cfg, tr) && Atomic(tr.events) && n <= |tr.events|
    ensures var st := tr.states[n].st;
      && (s in st.services ==> KeysOwned(st, s) == KeysSince(tr, n, s))
      && (s in st.services <==> KeysOwned(st, s) != {})
  {
    RunKeepsInv(cfg, tr, n);
    if s !in tr.states[n].st.services {
      DeadServiceOwnsNothing(tr.states[n].log, tr.states[n].st, s);
    }
    if n > 0 {
      var before, e := tr.states[n - 1], tr.events[n - 1];
      RunKeepsInv(cfg, tr, n - 1);
      assert IsStep(tr, n - 1);
      LiveServiceKeys(cfg, tr, n - 1, s);
      LiveKeysStep(before, e, s);
    }
  }

  /** What one atomic step does to the keys of one service. */
  lemma LiveKeysStep(sys: Sys, e: Event, s: string)
    requires Inv(sys) && Enabled(sys, e.op) && !e.op.Begin? && !e.op.Finish?
    ensures var st' := Next(sys, e).st;
            if e.op.Register? && e.op.req.serviceName == s && Admits(sys, e.op.req) then
              s in st'.services && KeysOf(e.op.req.basePath, e.op.req.routes) != {} &&
              KeysOwned(st', s) == KeysOwned(sys.st, s) + KeysOf(e.op.req.basePath, e.op.req.routes)
            else s in st'.services ==> s in sys.st.services && KeysOwned(st', s) == KeysOwned(sys.st, s)
  {
    match e.op
    case Register(id, req) =>
      if Admits(sys, req) {
        RegisterKeys(sys, id, req, e.at, s);
        assert KeyOf(req.basePath, req.routes[0]) in KeysOf(req.basePath, req.routes);
      }
    case Deregister(id) =>
      RemoveKeys(sys.log, sys.st, {id}, s);
    case Heartbeat(id) =>
    case Cleanup =>
      SweepConsistent(sys.log, sys.st, sys.cfg.heartbeatTTL, e.at);
      RemoveKeys(sys.log, Sweep(sys.st, sys.cfg.heartbeatTTL, e.at),
          ExpiredIds(sys.st.instances, sys.cfg.heartbeatTTL, e.at), s);
  }

  function Sweep(st: State, ttl: int, now: int): State {
    st.(instances := SweepAll(st.instances, ttl, now))
  }
}
