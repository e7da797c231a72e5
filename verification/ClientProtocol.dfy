/** The registry client of pkg/client talking to the gateway: registration with retries,
    heartbeats, re-registration after a not-found answer, and shutdown, with requests and
    responses that may be lost, among any other users of the gateway. */
module ClientProtocol {
  import opened Text
  import opened Filtering
  import opened RegistrySpec
  import opened Runs

  /** The retries of one Register or reregister; the calls are one more. */
  const MAX_RETRIES := 5

  /** Why the client is registering: for the first time, again after a not-found answer, or late,
      for the first time but after Shutdown, when no heartbeat goroutine will live. */
  datatype Reason = First | Again | Late

  /** Where the caller or its heartbeat goroutine is. Calling counts the failed calls so far. */
  datatype Mode = Idle | Calling(attempt: nat, reason: Reason) | Beating | Stopped

  /** The client's requests that the gateway has not handled: it may handle them at any later
      time, long after the client has given up on them, or never. */
  datatype Net = Net(asks: multiset<Request>, beats: multiset<Id>, leaves: multiset<Id>)

  /** The client and the gateway. mine holds the ids the gateway created for the client with
      the time of each; sent counts the calls of the current Register or reregister; sweep is
      the time of the gateway's last cleanup. */
  datatype World = World(
    gw: Sys, net: Net, mode: Mode, held: Option<Id>, req: Request, mine: map<Id, int>, sent: nat, sweep: int)

  /** arrives: the gateway handles the request while the client waits; answered: its response
      comes back whole. The late steps are those of requests that did not arrive so. */
  datatype Step =
    | Register(req: Request)
    | Call(id: Id, arrives: bool, answered: bool)
    | GiveUp
    | Beat(arrives: bool, answered: bool)
    | Deregister(arrives: bool)
    | Shutdown(sends: bool, arrives: bool)
    | LateAsk(req: Request, id: Id)
    | LateBeat(id: Id)
    | LateLeave(id: Id)
    | Other(op: Op)

  function Begin(cfg: Config, t0: int): World {
    var net := Net(multiset{}, multiset{}, multiset{});
    World(Start(cfg), net, Idle, None, Request("", "", 0, "", "", "", [], map[]), map[], 0, t0)
  }

  /** Re-registration runs in the heartbeat goroutine; the other rounds of calls occupy the caller. */
  predicate CallerIsFree(w: World) {
    w.mode.Calling? ==> w.mode.reason == Again
  }

  /** A step that the client does not take: a straggler is handled, or another user acts. */
  predicate Aside(s: Step) {
    s.LateAsk? || s.LateBeat? || s.LateLeave? || s.Other?
  }

  predicate AsidePossible(gw: Sys, net: Net, s: Step)
    requires Aside(s)
  {
    match s
    case LateAsk(req, id) => req in net.asks && Fresh(gw, id)
    case LateBeat(id) => id in net.beats
    case LateLeave(id) => id in net.leaves
    case Other(op) => Enabled(gw, op)
  }

  function AsideOp(s: Step): Op
    requires Aside(s)
  {
    match s
    case LateAsk(req, id) => Op.Register(id, req)
    case LateBeat(id) => Heartbeat(id)
    case LateLeave(id) => Op.Deregister(id)
    case Other(op) => op
  }

  function AsideNet(net: Net, s: Step): Net
    requires Aside(s)
  {
    match s
    case LateAsk(req, _) => net.(asks := net.asks - multiset{req})
    case LateBeat(id) => net.(beats := net.beats - multiset{id})
    case LateLeave(id) => net.(leaves := net.leaves - multiset{id})
    case Other(_) => net
  }

  predicate Possible(w: World, s: Step) {
    match s
    case Register(_) => w.mode == Idle || (w.mode == Stopped && w.held == None)
    case Call(id, _, _) => w.mode.Calling? && w.mode.attempt <= MAX_RETRIES && Fresh(w.gw, id)
    case GiveUp => w.mode.Calling?
    case Beat(_, _) => w.mode == Beating && w.held.Some?
    case Deregister(_) => CallerIsFree(w)
    case Shutdown(_, _) => CallerIsFree(w) && w.mode != Stopped
    case _ => AsidePossible(w.gw, w.net, s)
  }

  /** What the gateway gets to do. */
  function GatewayOp(w: World, s: Step): Option<Op>
    requires Possible(w, s)
  {
    match s
    case Call(id, true, _) => Some(Op.Register(id, w.req))
    case Beat(true, _) => Some(Heartbeat(w.held.value))
    case Deregister(true) => Leaving(w)
    case Shutdown(true, true) => Leaving(w)
    case _ => if Aside(s) then Some(AsideOp(s)) else None
  }

  /** A request to deregister is sent only for a held id. */
  function Leaving(w: World): Option<Op> {
    if w.held.Some? then Some(Op.Deregister(w.held.value)) else None
  }

  function Gateway(w: World, at: int, s: Step): Sys
    requires Possible(w, s)
  {
    match GatewayOp(w, s)
    case Some(op) => if Enabled(w.gw, op) then Next(w.gw, Event(at, op)) else w.gw
    case None => w.gw
  }

  function LeaveUnhandled(net: Net, held: Option<Id>): Net {
    if held.Some? then net.(leaves := net.leaves + multiset{held.value}) else net
  }

  /** What is under way after a step. */
  function Network(w: World, s: Step): Net
    requires Possible(w, s)
  {
    match s
    case Call(_, false, _) => w.net.(asks := w.net.asks + multiset{w.req})
    case Beat(false, _) => w.net.(beats := w.net.beats + multiset{w.held.value})
    case Deregister(false) => LeaveUnhandled(w.net, w.held)
    case Shutdown(true, false) => LeaveUnhandled(w.net, w.held)
    case _ => if Aside(s) then AsideNet(w.net, s) else w.net
  }

  /** The request for a registration that the gateway handles, under the id it draws. */
  function Asked(w: World, s: Step): Option<(Id, Request)>
    requires Possible(w, s)
  {
    match s
    case Call(id, true, _) => Some((id, w.req))
    case LateAsk(req, id) => Some((id, req))
    case _ => None
  }

  function Record(w: World, at: int, s: Step): map<Id, int>
    requires Possible(w, s)
  {
    match Asked(w, s)
    case Some((id, req)) => if Admits(w.gw, req) then w.mine[id := at] else w.mine
    case None => w.mine
  }

  /** How a round of calls ends without success. */
  function Resting(reason: Reason): Mode {
    match reason
    case First => Idle
    case Again => Beating
    case Late => Stopped
  }

  /** And with success. */
  function Settled(reason: Reason): Mode {
    if reason == Late then Stopped else Beating
  }

  /** A failed call is retried until the retries are used up. */
  function AfterFailure(attempt: nat, reason: Reason): Mode {
    if attempt < MAX_RETRIES then Calling(attempt + 1, reason) else Resting(reason)
  }

  predicate FindsNothing(w: World, s: Step) {
    s.Beat? && s.arrives && s.answered && w.held.Some? && w.held.value !in w.gw.st.instances
  }

  function After(w: World, at: int, s: Step): World
    requires Possible(w, s)
  {
    AfterGateway(w, Gateway(w, at, s), at, s)
  }

  /** What a step makes of the world, once the gateway has come to gw. */
  function AfterGateway(w: World, gw: Sys, at: int, s: Step): World
    requires Possible(w, s)
  {
    var w' := w.(gw := gw, net := Network(w, s), mine := Record(w, at, s));
    match s
    case Register(req) => w'.(mode := Calling(0, if w.mode == Stopped then Late else First), req := req, sent := 0)
    case Call(id, arrives, answered) =>
      var attempt, reason := w.mode.attempt, w.mode.reason;
      if arrives && answered && Admits(w.gw, w.req) then
        w'.(mode := Settled(reason), held := Some(id), sent := w.sent + 1)
      else if arrives && answered && Validate(w.req).None? then w'.(mode := Resting(reason), sent := w.sent + 1)
      else w'.(mode := AfterFailure(attempt, reason), sent := w.sent + 1)
    case GiveUp => w'.(mode := Resting(w.mode.reason))
    case Beat(_, _) => if FindsNothing(w, s) then w'.(mode := Calling(0, Again), sent := 0) else w'
    case Shutdown(_, _) => w'.(mode := Stopped)
    case Other(op) => if op.Cleanup? then w'.(sweep := at) else w'
    case _ => w'
  }

  // ---------- the invariant ----------

  ghost predicate WorldInv(w: World) {
    && Inv(w.gw)
    && (forall id :: id in w.mine ==> id in w.gw.log)
    && ModeInv(w)
    && BeatsInv(w)
  }

  /** A heartbeat that is under way is for the held id, or for one that is gone. */
  predicate BeatsInv(w: World) {
    forall id :: id in w.net.beats ==> BeatFits(w, id)
  }

  predicate ModeInv(w: World) {
    && (w.held.Some? ==> w.held.value in w.mine)
    && (w.mode == Idle || (w.mode.Calling? && w.mode.reason != Again) ==> w.held == None)
    && (w.mode == Beating ==> w.held.Some?)
    && (w.mode.Calling? && w.mode.reason == Again ==> w.held.Some? && w.held.value !in w.gw.st.instances)
    && (w.mode.Calling? ==> w.sent == w.mode.attempt <= MAX_RETRIES)
    && w.sent <= MAX_RETRIES + 1
  }

  /** Others do not know the client's ids, so they do not refresh them. */
  predicate Discreet(w: World, s: Step) {
    s.Other? && s.op.Heartbeat? ==> s.op.id !in w.mine
  }

  /** An instance of the client's that it does not hold still carries the time of its creation. */
  predicate UnheldUnrefreshed(w: World) {
    forall id :: id in w.mine ==> Unrefreshed(w, id)
  }

  lemma StartsInvariant(cfg: Config, t0: int)
    ensures WorldInv(Begin(cfg, t0))
  {
    assert Indexed([], EMPTY);
  }

  /** The gateway's step, seen from one id that is already in its log. */
  lemma GatewayStep(gw: Sys, e: Event, id: Id)
    requires Inv(gw) && Enabled(gw, e.op) && id in gw.log
    ensures Inv(Next(gw, e)) && id in Next(gw, e).log && Next(gw, e).cfg == gw.cfg
    ensures id in Next(gw, e).st.instances ==> id in gw.st.instances
    ensures id in Next(gw, e).st.instances ==>
      Next(gw, e).st.instances[id].lastHeartbeat ==
      if e.op == Heartbeat(id) then e.at else gw.st.instances[id].lastHeartbeat
    ensures id in Next(gw, e).st.instances && e.op.Cleanup? ==>
      e.at - Next(gw, e).st.instances[id].lastHeartbeat <= gw.cfg.heartbeatTTL * 2
  {
    StepKeepsInv(gw, e);
    if e.op.Cleanup? {
      CleanupInstances(gw.st, gw.cfg.heartbeatTTL, e.at);
      var after := Next(gw, e).st.instances;
      if id in after {
        assert after[id].(status := gw.st.instances[id].status) == gw.st.instances[id];
      }
    }
  }

  /** What the gateway's part of a step does to one instance of the client's. */
  predicate KeepsOwn(w: World, gw: Sys, at: int, s: Step, id: Id)
    requires Possible(w, s)
  {
    && id in gw.log
    && (id in gw.st.instances ==>
         && id in w.gw.st.instances
         && gw.st.instances[id].lastHeartbeat ==
            (if GatewayOp(w, s) == Some(Heartbeat(id)) then at else w.gw.st.instances[id].lastHeartbeat)
         && (GatewayOp(w, s) == Some(Cleanup) ==>
              at - gw.st.instances[id].lastHeartbeat <= w.gw.cfg.heartbeatTTL * 2))
  }

  /** A request that is handled and admitted makes an instance, new to the client's record. */
  predicate MakesAsked(w: World, gw: Sys, at: int, s: Step)
    requires Possible(w, s)
  {
    Asked(w, s).Some? && Admits(w.gw, Asked(w, s).value.1) ==>
      var id := Asked(w, s).value.0;
      id in gw.log && id !in w.mine && id in gw.st.instances && gw.st.instances[id].lastHeartbeat == at
  }

  /** The gateway's part of any step of the client or of the others. */
  predicate GatewayDoes(w: World, gw: Sys, at: int, s: Step)
    requires Possible(w, s)
  {
    && gw.cfg == w.gw.cfg
    && MakesAsked(w, gw, at, s)
    && forall id :: id in w.mine ==> KeepsOwn(w, gw, at, s, id)
  }

  lemma GatewayKeeps(w: World, at: int, s: Step, id: Id)
    requires WorldInv(w) && Possible(w, s) && id in w.mine
    ensures KeepsOwn(w, Gateway(w, at, s), at, s, id)
  {
    var op := GatewayOp(w, s);
    if op.Some? && Enabled(w.gw, op.value) {
      GatewayStep(w.gw, Event(at, op.value), id);
    }
  }

  lemma AskCreates(w: World, at: int, s: Step)
    requires WorldInv(w) && Possible(w, s)
    ensures MakesAsked(w, Gateway(w, at, s), at, s)
  {
  }

  lemma GatewayInv(w: World, at: int, s: Step) returns (gw: Sys)
    requires WorldInv(w) && Possible(w, s)
    ensures gw == Gateway(w, at, s) && Inv(gw) && GatewayDoes(w, gw, at, s)
  {
    gw := Gateway(w, at, s);
    var op := GatewayOp(w, s);
    if op.Some? && Enabled(w.gw, op.value) {
      StepKeepsInv(w.gw, Event(at, op.value));
    }
    AskCreates(w, at, s);
    forall id | id in w.mine ensures KeepsOwn(w, gw, at, s, id) {
      GatewayKeeps(w, at, s, id);
    }
  }

  lemma AskedIsNew(w: World, gw: Sys, at: int, s: Step)
    requires Possible(w, s) && GatewayDoes(w, gw, at, s)
    ensures forall id :: id in w.mine ==> id in Record(w, at, s) && Record(w, at, s)[id] == w.mine[id]
    ensures |Record(w, at, s)| == |w.mine| + if Asked(w, s).Some? && Admits(w.gw, Asked(w, s).value.1) then 1 else 0
  {
  }

  lemma StepKeepsMode(w: World, gw: Sys, at: int, s: Step)
    requires ModeInv(w) && Possible(w, s) && GatewayDoes(w, gw, at, s)
    ensures ModeInv(AfterGateway(w, gw, at, s))
  {
    if w.held.Some? {
      assert KeepsOwn(w, gw, at, s, w.held.value);
    }
  }

  lemma StepKeepsRecord(w: World, gw: Sys, at: int, s: Step)
    requires Possible(w, s) && GatewayDoes(w, gw, at, s)
    ensures forall id :: id in AfterGateway(w, gw, at, s).mine ==> id in gw.log
  {
    forall id | id in Record(w, at, s) ensures id in gw.log {
      if id in w.mine {
        assert KeepsOwn(w, gw, at, s, id);
      }
    }
  }

  /** The held id changes only in a first registration, or when the gateway has it no more. */
  lemma HeldChanges(w: World, gw: Sys, at: int, s: Step, id: Id)
    requires ModeInv(w) && Possible(w, s) && GatewayDoes(w, gw, at, s)
    requires w.held == Some(id) && AfterGateway(w, gw, at, s).held != Some(id)
    ensures id !in w.gw.st.instances && id !in gw.st.instances
  {
    assert KeepsOwn(w, gw, at, s, id);
  }

  lemma BeatsUnderWay(w: World, s: Step, id: Id)
    requires Possible(w, s) && id in Network(w, s).beats
    ensures id in w.net.beats || w.held == Some(id)
  {
  }

  predicate BeatFits(w: World, id: Id) {
    id in w.mine && (w.held == Some(id) || id !in w.gw.st.instances)
  }

  lemma StillFits(w: World, gw: Sys, at: int, s: Step, id: Id)
    requires ModeInv(w) && Possible(w, s) && GatewayDoes(w, gw, at, s) && BeatFits(w, id)
    ensures BeatFits(AfterGateway(w, gw, at, s), id)
  {
    assert KeepsOwn(w, gw, at, s, id);
    if w.held == Some(id) && AfterGateway(w, gw, at, s).held != Some(id) {
      HeldChanges(w, gw, at, s, id);
    }
  }

  lemma StepKeepsBeats(w: World, gw: Sys, at: int, s: Step)
    requires ModeInv(w) && BeatsInv(w) && Possible(w, s) && GatewayDoes(w, gw, at, s)
    ensures BeatsInv(AfterGateway(w, gw, at, s))
  {
    forall id | id in Network(w, s).beats ensures BeatFits(AfterGateway(w, gw, at, s), id) {
      BeatsUnderWay(w, s, id);
      assert BeatFits(w, id);
      StillFits(w, gw, at, s, id);
    }
  }

  /** An instance that the client does not hold is refreshed by another user alone. */
  lemma UnheldKept(w: World, gw: Sys, at: int, s: Step, id: Id)
    requires BeatsInv(w) && Possible(w, s) && GatewayDoes(w, gw, at, s) && id in w.mine && w.held != Some(id)
    requires s != Other(Heartbeat(id)) && id in gw.st.instances
    ensures id in w.gw.st.instances && gw.st.instances[id].lastHeartbeat == w.gw.st.instances[id].lastHeartbeat
  {
    assert KeepsOwn(w, gw, at, s, id);
  }

  predicate Unrefreshed(w: World, id: Id) {
    w.held != Some(id) && id in w.gw.st.instances ==> id in w.mine && w.gw.st.instances[id].lastHeartbeat == w.mine[id]
  }

  lemma StillUnrefreshed(w: World, gw: Sys, at: int, s: Step, id: Id)
    requires ModeInv(w) && BeatsInv(w) && Possible(w, s) && GatewayDoes(w, gw, at, s)
    requires Discreet(w, s) && id in w.mine && Unrefreshed(w, id)
    ensures Unrefreshed(AfterGateway(w, gw, at, s), id)
  {
    var held' := AfterGateway(w, gw, at, s).held;
    AskedIsNew(w, gw, at, s);
    if held' != Some(id) && id in gw.st.instances {
      if w.held == Some(id) {
        HeldChanges(w, gw, at, s, id);
      }
      UnheldKept(w, gw, at, s, id);
    }
  }

  lemma StepKeepsUnheld(w: World, gw: Sys, at: int, s: Step)
    requires ModeInv(w) && BeatsInv(w) && Possible(w, s) && GatewayDoes(w, gw, at, s)
    requires Discreet(w, s) && UnheldUnrefreshed(w)
    ensures UnheldUnrefreshed(AfterGateway(w, gw, at, s))
  {
    forall id | id in Record(w, at, s) ensures Unrefreshed(AfterGateway(w, gw, at, s), id) {
      if id in w.mine {
        assert Unrefreshed(w, id);
        StillUnrefreshed(w, gw, at, s, id);
      }
    }
  }

  lemma HeldIsReplacedOnlyWhenGone(w: World, at: int, s: Step, id: Id)
    requires WorldInv(w) && Possible(w, s) && w.held == Some(id) && After(w, at, s).held != Some(id)
    ensures id !in w.gw.st.instances && id !in After(w, at, s).gw.st.instances
  {
    var gw := GatewayInv(w, at, s);
    HeldChanges(w, gw, at, s, id);
  }

  lemma StepKeepsWorld(w: World, at: int, s: Step)
    requires WorldInv(w) && Possible(w, s)
    ensures WorldInv(After(w, at, s)) && After(w, at, s).gw.cfg == w.gw.cfg
  {
    var gw := GatewayInv(w, at, s);
    StepKeepsMode(w, gw, at, s);
    StepKeepsRecord(w, gw, at, s);
    StepKeepsBeats(w, gw, at, s);
  }

  // ---------- runs ----------

  datatype WorldEvent = WorldEvent(at: int, step: Step)

  predicate IsWorldRun(cfg: Config, t0: int, worlds: seq<World>, events: seq<WorldEvent>) {
    && |worlds| == |events| + 1
    && worlds[0] == Begin(cfg, t0)
    && forall i :: 0 <= i < |events| ==> IsWorldStep(worlds, events, i)
  }

  predicate IsWorldStep(worlds: seq<World>, events: seq<WorldEvent>, i: nat)
    requires i < |events| < |worlds|
  {
    Possible(worlds[i], events[i].step) && worlds[i + 1] == After(worlds[i], events[i].at, events[i].step)
  }

  lemma {:induction false} RunKeepsWorld(cfg: Config, t0: int, worlds: seq<World>, events: seq<WorldEvent>, n: nat)
    requires IsWorldRun(cfg, t0, worlds, events) && n <= |events|
    ensures WorldInv(worlds[n]) && worlds[n].gw.cfg == cfg
  {
    if n == 0 {
      StartsInvariant(cfg, t0);
    } else {
      RunKeepsWorld(cfg, t0, worlds, events, n - 1);
      assert IsWorldStep(worlds, events, n - 1);
      StepKeepsWorld(worlds[n - 1], events[n - 1].at, events[n - 1].step);
    }
  }

  /** What the gateway created for the client stays on the client's record. */
  lemma {:induction false} RecordIsKept(cfg: Config, t0: int, worlds: seq<World>, events: seq<WorldEvent>, i: nat,
      j: nat, id: Id)
    requires IsWorldRun(cfg, t0, worlds, events) && i <= j <= |events| && id in worlds[i].mine
    ensures id in worlds[j].mine && worlds[j].mine[id] == worlds[i].mine[id]
    decreases j
  {
    if i < j {
      RecordIsKept(cfg, t0, worlds, events, i, j - 1, id);
      RunKeepsWorld(cfg, t0, worlds, events, j - 1);
      assert IsWorldStep(worlds, events, j - 1);
      RecordKept(worlds[j - 1], events[j - 1].at, events[j - 1].step, id);
    }
  }

  lemma RecordKept(w: World, at: int, s: Step, id: Id)
    requires WorldInv(w) && Possible(w, s) && id in w.mine
    ensures id in After(w, at, s).mine && After(w, at, s).mine[id] == w.mine[id]
  {
    var gw := GatewayInv(w, at, s);
    AskedIsNew(w, gw, at, s);
  }

  /** A step that begins a round of calls. */
  predicate StartsRound(w: World, s: Step) {
    s.Register? || FindsNothing(w, s)
  }

  /** How many instances the client has been given, or may yet be given for requests under way. */
  function Given(w: World): nat {
    |w.mine| + |w.net.asks|
  }

  lemma AsksUnderWay(w: World, s: Step)
    requires Possible(w, s)
    ensures |Network(w, s).asks| ==
            |w.net.asks| + if s.Call? && !s.arrives then 1 else if s.LateAsk? then -1 else 0
  {
  }

  lemma SentStep(w: World, gw: Sys, at: int, s: Step)
    requires Possible(w, s)
    ensures AfterGateway(w, gw, at, s).sent ==
            if StartsRound(w, s) then 0 else w.sent + if s.Call? then 1 else 0
    ensures AfterGateway(w, gw, at, s).mode.Calling? ==> StartsRound(w, s) || w.mode.Calling?
  {
  }

  lemma StepCounts(w: World, at: int, s: Step)
    requires WorldInv(w) && Possible(w, s)
    ensures Given(After(w, at, s)) <= Given(w) + if s.Call? then 1 else 0
    ensures After(w, at, s).sent == if StartsRound(w, s) then 0 else w.sent + if s.Call? then 1 else 0
    ensures After(w, at, s).mode.Calling? ==> StartsRound(w, s) || w.mode.Calling?
  {
    var gw := GatewayInv(w, at, s);
    AskedIsNew(w, gw, at, s);
    AsksUnderWay(w, s);
    SentStep(w, gw, at, s);
  }

  /** While no round begins, the instances given are covered by the calls sent. */
  lemma {:induction false} InstancesAreCounted(
      cfg: Config, t0: int, worlds: seq<World>, events: seq<WorldEvent>, i: nat, j: nat)
    requires IsWorldRun(cfg, t0, worlds, events) && i <= j <= |events|
    requires forall k :: i <= k < j ==> !StartsRound(worlds[k], events[k].step)
    ensures Given(worlds[j]) - Given(worlds[i]) <= worlds[j].sent - worlds[i].sent
    decreases j
  {
    if i < j {
      InstancesAreCounted(cfg, t0, worlds, events, i, j - 1);
      RunKeepsWorld(cfg, t0, worlds, events, j - 1);
      assert IsWorldStep(worlds, events, j - 1);
      StepCounts(worlds[j - 1], events[j - 1].at, events[j - 1].step);
    }
  }

  /** Each Register or reregister accounts for at most six instances: from the step that begins a
      round until the next one does, the gateway makes at most six ids for the client beyond
      those for requests that were under way when the round began; and of the six, those not
      made by then are still under way. */
  lemma AtMostSixPerRound(cfg: Config, t0: int, worlds: seq<World>, events: seq<WorldEvent>, i: nat, j: nat)
    requires IsWorldRun(cfg, t0, worlds, events) && i < j <= |events|
    requires StartsRound(worlds[i], events[i].step)
    requires forall k :: i < k < j ==> !StartsRound(worlds[k], events[k].step)
    ensures Given(worlds[j]) <= Given(worlds[i]) + 6
    ensures |worlds[j].mine.Keys - worlds[i].mine.Keys| <= 6 + |worlds[i].net.asks|
  {
    RunKeepsWorld(cfg, t0, worlds, events, i);
    RunKeepsWorld(cfg, t0, worlds, events, j);
    assert IsWorldStep(worlds, events, i);
    StepCounts(worlds[i], events[i].at, events[i].step);
    InstancesAreCounted(cfg, t0, worlds, events, i + 1, j);
    forall id | id in worlds[i].mine ensures id in worlds[j].mine {
      RecordIsKept(cfg, t0, worlds, events, i, j, id);
    }
    Grown(worlds[i].mine, worlds[j].mine);
  }

  /** The rounds begun within the first n steps. */
  function Rounds(worlds: seq<World>, events: seq<WorldEvent>, n: nat): nat
    requires n <= |events| < |worlds|
  {
    if n == 0 then 0
    else Rounds(worlds, events, n - 1) + if StartsRound(worlds[n - 1], events[n - 1].step) then 1 else 0
  }

  /** In all, six times the rounds begun, whenever the gateway handles what it was sent. */
  lemma {:induction false} AtMostSixTimesRounds(
      cfg: Config, t0: int, worlds: seq<World>, events: seq<WorldEvent>, n: nat)
    requires IsWorldRun(cfg, t0, worlds, events) && n <= |events|
    ensures |worlds[n].mine| <= Given(worlds[n]) <= 6 * Rounds(worlds, events, n)
    ensures Covered(worlds[n], Rounds(worlds, events, n))
  {
    if n > 0 {
      AtMostSixTimesRounds(cfg, t0, worlds, events, n - 1);
      CoveredNext(cfg, t0, worlds, events, n, Rounds(worlds, events, n - 1));
    }
  }

  lemma CoveredNext(cfg: Config, t0: int, worlds: seq<World>, events: seq<WorldEvent>, n: nat, rounds: nat)
    requires IsWorldRun(cfg, t0, worlds, events) && 0 < n <= |events| && Covered(worlds[n - 1], rounds)
    ensures Covered(worlds[n], rounds + if StartsRound(worlds[n - 1], events[n - 1].step) then 1 else 0)
  {
    RunKeepsWorld(cfg, t0, worlds, events, n - 1);
    assert IsWorldStep(worlds, events, n - 1);
    StepKeepsCovered(worlds[n - 1], events[n - 1].at, events[n - 1].step, rounds);
  }

  /** Six for each round but the current one, and in that one as many as calls were sent. */
  predicate Covered(w: World, rounds: nat) {
    && w.sent <= 6
    && if rounds == 0 then Given(w) == 0 && !w.mode.Calling? else Given(w) + 6 <= 6 * rounds + w.sent
  }

  lemma StepKeepsCovered(w: World, at: int, s: Step, rounds: nat)
    requires WorldInv(w) && Possible(w, s) && Covered(w, rounds)
    ensures Covered(After(w, at, s), rounds + if StartsRound(w, s) then 1 else 0)
  {
    StepCounts(w, at, s);
    if s.Call? {
      CallIsDue(w, s);
    }
  }

  lemma CallIsDue(w: World, s: Step)
    requires ModeInv(w) && Possible(w, s) && s.Call?
    ensures w.sent <= 5
  {
  }

  lemma Grown(before: map<Id, int>, after: map<Id, int>)
    requires before.Keys <= after.Keys
    ensures |after.Keys - before.Keys| == |after| - |before|
  {
    assert after.Keys == before.Keys + (after.Keys - before.Keys);
    assert |after.Keys| == |after| && |before.Keys| == |before|;
  }

  lemma {:induction false} OwnGoneStaysGone(cfg: Config, t0: int, worlds: seq<World>, events: seq<WorldEvent>, i: nat,
      j: nat, id: Id)
    requires IsWorldRun(cfg, t0, worlds, events) && i <= j <= |events|
    requires id in worlds[i].mine && id !in worlds[i].gw.st.instances
    ensures id !in worlds[j].gw.st.instances
    decreases j
  {
    if i < j {
      OwnGoneStaysGone(cfg, t0, worlds, events, i, j - 1, id);
      RecordIsKept(cfg, t0, worlds, events, i, j - 1, id);
      RunKeepsWorld(cfg, t0, worlds, events, j - 1);
      assert IsWorldStep(worlds, events, j - 1);
      GatewayKeeps(worlds[j - 1], events[j - 1].at, events[j - 1].step, id);
    }
  }

  /** The held id is replaced only when the gateway no longer has it, and then it never has it
      again. */
  lemma ReplacedIdIsGone(cfg: Config, t0: int, worlds: seq<World>, events: seq<WorldEvent>, i: nat, j: nat, id: Id)
    requires IsWorldRun(cfg, t0, worlds, events) && i < j <= |events|
    requires worlds[i].held == Some(id) && worlds[i + 1].held != Some(id)
    ensures id !in worlds[i].gw.st.instances && id !in worlds[j].gw.st.instances
  {
    RunKeepsWorld(cfg, t0, worlds, events, i);
    assert IsWorldStep(worlds, events, i);
    HeldIsReplacedOnlyWhenGone(worlds[i], events[i].at, events[i].step, id);
    OwnGoneStaysGone(cfg, t0, worlds, events, i, j, id);
  }

  /** Only the held id is ever refreshed, unless another user sends a heartbeat for it. */
  lemma OnlyHeldIsRefreshed(cfg: Config, t0: int, worlds: seq<World>, events: seq<WorldEvent>, i: nat, id: Id)
    requires IsWorldRun(cfg, t0, worlds, events) && i < |events|
    requires id in worlds[i].mine && id in worlds[i].gw.st.instances && id in worlds[i + 1].gw.st.instances
    requires worlds[i + 1].gw.st.instances[id].lastHeartbeat != worlds[i].gw.st.instances[id].lastHeartbeat
    ensures worlds[i].held == Some(id) || events[i].step == Other(Heartbeat(id))
  {
    RunKeepsWorld(cfg, t0, worlds, events, i);
    assert IsWorldStep(worlds, events, i);
    var gw := GatewayInv(worlds[i], events[i].at, events[i].step);
    if worlds[i].held != Some(id) && events[i].step != Other(Heartbeat(id)) {
      UnheldKept(worlds[i], gw, events[i].at, events[i].step, id);
    }
  }

  // ---------- what the client's steps achieve ----------

  /** A heartbeat refreshes the held instance when it arrives, and nothing else. Answered that the
      gateway has no such instance, the client starts over with its last request; otherwise it
      goes on beating. */
  lemma BeatOutcome(w: World, at: int, arrives: bool, answered: bool)
    requires WorldInv(w) && w.mode == Beating
    ensures Possible(w, Beat(arrives, answered)) && w.held.Some?
    ensures var id, before, w' := w.held.value, w.gw.st.instances, After(w, at, Beat(arrives, answered));
      && w'.held == w.held && w'.req == w.req
      && w'.mode == (if arrives && answered && id !in before then Calling(0, Again) else Beating)
      && w'.gw.st.instances ==
         (if arrives && id in before then before[id := before[id].(lastHeartbeat := at)] else before)
      && w'.net.beats == if arrives then w.net.beats else w.net.beats + multiset{id}
  {
  }

  /** Where a round ends that came to nothing: the caller of Register has its error, the heartbeat
      goroutine goes back to its ticker. */
  predicate GoesBack(mode: Mode, reason: Reason) {
    && (reason == First ==> mode == Idle)
    && (reason == Again ==> mode == Beating)
    && (reason == Late ==> mode == Stopped)
  }

  /** A call that is handled and admitted makes an instance for the request, and nothing else
      does; one that is lost may be handled later. */
  lemma CallReaches(w: World, at: int, id: Id, arrives: bool, answered: bool)
    requires WorldInv(w) && w.mode.Calling? && Fresh(w.gw, id)
    ensures Possible(w, Call(id, arrives, answered))
    ensures var w' := After(w, at, Call(id, arrives, answered));
      if arrives && Validate(w.req).None? && Accepted(w.gw.cfg, w.gw.st.routes, w.req) then
        && w'.mine == w.mine[id := at] && id in w'.gw.st.instances
        && w'.gw.st.instances[id].serviceName == w.req.serviceName && w'.gw.st.instances[id].status == Healthy
      else
        w'.gw == w.gw && w'.mine == w.mine
    ensures After(w, at, Call(id, arrives, answered)).net.asks ==
            if arrives then w.net.asks else w.net.asks + multiset{w.req}
  {
  }

  /** The client holds the instance it is told of; being told of a conflict ends the round, and any
      other failure does so at the sixth call. */
  lemma CallOutcome(w: World, at: int, id: Id, arrives: bool, answered: bool)
    requires WorldInv(w) && w.mode.Calling? && Fresh(w.gw, id)
    ensures var valid, w' := Validate(w.req).None?, After(w, at, Call(id, arrives, answered));
      && w'.req == w.req
      && if arrives && answered && valid && Accepted(w.gw.cfg, w.gw.st.routes, w.req) then
           w'.held == Some(id) && w'.mode == if w.mode.reason == Late then Stopped else Beating
         else
           && w'.held == w.held
           && if w.mode.attempt == 5 || (arrives && answered && valid) then GoesBack(w'.mode, w.mode.reason)
              else w'.mode == Calling(w.mode.attempt + 1, w.mode.reason)
  {
  }

  /** Register begins a round for its request, whose caller may give up in a wait. */
  lemma RegisterOutcome(w: World, at: int, req: Request)
    requires WorldInv(w) && (w.mode == Idle || (w.mode == Stopped && w.held == None))
    ensures Possible(w, Step.Register(req))
    ensures var w' := After(w, at, Step.Register(req));
      w' == w.(mode := Calling(0, if w.mode == Idle then First else Late), req := req, sent := 0)
    ensures var w' := After(w, at, Step.Register(req));
      Possible(w', GiveUp) && GoesBack(After(w', at, GiveUp).mode, w'.mode.reason)
  {
  }

  /** A request to deregister removes the held instance when it is sent and arrives. The client
      does not forget the id; Shutdown stops it in any case. */
  lemma LeaveOutcome(w: World, at: int, s: Step)
    requires WorldInv(w) && Possible(w, s) && (s.Deregister? || s.Shutdown?)
    ensures var w', sent := After(w, at, s), s.Shutdown? ==> s.sends;
      && w'.held == w.held && w'.mode == (if s.Shutdown? then Stopped else w.mode)
      && if w.held == None || !sent then w'.gw == w.gw && w'.net == w.net
         else if s.arrives then w'.gw.st.instances == w.gw.st.instances - {w.held.value} && w'.net == w.net
         else w'.gw == w.gw && w'.net == w.net.(leaves := w.net.leaves + multiset{w.held.value})
  {
  }

  /** A straggler has the effect it would have had; of the client itself, nothing changes. */
  lemma StragglerOutcome(w: World, at: int, s: Step)
    requires WorldInv(w) && Possible(w, s) && Aside(s)
    ensures var w', before, after := After(w, at, s), w.gw.st.instances, After(w, at, s).gw.st.instances;
      && w'.mode == w.mode && w'.held == w.held && w'.req == w.req && w'.sent == w.sent
      && (s.LateAsk? ==> (s.id in after <==> Validate(s.req).None? && Accepted(w.gw.cfg, w.gw.st.routes, s.req)))
      && (s.LateAsk? && s.id in after ==> w'.mine == w.mine[s.id := at])
      && (s.LateBeat? ==>
           after == if s.id in before then before[s.id := before[s.id].(lastHeartbeat := at)] else before)
      && (s.LateLeave? ==> after == before - {s.id})
      && (s.Other? ==> w'.gw == Next(w.gw, Event(at, s.op)))
  {
  }

  /** It is under way no more then. */
  lemma StragglerIsHandledOnce(w: World, at: int, s: Step)
    requires Possible(w, s) && Aside(s)
    ensures w.net == var net := After(w, at, s).net;
      match s
      case LateAsk(req, _) => net.(asks := net.asks + multiset{req})
      case LateBeat(id) => net.(beats := net.beats + multiset{id})
      case LateLeave(id) => net.(leaves := net.leaves + multiset{id})
      case _ => net
  {
    assert After(w, at, s).net == AsideNet(w.net, s);
  }

  /** A call that the client learns nothing of. */
  predicate Lost(s: Step) {
    s.Call? && !(s.arrives && s.answered)
  }

  /** The calls lost from step i up to step j. */
  function Losses(events: seq<WorldEvent>, i: nat, j: nat): nat
    requires i <= j <= |events|
  {
    if i == j then 0 else Losses(events, i, j - 1) + if Lost(events[j - 1].step) then 1 else 0
  }

  /** Step i is a heartbeat answered by not-found; up to step j the client only has calls lost. */
  predicate Recovering(worlds: seq<World>, events: seq<WorldEvent>, i: nat, j: nat)
    requires i < j <= |events| < |worlds|
  {
    && worlds[i].mode == Beating && worlds[i].held.Some? && worlds[i].held.value !in worlds[i].gw.st.instances
    && events[i].step == Beat(true, true)
    && forall k :: i < k < j ==> Aside(events[k].step) || Lost(events[k].step)
  }

  /** After a not-found answer, in every run, the client calls with its last request until six
      calls are lost, and only then goes back to beating. */
  lemma {:induction false} TriesSixTimes(
      cfg: Config, t0: int, worlds: seq<World>, events: seq<WorldEvent>, i: nat, j: nat)
    requires IsWorldRun(cfg, t0, worlds, events) && i < j <= |events| && Recovering(worlds, events, i, j)
    ensures worlds[j].held == worlds[i].held && worlds[j].req == worlds[i].req
    ensures var lost := Losses(events, i + 1, j);
      lost <= 6 && worlds[j].mode == if lost < 6 then Calling(lost, Again) else Beating
    decreases j
  {
    RunKeepsWorld(cfg, t0, worlds, events, j - 1);
    assert IsWorldStep(worlds, events, j - 1);
    var w, at, s := worlds[j - 1], events[j - 1].at, events[j - 1].step;
    if j == i + 1 {
      BeatOutcome(w, at, true, true);
    } else {
      TriesSixTimes(cfg, t0, worlds, events, i, j - 1);
      if Aside(s) {
        StragglerOutcome(w, at, s);
      } else {
        CallOutcome(w, at, s.id, s.arrives, s.answered);
      }
    }
  }

  /** The first of those calls that is answered and admitted gives the client an instance that the
      gateway has, and it beats for that one. */
  lemma RecoversWhenAdmitted(
      cfg: Config, t0: int, worlds: seq<World>, events: seq<WorldEvent>, i: nat, j: nat, id: Id)
    requires IsWorldRun(cfg, t0, worlds, events) && i < j < |events| && Recovering(worlds, events, i, j)
    requires events[j].step == Call(id, true, true)
    requires Validate(worlds[i].req).None? && Accepted(cfg, worlds[j].gw.st.routes, worlds[i].req)
    ensures worlds[j + 1].mode == Beating && worlds[j + 1].held == Some(id) != worlds[i].held
    ensures id in worlds[j + 1].gw.st.instances
    ensures worlds[j + 1].gw.st.instances[id].serviceName == worlds[i].req.serviceName
    ensures worlds[j + 1].gw.st.instances[id].lastHeartbeat == events[j].at
  {
    TriesSixTimes(cfg, t0, worlds, events, i, j);
    RunKeepsWorld(cfg, t0, worlds, events, j);
    assert IsWorldStep(worlds, events, j);
    CallReaches(worlds[j], events[j].at, id, true, true);
    CallOutcome(worlds[j], events[j].at, id, true, true);
    var gw := GatewayInv(worlds[j], events[j].at, events[j].step);
  }

  // ---------- orphans ----------

  /** An id created for the client that it does not hold. */
  predicate Orphan(w: World, id: Id) {
    id in w.mine && w.held != Some(id)
  }

  /** The last sweep left no orphan older than twice the TTL. */
  predicate OrphansSwept(w: World) {
    forall id :: Orphan(w, id) && id in w.gw.st.instances ==> w.sweep - w.mine[id] <= w.gw.cfg.heartbeatTTL * 2
  }

  lemma SweepStep(w: World, gw: Sys, at: int, s: Step)
    requires Possible(w, s) && w.sweep <= at
    ensures AfterGateway(w, gw, at, s).sweep == if GatewayOp(w, s) == Some(Cleanup) then at else w.sweep
  {
  }

  lemma OrphanSwept(w: World, gw: Sys, at: int, s: Step, id: Id)
    requires ModeInv(w) && BeatsInv(w) && Possible(w, s) && GatewayDoes(w, gw, at, s)
    requires Discreet(w, s) && id in w.mine && Unrefreshed(w, id) && w.sweep <= at
    requires Orphan(w, id) && id in w.gw.st.instances ==> w.sweep - w.mine[id] <= w.gw.cfg.heartbeatTTL * 2
    requires AfterGateway(w, gw, at, s).held != Some(id) && id in gw.st.instances
    ensures AfterGateway(w, gw, at, s).sweep - w.mine[id] <= w.gw.cfg.heartbeatTTL * 2
  {
    SweepStep(w, gw, at, s);
    assert KeepsOwn(w, gw, at, s, id);
    if w.held == Some(id) {
      HeldChanges(w, gw, at, s, id);
    }
    UnheldKept(w, gw, at, s, id);
  }

  lemma StepSweepsOrphans(w: World, gw: Sys, at: int, s: Step)
    requires ModeInv(w) && BeatsInv(w) && Possible(w, s) && GatewayDoes(w, gw, at, s)
    requires Discreet(w, s) && UnheldUnrefreshed(w) && OrphansSwept(w)
    requires w.sweep <= at && 0 <= w.gw.cfg.heartbeatTTL
    ensures OrphansSwept(AfterGateway(w, gw, at, s)) && AfterGateway(w, gw, at, s).sweep <= at
  {
    var w' := AfterGateway(w, gw, at, s);
    SweepStep(w, gw, at, s);
    AskedIsNew(w, gw, at, s);
    forall id | Orphan(w', id) && id in gw.st.instances ensures w'.sweep - w'.mine[id] <= w.gw.cfg.heartbeatTTL * 2 {
      if id in w.mine {
        OrphanSwept(w, gw, at, s, id);
      }
    }
  }

  /** The clock does not run back, and nobody else refreshes the client's instances. */
  predicate QuietRun(t0: int, worlds: seq<World>, events: seq<WorldEvent>)
    requires |events| < |worlds|
  {
    && (forall i :: 0 <= i < |events| ==> t0 <= events[i].at)
    && (forall i, j :: 0 <= i <= j < |events| ==> events[i].at <= events[j].at)
    && (forall i :: 0 <= i < |events| ==> Discreet(worlds[i], events[i].step))
  }

  lemma {:induction false} RunSweepsOrphans(cfg: Config, t0: int, worlds: seq<World>, events: seq<WorldEvent>, n: nat)
    requires IsWorldRun(cfg, t0, worlds, events) && n <= |events| && 0 <= cfg.heartbeatTTL
    requires QuietRun(t0, worlds, events)
    ensures UnheldUnrefreshed(worlds[n])
    ensures OrphansSwept(worlds[n]) && worlds[n].sweep <= if n == 0 then t0 else events[n - 1].at
  {
    if n > 0 {
      RunSweepsOrphans(cfg, t0, worlds, events, n - 1);
      RunKeepsWorld(cfg, t0, worlds, events, n - 1);
      assert IsWorldStep(worlds, events, n - 1);
      var gw := GatewayInv(worlds[n - 1], events[n - 1].at, events[n - 1].step);
      StepKeepsUnheld(worlds[n - 1], gw, events[n - 1].at, events[n - 1].step);
      StepSweepsOrphans(worlds[n - 1], gw, events[n - 1].at, events[n - 1].step);
    }
  }

  /** Every orphan is gone within twice the TTL plus one sweep gap of its creation, in every
      quiet run. */
  lemma OrphansExpire(cfg: Config, t0: int, worlds: seq<World>, events: seq<WorldEvent>, n: nat, now: int, gap: int,
      id: Id)
    requires IsWorldRun(cfg, t0, worlds, events) && n <= |events| && 0 <= cfg.heartbeatTTL
    requires QuietRun(t0, worlds, events)
    requires now - worlds[n].sweep <= gap
    requires Orphan(worlds[n], id) && now - worlds[n].mine[id] > cfg.heartbeatTTL * 2 + gap
    ensures id !in worlds[n].gw.st.instances
  {
    RunSweepsOrphans(cfg, t0, worlds, events, n);
    RunKeepsWorld(cfg, t0, worlds, events, n);
  }

  // ---------- a client that has stopped ----------

  /** After Shutdown: no heartbeat is sent any more, by a late Register neither. */
  predicate Silent(w: World) {
    w.mode == Stopped || (w.mode.Calling? && w.mode.reason == Late)
  }

  /** From w to w' the client is silent: the instance id, if still there, was not refreshed, and
      no new heartbeat got under way. */
  predicate SilentSince(w: World, w': World, id: Id) {
    && Silent(w') && w'.net.beats <= w.net.beats
    && (id in w'.gw.st.instances ==>
         && id in w.gw.st.instances
         && w'.gw.st.instances[id].lastHeartbeat == w.gw.st.instances[id].lastHeartbeat)
  }

  lemma StaysSilent(w: World, gw: Sys, at: int, s: Step)
    requires Possible(w, s) && Silent(w)
    ensures Silent(AfterGateway(w, gw, at, s))
  {
  }

  lemma NoNewBeats(w: World, s: Step)
    requires Possible(w, s) && Silent(w)
    ensures Network(w, s).beats <= w.net.beats
  {
    if s.LateBeat? {
      assert Network(w, s).beats == w.net.beats - multiset{s.id};
    } else {
      assert Network(w, s).beats == w.net.beats;
    }
  }

  lemma NoBeatHandled(w: World, s: Step, id: Id)
    requires Possible(w, s) && Silent(w) && s != LateBeat(id) && s != Other(Heartbeat(id))
    ensures GatewayOp(w, s) != Some(Heartbeat(id))
  {
  }

  lemma SilentStep(w: World, gw: Sys, at: int, s: Step, id: Id)
    requires Possible(w, s) && GatewayDoes(w, gw, at, s) && Discreet(w, s) && Silent(w) && id in w.mine
    requires s != LateBeat(id)
    ensures SilentSince(w, AfterGateway(w, gw, at, s), id)
  {
    StaysSilent(w, gw, at, s);
    NoNewBeats(w, s);
    NoBeatHandled(w, s, id);
    assert KeepsOwn(w, gw, at, s, id);
  }

  lemma SilentThrough(w: World, mid: World, w': World, id: Id)
    requires SilentSince(w, mid, id) && SilentSince(mid, w', id)
    ensures SilentSince(w, w', id)
  {
  }

  /** Once the client has stopped, for good, no instance of its is refreshed in a quiet run, but
      by a heartbeat that was under way; and no new one gets under way. */
  lemma {:induction false} StoppedIsSilent(
      cfg: Config, t0: int, worlds: seq<World>, events: seq<WorldEvent>, i: nat, j: nat, id: Id)
    requires IsWorldRun(cfg, t0, worlds, events) && i <= j <= |events| && QuietRun(t0, worlds, events)
    requires Silent(worlds[i]) && id in worlds[i].mine
    requires forall k :: i <= k < j ==> events[k].step != LateBeat(id)
    ensures SilentSince(worlds[i], worlds[j], id)
    decreases j
  {
    if i < j {
      StoppedIsSilent(cfg, t0, worlds, events, i, j - 1, id);
      RecordIsKept(cfg, t0, worlds, events, i, j - 1, id);
      SilentLast(cfg, t0, worlds, events, j, id);
      SilentThrough(worlds[i], worlds[j - 1], worlds[j], id);
    }
  }

  lemma SilentLast(cfg: Config, t0: int, worlds: seq<World>, events: seq<WorldEvent>, j: nat, id: Id)
    requires IsWorldRun(cfg, t0, worlds, events) && 0 < j <= |events| && QuietRun(t0, worlds, events)
    requires Silent(worlds[j - 1]) && id in worlds[j - 1].mine && events[j - 1].step != LateBeat(id)
    ensures SilentSince(worlds[j - 1], worlds[j], id)
  {
    RunKeepsWorld(cfg, t0, worlds, events, j - 1);
    assert IsWorldStep(worlds, events, j - 1);
    assert Discreet(worlds[j - 1], events[j - 1].step);
    SilentNext(worlds[j - 1], events[j - 1], id);
  }

  lemma SilentNext(w: World, e: WorldEvent, id: Id)
    requires WorldInv(w) && Possible(w, e.step) && Discreet(w, e.step) && Silent(w) && id in w.mine
    requires e.step != LateBeat(id)
    ensures SilentSince(w, After(w, e.at, e.step), id)
  {
    var gw := GatewayInv(w, e.at, e.step);
    SilentStep(w, gw, e.at, e.step, id);
  }

  /** The last sweep left no instance of the client's beyond twice the TTL of its heartbeat. */
  predicate OwnSwept(w: World) {
    forall id :: id in w.mine && id in w.gw.st.instances ==>
      w.sweep - w.gw.st.instances[id].lastHeartbeat <= w.gw.cfg.heartbeatTTL * 2
  }

  lemma StepSweepsOwn(w: World, gw: Sys, at: int, s: Step)
    requires Possible(w, s) && GatewayDoes(w, gw, at, s) && OwnSwept(w)
    requires w.sweep <= at && 0 <= w.gw.cfg.heartbeatTTL
    ensures OwnSwept(AfterGateway(w, gw, at, s)) && AfterGateway(w, gw, at, s).sweep <= at
  {
    var w' := AfterGateway(w, gw, at, s);
    forall id | id in w'.mine && id in gw.st.instances
      ensures w'.sweep - gw.st.instances[id].lastHeartbeat <= w.gw.cfg.heartbeatTTL * 2
    {
      if id in w.mine {
        assert KeepsOwn(w, gw, at, s, id);
      }
    }
  }

  lemma {:induction false} RunSweepsOwn(cfg: Config, t0: int, worlds: seq<World>, events: seq<WorldEvent>, n: nat)
    requires IsWorldRun(cfg, t0, worlds, events) && n <= |events| && 0 <= cfg.heartbeatTTL
    requires forall i :: 0 <= i < |events| ==> t0 <= events[i].at
    requires forall i, j :: 0 <= i <= j < |events| ==> events[i].at <= events[j].at
    ensures OwnSwept(worlds[n]) && worlds[n].sweep <= if n == 0 then t0 else events[n - 1].at
  {
    if n > 0 {
      RunSweepsOwn(cfg, t0, worlds, events, n - 1);
      RunKeepsWorld(cfg, t0, worlds, events, n - 1);
      assert IsWorldStep(worlds, events, n - 1);
      var gw := GatewayInv(worlds[n - 1], events[n - 1].at, events[n - 1].step);
      StepSweepsOwn(worlds[n - 1], gw, events[n - 1].at, events[n - 1].step);
    }
  }

  /** Everything a stopped client left behind, the id it holds included, is gone within twice the
      TTL plus one sweep gap of its last heartbeat; so is what it registers after Shutdown. */
  lemma StoppedClientExpires(
      cfg: Config, t0: int, worlds: seq<World>, events: seq<WorldEvent>, i: nat, j: nat, now: int, gap: int, id: Id)
    requires IsWorldRun(cfg, t0, worlds, events) && i <= j <= |events| && QuietRun(t0, worlds, events)
    requires 0 <= cfg.heartbeatTTL && now - worlds[j].sweep <= gap
    requires Silent(worlds[i]) && id in worlds[i].mine && id in worlds[i].gw.st.instances
    requires forall k :: i <= k < j ==> events[k].step != LateBeat(id)
    requires now - worlds[i].gw.st.instances[id].lastHeartbeat > cfg.heartbeatTTL * 2 + gap
    ensures id !in worlds[j].gw.st.instances
  {
    RunSweepsOwn(cfg, t0, worlds, events, j);
    RunKeepsWorld(cfg, t0, worlds, events, j);
    RecordIsKept(cfg, t0, worlds, events, i, j, id);
    StoppedIsSilent(cfg, t0, worlds, events, i, j, id);
  }
}
