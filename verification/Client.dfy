/** The client object of pkg/client: its methods with their loops, each proved to be a stretch of
    a run of the protocol, so that what holds of every such run holds of the object. */
module Client {
  import opened Text
  import opened Filtering
  import opened RegistrySpec
  import opened Retry
  import Runs
  import P = ClientProtocol

  /** What befalls one request: what goes on beside the client before it, its time, whether it
      arrives, whether its response comes back whole, whether the context ends in the wait
      after it. */
  datatype Fate = Fate(others: seq<P.WorldEvent>, at: int, arrives: bool, answered: bool, cancelled: bool)

  datatype Reply = Created(id: Id) | Conflict | Failed

  /** The steps of a run that are the client's own. */
  function Own(events: seq<P.WorldEvent>): seq<P.Step> {
    if events == [] then []
    else Own(events[..|events| - 1]) + if P.Aside(events[|events| - 1].step) then [] else [events[|events| - 1].step]
  }

  /** The n calls of one round, as the network treated them. */
  predicate AreCalls(steps: seq<P.Step>, n: nat, fates: nat -> Fate) {
    && n <= |steps|
    && forall i :: 0 <= i < n ==>
         steps[i].Call? && steps[i].arrives == fates(i).arrives && steps[i].answered == fates(i).answered
  }

  /** What a round of calls came to: the verdict of retryWithBackoff on the replies. */
  predicate Concludes(replies: seq<Reply>, verdict: Verdict, fates: nat -> Fate) {
    && 1 <= |replies| <= 6
    && (forall i :: 0 <= i < |replies| - 1 ==> replies[i] == Failed && !fates(i).cancelled)
    && match replies[|replies| - 1]
       case Created(_) => verdict == Done
       case Conflict => verdict == GaveCollision
       case Failed =>
         if |replies| == 6 then verdict == Exhausted
         else verdict == Cancelled && fates(|replies| - 1).cancelled
  }

  /** Replies after which another call is made. */
  predicate AllRetried(replies: seq<Reply>, fates: nat -> Fate) {
    forall i :: 0 <= i < |replies| ==> replies[i] == Failed && (i < P.MAX_RETRIES ==> !fates(i).cancelled)
  }

  lemma OneMoreReply(replies: seq<Reply>, reply: Reply, fates: nat -> Fate)
    requires |replies| <= P.MAX_RETRIES && AllRetried(replies, fates)
    ensures reply.Created? ==> Concludes(replies + [reply], Done, fates)
    ensures reply.Conflict? ==> Concludes(replies + [reply], GaveCollision, fates)
    ensures reply.Failed? ==>
      if |replies| < P.MAX_RETRIES && fates(|replies|).cancelled then Concludes(replies + [reply], Cancelled, fates)
      else (AllRetried(replies + [reply], fates) &&
            (|replies| == P.MAX_RETRIES ==> Concludes(replies + [reply], Exhausted, fates)))
  {
  }

  /** The client's steps of one round: n calls, and giving up if the context ended. */
  predicate IsRound(steps: seq<P.Step>, n: nat, fates: nat -> Fate, verdict: Verdict) {
    AreCalls(steps, n, fates) && steps[n..] == if verdict == Cancelled then [P.GiveUp] else []
  }

  lemma OneMoreCall(steps: seq<P.Step>, step: P.Step, n: nat, fates: nat -> Fate)
    requires IsRound(steps, n, fates, Exhausted) && AreCalls([step], 1, _ => fates(n))
    ensures IsRound(steps + [step], n + 1, fates, Done) && IsRound(steps + [step], n + 1, fates, GaveCollision)
    ensures IsRound(steps + [step], n + 1, fates, Exhausted)
    ensures IsRound(steps + [step] + [P.GiveUp], n + 1, fates, Cancelled)
  {
    assert [step][0] == step;
  }

  datatype RegisterResult = AlreadyRegistered | Tried(verdict: Verdict)

  lemma RunExtends(cfg: Config, t0: int, worlds: seq<P.World>, events: seq<P.WorldEvent>, at: int, s: P.Step)
    requires P.IsWorldRun(cfg, t0, worlds, events) && P.Possible(worlds[|events|], s)
    ensures P.IsWorldRun(cfg, t0, worlds + [P.After(worlds[|events|], at, s)], events + [P.WorldEvent(at, s)])
    ensures Own(events + [P.WorldEvent(at, s)]) == Own(events) + if P.Aside(s) then [] else [s]
  {
    var w', e := P.After(worlds[|events|], at, s), P.WorldEvent(at, s);
    forall i | 0 <= i <= |events| ensures P.IsWorldStep(worlds + [w'], events + [e], i) {
      if i < |events| {
        assert P.IsWorldStep(worlds, events, i);
        StepKept(worlds, events, w', e, i);
      }
    }
    assert (events + [e])[..|events|] == events;
  }

  lemma StepKept(worlds: seq<P.World>, events: seq<P.WorldEvent>, w: P.World, e: P.WorldEvent, i: nat)
    requires i < |events| < |worlds| && P.IsWorldStep(worlds, events, i)
    ensures P.IsWorldStep(worlds + [w], events + [e], i)
  {
    assert (worlds + [w])[i] == worlds[i] && (worlds + [w])[i + 1] == worlds[i + 1] && (events + [e])[i] == events[i];
  }

  /** The gateway never runs out of ids. */
  lemma SomeIdIsFresh(sys: Runs.Sys)
    ensures exists id :: Runs.Fresh(sys, id)
  {
    var used := (set i | 0 <= i < |sys.log| :: sys.log[i]) + (set t | t in sys.pending :: sys.pending[t].id);
    var n := LongerThanAll(used);
    var id := seq(n, _ => 'x');
    assert id !in used;
    assert Runs.Fresh(sys, id);
  }

  lemma AsideStep(w: P.World, at: int, s: P.Step)
    requires P.Aside(s) && P.AsidePossible(w.gw, w.net, s)
    ensures P.Possible(w, s)
    ensures var w' := P.After(w, at, s);
      && w'.gw == Runs.Next(w.gw, Runs.Event(at, P.AsideOp(s))) && w'.net == P.AsideNet(w.net, s)
      && w'.mode == w.mode && w'.held == w.held && w'.req == w.req
  {
  }

  class RegistryClient {
    var instanceID: Option<Id>
    var registered: bool
    var stopped: bool
    var lastRegisterReq: Request

    /** The far end, and what is under way to it. */
    var gateway: Runs.Sys
    var network: P.Net

    const cfg: Config
    const t0: int
    ghost var worlds: seq<P.World>
    ghost var events: seq<P.WorldEvent>

    ghost function World(): P.World
      requires |worlds| > 0
      reads this
    {
      worlds[|worlds| - 1]
    }

    /** What has happened is a run of the protocol that ends in this object's state. */
    ghost predicate Tracks(held: Option<Id>)
      reads this
    {
      && P.IsWorldRun(cfg, t0, worlds, events)
      && World().gw == gateway && World().net == network && World().req == lastRegisterReq && World().held == held
    }

    ghost predicate Valid()
      reads this
    {
      && Tracks(instanceID)
      && World().mode == (if stopped then P.Stopped else if registered then P.Beating else P.Idle)
      && (registered <==> instanceID.Some?)
    }

    constructor (cfg: Config, t0: int)
      ensures Valid() && !registered && !stopped && instanceID == None && Own(events) == []
      ensures gateway == Runs.Start(cfg)
    {
      this.cfg, this.t0 := cfg, t0;
      var start := P.Begin(cfg, t0);
      instanceID, registered, stopped, lastRegisterReq := None, false, false, start.req;
      gateway, network := start.gw, start.net;
      worlds, events := [start], [];
    }

    /** The history only grows. */
    twostate predicate Continues()
      reads this
    {
      old(worlds) <= worlds && old(events) <= events
    }

    ghost method Record(at: int, s: P.Step)
      requires P.IsWorldRun(cfg, t0, worlds, events) && P.Possible(World(), s)
      modifies this`worlds, this`events
      ensures P.IsWorldRun(cfg, t0, worlds, events) && World() == P.After(old(World()), at, s)
      ensures Own(events) == Own(old(events)) + if P.Aside(s) then [] else [s]
      ensures Continues() && events == old(events) + [P.WorldEvent(at, s)]
    {
      RunExtends(cfg, t0, worlds, events, at, s);
      worlds, events := worlds + [P.After(World(), at, s)], events + [P.WorldEvent(at, s)];
    }

    /** What goes on meanwhile: other users act, and stragglers of this client are handled. */
    method Elsewhere(others: seq<P.WorldEvent>, ghost held: Option<Id>)
      requires Tracks(held)
      modifies this`gateway, this`network, this`worlds, this`events
      ensures Tracks(held) && World().mode == old(World().mode) && Own(events) == Own(old(events)) && Continues()
    {
      for i := 0 to |others|
        invariant Tracks(held) && World().mode == old(World().mode) && Own(events) == Own(old(events)) && Continues()
      {
        StepAside(others[i].at, others[i].step, held);
      }
    }

    method StepAside(at: int, step: P.Step, ghost held: Option<Id>)
      requires Tracks(held)
      modifies this`gateway, this`network, this`worlds, this`events
      ensures Tracks(held) && World().mode == old(World().mode) && Own(events) == Own(old(events)) && Continues()
    {
      if P.Aside(step) && P.AsidePossible(gateway, network, step) {
        AsideStep(World(), at, step);
        Record(at, step);
        gateway, network := Runs.Next(gateway, Runs.Event(at, P.AsideOp(step))), P.AsideNet(network, step);
      }
    }

    /** doRegister: one request for lastRegisterReq. A response that is lost, a refused request
        and an unreadable response are failures alike. */
    method DoRegister(fate: Fate) returns (reply: Reply, ghost step: P.Step)
      requires Tracks(instanceID) && World().mode.Calling? && World().mode.attempt <= P.MAX_RETRIES
      modifies this`gateway, this`network, this`worlds, this`events
      ensures Asked(old(World().mode), fate, reply, step)
      ensures Continues() && |events| > |old(events)| && Own(events) == Own(old(events)) + [step]
    {
      Elsewhere(fate.others, instanceID);
      SomeIdIsFresh(gateway);
      var id :| Runs.Fresh(gateway, id);
      reply, step := Ask(fate, id);
    }

    /** The last step was a call made in the given mode, with this reply: an id is given exactly
        when the request arrived, the gateway as it then was admitted it, and the answer came back;
        a conflict is reported exactly when it refused it for its routes. */
    ghost predicate Asked(mode: P.Mode, fate: Fate, reply: Reply, step: P.Step)
      requires mode.Calling?
      reads this
    {
      && Tracks(if reply.Created? then Some(reply.id) else instanceID)
      && World().mode == (match reply
           case Created(_) => P.Settled(mode.reason)
           case Conflict => P.Resting(mode.reason)
           case Failed => P.AfterFailure(mode.attempt, mode.reason))
      && |events| > 0 && events[|events| - 1].step == step && step.Call? && AreCalls([step], 1, _ => fate)
      && Replied(worlds[|events| - 1].gw, fate, reply, step.id)
      && (reply.Created? ==> reply.id in gateway.st.instances)
    }

    predicate Replied(gw: Runs.Sys, fate: Fate, reply: Reply, id: Id)
      reads this`lastRegisterReq
    {
      reply ==
        if !fate.arrives || !fate.answered || Validate(lastRegisterReq).Some? then Failed
        else if Accepted(gw.cfg, gw.st.routes, lastRegisterReq) then Created(id) else Conflict
    }

    method Ask(fate: Fate, id: Id) returns (reply: Reply, ghost step: P.Step)
      requires Tracks(instanceID) && World().mode.Calling? && World().mode.attempt <= P.MAX_RETRIES
      requires Runs.Fresh(gateway, id)
      modifies this`gateway, this`network, this`worlds, this`events
      ensures Asked(old(World().mode), fate, reply, step)
      ensures Continues() && |events| > |old(events)| && Own(events) == Own(old(events)) + [step]
    {
      step := P.Call(id, fate.arrives, fate.answered);
      Record(fate.at, step);
      reply := Failed;
      if fate.arrives {
        var admitted := Runs.Admits(gateway, lastRegisterReq);
        gateway := Runs.Next(gateway, Runs.Event(fate.at, Runs.Register(id, lastRegisterReq)));
        if fate.answered {
          reply := if admitted then Created(id) else if Validate(lastRegisterReq).None? then Conflict else Failed;
        }
      } else {
        network := network.(asks := network.asks + multiset{lastRegisterReq});
      }
    }

    /** The context ends during a wait. */
    ghost method StopWaiting(at: int)
      requires Tracks(instanceID) && World().mode.Calling?
      modifies this`worlds, this`events
      ensures Tracks(instanceID) && World().mode == P.Resting(old(World().mode).reason)
      ensures Own(events) == Own(old(events)) + [P.GiveUp] && Continues()
    {
      Record(at, P.GiveUp);
    }

    /** A round in progress, whose next attempt is due; own is what the client had done before it. */
    ghost predicate Between(
      replies: seq<Reply>, steps: seq<P.Step>, fates: nat -> Fate, reason: P.Reason, own: seq<P.Step>)
      reads this
    {
      && |replies| <= P.MAX_RETRIES && AllRetried(replies, fates) && IsRound(steps, |replies|, fates, Exhausted)
      && Tracks(instanceID) && World().mode == P.Calling(|replies|, reason)
      && Own(events) == own + steps
    }

    /** A round that has ended; the id it may have given is not held yet. */
    ghost predicate Ended(
      verdict: Verdict, replies: seq<Reply>, steps: seq<P.Step>, fates: nat -> Fate, reason: P.Reason, own: seq<P.Step>)
      reads this
    {
      && Concludes(replies, verdict, fates) && IsRound(steps, |replies|, fates, verdict)
      && Tracks(if verdict == Done then Some(replies[|replies| - 1].id) else instanceID)
      && World().mode == (if verdict == Done then P.Settled(reason) else P.Resting(reason))
      && Own(events) == own + steps
    }

    /** One attempt: a verdict if it ends the round, none if another call follows. */
    method Attempt(fates: nat -> Fate, before: seq<Reply>, ghost stepsBefore: seq<P.Step>,
                   ghost reason: P.Reason, ghost own: seq<P.Step>)
      returns (verdict: Option<Verdict>, replies: seq<Reply>, ghost steps: seq<P.Step>)
      requires Between(before, stepsBefore, fates, reason, own)
      modifies this`gateway, this`network, this`worlds, this`events
      ensures |replies| == |before| + 1 && Continues()
      ensures match verdict
        case None => Between(replies, steps, fates, reason, own)
        case Some(v) => Ended(v, replies, steps, fates, reason, own)
    {
      var reply;
      ghost var step;
      reply, step := DoRegister(fates(|before|));
      replies, steps := before + [reply], stepsBefore + [step];
      OneMoreReply(before, reply, fates);
      OneMoreCall(stepsBefore, step, |before|, fates);
      if reply.Created? {
        return Some(Done), replies, steps;
      }
      if reply.Conflict? {
        return Some(GaveCollision), replies, steps;
      }
      if |before| == P.MAX_RETRIES {
        return Some(Exhausted), replies, steps;
      }
      if fates(|before|).cancelled {
        StopWaiting(fates(|before|).at);
        return Some(Cancelled), replies, steps + [P.GiveUp];
      }
      return None, replies, steps;
    }

    /** retryWithBackoff around doRegister. */
    method CallUntilDone(fates: nat -> Fate) returns (verdict: Verdict, replies: seq<Reply>, ghost steps: seq<P.Step>)
      requires Tracks(instanceID) && World().mode.Calling? && World().mode.attempt == 0
      modifies this`gateway, this`network, this`worlds, this`events
      ensures Ended(verdict, replies, steps, fates, old(World().mode.reason), old(Own(events))) && Continues()
    {
      replies, steps := [], [];
      ghost var reason, own := World().mode.reason, Own(events);
      var done := None;
      while done == None
        invariant match done
          case None => Between(replies, steps, fates, reason, own)
          case Some(v) => Ended(v, replies, steps, fates, reason, own)
        invariant Continues()
        decreases if done == None then P.MAX_RETRIES + 1 - |replies| else -1
      {
        done, replies, steps := Attempt(fates, replies, steps, reason, own);
      }
      return done.value, replies, steps;
    }

    /** Register: refused while registered; otherwise one round of calls, after whose success
        the client holds the id it was given. Its heartbeat then starts, but after Shutdown the
        goroutine returns at once. */
    method Register(req: Request, at: int, fates: nat -> Fate)
        returns (result: RegisterResult, replies: seq<Reply>, ghost steps: seq<P.Step>)
      requires Valid()
      modifies this
      ensures Valid() && stopped == old(stopped)
      ensures old(registered) ==> result == AlreadyRegistered && unchanged(this)
      ensures !old(registered) ==>
        && result.Tried? && Concludes(replies, result.verdict, fates) &&
           IsRound(steps, |replies|, fates, result.verdict)
        && Own(events) == Own(old(events)) + [P.Register(req)] + steps
        && lastRegisterReq == req
        && registered == (result.verdict == Done)
        && instanceID == (if registered then Some(replies[|replies| - 1].id) else old(instanceID))
    {
      replies, steps := [], [];
      if registered {
        return AlreadyRegistered, replies, steps;
      }
      Record(at, P.Register(req));
      lastRegisterReq := req;
      var verdict;
      verdict, replies, steps := CallUntilDone(fates);
      if verdict == Done {
        instanceID := Some(replies[|replies| - 1].id);
        registered := true;
      }
      return Tried(verdict), replies, steps;
    }

    /** reregister: the same for the last request, with the old id kept on failure. */
    method Reregister(fates: nat -> Fate) returns (verdict: Verdict, replies: seq<Reply>, ghost steps: seq<P.Step>)
      requires Tracks(instanceID) && World().mode == P.Calling(0, P.Again)
      requires registered && !stopped && instanceID.Some?
      modifies this
      ensures Valid() && registered && !stopped && lastRegisterReq == old(lastRegisterReq)
      ensures Concludes(replies, verdict, fates) && IsRound(steps, |replies|, fates, verdict)
      ensures Own(events) == Own(old(events)) + steps && Continues()
      ensures instanceID == if verdict == Done then Some(replies[|replies| - 1].id) else old(instanceID)
    {
      verdict, replies, steps := CallUntilDone(fates);
      if verdict == Done {
        instanceID := Some(replies[|replies| - 1].id);
      }
    }

    /** sendHeartbeat: one request for the held id. */
    method SendHeartbeat(fate: Fate) returns (notFound: bool)
      requires Valid() && registered && !stopped
      modifies this`gateway, this`network, this`worlds, this`events
      ensures Tracks(instanceID) && World().mode == if notFound then P.Calling(0, P.Again) else P.Beating
      ensures notFound <==> fate.arrives && fate.answered && instanceID.value !in old(gateway.st.instances)
      ensures events == old(events) + [P.WorldEvent(fate.at, P.Beat(fate.arrives, fate.answered))] && Continues()
      ensures Own(events) == Own(old(events)) + [P.Beat(fate.arrives, fate.answered)]
    {
      notFound := fate.arrives && fate.answered && instanceID.value !in gateway.st.instances;
      Record(fate.at, P.Beat(fate.arrives, fate.answered));
      if fate.arrives {
        gateway := Runs.Next(gateway, Runs.Event(fate.at, Runs.Heartbeat(instanceID.value)));
      } else {
        network := network.(beats := network.beats + multiset{instanceID.value});
      }
    }

    /** One tick of the heartbeat loop: a heartbeat for the held id and, when the gateway
        answers that it has no such instance, a re-registration. The heartbeat is step k of the
        history. */
    method OnTick(fate: Fate, fates: nat -> Fate)
        returns (notFound: bool, replies: seq<Reply>, ghost steps: seq<P.Step>, ghost k: nat)
      requires Valid() && registered && !stopped
      modifies this
      ensures Valid() && registered && !stopped && lastRegisterReq == old(lastRegisterReq)
      ensures Continues() && |old(events)| <= k < |events|
      ensures events[k] == P.WorldEvent(fate.at, P.Beat(fate.arrives, fate.answered))
      ensures notFound <==>
        fate.arrives && fate.answered && old(instanceID).value !in worlds[k].gw.st.instances
      ensures Own(events) == Own(old(events)) + [P.Beat(fate.arrives, fate.answered)] + steps
      ensures if notFound then
                exists verdict :: Concludes(replies, verdict, fates) && IsRound(steps, |replies|, fates, verdict)
              else replies == [] && steps == []
      ensures instanceID == if notFound && replies[|replies| - 1].Created?
                            then Some(replies[|replies| - 1].id) else old(instanceID)
    {
      replies, steps := [], [];
      Elsewhere(fate.others, instanceID);
      k := |events|;
      notFound := SendHeartbeat(fate);
      if notFound {
        var verdict;
        verdict, replies, steps := Reregister(fates);
      }
    }

    /** The heartbeat loop: a tick is handled to its end before the next select, and the stop
        channel ends the loop, however many ticks would follow. */
    method HeartbeatLoop(turns: seq<Turn>) returns (ticks: nat)
      requires Valid() && registered && !stopped
      modifies this
      ensures Valid() && registered && !stopped && lastRegisterReq == old(lastRegisterReq)
      ensures ticks == FirstStop(turns) && Beats(Own(events)) == Beats(Own(old(events))) + ticks
      ensures instanceID.Some? && instanceID.value in World().mine
    {
      ticks := 0;
      ghost var beats := Beats(Own(events));
      while ticks < |turns|
        invariant ticks <= FirstStop(turns)
        invariant Beaten(beats + ticks) && lastRegisterReq == old(lastRegisterReq)
      {
        match turns[ticks] {
          case StopSeen =>
            HeldIsOwn();
            return;
          case Tick(fate, fates) =>
            CountTick(fate, fates, beats + ticks);
        }
        ticks := ticks + 1;
      }
      HeldIsOwn();
    }

    lemma HeldIsOwn()
      requires Valid() && registered
      ensures instanceID.Some? && instanceID.value in World().mine
    {
      P.RunKeepsWorld(cfg, t0, worlds, events, |events|);
    }

    /** The loop is alive and has sent n heartbeats. */
    ghost predicate Beaten(n: nat)
      reads this
    {
      Valid() && registered && !stopped && Beats(Own(events)) == n
    }

    method CountTick(fate: Fate, fates: nat -> Fate, ghost n: nat)
      requires Beaten(n)
      modifies this
      ensures Beaten(n + 1) && lastRegisterReq == old(lastRegisterReq)
    {
      ghost var before := Own(events);
      var notFound, replies;
      ghost var steps, k;
      notFound, replies, steps, k := OnTick(fate, fates);
      if notFound {
        ghost var verdict :| Concludes(replies, verdict, fates) && IsRound(steps, |replies|, fates, verdict);
        RoundHasNoBeat(steps, |replies|, fates, verdict);
      }
      BeatsConcat(before, [P.Beat(fate.arrives, fate.answered)], steps);
    }

    /** The request to deregister the held id, if any. */
    method SendLeave(at: int, arrives: bool)
      modifies this`gateway, this`network
      ensures arrives && instanceID.Some? ==>
        gateway == Runs.Next(old(gateway), Runs.Event(at, Runs.Deregister(instanceID.value)))
      ensures instanceID == None || !arrives ==> gateway == old(gateway)
      ensures network == if arrives then old(network) else P.LeaveUnhandled(old(network), instanceID)
    {
      if instanceID.Some? && arrives {
        gateway := Runs.Next(gateway, Runs.Event(at, Runs.Deregister(instanceID.value)));
      } else if !arrives {
        network := P.LeaveUnhandled(network, instanceID);
      }
    }

    /** Deregister: a request for the held id, if any; the client does not forget the id. */
    method Deregister(at: int, arrives: bool)
      requires Valid()
      modifies this`gateway, this`network, this`worlds, this`events
      ensures Valid() && Own(events) == Own(old(events)) + [P.Deregister(arrives)]
      ensures arrives && instanceID.Some? ==> instanceID.value !in gateway.st.instances
      ensures instanceID == None || !arrives ==> gateway == old(gateway)
    {
      Record(at, P.Deregister(arrives));
      SendLeave(at, arrives);
    }

    /** Shutdown: once. If the context ends before the heartbeat goroutine does, nothing is sent;
        otherwise the held id, if any, is deregistered. */
    method Shutdown(at: int, waited: bool, arrives: bool) returns (timedOut: bool)
      requires Valid()
      modifies this
      ensures Valid() && stopped && registered == old(registered) && instanceID == old(instanceID)
      ensures old(stopped) ==> unchanged(this) && !timedOut
      ensures !old(stopped) ==> timedOut == !waited && Own(events) == Own(old(events)) + [P.Shutdown(waited, arrives)]
      ensures !old(stopped) && waited && arrives && instanceID.Some? ==> instanceID.value !in gateway.st.instances
      ensures instanceID == None || !waited || !arrives ==> gateway == old(gateway)
    {
      if stopped {
        return false;
      }
      Record(at, P.Shutdown(waited, arrives));
      stopped := true;
      if !waited {
        return true;
      }
      SendLeave(at, arrives);
      return false;
    }
  }

  // ---------- counting heartbeats ----------

  /** What the heartbeat loop's select may take. */
  datatype Turn = Tick(fate: Fate, fates: nat -> Fate) | StopSeen

  function FirstStop(turns: seq<Turn>): (n: nat)
    ensures n <= |turns|
    ensures forall i :: 0 <= i < n ==> turns[i].Tick?
    ensures n < |turns| ==> turns[n].StopSeen?
  {
    if turns == [] || turns[0].StopSeen? then 0 else 1 + FirstStop(turns[1..])
  }

  function Beats(steps: seq<P.Step>): nat {
    if steps == [] then 0 else Beats(steps[..|steps| - 1]) + if steps[|steps| - 1].Beat? then 1 else 0
  }

  lemma {:induction false} NoBeats(steps: seq<P.Step>)
    requires forall i :: 0 <= i < |steps| ==> !steps[i].Beat?
    ensures Beats(steps) == 0
  {
    if steps != [] {
      NoBeats(steps[..|steps| - 1]);
    }
  }

  lemma {:induction false} BeatsAppend(a: seq<P.Step>, b: seq<P.Step>)
    ensures Beats(a + b) == Beats(a) + Beats(b)
  {
    if b == [] {
      assert a + b == a;
    } else {
      BeatsAppend(a, b[..|b| - 1]);
      assert (a + b)[..|a + b| - 1] == a + b[..|b| - 1];
    }
  }

  lemma BeatsConcat(before: seq<P.Step>, one: seq<P.Step>, steps: seq<P.Step>)
    requires |one| == 1 && one[0].Beat? && Beats(steps) == 0
    ensures Beats(before + one + steps) == Beats(before) + 1
  {
    BeatsAppend(before + one, steps);
    BeatsAppend(before, one);
    assert one[..0] == [];
  }

  lemma RoundHasNoBeat(steps: seq<P.Step>, n: nat, fates: nat -> Fate, verdict: Verdict)
    requires IsRound(steps, n, fates, verdict)
    ensures Beats(steps) == 0
  {
    forall i | 0 <= i < |steps| ensures !steps[i].Beat? {
      if i >= n {
        assert steps[i] == steps[n..][i - n];
      }
    }
    NoBeats(steps);
  }
}
