/** The span batching pipeline of internal/infrastructure/tracing/otlp.go: a bounded channel,
    a batch, and a loop that drains both on shutdown. A span counts as flushed when its batch
    is handed to flush. */
module Spans {
  import opened Lists

  const BUFFER_SIZE := 1024
  const BATCH_SIZE := 64

  /** Where batchLoop is: in its select, in the drain loop behind it, or returned. */
  datatype Phase = Selecting | Draining | Returned

  /** The pipeline, with what has been accepted and dropped so far. */
  datatype Pipeline<S> = Pipeline(
    queue: seq<S>, batch: seq<S>, flushed: seq<seq<S>>, closed: bool, phase: Phase,
    accepted: seq<S>, dropped: seq<S>)

  /** What may happen next: a producer offers a span, Shutdown closes done, or the loop takes
      one of its select branches. */
  datatype Turn<S> = Offer(span: S) | Close | Receive | Tick | SeeDone | Default

  function Fresh<S>(): Pipeline<S> {
    Pipeline([], [], [], false, Selecting, [], [])
  }

  predicate Ready<S>(p: Pipeline<S>, t: Turn<S>) {
    match t
    case Offer(_) => true
    case Close => !p.closed
    case Receive => p.phase != Returned && p.queue != []
    case Tick => p.phase == Selecting
    case SeeDone => p.phase == Selecting && p.closed
    case Default => p.phase == Draining && p.queue == []
  }

  function Flush<S>(p: Pipeline<S>): Pipeline<S> {
    p.(flushed := p.flushed + [p.batch], batch := [])
  }

  /** One turn; a turn that is not ready is not taken. */
  function Next<S>(p: Pipeline<S>, t: Turn<S>): Pipeline<S> {
    if !Ready(p, t) then p
    else match t
      case Offer(span) =>
        if |p.queue| < BUFFER_SIZE then p.(queue := p.queue + [span], accepted := p.accepted + [span])
        else p.(dropped := p.dropped + [span])
      case Close => p.(closed := true)
      case Receive =>
        var q := p.(queue := p.queue[1..], batch := p.batch + [p.queue[0]]);
        if |q.batch| >= BATCH_SIZE then Flush(q) else q
      case Tick => if |p.batch| > 0 then Flush(p) else p
      case SeeDone => p.(phase := Draining)
      case Default => (if |p.batch| > 0 then Flush(p) else p).(phase := Returned)
  }

  function Run<S>(p: Pipeline<S>, turns: seq<Turn<S>>): Pipeline<S> {
    if turns == [] then p else Next(Run(p, turns[..|turns| - 1]), turns[|turns| - 1])
  }

  // ---------- conservation ----------

  /** The spans offered by a schedule, in order. */
  function Offered<S>(turns: seq<Turn<S>>): seq<S> {
    if turns == [] then []
    else Offered(turns[..|turns| - 1]) + if turns[|turns| - 1].Offer? then [turns[|turns| - 1].span] else []
  }

  /** Everything that was accepted, as it lies in the pipeline. */
  function Held<S>(p: Pipeline<S>): seq<S> {
    Flat(p.flushed) + p.batch + p.queue
  }

  predicate Bounded<S>(p: Pipeline<S>) {
    && |p.batch| < BATCH_SIZE && |p.queue| <= BUFFER_SIZE
    && (forall i :: 0 <= i < |p.flushed| ==> 1 <= |p.flushed[i]| <= BATCH_SIZE)
    && (p.phase == Returned ==> p.batch == [])
    && (p.phase != Selecting ==> p.closed)
  }

  predicate Conserved<S(==)>(p: Pipeline<S>) {
    Held(p) == p.accepted && Bounded(p)
  }

  lemma Regroup<S>(a: seq<S>, b: seq<S>, c: seq<S>, d: seq<S>)
    ensures a + b + (c + d) == (a + b + c) + d
    ensures a + (b + c) + d == a + b + (c + d)
    ensures a + [] + d == a + d
  {
  }

  lemma FlushHolds<S>(p: Pipeline<S>)
    ensures Held(Flush(p)) == Held(p)
  {
    FlatSnoc(p.flushed, p.batch);
    Regroup(Flat(p.flushed) + p.batch, [], [], p.queue);
  }

  lemma FlushBounded<S>(p: Pipeline<S>)
    requires Bounded(p.(batch := [])) && 1 <= |p.batch| <= BATCH_SIZE
    ensures Bounded(Flush(p))
  {
  }

  lemma OfferConserves<S>(p: Pipeline<S>, span: S)
    requires Conserved(p)
    ensures Conserved(Next(p, Offer(span)))
  {
    Regroup(Flat(p.flushed), p.batch, p.queue, [span]);
  }

  lemma ReceiveConserves<S>(p: Pipeline<S>)
    requires Conserved(p) && p.phase != Returned && p.queue != []
    ensures Conserved(Next(p, Receive))
  {
    var q := p.(queue := p.queue[1..], batch := p.batch + [p.queue[0]]);
    ReceiveHolds(p, q);
    if |q.batch| >= BATCH_SIZE {
      FlushHolds(q);
      FlushBounded(q);
    }
  }

  lemma ReceiveHolds<S>(p: Pipeline<S>, q: Pipeline<S>)
    requires p.queue != [] && q == p.(queue := p.queue[1..], batch := p.batch + [p.queue[0]])
    ensures Held(q) == Held(p)
  {
    assert p.queue == [p.queue[0]] + p.queue[1..];
    Regroup(Flat(p.flushed), p.batch, [p.queue[0]], p.queue[1..]);
  }

  lemma TickConserves<S>(p: Pipeline<S>)
    requires Conserved(p)
    ensures Conserved(Next(p, Tick))
  {
    if Ready(p, Tick) && |p.batch| > 0 {
      FlushHolds(p);
      FlushBounded(p);
    }
  }

  lemma DefaultConserves<S>(p: Pipeline<S>)
    requires Conserved(p)
    ensures Conserved(Next(p, Default))
  {
    if Ready(p, Default) && |p.batch| > 0 {
      FlushHolds(p);
      FlushBounded(p);
    }
  }

  lemma DoneConserves<S>(p: Pipeline<S>, t: Turn<S>)
    requires Conserved(p) && (t.Close? || t.SeeDone?)
    ensures Conserved(Next(p, t))
  {
  }

  lemma StepConserves<S>(p: Pipeline<S>, t: Turn<S>)
    requires Conserved(p)
    ensures Conserved(Next(p, t))
  {
    match t {
      case Offer(span) => OfferConserves(p, span);
      case Receive =>
        if p.phase != Returned && p.queue != [] {
          ReceiveConserves(p);
        }
      case Tick => TickConserves(p);
      case Default => DefaultConserves(p);
      case _ => DoneConserves(p, t);
    }
  }

  /** Over every schedule: the flushed batches in order, then the batch, then the queue, are the
      accepted spans in order; every flushed batch has 1 to 64 spans. */
  lemma {:induction false} SpansAreConserved<S>(turns: seq<Turn<S>>)
    ensures Conserved(Run(Fresh(), turns))
  {
    if turns != [] {
      SpansAreConserved(turns[..|turns| - 1]);
      StepConserves(Run(Fresh(), turns[..|turns| - 1]), turns[|turns| - 1]);
    }
  }

  lemma StepAccounts<S>(p: Pipeline<S>, t: Turn<S>)
    ensures t.Offer? ==> Next(p, t).accepted + Next(p, t).dropped == p.accepted + p.dropped + [t.span] ||
                         (Next(p, t).accepted == p.accepted + [t.span] && Next(p, t).dropped == p.dropped)
    ensures !t.Offer? ==> Next(p, t).accepted == p.accepted && Next(p, t).dropped == p.dropped
  {
    if t.Offer? && |p.queue| >= BUFFER_SIZE {
      assert p.accepted + (p.dropped + [t.span]) == p.accepted + p.dropped + [t.span];
    }
  }

  /** Accepted plus dropped is what was offered. */
  lemma {:induction false} OfferedIsAccounted<S>(turns: seq<Turn<S>>)
    ensures multiset(Run(Fresh(), turns).accepted + Run(Fresh(), turns).dropped) == multiset(Offered(turns))
  {
    if turns != [] {
      var front, t := turns[..|turns| - 1], turns[|turns| - 1];
      OfferedIsAccounted(front);
      StepAccounts(Run(Fresh(), front), t);
    } else {
      assert Run<S>(Fresh(), []) == Fresh();
    }
  }

  /** A span is dropped only by an offer that finds the channel full. */
  lemma DroppedOnlyWhenFull<S>(turns: seq<Turn<S>>, t: Turn<S>)
    ensures var p := Run(Fresh(), turns);
            Next(p, t).dropped != p.dropped <==> t.Offer? && |p.queue| == 1024
  {
    SpansAreConserved(turns);
    var p := Run(Fresh(), turns);
    if t.Offer? && |p.queue| == 1024 {
      assert |Next(p, t).dropped| == |p.dropped| + 1;
    }
  }

  /** When the loop has returned, everything accepted before it returned has been flushed. */
  lemma ReturnedMeansFlushed<S>(turns: seq<Turn<S>>)
    ensures var p := Run(Fresh(), turns);
            Ready(p, Default) ==> Flat(Next(p, Default).flushed) == p.accepted
  {
    SpansAreConserved(turns);
    var p := Run(Fresh(), turns);
    if Ready(p, Default) {
      StepConserves(p, Default);
      var q := Next(p, Default);
      assert Flat(q.flushed) + q.batch + q.queue == Flat(q.flushed);
    }
  }

  /** After that nothing is flushed any more: spans accepted later stay in the channel. */
  lemma {:induction false} NothingFlushedAfterReturn<S>(p: Pipeline<S>, turns: seq<Turn<S>>)
    requires p.phase == Returned
    ensures Run(p, turns).phase == Returned && Run(p, turns).flushed == p.flushed && p.queue <= Run(p, turns).queue
  {
    if turns != [] {
      NothingFlushedAfterReturn(p, turns[..|turns| - 1]);
    }
  }

  // ---------- when a batch goes out ----------

  lemma RunSnoc<S>(p: Pipeline<S>, turns: seq<Turn<S>>, t: Turn<S>)
    ensures Run(p, turns + [t]) == Next(Run(p, turns), t)
  {
    assert (turns + [t])[..|turns|] == turns;
  }

  /** Over every schedule, a tick that the select takes sends out the batch, if there is one:
      everything received before it is flushed then, and only the channel holds more. */
  lemma TickFlushes<S>(turns: seq<Turn<S>>)
    requires Run(Fresh(), turns).phase == Selecting
    ensures var p, q := Run(Fresh(), turns), Run(Fresh(), turns + [Tick]);
      && q == p.(batch := q.batch, flushed := q.flushed) && q.batch == []
      && q.flushed == (if p.batch == [] then p.flushed else p.flushed + [p.batch])
      && Flat(q.flushed) + p.queue == p.accepted
  {
    SpansAreConserved(turns + [Tick]);
    RunSnoc(Fresh(), turns, Tick);
    var q := Run(Fresh(), turns + [Tick]);
    assert Flat(q.flushed) + [] == Flat(q.flushed);
  }

  /** A span received joins the batch, which goes out exactly when it has 64 spans then. */
  lemma ReceiveFlushesIff<S>(turns: seq<Turn<S>>)
    requires Run(Fresh(), turns).phase != Returned && Run(Fresh(), turns).queue != []
    ensures var p, q := Run(Fresh(), turns), Run(Fresh(), turns + [Receive]);
      && q == p.(queue := q.queue, batch := q.batch, flushed := q.flushed) && [p.queue[0]] + q.queue == p.queue
      && if |p.batch| == 63 then q.batch == [] && q.flushed == p.flushed + [p.batch + [p.queue[0]]]
         else q.batch == p.batch + [p.queue[0]] && q.flushed == p.flushed
  {
    SpansAreConserved(turns);
    RunSnoc(Fresh(), turns, Receive);
  }

  /** No batch goes out otherwise: short of 64 spans, by a tick or the return alone. */
  lemma FlushesOnlyThen<S>(turns: seq<Turn<S>>, t: Turn<S>)
    requires Run(Fresh(), turns + [t]).flushed != Run(Fresh(), turns).flushed
    ensures t.Tick? || t.Default? || (t.Receive? && |Run(Fresh(), turns).batch| == 63)
  {
    RunSnoc(Fresh(), turns, t);
    SpansAreConserved(turns);
  }

  // ---------- the drain terminates ----------

  /** In the drain loop exactly one branch is ready. */
  lemma DrainNeverBlocks<S>(p: Pipeline<S>)
    requires p.phase == Draining
    ensures Ready(p, Receive) != Ready(p, Default)
    ensures !Ready(p, Tick) && !Ready(p, SeeDone)
  {
  }

  /** The turns the drain loop takes when no producer interferes. */
  function DrainTurns<S>(queued: nat): (turns: seq<Turn<S>>)
    ensures |turns| == queued + 1
  {
    if queued == 0 then [Default] else [Receive] + DrainTurns(queued - 1)
  }

  /** What those turns lead to. */
  function Drained<S>(p: Pipeline<S>): Pipeline<S> {
    Run(p, DrainTurns(|p.queue|))
  }

  lemma {:induction false} RunConcat<S>(p: Pipeline<S>, front: seq<Turn<S>>, back: seq<Turn<S>>)
    ensures Run(p, front + back) == Run(Run(p, front), back)
  {
    if back == [] {
      assert front + back == front;
    } else {
      RunConcat(p, front, back[..|back| - 1]);
      assert (front + back)[..|front + back| - 1] == front + back[..|back| - 1];
    }
  }

  lemma DrainOne<S>(p: Pipeline<S>)
    requires p.phase == Draining && p.queue != []
    ensures Drained(p) == Drained(Next(p, Receive))
  {
    var first: seq<Turn<S>> := [Receive];
    assert first[..0] == [];
    assert Run(p, first) == Next(p, Receive);
    RunConcat(p, first, DrainTurns(|p.queue| - 1));
  }

  lemma DrainNone<S>(p: Pipeline<S>)
    requires p.phase == Draining && p.queue == []
    ensures Drained(p) == Next(p, Default)
  {
    assert DrainTurns<S>(0)[..0] == [];
    assert Run(p, DrainTurns(0)) == Next(p, Default);
  }

  /** Once producers stop, the loop returns after one turn for each queued span and one more,
      with queue and batch empty and every accepted span flushed. */
  lemma {:induction false} DrainTerminates<S>(p: Pipeline<S>)
    requires Conserved(p) && p.phase == Draining
    ensures var q := Drained(p);
      && q.phase == Returned && q.queue == [] && q.batch == []
      && q.accepted == p.accepted && Flat(q.flushed) == p.accepted
    decreases |p.queue|
  {
    if p.queue == [] {
      DrainNone(p);
      DefaultConserves(p);
      NothingLeft(Next(p, Default));
    } else {
      DrainOne(p);
      ReceiveConserves(p);
      DrainTerminates(Next(p, Receive));
    }
  }

  lemma NothingLeft<S>(p: Pipeline<S>)
    requires Conserved(p) && p.batch == [] && p.queue == []
    ensures Flat(p.flushed) == p.accepted
  {
    assert Flat(p.flushed) + [] + [] == Flat(p.flushed);
  }

  /** From any state of the select, whatever was scheduled: once Shutdown has closed done and the
      loop sees it, everything accepted is flushed and the loop has returned. */
  lemma ShutdownFlushes<S>(turns: seq<Turn<S>>)
    requires Run(Fresh(), turns).phase == Selecting
    ensures var p := Run(Fresh(), turns);
      var q := Run(Fresh(), turns + [Close] + [SeeDone] + DrainTurns(|p.queue|));
      q.phase == Returned && q.queue == [] && q.batch == [] && Flat(q.flushed) == p.accepted == q.accepted
  {
    var p := Run(Fresh(), turns);
    RunSnoc(Fresh(), turns, Close);
    RunSnoc(Fresh(), turns + [Close], SeeDone);
    RunConcat(Fresh(), turns + [Close] + [SeeDone], DrainTurns(|p.queue|));
    SpansAreConserved(turns + [Close] + [SeeDone]);
    DrainTerminates(Run(Fresh(), turns + [Close] + [SeeDone]));
  }

  // ---------- the exporter ----------

  class OTLPExporter<S> {
    var spans: seq<S>
    var done: bool
    var batch: seq<S>
    var flushed: seq<seq<S>>
    var phase: Phase

    ghost var accepted: seq<S>
    ghost var dropped: seq<S>

    ghost function Value(): Pipeline<S>
      reads this
    {
      Pipeline(spans, batch, flushed, done, phase, accepted, dropped)
    }

    constructor ()
      ensures Value() == Fresh()
    {
      spans, done, batch, flushed, phase := [], false, [], [], Selecting;
      accepted, dropped := [], [];
    }

    /** Export: a send that never blocks. */
    method Export(span: S)
      modifies this
      ensures Value() == Next(old(Value()), Offer(span))
    {
      if |spans| < BUFFER_SIZE {
        spans := spans + [span];
        accepted := accepted + [span];
      } else {
        dropped := dropped + [span];
      }
    }

    /** Closing done twice would panic. */
    method Shutdown()
      requires !done
      modifies this
      ensures Value() == Next(old(Value()), Close)
    {
      done := true;
    }

    method FlushBatch()
      modifies this
      ensures Value() == Flush(old(Value()))
    {
      flushed := flushed + [batch];
      batch := [];
    }

    /** The receive branch, the same in the select and in the drain loop. */
    method OnSpan()
      requires spans != [] && phase != Returned
      modifies this
      ensures Value() == Next(old(Value()), Receive)
    {
      var span := spans[0];
      spans := spans[1..];
      batch := batch + [span];
      if |batch| >= BATCH_SIZE {
        FlushBatch();
      }
    }

    method OnTick()
      requires phase == Selecting
      modifies this
      ensures Value() == Next(old(Value()), Tick)
      ensures batch == [] && flushed == if old(batch) == [] then old(flushed) else old(flushed) + [old(batch)]
    {
      if |batch| > 0 {
        FlushBatch();
      }
    }

    /** What happens beside the loop: an Export, or the Shutdown. */
    method Beside(t: Turn<S>)
      requires t.Offer? || t.Close?
      modifies this
      ensures Value() == Next(old(Value()), t) && phase == old(phase)
    {
      match t {
        case Offer(span) => Export(span);
        case Close => if !done { Shutdown(); }
      }
    }

    /** batchLoop among its producers. The schedule says what the next thing to happen is: a
        turn of a producer or of Shutdown, or the branch that the loop's select takes; a branch
        that is not ready is not taken. */
    method BatchLoop(schedule: seq<Turn<S>>)
      requires phase == Selecting
      modifies this
      ensures Value() == Run(old(Value()), schedule)
    {
      ghost var start := Value();
      var i := 0;
      while i < |schedule|
        invariant i <= |schedule| && Value() == Run(start, schedule[..i])
        invariant phase == Selecting || i == |schedule|
      {
        RunNext(start, schedule, i);
        if schedule[i].SeeDone? && done {
          RunRest(start, schedule, i + 1);
          FinishLoop(schedule[i + 1..]);
          i := |schedule|;
          assert schedule[..i] == schedule;
        } else {
          SelectTurn(schedule[i]);
          i := i + 1;
        }
      }
      assert schedule[..|schedule|] == schedule;
    }

    /** One turn of the loop's select, while it does not see that done is closed. */
    method SelectTurn(t: Turn<S>)
      requires phase == Selecting && !(t.SeeDone? && done)
      modifies this
      ensures Value() == Next(old(Value()), t) && phase == Selecting
    {
      match t {
        case Receive => if spans != [] { OnSpan(); }
        case Tick => OnTick();
        case SeeDone =>
        case Default =>
        case _ => Beside(t);
      }
    }

    /** The branch behind <-e.done: the drain loop, and what comes after its return. */
    method FinishLoop(schedule: seq<Turn<S>>)
      requires phase == Selecting && done
      modifies this
      ensures Value() == Run(Next(old(Value()), SeeDone), schedule) && phase != Selecting
    {
      phase := Draining;
      ghost var start := Value();
      var i := 0;
      while i < |schedule| && phase == Draining
        invariant i <= |schedule| && phase != Selecting && Value() == Run(start, schedule[..i])
        decreases |schedule| - i
      {
        RunNext(start, schedule, i);
        DrainTurn(schedule[i]);
        i := i + 1;
      }
      RunRest(start, schedule, i);
      assert i == |schedule| ==> schedule[i..] == [];
      if i < |schedule| {
        Afterwards(schedule[i..]);
      }
    }

    /** One turn of the drain loop's select. */
    method DrainTurn(t: Turn<S>)
      requires phase == Draining
      modifies this
      ensures Value() == Next(old(Value()), t) && phase != Selecting
    {
      match t {
        case Receive => if spans != [] { OnSpan(); }
        case Default => if spans == [] { OnDefault(); }
        case Tick =>
        case SeeDone =>
        case _ => Beside(t);
      }
    }

    /** The loop has returned; its producers may not have noticed. */
    method Afterwards(schedule: seq<Turn<S>>)
      requires phase == Returned
      modifies this
      ensures Value() == Run(old(Value()), schedule) && phase == Returned
    {
      ghost var start := Value();
      for i := 0 to |schedule|
        invariant phase == Returned && Value() == Run(start, schedule[..i])
      {
        RunNext(start, schedule, i);
        if schedule[i].Offer? || schedule[i].Close? {
          Beside(schedule[i]);
        }
      }
      assert schedule[..|schedule|] == schedule;
    }

    /** The loop behind <-e.done, with no producer left: it empties queue and batch and returns. */
    method Drain()
      requires done && phase == Selecting && Conserved(Value())
      modifies this
      ensures Value() == Drained(old(Value()).(phase := Draining))
      ensures spans == [] && batch == [] && phase == Returned
      ensures accepted == old(accepted) && Flat(flushed) == accepted
    {
      phase := Draining;
      ghost var start := Value();
      DrainTerminates(start);
      while spans != []
        invariant phase == Draining && Drained(Value()) == Drained(start)
        decreases |spans|
      {
        DrainOne(Value());
        OnSpan();
      }
      DrainNone(Value());
      OnDefault();
    }

    /** The default branch of the drain loop. */
    method OnDefault()
      requires spans == [] && phase == Draining
      modifies this
      ensures Value() == Next(old(Value()), Default)
    {
      if |batch| > 0 {
        FlushBatch();
      }
      phase := Returned;
    }
  }

  lemma RunNext<S>(p: Pipeline<S>, turns: seq<Turn<S>>, i: nat)
    requires i < |turns|
    ensures Run(p, turns[..i + 1]) == Next(Run(p, turns[..i]), turns[i])
  {
    assert turns[..i + 1][..i] == turns[..i];
  }

  lemma RunRest<S>(p: Pipeline<S>, turns: seq<Turn<S>>, i: nat)
    requires i <= |turns|
    ensures Run(p, turns) == Run(Run(p, turns[..i]), turns[i..])
  {
    assert turns == turns[..i] + turns[i..];
    RunConcat(p, turns[..i], turns[i..]);
  }
}
