// Producers, the worker, `flush` and `close` interleaved: one step per critical section.
module EmitterProtocol {
  import opened Base
  import opened Emitter

  /** Where the worker is. `Delivering(batch, next)`: the first `next` records of the batch are accounted for. */
  datatype Worker<R> = Waiting | Lingering | Delivering(batch: seq<R>, next: nat) | Leaving | ClosingSink | Gone

  /** Where the one effective `close` call is. */
  datatype Closer = NotClosing | Joining | TimedOut | Returned

  datatype SinkCall<R> = Batch(records: seq<R>) | One(record: R) | Closed

  /** What happened so far, record by record. */
  datatype History<R> = History(
    offers: nat, accepted: seq<R>, resolved: seq<R>, outcomes: seq<Outcome>, abandoned: seq<R>,
    calls: seq<SinkCall<R>>, crashed: bool)

  datatype System<R> = System(m: Monitor<R>, worker: Worker<R>, closer: Closer, log: History<R>)

  datatype Action<R> =
    | Offer(record: Option<R>)
    | EnterFlush | LeaveFlush
    | Linger
    | Take
    | Leave
    | DeliverBatch(outcome: Outcome)
    | DeliverOne(outcome: Outcome)
    | ClearInFlight
    | Crash(called: bool)
    | ExitLoop
    | CloseSink
    | Close(joins: bool)
    | JoinReturns | JoinTimesOut
    | Abandon

  function Start<R>(): System<R> {
    System(Fresh(), Waiting, NotClosing, History(0, [], [], [], [], [], false))
  }

  // The records of the current batch that are not accounted for yet.
  function Pending<R>(w: Worker<R>): seq<R> {
    match w
    case Delivering(batch, next) => if next <= |batch| then batch[next..] else []
    case _ => []
  }

  function Repeat(o: Outcome, n: nat): seq<Outcome> {
    seq(n, i => o)
  }

  predicate InLoop<R>(w: Worker<R>) { w.Waiting? || w.Lingering? || w.Delivering? || w.Leaving? }

  predicate Enabled<R>(cfg: Config, s: System<R>, a: Action<R>) {
    match a
    case Offer(_) => true
    case EnterFlush => true
    case LeaveFlush => s.m.flushWaiters > 0
    case Linger =>
      s.worker.Waiting? && cfg.lingers && 0 < |s.m.buffer| < cfg.batchSize && !s.m.stopping && s.m.flushWaiters == 0
    // Out of the linger wait the worker takes whatever is left, which after an abandonment is nothing.
    case Take => (s.worker.Waiting? && |s.m.buffer| > 0) || s.worker.Lingering?
    case Leave => s.worker.Waiting? && |s.m.buffer| == 0 && s.m.stopping
    case DeliverBatch(o) =>
      s.worker.Delivering? && cfg.takesBatches && s.worker.next == 0 && |s.worker.batch| > 0 && !o.Lost?
    case DeliverOne(o) => s.worker.Delivering? && !cfg.takesBatches && s.worker.next < |s.worker.batch| && !o.Lost?
    case ClearInFlight => s.worker.Delivering? && s.worker.next >= |s.worker.batch|
    // A BaseException, in a sink call (`called`) or elsewhere in the loop.
    case Crash(called) =>
      InLoop(s.worker) &&
      (called ==> s.worker.Delivering? && s.worker.next < |s.worker.batch| && (cfg.takesBatches ==> s.worker.next == 0))
    case ExitLoop => s.worker.Leaving?
    case CloseSink => s.worker.ClosingSink?
    case Close(joins) => joins ==> !s.worker.Gone?
    case JoinReturns => s.closer.Joining? && s.worker.Gone?
    case JoinTimesOut => s.closer.Joining? && !s.worker.Gone?
    case Abandon => s.closer.TimedOut?
  }

  function SinkCallFor<R>(cfg: Config, batch: seq<R>, next: nat): seq<SinkCall<R>>
    requires next < |batch|
  {
    if cfg.takesBatches then [Batch(batch)] else [One(batch[next])]
  }

  function Step<R>(cfg: Config, s: System<R>, a: Action<R>): System<R>
    requires Enabled(cfg, s, a)
  {
    match a
    case Offer(r) =>
      s.(m := Offered(cfg, s.m, r),
         log := s.log.(offers := s.log.offers + 1,
                       accepted := if Accepts(cfg, s.m, r) then s.log.accepted + [r.value] else s.log.accepted))
    case EnterFlush => s.(m := s.m.(flushWaiters := s.m.flushWaiters + 1))
    case LeaveFlush => s.(m := s.m.(flushWaiters := s.m.flushWaiters - 1))
    case Linger => s.(worker := Lingering)
    case Take => s.(m := Taken(cfg, s.m), worker := Delivering(s.m.buffer[..BatchSize(cfg, s.m)], 0))
    case Leave => s.(worker := Leaving)
    case DeliverBatch(o) =>
      var batch := s.worker.batch;
      s.(m := Counted(s.m, |batch|, o), worker := Delivering(batch, |batch|),
         log := s.log.(resolved := s.log.resolved + batch, outcomes := s.log.outcomes + Repeat(o, |batch|),
                       calls := s.log.calls + [Batch(batch)]))
    case DeliverOne(o) =>
      var record := s.worker.batch[s.worker.next];
      s.(m := Counted(s.m, 1, o), worker := Delivering(s.worker.batch, s.worker.next + 1),
         log := s.log.(resolved := s.log.resolved + [record], outcomes := s.log.outcomes + [o],
                       calls := s.log.calls + [One(record)]))
    case ClearInFlight => s.(m := Cleared(s.m), worker := Waiting)
    case Crash(called) =>
      var lost := Pending(s.worker);
      s.(m := Exited(s.m), worker := ClosingSink,
         log := s.log.(resolved := s.log.resolved + lost, outcomes := s.log.outcomes + Repeat(Lost, |lost|),
                       calls := s.log.calls + (if called then SinkCallFor(cfg, s.worker.batch, s.worker.next) else []),
                       crashed := true))
    case ExitLoop => s.(m := Exited(s.m), worker := ClosingSink)
    case CloseSink => s.(m := s.m.(sinkClosed := true), worker := Gone, log := s.log.(calls := s.log.calls + [Closed]))
    case Close(joins) =>
      if s.m.closed then s else s.(m := Shut(s.m), closer := if joins then Joining else Returned)
    case JoinReturns => s.(closer := Returned)
    case JoinTimesOut => s.(closer := TimedOut)
    case Abandon =>
      s.(m := Abandoned(s.m), closer := Returned, log := s.log.(abandoned := s.log.abandoned + s.m.buffer))
  }

  // `acts` can be taken from `s`, one after the other.
  predicate CanRun<R>(cfg: Config, s: System<R>, acts: seq<Action<R>>)
    decreases acts
  {
    acts == [] || (Enabled(cfg, s, acts[0]) && CanRun(cfg, Step(cfg, s, acts[0]), acts[1..]))
  }

  function Run<R>(cfg: Config, s: System<R>, acts: seq<Action<R>>): System<R>
    requires CanRun(cfg, s, acts)
    decreases acts
  {
    if acts == [] then s else Run(cfg, Step(cfg, s, acts[0]), acts[1..])
  }

  // ---- the invariant -------------------------------------------------------------------------

  function CallRecords<R>(calls: seq<SinkCall<R>>): seq<R> {
    if calls == [] then []
    else CallRecords(calls[..|calls| - 1]) +
         match calls[|calls| - 1]
         case Batch(rs) => rs
         case One(r) => [r]
         case Closed => []
  }

  // Every accepted record is in exactly one place, and the places are in acceptance order.
  ghost predicate Conserved<R>(s: System<R>) {
    && s.log.accepted == s.log.resolved + Pending(s.worker) + s.m.buffer + s.log.abandoned
    && (s.log.abandoned != [] ==> s.m.buffer == [] && s.m.closed)
    && |s.log.outcomes| == |s.log.resolved|
  }

  ghost predicate Counters<R>(s: System<R>) {
    && s.m.accepted == |s.log.accepted|
    && s.m.delivered == CountOf(s.log.outcomes, Delivered)
    && s.m.failed == CountOf(s.log.outcomes, Failed)
    && s.m.droppedAtClose == |s.log.abandoned|
    && s.log.offers == s.m.accepted + s.m.droppedBufferFull + s.m.droppedNotARecord + s.m.droppedClosed
  }

  ghost predicate Bounds<R>(cfg: Config, s: System<R>) {
    && |s.m.buffer| <= cfg.maxBuffer
    && (s.worker.Delivering? ==>
         s.worker.next <= |s.worker.batch| <= cfg.batchSize && s.m.inFlight == |s.worker.batch|
         && (cfg.takesBatches ==> s.worker.next == 0 || s.worker.next == |s.worker.batch|))
    && (!s.worker.Delivering? ==> s.m.inFlight == 0)
  }

  ghost predicate Lifecycle<R>(cfg: Config, s: System<R>) {
    && s.m.workerAlive == InLoop(s.worker)
    && s.m.stopping == s.m.closed == !s.closer.NotClosing?
    && s.m.sinkClosed == s.worker.Gone?
    && (s.worker.Leaving? || (!InLoop(s.worker) && !s.log.crashed) ==> s.m.stopping && s.m.buffer == [])
    && (s.log.crashed ==> !InLoop(s.worker))
    && CountOf(s.log.outcomes, Lost) <= (if s.log.crashed then cfg.batchSize else 0)
  }

  // The sink is called only by the worker, never with an empty batch, and never after its close.
  ghost predicate CallsProper<R>(cfg: Config, s: System<R>) {
    && (forall i | 0 <= i < |s.log.calls| :: s.log.calls[i].Closed? <==> s.worker.Gone? && i == |s.log.calls| - 1)
    && (s.worker.Gone? ==> s.log.calls != [])
    && (forall c | c in s.log.calls && c.Batch? :: cfg.takesBatches && 0 < |c.records| <= cfg.batchSize)
    && (forall c | c in s.log.calls && c.One? :: !cfg.takesBatches)
    && (!s.log.crashed ==> CallRecords(s.log.calls) == s.log.resolved)
  }

  ghost predicate Inv<R>(cfg: Config, s: System<R>) {
    Conserved(s) && Counters(s) && Bounds(cfg, s) && Lifecycle(cfg, s) && CallsProper(cfg, s)
  }

  lemma CountRepeat(o: Outcome, n: nat)
    ensures forall p :: CountOf(Repeat(o, n), p) == if p == o then n else 0
  {
    if n > 0 {
      assert Repeat(o, n)[1..] == Repeat(o, n - 1);
      CountRepeat(o, n - 1);
    }
  }

  lemma CallRecordsAppend<R>(calls: seq<SinkCall<R>>, c: SinkCall<R>)
    ensures CallRecords(calls + [c]) == CallRecords(calls) +
            match c case Batch(rs) => rs case One(r) => [r] case Closed => []
  {
  }

  lemma TakeConserves<R>(cfg: Config, s: System<R>)
    requires ValidConfig(cfg) && Conserved(s) && Enabled<R>(cfg, s, Take)
    ensures Conserved(Step<R>(cfg, s, Take))
  {
  }

  lemma BatchConserves<R>(cfg: Config, s: System<R>, a: Action<R>)
    requires Conserved(s) && Bounds(cfg, s) && Enabled(cfg, s, a) && a.DeliverBatch?
    ensures Conserved(Step(cfg, s, a))
  {
    assert Pending(s.worker) == s.worker.batch && Pending(Step(cfg, s, a).worker) == [];
    hide Pending, Counted, CountOf;
  }

  lemma Shift<R>(a: seq<R>, r: R, b: seq<R>, c: seq<R>)
    ensures a + ([r] + b) + c == a + [r] + b + c
  {
  }

  lemma OneConserves<R>(cfg: Config, s: System<R>, a: Action<R>)
    requires Conserved(s) && Bounds(cfg, s) && Enabled(cfg, s, a) && a.DeliverOne?
    ensures Conserved(Step(cfg, s, a))
  {
    hide CountOf;
    var t := Step(cfg, s, a);
    var r := s.worker.batch[s.worker.next];
    assert Pending(s.worker) == [r] + Pending(t.worker);
    assert t.log.resolved == s.log.resolved + [r] && t.log.outcomes == s.log.outcomes + [a.outcome];
    assert t.m.buffer == s.m.buffer && t.m.closed == s.m.closed;
    assert t.log.abandoned == s.log.abandoned && t.log.accepted == s.log.accepted;
    hide Step, Pending, Enabled, Bounds;
    Shift(s.log.resolved, r, Pending(t.worker), s.m.buffer);
  }

  lemma DeliveryConserves<R>(cfg: Config, s: System<R>, a: Action<R>)
    requires ValidConfig(cfg) && Conserved(s) && Bounds(cfg, s) && Enabled(cfg, s, a)
    requires a.DeliverBatch? || a.DeliverOne? || a.ClearInFlight?
    ensures Conserved(Step(cfg, s, a))
  {
    if a.DeliverBatch? {
      hide Step, Conserved, Bounds, Enabled;
      BatchConserves(cfg, s, a);
    } else if a.DeliverOne? {
      hide Step, Conserved, Bounds, Enabled;
      OneConserves(cfg, s, a);
    } else {
      assert Pending(s.worker) == [] && Pending(Step(cfg, s, a).worker) == [];
    }
  }

  lemma EndingConserves<R>(cfg: Config, s: System<R>, a: Action<R>)
    requires ValidConfig(cfg) && Conserved(s) && Enabled(cfg, s, a)
    requires a.Crash? || a.ExitLoop? || a.CloseSink? || a.Leave? || a.Linger?
    ensures Conserved(Step(cfg, s, a))
  {
  }

  lemma ProducerConserves<R>(cfg: Config, s: System<R>, a: Action<R>)
    requires ValidConfig(cfg) && Conserved(s) && Enabled(cfg, s, a)
    requires s.closer.TimedOut? ==> s.m.closed
    requires a.Offer? || a.EnterFlush? || a.LeaveFlush? || a.Close? || a.JoinReturns? || a.JoinTimesOut? || a.Abandon?
    ensures Conserved(Step(cfg, s, a))
  {
    match a
    case Abandon =>
      if s.log.abandoned != [] { assert s.m.buffer == []; }
      assert s.m.buffer + s.log.abandoned == s.log.abandoned + s.m.buffer;
    case Offer(r) => if Accepts(cfg, s.m, r) { assert s.log.abandoned == []; }
    case _ =>
  }

  lemma {:induction false} StepConserves<R>(cfg: Config, s: System<R>, a: Action<R>)
    requires ValidConfig(cfg) && Inv(cfg, s) && Enabled(cfg, s, a)
    ensures Conserved(Step(cfg, s, a))
  {
    hide Step, Enabled, Counters, CallsProper, Conserved, Bounds;
    match a
    case Take => TakeConserves(cfg, s);
    case DeliverBatch(_) => DeliveryConserves(cfg, s, a);
    case DeliverOne(_) => DeliveryConserves(cfg, s, a);
    case ClearInFlight => DeliveryConserves(cfg, s, a);
    case Crash(_) => EndingConserves(cfg, s, a);
    case ExitLoop => EndingConserves(cfg, s, a);
    case CloseSink => EndingConserves(cfg, s, a);
    case Leave => EndingConserves(cfg, s, a);
    case Linger => EndingConserves(cfg, s, a);
    case _ => ProducerConserves(cfg, s, a);
  }

  // What one step adds to the outcomes.
  function NewOutcomes<R>(s: System<R>, a: Action<R>): seq<Outcome> {
    if a.DeliverBatch? && s.worker.Delivering? then Repeat(a.outcome, |s.worker.batch|)
    else if a.DeliverOne? then [a.outcome]
    else if a.Crash? then Repeat(Lost, |Pending(s.worker)|)
    else []
  }

  lemma NewOutcomesCount<R>(s: System<R>, a: Action<R>, o: Outcome)
    ensures CountOf(NewOutcomes(s, a), o) ==
            if a.DeliverBatch? && s.worker.Delivering? && a.outcome == o then |s.worker.batch|
            else if a.DeliverOne? && a.outcome == o then 1
            else if a.Crash? && o == Lost then |Pending(s.worker)|
            else 0
  {
    if a.DeliverBatch? && s.worker.Delivering? {
      CountRepeat(a.outcome, |s.worker.batch|);
    } else if a.Crash? {
      CountRepeat(Lost, |Pending(s.worker)|);
    } else if a.DeliverOne? {
      assert [a.outcome][1..] == [];
    }
  }

  lemma {:induction false} OutcomesGrow<R>(cfg: Config, s: System<R>, a: Action<R>)
    requires Enabled(cfg, s, a)
    ensures Step(cfg, s, a).log.outcomes == s.log.outcomes + NewOutcomes(s, a)
  {}

  // How many of the outcomes one step adds are `o`.
  function Added<R>(s: System<R>, a: Action<R>, o: Outcome): nat {
    if a.DeliverBatch? && s.worker.Delivering? && a.outcome == o then |s.worker.batch|
    else if a.DeliverOne? && a.outcome == o then 1
    else if a.Crash? && o == Lost then |Pending(s.worker)|
    else 0
  }

  lemma {:induction false} OutcomeCounts<R>(cfg: Config, s: System<R>, a: Action<R>, o: Outcome)
    requires Enabled(cfg, s, a)
    ensures CountOf(Step(cfg, s, a).log.outcomes, o) == CountOf(s.log.outcomes, o) + Added(s, a, o)
  {
    OutcomesGrow(cfg, s, a);
    CountAppend(s.log.outcomes, NewOutcomes(s, a), o);
    NewOutcomesCount(s, a, o);
    hide Step, Enabled, CountOf;
  }

  // What a step adds to a counter it adds to the log.
  ghost predicate CountsMove<R>(s: System<R>, a: Action<R>, t: System<R>) {
    && t.m.delivered == s.m.delivered + Added(s, a, Delivered)
    && t.m.failed == s.m.failed + Added(s, a, Failed)
    && t.m.accepted - s.m.accepted == |t.log.accepted| - |s.log.accepted|
    && t.m.droppedAtClose - s.m.droppedAtClose == |t.log.abandoned| - |s.log.abandoned|
    && t.log.offers - s.log.offers == (t.m.accepted - s.m.accepted) + (t.m.droppedBufferFull - s.m.droppedBufferFull)
                                      + (t.m.droppedNotARecord - s.m.droppedNotARecord)
                                      + (t.m.droppedClosed - s.m.droppedClosed)
  }

  lemma OfferCounts<R>(cfg: Config, s: System<R>, a: Action<R>)
    requires Enabled(cfg, s, a) && a.Offer?
    ensures CountsMove(s, a, Step(cfg, s, a))
  {
  }

  lemma DeliveryCounts<R>(cfg: Config, s: System<R>, a: Action<R>)
    requires Enabled(cfg, s, a) && (a.DeliverBatch? || a.DeliverOne?)
    ensures CountsMove(s, a, Step(cfg, s, a))
  {
  }

  lemma OtherwiseCounts<R>(cfg: Config, s: System<R>, a: Action<R>)
    requires Enabled(cfg, s, a) && !a.Offer? && !a.DeliverBatch? && !a.DeliverOne?
    ensures CountsMove(s, a, Step(cfg, s, a))
  {
    hide Offered, Counted, Pending, Repeat;
  }

  lemma {:induction false} StepCounts<R>(cfg: Config, s: System<R>, a: Action<R>)
    requires Counters(s) && Enabled(cfg, s, a)
    ensures Counters(Step(cfg, s, a))
    ensures CountOf(Step(cfg, s, a).log.outcomes, Lost) ==
            CountOf(s.log.outcomes, Lost) + if a.Crash? then |Pending(s.worker)| else 0
  {
    hide Step, Enabled, CountOf, Pending;
    OutcomeCounts(cfg, s, a, Delivered);
    OutcomeCounts(cfg, s, a, Failed);
    OutcomeCounts(cfg, s, a, Lost);
    NoneDeliveredLost(cfg, s, a);
    if a.Offer? {
      OfferCounts(cfg, s, a);
    } else if a.DeliverBatch? || a.DeliverOne? {
      DeliveryCounts(cfg, s, a);
    } else {
      OtherwiseCounts(cfg, s, a);
    }
  }

  lemma NoneDeliveredLost<R>(cfg: Config, s: System<R>, a: Action<R>)
    requires Enabled(cfg, s, a)
    ensures Added(s, a, Lost) == if a.Crash? then |Pending(s.worker)| else 0
  {
  }

  predicate CallsSink<R>(a: Action<R>) { a.DeliverBatch? || a.DeliverOne? || a.CloseSink? || a.Crash? }

  lemma {:induction false} QuietStepCallsProper<R>(cfg: Config, s: System<R>, a: Action<R>)
    requires CallsProper(cfg, s) && Enabled(cfg, s, a) && !CallsSink(a)
    ensures CallsProper(cfg, Step(cfg, s, a))
  {
    hide CallRecords, Pending, Repeat;
  }

  lemma {:induction false} HandoverCallsProper<R>(cfg: Config, s: System<R>, a: Action<R>)
    requires ValidConfig(cfg) && CallsProper(cfg, s) && Bounds(cfg, s) && Enabled(cfg, s, a)
    requires (a.DeliverBatch? || a.DeliverOne?) && !s.log.crashed
    ensures CallsProper(cfg, Step(cfg, s, a))
  {
    hide CountOf, Repeat, Pending, Counted, CallRecords;
    if a.DeliverBatch? {
      CallRecordsAppend(s.log.calls, Batch(s.worker.batch));
    } else {
      CallRecordsAppend(s.log.calls, One(s.worker.batch[s.worker.next]));
    }
  }

  lemma {:induction false} LastCallsProper<R>(cfg: Config, s: System<R>, a: Action<R>)
    requires ValidConfig(cfg) && CallsProper(cfg, s) && Bounds(cfg, s) && Enabled(cfg, s, a)
    requires a.CloseSink? || a.Crash?
    ensures CallsProper(cfg, Step(cfg, s, a))
  {
    hide CountOf, Repeat, Pending, Exited, CallRecords;
    if a.CloseSink? {
      CallRecordsAppend(s.log.calls, Closed);
    }
  }

  lemma CrashedIsOut<R>(cfg: Config, s: System<R>, a: Action<R>)
    requires Enabled(cfg, s, a) && (a.DeliverBatch? || a.DeliverOne?) && (s.log.crashed ==> !InLoop(s.worker))
    ensures !s.log.crashed
  {
  }

  lemma {:induction false} CallStepCallsProper<R>(cfg: Config, s: System<R>, a: Action<R>)
    requires ValidConfig(cfg) && CallsProper(cfg, s) && Bounds(cfg, s) && Enabled(cfg, s, a) && CallsSink(a)
    requires s.log.crashed ==> !InLoop(s.worker)
    ensures CallsProper(cfg, Step(cfg, s, a))
  {
    hide Step, Enabled, Bounds, CallsProper;
    if a.DeliverBatch? || a.DeliverOne? {
      CrashedIsOut(cfg, s, a);
      HandoverCallsProper(cfg, s, a);
    } else {
      LastCallsProper(cfg, s, a);
    }
  }

  lemma {:induction false} StepCallsProper<R>(cfg: Config, s: System<R>, a: Action<R>)
    requires ValidConfig(cfg) && CallsProper(cfg, s) && Bounds(cfg, s) && Enabled(cfg, s, a)
    requires s.log.crashed ==> !InLoop(s.worker)
    ensures CallsProper(cfg, Step(cfg, s, a))
  {
    hide Step, Enabled, Bounds, CallsProper;
    if CallsSink(a) {
      CallStepCallsProper(cfg, s, a);
    } else {
      QuietStepCallsProper(cfg, s, a);
    }
  }

  lemma {:induction false} StepLifecycle<R>(cfg: Config, s: System<R>, a: Action<R>)
    requires ValidConfig(cfg) && Counters(s) && Lifecycle(cfg, s) && Bounds(cfg, s) && Enabled(cfg, s, a)
    ensures Lifecycle(cfg, Step(cfg, s, a))
  {
    StepCounts(cfg, s, a);
    hide CountOf, Counters;
  }

  lemma {:induction false} StepBounds<R>(cfg: Config, s: System<R>, a: Action<R>)
    requires ValidConfig(cfg) && Bounds(cfg, s) && Enabled(cfg, s, a)
    ensures Bounds(cfg, Step(cfg, s, a))
  {}

  lemma {:induction false} StepKeepsInv<R>(cfg: Config, s: System<R>, a: Action<R>)
    requires ValidConfig(cfg) && Inv(cfg, s) && Enabled(cfg, s, a)
    ensures Inv(cfg, Step(cfg, s, a))
  {
    StepConserves(cfg, s, a);
    StepCounts(cfg, s, a);
    StepLifecycle(cfg, s, a);
    StepBounds(cfg, s, a);
    StepCallsProper(cfg, s, a);
    hide Step, Enabled, Conserved, Counters, Bounds, CallsProper;
  }

  lemma {:induction false} StepExtends<R>(cfg: Config, s: System<R>, a: Action<R>)
    requires Enabled(cfg, s, a)
    ensures s.log.accepted <= Step(cfg, s, a).log.accepted && s.log.calls <= Step(cfg, s, a).log.calls
  {}

  lemma StartInv<R>(cfg: Config)
    requires ValidConfig(cfg)
    ensures Inv<R>(cfg, Start())
  {
    hide CountOf, CallRecords;
    assert CountOf([], Delivered) == CountOf([], Failed) == CountOf([], Lost) == 0 by { EmptyCounts(); }
    assert CallRecords<R>([]) == [] by { EmptyCalls<R>(); }
  }

  lemma EmptyCounts()
    ensures forall o :: CountOf([], o) == 0
  {}

  lemma EmptyCalls<R>()
    ensures CallRecords<R>([]) == []
  {}

  /** Every reachable state satisfies the invariant, and the logs only grow along the way. */
  lemma {:induction false} RunKeepsInv<R>(cfg: Config, s: System<R>, acts: seq<Action<R>>)
    requires ValidConfig(cfg) && Inv(cfg, s) && CanRun(cfg, s, acts)
    ensures Inv(cfg, Run(cfg, s, acts))
    ensures s.log.accepted <= Run(cfg, s, acts).log.accepted
    ensures s.log.calls <= Run(cfg, s, acts).log.calls
    decreases acts
  {
    hide Step, Enabled, Inv;
    if acts != [] {
      StepKeepsInv(cfg, s, acts[0]);
      StepExtends(cfg, s, acts[0]);
      RunKeepsInv(cfg, Step(cfg, s, acts[0]), acts[1..]);
    }
  }

  ghost predicate Reachable<R(!new)>(cfg: Config, s: System<R>) {
    exists acts: seq<Action<R>> :: CanRun(cfg, Start(), acts) && s == Run(cfg, Start(), acts)
  }

  lemma {:induction false} ReachableInv<R(!new)>(cfg: Config, s: System<R>)
    requires ValidConfig(cfg) && Reachable(cfg, s)
    ensures Inv(cfg, s)
  {
    hide Run, CanRun, Inv;
    StartInv<R>(cfg);
    var acts: seq<Action<R>> :| CanRun(cfg, Start(), acts) && s == Run(cfg, Start(), acts);
    RunKeepsInv(cfg, Start(), acts);
  }

  // ---- conservation ---------------------------------------------------------------------------

  lemma {:induction false} CountsAddUp(os: seq<Outcome>)
    ensures CountOf(os, Delivered) + CountOf(os, Failed) + CountOf(os, Lost) == |os|
  {
    if os != [] {
      CountsAddUp(os[1..]);
    }
  }

  /** Exactly-once, first-in first-out conservation under every interleaving: the accepted records are,
      in order, the resolved ones, the rest of the batch in hand, the buffer and the abandoned; the
      counters add up; what a crash loses is at most one batch and only with a dead worker. */
  lemma {:induction false} NothingLostOrDuplicated<R(!new)>(cfg: Config, s: System<R>)
    requires ValidConfig(cfg) && Reachable(cfg, s)
    ensures var lostInCrash := CountOf(s.log.outcomes, Lost);
            && s.log.accepted == s.log.resolved + Pending(s.worker) + s.m.buffer + s.log.abandoned
            && |s.log.accepted| == s.m.accepted && |s.log.outcomes| == |s.log.resolved|
            && s.m.delivered + s.m.failed + s.m.droppedAtClose + |s.m.buffer| + |Pending(s.worker)| + lostInCrash ==
               s.m.accepted
            && s.log.offers == s.m.delivered + s.m.Dropped() + |s.m.buffer| + |Pending(s.worker)| + lostInCrash
            && lostInCrash <= cfg.batchSize && (lostInCrash > 0 ==> !s.m.workerAlive)
  {
    ReachableInv(cfg, s);
    CountsAddUp(s.log.outcomes);
    hide Reachable, CountOf;
  }

  /** Retention is bounded in every reachable state. */
  lemma {:induction false} RetentionBounded<R(!new)>(cfg: Config, s: System<R>)
    requires ValidConfig(cfg) && Reachable(cfg, s)
    ensures |s.m.buffer| <= cfg.maxBuffer && |s.m.buffer| + s.m.inFlight <= cfg.maxBuffer + cfg.batchSize
    ensures |Pending(s.worker)| <= s.m.inFlight
  {
    ReachableInv(cfg, s);
    hide Reachable;
  }

  /** A flush that returns True tells the truth: every record accepted before the call is delivered,
      failed, lost with the worker or abandoned by a close. */
  lemma {:induction false} FlushTellsTruth<R(!new)>(
    cfg: Config, called: System<R>, during: seq<Action<R>>, s: System<R>)
    requires ValidConfig(cfg) && Reachable(cfg, called) && CanRun(cfg, called, during) && s == Run(cfg, called, during)
    requires s.m.Drained()
    ensures called.log.accepted <= s.log.resolved + s.log.abandoned
    ensures |s.log.outcomes| == |s.log.resolved| && |s.log.abandoned| == s.m.droppedAtClose
  {
    hide Reachable, Run, CanRun;
    ReachableInv(cfg, called);
    RunKeepsInv(cfg, called, during);
    assert Pending(s.worker) == [] && s.m.buffer == [];
    assert s.log.resolved + [] + [] + s.log.abandoned == s.log.resolved + s.log.abandoned;
  }

  /** And it returns True as soon as it can: nothing is buffered or in hand exactly when every accepted record is
      resolved or abandoned and the worker has put down its batch. */
  lemma {:induction false} DrainedIff<R(!new)>(cfg: Config, s: System<R>)
    requires ValidConfig(cfg) && Reachable(cfg, s)
    ensures s.m.Drained() <==>
            && s.log.accepted == s.log.resolved + s.log.abandoned
            && (s.worker.Delivering? ==> s.worker.batch == [])
  {
    hide Reachable, Counters, Lifecycle, CallsProper;
    ReachableInv(cfg, s);
    assert |s.log.accepted| == |s.log.resolved| + |Pending(s.worker)| + |s.m.buffer| + |s.log.abandoned|;
    if s.m.Drained() {
      assert Pending(s.worker) == [];
      assert s.log.resolved + [] + [] + s.log.abandoned == s.log.resolved + s.log.abandoned;
    }
  }

  /** The sink is closed at most once, as the last thing that ever happens to it, and no call hands it
      an empty batch or one above the batch size. */
  lemma {:induction false} SinkClosedOnceAndLast<R(!new)>(cfg: Config, s: System<R>, i: nat)
    requires ValidConfig(cfg) && Reachable(cfg, s) && i < |s.log.calls|
    ensures s.log.calls[i].Closed? <==> s.m.sinkClosed && i == |s.log.calls| - 1
    ensures s.log.calls[i].Batch? ==> 0 < |s.log.calls[i].records| <= cfg.batchSize
  {
    hide Reachable;
    ReachableInv(cfg, s);
    assert s.log.calls[i] in s.log.calls;
  }

  // ---- draining after close ----------------------------------------------------------------------

  predicate WorkerAction<R>(a: Action<R>) {
    || a.Linger? || a.Take? || a.Leave? || a.DeliverBatch? || a.DeliverOne? || a.ClearInFlight? || a.ExitLoop?
    || a.CloseSink?
  }

  // How many of `acts` take a non-empty batch, and how many are the worker's.
  function FullTakes<R>(cfg: Config, s: System<R>, acts: seq<Action<R>>): nat
    requires CanRun(cfg, s, acts)
    decreases acts
  {
    if acts == [] then 0
    else (if acts[0].Take? && |s.m.buffer| > 0 then 1 else 0) + FullTakes(cfg, Step(cfg, s, acts[0]), acts[1..])
  }

  function WorkerSteps<R>(acts: seq<Action<R>>): nat {
    if acts == [] then 0 else (if WorkerAction(acts[0]) then 1 else 0) + WorkerSteps(acts[1..])
  }

  // An upper bound on the worker's remaining steps once the client is closed.
  function Remaining<R>(s: System<R>): nat {
    5 * |s.m.buffer| +
    match s.worker
    case Waiting => 5
    case Lingering => if |s.m.buffer| == 0 then 8 else 4
    case Delivering(batch, next) => 6 + |Pending(s.worker)|
    case Leaving => 2
    case ClosingSink => 1
    case Gone => 0
  }

  // Sinks that return or raise an Exception, and a close that abandons nothing.
  ghost predicate Orderly<R>(acts: seq<Action<R>>) {
    forall a | a in acts :: !a.Crash? && !a.Abandon?
  }

  lemma {:induction false} DrainStep<R>(cfg: Config, s: System<R>, a: Action<R>)
    requires ValidConfig(cfg) && Bounds(cfg, s) && Lifecycle(cfg, s) && Enabled(cfg, s, a)
    requires s.m.closed && !a.Crash? && !a.Abandon?
    ensures var t := Step(cfg, s, a);
            && t.m.closed && t.log.abandoned == s.log.abandoned && t.log.accepted == s.log.accepted
            && t.log.crashed == s.log.crashed
            && Remaining(t) + (if WorkerAction(a) then 1 else 0) <= Remaining(s)
            && Ceil(|t.m.buffer|, cfg.batchSize) + (if a.Take? && |s.m.buffer| > 0 then 1 else 0)
               == Ceil(|s.m.buffer|, cfg.batchSize)
  {}

  lemma {:induction false} DrainBounds<R>(cfg: Config, s: System<R>, acts: seq<Action<R>>)
    requires ValidConfig(cfg) && Inv(cfg, s) && CanRun(cfg, s, acts) && s.m.closed && Orderly(acts)
    ensures var t := Run(cfg, s, acts);
            && t.m.closed && t.log.accepted == s.log.accepted && t.log.abandoned == s.log.abandoned
            && t.log.crashed == s.log.crashed
            && WorkerSteps(acts) + Remaining(t) <= Remaining(s)
            && FullTakes(cfg, s, acts) + Ceil(|t.m.buffer|, cfg.batchSize) == Ceil(|s.m.buffer|, cfg.batchSize)
    decreases acts
  {
    hide Step, Enabled, Conserved, Counters, CallsProper;
    if acts != [] {
      assert acts[0] in acts;
      DrainStep(cfg, s, acts[0]);
      StepKeepsInv(cfg, s, acts[0]);
      DrainBounds(cfg, Step(cfg, s, acts[0]), acts[1..]);
    }
  }

  // Until it is gone the worker of a closed client always has a next step of its own.
  lemma WorkerNeverStuck<R>(cfg: Config, s: System<R>)
    requires ValidConfig(cfg) && Inv(cfg, s) && s.m.closed && !s.worker.Gone?
    ensures exists a: Action<R> :: WorkerAction(a) && Enabled(cfg, s, a)
  {
    var a: Action<R> :=
      match s.worker
      case Waiting => if |s.m.buffer| == 0 then Leave else Take
      case Lingering => Take
      case Delivering(batch, next) =>
        if next >= |batch| then ClearInFlight
        else if cfg.takesBatches then DeliverBatch(Delivered) else DeliverOne(Delivered)
      case Leaving => ExitLoop
      case ClosingSink => CloseSink
      case Gone => Leave;
    assert WorkerAction(a) && Enabled(cfg, s, a);
  }

  /** Draining: from any reachable closed state, while the sink returns or raises Exceptions and nothing
      is abandoned, the worker hands over at most ceil(buffered / batch size) more batches, takes a
      bounded number of steps, is never stuck before it is gone, and when it is gone the buffer is empty
      and every accepted record that was not abandoned before is delivered or failed. */
  lemma {:induction false} CloseDrains<R(!new)>(cfg: Config, s: System<R>, acts: seq<Action<R>>, t: System<R>)
    requires ValidConfig(cfg) && Reachable(cfg, s) && s.m.closed && !s.log.crashed
    requires CanRun(cfg, s, acts) && t == Run(cfg, s, acts) && Orderly(acts)
    ensures FullTakes(cfg, s, acts) <= Ceil(|s.m.buffer|, cfg.batchSize)
    ensures WorkerSteps(acts) <= Remaining(s)
    ensures !t.worker.Gone? ==> exists a: Action<R> :: WorkerAction(a) && Enabled(cfg, t, a)
    ensures t.worker.Gone? ==> t.m.buffer == [] && t.m.delivered + t.m.failed + t.m.droppedAtClose == t.m.accepted
    ensures t.m.accepted == s.m.accepted && t.m.droppedAtClose == s.m.droppedAtClose
  {
    hide Reachable, Run, CanRun, Enabled, FullTakes, WorkerSteps, CountOf;
    ReachableInv(cfg, s);
    RunKeepsInv(cfg, s, acts);
    DrainBounds(cfg, s, acts);
    CountsAddUp(t.log.outcomes);
    if !t.worker.Gone? {
      WorkerNeverStuck(cfg, t);
    }
  }

  /** No producer ever waits: in every state a record can be offered, a flush begun and the client closed. A waiting
      flush, a close or a full batch hurries the worker: it takes what there is and does not linger. */
  lemma NobodyWaits<R>(cfg: Config, s: System<R>, record: Option<R>)
    ensures Enabled(cfg, s, Offer(record)) && Enabled<R>(cfg, s, EnterFlush) && Enabled<R>(cfg, s, Close(false))
    ensures !s.worker.Gone? ==> Enabled<R>(cfg, s, Close(true))
    ensures s.worker.Waiting? && |s.m.buffer| > 0 ==> Enabled<R>(cfg, s, Take)
    ensures s.worker.Lingering? ==> Enabled<R>(cfg, s, Take)
    ensures s.m.flushWaiters > 0 || s.m.stopping || |s.m.buffer| >= cfg.batchSize || !cfg.lingers ==>
              !Enabled<R>(cfg, s, Linger)
  {
  }

  // ---- what the actions of a run add up to -------------------------------------------------------------

  // The flush calls that are still waiting.
  function Flushing<R>(acts: seq<Action<R>>): int {
    if acts == [] then 0
    else Flushing(acts[..|acts| - 1]) +
         (match acts[|acts| - 1] case EnterFlush => 1 case LeaveFlush => -1 case _ => 0)
  }

  // The sink calls made, one that crashed included.
  function SinkCalls<R>(acts: seq<Action<R>>): nat {
    if acts == [] then 0
    else SinkCalls(acts[..|acts| - 1]) +
         (match acts[|acts| - 1]
          case DeliverBatch(_) => 1
          case DeliverOne(_) => 1
          case CloseSink => 1
          case Crash(called) => if called then 1 else 0
          case _ => 0)
  }

  // Whether the first `close` of all waits for the worker.
  function FirstClose<R>(acts: seq<Action<R>>): Option<bool> {
    if acts == [] then None
    else if acts[0].Close? then Some(acts[0].joins)
    else FirstClose(acts[1..])
  }

  lemma {:induction false} FirstCloseNext<R>(acts: seq<Action<R>>, a: Action<R>)
    ensures FirstClose(acts + [a]) ==
            if FirstClose(acts).Some? then FirstClose(acts) else if a.Close? then Some(a.joins) else None
  {
    if acts == [] {
      assert (acts + [a])[1..] == [];
    } else {
      assert (acts + [a])[1..] == acts[1..] + [a];
      FirstCloseNext(acts[1..], a);
    }
  }

  lemma {:induction false} LastAction<R>(cfg: Config, s: System<R>, acts: seq<Action<R>>, a: Action<R>)
    requires CanRun(cfg, s, acts + [a])
    ensures CanRun(cfg, s, acts) && Enabled(cfg, Run(cfg, s, acts), a)
    ensures Run(cfg, s, acts + [a]) == Step(cfg, Run(cfg, s, acts), a)
    decreases |acts|
  {
    hide Enabled, Step;
    if acts == [] {
      assert acts + [a] == [a] && [a][1..] == [];
    } else {
      assert (acts + [a])[1..] == acts[1..] + [a];
      LastAction(cfg, Step(cfg, s, acts[0]), acts[1..], a);
    }
  }

  ghost predicate ClosedAs<R>(acts: seq<Action<R>>, s: System<R>) {
    && (s.m.closed <==> FirstClose(acts).Some?)
    && (s.closer.NotClosing? <==> FirstClose(acts).None?)
    && (s.closer.Joining? <==>
          FirstClose(acts) == Some(true) && JoinReturns !in acts && JoinTimesOut !in acts)
    && (s.closer.TimedOut? <==> JoinTimesOut in acts && Abandon !in acts)
    && (JoinReturns in acts || JoinTimesOut in acts ==> FirstClose(acts) == Some(true))
    && (Abandon in acts ==> JoinTimesOut in acts)
  }

  lemma ClosedNext<R>(cfg: Config, acts: seq<Action<R>>, s: System<R>, a: Action<R>)
    requires ClosedAs(acts, s) && Enabled(cfg, s, a)
    ensures ClosedAs(acts + [a], Step(cfg, s, a))
  {
    FirstCloseNext(acts, a);
    assert forall b :: b in acts + [a] <==> b in acts || b == a;
    hide Offered, Taken, Counted, Cleared, Exited, Abandoned, Accepts, BatchSize, SinkCallFor, FirstClose, Pending,
         Repeat, InLoop, Flushing, SinkCalls;
  }

  /** One `close` is effective, the first: the client is closed from then on, its call waits for the worker exactly
      if it is to and neither of the two ends of waiting has come, and only a wait that timed out abandons, once. */
  lemma {:induction false} CloseRunsOnce<R>(cfg: Config, acts: seq<Action<R>>)
    requires CanRun(cfg, Start(), acts)
    ensures ClosedAs(acts, Run(cfg, Start(), acts))
    decreases |acts|
  {
    if acts != [] {
      var n := |acts| - 1;
      assert acts == acts[..n] + [acts[n]];
      LastAction(cfg, Start(), acts[..n], acts[n]);
      CloseRunsOnce(cfg, acts[..n]);
      hide Enabled, Step, ClosedAs, Run, CanRun;
      ClosedNext(cfg, acts[..n], Run(cfg, Start(), acts[..n]), acts[n]);
    }
  }

  /** Over every run the waiting flushes are those that came and have not left, each of them free to leave, and the
      sink is called once for each delivery, each crash in a call, and its close. */
  lemma {:induction false} CallsAreCounted<R>(cfg: Config, acts: seq<Action<R>>)
    requires CanRun(cfg, Start(), acts)
    ensures var s := Run(cfg, Start(), acts);
            && s.m.flushWaiters == Flushing(acts) && |s.log.calls| == SinkCalls(acts)
            && (Flushing(acts) > 0 ==> Enabled<R>(cfg, s, LeaveFlush))
    decreases |acts|
  {
    if acts != [] {
      var n := |acts| - 1;
      assert acts == acts[..n] + [acts[n]];
      LastAction(cfg, Start(), acts[..n], acts[n]);
      CallsAreCounted(cfg, acts[..n]);
      StepFlushes(cfg, Run(cfg, Start(), acts[..n]), acts[n]);
      StepCalls(cfg, Run(cfg, Start(), acts[..n]), acts[n]);
      hide Step, Run, CanRun;
    }
  }

  lemma StepFlushes<R>(cfg: Config, s: System<R>, a: Action<R>)
    requires Enabled(cfg, s, a)
    ensures Step(cfg, s, a).m.flushWaiters ==
            s.m.flushWaiters + (match a case EnterFlush => 1 case LeaveFlush => -1 case _ => 0)
  {
    hide Pending, Repeat, SinkCallFor, Accepts, BatchSize, InLoop;
  }

  lemma StepCalls<R>(cfg: Config, s: System<R>, a: Action<R>)
    requires Enabled(cfg, s, a)
    ensures |Step(cfg, s, a).log.calls| == |s.log.calls| +
            (match a
             case DeliverBatch(_) => 1
             case DeliverOne(_) => 1
             case CloseSink => 1
             case Crash(called) => if called then 1 else 0
             case _ => 0)
  {
    hide Offered, Taken, Counted, Cleared, Exited, Shut, Abandoned, Pending, Repeat, Accepts, BatchSize, InLoop;
  }
}
