// The direct sink, alone and under the buffered emitter.
module Direct {
  import opened Base
  import Emitter
  import opened EmitterProtocol

  /** What the sink keeps, with the store behind it. */
  datatype Sink<R> = Sink(written: nat, dropped: nat, closed: bool, stored: seq<R>)

  // The usage records among the offered values; `None` is anything else.
  function Records<R>(offered: seq<Option<R>>): (rs: seq<R>)
    ensures |rs| <= |offered|
  {
    if offered == [] then []
    else Records(offered[..|offered| - 1]) +
         (if offered[|offered| - 1].Some? then [offered[|offered| - 1].value] else [])
  }

  lemma {:induction false} RecordsAre<R>(a: seq<Option<R>>, b: seq<Option<R>>, r: R)
    ensures Records(a + b) == Records(a) + Records(b)
    ensures Records([Some(r)]) == [r] && Records<R>([None]) == []
    decreases |b|
  {
    assert [Some(r)][..0] == [] && [Option<R>.None][..0] == [];
    if b == [] {
      assert a + b == a;
    } else {
      assert (a + b)[..|a + b| - 1] == a + b[..|b| - 1];
      RecordsAre(a, b[..|b| - 1], r);
    }
  }

  // One batch, whose single `write` call stores it whole or raises (`writes`).
  function Emitted<R>(s: Sink<R>, offered: seq<Option<R>>, writes: bool): Sink<R> {
    var batch := Records(offered);
    var refused := s.(dropped := s.dropped + (|offered| - |batch|));
    if |batch| == 0 then refused
    else if s.closed || !writes then refused.(dropped := refused.dropped + |batch|)
    else refused.(written := s.written + |batch|, stored := s.stored + batch)
  }

  /** The sink over a store that takes a batch whole or not at all. */
  class DirectSink<R> {
    var written: nat
    var dropped: nat
    var closed: bool
    var stored: seq<R>

    ghost function View(): Sink<R>
      reads this
    {
      Sink(written, dropped, closed, stored)
    }

    constructor ()
      ensures View() == Sink(0, 0, false, [])
    {
      written, dropped, closed, stored := 0, 0, false, [];
    }

    // Every offered value is written or dropped, and the store gains the whole batch or nothing.
    method EmitBatch(offered: seq<Option<R>>, writes: bool)
      modifies this
      ensures View() == Emitted(old(View()), offered, writes)
      ensures written + dropped == old(written + dropped) + |offered|
      ensures !old(closed) && writes ==>
                stored == old(stored) + Records(offered) && written == old(written) + |Records(offered)|
      ensures old(closed) || !writes ==> stored == old(stored) && written == old(written)
      ensures closed == old(closed)
    {
      var batch: seq<R> := [];
      for i := 0 to |offered|
        invariant batch == Records(offered[..i])
        invariant unchanged(this)
      {
        assert offered[..i + 1][..i] == offered[..i];
        if offered[i].Some? {
          batch := batch + [offered[i].value];
        }
      }
      assert offered[..|offered|] == offered;
      dropped := dropped + (|offered| - |batch|);
      if |batch| == 0 {
        return;
      }
      if closed {
        dropped := dropped + |batch|;
        return;
      }
      if !writes {
        dropped := dropped + |batch|;
        return;
      }
      stored := stored + batch;
      written := written + |batch|;
    }

    method Close() returns (first: bool)
      modifies this
      ensures first == !old(closed) && closed
      ensures View() == old(View()).(closed := true)
    {
      first := !closed;
      closed := true;
    }
  }

  // ---- under the emitter -------------------------------------------------------------------------

  function Wrap<R>(rs: seq<R>): seq<Option<R>> {
    seq(|rs|, i requires 0 <= i < |rs| => Some(rs[i]))
  }

  // The sink after the emitter's calls; `writes[i]` is how the store answers the i-th.
  function Replay<R>(calls: seq<SinkCall<R>>, writes: seq<bool>): Sink<R>
    requires |writes| == |calls|
  {
    if calls == [] then Sink(0, 0, false, [])
    else
      var n := |calls| - 1;
      var before := Replay(calls[..n], writes[..n]);
      match calls[n]
      case Batch(rs) => Emitted(before, Wrap(rs), writes[n])
      case One(r) => Emitted(before, Wrap([r]), writes[n])
      case Closed => before.(closed := true)
  }

  // The records of the calls the store took.
  function Kept<R>(calls: seq<SinkCall<R>>, writes: seq<bool>): seq<R>
    requires |writes| == |calls|
  {
    if calls == [] then []
    else
      var n := |calls| - 1;
      Kept(calls[..n], writes[..n]) +
      (match calls[n]
       case Batch(rs) => if writes[n] then rs else []
       case One(r) => if writes[n] then [r] else []
       case Closed => [])
  }

  lemma WrapRecords<R>(rs: seq<R>)
    ensures Records(Wrap(rs)) == rs
  {
    if rs != [] {
      assert Wrap(rs)[..|rs| - 1] == Wrap(rs[..|rs| - 1]);
      WrapRecords(rs[..|rs| - 1]);
    }
  }

  ghost predicate ClosedIsLast<R>(calls: seq<SinkCall<R>>) {
    forall i | 0 <= i < |calls| - 1 :: !calls[i].Closed?
  }

  lemma {:induction false} ReplayAccounts<R>(calls: seq<SinkCall<R>>, writes: seq<bool>)
    requires |writes| == |calls| && ClosedIsLast(calls)
    ensures var s := Replay(calls, writes);
            && s.written + s.dropped == |CallRecords(calls)| && s.written == |s.stored|
            && s.stored == Kept(calls, writes)
            && (s.closed <==> calls != [] && calls[|calls| - 1].Closed?)
    decreases |calls|
  {
    if calls != [] {
      var n := |calls| - 1;
      ReplayAccounts(calls[..n], writes[..n]);
      match calls[n] {
        case Batch(rs) => WrapRecords(rs);
        case One(r) => WrapRecords([r]);
        case Closed =>
      }
    }
  }

  // Runs in which every sink call returns: a conforming sink does not raise.
  ghost predicate Conforming<R>(acts: seq<Action<R>>) {
    forall a | a in acts ::
      !a.Crash? && (a.DeliverBatch? ==> a.outcome.Delivered?) && (a.DeliverOne? ==> a.outcome.Delivered?)
  }

  lemma {:induction false} NothingFails<R>(cfg: Emitter.Config, s: System<R>, acts: seq<Action<R>>)
    requires CanRun(cfg, s, acts) && Conforming(acts)
    ensures Run(cfg, s, acts).m.failed == s.m.failed && Run(cfg, s, acts).log.crashed == s.log.crashed
    decreases acts
  {
    if acts != [] {
      assert acts[0] in acts;
      StepFailsNothing(cfg, s, acts[0]);
      hide Step, Enabled;
      NothingFails(cfg, Step(cfg, s, acts[0]), acts[1..]);
    }
  }

  lemma StepFailsNothing<R>(cfg: Emitter.Config, s: System<R>, a: Action<R>)
    requires Enabled(cfg, s, a) && Conforming([a])
    ensures Step(cfg, s, a).m.failed == s.m.failed && Step(cfg, s, a).log.crashed == s.log.crashed
  {
    assert a in [a];
  }

  // A quiet emitter with nothing failed or lost: its sink was handed exactly what it counts as delivered.
  lemma QuietCounts<R>(cfg: Emitter.Config, s: System<R>)
    requires Inv(cfg, s) && Pending(s.worker) == [] && s.m.failed == 0 && !s.log.crashed
    ensures s.m.delivered == |CallRecords(s.log.calls)| && CallRecords(s.log.calls) <= s.log.accepted
    ensures s.m.accepted == s.m.delivered + |s.m.buffer| + s.m.droppedAtClose
    ensures ClosedIsLast(s.log.calls)
  {
    hide Emitter.CountOf, CallRecords, Pending;
    CountsAddUp(s.log.outcomes);
  }

  /** Two-layer accounting: an emitter over a direct sink, no crash, the store taking each batch whole or
      not at all. Whenever no batch is in hand, the emitter's `failed` is 0, its `delivered` is what the
      sink wrote plus what it dropped, and the store holds exactly the records of the batches it took:
      whole batches, in acceptance order. */
  lemma {:induction false} TwoLayersAgree<R(!new)>(
    cfg: Emitter.Config, acts: seq<Action<R>>, s: System<R>, writes: seq<bool>)
    requires Emitter.ValidConfig(cfg) && cfg.takesBatches
    requires CanRun(cfg, Start(), acts) && s == Run(cfg, Start(), acts) && Conforming(acts)
    requires |writes| == |s.log.calls| && Pending(s.worker) == []
    ensures var sink := Replay(s.log.calls, writes);
            && s.m.failed == 0
            && s.m.delivered == sink.written + sink.dropped
            && CallRecords(s.log.calls) <= s.log.accepted
            && sink.stored == Kept(s.log.calls, writes) && sink.written == |sink.stored|
            && s.m.accepted == sink.written + sink.dropped + |s.m.buffer| + s.m.droppedAtClose
  {
    hide Run, CanRun, Step, Enabled, Replay, Kept, Inv, Pending, CallRecords, ClosedIsLast;
    NothingFails<R>(cfg, Start(), acts);
    StartInv<R>(cfg);
    RunKeepsInv(cfg, Start(), acts);
    QuietCounts(cfg, s);
    ReplayAccounts(s.log.calls, writes);
  }
}
