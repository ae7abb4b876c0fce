// The buffered emitter: the monitor behind its lock, and the class whose methods are its critical sections.
module Emitter {
  import opened Base

  /** What wiring fixes: the buffer's bound, the batch size, whether the worker lingers, whether the sink
      takes whole batches. */
  datatype Config = Config(maxBuffer: nat, batchSize: nat, lingers: bool, takesBatches: bool)

  // The constructor refuses a bound or a batch size below one.
  predicate ValidConfig(cfg: Config) { cfg.maxBuffer >= 1 && cfg.batchSize >= 1 }

  /** Everything the condition variable guards. */
  datatype Monitor<R> = Monitor(
    buffer: seq<R>, inFlight: nat, flushWaiters: nat,
    stopping: bool, closed: bool, sinkClosed: bool, workerAlive: bool,
    accepted: nat, delivered: nat, failed: nat,
    droppedBufferFull: nat, droppedNotARecord: nat, droppedClosed: nat, droppedAtClose: nat)
  {
    // EmitterStats.dropped.
    function Dropped(): nat {
      failed + droppedBufferFull + droppedNotARecord + droppedClosed + droppedAtClose
    }

    // What `flush` returns.
    predicate Drained() { |buffer| == 0 && inFlight == 0 }
  }

  function Fresh<R>(): Monitor<R> {
    Monitor([], 0, 0, false, false, false, true, 0, 0, 0, 0, 0, 0, 0)
  }

  // How a sink call ended, as the worker counts it.
  datatype Outcome = Delivered | Failed | Lost

  function Min(a: nat, b: nat): nat { if a <= b then a else b }

  // ---- the critical sections, as functions -------------------------------------------------

  // `None` is a value that is not a usage record.
  function Offered<R>(cfg: Config, m: Monitor<R>, record: Option<R>): Monitor<R> {
    if record.None? then m.(droppedNotARecord := m.droppedNotARecord + 1)
    else if m.closed then m.(droppedClosed := m.droppedClosed + 1)
    else if |m.buffer| >= cfg.maxBuffer then m.(droppedBufferFull := m.droppedBufferFull + 1)
    else m.(buffer := m.buffer + [record.value], accepted := m.accepted + 1)
  }

  predicate Accepts<R>(cfg: Config, m: Monitor<R>, record: Option<R>) {
    record.Some? && !m.closed && |m.buffer| < cfg.maxBuffer
  }

  function BatchSize<R>(cfg: Config, m: Monitor<R>): nat { Min(|m.buffer|, cfg.batchSize) }

  function Taken<R>(cfg: Config, m: Monitor<R>): Monitor<R> {
    m.(buffer := m.buffer[BatchSize(cfg, m)..], inFlight := BatchSize(cfg, m))
  }

  function Counted<R>(m: Monitor<R>, n: nat, o: Outcome): Monitor<R> {
    match o
    case Delivered => m.(delivered := m.delivered + n)
    case Failed => m.(failed := m.failed + n)
    case Lost => m
  }

  function Cleared<R>(m: Monitor<R>): Monitor<R> { m.(inFlight := 0) }

  function Exited<R>(m: Monitor<R>): Monitor<R> { m.(workerAlive := false, inFlight := 0) }

  function Shut<R>(m: Monitor<R>): Monitor<R> { m.(closed := true, stopping := true) }

  function Abandoned<R>(m: Monitor<R>): Monitor<R> {
    m.(buffer := [], droppedAtClose := m.droppedAtClose + |m.buffer|)
  }

  // ---- what a run of the worker's own code amounts to --------------------------------------------

  function CountOf(os: seq<Outcome>, o: Outcome): nat {
    if os == [] then 0 else (if os[0] == o then 1 else 0) + CountOf(os[1..], o)
  }

  lemma CountAppend(a: seq<Outcome>, b: seq<Outcome>, o: Outcome)
    ensures CountOf(a + b, o) == CountOf(a, o) + CountOf(b, o)
  {
    if a == [] {
      assert a + b == b;
    } else {
      assert (a + b)[1..] == a[1..] + b;
      CountAppend(a[1..], b, o);
    }
  }

  lemma CountNext(os: seq<Outcome>, i: nat)
    requires i < |os|
    ensures forall o :: CountOf(os[..i + 1], o) == CountOf(os[..i], o) + if os[i] == o then 1 else 0
  {
    assert os[..i + 1] == os[..i] + [os[i]];
    forall o ensures CountOf(os[..i + 1], o) == CountOf(os[..i], o) + if os[i] == o then 1 else 0 {
      CountAppend(os[..i], [os[i]], o);
    }
  }

  // How many batches of at most `d` it takes to hand over `n` records.
  function Ceil(n: nat, d: nat): nat
    requires d >= 1
  {
    if n == 0 then 0 else 1 + Ceil(n - Min(n, d), d)
  }

  // It is the ceiling of n / d.
  lemma {:induction false} CeilIs(n: nat, d: nat)
    requires d >= 1
    ensures n <= Ceil(n, d) * d && (n > 0 ==> (Ceil(n, d) - 1) * d < n)
  {
    if n > d {
      CeilIs(n - d, d);
      var k := Ceil(n - d, d);
      assert (k + 1) * d == k * d + d;
      assert k * d == (k - 1) * d + d;
    } else if n > 0 {
      assert Ceil(n, d) == 1 + Ceil(0, d) == 1;
    }
  }

  lemma NothingToHandOver<R>(size: nat)
    requires size >= 1
    ensures Flatten<R>([]) == [] && Ceil(0, size) == 0
  {
  }

  lemma OneMoreBatch<R>(batches: seq<seq<R>>, batch: seq<R>, rest: seq<R>, size: nat)
    requires size >= 1 && |batch| == Min(|batch + rest|, size) > 0
    ensures Flatten(batches + [batch]) + rest == Flatten(batches) + (batch + rest)
    ensures Ceil(|batch + rest|, size) == 1 + Ceil(|rest|, size)
  {
    FlattenAppend(batches, batch);
  }

  /** The client. Each method below `constructor` is one region the source runs under its lock, except
      `Deliver` and `Run`, which are the worker's own code between and around them. */
  class BufferedEmitter<R> {
    const config: Config
    var buffer: seq<R>
    var inFlight: nat
    var flushWaiters: nat
    var stopping: bool
    var closed: bool
    var sinkClosed: bool
    var workerAlive: bool
    var accepted: nat
    var delivered: nat
    var failed: nat
    var droppedBufferFull: nat
    var droppedNotARecord: nat
    var droppedClosed: nat
    var droppedAtClose: nat

    ghost function View(): Monitor<R>
      reads this
    {
      Monitor(buffer, inFlight, flushWaiters, stopping, closed, sinkClosed, workerAlive,
              accepted, delivered, failed, droppedBufferFull, droppedNotARecord, droppedClosed, droppedAtClose)
    }

    constructor (cfg: Config)
      requires ValidConfig(cfg)
      ensures config == cfg && View() == Fresh()
      ensures buffer == [] && inFlight == flushWaiters == 0
      ensures workerAlive && !stopping && !closed && !sinkClosed
      ensures accepted == delivered == failed == 0
      ensures droppedBufferFull == droppedNotARecord == droppedClosed == droppedAtClose == 0
    {
      config := cfg;
      buffer, inFlight, flushWaiters := [], 0, 0;
      stopping, closed, sinkClosed, workerAlive := false, false, false, true;
      accepted, delivered, failed := 0, 0, 0;
      droppedBufferFull, droppedNotARecord, droppedClosed, droppedAtClose := 0, 0, 0, 0;
    }

    method Offer(record: Option<R>) returns (ok: bool)
      modifies this
      ensures View() == Offered(config, old(View()), record)
      ensures ok == Accepts(config, old(View()), record)
      ensures ok <==> record.Some? && !old(closed) && |old(buffer)| < config.maxBuffer
      ensures buffer == old(buffer) + (if ok then [record.value] else [])
      ensures accepted == old(accepted) + (if ok then 1 else 0)
      ensures droppedNotARecord == old(droppedNotARecord) + (if record.None? then 1 else 0)
      ensures droppedClosed == old(droppedClosed) + (if record.Some? && old(closed) then 1 else 0)
      ensures droppedBufferFull ==
              old(droppedBufferFull) +
              (if record.Some? && !old(closed) && |old(buffer)| >= config.maxBuffer then 1 else 0)
    {
      if record.None? {
        droppedNotARecord := droppedNotARecord + 1;
        return false;
      }
      if closed {
        droppedClosed := droppedClosed + 1;
      } else if |buffer| >= config.maxBuffer {
        droppedBufferFull := droppedBufferFull + 1;
      } else {
        buffer := buffer + [record.value];
        accepted := accepted + 1;
        return true;
      }
      return false;
    }

    // The last part of `_next_batch`, reached once the waiting is over.
    method TakeBatch() returns (batch: seq<R>)
      modifies this
      ensures View() == Taken(config, old(View()))
      ensures batch == old(buffer)[..BatchSize(config, old(View()))]
      ensures batch + buffer == old(buffer) && inFlight == |batch| <= config.batchSize
      ensures |batch| == config.batchSize || buffer == []
    {
      var size := if |buffer| <= config.batchSize then |buffer| else config.batchSize;
      batch := buffer[..size];
      buffer := buffer[size..];
      inFlight := size;
    }

    method Count(n: nat, o: Outcome)
      modifies `delivered, `failed
      ensures View() == Counted(old(View()), n, o)
      ensures delivered == old(delivered) + (if o.Delivered? then n else 0)
      ensures failed == old(failed) + (if o.Failed? then n else 0)
    {
      match o
      case Delivered => delivered := delivered + n;
      case Failed => failed := failed + n;
      case Lost =>
    }

    method ClearInFlight()
      modifies this
      ensures View() == Cleared(old(View())) && inFlight == 0
    {
      inFlight := 0;
    }

    method Exit()
      modifies this
      ensures View() == Exited(old(View())) && !workerAlive && inFlight == 0
    {
      workerAlive := false;
      inFlight := 0;
    }

    // Returns whether the caller may now call the sink's `close`.
    method CloseSink() returns (mine: bool)
      modifies this
      ensures mine == !old(sinkClosed)
      ensures View() == old(View()).(sinkClosed := true)
    {
      mine := !sinkClosed;
      sinkClosed := true;
    }

    // Returns whether this call is the one that closes.
    method Close() returns (first: bool)
      modifies this
      ensures first == !old(closed)
      ensures View() == if old(closed) then old(View()) else Shut(old(View()))
      ensures closed && (first ==> stopping) && (!first ==> stopping == old(stopping))
    {
      first := !closed;
      if first {
        closed := true;
        stopping := true;
      }
    }

    method Abandon()
      modifies this
      ensures View() == Abandoned(old(View()))
      ensures buffer == [] && droppedAtClose == old(droppedAtClose) + |old(buffer)|
    {
      var abandoned := |buffer|;
      buffer := [];
      droppedAtClose := droppedAtClose + abandoned;
    }

    // `_deliver` to a sink that takes one record at a time: `outcomes` says how each call would end.
    method DeliverEach(batch: seq<R>, outcomes: seq<Outcome>)
      requires |outcomes| == |batch| && forall i | 0 <= i < |batch| :: outcomes[i] != Lost
      modifies `delivered, `failed
      ensures View() == old(View()).(delivered := old(delivered) + CountOf(outcomes, Delivered),
                                     failed := old(failed) + CountOf(outcomes, Failed))
      ensures delivered + failed == old(delivered + failed) + |batch|
    {
      assert CountOf(outcomes[..0], Delivered) == CountOf(outcomes[..0], Failed) == 0;
      hide CountOf;
      for i := 0 to |batch|
        invariant delivered == old(delivered) + CountOf(outcomes[..i], Delivered)
        invariant failed == old(failed) + CountOf(outcomes[..i], Failed)
        invariant delivered + failed == old(delivered + failed) + i
      {
        CountNext(outcomes, i);
        Count(1, outcomes[i]);
      }
      assert outcomes[..|batch|] == outcomes;
    }

    // `_deliver`.
    method Deliver(batch: seq<R>, outcomes: seq<Outcome>)
      requires |outcomes| == |batch| && |batch| > 0 && forall i | 0 <= i < |batch| :: outcomes[i] != Lost
      modifies `delivered, `failed
      ensures config.takesBatches ==> View() == Counted(old(View()), |batch|, outcomes[0])
      ensures !config.takesBatches ==>
        View() == old(View()).(delivered := old(delivered) + CountOf(outcomes, Delivered),
                               failed := old(failed) + CountOf(outcomes, Failed))
      ensures delivered + failed == old(delivered + failed) + |batch|
    {
      if config.takesBatches {
        Count(|batch|, outcomes[0]);
      } else {
        DeliverEach(batch, outcomes);
      }
    }

    // One turn of the worker's loop with records waiting.
    method Turn(fails: (nat, nat) -> bool, k: nat) returns (batch: seq<R>)
      requires ValidConfig(config) && |buffer| > 0 && inFlight == 0
      modifies this
      ensures |batch| == Min(|old(buffer)|, config.batchSize) && batch + buffer == old(buffer)
      ensures delivered + failed == old(delivered + failed) + |batch|
      ensures View() == old(View()).(buffer := buffer, delivered := delivered, failed := failed)
    {
      batch := TakeBatch();
      var outcomes := seq(|batch|, i requires 0 <= i < |batch| => if fails(k, i) then Failed else Delivered);
      Deliver(batch, outcomes);
      ClearInFlight();
    }

    // `_run` on a closed client that nobody else touches: `fails(b, i)` says whether the i-th record of
    // batch b makes the sink raise.
    method Run(fails: (nat, nat) -> bool) returns (batches: seq<seq<R>>)
      requires ValidConfig(config) && stopping && inFlight == 0
      modifies this
      ensures |batches| == Ceil(|old(buffer)|, config.batchSize)
      ensures forall b | b in batches :: 0 < |b| <= config.batchSize
      ensures Flatten(batches) == old(buffer) && buffer == []
      ensures delivered + failed == old(delivered + failed) + |old(buffer)|
      ensures !workerAlive && sinkClosed && inFlight == 0
      ensures accepted == old(accepted) && droppedAtClose == old(droppedAtClose) && closed == old(closed)
    {
      hide Flatten, Ceil;
      NothingToHandOver<R>(config.batchSize);
      batches := [];
      while |buffer| > 0
        invariant stopping && inFlight == 0 && closed == old(closed)
        invariant |batches| + Ceil(|buffer|, config.batchSize) == Ceil(|old(buffer)|, config.batchSize)
        invariant forall b | b in batches :: 0 < |b| <= config.batchSize
        invariant Flatten(batches) + buffer == old(buffer)
        invariant delivered + failed + |buffer| == old(delivered + failed) + |old(buffer)|
        invariant accepted == old(accepted) && droppedAtClose == old(droppedAtClose)
        decreases |buffer|
      {
        var batch := Turn(fails, |batches|);
        OneMoreBatch(batches, batch, buffer, config.batchSize);
        batches := batches + [batch];
      }
      assert Flatten(batches) + [] == Flatten(batches);
      Exit();
      var mine := CloseSink();
    }
  }
}
