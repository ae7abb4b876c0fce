// Whole runs of the AMQP sink: the dial cap, the spacing, recovery and the connections it holds.
module AmqpBounds {
  import opened Base
  import opened Amqp

  datatype Event = Emitting(e: Encounter) | Closing

  ghost predicate Possible(w: World, ev: Event) { ev.Emitting? ==> Timely(w, ev.e) }

  function Next(w: World, ev: Event): World {
    match ev
    case Emitting(e) => Emit(w, e)
    case Closing => Close(w)
  }

  ghost predicate CanRun(w: World, events: seq<Event>)
    decreases |events|
  {
    events == [] || (Possible(w, events[0]) && CanRun(Next(w, events[0]), events[1..]))
  }

  function Run(w: World, events: seq<Event>): World
    decreases |events|
  {
    if events == [] then w else Run(Next(w, events[0]), events[1..])
  }

  lemma {:induction false} RunAppend(w: World, a: seq<Event>, b: seq<Event>)
    ensures Run(w, a + b) == Run(Run(w, a), b)
    ensures CanRun(w, a + b) <==> CanRun(w, a) && CanRun(Run(w, a), b)
    decreases |a|
  {
    if a == [] {
      assert a + b == b;
    } else {
      assert (a + b)[1..] == a[1..] + b;
      RunAppend(Next(w, a[0]), a[1..], b);
    }
  }

  // ---- what every call keeps -------------------------------------------------------------------

  ghost predicate Held(w: World) {
    var s := w.sink;
    && s.interval >= 0.0 && w.now >= 0.0
    && s.published + s.dropped == w.emits
    && w.open == (if s.ownsConnection && s.connection.Some? && !s.closed then {s.connection.value} else {})
    && (s.reconnects ==>
          && s.ownsConnection && s.channel == s.connection
          && (s.channel.None? ==> s.connectionPublishes == 0)
          && (s.channel.Some? ==> s.nextReconnectAt <= w.now))
  }

  lemma LiveHeld(w: World, e: Encounter)
    requires Held(w) && Timely(w, e) && !w.sink.closed
    ensures Held(LiveChannel(w, e).(now := e.afterPublish))
  {
  }

  lemma EmitHeld(w: World, e: Encounter)
    requires Held(w) && Timely(w, e)
    ensures Held(Emit(w, e))
  {
    if e.isRecord && !w.sink.closed {
      LiveHeld(w, e);
      hide LiveChannel;
    }
  }

  lemma {:induction false} RunHeld(w: World, events: seq<Event>)
    requires Held(w) && CanRun(w, events)
    ensures Held(Run(w, events))
    decreases |events|
  {
    if events != [] {
      if events[0].Emitting? {
        EmitHeld(w, events[0].e);
      }
      hide Emit;
      RunHeld(Next(w, events[0]), events[1..]);
    }
  }

  /** In every reachable state of either kind of sink: each emit is a publish or a drop, at most one owned
      connection is open and none once the sink is closed, and while a reconnecting sink holds a channel any
      armed deadline is already past. */
  lemma {:induction false} NothingLeaks(start: World, events: seq<Event>, w: World)
    requires (exists interval, at | at >= 0.0 :: start == Opened(interval, at))
             || (exists c, k, o, interval, at | at >= 0.0 :: start == Handed(c, k, o, interval, at))
    requires CanRun(start, events) && w == Run(start, events)
    ensures w.sink.published + w.sink.dropped == w.emits
    ensures |w.open| <= 1 && (w.sink.closed ==> w.open == {})
    ensures w.sink.reconnects && w.sink.channel.Some? ==> w.sink.nextReconnectAt <= w.now
  {
    RunHeld(start, events);
  }

  // How many of the records offered along a run are taken, and how many are offered.
  ghost function TakenAlong(w: World, events: seq<Event>): nat
    decreases |events|
  {
    if events == [] then 0
    else (if events[0].Emitting? && IsTaken(w.sink, events[0].e) then 1 else 0)
         + TakenAlong(Next(w, events[0]), events[1..])
  }

  function Offers(events: seq<Event>): nat {
    if events == [] then 0 else (if events[0].Emitting? then 1 else 0) + Offers(events[1..])
  }

  /** The counters tell the truth over every run, from any state: `published` grows by the records that a
      channel took and `dropped` by all others, one for each emit. */
  lemma {:induction false} CountersTellTheTruth(w: World, events: seq<Event>)
    ensures Run(w, events).sink.published == w.sink.published + TakenAlong(w, events)
    ensures Run(w, events).sink.dropped + TakenAlong(w, events) == w.sink.dropped + Offers(events)
    decreases |events|
  {
    if events != [] {
      if events[0].Emitting? {
        EmitTakes(w, events[0].e);
      }
      hide Emit, IsTaken;
      CountersTellTheTruth(Next(w, events[0]), events[1..]);
    }
  }

  /** A new connection starts unproven: the emit that obtains one leaves it with exactly the records it
      published itself. */
  lemma {:induction false} FreshConnectionIsUnproven(w: World, e: Encounter)
    requires Held(w) && Timely(w, e) && w.sink.reconnects && w.sink.channel.None? && Emit(w, e).sink.channel.Some?
    ensures Emit(w, e).dials == w.dials + [e.atDial]
    ensures Emit(w, e).sink.connectionPublishes == Emit(w, e).sink.published - w.sink.published == 1
  {
  }

  /** Losing a connection that had published costs no waiting: the next record is dialled for at once
      unless, and only unless, the dial cap refuses. */
  lemma RecoversAtOnce(w: World, lost: Encounter, next: Encounter)
    requires Held(w) && w.sink.reconnects && !w.sink.closed
    requires w.sink.channel.Some? && w.sink.connectionPublishes > 0
    requires Timely(w, lost) && lost.isRecord && !lost.publishes
    requires Timely(Emit(w, lost), next) && next.isRecord
    ensures Emit(Emit(w, lost), next).dials ==
            w.dials + (if CapAllows(w.sink, next.atDial) then [next.atDial] else [])
  {
  }

  // ---- the cap -----------------------------------------------------------------------------------

  // `dials` cut into windows: at most MAX_DIALS_PER_INTERVAL dials each, inside one interval from the
  // window's first dial, and the windows' first dials at least an interval apart.
  ghost predicate Windows(ws: seq<seq<real>>, interval: real) {
    && (forall k | 0 <= k < |ws| :: 1 <= |ws[k]| <= MAX_DIALS_PER_INTERVAL)
    && (forall k, x | 0 <= k < |ws| && x in ws[k] :: ws[k][0] <= x < ws[k][0] + interval)
    && (forall k | 0 < k < |ws| :: ws[k][0] >= ws[k - 1][0] + interval)
  }

  // The sink's two cap fields describe the last window.
  ghost predicate CapState(w: World, first: real, ws: seq<seq<real>>) {
    && Windows(ws, w.sink.interval)
    && w.dials == [first] + Flatten(ws)
    && first <= w.now && (ws != [] ==> ws[0][0] >= first)
    && (if ws == [] then w.sink.dialWindowEnds <= w.now && w.sink.dialsInWindow == 0
        else w.sink.dialWindowEnds == ws[|ws| - 1][0] + w.sink.interval && w.sink.dialsInWindow == |ws[|ws| - 1]|
             && ws[|ws| - 1][0] <= w.now)
  }

  // The windows after a dial at `at`.
  function Extended(s: Sink, ws: seq<seq<real>>, at: real): seq<seq<real>> {
    if ws == [] || at >= s.dialWindowEnds then ws + [[at]]
    else ws[..|ws| - 1] + [ws[|ws| - 1] + [at]]
  }

  lemma ExtendedFlat(s: Sink, ws: seq<seq<real>>, at: real)
    ensures Flatten(Extended(s, ws, at)) == Flatten(ws) + [at]
  {
    if ws == [] || at >= s.dialWindowEnds {
      FlattenAppend(ws, [at]);
    } else {
      var n := |ws| - 1;
      FlattenAppend(ws[..n], ws[n] + [at]);
      FlattenAppend(ws[..n], ws[n]);
      assert ws[..n] + [ws[n]] == ws;
    }
  }

  lemma ExtendedWindows(w: World, first: real, ws: seq<seq<real>>, at: real)
    requires w.sink.interval > 0.0 && CapState(w, first, ws) && at >= w.now && CapAllows(w.sink, at)
    ensures Windows(Extended(w.sink, ws, at), w.sink.interval)
  {
  }

  lemma DialKeepsCap(w: World, first: real, ws: seq<seq<real>>, at: real)
    requires w.sink.interval > 0.0 && CapState(w, first, ws) && at >= w.now && CapAllows(w.sink, at)
    ensures CapState(w.(sink := CountDial(w.sink, at), dials := w.dials + [at], now := at), first,
                     Extended(w.sink, ws, at))
  {
    ExtendedFlat(w.sink, ws, at);
    ExtendedWindows(w, first, ws, at);
    hide Flatten, Windows;
    var xs := Extended(w.sink, ws, at);
    assert xs != [] && xs[0][0] >= first;
  }

  lemma InvalidateKeeps(w: World, now: real)
    ensures var a := Invalidate(w, now);
            && a.dials == w.dials && a.sink.published == w.sink.published
            && a.sink.interval == w.sink.interval && a.sink.reconnects == w.sink.reconnects
            && a.sink.dialWindowEnds == w.sink.dialWindowEnds && a.sink.dialsInWindow == w.sink.dialsInWindow
  {
  }

  lemma LiveChannelDials(w: World, e: Encounter)
    ensures Dials(w, e, LiveChannel(w, e)) && LiveChannel(w, e).sink.published == w.sink.published
  {
  }

  // At most one dial, and only if the interval has passed and the cap allows it.
  ghost predicate Dials(w: World, e: Encounter, a: World) {
    && a.sink.interval == w.sink.interval && a.sink.reconnects == w.sink.reconnects
    && (|| (a.dials == w.dials && a.sink.dialWindowEnds == w.sink.dialWindowEnds
            && a.sink.dialsInWindow == w.sink.dialsInWindow)
        || (a.dials == w.dials + [e.atDial]
            && CapAllows(w.sink, e.atDial) && w.sink.nextReconnectAt <= e.atBackoff && w.sink.channel.None?
            && a.sink.dialWindowEnds == CountDial(w.sink, e.atDial).dialWindowEnds
            && a.sink.dialsInWindow == CountDial(w.sink, e.atDial).dialsInWindow))
  }

  lemma EmitDials(w: World, e: Encounter)
    ensures Dials(w, e, Emit(w, e)) && Emit(w, e).sink.published >= w.sink.published
  {
    LiveChannelDials(w, e);
    var live := LiveChannel(w, e);
    InvalidateKeeps(Drop(live), e.afterPublish);
    hide LiveChannel, Invalidate, CapAllows, CountDial;
  }

  lemma {:induction false} RunIsCapped(w: World, events: seq<Event>, first: real, ws: seq<seq<real>>)
    returns (end: seq<seq<real>>)
    requires w.sink.interval > 0.0 && CanRun(w, events) && CapState(w, first, ws)
    ensures Run(w, events).sink.interval == w.sink.interval && CapState(Run(w, events), first, end)
    decreases |events|
  {
    end := ws;
    if events != [] {
      var after := Next(w, events[0]);
      if events[0].Emitting? {
        var e := events[0].e;
        EmitDials(w, e);
        hide Emit;
        if after.dials == w.dials {
          assert CapState(after, first, ws);
        } else {
          DialKeepsCap(w, first, ws, e.atDial);
          end := Extended(w.sink, ws, e.atDial);
          assert CapState(after, first, end);
        }
      }
      end := RunIsCapped(after, events[1..], first, end);
    }
  }

  // The dials in the half-open span [lo, hi).
  function CountIn(dials: seq<real>, lo: real, hi: real): nat {
    if dials == [] then 0
    else (if lo <= dials[0] < hi then 1 else 0) + CountIn(dials[1..], lo, hi)
  }

  lemma CountInAppend(a: seq<real>, b: seq<real>, lo: real, hi: real)
    ensures CountIn(a + b, lo, hi) == CountIn(a, lo, hi) + CountIn(b, lo, hi)
  {
    if a == [] {
      assert a + b == b;
    } else {
      assert (a + b)[1..] == a[1..] + b;
      CountInAppend(a[1..], b, lo, hi);
    }
  }

  lemma {:induction false} CountInAtMost(a: seq<real>, lo: real, hi: real)
    ensures CountIn(a, lo, hi) <= |a|
    ensures a != [] && !(lo <= a[0] < hi) ==> CountIn(a, lo, hi) <= |a| - 1
  {
    if a != [] {
      CountInAtMost(a[1..], lo, hi);
    }
  }

  lemma {:induction false} CountInNone(a: seq<real>, lo: real, hi: real)
    requires forall x | x in a :: !(lo <= x < hi)
    ensures CountIn(a, lo, hi) == 0
  {
    if a != [] {
      assert a[0] in a && forall x | x in a[1..] :: x in a;
      CountInNone(a[1..], lo, hi);
    }
  }

  // Every dial of the windows is at or after the first one.
  lemma {:induction false} WindowsStart(ws: seq<seq<real>>, interval: real, from: real)
    requires interval > 0.0 && Windows(ws, interval) && (ws != [] ==> ws[0][0] >= from)
    ensures forall x | x in Flatten(ws) :: x >= from
  {
    if ws != [] {
      WindowsTail(ws, interval);
      WindowsStart(ws[1..], interval, from);
    }
  }

  lemma WindowsTail(ws: seq<seq<real>>, interval: real)
    requires ws != [] && interval > 0.0 && Windows(ws, interval)
    ensures Windows(ws[1..], interval)
    ensures ws[1..] != [] ==> ws[1..][0][0] >= ws[0][0] + interval
  {
  }

  // Windows that start at or after `lo`: at most a full window per interval.
  lemma {:induction false} CountFromStart(ws: seq<seq<real>>, interval: real, from: real, lo: real, hi: real, n: nat)
    requires interval > 0.0 && Windows(ws, interval) && (ws != [] ==> ws[0][0] >= from)
    requires lo <= from && hi <= from + n as real * interval
    ensures CountIn(Flatten(ws), lo, hi) <= n * MAX_DIALS_PER_INTERVAL
    decreases |ws|
  {
    WindowsStart(ws, interval, from);
    if n == 0 {
      CountInNone(Flatten(ws), lo, hi);
    } else if ws != [] {
      WindowsTail(ws, interval);
      assert n as real * interval == interval + (n - 1) as real * interval;
      CountFromStart(ws[1..], interval, from + interval, lo, hi, n - 1);
      CountInAppend(ws[0], Flatten(ws[1..]), lo, hi);
      CountInAtMost(ws[0], lo, hi);
    }
  }

  lemma {:induction false} CountAnywhere(ws: seq<seq<real>>, interval: real, lo: real, n: nat)
    requires interval > 0.0 && Windows(ws, interval)
    ensures CountIn(Flatten(ws), lo, lo + n as real * interval) <= (n + 1) * MAX_DIALS_PER_INTERVAL - 1
    decreases |ws|
  {
    var hi := lo + n as real * interval;
    if ws != [] {
      if ws[0][0] >= lo {
        CountFromStart(ws, interval, lo, lo, hi, n);
      } else {
        WindowsTail(ws, interval);
        CountInAppend(ws[0], Flatten(ws[1..]), lo, hi);
        CountInAtMost(ws[0], lo, hi);
        if ws[0][0] + interval <= lo {
          CountInNone(ws[0], lo, hi);
          CountAnywhere(ws[1..], interval, lo, n);
        } else {
          CountFromStart(ws[1..], interval, lo, lo, hi, n);
        }
      }
    }
  }

  /** The dial cap, over every run and every span: a span of n intervals holds at most
      (n + 1) * MAX_DIALS_PER_INTERVAL - 1 dials, the one that opened the sink included. */
  lemma {:induction false} DialsAreCapped(interval: real, at: real, events: seq<Event>, lo: real, n: nat)
    requires interval > 0.0 && at >= 0.0 && CanRun(Opened(interval, at), events)
    ensures CountIn(Run(Opened(interval, at), events).dials, lo, lo + n as real * interval) <=
            (n + 1) * MAX_DIALS_PER_INTERVAL - 1
  {
    var start := Opened(interval, at);
    assert start.dials == [at] + Flatten([]);
    var ws := RunIsCapped(start, events, at, []);
    var hi := lo + n as real * interval;
    CountInAppend([at], Flatten(ws), lo, hi);
    assert CountIn([at], lo, hi) <= 1;
    if lo <= at < hi {
      CountFromStart(ws, interval, at, lo, hi, n);
    } else {
      CountAnywhere(ws, interval, lo, n);
    }
  }

  // Losing a connection that published and replacing it at once, both at time `t`.
  lemma Cycle(start: World, events: seq<Event>, t: real) returns (more: seq<Event>)
    requires CanRun(start, events) && Thriving(Run(start, events), t) && CapAllows(Run(start, events).sink, t)
    ensures CanRun(start, more) && Thriving(Run(start, more), t)
    ensures var w, a := Run(start, events), Run(start, more);
            && a.dials == w.dials + [t] && a.sink.interval == w.sink.interval
            && a.sink.dialWindowEnds == CountDial(w.sink, t).dialWindowEnds
            && a.sink.dialsInWindow == CountDial(w.sink, t).dialsInWindow
  {
    var w := Run(start, events);
    var bad := Encounter(true, t, t, t, t, Connected, false);
    var good := bad.(publishes := true);
    RunOne(start, events, Emitting(bad));
    var broken := Emit(w, bad);
    assert broken.sink.channel.None? && broken.sink.nextReconnectAt <= t && broken.now == t && !broken.sink.closed;
    RunOne(start, events + [Emitting(bad)], Emitting(good));
    more := events + [Emitting(bad)] + [Emitting(good)];
    hide Run, CanRun;
  }

  lemma RunOne(start: World, events: seq<Event>, ev: Event)
    requires CanRun(start, events) && Possible(Run(start, events), ev)
    ensures Run(start, events + [ev]) == Next(Run(start, events), ev) && CanRun(start, events + [ev])
  {
    assert [ev][1..] == [];
    RunAppend(start, events, [ev]);
    hide Next;
  }

  ghost predicate Thriving(w: World, t: real) {
    && w.now <= t && w.sink.reconnects && !w.sink.closed
    && w.sink.channel.Some? && w.sink.connectionPublishes > 0 && w.sink.nextReconnectAt <= t
  }

  lemma FirstPublish(interval: real) returns (events: seq<Event>)
    requires interval > 0.0
    ensures CanRun(Opened(interval, 0.0), events)
    ensures var w := Run(Opened(interval, 0.0), events);
            && Thriving(w, 0.0) && w.dials == [0.0] && w.sink.interval == interval
            && w.sink.dialWindowEnds == 0.0 && w.sink.dialsInWindow == 0
  {
    events := [Emitting(Encounter(true, 0.0, 0.0, 0.0, 0.0, Connected, true))];
    assert events[1..] == [];
  }

  // A full window of dials, all at the time it opens.
  lemma Burst(start: World, events: seq<Event>, t: real) returns (more: seq<Event>)
    requires CanRun(start, events) && Thriving(Run(start, events), t)
    requires Run(start, events).sink.interval > 0.0 && Run(start, events).sink.dialWindowEnds <= t
    ensures CanRun(start, more) && Thriving(Run(start, more), t)
    ensures var w, a := Run(start, events), Run(start, more);
            && a.dials == w.dials + [t, t, t] && a.sink.interval == w.sink.interval
            && a.sink.dialWindowEnds == t + w.sink.interval
  {
    hide Run, CanRun;
    var w := Run(start, events);
    more := Cycle(start, events, t);
    more := Cycle(start, more, t);
    more := Cycle(start, more, t);
    assert w.dials + [t] + [t] + [t] == w.dials + [t, t, t];
  }

  // `n` full windows have followed the first, and the last of them ends at `t`; `half` is half an interval.
  ghost predicate PackedTo(w: World, half: real, n: nat, t: real) {
    && Thriving(w, t) && w.sink.interval == half + half && w.sink.dialWindowEnds == t
    && forall hi | hi > half && hi > t - w.sink.interval ::
         CountIn(w.dials, half, hi) == (n + 1) * MAX_DIALS_PER_INTERVAL - 1
  }

  // One dial as the first window opens and the rest of it half an interval on.
  lemma {:induction false} PackFirst(interval: real) returns (events: seq<Event>)
    requires interval > 0.0
    ensures CanRun(Opened(interval, 0.0), events)
    ensures PackedTo(Run(Opened(interval, 0.0), events), interval / 2.0, 0, interval)
  {
    hide Run, CanRun;
    var start, half := Opened(interval, 0.0), interval / 2.0;
    events := FirstPublish(interval);
    events := Cycle(start, events, 0.0);
    events := Cycle(start, events, half);
    events := Cycle(start, events, half);
    assert Run(start, events).dials == [0.0, 0.0] + [half, half];
    forall hi | hi > half ensures CountIn([0.0, 0.0] + [half, half], half, hi) == 2 {
      CountInAppend([0.0, 0.0], [half, half], half, hi);
      CountPair(0.0, half, hi);
      CountPair(half, half, hi);
    }
  }

  lemma CountPair(t: real, lo: real, hi: real)
    ensures CountIn([t], lo, hi) == if lo <= t < hi then 1 else 0
    ensures CountIn([t, t], lo, hi) == if lo <= t < hi then 2 else 0
  {
    assert [t][1..] == [] && [t, t][1..] == [t];
  }

  // A full window more.
  lemma {:induction false} PackNext(interval: real, n: nat, t: real, events: seq<Event>) returns (more: seq<Event>)
    requires interval > 0.0 && t >= interval && CanRun(Opened(interval, 0.0), events)
    requires PackedTo(Run(Opened(interval, 0.0), events), interval / 2.0, n, t)
    ensures CanRun(Opened(interval, 0.0), more)
    ensures PackedTo(Run(Opened(interval, 0.0), more), interval / 2.0, n + 1, t + interval)
  {
    hide Run, CanRun;
    var start, half := Opened(interval, 0.0), interval / 2.0;
    var before := Run(start, events).dials;
    more := Burst(start, events, t);
    forall hi | hi > half && hi > t
      ensures CountIn(before + [t, t, t], half, hi) == (n + 2) * MAX_DIALS_PER_INTERVAL - 1
    {
      CountInAppend(before, [t, t, t], half, hi);
      CountInAppend([t], [t, t], half, hi);
      CountPair(t, half, hi);
      assert [t] + [t, t] == [t, t, t];
    }
  }

  lemma {:induction false} Pack(interval: real, n: nat) returns (events: seq<Event>)
    requires interval > 0.0
    ensures CanRun(Opened(interval, 0.0), events)
    ensures PackedTo(Run(Opened(interval, 0.0), events), interval / 2.0, n, n as real * interval + interval)
    decreases n
  {
    hide *;
    if n == 0 {
      events := PackFirst(interval);
    } else {
      events := Pack(interval, n - 1);
      var t := (n - 1) as real * interval + interval;
      assert t == n as real * interval;
      assert (n - 1) as real * interval >= 0.0;
      events := PackNext(interval, n - 1, t, events);
    }
  }

  /** The bound is exact: for every interval and every n but 0, a span of nothing, some run puts
      (n + 1) * MAX_DIALS_PER_INTERVAL - 1 dials into a span of n intervals. */
  lemma CapIsReached(interval: real, n: nat) returns (events: seq<Event>, lo: real)
    requires interval > 0.0 && n > 0
    ensures CanRun(Opened(interval, 0.0), events)
    ensures CountIn(Run(Opened(interval, 0.0), events).dials, lo, lo + n as real * interval) ==
            (n + 1) * MAX_DIALS_PER_INTERVAL - 1
  {
    lo := interval / 2.0;
    assert n as real * interval == (n - 1) as real * interval + interval;
    assert (n - 1) as real * interval >= 0.0;
    events := Pack(interval, n);
  }

  // ---- the spacing ---------------------------------------------------------------------------------

  // How many dials come sooner than an interval after the dial before.
  function ClosePairs(dials: seq<real>, interval: real): nat {
    if |dials| < 2 then 0
    else (if dials[1] < dials[0] + interval then 1 else 0) + ClosePairs(dials[1..], interval)
  }

  function Listed(last: Option<real>): seq<real> {
    if last.Some? then [last.value] else []
  }

  // How many close pairs can still come while nothing publishes; `last` is the latest dial of the stretch.
  function Allowance(s: Sink, last: Option<real>): nat {
    if s.channel.Some? || s.consecutiveUnproductive == 0 then 1
    else if last.Some? && s.nextReconnectAt < last.value + s.interval then 1
    else 0
  }

  ghost predicate Stretch(w: World, last: Option<real>) {
    && Held(w) && w.sink.reconnects
    && (last.Some? ==>
          && w.sink.channel.None?
          && (w.sink.consecutiveUnproductive == 0 ==> w.sink.nextReconnectAt >= last.value + w.sink.interval))
  }

  lemma StretchStep(w: World, last: Option<real>, e: Encounter)
    requires Stretch(w, last) && Timely(w, e) && Emit(w, e).sink.published == w.sink.published
    ensures var a := Emit(w, e);
            var dialled := |a.dials| > |w.dials|;
            var newLast := if dialled then Some(e.atDial) else last;
            && Stretch(a, newLast) && a.sink.interval == w.sink.interval
            && a.dials == w.dials + (if dialled then [e.atDial] else [])
            && (if dialled && last.Some? && e.atDial < last.value + w.sink.interval then 1 else 0) +
               Allowance(a.sink, newLast) <= Allowance(w.sink, last)
  {
    hide CountDial, CapAllows;
    EmitHeld(w, e);
  }

  lemma {:induction false} PublishedGrows(w: World, events: seq<Event>)
    ensures Run(w, events).sink.published >= w.sink.published
    ensures w.dials <= Run(w, events).dials
    decreases |events|
  {
    if events != [] {
      if events[0].Emitting? {
        EmitDials(w, events[0].e);
      }
      hide Emit;
      PublishedGrows(Next(w, events[0]), events[1..]);
    }
  }

  lemma ClosedStretch(w: World, last: Option<real>)
    requires Stretch(w, last)
    ensures Stretch(Close(w), last) && Close(w).dials == w.dials && Close(w).sink.interval == w.sink.interval
    ensures Allowance(Close(w).sink, last) == Allowance(w.sink, last)
  {
  }

  lemma PairsFrom(last: Option<real>, at: real, rest: seq<real>, interval: real)
    ensures ClosePairs(Listed(last) + ([at] + rest), interval) ==
            (if last.Some? && at < last.value + interval then 1 else 0) + ClosePairs([at] + rest, interval)
  {
    if last.Some? {
      assert (Listed(last) + ([at] + rest))[1..] == [at] + rest;
    } else {
      assert Listed(last) + ([at] + rest) == [at] + rest;
    }
  }

  lemma {:induction false} StretchSpaced(w: World, last: Option<real>, events: seq<Event>)
    requires Stretch(w, last) && CanRun(w, events)
    requires Run(w, events).sink.published == w.sink.published
    ensures w.dials <= Run(w, events).dials
    ensures ClosePairs(Listed(last) + Run(w, events).dials[|w.dials|..], w.sink.interval) <= Allowance(w.sink, last)
    decreases |events|
  {
    hide Stretch, Emit, Close, Allowance, ClosePairs;
    PublishedGrows(w, events);
    var dials := Run(w, events).dials;
    if events == [] {
      assert dials[|w.dials|..] == [];
      NoPairs(w, last);
    } else {
      var a := Next(w, events[0]);
      PublishedGrows(a, events[1..]);
      PublishedGrows(w, events[..1]);
      assert Run(w, events[..1]) == a by { assert events[..1][1..] == []; }
      if events[0].Closing? {
        ClosedStretch(w, last);
        StretchSpaced(a, last, events[1..]);
      } else {
        var e := events[0].e;
        StretchStep(w, last, e);
        if |a.dials| > |w.dials| {
          StretchSpaced(a, Some(e.atDial), events[1..]);
          var rest := dials[|a.dials|..];
          assert dials[|w.dials|..] == [e.atDial] + rest;
          PairsFrom(last, e.atDial, rest, w.sink.interval);
        } else {
          StretchSpaced(a, last, events[1..]);
        }
      }
    }
  }

  lemma NoPairs(w: World, last: Option<real>)
    ensures ClosePairs(Listed(last) + [], w.sink.interval) == 0 <= Allowance(w.sink, last)
  {
  }

  /** Spacing: take any run of a sink from `Opened`, and any later stretch of it in which nothing is
      published, whatever mix of refused dials and failed publishes happens. At most one pair of
      consecutive dials of the stretch is closer together than the interval. */
  lemma {:induction false} UnproductiveDialsAreSpaced(
    interval: real, at: real, before: seq<Event>, stretch: seq<Event>)
    requires at >= 0.0 && CanRun(Opened(interval, at), before + stretch)
    requires Run(Opened(interval, at), before + stretch).sink.published ==
             Run(Opened(interval, at), before).sink.published
    ensures var w := Run(Opened(interval, at), before);
            var end := Run(Opened(interval, at), before + stretch);
            w.dials <= end.dials && ClosePairs(end.dials[|w.dials|..], w.sink.interval) <= 1
  {
    var start := Opened(interval, at);
    RunAppend(start, before, stretch);
    RunHeld(start, before);
    Reconnecting(start, before);
    var w := Run(start, before);
    StretchSpaced(w, None, stretch);
    assert Listed(None) + Run(w, stretch).dials[|w.dials|..] == Run(w, stretch).dials[|w.dials|..];
  }

  lemma {:induction false} Reconnecting(w: World, events: seq<Event>)
    ensures Run(w, events).sink.reconnects == w.sink.reconnects && Run(w, events).sink.interval == w.sink.interval
    decreases |events|
  {
    if events != [] {
      if events[0].Emitting? {
        EmitDials(w, events[0].e);
      }
      hide Emit;
      Reconnecting(Next(w, events[0]), events[1..]);
    }
  }
}
