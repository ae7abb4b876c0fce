// The AMQP sink: publishing, losing connections, and when it may dial for another.
module Amqp {
  import opened Base

  const MAX_DIALS_PER_INTERVAL: nat := 3

  datatype Backoff = AwaitingRedial | AwaitingPublishable

  /** The sink's fields. A channel is named by the connection it belongs to; connections are numbered in
      the order this sink obtained them. */
  datatype Sink = Sink(
    channel: Option<nat>, connection: Option<nat>, ownsConnection: bool, reconnects: bool, interval: real,
    closed: bool, published: nat, dropped: nat,
    nextReconnectAt: real, connectionPublishes: nat, consecutiveUnproductive: nat,
    dialWindowEnds: real, dialsInWindow: nat, backoff: Backoff)

  /** The sink and what it has done to the world: connections obtained, owned ones still open, every dial
      with its time, records offered, and the clock's last reading. */
  datatype World = World(sink: Sink, obtained: nat, open: set<nat>, dials: seq<real>, emits: nat, now: real)

  /** How a dial ends; `NoChannel` is a broker that accepts the connection and refuses a channel. */
  datatype Dial = Connected | Refused | NoChannel

  /** What one `emit` meets: the value offered, the clock at each place it is read, the dial, the publish. */
  datatype Encounter = Encounter(
    isRecord: bool, atBackoff: real, atDial: real, afterDial: real, afterPublish: real, dial: Dial, publishes: bool)

  ghost predicate Timely(w: World, e: Encounter) {
    w.now <= e.atBackoff <= e.atDial <= e.afterDial <= e.afterPublish
  }

  // ---- construction --------------------------------------------------------------------------

  function Opened(interval: real, at: real): World {
    World(Sink(Some(0), Some(0), true, true, if interval < 0.0 then 0.0 else interval, false, 0, 0,
               0.0, 0, 0, 0.0, 0, AwaitingRedial),
          1, {0}, [at], 0, at)
  }

  // A sink handed its channel, which it cannot re-make.
  function Handed(hasChannel: bool, hasConnection: bool, owns: bool, interval: real, at: real): World {
    World(Sink(if hasChannel then Some(0) else None, if hasConnection then Some(0) else None, owns, false,
               if interval < 0.0 then 0.0 else interval, false, 0, 0, 0.0, 0, 0, 0.0, 0, AwaitingRedial),
          1, if owns && hasConnection then {0} else {}, [], 0, at)
  }

  // ---- the methods, as functions -----------------------------------------------------------------

  predicate CapAllows(s: Sink, now: real) {
    s.interval == 0.0 || now >= s.dialWindowEnds || s.dialsInWindow < MAX_DIALS_PER_INTERVAL
  }

  function CountDial(s: Sink, now: real): (t: Sink)
    ensures t == s.(dialWindowEnds := t.dialWindowEnds, dialsInWindow := t.dialsInWindow)
  {
    if s.interval == 0.0 then s
    else
      var t := if now >= s.dialWindowEnds then s.(dialWindowEnds := now + s.interval, dialsInWindow := 0) else s;
      if t.dialsInWindow >= MAX_DIALS_PER_INTERVAL then t else t.(dialsInWindow := t.dialsInWindow + 1)
  }

  function Release(w: World): World {
    if w.sink.ownsConnection && w.sink.connection.Some? then w.(open := w.open - {w.sink.connection.value}) else w
  }

  // What losing the connection says about it: one that published renews the free re-dial, the second in a
  // row that published nothing arms the interval.
  function Judged(s: Sink, now: real): Sink {
    if s.connectionPublishes > 0 then s.(consecutiveUnproductive := 0)
    else if s.consecutiveUnproductive + 1 > 1 then
      s.(consecutiveUnproductive := s.consecutiveUnproductive + 1,
         nextReconnectAt := now + s.interval, backoff := AwaitingPublishable)
    else s.(consecutiveUnproductive := s.consecutiveUnproductive + 1)
  }

  function Invalidate(w: World, now: real): World {
    if !w.sink.reconnects then w
    else
      var released := Release(w.(sink := Judged(w.sink, now)));
      released.(sink := released.sink.(channel := None, connection := None, connectionPublishes := 0))
  }

  // Afterwards there is a channel to publish on exactly when `sink.channel` is one.
  function LiveChannel(w: World, e: Encounter): World {
    var s := w.sink;
    if s.channel.Some? || !s.reconnects then w
    else if e.atBackoff < s.nextReconnectAt then w
    else
      var counted := w.(sink := CountDial(s, e.atDial));
      if !CapAllows(s, e.atDial) then counted
      else
        var dialled := counted.(dials := w.dials + [e.atDial]);
        match e.dial
        case Connected =>
          dialled.(sink := dialled.sink.(channel := Some(w.obtained), connection := Some(w.obtained)),
                   obtained := w.obtained + 1, open := w.open + {w.obtained})
        case _ =>
          dialled.(sink := dialled.sink.(nextReconnectAt := e.afterDial + s.interval, backoff := AwaitingRedial),
                   obtained := if e.dial.NoChannel? then w.obtained + 1 else w.obtained)
  }

  function Drop(w: World): World { w.(sink := w.sink.(dropped := w.sink.dropped + 1)) }

  function Publish(w: World, e: Encounter): World {
    if e.publishes then
      w.(sink := w.sink.(published := w.sink.published + 1, connectionPublishes := w.sink.connectionPublishes + 1))
    else Invalidate(Drop(w), e.afterPublish)
  }

  function Emit(w: World, e: Encounter): World {
    var after :=
      if !e.isRecord || w.sink.closed then Drop(w)
      else
        var live := LiveChannel(w, e);
        if live.sink.channel.None? then Drop(live) else Publish(live, e);
    after.(emits := after.emits + 1, now := e.afterPublish)
  }

  function Close(w: World): World {
    if w.sink.closed then w else Release(w.(sink := w.sink.(closed := true)))
  }

  // ---- what they mean ----------------------------------------------------------------------------

  // The record is taken: the publish returns, on a channel that was held or that the allowed dial yields.
  ghost predicate IsTaken(s: Sink, e: Encounter) {
    && e.isRecord && !s.closed && e.publishes
    && (s.channel.Some? || (MayRedial(s, e) && e.dial.Connected?))
  }

  // A lost connection is to be replaced: the deadline has passed, and the window is over or not yet full.
  ghost predicate MayRedial(s: Sink, e: Encounter) {
    && s.reconnects && s.channel.None? && s.nextReconnectAt <= e.atBackoff
    && (s.interval == 0.0 || e.atDial >= s.dialWindowEnds || s.dialsInWindow < 3)
  }

  /** A dial is made exactly when one is due, is recorded with its time, and gives a channel exactly when it
      connects; one that does not connect moves the deadline to an interval after it ended. */
  lemma DialsWhenDue(w: World, e: Encounter)
    ensures var a, dialled := LiveChannel(w, e), MayRedial(w.sink, e);
            && a.dials == w.dials + (if dialled then [e.atDial] else [])
            && (if dialled && e.dial.Connected? then
                  a.sink.channel == a.sink.connection == Some(w.obtained) && a.open == w.open + {w.obtained}
                else a.sink.channel == w.sink.channel && a.sink.connection == w.sink.connection && a.open == w.open)
            && a.sink.nextReconnectAt ==
               (if dialled && !e.dial.Connected? then e.afterDial + w.sink.interval else w.sink.nextReconnectAt)
            && a.sink.backoff == (if dialled && !e.dial.Connected? then AwaitingRedial else w.sink.backoff)
            && a.obtained == w.obtained + (if dialled && !e.dial.Refused? then 1 else 0)
            && a.sink.published == w.sink.published && a.sink.dropped == w.sink.dropped
            && a.sink.consecutiveUnproductive == w.sink.consecutiveUnproductive
  {
    hide CountDial;
  }

  /** Losing a connection that can be replaced gives it up and forgets it. A second loss in a row without a publish,
      and no other, moves the deadline, to an interval from now. */
  lemma LossIsJudged(w: World, now: real)
    ensures var a := Invalidate(w, now);
            var armed := w.sink.connectionPublishes == 0 && w.sink.consecutiveUnproductive >= 1;
            if !w.sink.reconnects then a == w
            else
              && a.sink.channel == a.sink.connection == None && a.sink.connectionPublishes == 0
              && a.open == w.open - (if w.sink.ownsConnection && w.sink.connection.Some?
                                     then {w.sink.connection.value} else {})
              && a.sink.consecutiveUnproductive ==
                 (if w.sink.connectionPublishes > 0 then 0 else w.sink.consecutiveUnproductive + 1)
              && a.sink.nextReconnectAt == (if armed then now + w.sink.interval else w.sink.nextReconnectAt)
              && a.sink.backoff == (if armed then AwaitingPublishable else w.sink.backoff)
              && a.dials == w.dials && a.sink.published == w.sink.published && a.sink.dropped == w.sink.dropped
  {
  }

  lemma EmitTakes(w: World, e: Encounter)
    ensures Emit(w, e).sink.published == w.sink.published + (if IsTaken(w.sink, e) then 1 else 0)
    ensures Emit(w, e).sink.dropped == w.sink.dropped + (if IsTaken(w.sink, e) then 0 else 1)
  {
    DialsWhenDue(w, e);
    LossIsJudged(Drop(LiveChannel(w, e)), e.afterPublish);
    if w.sink.channel.None? && !w.sink.reconnects {
      assert LiveChannel(w, e) == w;
    }
    assert LiveChannel(w, e).sink.reconnects == w.sink.reconnects by { SameSink(w, e); }
    hide LiveChannel, Judged, Release;
  }

  lemma SameSink(w: World, e: Encounter)
    ensures LiveChannel(w, e).sink.reconnects == w.sink.reconnects && LiveChannel(w, e).sink.closed == w.sink.closed
  {
    hide CapAllows;
  }

  // ---- the sink as the source has it -----------------------------------------------------------------

  class AMQPSink {
    var channel: Option<nat>
    var connection: Option<nat>
    const ownsConnection: bool
    const reconnects: bool
    const interval: real
    var closed: bool
    var published: nat
    var dropped: nat
    var nextReconnectAt: real
    var connectionPublishes: nat
    var consecutiveUnproductive: nat
    var dialWindowEnds: real
    var dialsInWindow: nat
    var backoff: Backoff
    ghost var obtained: nat
    ghost var open: set<nat>
    ghost var dials: seq<real>
    ghost var emits: nat
    ghost var now: real

    ghost function View(): World
      reads this
    {
      World(Sink(channel, connection, ownsConnection, reconnects, interval, closed, published, dropped,
                 nextReconnectAt, connectionPublishes, consecutiveUnproductive, dialWindowEnds, dialsInWindow, backoff),
            obtained, open, dials, emits, now)
    }

    // A caller's channel, never re-made.
    constructor (hasChannel: bool, hasConnection: bool, owns: bool, interval: real, ghost at: real)
      ensures View() == Handed(hasChannel, hasConnection, owns, interval, at)
      ensures !reconnects && channel.Some? == hasChannel && connection.Some? == hasConnection && ownsConnection == owns
      ensures this.interval == (if interval < 0.0 then 0.0 else interval) && !closed && dials == []
      ensures published == dropped == connectionPublishes == consecutiveUnproductive == dialsInWindow == 0
      ensures nextReconnectAt == dialWindowEnds == 0.0
    {
      channel := if hasChannel then Some(0) else None;
      connection := if hasConnection then Some(0) else None;
      ownsConnection, reconnects := owns, false;
      this.interval := if interval < 0.0 then 0.0 else interval;
      closed, published, dropped := false, 0, 0;
      nextReconnectAt, connectionPublishes, consecutiveUnproductive := 0.0, 0, 0;
      dialWindowEnds, dialsInWindow, backoff := 0.0, 0, AwaitingRedial;
      obtained, open, dials, emits, now := 1, if owns && hasConnection then {0} else {}, [], 0, at;
    }

    constructor FromUrl(interval: real, ghost at: real)
      ensures View() == Opened(interval, at)
      ensures reconnects && ownsConnection && channel.Some? && connection == channel && dials == [at]
      ensures this.interval == (if interval < 0.0 then 0.0 else interval) && !closed
      ensures published == dropped == connectionPublishes == consecutiveUnproductive == dialsInWindow == 0
      ensures nextReconnectAt == dialWindowEnds == 0.0
    {
      channel, connection, ownsConnection, reconnects := Some(0), Some(0), true, true;
      this.interval := if interval < 0.0 then 0.0 else interval;
      closed, published, dropped := false, 0, 0;
      nextReconnectAt, connectionPublishes, consecutiveUnproductive := 0.0, 0, 0;
      dialWindowEnds, dialsInWindow, backoff := 0.0, 0, AwaitingRedial;
      obtained, open, dials, emits, now := 1, {0}, [at], 0, at;
    }

    method MayDial(at: real) returns (ok: bool)
      modifies `dialWindowEnds, `dialsInWindow
      ensures ok == CapAllows(old(View()).sink, at)
      ensures View() == old(View()).(sink := CountDial(old(View()).sink, at))
      ensures ok <==> interval == 0.0 || at >= old(dialWindowEnds) || old(dialsInWindow) < 3
      ensures interval == 0.0 ==> dialWindowEnds == old(dialWindowEnds) && dialsInWindow == old(dialsInWindow)
      ensures interval != 0.0 && at >= old(dialWindowEnds) ==> dialWindowEnds == at + interval && dialsInWindow == 1
      ensures interval != 0.0 && at < old(dialWindowEnds) ==>
                dialWindowEnds == old(dialWindowEnds) && dialsInWindow == old(dialsInWindow) + (if ok then 1 else 0)
    {
      if interval == 0.0 {
        return true;
      }
      if at >= dialWindowEnds {
        dialWindowEnds := at + interval;
        dialsInWindow := 0;
      }
      if dialsInWindow >= MAX_DIALS_PER_INTERVAL {
        return false;
      }
      dialsInWindow := dialsInWindow + 1;
      return true;
    }

    method ReleaseConnection()
      modifies `open
      ensures View() == Release(old(View()))
      ensures open == old(open) - (if ownsConnection && connection.Some? then {connection.value} else {})
    {
      if !ownsConnection || connection.None? {
        return;
      }
      open := open - {connection.value};
    }

    method InvalidateConnection(at: real)
      modifies `channel, `connection, `open, `nextReconnectAt, `backoff, `connectionPublishes, `consecutiveUnproductive
      ensures View() == Invalidate(old(View()), at)
    {
      if !reconnects {
        return;
      }
      if connectionPublishes > 0 {
        consecutiveUnproductive := 0;
      } else {
        consecutiveUnproductive := consecutiveUnproductive + 1;
        if consecutiveUnproductive > 1 {
          nextReconnectAt := at + interval;
          backoff := AwaitingPublishable;
        }
      }
      assert View() == old(View()).(sink := Judged(old(View()).sink, at));
      hide Judged, Release;
      ReleaseConnection();
      channel := None;
      connection := None;
      connectionPublishes := 0;
    }

    // `id` names the connection a successful dial yields.
    method FindChannel(e: Encounter, id: nat) returns (found: Option<nat>)
      requires id == obtained
      modifies `channel, `connection, `obtained, `open, `dials, `nextReconnectAt, `backoff,
               `dialWindowEnds, `dialsInWindow
      ensures View() == LiveChannel(old(View()), e) && found == channel
    {
      hide CapAllows, CountDial;
      if channel.Some? || !reconnects {
        return channel;
      }
      if e.atBackoff < nextReconnectAt {
        return None;
      }
      var ok := MayDial(e.atDial);
      if !ok {
        return None;
      }
      dials := dials + [e.atDial];
      if e.dial.Connected? {
        channel, connection := Some(id), Some(id);
        obtained, open := obtained + 1, open + {id};
        return channel;
      }
      if e.dial.NoChannel? {
        obtained := obtained + 1;
      }
      nextReconnectAt := e.afterDial + interval;
      backoff := AwaitingRedial;
      return None;
    }

    // Published is what a channel, held or just dialled for, took; everything else is dropped.
    method EmitRecord(e: Encounter, id: nat)
      requires id == obtained
      modifies this
      ensures View() == Emit(old(View()), e)
      ensures published == old(published) + (if IsTaken(old(View()).sink, e) then 1 else 0)
      ensures dropped == old(dropped) + (if IsTaken(old(View()).sink, e) then 0 else 1)
    {
      hide LiveChannel, Invalidate, IsTaken;
      ghost var before := View();
      EmitTakes(before, e);
      if !e.isRecord || closed {
        dropped := dropped + 1;
      } else {
        var found := FindChannel(e, id);
        if found.None? {
          dropped := dropped + 1;
        } else if e.publishes {
          published := published + 1;
          connectionPublishes := connectionPublishes + 1;
        } else {
          dropped := dropped + 1;
          InvalidateConnection(e.afterPublish);
        }
      }
      emits := emits + 1;
      now := e.afterPublish;
    }

    method CloseSink()
      modifies this
      ensures View() == Close(old(View()))
      ensures closed && View() == old(View()).(sink := View().sink, open := open)
      ensures View().sink == old(View()).sink.(closed := true)
      ensures open == old(open) -
                      (if !old(closed) && ownsConnection && connection.Some? then {connection.value} else {})
    {
      if closed {
        return;
      }
      closed := true;
      ReleaseConnection();
    }
  }
}
