// The rate-limited warner: one window and one suppressed count per key.
module RateLimit {
  import opened Base

  /** The warner's two dictionaries. */
  datatype State<!K> = State(nextAllowed: map<K, real>, suppressed: map<K, nat>)

  datatype Call<K> = Call(key: K, now: real)

  // A line that gets through, and how many suppressed calls it reports.
  datatype Line<K> = Line(key: K, at: real, reported: nat)

  function Held<K>(s: State<K>, key: K): nat {
    if key in s.suppressed then s.suppressed[key] else 0
  }

  predicate Suppresses<K>(s: State<K>, c: Call<K>) {
    c.key in s.nextAllowed && c.now < s.nextAllowed[c.key]
  }

  function After<K>(interval: real, s: State<K>, c: Call<K>): State<K> {
    if Suppresses(s, c) then s.(suppressed := s.suppressed[c.key := Held(s, c.key) + 1])
    else State(if interval > 0.0 then s.nextAllowed[c.key := c.now + interval] else s.nextAllowed,
               s.suppressed - {c.key})
  }

  function Logged<K>(s: State<K>, c: Call<K>): seq<Line<K>> {
    if Suppresses(s, c) then [] else [Line(c.key, c.now, Held(s, c.key))]
  }

  class RateLimitedWarner<K(==)> {
    const interval: real
    var nextAllowed: map<K, real>
    var suppressed: map<K, nat>

    ghost function View(): State<K>
      reads this
    {
      State(nextAllowed, suppressed)
    }

    constructor (interval: real)
      ensures this.interval == if interval < 0.0 then 0.0 else interval
      ensures View() == State(map[], map[])
    {
      this.interval := if interval < 0.0 then 0.0 else interval;
      nextAllowed := map[];
      suppressed := map[];
    }

    // Returns the line to log, if this call gets one.
    method Warn(key: K, now: real) returns (line: seq<Line<K>>)
      requires interval >= 0.0
      modifies this
      ensures View() == After(interval, old(View()), Call(key, now))
      ensures line == Logged(old(View()), Call(key, now))
    {
      if key in nextAllowed && now < nextAllowed[key] {
        suppressed := suppressed[key := (if key in suppressed then suppressed[key] else 0) + 1];
        return [];
      }
      var held := if key in suppressed then suppressed[key] else 0;
      suppressed := suppressed - {key};
      if interval != 0.0 {
        nextAllowed := nextAllowed[key := now + interval];
      }
      return [Line(key, now, held)];
    }
  }

  // ---- whole runs ------------------------------------------------------------------------------

  function Final<K>(interval: real, s: State<K>, calls: seq<Call<K>>): State<K>
    decreases |calls|
  {
    if calls == [] then s else Final(interval, After(interval, s, calls[0]), calls[1..])
  }

  function Lines<K>(interval: real, s: State<K>, calls: seq<Call<K>>): seq<Line<K>>
    decreases |calls|
  {
    if calls == [] then [] else Logged(s, calls[0]) + Lines(interval, After(interval, s, calls[0]), calls[1..])
  }

  function CallsFor<K(==)>(calls: seq<Call<K>>, key: K): seq<Call<K>> {
    if calls == [] then [] else (if calls[0].key == key then [calls[0]] else []) + CallsFor(calls[1..], key)
  }

  function LinesFor<K(==)>(lines: seq<Line<K>>, key: K): seq<Line<K>> {
    if lines == [] then [] else (if lines[0].key == key then [lines[0]] else []) + LinesFor(lines[1..], key)
  }

  function Reported<K>(lines: seq<Line<K>>): nat {
    if lines == [] then 0 else lines[0].reported + Reported(lines[1..])
  }

  // Two states that agree on one key.
  ghost predicate SameFor<K>(a: State<K>, b: State<K>, key: K) {
    && (key in a.nextAllowed <==> key in b.nextAllowed)
    && (key in a.nextAllowed ==> a.nextAllowed[key] == b.nextAllowed[key])
    && Held(a, key) == Held(b, key)
  }

  lemma {:induction false} LinesForNext<K>(s: State<K>, c: Call<K>, rest: seq<Line<K>>, key: K)
    ensures LinesFor(Logged(s, c) + rest, key) == (if c.key == key then Logged(s, c) else []) + LinesFor(rest, key)
  {
    var lines := Logged(s, c) + rest;
    if Suppresses(s, c) {
      assert lines == rest;
    } else {
      assert lines[1..] == rest;
    }
  }

  lemma {:induction false} KeyAlone<K>(interval: real, a: State<K>, b: State<K>, calls: seq<Call<K>>, key: K)
    requires SameFor(a, b, key)
    ensures LinesFor(Lines(interval, a, calls), key) == Lines(interval, b, CallsFor(calls, key))
    ensures SameFor(Final(interval, a, calls), Final(interval, b, CallsFor(calls, key)), key)
    decreases |calls|
  {
    if calls != [] {
      var c := calls[0];
      var rest := calls[1..];
      LinesForNext(a, c, Lines(interval, After(interval, a, c), rest), key);
      if c.key == key {
        assert CallsFor(calls, key)[1..] == CallsFor(rest, key);
        KeyAlone(interval, After(interval, a, c), After(interval, b, c), rest, key);
      } else {
        assert CallsFor(calls, key) == CallsFor(rest, key);
        KeyAlone(interval, After(interval, a, c), b, rest, key);
      }
    }
  }

  /** Non-interference: the lines one key gets are those of a warner that saw only that key's calls. */
  lemma {:induction false} KeysDoNotInterfere<K>(interval: real, calls: seq<Call<K>>, key: K)
    ensures LinesFor(Lines(interval, State(map[], map[]), calls), key) ==
            Lines(interval, State(map[], map[]), CallsFor(calls, key))
    ensures Held(Final(interval, State(map[], map[]), calls), key) ==
            Held(Final(interval, State(map[], map[]), CallsFor(calls, key)), key)
  {
    KeyAlone(interval, State(map[], map[]), State(map[], map[]), calls, key);
  }

  lemma {:induction false} Accounted<K>(interval: real, s: State<K>, calls: seq<Call<K>>, key: K)
    requires forall c | c in calls :: c.key == key
    ensures |calls| + Held(s, key) ==
            |Lines(interval, s, calls)| + Reported(Lines(interval, s, calls)) + Held(Final(interval, s, calls), key)
    decreases |calls|
  {
    if calls != [] {
      assert calls[0].key == key;
      var rest := Lines(interval, After(interval, s, calls[0]), calls[1..]);
      Accounted(interval, After(interval, s, calls[0]), calls[1..], key);
      if !Suppresses(s, calls[0]) {
        assert Lines(interval, s, calls)[1..] == rest;
      } else {
        assert Lines(interval, s, calls) == rest;
      }
    }
  }

  lemma CallsForAre<K>(calls: seq<Call<K>>, key: K)
    ensures forall c | c in CallsFor(calls, key) :: c.key == key
  {
  }

  /** Conservation, per key: calls are the lines logged, the suppressions those lines report, and the
      suppressions still held. */
  lemma {:induction false} EveryCallAccounted<K>(interval: real, calls: seq<Call<K>>, key: K)
    ensures var lines := LinesFor(Lines(interval, State(map[], map[]), calls), key);
            |CallsFor(calls, key)| ==
            |lines| + Reported(lines) + Held(Final(interval, State(map[], map[]), calls), key)
  {
    KeysDoNotInterfere(interval, calls, key);
    CallsForAre(calls, key);
    Accounted(interval, State(map[], map[]), CallsFor(calls, key), key);
  }

  lemma {:induction false} SpacedFrom<K>(interval: real, s: State<K>, calls: seq<Call<K>>, key: K)
    requires interval > 0.0 && forall c | c in calls :: c.key == key
    ensures var lines := Lines(interval, s, calls);
            && (lines != [] && key in s.nextAllowed ==> lines[0].at >= s.nextAllowed[key])
            && forall i | 0 < i < |lines| :: lines[i].at >= lines[i - 1].at + interval
    decreases |calls|
  {
    if calls != [] {
      assert calls[0].key == key;
      var next := After(interval, s, calls[0]);
      SpacedFrom(interval, next, calls[1..], key);
      var rest := Lines(interval, next, calls[1..]);
      if Suppresses(s, calls[0]) {
        assert Lines(interval, s, calls) == rest;
      } else {
        assert Lines(interval, s, calls) == [Line(key, calls[0].now, Held(s, key))] + rest;
      }
    }
  }

  lemma {:induction false} GapsAddUp<K>(interval: real, lines: seq<Line<K>>, i: nat, j: nat)
    requires interval > 0.0 && i < j < |lines|
    requires forall k | 0 < k < |lines| :: lines[k].at >= lines[k - 1].at + interval
    ensures lines[j].at >= lines[i].at + interval
    decreases j
  {
    if i < j - 1 {
      GapsAddUp(interval, lines, i, j - 1);
    }
  }

  lemma {:induction false} RunAppend<K>(interval: real, s: State<K>, a: seq<Call<K>>, b: seq<Call<K>>)
    ensures Lines(interval, s, a + b) == Lines(interval, s, a) + Lines(interval, Final(interval, s, a), b)
    ensures Final(interval, s, a + b) == Final(interval, Final(interval, s, a), b)
    decreases |a|
  {
    if a == [] {
      assert a + b == b;
    } else {
      assert (a + b)[1..] == a[1..] + b;
      RunAppend(interval, After(interval, s, a[0]), a[1..], b);
    }
  }

  lemma {:induction false} LinesForAppend<K>(a: seq<Line<K>>, b: seq<Line<K>>, key: K)
    ensures LinesFor(a + b, key) == LinesFor(a, key) + LinesFor(b, key)
  {
    if a == [] {
      assert a + b == b;
    } else {
      assert (a + b)[1..] == a[1..] + b;
      LinesForAppend(a[1..], b, key);
    }
  }

  // A key's window ends an interval after its last line.
  lemma {:induction false} WindowIs<K>(interval: real, calls: seq<Call<K>>, key: K)
    ensures var lines, s := LinesFor(Lines(interval, State(map[], map[]), calls), key),
                            Final(interval, State(map[], map[]), calls);
            && (key in s.nextAllowed <==> interval > 0.0 && lines != [])
            && (key in s.nextAllowed ==> s.nextAllowed[key] == lines[|lines| - 1].at + interval)
    decreases |calls|
  {
    if calls != [] {
      var n := |calls| - 1;
      var start: State<K> := State(map[], map[]);
      var before, c := Final(interval, start, calls[..n]), calls[n];
      assert calls == calls[..n] + [c] && [c][1..] == [];
      WindowIs(interval, calls[..n], key);
      RunAppend(interval, start, calls[..n], [c]);
      assert Lines(interval, before, [c]) == Logged(before, c) + [] == Logged(before, c);
      LinesForAppend(Lines(interval, start, calls[..n]), Logged(before, c), key);
      LinesForNext(before, c, [], key);
      assert Final(interval, start, calls) == After(interval, before, c);
      assert LinesFor([], key) == [];
      var mine := if c.key == key then Logged(before, c) else [];
      assert LinesFor(Lines(interval, start, calls), key) == LinesFor(Lines(interval, start, calls[..n]), key) + mine;
    }
  }

  /** A window reopens: whatever came before, a call gets a line exactly when its key has none yet, or an interval
      has passed since its last, or there is no interval; and the line reports every call of the key since. */
  lemma {:induction false} WindowReopens<K>(interval: real, calls: seq<Call<K>>, c: Call<K>)
    ensures var before := Lines(interval, State(map[], map[]), calls);
            var mine := LinesFor(before, c.key);
            var held := |CallsFor(calls, c.key)| - |mine| - Reported(mine);
            && held >= 0
            && Lines(interval, State(map[], map[]), calls + [c]) ==
               before + (if interval <= 0.0 || mine == [] || c.now >= mine[|mine| - 1].at + interval
                         then [Line(c.key, c.now, held)] else [])
  {
    var start: State<K> := State(map[], map[]);
    var s := Final(interval, start, calls);
    RunAppend(interval, start, calls, [c]);
    assert [c][1..] == [];
    assert Lines(interval, s, [c]) == Logged(s, c) + [];
    WindowIs(interval, calls, c.key);
    EveryCallAccounted(interval, calls, c.key);
  }

  /** Any two lines for one key are at least the interval apart, whatever other keys do. */
  lemma {:induction false} LinesAreSpaced<K>(interval: real, calls: seq<Call<K>>, key: K, i: nat, j: nat)
    requires interval > 0.0 && i < j < |LinesFor(Lines(interval, State(map[], map[]), calls), key)|
    ensures var lines := LinesFor(Lines(interval, State(map[], map[]), calls), key);
            lines[j].at >= lines[i].at + interval
  {
    KeysDoNotInterfere(interval, calls, key);
    CallsForAre(calls, key);
    SpacedFrom(interval, State(map[], map[]), CallsFor(calls, key), key);
    GapsAddUp(interval, LinesFor(Lines(interval, State(map[], map[]), calls), key), i, j);
  }
}
