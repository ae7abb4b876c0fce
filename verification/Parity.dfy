// The parity harness's own grouping of a transcript, and its agreement with the hook's scan.
module Parity {
  import opened Base
  import opened Numerals
  import opened Transcript

  const RESERVED := "\0anonymous-"

  /** One response, gathered over the lines that carry it. */
  datatype Turn = Turn(
    id: Option<string>, model: Option<string>, timestamp: Option<string>, usage: Usage,
    text: string, thinking: string, unaccounted: bool)

  // ---- the grouping ------------------------------------------------------------------------------

  function Anonymous(lines: seq<Line>): nat {
    if lines == [] then 0
    else Anonymous(lines[..|lines| - 1]) +
         (if lines[|lines| - 1].Entry? && lines[|lines| - 1].id.None? then 1 else 0)
  }

  // The key the last line is filed under.
  function LastKey(lines: seq<Line>): string
    requires lines != [] && lines[|lines| - 1].Entry?
  {
    var l := lines[|lines| - 1];
    if l.id.Some? then l.id.value else RESERVED + Decimal(Anonymous(lines))
  }

  // The keys, in the order they first appear.
  function Order(lines: seq<Line>): seq<string> {
    if lines == [] then []
    else
      var n := |lines| - 1;
      var keys := Order(lines[..n]);
      if lines[n].Entry? && LastKey(lines) !in keys then keys + [LastKey(lines)] else keys
  }

  function Begun(l: Line): Turn
    requires l.Entry?
  {
    Turn(l.id, l.model, l.timestamp, l.usage, l.text, l.thinking, l.unaccounted)
  }

  function Joined(t: Turn, l: Line): Turn
    requires l.Entry?
  {
    t.(text := t.text + l.text, thinking := t.thinking + l.thinking, unaccounted := t.unaccounted || l.unaccounted)
  }

  // What is gathered under a key; the first line gives everything but the content.
  function Gathered(lines: seq<Line>, key: string): Option<Turn> {
    if lines == [] then None
    else
      var n := |lines| - 1;
      var before := Gathered(lines[..n], key);
      if !lines[n].Entry? || LastKey(lines) != key then before
      else if before.None? then Some(Begun(lines[n]))
      else Some(Joined(before.value, lines[n]))
  }

  lemma {:induction false} GatheredInOrder(lines: seq<Line>, key: string)
    ensures Gathered(lines, key).Some? <==> key in Order(lines)
  {
    if lines != [] {
      GatheredInOrder(lines[..|lines| - 1], key);
    }
  }

  // The id a key stands for.
  function Name(key: string): Option<string> {
    if RESERVED <= key then None else Some(key)
  }

  function Turns(lines: seq<Line>): seq<Turn> {
    seq(|Order(lines)|, i requires 0 <= i < |Order(lines)| =>
      (GatheredInOrder(lines, Order(lines)[i]);
       Gathered(lines, Order(lines)[i]).value.(id := Name(Order(lines)[i]))))
  }

  // ---- the harness -----------------------------------------------------------------------------------

  function Join(parts: seq<string>): string {
    if parts == [] then "" else Join(parts[..|parts| - 1]) + parts[|parts| - 1]
  }

  class Accumulator {
    const model: Option<string>
    const timestamp: Option<string>
    const usage: Usage
    var parts: seq<string>
    var thinkingParts: seq<string>
    var unaccounted: bool

    ghost predicate Holds(t: Turn)
      reads this
    {
      && model == t.model && timestamp == t.timestamp && usage == t.usage
      && Join(parts) == t.text && Join(thinkingParts) == t.thinking && unaccounted == t.unaccounted
    }

    constructor (l: Line)
      requires l.Entry?
      ensures Holds(Begun(l))
    {
      model, timestamp, usage := l.model, l.timestamp, l.usage;
      parts := if l.text != "" then [l.text] else [];
      thinkingParts := if l.thinking != "" then [l.thinking] else [];
      unaccounted := l.unaccounted;
      new;
      assert [l.text][..0] == [] && [l.thinking][..0] == [];
    }

    method Add(l: Line, ghost t: Turn)
      requires l.Entry? && Holds(t)
      modifies this
      ensures Holds(Joined(t, l))
    {
      assert (parts + [l.text])[..|parts|] == parts;
      assert (thinkingParts + [l.thinking])[..|thinkingParts|] == thinkingParts;
      if l.text != "" {
        parts := parts + [l.text];
      }
      if l.thinking != "" {
        thinkingParts := thinkingParts + [l.thinking];
      }
      unaccounted := unaccounted || l.unaccounted;
    }
  }

  // Every key has an accumulator of its own, holding what is gathered under it.
  ghost predicate Filed(order: seq<string>, responses: map<string, Accumulator>, lines: seq<Line>)
    reads responses.Values
  {
    && order == Order(lines)
    && (forall k :: k in responses <==> k in order)
    && (forall k, m | k in responses && m in responses && k != m :: responses[k] != responses[m])
    && (forall k | k in responses :: Gathered(lines, k).Some? && responses[k].Holds(Gathered(lines, k).value))
  }

  // What one more entry does to the keys and to what is gathered under them.
  lemma OneMore(lines: seq<Line>)
    requires lines != [] && lines[|lines| - 1].Entry?
    ensures var n, key := |lines| - 1, LastKey(lines);
            && Order(lines) == (if key in Order(lines[..n]) then Order(lines[..n]) else Order(lines[..n]) + [key])
            && (forall k | k != key :: Gathered(lines, k) == Gathered(lines[..n], k))
            && (Gathered(lines[..n], key).Some? <==> key in Order(lines[..n]))
            && Gathered(lines, key) ==
               Some(if Gathered(lines[..n], key).None? then Begun(lines[n])
                    else Joined(Gathered(lines[..n], key).value, lines[n]))
  {
    GatheredInOrder(lines[..|lines| - 1], LastKey(lines));
  }

  lemma NoiseAdds(lines: seq<Line>)
    requires lines != [] && lines[|lines| - 1].Noise?
    ensures var before := lines[..|lines| - 1];
            Order(lines) == Order(before) && Anonymous(lines) == Anonymous(before)
            && forall k :: Gathered(lines, k) == Gathered(before, k)
  {
  }

  lemma KeyIs(lines: seq<Line>)
    requires lines != [] && lines[|lines| - 1].Entry?
    ensures var before, l := Anonymous(lines[..|lines| - 1]), lines[|lines| - 1];
            && Anonymous(lines) == (if l.id.None? then before + 1 else before)
            && LastKey(lines) == (if l.id.None? then RESERVED + Decimal(before + 1) else l.id.value)
  {
  }

  // An entry whose key is new begins an accumulator.
  method Begin(lines: seq<Line>, key: string, order: seq<string>, responses: map<string, Accumulator>)
    returns (newResponses: map<string, Accumulator>)
    requires lines != [] && lines[|lines| - 1].Entry? && key == LastKey(lines) && key !in responses
    requires Filed(order, responses, lines[..|lines| - 1])
    ensures Filed(order + [key], newResponses, lines)
    ensures forall k | k in newResponses ::
              (k in responses && newResponses[k] == responses[k]) || fresh(newResponses[k])
  {
    OneMore(lines);
    hide LastKey, Accumulator.Holds, Order, Gathered, Begun, Joined;
    var made := new Accumulator(lines[|lines| - 1]);
    newResponses := responses[key := made];
  }

  // Files an entry under its key: a new accumulator, or the one that is there.
  method FileLine(lines: seq<Line>, key: string, order: seq<string>, responses: map<string, Accumulator>)
    returns (newOrder: seq<string>, newResponses: map<string, Accumulator>)
    requires lines != [] && lines[|lines| - 1].Entry? && key == LastKey(lines)
    requires Filed(order, responses, lines[..|lines| - 1])
    modifies responses.Values
    ensures Filed(newOrder, newResponses, lines)
    ensures forall k | k in newResponses ::
              (k in responses && newResponses[k] == responses[k]) || fresh(newResponses[k])
  {
    if key !in responses {
      newOrder := order + [key];
      newResponses := Begin(lines, key, order, responses);
    } else {
      OneMore(lines);
      hide LastKey, Accumulator.Holds, Order, Gathered, Begun, Joined;
      newOrder, newResponses := order, responses;
      assert responses[key] in responses.Values;
      responses[key].Add(lines[|lines| - 1], Gathered(lines[..|lines| - 1], key).value);
    }
  }

  method Yield(ghost lines: seq<Line>, order: seq<string>, responses: map<string, Accumulator>)
    returns (turns: seq<Turn>)
    requires Filed(order, responses, lines)
    ensures turns == Turns(lines)
  {
    turns := [];
    for i := 0 to |order|
      invariant |turns| == i && forall j | 0 <= j < i :: turns[j] == Turns(lines)[j]
    {
      hide Order, Gathered, Join;
      var a := responses[order[i]];
      turns := turns + [Turn(if RESERVED <= order[i] then None else Some(order[i]), a.model, a.timestamp, a.usage,
                             Join(a.parts), Join(a.thinkingParts), a.unaccounted)];
    }
  }

  /** The harness's pass: a file that does not open yields nothing, one that breaks off yields what was read. */
  method IterTurns(lines: seq<Line>, opens: bool, stop: nat) returns (turns: seq<Turn>)
    requires stop <= |lines|
    ensures turns == if opens then Turns(lines[..stop]) else []
  {
    if !opens {
      return [];
    }
    var order: seq<string> := [];
    var responses: map<string, Accumulator> := map[];
    var anonymous := 0;
    assert lines[..0] == [] && Filed(order, responses, lines[..0]);
    hide Order, Gathered, Anonymous, LastKey, Decimal, Accumulator.Holds;
    for i := 0 to stop
      invariant Filed(order, responses, lines[..i]) && anonymous == Anonymous(lines[..i])
      invariant forall k | k in responses :: fresh(responses[k])
    {
      var line := lines[i];
      ghost var after := lines[..i + 1];
      assert after[..i] == lines[..i] && after[i] == line;
      if line.Noise? {
        NoiseAdds(after);
        continue;
      }
      hide Filed;
      KeyIs(after);
      var key;
      if line.id.None? {
        anonymous := anonymous + 1;
        key := RESERVED + Decimal(anonymous);
      } else {
        key := line.id.value;
      }
      order, responses := FileLine(lines[..i + 1], key, order, responses);
    }
    turns := Yield(lines[..stop], order, responses);
  }
}
