// Claude Code transcripts: token counts and the scan that adds them up.
module Transcript {
  import opened Base

  /** The four token counts. */
  datatype Totals = Totals(input: nat, output: nat, cacheCreation: nat, cacheRead: nat) {
    function Plus(o: Totals): Totals {
      Totals(input + o.input, output + o.output, cacheCreation + o.cacheCreation, cacheRead + o.cacheRead)
    }

    predicate IsZero() { input == 0 && output == 0 && cacheCreation == 0 && cacheRead == 0 }

    predicate Covers(o: Totals) {
      input >= o.input && output >= o.output && cacheCreation >= o.cacheCreation && cacheRead >= o.cacheRead
    }

    function Minus(o: Totals): Totals
      requires Covers(o)
    {
      Totals(input - o.input, output - o.output, cacheCreation - o.cacheCreation, cacheRead - o.cacheRead)
    }
  }

  const ZERO := Totals(0, 0, 0, 0)

  /** A value found where a count should be. `NotFinite` is a NaN or an infinity. */
  datatype Json = Flag(b: bool) | Whole(n: int) | Fractional(r: real) | NotFinite | Other

  /** A line's usage object; a missing field is `Other`. */
  datatype Usage = Usage(input: Json, output: Json, cacheCreation: Json, cacheRead: Json)

  /** A classified line: noise, or an entry that carries usage. Names are stripped and non-blank. */
  datatype Line =
    | Noise
    | Entry(id: Option<string>, usage: Usage, model: Option<string>, timestamp: Option<string>,
            text: string, thinking: string, unaccounted: bool)

  /** A count is the value itself when that is a non-negative whole number, however written, and 0 otherwise. */
  function CoerceCount(v: Json): (n: nat)
    ensures n > 0 ==> v == Whole(n) || v == Fractional(n as real)
    ensures v.Whole? && v.n >= 0 ==> n == v.n
    ensures v.Fractional? && v.r >= 0.0 && v.r.Floor as real == v.r ==> n as real == v.r
  {
    match v
    case Whole(i) => if i >= 0 then i else 0
    case Fractional(r) => if r >= 0.0 && r.Floor as real == r then r.Floor else 0
    case _ => 0
  }

  function Counts(u: Usage): Totals {
    Totals(CoerceCount(u.input), CoerceCount(u.output), CoerceCount(u.cacheCreation), CoerceCount(u.cacheRead))
  }

  /** Usage written in whole numbers is read as it is written, each count in its own place. */
  lemma CountsAreRead(input: nat, output: nat, cacheCreation: nat, cacheRead: nat)
    ensures Counts(Usage(Whole(input), Whole(output), Whole(cacheCreation), Whole(cacheRead))) ==
            Totals(input, output, cacheCreation, cacheRead)
  {
  }

  // The line is the first of its response: it has no id, or no earlier entry has the same.
  predicate Fresh(lines: seq<Line>, i: nat)
    requires i < |lines|
  {
    lines[i].Entry? &&
    (lines[i].id.None? || forall k | 0 <= k < i :: !(lines[k].Entry? && lines[k].id == lines[i].id))
  }

  // The lines that count: one per response, in the order the responses first appear.
  function Counted(lines: seq<Line>): (c: seq<Line>)
    ensures forall l | l in c :: l.Entry?
  {
    if lines == [] then []
    else
      var n := |lines| - 1;
      Counted(lines[..n]) + (if Fresh(lines, n) then [lines[n]] else [])
  }

  function Sum(ls: seq<Line>): Totals
    requires forall l | l in ls :: l.Entry?
  {
    if ls == [] then ZERO else Sum(ls[..|ls| - 1]).Plus(Counts(ls[|ls| - 1].usage))
  }

  function Total(lines: seq<Line>): Totals { Sum(Counted(lines)) }

  // The last known value of an optional field.
  function LastKnown(values: seq<Option<string>>): Option<string> {
    if values == [] then None
    else if values[|values| - 1].Some? then values[|values| - 1]
    else LastKnown(values[..|values| - 1])
  }

  function Models(ls: seq<Line>): seq<Option<string>>
    requires forall l | l in ls :: l.Entry?
  {
    seq(|ls|, i requires 0 <= i < |ls| => assert ls[i] in ls; ls[i].model)
  }

  function Timestamps(ls: seq<Line>): seq<Option<string>>
    requires forall l | l in ls :: l.Entry?
  {
    seq(|ls|, i requires 0 <= i < |ls| => assert ls[i] in ls; ls[i].timestamp)
  }

  function LastId(ls: seq<Line>): Option<string>
    requires forall l | l in ls :: l.Entry?
  {
    if ls == [] then None else ls[|ls| - 1].id
  }

  /** What one pass found; `readable` says it reached the end. */
  datatype ScanResult = ScanResult(
    totals: Totals, counted: nat, lastModel: Option<string>, lastId: Option<string>,
    lastTimestamp: Option<string>, readable: bool)

  function Scanned(lines: seq<Line>, readable: bool): ScanResult {
    var c := Counted(lines);
    ScanResult(Sum(c), |c|, LastKnown(Models(c)), LastId(c), LastKnown(Timestamps(c)), readable)
  }

  // The ids met in `lines`.
  ghost predicate Seen(seen: set<string>, lines: seq<Line>) {
    forall s :: s in seen <==> exists k :: 0 <= k < |lines| && lines[k].Entry? && lines[k].id == Some(s)
  }

  lemma CountedGrows(c: seq<Line>, l: Line)
    requires forall x | x in c :: x.Entry?
    requires l.Entry?
    ensures forall x | x in c + [l] :: x.Entry?
    ensures Sum(c + [l]) == Sum(c).Plus(Counts(l.usage))
    ensures LastKnown(Models(c + [l])) == if l.model.Some? then l.model else LastKnown(Models(c))
    ensures LastKnown(Timestamps(c + [l])) == if l.timestamp.Some? then l.timestamp else LastKnown(Timestamps(c))
    ensures LastId(c + [l]) == l.id
  {
    var d := c + [l];
    assert d[..|d| - 1] == c;
    assert Models(d) == Models(c) + [l.model] && Timestamps(d) == Timestamps(c) + [l.timestamp];
    assert Models(d)[..|c|] == Models(c) && Timestamps(d)[..|c|] == Timestamps(c);
  }

  lemma CountedNext(lines: seq<Line>, n: nat)
    requires n < |lines|
    ensures Counted(lines[..n + 1]) == if Fresh(lines, n) then Counted(lines[..n]) + [lines[n]] else Counted(lines[..n])
  {
    assert lines[..n + 1][..n] == lines[..n];
    assert Fresh(lines[..n + 1], n) == Fresh(lines, n);
  }

  lemma SeenNext(seen: set<string>, lines: seq<Line>, n: nat)
    requires n < |lines| && Seen(seen, lines[..n])
    ensures lines[n].Noise? || lines[n].id.None? ==> Seen(seen, lines[..n + 1])
    ensures lines[n].Entry? && lines[n].id.Some? ==>
              && Seen(seen + {lines[n].id.value}, lines[..n + 1])
              && (Fresh(lines, n) <==> lines[n].id.value !in seen)
  {
  }

  lemma NoiseIsNotFresh(lines: seq<Line>, n: nat)
    requires n < |lines| && lines[n].Noise?
    ensures !Fresh(lines, n)
  {
  }

  lemma AnonymousIsFresh(lines: seq<Line>, n: nat)
    requires n < |lines| && lines[n].Entry? && lines[n].id.None?
    ensures Fresh(lines, n)
  {
  }

  lemma NothingScanned(readable: bool)
    ensures Scanned([], readable) == ScanResult(ZERO, 0, None, None, None, readable)
  {
  }

  /** The scan: `stop` is where reading ended, before the end of the file or not. */
  method ScanTranscript(lines: seq<Line>, stop: nat, readable: bool) returns (r: ScanResult)
    requires stop <= |lines| && (readable ==> stop == |lines|)
    ensures r == Scanned(lines[..stop], readable)
  {
    var seen: set<string> := {};
    var totals, counted := ZERO, 0;
    var lastModel: Option<string>, lastId: Option<string>, lastTimestamp: Option<string> := None, None, None;
    NothingScanned(readable);
    assert lines[..0] == [] && Seen({}, []);
    hide Seen, Counted, Fresh, Sum, LastKnown, Models, Timestamps, LastId, Totals.Plus, Counts;
    for i := 0 to stop
      invariant Seen(seen, lines[..i])
      invariant ScanResult(totals, counted, lastModel, lastId, lastTimestamp, readable) == Scanned(lines[..i], readable)
    {
      var line := lines[i];
      SeenNext(seen, lines, i);
      CountedNext(lines, i);
      if line.Noise? {
        NoiseIsNotFresh(lines, i);
        continue;
      }
      if line.id.Some? {
        if line.id.value in seen {
          assert seen + {line.id.value} == seen;
          continue;
        }
        seen := seen + {line.id.value};
      } else {
        AnonymousIsFresh(lines, i);
      }
      CountedGrows(Counted(lines[..i]), line);
      totals := totals.Plus(Counts(line.usage));
      counted := counted + 1;
      lastModel := if line.model.Some? then line.model else lastModel;
      lastId := line.id;
      lastTimestamp := if line.timestamp.Some? then line.timestamp else lastTimestamp;
    }
    r := ScanResult(totals, counted, lastModel, lastId, lastTimestamp, readable);
  }

  // ---- growing and repeating transcripts -----------------------------------------------------------

  lemma {:induction false} TotalGrows(lines: seq<Line>, i: nat, j: nat)
    requires i <= j <= |lines|
    ensures Total(lines[..j]).Covers(Total(lines[..i]))
    decreases j
  {
    hide Counted, Fresh, Sum, LastKnown, Models, Timestamps, LastId, Counts;
    if i < j {
      TotalGrows(lines, i, j - 1);
      CountedNext(lines, j - 1);
      if Fresh(lines, j - 1) {
        CountedGrows(Counted(lines[..j - 1]), lines[j - 1]);
      }
    }
  }

  /** Lines that repeat ids already seen change nothing, whatever usage they carry. */
  lemma {:induction false} RepeatsCountNothing(lines: seq<Line>, more: seq<Line>)
    requires forall l | l in more ::
               l.Noise? || (l.id.Some? && exists k :: 0 <= k < |lines| && lines[k].Entry? && lines[k].id == l.id)
    ensures Counted(lines + more) == Counted(lines)
  {
    if more == [] {
      assert lines + more == lines;
    } else {
      var n := |more| - 1;
      assert (lines + more)[..|lines| + n] == lines + more[..n];
      assert more[n] in more && forall l | l in more[..n] :: l in more;
      RepeatsCountNothing(lines, more[..n]);
      assert !Fresh(lines + more, |lines| + n) by {
        if more[n].Entry? {
          var k :| 0 <= k < |lines| && lines[k].Entry? && lines[k].id == more[n].id;
          assert (lines + more)[k] == lines[k];
        }
      }
    }
  }
}
