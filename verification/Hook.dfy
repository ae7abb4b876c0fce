// The Claude Code hook: one record per turn, and the baseline that carries what was not kept.
module Hook {
  import opened Base
  import opened Transcript

  /** What came of handing one record to the transport: taken at the seam, the emitter's `delivered`, the
      sink's drop counter before and after when it named one, and whether the sink is a stand-in. */
  datatype Delivery = Delivery(accepted: bool, delivered: nat, before: Option<int>, after: Option<int>, degraded: bool)

  datatype Record = Record(counts: Totals, id: Option<string>, model: Option<string>, timestamp: Option<string>)

  // Accepted, and the transport did not report losing it.
  predicate Kept(d: Delivery) {
    && d.accepted && d.delivered >= 1 && !d.degraded
    && !(d.before.Some? && d.after.Some? && d.after.value > d.before.value)
  }

  // The remembered totals; an absent or unreadable file counts as none.
  function Baseline(file: Option<Totals>, intact: bool): Totals {
    if intact && file.Some? then file.value else ZERO
  }

  function RecordOf(scan: ScanResult, base: Totals): Record
    requires scan.totals.Covers(base)
  {
    Record(scan.totals.Minus(base), scan.lastId, scan.lastModel, scan.lastTimestamp)
  }

  /** The baseline file. */
  datatype State = State(file: Option<Totals>, kept: seq<Record>)

  // One invocation: `intact` and `writes` say whether the baseline file could be read and replaced.
  function After(s: State, scan: ScanResult, intact: bool, d: Delivery, writes: bool): State {
    var base := Baseline(s.file, intact);
    var stored := if writes then Some(scan.totals) else s.file;
    if !scan.totals.Covers(base) then (if scan.readable then s.(file := stored) else s)
    else if scan.totals.Minus(base).IsZero() || !Kept(d) then s
    else State(stored, s.kept + [RecordOf(scan, base)])
  }

  // What is above the baseline and the baseline make the whole.
  lemma AboveBaseline(whole: Totals, base: Totals)
    requires whole.Covers(base)
    ensures whole.Minus(base).Plus(base) == whole && (whole.Minus(base).IsZero() <==> whole == base)
  {
  }

  class ClaudeCodeHook {
    var file: Option<Totals>
    ghost var kept: seq<Record>

    ghost function View(): State
      reads this
    {
      State(file, kept)
    }

    constructor ()
      ensures View() == State(None, [])
    {
      file, kept := None, [];
    }

    /** A record is returned exactly when the scan covers the baseline and found more, the record was accepted
        and delivered to a real sink, and no drop counter rose; it then holds what the scan found above the
        baseline. The baseline moves only with a record or after a complete read that went backwards, and then
        to the transcript's whole total. */
    method Run(named: bool, lines: seq<Line>, stop: nat, readable: bool, intact: bool, d: Delivery, writes: bool)
      returns (record: Option<Record>)
      requires stop <= |lines| && (readable ==> stop == |lines|)
      modifies this
      ensures View() ==
              if named then After(old(View()), Scanned(lines[..stop], readable), intact, d, writes) else old(View())
      ensures kept == old(kept) + (if record.Some? then [record.value] else [])
      ensures var scan := Scanned(lines[..stop], readable);
              var base := if intact && old(file).Some? then old(file).value else ZERO;
              && (record.Some? <==>
                    && named && scan.totals.Covers(base) && scan.totals != base
                    && d.accepted && d.delivered >= 1 && !d.degraded
                    && (d.before.None? || d.after.None? || d.after.value <= d.before.value))
              && (record.Some? ==>
                    && record.value.counts.Plus(base) == scan.totals && record.value.id == scan.lastId
                    && record.value.model == scan.lastModel && record.value.timestamp == scan.lastTimestamp)
              && file == (if writes && named && (record.Some? || (readable && !scan.totals.Covers(base)))
                          then Some(scan.totals) else old(file))
    {
      hide Counted, Sum, LastKnown, Models, Timestamps, LastId, Totals.Covers, Totals.Minus, Totals.Plus, Totals.IsZero;
      if !named {
        return None;
      }
      var scan := ScanTranscript(lines, stop, readable);
      var base := Baseline(file, intact);
      if !scan.totals.Covers(base) {
        if scan.readable && writes {
          file := Some(scan.totals);
        }
        return None;
      }
      AboveBaseline(scan.totals, base);
      var delta := scan.totals.Minus(base);
      if delta.IsZero() {
        return None;
      }
      if !Kept(d) {
        return None;
      }
      record := Some(Record(delta, scan.lastId, scan.lastModel, scan.lastTimestamp));
      kept := kept + [record.value];
      if writes {
        file := Some(scan.totals);
      }
    }
  }

  // The transport refused the record, a stand-in took it, or the sink's drop counter rose meanwhile.
  ghost predicate Lost(d: Delivery) {
    || !d.accepted || d.delivered == 0 || d.degraded
    || (d.before.Some? && d.after.Some? && d.before.value < d.after.value)
  }

  // ---- histories over one growing transcript -------------------------------------------------------

  /** One turn: the transcript then has `upto` lines, of which the scan read `stop`. */
  datatype Turn = Turn(upto: nat, stop: nat, scan: ScanResult, intact: bool, delivery: Delivery, writes: bool)

  ghost predicate Sound(lines: seq<Line>, t: Turn) {
    && t.stop <= t.upto <= |lines| && (t.scan.readable ==> t.stop == t.upto)
    && t.scan == Scanned(lines[..t.stop], t.scan.readable)
  }

  // The turns of an append-only transcript.
  ghost predicate History(lines: seq<Line>, turns: seq<Turn>) {
    && (forall i | 0 <= i < |turns| :: Sound(lines, turns[i]))
    && (forall i, j | 0 <= i < j < |turns| :: turns[i].upto <= turns[j].upto)
  }

  function Next(s: State, t: Turn): State {
    After(s, t.scan, t.intact, t.delivery, t.writes)
  }

  // The state after the first `k` turns.
  function Replay(turns: seq<Turn>, k: nat): State
    requires k <= |turns|
  {
    if k == 0 then State(None, []) else Next(Replay(turns, k - 1), turns[k - 1])
  }

  // How long the transcript was by then.
  function Upto(turns: seq<Turn>, k: nat): nat
    requires k <= |turns|
  {
    if k == 0 then 0 else turns[k - 1].upto
  }

  function Reported(rs: seq<Record>): Totals {
    if rs == [] then ZERO else Reported(rs[..|rs| - 1]).Plus(rs[|rs| - 1].counts)
  }

  lemma ReportedNext(rs: seq<Record>, r: Record)
    ensures Reported(rs + [r]) == Reported(rs).Plus(r.counts)
  {
  }

  // The baseline is the total of the first `n` lines, and no more than what the records report.
  ghost predicate Honest(lines: seq<Line>, s: State, n: nat) {
    && n <= |lines| && Baseline(s.file, true) == Total(lines[..n])
    && Reported(s.kept).Covers(Baseline(s.file, true))
  }

  // One invocation keeps what is reported above the baseline, whatever was scanned.
  lemma AfterCovered(s: State, scan: ScanResult, intact: bool, d: Delivery, writes: bool)
    requires Reported(s.kept).Covers(Baseline(s.file, true))
    requires scan.readable ==> scan.totals.Covers(Baseline(s.file, intact))
    ensures var a := After(s, scan, intact, d, writes);
            && Reported(a.kept).Covers(Baseline(a.file, true))
            && (a.file == s.file || a.file == Some(scan.totals))
  {
  }

  lemma HonestNext(lines: seq<Line>, s: State, t: Turn, n: nat) returns (next: nat)
    requires Honest(lines, s, n) && Sound(lines, t) && n <= t.upto
    ensures next <= t.upto && Honest(lines, Next(s, t), next)
    ensures t.scan.readable ==> t.scan.totals.Covers(Baseline(s.file, true))
  {
    TotalGrows(lines, n, t.upto);
    assert t.scan.totals == Total(lines[..t.stop]);
    hide Scanned, Total;
    AfterCovered(s, t.scan, t.intact, t.delivery, t.writes);
    hide After, Reported;
    next := if Next(s, t).file == s.file then n else t.stop;
  }

  /** Whatever is refused, lost, half read or not written: the baseline is the exact total of some prefix the
      transcript already had, and never more than the kept records report. */
  lemma {:induction false} BaselineIsHonest(lines: seq<Line>, turns: seq<Turn>, k: nat) returns (n: nat)
    requires History(lines, turns) && k <= |turns|
    ensures n <= Upto(turns, k) && Honest(lines, Replay(turns, k), n)
  {
    if k == 0 {
      n := 0;
    } else {
      n := BaselineIsHonest(lines, turns, k - 1);
      assert Upto(turns, k - 1) <= Upto(turns, k) && Sound(lines, turns[k - 1]);
      hide Honest, Next, Sound;
      n := HonestNext(lines, Replay(turns, k - 1), turns[k - 1], n);
    }
  }

  /** On a growing transcript no complete read goes back below the baseline, so nothing is re-anchored. */
  lemma {:induction false} NeverReanchors(lines: seq<Line>, turns: seq<Turn>, k: nat)
    requires History(lines, turns) && k < |turns| && turns[k].scan.readable
    ensures turns[k].scan.totals.Covers(Baseline(Replay(turns, k).file, true))
  {
    var n := BaselineIsHonest(lines, turns, k);
    assert Upto(turns, k) <= turns[k].upto && Sound(lines, turns[k]);
    hide Replay, Honest, Sound;
    n := HonestNext(lines, Replay(turns, k), turns[k], n);
  }

  // What the turns whose baseline could not be read report a second time.
  function Overcount(turns: seq<Turn>, k: nat): Totals
    requires k <= |turns|
  {
    if k == 0 then ZERO else Overcount(turns, k - 1).Plus(Repeated(Replay(turns, k - 1), turns[k - 1]))
  }

  function Repeated(s: State, t: Turn): Totals {
    if !t.intact && Kept(t.delivery) && !t.scan.totals.IsZero() then Baseline(s.file, true) else ZERO
  }

  lemma BalancedNext(s: State, t: Turn, over: Totals)
    requires Reported(s.kept) == Baseline(s.file, true).Plus(over) && t.writes
    requires t.scan.readable ==> t.scan.totals.Covers(Baseline(s.file, true))
    ensures var a := Next(s, t);
            && Reported(a.kept) == Baseline(a.file, true).Plus(over.Plus(Repeated(s, t)))
            && (t.scan.readable && Kept(t.delivery) ==> Baseline(a.file, true) == t.scan.totals)
  {
    hide Reported, Kept;
    var base := Baseline(s.file, t.intact);
    var a := Next(s, t);
    if !t.scan.totals.Covers(base) {
      assert a == s;
    } else if t.scan.totals.Minus(base).IsZero() || !Kept(t.delivery) {
      assert a == s;
    } else {
      ReportedNext(s.kept, RecordOf(t.scan, base));
    }
  }

  lemma NothingReported()
    ensures Reported([]) == ZERO
  {
  }

  lemma PlusZero(a: Totals)
    ensures a.Plus(ZERO) == a
  {
  }

  /** While the baseline can be written, the kept records report it exactly, plus what was remembered each
      time it could not be read back: losing it once over-counts one turn, and everything after is right. */
  lemma {:induction false} LostBaselineCountsOnce(lines: seq<Line>, turns: seq<Turn>, k: nat)
    requires History(lines, turns) && k <= |turns| && forall i | 0 <= i < k :: turns[i].writes
    ensures Reported(Replay(turns, k).kept) == Baseline(Replay(turns, k).file, true).Plus(Overcount(turns, k))
    ensures k > 0 && turns[k - 1].scan.readable && Kept(turns[k - 1].delivery) ==>
              Baseline(Replay(turns, k).file, true) == turns[k - 1].scan.totals
  {
    hide History, Kept, Reported, Next, Repeated, Totals.Plus, Totals.Covers;
    if k == 0 {
      NothingReported();
      PlusZero(ZERO);
    } else {
      LostBaselineCountsOnce(lines, turns, k - 1);
      if turns[k - 1].scan.readable {
        NeverReanchors(lines, turns, k - 1);
      }
      BalancedNext(Replay(turns, k - 1), turns[k - 1], Overcount(turns, k - 1));
    }
  }

  lemma {:induction false} NothingOvercounted(turns: seq<Turn>, k: nat)
    requires k <= |turns| && forall i | 0 <= i < k :: turns[i].intact
    ensures Overcount(turns, k) == ZERO
  {
    if k > 0 {
      hide Replay;
      NothingOvercounted(turns, k - 1);
    }
  }

  lemma WholeRead(lines: seq<Line>, turns: seq<Turn>, k: nat)
    requires History(lines, turns) && k < |turns| && turns[k].scan.readable
    ensures turns[k].upto <= |lines| && turns[k].scan.totals == Total(lines[..turns[k].upto])
  {
  }

  /** A refused turn is carried, never lost: while the baseline can be read and written, after any turn that
      is read whole and kept the records report the whole transcript, each response once. */
  lemma {:induction false} RefusedTurnsAreCarried(lines: seq<Line>, turns: seq<Turn>, k: nat)
    requires History(lines, turns) && k < |turns| && forall i | 0 <= i <= k :: turns[i].intact && turns[i].writes
    requires turns[k].scan.readable && !Lost(turns[k].delivery)
    ensures turns[k].upto <= |lines| && Reported(Replay(turns, k + 1).kept) == Total(lines[..turns[k].upto])
  {
    WholeRead(lines, turns, k);
    assert Kept(turns[k].delivery);
    PlusZero(Baseline(Replay(turns, k + 1).file, true));
    hide Lost, Replay, Total, Scanned, Kept, Reported, Sound, History, Overcount, Totals.Plus, Baseline;
    LostBaselineCountsOnce(lines, turns, k + 1);
    NothingOvercounted(turns, k + 1);
  }

  /** Whatever was scanned, and whether or not the baseline could be read or written: a turn that is lost
      leaves the baseline and the kept records as they were. */
  lemma {:induction false} LostTurnChangesNothing(lines: seq<Line>, turns: seq<Turn>, k: nat)
    requires History(lines, turns) && k < |turns| && Lost(turns[k].delivery)
    ensures Replay(turns, k + 1) == Replay(turns, k)
  {
    if turns[k].scan.readable {
      NeverReanchors(lines, turns, k);
    }
    hide History;
  }

  /** So the next turn that is read whole and not lost reports what the lost turns before it did not: one record,
      of everything in the transcript above the baseline that stood before the first of them. */
  lemma {:induction false} LostTurnsAreReported(lines: seq<Line>, turns: seq<Turn>, j: nat, k: nat)
    requires History(lines, turns) && j <= k < |turns| && forall i | j <= i < k :: Lost(turns[i].delivery)
    requires turns[k].scan.readable && !Lost(turns[k].delivery)
    ensures var before, after := Replay(turns, j), Replay(turns, k + 1);
            var base := if turns[k].intact && before.file.Some? then before.file.value else ZERO;
            && turns[k].upto <= |lines| && Total(lines[..turns[k].upto]).Covers(base)
            && (if Total(lines[..turns[k].upto]) == base then after.kept == before.kept
                else |after.kept| == |before.kept| + 1 && before.kept < after.kept
                     && after.kept[|before.kept|].counts.Plus(base) == Total(lines[..turns[k].upto]))
    decreases k - j
  {
    if j < k {
      LostTurnChangesNothing(lines, turns, j);
      hide *;
      LostTurnsAreReported(lines, turns, j + 1, k);
    } else {
      NeverReanchors(lines, turns, k);
      WholeRead(lines, turns, k);
      hide History, Total, Lost, Totals.Covers;
      ReportsAbove(Replay(turns, k), turns[k]);
    }
  }

  lemma ReportsAbove(s: State, t: Turn)
    requires !Lost(t.delivery) && t.scan.totals.Covers(Baseline(s.file, t.intact))
    ensures var base, after := Baseline(s.file, t.intact), Next(s, t);
            if t.scan.totals == base then after.kept == s.kept
            else |after.kept| == |s.kept| + 1 && s.kept < after.kept
                 && after.kept[|s.kept|].counts.Plus(base) == t.scan.totals
  {
    hide Baseline, Totals.Minus, Totals.Plus, Totals.Covers, Totals.IsZero;
    AboveBaseline(t.scan.totals, Baseline(s.file, t.intact));
  }

  // ---- a state directory that cannot be written ------------------------------------------------------

  // The running totals of the turns whose records are kept.
  function RunningTotals(turns: seq<Turn>, k: nat): seq<Totals>
    requires k <= |turns|
  {
    if k == 0 then []
    else
      var t := turns[k - 1];
      RunningTotals(turns, k - 1) + (if !t.scan.totals.IsZero() && Kept(t.delivery) then [t.scan.totals] else [])
  }

  function CountsOf(rs: seq<Record>): seq<Totals> {
    seq(|rs|, i requires 0 <= i < |rs| => rs[i].counts)
  }

  lemma UnwrittenNext(s: State, t: Turn)
    requires s.file == None && !t.writes
    ensures Next(s, t).file == None
    ensures CountsOf(Next(s, t).kept) ==
            CountsOf(s.kept) + (if !t.scan.totals.IsZero() && Kept(t.delivery) then [t.scan.totals] else [])
  {
  }

  /** While no baseline can be written, every kept record reports the session from its start again: the
      records are the running totals, and their sum overstates the session. */
  lemma {:induction false} UnwritableInflates(turns: seq<Turn>, k: nat)
    requires k <= |turns| && forall i | 0 <= i < k :: !turns[i].writes
    ensures Replay(turns, k).file == None
    ensures CountsOf(Replay(turns, k).kept) == RunningTotals(turns, k)
  {
    if k > 0 {
      UnwritableInflates(turns, k - 1);
      hide Next, Kept, CountsOf;
      UnwrittenNext(Replay(turns, k - 1), turns[k - 1]);
    }
  }

  // Every line is a response of its own with `c` input tokens.
  ghost predicate Even(lines: seq<Line>, c: nat) {
    forall i | 0 <= i < |lines| :: Fresh(lines, i) && Counts(lines[i].usage).input == c
  }

  lemma EvenTotal(lines: seq<Line>, c: nat, n: nat)
    requires Even(lines, c) && n < |lines|
    ensures Total(lines[..n + 1]).input == Total(lines[..n]).input + c
  {
    CountedNext(lines, n);
    assert Fresh(lines, n);
    CountedGrows(Counted(lines[..n]), lines[n]);
  }

  // The turns that end on each of those lines, all read whole and kept, and none remembered.
  ghost predicate OneEach(turns: seq<Turn>, k: nat)
    requires k <= |turns|
  {
    forall i | 0 <= i < k ::
      turns[i].upto == i + 1 && turns[i].scan.readable && Kept(turns[i].delivery) && !turns[i].writes
  }

  lemma EvenScan(lines: seq<Line>, turns: seq<Turn>, c: nat, k: nat)
    requires Even(lines, c) && c > 0 && History(lines, turns) && k < |turns| && OneEach(turns, k + 1)
    ensures turns[k].scan.totals.input == (if k == 0 then 0 else turns[k - 1].scan.totals.input) + c > 0
  {
    WholeRead(lines, turns, k);
    if k > 0 {
      WholeRead(lines, turns, k - 1);
    } else {
      assert Counted(lines[..0]) == [];
    }
    EvenTotal(lines, c, k);
  }

  lemma {:induction false} AllRunning(turns: seq<Turn>, k: nat)
    requires k <= |turns| && forall i | 0 <= i < k :: Kept(turns[i].delivery) && !turns[i].scan.totals.IsZero()
    ensures |RunningTotals(turns, k)| == k
    ensures forall i | 0 <= i < k :: RunningTotals(turns, k)[i] == turns[i].scan.totals
  {
    hide Kept;
    if k > 0 {
      AllRunning(turns, k - 1);
    }
  }

  /** Turns of `c` tokens each, all kept and none remembered: every record reports `c` more than the one
      before, so three turns of 100 report 100, 200 and 300. */
  lemma EvenTurnsReport(lines: seq<Line>, turns: seq<Turn>, c: nat)
    requires Even(lines, c) && c > 0 && History(lines, turns) && OneEach(turns, |turns|)
    ensures var counts := CountsOf(Replay(turns, |turns|).kept);
            && |counts| == |turns|
            && forall i | 0 <= i < |turns| :: counts[i].input == (if i == 0 then 0 else counts[i - 1].input) + c
  {
    forall i | 0 <= i < |turns|
      ensures turns[i].scan.totals.input == (if i == 0 then 0 else turns[i - 1].scan.totals.input) + c
    {
      EvenScan(lines, turns, c, i);
    }
    hide Even, History, Kept, Replay, RunningTotals, CountsOf;
    UnwritableInflates(turns, |turns|);
    AllRunning(turns, |turns|);
  }
}
