// The harness and the hook's scan: two implementations of one grouping.
module ParityAgreement {
  import opened Base
  import opened Numerals
  import opened Transcript
  import opened Parity

  // The text of every line of one response.
  function TextOf(lines: seq<Line>, id: string): string {
    if lines == [] then ""
    else
      var n := |lines| - 1;
      TextOf(lines[..n], id) + (if lines[n].Entry? && lines[n].id == Some(id) then lines[n].text else "")
  }

  function ThinkingOf(lines: seq<Line>, id: string): string {
    if lines == [] then ""
    else
      var n := |lines| - 1;
      ThinkingOf(lines[..n], id) + (if lines[n].Entry? && lines[n].id == Some(id) then lines[n].thinking else "")
  }

  predicate UnaccountedIn(lines: seq<Line>, id: string) {
    exists k | 0 <= k < |lines| :: lines[k].Entry? && lines[k].id == Some(id) && lines[k].unaccounted
  }

  // What the harness should say of a response the scan counted at line `c`.
  function Whole(lines: seq<Line>, c: Line): Turn
    requires c.Entry?
  {
    if c.id.None? then Turn(None, c.model, c.timestamp, c.usage, c.text, c.thinking, c.unaccounted)
    else Turn(c.id, c.model, c.timestamp, c.usage, TextOf(lines, c.id.value), ThinkingOf(lines, c.id.value),
              UnaccountedIn(lines, c.id.value))
  }

  function Expected(lines: seq<Line>): seq<Turn> {
    seq(|Counted(lines)|, i requires 0 <= i < |Counted(lines)| =>
      assert Counted(lines)[i] in Counted(lines); Whole(lines, Counted(lines)[i]))
  }

  // No entry's id begins as the harness's own keys do.
  ghost predicate NoneReserved(lines: seq<Line>) {
    forall k | 0 <= k < |lines| && lines[k].Entry? && lines[k].id.Some? :: !(RESERVED <= lines[k].id.value)
  }

  // ---- keys --------------------------------------------------------------------------------------

  lemma {:induction false} KeysOfOrder(lines: seq<Line>, s: string)
    requires NoneReserved(lines)
    ensures s in Order(lines) && !(RESERVED <= s) ==>
              exists k :: 0 <= k < |lines| && lines[k].Entry? && lines[k].id == Some(s)
    ensures (exists k :: 0 <= k < |lines| && lines[k].Entry? && lines[k].id == Some(s)) ==> s in Order(lines)
    decreases |lines|
  {
    if lines != [] {
      var n := |lines| - 1;
      KeysOfOrder(lines[..n], s);
      if k :| 0 <= k < |lines| && lines[k].Entry? && lines[k].id == Some(s) {
        if k < n {
          assert lines[..n][k] == lines[k];
        }
      }
    }
  }

  // The anonymous keys handed out so far bear the numbers up to the count.
  lemma {:induction false} AnonymousKeys(lines: seq<Line>, m: nat)
    requires NoneReserved(lines) && m > Anonymous(lines)
    ensures RESERVED + Decimal(m) !in Order(lines)
    decreases |lines|
  {
    if lines != [] {
      var n := |lines| - 1;
      AnonymousKeys(lines[..n], m);
      if lines[n].Entry? {
        if lines[n].id.Some? {
          assert RESERVED <= RESERVED + Decimal(m);
        } else if LastKey(lines) == RESERVED + Decimal(m) {
          assert (RESERVED + Decimal(m))[|RESERVED|..] == Decimal(m);
          assert (RESERVED + Decimal(Anonymous(lines)))[|RESERVED|..] == Decimal(Anonymous(lines));
          DecimalsDiffer(m, Anonymous(lines));
        }
      }
    }
  }

  // A line opens a new key exactly when the scan counts it.
  lemma NewKeyIsFresh(lines: seq<Line>)
    requires NoneReserved(lines) && lines != [] && lines[|lines| - 1].Entry?
    ensures LastKey(lines) in Order(lines[..|lines| - 1]) <==> !Fresh(lines, |lines| - 1)
  {
    var n := |lines| - 1;
    var before := lines[..n];
    assert forall k | 0 <= k < n :: before[k] == lines[k];
    if lines[n].id.Some? {
      KeysOfOrder(before, lines[n].id.value);
      hide Order;
    } else {
      AnonymousKeys(before, Anonymous(lines));
    }
  }

  // ---- agreement -----------------------------------------------------------------------------------

  // The i-th key is that of the i-th counted line, and what is gathered under it is that response.
  ghost predicate Matches(lines: seq<Line>) {
    && |Order(lines)| == |Counted(lines)|
    && (forall i | 0 <= i < |Order(lines)| ::
          && Counted(lines)[i].Entry?
          && Name(Order(lines)[i]) == Counted(lines)[i].id
          && Gathered(lines, Order(lines)[i]) == Some(Whole(lines, Counted(lines)[i])))
    && (forall i, j | 0 <= i < j < |Order(lines)| :: Order(lines)[i] != Order(lines)[j])
  }

  lemma {:induction false} TextOfAbsent(lines: seq<Line>, id: string)
    requires forall k | 0 <= k < |lines| && lines[k].Entry? :: lines[k].id != Some(id)
    ensures TextOf(lines, id) == "" && ThinkingOf(lines, id) == "" && !UnaccountedIn(lines, id)
    decreases |lines|
  {
    if lines != [] {
      TextOfAbsent(lines[..|lines| - 1], id);
    }
  }

  // How one more entry changes what is expected of a response counted before it.
  lemma WholeNext(lines: seq<Line>, c: Line)
    requires lines != [] && c.Entry?
    ensures var n := |lines| - 1;
            Whole(lines, c) ==
            if c.id.Some? && lines[n].Entry? && lines[n].id == c.id then Joined(Whole(lines[..n], c), lines[n])
            else Whole(lines[..n], c)
  {
  }

  // What is expected of a response at the line that opens it.
  lemma WholeFirst(lines: seq<Line>)
    requires lines != [] && Fresh(lines, |lines| - 1)
    ensures Whole(lines, lines[|lines| - 1]) == Begun(lines[|lines| - 1])
  {
    var n := |lines| - 1;
    var l := lines[n];
    if l.id.Some? {
      TextOfAbsent(lines[..n], l.id.value);
      assert UnaccountedIn(lines, l.id.value) == l.unaccounted by {
        assert forall k | 0 <= k < n && lines[k].Entry? :: lines[k].id != l.id;
      }
    }
  }

  // What the last line does to the keys, the counted lines and what is gathered.
  lemma LastLine(lines: seq<Line>)
    requires NoneReserved(lines) && lines != []
    ensures var n := |lines| - 1;
            && (lines[n].Entry? && Fresh(lines, n) ==>
                  && Order(lines) == Order(lines[..n]) + [LastKey(lines)]
                  && LastKey(lines) !in Order(lines[..n])
                  && Counted(lines) == Counted(lines[..n]) + [lines[n]])
            && (!(lines[n].Entry? && Fresh(lines, n)) ==>
                  Order(lines) == Order(lines[..n]) && Counted(lines) == Counted(lines[..n]))
  {
    hide Fresh, Counted, LastKey;
    var n := |lines| - 1;
    assert lines[..n + 1] == lines;
    CountedNext(lines, n);
    if lines[n].Entry? {
      NewKeyIsFresh(lines);
    } else {
      NoiseIsNotFresh(lines, n);
    }
  }

  // The last key, and the id it stands for.
  lemma LastName(lines: seq<Line>)
    requires NoneReserved(lines) && lines != [] && lines[|lines| - 1].Entry?
    ensures Name(LastKey(lines)) == lines[|lines| - 1].id
  {
  }

  lemma OldKeysMatch(lines: seq<Line>, i: nat)
    requires NoneReserved(lines) && lines != [] && Matches(lines[..|lines| - 1])
    requires i < |Order(lines[..|lines| - 1])|
    ensures Counted(lines[..|lines| - 1])[i].Entry?
    ensures Gathered(lines, Order(lines[..|lines| - 1])[i]) == Some(Whole(lines, Counted(lines[..|lines| - 1])[i]))
  {
    var n := |lines| - 1;
    var key, c := Order(lines[..n])[i], Counted(lines[..n])[i];
    WholeNext(lines, c);
    assert lines[n].Entry? && lines[n].id.None? ==> LastKey(lines) != key by {
      if lines[n].Entry? && lines[n].id.None? {
        LastLine(lines);
        assert Fresh(lines, n);
      }
    }
    if lines[n].Entry? {
      LastName(lines);
    }
    hide Whole, Order, LastKey;
    assert Name(key) == c.id;
  }

  lemma NewKeyMatches(lines: seq<Line>)
    requires NoneReserved(lines) && lines != [] && lines[|lines| - 1].Entry? && Fresh(lines, |lines| - 1)
    ensures Gathered(lines, LastKey(lines)) == Some(Whole(lines, lines[|lines| - 1]))
    ensures Name(LastKey(lines)) == lines[|lines| - 1].id
  {
    LastName(lines);
    NewKeyIsFresh(lines);
    GatheredInOrder(lines[..|lines| - 1], LastKey(lines));
    WholeFirst(lines);
    hide Order, Whole, LastKey, Fresh, Name;
  }

  lemma {:induction false} AllMatch(lines: seq<Line>)
    requires NoneReserved(lines)
    ensures Matches(lines)
    decreases |lines|
  {
    if lines != [] {
      hide Order, Counted, Whole, Gathered, LastKey, Fresh, Name;
      var n := |lines| - 1;
      AllMatch(lines[..n]);
      LastLine(lines);
      forall i | 0 <= i < |Order(lines[..n])|
        ensures Counted(lines[..n])[i].Entry?
        ensures Gathered(lines, Order(lines[..n])[i]) == Some(Whole(lines, Counted(lines[..n])[i]))
      {
        OldKeysMatch(lines, i);
      }
      if lines[n].Entry? && Fresh(lines, n) {
        NewKeyMatches(lines);
      }
    }
  }

  // ---- the theorem -----------------------------------------------------------------------------------

  lemma {:induction false} FirstIsCounted(lines: seq<Line>, k: nat)
    requires k < |lines| && lines[k].Entry? && lines[k].id.Some?
    ensures exists i :: 0 <= i < |Counted(lines)| && Counted(lines)[i].Entry? && Counted(lines)[i].id == lines[k].id
    decreases |lines|
  {
    hide Counted;
    var n := |lines| - 1;
    assert lines[..n + 1] == lines;
    CountedNext(lines, n);
    if k < n {
      FirstIsCounted(lines[..n], k);
      var i :| 0 <= i < |Counted(lines[..n])| && Counted(lines[..n])[i].Entry?
               && Counted(lines[..n])[i].id == lines[k].id;
      assert Counted(lines)[i] == Counted(lines[..n])[i];
    } else if Fresh(lines, n) {
      assert Counted(lines)[|Counted(lines)| - 1] == lines[n];
    } else {
      var m :| 0 <= m < n && lines[m].Entry? && lines[m].id == lines[n].id;
      FirstIsCounted(lines[..n], m);
      var i :| 0 <= i < |Counted(lines[..n])| && Counted(lines[..n])[i].Entry?
               && Counted(lines[..n])[i].id == lines[k].id;
      assert Counted(lines)[i] == Counted(lines[..n])[i];
    }
  }

  /** The two implementations agree exactly when no id begins with the harness's reserved prefix: the same
      responses in the same order, each with the usage the scan counted and the content of all its lines. */
  lemma AgreeIff(lines: seq<Line>)
    ensures Turns(lines) == Expected(lines) <==> NoneReserved(lines)
  {
    if NoneReserved(lines) {
      AllMatch(lines);
      hide Order, Counted, Gathered, Name, Whole;
      assert forall i | 0 <= i < |Order(lines)| :: Turns(lines)[i] == Expected(lines)[i] by {
        NamesKept(lines);
      }
      assert Turns(lines) == Expected(lines);
    } else {
      var k :| 0 <= k < |lines| && lines[k].Entry? && lines[k].id.Some? && RESERVED <= lines[k].id.value;
      FirstIsCounted(lines, k);
      var i :| 0 <= i < |Counted(lines)| && Counted(lines)[i].Entry? && Counted(lines)[i].id == lines[k].id;
      assert Expected(lines)[i].id == lines[k].id;
      if i < |Turns(lines)| {
        assert Turns(lines)[i].id != lines[k].id;
      }
    }
  }

  lemma NamesKept(lines: seq<Line>)
    ensures forall c | c in Counted(lines) :: Whole(lines, c).id == c.id
  {
  }

  function UsageSum(ts: seq<Turn>): Totals {
    if ts == [] then ZERO else UsageSum(ts[..|ts| - 1]).Plus(Counts(ts[|ts| - 1].usage))
  }

  lemma {:induction false} SumsMatch(ts: seq<Turn>, ls: seq<Line>)
    requires |ts| == |ls| && forall i | 0 <= i < |ts| :: ls[i].Entry? && ts[i].usage == ls[i].usage
    ensures forall l | l in ls :: l.Entry?
    ensures UsageSum(ts) == Sum(ls)
    decreases |ts|
  {
    hide Totals.Plus, Counts;
    if ts != [] {
      SumsMatch(ts[..|ts| - 1], ls[..|ls| - 1]);
    }
  }

  /** So the harness's turns are as many as the hook counts and their usage adds up to the hook's totals. */
  lemma TotalsAgree(lines: seq<Line>)
    requires NoneReserved(lines)
    ensures |Turns(lines)| == Scanned(lines, true).counted
    ensures UsageSum(Turns(lines)) == Scanned(lines, true).totals
  {
    AgreeIff(lines);
    var c := Counted(lines);
    assert forall i | 0 <= i < |c| :: c[i] in c && Expected(lines)[i] == Whole(lines, c[i]);
    SumsMatch(Expected(lines), c);
    hide Turns, Expected, UsageSum, Sum, Counted;
  }
}
