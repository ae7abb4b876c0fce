// One migration run against one connection.
module Migrator {
  import opened Base

  /** A shipped migration; `destructive` is what the guard finds in its SQL. */
  datatype Migration = Migration(version: nat, checksum: string, destructive: bool)

  /** The state table: version to recorded checksum, which an adopted row does not have. */
  type Rows = map<nat, Option<string>>

  /** Where a migration's transaction fails, if it does. */
  datatype Fault = AtSql | AtRow | AtCommit

  datatype Result =
    | Applied(migrations: seq<Migration>)
    | Described(done: seq<Migration>, outstanding: seq<Migration>)
    | UnknownVersion
    | Edited
    | Destructive
    | Failed(at: nat)

  // What `discover` guarantees of the library: versions 1, 2, 3, ...
  ghost predicate Contiguous(shipped: seq<Migration>) {
    forall i | 0 <= i < |shipped| :: shipped[i].version == i + 1
  }

  function Outstanding(shipped: seq<Migration>, rows: Rows): seq<Migration> {
    if shipped == [] then []
    else (if shipped[0].version in rows then [] else [shipped[0]]) + Outstanding(shipped[1..], rows)
  }

  function Done(shipped: seq<Migration>, rows: Rows): seq<Migration> {
    if shipped == [] then []
    else (if shipped[0].version in rows then [shipped[0]] else []) + Done(shipped[1..], rows)
  }

  predicate Ahead(shipped: seq<Migration>, rows: Rows) {
    exists v | v in rows :: v == 0 || v > |shipped|
  }

  predicate Drifted(shipped: seq<Migration>, rows: Rows)
    requires !Ahead(shipped, rows)
  {
    exists v | v in rows :: rows[v].Some? && rows[v].value != shipped[v - 1].checksum
  }

  // The refusal the read of the state table leads to, if any.
  function Refusal(shipped: seq<Migration>, rows: Rows, verify: bool): Option<Result> {
    if Ahead(shipped, rows) then Some(UnknownVersion)
    else if verify && Drifted(shipped, rows) then Some(Edited)
    else None
  }

  predicate AnyDestructive(ms: seq<Migration>) {
    exists m | m in ms :: m.destructive
  }

  function Record(rows: Rows, ms: seq<Migration>): Rows {
    if ms == [] then rows
    else Record(rows, ms[..|ms| - 1])[ms[|ms| - 1].version := Some(ms[|ms| - 1].checksum)]
  }

  function Versions(ms: seq<Migration>): (vs: seq<nat>)
    ensures |vs| == |ms| && forall i | 0 <= i < |ms| :: vs[i] == ms[i].version
  {
    seq(|ms|, i requires 0 <= i < |ms| => ms[i].version)
  }

  // How many migrations go through before the first that fails.
  function Succeeding(ms: seq<Migration>, faults: map<nat, Fault>): (k: nat)
    ensures k <= |ms|
    ensures forall i | 0 <= i < k :: ms[i].version !in faults
    ensures k < |ms| ==> ms[k].version in faults
  {
    if ms == [] || ms[0].version in faults then 0 else 1 + Succeeding(ms[1..], faults)
  }

  // A row's version is not shipped.
  ghost predicate Unknown(shipped: seq<Migration>, rows: Rows) {
    exists v | v in rows :: forall m | m in shipped :: m.version != v
  }

  // A shipped migration is not what was recorded for it.
  ghost predicate SomeEdited(shipped: seq<Migration>, rows: Rows) {
    exists m | m in shipped :: m.version in rows && rows[m.version].Some? && rows[m.version].value != m.checksum
  }

  // A shipped migration without a row is destructive.
  ghost predicate DestructiveLeft(shipped: seq<Migration>, rows: Rows) {
    exists m | m in shipped :: m.version !in rows && m.destructive
  }

  /** A run is refused exactly when the table has a version that is not shipped or, if checksums are verified,
      a recorded checksum that is not the shipped file's; a row without a checksum is never the reason. */
  lemma RefusedIff(shipped: seq<Migration>, rows: Rows, verify: bool)
    requires Contiguous(shipped)
    ensures Refusal(shipped, rows, verify) ==
            if Unknown(shipped, rows) then Some(UnknownVersion)
            else if verify && SomeEdited(shipped, rows) then Some(Edited) else None
  {
    forall v | v in rows
      ensures v == 0 || v > |shipped| <==> forall m | m in shipped :: m.version != v
    {
      if 0 < v <= |shipped| {
        assert shipped[v - 1] in shipped && shipped[v - 1].version == v;
      }
    }
    if !Ahead(shipped, rows) {
      if v :| v in rows && rows[v].Some? && rows[v].value != shipped[v - 1].checksum {
        assert shipped[v - 1] in shipped && shipped[v - 1].version == v;
      }
    }
  }

  // From version `base + 1` up, as the suffixes of a contiguous library are.
  ghost predicate From(shipped: seq<Migration>, base: nat) {
    forall i | 0 <= i < |shipped| :: shipped[i].version == base + i + 1
  }

  /** The outstanding migrations are the shipped ones without a row, in ascending order. */
  lemma {:induction false} OutstandingIs(shipped: seq<Migration>, base: nat, rows: Rows)
    requires From(shipped, base)
    ensures forall m :: m in Outstanding(shipped, rows) <==> m in shipped && m.version !in rows
    ensures forall i, j | 0 <= i < j < |Outstanding(shipped, rows)| ::
              Outstanding(shipped, rows)[i].version < Outstanding(shipped, rows)[j].version
    ensures forall m | m in Outstanding(shipped, rows) :: m.version > base
  {
    if shipped != [] {
      OutstandingIs(shipped[1..], base + 1, rows);
      assert shipped == [shipped[0]] + shipped[1..];
    }
  }

  lemma RefusalsAre(shipped: seq<Migration>, rows: Rows, verify: bool)
    requires Contiguous(shipped)
    ensures Refusal(shipped, rows, verify) ==
            if Unknown(shipped, rows) then Some(UnknownVersion)
            else if verify && SomeEdited(shipped, rows) then Some(Edited) else None
    ensures AnyDestructive(Outstanding(shipped, rows)) <==> DestructiveLeft(shipped, rows)
    ensures !AnyDestructive([])
  {
    RefusedIff(shipped, rows, verify);
    OutstandingIs(shipped, 0, rows);
    hide Outstanding, Unknown, SomeEdited;
  }

  /** The connection: the committed state table and log of executed migrations, and the open transaction's. */
  class Connection {
    var rows: Rows
    var log: seq<nat>
    var openRows: Rows
    var openLog: seq<nat>

    ghost predicate Clean()
      reads this
    {
      openRows == rows && openLog == log
    }

    method Commit()
      modifies this
      ensures rows == old(openRows) && log == old(openLog) && Clean()
    {
      rows, log := openRows, openLog;
    }

    method Rollback()
      modifies this
      ensures rows == old(rows) && log == old(log) && Clean()
    {
      openRows, openLog := rows, log;
    }

    // Each migration and its row in one transaction, in order, until one fails.
    method ApplyEach(outstanding: seq<Migration>, faults: map<nat, Fault>) returns (result: Result)
      requires Clean()
      modifies this
      ensures Clean()
      ensures var k := Succeeding(outstanding, faults);
              && result == (if k == |outstanding| then Applied(outstanding) else Failed(outstanding[k].version))
              && rows == Record(old(rows), outstanding[..k])
              && log == old(log) + Versions(outstanding[..k])
    {
      hide Succeeding;
      var applied: seq<Migration> := [];
      ghost var k := Succeeding(outstanding, faults);
      for i := 0 to |outstanding|
        invariant i <= k && Clean() && applied == outstanding[..i]
        invariant rows == Record(old(rows), outstanding[..i])
        invariant log == old(log) + Versions(outstanding[..i])
      {
        var m := outstanding[i];
        var fault := if m.version in faults then Some(faults[m.version]) else None;
        if fault != Some(AtSql) {
          openLog := openLog + [m.version];
        }
        if fault.None? || fault.value.AtCommit? {
          openRows := openRows[m.version := Some(m.checksum)];
        }
        if fault.Some? {
          Rollback();
          return Failed(m.version);
        }
        Commit();
        assert outstanding[..i + 1][..i] == outstanding[..i];
        assert Versions(outstanding[..i + 1]) == Versions(outstanding[..i]) + [m.version];
        applied := applied + [m];
      }
      assert outstanding[..|outstanding|] == outstanding;
      return Applied(applied);
    }

    /** Applies what is outstanding. `faults` says which migrations fail, and at which statement. */
    method Apply(shipped: seq<Migration>, allowDestructive: bool, verify: bool, faults: map<nat, Fault>)
      returns (result: Result)
      requires Contiguous(shipped) && Clean()
      modifies this
      ensures Clean()
      ensures var outstanding := Outstanding(shipped, old(rows));
              if Refusal(shipped, old(rows), verify).Some? then
                result == Refusal(shipped, old(rows), verify).value && rows == old(rows) && log == old(log)
              else if !allowDestructive && AnyDestructive(outstanding) then
                result == Destructive && rows == old(rows) && log == old(log)
              else
                var k := Succeeding(outstanding, faults);
                && result == (if k == |outstanding| then Applied(outstanding) else Failed(outstanding[k].version))
                && rows == Record(old(rows), outstanding[..k])
                && log == old(log) + Versions(outstanding[..k])
      ensures result == UnknownVersion <==> Unknown(shipped, old(rows))
      ensures result == Edited <==> !Unknown(shipped, old(rows)) && verify && SomeEdited(shipped, old(rows))
      ensures Refusal(shipped, old(rows), verify).None? ==>
                (result == Destructive <==> !allowDestructive && DestructiveLeft(shipped, old(rows)))
    {
      RefusalsAre(shipped, rows, verify);
      hide Outstanding, Refusal, Contiguous, Succeeding, AnyDestructive, Unknown, SomeEdited, DestructiveLeft;
      var refusal := Refusal(shipped, rows, verify);
      if refusal.Some? {
        return refusal.value;
      }
      var outstanding := Outstanding(shipped, rows);
      if outstanding == [] {
        assert Record(rows, []) == rows && Versions([]) == [];
        return Applied([]);
      }
      if !allowDestructive && AnyDestructive(outstanding) {
        return Destructive;
      }
      result := ApplyEach(outstanding, faults);
    }

    // Reports from one read of the table, and changes nothing.
    method Status(shipped: seq<Migration>, verify: bool) returns (result: Result)
      requires Contiguous(shipped)
      ensures result == if Refusal(shipped, rows, verify).Some? then Refusal(shipped, rows, verify).value
                        else Described(Done(shipped, rows), Outstanding(shipped, rows))
    {
      var refusal := Refusal(shipped, rows, verify);
      if refusal.Some? {
        return refusal.value;
      }
      return Described(Done(shipped, rows), Outstanding(shipped, rows));
    }
  }

  // ---- what a run leaves behind ----------------------------------------------------------------

  lemma {:induction false} RecordKeys(rows: Rows, ms: seq<Migration>)
    ensures forall v :: v in Record(rows, ms) <==> v in rows || exists m | m in ms :: m.version == v
  {
    if ms != [] {
      var n := |ms| - 1;
      RecordKeys(rows, ms[..n]);
      assert ms == ms[..n] + [ms[n]];
      forall v ensures v in Record(rows, ms) <==> v in rows || exists m | m in ms :: m.version == v {
        if m :| m in ms && m.version == v {
          assert m in ms[..n] || m == ms[n];
        }
        if v == ms[n].version {
          assert ms[n] in ms;
        }
      }
    }
  }

  /** What a report calls done is the shipped migrations with a row, in ascending order. */
  lemma {:induction false} DoneIs(shipped: seq<Migration>, base: nat, rows: Rows)
    requires From(shipped, base)
    ensures forall m :: m in Done(shipped, rows) <==> m in shipped && m.version in rows
    ensures forall i, j | 0 <= i < j < |Done(shipped, rows)| ::
              Done(shipped, rows)[i].version < Done(shipped, rows)[j].version
    ensures forall m | m in Done(shipped, rows) :: m.version > base
  {
    if shipped != [] {
      DoneIs(shipped[1..], base + 1, rows);
      assert shipped == [shipped[0]] + shipped[1..];
    }
  }

  /** Recording gives each migration its own checksum and leaves every other row as it was. */
  lemma {:induction false} RecordIs(rows: Rows, ms: seq<Migration>)
    requires forall i, j | 0 <= i < j < |ms| :: ms[i].version < ms[j].version
    ensures forall m | m in ms :: m.version in Record(rows, ms) && Record(rows, ms)[m.version] == Some(m.checksum)
    ensures forall v | v in rows && (forall m | m in ms :: m.version != v) ::
              v in Record(rows, ms) && Record(rows, ms)[v] == rows[v]
  {
    if ms != [] {
      var n := |ms| - 1;
      RecordIs(rows, ms[..n]);
      assert ms == ms[..n] + [ms[n]];
      assert ms[n] in ms && forall m | m in ms[..n] :: m in ms && m.version < ms[n].version;
    }
  }

  /** A table that passes a checksum verification passes it after any run over it, however far that got. */
  lemma RunsStayVerified(shipped: seq<Migration>, rows: Rows, k: nat)
    requires Contiguous(shipped) && k <= |Outstanding(shipped, rows)|
    requires !Unknown(shipped, rows) && !SomeEdited(shipped, rows)
    ensures var after := Record(rows, Outstanding(shipped, rows)[..k]);
            !Unknown(shipped, after) && !SomeEdited(shipped, after)
  {
    hide Record, Outstanding, Unknown, SomeEdited;
    var ms := Outstanding(shipped, rows)[..k];
    OutstandingIs(shipped, 0, rows);
    RecordIs(rows, ms);
    RecordKeys(rows, ms);
    assert forall m | m in ms :: m in Outstanding(shipped, rows);
    StaysVerified(shipped, rows, ms, Record(rows, ms));
  }

  lemma StaysVerified(shipped: seq<Migration>, rows: Rows, ms: seq<Migration>, after: Rows)
    requires Contiguous(shipped) && !Unknown(shipped, rows) && !SomeEdited(shipped, rows)
    requires forall m | m in ms :: m in shipped && m.version in after && after[m.version] == Some(m.checksum)
    requires forall v | v in after :: v in rows || exists m | m in ms :: m.version == v
    requires forall v | v in rows && (forall m | m in ms :: m.version != v) :: v in after && after[v] == rows[v]
    ensures !Unknown(shipped, after) && !SomeEdited(shipped, after)
  {
    forall m | m in shipped && m.version in after && after[m.version].Some?
      ensures after[m.version].value == m.checksum
    {
      if n :| n in ms && n.version == m.version {
        assert n == m;
      }
    }
  }

  lemma {:induction false} OutstandingSame(shipped: seq<Migration>, rows: Rows, v: nat, c: Option<string>)
    requires forall m | m in shipped :: m.version != v
    ensures Outstanding(shipped, rows[v := c]) == Outstanding(shipped, rows)
  {
    if shipped != [] {
      assert shipped[0] in shipped && forall m | m in shipped[1..] :: m in shipped;
      OutstandingSame(shipped[1..], rows, v, c);
    }
  }

  // A row for the first outstanding migration takes that one, and no other, off the list.
  lemma {:induction false} OutstandingNext(shipped: seq<Migration>, base: nat, rows: Rows, c: Option<string>)
    requires From(shipped, base) && Outstanding(shipped, rows) != []
    ensures Outstanding(shipped, rows[Outstanding(shipped, rows)[0].version := c]) == Outstanding(shipped, rows)[1..]
  {
    var v := shipped[0].version;
    if v in rows {
      OutstandingNext(shipped[1..], base + 1, rows, c);
    } else {
      OutstandingSame(shipped[1..], rows, v, c);
    }
  }

  lemma {:induction false} OutstandingAfter(shipped: seq<Migration>, base: nat, rows: Rows, k: nat)
    requires From(shipped, base) && k <= |Outstanding(shipped, rows)|
    ensures Outstanding(shipped, Record(rows, Outstanding(shipped, rows)[..k])) == Outstanding(shipped, rows)[k..]
    decreases k
  {
    hide Outstanding, From;
    var plan := Outstanding(shipped, rows);
    if k > 0 {
      OutstandingAfter(shipped, base, rows, k - 1);
      assert plan[..k][..k - 1] == plan[..k - 1] && plan[k - 1..][0] == plan[k - 1] && plan[k - 1..][1..] == plan[k..];
      OutstandingNext(shipped, base, Record(rows, plan[..k - 1]), Some(plan[k - 1].checksum));
    }
  }

  /** A run that stops at its k-th migration leaves exactly the later ones outstanding, so the next run
      resumes there; a run that does not stop leaves nothing outstanding. */
  lemma RunsResume(shipped: seq<Migration>, rows: Rows, faults: map<nat, Fault>)
    requires Contiguous(shipped)
    ensures var plan := Outstanding(shipped, rows);
            var k := Succeeding(plan, faults);
            && Outstanding(shipped, Record(rows, plan[..k])) == plan[k..]
            && (k == |plan| ==> Outstanding(shipped, Record(rows, plan)) == [])
  {
    var plan := Outstanding(shipped, rows);
    var k := Succeeding(plan, faults);
    OutstandingAfter(shipped, 0, rows, k);
    assert plan[..|plan|] == plan;
  }
}
