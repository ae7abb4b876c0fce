// What concurrent migration runs leave behind when no transaction is interrupted half way, and what one
// interruption does.
module MigratorRuns {
  import opened Base
  import opened Migrator
  import opened MigratorProtocol

  // Not an interruption that leaves a migration's transaction open.
  ghost predicate Calm(s: System, a: Action)
    requires Enabled(s, a)
  {
    a.Interrupt? ==> a.aborts || !Open(s.sessions[a.i].tx)
  }

  ghost predicate CalmRun(s: System, acts: seq<Action>)
    requires CanRun(s, acts)
    decreases |acts|
  {
    acts == [] || (Calm(s, acts[0]) && CalmRun(Step(s, acts[0]), acts[1..]))
  }

  // What an ending says about the state table, as against what the call read.
  ghost predicate EndingTold(ending: Ending, call: Call, seen: Rows, plan: seq<Migration>, k: nat) {
    match ending
    case Returned(result) =>
      (match result
       case Applied(ms) => ms == plan == Outstanding(call.shipped, seen) && k == |plan|
       case Failed(v) => plan == Outstanding(call.shipped, seen) && k < |plan| && v == plan[k].version
       case Described(done, outstanding) =>
         k == 0 && done == Done(call.shipped, seen) && outstanding == Outstanding(call.shipped, seen)
       case Destructive =>
         k == 0 && call.ApplyCall? && !call.allowDestructive && AnyDestructive(Outstanding(call.shipped, seen))
       case _ => k == 0 && Refusal(call.shipped, seen, call.verify) == Some(result))
    case InDoubt(v) => plan == Outstanding(call.shipped, seen) && 0 < k <= |plan| && v == plan[k - 1].version
    case _ => true
  }

  // A session's part: the table is what the call read plus the migrations it committed since.
  ghost predicate Exact(rows: Rows, me: Session) {
    && (Open(me.tx) ==> me.phase.Migrating?)
    && (me.phase.Waiting? || me.phase.Holding? || me.phase.Migrating? || me.phase.Leaving? ==>
          Contiguous(me.phase.call.shipped))
    && (me.phase.Migrating? ==>
          me.phase.k <= |me.phase.plan| && rows == Record(me.phase.seen, me.phase.plan[..me.phase.k]))
    && (me.phase.Leaving? ==>
          && me.phase.k <= |me.phase.plan| && rows == Record(me.phase.seen, me.phase.plan[..me.phase.k])
          && EndingTold(me.phase.ending, me.phase.call, me.phase.seen, me.phase.plan, me.phase.k))
  }

  ghost predicate CalmInv(adopted: Rows, s: System) {
    && Inv(adopted, s) && s.torn == [] && s.log == s.recorded
    && forall i | 0 <= i < |s.sessions| :: Exact(s.rows, s.sessions[i])
  }

  lemma RecordOne(rows: Rows, plan: seq<Migration>, k: nat)
    requires k < |plan|
    ensures Record(rows, plan[..k + 1]) == Record(rows, plan[..k])[plan[k].version := Some(plan[k].checksum)]
  {
    assert plan[..k + 1][..k] == plan[..k];
  }

  ghost predicate MovesExactly(s: System, a: Action)
    requires Enabled(s, a)
  {
    var after := Step(s, a);
    Exact(after.rows, after.sessions[a.i]) && after.torn == [] && after.log == after.recorded
  }

  lemma CommitExact(adopted: Rows, s: System, a: Action)
    requires CalmInv(adopted, s) && Enabled(s, a) && (a.Commit? || a.CommitLost?)
    ensures MovesExactly(s, a)
  {
    hide Outstanding, Accounted, Contiguous, AnyDestructive, Refusal, Done;
    var me := s.sessions[a.i];
    assert SessionOk(adopted, s, a.i) && Exact(s.rows, me);
    hide SessionsOk;
    RecordOne(me.phase.seen, me.phase.plan, me.phase.k);
    hide Record;
  }

  lemma SettleExact(adopted: Rows, s: System, a: Action)
    requires CalmInv(adopted, s) && Enabled(s, a) && (a.Acquire? || a.Settle?)
    ensures MovesExactly(s, a)
  {
  }

  lemma ReadExact(adopted: Rows, s: System, a: Action)
    requires CalmInv(adopted, s) && Enabled(s, a) && (a.Read? || a.ReadFails?)
    ensures MovesExactly(s, a)
  {
    assert SessionOk(adopted, s, a.i) && Exact(s.rows, s.sessions[a.i]);
    hide Outstanding, Accounted, SessionsOk, SessionOk, Contiguous, Done, AnyDestructive, Ahead, Drifted;
  }

  lemma OtherwiseExact(adopted: Rows, s: System, a: Action)
    requires CalmInv(adopted, s) && Enabled(s, a) && Calm(s, a) && !Commits(a) && !a.Read? && !a.ReadFails?
    ensures MovesExactly(s, a)
  {
    assert SessionOk(adopted, s, a.i) && Exact(s.rows, s.sessions[a.i]);
    var me := s.sessions[a.i];
    hide Outstanding, Accounted, SessionsOk, Contiguous, Record, AfterRead, Done, AnyDestructive, Refusal;
    if a.Fail? || a.Finish? || a.Interrupt? {
      assert me.phase.Migrating? || me.phase.Holding?;
    }
  }

  // Only the session inside changes the table, so nobody else's part is disturbed.
  lemma OthersExact(adopted: Rows, s: System, a: Action, j: nat)
    requires CalmInv(adopted, s) && Enabled(s, a) && j < |s.sessions| && j != a.i
    ensures Step(s, a).sessions[j] == s.sessions[j] && Exact(Step(s, a).rows, s.sessions[j])
  {
    assert SessionOk(adopted, s, a.i) && SessionOk(adopted, s, j);
    assert Exact(s.rows, s.sessions[a.i]) && Exact(s.rows, s.sessions[j]);
    hide Outstanding, Accounted, SessionsOk, Contiguous, Record, EndingTold, AfterRead, Refusal;
    assert Step(s, a).rows == s.rows || Inside(s.sessions[a.i].phase);
  }

  lemma Mover(adopted: Rows, s: System, a: Action)
    requires CalmInv(adopted, s) && Enabled(s, a) && Calm(s, a)
    ensures Inv(adopted, Step(s, a)) && MovesExactly(s, a)
  {
    if a.Commit? || a.CommitLost? {
      CommitExact(adopted, s, a);
    } else if a.Acquire? || a.Settle? {
      SettleExact(adopted, s, a);
    } else if a.Read? || a.ReadFails? {
      ReadExact(adopted, s, a);
    } else {
      OtherwiseExact(adopted, s, a);
    }
    hide Step, MovesExactly, Enabled, Inv;
    if Commits(a) {
      CommittingStep(adopted, s, a);
    } else {
      LocalStep(adopted, s, a);
    }
  }

  lemma CalmStep(adopted: Rows, s: System, a: Action)
    requires CalmInv(adopted, s) && Enabled(s, a) && Calm(s, a)
    ensures CalmInv(adopted, Step(s, a))
  {
    hide Inv, Exact, Calm, Step, Enabled;
    Mover(adopted, s, a);
    var after := Step(s, a);
    StepSessions(s, a);
    forall j | 0 <= j < |after.sessions| ensures Exact(after.rows, after.sessions[j]) {
      if j != a.i {
        OthersExact(adopted, s, a, j);
      }
    }
  }

  lemma StepSessions(s: System, a: Action)
    requires Enabled(s, a)
    ensures |Step(s, a).sessions| == |s.sessions| && a.i < |s.sessions|
  {
  }

  lemma {:induction false} CalmRunKeeps(adopted: Rows, s: System, acts: seq<Action>)
    requires CalmInv(adopted, s) && CanRun(s, acts) && CalmRun(s, acts)
    ensures CalmInv(adopted, Run(s, acts))
    decreases |acts|
  {
    if acts != [] {
      CalmStep(adopted, s, acts[0]);
      hide CalmInv, Step, Enabled, Calm;
      CalmRunKeeps(adopted, Step(s, acts[0]), acts[1..]);
    }
  }

  // What an ending promises about the table the call leaves.
  ghost predicate TableLeft(rows: Rows, p: Phase)
    requires p.Leaving?
  {
    var shipped, plan := p.call.shipped, Outstanding(p.call.shipped, p.seen);
    match p.ending
    case Returned(result) =>
      (match result
       case Applied(ms) => ms == plan && rows == Record(p.seen, plan) && Outstanding(shipped, rows) == []
       case Failed(v) =>
         p.k < |plan| && v == plan[p.k].version
         && rows == Record(p.seen, plan[..p.k]) && Outstanding(shipped, rows) == plan[p.k..]
       case Described(done, outstanding) =>
         rows == p.seen && done == Done(shipped, rows) && outstanding == Outstanding(shipped, rows)
       case Destructive =>
         rows == p.seen && p.call.ApplyCall? && !p.call.allowDestructive && DestructiveLeft(shipped, rows)
       case _ => rows == p.seen && Refusal(shipped, rows, p.call.verify) == Some(result))
    case InDoubt(v) =>
      0 < p.k <= |plan| && v == plan[p.k - 1].version
      && rows == Record(p.seen, plan[..p.k]) && Outstanding(shipped, rows) == plan[p.k..]
    case _ => true
  }

  lemma ExactLeaves(rows: Rows, me: Session)
    requires Exact(rows, me) && me.phase.Leaving?
    ensures TableLeft(rows, me.phase)
  {
    var p := me.phase;
    hide Outstanding, Refusal, AnyDestructive, Done, Contiguous, DestructiveLeft;
    assert p.plan[..0] == [] && Record(p.seen, []) == p.seen;
    hide Record;
    if p.ending == Returned(Destructive) {
      DestructiveLeftOver(p.call.shipped, p.seen);
    }
    PlanLeft(p);
  }

  // What is outstanding once the first `k` of a plan are recorded.
  lemma PlanLeft(p: Phase)
    requires p.Leaving? && Contiguous(p.call.shipped) && p.k <= |p.plan|
    ensures p.plan == Outstanding(p.call.shipped, p.seen) ==>
              Outstanding(p.call.shipped, Record(p.seen, p.plan[..p.k])) == p.plan[p.k..]
    ensures p.k == |p.plan| ==> p.plan[..p.k] == p.plan && p.plan[p.k..] == []
  {
    if p.plan == Outstanding(p.call.shipped, p.seen) {
      hide Outstanding, Record;
      OutstandingAfter(p.call.shipped, 0, p.seen, p.k);
    }
  }

  lemma DestructiveLeftOver(shipped: seq<Migration>, rows: Rows)
    requires Contiguous(shipped) && AnyDestructive(Outstanding(shipped, rows))
    ensures DestructiveLeft(shipped, rows)
  {
    hide *;
    RefusalsAre(shipped, rows, false);
  }

  /** What a call says is so while it still holds the lock. One that applied leaves nothing outstanding; one
      that failed leaves exactly what it read plus the migrations before the failing one, which is the next
      outstanding; one that only reports, or refuses, leaves what it read. A call whose commit was not
      acknowledged has committed that migration too. */
  lemma CallsEndExactly(adopted: Rows, n: nat, acts: seq<Action>, i: nat)
    requires CanRun(Start(adopted, n), acts) && CalmRun(Start(adopted, n), acts)
    requires var s := Run(Start(adopted, n), acts); i < |s.sessions| && s.sessions[i].phase.Leaving?
    ensures var s := Run(Start(adopted, n), acts); TableLeft(s.rows, s.sessions[i].phase)
  {
    CalmRunKeeps(adopted, Start(adopted, n), acts);
    var s := Run(Start(adopted, n), acts);
    assert Exact(s.rows, s.sessions[i]);
    ExactLeaves(s.rows, s.sessions[i]);
  }

  // ---- afterwards ------------------------------------------------------------------------------

  lemma {:induction false} OutstandingShrinks(shipped: seq<Migration>, rows: Rows, more: Rows)
    requires forall v | v in rows :: v in more
    ensures forall m | m in Outstanding(shipped, more) :: m in Outstanding(shipped, rows)
  {
    if shipped != [] {
      OutstandingShrinks(shipped[1..], rows, more);
    }
  }

  lemma {:induction false} RowsStay(s: System, acts: seq<Action>)
    requires CanRun(s, acts)
    ensures forall v | v in s.rows :: v in Run(s, acts).rows
    decreases |acts|
  {
    if acts != [] {
      var next := Step(s, acts[0]);
      assert forall v | v in s.rows :: v in next.rows by {
        hide AfterRead;
      }
      hide Step, Enabled;
      RowsStay(next, acts[1..]);
    }
  }

  /** No migration becomes outstanding again, whatever any session does: each that is outstanding after a
      run was outstanding before it. */
  lemma NothingComesBack(shipped: seq<Migration>, s: System, acts: seq<Action>)
    requires CanRun(s, acts)
    ensures forall m | m in Outstanding(shipped, Run(s, acts).rows) :: m in Outstanding(shipped, s.rows)
  {
    RowsStay(s, acts);
    OutstandingShrinks(shipped, s.rows, Run(s, acts).rows);
  }

  // ---- the lock ----------------------------------------------------------------------------------

  // How often the session holds the lock after `acts`: once more for each time it was taken, once less for each
  // time it was given up, and not at all once the connection is gone.
  function TimesHeld(acts: seq<Action>, i: nat): nat {
    if acts == [] then 0
    else
      var before, a := TimesHeld(acts[..|acts| - 1], i), acts[|acts| - 1];
      if a.i != i then before
      else if a.Acquire? then before + 1
      else if a.Unlock? then before - (if before > 0 then 1 else 0)
      else if a.Disconnect? then 0
      else before
  }

  /** The server counts for its one holder: over every run each session holds the lock as often as it has taken it
      and not given it up, and at most one session holds it at all. */
  lemma {:induction false} LockIsCounted(adopted: Rows, n: nat, acts: seq<Action>, i: nat)
    requires CanRun(Start(adopted, n), acts)
    ensures var lock := Run(Start(adopted, n), acts).lock;
            TimesHeld(acts, i) == if lock.Some? && lock.value.holder == i then lock.value.count else 0
    ensures forall j | j != i && TimesHeld(acts, i) > 0 :: TimesHeld(acts, j) == 0
    decreases |acts|
  {
    if acts != [] {
      var m := |acts| - 1;
      assert acts == acts[..m] + [acts[m]];
      LastAction(Start(adopted, n), acts[..m], acts[m]);
      forall j { LockIsCounted(adopted, n, acts[..m], j); }
      StartInv(adopted, n);
      RunKeepsInv(adopted, Start(adopted, n), acts[..m]);
      LockSteps(adopted, Run(Start(adopted, n), acts[..m]), acts[m]);
      hide Inv, Enabled, Step, Run, CanRun;
    }
  }

  lemma LockSteps(adopted: Rows, s: System, a: Action)
    requires Inv(adopted, s) && Enabled(s, a)
    ensures var held, now := (if s.lock.Some? && s.lock.value.holder == a.i then s.lock.value.count else 0),
                             Step(s, a).lock;
            if a.Acquire? then LockFree(s, a.i) && now == Some(Lock(a.i, held + 1))
            else if a.Unlock? then now == (if held > 1 then Some(Lock(a.i, held - 1)) else None)
            else if a.Disconnect? then now == (if s.lock.Some? && s.lock.value.holder == a.i then None else s.lock)
            else now == s.lock
  {
    assert SessionOk(adopted, s, a.i);
    hide Accounted, SessionsOk, AfterRead, Outstanding;
  }

  lemma {:induction false} LastAction(s: System, acts: seq<Action>, a: Action)
    requires CanRun(s, acts + [a])
    ensures CanRun(s, acts) && Enabled(Run(s, acts), a) && Run(s, acts + [a]) == Step(Run(s, acts), a)
    decreases |acts|
  {
    hide Enabled, Step;
    if acts == [] {
      assert acts + [a] == [a] && [a][1..] == [];
    } else {
      assert (acts + [a])[1..] == acts[1..] + [a];
      LastAction(Step(s, acts[0]), acts[1..], a);
    }
  }

  /** Any idle session may begin any call, any waiting one in a usable transaction gets a lock that is free or its
      own, and any connection may be lost at any time. */
  lemma SessionsAreFree(s: System, i: nat, call: Call)
    requires i < |s.sessions|
    ensures s.sessions[i].phase.Idle? && Contiguous(call.shipped) ==> Enabled(s, Begin(i, call))
    ensures s.sessions[i].phase.Waiting? && !s.sessions[i].tx.Aborted? && (s.lock.None? || s.lock.value.holder == i) ==>
              Enabled(s, Acquire(i))
    ensures Enabled(s, Disconnect(i))
  {
  }

  // ---- what may be destroyed ---------------------------------------------------------------------

  // The calls made along a run.
  function Begun(acts: seq<Action>): seq<Call> {
    if acts == [] then [] else (if acts[0].Begin? then [acts[0].call] else []) + Begun(acts[1..])
  }

  // One of the calls was to apply `m`, and was allowed to if `m` is destructive.
  ghost predicate Allowed(calls: seq<Call>, m: Migration) {
    exists c | c in calls :: c.ApplyCall? && m in c.shipped && (m.destructive ==> c.allowDestructive)
  }

  // The table is one the call goes on with.
  ghost predicate Accepted(call: Call, rows: Rows) {
    !Unknown(call.shipped, rows) && !(call.verify && SomeEdited(call.shipped, rows))
  }

  ghost predicate SessionAllowed(calls: seq<Call>, me: Session) {
    && (me.phase.Waiting? || me.phase.Holding? || me.phase.Migrating? ==>
          me.phase.call in calls && Contiguous(me.phase.call.shipped))
    && (me.phase.Migrating? ==>
          && me.phase.call.ApplyCall? && Accepted(me.phase.call, me.phase.seen)
          && forall m | m in me.phase.plan ::
               m in me.phase.call.shipped && (m.destructive ==> me.phase.call.allowDestructive))
    && (Open(me.tx) ==> Allowed(calls, me.tx.m))
  }

  ghost predicate AllAllowed(calls: seq<Call>, s: System) {
    && (forall i | 0 <= i < |s.sessions| :: SessionAllowed(calls, s.sessions[i]))
    && forall v | v in s.log :: exists m: Migration :: m.version == v && Allowed(calls, m)
  }

  lemma {:induction false} OutstandingShipped(shipped: seq<Migration>, rows: Rows)
    ensures forall m | m in Outstanding(shipped, rows) :: m in shipped
  {
    if shipped != [] {
      OutstandingShipped(shipped[1..], rows);
    }
  }

  lemma AllowedMore(calls: seq<Call>, more: seq<Call>, s: System)
    requires AllAllowed(calls, s)
    ensures AllAllowed(calls + more, s)
  {
    assert forall m | Allowed(calls, m) :: Allowed(calls + more, m);
    forall i | 0 <= i < |s.sessions| ensures SessionAllowed(calls + more, s.sessions[i]) {
      assert SessionAllowed(calls, s.sessions[i]);
    }
  }

  lemma AllowedMover(calls: seq<Call>, s: System, a: Action)
    requires AllAllowed(calls, s) && Enabled(s, a) && (a.Begin? ==> a.call in calls)
    ensures SessionAllowed(calls, Step(s, a).sessions[a.i])
  {
    assert SessionAllowed(calls, s.sessions[a.i]);
    var me := s.sessions[a.i];
    if a.Read? {
      ReadIsAllowed(me.phase.call, s.rows);
    }
    hide Outstanding, AfterRead, AllAllowed, Accepted, Contiguous;
    if a.RunSql? {
      assert me.phase.plan[me.phase.k] in me.phase.plan && me.phase.call in calls;
      assert Allowed(calls, me.phase.plan[me.phase.k]);
    }
  }

  lemma ReadIsAllowed(call: Call, rows: Rows)
    requires Contiguous(call.shipped)
    ensures var p := AfterRead(call, rows);
            && (p.Migrating? || p.Leaving?) && p.call == call
            && (p.Migrating? ==>
                  && call.ApplyCall? && p.k == 0 && p.seen == rows && Accepted(call, rows)
                  && forall m | m in p.plan :: m in call.shipped && (m.destructive ==> call.allowDestructive))
  {
    OutstandingShipped(call.shipped, rows);
    RefusedIff(call.shipped, rows, call.verify);
    hide Outstanding, Refusal, Done, Unknown, SomeEdited, Contiguous;
  }

  /** What a call does with the table it reads: it goes on only if it is to apply, the table is accepted and
      nothing destructive is outstanding without permission; and then with everything outstanding. */
  lemma ReadDecides(call: Call, rows: Rows)
    requires Contiguous(call.shipped)
    ensures AfterRead(call, rows) ==
            if Unknown(call.shipped, rows) then Leaving(call, Returned(UnknownVersion), rows, [], 0)
            else if call.verify && SomeEdited(call.shipped, rows) then Leaving(call, Returned(Edited), rows, [], 0)
            else if call.StatusCall? then
              Leaving(call, Returned(Described(Done(call.shipped, rows), Outstanding(call.shipped, rows))), rows, [], 0)
            else if !call.allowDestructive && DestructiveLeft(call.shipped, rows) then
              Leaving(call, Returned(Destructive), rows, [], 0)
            else Migrating(call, rows, Outstanding(call.shipped, rows), 0)
  {
    RefusalsAre(call.shipped, rows, call.verify);
    hide Outstanding, Refusal, Done, Unknown, SomeEdited, Contiguous, AnyDestructive, DestructiveLeft;
  }

  lemma AllowedStep(calls: seq<Call>, s: System, a: Action)
    requires AllAllowed(calls, s) && Enabled(s, a) && (a.Begin? ==> a.call in calls)
    ensures AllAllowed(calls, Step(s, a))
  {
    AllowedMover(calls, s, a);
    assert SessionAllowed(calls, s.sessions[a.i]);
    hide Outstanding, AfterRead, Allowed, Accepted, Contiguous;
    var after := Step(s, a);
    forall j | 0 <= j < |after.sessions| ensures SessionAllowed(calls, after.sessions[j]) {
      if j != a.i { assert after.sessions[j] == s.sessions[j]; }
    }
    assert after.log == s.log || after.log == s.log + [s.sessions[a.i].tx.m.version];
  }

  lemma {:induction false} AllowedRun(calls: seq<Call>, s: System, acts: seq<Action>)
    requires AllAllowed(calls, s) && CanRun(s, acts)
    ensures AllAllowed(calls + Begun(acts), Run(s, acts))
    decreases |acts|
  {
    hide AllAllowed, Step, Enabled;
    if acts == [] {
      assert calls + Begun(acts) == calls;
    } else {
      var now := if acts[0].Begin? then [acts[0].call] else [];
      AllowedMore(calls, now, s);
      AllowedStep(calls + now, s, acts[0]);
      AllowedRun(calls + now, Step(s, acts[0]), acts[1..]);
      assert calls + now + Begun(acts[1..]) == calls + Begun(acts);
    }
  }

  lemma NothingBegun(adopted: Rows, n: nat)
    ensures AllAllowed([], Start(adopted, n))
  {
  }

  /** Nothing destructive without permission, over every run, interruptions and lost connections included: each
      migration whose SQL was committed, and each that is open in a session, is one that some call of the run
      was made to apply, with permission if it is destructive. */
  lemma {:induction false} DestructionIsAllowed(adopted: Rows, n: nat, acts: seq<Action>)
    requires CanRun(Start(adopted, n), acts)
    ensures var s := Run(Start(adopted, n), acts);
            && (forall v | v in s.log :: exists m: Migration, c: Call ::
                  m.version == v && c in Begun(acts) && c.ApplyCall? && m in c.shipped
                  && (m.destructive ==> c.allowDestructive))
            && (forall i | 0 <= i < |s.sessions| && Open(s.sessions[i].tx) :: exists c: Call ::
                  c in Begun(acts) && c.ApplyCall? && s.sessions[i].tx.m in c.shipped
                  && (s.sessions[i].tx.m.destructive ==> c.allowDestructive))
  {
    AllowedRun([], Start(adopted, n), acts);
    assert [] + Begun(acts) == Begun(acts);
    var s := Run(Start(adopted, n), acts);
    forall i | 0 <= i < |s.sessions| ensures SessionAllowed(Begun(acts), s.sessions[i]) {}
  }

  /** And a session about to run or to commit a migration in a call is in a call that accepted the table it read,
      ships the migration and, if it is destructive, allows it. */
  lemma {:induction false} EachCallIsAllowed(adopted: Rows, n: nat, acts: seq<Action>, a: Action)
    requires CanRun(Start(adopted, n), acts) && Enabled(Run(Start(adopted, n), acts), a)
    requires a.RunSql? || a.Commit? || a.CommitLost?
    ensures var p := Run(Start(adopted, n), acts).sessions[a.i].phase;
            && p.Migrating? && p.call.ApplyCall? && Accepted(p.call, p.seen)
            && p.k < |p.plan| && p.plan[p.k] in p.call.shipped
            && (a.RunSql? || Run(Start(adopted, n), acts).sessions[a.i].tx == Full(p.plan[p.k]))
            && (p.plan[p.k].destructive ==> p.call.allowDestructive)
  {
    hide Enabled, Step, SessionsOk, SessionAllowed, Open, Accounted;
    StartInv(adopted, n);
    RunKeepsInv(adopted, Start(adopted, n), acts);
    NothingBegun(adopted, n);
    AllowedRun([], Start(adopted, n), acts);
    AllowedMove([] + Begun(acts), adopted, Run(Start(adopted, n), acts), a);
  }

  lemma AllowedMove(calls: seq<Call>, adopted: Rows, s: System, a: Action)
    requires AllAllowed(calls, s) && SessionsOk(adopted, s) && Enabled(s, a)
    requires a.RunSql? || a.Commit? || a.CommitLost?
    ensures var p := s.sessions[a.i].phase;
            && p.Migrating? && p.call.ApplyCall? && Accepted(p.call, p.seen)
            && p.k < |p.plan| && p.plan[p.k] in p.call.shipped
            && (a.RunSql? || s.sessions[a.i].tx == Full(p.plan[p.k]))
            && (p.plan[p.k].destructive ==> p.call.allowDestructive)
  {
    assert SessionAllowed(calls, s.sessions[a.i]) && SessionOk(adopted, s, a.i);
    hide AllAllowed, SessionsOk, Outstanding, Allowed, Contiguous, Accepted;
  }

  // ---- each migration once -----------------------------------------------------------------------

  // Not an interruption between a migration's SQL and its row that leaves the transaction open.
  ghost predicate Whole(s: System, a: Action)
    requires Enabled(s, a)
  {
    a.Interrupt? ==> a.aborts || !s.sessions[a.i].tx.Half?
  }

  ghost predicate WholeRun(s: System, acts: seq<Action>)
    requires CanRun(s, acts)
    decreases |acts|
  {
    acts == [] || (Whole(s, acts[0]) && WholeRun(Step(s, acts[0]), acts[1..]))
  }

  ghost predicate HalfInside(s: System) {
    s.torn == [] && forall i | 0 <= i < |s.sessions| && s.sessions[i].tx.Half? :: s.sessions[i].phase.Migrating?
  }

  lemma WholeStep(s: System, a: Action)
    requires HalfInside(s) && Enabled(s, a) && Whole(s, a)
    ensures HalfInside(Step(s, a))
  {
    var after := Step(s, a);
    hide AfterRead;
    assert forall j | 0 <= j < |after.sessions| && j != a.i :: after.sessions[j] == s.sessions[j];
  }

  lemma {:induction false} WholeRunKeeps(s: System, acts: seq<Action>)
    requires HalfInside(s) && CanRun(s, acts) && WholeRun(s, acts)
    ensures HalfInside(Run(s, acts))
    decreases |acts|
  {
    if acts != [] {
      WholeStep(s, acts[0]);
      hide HalfInside, Step, Enabled, Whole;
      WholeRunKeeps(Step(s, acts[0]), acts[1..]);
    }
  }

  /** Any number of sessions, any interleaving, failing migrations, lost commits, failed unlocks, dropped
      connections: each migration's SQL is committed at most once, and there is a row exactly for what was
      committed here or adopted. */
  lemma EachMigrationOnce(adopted: Rows, n: nat, acts: seq<Action>)
    requires CanRun(Start(adopted, n), acts) && WholeRun(Start(adopted, n), acts)
    ensures Consistent(adopted, Run(Start(adopted, n), acts))
  {
    WholeRunKeeps(Start(adopted, n), acts);
    var s := Run(Start(adopted, n), acts);
    assert Reachable(adopted, s);
    ConsistentIffNotTorn(adopted, s);
  }

  lemma {:induction false} Then(s: System, acts: seq<Action>, a: Action)
    requires CanRun(s, acts) && Enabled(Run(s, acts), a)
    ensures CanRun(s, acts + [a]) && Run(s, acts + [a]) == Step(Run(s, acts), a)
    decreases |acts|
  {
    if acts == [] {
      assert acts + [a] == [a] && [a][1..] == [];
      hide Step, Enabled;
    } else {
      assert (acts + [a])[1..] == acts[1..] + [a];
      hide Step, Enabled;
      Then(Step(s, acts[0]), acts[1..], a);
    }
  }

  function Lone(rows: Rows, log: seq<nat>, recorded: seq<nat>, torn: seq<nat>, locked: bool, p: Phase, tx: Tx): System {
    System(rows, log, recorded, torn, if locked then Some(Lock(0, 1)) else None, [Session(p, tx)])
  }

  lemma FirstRead(m: Migration, call: Call)
    requires call == ApplyCall([m], false, true) && !m.destructive
    ensures AfterRead(call, map[]) == Migrating(call, map[], [m], 0)
  {
    var none: Rows := map[];
    assert [m][1..] == [];
    assert Outstanding([m], none) == [m];
    assert !Ahead([m], none) && !Drifted([m], none) && !AnyDestructive([m]);
  }

  /** One interruption after a migration's SQL and before its row: giving up the lock commits the migration
      unrecorded, and the next run commits it again. */
  lemma InterruptionTears() returns (acts: seq<Action>, again: seq<Action>)
    ensures CanRun(Start(map[], 1), acts) && CanRun(Start(map[], 1), again)
    ensures Run(Start(map[], 1), acts).log == [1] && Run(Start(map[], 1), acts).rows == map[]
    ensures Run(Start(map[], 1), again).log == [1, 1]
  {
    var start := Start(map[], 1);
    var m := Migration(1, "sum", false);
    var call := ApplyCall([m], false, true);
    var at0 := Migrating(call, map[], [m], 0);
    assert Contiguous([m]) && CanRun(start, []) && Run(start, []) == start;
    hide Run, CanRun, AfterRead, Outstanding, Contiguous;
    FirstRead(m, call);
    assert start == Lone(map[], [], [], [], false, Idle, Clean);
    acts := Taken(start, [], call, map[], [], [], at0);
    acts := GivenUp(start, acts, map[], [], [], at0);
    again := Taken(start, acts, call, map[], [1], [1], at0);
    again := Finished(start, again, map[], [1], [1], at0);
  }

  // A lone session calls, locks, reads and runs the first migration's SQL.
  lemma Taken(start: System, acts: seq<Action>, call: Call, rows: Rows, log: seq<nat>, torn: seq<nat>, at: Phase)
    returns (more: seq<Action>)
    requires CanRun(start, acts) && Run(start, acts) == Lone(rows, log, [], torn, false, Idle, Clean)
    requires Contiguous(call.shipped) && AfterRead(call, rows) == at && at.Migrating? && at.k == 0 && |at.plan| > 0
    ensures CanRun(start, more)
    ensures Run(start, more) == Lone(rows, log, [], torn, true, at, Half(at.plan[0]))
  {
    hide Run, CanRun, AfterRead, Contiguous;
    Then(start, acts, Begin(0, call));
    more := acts + [Begin(0, call)];
    Then(start, more, Acquire(0));
    more := more + [Acquire(0)];
    Then(start, more, Read(0));
    more := more + [Read(0)];
    Then(start, more, RunSql(0));
    more := more + [RunSql(0)];
  }

  // The session above is interrupted: it unlocks and commits what it has.
  lemma GivenUp(start: System, acts: seq<Action>, rows: Rows, log: seq<nat>, torn: seq<nat>, at: Phase)
    returns (more: seq<Action>)
    requires at.Migrating? && |at.plan| > 0
    requires CanRun(start, acts) && Run(start, acts) == Lone(rows, log, [], torn, true, at, Half(at.plan[0]))
    ensures CanRun(start, more)
    ensures Run(start, more) ==
            Lone(rows, log + [at.plan[0].version], [], torn + [at.plan[0].version], false, Idle, Clean)
  {
    hide Run, CanRun, AfterRead;
    Then(start, acts, Interrupt(0, false));
    more := acts + [Interrupt(0, false)];
    Then(start, more, Unlock(0));
    more := more + [Unlock(0)];
    Then(start, more, Settle(0));
    more := more + [Settle(0)];
  }

  // Or it goes on to commit.
  lemma Finished(start: System, acts: seq<Action>, rows: Rows, log: seq<nat>, torn: seq<nat>, at: Phase)
    returns (more: seq<Action>)
    requires at.Migrating? && |at.plan| > 0 && at.plan[0].version !in rows
    requires CanRun(start, acts) && Run(start, acts) == Lone(rows, log, [], torn, true, at, Half(at.plan[0]))
    ensures CanRun(start, more) && Run(start, more).log == log + [at.plan[0].version]
  {
    hide Run, CanRun, AfterRead;
    Then(start, acts, InsertRow(0));
    more := acts + [InsertRow(0)];
    Then(start, more, Commit(0));
    more := more + [Commit(0)];
  }
}
