// Any number of migrators sharing one database, interleaved statement by statement.
module MigratorProtocol {
  import opened Base
  import opened Migrator

  datatype Call =
    | ApplyCall(shipped: seq<Migration>, allowDestructive: bool, verify: bool)
    | StatusCall(shipped: seq<Migration>, verify: bool)

  /** How a call ends, while the lock is still held. `InDoubt` is a commit that took effect and whose
      acknowledgement was lost. */
  datatype Ending = Returned(result: Result) | InDoubt(at: nat) | Interrupted | ReadFailed

  /** Where a session is in a call. `seen` is the state table as the call read it, `plan` what it found
      outstanding and `k` how many of those it has committed. */
  datatype Phase =
    | Idle
    | Waiting(call: Call)
    | Holding(call: Call)
    | Migrating(call: Call, seen: Rows, plan: seq<Migration>, k: nat)
    | Leaving(call: Call, ending: Ending, seen: Rows, plan: seq<Migration>, k: nat)
    | Unlocked
    | Gone

  /** The session's open transaction: `Half` has run a migration's SQL, `Full` has also inserted its row. */
  datatype Tx = Clean | Half(m: Migration) | Full(m: Migration) | Aborted

  datatype Session = Session(phase: Phase, tx: Tx)

  /** The session-level advisory lock, which its holder may take again. */
  datatype Lock = Lock(holder: nat, count: nat)

  /** `log` is every migration whose SQL was committed, `recorded` those committed with their row and
      `torn` those committed without. */
  datatype System = System(
    rows: Rows, log: seq<nat>, recorded: seq<nat>, torn: seq<nat>, lock: Option<Lock>, sessions: seq<Session>)

  datatype Action =
    | Begin(i: nat, call: Call)
    | Acquire(i: nat)
    | Read(i: nat)
    | ReadFails(i: nat)
    | RunSql(i: nat)
    | InsertRow(i: nat)
    | Commit(i: nat)
    | CommitLost(i: nat)
    | Fail(i: nat)
    | Finish(i: nat)
    | Interrupt(i: nat, aborts: bool)
    | DropOut(i: nat)
    | Unlock(i: nat)
    | UnlockFails(i: nat)
    | Settle(i: nat)
    | SettleFails(i: nat)
    | RollBack(i: nat)
    | Disconnect(i: nat)

  function Start(adopted: Rows, sessions: nat): System {
    System(adopted, [], [], [], None, seq(sessions, i => Session(Idle, Clean)))
  }

  predicate Inside(p: Phase) { p.Holding? || p.Migrating? || p.Leaving? }

  predicate Open(tx: Tx) { tx.Half? || tx.Full? }

  predicate LockFree(s: System, i: nat) { s.lock.None? || s.lock.value.holder == i }

  ghost predicate Enabled(s: System, a: Action) {
    a.i < |s.sessions| &&
    var me := s.sessions[a.i];
    match a
    case Begin(_, call) => me.phase.Idle? && Contiguous(call.shipped)
    case Acquire(i) => me.phase.Waiting? && LockFree(s, i) && !me.tx.Aborted?
    case Read(_) => me.phase.Holding?
    case ReadFails(_) => me.phase.Holding?
    case RunSql(_) => me.phase.Migrating? && me.phase.k < |me.phase.plan| && me.tx.Clean?
    // The state table's key: a row that is there, or that another open transaction has inserted, is in the way.
    case InsertRow(i) =>
      me.phase.Migrating? && me.tx.Half? && me.tx.m.version !in s.rows &&
      forall j | 0 <= j < |s.sessions| && s.sessions[j].tx.Full? :: s.sessions[j].tx.m.version != me.tx.m.version
    case Commit(_) => me.phase.Migrating? && me.tx.Full?
    case CommitLost(_) => me.phase.Migrating? && me.tx.Full?
    case Fail(_) => me.phase.Migrating? && me.phase.k < |me.phase.plan|
    case Finish(_) => me.phase.Migrating? && me.phase.k == |me.phase.plan|
    case Interrupt(_, _) => me.phase.Holding? || me.phase.Migrating?
    case DropOut(_) => me.phase.Waiting? || me.phase.Holding?
    case Unlock(_) => me.phase.Leaving? && !me.tx.Aborted?
    case UnlockFails(_) => me.phase.Leaving?
    case Settle(_) => me.phase.Unlocked?
    case SettleFails(_) => me.phase.Unlocked?
    case RollBack(_) => me.phase.Idle?
    case Disconnect(_) => true
  }

  // Committing a session's open transaction.
  function Committed(s: System, i: nat): System
    requires i < |s.sessions|
  {
    var me := s.sessions[i];
    var after := s.(sessions := s.sessions[i := me.(tx := Clean)]);
    match me.tx
    case Half(m) => after.(log := s.log + [m.version], torn := s.torn + [m.version])
    case Full(m) =>
      after.(log := s.log + [m.version], recorded := s.recorded + [m.version],
             rows := s.rows[m.version := Some(m.checksum)])
    case _ => after
  }

  function Put(s: System, i: nat, phase: Phase, tx: Tx): System
    requires i < |s.sessions|
  {
    s.(sessions := s.sessions[i := Session(phase, tx)])
  }

  // Where reading `rows` takes a call.
  function AfterRead(call: Call, rows: Rows): Phase {
    var refusal := Refusal(call.shipped, rows, call.verify);
    var plan := Outstanding(call.shipped, rows);
    if refusal.Some? then Leaving(call, Returned(refusal.value), rows, [], 0)
    else if call.StatusCall? then Leaving(call, Returned(Described(Done(call.shipped, rows), plan)), rows, [], 0)
    else if !call.allowDestructive && AnyDestructive(plan) then Leaving(call, Returned(Destructive), rows, [], 0)
    else Migrating(call, rows, plan, 0)
  }

  function Release(lock: Option<Lock>, i: nat): Option<Lock> {
    if lock.None? || lock.value.holder != i then lock
    else if lock.value.count <= 1 then None
    else Some(Lock(i, lock.value.count - 1))
  }

  function Step(s: System, a: Action): System
    requires Enabled(s, a)
  {
    var i := a.i;
    var me := s.sessions[i];
    match a
    case Begin(_, call) => Put(s, i, Waiting(call), me.tx)
    case Acquire(_) =>
      var taken := Some(Lock(i, if s.lock.None? then 1 else s.lock.value.count + 1));
      Put(Committed(s, i), i, Holding(me.phase.call), Clean).(lock := taken)
    case Read(_) => Put(s, i, AfterRead(me.phase.call, s.rows), Clean)
    case ReadFails(_) => Put(s, i, Leaving(me.phase.call, ReadFailed, s.rows, [], 0), Aborted)
    case RunSql(_) => Put(s, i, me.phase, Half(me.phase.plan[me.phase.k]))
    case InsertRow(_) => Put(s, i, me.phase, Full(me.tx.m))
    case Commit(_) =>
      var p := me.phase;
      Put(Committed(s, i), i, Migrating(p.call, p.seen, p.plan, p.k + 1), Clean)
    case CommitLost(_) =>
      var p := me.phase;
      Put(Committed(s, i), i, Leaving(p.call, InDoubt(me.tx.m.version), p.seen, p.plan, p.k + 1), Clean)
    case Fail(_) =>
      var p := me.phase;
      Put(s, i, Leaving(p.call, Returned(Failed(p.plan[p.k].version)), p.seen, p.plan, p.k), Clean)
    case Finish(_) =>
      var p := me.phase;
      Put(s, i, Leaving(p.call, Returned(Applied(p.plan)), p.seen, p.plan, p.k), Clean)
    // Nothing rolls back here: only ordinary exceptions do.
    case Interrupt(_, aborts) =>
      var p := me.phase;
      Put(s, i, if p.Migrating? then Leaving(p.call, Interrupted, p.seen, p.plan, p.k)
                else Leaving(p.call, Interrupted, s.rows, [], 0),
          if aborts then Aborted else me.tx)
    case DropOut(_) => Put(s, i, Idle, me.tx)
    case Unlock(_) => Put(s, i, Unlocked, me.tx).(lock := Release(s.lock, i))
    case UnlockFails(_) => Put(s, i, Idle, me.tx)
    case Settle(_) => Put(Committed(s, i), i, Idle, Clean)
    case SettleFails(_) => Put(s, i, Idle, Aborted)
    case RollBack(_) => Put(s, i, Idle, Clean)
    case Disconnect(_) =>
      Put(s, i, Gone, Clean).(lock := if s.lock.Some? && s.lock.value.holder == i then None else s.lock)
  }

  ghost predicate CanRun(s: System, acts: seq<Action>)
    decreases |acts|
  {
    acts == [] || (Enabled(s, acts[0]) && CanRun(Step(s, acts[0]), acts[1..]))
  }

  function Run(s: System, acts: seq<Action>): System
    requires CanRun(s, acts)
    decreases |acts|
  {
    if acts == [] then s else Run(Step(s, acts[0]), acts[1..])
  }

  // ---- what every step keeps -------------------------------------------------------------------

  ghost predicate Distinct(vs: seq<nat>) {
    forall v :: multiset(vs)[v] <= 1
  }

  // The state table holds the adopted rows and the recorded migrations; everything run is recorded or torn.
  ghost predicate Accounted(adopted: Rows, s: System) {
    && Distinct(s.recorded)
    && (forall v :: v in s.rows <==> v in adopted || v in s.recorded)
    && (forall v | v in s.recorded :: v !in adopted)
    && (forall v | v in s.torn :: v !in adopted)
    && multiset(s.log) == multiset(s.recorded) + multiset(s.torn)
  }

  ghost predicate SessionOk(adopted: Rows, s: System, i: nat)
    requires i < |s.sessions|
  {
    var me := s.sessions[i];
    && (Inside(me.phase) ==> s.lock.Some? && s.lock.value.holder == i && s.lock.value.count >= 1)
    && (Open(me.tx) ==> me.tx.m.version !in adopted)
    && (me.tx.Full? ==> me.tx.m.version !in s.rows)
    && (me.phase.Holding? ==> me.tx.Clean?)
    && (me.phase.Migrating? ==>
          && !me.tx.Aborted? && me.phase.k <= |me.phase.plan|
          && me.phase.plan == Outstanding(me.phase.call.shipped, me.phase.seen)
          && (forall m | m in me.phase.plan :: m.version !in adopted)
          && (Open(me.tx) ==> me.phase.k < |me.phase.plan| && me.tx.m == me.phase.plan[me.phase.k]))
  }

  ghost predicate SessionsOk(adopted: Rows, s: System) {
    && (forall i | 0 <= i < |s.sessions| :: SessionOk(adopted, s, i))
    && (forall i, j | 0 <= i < j < |s.sessions| && s.sessions[i].tx.Full? && s.sessions[j].tx.Full? ::
          s.sessions[i].tx.m.version != s.sessions[j].tx.m.version)
  }

  ghost predicate Inv(adopted: Rows, s: System) { Accounted(adopted, s) && SessionsOk(adopted, s) }

  lemma CommittedAccounted(adopted: Rows, s: System, i: nat)
    requires i < |s.sessions| && Inv(adopted, s)
    ensures Accounted(adopted, Committed(s, i))
  {
    var a := Committed(s, i);
    assert SessionOk(adopted, s, i);
    if s.sessions[i].tx.Full? {
      assert a.recorded == s.recorded + [s.sessions[i].tx.m.version];
    }
  }

  lemma CommittedSessions(adopted: Rows, s: System, i: nat)
    requires i < |s.sessions| && Inv(adopted, s)
    ensures SessionsOk(adopted, Committed(s, i))
  {
    hide Accounted, Outstanding;
    var a := Committed(s, i);
    forall j | 0 <= j < |a.sessions| ensures SessionOk(adopted, a, j) {
      assert SessionOk(adopted, s, i) && SessionOk(adopted, s, j);
    }
  }

  // One session moves, and the lock only in its favour or when nobody else is inside.
  lemma PutKeeps(adopted: Rows, s: System, i: nat, phase: Phase, tx: Tx, lock: Option<Lock>)
    requires i < |s.sessions| && Inv(adopted, s)
    requires SessionOk(adopted, Put(s, i, phase, tx).(lock := lock), i)
    requires lock == s.lock || forall j | 0 <= j < |s.sessions| && j != i :: !Inside(s.sessions[j].phase)
    requires tx.Full? ==> forall j | 0 <= j < |s.sessions| && j != i && s.sessions[j].tx.Full? ::
                            s.sessions[j].tx.m.version != tx.m.version
    ensures Inv(adopted, Put(s, i, phase, tx).(lock := lock))
  {
    hide Outstanding, Distinct;
    var a := Put(s, i, phase, tx).(lock := lock);
    forall j | 0 <= j < |a.sessions| ensures SessionOk(adopted, a, j) {
      assert SessionOk(adopted, s, j);
    }
  }

  lemma {:induction false} OutstandingFresh(shipped: seq<Migration>, rows: Rows)
    ensures forall m | m in Outstanding(shipped, rows) :: m.version !in rows
  {
    if shipped != [] {
      OutstandingFresh(shipped[1..], rows);
    }
  }

  // Whoever holds the lock, or may take it, is the only one who can be inside.
  lemma OthersOutside(adopted: Rows, s: System, i: nat)
    requires i < |s.sessions| && SessionsOk(adopted, s) && LockFree(s, i)
    ensures forall j | 0 <= j < |s.sessions| && j != i :: !Inside(s.sessions[j].phase)
  {
    forall j | 0 <= j < |s.sessions| && j != i ensures !Inside(s.sessions[j].phase) {
      assert SessionOk(adopted, s, j);
    }
  }

  predicate Commits(a: Action) { a.Acquire? || a.Commit? || a.CommitLost? || a.Settle? }

  lemma CommittingSession(adopted: Rows, s: System, a: Action)
    requires Inv(adopted, s) && Enabled(s, a) && Commits(a)
    ensures SessionOk(adopted, Step(s, a), a.i)
    ensures Step(s, a) == Put(Committed(s, a.i), a.i, Step(s, a).sessions[a.i].phase, Clean).(lock := Step(s, a).lock)
  {
    assert SessionOk(adopted, s, a.i);
    hide Accounted, Outstanding, SessionsOk, AfterRead;
  }

  lemma CommittingStep(adopted: Rows, s: System, a: Action)
    requires Inv(adopted, s) && Enabled(s, a) && Commits(a)
    ensures Inv(adopted, Step(s, a))
  {
    var i := a.i;
    CommittedAccounted(adopted, s, i);
    CommittedSessions(adopted, s, i);
    LockChangesHands(adopted, s, a);
    CommittingSession(adopted, s, a);
    hide Accounted, Outstanding, SessionsOk, SessionOk, Enabled, Step;
    var base := Committed(s, i);
    assert base.lock == s.lock && |base.sessions| == |s.sessions|;
    assert forall j | 0 <= j < |s.sessions| && j != i :: base.sessions[j] == s.sessions[j];
    hide Committed;
    PutKeeps(adopted, base, i, Step(s, a).sessions[i].phase, Clean, Step(s, a).lock);
  }

  lemma LocalStep(adopted: Rows, s: System, a: Action)
    requires Inv(adopted, s) && Enabled(s, a) && !Commits(a)
    ensures Inv(adopted, Step(s, a))
  {
    var i := a.i;
    var after := Step(s, a);
    assert SessionOk(adopted, s, i);
    if a.Read? {
      OutstandingFresh(s.sessions[i].phase.call.shipped, s.rows);
    }
    LockChangesHands(adopted, s, a);
    hide Outstanding, SessionsOk, Distinct, Refusal, Done;
    PutKeeps(adopted, s, i, after.sessions[i].phase, after.sessions[i].tx, after.lock);
  }

  lemma {:induction false} RunKeepsInv(adopted: Rows, s: System, acts: seq<Action>)
    requires Inv(adopted, s) && CanRun(s, acts)
    ensures Inv(adopted, Run(s, acts))
    decreases |acts|
  {
    if acts != [] {
      if Commits(acts[0]) {
        CommittingStep(adopted, s, acts[0]);
      } else {
        LocalStep(adopted, s, acts[0]);
      }
      hide Inv, Step, Enabled;
      RunKeepsInv(adopted, Step(s, acts[0]), acts[1..]);
    }
  }

  lemma StartInv(adopted: Rows, n: nat)
    ensures Inv(adopted, Start(adopted, n))
  {
  }

  // A step moves the lock only when nobody else is inside.
  lemma LockChangesHands(adopted: Rows, s: System, a: Action)
    requires Inv(adopted, s) && Enabled(s, a)
    ensures Step(s, a).lock == s.lock || forall j | 0 <= j < |s.sessions| && j != a.i :: !Inside(s.sessions[j].phase)
  {
    assert SessionOk(adopted, s, a.i);
    if a.Acquire? || (s.lock.Some? && s.lock.value.holder == a.i) {
      OthersOutside(adopted, s, a.i);
    }
  }

  // ---- all runs --------------------------------------------------------------------------------

  ghost predicate Reachable(adopted: Rows, s: System) {
    exists n, acts :: CanRun(Start(adopted, n), acts) && s == Run(Start(adopted, n), acts)
  }

  lemma ReachableInv(adopted: Rows, s: System)
    requires Reachable(adopted, s)
    ensures Inv(adopted, s)
  {
    var n, acts :| CanRun(Start(adopted, n), acts) && s == Run(Start(adopted, n), acts);
    StartInv(adopted, n);
    RunKeepsInv(adopted, Start(adopted, n), acts);
  }

  /** The lock does its work: two sessions are never both between taking it and giving it up, failed unlocks,
      lost connections and interruptions included. */
  lemma OneInsideAtATime(adopted: Rows, s: System, i: nat, j: nat)
    requires Reachable(adopted, s) && i < j < |s.sessions|
    ensures !(Inside(s.sessions[i].phase) && Inside(s.sessions[j].phase))
  {
    ReachableInv(adopted, s);
    assert SessionOk(adopted, s, i) && SessionOk(adopted, s, j);
  }

  // What the one-transaction rule promises: each migration's SQL is committed at most once, and there is a
  // row exactly for what was committed here or adopted.
  ghost predicate Consistent(adopted: Rows, s: System) {
    && Distinct(s.log)
    && (forall v | v in s.log :: v !in adopted)
    && (forall v :: v in s.rows <==> v in adopted || v in s.log)
  }

  // The promise holds exactly as long as no migration was torn.
  lemma ConsistentIffNotTorn(adopted: Rows, s: System)
    requires Reachable(adopted, s)
    ensures Consistent(adopted, s) <==> s.torn == []
  {
    ReachableInv(adopted, s);
    if s.torn == [] {
      assert multiset(s.log) == multiset(s.recorded);
      assert forall v :: v in s.log <==> v in multiset(s.log);
      assert forall v :: v in s.recorded <==> v in multiset(s.recorded);
    } else {
      var v := s.torn[0];
      assert multiset(s.torn)[v] >= 1;
      assert multiset(s.log)[v] == multiset(s.recorded)[v] + multiset(s.torn)[v];
      if v in s.rows {
        assert v in s.recorded;
      }
    }
  }

  // ---- exactly which runs break it -----------------------------------------------------------------

  // The session commits what it has open, and that is a migration's SQL without its row: taking the lock and
  // settling after giving it up both commit.
  predicate Tears(s: System, a: Action) {
    (a.Acquire? || a.Settle?) && a.i < |s.sessions| && s.sessions[a.i].tx.Half?
  }

  ghost predicate NeverTears(s: System, acts: seq<Action>)
    requires CanRun(s, acts)
    decreases |acts|
  {
    acts == [] || (!Tears(s, acts[0]) && NeverTears(Step(s, acts[0]), acts[1..]))
  }

  lemma TearingStep(adopted: Rows, s: System, a: Action)
    requires Inv(adopted, s) && Enabled(s, a)
    ensures s.torn <= Step(s, a).torn && (Tears(s, a) <==> Step(s, a).torn != s.torn)
  {
    assert SessionOk(adopted, s, a.i);
    hide Accounted, SessionsOk, SessionOk, AfterRead, Outstanding;
  }

  lemma {:induction false} TornByTearing(adopted: Rows, s: System, acts: seq<Action>)
    requires Inv(adopted, s) && CanRun(s, acts)
    ensures s.torn <= Run(s, acts).torn && (NeverTears(s, acts) <==> Run(s, acts).torn == s.torn)
    decreases |acts|
  {
    if acts != [] {
      var next := Step(s, acts[0]);
      TearingStep(adopted, s, acts[0]);
      assert CanRun(s, [acts[0]]) by { assert [acts[0]][1..] == []; }
      RunKeepsInv(adopted, s, [acts[0]]);
      assert Run(s, [acts[0]]) == next by { assert [acts[0]][1..] == []; }
      hide Inv, Step, Enabled, Tears;
      TornByTearing(adopted, next, acts[1..]);
    }
  }

  /** Exactly the runs that keep the promise: each migration's SQL is committed at most once, and there is a row
      exactly for what was committed or adopted, if and only if no session takes the lock, or settles after
      giving it up, with a migration's SQL run and its row not yet inserted. */
  lemma ConsistentIff(adopted: Rows, n: nat, acts: seq<Action>)
    requires CanRun(Start(adopted, n), acts)
    ensures Consistent(adopted, Run(Start(adopted, n), acts)) <==> NeverTears(Start(adopted, n), acts)
  {
    StartInv(adopted, n);
    TornByTearing(adopted, Start(adopted, n), acts);
    assert Reachable(adopted, Run(Start(adopted, n), acts));
    ConsistentIffNotTorn(adopted, Run(Start(adopted, n), acts));
  }
}
