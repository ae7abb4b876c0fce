// Exactly when the plan's promise holds, and what a reconciliation can and cannot do to stored data.
module ReconcileLimits {
  import opened Base
  import opened Catalog
  import opened Reconcile
  import opened Shares
  import opened TableSettling
  import opened Convergence

  // ---- where a statement of the plan comes from -------------------------------------------

  // Some relation of `rs` proposes `d`.
  ghost predicate OwnedBySome(rs: seq<Relation>, db: Schema, baseline: Option<string>, d: Discrepancy) {
    exists r :: r in rs && OwnedItem(r, Find(db, r.name), baseline, d)
  }

  lemma OwnedBySomeMore(
    rs: seq<Relation>, db: Schema, baseline: Option<string>, before: seq<Discrepancy>, here: seq<Discrepancy>)
    requires rs != [] && AllOwned(rs[|rs| - 1], Find(db, rs[|rs| - 1].name), baseline, here)
    requires forall d | d in before :: OwnedBySome(rs[..|rs| - 1], db, baseline, d)
    ensures forall d | d in before + here :: OwnedBySome(rs, db, baseline, d)
  {
    hide OwnedItem;
    forall d | d in before + here ensures OwnedBySome(rs, db, baseline, d) {
      if d in before {
        var q :| q in rs[..|rs| - 1] && OwnedItem(q, Find(db, q.name), baseline, d);
        assert q in rs;
      } else {
        assert d in here && rs[|rs| - 1] in rs;
      }
    }
  }

  lemma {:induction false} PlanOwned(
    sem: Semantics, ref: Reference, rs: seq<Relation>, db: Schema, baseline: Option<string>, ds: seq<Discrepancy>)
    requires PlanOver(sem, ref, rs, db, baseline) == Some(ds)
    ensures forall d | d in ds :: OwnedBySome(rs, db, baseline, d)
    ensures forall r | r in rs ::
              RelationDiscrepancies(sem, ref, r, db, baseline).Some? &&
              forall d | d in RelationDiscrepancies(sem, ref, r, db, baseline).value :: d in ds
    decreases |rs|
  {
    hide RelationDiscrepancies, OwnedItem;
    if rs != [] {
      var r := rs[|rs| - 1];
      var before := PlanOver(sem, ref, rs[..|rs| - 1], db, baseline).value;
      var here := RelationDiscrepancies(sem, ref, r, db, baseline).value;
      PlanOwned(sem, ref, rs[..|rs| - 1], db, baseline, before);
      RelationOwned(sem, ref, r, db, baseline, here);
      assert ds == before + here;
      OwnedBySomeMore(rs, db, baseline, before, here);
      forall q | q in rs
        ensures RelationDiscrepancies(sem, ref, q, db, baseline).Some?
        ensures forall d | d in RelationDiscrepancies(sem, ref, q, db, baseline).value :: d in ds
      {
        if q !in rs[..|rs| - 1] { assert q == r; }
      }
    }
  }

  lemma {:induction false} StatementsOwned(
    sem: Semantics, ref: Reference, db: Schema, baseline: Option<string>, s: Statement) returns (r: Relation)
    requires PlanOf(sem, ref, db, baseline).Some? && s in Statements(PlanOf(sem, ref, db, baseline).value)
    ensures r in ref.relations && Owned(r, Find(db, r.name), baseline, s)
  {
    hide Owned;
    var ds := PlanOf(sem, ref, db, baseline).value;
    var n := OrderedTablesFirst(ref.relations);
    PlanOwned(sem, ref, Ordered(ref.relations), db, baseline, ds);
    InStatements(ds);
    var d :| d in ds && s in d.statements;
    assert OwnedBySome(Ordered(ref.relations), db, baseline, d);
    r :| r in Ordered(ref.relations) && OwnedItem(r, Find(db, r.name), baseline, d);
  }

  // Whatever an all-automatic plan holds for the table `r` is on that table and within its bounds.
  lemma {:induction false} OnlyItsOwn(sem: Semantics, ref: Reference, r: Relation, db: Schema, baseline: Option<string>)
    requires DistinctRelations(ref.relations) && r in ref.relations && r.kind == Table && r.name in db.relations
    requires PlanOf(sem, ref, db, baseline).Some?
    ensures forall s | s in Statements(PlanOf(sem, ref, db, baseline).value) && s.table == r.name ::
              OnTable(r, db.relations[r.name], baseline, s)
  {
    hide OnTable, PlanOf;
    OnceEach(ref.relations);
    forall s | s in Statements(PlanOf(sem, ref, db, baseline).value) && s.table == r.name
      ensures OnTable(r, db.relations[r.name], baseline, s)
    {
      var q := StatementsOwned(sem, ref, db, baseline, s);
      if q.kind == Table { OnTableNamed(q, db, baseline, s); }
      assert q == r;
    }
  }

  lemma OnTableNamed(q: Relation, db: Schema, baseline: Option<string>, s: Statement)
    requires q.kind == Table && Owned(q, Find(db, q.name), baseline, s)
    ensures s.table == q.name
  {}

  // One relation's share of an all-automatic plan.
  lemma {:induction false} ShareOf(sem: Semantics, ref: Reference, r: Relation, db: Schema, baseline: Option<string>)
    returns (ds: seq<Discrepancy>)
    requires PlanOf(sem, ref, db, baseline).Some? && AllAutomatic(PlanOf(sem, ref, db, baseline).value)
    requires r in ref.relations
    ensures RelationDiscrepancies(sem, ref, r, db, baseline) == Some(ds) && AllAutomatic(ds)
    ensures AllOwned(r, Find(db, r.name), baseline, ds)
    ensures forall d, s | d in ds && s in d.statements :: s in Statements(PlanOf(sem, ref, db, baseline).value)
  {
    hide RelationDiscrepancies, OwnedItem;
    var plan := PlanOf(sem, ref, db, baseline).value;
    var n := OrderedTablesFirst(ref.relations);
    PlanOwned(sem, ref, Ordered(ref.relations), db, baseline, plan);
    ds := RelationDiscrepancies(sem, ref, r, db, baseline).value;
    RelationOwned(sem, ref, r, db, baseline, ds);
    InStatements(plan);
  }

  // ---- stored data ---------------------------------------------------------------------------

  /** Executing a plan removes no table, column or row and changes no stored cell; a cell that appears
      holds its column's constant default or NULL, the one fixed back-fill, or the operator's baseline. */
  lemma {:induction false} ReconciliationKeepsData(
    sem: Semantics, ref: Reference, db: Schema, baseline: Option<string>, table: string)
    requires DistinctRelations(ref.relations)
    requires db.relations.Keys <= db.names
    requires table in db.relations && db.relations[table].rel.kind == Table && RowsFit(db.relations[table])
    requires PlanOf(sem, ref, db, baseline).Some?
    requires ExecAll(sem, db, Statements(PlanOf(sem, ref, db, baseline).value)).Some?
    ensures var was := db.relations[table];
            var end := ExecAll(sem, db, Statements(PlanOf(sem, ref, db, baseline).value)).value;
            && table in end.relations && Keeps(was, end.relations[table])
            && forall i, n | 0 <= i < |was.rows| && n in end.relations[table].rows[i] && n !in was.rows[i] ::
                 exists r, c: Column ::
                   r in ref.relations && r.name == table && c.name == n && Filling(r, baseline, c)
                   && end.relations[table].rows[i][n] == c.Fill()
  {
    hide Filling, PlanOf;
    var ss := Statements(PlanOf(sem, ref, db, baseline).value);
    var was := db.relations[table];
    ExecutionKeepsData(sem, db, ss, table);
    var now := ExecAll(sem, db, ss).value.relations[table];
    forall i, n | 0 <= i < |was.rows| && n in now.rows[i] && n !in was.rows[i]
      ensures exists r, c: Column ::
                r in ref.relations && r.name == table && c.name == n && Filling(r, baseline, c)
                && now.rows[i][n] == c.Fill()
    {
      var s :| s in ss && s.AddColumn? && s.table == table && s.column.name == n && now.rows[i][n] == s.column.Fill();
      var r := StatementsOwned(sem, ref, db, baseline, s);
      assert Filling(r, baseline, s.column);
    }
  }

  // ---- statements that fail wherever in the batch they stand ---------------------------------------

  // An index's name is taken.
  lemma {:induction false} TakenNameFails(sem: Semantics, db: Schema, ss: seq<Statement>, i: nat)
    requires i < |ss| && ss[i].CreateIndex? && ss[i].index.name in db.names
    requires forall s | s in ss && s.DropView? :: s.table != ss[i].index.name
    ensures ExecAll(sem, db, ss).None?
    decreases i
  {
    if i > 0 && Exec(sem, db, ss[0]).Some? {
      assert ss[1..][i - 1] == ss[i];
      TakenNameFails(sem, Exec(sem, db, ss[0]).value, ss[1..], i - 1);
    }
  }

  // An index's name is that of a key, and nothing before drops the key.
  lemma {:induction false} KeyHeldFails(sem: Semantics, db: Schema, ss: seq<Statement>, i: nat, t: string)
    requires i < |ss| && ss[i].CreateIndex? && db.relations.Keys <= db.names
    requires t in db.relations && db.relations[t].keyName == Some(ss[i].index.name)
    requires forall s | s in ss && s.table == t :: TableStatement(s, t) && !s.DropConstraint?
    ensures ExecAll(sem, db, ss).None?
    decreases i
  {
    assert ss[0] in ss;
    if i == 0 {
      assert KeyNamed(db, ss[0].index.name);
    } else if Exec(sem, db, ss[0]).Some? {
      assert ss[1..][i - 1] == ss[i];
      KeyHeldStep(sem, db, ss[0], t);
      hide Exec;
      KeyHeldFails(sem, Exec(sem, db, ss[0]).value, ss[1..], i - 1, t);
    }
  }

  lemma KeyHeldStep(sem: Semantics, db: Schema, s: Statement, t: string)
    requires db.relations.Keys <= db.names && Exec(sem, db, s).Some?
    requires t in db.relations && db.relations[t].keyName.Some?
    requires s.table == t ==> TableStatement(s, t) && !s.DropConstraint?
    ensures var next := Exec(sem, db, s).value;
            && next.relations.Keys <= next.names
            && t in next.relations && next.relations[t].keyName == db.relations[t].keyName
  {
    hide NeedsMet, KeyNamed, NoCollision, DistinctOn, HasNulls, Satisfied, Filled;
  }

  // A view's name is that of a type.
  lemma {:induction false} TypeNameFails(sem: Semantics, db: Schema, ss: seq<Statement>, i: nat)
    requires i < |ss| && ss[i].CreateView? && ss[i].table in db.types
    ensures ExecAll(sem, db, ss).None?
    decreases i
  {
    hide ExecTable, NeedsMet;
    if i > 0 && Exec(sem, db, ss[0]).Some? {
      assert ss[1..][i - 1] == ss[i];
      TypeNameFails(sem, Exec(sem, db, ss[0]).value, ss[1..], i - 1);
    }
  }

  // What stands where the table should be does not take the statement.
  lemma {:induction false} NotTakenFails(sem: Semantics, db: Schema, ss: seq<Statement>, i: nat)
    requires i < |ss| && TableStatement(ss[i], ss[i].table)
    requires ss[i].table in db.relations && !Takes(db.relations[ss[i].table].rel.kind, ss[i])
    requires forall s | s in ss && s.table == ss[i].table :: TableStatement(s, s.table)
    ensures ExecAll(sem, db, ss).None?
    decreases i
  {
    assert ss[0] in ss;
    if i > 0 && Exec(sem, db, ss[0]).Some? {
      assert ss[1..][i - 1] == ss[i];
      if TableStatement(ss[0], ss[0].table) {
        KindStands(sem, db.relations[ss[0].table], ss[0]);
      }
      hide ExecTable;
      NotTakenFails(sem, Exec(sem, db, ss[0]).value, ss[1..], i - 1);
    }
  }

  lemma KindStands(sem: Semantics, l: Live, s: Statement)
    requires ExecTable(sem, l, s).Some?
    ensures ExecTable(sem, l, s).value.rel.kind == l.rel.kind
  {}

  // The rows, back-fills included, repeat under a UNIQUE index.
  lemma {:induction false} RepeatedRowsFail(
    sem: Semantics, r: Relation, baseline: Option<string>, db: Schema, ss: seq<Statement>, i: nat)
    requires i < |ss| && ss[i].CreateIndex? && ss[i].index.unique && ss[i].table == r.name
    requires db.relations.Keys <= db.names && r.name in db.relations
    requires db.relations[r.name].rel.kind == Table && RowsFit(db.relations[r.name]) && UniqueNames(r.columns)
    requires !NoCollision(Completed(r, db.relations[r.name], baseline, ss[i].index.columns), ss[i].index.columns)
    requires forall s | s in ss && s.AddColumn? && s.table == r.name :: Filling(r, baseline, s.column)
    ensures ExecAll(sem, db, ss).None?
  {
    hide Filling, NoCollision, Completed;
    ExecAllAppend(sem, db, ss[..i], ss[i..]);
    assert ss == ss[..i] + ss[i..] && ss[i..][0] == ss[i];
    if ExecAll(sem, db, ss[..i]).Some? {
      var live := db.relations[r.name];
      var mid := ExecAll(sem, db, ss[..i]).value;
      ExecutionKeepsData(sem, db, ss[..i], r.name);
      var now := mid.relations[r.name];
      KeepsItself(live);
      CompletedKept(r, live, baseline, live, now, ss[..i]);
      if HasColumns(now.rel, ss[i].index.columns) {
        CollisionsMatch(r, live, baseline, now, ss[i].index.columns);
      }
      assert ExecTable(sem, now, ss[i]).None?;
    }
  }

  lemma ColumnStaysAbsent(sem: Semantics, l: Live, s: Statement, name: string)
    requires Lookup(l.rel.columns, name).None? && (s.AddColumn? ==> s.column.name != name) && ExecTable(sem, l, s).Some?
    ensures Lookup(ExecTable(sem, l, s).value.rel.columns, name).None?
  {
    hide NoCollision, DistinctOn, HasNulls, Satisfied, Filled;
    match s
    case AddColumn(_, c) => LookupAppend(l.rel.columns, c.Plain(), name);
    case DropDefault(_, n) => LookupWithDefault(l.rel.columns, n, None, name);
    case SetDefault(_, n, d) => LookupWithDefault(l.rel.columns, n, Some(d), name);
    case SetNotNull(_, n) => LookupWithNotNull(l.rel.columns, [n], name);
    case AddPrimaryKey(_, key) => LookupWithNotNull(l.rel.columns, key, name);
    case _ =>
  }

  // The statement needs the column `name` of the table `t`.
  ghost predicate NeedsColumn(s: Statement, t: string, name: string) {
    || (s.CreateIndex? && s.table == t && name in s.index.columns)
    || (s.CreateView? && t in s.needs && name in s.needs[t])
  }

  // An index or a view needs a column that is not there and that nothing in the batch adds.
  lemma {:induction false} AbsentColumnFails(
    sem: Semantics, db: Schema, ss: seq<Statement>, i: nat, t: string, name: string)
    requires i < |ss| && NeedsColumn(ss[i], t, name)
    requires t in db.relations && Lookup(db.relations[t].rel.columns, name).None?
    requires forall s | s in ss && s.table == t :: TableStatement(s, t) && (s.AddColumn? ==> s.column.name != name)
    ensures ExecAll(sem, db, ss).None?
    decreases i
  {
    assert ss[0] in ss;
    if i == 0 {
      AbsentColumnFailsHere(sem, db, ss[0], t, name);
    } else if Exec(sem, db, ss[0]).Some? {
      hide ExecTable, NeedsColumn, NeedsMet;
      assert ss[1..][i - 1] == ss[i];
      if ss[0].table == t {
        ColumnStaysAbsent(sem, db.relations[t], ss[0], name);
      }
      AbsentColumnFails(sem, Exec(sem, db, ss[0]).value, ss[1..], i - 1, t, name);
    }
  }

  lemma AbsentColumnFailsHere(sem: Semantics, db: Schema, s: Statement, t: string, name: string)
    requires NeedsColumn(s, t, name) && t in db.relations && Lookup(db.relations[t].rel.columns, name).None?
    ensures Exec(sem, db, s).None?
  {}

  // A constraint is named like the primary key's while that key stands.
  lemma {:induction false} KeyNameClashFails(sem: Semantics, db: Schema, ss: seq<Statement>, i: nat)
    requires i < |ss| && ss[i].AddConstraint? && ss[i].table in db.relations
    requires db.relations[ss[i].table].keyName == Some(ss[i].constraint.name)
    requires forall s | s in ss && s.table == ss[i].table ::
               TableStatement(s, s.table) && !s.DropConstraint? && !s.AddPrimaryKey?
    ensures ExecAll(sem, db, ss).None?
    decreases i
  {
    assert ss[0] in ss;
    if i > 0 && Exec(sem, db, ss[0]).Some? {
      assert ss[1..][i - 1] == ss[i];
      KeyNameClashFails(sem, Exec(sem, db, ss[0]).value, ss[1..], i - 1);
    }
  }

  // ---- identity and generated columns ------------------------------------------------------------

  // Whatever executes, a column that is not ordinary keeps its kind and default, and none appears.
  ghost predicate KindsStand(was: seq<Column>, now: seq<Column>, name: string) {
    match Lookup(was, name)
    case None => Lookup(now, name).None? || Lookup(now, name).value.Ordinary()
    case Some(f) =>
      Lookup(now, name).Some? &&
      var g := Lookup(now, name).value;
      g.identity == f.identity && g.generated == f.generated && (!f.Ordinary() ==> g.default == f.default)
  }

  lemma AddedKindStands(cs: seq<Column>, c: Column, name: string)
    ensures KindsStand(cs, cs + [c.Plain()], name)
  {
    LookupAppend(cs, c.Plain(), name);
  }

  lemma AlteredKindStands(rel: Relation, n: string, d: Option<Default>, name: string)
    requires Alterable(rel, n)
    ensures KindsStand(rel.columns, WithDefault(rel.columns, n, d), name)
  {
    LookupWithDefault(rel.columns, n, d, name);
  }

  lemma NotNullKindStands(cs: seq<Column>, names: seq<string>, name: string)
    ensures KindsStand(cs, WithNotNull(cs, names), name)
  {
    LookupWithNotNull(cs, names, name);
  }

  lemma KindsStandStep(sem: Semantics, l: Live, s: Statement, name: string)
    requires ExecTable(sem, l, s).Some?
    ensures KindsStand(l.rel.columns, ExecTable(sem, l, s).value.rel.columns, name)
  {
    hide NoCollision, DistinctOn, HasNulls, Satisfied, Filled, WithDefault, WithNotNull, Lookup, Alterable;
    match s
    case AddColumn(_, c) => AddedKindStands(l.rel.columns, c, name);
    case DropDefault(_, n) => AlteredKindStands(l.rel, n, None, name);
    case SetDefault(_, n, d) => AlteredKindStands(l.rel, n, Some(d), name);
    case SetNotNull(_, n) => NotNullKindStands(l.rel.columns, [n], name);
    case AddPrimaryKey(_, key) => NotNullKindStands(l.rel.columns, key, name);
    case _ =>
  }

  lemma {:induction false} KindsStandThroughout(
    sem: Semantics, db: Schema, ss: seq<Statement>, table: string, name: string)
    requires db.relations.Keys <= db.names
    requires table in db.relations && db.relations[table].rel.kind == Table && ExecAll(sem, db, ss).Some?
    ensures var end := ExecAll(sem, db, ss).value;
            table in end.relations && end.relations[table].rel.kind == Table &&
            KindsStand(db.relations[table].rel.columns, end.relations[table].rel.columns, name)
    decreases ss
  {
    if ss != [] {
      var next := Exec(sem, db, ss[0]).value;
      if ss[0].table == table && !ss[0].DropView? && !ss[0].CreateView? {
        KindsStandStep(sem, db.relations[table], ss[0], name);
      }
      KindsStandThroughout(sem, next, ss[1..], table, name);
    }
  }

  // The default of an identity or a generated column is to be altered.
  lemma {:induction false} UnalterableDefaultFails(sem: Semantics, db: Schema, ss: seq<Statement>, i: nat)
    requires i < |ss| && (ss[i].SetDefault? || ss[i].DropDefault?) && db.relations.Keys <= db.names
    requires ss[i].table in db.relations && db.relations[ss[i].table].rel.kind == Table
    requires Lookup(db.relations[ss[i].table].rel.columns, ss[i].name).Some?
    requires !Lookup(db.relations[ss[i].table].rel.columns, ss[i].name).value.Ordinary()
    ensures ExecAll(sem, db, ss).None?
  {
    ExecAllAppend(sem, db, ss[..i], ss[i..]);
    assert ss == ss[..i] + ss[i..] && ss[i..][0] == ss[i];
    if ExecAll(sem, db, ss[..i]).Some? {
      KindsStandThroughout(sem, db, ss[..i], ss[i].table, ss[i].name);
    }
  }

  // ---- a plan that does not fit fails ----------------------------------------------------------------

  ghost predicate Planned(sem: Semantics, ref: Reference, db: Schema, baseline: Option<string>, ss: seq<Statement>) {
    && PlanOf(sem, ref, db, baseline).Some?
    && AllAutomatic(PlanOf(sem, ref, db, baseline).value)
    && ss == Statements(PlanOf(sem, ref, db, baseline).value)
  }

  lemma At(ss: seq<Statement>, s: Statement) returns (i: nat)
    requires s in ss
    ensures i < |ss| && ss[i] == s
  {
    i :| 0 <= i < |ss| && ss[i] == s;
  }

  lemma {:induction false} MissingIndexIsPlanned(
    sem: Semantics, ref: Reference, r: Relation, ix: Index, db: Schema, baseline: Option<string>, ss: seq<Statement>)
    requires Planned(sem, ref, db, baseline, ss)
    requires r in ref.relations && r.kind == Table && r.name in db.relations
    requires ix in r.indexes && MissingIndex(db.relations[r.name], ix)
    ensures CreateIndex(r.name, ix) in ss
  {
    hide PlanOf, TableDiscrepancies;
    var live := db.relations[r.name];
    var ds := ShareOf(sem, ref, r, db, baseline);
    ShapePlanned(sem, r, live, baseline, ds);
    IndexPlanned(r, r.indexes, ix, live);
    var d := IndexDiscrepancy(r.name, ix, live)[0];
    assert d in IndexDiscrepancy(r.name, ix, live);
    assert d.resolution == Automatic;
    assert CreateIndex(r.name, ix) in d.statements;
  }

  lemma {:induction false} MissingConstraintIsPlanned(
    sem: Semantics, ref: Reference, r: Relation, k: Constraint, db: Schema, baseline: Option<string>,
    ss: seq<Statement>)
    requires Planned(sem, ref, db, baseline, ss)
    requires r in ref.relations && r.kind == Table && r.name in db.relations
    requires k in r.constraints && !HasDefinition(db.relations[r.name].rel.constraints, k.definition)
    ensures AddConstraint(r.name, k) in ss
  {
    hide PlanOf, TableDiscrepancies;
    var live := db.relations[r.name];
    var ds := ShareOf(sem, ref, r, db, baseline);
    ShapePlanned(sem, r, live, baseline, ds);
    ConstraintPlanned(sem, r, r.constraints, k, live);
    var d := ConstraintDiscrepancy(sem, r.name, k, live)[0];
    assert d in ConstraintDiscrepancy(sem, r.name, k, live);
    assert d.resolution == Automatic;
    assert AddConstraint(r.name, k) in d.statements;
  }

  lemma {:induction false} DefaultIsPlanned(
    sem: Semantics, ref: Reference, r: Relation, c: Column, db: Schema, baseline: Option<string>, ss: seq<Statement>)
    returns (s: Statement)
    requires Planned(sem, ref, db, baseline, ss)
    requires r in ref.relations && r.kind == Table && r.name in db.relations
    requires c in r.columns && !Exempt(r.name, c.name)
    requires Lookup(db.relations[r.name].rel.columns, c.name).Some?
    requires Lookup(db.relations[r.name].rel.columns, c.name).value.default != c.default
    ensures s in ss && s.table == r.name && (s.SetDefault? || s.DropDefault?) && s.name == c.name
    ensures Lookup(db.relations[r.name].rel.columns, c.name).value.Ordinary() == c.Ordinary()
  {
    hide PlanOf, TableDiscrepancies;
    var live := db.relations[r.name];
    var found := Lookup(live.rel.columns, c.name).value;
    var ds := ShareOf(sem, ref, r, db, baseline);
    ShapePlanned(sem, r, live, baseline, ds);
    ColumnPlanned(r, r.columns, c, live, SkipFor(r, live));
    var here := ColumnDiscrepancies(r.name, c, live);
    forall d | d in here ensures d.resolution == Automatic { assert d in ds; }
    SameKind(r, c, live, found);
    var defaults := DefaultDiscrepancies(r.name, c, found);
    assert defaults[0] in here;
    s := defaults[0].statements[0];
  }

  lemma SameKind(r: Relation, c: Column, live: Live, found: Column)
    requires Lookup(live.rel.columns, c.name) == Some(found) && AllAutomatic(ColumnDiscrepancies(r.name, c, live))
    ensures found.generated == c.generated && found.identity == c.identity
    ensures ColumnDiscrepancies(r.name, c, live) ==
            NullabilityDiscrepancies(r.name, c, found, live.rows) + DefaultDiscrepancies(r.name, c, found)
  {
    hide NullabilityDiscrepancies, DefaultDiscrepancies;
    var ds := ColumnDiscrepancies(r.name, c, live);
    assert ds == [] || ds[0].resolution == Automatic;
  }

  lemma {:induction false} NewViewIsPlanned(
    sem: Semantics, ref: Reference, v: Relation, db: Schema, baseline: Option<string>, ss: seq<Statement>)
    requires Planned(sem, ref, db, baseline, ss)
    requires v in ref.relations && v.kind == View && ToCreate(v, db)
    ensures CreateView(v.name, v, NeedsOf(ref, v.name)) in ss
  {
    hide PlanOf, NeedsOf, ColumnNames;
    var ds := ShareOf(sem, ref, v, db, baseline);
    assert ds == ViewDiscrepancies(v, NeedsOf(ref, v.name), Find(db, v.name));
    assert ds[0] in ds;
    assert CreateView(v.name, v, NeedsOf(ref, v.name)) in ds[0].statements;
  }

  // The table `r` and its live counterpart, about to be changed by an all-automatic plan.
  ghost predicate AtTable(ref: Reference, r: Relation, db: Schema) {
    && WellFormedReference(ref) && WellFormedSchema(ref, db)
    && r in ref.relations && r.kind == Table && r.name in db.relations
  }

  lemma {:induction false} TakenIndexNameDefeats(
    sem: Semantics, ref: Reference, r: Relation, ix: Index, db: Schema, baseline: Option<string>, ss: seq<Statement>)
    requires Planned(sem, ref, db, baseline, ss) && AtTable(ref, r, db)
    requires ix in r.indexes && MissingIndex(db.relations[r.name], ix) && ix.name in db.names
    ensures ExecAll(sem, db, ss).None?
  {
    hide OnTable, PlanOf, WellFormedTable;
    MissingIndexIsPlanned(sem, ref, r, ix, db, baseline, ss);
    var i := At(ss, CreateIndex(r.name, ix));
    forall s | s in ss && s.DropView? ensures s.table != ix.name {
      var q := StatementsOwned(sem, ref, db, baseline, s);
      if q.kind == Table { OnTableNamed(q, db, baseline, s); }
      assert s.table == q.name;
    }
    TakenNameFails(sem, db, ss, i);
  }

  // A plan up to one relation is the beginning of the whole.
  lemma {:induction false} PlanBegins(
    sem: Semantics, ref: Reference, rs: seq<Relation>, k: nat, db: Schema, baseline: Option<string>)
    returns (before: seq<Discrepancy>, after: seq<Discrepancy>)
    requires k <= |rs| && PlanOver(sem, ref, rs, db, baseline).Some?
    ensures PlanOver(sem, ref, rs[..k], db, baseline) == Some(before)
    ensures PlanOver(sem, ref, rs, db, baseline) == Some(before + after)
    decreases |rs|
  {
    hide RelationDiscrepancies;
    if k == |rs| {
      assert rs[..k] == rs;
      before, after := PlanOver(sem, ref, rs, db, baseline).value, [];
      assert before + after == before;
    } else {
      var rest: seq<Discrepancy>;
      assert rs[..|rs| - 1][..k] == rs[..k];
      before, rest := PlanBegins(sem, ref, rs[..|rs| - 1], k, db, baseline);
      after := rest + RelationDiscrepancies(sem, ref, rs[|rs| - 1], db, baseline).value;
      assert before + rest + RelationDiscrepancies(sem, ref, rs[|rs| - 1], db, baseline).value == before + after;
    }
  }

  // Up to and with the share of `r` the plan holds nothing for the table `t`, or nothing that touches its key.
  lemma {:induction false} KeyIsLeftAlone(
    sem: Semantics, ref: Reference, rs: seq<Relation>, r: Relation, t: string, db: Schema, baseline: Option<string>,
    before: seq<Discrepancy>)
    requires WellFormedReference(ref) && WellFormedSchema(ref, db) && t in db.relations && db.relations[t].keyName.Some?
    requires !KeyGoesFirst(ref, db, t, r)
    requires forall q | q in rs :: q in ref.relations && (q.kind == Table ==> TextLe(q.name, r.name))
    requires PlanOver(sem, ref, rs, db, baseline) == Some(before) && AllAutomatic(before)
    ensures forall s | s in Statements(before) && s.table == t :: TableStatement(s, t) && !s.DropConstraint?
  {
    hide PlanOver, WellFormedReference, TextLe, OwnedItem;
    PlanOwned(sem, ref, rs, db, baseline, before);
    InStatements(before);
    forall s | s in Statements(before) && s.table == t ensures TableStatement(s, t) && !s.DropConstraint? {
      var d :| d in before && s in d.statements;
      assert OwnedBySome(rs, db, baseline, d);
      var q :| q in rs && OwnedItem(q, Find(db, q.name), baseline, d);
      OwnedStatement(q, db, baseline, d, s);
      if q.kind != Table {
        NoViewOverKey(sem, ref, q, db, baseline, before);
      }
    }
  }

  lemma OwnedStatement(q: Relation, db: Schema, baseline: Option<string>, d: Discrepancy, s: Statement)
    requires OwnedItem(q, Find(db, q.name), baseline, d) && s in d.statements
    ensures s.table == q.name
    ensures q.kind == Table ==> TableStatement(s, q.name) && q.name in db.relations
                                && (s.DropConstraint? ==> CurrentValued(q, db.relations[q.name]))
  {
    assert Owned(q, Find(db, q.name), baseline, s);
  }

  // A table in a view's place is left to a human.
  lemma NoViewOverKey(
    sem: Semantics, ref: Reference, q: Relation, db: Schema, baseline: Option<string>, before: seq<Discrepancy>)
    requires WellFormedReference(ref) && WellFormedSchema(ref, db) && q in ref.relations && q.kind != Table
    requires RelationDiscrepancies(sem, ref, q, db, baseline).Some? && AllAutomatic(before)
    requires forall d | d in RelationDiscrepancies(sem, ref, q, db, baseline).value :: d in before
    ensures q.name in db.relations ==> db.relations[q.name].keyName.None?
  {
    ReferenceView(ref, q);
    hide WellFormedReference;
    var ds := RelationDiscrepancies(sem, ref, q, db, baseline).value;
    assert q.name in db.relations && db.relations[q.name].rel.kind == Table ==>
             ByHand(q.name, NotAView(Table)) in ds;
  }

  // The place of the table `r` in execution order; no table before it comes after it in the alphabet.
  lemma UpTo(ref: Reference, r: Relation) returns (k: nat)
    requires r in ref.relations && r.kind == Table
    ensures k < |Ordered(ref.relations)| && Ordered(ref.relations)[k] == r
    ensures forall q | q in Ordered(ref.relations)[..k + 1] ::
              q in ref.relations && (q.kind == Table ==> TextLe(q.name, r.name))
  {
    hide TextLe, Ordered;
    var rs := Ordered(ref.relations);
    var n := OrderedTablesFirst(ref.relations);
    k :| 0 <= k < |rs| && rs[k] == r;
    forall q | q in rs[..k + 1] ensures q in ref.relations && (q.kind == Table ==> TextLe(q.name, r.name)) {
      var j :| 0 <= j <= k && rs[j] == q;
      TextLeTotal(q.name, q.name);
      if j < k { AscendsThroughout(rs[..n], j, k); }
    }
  }

  lemma SchemaKeys(ref: Reference, db: Schema)
    requires WellFormedSchema(ref, db)
    ensures db.relations.Keys <= db.names
  {}

  lemma {:induction false} HeldKeyDefeats(
    sem: Semantics, ref: Reference, r: Relation, ix: Index, t: string, db: Schema, baseline: Option<string>,
    ss: seq<Statement>)
    requires Planned(sem, ref, db, baseline, ss) && AtTable(ref, r, db)
    requires ix in r.indexes && MissingIndex(db.relations[r.name], ix)
    requires t in db.relations && db.relations[t].keyName == Some(ix.name) && !KeyGoesFirst(ref, db, t, r)
    ensures ExecAll(sem, db, ss).None?
  {
    hide PlanOver, WellFormedTable, WellFormedReference, WellFormedSchema, TextLe, KeyGoesFirst, RelationDiscrepancies,
         TableDiscrepancies, Ordered, AllAutomatic, Statements, MissingIndex, ExecAll, Exec;
    var rs := Ordered(ref.relations);
    var k := UpTo(ref, r);
    var before, after := PlanBegins(sem, ref, rs, k + 1, db, baseline);
    AutomaticParts(before, after);
    StatementsAppend(before, after);
    SchemaKeys(ref, db);
    KeyIsLeftAlone(sem, ref, rs[..k + 1], r, t, db, baseline, before);
    IndexPlannedBefore(sem, ref, rs[..k + 1], r, ix, db, baseline, before);
    var i := At(Statements(before), CreateIndex(r.name, ix));
    KeyHeldFails(sem, db, Statements(before), i, t);
    ExecAllAppend(sem, db, Statements(before), Statements(after));
  }

  lemma {:induction false} IndexPlannedBefore(
    sem: Semantics, ref: Reference, rs: seq<Relation>, r: Relation, ix: Index, db: Schema, baseline: Option<string>,
    before: seq<Discrepancy>)
    requires PlanOver(sem, ref, rs, db, baseline) == Some(before) && AllAutomatic(before)
    requires r in rs && r.kind == Table && r.name in db.relations
    requires ix in r.indexes && MissingIndex(db.relations[r.name], ix)
    ensures CreateIndex(r.name, ix) in Statements(before)
  {
    hide PlanOver, TableDiscrepancies;
    var live := db.relations[r.name];
    PlanOwned(sem, ref, rs, db, baseline, before);
    var ds := RelationDiscrepancies(sem, ref, r, db, baseline).value;
    ShapePlanned(sem, r, live, baseline, ds);
    IndexPlanned(r, r.indexes, ix, live);
    var d := IndexDiscrepancy(r.name, ix, live)[0];
    assert d in IndexDiscrepancy(r.name, ix, live);
    assert d.resolution == Automatic;
    assert CreateIndex(r.name, ix) in d.statements;
    InStatements(before);
  }

  lemma {:induction false} NotStandingDefeats(
    sem: Semantics, ref: Reference, r: Relation, db: Schema, baseline: Option<string>, ss: seq<Statement>)
    requires Planned(sem, ref, db, baseline, ss) && AtTable(ref, r, db)
    requires !Stands(r, db.relations[r.name])
    ensures ExecAll(sem, db, ss).None?
  {
    hide PlanOf, Settled, SettledButDefaults, WellFormedTable, RelationDiscrepancies, AltersDefaults;
    var live := db.relations[r.name];
    var ds := ShareOf(sem, ref, r, db, baseline);
    assert TableDiscrepancies(sem, r, Some(live), baseline) == Some(ds) by { TableShare(sem, ref, r, db, baseline); }
    QuietIffSettled(sem, r, live, baseline);
    var d, s := NotTaken(sem, ref, r, live, baseline, ds);
    hide TableDiscrepancies;
    OnlyItsOwn(sem, ref, r, db, baseline);
    assert Owned(r, Some(live), baseline, s);
    var i := At(ss, s);
    NotTakenFails(sem, db, ss, i);
  }

  lemma TableShare(sem: Semantics, ref: Reference, r: Relation, db: Schema, baseline: Option<string>)
    requires r.kind == Table && r.name in db.relations
    ensures RelationDiscrepancies(sem, ref, r, db, baseline) ==
            TableDiscrepancies(sem, r, Some(db.relations[r.name]), baseline)
  {}

  // A statement of the share that what stands there does not take.
  lemma {:induction false} NotTaken(
    sem: Semantics, ref: Reference, r: Relation, live: Live, baseline: Option<string>, ds: seq<Discrepancy>)
    returns (d: Discrepancy, s: Statement)
    requires WellFormedTable(r) && TableDiscrepancies(sem, r, Some(live), baseline) == Some(ds) && AllAutomatic(ds)
    requires AllOwned(r, Some(live), baseline, ds) && !Stands(r, live)
    ensures d in ds && s in d.statements && !Takes(live.rel.kind, s)
  {
    hide TableDiscrepancies, Settled, SettledButDefaults, WellFormedTable, Owned;
    if live.rel.kind == View {
      if forall d | d in ds :: AltersDefaults(d) {
        OnlyDefaultsDiffer(sem, r, live, baseline, ds);
      }
      d :| d in ds && !AltersDefaults(d);
      assert OwnedItem(r, Some(live), baseline, d);
      s :| s in d.statements && !ChangesDefault(s);
    } else {
      QuietIffSettled(sem, r, live, baseline);
      d := ds[0];
      assert OwnedItem(r, Some(live), baseline, d);
      s := d.statements[0];
    }
  }

  lemma {:induction false} UnalterableDefaultDefeats(
    sem: Semantics, ref: Reference, r: Relation, db: Schema, baseline: Option<string>, ss: seq<Statement>)
    requires Planned(sem, ref, db, baseline, ss) && AtTable(ref, r, db)
    requires db.relations[r.name].rel.kind == Table && !DefaultsCanChange(r, db.relations[r.name])
    ensures ExecAll(sem, db, ss).None?
  {
    hide PlanOf, WellFormedTable;
    var live := db.relations[r.name];
    var c :| c in r.columns && !Exempt(r.name, c.name) && c.generated != "" && Lookup(live.rel.columns, c.name).Some?
             && Lookup(live.rel.columns, c.name).value.default != c.default;
    var s := DefaultIsPlanned(sem, ref, r, c, db, baseline, ss);
    var i := At(ss, s);
    UnalterableDefaultFails(sem, db, ss, i);
  }

  lemma {:induction false} UnfitIndexDefeats(
    sem: Semantics, ref: Reference, r: Relation, ix: Index, db: Schema, baseline: Option<string>, ss: seq<Statement>)
    requires Planned(sem, ref, db, baseline, ss) && AtTable(ref, r, db) && db.relations[r.name].rel.kind == Table
    requires ix in r.indexes && MissingIndex(db.relations[r.name], ix)
    requires !IndexFits(r, db.relations[r.name], baseline, ix)
    ensures ExecAll(sem, db, ss).None?
  {
    hide PlanOf, Filling, NoCollision, Completed;
    var live := db.relations[r.name];
    MissingIndexIsPlanned(sem, ref, r, ix, db, baseline, ss);
    OnlyItsOwn(sem, ref, r, db, baseline);
    var i := At(ss, CreateIndex(r.name, ix));
    if n :| n in ix.columns && Exempt(r.name, n) && Lookup(live.rel.columns, n).None? {
      AbsentColumnFails(sem, db, ss, i, r.name, n);
    } else {
      RepeatedRowsFail(sem, r, baseline, db, ss, i);
    }
  }

  lemma {:induction false} KeyNameClashDefeats(
    sem: Semantics, ref: Reference, r: Relation, db: Schema, baseline: Option<string>, ss: seq<Statement>)
    requires Planned(sem, ref, db, baseline, ss) && AtTable(ref, r, db) && !KeyNameIsClear(r, db.relations[r.name])
    ensures ExecAll(sem, db, ss).None?
  {
    hide PlanOf, WellFormedTable, Filling;
    var live := db.relations[r.name];
    var k :| k in r.constraints && !HasDefinition(live.rel.constraints, k.definition) && live.keyName == Some(k.name);
    MissingConstraintIsPlanned(sem, ref, r, k, db, baseline, ss);
    OnlyItsOwn(sem, ref, r, db, baseline);
    var i := At(ss, AddConstraint(r.name, k));
    KeyNameClashFails(sem, db, ss, i);
  }

  lemma {:induction false} UnfitViewDefeats(
    sem: Semantics, ref: Reference, v: Relation, db: Schema, baseline: Option<string>, ss: seq<Statement>)
    requires Planned(sem, ref, db, baseline, ss) && WellFormedReference(ref)
    requires v in ref.relations && v.kind == View && ToCreate(v, db) && !ViewFits(ref, v, db)
    ensures ExecAll(sem, db, ss).None?
  {
    hide PlanOf, WellFormedTable, Filling, ToCreate;
    NewViewIsPlanned(sem, ref, v, db, baseline, ss);
    var needs := NeedsOf(ref, v.name);
    var i := At(ss, CreateView(v.name, v, needs));
    if v.name in db.types {
      TypeNameFails(sem, db, ss, i);
    } else {
      var t, c :| t in needs && t in db.relations && c in needs[t] && Exempt(t, c)
                  && Lookup(db.relations[t].rel.columns, c).None?;
      var q :| q in ref.relations && q.kind == Table && q.name == t;
      OnlyItsOwn(sem, ref, q, db, baseline);
      AbsentColumnFails(sem, db, ss, i, t, c);
    }
  }

  lemma {:induction false} UnfitShareDefeats(
    sem: Semantics, ref: Reference, r: Relation, db: Schema, baseline: Option<string>, ss: seq<Statement>)
    requires Planned(sem, ref, db, baseline, ss) && AtTable(ref, r, db)
    requires !ShareFits(r, db.relations[r.name], baseline)
    ensures ExecAll(sem, db, ss).None?
  {
    hide Planned, WellFormedReference, WellFormedSchema, IndexFits, DefaultsCanChange, KeyNameIsClear;
    var live := db.relations[r.name];
    if !Stands(r, live) {
      NotStandingDefeats(sem, ref, r, db, baseline, ss);
    } else if !KeyNameIsClear(r, live) {
      KeyNameClashDefeats(sem, ref, r, db, baseline, ss);
    } else {
      if live.rel.kind != Table { StandingFits(ref, r, db, baseline); }
      if !DefaultsCanChange(r, live) {
        UnalterableDefaultDefeats(sem, ref, r, db, baseline, ss);
      } else {
        var ix :| ix in r.indexes && MissingIndex(live, ix) && !IndexFits(r, live, baseline, ix);
        UnfitIndexDefeats(sem, ref, r, ix, db, baseline, ss);
      }
    }
  }

  // Where something other than a table stands, standing is all there is to it.
  lemma StandingFits(ref: Reference, r: Relation, db: Schema, baseline: Option<string>)
    requires AtTable(ref, r, db) && db.relations[r.name].rel.kind != Table && Stands(r, db.relations[r.name])
    ensures var l := db.relations[r.name];
            DefaultsCanChange(r, l) && IndexesFit(r, l, baseline) && NoGeneratedAdded(r, l)
  {
    hide IndexFits, WellFormedReference;
    assert WellFormedLive(r, db.relations[r.name]);
  }

  // ---- exactly when ------------------------------------------------------------------------------------

  /** Exactly when an all-automatic plan executes: if and only if it fits the live schema. */
  lemma {:induction false} ExecutesIff(sem: Semantics, ref: Reference, db: Schema, baseline: Option<string>)
    requires WellFormedReference(ref) && WellFormedSchema(ref, db)
    requires PlanOf(sem, ref, db, baseline).Some? && AllAutomatic(PlanOf(sem, ref, db, baseline).value)
    ensures ExecAll(sem, db, Statements(PlanOf(sem, ref, db, baseline).value)).Some? <==> PlanFits(ref, db, baseline)
  {
    hide PlanOf, ShareFits, ViewFits, WellFormedReference, WellFormedSchema, ToCreate, MissingIndex, KeyGoesFirst;
    var ss := Statements(PlanOf(sem, ref, db, baseline).value);
    if PlanFits(ref, db, baseline) {
      Converges(sem, ref, db, baseline, None);
    } else if !IndexNamesFree(ref, db) {
      var r :| r in ref.relations && r.kind == Table && r.name in db.relations
               && exists ix :: ix in r.indexes && MissingIndex(db.relations[r.name], ix)
                               && !NameFree(ref, db, r, ix.name);
      var ix :| ix in r.indexes && MissingIndex(db.relations[r.name], ix) && !NameFree(ref, db, r, ix.name);
      if ix.name in db.names {
        TakenIndexNameDefeats(sem, ref, r, ix, db, baseline, ss);
      } else {
        var t :| t in db.relations && db.relations[t].keyName == Some(ix.name) && !KeyGoesFirst(ref, db, t, r);
        HeldKeyDefeats(sem, ref, r, ix, t, db, baseline, ss);
      }
    } else if !SharesFit(ref, db, baseline) {
      var r :| r in ref.relations && r.kind == Table && r.name in db.relations
               && !ShareFits(r, db.relations[r.name], baseline);
      UnfitShareDefeats(sem, ref, r, db, baseline, ss);
    } else {
      var v :| v in ref.relations && v.kind == View && ToCreate(v, db) && !ViewFits(ref, v, db);
      UnfitViewDefeats(sem, ref, v, db, baseline, ss);
    }
  }

  lemma {:induction false} ReportedRelation(
    sem: Semantics, ref: Reference, r: Relation, db: Schema, baseline: Option<string>)
    requires r in ref.relations && RelationDiscrepancies(sem, ref, r, db, baseline) != Some([])
    ensures PlanOf(sem, ref, db, baseline) != Some([])
  {
    var n := OrderedTablesFirst(ref.relations);
    if PlanOf(sem, ref, db, baseline).Some? {
      var ds := PlanOf(sem, ref, db, baseline).value;
      PlanOwned(sem, ref, Ordered(ref.relations), db, baseline, ds);
      var here := RelationDiscrepancies(sem, ref, r, db, baseline).value;
      assert here[0] in ds;
    }
  }

  lemma ReportedTable(sem: Semantics, r: Relation, c: Column, live: Live, baseline: Option<string>)
    requires c in r.columns && !Skipped(r.name, c.name, SkipFor(r, live)) && ColumnDiscrepancies(r.name, c, live) != []
    ensures TableDiscrepancies(sem, r, Some(live), baseline) != Some([])
  {
    hide ColumnDiscrepancies, SkipFor, TableDiscrepancies, MissingOrWrong;
    ColumnPlanned(r, r.columns, c, live, SkipFor(r, live));
    assert ColumnDiscrepancies(r.name, c, live)[0] in ColumnDiscrepancies(r.name, c, live);
    if TableDiscrepancies(sem, r, Some(live), baseline).Some? {
      ShapePlanned(sem, r, live, baseline, TableDiscrepancies(sem, r, Some(live), baseline).value);
    }
  }

  lemma UnordinaryIsReported(r: Relation, c: Column, was: Live, now: Live)
    requires WellFormedTable(r) && c in r.columns && !Exempt(r.name, c.name) && !c.Ordinary()
    requires !(Lookup(was.rel.columns, c.name).Some? && Lookup(was.rel.columns, c.name).value.default == c.default)
    requires KindsStand(was.rel.columns, now.rel.columns, c.name)
    ensures !Skipped(r.name, c.name, SkipFor(r, now)) && ColumnDiscrepancies(r.name, c, now) != []
  {
    LookupUnique(r.columns, c);
  }

  /** Whatever statements execute, a missing identity or generated column, or one whose default differs, is still
      reported: no batch adds an identity or a generation expression, and a human is left with the former. */
  lemma {:induction false} UnordinaryColumnNeverConverges(
    sem: Semantics, ref: Reference, r: Relation, c: Column, db: Schema, ss: seq<Statement>, again: Option<string>)
    requires r in ref.relations && WellFormedTable(r) && db.relations.Keys <= db.names
    requires r.name in db.relations && db.relations[r.name].rel.kind == Table
    requires c in r.columns && !Exempt(r.name, c.name) && !c.Ordinary()
    requires var found := Lookup(db.relations[r.name].rel.columns, c.name);
             found.None? || found.value.default != c.default
    requires ExecAll(sem, db, ss).Some?
    ensures PlanOf(sem, ref, ExecAll(sem, db, ss).value, again) != Some([])
  {
    hide PlanOf, WellFormedTable;
    var was := db.relations[r.name];
    KindsStandThroughout(sem, db, ss, r.name, c.name);
    var end := ExecAll(sem, db, ss).value;
    var now := end.relations[r.name];
    UnordinaryIsReported(r, c, was, now);
    hide *;
    ReportedTable(sem, r, c, now, again);
    ReportedRelation(sem, ref, r, end, again);
  }

  /** Exactly when an all-automatic plan keeps its promise: it executes and leaves nothing to plan if and
      only if it fits the live schema and adds no generated column. */
  lemma {:induction false} ConvergesIff(
    sem: Semantics, ref: Reference, db: Schema, baseline: Option<string>, again: Option<string>)
    requires WellFormedReference(ref) && WellFormedSchema(ref, db)
    requires PlanOf(sem, ref, db, baseline).Some? && AllAutomatic(PlanOf(sem, ref, db, baseline).value)
    ensures var end := ExecAll(sem, db, Statements(PlanOf(sem, ref, db, baseline).value));
            (end.Some? && PlanOf(sem, ref, end.value, again) == Some([])) <==>
            (PlanFits(ref, db, baseline) && NoGeneratedColumnAdded(ref, db))
  {
    hide PlanOf, PlanFits, WellFormedTable;
    var ss := Statements(PlanOf(sem, ref, db, baseline).value);
    ExecutesIff(sem, ref, db, baseline);
    if PlanFits(ref, db, baseline) {
      Converges(sem, ref, db, baseline, again);
      if !NoGeneratedColumnAdded(ref, db) {
        var r :| r in ref.relations && r.kind == Table && r.name in db.relations
                 && !NoGeneratedAdded(r, db.relations[r.name]);
        AddedOnTable(ref, r, db, baseline);
        var c :| c in r.columns && !Exempt(r.name, c.name)
                 && Lookup(db.relations[r.name].rel.columns, c.name).None? && c.generated != "";
        UnordinaryColumnNeverConverges(sem, ref, r, c, db, ss, again);
      }
    }
  }

  lemma AddedOnTable(ref: Reference, r: Relation, db: Schema, baseline: Option<string>)
    requires AtTable(ref, r, db) && PlanFits(ref, db, baseline) && !NoGeneratedAdded(r, db.relations[r.name])
    ensures db.relations[r.name].rel.kind == Table
  {
    assert ShareFits(r, db.relations[r.name], baseline);
    if db.relations[r.name].rel.kind != Table { StandingFits(ref, r, db, baseline); }
  }

  // ---- planning that raises --------------------------------------------------------------------------

  /** Planning a rate card raises instead of reporting exactly when its key columns are there and either
      two rows have no model, or no model repeats and the one row without a model is a subscription's. */
  lemma RateCardPlanRaises(r: Relation, live: Live, baseline: Option<string>)
    requires RowsFit(live)
    ensures RateCardDiscrepancy(r, live, baseline).None? <==>
            && (forall n | n in r.primaryKey && n != EFFECTIVE_FROM :: Lookup(live.rel.columns, n).Some?)
            && ((exists i, j :: 0 <= i < j < |live.rows| && Model(live.rows[i]) == Model(live.rows[j]) == Null)
                || ((forall i, j | 0 <= i < j < |live.rows| :: Model(live.rows[i]) != Model(live.rows[j]))
                    && exists i :: 0 <= i < |live.rows| && Model(live.rows[i]) == Null
                                   && Get(live.rows[i], "pricing_mode") == Val("subscription")))
  {
    KeyColumnsThere(live.rel, r.primaryKey);
    ModelsDistinct(live.rows);
    var rows := live.rows;
    if i, j :| 0 <= i < j < |rows| && Model(rows[i]) == Model(rows[j]) == Null {
      assert Model(rows[i]) in Duplicates(rows);
    }
    if Null in Duplicates(rows) {
      var i, j :| 0 <= i < j < |rows| && Model(rows[i]) == Model(rows[j]) == Null;
    }
    if Duplicates(rows) == {} {
      forall i | 0 <= i < |rows| && Model(rows[i]) == Null && Get(rows[i], "pricing_mode") == Val("subscription")
        ensures Null in SubscriptionOnly(rows) && Lookup(live.rel.columns, "pricing_mode").Some?
      {
        assert "pricing_mode" in rows[i];
        forall j | 0 <= j < |rows| && j != i ensures Model(rows[j]) != Model(rows[i]) {
          if j < i { assert Model(rows[j]) != Model(rows[i]); }
        }
      }
    }
  }
}
