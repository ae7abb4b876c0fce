// One relation's share of a plan: what it may propose, and what it must.
module Shares {
  import opened Base
  import opened Catalog
  import opened Reconcile

  // ---- what a share proposes ---------------------------------------------------------------

  lemma {:induction false} InStatements(ds: seq<Discrepancy>)
    ensures forall s :: s in Statements(ds) <==> exists d :: d in ds && s in d.statements
    decreases |ds|
  {
    if ds != [] {
      var n := |ds| - 1;
      InStatements(ds[..n]);
      assert ds == ds[..n] + [ds[n]];
    }
  }

  ghost predicate TableStatement(s: Statement, table: string) {
    s.table == table && !s.DropView? && !s.CreateView?
  }

  // What adding `c` puts into the rows that are already there.
  function AddedFill(relation: string, c: Column): Cell {
    if c.default.None? && c.notNull && BackfillValue(relation, c.name).Some?
    then BackfillValue(relation, c.name).value
    else c.Fill()
  }

  // A column a reconciliation of `r` may add: its rows get the operator's baseline if it is the rate card's
  // effective_from, and otherwise what a column of `r` of that name fills in.
  ghost predicate Filling(r: Relation, baseline: Option<string>, c: Column) {
    if r.name == RATE_CARD && c.name == EFFECTIVE_FROM then baseline.Some? && c.Fill() == Val(baseline.value)
    else exists d :: d in r.columns && d.name == c.name && c.Fill() == AddedFill(r.name, d)
  }

  // The value a column of that name is filled with.
  function FillFor(r: Relation, baseline: Option<string>, name: string): Cell {
    if r.name == RATE_CARD && name == EFFECTIVE_FROM then
      if baseline.Some? then Val(baseline.value) else Null
    else
      match Lookup(r.columns, name) case None => Null case Some(c) => AddedFill(r.name, c)
  }

  lemma FillingIs(r: Relation, baseline: Option<string>, c: Column)
    requires UniqueNames(r.columns) && Filling(r, baseline, c)
    ensures c.Fill() == FillFor(r, baseline, c.name)
  {
    if !(r.name == RATE_CARD && c.name == EFFECTIVE_FROM) {
      var d :| d in r.columns && d.name == c.name && c.Fill() == AddedFill(r.name, d);
      LookupUnique(r.columns, d);
    }
  }

  // A statement proposed for the table `r`: it adds no exempt column, fills what it adds as said above,
  // and touches the key only of a current-valued rate card.
  ghost predicate OnTable(r: Relation, live: Live, baseline: Option<string>, s: Statement) {
    && TableStatement(s, r.name)
    && (s.AddColumn? ==> !Exempt(r.name, s.column.name) && Filling(r, baseline, s.column))
    && (s.DropConstraint? || s.AddPrimaryKey? ==> CurrentValued(r, live))
  }

  // A statement proposed for `r`: on `r` itself, and a view dropped or created only where `r` is one.
  ghost predicate Owned(r: Relation, live: Option<Live>, baseline: Option<string>, s: Statement) {
    if r.kind == Table then live.Some? && OnTable(r, live.value, baseline, s)
    else s.table == r.name && (s.DropView? || s.CreateView?)
  }

  ghost predicate OwnedItem(r: Relation, live: Option<Live>, baseline: Option<string>, d: Discrepancy) {
    && (d.resolution == Automatic ==> d.statements != [])
    && forall s | s in d.statements :: Owned(r, live, baseline, s)
  }

  ghost predicate AllOwned(r: Relation, live: Option<Live>, baseline: Option<string>, ds: seq<Discrepancy>) {
    forall d | d in ds :: OwnedItem(r, live, baseline, d)
  }

  lemma MissingColumnOwned(r: Relation, c: Column, live: Live, baseline: Option<string>)
    requires r.kind == Table && c in r.columns && !Exempt(r.name, c.name)
    requires !(r.name == RATE_CARD && c.name == EFFECTIVE_FROM)
    ensures OwnedItem(r, Some(live), baseline, MissingColumn(r.name, c))
  {}

  lemma ColumnOwned(r: Relation, c: Column, live: Live, baseline: Option<string>)
    requires r.kind == Table && c in r.columns && !Skipped(r.name, c.name, SkipFor(r, live))
    ensures AllOwned(r, Some(live), baseline, ColumnDiscrepancies(r.name, c, live))
  {
    if Lookup(live.rel.columns, c.name).None? {
      MissingColumnOwned(r, c, live, baseline);
    } else {
      hide Filling, Exempt, CurrentValued, HasNulls;
    }
  }

  lemma {:induction false} ColumnsOwned(r: Relation, cs: seq<Column>, live: Live, baseline: Option<string>)
    requires r.kind == Table && forall c | c in cs :: c in r.columns
    ensures AllOwned(r, Some(live), baseline, MissingOrWrong(r.name, cs, live, SkipFor(r, live)))
    decreases |cs|
  {
    if cs != [] {
      var c := cs[|cs| - 1];
      ColumnsOwned(r, cs[..|cs| - 1], live, baseline);
      if !Skipped(r.name, c.name, SkipFor(r, live)) {
        ColumnOwned(r, c, live, baseline);
      }
    }
  }

  lemma ExtrasOwned(r: Relation, cs: seq<Column>, live: Live, baseline: Option<string>)
    ensures AllOwned(r, Some(live), baseline, ExtraDiscrepancies(r, cs))
  {
  }

  lemma IndexesOwned(r: Relation, ixs: seq<Index>, live: Live, baseline: Option<string>)
    requires r.kind == Table
    ensures AllOwned(r, Some(live), baseline, IndexDiscrepancies(r.name, ixs, live))
  {
  }

  lemma ConstraintsOwned(sem: Semantics, r: Relation, ks: seq<Constraint>, live: Live, baseline: Option<string>)
    requires r.kind == Table
    ensures AllOwned(r, Some(live), baseline, ConstraintDiscrepancies(sem, r.name, ks, live))
  {
    hide Filling, Exempt, CurrentValued, Satisfied, Absent;
    if ks != [] {
      ConstraintsOwned(sem, r, ks[..|ks| - 1], live, baseline);
    }
  }

  lemma RestructureOwned(r: Relation, live: Live, baseline: string)
    requires CurrentValued(r, live)
    ensures forall s | s in RestructureStatements(r, live, baseline) :: OnTable(r, live, Some(baseline), s)
    ensures RestructureStatements(r, live, baseline) != []
  {}

  lemma CardOwned(r: Relation, live: Live, baseline: Option<string>)
    requires r.kind == Table && CurrentValued(r, live) && RateCardDiscrepancy(r, live, baseline).Some?
    ensures OwnedItem(r, Some(live), baseline, RateCardDiscrepancy(r, live, baseline).value)
  {
    hide OnTable, RestructureStatements, Duplicates, SubscriptionOnly, NullKeys, Absent;
    if baseline.Some? {
      RestructureOwned(r, live, baseline.value);
    }
  }

  lemma ShapeOwned(sem: Semantics, r: Relation, live: Live, baseline: Option<string>)
    requires r.kind == Table
    ensures AllOwned(r, Some(live), baseline, ShapeDiscrepancies(sem, r, live))
  {
    ColumnsOwned(r, r.columns, live, baseline);
    ExtrasOwned(r, live.rel.columns, live, baseline);
    IndexesOwned(r, r.indexes, live, baseline);
    ConstraintsOwned(sem, r, r.constraints, live, baseline);
    hide OwnedItem;
  }

  // Every statement of a share is its relation's own, and every automatic item has one.
  lemma {:induction false} RelationOwned(
    sem: Semantics, ref: Reference, r: Relation, db: Schema, baseline: Option<string>, ds: seq<Discrepancy>)
    requires RelationDiscrepancies(sem, ref, r, db, baseline) == Some(ds)
    ensures AllOwned(r, Find(db, r.name), baseline, ds)
  {
    if r.kind == Table && r.name in db.relations {
      var live := db.relations[r.name];
      ShapeOwned(sem, r, live, baseline);
      hide ShapeDiscrepancies;
      if CurrentValued(r, live) {
        CardOwned(r, live, baseline);
      }
    }
  }

  // ---- what a share must contain -------------------------------------------------------------

  lemma {:induction false} ColumnPlanned(r: Relation, cs: seq<Column>, c: Column, live: Live, skip: set<string>)
    requires c in cs && !Skipped(r.name, c.name, skip)
    ensures forall d | d in ColumnDiscrepancies(r.name, c, live) :: d in MissingOrWrong(r.name, cs, live, skip)
    decreases |cs|
  {
    if c != cs[|cs| - 1] {
      assert c in cs[..|cs| - 1];
      ColumnPlanned(r, cs[..|cs| - 1], c, live, skip);
    }
  }

  lemma {:induction false} IndexPlanned(r: Relation, ixs: seq<Index>, ix: Index, live: Live)
    requires ix in ixs
    ensures forall d | d in IndexDiscrepancy(r.name, ix, live) :: d in IndexDiscrepancies(r.name, ixs, live)
    decreases |ixs|
  {
    if ix != ixs[|ixs| - 1] {
      assert ix in ixs[..|ixs| - 1];
      IndexPlanned(r, ixs[..|ixs| - 1], ix, live);
    }
  }

  lemma {:induction false} ConstraintPlanned(
    sem: Semantics, r: Relation, ks: seq<Constraint>, k: Constraint, live: Live)
    requires k in ks
    ensures forall d | d in ConstraintDiscrepancy(sem, r.name, k, live) ::
              d in ConstraintDiscrepancies(sem, r.name, ks, live)
    decreases |ks|
  {
    if k != ks[|ks| - 1] {
      assert k in ks[..|ks| - 1];
      ConstraintPlanned(sem, r, ks[..|ks| - 1], k, live);
    }
  }

  lemma ShapePlanned(sem: Semantics, r: Relation, live: Live, baseline: Option<string>, ds: seq<Discrepancy>)
    requires TableDiscrepancies(sem, r, Some(live), baseline) == Some(ds)
    ensures forall d | d in MissingOrWrong(r.name, r.columns, live, SkipFor(r, live)) :: d in ds
    ensures forall d | d in ExtraDiscrepancies(r, live.rel.columns) :: d in ds
    ensures forall d | d in KeyDiscrepancies(r, live) :: d in ds
    ensures forall d | d in IndexDiscrepancies(r.name, r.indexes, live) :: d in ds
    ensures forall d | d in ConstraintDiscrepancies(sem, r.name, r.constraints, live) :: d in ds
  {
    hide MissingOrWrong, ExtraDiscrepancies, KeyDiscrepancies, IndexDiscrepancies, ConstraintDiscrepancies;
  }
}
