// One table: when its share of an all-automatic plan executes, and what executing it leaves.
module TableSettling {
  import opened Base
  import opened Catalog
  import opened Reconcile
  import opened Shares

  // ---- what any catalog satisfies ----------------------------------------------------------

  // Facts of any column: an identity column is NOT NULL and has no default, and a generated column's
  // expression is read as its default.
  ghost predicate WellFormedColumn(c: Column) {
    && (c.identity != "" ==> c.notNull && c.default.None? && c.generated == "")
    && (c.generated != "" ==> c.default.Some?)
  }

  // Facts of any table a migration builds: distinct names, a key over NOT NULL columns, indexes and
  // keys over its own columns, no NOT NULL column defaulting to NULL; the column with a back-fill is no
  // identity column, and the rate card is keyed by model and by an ordinary, default-free effective_from.
  ghost predicate WellFormedTable(r: Relation) {
    && r.kind == Table
    && UniqueNames(r.columns)
    && (forall n | n in r.primaryKey :: Lookup(r.columns, n).Some? && Lookup(r.columns, n).value.notNull)
    && (forall ix | ix in r.indexes :: HasColumns(r, ix.columns))
    && (forall i, j | 0 <= i < j < |r.constraints| :: r.constraints[i].name != r.constraints[j].name)
    && (forall k | k in r.constraints :: k.name != KeyConstraintName(r.name))
    && (forall c | c in r.columns :: WellFormedColumn(c))
    && (forall c | c in r.columns :: c.notNull ==> c.default != Some(Constant(Null)))
    && (forall c | c in r.columns && c.identity != "" :: BackfillValue(r.name, c.name).None?)
    && (r.name == RATE_CARD ==>
         && "model" in r.primaryKey
         && EFFECTIVE_FROM in r.primaryKey
         && Lookup(r.columns, EFFECTIVE_FROM).value.default.None?
         && Lookup(r.columns, EFFECTIVE_FROM).value.Ordinary())
  }

  // Facts of what stands in the database under the name of `r`; a view's columns are plain and nullable.
  ghost predicate WellFormedLive(r: Relation, l: Live) {
    && l.rel.name == r.name
    && UniqueNames(l.rel.columns)
    && RowsFit(l)
    && (forall c | c in l.rel.columns :: WellFormedColumn(c))
    && (l.rel.kind == View ==> forall c | c in l.rel.columns :: c.Ordinary() && !c.notNull)
  }

  // ---- when a share executes -----------------------------------------------------------------

  // Nothing the comparison looks at differs.
  ghost predicate Settled(r: Relation, l: Live) {
    && (forall c | c in r.columns && !Exempt(r.name, c.name) :: Lookup(l.rel.columns, c.name) == Some(c))
    && l.rel.primaryKey == r.primaryKey
    && (forall ix | ix in r.indexes :: HasShape(l.rel.indexes, ix.shape))
    && (forall k | k in r.constraints :: HasDefinition(l.rel.constraints, k.definition))
    && (forall c | c in l.rel.columns :: !BlockingExtra(r, c))
  }

  // Nothing differs but defaults.
  ghost predicate SettledButDefaults(r: Relation, l: Live) {
    && (forall c | c in r.columns && !Exempt(r.name, c.name) ::
          Lookup(l.rel.columns, c.name).Some? && Lookup(l.rel.columns, c.name).value.(default := c.default) == c)
    && l.rel.primaryKey == r.primaryKey
    && (forall ix | ix in r.indexes :: HasShape(l.rel.indexes, ix.shape))
    && (forall k | k in r.constraints :: HasDefinition(l.rel.constraints, k.definition))
    && (forall c | c in l.rel.columns :: !BlockingExtra(r, c))
  }

  // The planner takes whatever has the name for the table, but a view takes only default changes and anything
  // else nothing.
  ghost predicate Stands(r: Relation, l: Live) {
    match l.rel.kind
    case Table => true
    case View => SettledButDefaults(r, l)
    case Other => Settled(r, l)
  }

  // A generated column's expression cannot be altered as a default.
  ghost predicate DefaultsCanChange(r: Relation, l: Live) {
    forall c | c in r.columns && !Exempt(r.name, c.name) && c.generated != "" && Lookup(l.rel.columns, c.name).Some? ::
      Lookup(l.rel.columns, c.name).value.default == c.default
  }

  ghost predicate MissingIndex(l: Live, ix: Index) { !HasShape(l.rel.indexes, ix.shape) }

  // What a row holds in a column once the plan's columns are there.
  function After(r: Relation, l: Live, baseline: Option<string>, row: Row, name: string): Cell {
    if Lookup(l.rel.columns, name).Some? then Get(row, name) else FillFor(r, baseline, name)
  }

  function Completed(r: Relation, l: Live, baseline: Option<string>, names: seq<string>): (rows: seq<Row>)
    ensures |rows| == |l.rows|
    ensures forall i | 0 <= i < |rows| :: forall n | n in names ::
              Get(rows[i], n) == After(r, l, baseline, l.rows[i], n)
  {
    seq(|l.rows|, i requires 0 <= i < |l.rows| => map n | n in names :: After(r, l, baseline, l.rows[i], n))
  }

  // The comparison never adds the exempt column, and never asks whether the rows, back-fills included,
  // repeat under a UNIQUE index.
  ghost predicate IndexFits(r: Relation, l: Live, baseline: Option<string>, ix: Index) {
    && (forall n | n in ix.columns && Exempt(r.name, n) :: Lookup(l.rel.columns, n).Some?)
    && (ix.unique ==> NoCollision(Completed(r, l, baseline, ix.columns), ix.columns))
  }

  ghost predicate IndexesFit(r: Relation, l: Live, baseline: Option<string>) {
    forall ix | ix in r.indexes && MissingIndex(l, ix) :: IndexFits(r, l, baseline, ix)
  }

  // The planner compares a constraint's name with other constraints, not with the primary key's.
  ghost predicate KeyNameIsClear(r: Relation, l: Live) {
    !CurrentValued(r, l) ==>
      forall k | k in r.constraints && !HasDefinition(l.rel.constraints, k.definition) :: l.keyName != Some(k.name)
  }

  // What the live table must be like for its all-automatic share to execute.
  ghost predicate ShareFits(r: Relation, l: Live, baseline: Option<string>) {
    && Stands(r, l)
    && DefaultsCanChange(r, l)
    && IndexesFit(r, l, baseline)
    && KeyNameIsClear(r, l)
  }

  // ADD COLUMN writes a generated column's expression as a default.
  ghost predicate NoGeneratedAdded(r: Relation, l: Live) {
    forall c | c in r.columns && !Exempt(r.name, c.name) && Lookup(l.rel.columns, c.name).None? :: c.generated == ""
  }

  // What becomes of a reference column: a generated one that is added lands as one with a default.
  function Landed(live: Live, c: Column): Column {
    if Lookup(live.rel.columns, c.name).None? then c.(generated := "") else c
  }

  // The key's name after the share.
  function KeyAfter(r: Relation, live: Live): Option<string> {
    if CurrentValued(r, live) then Some(KeyConstraintName(r.name)) else live.keyName
  }

  // `l` is `live` after its share: the reference's columns, as they land, its key, indexes and constraints.
  ghost predicate Reconciled(r: Relation, live: Live, l: Live) {
    && (forall c | c in r.columns && !Exempt(r.name, c.name) :: Lookup(l.rel.columns, c.name) == Some(Landed(live, c)))
    && l.rel.primaryKey == r.primaryKey && l.keyName == KeyAfter(r, live)
    && (forall ix | ix in r.indexes :: HasShape(l.rel.indexes, ix.shape))
    && (forall k | k in r.constraints :: HasDefinition(l.rel.constraints, k.definition))
    && (forall c | c in l.rel.columns :: !BlockingExtra(r, c))
  }

  lemma SettledWhenNoneGenerated(r: Relation, live: Live, l: Live)
    requires Reconciled(r, live, l) && NoGeneratedAdded(r, live)
    ensures Settled(r, l)
  {
  }

  // ---- statements of a plan ----------------------------------------------------------------

  lemma {:induction false} StatementsAppend(a: seq<Discrepancy>, b: seq<Discrepancy>)
    ensures Statements(a + b) == Statements(a) + Statements(b)
    decreases |b|
  {
    if b == [] {
      assert a + b == a;
    } else {
      var n := |b| - 1;
      assert (a + b)[..|a + b| - 1] == a + b[..n];
      StatementsAppend(a, b[..n]);
    }
  }

  lemma StatementsOne(d: Discrepancy)
    ensures Statements([d]) == d.statements
  {
  }

  lemma AutomaticParts(a: seq<Discrepancy>, b: seq<Discrepancy>)
    requires AllAutomatic(a + b)
    ensures AllAutomatic(a) && AllAutomatic(b)
  {
  }

  lemma KeepsTrans(a: Live, b: Live, c: Live)
    requires Keeps(a, b) && Keeps(b, c)
    ensures Keeps(a, c)
  {}

  // ---- columns -----------------------------------------------------------------------------

  // `l'` is `l` with the column `name` being `c`; everything else stands.
  ghost predicate OnlyColumn(l: Live, l': Live, name: string, c: Column) {
    && (forall n :: Lookup(l'.rel.columns, n) == if n == name then Some(c) else Lookup(l.rel.columns, n))
    && l'.rel.(columns := l.rel.columns) == l.rel
    && l'.keyName == l.keyName
    && Keeps(l, l') && RowsFit(l')
  }

  lemma AddColumnStep(sem: Semantics, l: Live, c: Column)
    requires RowsFit(l) && Lookup(l.rel.columns, c.name).None? && c.Ordinary()
    requires c.default.Some? ==> c.default.value.Constant?
    requires c.notNull ==> c.default.Some? && c.default != Some(Constant(Null))
    ensures var l' := ExecTable(sem, l, AddColumn(l.rel.name, c));
            l'.Some? && OnlyColumn(l, l'.value, c.name, c)
  {
    var l' := ExecTable(sem, l, AddColumn(l.rel.name, c)).value;
    ExecTableKeeps(sem, l, AddColumn(l.rel.name, c));
    forall n ensures Lookup(l'.rel.columns, n) == if n == c.name then Some(c) else Lookup(l.rel.columns, n) {
      LookupAppend(l.rel.columns, c, n);
    }
  }

  lemma SetDefaultStep(sem: Semantics, l: Live, c: Column, d: Option<Default>)
    requires RowsFit(l) && Lookup(l.rel.columns, c.name) == Some(c) && c.Ordinary()
    ensures var s := if d.None? then DropDefault(l.rel.name, c.name) else SetDefault(l.rel.name, c.name, d.value);
            var l' := ExecTable(sem, l, s);
            l'.Some? && OnlyColumn(l, l'.value, c.name, c.(default := d))
  {
    var s := if d.None? then DropDefault(l.rel.name, c.name) else SetDefault(l.rel.name, c.name, d.value);
    var l' := ExecTable(sem, l, s).value;
    ExecTableKeeps(sem, l, s);
    forall n ensures Lookup(l'.rel.columns, n) ==
                     if n == c.name then Some(c.(default := d)) else Lookup(l.rel.columns, n) {
      LookupWithDefault(l.rel.columns, c.name, d, n);
    }
  }

  lemma SetNotNullStep(sem: Semantics, l: Live, c: Column)
    requires RowsFit(l) && Lookup(l.rel.columns, c.name) == Some(c) && !HasNulls(l.rows, c.name)
    ensures var l' := ExecTable(sem, l, SetNotNull(l.rel.name, c.name));
            l'.Some? && OnlyColumn(l, l'.value, c.name, c.(notNull := true))
  {
    var s := SetNotNull(l.rel.name, c.name);
    var l' := ExecTable(sem, l, s).value;
    ExecTableKeeps(sem, l, s);
    forall n ensures Lookup(l'.rel.columns, n) ==
                     if n == c.name then Some(c.(notNull := true)) else Lookup(l.rel.columns, n) {
      LookupWithNotNull(l.rel.columns, [c.name], n);
    }
  }

  lemma OnlyColumnTrans(a: Live, b: Live, c: Live, name: string, x: Column, y: Column)
    requires OnlyColumn(a, b, name, x) && OnlyColumn(b, c, name, y)
    ensures OnlyColumn(a, c, name, y)
  {}

  lemma ExecTableTwo(sem: Semantics, l: Live, s: Statement, t: Statement)
    ensures ExecTableAll(sem, l, [s]) == ExecTable(sem, l, s)
    ensures ExecTable(sem, l, s).Some? ==>
              ExecTableAll(sem, l, [s, t]) == ExecTable(sem, ExecTable(sem, l, s).value, t)
  {
    assert [s][1..] == [];
    assert [s, t][1..] == [t];
    assert [t][1..] == [];
    if ExecTable(sem, l, s).Some? {
      var mid := ExecTable(sem, l, s).value;
      assert ExecTableAll(sem, mid, [t]) ==
             match ExecTable(sem, mid, t) case None => None case Some(n) => ExecTableAll(sem, n, [t][1..]);
    }
  }

  lemma NullsKept(was: Live, now: Live, name: string)
    requires RowsFit(was) && Keeps(was, now) && Lookup(was.rel.columns, name).Some?
    ensures HasNulls(was.rows, name) == HasNulls(now.rows, name)
  {
  }

  // The column planned against is the column executed against, but for a NOT NULL that the key brought.
  ghost predicate SameColumn(c: Column, planned: Option<Column>, met: Option<Column>) {
    || met == planned
    || (planned.Some? && c.notNull && met == Some(planned.value.(notNull := true)))
  }

  /** A missing identity column is always left to a human. */
  lemma MissingIdentityIsByHand(r: Relation, c: Column)
    requires WellFormedTable(r) && c in r.columns && c.identity != ""
    ensures MissingColumn(r.name, c) == ByHand(r.name, ColumnUnfillable(c))
  {
    assert WellFormedColumn(c);
  }

  lemma {:induction false} MissingColumnSettles(sem: Semantics, r: Relation, c: Column, l: Live) returns (l': Live)
    requires c in r.columns && (c.notNull ==> c.default != Some(Constant(Null)))
    requires RowsFit(l) && l.rel.name == r.name && Lookup(l.rel.columns, c.name).None?
    requires MissingColumn(r.name, c).resolution == Automatic
    ensures ExecTableAll(sem, l, MissingColumn(r.name, c).statements) == Some(l')
    ensures OnlyColumn(l, l', c.name, c.Plain())
  {
    var p := c.Plain();
    if c.default.None? && c.notNull {
      var filled := p.(default := Some(Constant(BackfillValue(r.name, c.name).value)));
      AddColumnStep(sem, l, filled);
      var mid := ExecTable(sem, l, AddColumn(r.name, filled)).value;
      SetDefaultStep(sem, mid, filled, None);
      ExecTableTwo(sem, l, AddColumn(r.name, filled), DropDefault(r.name, c.name));
      l' := ExecTable(sem, mid, DropDefault(r.name, c.name)).value;
      OnlyColumnTrans(l, mid, l', c.name, filled, p);
    } else {
      AddColumnStep(sem, l, p);
      ExecTableTwo(sem, l, AddColumn(r.name, p), AddColumn(r.name, p));
      l' := ExecTable(sem, l, AddColumn(r.name, p)).value;
    }
  }

  // A column that is there with the right kind and type.
  lemma {:induction false} PresentColumnSettles(
    sem: Semantics, r: Relation, c: Column, live: Live, l: Live, found: Column)
    returns (l': Live)
    requires RowsFit(live) && RowsFit(l) && Keeps(live, l) && l.rel.name == r.name
    requires Lookup(live.rel.columns, c.name) == Some(found) && found.name == c.name
    requires SameColumn(c, Some(found), Lookup(l.rel.columns, c.name))
    requires found.typ == c.typ && found.identity == c.identity && found.generated == c.generated
    requires c.Ordinary() || found.default == c.default
    requires AllAutomatic(NullabilityDiscrepancies(r.name, c, found, live.rows)
                          + DefaultDiscrepancies(r.name, c, found))
    ensures ExecTableAll(sem, l, Statements(NullabilityDiscrepancies(r.name, c, found, live.rows)
                                            + DefaultDiscrepancies(r.name, c, found))) == Some(l')
    ensures OnlyColumn(l, l', c.name, c)
  {
    hide ExecTable, ExecTableAll, Statements, Keeps, HasNulls, SameColumn, AllAutomatic,
         NullabilityDiscrepancies, DefaultDiscrepancies;
    var nulls := NullabilityDiscrepancies(r.name, c, found, live.rows);
    var defaults := DefaultDiscrepancies(r.name, c, found);
    AutomaticParts(nulls, defaults);
    StatementsAppend(nulls, defaults);
    var mid := NullabilitySettles(sem, r, c, live, l, found);
    l' := DefaultSettles(sem, r, c, mid, found);
    ExecTableAllAppend(sem, l, Statements(nulls), Statements(defaults));
    OnlyColumnTrans(l, mid, l', c.name, found.(notNull := c.notNull), c);
  }

  // Of a column that is there in the same kind only the default of an ordinary one may differ.
  lemma KindKeepsDefault(r: Relation, c: Column, live: Live)
    requires WellFormedTable(r) && c in r.columns && !Exempt(r.name, c.name)
    requires (forall f | f in live.rel.columns :: WellFormedColumn(f)) && DefaultsCanChange(r, live)
    ensures var found := Lookup(live.rel.columns, c.name);
            found.Some? && found.value.identity == c.identity ==> c.Ordinary() || found.value.default == c.default
  {
    assert WellFormedColumn(c);
  }

  lemma {:induction false} ColumnSettles(sem: Semantics, r: Relation, c: Column, live: Live, l: Live) returns (l': Live)
    requires WellFormedTable(r) && c in r.columns && !Exempt(r.name, c.name)
    requires RowsFit(live) && RowsFit(l) && Keeps(live, l) && l.rel.name == r.name
    requires SameColumn(c, Lookup(live.rel.columns, c.name), Lookup(l.rel.columns, c.name))
    requires (forall f | f in live.rel.columns :: WellFormedColumn(f)) && DefaultsCanChange(r, live)
    requires AllAutomatic(ColumnDiscrepancies(r.name, c, live))
    ensures ExecTableAll(sem, l, Statements(ColumnDiscrepancies(r.name, c, live))) == Some(l')
    ensures OnlyColumn(l, l', c.name, Landed(live, c))
  {
    assert (c.notNull ==> c.default != Some(Constant(Null)));
    KindKeepsDefault(r, c, live);
    hide WellFormedTable, DefaultsCanChange, WellFormedColumn, ExecTable, ExecTableAll, Keeps, RowsFit, OnlyColumn,
         Statements,
         NullabilityDiscrepancies, DefaultDiscrepancies;
    var ds := ColumnDiscrepancies(r.name, c, live);
    assert ds == [] || ds[0].resolution == Automatic;
    match Lookup(live.rel.columns, c.name)
    case None =>
      hide MissingColumn;
      if c.identity != "" {
        MissingIdentityIsByHand(r, c);
      }
      l' := MissingColumnSettles(sem, r, c, l);
      StatementsOne(MissingColumn(r.name, c));
    case Some(found) =>
      if found.generated != c.generated || found.identity != c.identity || found.typ != c.typ {
        assert false;
      } else {
        l' := PresentColumnSettles(sem, r, c, live, l, found);
      }
  }

  lemma {:induction false} NullabilitySettles(
    sem: Semantics, r: Relation, c: Column, live: Live, l: Live, found: Column)
    returns (l': Live)
    requires RowsFit(live) && RowsFit(l) && Keeps(live, l) && l.rel.name == r.name
    requires Lookup(live.rel.columns, c.name) == Some(found)
    requires SameColumn(c, Some(found), Lookup(l.rel.columns, c.name))
    requires AllAutomatic(NullabilityDiscrepancies(r.name, c, found, live.rows))
    ensures ExecTableAll(sem, l, Statements(NullabilityDiscrepancies(r.name, c, found, live.rows))) == Some(l')
    ensures OnlyColumn(l, l', c.name, found.(notNull := c.notNull))
  {
    var ds := NullabilityDiscrepancies(r.name, c, found, live.rows);
    if ds == [] {
      l' := l;
    } else {
      assert ds[0].resolution == Automatic;
      StatementsOne(ds[0]);
      NullsKept(live, l, c.name);
      var met := Lookup(l.rel.columns, c.name).value;
      SetNotNullStep(sem, l, met);
      ExecTableTwo(sem, l, SetNotNull(r.name, c.name), SetNotNull(r.name, c.name));
      l' := ExecTable(sem, l, SetNotNull(r.name, c.name)).value;
    }
  }

  lemma {:induction false} DefaultSettles(sem: Semantics, r: Relation, c: Column, l: Live, found: Column)
    returns (l': Live)
    requires RowsFit(l) && l.rel.name == r.name
    requires Lookup(l.rel.columns, c.name) == Some(found.(notNull := c.notNull))
    requires found.name == c.name && found.typ == c.typ
    requires found.identity == c.identity && found.generated == c.generated
    requires c.Ordinary() || found.default == c.default
    ensures ExecTableAll(sem, l, Statements(DefaultDiscrepancies(r.name, c, found))) == Some(l')
    ensures OnlyColumn(l, l', c.name, c)
  {
    var ds := DefaultDiscrepancies(r.name, c, found);
    var met := found.(notNull := c.notNull);
    if ds == [] {
      assert met == c;
      l' := l;
    } else {
      StatementsOne(ds[0]);
      SetDefaultStep(sem, l, met, c.default);
      var s := ds[0].statements[0];
      ExecTableTwo(sem, l, s, s);
      l' := ExecTable(sem, l, s).value;
      assert met.(default := c.default) == c;
    }
  }

  // `l'` is `l` with every unskipped column of `cs` as it lands.
  ghost predicate ColumnsDone(r: Relation, cs: seq<Column>, live: Live, l: Live, l': Live) {
    && (forall c | c in cs && !Skipped(r.name, c.name, SkipFor(r, live)) ::
          Lookup(l'.rel.columns, c.name) == Some(Landed(live, c)))
    && (forall n :: (forall c | c in cs && !Skipped(r.name, c.name, SkipFor(r, live)) :: c.name != n) ==>
                    Lookup(l'.rel.columns, n) == Lookup(l.rel.columns, n))
    && l'.rel.(columns := l.rel.columns) == l.rel
    && l'.keyName == l.keyName
    && Keeps(l, l') && RowsFit(l')
  }

  lemma ColumnsDoneStep(r: Relation, cs: seq<Column>, c: Column, live: Live, l: Live, mid: Live, l': Live)
    requires ColumnsDone(r, cs, live, l, mid) && !Skipped(r.name, c.name, SkipFor(r, live))
    requires OnlyColumn(mid, l', c.name, Landed(live, c)) && forall d | d in cs :: d.name != c.name
    ensures ColumnsDone(r, cs + [c], live, l, l')
  {
    hide Landed, SkipFor, Skipped;
  }

  lemma {:induction false} ColumnsSettle(sem: Semantics, r: Relation, k: nat, live: Live, l: Live) returns (l': Live)
    requires WellFormedTable(r) && k <= |r.columns|
    requires RowsFit(live) && RowsFit(l) && Keeps(live, l) && l.rel.name == r.name
    requires forall c | c in r.columns && !Skipped(r.name, c.name, SkipFor(r, live)) ::
               SameColumn(c, Lookup(live.rel.columns, c.name), Lookup(l.rel.columns, c.name))
    requires (forall f | f in live.rel.columns :: WellFormedColumn(f)) && DefaultsCanChange(r, live)
    requires AllAutomatic(MissingOrWrong(r.name, r.columns[..k], live, SkipFor(r, live)))
    ensures ExecTableAll(sem, l, Statements(MissingOrWrong(r.name, r.columns[..k], live, SkipFor(r, live)))) == Some(l')
    ensures ColumnsDone(r, r.columns[..k], live, l, l')
    decreases k
  {
    hide DefaultsCanChange, WellFormedColumn, Landed, SkipFor, SameColumn, Keeps, RowsFit, OnlyColumn, ExecTable,
         ColumnDiscrepancies, Skipped, AllAutomatic, Statements, ExecTableAll, MissingOrWrong, ColumnsDone;
    var skip := SkipFor(r, live);
    if k == 0 {
      l' := l;
      assert r.columns[..0] == [];
      NoColumnsDone(sem, r, live, l);
    } else {
      var c := r.columns[k - 1];
      var cs := r.columns[..k - 1];
      assert r.columns[..k] == cs + [c];
      NextColumn(r.name, r.columns, k - 1, live, skip);
      var before := MissingOrWrong(r.name, cs, live, skip);
      var here := if Skipped(r.name, c.name, skip) then [] else ColumnDiscrepancies(r.name, c, live);
      AutomaticParts(before, here);
      StatementsAppend(before, here);
      var mid := ColumnsSettle(sem, r, k - 1, live, l);
      ExecTableAllAppend(sem, l, Statements(before), Statements(here));
      if Skipped(r.name, c.name, skip) {
        l' := mid;
        NothingStated(sem, mid);
        ColumnsDoneSkip(r, cs, c, live, l, mid);
      } else {
        l' := ColumnNext(sem, r, k - 1, live, l, mid);
        ColumnsDoneStep(r, cs, c, live, l, mid, l');
      }
    }
  }

  // One more column's share of the plan.
  lemma {:induction false} ColumnNext(sem: Semantics, r: Relation, k: nat, live: Live, l: Live, mid: Live)
    returns (l': Live)
    requires WellFormedTable(r) && k < |r.columns| && !Skipped(r.name, r.columns[k].name, SkipFor(r, live))
    requires RowsFit(live) && RowsFit(l) && Keeps(live, l) && l.rel.name == r.name
    requires SameColumn(r.columns[k], Lookup(live.rel.columns, r.columns[k].name),
                        Lookup(l.rel.columns, r.columns[k].name))
    requires (forall f | f in live.rel.columns :: WellFormedColumn(f)) && DefaultsCanChange(r, live)
    requires ColumnsDone(r, r.columns[..k], live, l, mid)
    requires AllAutomatic(ColumnDiscrepancies(r.name, r.columns[k], live))
    ensures ExecTableAll(sem, mid, Statements(ColumnDiscrepancies(r.name, r.columns[k], live))) == Some(l')
    ensures OnlyColumn(mid, l', r.columns[k].name, Landed(live, r.columns[k]))
  {
    hide DefaultsCanChange, WellFormedColumn, Landed, SkipFor, SameColumn, Keeps, RowsFit, OnlyColumn, ExecTable,
         ColumnDiscrepancies, AllAutomatic, Statements, ExecTableAll;
    var c := r.columns[k];
    assert forall d | d in r.columns[..k] :: d.name != c.name;
    assert Lookup(mid.rel.columns, c.name) == Lookup(l.rel.columns, c.name);
    KeepsTrans(live, l, mid);
    l' := ColumnSettles(sem, r, c, live, mid);
  }

  lemma NoColumnsDone(sem: Semantics, r: Relation, live: Live, l: Live)
    requires RowsFit(l)
    ensures ColumnsDone(r, [], live, l, l)
    ensures ExecTableAll(sem, l, Statements(MissingOrWrong(r.name, [], live, SkipFor(r, live)))) == Some(l)
  {}

  lemma NothingStated(sem: Semantics, l: Live)
    ensures ExecTableAll(sem, l, Statements([])) == Some(l)
  {}

  lemma ColumnsDoneSkip(r: Relation, cs: seq<Column>, c: Column, live: Live, l: Live, l': Live)
    requires ColumnsDone(r, cs, live, l, l') && Skipped(r.name, c.name, SkipFor(r, live))
    ensures ColumnsDone(r, cs + [c], live, l, l')
  {
    hide Landed, SkipFor, Skipped, Keeps, RowsFit;
  }

  lemma NoBlockingExtra(r: Relation, cs: seq<Column>)
    ensures AllAutomatic(ExtraDiscrepancies(r, cs)) ==>
              ExtraDiscrepancies(r, cs) == [] && forall c | c in cs :: !BlockingExtra(r, c)
    ensures (forall c | c in cs :: !BlockingExtra(r, c)) ==> ExtraDiscrepancies(r, cs) == []
  {
  }

  // ---- indexes -----------------------------------------------------------------------------

  // `l'` is `l` with reference indexes appended, so that `ixs` are all there by shape.
  ghost predicate IndexesDone(ixs: seq<Index>, l: Live, l': Live) {
    && l'.(rel := l.rel) == l
    && l'.rel.(indexes := l.rel.indexes) == l.rel
    && l.rel.indexes <= l'.rel.indexes
    && forall ix | ix in ixs :: HasShape(l'.rel.indexes, ix.shape)
  }

  // The server accepts the index over these columns and rows.
  ghost predicate IndexReady(ix: Index, l: Live) {
    HasColumns(l.rel, ix.columns) && (ix.unique ==> NoCollision(l.rows, ix.columns))
  }

  lemma IndexStep(sem: Semantics, r: Relation, ix: Index, live: Live, l: Live) returns (l': Live)
    requires ix in r.indexes && l.rel.name == r.name
    requires IndexReady(ix, l)
    requires IndexDiscrepancy(r.name, ix, live) != [] && AllAutomatic(IndexDiscrepancy(r.name, ix, live))
    ensures ExecTableAll(sem, l, Statements(IndexDiscrepancy(r.name, ix, live))) == Some(l')
    ensures l' == l.(rel := l.rel.(indexes := l.rel.indexes + [ix]))
  {
    hide ExecTableAll, Statements, NoCollision, HasColumns;
    var here := IndexDiscrepancy(r.name, ix, live);
    assert here[0].resolution == Automatic;
    StatementsOne(here[0]);
    ExecTableTwo(sem, l, CreateIndex(r.name, ix), CreateIndex(r.name, ix));
    l' := ExecTable(sem, l, CreateIndex(r.name, ix)).value;
  }

  lemma IndexesDoneStep(ixs: seq<Index>, ix: Index, l: Live, mid: Live, l': Live)
    requires IndexesDone(ixs, l, mid)
    requires l' == mid.(rel := mid.rel.(indexes := mid.rel.indexes + [ix]))
    ensures IndexesDone(ixs + [ix], l, l')
  {
  }

  // One more index's share of the plan.
  lemma {:induction false} IndexNext(sem: Semantics, r: Relation, k: nat, live: Live, l: Live, mid: Live)
    returns (l': Live)
    requires 0 < k <= |r.indexes| && l.rel.indexes == live.rel.indexes && l.rel.name == r.name
    requires MissingIndex(live, r.indexes[k - 1]) ==> IndexReady(r.indexes[k - 1], l)
    requires IndexesDone(r.indexes[..k - 1], l, mid)
    requires AllAutomatic(IndexDiscrepancy(r.name, r.indexes[k - 1], live))
    ensures ExecTableAll(sem, mid, Statements(IndexDiscrepancy(r.name, r.indexes[k - 1], live))) == Some(l')
    ensures IndexesDone(r.indexes[..k - 1] + [r.indexes[k - 1]], l, l')
  {
    hide ExecTable, NoCollision;
    var ix := r.indexes[k - 1];
    if MissingIndex(live, ix) {
      assert IndexReady(ix, mid);
      l' := IndexStep(sem, r, ix, live, mid);
      IndexesDoneStep(r.indexes[..k - 1], ix, l, mid, l');
    } else {
      l' := mid;
      var found :| found in live.rel.indexes && found.shape == ix.shape;
      assert found in l'.rel.indexes;
      assert Statements([]) == [];
    }
  }

  lemma {:induction false} IndexesSettle(sem: Semantics, r: Relation, k: nat, live: Live, l: Live) returns (l': Live)
    requires k <= |r.indexes| && l.rel.indexes == live.rel.indexes && l.rel.name == r.name
    requires forall ix | ix in r.indexes && MissingIndex(live, ix) :: IndexReady(ix, l)
    requires AllAutomatic(IndexDiscrepancies(r.name, r.indexes[..k], live))
    ensures ExecTableAll(sem, l, Statements(IndexDiscrepancies(r.name, r.indexes[..k], live))) == Some(l')
    ensures IndexesDone(r.indexes[..k], l, l')
    decreases k
  {
    hide ExecTable, IndexReady, MissingIndex, IndexDiscrepancy, HasShape;
    if k == 0 {
      l' := l;
    } else {
      hide IndexesDone;
      var ix := r.indexes[k - 1];
      assert r.indexes[..k][..k - 1] == r.indexes[..k - 1];
      assert r.indexes[..k] == r.indexes[..k - 1] + [ix];
      var before := IndexDiscrepancies(r.name, r.indexes[..k - 1], live);
      var here := IndexDiscrepancy(r.name, ix, live);
      AutomaticParts(before, here);
      StatementsAppend(before, here);
      var mid := IndexesSettle(sem, r, k - 1, live, l);
      ExecTableAllAppend(sem, l, Statements(before), Statements(here));
      l' := IndexNext(sem, r, k, live, l, mid);
    }
  }

  // ---- constraints -------------------------------------------------------------------------

  ghost predicate ConstraintsDone(ks: seq<Constraint>, live: Live, l: Live, l': Live) {
    && l'.(rel := l.rel) == l
    && l'.rel.(constraints := l.rel.constraints) == l.rel
    && (forall k | k in l'.rel.constraints :: k in live.rel.constraints || k in ks)
    && (forall k | k in live.rel.constraints :: k in l'.rel.constraints)
    && forall k | k in ks :: HasDefinition(l'.rel.constraints, k.definition)
  }

  lemma AbsentNone(rel: Relation, names: seq<string>)
    ensures Absent(rel, names) == [] <==> HasColumns(rel, names)
  {
  }

  lemma SatisfiedKept(sem: Semantics, was: Live, now: Live, c: Constraint)
    requires RowsFit(was) && Keeps(was, now) && HasColumns(was.rel, c.columns)
    ensures Satisfied(sem, was.rows, c) == Satisfied(sem, now.rows, c)
  {
    forall i | 0 <= i < |was.rows| ensures Project(was.rows[i], c.columns) == Project(now.rows[i], c.columns) {
      forall n | n in c.columns ensures Get(was.rows[i], n) == Get(now.rows[i], n) {
        assert n in was.rows[i];
      }
    }
  }

  lemma ConstraintStep(sem: Semantics, r: Relation, c: Constraint, live: Live, l: Live) returns (l': Live)
    requires RowsFit(live) && Keeps(live, l) && l.rel.name == r.name
    requires l.keyName != Some(c.name) && !HasConstraintName(l.rel.constraints, c.name)
    requires ConstraintDiscrepancy(sem, r.name, c, live) != []
    requires AllAutomatic(ConstraintDiscrepancy(sem, r.name, c, live))
    ensures ExecTableAll(sem, l, Statements(ConstraintDiscrepancy(sem, r.name, c, live))) == Some(l')
    ensures l' == l.(rel := l.rel.(constraints := l.rel.constraints + [c]))
  {
    hide NoCollision, DistinctOn, HasNulls, Filled;
    var here := ConstraintDiscrepancy(sem, r.name, c, live);
    assert here[0].resolution == Automatic;
    StatementsOne(here[0]);
    AbsentNone(live.rel, c.columns);
    SatisfiedKept(sem, live, l, c);
    assert HasColumns(l.rel, c.columns);
    ExecTableTwo(sem, l, AddConstraint(r.name, c), AddConstraint(r.name, c));
    l' := ExecTable(sem, l, AddConstraint(r.name, c)).value;
  }

  lemma ConstraintNameFree(sem: Semantics, r: Relation, k: nat, live: Live, l: Live, mid: Live)
    requires WellFormedTable(r) && 0 < k <= |r.constraints|
    requires ConstraintsDone(r.constraints[..k - 1], live, l, mid)
    requires ConstraintDiscrepancy(sem, r.name, r.constraints[k - 1], live) != []
    requires AllAutomatic(ConstraintDiscrepancy(sem, r.name, r.constraints[k - 1], live))
    ensures !HasConstraintName(mid.rel.constraints, r.constraints[k - 1].name)
  {
  }

  lemma ConstraintsDoneStep(ks: seq<Constraint>, c: Constraint, live: Live, l: Live, mid: Live, l': Live)
    requires ConstraintsDone(ks, live, l, mid)
    requires l' == mid.(rel := mid.rel.(constraints := mid.rel.constraints + [c]))
    ensures ConstraintsDone(ks + [c], live, l, l')
  {
  }

  // One more constraint's share of the plan.
  lemma {:induction false} ConstraintNext(sem: Semantics, r: Relation, k: nat, live: Live, l: Live, mid: Live)
    returns (l': Live)
    requires WellFormedTable(r) && 0 < k <= |r.constraints|
    requires RowsFit(live) && Keeps(live, l) && l.rel.name == r.name && l.rel.constraints == live.rel.constraints
    requires forall c | c in r.constraints && !HasDefinition(live.rel.constraints, c.definition) ::
               l.keyName != Some(c.name)
    requires ConstraintsDone(r.constraints[..k - 1], live, l, mid)
    requires AllAutomatic(ConstraintDiscrepancy(sem, r.name, r.constraints[k - 1], live))
    ensures ExecTableAll(sem, mid, Statements(ConstraintDiscrepancy(sem, r.name, r.constraints[k - 1], live))) ==
            Some(l')
    ensures ConstraintsDone(r.constraints[..k - 1] + [r.constraints[k - 1]], live, l, l')
  {
    var c := r.constraints[k - 1];
    if HasDefinition(live.rel.constraints, c.definition) {
      l' := mid;
      var found :| found in live.rel.constraints && found.definition == c.definition;
      assert found in l'.rel.constraints;
      assert Statements([]) == [];
    } else {
      ConstraintNameFree(sem, r, k, live, l, mid);
      KeepsTrans(live, l, mid);
      hide ExecTable, Satisfied, Absent, Keeps, RowsFit;
      l' := ConstraintStep(sem, r, c, live, mid);
      ConstraintsDoneStep(r.constraints[..k - 1], c, live, l, mid, l');
    }
  }

  lemma {:induction false} ConstraintsSettle(sem: Semantics, r: Relation, k: nat, live: Live, l: Live)
    returns (l': Live)
    requires WellFormedTable(r) && k <= |r.constraints|
    requires RowsFit(live) && Keeps(live, l) && l.rel.name == r.name && l.rel.constraints == live.rel.constraints
    requires forall c | c in r.constraints && !HasDefinition(live.rel.constraints, c.definition) ::
               l.keyName != Some(c.name)
    requires AllAutomatic(ConstraintDiscrepancies(sem, r.name, r.constraints[..k], live))
    ensures ExecTableAll(sem, l, Statements(ConstraintDiscrepancies(sem, r.name, r.constraints[..k], live))) == Some(l')
    ensures ConstraintsDone(r.constraints[..k], live, l, l')
    decreases k
  {
    hide ExecTable, Satisfied, Absent, Keeps, RowsFit, WellFormedTable, ConstraintDiscrepancy, HasDefinition;
    if k == 0 {
      l' := l;
    } else {
      hide ConstraintsDone;
      var c := r.constraints[k - 1];
      assert r.constraints[..k] == r.constraints[..k - 1] + [c];
      NextConstraint(sem, r.name, r.constraints, k - 1, live);
      hide ConstraintDiscrepancies;
      var before := ConstraintDiscrepancies(sem, r.name, r.constraints[..k - 1], live);
      var here := ConstraintDiscrepancy(sem, r.name, c, live);
      AutomaticParts(before, here);
      StatementsAppend(before, here);
      hide Statements, AllAutomatic, ExecTableAll;
      var mid := ConstraintsSettle(sem, r, k - 1, live, l);
      ExecTableAllAppend(sem, l, Statements(before), Statements(here));
      l' := ConstraintNext(sem, r, k, live, l, mid);
    }
  }

  // ---- the rate card's restructure -----------------------------------------------------------

  // `l` is `live` re-keyed: effective_from added and holding the baseline, the key the reference's.
  ghost predicate Rekeyed(r: Relation, live: Live, l: Live, baseline: string) {
    && (forall n :: Lookup(l.rel.columns, n) ==
          if n == EFFECTIVE_FROM then Lookup(r.columns, n)
          else match Lookup(live.rel.columns, n)
               case None => None
               case Some(c) => Some(if n in r.primaryKey then c.(notNull := true) else c))
    && l.rel.(columns := live.rel.columns, primaryKey := live.rel.primaryKey) == live.rel
    && l.rel.primaryKey == r.primaryKey
    && l.keyName == Some(KeyConstraintName(r.name))
    && l.rows == Filled(live.rows, EFFECTIVE_FROM, Val(baseline))
    && Keeps(live, l) && RowsFit(l)
  }

  lemma NullKeysNone(rows: seq<Row>, names: seq<string>)
    ensures NullKeys(rows, names) == [] <==> forall n | n in names && n != EFFECTIVE_FROM :: !HasNulls(rows, n)
  {
  }

  lemma KeyColumnsThere(rel: Relation, names: seq<string>)
    ensures Absent(rel, WithoutEffectiveFrom(names)) == [] <==>
            forall n | n in names && n != EFFECTIVE_FROM :: Lookup(rel.columns, n).Some?
  {
    AbsentNone(rel, WithoutEffectiveFrom(names));
    OthersOf(names);
  }

  lemma OthersOf(names: seq<string>)
    ensures forall n :: n in WithoutEffectiveFrom(names) <==> n in names && n != EFFECTIVE_FROM
  {
  }

  lemma ModelsDistinct(rows: seq<Row>)
    ensures Duplicates(rows) == {} <==> forall i, j | 0 <= i < j < |rows| :: Model(rows[i]) != Model(rows[j])
  {
    forall i, j | 0 <= i < j < |rows| && Model(rows[i]) == Model(rows[j]) ensures Model(rows[i]) in Duplicates(rows) {}
  }

  lemma {:induction false} AddKeyStep(sem: Semantics, r: Relation, l: Live) returns (l': Live)
    requires RowsFit(l) && l.rel.name == r.name && l.keyName.None? && "model" in r.primaryKey
    requires HasColumns(l.rel, r.primaryKey)
    requires forall n | n in r.primaryKey :: !HasNulls(l.rows, n)
    requires forall i, j | 0 <= i < j < |l.rows| :: Model(l.rows[i]) != Model(l.rows[j])
    ensures ExecTable(sem, l, AddPrimaryKey(r.name, r.primaryKey)) == Some(l')
    ensures l'.rel.primaryKey == r.primaryKey && l'.keyName == Some(KeyConstraintName(r.name)) && l'.rows == l.rows
    ensures l'.rel.(columns := l.rel.columns, primaryKey := l.rel.primaryKey) == l.rel
    ensures forall n :: Lookup(l'.rel.columns, n) ==
              match Lookup(l.rel.columns, n)
              case None => None
              case Some(c) => Some(if n in r.primaryKey then c.(notNull := true) else c)
    ensures RowsFit(l') && Keeps(l, l')
  {
    forall i, j | 0 <= i < j < |l.rows| ensures Project(l.rows[i], r.primaryKey) != Project(l.rows[j], r.primaryKey) {
      assert Project(l.rows[i], r.primaryKey)["model"] == Model(l.rows[i]);
      assert Project(l.rows[j], r.primaryKey)["model"] == Model(l.rows[j]);
    }
    l' := ExecTable(sem, l, AddPrimaryKey(r.name, r.primaryKey)).value;
    ExecTableKeeps(sem, l, AddPrimaryKey(r.name, r.primaryKey));
    forall n ensures Lookup(l'.rel.columns, n) ==
              match Lookup(l.rel.columns, n)
              case None => None
              case Some(c) => Some(if n in r.primaryKey then c.(notNull := true) else c)
    {
      LookupWithNotNull(l.rel.columns, r.primaryKey, n);
    }
  }

  lemma {:induction false} FillStep(sem: Semantics, r: Relation, live: Live, baseline: string) returns (l: Live)
    requires WellFormedTable(r) && WellFormedLive(r, live) && CurrentValued(r, live)
    ensures var filled := BaselineColumn(Lookup(r.columns, EFFECTIVE_FROM).value.typ, baseline);
            ExecTableAll(sem, live, [AddColumn(r.name, filled), DropDefault(r.name, EFFECTIVE_FROM)]) == Some(l)
    ensures OnlyColumn(live, l, EFFECTIVE_FROM, Lookup(r.columns, EFFECTIVE_FROM).value)
    ensures l.rows == Filled(live.rows, EFFECTIVE_FROM, Val(baseline))
  {
    var ef := Lookup(r.columns, EFFECTIVE_FROM).value;
    var filled := BaselineColumn(ef.typ, baseline);
    var s1 := AddColumn(r.name, filled);
    var s2 := DropDefault(r.name, EFFECTIVE_FROM);
    AddColumnStep(sem, live, filled);
    var mid := ExecTable(sem, live, s1).value;
    SetDefaultStep(sem, mid, filled, None);
    l := ExecTable(sem, mid, s2).value;
    OnlyColumnTrans(live, mid, l, EFFECTIVE_FROM, filled, ef);
    ExecTableTwo(sem, live, s1, s2);
  }

  lemma {:induction false} RekeyStep(sem: Semantics, r: Relation, live: Live, l: Live) returns (l': Live)
    requires WellFormedTable(r) && RowsFit(live) && RowsFit(l) && Keeps(live, l) && l.rel.name == r.name
    requires r.name == RATE_CARD && l.keyName.None?
    requires Absent(live.rel, WithoutEffectiveFrom(r.primaryKey)) == [] && Duplicates(live.rows) == {}
    requires NullKeys(live.rows, r.primaryKey) == []
    requires Lookup(l.rel.columns, EFFECTIVE_FROM).Some? && !HasNulls(l.rows, EFFECTIVE_FROM)
    ensures ExecTable(sem, l, AddPrimaryKey(r.name, r.primaryKey)) == Some(l')
    ensures l'.rel.primaryKey == r.primaryKey && l'.keyName == Some(KeyConstraintName(r.name)) && l'.rows == l.rows
    ensures l'.rel.(columns := l.rel.columns, primaryKey := l.rel.primaryKey) == l.rel
    ensures forall n :: Lookup(l'.rel.columns, n) ==
              match Lookup(l.rel.columns, n)
              case None => None
              case Some(c) => Some(if n in r.primaryKey then c.(notNull := true) else c)
    ensures RowsFit(l') && Keeps(l, l')
  {
    KeyColumnsThere(live.rel, r.primaryKey);
    NullKeysNone(live.rows, r.primaryKey);
    ModelsDistinct(live.rows);
    forall n | n in r.primaryKey ensures Lookup(l.rel.columns, n).Some? && !HasNulls(l.rows, n) {
      if n != EFFECTIVE_FROM {
        NullsKept(live, l, n);
      }
    }
    forall i | 0 <= i < |live.rows| ensures Model(l.rows[i]) == Model(live.rows[i]) {
      assert "model" in live.rows[i];
    }
    l' := AddKeyStep(sem, r, l);
  }

  function Restructure(r: Relation, live: Live, baseline: string): seq<seq<Statement>>
    requires Lookup(r.columns, EFFECTIVE_FROM).Some?
  {
    [[AddColumn(r.name, BaselineColumn(Lookup(r.columns, EFFECTIVE_FROM).value.typ, baseline)),
      DropDefault(r.name, EFFECTIVE_FROM)],
     if live.keyName.Some? then [DropConstraint(r.name, live.keyName.value)] else [],
     [AddPrimaryKey(r.name, r.primaryKey)]]
  }

  lemma {:induction false} ExecThree(sem: Semantics, l: Live, a: seq<Statement>, b: seq<Statement>, s: Statement)
    ensures ExecTableAll(sem, l, a + b + [s]) ==
            match ExecTableAll(sem, l, a)
            case None => None
            case Some(m) =>
              match ExecTableAll(sem, m, b) case None => None case Some(n) => ExecTable(sem, n, s)
  {
    ExecTableAllAppend(sem, l, a + b, [s]);
    ExecTableAllAppend(sem, l, a, b);
    if ExecTableAll(sem, l, a + b).Some? {
      ExecTableTwo(sem, ExecTableAll(sem, l, a + b).value, s, s);
    }
  }

  lemma {:induction false} DropKeyStep(sem: Semantics, r: Relation, live: Live, l: Live) returns (l': Live)
    requires RowsFit(l) && l.keyName == live.keyName
    ensures ExecTableAll(sem, l, if live.keyName.Some? then [DropConstraint(r.name, live.keyName.value)] else []) ==
            Some(l')
    ensures l'.keyName.None? && l'.rel.(primaryKey := l.rel.primaryKey) == l.rel && l'.rows == l.rows
    ensures RowsFit(l') && Keeps(l, l')
  {
    if live.keyName.Some? {
      var s := DropConstraint(r.name, live.keyName.value);
      ExecTableTwo(sem, l, s, s);
      l' := ExecTable(sem, l, s).value;
    } else {
      l' := l;
    }
  }

  lemma {:induction false} RateCardSettles(sem: Semantics, r: Relation, live: Live, baseline: Option<string>)
    returns (l: Live)
    requires WellFormedTable(r) && WellFormedLive(r, live) && CurrentValued(r, live)
    requires RateCardDiscrepancy(r, live, baseline).Some?
    requires RateCardDiscrepancy(r, live, baseline).value.resolution == Automatic
    ensures baseline.Some?
    ensures ExecTableAll(sem, live, RateCardDiscrepancy(r, live, baseline).value.statements) == Some(l)
    ensures Rekeyed(r, live, l, baseline.value)
  {
    var parts := Restructure(r, live, baseline.value);
    assert RateCardDiscrepancy(r, live, baseline).value.statements == parts[0] + parts[1] + parts[2];
    var l2 := FillStep(sem, r, live, baseline.value);
    var l3 := DropKeyStep(sem, r, live, l2);
    KeepsTrans(live, l2, l3);
    forall i | 0 <= i < |l3.rows| ensures Get(l3.rows[i], EFFECTIVE_FROM) == Val(baseline.value) {}
    assert Absent(live.rel, WithoutEffectiveFrom(r.primaryKey)) == [];
    l := RekeyStep(sem, r, live, l3);
    KeepsTrans(live, l3, l);
    ExecThree(sem, live, parts[0], parts[1], parts[2][0]);
  }

  // ---- a whole table -------------------------------------------------------------------------

  lemma UniqueKeptStep(sem: Semantics, l: Live, s: Statement)
    requires UniqueNames(l.rel.columns) && ExecTable(sem, l, s).Some?
    ensures UniqueNames(ExecTable(sem, l, s).value.rel.columns)
  {
    hide Satisfied, DistinctOn, NoCollision, HasNulls, HasColumns, Filled;
    var cs, now := l.rel.columns, ExecTable(sem, l, s).value.rel.columns;
    match s
    case DropDefault(_, n) => LookupWithDefault(cs, n, None, n);
    case SetDefault(_, n, d) => LookupWithDefault(cs, n, Some(d), n);
    case SetNotNull(_, n) => LookupWithNotNull(cs, [n], n);
    case AddPrimaryKey(_, key) => LookupWithNotNull(cs, key, "");
    case AddColumn(_, c) =>
      assert now == cs + [c.Plain()] && forall x | x in cs :: x.name != c.name;
      hide ExecTable, Lookup;
    case _ =>
  }

  lemma UniqueKept(sem: Semantics, l: Live, ss: seq<Statement>)
    requires UniqueNames(l.rel.columns) && ExecTableAll(sem, l, ss).Some?
    ensures UniqueNames(ExecTableAll(sem, l, ss).value.rel.columns)
    decreases ss
  {
    hide ExecTable, UniqueNames;
    if ss != [] {
      UniqueKeptStep(sem, l, ss[0]);
      UniqueKept(sem, ExecTable(sem, l, ss[0]).value, ss[1..]);
    }
  }

  // `l` is what the column comparison's statements meet: the table itself, or the re-keyed rate card.
  ghost predicate Met(r: Relation, live: Live, l: Live, baseline: Option<string>) {
    if CurrentValued(r, live) then baseline.Some? && Rekeyed(r, live, l, baseline.value) else l == live
  }

  lemma MetColumns(r: Relation, live: Live, l: Live, baseline: Option<string>)
    requires WellFormedTable(r) && Met(r, live, l, baseline)
    ensures forall c | c in r.columns && !Skipped(r.name, c.name, SkipFor(r, live)) ::
              SameColumn(c, Lookup(live.rel.columns, c.name), Lookup(l.rel.columns, c.name))
    ensures forall n | Lookup(r.columns, n).None? :: Lookup(l.rel.columns, n) == Lookup(live.rel.columns, n)
  {
    forall c | c in r.columns ensures Lookup(r.columns, c.name) == Some(c) {
      LookupUnique(r.columns, c);
    }
  }

  lemma EveryColumnThere(r: Relation, live: Live, l: Live, l1: Live, baseline: Option<string>)
    requires WellFormedTable(r) && Met(r, live, l, baseline) && ColumnsDone(r, r.columns, live, l, l1)
    ensures forall c | c in r.columns && !Exempt(r.name, c.name) ::
              Lookup(l1.rel.columns, c.name) == Some(Landed(live, c))
  {
    forall c | c in r.columns && !Exempt(r.name, c.name)
      ensures Lookup(l1.rel.columns, c.name) == Some(Landed(live, c))
    {
      LookupUnique(r.columns, c);
      if Skipped(r.name, c.name, SkipFor(r, live)) {
        assert c.name == EFFECTIVE_FROM;
        assert Lookup(l1.rel.columns, c.name) == Lookup(l.rel.columns, c.name);
      }
    }
  }

  // ---- what the rows hold when the indexes are made ----------------------------------------------

  // Every row of `l` is the row of `live`, completed.
  ghost predicate RowsCompleted(r: Relation, live: Live, baseline: Option<string>, l: Live) {
    && |l.rows| == |live.rows|
    && forall i, n | 0 <= i < |live.rows| && Lookup(l.rel.columns, n).Some? ::
         Get(l.rows[i], n) == After(r, live, baseline, live.rows[i], n)
  }

  lemma MetCompleted(r: Relation, live: Live, baseline: Option<string>, l: Live)
    requires Met(r, live, l, baseline)
    ensures RowsCompleted(r, live, baseline, l)
  {
  }

  lemma {:induction false} CompletedKept(
    r: Relation, live: Live, baseline: Option<string>, l: Live, now: Live, ss: seq<Statement>)
    requires UniqueNames(r.columns) && RowsFit(l) && RowsFit(now) && Keeps(live, l) && Keeps(l, now)
    requires RowsCompleted(r, live, baseline, l) && OnlyFills(r.name, l, now, ss)
    requires forall s | s in ss && s.AddColumn? && s.table == r.name :: Filling(r, baseline, s.column)
    ensures RowsCompleted(r, live, baseline, now)
  {
    hide Filling, FillFor;
    forall i, n | 0 <= i < |live.rows| && Lookup(now.rel.columns, n).Some?
      ensures Get(now.rows[i], n) == After(r, live, baseline, live.rows[i], n)
    {
      assert n in now.rows[i];
      if n in l.rows[i] {
        assert Lookup(l.rel.columns, n).Some?;
        assert Get(l.rows[i], n) == After(r, live, baseline, live.rows[i], n);
      } else {
        var s :| s in ss && s.AddColumn? && s.table == r.name && s.column.name == n
                 && now.rows[i][n] == s.column.Fill();
        FillingIs(r, baseline, s.column);
        assert Lookup(live.rel.columns, n).None?;
      }
    }
  }

  lemma CollisionsMatch(r: Relation, live: Live, baseline: Option<string>, l: Live, names: seq<string>)
    requires RowsCompleted(r, live, baseline, l) && HasColumns(l.rel, names)
    ensures NoCollision(l.rows, names) <==> NoCollision(Completed(r, live, baseline, names), names)
  {
    var rows := Completed(r, live, baseline, names);
    forall i, j | 0 <= i < j < |rows| ensures Collide(l.rows[i], l.rows[j], names) == Collide(rows[i], rows[j], names) {
      forall n | n in names
        ensures Get(l.rows[i], n) == Get(rows[i], n) && Get(l.rows[j], n) == Get(rows[j], n)
      {
        assert Lookup(l.rel.columns, n).Some?;
      }
    }
  }

  // Once the columns are there, every missing index is acceptable.
  lemma {:induction false} IndexesReady(
    sem: Semantics, r: Relation, live: Live, l: Live, l1: Live, baseline: Option<string>)
    requires WellFormedTable(r) && r.kind == Table && RowsFit(l) && Met(r, live, l, baseline) && Keeps(live, l)
    requires IndexesFit(r, live, baseline)
    requires ExecTableAll(sem, l, Statements(MissingOrWrong(r.name, r.columns, live, SkipFor(r, live)))) == Some(l1)
    requires ColumnsDone(r, r.columns, live, l, l1)
    ensures forall ix | ix in r.indexes && MissingIndex(live, ix) :: IndexReady(ix, l1)
  {
    hide ExecTable, Filling, OnTable, MissingOrWrong, Statements, CurrentValued, Met, Completed, NoCollision, SkipFor;
    var ds := MissingOrWrong(r.name, r.columns, live, SkipFor(r, live));
    var ss := Statements(ds);
    ColumnStatementsOwned(r, live, baseline);
    ExecTableAllKeeps(sem, l, r.name, ss);
    MetCompleted(r, live, baseline, l);
    CompletedKept(r, live, baseline, l, l1, ss);
    EveryColumnThere(r, live, l, l1, baseline);
    forall ix | ix in r.indexes && MissingIndex(live, ix) ensures IndexReady(ix, l1) {
      assert IndexFits(r, live, baseline, ix);
      forall n | n in ix.columns ensures Lookup(l1.rel.columns, n).Some? {
        if !Exempt(r.name, n) { assert Lookup(r.columns, n).value in r.columns; }
      }
      CollisionsMatch(r, live, baseline, l1, ix.columns);
    }
  }

  lemma {:induction false} ColumnStatementsOwned(r: Relation, live: Live, baseline: Option<string>)
    requires r.kind == Table
    ensures forall s | s in Statements(MissingOrWrong(r.name, r.columns, live, SkipFor(r, live))) ::
              s.table == r.name && (s.AddColumn? ==> Filling(r, baseline, s.column))
  {
    hide Filling, MissingOrWrong, Statements, SkipFor;
    var ds := MissingOrWrong(r.name, r.columns, live, SkipFor(r, live));
    ColumnsOwned(r, r.columns, live, baseline);
    InStatements(ds);
    forall s | s in Statements(ds) ensures s.table == r.name && (s.AddColumn? ==> Filling(r, baseline, s.column)) {
      var d :| d in ds && s in d.statements;
      assert OwnedItem(r, Some(live), baseline, d);
      assert Owned(r, Some(live), baseline, s);
    }
  }

  // ---- a whole share -----------------------------------------------------------------------------

  lemma NoExtraAppears(r: Relation, live: Live, l: Live, l1: Live, l': Live, baseline: Option<string>)
    requires WellFormedTable(r) && Met(r, live, l, baseline) && UniqueNames(l'.rel.columns)
    requires ColumnsDone(r, r.columns, live, l, l1) && l'.rel.columns == l1.rel.columns
    requires forall c | c in live.rel.columns :: !BlockingExtra(r, c)
    ensures forall c | c in l'.rel.columns :: !BlockingExtra(r, c)
  {
    MetColumns(r, live, l, baseline);
    forall c | c in l'.rel.columns ensures !BlockingExtra(r, c) {
      LookupUnique(l'.rel.columns, c);
      if Lookup(r.columns, c.name).None? {
        assert Lookup(l1.rel.columns, c.name) == Lookup(live.rel.columns, c.name);
      }
    }
  }

  lemma {:induction false} ShapeParts(sem: Semantics, r: Relation, live: Live)
    requires AllAutomatic(ShapeDiscrepancies(sem, r, live))
    ensures AllAutomatic(MissingOrWrong(r.name, r.columns, live, SkipFor(r, live)))
    ensures AllAutomatic(IndexDiscrepancies(r.name, r.indexes, live))
    ensures AllAutomatic(ConstraintDiscrepancies(sem, r.name, r.constraints, live))
    ensures forall c | c in live.rel.columns :: !BlockingExtra(r, c)
    ensures KeyDiscrepancies(r, live) == []
    ensures Statements(ShapeDiscrepancies(sem, r, live)) ==
            Statements(MissingOrWrong(r.name, r.columns, live, SkipFor(r, live)))
            + Statements(IndexDiscrepancies(r.name, r.indexes, live))
            + Statements(ConstraintDiscrepancies(sem, r.name, r.constraints, live))
  {
    var columns := MissingOrWrong(r.name, r.columns, live, SkipFor(r, live));
    var extra := ExtraDiscrepancies(r, live.rel.columns);
    var key := KeyDiscrepancies(r, live);
    var indexes := IndexDiscrepancies(r.name, r.indexes, live);
    var constraints := ConstraintDiscrepancies(sem, r.name, r.constraints, live);
    AutomaticParts(columns + extra + key + indexes, constraints);
    AutomaticParts(columns + extra + key, indexes);
    AutomaticParts(columns + extra, key);
    AutomaticParts(columns, extra);
    NoBlockingExtra(r, live.rel.columns);
    assert key != [] ==> ByHand(r.name, KeyDiffers(live.rel.primaryKey, r.primaryKey)) in key;
    assert columns + extra + key == columns;
    StatementsAppend(columns + indexes, constraints);
    StatementsAppend(columns, indexes);
  }

  // The three stages, one after the other: columns, indexes, constraints.
  lemma {:induction false} ShapeExecutes(
    sem: Semantics, r: Relation, live: Live, l: Live, baseline: Option<string>) returns (l1: Live, l2: Live, l3: Live)
    requires WellFormedTable(r) && WellFormedLive(r, live) && ShareFits(r, live, baseline)
    requires AllAutomatic(MissingOrWrong(r.name, r.columns, live, SkipFor(r, live)))
    requires AllAutomatic(IndexDiscrepancies(r.name, r.indexes, live))
    requires AllAutomatic(ConstraintDiscrepancies(sem, r.name, r.constraints, live))
    requires KeyDiscrepancies(r, live) == []
    requires Met(r, live, l, baseline) && RowsFit(l) && Keeps(live, l)
    ensures ExecTableAll(sem, l, Statements(MissingOrWrong(r.name, r.columns, live, SkipFor(r, live)))) == Some(l1)
    ensures ExecTableAll(sem, l1, Statements(IndexDiscrepancies(r.name, r.indexes, live))) == Some(l2)
    ensures ExecTableAll(sem, l2, Statements(ConstraintDiscrepancies(sem, r.name, r.constraints, live))) == Some(l3)
    ensures ColumnsDone(r, r.columns, live, l, l1)
    ensures l3.rel.columns == l1.rel.columns && l3.rows == l1.rows
    ensures l3.rel.name == l1.rel.name && l3.rel.kind == l1.rel.kind
    ensures l3.rel.primaryKey == r.primaryKey && l3.keyName == KeyAfter(r, live)
    ensures forall ix | ix in r.indexes :: HasShape(l3.rel.indexes, ix.shape)
    ensures forall k | k in r.constraints :: HasDefinition(l3.rel.constraints, k.definition)
  {
    assert r.columns[..|r.columns|] == r.columns && r.indexes[..|r.indexes|] == r.indexes;
    assert r.constraints[..|r.constraints|] == r.constraints;
    MetColumns(r, live, l, baseline);
    l1 := ColumnsSettle(sem, r, |r.columns|, live, l);
    KeepsTrans(live, l, l1);
    IndexesReady(sem, r, live, l, l1, baseline);
    l2 := IndexesSettle(sem, r, |r.indexes|, live, l1);
    KeepsTrans(live, l1, l2);
    l3 := ConstraintsSettle(sem, r, |r.constraints|, live, l2);
  }

  lemma {:induction false} ShapeSettles(sem: Semantics, r: Relation, live: Live, l: Live, baseline: Option<string>)
    returns (l': Live)
    requires WellFormedTable(r) && WellFormedLive(r, live) && ShareFits(r, live, baseline)
    requires AllAutomatic(ShapeDiscrepancies(sem, r, live))
    requires Met(r, live, l, baseline) && RowsFit(l) && Keeps(live, l) && UniqueNames(l.rel.columns)
    ensures ExecTableAll(sem, l, Statements(ShapeDiscrepancies(sem, r, live))) == Some(l')
    ensures Reconciled(r, live, l') && Keeps(l, l') && RowsFit(l')
  {
    ShapeParts(sem, r, live);
    var l1, l2;
    l1, l2, l' := ShapeExecutes(sem, r, live, l, baseline);
    var columns := Statements(MissingOrWrong(r.name, r.columns, live, SkipFor(r, live)));
    var indexes := Statements(IndexDiscrepancies(r.name, r.indexes, live));
    var constraints := Statements(ConstraintDiscrepancies(sem, r.name, r.constraints, live));
    ExecTableAllAppend(sem, l, columns, indexes);
    ExecTableAllAppend(sem, l, columns + indexes, constraints);
    UniqueKept(sem, l, Statements(ShapeDiscrepancies(sem, r, live)));
    EveryColumnThere(r, live, l, l1, baseline);
    NoExtraAppears(r, live, l, l1, l', baseline);
    KeepsTrans(l, l1, l');
  }

  lemma QuietColumns(r: Relation, cs: seq<Column>, l: Live)
    requires forall c | c in cs && !Exempt(r.name, c.name) :: Lookup(l.rel.columns, c.name) == Some(c)
    ensures MissingOrWrong(r.name, cs, l, {}) == []
  {
  }

  lemma QuietIndexes(r: Relation, ixs: seq<Index>, l: Live)
    requires forall ix | ix in ixs :: HasShape(l.rel.indexes, ix.shape)
    ensures IndexDiscrepancies(r.name, ixs, l) == []
  {
  }

  lemma QuietConstraints(sem: Semantics, r: Relation, ks: seq<Constraint>, l: Live)
    requires forall k | k in ks :: HasDefinition(l.rel.constraints, k.definition)
    ensures ConstraintDiscrepancies(sem, r.name, ks, l) == []
  {
  }

  /** A table's share is empty, whatever the baseline, if and only if nothing compared differs. */
  lemma {:induction false} QuietIffSettled(sem: Semantics, r: Relation, l: Live, baseline: Option<string>)
    requires WellFormedTable(r)
    ensures TableDiscrepancies(sem, r, Some(l), baseline) == Some([]) <==> Settled(r, l)
  {
    if Settled(r, l) {
      SettledIsQuiet(sem, r, l, baseline);
    } else if TableDiscrepancies(sem, r, Some(l), baseline) == Some([]) {
      QuietIsSettled(sem, r, l, baseline);
    }
  }

  lemma {:induction false} SettledIsQuiet(sem: Semantics, r: Relation, l: Live, baseline: Option<string>)
    requires WellFormedTable(r) && Settled(r, l)
    ensures TableDiscrepancies(sem, r, Some(l), baseline) == Some([])
  {
    assert !CurrentValued(r, l);
    QuietColumns(r, r.columns, l);
    NoBlockingExtra(r, l.rel.columns);
    QuietIndexes(r, r.indexes, l);
    QuietConstraints(sem, r, r.constraints, l);
    var none: seq<Discrepancy> := [];
    assert KeyDiscrepancies(r, l) == none;
    assert none + none + none + none + none == none;
    assert ShapeDiscrepancies(sem, r, l) == none;
  }

  lemma {:induction false} QuietIsSettled(sem: Semantics, r: Relation, l: Live, baseline: Option<string>)
    requires TableDiscrepancies(sem, r, Some(l), baseline) == Some([])
    ensures Settled(r, l)
  {
    ShapePlanned(sem, r, l, baseline, []);
    assert !CurrentValued(r, l);
    forall c | c in r.columns && !Exempt(r.name, c.name) ensures Lookup(l.rel.columns, c.name) == Some(c) {
      ColumnPlanned(r, r.columns, c, l, {});
      QuietColumn(r, c, l);
    }
    forall ix | ix in r.indexes ensures HasShape(l.rel.indexes, ix.shape) {
      IndexPlanned(r, r.indexes, ix, l);
      SomeMember(IndexDiscrepancy(r.name, ix, l));
    }
    forall k | k in r.constraints ensures HasDefinition(l.rel.constraints, k.definition) {
      ConstraintPlanned(sem, r, r.constraints, k, l);
      SomeMember(ConstraintDiscrepancy(sem, r.name, k, l));
    }
    NoBlockingExtra(r, l.rel.columns);
    SomeMember(KeyDiscrepancies(r, l));
  }

  // ---- a share of default changes alone ----------------------------------------------------------

  ghost predicate OnlyDefaults(ds: seq<Discrepancy>) {
    forall d | d in ds :: forall s | s in d.statements :: ChangesDefault(s)
  }

  lemma ColumnOnlyDefault(r: Relation, c: Column, l: Live)
    requires Lookup(l.rel.columns, c.name).Some? && Lookup(l.rel.columns, c.name).value.(default := c.default) == c
    ensures OnlyDefaults(ColumnDiscrepancies(r.name, c, l))
  {
  }

  lemma {:induction false} ColumnsOnlyDefaults(r: Relation, cs: seq<Column>, l: Live)
    requires forall c | c in cs && !Exempt(r.name, c.name) ::
               Lookup(l.rel.columns, c.name).Some? && Lookup(l.rel.columns, c.name).value.(default := c.default) == c
    ensures OnlyDefaults(MissingOrWrong(r.name, cs, l, {}))
    decreases |cs|
  {
    hide ColumnDiscrepancies, Exempt;
    if cs != [] {
      var c := cs[|cs| - 1];
      ColumnsOnlyDefaults(r, cs[..|cs| - 1], l);
      if !Exempt(r.name, c.name) {
        ColumnOnlyDefault(r, c, l);
      }
    }
  }

  lemma {:induction false} StandingViewTakes(
    sem: Semantics, r: Relation, l: Live, baseline: Option<string>, ds: seq<Discrepancy>)
    requires WellFormedTable(r) && SettledButDefaults(r, l)
    requires TableDiscrepancies(sem, r, Some(l), baseline) == Some(ds)
    ensures OnlyDefaults(ds)
  {
    assert !CurrentValued(r, l);
    ColumnsOnlyDefaults(r, r.columns, l);
    NoBlockingExtra(r, l.rel.columns);
    QuietIndexes(r, r.indexes, l);
    QuietConstraints(sem, r, r.constraints, l);
    hide SettledButDefaults, WellFormedTable, MissingOrWrong, ExtraDiscrepancies, IndexDiscrepancies,
         ConstraintDiscrepancies, OnlyDefaults;
    var columns := MissingOrWrong(r.name, r.columns, l, {});
    assert ds == columns + [] + [] + [] + [] == columns;
  }

  // An automatic item that changes defaults and nothing else.
  ghost predicate AltersDefaults(d: Discrepancy) {
    d.resolution == Automatic && d.statements != [] && forall s | s in d.statements :: ChangesDefault(s)
  }

  lemma ColumnButDefault(r: Relation, c: Column, l: Live)
    requires forall d | d in ColumnDiscrepancies(r.name, c, l) :: AltersDefaults(d)
    ensures Lookup(l.rel.columns, c.name).Some? && Lookup(l.rel.columns, c.name).value.(default := c.default) == c
  {
    var ds := ColumnDiscrepancies(r.name, c, l);
    assert ds != [] ==> ds[0] in ds && AltersDefaults(ds[0]) && ChangesDefault(ds[0].statements[0]);
  }

  lemma IndexNotDefault(r: Relation, ix: Index, l: Live)
    requires forall d | d in IndexDiscrepancy(r.name, ix, l) :: AltersDefaults(d)
    ensures HasShape(l.rel.indexes, ix.shape)
  {
    var ds := IndexDiscrepancy(r.name, ix, l);
    assert ds != [] ==> ds[0] in ds && AltersDefaults(ds[0]) && ChangesDefault(ds[0].statements[0]);
  }

  lemma ConstraintNotDefault(sem: Semantics, r: Relation, k: Constraint, l: Live)
    requires forall d | d in ConstraintDiscrepancy(sem, r.name, k, l) :: AltersDefaults(d)
    ensures HasDefinition(l.rel.constraints, k.definition)
  {
    hide Satisfied, Absent;
    var ds := ConstraintDiscrepancy(sem, r.name, k, l);
    assert ds != [] ==> ds[0] in ds && AltersDefaults(ds[0]) && ChangesDefault(ds[0].statements[0]);
  }

  lemma CardNotDefault(r: Relation, l: Live, baseline: Option<string>)
    requires RateCardDiscrepancy(r, l, baseline).Some?
    ensures !AltersDefaults(RateCardDiscrepancy(r, l, baseline).value)
  {
    var d := RateCardDiscrepancy(r, l, baseline).value;
    hide Duplicates, SubscriptionOnly, NullKeys, Absent;
    if d.resolution == Automatic {
      assert d.statements[0].AddColumn? && d.statements[0] in d.statements;
    }
  }

  /** A share that is automatic and only changes defaults belongs to a table that differs in nothing else. */
  lemma {:induction false} OnlyDefaultsDiffer(
    sem: Semantics, r: Relation, l: Live, baseline: Option<string>, ds: seq<Discrepancy>)
    requires TableDiscrepancies(sem, r, Some(l), baseline) == Some(ds) && forall d | d in ds :: AltersDefaults(d)
    ensures SettledButDefaults(r, l)
  {
    hide AltersDefaults, MissingOrWrong, IndexDiscrepancies, ConstraintDiscrepancies, ColumnDiscrepancies,
         IndexDiscrepancy, ConstraintDiscrepancy, RateCardDiscrepancy, ShapeDiscrepancies;
    ShapePlanned(sem, r, l, baseline, ds);
    var card := RateCardDiscrepancy(r, l, baseline);
    assert CurrentValued(r, l) ==> card.Some? && card.value in ds;
    if card.Some? {
      CardNotDefault(r, l, baseline);
    }
    assert !CurrentValued(r, l);
    forall c | c in r.columns && !Exempt(r.name, c.name)
      ensures Lookup(l.rel.columns, c.name).Some? && Lookup(l.rel.columns, c.name).value.(default := c.default) == c
    {
      ColumnPlanned(r, r.columns, c, l, {});
      ColumnButDefault(r, c, l);
    }
    forall ix | ix in r.indexes ensures HasShape(l.rel.indexes, ix.shape) {
      IndexPlanned(r, r.indexes, ix, l);
      IndexNotDefault(r, ix, l);
    }
    forall k | k in r.constraints ensures HasDefinition(l.rel.constraints, k.definition) {
      ConstraintPlanned(sem, r, r.constraints, k, l);
      ConstraintNotDefault(sem, r, k, l);
    }
    NothingByHand(r, l);
  }

  lemma NothingByHand(r: Relation, l: Live)
    requires forall d | d in ExtraDiscrepancies(r, l.rel.columns) :: AltersDefaults(d)
    requires !CurrentValued(r, l) && forall d | d in KeyDiscrepancies(r, l) :: AltersDefaults(d)
    ensures l.rel.primaryKey == r.primaryKey && forall c | c in l.rel.columns :: !BlockingExtra(r, c)
  {
    NoBlockingExtra(r, l.rel.columns);
    assert KeyDiscrepancies(r, l) != [] ==>
             ByHand(r.name, KeyDiffers(l.rel.primaryKey, r.primaryKey)) in KeyDiscrepancies(r, l);
    hide BlockingExtra, ExtraDiscrepancies;
  }

  lemma SomeMember(ds: seq<Discrepancy>)
    ensures ds != [] ==> exists d :: d in ds
  {
    if ds != [] { assert ds[0] in ds; }
  }

  lemma QuietColumn(r: Relation, c: Column, l: Live)
    requires forall d | d in ColumnDiscrepancies(r.name, c, l) :: false
    ensures Lookup(l.rel.columns, c.name) == Some(c)
  {
    var ds := ColumnDiscrepancies(r.name, c, l);
    SomeMember(ds);
    if Lookup(l.rel.columns, c.name).Some? {
      var found := Lookup(l.rel.columns, c.name).value;
      assert found.default == c.default && found.notNull == c.notNull;
    }
  }

  /** Executing a table's all-automatic discrepancies succeeds where they fit the live table, and leaves
      every column, as it lands, and the key, indexes and constraints of the reference. */
  lemma {:induction false} TableSettles(
    sem: Semantics, r: Relation, live: Live, baseline: Option<string>, ds: seq<Discrepancy>) returns (l: Live)
    requires WellFormedTable(r) && WellFormedLive(r, live) && ShareFits(r, live, baseline)
    requires TableDiscrepancies(sem, r, Some(live), baseline) == Some(ds) && AllAutomatic(ds)
    ensures ExecTableAll(sem, live, Statements(ds)) == Some(l)
    ensures Reconciled(r, live, l) && RowsFit(l) && Keeps(live, l)
    ensures NoGeneratedAdded(r, live) ==> Settled(r, l)
  {
    var shape := ShapeDiscrepancies(sem, r, live);
    if CurrentValued(r, live) {
      var d := RateCardDiscrepancy(r, live, baseline).value;
      assert d == ds[0];
      var rekeyed := RateCardSettles(sem, r, live, baseline);
      UniqueKept(sem, live, d.statements);
      AutomaticParts([d], shape);
      StatementsAppend([d], shape);
      StatementsOne(d);
      l := ShapeSettles(sem, r, live, rekeyed, baseline);
      ExecTableAllAppend(sem, live, d.statements, Statements(shape));
      KeepsTrans(live, rekeyed, l);
    } else {
      l := ShapeSettles(sem, r, live, live, baseline);
    }
    if NoGeneratedAdded(r, live) {
      SettledWhenNoneGenerated(r, live, l);
    }
  }
}
