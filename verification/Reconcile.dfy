// The reconciler: how a live schema is compared with the reference, and how the plan is applied.
module Reconcile {
  import opened Base
  import opened Catalog

  const USAGE_TABLE := "gateway_usage"
  const RATE_CARD := "model_pricing_rates"
  const EFFECTIVE_FROM := "effective_from"

  /** The schema the migrations build: its relations, and per view the table columns it selects. */
  datatype Reference = Reference(relations: seq<Relation>, needs: map<string, map<string, set<string>>>)

  datatype Resolution = Automatic | Manual

  datatype Finding =
    | RateCardKeyAbsent(absent: seq<string>)
    | RateCardDuplicates(models: set<Cell>)
    | RateCardSubscriptionOnly(models: set<Cell>)
    | RateCardNeedsBaseline
    | RateCardNullKey(columns: seq<string>)
    | RateCardRestructure(baseline: string)
    | ColumnMissing(column: Column)
    | ColumnUnfillable(column: Column)
    | GeneratedDiffers(name: string, generated: bool)
    | IdentityDiffers(name: string, identity: bool)
    | TypeDiffers(name: string, live: string, wanted: string)
    | HoldsNulls(name: string)
    | Nullable(name: string)
    | Required(name: string)
    | DefaultUnwanted(name: string, found: Option<Default>)
    | DefaultDiffers(name: string, found: Option<Default>)
    | ExtraUnwritable(name: string, typ: string)
    | KeyDiffers(liveKey: seq<string>, wantedKey: seq<string>)
    | TableAbsent
    | IndexNameTaken(name: string)
    | IndexMissing(shape: string)
    | ConstraintColumnsAbsent(name: string, absent: seq<string>)
    | ConstraintNameTaken(name: string)
    | ConstraintUncheckable(name: string)
    | ConstraintViolated(name: string)
    | ConstraintMissing(name: string)
    | ViewAbsent
    | NotAView(kind: Kind)
    | ViewHasDependents(dependents: seq<string>)
    | ViewDiffers(liveColumns: seq<string>)

  datatype Discrepancy = Discrepancy(
    relation: string, finding: Finding, resolution: Resolution, statements: seq<Statement>)

  function ByHand(relation: string, f: Finding): Discrepancy { Discrepancy(relation, f, Manual, []) }

  function ByTool(relation: string, f: Finding, ss: seq<Statement>): Discrepancy {
    Discrepancy(relation, f, Automatic, ss)
  }

  // ---- a plan as a whole -----------------------------------------------------------------

  // Every statement of a plan, in execution order.
  function Statements(ds: seq<Discrepancy>): seq<Statement> {
    if ds == [] then [] else Statements(ds[..|ds| - 1]) + ds[|ds| - 1].statements
  }

  predicate AllAutomatic(ds: seq<Discrepancy>) {
    forall d | d in ds :: d.resolution == Automatic
  }

  // ---- the rate card ---------------------------------------------------------------------

  function Model(row: Row): Cell { Get(row, "model") }

  // GROUP BY model HAVING COUNT(*) > 1; NULL models form one group.
  function Duplicates(rows: seq<Row>): set<Cell> {
    set i, j | 0 <= i < |rows| && 0 <= j < |rows| && i < j && Model(rows[i]) == Model(rows[j]) :: Model(rows[i])
  }

  // GROUP BY model HAVING COUNT(*) = 1 AND MAX(pricing_mode) = 'subscription'.
  function SubscriptionOnly(rows: seq<Row>): set<Cell> {
    set i | 0 <= i < |rows|
            && Get(rows[i], "pricing_mode") == Val("subscription")
            && (forall j | 0 <= j < |rows| && j != i :: Model(rows[j]) != Model(rows[i]))
         :: Model(rows[i])
  }

  // The names of `names` that are not columns of `rel`, in order.
  function Absent(rel: Relation, names: seq<string>): seq<string> {
    if names == [] then []
    else (if Lookup(rel.columns, names[0]).None? then [names[0]] else []) + Absent(rel, names[1..])
  }

  function NullKeys(rows: seq<Row>, names: seq<string>): seq<string> {
    if names == [] then []
    else (if names[0] != EFFECTIVE_FROM && HasNulls(rows, names[0]) then [names[0]] else [])
         + NullKeys(rows, names[1..])
  }

  function WithoutEffectiveFrom(names: seq<string>): seq<string> {
    if names == [] then []
    else (if names[0] != EFFECTIVE_FROM then [names[0]] else []) + WithoutEffectiveFrom(names[1..])
  }

  function BaselineColumn(typ: string, baseline: string): Column {
    Column(EFFECTIVE_FROM, typ, true, Some(Constant(Val(baseline))), "", "")
  }

  function RestructureStatements(ref: Relation, live: Live, baseline: string): seq<Statement> {
    var typ := match Lookup(ref.columns, EFFECTIVE_FROM) case Some(c) => c.typ case None => "";
    [AddColumn(ref.name, BaselineColumn(typ, baseline)), DropDefault(ref.name, EFFECTIVE_FROM)]
    + (if live.keyName.Some? then [DropConstraint(ref.name, live.keyName.value)] else [])
    + [AddPrimaryKey(ref.name, ref.primaryKey)]
  }

  // `None` is the TypeError of joining a NULL model into the description.
  function RateCardDiscrepancy(ref: Relation, live: Live, baseline: Option<string>): Option<Discrepancy> {
    var absent := Absent(live.rel, WithoutEffectiveFrom(ref.primaryKey));
    if absent != [] then Some(ByHand(ref.name, RateCardKeyAbsent(absent)))
    else if Duplicates(live.rows) != {} then
      if Null in Duplicates(live.rows) then None
      else Some(ByHand(ref.name, RateCardDuplicates(Duplicates(live.rows))))
    else if Lookup(live.rel.columns, "pricing_mode").Some? && SubscriptionOnly(live.rows) != {} then
      if Null in SubscriptionOnly(live.rows) then None
      else Some(ByHand(ref.name, RateCardSubscriptionOnly(SubscriptionOnly(live.rows))))
    else if baseline.None? then Some(ByHand(ref.name, RateCardNeedsBaseline))
    else if NullKeys(live.rows, ref.primaryKey) != [] then
      Some(ByHand(ref.name, RateCardNullKey(NullKeys(live.rows, ref.primaryKey))))
    else
      Some(ByTool(ref.name, RateCardRestructure(baseline.value), RestructureStatements(ref, live, baseline.value)))
  }

  // ---- columns ---------------------------------------------------------------------------

  predicate Exempt(relation: string, column: string) {
    relation == USAGE_TABLE && column == "id"
  }

  function BackfillValue(relation: string, column: string): Option<Cell> {
    if relation == USAGE_TABLE && column == "schema_version" then Some(Val("1")) else None
  }

  // How to add a column honestly, or `None` when there is no way to.
  function AddColumnStatements(relation: string, c: Column): Option<seq<Statement>> {
    if c.default.Some? then
      if c.default.value.Volatile? then None else Some([AddColumn(relation, c.Plain())])
    else if !c.notNull then Some([AddColumn(relation, c.Plain())])
    else match BackfillValue(relation, c.name)
      case None => None
      case Some(v) =>
        Some([AddColumn(relation, c.Plain().(default := Some(Constant(v)))), DropDefault(relation, c.name)])
  }

  function MissingColumn(relation: string, c: Column): Discrepancy {
    match AddColumnStatements(relation, c)
    case None => ByHand(relation, ColumnUnfillable(c))
    case Some(ss) => ByTool(relation, ColumnMissing(c), ss)
  }

  function NullabilityDiscrepancies(relation: string, c: Column, found: Column, rows: seq<Row>): seq<Discrepancy> {
    if c.notNull && !found.notNull then
      if HasNulls(rows, c.name) then [ByHand(relation, HoldsNulls(c.name))]
      else [ByTool(relation, Nullable(c.name), [SetNotNull(relation, c.name)])]
    else if found.notNull && !c.notNull then [ByHand(relation, Required(c.name))]
    else []
  }

  function DefaultDiscrepancies(relation: string, c: Column, found: Column): seq<Discrepancy> {
    if found.default == c.default then []
    else if c.default.None? then
      [ByTool(relation, DefaultUnwanted(c.name, found.default), [DropDefault(relation, c.name)])]
    else
      [ByTool(relation, DefaultDiffers(c.name, found.default), [SetDefault(relation, c.name, c.default.value)])]
  }

  function ColumnDiscrepancies(relation: string, c: Column, live: Live): seq<Discrepancy> {
    match Lookup(live.rel.columns, c.name)
    case None => [MissingColumn(relation, c)]
    case Some(found) =>
      if found.generated != c.generated then [ByHand(relation, GeneratedDiffers(c.name, found.generated != ""))]
      else if found.identity != c.identity then [ByHand(relation, IdentityDiffers(c.name, found.identity != ""))]
      else if found.typ != c.typ then [ByHand(relation, TypeDiffers(c.name, found.typ, c.typ))]
      else NullabilityDiscrepancies(relation, c, found, live.rows) + DefaultDiscrepancies(relation, c, found)
  }

  predicate Skipped(relation: string, column: string, skip: set<string>) {
    column in skip || Exempt(relation, column)
  }

  function MissingOrWrong(relation: string, cs: seq<Column>, live: Live, skip: set<string>): seq<Discrepancy> {
    if cs == [] then []
    else
      var c := cs[|cs| - 1];
      MissingOrWrong(relation, cs[..|cs| - 1], live, skip)
      + (if Skipped(relation, c.name, skip) then [] else ColumnDiscrepancies(relation, c, live))
  }

  // A column the writer's INSERT does not name and the server cannot supply.
  predicate Unwritable(c: Column) { c.notNull && c.default.None? && c.identity == "" }

  predicate BlockingExtra(ref: Relation, c: Column) {
    && Lookup(ref.columns, c.name).None?
    && !Exempt(ref.name, c.name)
    && Unwritable(c)
    && ref.name == USAGE_TABLE
  }

  function ExtraDiscrepancies(ref: Relation, cs: seq<Column>): seq<Discrepancy> {
    if cs == [] then []
    else
      var c := cs[|cs| - 1];
      ExtraDiscrepancies(ref, cs[..|cs| - 1])
      + (if BlockingExtra(ref, c) then [ByHand(ref.name, ExtraUnwritable(c.name, c.typ))] else [])
  }

  lemma NextColumn(relation: string, cs: seq<Column>, i: nat, live: Live, skip: set<string>)
    requires i < |cs|
    ensures MissingOrWrong(relation, cs[..i + 1], live, skip) ==
            MissingOrWrong(relation, cs[..i], live, skip)
            + (if Skipped(relation, cs[i].name, skip) then [] else ColumnDiscrepancies(relation, cs[i], live))
  {
    assert cs[..i + 1][..i] == cs[..i];
    hide ColumnDiscrepancies, Skipped;
  }

  lemma NextExtra(ref: Relation, cs: seq<Column>, i: nat)
    requires i < |cs|
    ensures ExtraDiscrepancies(ref, cs[..i + 1]) ==
            ExtraDiscrepancies(ref, cs[..i])
            + (if BlockingExtra(ref, cs[i]) then [ByHand(ref.name, ExtraUnwritable(cs[i].name, cs[i].typ))] else [])
  {
    assert cs[..i + 1][..i] == cs[..i];
    hide BlockingExtra;
  }

  method CompareColumns(ref: Relation, live: Live, skip: set<string>) returns (ds: seq<Discrepancy>)
    ensures ds == MissingOrWrong(ref.name, ref.columns, live, skip) + ExtraDiscrepancies(ref, live.rel.columns)
  {
    ds := [];
    for i := 0 to |ref.columns|
      invariant ds == MissingOrWrong(ref.name, ref.columns[..i], live, skip)
    {
      var c := ref.columns[i];
      NextColumn(ref.name, ref.columns, i, live, skip);
      if !Skipped(ref.name, c.name, skip) {
        ds := ds + ColumnDiscrepancies(ref.name, c, live);
      }
    }
    assert ref.columns[..|ref.columns|] == ref.columns;
    hide MissingOrWrong, ColumnDiscrepancies, Skipped, BlockingExtra;
    ghost var before := ds;
    for i := 0 to |live.rel.columns|
      invariant ds == before + ExtraDiscrepancies(ref, live.rel.columns[..i])
    {
      var c := live.rel.columns[i];
      NextExtra(ref, live.rel.columns, i);
      if BlockingExtra(ref, c) {
        ds := ds + [ByHand(ref.name, ExtraUnwritable(c.name, c.typ))];
      }
    }
    assert live.rel.columns[..|live.rel.columns|] == live.rel.columns;
  }

  // ---- indexes ---------------------------------------------------------------------------

  predicate HasShape(ixs: seq<Index>, shape: string) {
    exists ix | ix in ixs :: ix.shape == shape
  }

  predicate HasIndexName(ixs: seq<Index>, name: string) {
    exists ix | ix in ixs :: ix.name == name
  }

  function IndexDiscrepancy(relation: string, ix: Index, live: Live): seq<Discrepancy> {
    if HasShape(live.rel.indexes, ix.shape) then []
    else if ix.name != "" && HasIndexName(live.rel.indexes, ix.name) then [ByHand(relation, IndexNameTaken(ix.name))]
    else [ByTool(relation, IndexMissing(ix.shape), [CreateIndex(relation, ix)])]
  }

  function IndexDiscrepancies(relation: string, ixs: seq<Index>, live: Live): seq<Discrepancy> {
    if ixs == [] then []
    else IndexDiscrepancies(relation, ixs[..|ixs| - 1], live) + IndexDiscrepancy(relation, ixs[|ixs| - 1], live)
  }

  method CompareIndexes(ref: Relation, live: Live) returns (ds: seq<Discrepancy>)
    ensures ds == IndexDiscrepancies(ref.name, ref.indexes, live)
  {
    ds := [];
    for i := 0 to |ref.indexes|
      invariant ds == IndexDiscrepancies(ref.name, ref.indexes[..i], live)
    {
      assert ref.indexes[..i + 1][..i] == ref.indexes[..i];
      ds := ds + IndexDiscrepancy(ref.name, ref.indexes[i], live);
    }
    assert ref.indexes[..|ref.indexes|] == ref.indexes;
  }

  // ---- constraints -----------------------------------------------------------------------

  predicate HasDefinition(cs: seq<Constraint>, definition: string) {
    exists c | c in cs :: c.definition == definition
  }

  predicate HasConstraintName(cs: seq<Constraint>, name: string) {
    exists c | c in cs :: c.name == name
  }

  function ConstraintDiscrepancy(sem: Semantics, relation: string, c: Constraint, live: Live): seq<Discrepancy> {
    if HasDefinition(live.rel.constraints, c.definition) then []
    else if Absent(live.rel, c.columns) != [] then
      [ByHand(relation, ConstraintColumnsAbsent(c.name, Absent(live.rel, c.columns)))]
    else if HasConstraintName(live.rel.constraints, c.name) then [ByHand(relation, ConstraintNameTaken(c.name))]
    else if !sem.isCheck(c.definition) then [ByHand(relation, ConstraintUncheckable(c.name))]
    else if !Satisfied(sem, live.rows, c) then [ByHand(relation, ConstraintViolated(c.name))]
    else [ByTool(relation, ConstraintMissing(c.name), [AddConstraint(relation, c)])]
  }

  function ConstraintDiscrepancies(
    sem: Semantics, relation: string, cs: seq<Constraint>, live: Live): seq<Discrepancy>
  {
    if cs == [] then []
    else ConstraintDiscrepancies(sem, relation, cs[..|cs| - 1], live)
         + ConstraintDiscrepancy(sem, relation, cs[|cs| - 1], live)
  }

  lemma NextConstraint(sem: Semantics, relation: string, cs: seq<Constraint>, i: nat, live: Live)
    requires i < |cs|
    ensures ConstraintDiscrepancies(sem, relation, cs[..i + 1], live) ==
            ConstraintDiscrepancies(sem, relation, cs[..i], live) + ConstraintDiscrepancy(sem, relation, cs[i], live)
  {
    assert cs[..i + 1][..i] == cs[..i];
  }

  method CompareConstraints(sem: Semantics, ref: Relation, live: Live) returns (ds: seq<Discrepancy>)
    ensures ds == ConstraintDiscrepancies(sem, ref.name, ref.constraints, live)
  {
    ds := [];
    for i := 0 to |ref.constraints|
      invariant ds == ConstraintDiscrepancies(sem, ref.name, ref.constraints[..i], live)
    {
      NextConstraint(sem, ref.name, ref.constraints, i, live);
      ds := ds + ConstraintDiscrepancy(sem, ref.name, ref.constraints[i], live);
    }
    assert ref.constraints[..|ref.constraints|] == ref.constraints;
  }

  // ---- one relation ----------------------------------------------------------------------

  function ColumnNames(cs: seq<Column>): seq<string> {
    seq(|cs|, i requires 0 <= i < |cs| => cs[i].name)
  }

  function ViewDiscrepancies(ref: Relation, needs: map<string, set<string>>, live: Option<Live>): seq<Discrepancy> {
    if live.None? then [ByTool(ref.name, ViewAbsent, [CreateView(ref.name, ref, needs)])]
    else if live.value.rel.kind != ref.kind then [ByHand(ref.name, NotAView(live.value.rel.kind))]
    else if ColumnNames(live.value.rel.columns) == ColumnNames(ref.columns) then []
    else if live.value.dependents != [] then [ByHand(ref.name, ViewHasDependents(live.value.dependents))]
    else
      [ByTool(ref.name, ViewDiffers(ColumnNames(live.value.rel.columns)),
              [DropView(ref.name), CreateView(ref.name, ref, needs)])]
  }

  predicate CurrentValued(ref: Relation, live: Live) {
    ref.name == RATE_CARD && Lookup(live.rel.columns, EFFECTIVE_FROM).None?
  }

  function SkipFor(ref: Relation, live: Live): set<string> {
    if CurrentValued(ref, live) then {EFFECTIVE_FROM} else {}
  }

  function KeyDiscrepancies(ref: Relation, live: Live): seq<Discrepancy> {
    if !CurrentValued(ref, live) && live.rel.primaryKey != ref.primaryKey
    then [ByHand(ref.name, KeyDiffers(live.rel.primaryKey, ref.primaryKey))]
    else []
  }

  // What a present table needs, beyond the rate card's restructure.
  function ShapeDiscrepancies(sem: Semantics, ref: Relation, live: Live): seq<Discrepancy> {
    MissingOrWrong(ref.name, ref.columns, live, SkipFor(ref, live))
    + ExtraDiscrepancies(ref, live.rel.columns)
    + KeyDiscrepancies(ref, live)
    + IndexDiscrepancies(ref.name, ref.indexes, live)
    + ConstraintDiscrepancies(sem, ref.name, ref.constraints, live)
  }

  function TableDiscrepancies(
    sem: Semantics, ref: Relation, live: Option<Live>, baseline: Option<string>): Option<seq<Discrepancy>>
  {
    if live.None? then Some([ByHand(ref.name, TableAbsent)])
    else if CurrentValued(ref, live.value) then
      match RateCardDiscrepancy(ref, live.value, baseline)
      case None => None
      case Some(d) => Some([d] + ShapeDiscrepancies(sem, ref, live.value))
    else Some(ShapeDiscrepancies(sem, ref, live.value))
  }

  function Find(db: Schema, name: string): Option<Live> {
    if name in db.relations then Some(db.relations[name]) else None
  }

  function NeedsOf(ref: Reference, view: string): map<string, set<string>> {
    if view in ref.needs then ref.needs[view] else map[]
  }

  function RelationDiscrepancies(
    sem: Semantics, ref: Reference, r: Relation, db: Schema, baseline: Option<string>): Option<seq<Discrepancy>>
  {
    if r.kind != Table then Some(ViewDiscrepancies(r, NeedsOf(ref, r.name), Find(db, r.name)))
    else TableDiscrepancies(sem, r, Find(db, r.name), baseline)
  }

  // ---- all relations ---------------------------------------------------------------------

  predicate TextLe(a: string, b: string) {
    if a == [] then true else if b == [] then false
    else if a[0] != b[0] then a[0] < b[0] else TextLe(a[1..], b[1..])
  }

  function Insert(r: Relation, rs: seq<Relation>): seq<Relation> {
    if rs == [] || TextLe(r.name, rs[0].name) then [r] + rs else [rs[0]] + Insert(r, rs[1..])
  }

  function Sorted(rs: seq<Relation>, tables: bool): seq<Relation> {
    if rs == [] then []
    else if (rs[0].kind == Table) == tables then Insert(rs[0], Sorted(rs[1..], tables))
    else Sorted(rs[1..], tables)
  }

  // Tables first, then views, each alphabetically.
  function Ordered(rs: seq<Relation>): seq<Relation> {
    Sorted(rs, true) + Sorted(rs, false)
  }

  function PlanOver(
    sem: Semantics, ref: Reference, rs: seq<Relation>, db: Schema, baseline: Option<string>): Option<seq<Discrepancy>>
  {
    if rs == [] then Some([])
    else
      match PlanOver(sem, ref, rs[..|rs| - 1], db, baseline)
      case None => None
      case Some(before) =>
        match RelationDiscrepancies(sem, ref, rs[|rs| - 1], db, baseline)
        case None => None
        case Some(here) => Some(before + here)
  }

  // The plan, or `None` where building its text raises.
  function PlanOf(sem: Semantics, ref: Reference, db: Schema, baseline: Option<string>): Option<seq<Discrepancy>> {
    PlanOver(sem, ref, Ordered(ref.relations), db, baseline)
  }

  lemma {:induction false} PlanOverFails(
    sem: Semantics, ref: Reference, rs: seq<Relation>, i: nat, db: Schema, baseline: Option<string>)
    requires i <= |rs| && PlanOver(sem, ref, rs[..i], db, baseline).None?
    ensures PlanOver(sem, ref, rs, db, baseline).None?
    decreases |rs|
  {
    if i == |rs| {
      assert rs[..i] == rs;
    } else {
      assert rs[..|rs| - 1][..i] == rs[..i];
      PlanOverFails(sem, ref, rs[..|rs| - 1], i, db, baseline);
    }
  }

  method CompareTable(sem: Semantics, r: Relation, live: Option<Live>, baseline: Option<string>)
    returns (ds: Option<seq<Discrepancy>>)
    ensures ds == TableDiscrepancies(sem, r, live, baseline)
  {
    if live.None? {
      return Some([ByHand(r.name, TableAbsent)]);
    }
    var here := [];
    if CurrentValued(r, live.value) {
      var card := RateCardDiscrepancy(r, live.value, baseline);
      if card.None? {
        return None;
      }
      here := [card.value];
    }
    var columns := CompareColumns(r, live.value, SkipFor(r, live.value));
    var indexes := CompareIndexes(r, live.value);
    var constraints := CompareConstraints(sem, r, live.value);
    var shape := columns + KeyDiscrepancies(r, live.value) + indexes + constraints;
    assert shape == ShapeDiscrepancies(sem, r, live.value);
    assert [] + shape == shape;
    return Some(here + shape);
  }

  lemma NextRelation(sem: Semantics, ref: Reference, rs: seq<Relation>, i: nat, db: Schema, baseline: Option<string>)
    requires i < |rs|
    ensures PlanOver(sem, ref, rs[..i + 1], db, baseline) ==
            match PlanOver(sem, ref, rs[..i], db, baseline)
            case None => None
            case Some(before) =>
              match RelationDiscrepancies(sem, ref, rs[i], db, baseline)
              case None => None
              case Some(here) => Some(before + here)
  {
    assert rs[..i + 1][..i] == rs[..i];
  }

  // What `_plan` finds for one relation.
  method CompareRelation(sem: Semantics, ref: Reference, r: Relation, db: Schema, baseline: Option<string>)
    returns (ds: Option<seq<Discrepancy>>)
    ensures ds == RelationDiscrepancies(sem, ref, r, db, baseline)
  {
    var live := Find(db, r.name);
    if r.kind != Table {
      return Some(ViewDiscrepancies(r, NeedsOf(ref, r.name), live));
    }
    ds := CompareTable(sem, r, live, baseline);
  }

  method MakePlan(sem: Semantics, ref: Reference, db: Schema, baseline: Option<string>)
    returns (plan: Option<seq<Discrepancy>>)
    ensures plan == PlanOf(sem, ref, db, baseline)
  {
    var rs := Ordered(ref.relations);
    var ds: seq<Discrepancy> := [];
    for i := 0 to |rs|
      invariant PlanOver(sem, ref, rs[..i], db, baseline) == Some(ds)
    {
      NextRelation(sem, ref, rs, i, db, baseline);
      var here := CompareRelation(sem, ref, rs[i], db, baseline);
      if here.None? {
        PlanOverFails(sem, ref, rs, i + 1, db, baseline);
        return None;
      }
      ds := ds + here.value;
    }
    assert rs[..|rs|] == rs;
    return Some(ds);
  }

  // ---- apply -----------------------------------------------------------------------------

  datatype Outcome =
    | Applied(plan: seq<Discrepancy>)
    | BaselineDisagrees
    | PlanFailed
    | PlanStale
    | NeedsDecision
    | StatementFailed

  /** A plan as the operator read it: what was found, and the baseline it was made with. */
  datatype ReadPlan = ReadPlan(discrepancies: seq<Discrepancy>, baseline: Option<string>)

  // How a call ends, from what the operator read and what the schema is now.
  function Verdict(
    existing: Option<ReadPlan>, baseline: Option<string>, sem: Semantics, ref: Reference, db: Schema): Outcome
  {
    if existing.Some? && baseline.Some? && baseline != existing.value.baseline then BaselineDisagrees
    else
      match PlanOf(sem, ref, db, if existing.Some? then existing.value.baseline else baseline)
      case None => PlanFailed
      case Some(current) =>
        if existing.Some? && existing.value.discrepancies != current then PlanStale
        else if !AllAutomatic(current) then NeedsDecision
        else if ExecAll(sem, db, Statements(current)).None? then StatementFailed
        else Applied(current)
  }

  /** A transactional connection: `committed` is what other sessions see. */
  class Connection {
    var committed: Schema

    constructor (db: Schema)
      ensures committed == db
    {
      committed := db;
    }

    // Executes inside the open transaction: the schema it would leave, or `None` at the first failure.
    method ExecuteEach(sem: Semantics, ss: seq<Statement>) returns (left: Option<Schema>)
      ensures left == ExecAll(sem, committed, ss)
    {
      var working := committed;
      for i := 0 to |ss|
        invariant ExecAll(sem, committed, ss[..i]) == Some(working)
      {
        assert ss[..i + 1] == ss[..i] + [ss[i]];
        ExecAllAppend(sem, committed, ss[..i], [ss[i]]);
        var next := Exec(sem, working, ss[i]);
        if next.None? {
          assert ss == ss[..i + 1] + ss[i + 1..];
          ExecAllAppend(sem, committed, ss[..i + 1], ss[i + 1..]);
          return None;
        }
        working := next.value;
      }
      assert ss[..|ss|] == ss;
      return Some(working);
    }

    /** Each refusal has its one cause, and nothing is applied but the plan that was read, made again under its
        own baseline, with every item of it automatic. */
    method Apply(sem: Semantics, ref: Reference, existing: Option<ReadPlan>, baseline: Option<string>)
      returns (outcome: Outcome)
      modifies this
      ensures !outcome.Applied? ==> committed == old(committed)
      ensures outcome == Verdict(existing, baseline, sem, ref, old(committed))
      ensures outcome.Applied? ==> ExecAll(sem, old(committed), Statements(outcome.plan)) == Some(committed)
      ensures outcome.Applied? && existing.Some? ==>
                && outcome.plan == existing.value.discrepancies
                && (baseline.Some? ==> baseline == existing.value.baseline)
      ensures var disagrees := existing.Some? && baseline.Some? && baseline != existing.value.baseline;
              var planned := PlanOf(sem, ref, old(committed), if existing.Some? then existing.value.baseline
                                                              else baseline);
              var stands := !disagrees && planned.Some?
                            && (existing.Some? ==> existing.value.discrepancies == planned.value);
              && (outcome == BaselineDisagrees <==> disagrees)
              && (outcome == PlanFailed <==> !disagrees && planned.None?)
              && (outcome == PlanStale <==> !disagrees && planned.Some? && !stands)
              && (outcome == NeedsDecision <==> stands && exists d | d in planned.value :: d.resolution == Manual)
              && (outcome == StatementFailed <==>
                    && stands && (forall d | d in planned.value :: d.resolution == Automatic)
                    && ExecAll(sem, old(committed), Statements(planned.value)).None?)
              && (outcome.Applied? ==>
                    planned == Some(outcome.plan) && forall d | d in outcome.plan :: d.resolution == Automatic)
    {
      hide PlanOf, ExecAll;
      var used := baseline;
      if existing.Some? {
        if baseline.Some? && baseline != existing.value.baseline {
          return BaselineDisagrees;
        }
        used := existing.value.baseline;
      }
      var planned := MakePlan(sem, ref, committed, used);
      if planned.None? {
        return PlanFailed;
      }
      var current := planned.value;
      if existing.Some? && existing.value.discrepancies != current {
        return PlanStale;
      }
      if !AllAutomatic(current) {
        return NeedsDecision;
      }
      if current == [] {
        NothingToExecute(sem, committed);
        return Applied(current);
      }
      var left := ExecuteEach(sem, Statements(current));
      if left.None? {
        return StatementFailed;
      }
      committed := left.value;
      return Applied(current);
    }
  }

  lemma NothingToExecute(sem: Semantics, db: Schema)
    ensures ExecAll(sem, db, Statements([])) == Some(db)
  {
  }
}
