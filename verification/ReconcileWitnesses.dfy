// For each condition on the live schema, a schema where it alone fails, nothing needs a human, and the
// plan breaks its promise.
module ReconcileWitnesses {
  import opened Base
  import opened Catalog
  import opened Reconcile
  import opened Shares
  import opened TableSettling
  import opened Convergence
  import opened ReconcileLimits

  // A server that takes every definition for a CHECK that every row satisfies.
  const LENIENT := Semantics(d => true, (d, row) => true)

  // ---- when a plan needs no human --------------------------------------------------------------------

  lemma {:induction false} ColumnsAutomatic(r: Relation, cs: seq<Column>, live: Live, skip: set<string>)
    requires forall c | c in cs && !Skipped(r.name, c.name, skip) :: AllAutomatic(ColumnDiscrepancies(r.name, c, live))
    ensures AllAutomatic(MissingOrWrong(r.name, cs, live, skip))
    decreases |cs|
  {
    if cs != [] {
      ColumnsAutomatic(r, cs[..|cs| - 1], live, skip);
      assert cs[|cs| - 1] in cs;
    }
  }

  lemma {:induction false} IndexesAutomatic(r: Relation, ixs: seq<Index>, live: Live)
    requires forall ix | ix in ixs :: AllAutomatic(IndexDiscrepancy(r.name, ix, live))
    ensures AllAutomatic(IndexDiscrepancies(r.name, ixs, live))
    decreases |ixs|
  {
    if ixs != [] {
      IndexesAutomatic(r, ixs[..|ixs| - 1], live);
      assert ixs[|ixs| - 1] in ixs;
    }
  }

  lemma {:induction false} ConstraintsAutomatic(sem: Semantics, r: Relation, ks: seq<Constraint>, live: Live)
    requires forall k | k in ks :: AllAutomatic(ConstraintDiscrepancy(sem, r.name, k, live))
    ensures AllAutomatic(ConstraintDiscrepancies(sem, r.name, ks, live))
    decreases |ks|
  {
    if ks != [] {
      ConstraintsAutomatic(sem, r, ks[..|ks| - 1], live);
      assert ks[|ks| - 1] in ks;
    }
  }

  // Every part of the table's comparison is automatic.
  ghost predicate AutomaticThroughout(sem: Semantics, r: Relation, live: Live) {
    && r.kind == Table && !CurrentValued(r, live) && live.rel.primaryKey == r.primaryKey
    && (forall c | c in r.columns && !Exempt(r.name, c.name) :: AllAutomatic(ColumnDiscrepancies(r.name, c, live)))
    && (forall c | c in live.rel.columns :: !BlockingExtra(r, c))
    && (forall ix | ix in r.indexes :: AllAutomatic(IndexDiscrepancy(r.name, ix, live)))
    && forall k | k in r.constraints :: AllAutomatic(ConstraintDiscrepancy(sem, r.name, k, live))
  }

  lemma TableAutomatic(sem: Semantics, ref: Reference, r: Relation, db: Schema, baseline: Option<string>)
    requires r.name in db.relations && AutomaticThroughout(sem, r, db.relations[r.name])
    ensures RelationDiscrepancies(sem, ref, r, db, baseline).Some?
    ensures AllAutomatic(RelationDiscrepancies(sem, ref, r, db, baseline).value)
  {
    var live := db.relations[r.name];
    hide ColumnDiscrepancies, IndexDiscrepancy, ConstraintDiscrepancy, BlockingExtra;
    ColumnsAutomatic(r, r.columns, live, {});
    NoBlockingExtra(r, live.rel.columns);
    IndexesAutomatic(r, r.indexes, live);
    ConstraintsAutomatic(sem, r, r.constraints, live);
  }

  lemma {:induction false} PlanOverAutomatic(
    sem: Semantics, ref: Reference, rs: seq<Relation>, db: Schema, baseline: Option<string>)
    requires forall r | r in rs :: && RelationDiscrepancies(sem, ref, r, db, baseline).Some?
                                   && AllAutomatic(RelationDiscrepancies(sem, ref, r, db, baseline).value)
    ensures PlanOver(sem, ref, rs, db, baseline).Some? && AllAutomatic(PlanOver(sem, ref, rs, db, baseline).value)
    decreases |rs|
  {
    hide RelationDiscrepancies;
    if rs != [] {
      PlanOverAutomatic(sem, ref, rs[..|rs| - 1], db, baseline);
      assert rs[|rs| - 1] in rs;
    }
  }

  lemma PlanAutomatic(sem: Semantics, ref: Reference, db: Schema, baseline: Option<string>)
    requires forall r | r in ref.relations ::
               && RelationDiscrepancies(sem, ref, r, db, baseline).Some?
               && AllAutomatic(RelationDiscrepancies(sem, ref, r, db, baseline).value)
    ensures PlanOf(sem, ref, db, baseline).Some? && AllAutomatic(PlanOf(sem, ref, db, baseline).value)
  {
    hide RelationDiscrepancies;
    var n := OrderedTablesFirst(ref.relations);
    PlanOverAutomatic(sem, ref, Ordered(ref.relations), db, baseline);
  }

  // ---- breaking the promise ----------------------------------------------------------------------------

  // Nothing needs a human.
  ghost predicate Accepted(ref: Reference, db: Schema) {
    && WellFormedReference(ref) && WellFormedSchema(ref, db)
    && PlanOf(LENIENT, ref, db, None).Some? && AllAutomatic(PlanOf(LENIENT, ref, db, None).value)
  }

  // What the accepted plan leaves, if it executes.
  function Executed(ref: Reference, db: Schema): Option<Schema>
    requires PlanOf(LENIENT, ref, db, None).Some?
  {
    ExecAll(LENIENT, db, Statements(PlanOf(LENIENT, ref, db, None).value))
  }

  // ---- one table -------------------------------------------------------------------------------------------

  const A := Column("a", "text", true, None, "", "")

  function TableOf(name: string, cs: seq<Column>, key: seq<string>, ixs: seq<Index>, ks: seq<Constraint>): Relation {
    Relation(name, Table, cs, key, ixs, ks)
  }

  function AloneLive(live: Live, others: set<string>): Schema {
    Schema(map[live.rel.name := live], {live.rel.name} + others, {})
  }

  // The names of the table, its indexes and keys keep apart, and only a table has a key.
  ghost predicate NamesApart(r: Relation, live: Live) {
    && (forall i, j | 0 <= i < j < |r.indexes| :: r.indexes[i].name != r.indexes[j].name)
    && (forall ix | ix in r.indexes :: ix.name != r.name && ix.name != KeyConstraintName(r.name))
    && (live.keyName.Some? ==> live.rel.kind == Table && live.keyName.value != r.name)
  }

  lemma AloneWellFormed(r: Relation, live: Live, others: set<string>)
    requires WellFormedTable(r) && WellFormedLive(r, live)
    requires NamesApart(r, live)
    ensures WellFormedReference(Reference([r], map[]))
    ensures WellFormedSchema(Reference([r], map[]), AloneLive(live, others))
  {
    AloneNamed(r, live);
    hide WellFormedTable, WellFormedLive;
    assert AloneLive(live, others).relations.Keys == {r.name};
    assert |KeyConstraintName(r.name)| > |r.name|;
  }

  lemma AloneAccepted(r: Relation, live: Live, others: set<string>)
    requires live.rel.name == r.name && AutomaticThroughout(LENIENT, r, live)
    ensures var plan := PlanOf(LENIENT, Reference([r], map[]), AloneLive(live, others), None);
            plan.Some? && AllAutomatic(plan.value)
  {
    hide AutomaticThroughout, PlanOf;
    TableAutomatic(LENIENT, Reference([r], map[]), r, AloneLive(live, others), None);
    hide RelationDiscrepancies;
    PlanAutomatic(LENIENT, Reference([r], map[]), AloneLive(live, others), None);
  }

  predicate FreeAlone(r: Relation, live: Live, others: set<string>, name: string) {
    name != r.name && name !in others && live.keyName != Some(name)
  }

  lemma AloneName(r: Relation, live: Live, others: set<string>, name: string)
    requires live.rel.name == r.name && !CurrentValued(r, live)
    ensures NameFree(Reference([r], map[]), AloneLive(live, others), r, name) <==> FreeAlone(r, live, others, name)
  {
    hide CurrentValued, TextLe;
    var ref, db := Reference([r], map[]), AloneLive(live, others);
    assert forall q | q in ref.relations :: q == r;
    assert r.name in db.relations && db.relations[r.name] == live;
  }

  lemma AloneConditions(r: Relation, live: Live, others: set<string>)
    requires live.rel.name == r.name && r.kind == Table && !CurrentValued(r, live)
    ensures var ref, db := Reference([r], map[]), AloneLive(live, others);
            && ViewsFit(ref, db)
            && (SharesFit(ref, db, None) <==> ShareFits(r, live, None))
            && (NoGeneratedColumnAdded(ref, db) <==> NoGeneratedAdded(r, live))
            && (IndexNamesFree(ref, db) <==>
                forall ix | ix in r.indexes && MissingIndex(live, ix) :: FreeAlone(r, live, others, ix.name))
  {
    hide ShareFits, NoGeneratedAdded, MissingIndex, NameFree, CurrentValued, FreeAlone;
    assert r in Reference([r], map[]).relations;
    forall ix | ix in r.indexes
      ensures NameFree(Reference([r], map[]), AloneLive(live, others), r, ix.name) <==>
              FreeAlone(r, live, others, ix.name)
    {
      AloneName(r, live, others, ix.name);
    }
  }

  // The reference of one table, and a schema where it stands as `live`.
  lemma {:induction false} Alone(r: Relation, live: Live, others: set<string>) returns (ref: Reference, db: Schema)
    requires WellFormedTable(r) && WellFormedLive(r, live) && AutomaticThroughout(LENIENT, r, live)
    requires NamesApart(r, live)
    ensures ref == Reference([r], map[]) && db == AloneLive(live, others)
    ensures Accepted(ref, db) && ViewsFit(ref, db)
    ensures SharesFit(ref, db, None) <==> ShareFits(r, live, None)
    ensures IndexNamesFree(ref, db) <==>
              forall ix | ix in r.indexes && MissingIndex(live, ix) :: FreeAlone(r, live, others, ix.name)
    ensures NoGeneratedColumnAdded(ref, db) <==> NoGeneratedAdded(r, live)
    ensures Executed(ref, db).Some? <==> PlanFits(ref, db, None)
  {
    hide WellFormedTable, WellFormedLive, AutomaticThroughout, ShareFits, NoGeneratedAdded, MissingIndex, PlanOf,
         ViewsFit, SharesFit, NoGeneratedColumnAdded, IndexNamesFree, PlanFits, WellFormedReference, WellFormedSchema,
         ExecAll, NamesApart, CurrentValued;
    ref, db := Reference([r], map[]), AloneLive(live, others);
    AloneNamed(r, live);
    AloneWellFormed(r, live, others);
    AloneAccepted(r, live, others);
    NotCurrent(r, live);
    AloneConditions(r, live, others);
    ExecutesIff(LENIENT, ref, db, None);
  }

  lemma NotCurrent(r: Relation, live: Live)
    requires AutomaticThroughout(LENIENT, r, live)
    ensures !CurrentValued(r, live)
  {}

  lemma AloneNamed(r: Relation, live: Live)
    requires WellFormedTable(r) && WellFormedLive(r, live)
    ensures live.rel.name == r.name && r.kind == Table
  {}

  // `live` is `r` without its indexes and constraints, some of its columns perhaps missing or different.
  ghost predicate Stripped(r: Relation, live: Live) {
    && r.name != RATE_CARD
    && live.rel.name == r.name && live.rel.primaryKey == r.primaryKey
    && live.rel.indexes == [] && live.rel.constraints == []
    && UniqueNames(live.rel.columns) && RowsFit(live)
    && (forall c | c in live.rel.columns :: WellFormedColumn(c) && Lookup(r.columns, c.name).Some?)
    && (live.rel.kind == View ==> forall c | c in live.rel.columns :: c.Ordinary() && !c.notNull)
    && (forall k | k in r.constraints :: HasColumns(live.rel, k.columns))
    && forall c | c in r.columns && !Exempt(r.name, c.name) ::
         c in live.rel.columns || AllAutomatic(ColumnDiscrepancies(r.name, c, live))
  }

  lemma SameColumnIsQuiet(r: Relation, c: Column, live: Live)
    requires c in live.rel.columns && UniqueNames(live.rel.columns)
    ensures ColumnDiscrepancies(r.name, c, live) == []
  {
    LookupUnique(live.rel.columns, c);
  }

  lemma StrippedIsAutomatic(r: Relation, live: Live)
    requires WellFormedTable(r) && Stripped(r, live)
    ensures WellFormedLive(r, live) && AutomaticThroughout(LENIENT, r, live)
  {
    hide ColumnDiscrepancies;
    forall c | c in r.columns && !Exempt(r.name, c.name) ensures AllAutomatic(ColumnDiscrepancies(r.name, c, live)) {
      if c in live.rel.columns { SameColumnIsQuiet(r, c, live); }
    }
    forall k | k in r.constraints ensures AllAutomatic(ConstraintDiscrepancy(LENIENT, r.name, k, live)) {
      AbsentNone(live.rel, k.columns);
    }
  }

  // The table stands alone as `live`, nothing needs a human, no name is taken and no kind is lost, and the
  // plan fails.
  ghost predicate Breaks(r: Relation, live: Live) {
    var ref, db := Reference([r], map[]), AloneLive(live, {});
    Accepted(ref, db) && IndexNamesFree(ref, db) && ViewsFit(ref, db) && NoGeneratedColumnAdded(ref, db)
    && Executed(ref, db).None?
  }

  lemma {:induction false} BreaksWhenUnfit(r: Relation, live: Live)
    requires WellFormedTable(r) && Stripped(r, live) && NamesApart(r, live)
    requires forall ix | ix in r.indexes :: live.keyName != Some(ix.name)
    requires NoGeneratedAdded(r, live) && !ShareFits(r, live, None)
    ensures Breaks(r, live)
  {
    hide WellFormedTable, WellFormedLive, AutomaticThroughout, ShareFits, Stripped, NoGeneratedAdded, ViewsFit,
         NoGeneratedColumnAdded;
    StrippedIsAutomatic(r, live);
    var ref, db := Alone(r, live, {});
  }

  const B := Column("b", "text", false, None, "", "")
  const BY_B := Index("by_b", "(b)", ["b"], false)
  const UNIQUE_B := Index("by_b", "UNIQUE (b)", ["b"], true)

  // A table of two columns, keyed by the first.
  function TwoColumns(ixs: seq<Index>, ks: seq<Constraint>): Relation { TableOf("t", [A, B], ["a"], ixs, ks) }

  function Standing(key: string, rows: seq<Row>): Live { Live(TwoColumns([], []), rows, Some(key), []) }

  lemma TwoColumnsWellFormed(ixs: seq<Index>, ks: seq<Constraint>)
    requires |ixs| <= 1 && forall ix | ix in ixs :: ix.columns == ["b"]
    requires |ks| <= 1 && forall k | k in ks :: k.name != KeyConstraintName("t")
    ensures WellFormedTable(TwoColumns(ixs, ks))
  {
    var cs := [A, B];
    assert Lookup(cs, "a") == Some(A) && Lookup(cs, "b") == Some(B);
    assert forall c | c in cs :: c == A || c == B;
  }

  lemma TwoColumnsStripped(ixs: seq<Index>, ks: seq<Constraint>, key: string, rows: seq<Row>)
    requires forall k | k in ks :: k.columns == ["b"]
    requires forall i, n | 0 <= i < |rows| :: n in rows[i] <==> n == "a" || n == "b"
    ensures Stripped(TwoColumns(ixs, ks), Standing(key, rows))
    ensures NoGeneratedAdded(TwoColumns(ixs, ks), Standing(key, rows))
    ensures DefaultsCanChange(TwoColumns(ixs, ks), Standing(key, rows))
  {
    hide ColumnDiscrepancies;
    var cs := [A, B];
    assert Lookup(cs, "a") == Some(A) && Lookup(cs, "b") == Some(B);
    assert forall c | c in cs :: c == A || c == B;
    forall n ensures Lookup(cs, n).Some? <==> n == "a" || n == "b" {}
  }

  lemma TwoColumnsFit(key: string)
    ensures ShareFits(TwoColumns([BY_B], []), Standing(key, []), None) && MissingIndex(Standing(key, []), BY_B)
  {
    TwoColumnsStripped([BY_B], [], key, []);
    hide Stripped, DefaultsCanChange;
  }

  // The index is to be made on a table whose primary key has the name `key`, where `others` are taken too.
  lemma {:induction false} TakenNameBreaks(key: string, others: set<string>) returns (ref: Reference, db: Schema)
    requires key != "t" && (key == "by_b" || "by_b" in others)
    ensures Accepted(ref, db) && SharesFit(ref, db, None) && ViewsFit(ref, db) && NoGeneratedColumnAdded(ref, db)
    ensures db == AloneLive(Standing(key, []), others)
    ensures !IndexNamesFree(ref, db) && Executed(ref, db).None?
  {
    hide Stripped, AutomaticThroughout, WellFormedLive, WellFormedTable, Accepted, Executed, ShareFits,
         NoGeneratedColumnAdded, IndexNamesFree, SharesFit, ViewsFit, MissingIndex;
    var r, live := TwoColumns([BY_B], []), Standing(key, []);
    TwoColumnsWellFormed([BY_B], []);
    TwoColumnsStripped([BY_B], [], key, []);
    TwoColumnsFit(key);
    StrippedIsAutomatic(r, live);
    ref, db := Alone(r, live, others);
  }

  /** The name of a missing index belongs to something else in the schema. */
  lemma {:induction false} TakenIndexNameBreaks() returns (ref: Reference, db: Schema)
    ensures Accepted(ref, db) && SharesFit(ref, db, None) && ViewsFit(ref, db) && NoGeneratedColumnAdded(ref, db)
    ensures "by_b" in db.names && !KeyNamed(db, "by_b") && !IndexNamesFree(ref, db)
    ensures Executed(ref, db).None?
  {
    hide IndexNamesFree, SharesFit, ViewsFit, NoGeneratedColumnAdded, Accepted, Executed;
    ref, db := TakenNameBreaks("t_pkey", {"by_b"});
  }

  /** It is the name of the table's own primary key. */
  lemma {:induction false} IndexNamedLikeKeyBreaks() returns (ref: Reference, db: Schema)
    ensures Accepted(ref, db) && SharesFit(ref, db, None) && ViewsFit(ref, db) && NoGeneratedColumnAdded(ref, db)
    ensures "by_b" !in db.names && KeyNamed(db, "by_b") && !IndexNamesFree(ref, db)
    ensures Executed(ref, db).None?
  {
    hide IndexNamesFree, SharesFit, ViewsFit, NoGeneratedColumnAdded, Accepted, Executed;
    ref, db := TakenNameBreaks("by_b", {});
    assert "t" in db.relations && db.relations["t"].keyName == Some("by_b");
  }

  /** Two rows repeat under a missing UNIQUE index. */
  lemma {:induction false} RepeatedRowsBreak() returns (r: Relation, live: Live)
    ensures Breaks(r, live) && Stands(r, live) && DefaultsCanChange(r, live) && KeyNameIsClear(r, live)
    ensures !IndexesFit(r, live, None)
  {
    hide WellFormedTable, Stripped, Breaks, NoGeneratedAdded;
    var rows: seq<Row> := [map["a" := Val("1"), "b" := Val("x")], map["a" := Val("2"), "b" := Val("x")]];
    r, live := TwoColumns([UNIQUE_B], []), Standing("t_pkey", rows);
    TwoColumnsWellFormed([UNIQUE_B], []);
    TwoColumnsStripped([UNIQUE_B], [], "t_pkey", rows);
    var done := Completed(r, live, None, ["b"]);
    assert Lookup(live.rel.columns, "b") == Some(B);
    assert Collide(done[0], done[1], ["b"]);
    assert MissingIndex(live, UNIQUE_B) && !IndexFits(r, live, None, UNIQUE_B);
    BreaksWhenUnfit(r, live);
  }

  // A table without a key, and a view in its place.
  function Keyless(cs: seq<Column>, ixs: seq<Index>): Relation { TableOf("t", cs, [], ixs, []) }

  function StandIn(cs: seq<Column>): Live { Live(Relation("t", View, cs, [], [], []), [], None, []) }

  /** A view stands in the place of a table without a key, and an index is missing. */
  lemma {:induction false} StandingViewBreaks() returns (r: Relation, live: Live)
    ensures Breaks(r, live) && DefaultsCanChange(r, live) && IndexesFit(r, live, None) && KeyNameIsClear(r, live)
    ensures !Stands(r, live)
  {
    hide ColumnDiscrepancies;
    r, live := Keyless([B], [BY_B]), StandIn([B]);
    assert Stripped(r, live);
    assert MissingIndex(live, BY_B);
    BreaksWhenUnfit(r, live);
  }

  /** A constraint to be added has the name of the primary key's. */
  lemma {:induction false} KeyNameClashBreaks() returns (r: Relation, live: Live)
    ensures Breaks(r, live) && Stands(r, live) && DefaultsCanChange(r, live) && IndexesFit(r, live, None)
    ensures !KeyNameIsClear(r, live)
  {
    hide WellFormedTable, Stripped, Breaks, NoGeneratedAdded;
    var k := Constraint("k", "CHECK (b)", ["b"]);
    r, live := TwoColumns([], [k]), Standing("k", []);
    TwoColumnsWellFormed([], [k]);
    TwoColumnsStripped([], [k], "k", []);
    assert k in r.constraints;
    BreaksWhenUnfit(r, live);
  }

  function GeneratedAs(expression: string): Column {
    Column("g", "text", false, Some(Constant(Val(expression))), "", "s")
  }

  /** Where the view differs in a default alone the plan executes: a view takes that. */
  lemma {:induction false} StandingViewTakesDefaults() returns (ref: Reference, db: Schema)
    ensures Accepted(ref, db) && PlanOf(LENIENT, ref, db, None) != Some([]) && Executed(ref, db).Some?
    ensures forall t | t in db.relations :: db.relations[t].rel.kind == View
  {
    hide AutomaticThroughout, WellFormedLive, PlanOf, ExecAll;
    var d := B.(default := Some(Constant(Val("x"))));
    var r, live := Keyless([d], []), StandIn([B]);
    assert Lookup(live.rel.columns, "b") == Some(B) && Lookup(r.columns, "b") == Some(d);
    var change := ByTool("t", DefaultDiffers("b", None), [SetDefault("t", "b", d.default.value)]);
    assert ColumnDiscrepancies("t", d, live) == [change];
    hide ColumnDiscrepancies;
    assert d in r.columns && WellFormedTable(r) && Stripped(r, live) && ShareFits(r, live, None);
    hide WellFormedTable, Stripped, ShareFits;
    StrippedIsAutomatic(r, live);
    ref, db := Alone(r, live, {});
    ReportedTable(LENIENT, r, d, live, None);
    ReportedRelation(LENIENT, ref, r, db, None);
  }

  /** A generated column whose expression differs, which the planner takes for a default. */
  lemma {:induction false} GeneratedDefaultBreaks() returns (r: Relation, live: Live)
    ensures Breaks(r, live) && Stands(r, live) && IndexesFit(r, live, None) && KeyNameIsClear(r, live)
    ensures !DefaultsCanChange(r, live)
  {
    var g, h := GeneratedAs("1"), GeneratedAs("2");
    r := TableOf("t", [A, g], ["a"], [], []);
    live := Live(TableOf("t", [A, h], ["a"], [], []), [], Some("t_pkey"), []);
    assert Lookup(live.rel.columns, "g") == Some(h);
    assert ColumnDiscrepancies("t", g, live) ==
           [ByTool("t", DefaultDiffers("g", h.default), [SetDefault("t", "g", g.default.value)])];
    hide ColumnDiscrepancies;
    assert g in r.columns;
    BreaksWhenUnfit(r, live);
  }

  const ID := Column("id", "bigint", true, None, "a", "")

  function Usage(ixs: seq<Index>): Relation { TableOf(USAGE_TABLE, [ID, A], ["a"], ixs, []) }

  const USAGE_WITHOUT_ID := Live(TableOf(USAGE_TABLE, [A], ["a"], [], []), [], Some("usage_pkey"), [])

  lemma UsageStands(ixs: seq<Index>)
    requires |ixs| <= 1 && forall ix | ix in ixs :: ix.columns == ["id"]
    ensures WellFormedTable(Usage(ixs)) && Stripped(Usage(ixs), USAGE_WITHOUT_ID)
    ensures Lookup(USAGE_WITHOUT_ID.rel.columns, "id").None?
  {
    hide ColumnDiscrepancies;
    var r := Usage(ixs);
    assert Lookup(r.columns, "id") == Some(ID) && Lookup(r.columns, "a") == Some(A);
    assert forall c | c in r.columns && !Exempt(r.name, c.name) :: c == A;
  }

  lemma UsageNames(ix: Index)
    requires ix.name == "by_id"
    ensures NamesApart(Usage([ix]), USAGE_WITHOUT_ID)
    ensures NoGeneratedAdded(Usage([ix]), USAGE_WITHOUT_ID)
  {
    assert |"by_id"| < |USAGE_TABLE| == |"gateway_usage"| < |KeyConstraintName(USAGE_TABLE)|;
    assert |"usage_pkey"| < |USAGE_TABLE|;
    hide Lookup;
  }

  /** The usage table lacks the exempt column, and an index over it is missing. */
  lemma {:induction false} AbsentExemptColumnBreaks() returns (r: Relation, live: Live)
    ensures Breaks(r, live) && Stands(r, live) && DefaultsCanChange(r, live) && KeyNameIsClear(r, live)
    ensures !IndexesFit(r, live, None)
  {
    hide WellFormedTable, Stripped, Breaks;
    var ix := Index("by_id", "(id)", ["id"], false);
    r, live := Usage([ix]), USAGE_WITHOUT_ID;
    UsageStands([ix]);
    assert MissingIndex(live, ix) && !IndexFits(r, live, None, ix);
    UsageNames(ix);
    BreaksWhenUnfit(r, live);
  }

  function WithGenerated(g: Column): Relation { TableOf("t", [A, g], ["a"], [], []) }

  const WITHOUT_GENERATED := Live(TableOf("t", [A], ["a"], [], []), [], Some("t_pkey"), [])

  lemma AddedGeneratedStands(g: Column)
    requires g == Column("g", "text", false, Some(Constant(Val("1"))), "", g.generated)
    ensures WellFormedTable(WithGenerated(g)) && Stripped(WithGenerated(g), WITHOUT_GENERATED)
    ensures Lookup(WITHOUT_GENERATED.rel.columns, "g").None?
  {
    var r, live := WithGenerated(g), WITHOUT_GENERATED;
    assert Lookup(live.rel.columns, "g").None? && Lookup(live.rel.columns, "a") == Some(A);
    assert ColumnDiscrepancies("t", g, live) == [ByTool("t", ColumnMissing(g), [AddColumn("t", g.Plain())])];
    hide ColumnDiscrepancies;
    assert Lookup(r.columns, "a") == Some(A) && forall c | c in r.columns :: c == A || c == g;
  }

  lemma AddedGeneratedFits(g: Column)
    requires g == Column("g", "text", false, Some(Constant(Val("1"))), "", g.generated)
    ensures ShareFits(WithGenerated(g), WITHOUT_GENERATED, None)
    ensures NoGeneratedAdded(WithGenerated(g), WITHOUT_GENERATED) <==> g.generated == ""
  {
    AddedGeneratedStands(g);
    hide Stripped, WellFormedTable;
    assert g in WithGenerated(g).columns;
    assert forall c | c in WithGenerated(g).columns :: c == A || c == g;
  }

  /** A missing generated column whose expression passes for a constant default: the plan executes, and planning
      its result finds the column ordinary. */
  lemma {:induction false} AddedGeneratedIsLost(generated: string, again: Option<string>)
    returns (ref: Reference, db: Schema)
    requires generated != ""
    ensures Accepted(ref, db) && PlanFits(ref, db, None) && !NoGeneratedColumnAdded(ref, db)
    ensures Executed(ref, db).Some? && PlanOf(LENIENT, ref, Executed(ref, db).value, again) != Some([])
  {
    hide WellFormedTable, Stripped, ShareFits, NoGeneratedAdded, AutomaticThroughout, WellFormedLive, PlanOf;
    var g := Column("g", "text", false, Some(Constant(Val("1"))), "", generated);
    var r, live := WithGenerated(g), WITHOUT_GENERATED;
    AddedGeneratedStands(g);
    AddedGeneratedFits(g);
    StrippedIsAutomatic(r, live);
    ref, db := Alone(r, live, {});
    ConvergesIff(LENIENT, ref, db, None, again);
  }

  // ---- views ---------------------------------------------------------------------------------------------

  function ViewOf(name: string): Relation { Relation(name, View, [B], [], [], []) }

  /** The name of an absent view belongs to a type. */
  lemma {:induction false} TypeNamedLikeViewBreaks() returns (ref: Reference, db: Schema)
    ensures Accepted(ref, db) && IndexNamesFree(ref, db) && SharesFit(ref, db, None)
    ensures NoGeneratedColumnAdded(ref, db) && !ViewsFit(ref, db)
    ensures Executed(ref, db).None?
  {
    hide PlanOf;
    var v := ViewOf("v");
    ref, db := Reference([v], map[]), Schema(map[], {}, {"v"});
    assert v in ref.relations && ToCreate(v, db) && !ViewFits(ref, v, db);
    PlanAutomatic(LENIENT, ref, db, None);
    ExecutesIff(LENIENT, ref, db, None);
  }

  function ViewOfUsage(): Reference {
    Reference([Usage([]), ViewOf("v")], map["v" := map[USAGE_TABLE := {"id"}]])
  }

  lemma PairWellFormed(r: Relation, v: Relation, column: string)
    requires WellFormedTable(r) && r.indexes == [] && Lookup(r.columns, column).Some?
    requires v.kind == View && v.indexes == [] && v.name != r.name && v.name != KeyConstraintName(r.name)
    ensures WellFormedReference(Reference([r, v], map[v.name := map[r.name := {column}]]))
  {
    assert r.kind == Table;
    hide WellFormedTable, Lookup;
    var ref := Reference([r, v], map[v.name := map[r.name := {column}]]);
    assert r in ref.relations;
    assert |KeyConstraintName(r.name)| > |r.name|;
  }

  lemma PairStands(r: Relation, v: Relation, needs: map<string, map<string, set<string>>>, live: Live)
    requires r.kind == Table && live.rel.name == r.name && WellFormedLive(r, live)
    requires v.kind == View && v.name != r.name
    requires live.keyName.Some? ==> live.rel.kind == Table && live.keyName.value !in {r.name, v.name}
    ensures WellFormedSchema(Reference([r, v], needs), AloneLive(live, {}))
  {
    hide WellFormedLive;
    assert AloneLive(live, {}).relations.Keys == {r.name};
  }

  lemma ViewOfUsageStands()
    ensures WellFormedReference(ViewOfUsage()) && WellFormedSchema(ViewOfUsage(), AloneLive(USAGE_WITHOUT_ID, {}))
  {
    hide WellFormedTable, WellFormedLive, AutomaticThroughout, Stripped, WellFormedReference, WellFormedSchema,
         AloneLive;
    var r := Usage([]);
    UsageStands([]);
    StrippedIsAutomatic(r, USAGE_WITHOUT_ID);
    assert Lookup(r.columns, "id") == Some(ID);
    PairWellFormed(r, ViewOf("v"), "id");
    PairStands(r, ViewOf("v"), map["v" := map[USAGE_TABLE := {"id"}]], USAGE_WITHOUT_ID);
    assert ViewOfUsage() == Reference([r, ViewOf("v")], map["v" := map[USAGE_TABLE := {"id"}]]);
  }

  lemma UsageFits()
    ensures ShareFits(Usage([]), USAGE_WITHOUT_ID, None)
  {
    var r := Usage([]);
    assert forall c | c in r.columns :: c.generated == "";
    assert r.indexes == [] && r.constraints == [];
  }

  lemma ViewOfUsageFits(db: Schema)
    requires db == AloneLive(USAGE_WITHOUT_ID, {})
    ensures IndexNamesFree(ViewOfUsage(), db) && SharesFit(ViewOfUsage(), db, None)
    ensures NoGeneratedColumnAdded(ViewOfUsage(), db) && !ViewsFit(ViewOfUsage(), db)
  {
    hide WellFormedTable, Stripped, ColumnNames, ShareFits;
    var ref := ViewOfUsage();
    UsageStands([]);
    UsageFits();
    assert NoGeneratedAdded(ref.relations[0], USAGE_WITHOUT_ID);
    var v := ref.relations[1];
    assert v in ref.relations && ToCreate(v, db);
    assert NeedsOf(ref, v.name) == map[USAGE_TABLE := {"id"}];
    assert "id" in NeedsOf(ref, v.name)[USAGE_TABLE] && Exempt(USAGE_TABLE, "id");
    assert !ViewFits(ref, v, db);
  }

  /** The usage table lacks the exempt column, and an absent view selects it. */
  lemma {:induction false} ViewOfAbsentColumnBreaks() returns (ref: Reference, db: Schema)
    ensures Accepted(ref, db) && IndexNamesFree(ref, db) && SharesFit(ref, db, None)
    ensures NoGeneratedColumnAdded(ref, db) && !ViewsFit(ref, db)
    ensures Executed(ref, db).None?
  {
    hide PlanOf, AutomaticThroughout, WellFormedReference, WellFormedSchema, IndexNamesFree, SharesFit, ViewsFit,
         NoGeneratedColumnAdded,
         WellFormedTable, WellFormedLive, Stripped;
    var r, v := Usage([]), ViewOf("v");
    ref, db := ViewOfUsage(), AloneLive(USAGE_WITHOUT_ID, {});
    ViewOfUsageStands();
    ViewOfUsageFits(db);
    UsageStands([]);
    StrippedIsAutomatic(r, USAGE_WITHOUT_ID);
    TableAutomatic(LENIENT, ref, r, db, None);
    hide TableDiscrepancies;
    PlanAutomatic(LENIENT, ref, db, None);
    ExecutesIff(LENIENT, ref, db, None);
  }

  // ---- planning that raises --------------------------------------------------------------------------------

  const MODEL := Column("model", "text", true, None, "", "")
  const MODE := Column("pricing_mode", "text", false, None, "", "")
  const RATE_CARD_TABLE :=
    TableOf(RATE_CARD, [MODEL, Column(EFFECTIVE_FROM, "date", true, None, "", "")], ["model", EFFECTIVE_FROM], [], [])

  // A rate card as it was before rates had dates, with no key to keep NULL models out.
  function OldRateCard(rows: seq<Row>): Live {
    Live(TableOf(RATE_CARD, [MODEL.(notNull := false), MODE], [], [], []), rows, None, [])
  }

  lemma RateCardStands(rows: seq<Row>)
    requires RowsFit(OldRateCard(rows))
    ensures WellFormedTable(RATE_CARD_TABLE) && WellFormedLive(RATE_CARD_TABLE, OldRateCard(rows))
    ensures CurrentValued(RATE_CARD_TABLE, OldRateCard(rows))
  {
  }

  lemma {:induction false} RaisesForOne(rows: seq<Row>, baseline: Option<string>)
    requires RowsFit(OldRateCard(rows)) && RateCardDiscrepancy(RATE_CARD_TABLE, OldRateCard(rows), baseline).None?
    ensures var ref, db := Reference([RATE_CARD_TABLE], map[]), AloneLive(OldRateCard(rows), {});
            WellFormedReference(ref) && WellFormedSchema(ref, db) && PlanOf(LENIENT, ref, db, baseline).None?
  {
    hide RateCardDiscrepancy, PlanOf, WellFormedTable, WellFormedLive, CurrentValued, WellFormedReference,
         WellFormedSchema, RowsFit;
    var r, live := RATE_CARD_TABLE, OldRateCard(rows);
    var ref, db := Reference([r], map[]), AloneLive(live, {});
    RateCardStands(rows);
    AloneWellFormed(r, live, {});
    assert RelationDiscrepancies(LENIENT, ref, r, db, baseline).None?;
    hide RelationDiscrepancies;
    RaisesWithOne(LENIENT, ref, r, db, baseline);
  }

  lemma {:induction false} RaisesWithOne(
    sem: Semantics, ref: Reference, r: Relation, db: Schema, baseline: Option<string>)
    requires r in ref.relations && RelationDiscrepancies(sem, ref, r, db, baseline).None?
    ensures PlanOf(sem, ref, db, baseline).None?
  {
    hide RelationDiscrepancies;
    var n := OrderedTablesFirst(ref.relations);
    if PlanOf(sem, ref, db, baseline).Some? {
      PlanOwned(sem, ref, Ordered(ref.relations), db, baseline, PlanOf(sem, ref, db, baseline).value);
    }
  }

  /** Two rows without a model: planning raises, whatever the baseline. */
  lemma {:induction false} RowsWithoutModelRaise(baseline: Option<string>) returns (ref: Reference, db: Schema)
    ensures WellFormedReference(ref) && WellFormedSchema(ref, db) && PlanOf(LENIENT, ref, db, baseline).None?
  {
    hide RateCardDiscrepancy, PlanOf, WellFormedReference, WellFormedSchema, AloneLive;
    var row: Row := map["model" := Null, "pricing_mode" := Val("api")];
    var rows := [row, row];
    RateCardPlanRaises(RATE_CARD_TABLE, OldRateCard(rows), baseline);
    assert Model(rows[0]) == Model(rows[1]) == Null;
    RaisesForOne(rows, baseline);
    ref, db := Reference([RATE_CARD_TABLE], map[]), AloneLive(OldRateCard(rows), {});
  }

  /** One row without a model, and it is a subscription's: planning raises too. */
  lemma {:induction false} SubscriptionWithoutModelRaises(baseline: Option<string>) returns (ref: Reference, db: Schema)
    ensures WellFormedReference(ref) && WellFormedSchema(ref, db) && PlanOf(LENIENT, ref, db, baseline).None?
  {
    hide RateCardDiscrepancy, PlanOf, WellFormedReference, WellFormedSchema, AloneLive;
    var rows: seq<Row> := [map["model" := Null, "pricing_mode" := Val("subscription")]];
    RateCardPlanRaises(RATE_CARD_TABLE, OldRateCard(rows), baseline);
    assert Model(rows[0]) == Null && Get(rows[0], "pricing_mode") == Val("subscription");
    RaisesForOne(rows, baseline);
    ref, db := Reference([RATE_CARD_TABLE], map[]), AloneLive(OldRateCard(rows), {});
  }
}
