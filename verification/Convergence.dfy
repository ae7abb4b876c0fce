// The whole schema: when an all-automatic plan executes, and when planning its result finds nothing.
module Convergence {
  import opened Base
  import opened Catalog
  import opened Reconcile
  import opened Shares
  import opened TableSettling

  // ---- what any reference and any catalog satisfy ------------------------------------------

  ghost predicate DistinctRelations(rs: seq<Relation>) {
    forall i, j | 0 <= i < j < |rs| :: rs[i].name != rs[j].name
  }

  // Within the reference no two relations and no two indexes share a name, nor with a primary key's index.
  ghost predicate DistinctIndexNames(rs: seq<Relation>) {
    && (forall r | r in rs :: forall i, j | 0 <= i < j < |r.indexes| :: r.indexes[i].name != r.indexes[j].name)
    && (forall r, q | r in rs && q in rs && r != q ::
          forall x, y | x in r.indexes && y in q.indexes :: x.name != y.name)
    && (forall r, q | r in rs && q in rs :: forall x | x in r.indexes :: x.name != q.name)
    && (forall r, q | r in rs && q in rs && q.kind == Table && q.primaryKey != [] ::
          r.name != KeyConstraintName(q.name) && forall x | x in r.indexes :: x.name != KeyConstraintName(q.name))
  }

  // A view selects only from the reference's tables, and only columns they have.
  ghost predicate ViewsNeedOnlyTables(ref: Reference) {
    forall v, t | v in ref.needs && t in ref.needs[v] ::
      exists r :: r in ref.relations && r.kind == Table && r.name == t
                  && forall c | c in ref.needs[v][t] :: Lookup(r.columns, c).Some?
  }

  ghost predicate WellFormedReference(ref: Reference) {
    && DistinctRelations(ref.relations)
    && DistinctIndexNames(ref.relations)
    && ViewsNeedOnlyTables(ref)
    && forall r | r in ref.relations :: if r.kind == Table then WellFormedTable(r) else r.kind == View
  }

  // Whatever has a reference relation's name is what the comparison finds under it, only tables have keys, and
  // a key's index shares its name with no table or view.
  ghost predicate WellFormedSchema(ref: Reference, db: Schema) {
    && db.relations.Keys <= db.names
    && (forall r | r in ref.relations && Taken(db, r.name) :: r.name in db.relations)
    && (forall r | r in ref.relations && r.kind == Table && r.name in db.relations ::
          WellFormedLive(r, db.relations[r.name]))
    && (forall t | t in db.relations && db.relations[t].keyName.Some? ::
          && db.relations[t].rel.kind == Table
          && (db.relations[t].keyName.value in db.relations ==>
                db.relations[db.relations[t].keyName.value].rel.kind == Other))
  }

  // ---- when a plan executes ----------------------------------------------------------------

  // The key of the table `t` is dropped before the share of `r` makes its indexes.
  ghost predicate KeyGoesFirst(ref: Reference, db: Schema, t: string, r: Relation) {
    t in db.relations && TextLe(t, r.name) &&
    exists q :: q in ref.relations && q.kind == Table && q.name == t && CurrentValued(q, db.relations[t])
  }

  // The name is free in the schema, or it is that of a key that will have been dropped.
  ghost predicate NameFree(ref: Reference, db: Schema, r: Relation, name: string) {
    && name !in db.names
    && forall t | t in db.relations && db.relations[t].keyName == Some(name) :: KeyGoesFirst(ref, db, t, r)
  }

  // Index names are unique in a schema, but the planner looks only at the table's own indexes.
  ghost predicate IndexNamesFree(ref: Reference, db: Schema) {
    forall r | r in ref.relations && r.kind == Table && r.name in db.relations ::
      forall ix | ix in r.indexes && MissingIndex(db.relations[r.name], ix) :: NameFree(ref, db, r, ix.name)
  }

  ghost predicate SharesFit(ref: Reference, db: Schema, baseline: Option<string>) {
    forall r | r in ref.relations && r.kind == Table && r.name in db.relations ::
      ShareFits(r, db.relations[r.name], baseline)
  }

  predicate ToCreate(v: Relation, db: Schema) {
    v.name !in db.relations || ColumnNames(db.relations[v.name].rel.columns) != ColumnNames(v.columns)
  }

  // The planner sees neither that a type has the view's name nor that the exempt column is not there.
  ghost predicate ViewFits(ref: Reference, v: Relation, db: Schema) {
    && v.name !in db.types
    && forall t, c | t in NeedsOf(ref, v.name) && t in db.relations && c in NeedsOf(ref, v.name)[t] && Exempt(t, c) ::
         Lookup(db.relations[t].rel.columns, c).Some?
  }

  ghost predicate ViewsFit(ref: Reference, db: Schema) {
    forall v | v in ref.relations && v.kind == View && ToCreate(v, db) :: ViewFits(ref, v, db)
  }

  // What the live schema must be like for an all-automatic plan to execute.
  ghost predicate PlanFits(ref: Reference, db: Schema, baseline: Option<string>) {
    IndexNamesFree(ref, db) && SharesFit(ref, db, baseline) && ViewsFit(ref, db)
  }

  // And, beyond that, for it to leave nothing to plan.
  ghost predicate NoGeneratedColumnAdded(ref: Reference, db: Schema) {
    forall r | r in ref.relations && r.kind == Table && r.name in db.relations ::
      NoGeneratedAdded(r, db.relations[r.name])
  }

  // ---- ordering --------------------------------------------------------------------------

  lemma InsertMembers(r: Relation, rs: seq<Relation>)
    ensures multiset(Insert(r, rs)) == multiset(rs) + multiset{r}
  {
    if rs != [] && !TextLe(r.name, rs[0].name) {
      InsertMembers(r, rs[1..]);
      assert rs == [rs[0]] + rs[1..];
    } else {
      assert [r] + rs == Insert(r, rs);
    }
  }

  ghost predicate Ascending(rs: seq<Relation>) {
    forall i | 0 < i < |rs| :: TextLe(rs[i - 1].name, rs[i].name)
  }

  /** The order of names is alphabetical: a beginning first, and otherwise by the first character that differs. */
  lemma {:induction false} TextLeIs(a: string, b: string)
    ensures TextLe(a, b) <==>
            a <= b || exists k :: 0 <= k < |a| && k < |b| && a[..k] == b[..k] && a[k] < b[k]
  {
    if a != [] && b != [] && a[0] == b[0] {
      TextLeIs(a[1..], b[1..]);
      assert a <= b <==> a[1..] <= b[1..];
      forall k | 0 < k < |a| && k < |b|
        ensures a[..k] == b[..k] <==> a[1..][..k - 1] == b[1..][..k - 1]
      {
        assert a[..k] == [a[0]] + a[1..][..k - 1] && b[..k] == [b[0]] + b[1..][..k - 1];
      }
      if k :| 0 <= k < |a[1..]| && k < |b[1..]| && a[1..][..k] == b[1..][..k] && a[1..][k] < b[1..][k] {
        assert a[..k + 1] == b[..k + 1] && a[k + 1] < b[k + 1];
      }
      if k :| 0 <= k < |a| && k < |b| && a[..k] == b[..k] && a[k] < b[k] {
        assert k > 0 && a[1..][k - 1] < b[1..][k - 1];
      }
    } else if a != [] && b != [] && a[0] < b[0] {
      assert a[..0] == b[..0];
    }
  }

  lemma TextLeTotal(a: string, b: string)
    ensures TextLe(a, b) || TextLe(b, a)
    ensures TextLe(a, b) && TextLe(b, a) ==> a == b
  {
    if a != [] && b != [] && a[0] == b[0] {
      TextLeTotal(a[1..], b[1..]);
      assert a == [a[0]] + a[1..] && b == [b[0]] + b[1..];
    }
  }

  lemma TextLeTransitive(a: string, b: string, c: string)
    requires TextLe(a, b) && TextLe(b, c)
    ensures TextLe(a, c)
  {
  }

  lemma {:induction false} AscendsThroughout(rs: seq<Relation>, i: nat, j: nat)
    requires Ascending(rs) && i < j < |rs|
    ensures TextLe(rs[i].name, rs[j].name)
    decreases j
  {
    if i < j - 1 {
      AscendsThroughout(rs, i, j - 1);
      TextLeTransitive(rs[i].name, rs[j - 1].name, rs[j].name);
    }
  }

  lemma InsertAscends(r: Relation, rs: seq<Relation>)
    requires Ascending(rs)
    ensures Ascending(Insert(r, rs))
    ensures |Insert(r, rs)| == |rs| + 1
    ensures Insert(r, rs)[0] == r || (rs != [] && Insert(r, rs)[0] == rs[0])
  {
    if rs != [] && !TextLe(r.name, rs[0].name) {
      TextLeTotal(r.name, rs[0].name);
      InsertAscends(r, rs[1..]);
    }
  }

  function Grouped(rs: seq<Relation>, tables: bool): multiset<Relation> {
    if rs == [] then multiset{}
    else Grouped(rs[1..], tables) + (if (rs[0].kind == Table) == tables then multiset{rs[0]} else multiset{})
  }

  lemma SortedIs(rs: seq<Relation>, tables: bool)
    ensures multiset(Sorted(rs, tables)) == Grouped(rs, tables)
    ensures Ascending(Sorted(rs, tables))
    ensures forall r :: r in Sorted(rs, tables) <==> r in rs && (r.kind == Table) == tables
  {
    if rs != [] {
      SortedIs(rs[1..], tables);
      if (rs[0].kind == Table) == tables {
        var rest := Sorted(rs[1..], tables);
        InsertMembers(rs[0], rest);
        InsertAscends(rs[0], rest);
        forall r ensures r in Sorted(rs, tables) <==> r in rs && (r.kind == Table) == tables {
          assert r in Sorted(rs, tables) <==> r in multiset(Sorted(rs, tables));
          assert r in rest <==> r in multiset(rest);
        }
      }
    }
  }

  lemma GroupsPartition(rs: seq<Relation>)
    ensures Grouped(rs, true) + Grouped(rs, false) == multiset(rs)
  {
    if rs != [] {
      GroupsPartition(rs[1..]);
      assert rs == [rs[0]] + rs[1..];
    }
  }

  /** Execution order is a permutation of the reference with every table before everything else and each group
      in alphabetical order. */
  lemma OrderedTablesFirst(rs: seq<Relation>) returns (n: nat)
    ensures n <= |Ordered(rs)| && multiset(Ordered(rs)) == multiset(rs)
    ensures forall i | 0 <= i < |Ordered(rs)| :: Ordered(rs)[i].kind == Table <==> i < n
    ensures Ascending(Ordered(rs)[..n]) && Ascending(Ordered(rs)[n..])
    ensures forall r :: r in Ordered(rs) <==> r in rs
  {
    var tables := Sorted(rs, true);
    var others := Sorted(rs, false);
    n := |tables|;
    SortedIs(rs, true);
    SortedIs(rs, false);
    GroupsPartition(rs);
    assert Ordered(rs)[..n] == tables && Ordered(rs)[n..] == others;
    forall i | 0 <= i < |Ordered(rs)| ensures Ordered(rs)[i].kind == Table <==> i < n {
      if i < n { assert Ordered(rs)[i] in tables; } else { assert Ordered(rs)[i] in others; }
    }
  }

  // ---- from one table to the schema ----------------------------------------------------------

  function IndexNames(ss: seq<Statement>): seq<string> {
    if ss == [] then []
    else (if ss[0].CreateIndex? then [ss[0].index.name] else []) + IndexNames(ss[1..])
  }

  lemma IndexNamesFirst(ss: seq<Statement>)
    ensures IndexNames(ss) ==
            if ss == [] then []
            else (if ss[0].CreateIndex? then [ss[0].index.name] else []) + IndexNames(ss[1..])
  {
  }

  lemma {:induction false} IndexNamesAppend(a: seq<Statement>, b: seq<Statement>)
    ensures IndexNames(a + b) == IndexNames(a) + IndexNames(b)
  {
    hide IndexNames;
    IndexNamesFirst(a);
    if a == [] {
      assert a + b == b;
      assert [] + IndexNames(b) == IndexNames(b);
    } else {
      assert (a + b)[1..] == a[1..] + b && (a + b)[0] == a[0];
      IndexNamesFirst(a + b);
      IndexNamesAppend(a[1..], b);
      var here := if a[0].CreateIndex? then [a[0].index.name] else [];
      assert here + (IndexNames(a[1..]) + IndexNames(b)) == (here + IndexNames(a[1..])) + IndexNames(b);
    }
  }

  ghost predicate Distinct(names: seq<string>) {
    forall i, j | 0 <= i < j < |names| :: names[i] != names[j]
  }

  function Members(names: seq<string>): set<string> { set n | n in names }

  predicate TouchesKey(s: Statement) { s.DropConstraint? || s.AddPrimaryKey? }

  lemma {:induction false} Lift(sem: Semantics, db: Schema, table: string, ss: seq<Statement>, l: Live)
    requires table in db.relations
    requires ExecTableAll(sem, db.relations[table], ss) == Some(l)
    requires forall s | s in ss :: TableStatement(s, table) && Takes(db.relations[table].rel.kind, s)
    requires Distinct(IndexNames(ss)) && forall n | n in IndexNames(ss) :: !Taken(db, n)
    requires IndexNames(ss) == [] || forall s | s in ss :: !TouchesKey(s)
    ensures ExecAll(sem, db, ss) ==
            Some(db.(relations := db.relations[table := l], names := db.names + Members(IndexNames(ss))))
    decreases ss
  {
    hide ExecTable, Takes, Taken, TouchesKey, IndexNames, Distinct, Exec, KeyNamed;
    if ss == [] {
      assert db.relations[table := l] == db.relations;
      IndexNamesFirst(ss);
      assert db.names + Members([]) == db.names;
    } else {
      var s := ss[0];
      assert TableStatement(s, table);
      var names := IndexNames(ss);
      var rest := IndexNames(ss[1..]);
      NamesTail(ss);
      LiftOne(sem, db, table, s);
      var next := Exec(sem, db, s).value;
      NamesStayFree(sem, db, table, s, rest);
      Lift(sem, next, table, ss[1..], l);
      assert next.relations[table := l] == db.relations[table := l];
      assert next.names + Members(rest) == db.names + Members(names);
    }
  }

  lemma LiftOne(sem: Semantics, db: Schema, table: string, s: Statement)
    requires table in db.relations && TableStatement(s, table) && Takes(db.relations[table].rel.kind, s)
    requires s.CreateIndex? ==> !Taken(db, s.index.name)
    requires ExecTable(sem, db.relations[table], s).Some?
    ensures var l := ExecTable(sem, db.relations[table], s).value;
            && l.rel.kind == db.relations[table].rel.kind
            && Exec(sem, db, s) ==
               Some(db.(relations := db.relations[table := l],
                        names := db.names + if s.CreateIndex? then {s.index.name} else {}))
  {
    assert db.names + {} == db.names;
    hide Taken, NoCollision, DistinctOn, HasNulls, Satisfied, Filled;
  }

  lemma ConsDistinct(name: string, rest: seq<string>)
    requires Distinct([name] + rest)
    ensures Distinct(rest) && name !in rest && Members([name] + rest) == Members(rest) + {name}
  {
    var names := [name] + rest;
    assert names[0] == name && forall j | 0 <= j < |rest| :: names[j + 1] == rest[j];
  }

  // The names left to create when the first statement is done.
  lemma NamesTail(ss: seq<Statement>)
    requires ss != [] && Distinct(IndexNames(ss))
    ensures var s, rest := ss[0], IndexNames(ss[1..]);
            && Distinct(rest) && (forall n | n in rest :: n in IndexNames(ss))
            && (s.CreateIndex? ==> s.index.name in IndexNames(ss) && s.index.name !in rest)
            && (IndexNames(ss) == [] ==> rest == [])
            && Members(IndexNames(ss)) == Members(rest) + if s.CreateIndex? then {s.index.name} else {}
  {
    hide IndexNames, Distinct;
    IndexNamesFirst(ss);
    var s, rest := ss[0], IndexNames(ss[1..]);
    if s.CreateIndex? {
      ConsDistinct(s.index.name, rest);
    } else {
      assert [] + rest == rest;
    }
  }

  lemma NamesStayFree(sem: Semantics, db: Schema, table: string, s: Statement, names: seq<string>)
    requires table in db.relations && TableStatement(s, table) && Exec(sem, db, s).Some?
    requires names == [] || !TouchesKey(s)
    requires forall n | n in names :: !Taken(db, n) && (s.CreateIndex? ==> n != s.index.name)
    ensures forall n | n in names :: !Taken(Exec(sem, db, s).value, n)
    ensures Exec(sem, db, s).value.relations.Keys == db.relations.Keys
  {
    var next := Exec(sem, db, s).value;
    if names != [] {
      KeyNameStands(sem, db.relations[table], s);
      hide ExecTable;
      forall n | n in names ensures !Taken(next, n) {
        assert forall t | t in next.relations :: next.relations[t].keyName == db.relations[t].keyName;
      }
    }
  }

  lemma KeyNameStands(sem: Semantics, l: Live, s: Statement)
    requires !TouchesKey(s) && ExecTable(sem, l, s).Some?
    ensures ExecTable(sem, l, s).value.keyName == l.keyName
  {}

  lemma {:induction false} KeyNameStandsThroughout(sem: Semantics, l: Live, ss: seq<Statement>)
    requires ExecTableAll(sem, l, ss).Some? && forall s | s in ss :: !TouchesKey(s)
    ensures ExecTableAll(sem, l, ss).value.keyName == l.keyName
    decreases ss
  {
    hide ExecTable;
    if ss != [] {
      KeyNameStands(sem, l, ss[0]);
      KeyNameStandsThroughout(sem, ExecTable(sem, l, ss[0]).value, ss[1..]);
    }
  }

  // ---- which statements a table's plan holds --------------------------------------------------

  ghost predicate Plain(r: Relation, ss: seq<Statement>) {
    forall s | s in ss :: TableStatement(s, r.name) && !s.CreateIndex?
  }

  // Every discrepancy proposes only statements on `r` that create no index.
  ghost predicate ProposesPlain(r: Relation, ds: seq<Discrepancy>) {
    forall d | d in ds :: Plain(r, d.statements)
  }

  lemma {:induction false} PlainStatements(r: Relation, ds: seq<Discrepancy>)
    requires ProposesPlain(r, ds)
    ensures Plain(r, Statements(ds)) && IndexNames(Statements(ds)) == []
    decreases |ds|
  {
    if ds != [] {
      PlainStatements(r, ds[..|ds| - 1]);
      assert ds[|ds| - 1] in ds;
    }
    PlainHasNoIndex(r, Statements(ds));
  }

  lemma PlainHasNoIndex(r: Relation, ss: seq<Statement>)
    requires Plain(r, ss)
    ensures IndexNames(ss) == []
  {
  }

  lemma ColumnPlain(r: Relation, c: Column, live: Live)
    ensures ProposesPlain(r, ColumnDiscrepancies(r.name, c, live))
  {}

  lemma {:induction false} ColumnsPlain(r: Relation, cs: seq<Column>, live: Live, skip: set<string>)
    ensures ProposesPlain(r, MissingOrWrong(r.name, cs, live, skip))
    decreases |cs|
  {
    if cs != [] {
      ColumnsPlain(r, cs[..|cs| - 1], live, skip);
      ColumnPlain(r, cs[|cs| - 1], live);
    }
  }

  lemma {:induction false} ConstraintsPlain(sem: Semantics, r: Relation, ks: seq<Constraint>, live: Live)
    ensures ProposesPlain(r, ConstraintDiscrepancies(sem, r.name, ks, live))
    decreases |ks|
  {
    if ks != [] {
      ConstraintsPlain(sem, r, ks[..|ks| - 1], live);
    }
  }

  ghost predicate Constraining(ds: seq<Discrepancy>) {
    forall d | d in ds :: forall s | s in d.statements :: s.AddConstraint?
  }

  lemma {:induction false} ConstraintsConstrain(sem: Semantics, r: Relation, ks: seq<Constraint>, live: Live)
    ensures Constraining(ConstraintDiscrepancies(sem, r.name, ks, live))
    decreases |ks|
  {
    hide Satisfied, Absent;
    if ks != [] {
      ConstraintsConstrain(sem, r, ks[..|ks| - 1], live);
    }
  }

  // The missing indexes of `ixs`, in order.
  function MissingOf(ixs: seq<Index>, live: Live): seq<Index> {
    if ixs == [] then []
    else MissingOf(ixs[..|ixs| - 1], live)
         + (if HasShape(live.rel.indexes, ixs[|ixs| - 1].shape) then [] else [ixs[|ixs| - 1]])
  }

  function CreateAll(table: string, ixs: seq<Index>): seq<Statement> {
    seq(|ixs|, i requires 0 <= i < |ixs| => CreateIndex(table, ixs[i]))
  }

  lemma MissingOfMembers(ixs: seq<Index>, live: Live)
    ensures forall ix :: ix in MissingOf(ixs, live) <==> ix in ixs && MissingIndex(live, ix)
  {
  }

  lemma MissingOfDistinct(ixs: seq<Index>, live: Live)
    requires forall i, j | 0 <= i < j < |ixs| :: ixs[i].name != ixs[j].name
    ensures var m := MissingOf(ixs, live); forall i, j | 0 <= i < j < |m| :: m[i].name != m[j].name
  {
    if ixs != [] {
      var before := MissingOf(ixs[..|ixs| - 1], live);
      MissingOfDistinct(ixs[..|ixs| - 1], live);
      MissingOfMembers(ixs[..|ixs| - 1], live);
      forall i | 0 <= i < |before| ensures before[i].name != ixs[|ixs| - 1].name {
        assert before[i] in ixs[..|ixs| - 1];
      }
    }
  }

  lemma {:induction false} CreateAllNames(table: string, ixs: seq<Index>)
    ensures |IndexNames(CreateAll(table, ixs))| == |ixs|
    ensures forall i | 0 <= i < |ixs| :: IndexNames(CreateAll(table, ixs))[i] == ixs[i].name
    decreases |ixs|
  {
    if ixs != [] {
      assert CreateAll(table, ixs)[1..] == CreateAll(table, ixs[1..]);
      CreateAllNames(table, ixs[1..]);
    }
  }

  // An all-automatic index comparison creates exactly the missing indexes.
  lemma {:induction false} IndexStatements(r: Relation, ixs: seq<Index>, live: Live)
    requires AllAutomatic(IndexDiscrepancies(r.name, ixs, live))
    ensures Statements(IndexDiscrepancies(r.name, ixs, live)) == CreateAll(r.name, MissingOf(ixs, live))
    decreases |ixs|
  {
    if ixs != [] {
      var before := IndexDiscrepancies(r.name, ixs[..|ixs| - 1], live);
      var here := IndexDiscrepancy(r.name, ixs[|ixs| - 1], live);
      AutomaticParts(before, here);
      StatementsAppend(before, here);
      IndexStatements(r, ixs[..|ixs| - 1], live);
      if here != [] {
        assert here == [here[0]] && here[0].resolution == Automatic;
        StatementsOne(here[0]);
      } else {
        assert Statements(here) == [];
      }
    }
  }

  lemma {:induction false} ShapeStatements(sem: Semantics, r: Relation, live: Live)
    returns (a: seq<Statement>, c: seq<Statement>)
    requires AllAutomatic(ShapeDiscrepancies(sem, r, live))
    ensures Statements(ShapeDiscrepancies(sem, r, live)) == a + CreateAll(r.name, MissingOf(r.indexes, live)) + c
    ensures Plain(r, a) && Plain(r, c) && forall s | s in c :: s.AddConstraint?
  {
    ShapeParts(sem, r, live);
    a := Statements(MissingOrWrong(r.name, r.columns, live, SkipFor(r, live)));
    c := Statements(ConstraintDiscrepancies(sem, r.name, r.constraints, live));
    ColumnsPlain(r, r.columns, live, SkipFor(r, live));
    ConstraintsPlain(sem, r, r.constraints, live);
    PlainStatements(r, MissingOrWrong(r.name, r.columns, live, SkipFor(r, live)));
    PlainStatements(r, ConstraintDiscrepancies(sem, r.name, r.constraints, live));
    IndexStatements(r, r.indexes, live);
    ConstraintsConstrain(sem, r, r.constraints, live);
    InStatements(ConstraintDiscrepancies(sem, r.name, r.constraints, live));
  }

  lemma CardPlain(r: Relation, live: Live, baseline: Option<string>)
    requires RateCardDiscrepancy(r, live, baseline).Some?
    ensures Plain(r, RateCardDiscrepancy(r, live, baseline).value.statements)
  {}

  lemma Regroup(w: seq<Statement>, x: seq<Statement>, y: seq<Statement>, z: seq<Statement>)
    ensures w + (x + y + z) == (w + x) + y + z
  {}

  lemma {:induction false} TableParts(
    sem: Semantics, r: Relation, live: Live, baseline: Option<string>, ds: seq<Discrepancy>)
    returns (card: seq<Statement>)
    requires TableDiscrepancies(sem, r, Some(live), baseline) == Some(ds) && AllAutomatic(ds)
    ensures AllAutomatic(ShapeDiscrepancies(sem, r, live)) && Plain(r, card)
    ensures Statements(ds) == card + Statements(ShapeDiscrepancies(sem, r, live))
  {
    var shape := ShapeDiscrepancies(sem, r, live);
    if CurrentValued(r, live) {
      var d := RateCardDiscrepancy(r, live, baseline).value;
      AutomaticParts([d], shape);
      StatementsAppend([d], shape);
      StatementsOne(d);
      CardPlain(r, live, baseline);
      card := d.statements;
    } else {
      card := [];
    }
  }

  // What one table's all-automatic plan executes: statements on that table, and between others that
  // create no index, exactly its missing indexes.
  lemma {:induction false} TableStatements(
    sem: Semantics, r: Relation, live: Live, baseline: Option<string>, ds: seq<Discrepancy>)
    returns (a: seq<Statement>, c: seq<Statement>)
    requires TableDiscrepancies(sem, r, Some(live), baseline) == Some(ds) && AllAutomatic(ds)
    ensures Statements(ds) == a + CreateAll(r.name, MissingOf(r.indexes, live)) + c
    ensures Plain(r, a) && Plain(r, c) && forall s | s in c :: s.AddConstraint?
  {
    var card := TableParts(sem, r, live, baseline, ds);
    var rest: seq<Statement>;
    rest, c := ShapeStatements(sem, r, live);
    a := card + rest;
    Regroup(card, rest, CreateAll(r.name, MissingOf(r.indexes, live)), c);
    assert Plain(r, a) by {
      forall s | s in a ensures TableStatement(s, r.name) && !s.CreateIndex? {}
    }
  }

  lemma {:induction false} TableIndexNames(r: Relation, live: Live, c: seq<Statement>)
    requires Plain(r, c) && forall s | s in c :: s.AddConstraint?
    requires forall i, j | 0 <= i < j < |r.indexes| :: r.indexes[i].name != r.indexes[j].name
    ensures var ss := CreateAll(r.name, MissingOf(r.indexes, live)) + c;
            && (forall s | s in ss :: TableStatement(s, r.name) && !TouchesKey(s))
            && Distinct(IndexNames(ss))
            && (forall n | n in IndexNames(ss) ::
                  exists ix :: ix in r.indexes && ix.name == n && MissingIndex(live, ix))
  {
    hide IndexNames, MissingOf, MissingIndex;
    var m := MissingOf(r.indexes, live);
    var b := CreateAll(r.name, m);
    IndexNamesAppend(b, c);
    PlainHasNoIndex(r, c);
    assert IndexNames(b) + [] == IndexNames(b);
    CreateAllNames(r.name, m);
    MissingOfDistinct(r.indexes, live);
    MissingOfMembers(r.indexes, live);
    forall n | n in IndexNames(b + c)
      ensures exists ix :: ix in r.indexes && ix.name == n && MissingIndex(live, ix)
    {
      var i :| 0 <= i < |m| && m[i].name == n;
      assert m[i] in r.indexes;
    }
  }

  // ---- the whole plan ------------------------------------------------------------------------

  ghost predicate ReconciledRelation(r: Relation, db: Schema, now: Schema) {
    && r.name in now.relations
    && if r.kind == Table
       then r.name in db.relations && Reconciled(r, db.relations[r.name], now.relations[r.name])
       else now.relations[r.name].rel.kind == View && now.relations[r.name].keyName.None?
            && ColumnNames(now.relations[r.name].rel.columns) == ColumnNames(r.columns)
  }

  // `now` is `db` after the relations `done` were reconciled: they are, every other relation is untouched,
  // and the only new names are those relations' own and their indexes'.
  ghost predicate Reached(done: seq<Relation>, db: Schema, now: Schema) {
    && now.types == db.types
    && (forall r | r in done :: ReconciledRelation(r, db, now))
    && (forall t | forall r | r in done :: r.name != t ::
          (t in now.relations <==> t in db.relations) && (t in db.relations ==> now.relations[t] == db.relations[t]))
    && (forall n | n in now.names && n !in db.names ::
          exists r :: r in done && (r.name == n || exists ix :: ix in r.indexes && ix.name == n))
  }

  // Every table that comes before `r` is among `done`.
  ghost predicate TablesDone(ref: Reference, done: seq<Relation>, r: Relation) {
    && (forall q | q in done :: q in ref.relations && q.name != r.name)
    && forall q | q in ref.relations && q.kind == Table && q.name != r.name && TextLe(q.name, r.name) :: q in done
  }

  // `now` with the key of `r` already as the plan leaves it.
  function Keyed(now: Schema, r: Relation, l: Live): Schema { now.(relations := now.relations[r.name := l]) }

  // A key that stands after `done` and the re-keying of `r` either stood before, and its table is not re-keyed by
  // then, or is a new one.
  lemma KeysThen(
    ref: Reference, done: seq<Relation>, r: Relation, db: Schema, now: Schema, l: Live, t: string, name: string)
    requires DistinctRelations(ref.relations) && TablesDone(ref, done, r) && Reached(done, db, now)
    requires r in ref.relations && r.kind == Table && r.name in db.relations
    requires l.keyName == KeyAfter(r, db.relations[r.name])
    requires t in Keyed(now, r, l).relations && Keyed(now, r, l).relations[t].keyName == Some(name)
    ensures || (exists q :: q in ref.relations && q.kind == Table && q.name == RATE_CARD
                            && KeyConstraintName(q.name) == name)
            || (t in db.relations && db.relations[t].keyName == Some(name) && !KeyGoesFirst(ref, db, t, r))
  {
    hide Reconciled, TextLe;
    OnceEach(ref.relations);
    if t == r.name {
    } else if q :| q in done && q.name == t {
      assert ReconciledRelation(q, db, now);
      if q.kind == Table { ReconciledKey(q, db, now); }
    } else {
      assert forall q | q in done :: q.name != t;
    }
  }

  lemma ReconciledKey(q: Relation, db: Schema, now: Schema)
    requires q.kind == Table && ReconciledRelation(q, db, now)
    ensures now.relations[q.name].keyName == KeyAfter(q, db.relations[q.name])
  {}

  lemma NamesFresh(
    ref: Reference, done: seq<Relation>, r: Relation, db: Schema, now: Schema, l: Live, names: seq<string>)
    requires WellFormedReference(ref) && IndexNamesFree(ref, db) && Reached(done, db, now) && TablesDone(ref, done, r)
    requires r in ref.relations && r.kind == Table && r.name in db.relations
    requires l.keyName == KeyAfter(r, db.relations[r.name])
    requires forall n | n in names ::
               exists ix :: ix in r.indexes && ix.name == n && MissingIndex(db.relations[r.name], ix)
    ensures forall n | n in names :: !Taken(Keyed(now, r, l), n)
  {
    forall n | n in names ensures !Taken(Keyed(now, r, l), n) {
      var ix :| ix in r.indexes && ix.name == n && MissingIndex(db.relations[r.name], ix);
      assert NameFree(ref, db, r, n);
      NameNotMade(ref, done, r, ix, db, now);
      if t :| t in Keyed(now, r, l).relations && Keyed(now, r, l).relations[t].keyName == Some(n) {
        KeysThen(ref, done, r, db, now, l, t, n);
        NoIndexIsAKey(ref, r, ix);
      }
    }
  }

  lemma NameNotMade(ref: Reference, done: seq<Relation>, r: Relation, ix: Index, db: Schema, now: Schema)
    requires WellFormedReference(ref) && Reached(done, db, now) && r in ref.relations && ix in r.indexes
    requires forall q | q in done :: q in ref.relations && q.name != r.name
    ensures ix.name !in db.names ==> ix.name !in now.names
  {
    hide WellFormedTable, ReconciledRelation, ViewsNeedOnlyTables;
    forall q | q in done ensures q.name != ix.name && forall x | x in q.indexes :: x.name != ix.name {
      assert q != r && ix.name != q.name;
    }
  }

  lemma NoIndexIsAKey(ref: Reference, r: Relation, ix: Index)
    requires WellFormedReference(ref) && r in ref.relations && ix in r.indexes
    ensures forall q | q in ref.relations && q.kind == Table && q.name == RATE_CARD ::
              KeyConstraintName(q.name) != ix.name && KeyConstraintName(q.name) != r.name
  {
    forall q | q in ref.relations && q.kind == Table && q.name == RATE_CARD
      ensures KeyConstraintName(q.name) != ix.name && KeyConstraintName(q.name) != r.name
    {
      assert WellFormedTable(q);
      assert q.primaryKey != [];
    }
  }

  // Nothing `q` had or was to get is missing from it, but for an exempt column it never had.
  ghost predicate ColumnsThere(q: Relation, db: Schema, now: Schema) {
    && q.name in db.relations && q.name in now.relations
    && (forall c | c in q.columns && !Exempt(q.name, c.name) :: Lookup(now.relations[q.name].rel.columns, c.name).Some?)
    && forall n | Lookup(db.relations[q.name].rel.columns, n).Some? ::
         Lookup(now.relations[q.name].rel.columns, n).Some?
  }

  // What stands under a table's name takes what is planned for it.
  lemma {:induction false} StandingTakes(
    sem: Semantics, r: Relation, live: Live, baseline: Option<string>, ds: seq<Discrepancy>)
    requires WellFormedTable(r) && Stands(r, live) && TableDiscrepancies(sem, r, Some(live), baseline) == Some(ds)
    ensures forall s | s in Statements(ds) :: Takes(live.rel.kind, s)
  {
    hide TableDiscrepancies, WellFormedTable, Settled, SettledButDefaults;
    InStatements(ds);
    match live.rel.kind
    case Table =>
    case View => StandingViewTakes(sem, r, live, baseline, ds);
    case Other => QuietIffSettled(sem, r, live, baseline);
  }

  lemma {:induction false} TableExecutes(
    sem: Semantics, ref: Reference, done: seq<Relation>, r: Relation, db: Schema, now: Schema, baseline: Option<string>,
    ds: seq<Discrepancy>) returns (l: Live, names: seq<string>)
    requires WellFormedReference(ref) && IndexNamesFree(ref, db) && Reached(done, db, now)
    requires r in ref.relations && r.kind == Table && TablesDone(ref, done, r)
    requires r.name in db.relations && WellFormedLive(r, db.relations[r.name])
    requires ShareFits(r, db.relations[r.name], baseline)
    requires TableDiscrepancies(sem, r, Some(db.relations[r.name]), baseline) == Some(ds) && AllAutomatic(ds)
    ensures r.name in now.relations
    ensures ExecAll(sem, now, Statements(ds)) == Some(Keyed(now, r, l).(names := now.names + Members(names)))
    ensures Reconciled(r, db.relations[r.name], l) && Keeps(db.relations[r.name], l)
    ensures forall n | n in names :: exists ix :: ix in r.indexes && ix.name == n
  {
    hide TableDiscrepancies, ShareFits, WellFormedLive, Keeps, ExecTable, Exec, Statements, IndexNamesFree, Distinct,
         IndexNames, Reached;
    var live := db.relations[r.name];
    Untouched(done, r, db, now);
    ReferenceTable(ref, r);
    FitStands(r, live, baseline);
    l := TableSettles(sem, r, live, baseline, ds);
    StandingTakes(sem, r, live, baseline, ds);
    var a, c := TableStatements(sem, r, live, baseline, ds);
    hide WellFormedTable, WellFormedReference;
    var rest := CreateAll(r.name, MissingOf(r.indexes, live)) + c;
    assert Statements(ds) == a + rest;
    TableIndexNames(r, live, c);
    names := IndexNames(rest);
    ExecTableAllAppend(sem, live, a, rest);
    var mid := ExecTableAll(sem, live, a).value;
    KeyNameStandsThroughout(sem, mid, rest);
    assert mid.keyName == KeyAfter(r, live);
    NamesFresh(ref, done, r, db, now, mid, names);
    LiftInTwo(sem, now, r, a, rest, mid, l);
  }

  lemma {:induction false} LiftInTwo(
    sem: Semantics, now: Schema, r: Relation, a: seq<Statement>, rest: seq<Statement>, mid: Live, l: Live)
    requires r.name in now.relations && Plain(r, a)
    requires forall s | s in rest :: TableStatement(s, r.name) && !TouchesKey(s)
    requires forall s | s in a + rest :: Takes(now.relations[r.name].rel.kind, s)
    requires ExecTableAll(sem, now.relations[r.name], a) == Some(mid) && ExecTableAll(sem, mid, rest) == Some(l)
    requires Distinct(IndexNames(rest)) && forall n | n in IndexNames(rest) :: !Taken(Keyed(now, r, mid), n)
    ensures ExecAll(sem, now, a + rest) == Some(Keyed(now, r, l).(names := now.names + Members(IndexNames(rest))))
  {
    hide ExecTable, Takes, Taken, IndexNames;
    PlainHasNoIndex(r, a);
    Lift(sem, now, r.name, a, mid);
    assert now.names + Members([]) == now.names;
    KindStays(sem, now.relations[r.name], a);
    Lift(sem, Keyed(now, r, mid), r.name, rest, l);
    ExecAllAppend(sem, now, a, rest);
    assert Keyed(now, r, mid).relations[r.name := l] == now.relations[r.name := l];
  }

  lemma {:induction false} KindStays(sem: Semantics, l: Live, ss: seq<Statement>)
    requires ExecTableAll(sem, l, ss).Some?
    ensures ExecTableAll(sem, l, ss).value.rel.kind == l.rel.kind
    decreases ss
  {
    if ss != [] {
      KindStays(sem, ExecTable(sem, l, ss[0]).value, ss[1..]);
    }
  }

  lemma ReferenceTable(ref: Reference, r: Relation)
    requires WellFormedReference(ref) && r in ref.relations && r.kind == Table
    ensures WellFormedTable(r)
    ensures forall i, j | 0 <= i < j < |r.indexes| :: r.indexes[i].name != r.indexes[j].name
  {}

  lemma ReferenceView(ref: Reference, r: Relation)
    requires WellFormedReference(ref) && r in ref.relations && r.kind != Table
    ensures r.kind == View
  {}

  lemma FitStands(r: Relation, l: Live, baseline: Option<string>)
    requires ShareFits(r, l, baseline)
    ensures Stands(r, l)
  {}

  lemma {:induction false} TableReached(
    sem: Semantics, ref: Reference, done: seq<Relation>, r: Relation, db: Schema, now: Schema, baseline: Option<string>,
    ds: seq<Discrepancy>) returns (next: Schema)
    requires WellFormedReference(ref) && WellFormedSchema(ref, db) && PlanFits(ref, db, baseline)
    requires r in ref.relations && r.kind == Table && TablesDone(ref, done, r)
    requires Reached(done, db, now)
    requires TableDiscrepancies(sem, r, Find(db, r.name), baseline) == Some(ds) && AllAutomatic(ds)
    ensures ExecAll(sem, now, Statements(ds)) == Some(next) && Reached(done + [r], db, next)
    ensures ColumnsThere(r, db, next) && forall q | q in done && ColumnsThere(q, db, now) :: ColumnsThere(q, db, next)
  {
    hide ShareFits, Reconciled, TableDiscrepancies, ExecAll, Statements, Reached, AllAutomatic, WellFormedLive, Keeps;
    TableIsThere(sem, r, db, baseline, ds);
    var live := db.relations[r.name];
    var l, names := TableExecutes(sem, ref, done, r, db, now, baseline, ds);
    next := Keyed(now, r, l).(names := now.names + Members(names));
    ReconciledThere(r, live, l);
    StepReached(done, r, db, now, next);
  }

  lemma KeepsItself(l: Live)
    ensures Keeps(l, l)
  {}

  lemma NothingExecutes(sem: Semantics, now: Schema)
    ensures ExecAll(sem, now, Statements([])) == Some(now)
  {}

  lemma Untouched(done: seq<Relation>, r: Relation, db: Schema, now: Schema)
    requires Reached(done, db, now) && (forall q | q in done :: q.name != r.name)
    ensures r.name in now.relations <==> r.name in db.relations
    ensures r.name in db.relations ==> now.relations[r.name] == db.relations[r.name]
    ensures now.types == db.types
  {
    hide ReconciledRelation;
  }

  lemma ReconciledThere(r: Relation, live: Live, l: Live)
    requires Reconciled(r, live, l) && Keeps(live, l)
    ensures forall c | c in r.columns && !Exempt(r.name, c.name) :: Lookup(l.rel.columns, c.name).Some?
    ensures forall n | Lookup(live.rel.columns, n).Some? :: Lookup(l.rel.columns, n).Some?
  {}

  lemma TableIsThere(sem: Semantics, r: Relation, db: Schema, baseline: Option<string>, ds: seq<Discrepancy>)
    requires TableDiscrepancies(sem, r, Find(db, r.name), baseline) == Some(ds) && AllAutomatic(ds)
    ensures r.name in db.relations
  {
    assert r.name !in db.relations ==> ByHand(r.name, TableAbsent) in ds;
  }

  lemma StepReached(done: seq<Relation>, r: Relation, db: Schema, now: Schema, next: Schema)
    requires Reached(done, db, now) && forall q | q in done :: q.name != r.name
    requires ReconciledRelation(r, db, next) && next.types == now.types
    requires forall t | t != r.name ::
               && (t in next.relations <==> t in now.relations)
               && (t in now.relations ==> next.relations[t] == now.relations[t])
    requires forall n | n in next.names && n !in now.names ::
               n == r.name || exists ix :: ix in r.indexes && ix.name == n
    ensures Reached(done + [r], db, next)
  {
    hide Reconciled;
  }

  function WithView(now: Schema, r: Relation): Schema {
    now.(relations := now.relations[r.name := Live(r, [], None, [])], names := now.names + {r.name})
  }

  lemma {:induction false} CreateExecutes(sem: Semantics, now: Schema, r: Relation, needs: map<string, set<string>>)
    requires !Taken(now, r.name) && r.name !in now.types && NeedsMet(now, needs)
    ensures ExecAll(sem, now, [CreateView(r.name, r, needs)]) == Some(WithView(now, r))
  {
  }

  function WithoutView(now: Schema, name: string): Schema {
    now.(relations := now.relations - {name}, names := now.names - {name})
  }

  lemma {:induction false} DropThenCreateExecutes(
    sem: Semantics, now: Schema, r: Relation, needs: map<string, set<string>>)
    requires r.name in now.relations && now.relations[r.name].rel.kind == View && now.relations[r.name].dependents == []
    requires !KeyNamed(now, r.name) && r.name !in now.types
    requires NeedsMet(WithoutView(now, r.name), needs)
    ensures ExecAll(sem, now, [DropView(r.name), CreateView(r.name, r, needs)]) == Some(WithView(now, r))
  {
    var ss := [DropView(r.name), CreateView(r.name, r, needs)];
    var mid := WithoutView(now, r.name);
    assert ss[1..] == [CreateView(r.name, r, needs)];
    assert !KeyNamed(mid, r.name) by {
      assert forall t | t in mid.relations :: t in now.relations && mid.relations[t] == now.relations[t];
    }
    CreateExecutes(sem, mid, r, needs);
    assert mid.relations[r.name := Live(r, [], None, [])] == now.relations[r.name := Live(r, [], None, [])];
    assert mid.names + {r.name} == now.names + {r.name};
  }

  lemma {:induction false} ViewExecutes(
    sem: Semantics, ref: Reference, r: Relation, db: Schema, now: Schema, ds: seq<Discrepancy>) returns (next: Schema)
    requires WellFormedReference(ref) && ViewsFit(ref, db) && r in ref.relations && r.kind == View
    requires forall q | q in ref.relations && q.kind == Table :: q.name != r.name && ColumnsThere(q, db, now)
    requires r.name !in db.relations ==> !Taken(now, r.name)
    requires r.name in db.relations && db.relations[r.name].rel.kind == View ==>
               !KeyNamed(now, r.name) && db.relations[r.name].keyName.None?
    requires r.name in now.relations <==> r.name in db.relations
    requires r.name in db.relations ==> now.relations[r.name] == db.relations[r.name]
    requires now.types == db.types
    requires ViewDiscrepancies(r, NeedsOf(ref, r.name), Find(db, r.name)) == ds && AllAutomatic(ds)
    ensures ExecAll(sem, now, Statements(ds)) == Some(next) && ReconciledRelation(r, db, next)
    ensures next == now || next == WithView(now, r)
  {
    hide WellFormedReference, ViewsFit, ViewFits, NeedsMet, ColumnsThere, Exempt, ExecAll, NeedsOf, ColumnNames, Taken,
         KeyNamed;
    var needs := NeedsOf(ref, r.name);
    assert r.name in db.relations && db.relations[r.name].rel.kind != View ==>
             ByHand(r.name, NotAView(db.relations[r.name].rel.kind)) in ds;
    if ds == [] {
      NothingExecutes(sem, now);
      next := now;
    } else {
      assert ds[0].resolution == Automatic;
      assert ds == [ds[0]];
      StatementsOne(ds[0]);
      next := WithView(now, r);
      assert ToCreate(r, db);
      ViewFitsHere(ref, r, db);
      if r.name !in db.relations {
        NeedsAreMet(ref, r, db, now, now);
        CreateExecutes(sem, now, r, needs);
      } else {
        NeedsAreMet(ref, r, db, now, WithoutView(now, r.name));
        DropThenCreateExecutes(sem, now, r, needs);
      }
    }
  }

  lemma ViewFitsHere(ref: Reference, r: Relation, db: Schema)
    requires ViewsFit(ref, db) && r in ref.relations && r.kind == View && ToCreate(r, db)
    ensures ViewFits(ref, r, db) && r.name !in db.types
  {}

  lemma {:induction false} ViewReached(
    sem: Semantics, ref: Reference, done: seq<Relation>, r: Relation, db: Schema, now: Schema, ds: seq<Discrepancy>)
    returns (next: Schema)
    requires WellFormedReference(ref) && WellFormedSchema(ref, db) && ViewsFit(ref, db)
    requires r in ref.relations && r.kind == View && forall q | q in done :: q in ref.relations && q.name != r.name
    requires forall q | q in ref.relations && q.kind == Table :: q in done && ColumnsThere(q, db, now)
    requires Reached(done, db, now)
    requires ViewDiscrepancies(r, NeedsOf(ref, r.name), Find(db, r.name)) == ds && AllAutomatic(ds)
    ensures ExecAll(sem, now, Statements(ds)) == Some(next) && Reached(done + [r], db, next)
    ensures forall q | q in ref.relations && q.kind == Table :: ColumnsThere(q, db, next)
  {
    hide ViewDiscrepancies, ExecAll, Statements, AllAutomatic, WellFormedReference, ViewsFit, Reached, NeedsOf,
         ReconciledRelation, Lookup;
    ViewNameFree(ref, done, r, db, now);
    Untouched(done, r, db, now);
    next := ViewExecutes(sem, ref, r, db, now, ds);
    StepReached(done, r, db, now, next);
    forall q | q in ref.relations && q.kind == Table ensures ColumnsThere(q, db, next) {
      assert ColumnsThere(q, db, now);
    }
  }

  lemma ViewNameFree(ref: Reference, done: seq<Relation>, r: Relation, db: Schema, now: Schema)
    requires WellFormedReference(ref) && WellFormedSchema(ref, db) && Reached(done, db, now)
    requires r in ref.relations && r.kind == View && forall q | q in done :: q in ref.relations && q.name != r.name
    ensures r.name !in db.relations ==> !Taken(now, r.name)
    ensures r.name in db.relations && db.relations[r.name].rel.kind == View ==>
              !KeyNamed(now, r.name) && db.relations[r.name].keyName.None?
  {
    hide Reconciled, WellFormedTable, ViewsNeedOnlyTables, WellFormedLive;
    if t :| t in now.relations && now.relations[t].keyName == Some(r.name) {
      if q :| q in done && q.name == t {
        assert ReconciledRelation(q, db, now);
        ReconciledKey(q, db, now);
        KeyIsNoRelation(ref, q, r);
        assert db.relations[t].keyName == Some(r.name);
      } else {
        assert db.relations[t].keyName == Some(r.name);
      }
      assert KeyNamed(db, r.name);
    }
  }

  lemma KeyIsNoRelation(ref: Reference, q: Relation, r: Relation)
    requires WellFormedReference(ref) && q in ref.relations && r in ref.relations && q.kind == Table
    ensures q.name == RATE_CARD ==> KeyConstraintName(q.name) != r.name
  {
    assert WellFormedTable(q);
    assert q.name == RATE_CARD ==> q.primaryKey != [];
  }

  lemma NeedsAreMet(ref: Reference, r: Relation, db: Schema, now: Schema, mid: Schema)
    requires WellFormedReference(ref) && r in ref.relations && r.kind == View && ViewFits(ref, r, db)
    requires forall q | q in ref.relations && q.kind == Table :: ColumnsThere(q, db, now)
    requires forall t | t in now.relations && t != r.name :: t in mid.relations && mid.relations[t] == now.relations[t]
    ensures NeedsMet(mid, NeedsOf(ref, r.name))
  {
    hide WellFormedTable, DistinctIndexNames;
    var needs := NeedsOf(ref, r.name);
    forall t | t in needs
      ensures t in mid.relations && forall c | c in needs[t] :: Lookup(mid.relations[t].rel.columns, c).Some?
    {
      var q :| q in ref.relations && q.kind == Table && q.name == t
               && forall c | c in needs[t] :: Lookup(q.columns, c).Some?;
      assert ColumnsThere(q, db, now);
      OnceEach(ref.relations);
      forall c | c in needs[t] ensures Lookup(mid.relations[t].rel.columns, c).Some? {
        assert Lookup(q.columns, c).value in q.columns;
      }
    }
  }

  // ---- the theorem ---------------------------------------------------------------------------

  lemma {:induction false} OnceEach(rs: seq<Relation>)
    requires DistinctRelations(rs)
    ensures forall r :: multiset(rs)[r] <= 1
    ensures forall r, q | r in rs && q in rs && r.name == q.name :: r == q
  {
    if rs != [] {
      var rest := rs[1..];
      assert rs == [rs[0]] + rest;
      OnceEach(rest);
      assert forall r | r in rest :: r.name != rs[0].name;
      assert rs[0] !in rest;
      assert multiset(rest)[rs[0]] == 0;
    }
  }

  lemma OrderedDistinct(rs: seq<Relation>)
    requires DistinctRelations(rs)
    ensures DistinctRelations(Ordered(rs)) && forall r :: r in Ordered(rs) <==> r in rs
  {
    var os := Ordered(rs);
    var n := OrderedTablesFirst(rs);
    OnceEach(rs);
    forall i, j | 0 <= i < j < |os| ensures os[i].name != os[j].name {
      assert os == os[..j] + [os[j]] + os[j + 1..];
      assert os[i] in os[..j];
      assert os[i] != os[j] by {
        assert multiset(os)[os[j]] == multiset(os[..j])[os[j]] + 1 + multiset(os[j + 1..])[os[j]];
      }
    }
  }

  ghost predicate ExecutionOrder(ref: Reference, rs: seq<Relation>) {
    && DistinctRelations(rs)
    && (forall r :: r in rs <==> r in ref.relations)
    && forall i, j | 0 <= i < j < |rs| && rs[j].kind == Table :: rs[i].kind == Table && TextLe(rs[i].name, rs[j].name)
  }

  ghost predicate TablesComplete(rs: seq<Relation>, db: Schema, now: Schema) {
    forall q | q in rs && q.kind == Table :: ColumnsThere(q, db, now)
  }

  lemma EarlierDiffer(ref: Reference, rs: seq<Relation>, k: nat)
    requires ExecutionOrder(ref, rs) && k < |rs|
    ensures rs[k] in ref.relations && forall q | q in rs[..k] :: q in ref.relations && q.name != rs[k].name
    ensures rs[k].kind == Table ==> TablesDone(ref, rs[..k], rs[k])
  {
    hide TextLe;
    forall q | q in rs[..k] ensures q in ref.relations && q.name != rs[k].name {
      assert q in rs;
    }
    forall q | rs[k].kind == Table && q in ref.relations && q.kind == Table
               && q.name != rs[k].name && TextLe(q.name, rs[k].name)
      ensures q in rs[..k]
    {
      var j :| 0 <= j < |rs| && rs[j] == q;
      TextLeTotal(q.name, rs[k].name);
      assert rs[..k][j] == q;
    }
  }

  lemma TablesBefore(ref: Reference, rs: seq<Relation>, k: nat, db: Schema, mid: Schema)
    requires ExecutionOrder(ref, rs) && k < |rs| && rs[k].kind != Table && TablesComplete(rs[..k], db, mid)
    ensures forall q | q in ref.relations && q.kind == Table :: q in rs[..k] && ColumnsThere(q, db, mid)
  {
    forall q | q in ref.relations && q.kind == Table ensures q in rs[..k] && ColumnsThere(q, db, mid) {
      var i :| 0 <= i < |rs| && rs[i] == q;
      assert i < k;
      assert rs[..k][i] == q;
    }
  }

  lemma {:induction false} PlanStep(
    sem: Semantics, ref: Reference, rs: seq<Relation>, k: nat, db: Schema, mid: Schema, baseline: Option<string>,
    here: seq<Discrepancy>) returns (now: Schema)
    requires WellFormedReference(ref) && WellFormedSchema(ref, db) && PlanFits(ref, db, baseline)
    requires ExecutionOrder(ref, rs) && k < |rs|
    requires Reached(rs[..k], db, mid) && TablesComplete(rs[..k], db, mid)
    requires RelationDiscrepancies(sem, ref, rs[k], db, baseline) == Some(here) && AllAutomatic(here)
    ensures ExecAll(sem, mid, Statements(here)) == Some(now)
    ensures Reached(rs[..k] + [rs[k]], db, now) && TablesComplete(rs[..k] + [rs[k]], db, now)
  {
    hide TableDiscrepancies, ViewDiscrepancies, ExecAll, Statements, AllAutomatic, ColumnsThere, Reached,
         ExecutionOrder, WellFormedReference, WellFormedSchema, IndexNamesFree, SharesFit, ViewsFit;
    var r := rs[k];
    EarlierDiffer(ref, rs, k);
    if r.kind == Table {
      now := TableReached(sem, ref, rs[..k], r, db, mid, baseline, here);
    } else {
      TablesBefore(ref, rs, k, db, mid);
      ReferenceView(ref, r);
      now := ViewReached(sem, ref, rs[..k], r, db, mid, here);
    }
  }

  // The plan for one more relation is the plan before it and that relation's own discrepancies.
  lemma {:induction false} PlanSplit(
    sem: Semantics, ref: Reference, rs: seq<Relation>, k: nat, db: Schema, baseline: Option<string>,
    ds: seq<Discrepancy>)
    returns (before: seq<Discrepancy>, here: seq<Discrepancy>)
    requires k < |rs| && PlanOver(sem, ref, rs[..k + 1], db, baseline) == Some(ds) && AllAutomatic(ds)
    ensures PlanOver(sem, ref, rs[..k], db, baseline) == Some(before) && AllAutomatic(before)
    ensures RelationDiscrepancies(sem, ref, rs[k], db, baseline) == Some(here) && AllAutomatic(here)
    ensures Statements(ds) == Statements(before) + Statements(here)
    ensures rs[..k + 1] == rs[..k] + [rs[k]]
  {
    hide RelationDiscrepancies;
    NextRelation(sem, ref, rs, k, db, baseline);
    hide PlanOver;
    before := PlanOver(sem, ref, rs[..k], db, baseline).value;
    here := RelationDiscrepancies(sem, ref, rs[k], db, baseline).value;
    AutomaticParts(before, here);
    StatementsAppend(before, here);
  }

  lemma NothingRun(
    sem: Semantics, ref: Reference, rs: seq<Relation>, db: Schema, baseline: Option<string>, ds: seq<Discrepancy>)
    requires PlanOver(sem, ref, rs[..0], db, baseline) == Some(ds)
    ensures ExecAll(sem, db, Statements(ds)) == Some(db) && Reached(rs[..0], db, db) && TablesComplete(rs[..0], db, db)
  {}

  lemma {:induction false} PlanRuns(
    sem: Semantics, ref: Reference, rs: seq<Relation>, k: nat, db: Schema, baseline: Option<string>,
    ds: seq<Discrepancy>)
    returns (now: Schema)
    requires WellFormedReference(ref) && WellFormedSchema(ref, db) && PlanFits(ref, db, baseline)
    requires ExecutionOrder(ref, rs) && k <= |rs|
    requires PlanOver(sem, ref, rs[..k], db, baseline) == Some(ds) && AllAutomatic(ds)
    ensures ExecAll(sem, db, Statements(ds)) == Some(now)
    ensures Reached(rs[..k], db, now) && TablesComplete(rs[..k], db, now)
    decreases k
  {
    hide *;
    if k == 0 {
      now := db;
      NothingRun(sem, ref, rs, db, baseline, ds);
    } else {
      var before, here := PlanSplit(sem, ref, rs, k - 1, db, baseline, ds);
      var mid := PlanRuns(sem, ref, rs, k - 1, db, baseline, before);
      now := PlanStep(sem, ref, rs, k - 1, db, mid, baseline, here);
      ExecAllAppend(sem, db, Statements(before), Statements(here));
    }
  }

  lemma {:induction false} SettledPlanIsEmpty(
    sem: Semantics, ref: Reference, rs: seq<Relation>, db: Schema, now: Schema, baseline: Option<string>)
    requires forall r | r in rs :: && ReconciledRelation(r, db, now)
                                   && (if r.kind == Table then WellFormedTable(r) && Settled(r, now.relations[r.name])
                                       else r.kind == View)
    ensures PlanOver(sem, ref, rs, now, baseline) == Some([])
    decreases |rs|
  {
    if rs != [] {
      var r := rs[|rs| - 1];
      SettledPlanIsEmpty(sem, ref, rs[..|rs| - 1], db, now, baseline);
      assert ReconciledRelation(r, db, now);
      if r.kind == Table {
        QuietIffSettled(sem, r, now.relations[r.name], baseline);
      }
      var none: seq<Discrepancy> := [];
      assert RelationDiscrepancies(sem, ref, r, now, baseline) == Some(none) && none + none == none;
    }
  }

  /** The plan's promise: when no discrepancy needs a human and the plan fits the live schema, every
      statement executes, in order; and when it adds no generated column, planning the result, under whatever
      baseline, finds nothing left. */
  lemma {:induction false} Converges(
    sem: Semantics, ref: Reference, db: Schema, baseline: Option<string>, again: Option<string>)
    requires WellFormedReference(ref) && WellFormedSchema(ref, db) && PlanFits(ref, db, baseline)
    requires PlanOf(sem, ref, db, baseline).Some? && AllAutomatic(PlanOf(sem, ref, db, baseline).value)
    ensures var end := ExecAll(sem, db, Statements(PlanOf(sem, ref, db, baseline).value));
            end.Some? && (NoGeneratedColumnAdded(ref, db) ==> PlanOf(sem, ref, end.value, again) == Some([]))
  {
    var rs := Ordered(ref.relations);
    OrderedDistinct(ref.relations);
    var n := OrderedTablesFirst(ref.relations);
    assert rs[..|rs|] == rs;
    InOrder(rs, n);
    var end := PlanRuns(sem, ref, rs, |rs|, db, baseline, PlanOf(sem, ref, db, baseline).value);
    if NoGeneratedColumnAdded(ref, db) {
      hide *;
      AllSettled(ref, rs, db, end);
      SettledPlanIsEmpty(sem, ref, rs, db, end, again);
      PlanIs(sem, ref, end, again);
    }
  }

  lemma InOrder(rs: seq<Relation>, n: nat)
    requires n <= |rs| && Ascending(rs[..n]) && forall i | 0 <= i < |rs| :: rs[i].kind == Table <==> i < n
    ensures forall i, j | 0 <= i < j < |rs| && rs[j].kind == Table ::
              rs[i].kind == Table && TextLe(rs[i].name, rs[j].name)
  {
    forall i, j | 0 <= i < j < |rs| && rs[j].kind == Table
      ensures rs[i].kind == Table && TextLe(rs[i].name, rs[j].name)
    {
      AscendsThroughout(rs[..n], i, j);
    }
  }

  lemma AllSettled(ref: Reference, rs: seq<Relation>, db: Schema, now: Schema)
    requires WellFormedReference(ref) && NoGeneratedColumnAdded(ref, db)
    requires Reached(rs, db, now) && forall r | r in rs :: r in ref.relations
    ensures forall r | r in rs :: && ReconciledRelation(r, db, now)
                                  && (if r.kind == Table then WellFormedTable(r) && Settled(r, now.relations[r.name])
                                       else r.kind == View)
  {
    hide Settled, Reconciled, NoGeneratedAdded, WellFormedTable;
    forall r | r in rs && r.kind == Table ensures WellFormedTable(r) && Settled(r, now.relations[r.name]) {
      SettledWhenNoneGenerated(r, db.relations[r.name], now.relations[r.name]);
    }
  }

  lemma PlanIs(sem: Semantics, ref: Reference, db: Schema, baseline: Option<string>)
    ensures PlanOf(sem, ref, db, baseline) == PlanOver(sem, ref, Ordered(ref.relations), db, baseline)
  {}
}
