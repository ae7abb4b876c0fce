// An abstract PostgreSQL schema and the statements a reconciliation may execute on it.
//
// A statement either succeeds and yields the next catalog or fails (`None`), which inside a
// transaction means that nothing of the whole batch survives.
module Catalog {
  import opened Base

  /** A stored value: SQL NULL, or something with a textual rendering. */
  datatype Cell = Null | Val(text: string)

  type Row = map<string, Cell>

  /** A column default: one provably constant value, or an expression such as `now()`. */
  datatype Default = Constant(value: Cell) | Volatile(expression: string)

  datatype Column = Column(
    name: string, typ: string, notNull: bool, default: Option<Default>, identity: string, generated: string)
  {
    predicate Ordinary() { identity == "" && generated == "" }

    // What ADD COLUMN writes: neither identity nor generated is ever part of the statement.
    function Plain(): Column { this.(identity := "", generated := "") }

    // The value ADD COLUMN gives to every row already there.
    function Fill(): Cell {
      if default.Some? && default.value.Constant? then default.value.value else Null
    }
  }

  datatype Index = Index(name: string, shape: string, columns: seq<string>, unique: bool)

  datatype Constraint = Constraint(name: string, definition: string, columns: seq<string>)

  /** What a name stands for; `Other` is an index, a sequence or the like. */
  datatype Kind = Table | View | Other

  datatype Relation = Relation(
    name: string, kind: Kind, columns: seq<Column>, primaryKey: seq<string>,
    indexes: seq<Index>, constraints: seq<Constraint>)

  /** A relation as it stands in the database: its catalog entry, its rows, its key's name, its dependents. */
  datatype Live = Live(rel: Relation, rows: seq<Row>, keyName: Option<string>, dependents: seq<string>)

  /** The schema: the relations by name, every name taken by a relation, an index or a sequence, and the names
      of the types that belong to no relation. The name of a primary key's index is its table's `keyName`. */
  datatype Schema = Schema(relations: map<string, Live>, names: set<string>, types: set<string>)

  /** What the server knows about constraint text: which are CHECKs, and which rows satisfy them. */
  datatype Semantics = Semantics(isCheck: string -> bool, holds: (string, Row) -> bool)

  datatype Statement =
    | AddColumn(table: string, column: Column)
    | DropDefault(table: string, name: string)
    | SetDefault(table: string, name: string, value: Default)
    | SetNotNull(table: string, name: string)
    | CreateIndex(table: string, index: Index)
    | AddConstraint(table: string, constraint: Constraint)
    | DropConstraint(table: string, name: string)
    | AddPrimaryKey(table: string, key: seq<string>)
    | DropView(table: string)
    | CreateView(table: string, view: Relation, needs: map<string, set<string>>)

  // ---- columns -------------------------------------------------------------------------

  function Lookup(cs: seq<Column>, name: string): (found: Option<Column>)
    ensures found.Some? ==> found.value in cs && found.value.name == name
    ensures found.None? ==> forall c | c in cs :: c.name != name
  {
    if cs == [] then None
    else if cs[0].name == name then Some(cs[0])
    else Lookup(cs[1..], name)
  }

  function WithNotNull(cs: seq<Column>, names: seq<string>): seq<Column> {
    if cs == [] then []
    else [if cs[0].name in names then cs[0].(notNull := true) else cs[0]] + WithNotNull(cs[1..], names)
  }

  function WithDefault(cs: seq<Column>, name: string, d: Option<Default>): seq<Column> {
    if cs == [] then []
    else [if cs[0].name == name then cs[0].(default := d) else cs[0]] + WithDefault(cs[1..], name, d)
  }

  predicate UniqueNames(cs: seq<Column>) {
    forall i, j | 0 <= i < j < |cs| :: cs[i].name != cs[j].name
  }

  lemma LookupAppend(cs: seq<Column>, c: Column, name: string)
    ensures Lookup(cs + [c], name) ==
            if Lookup(cs, name).Some? then Lookup(cs, name) else if c.name == name then Some(c) else None
  {
    if cs != [] {
      assert (cs + [c])[1..] == cs[1..] + [c];
      LookupAppend(cs[1..], c, name);
    }
  }

  lemma LookupWithNotNull(cs: seq<Column>, names: seq<string>, name: string)
    ensures Lookup(WithNotNull(cs, names), name) ==
            match Lookup(cs, name)
            case None => None
            case Some(c) => Some(if name in names then c.(notNull := true) else c)
    ensures |WithNotNull(cs, names)| == |cs|
    ensures forall i | 0 <= i < |cs| :: WithNotNull(cs, names)[i].name == cs[i].name
  {
  }

  lemma LookupWithDefault(cs: seq<Column>, key: string, d: Option<Default>, name: string)
    ensures Lookup(WithDefault(cs, key, d), name) ==
            match Lookup(cs, name)
            case None => None
            case Some(c) => Some(if name == key then c.(default := d) else c)
    ensures |WithDefault(cs, key, d)| == |cs|
    ensures forall i | 0 <= i < |cs| :: WithDefault(cs, key, d)[i].name == cs[i].name
  {
  }

  lemma LookupUnique(cs: seq<Column>, c: Column)
    requires UniqueNames(cs) && c in cs
    ensures Lookup(cs, c.name) == Some(c)
  {
  }

  // ---- rows ----------------------------------------------------------------------------

  function Get(row: Row, name: string): Cell {
    if name in row then row[name] else Null
  }

  function Project(row: Row, names: seq<string>): Row {
    map n | n in names :: Get(row, n)
  }

  function Filled(rows: seq<Row>, name: string, value: Cell): (r: seq<Row>)
    ensures |r| == |rows| && forall i | 0 <= i < |rows| :: r[i] == rows[i][name := value]
  {
    seq(|rows|, i requires 0 <= i < |rows| => rows[i][name := value])
  }

  predicate HasNulls(rows: seq<Row>, name: string) {
    exists i | 0 <= i < |rows| :: Get(rows[i], name) == Null
  }

  predicate DistinctOn(rows: seq<Row>, names: seq<string>) {
    forall i, j | 0 <= i < j < |rows| :: Project(rows[i], names) != Project(rows[j], names)
  }

  // What a UNIQUE index refuses: equal values throughout its columns, none of them NULL.
  predicate Collide(a: Row, b: Row, names: seq<string>) {
    forall n | n in names :: Get(a, n) == Get(b, n) && Get(a, n) != Null
  }

  predicate NoCollision(rows: seq<Row>, names: seq<string>) {
    forall i, j | 0 <= i < j < |rows| :: !Collide(rows[i], rows[j], names)
  }

  predicate Satisfied(sem: Semantics, rows: seq<Row>, c: Constraint) {
    forall i | 0 <= i < |rows| :: sem.holds(c.definition, Project(rows[i], c.columns))
  }

  predicate HasColumns(rel: Relation, names: seq<string>) {
    forall n | n in names :: Lookup(rel.columns, n).Some?
  }

  // Every row of a table has a cell for exactly the table's columns.
  ghost predicate RowsFit(l: Live) {
    forall i, n | 0 <= i < |l.rows| :: n in l.rows[i] <==> Lookup(l.rel.columns, n).Some?
  }

  // ---- execution -----------------------------------------------------------------------

  // The name ADD PRIMARY KEY gives the constraint it makes.
  function KeyConstraintName(table: string): string { table + "_pkey" }

  // One statement on one table, leaving aside whether an index name is free in the schema.
  function ExecTable(sem: Semantics, l: Live, s: Statement): Option<Live> {
    var rel := l.rel;
    match s
    case AddColumn(_, c) =>
      if Lookup(rel.columns, c.name).Some? then None
      else if c.default.Some? && c.default.value.Volatile? then None
      else if c.notNull && c.Fill() == Null && l.rows != [] then None
      else Some(l.(rel := rel.(columns := rel.columns + [c.Plain()]), rows := Filled(l.rows, c.name, c.Fill())))
    case DropDefault(_, n) =>
      if !Alterable(rel, n) then None
      else Some(l.(rel := rel.(columns := WithDefault(rel.columns, n, None))))
    case SetDefault(_, n, d) =>
      if !Alterable(rel, n) then None
      else Some(l.(rel := rel.(columns := WithDefault(rel.columns, n, Some(d)))))
    case SetNotNull(_, n) =>
      if Lookup(rel.columns, n).None? || HasNulls(l.rows, n) then None
      else Some(l.(rel := rel.(columns := WithNotNull(rel.columns, [n]))))
    case CreateIndex(_, ix) =>
      if !HasColumns(rel, ix.columns) then None
      else if ix.unique && !NoCollision(l.rows, ix.columns) then None
      else Some(l.(rel := rel.(indexes := rel.indexes + [ix])))
    case AddConstraint(_, c) =>
      if !HasColumns(rel, c.columns) || !sem.isCheck(c.definition) then None
      else if l.keyName == Some(c.name) || exists k | k in rel.constraints :: k.name == c.name then None
      else if !Satisfied(sem, l.rows, c) then None
      else Some(l.(rel := rel.(constraints := rel.constraints + [c])))
    case DropConstraint(_, n) =>
      if l.keyName != Some(n) then None
      else Some(l.(rel := rel.(primaryKey := []), keyName := None))
    case AddPrimaryKey(_, key) =>
      if l.keyName.Some? || !HasColumns(rel, key) then None
      else if (exists n | n in key :: HasNulls(l.rows, n)) || !DistinctOn(l.rows, key) then None
      else Some(l.(rel := rel.(primaryKey := key, columns := WithNotNull(rel.columns, key)),
                   keyName := Some(KeyConstraintName(rel.name))))
    case DropView(_) => None
    case CreateView(_, _, _) => None
  }

  // SET DEFAULT and DROP DEFAULT are refused on identity and generated columns.
  predicate Alterable(rel: Relation, name: string) {
    Lookup(rel.columns, name).Some? && Lookup(rel.columns, name).value.Ordinary()
  }

  // A view selects from tables and views alike.
  predicate NeedsMet(db: Schema, needs: map<string, set<string>>) {
    forall t | t in needs ::
      t in db.relations && forall c | c in needs[t] :: Lookup(db.relations[t].rel.columns, c).Some?
  }

  predicate KeyNamed(db: Schema, name: string) {
    exists t | t in db.relations :: db.relations[t].keyName == Some(name)
  }

  predicate Taken(db: Schema, name: string) { name in db.names || KeyNamed(db, name) }

  predicate ChangesDefault(s: Statement) { s.SetDefault? || s.DropDefault? }

  // A view has defaults for its columns too, and nothing else that ALTER TABLE or CREATE INDEX could change.
  predicate Takes(kind: Kind, s: Statement) {
    match kind
    case Table => true
    case View => ChangesDefault(s)
    case Other => false
  }

  // A view's row type needs its name as well.
  function Exec(sem: Semantics, db: Schema, s: Statement): Option<Schema> {
    if s.DropView? then
      if s.table in db.relations && db.relations[s.table].rel.kind == View && db.relations[s.table].dependents == []
      then Some(db.(relations := db.relations - {s.table}, names := db.names - {s.table}))
      else None
    else if s.CreateView? then
      if Taken(db, s.table) || s.table in db.types || !NeedsMet(db, s.needs) then None
      else Some(db.(relations := db.relations[s.table := Live(s.view, [], None, [])], names := db.names + {s.table}))
    else if s.table !in db.relations || !Takes(db.relations[s.table].rel.kind, s) then None
    else if s.CreateIndex? && Taken(db, s.index.name) then None
    else
      match ExecTable(sem, db.relations[s.table], s)
      case None => None
      case Some(l) =>
        Some(db.(relations := db.relations[s.table := l],
                 names := if s.CreateIndex? then db.names + {s.index.name} else db.names))
  }

  function ExecAll(sem: Semantics, db: Schema, ss: seq<Statement>): Option<Schema>
    decreases ss
  {
    if ss == [] then Some(db)
    else match Exec(sem, db, ss[0])
      case None => None
      case Some(next) => ExecAll(sem, next, ss[1..])
  }

  function ExecTableAll(sem: Semantics, l: Live, ss: seq<Statement>): Option<Live>
    decreases ss
  {
    if ss == [] then Some(l)
    else match ExecTable(sem, l, ss[0])
      case None => None
      case Some(next) => ExecTableAll(sem, next, ss[1..])
  }

  lemma {:induction false} ExecAllAppend(sem: Semantics, db: Schema, a: seq<Statement>, b: seq<Statement>)
    ensures ExecAll(sem, db, a + b) ==
            match ExecAll(sem, db, a) case None => None case Some(mid) => ExecAll(sem, mid, b)
    decreases a
  {
    if a == [] {
      assert a + b == b;
    } else {
      assert (a + b)[1..] == a[1..] + b;
      if Exec(sem, db, a[0]).Some? {
        ExecAllAppend(sem, Exec(sem, db, a[0]).value, a[1..], b);
      }
    }
  }

  lemma {:induction false} ExecTableAllAppend(sem: Semantics, l: Live, a: seq<Statement>, b: seq<Statement>)
    ensures ExecTableAll(sem, l, a + b) ==
            match ExecTableAll(sem, l, a) case None => None case Some(mid) => ExecTableAll(sem, mid, b)
    decreases a
  {
    if a == [] {
      assert a + b == b;
    } else {
      assert (a + b)[1..] == a[1..] + b;
      if ExecTable(sem, l, a[0]).Some? {
        ExecTableAllAppend(sem, ExecTable(sem, l, a[0]).value, a[1..], b);
      }
    }
  }

  // ---- what execution can never do -------------------------------------------------------

  // `now` still holds every column and every row of `was`, each stored cell unchanged.
  ghost predicate Keeps(was: Live, now: Live) {
    && now.rel.kind == was.rel.kind && now.rel.name == was.rel.name
    && |now.rows| == |was.rows|
    && (forall n :: Lookup(was.rel.columns, n).Some? ==> Lookup(now.rel.columns, n).Some?)
    && (forall i, n | 0 <= i < |was.rows| && n in was.rows[i] ::
         n in now.rows[i] && now.rows[i][n] == was.rows[i][n])
  }

  // A cell of `now` that `was` did not have holds what some executed ADD COLUMN back-fills.
  ghost predicate OnlyFills(table: string, was: Live, now: Live, ss: seq<Statement>)
    requires |now.rows| == |was.rows|
  {
    forall i, n | 0 <= i < |was.rows| && n in now.rows[i] && n !in was.rows[i] ::
      exists s | s in ss :: s.AddColumn? && s.table == table && s.column.name == n && now.rows[i][n] == s.column.Fill()
  }

  lemma {:induction false} ExecTableKeeps(sem: Semantics, l: Live, s: Statement)
    requires RowsFit(l) && ExecTable(sem, l, s).Some?
    ensures var now := ExecTable(sem, l, s).value;
            RowsFit(now) && Keeps(l, now) && OnlyFills(s.table, l, now, [s])
  {
    var now := ExecTable(sem, l, s).value;
    assert s in [s];
    match s
    case AddColumn(_, c) =>
      forall n ensures Lookup(now.rel.columns, n) ==
          if Lookup(l.rel.columns, n).Some? then Lookup(l.rel.columns, n)
          else if c.name == n then Some(c.Plain()) else None
      {
        LookupAppend(l.rel.columns, c.Plain(), n);
      }
    case SetDefault(_, k, d) =>
      forall n ensures Lookup(now.rel.columns, n).Some? == Lookup(l.rel.columns, n).Some? {
        LookupWithDefault(l.rel.columns, k, Some(d), n);
      }
    case DropDefault(_, k) =>
      forall n ensures Lookup(now.rel.columns, n).Some? == Lookup(l.rel.columns, n).Some? {
        LookupWithDefault(l.rel.columns, k, None, n);
      }
    case SetNotNull(_, k) =>
      forall n ensures Lookup(now.rel.columns, n).Some? == Lookup(l.rel.columns, n).Some? {
        LookupWithNotNull(l.rel.columns, [k], n);
      }
    case AddPrimaryKey(_, key) =>
      forall n ensures Lookup(now.rel.columns, n).Some? == Lookup(l.rel.columns, n).Some? {
        LookupWithNotNull(l.rel.columns, key, n);
      }
    case _ =>
  }

  lemma {:induction false} KeepsTransitive(t: string, a: Live, b: Live, c: Live, ss: seq<Statement>, s: Statement)
    requires Keeps(a, b) && Keeps(b, c) && OnlyFills(t, a, b, [s]) && OnlyFills(t, b, c, ss)
    ensures Keeps(a, c) && OnlyFills(t, a, c, [s] + ss)
  {
  }

  // The same over all the statements of one table.
  lemma {:induction false} ExecTableAllKeeps(sem: Semantics, l: Live, t: string, ss: seq<Statement>)
    requires RowsFit(l) && ExecTableAll(sem, l, ss).Some? && forall s | s in ss :: s.table == t
    ensures var now := ExecTableAll(sem, l, ss).value;
            RowsFit(now) && Keeps(l, now) && OnlyFills(t, l, now, ss)
    decreases ss
  {
    if ss != [] {
      var next := ExecTable(sem, l, ss[0]).value;
      ExecTableKeeps(sem, l, ss[0]);
      ExecTableAllKeeps(sem, next, t, ss[1..]);
      assert [ss[0]] + ss[1..] == ss;
      KeepsTransitive(t, l, next, ExecTableAll(sem, l, ss).value, ss[1..], ss[0]);
    }
  }

  /** Whatever is executed: no table goes, no column goes, no row goes, no stored cell changes, and
      every cell that appears is the back-fill of an ADD COLUMN in the batch. */
  lemma {:induction false} ExecutionKeepsData(sem: Semantics, db: Schema, ss: seq<Statement>, table: string)
    requires db.relations.Keys <= db.names
    requires table in db.relations && db.relations[table].rel.kind == Table && RowsFit(db.relations[table])
    requires ExecAll(sem, db, ss).Some?
    ensures var end := ExecAll(sem, db, ss).value;
            table in end.relations && RowsFit(end.relations[table]) &&
            Keeps(db.relations[table], end.relations[table]) &&
            OnlyFills(table, db.relations[table], end.relations[table], ss)
    decreases ss
  {
    if ss != [] {
      var s := ss[0];
      var next := Exec(sem, db, s).value;
      if s.table == table && !s.DropView? && !s.CreateView? {
        ExecTableKeeps(sem, db.relations[table], s);
      }
      assert table in next.relations;
      ExecutionKeepsData(sem, next, ss[1..], table);
      assert [s] + ss[1..] == ss;
      KeepsTransitive(table, db.relations[table], next.relations[table],
                      ExecAll(sem, db, ss).value.relations[table], ss[1..], s);
    }
  }
}
