// What a plan says of the live schema, written on its columns, rows and names alone: everything it says is so,
// and everything that is so it says.
module PlanTruth {
  import opened Base
  import opened Catalog
  import opened Reconcile
  import opened TableSettling
  import opened Convergence
  import opened ReconcileLimits

  // A human's to settle: nothing is proposed.
  ghost predicate Hand(d: Discrepancy) { d.resolution == Manual && d.statements == [] }

  ghost predicate Tool(d: Discrepancy, ss: seq<Statement>) { d.resolution == Automatic && d.statements == ss }

  // ---- the rate card -----------------------------------------------------------------------------

  // The table is the rate card and has no effective_from yet.
  ghost predicate NoHistory(r: Relation, live: Live) {
    r.name == RATE_CARD && forall c | c in live.rel.columns :: c.name != EFFECTIVE_FROM
  }

  ghost predicate KeysThere(r: Relation, live: Live) {
    forall n | n in r.primaryKey && n != EFFECTIVE_FROM :: Lookup(live.rel.columns, n).Some?
  }

  ghost predicate ModelsApart(rows: seq<Row>) {
    forall i, j | 0 <= i < j < |rows| :: Get(rows[i], "model") != Get(rows[j], "model")
  }

  ghost predicate NoSubscription(rows: seq<Row>) {
    forall i | 0 <= i < |rows| :: Get(rows[i], "pricing_mode") != Val("subscription")
  }

  ghost predicate KeysFilled(r: Relation, rows: seq<Row>) {
    forall n, i | n in r.primaryKey && n != EFFECTIVE_FROM && 0 <= i < |rows| :: Get(rows[i], n) != Null
  }

  ghost predicate Repeats(rows: seq<Row>, m: Cell) {
    exists i, j :: 0 <= i < j < |rows| && Get(rows[i], "model") == Get(rows[j], "model") == m
  }

  ghost predicate Subscribes(rows: seq<Row>, m: Cell) {
    exists i :: 0 <= i < |rows| && Get(rows[i], "model") == m && Get(rows[i], "pricing_mode") == Val("subscription")
  }

  // What the rate card without history is told, and what is proposed for it.
  ghost predicate SaidOfCard(r: Relation, live: Live, baseline: Option<string>, d: Discrepancy) {
    var rows := live.rows;
    match d.finding
    case RateCardKeyAbsent(absent) =>
      !KeysThere(r, live) && absent == Absent(live.rel, WithoutEffectiveFrom(r.primaryKey)) && Hand(d)
    case RateCardDuplicates(models) =>
      && KeysThere(r, live) && !ModelsApart(rows)
      && (forall m :: m in models <==> Repeats(rows, m)) && Null !in models && Hand(d)
    case RateCardSubscriptionOnly(models) =>
      && KeysThere(r, live) && ModelsApart(rows) && !NoSubscription(rows)
      && (forall m :: m in models <==> Subscribes(rows, m)) && Null !in models && Hand(d)
    case RateCardNeedsBaseline =>
      KeysThere(r, live) && ModelsApart(rows) && NoSubscription(rows) && baseline.None? && Hand(d)
    case RateCardNullKey(columns) =>
      && KeysThere(r, live) && ModelsApart(rows) && NoSubscription(rows) && baseline.Some? && !KeysFilled(r, rows)
      && columns == NullKeys(rows, r.primaryKey) && Hand(d)
    case RateCardRestructure(from) =>
      && KeysThere(r, live) && ModelsApart(rows) && NoSubscription(rows) && baseline == Some(from)
      && KeysFilled(r, rows) && Tool(d, Rekeying(r, live, from))
    case _ => false
  }

  // The new column filled with the baseline, without keeping that as its default; then the new key for the old.
  function Rekeying(r: Relation, live: Live, from: string): seq<Statement> {
    var typ := if Lookup(r.columns, EFFECTIVE_FROM).Some? then Lookup(r.columns, EFFECTIVE_FROM).value.typ else "";
    [AddColumn(r.name, Column(EFFECTIVE_FROM, typ, true, Some(Constant(Val(from))), "", "")),
     DropDefault(r.name, EFFECTIVE_FROM)]
    + (match live.keyName case Some(k) => [DropConstraint(r.name, k)] case None => [])
    + [AddPrimaryKey(r.name, r.primaryKey)]
  }

  /** The columns two of the refusals list: the key columns that are not there, and those that hold NULL. */
  lemma {:induction false} ListedColumns(rel: Relation, rows: seq<Row>, key: seq<string>, n: string)
    ensures n in Absent(rel, WithoutEffectiveFrom(key)) <==>
            n in key && n != EFFECTIVE_FROM && forall c | c in rel.columns :: c.name != n
    ensures n in NullKeys(rows, key) <==>
            n in key && n != EFFECTIVE_FROM && exists i :: 0 <= i < |rows| && Get(rows[i], n) == Null
  {
    if key != [] {
      ListedColumns(rel, rows, key[1..], n);
      assert key == [key[0]] + key[1..];
      AbsentMembers(rel, WithoutEffectiveFrom(key), n);
      OthersOf(key);
      hide Absent, WithoutEffectiveFrom;
    }
  }

  lemma AbsentMembers(rel: Relation, names: seq<string>, n: string)
    ensures n in Absent(rel, names) <==> n in names && forall c | c in rel.columns :: c.name != n
  {
  }

  lemma SubscriptionsAre(rows: seq<Row>, m: Cell)
    requires ModelsApart(rows)
    ensures m in SubscriptionOnly(rows) <==> Subscribes(rows, m)
  {
    if i :| 0 <= i < |rows| && Get(rows[i], "model") == m && Get(rows[i], "pricing_mode") == Val("subscription") {
      forall j | 0 <= j < |rows| && j != i ensures Model(rows[j]) != Model(rows[i]) {
        if j < i { assert Get(rows[j], "model") != Get(rows[i], "model"); }
      }
    }
  }

  lemma CardNames(r: Relation, live: Live)
    requires RowsFit(live)
    ensures Absent(live.rel, WithoutEffectiveFrom(r.primaryKey)) == [] <==> KeysThere(r, live)
    ensures Duplicates(live.rows) == {} <==> ModelsApart(live.rows)
    ensures forall m :: m in Duplicates(live.rows) <==> Repeats(live.rows, m)
    ensures ModelsApart(live.rows) ==>
              (Lookup(live.rel.columns, "pricing_mode").Some? && SubscriptionOnly(live.rows) != {} <==>
               !NoSubscription(live.rows))
    ensures ModelsApart(live.rows) ==> forall m :: m in SubscriptionOnly(live.rows) <==> Subscribes(live.rows, m)
    ensures NullKeys(live.rows, r.primaryKey) == [] <==> KeysFilled(r, live.rows)
  {
    var rows := live.rows;
    KeyColumnsThere(live.rel, r.primaryKey);
    ModelsDistinct(rows);
    NullKeysNone(rows, r.primaryKey);
    if ModelsApart(rows) {
      forall m ensures m in SubscriptionOnly(rows) <==> Subscribes(rows, m) {
        SubscriptionsAre(rows, m);
      }
      hide SubscriptionOnly;
      if i :| 0 <= i < |rows| && Get(rows[i], "pricing_mode") == Val("subscription") {
        assert Subscribes(rows, Get(rows[i], "model")) && "pricing_mode" in rows[i];
      }
      if m :| m in SubscriptionOnly(rows) {
        assert Subscribes(rows, m);
      }
    }
  }

  // The set of cells a refusal lists.
  lemma ListedModels(d: Discrepancy, r: Relation, live: Live, baseline: Option<string>, models: set<Cell>)
    requires d.finding == RateCardDuplicates(models) || d.finding == RateCardSubscriptionOnly(models)
    requires d.relation == r.name && SaidOfCard(r, live, baseline, d) && RowsFit(live)
    ensures d.finding == RateCardDuplicates(models) ==> models == Duplicates(live.rows)
    ensures d.finding == RateCardSubscriptionOnly(models) ==> models == SubscriptionOnly(live.rows)
  {
    CardNames(r, live);
    hide Absent, WithoutEffectiveFrom, Duplicates, SubscriptionOnly, NullKeys, KeysThere, ModelsApart, NoSubscription,
         KeysFilled, Repeats, Subscribes, RowsFit, Rekeying;
  }

  lemma CardSaid(r: Relation, live: Live, baseline: Option<string>, d: Discrepancy)
    requires RowsFit(live) && RateCardDiscrepancy(r, live, baseline) == Some(d)
    ensures d.relation == r.name && SaidOfCard(r, live, baseline, d)
  {
    hide Absent, WithoutEffectiveFrom, Duplicates, SubscriptionOnly, NullKeys, KeysThere, ModelsApart, NoSubscription,
         KeysFilled, Repeats, Subscribes, RowsFit, RestructureStatements, Rekeying;
    CardNames(r, live);
    match d.finding {
      case RateCardKeyAbsent(absent) => assert Hand(d);
      case RateCardDuplicates(models) => assert models == Duplicates(live.rows);
      case RateCardSubscriptionOnly(models) => assert models == SubscriptionOnly(live.rows);
      case RateCardNeedsBaseline => assert Hand(d);
      case RateCardNullKey(columns) => assert Hand(d);
      case RateCardRestructure(from) => RekeyingIs(r, live, from);
      case _ => assert false;
    }
  }

  lemma SaidIsCard(r: Relation, live: Live, baseline: Option<string>, d: Discrepancy)
    requires RowsFit(live) && d.relation == r.name && SaidOfCard(r, live, baseline, d)
    ensures RateCardDiscrepancy(r, live, baseline) == Some(d)
  {
    CardNames(r, live);
    match d.finding {
      case RateCardDuplicates(models) => ListedModels(d, r, live, baseline, models);
      case RateCardSubscriptionOnly(models) => ListedModels(d, r, live, baseline, models);
      case RateCardRestructure(from) => RekeyingIs(r, live, from);
      case _ =>
    }
    hide Absent, WithoutEffectiveFrom, Duplicates, SubscriptionOnly, NullKeys, KeysThere, ModelsApart, NoSubscription,
         KeysFilled, Repeats, Subscribes, RowsFit, RestructureStatements, Rekeying;
  }

  lemma CardSays(r: Relation, live: Live, baseline: Option<string>, d: Discrepancy)
    requires RowsFit(live)
    ensures RateCardDiscrepancy(r, live, baseline) == Some(d) <==>
            d.relation == r.name && SaidOfCard(r, live, baseline, d)
  {
    hide *;
    if RateCardDiscrepancy(r, live, baseline) == Some(d) {
      CardSaid(r, live, baseline, d);
    }
    if d.relation == r.name && SaidOfCard(r, live, baseline, d) {
      SaidIsCard(r, live, baseline, d);
    }
  }

  lemma RekeyingIs(r: Relation, live: Live, from: string)
    ensures RestructureStatements(r, live, from) == Rekeying(r, live, from)
  {
  }

  /** A rate card without history is re-keyed by the tool exactly when its other key columns are there and hold no
      NULL, no two rows have the same model, no row is a subscription's, and a baseline is given; otherwise,
      where planning does not raise, it is a human's. */
  lemma RateCardAutomaticIff(r: Relation, live: Live, baseline: Option<string>)
    requires RowsFit(live) && RateCardDiscrepancy(r, live, baseline).Some?
    ensures RateCardDiscrepancy(r, live, baseline).value.resolution == Automatic <==>
            && (forall n | n in r.primaryKey && n != "effective_from" ::
                  exists c :: c in live.rel.columns && c.name == n)
            && (forall i, j | 0 <= i < j < |live.rows| :: Get(live.rows[i], "model") != Get(live.rows[j], "model"))
            && (forall i | 0 <= i < |live.rows| :: Get(live.rows[i], "pricing_mode") != Val("subscription"))
            && baseline.Some?
            && (forall n, i | n in r.primaryKey && n != "effective_from" && 0 <= i < |live.rows| ::
                  Get(live.rows[i], n) != Null)
  {
    var d := RateCardDiscrepancy(r, live, baseline).value;
    CardSays(r, live, baseline, d);
    hide RateCardDiscrepancy;
    if KeysThere(r, live) {
      forall n | n in r.primaryKey && n != "effective_from" ensures exists c :: c in live.rel.columns && c.name == n {
        assert Lookup(live.rel.columns, n).value in live.rel.columns;
      }
    }
  }

  // ---- columns -----------------------------------------------------------------------------------

  ghost predicate SameMake(c: Column, f: Column) {
    f.generated == c.generated && f.identity == c.identity && f.typ == c.typ
  }

  // There is an honest value for the rows that are there: a constant default, NULL, or the one fixed back-fill.
  ghost predicate Addable(r: Relation, c: Column) {
    if c.default.Some? then c.default.value.Constant?
    else !c.notNull || (r.name == USAGE_TABLE && c.name == "schema_version")
  }

  ghost predicate SaidOfMissing(r: Relation, c: Column, d: Discrepancy) {
    match d.finding
    case ColumnMissing(w) =>
      && w == c && Addable(r, c)
      && Tool(d, if c.default.None? && c.notNull then
                   [AddColumn(r.name, Column(c.name, c.typ, true, Some(Constant(Val("1"))), "", "")),
                    DropDefault(r.name, c.name)]
                 else [AddColumn(r.name, Column(c.name, c.typ, c.notNull, c.default, "", ""))])
    case ColumnUnfillable(w) => w == c && !Addable(r, c) && Hand(d)
    case _ => false
  }

  ghost predicate SaidOfFound(r: Relation, c: Column, f: Column, rows: seq<Row>, d: Discrepancy) {
    match d.finding
    case GeneratedDiffers(n, generated) =>
      n == c.name && f.generated != c.generated && (generated <==> f.generated != "") && Hand(d)
    case IdentityDiffers(n, identity) =>
      && n == c.name && f.generated == c.generated && f.identity != c.identity
      && (identity <==> f.identity != "") && Hand(d)
    case TypeDiffers(n, typ, wanted) =>
      && n == c.name && f.generated == c.generated && f.identity == c.identity && f.typ != c.typ
      && typ == f.typ && wanted == c.typ && Hand(d)
    case HoldsNulls(n) =>
      && n == c.name && SameMake(c, f) && c.notNull && !f.notNull
      && (exists i :: 0 <= i < |rows| && Get(rows[i], n) == Null) && Hand(d)
    case Nullable(n) =>
      && n == c.name && SameMake(c, f) && c.notNull && !f.notNull
      && (forall i | 0 <= i < |rows| :: Get(rows[i], n) != Null) && Tool(d, [SetNotNull(r.name, n)])
    case Required(n) => n == c.name && SameMake(c, f) && f.notNull && !c.notNull && Hand(d)
    case DefaultUnwanted(n, found) =>
      && n == c.name && SameMake(c, f) && c.default.None? && f.default.Some? && found == f.default
      && Tool(d, [DropDefault(r.name, n)])
    case DefaultDiffers(n, found) =>
      && n == c.name && SameMake(c, f) && c.default.Some? && f.default != c.default && found == f.default
      && Tool(d, [SetDefault(r.name, n, c.default.value)])
    case _ => false
  }

  ghost predicate SaidOfColumn(r: Relation, c: Column, live: Live, d: Discrepancy) {
    && !(r.name == USAGE_TABLE && c.name == "id") && !(c.name == EFFECTIVE_FROM && NoHistory(r, live))
    && match Lookup(live.rel.columns, c.name)
       case None => SaidOfMissing(r, c, d)
       case Some(f) => SaidOfFound(r, c, f, live.rows, d)
  }

  lemma {:induction false} InColumns(r: Relation, cs: seq<Column>, live: Live, skip: set<string>, d: Discrepancy)
    ensures d in MissingOrWrong(r.name, cs, live, skip) <==>
            exists c :: c in cs && !Skipped(r.name, c.name, skip) && d in ColumnDiscrepancies(r.name, c, live)
    decreases |cs|
  {
    hide ColumnDiscrepancies, Skipped;
    if cs != [] {
      InColumns(r, cs[..|cs| - 1], live, skip, d);
      assert cs == cs[..|cs| - 1] + [cs[|cs| - 1]];
    }
  }

  lemma ColumnSays(r: Relation, c: Column, live: Live, d: Discrepancy)
    ensures !Skipped(r.name, c.name, SkipFor(r, live)) && d in ColumnDiscrepancies(r.name, c, live) <==>
            d.relation == r.name && SaidOfColumn(r, c, live, d)
  {
    hide Lookup;
    if Lookup(live.rel.columns, c.name).None? {
      MissingSays(r, c, d);
      hide MissingColumn, SaidOfMissing;
    } else {
      FoundSays(r, c, Lookup(live.rel.columns, c.name).value, live, d);
      hide SaidOfFound, NullabilityDiscrepancies, DefaultDiscrepancies;
    }
  }

  lemma MissingSays(r: Relation, c: Column, d: Discrepancy)
    ensures d == MissingColumn(r.name, c) <==> d.relation == r.name && SaidOfMissing(r, c, d)
  {
  }

  lemma FoundSays(r: Relation, c: Column, f: Column, live: Live, d: Discrepancy)
    requires Lookup(live.rel.columns, c.name) == Some(f)
    ensures d in ColumnDiscrepancies(r.name, c, live) <==> d.relation == r.name && SaidOfFound(r, c, f, live.rows, d)
  {
  }

  ghost predicate SaidOfExtra(r: Relation, c: Column, d: Discrepancy) {
    && r.name == USAGE_TABLE && c.name != "id" && (forall k | k in r.columns :: k.name != c.name)
    && c.notNull && c.default.None? && c.identity == ""
    && d.finding == ExtraUnwritable(c.name, c.typ) && Hand(d)
  }

  lemma {:induction false} ExtrasSay(r: Relation, cs: seq<Column>, d: Discrepancy)
    ensures d in ExtraDiscrepancies(r, cs) <==> d.relation == r.name && exists c :: c in cs && SaidOfExtra(r, c, d)
    decreases |cs|
  {
    if cs != [] {
      var c := cs[|cs| - 1];
      ExtrasSay(r, cs[..|cs| - 1], d);
      assert cs == cs[..|cs| - 1] + [c];
      assert BlockingExtra(r, c) && d == ByHand(r.name, ExtraUnwritable(c.name, c.typ)) <==>
             d.relation == r.name && SaidOfExtra(r, c, d);
    }
  }

  // ---- key, indexes and constraints ----------------------------------------------------------------

  ghost predicate SaidOfKey(r: Relation, live: Live, d: Discrepancy) {
    && !NoHistory(r, live) && live.rel.primaryKey != r.primaryKey
    && d.finding == KeyDiffers(live.rel.primaryKey, r.primaryKey) && Hand(d)
  }

  ghost predicate SaidOfIndex(r: Relation, ix: Index, live: Live, d: Discrepancy) {
    && (forall l | l in live.rel.indexes :: l.shape != ix.shape)
    && match d.finding
       case IndexNameTaken(n) =>
         n == ix.name && n != "" && (exists l :: l in live.rel.indexes && l.name == n) && Hand(d)
       case IndexMissing(shape) =>
         && shape == ix.shape && (ix.name == "" || forall l | l in live.rel.indexes :: l.name != ix.name)
         && Tool(d, [CreateIndex(r.name, ix)])
       case _ => false
  }

  lemma {:induction false} IndexesSay(r: Relation, ixs: seq<Index>, live: Live, d: Discrepancy)
    ensures d in IndexDiscrepancies(r.name, ixs, live) <==>
            d.relation == r.name && exists ix :: ix in ixs && SaidOfIndex(r, ix, live, d)
    decreases |ixs|
  {
    if ixs != [] {
      var ix := ixs[|ixs| - 1];
      IndexesSay(r, ixs[..|ixs| - 1], live, d);
      assert ixs == ixs[..|ixs| - 1] + [ix];
      IndexSays(r, ix, live, d);
      hide SaidOfIndex, IndexDiscrepancy;
    }
  }

  lemma IndexSays(r: Relation, ix: Index, live: Live, d: Discrepancy)
    ensures d in IndexDiscrepancy(r.name, ix, live) <==> d.relation == r.name && SaidOfIndex(r, ix, live, d)
  {
  }

  ghost predicate SaidOfConstraint(sem: Semantics, r: Relation, k: Constraint, live: Live, d: Discrepancy) {
    var there := forall n | n in k.columns :: Lookup(live.rel.columns, n).Some?;
    var free := forall l | l in live.rel.constraints :: l.name != k.name;
    var met := forall i | 0 <= i < |live.rows| :: sem.holds(k.definition, Project(live.rows[i], k.columns));
    && (forall l | l in live.rel.constraints :: l.definition != k.definition)
    && match d.finding
       case ConstraintColumnsAbsent(n, absent) =>
         n == k.name && !there && absent == Absent(live.rel, k.columns) && Hand(d)
       case ConstraintNameTaken(n) => n == k.name && there && !free && Hand(d)
       case ConstraintUncheckable(n) => n == k.name && there && free && !sem.isCheck(k.definition) && Hand(d)
       case ConstraintViolated(n) => n == k.name && there && free && sem.isCheck(k.definition) && !met && Hand(d)
       case ConstraintMissing(n) =>
         n == k.name && there && free && sem.isCheck(k.definition) && met && Tool(d, [AddConstraint(r.name, k)])
       case _ => false
  }

  lemma {:induction false} ConstraintsSay(sem: Semantics, r: Relation, ks: seq<Constraint>, live: Live, d: Discrepancy)
    ensures d in ConstraintDiscrepancies(sem, r.name, ks, live) <==>
            d.relation == r.name && exists k :: k in ks && SaidOfConstraint(sem, r, k, live, d)
    decreases |ks|
  {
    if ks != [] {
      var k := ks[|ks| - 1];
      ConstraintsSay(sem, r, ks[..|ks| - 1], live, d);
      assert ks == ks[..|ks| - 1] + [k];
      ConstraintSays(sem, r, k, live, d);
      hide SaidOfConstraint, ConstraintDiscrepancy;
    }
  }

  lemma ConstraintSays(sem: Semantics, r: Relation, k: Constraint, live: Live, d: Discrepancy)
    ensures d in ConstraintDiscrepancy(sem, r.name, k, live) <==>
            d.relation == r.name && SaidOfConstraint(sem, r, k, live, d)
  {
    AbsentNone(live.rel, k.columns);
    hide Absent, Lookup;
  }

  // ---- relations -----------------------------------------------------------------------------------

  // What a present table is told beyond the re-keying of a rate card.
  ghost predicate SaidOfShape(sem: Semantics, r: Relation, live: Live, d: Discrepancy) {
    || (exists c :: c in r.columns && SaidOfColumn(r, c, live, d))
    || (exists c :: c in live.rel.columns && SaidOfExtra(r, c, d))
    || SaidOfKey(r, live, d)
    || (exists ix :: ix in r.indexes && SaidOfIndex(r, ix, live, d))
    || (exists k :: k in r.constraints && SaidOfConstraint(sem, r, k, live, d))
  }

  ghost predicate SaidOfTable(sem: Semantics, r: Relation, live: Live, baseline: Option<string>, d: Discrepancy) {
    SaidOfShape(sem, r, live, d) || (NoHistory(r, live) && SaidOfCard(r, live, baseline, d))
  }

  ghost predicate SameNames(a: seq<Column>, b: seq<Column>) {
    |a| == |b| && forall i | 0 <= i < |a| :: a[i].name == b[i].name
  }

  ghost predicate SaidOfView(r: Relation, needs: map<string, set<string>>, live: Live, d: Discrepancy) {
    match d.finding
    case NotAView(kind) => live.rel.kind != r.kind && kind == live.rel.kind && Hand(d)
    case ViewHasDependents(dependents) =>
      && live.rel.kind == r.kind && !SameNames(live.rel.columns, r.columns) && live.dependents != []
      && dependents == live.dependents && Hand(d)
    case ViewDiffers(names) =>
      && live.rel.kind == r.kind && !SameNames(live.rel.columns, r.columns) && live.dependents == []
      && |names| == |live.rel.columns| && (forall i | 0 <= i < |names| :: names[i] == live.rel.columns[i].name)
      && Tool(d, [DropView(r.name), CreateView(r.name, r, needs)])
    case _ => false
  }

  // `d` is so of the relation `r` as it stands in the schema.
  ghost predicate Said(
    sem: Semantics, ref: Reference, r: Relation, db: Schema, baseline: Option<string>, d: Discrepancy)
  {
    var needs := NeedsOf(ref, r.name);
    && d.relation == r.name
    && (if r.name !in db.relations then
          if r.kind == Table then d.finding == TableAbsent && Hand(d)
          else d.finding == ViewAbsent && Tool(d, [CreateView(r.name, r, needs)])
        else if r.kind == Table then SaidOfTable(sem, r, db.relations[r.name], baseline, d)
        else SaidOfView(r, needs, db.relations[r.name], d))
  }

  lemma KeySays(r: Relation, live: Live, d: Discrepancy)
    ensures d in KeyDiscrepancies(r, live) <==> d.relation == r.name && SaidOfKey(r, live, d)
  {
    assert NoHistory(r, live) <==> CurrentValued(r, live);
    hide NoHistory, CurrentValued;
  }

  lemma InParts(sem: Semantics, r: Relation, live: Live, d: Discrepancy)
    ensures d in ShapeDiscrepancies(sem, r, live) <==>
            || d in MissingOrWrong(r.name, r.columns, live, SkipFor(r, live))
            || d in ExtraDiscrepancies(r, live.rel.columns)
            || d in KeyDiscrepancies(r, live)
            || d in IndexDiscrepancies(r.name, r.indexes, live)
            || d in ConstraintDiscrepancies(sem, r.name, r.constraints, live)
  {
    hide MissingOrWrong, ExtraDiscrepancies, KeyDiscrepancies, IndexDiscrepancies, ConstraintDiscrepancies, SkipFor;
  }

  lemma ShapeSays(sem: Semantics, r: Relation, live: Live, d: Discrepancy)
    ensures d in ShapeDiscrepancies(sem, r, live) <==> d.relation == r.name && SaidOfShape(sem, r, live, d)
  {
    InParts(sem, r, live, d);
    InColumns(r, r.columns, live, SkipFor(r, live), d);
    forall c: Column
      ensures !Skipped(r.name, c.name, SkipFor(r, live)) && d in ColumnDiscrepancies(r.name, c, live) <==>
              d.relation == r.name && SaidOfColumn(r, c, live, d)
    {
      ColumnSays(r, c, live, d);
    }
    ExtrasSay(r, live.rel.columns, d);
    IndexesSay(r, r.indexes, live, d);
    ConstraintsSay(sem, r, r.constraints, live, d);
    KeySays(r, live, d);
    hide SaidOfColumn, SaidOfExtra, SaidOfKey, SaidOfIndex, SaidOfConstraint, MissingOrWrong, ShapeDiscrepancies,
         ExtraDiscrepancies, KeyDiscrepancies, IndexDiscrepancies, ConstraintDiscrepancies, ColumnDiscrepancies,
         Skipped, SkipFor;
  }

  lemma TableSays(sem: Semantics, r: Relation, live: Live, baseline: Option<string>, d: Discrepancy)
    requires RowsFit(live) && TableDiscrepancies(sem, r, Some(live), baseline).Some?
    ensures d in TableDiscrepancies(sem, r, Some(live), baseline).value <==>
            d.relation == r.name && SaidOfTable(sem, r, live, baseline, d)
  {
    assert NoHistory(r, live) <==> CurrentValued(r, live);
    ShapeSays(sem, r, live, d);
    CardSays(r, live, baseline, d);
    hide RateCardDiscrepancy, ShapeDiscrepancies, SaidOfCard, SaidOfShape, NoHistory, CurrentValued;
  }

  lemma ViewSays(ref: Reference, r: Relation, live: Live, d: Discrepancy)
    ensures d in ViewDiscrepancies(r, NeedsOf(ref, r.name), Some(live)) <==>
            d.relation == r.name && SaidOfView(r, NeedsOf(ref, r.name), live, d)
  {
    assert ColumnNames(live.rel.columns) == ColumnNames(r.columns) <==> SameNames(live.rel.columns, r.columns) by {
      if ColumnNames(live.rel.columns) == ColumnNames(r.columns) {
        forall i | 0 <= i < |r.columns| ensures live.rel.columns[i].name == r.columns[i].name {
          assert ColumnNames(live.rel.columns)[i] == ColumnNames(r.columns)[i];
        }
      }
    }
    hide SameNames, NeedsOf;
    if d.finding.ViewDiffers? {
      assert d.finding.liveColumns == ColumnNames(live.rel.columns) <==>
             |d.finding.liveColumns| == |live.rel.columns|
             && forall i | 0 <= i < |d.finding.liveColumns| :: d.finding.liveColumns[i] == live.rel.columns[i].name;
    }
  }

  lemma RelationSays(
    sem: Semantics, ref: Reference, r: Relation, db: Schema, baseline: Option<string>, d: Discrepancy)
    requires RelationDiscrepancies(sem, ref, r, db, baseline).Some?
    requires r.kind == Table && r.name in db.relations ==> RowsFit(db.relations[r.name])
    ensures d in RelationDiscrepancies(sem, ref, r, db, baseline).value <==> Said(sem, ref, r, db, baseline, d)
  {
    if r.name in db.relations {
      var live := db.relations[r.name];
      if r.kind == Table {
        TableSays(sem, r, live, baseline, d);
        hide TableDiscrepancies, SaidOfTable;
      } else {
        ViewSays(ref, r, live, d);
        hide ViewDiscrepancies, SaidOfView;
      }
    }
  }

  // ---- the whole plan ------------------------------------------------------------------------------

  lemma {:induction false} InPlan(
    sem: Semantics, ref: Reference, rs: seq<Relation>, db: Schema, baseline: Option<string>, d: Discrepancy)
    ensures PlanOver(sem, ref, rs, db, baseline).None? <==>
            exists r :: r in rs && RelationDiscrepancies(sem, ref, r, db, baseline).None?
    ensures PlanOver(sem, ref, rs, db, baseline).Some? ==>
              (d in PlanOver(sem, ref, rs, db, baseline).value <==>
               exists r :: r in rs && d in RelationDiscrepancies(sem, ref, r, db, baseline).value)
    decreases |rs|
  {
    hide RelationDiscrepancies;
    if rs != [] {
      var r := rs[|rs| - 1];
      InPlan(sem, ref, rs[..|rs| - 1], db, baseline, d);
      assert rs == rs[..|rs| - 1] + [r];
    }
  }

  // Every table that is compared has rows with a cell for exactly its columns.
  ghost predicate TablesFit(ref: Reference, db: Schema) {
    forall r | r in ref.relations && r.kind == Table && r.name in db.relations :: RowsFit(db.relations[r.name])
  }

  /** A plan is the truth and the whole truth: it holds a discrepancy, with its resolution and its statements, if
      and only if that is so of one of the reference's relations. */
  lemma {:induction false} PlanTells(
    sem: Semantics, ref: Reference, db: Schema, baseline: Option<string>, d: Discrepancy)
    requires TablesFit(ref, db) && PlanOf(sem, ref, db, baseline).Some?
    ensures d in PlanOf(sem, ref, db, baseline).value <==>
            exists r :: r in ref.relations && Said(sem, ref, r, db, baseline, d)
  {
    var n := OrderedTablesFirst(ref.relations);
    InPlan(sem, ref, Ordered(ref.relations), db, baseline, d);
    hide RelationDiscrepancies, Said, PlanOver;
    forall r | r in ref.relations
      ensures RelationDiscrepancies(sem, ref, r, db, baseline).Some?
      ensures d in RelationDiscrepancies(sem, ref, r, db, baseline).value <==> Said(sem, ref, r, db, baseline, d)
    {
      assert r in Ordered(ref.relations);
      RelationSays(sem, ref, r, db, baseline, d);
    }
  }

  /** Planning raises exactly when some rate card without history has its key columns and either a repeated
      absent model, or no repeated model and a subscription without one. */
  lemma {:induction false} PlanRaisesIff(sem: Semantics, ref: Reference, db: Schema, baseline: Option<string>)
    requires TablesFit(ref, db)
    ensures PlanOf(sem, ref, db, baseline).None? <==>
            exists r :: && r in ref.relations && r.kind == Table && r.name in db.relations
                        && Raises(r, db.relations[r.name])
  {
    var n := OrderedTablesFirst(ref.relations);
    InPlan(sem, ref, Ordered(ref.relations), db, baseline, ByHand("", TableAbsent));
    hide PlanOver, Raises;
    forall r | r in ref.relations
      ensures RelationDiscrepancies(sem, ref, r, db, baseline).None? <==>
              r.kind == Table && r.name in db.relations && Raises(r, db.relations[r.name])
    {
      assert r in Ordered(ref.relations);
      ShareRaisesIff(sem, ref, r, db, baseline);
    }
    hide RelationDiscrepancies;
  }

  ghost predicate Raises(r: Relation, live: Live) {
    && NoHistory(r, live) && KeysThere(r, live)
    && (Repeats(live.rows, Null) || (ModelsApart(live.rows) && Subscribes(live.rows, Null)))
  }

  lemma ShareRaisesIff(sem: Semantics, ref: Reference, r: Relation, db: Schema, baseline: Option<string>)
    requires r.kind == Table && r.name in db.relations ==> RowsFit(db.relations[r.name])
    ensures RelationDiscrepancies(sem, ref, r, db, baseline).None? <==>
            r.kind == Table && r.name in db.relations && Raises(r, db.relations[r.name])
  {
    if r.kind == Table && r.name in db.relations {
      var live := db.relations[r.name];
      assert NoHistory(r, live) <==> CurrentValued(r, live);
      CardNames(r, live);
      hide Absent, WithoutEffectiveFrom, Duplicates, SubscriptionOnly, NullKeys, KeysThere, ModelsApart, NoSubscription,
           KeysFilled, Repeats, Subscribes, RowsFit, RestructureStatements, ShapeDiscrepancies, NoHistory,
           CurrentValued;
    }
  }
}
