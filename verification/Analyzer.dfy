/**
  Semantic analysis of SELECT: flattening the FROM tree and the AND-tree of the WHERE
  clause, expanding the select list and binding column names to visible tables.
 */
module Analyzer {
  import opened Basics
  import opened Query
  import opened Joins
  import opened Plans
  import opened Planner

  datatype AnalysisError =
    NotImplemented | Internal | TableMissing | ColumnMissing | Ambiguous | IncompatibleType | StringOverflow

  type Analyzed<+T> = Result<T, AnalysisError>

  // ---- abstract syntax ---------------------------------------------------

  datatype JoinType = CrossJoin | InnerJoin | LeftJoin | RightJoin | FullJoin

  datatype TableSource = Named(name: string) | DerivedTable

  datatype FromNode =
    | NoFrom
    | TableRef(source: TableSource, alias: string)
    | JoinNode(kind: JoinType, left: FromNode, right: FromNode, hasOn: bool)

  datatype Expr =
    | NoExpr
    | Column(col: TabCol)
    | Literal(value: Value)
    | Star(tab: string)
    | Comparison(lhs: Option<TabCol>, op: CompOp, rhs: Expr)
    | And(left: Expr, right: Expr)
    | Or(left: Expr, right: Expr)
    | Not(operand: Expr)
    | FunctionCall
    | Subquery

  datatype OrderItem = OrderItem(key: Expr, desc: bool)

  datatype SelectStmt = SelectStmt(items: seq<Expr>, from: FromNode, filter: Option<Expr>,
                                   orderBy: seq<OrderItem>, hasGroupHavingLimit: bool)

  // ---- catalog -----------------------------------------------------------

  datatype TableMeta = TableMeta(cols: seq<ColMeta>, indexes: seq<seq<string>>)
  type Schema = map<string, TableMeta>

  /** Columns carry the name of their table, which is never empty. */
  ghost predicate SchemaOk(schema: Schema)
  {
    forall t :: t in schema ==> t != "" && forall c :: c in schema[t].cols ==> c.tab == t
  }

  function TypeOf(v: Value): ColType
  {
    match v
    case IntV(_) => TInt
    case FloatV(_) => TFloat
    case StrV(_) => TString
  }

  function FindCol(cols: seq<ColMeta>, name: string): (r: Option<ColMeta>)
    ensures r.Some? <==> exists c :: c in cols && c.name == name
    ensures r.Some? ==> r.value in cols && r.value.name == name
  {
    if cols == [] then None else if cols[0].name == name then Some(cols[0]) else FindCol(cols[1..], name)
  }

  predicate Known(schema: Schema, tc: TabCol)
  {
    tc.tab in schema && FindCol(schema[tc.tab].cols, tc.col).Some?
  }

  // ---- FROM --------------------------------------------------------------

  /** Table names from left to right; aliases, derived tables, outer joins and ON are refused. */
  function GetTableNames(from: FromNode): Analyzed<seq<string>>
  {
    match from
    case NoFrom => Err(Internal)
    case TableRef(source, alias) =>
      if alias != "" then Err(NotImplemented)
      else if source.DerivedTable? then Err(NotImplemented)
      else Ok([source.name])
    case JoinNode(kind, left, right, hasOn) =>
      if !kind.CrossJoin? && !kind.InnerJoin? then Err(NotImplemented)
      else if hasOn then Err(NotImplemented)
      else
        var l := GetTableNames(left);
        if l.Err? then l
        else
          var r := GetTableNames(right);
          if r.Err? then r else Ok(l.value + r.value)
  }

  /** Named tables without alias, combined by cross and inner joins without ON. */
  predicate PlainFrom(from: FromNode)
  {
    match from
    case NoFrom => false
    case TableRef(source, alias) => source.Named? && alias == ""
    case JoinNode(kind, left, right, hasOn) =>
      (kind.CrossJoin? || kind.InnerJoin?) && !hasOn && PlainFrom(left) && PlainFrom(right)
  }

  lemma {:induction false} PlainFromAccepted(from: FromNode)
    ensures GetTableNames(from).Ok? <==> PlainFrom(from)
  {
    if from.JoinNode? {
      PlainFromAccepted(from.left);
      PlainFromAccepted(from.right);
    }
  }

  function LeafCount(from: FromNode): nat
  {
    if from.JoinNode? then LeafCount(from.left) + LeafCount(from.right) else 1
  }

  /** The i-th leaf of a FROM tree, counted from the left. */
  function LeafAt(from: FromNode, i: nat): FromNode
    requires i < LeafCount(from)
  {
    if !from.JoinNode? then from
    else if i < LeafCount(from.left) then LeafAt(from.left, i)
    else LeafAt(from.right, i - LeafCount(from.left))
  }

  /** The names are those of the leaves, from left to right, one for each leaf. */
  lemma {:induction false} NamesAreLeaves(from: FromNode)
    requires PlainFrom(from)
    ensures GetTableNames(from).Ok? && |GetTableNames(from).value| == LeafCount(from)
    ensures forall i :: 0 <= i < LeafCount(from) ==> LeafAt(from, i) == TableRef(Named(GetTableNames(from).value[i]), "")
  {
    if from.JoinNode? {
      NamesAreLeaves(from.left);
      NamesAreLeaves(from.right);
    }
  }

  /** The rows a FROM tree stands for: joins without a condition are cross products. */
  function FromRows(from: FromNode, db: Database): seq<Env>
  {
    match from
    case NoFrom => []
    case TableRef(source, _) =>
      if source.DerivedTable? then [] else Records(source.name, Size(db, source.name))
    case JoinNode(_, left, right, _) => NestedLoop(FromRows(left, db), FromRows(right, db), [], db)
  }

  lemma DistinctParts(a: seq<string>, b: seq<string>)
    requires Distinct(a + b)
    ensures Distinct(a) && Distinct(b) && ToSet(a) !! ToSet(b) && ToSet(a + b) == ToSet(a) + ToSet(b)
  {
    forall i, j | 0 <= i < j < |a| ensures a[i] != a[j] {
      assert (a + b)[i] == a[i] && (a + b)[j] == a[j];
    }
    forall i, j | 0 <= i < j < |b| ensures b[i] != b[j] {
      assert (a + b)[|a| + i] == b[i] && (a + b)[|a| + j] == b[j];
    }
    forall i, j | 0 <= i < |a| && 0 <= j < |b| ensures a[i] != b[j] {
      assert (a + b)[i] == a[i] && (a + b)[|a| + j] == b[j];
    }
  }

  lemma {:induction false} FromRowsIsBag(from: FromNode, db: Database)
    requires GetTableNames(from).Ok? && Distinct(GetTableNames(from).value)
    ensures IsBagOf(FromRows(from, db), ToSet(GetTableNames(from).value), [], db)
  {
    var names := GetTableNames(from).value;
    match from
    case TableRef(source, _) =>
      RecordsIsBagOf(source.name, db);
      assert ToSet(names) == {source.name};
    case JoinNode(_, left, right, _) =>
      var l, r := GetTableNames(left).value, GetTableNames(right).value;
      DistinctParts(l, r);
      FromRowsIsBag(left, db);
      FromRowsIsBag(right, db);
      var none: seq<Condition> := [];
      JoinIsBagOf(FromRows(left, db), FromRows(right, db), ToSet(l), ToSet(r), none, none, none, db);
      assert none + none + none == none;
  }

  /** Flattening the FROM tree keeps the bag of rows, however the joins were nested. */
  lemma FlatteningKeepsRows(from: FromNode, db: Database)
    requires GetTableNames(from).Ok? && Distinct(GetTableNames(from).value)
    ensures multiset(FromRows(from, db)) == multiset(Cross(GetTableNames(from).value, db))
  {
    FromRowsIsBag(from, db);
    CrossIsBagOf(GetTableNames(from).value, db);
    SameBag(FromRows(from, db), Cross(GetTableNames(from).value, db), ToSet(GetTableNames(from).value), [], [], db);
  }

  // ---- visible columns and binding -------------------------------------------

  function AllCols(tables: seq<string>, schema: Schema): seq<ColMeta>
    requires forall t :: t in tables ==> t in schema
  {
    if tables == [] then []
    else AllCols(tables[..|tables| - 1], schema) + schema[tables[|tables| - 1]].cols
  }

  method GetAllCols(tables: seq<string>, schema: Schema) returns (r: Analyzed<seq<ColMeta>>)
    ensures r.Ok? <==> forall t :: t in tables ==> t in schema
    ensures r.Ok? ==> r.value == AllCols(tables, schema)
  {
    var cols := [];
    for i := 0 to |tables|
      invariant forall t :: t in tables[..i] ==> t in schema
      invariant cols == AllCols(tables[..i], schema)
    {
      if tables[i] !in schema { return Err(TableMissing); }
      assert tables[..i + 1] == tables[..i] + [tables[i]];
      assert tables[..i + 1][..i] == tables[..i];
      cols := cols + schema[tables[i]].cols;
    }
    assert tables[..|tables|] == tables;
    return Ok(cols);
  }

  lemma {:induction false} AllColsMembers(tables: seq<string>, schema: Schema, c: ColMeta)
    requires forall t :: t in tables ==> t in schema
    ensures c in AllCols(tables, schema) <==> exists t :: t in tables && c in schema[t].cols
  {
    if tables != [] {
      var front, last := tables[..|tables| - 1], tables[|tables| - 1];
      AllColsMembers(front, schema, c);
      assert tables == front + [last];
    }
  }

  /** How many columns the first n tables have together. */
  ghost function ColumnsBefore(tables: seq<string>, schema: Schema, n: nat): nat
    requires n <= |tables| && forall t :: t in tables ==> t in schema
  {
    if n == 0 then 0 else ColumnsBefore(tables, schema, n - 1) + |schema[tables[n - 1]].cols|
  }

  /** Column j of table k lies behind the columns of the tables in front of it. */
  lemma {:induction false} AllColsAt(tables: seq<string>, schema: Schema, k: nat, j: nat)
    requires (forall t :: t in tables ==> t in schema) && k < |tables| && j < |schema[tables[k]].cols|
    ensures ColumnsBefore(tables, schema, k) + j < |AllCols(tables, schema)|
    ensures AllCols(tables, schema)[ColumnsBefore(tables, schema, k) + j] == schema[tables[k]].cols[j]
  {
    var front, last := tables[..|tables| - 1], tables[|tables| - 1];
    assert tables == front + [last];
    AllColsLength(front, schema);
    BeforeInFront(front, last, schema, k);
    if k < |front| { AllColsAt(front, schema, k, j); }
  }

  /** There are no other columns. */
  lemma {:induction false} AllColsLength(tables: seq<string>, schema: Schema)
    requires forall t :: t in tables ==> t in schema
    ensures |AllCols(tables, schema)| == ColumnsBefore(tables, schema, |tables|)
  {
    if tables != [] {
      var front, last := tables[..|tables| - 1], tables[|tables| - 1];
      assert tables == front + [last];
      AllColsLength(front, schema);
      BeforeInFront(front, last, schema, |front|);
    }
  }

  lemma {:induction false} BeforeInFront(front: seq<string>, last: string, schema: Schema, n: nat)
    requires n <= |front| && (forall t :: t in front ==> t in schema) && last in schema
    ensures ColumnsBefore(front + [last], schema, n) == ColumnsBefore(front, schema, n)
  {
    if n > 0 { BeforeInFront(front, last, schema, n - 1); }
  }

  /** The tables of the visible columns with a given name, in order. */
  function Owners(cols: seq<ColMeta>, name: string): seq<string>
  {
    if cols == [] then []
    else (if cols[0].name == name then [cols[0].tab] else []) + Owners(cols[1..], name)
  }

  /** A qualified name binds when it is visible, an unqualified one when exactly one visible column has it. */
  function BindColumn(cols: seq<ColMeta>, target: TabCol): Analyzed<TabCol>
  {
    if target.tab != "" then
      if exists c :: c in cols && c.tab == target.tab && c.name == target.col then Ok(target) else Err(ColumnMissing)
    else
      var owners := Owners(cols, target.col);
      if |owners| == 0 then Err(ColumnMissing)
      else if |owners| == 1 then Ok(TabCol(owners[0], target.col))
      else Err(Ambiguous)
  }

  lemma {:induction false} OwnersSplit(a: seq<ColMeta>, b: seq<ColMeta>, name: string)
    ensures Owners(a + b, name) == Owners(a, name) + Owners(b, name)
  {
    if a == [] {
      assert a + b == b;
    } else {
      assert (a + b)[0] == a[0] && (a + b)[1..] == a[1..] + b;
      OwnersSplit(a[1..], b, name);
    }
  }

  lemma {:induction false} OwnersMembers(cols: seq<ColMeta>, name: string, t: string)
    ensures t in Owners(cols, name) <==> exists c :: c in cols && c.tab == t && c.name == name
  {
    if cols != [] {
      OwnersMembers(cols[1..], name, t);
      assert cols == [cols[0]] + cols[1..];
    }
  }

  /** Exactly one visible column carries the name, and it is the i-th. */
  ghost predicate OnlyAt(cols: seq<ColMeta>, name: string, i: int)
  {
    && 0 <= i < |cols| && cols[i].name == name
    && forall j :: 0 <= j < |cols| && cols[j].name == name ==> j == i
  }

  ghost predicate TwiceAt(cols: seq<ColMeta>, name: string, i: int, j: int)
  {
    0 <= i < j < |cols| && cols[i].name == name && cols[j].name == name
  }

  lemma {:induction false} OwnersNone(cols: seq<ColMeta>, name: string)
    ensures Owners(cols, name) == [] <==> forall i :: 0 <= i < |cols| ==> cols[i].name != name
  {
    if cols != [] {
      OwnersNone(cols[1..], name);
      assert forall i :: 1 <= i < |cols| ==> cols[i] == cols[1..][i - 1];
    }
  }

  /** The owners around one position that carries the name. */
  lemma OwnersAround(cols: seq<ColMeta>, name: string, i: nat)
    requires i < |cols| && cols[i].name == name
    ensures Owners(cols, name) == Owners(cols[..i], name) + [cols[i].tab] + Owners(cols[i + 1..], name)
  {
    assert cols == cols[..i] + cols[i..] && cols[i..][1..] == cols[i + 1..];
    OwnersSplit(cols[..i], cols[i..], name);
  }

  lemma OwnersOne(cols: seq<ColMeta>, name: string, i: int)
    requires OnlyAt(cols, name, i)
    ensures Owners(cols, name) == [cols[i].tab]
  {
    OwnersAround(cols, name, i);
    OwnersNone(cols[..i], name);
    OwnersNone(cols[i + 1..], name);
    assert forall j :: i < j < |cols| ==> cols[j] == cols[i + 1..][j - i - 1];
  }

  lemma OwnersTwo(cols: seq<ColMeta>, name: string, i: int, j: int)
    requires TwiceAt(cols, name, i, j)
    ensures |Owners(cols, name)| > 1
  {
    OwnersAround(cols, name, i);
    OwnersNone(cols[i + 1..], name);
    assert cols[i + 1..][j - i - 1] == cols[j];
  }

  /** One of three: no position carries the name, exactly one does, or two do. */
  lemma PositionsOf(cols: seq<ColMeta>, name: string)
    ensures
      || (forall i :: 0 <= i < |cols| ==> cols[i].name != name)
      || (exists i :: OnlyAt(cols, name, i))
      || (exists i, j :: TwiceAt(cols, name, i, j))
  {
    if i :| 0 <= i < |cols| && cols[i].name == name {
      if j :| 0 <= j < |cols| && cols[j].name == name && j != i {
        assert TwiceAt(cols, name, if i < j then i else j, if i < j then j else i);
      } else {
        assert OnlyAt(cols, name, i);
      }
    }
  }

  /** An unqualified name is accepted exactly if one position carries it, and then stands for that column. */
  lemma BindsExactly(cols: seq<ColMeta>, name: string)
    ensures BindColumn(cols, TabCol("", name)).Ok? <==> exists i :: OnlyAt(cols, name, i)
    ensures forall i :: OnlyAt(cols, name, i) ==> BindColumn(cols, TabCol("", name)) == Ok(TabCol(cols[i].tab, name))
    ensures BindColumn(cols, TabCol("", name)) == Err(ColumnMissing) <==> forall i :: 0 <= i < |cols| ==> cols[i].name != name
    ensures BindColumn(cols, TabCol("", name)) == Err(Ambiguous) <==> exists i, j :: TwiceAt(cols, name, i, j)
  {
    hide Owners;
    PositionsOf(cols, name);
    OwnersNone(cols, name);
    forall i | OnlyAt(cols, name, i) ensures Owners(cols, name) == [cols[i].tab] { OwnersOne(cols, name, i); }
    forall i, j | TwiceAt(cols, name, i, j) ensures |Owners(cols, name)| > 1 { OwnersTwo(cols, name, i, j); }
  }

  method CheckColumn(cols: seq<ColMeta>, target: TabCol) returns (r: Analyzed<TabCol>)
    ensures (forall c :: c in cols ==> c.tab != "") ==> r == BindColumn(cols, target)
  {
    if target.tab == "" {
      var tab := "";
      for i := 0 to |cols|
        invariant (forall c :: c in cols ==> c.tab != "") ==>
          Owners(cols[..i], target.col) == if tab == "" then [] else [tab]
      {
        assert cols[..i + 1] == cols[..i] + [cols[i]];
        OwnersSplit(cols[..i], [cols[i]], target.col);
        assert Owners([cols[i]], target.col) == if cols[i].name == target.col then [cols[i].tab] else [];
        if cols[i].name == target.col {
          if tab != "" {
            assert cols == cols[..i + 1] + cols[i + 1..];
            OwnersSplit(cols[..i + 1], cols[i + 1..], target.col);
            return Err(Ambiguous);
          }
          tab := cols[i].tab;
          assert cols[i] in cols;
        }
      }
      assert cols[..|cols|] == cols;
      if tab == "" { return Err(ColumnMissing); }
      return Ok(TabCol(tab, target.col));
    } else {
      if !exists c :: c in cols && c.tab == target.tab && c.name == target.col { return Err(ColumnMissing); }
      return Ok(target);
    }
  }

  // ---- WHERE -----------------------------------------------------------------

  /** The comparisons of a conjunction in source order; anything but AND and column comparisons is refused. */
  function Flatten(e: Expr): Analyzed<seq<Condition>>
  {
    match e
    case And(left, right) =>
      var l := Flatten(left);
      if l.Err? then l
      else
        var r := Flatten(right);
        if r.Err? then r else Ok(l.value + r.value)
    case Comparison(lhs, op, rhs) =>
      if lhs.None? || rhs.NoExpr? then Err(Internal)
      else if rhs.Literal? then Ok([Condition(lhs.value, op, Val(rhs.value))])
      else if rhs.Column? then Ok([Condition(lhs.value, op, Col(rhs.col))])
      else Err(NotImplemented)
    case NoExpr => Err(Internal)
    case _ => Err(NotImplemented)
  }

  /** ANDs of comparisons of a column with a literal or a column. */
  predicate Conjunction(e: Expr)
  {
    match e
    case And(left, right) => Conjunction(left) && Conjunction(right)
    case Comparison(lhs, _, rhs) => lhs.Some? && (rhs.Literal? || rhs.Column?)
    case _ => false
  }

  lemma {:induction false} ConjunctionAccepted(e: Expr)
    ensures Flatten(e).Ok? <==> Conjunction(e)
  {
    if e.And? {
      ConjunctionAccepted(e.left);
      ConjunctionAccepted(e.right);
    }
  }

  /** The column a name refers to among the visible columns. */
  function Resolve(cols: seq<ColMeta>, target: TabCol): TabCol
  {
    var r := BindColumn(cols, target);
    if r.Ok? then r.value else target
  }

  function ResolveCondition(cols: seq<ColMeta>, c: Condition): Condition
  {
    Condition(Resolve(cols, c.lhs), c.op, match c.rhs case Val(v) => Val(v) case Col(tc) => Col(Resolve(cols, tc)))
  }

  function ResolveAll(cols: seq<ColMeta>, conds: seq<Condition>): (r: seq<Condition>)
    ensures |r| == |conds| && forall i :: 0 <= i < |conds| ==> r[i] == ResolveCondition(cols, conds[i])
  {
    seq(|conds|, i requires 0 <= i < |conds| => ResolveCondition(cols, conds[i]))
  }

  function ConjunctCount(e: Expr): nat
  {
    if e.And? then ConjunctCount(e.left) + ConjunctCount(e.right) else 1
  }

  /** The i-th member of a conjunction, counted from the left. */
  function ConjunctAt(e: Expr, i: nat): Expr
    requires i < ConjunctCount(e)
  {
    if !e.And? then e
    else if i < ConjunctCount(e.left) then ConjunctAt(e.left, i)
    else ConjunctAt(e.right, i - ConjunctCount(e.left))
  }

  function AsWritten(c: Condition): Expr
  {
    Comparison(Some(c.lhs), c.op, match c.rhs case Val(v) => Literal(v) case Col(tc) => Column(tc))
  }

  /** The conditions are the members of the conjunction as they are written, from left to right. */
  lemma {:induction false} ConditionsInOrder(e: Expr)
    requires Conjunction(e)
    ensures Flatten(e).Ok? && |Flatten(e).value| == ConjunctCount(e)
    ensures forall i :: 0 <= i < ConjunctCount(e) ==> ConjunctAt(e, i) == AsWritten(Flatten(e).value[i])
  {
    if e.And? {
      ConditionsInOrder(e.left);
      ConditionsInOrder(e.right);
    }
  }

  /** The truth of a predicate of the statement on a row, reading names in the given scope. */
  predicate WhereHolds(e: Expr, cols: seq<ColMeta>, db: Database, row: Env)
  {
    match e
    case And(left, right) => WhereHolds(left, cols, db, row) && WhereHolds(right, cols, db, row)
    case Or(left, right) => WhereHolds(left, cols, db, row) || WhereHolds(right, cols, db, row)
    case Not(operand) => !WhereHolds(operand, cols, db, row)
    case Comparison(lhs, op, rhs) =>
      lhs.Some? &&
      (match rhs
       case Literal(v) => Test(op, Compare(Cell(db, row, Resolve(cols, lhs.value)), v))
       case Column(tc) => Test(op, Compare(Cell(db, row, Resolve(cols, lhs.value)), Cell(db, row, Resolve(cols, tc))))
       case _ => false)
    case _ => false
  }

  predicate FilterHolds(filter: Option<Expr>, cols: seq<ColMeta>, db: Database, row: Env)
  {
    filter.None? || WhereHolds(filter.value, cols, db, row)
  }

  lemma ComparisonKeepsMeaning(e: Expr, cols: seq<ColMeta>, db: Database, row: Env)
    requires e.Comparison? && Flatten(e).Ok?
    ensures Holds(ResolveAll(cols, Flatten(e).value), db, row) <==> WhereHolds(e, cols, db, row)
  {
    var c := ResolveCondition(cols, Flatten(e).value[0]);
    assert ResolveAll(cols, Flatten(e).value) == [c];
    assert Holds([c], db, row) <==> Satisfies(c, db, row);
  }

  /** A row satisfies the flattened list exactly when it satisfies the predicate tree. */
  lemma {:induction false} FlattenKeepsMeaning(e: Expr, cols: seq<ColMeta>, db: Database, row: Env)
    requires Flatten(e).Ok?
    ensures Holds(ResolveAll(cols, Flatten(e).value), db, row) <==> WhereHolds(e, cols, db, row)
  {
    match e
    case And(left, right) =>
      FlattenKeepsMeaning(left, cols, db, row);
      FlattenKeepsMeaning(right, cols, db, row);
      var a, b := Flatten(left).value, Flatten(right).value;
      hide Holds, ResolveAll;
      ResolveConcat(cols, a, b);
      HoldsOfConcat(ResolveAll(cols, a), ResolveAll(cols, b), db, row);
    case Comparison(_, _, _) =>
      ComparisonKeepsMeaning(e, cols, db, row);
  }

  lemma ResolveConcat(cols: seq<ColMeta>, a: seq<Condition>, b: seq<Condition>)
    ensures ResolveAll(cols, a + b) == ResolveAll(cols, a) + ResolveAll(cols, b)
  {
    hide ResolveCondition;
  }

  lemma HoldsOfConcat(a: seq<Condition>, b: seq<Condition>, db: Database, row: Env)
    ensures Holds(a + b, db, row) <==> Holds(a, db, row) && Holds(b, db, row)
  {
    assert forall c :: c in a + b <==> c in a || c in b;
  }

  function RhsType(schema: Schema, rhs: Rhs): Option<ColType>
  {
    match rhs
    case Val(v) => Some(TypeOf(v))
    case Col(tc) =>
      if tc.tab !in schema then None
      else
        var c := FindCol(schema[tc.tab].cols, tc.col);
        if c.None? then None else Some(c.value.ctype)
  }

  /** A literal is of the column's type, or so is the column on the other side. */
  predicate SameType(schema: Schema, ctype: ColType, rhs: Rhs)
  {
    match rhs
    case Val(IntV(_)) => ctype == TInt
    case Val(FloatV(_)) => ctype == TFloat
    case Val(StrV(_)) => ctype == TString
    case Col(tc) => Known(schema, tc) && FindCol(schema[tc.tab].cols, tc.col).value.ctype == ctype
  }

  /** What checking one condition amounts to: both columns bind, the types agree and a string literal fits. */
  ghost predicate Checked(cols: seq<ColMeta>, schema: Schema, c: Condition)
  {
    && BindColumn(cols, c.lhs).Ok? && (c.rhs.Col? ==> BindColumn(cols, c.rhs.col).Ok?)
    && var b := ResolveCondition(cols, c);
       && Known(schema, b.lhs) && (b.rhs.Col? ==> Known(schema, b.rhs.col))
       && var lhs := FindCol(schema[b.lhs.tab].cols, b.lhs.col).value;
          && SameType(schema, lhs.ctype, b.rhs)
          && (b.rhs.Val? && b.rhs.value.StrV? ==> |b.rhs.value.s| <= lhs.len)
  }

  method CheckCondition(cols: seq<ColMeta>, schema: Schema, cond: Condition) returns (r: Analyzed<Condition>)
    requires forall c :: c in cols ==> c.tab != ""
    ensures r.Ok? <==> Checked(cols, schema, cond)
    ensures r.Ok? ==> r.value == ResolveCondition(cols, cond)
  {
    var lhs := CheckColumn(cols, cond.lhs);
    if lhs.Err? { return Err(lhs.error); }
    var bound := cond.(lhs := lhs.value);
    if cond.rhs.Col? {
      var rhs := CheckColumn(cols, cond.rhs.col);
      if rhs.Err? { return Err(rhs.error); }
      bound := bound.(rhs := Col(rhs.value));
    }
    if bound.lhs.tab !in schema { return Err(TableMissing); }
    var column := FindCol(schema[bound.lhs.tab].cols, bound.lhs.col);
    if column.None? { return Err(ColumnMissing); }
    var rhsType := RhsType(schema, bound.rhs);
    if rhsType.None? { return Err(ColumnMissing); }
    if column.value.ctype != rhsType.value { return Err(IncompatibleType); }
    if bound.rhs.Val? && bound.rhs.value.StrV? && |bound.rhs.value.s| > column.value.len { return Err(StringOverflow); }
    return Ok(bound);
  }

  method CheckClause(cols: seq<ColMeta>, schema: Schema, conds: seq<Condition>) returns (r: Analyzed<seq<Condition>>)
    requires forall c :: c in cols ==> c.tab != ""
    ensures r.Ok? <==> forall c :: c in conds ==> Checked(cols, schema, c)
    ensures r.Ok? ==> r.value == ResolveAll(cols, conds)
  {
    var bound := conds;
    for i := 0 to |conds|
      invariant |bound| == |conds| && bound[i..] == conds[i..]
      invariant forall j :: 0 <= j < i ==> Checked(cols, schema, conds[j]) && bound[j] == ResolveCondition(cols, conds[j])
    {
      assert bound[i] == bound[i..][0] && conds[i] == conds[i..][0];
      var checked := CheckCondition(cols, schema, bound[i]);
      if checked.Err? {
        assert conds[i] in conds;
        return Err(checked.error);
      }
      bound := bound[i := checked.value];
    }
    assert bound == ResolveAll(cols, conds);
    return Ok(bound);
  }

  // ---- the select list -----------------------------------------------------------

  predicate ItemAllowed(item: Expr, tables: seq<string>)
  {
    item.Column? || (item.Star? && (item.tab == "" || item.tab in tables))
  }

  ghost predicate AllAllowed(items: seq<Expr>, tables: seq<string>)
  {
    forall item :: item in items ==> ItemAllowed(item, tables)
  }

  /** What `*` names: every column of every table, tables in FROM order and columns in table order. */
  ghost predicate EveryColumn(tables: seq<string>, schema: Schema, run: seq<TabCol>)
    requires forall t :: t in tables ==> t in schema
  {
    && |run| == ColumnsBefore(tables, schema, |tables|)
    && forall k, j :: 0 <= k < |tables| && 0 <= j < |schema[tables[k]].cols| ==>
         && ColumnsBefore(tables, schema, k) + j < |run|
         && run[ColumnsBefore(tables, schema, k) + j] == TabCol(tables[k], schema[tables[k]].cols[j].name)
  }

  /** What `t.*` names: the columns of the table in order, once for each time FROM lists it. */
  ghost predicate ColumnsOf(tab: string, tables: seq<string>, schema: Schema, run: seq<TabCol>)
    requires tab in schema
  {
    var own := schema[tab].cols;
    && |run| == multiset(tables)[tab] * |own|
    && forall i :: 0 <= i < |run| ==> run[i] == TabCol(tab, own[i % |own|].name)
  }

  ghost predicate ItemNames(item: Expr, tables: seq<string>, schema: Schema, run: seq<TabCol>)
    requires forall t :: t in tables ==> t in schema
  {
    match item
    case Column(col) => run == [col]
    case Star(tab) => if tab == "" then EveryColumn(tables, schema, run) else tab in tables && ColumnsOf(tab, tables, schema, run)
    case _ => false
  }

  /** The list is one run after the other, each run being what its item names. */
  ghost predicate ListNames(items: seq<Expr>, tables: seq<string>, schema: Schema, list: seq<TabCol>)
    requires forall t :: t in tables ==> t in schema
  {
    if items == [] then list == []
    else
      var front, last := items[..|items| - 1], items[|items| - 1];
      exists n :: 0 <= n <= |list| && ListNames(front, tables, schema, list[..n]) && ItemNames(last, tables, schema, list[n..])
  }

  /** Over distinct tables `t.*` is exactly the columns of the table. */
  lemma StarOfDistinct(tab: string, tables: seq<string>, schema: Schema, run: seq<TabCol>)
    requires Distinct(tables) && tab in tables && tab in schema
    ensures ColumnsOf(tab, tables, schema, run) <==>
      && |run| == |schema[tab].cols|
      && forall j :: 0 <= j < |run| ==> run[j] == TabCol(tab, schema[tab].cols[j].name)
  {
    OccursOnce(tables, tab);
    var own := schema[tab].cols;
    assert forall j :: 0 <= j < |own| ==> j % |own| == j;
  }

  lemma {:induction false} OccursOnce(tables: seq<string>, tab: string)
    requires Distinct(tables)
    ensures multiset(tables)[tab] == if tab in tables then 1 else 0
  {
    if tables != [] {
      var front, last := tables[..|tables| - 1], tables[|tables| - 1];
      assert tables == front + [last];
      OccursOnce(front, tab);
      assert last !in front;
    }
  }

  function StarColumns(cols: seq<ColMeta>, tab: string): seq<TabCol>
  {
    if cols == [] then []
    else
      var front, last := cols[..|cols| - 1], cols[|cols| - 1];
      StarColumns(front, tab) + (if tab == "" || last.tab == tab then [TabCol(last.tab, last.name)] else [])
  }

  lemma {:induction false} StarAll(cols: seq<ColMeta>, tab: string)
    requires tab == "" || forall c :: c in cols ==> c.tab == tab
    ensures |StarColumns(cols, tab)| == |cols|
    ensures forall i :: 0 <= i < |cols| ==> StarColumns(cols, tab)[i] == TabCol(cols[i].tab, cols[i].name)
  {
    if cols != [] { StarAll(cols[..|cols| - 1], tab); }
  }

  lemma {:induction false} StarNone(cols: seq<ColMeta>, tab: string)
    requires tab != "" && forall c :: c in cols ==> c.tab != tab
    ensures StarColumns(cols, tab) == []
  {
    if cols != [] { StarNone(cols[..|cols| - 1], tab); }
  }

  lemma {:induction false} StarSplit(a: seq<ColMeta>, b: seq<ColMeta>, tab: string)
    ensures StarColumns(a + b, tab) == StarColumns(a, tab) + StarColumns(b, tab)
  {
    if b == [] {
      assert a + b == a;
    } else {
      assert (a + b)[..|a + b| - 1] == a + b[..|b| - 1];
      StarSplit(a, b[..|b| - 1], tab);
    }
  }

  lemma StarIsEveryColumn(tables: seq<string>, schema: Schema)
    requires SchemaOk(schema) && forall t :: t in tables ==> t in schema
    ensures EveryColumn(tables, schema, StarColumns(AllCols(tables, schema), ""))
  {
    var cols := AllCols(tables, schema);
    StarAll(cols, "");
    AllColsLength(tables, schema);
    forall k, j | 0 <= k < |tables| && 0 <= j < |schema[tables[k]].cols|
      ensures ColumnsBefore(tables, schema, k) + j < |cols|
      ensures StarColumns(cols, "")[ColumnsBefore(tables, schema, k) + j] == TabCol(tables[k], schema[tables[k]].cols[j].name)
    {
      AllColsAt(tables, schema, k, j);
    }
  }

  lemma {:induction false} StarIsColumnsOf(tab: string, tables: seq<string>, schema: Schema)
    requires SchemaOk(schema) && tab in schema && forall t :: t in tables ==> t in schema
    ensures ColumnsOf(tab, tables, schema, StarColumns(AllCols(tables, schema), tab))
  {
    if tables != [] {
      var front, last := tables[..|tables| - 1], tables[|tables| - 1];
      assert tables == front + [last];
      StarIsColumnsOf(tab, front, schema);
      StarSplit(AllCols(front, schema), schema[last].cols, tab);
      if last == tab {
        StarAll(schema[tab].cols, tab);
        OneMore(tab, front, schema, StarColumns(AllCols(front, schema), tab), StarColumns(schema[tab].cols, tab));
      } else {
        StarNone(schema[last].cols, tab);
      }
    }
  }

  lemma OneMore(tab: string, front: seq<string>, schema: Schema, run: seq<TabCol>, again: seq<TabCol>)
    requires tab in schema && ColumnsOf(tab, front, schema, run) && |again| == |schema[tab].cols|
    requires forall j :: 0 <= j < |again| ==> again[j] == TabCol(tab, schema[tab].cols[j].name)
    ensures ColumnsOf(tab, front + [tab], schema, run + again)
  {
    var n, w := multiset(front)[tab], |again|;
    assert (n + 1) * w == n * w + w;
    forall i | 0 <= i < |run + again|
      ensures (run + again)[i] == TabCol(tab, schema[tab].cols[i % w].name)
    {
      if i >= |run| { Remainder(n, w, i - n * w); }
    }
  }

  lemma Remainder(n: nat, w: nat, j: nat)
    requires j < w
    ensures (n * w + j) % w == j
  {
    var d, r := (n * w + j) / w, (n * w + j) % w;
    assert (n - d) * w == r - j;
    if d < n { AtLeast(n - d, w); }
    if d > n { AtLeast(d - n, w); }
  }

  lemma AtLeast(k: int, w: nat)
    requires k >= 1
    ensures k * w >= w
  {}

  /** A star: every visible column, or those of one table. */
  method ExpandStar(tab: string, tables: seq<string>, ghost schema: Schema, cols: seq<ColMeta>) returns (run: seq<TabCol>)
    requires SchemaOk(schema) && (forall t :: t in tables ==> t in schema) && cols == AllCols(tables, schema)
    requires tab == "" || tab in tables
    ensures ItemNames(Star(tab), tables, schema, run)
  {
    run := [];
    for i := 0 to |cols|
      invariant run == StarColumns(cols[..i], tab)
    {
      assert cols[..i + 1][..i] == cols[..i];
      if tab == "" || cols[i].tab == tab { run := run + [TabCol(cols[i].tab, cols[i].name)]; }
    }
    assert cols[..|cols|] == cols;
    if tab == "" { StarIsEveryColumn(tables, schema); } else { StarIsColumnsOf(tab, tables, schema); }
  }

  method ExpandItem(item: Expr, tables: seq<string>, ghost schema: Schema, cols: seq<ColMeta>) returns (r: Analyzed<seq<TabCol>>)
    requires SchemaOk(schema) && (forall t :: t in tables ==> t in schema) && cols == AllCols(tables, schema)
    ensures r.Ok? <==> ItemAllowed(item, tables)
    ensures r.Ok? ==> ItemNames(item, tables, schema, r.value)
  {
    match item {
      case Column(col) => return Ok([col]);
      case Star(tab) =>
        if tab != "" && tab !in tables { return Err(TableMissing); }
        var run := ExpandStar(tab, tables, schema, cols);
        return Ok(run);
      case NoExpr => return Err(Internal);
      case _ => return Err(NotImplemented);
    }
  }

  method ExpandItems(items: seq<Expr>, tables: seq<string>, ghost schema: Schema, cols: seq<ColMeta>) returns (r: Analyzed<seq<TabCol>>)
    requires SchemaOk(schema) && (forall t :: t in tables ==> t in schema) && cols == AllCols(tables, schema)
    ensures r.Ok? <==> items != [] && AllAllowed(items, tables)
    ensures r.Ok? ==> ListNames(items, tables, schema, r.value)
  {
    if items == [] { return Err(Internal); }
    var out := [];
    NoItems(items, tables, schema);
    hide *;
    for i := 0 to |items|
      invariant ListNames(items[..i], tables, schema, out) && AllAllowed(items[..i], tables)
    {
      var more := ExpandItem(items[i], tables, schema, cols);
      AllowedNext(items, i, tables);
      if more.Err? { return Err(more.error); }
      NamesNext(items, i, tables, schema, out, more.value);
      out := out + more.value;
    }
    assert items[..|items|] == items;
    return Ok(out);
  }

  lemma NoItems(items: seq<Expr>, tables: seq<string>, schema: Schema)
    requires forall t :: t in tables ==> t in schema
    ensures ListNames(items[..0], tables, schema, []) && AllAllowed(items[..0], tables)
  {}

  lemma AllowedNext(items: seq<Expr>, i: nat, tables: seq<string>)
    requires i < |items| && AllAllowed(items[..i], tables)
    ensures AllAllowed(items[..i + 1], tables) <==> ItemAllowed(items[i], tables)
    ensures AllAllowed(items, tables) ==> ItemAllowed(items[i], tables)
  {
    hide ItemAllowed;
    assert items[i] in items && items[..i + 1] == items[..i] + [items[i]];
  }

  lemma NamesNext(items: seq<Expr>, i: nat, tables: seq<string>, schema: Schema, out: seq<TabCol>, more: seq<TabCol>)
    requires i < |items| && (forall t :: t in tables ==> t in schema) && ListNames(items[..i], tables, schema, out)
    requires ItemNames(items[i], tables, schema, more)
    ensures ListNames(items[..i + 1], tables, schema, out + more)
  {
    hide ItemNames;
    assert items[..i + 1][..i] == items[..i];
    assert (out + more)[..|out|] == out && (out + more)[|out|..] == more;
  }

  method BindColumns(cols: seq<ColMeta>, targets: seq<TabCol>) returns (r: Analyzed<seq<TabCol>>)
    requires forall c :: c in cols ==> c.tab != ""
    ensures r.Ok? <==> forall t :: t in targets ==> BindColumn(cols, t).Ok?
    ensures r.Ok? ==> |r.value| == |targets| && forall i :: 0 <= i < |targets| ==> r.value[i] == Resolve(cols, targets[i])
  {
    var bound := targets;
    for i := 0 to |targets|
      invariant |bound| == |targets| && bound[i..] == targets[i..]
      invariant forall j :: 0 <= j < i ==> BindColumn(cols, targets[j]).Ok? && bound[j] == Resolve(cols, targets[j])
    {
      assert bound[i] == bound[i..][0] && targets[i] == targets[i..][0];
      var checked := CheckColumn(cols, bound[i]);
      if checked.Err? {
        assert targets[i] in targets;
        return Err(checked.error);
      }
      bound := bound[i := checked.value];
    }
    return Ok(bound);
  }

  // ---- the whole SELECT -----------------------------------------------------------

  /** What a bound column promises: its table is in FROM and it is a column of that table. */
  lemma BoundColumn(tables: seq<string>, schema: Schema, target: TabCol)
    requires SchemaOk(schema) && (forall t :: t in tables ==> t in schema)
    requires BindColumn(AllCols(tables, schema), target).Ok?
    ensures var b := Resolve(AllCols(tables, schema), target); b.tab in tables && Known(schema, b) && b.col == target.col
  {
    var cols := AllCols(tables, schema);
    var b := Resolve(cols, target);
    if target.tab == "" {
      OwnersMembers(cols, target.col, b.tab);
    }
    var c :| c in cols && c.tab == b.tab && c.name == b.col;
    AllColsMembers(tables, schema, c);
    var t :| t in tables && c in schema[t].cols;
  }

  lemma VisibleNamed(tables: seq<string>, schema: Schema)
    requires SchemaOk(schema) && forall t :: t in tables ==> t in schema
    ensures forall c :: c in AllCols(tables, schema) ==> c.tab != ""
  {
    forall c | c in AllCols(tables, schema)
      ensures c.tab != ""
    {
      AllColsMembers(tables, schema, c);
    }
  }

  lemma CheckedAreBound(tables: seq<string>, schema: Schema, conds: seq<Condition>)
    requires SchemaOk(schema) && forall t :: t in tables ==> t in schema
    requires forall c :: c in conds ==> Checked(AllCols(tables, schema), schema, c)
    ensures Bound(ResolveAll(AllCols(tables, schema), conds), tables)
    ensures ConditionsKnown(ResolveAll(AllCols(tables, schema), conds), schema)
  {
    var cols := AllCols(tables, schema);
    var bound := ResolveAll(cols, conds);
    forall c | c in bound
      ensures CondTables(c) <= ToSet(tables) && Known(schema, c.lhs) && (c.rhs.Col? ==> Known(schema, c.rhs.col))
    {
      var i :| 0 <= i < |bound| && bound[i] == c;
      assert conds[i] in conds;
      BoundColumn(tables, schema, conds[i].lhs);
      if conds[i].rhs.Col? { BoundColumn(tables, schema, conds[i].rhs.col); }
    }
  }

  ghost predicate ListKnown(list: seq<TabCol>, tables: seq<string>, schema: Schema)
  {
    forall t :: t in list ==> t.tab in tables && Known(schema, t)
  }

  ghost predicate ConditionsKnown(conds: seq<Condition>, schema: Schema)
  {
    forall c :: c in conds ==> Known(schema, c.lhs) && (c.rhs.Col? ==> Known(schema, c.rhs.col))
  }

  ghost predicate OrderKnown(order: Option<OrderBy>, tables: seq<string>, schema: Schema)
  {
    order.Some? ==> order.value.col.tab in tables && Known(schema, order.value.col)
  }

  /** Every column the bound query mentions is a column of a table in FROM. */
  ghost predicate ColumnsKnown(q: SelectQuery, schema: Schema)
  {
    ConditionsKnown(q.conds, schema) && ListKnown(q.cols, q.tables, schema) && OrderKnown(q.order, q.tables, schema)
  }

  function ResolveItem(cols: seq<ColMeta>, item: Expr): Expr
  {
    if item.Column? then Column(Resolve(cols, item.col)) else item
  }

  function ResolveItems(cols: seq<ColMeta>, items: seq<Expr>): (r: seq<Expr>)
    ensures |r| == |items| && forall i :: 0 <= i < |items| ==> r[i] == ResolveItem(cols, items[i])
  {
    seq(|items|, i requires 0 <= i < |items| => ResolveItem(cols, items[i]))
  }

  /** The bound list is the select list with its names resolved, item by item. */
  ghost predicate ListSays(items: seq<Expr>, tables: seq<string>, schema: Schema, list: seq<TabCol>)
    requires forall t :: t in tables ==> t in schema
  {
    ListNames(ResolveItems(AllCols(tables, schema), items), tables, schema, list)
  }

  ghost predicate FilterSays(filter: Option<Expr>, cols: seq<ColMeta>, conds: seq<Condition>)
  {
    forall db, row :: Holds(conds, db, row) <==> FilterHolds(filter, cols, db, row)
  }

  ghost predicate OrderSays(orderBy: seq<OrderItem>, cols: seq<ColMeta>, order: Option<OrderBy>)
  {
    if orderBy == [] then order.None?
    else |orderBy| == 1 && orderBy[0].key.Column? && order == Some(OrderBy(Resolve(cols, orderBy[0].key.col), orderBy[0].desc))
  }

  /** The bound query says what the statement says. */
  ghost predicate SaysTheSame(stmt: SelectStmt, schema: Schema, q: SelectQuery)
  {
    && GetTableNames(stmt.from) == Ok(q.tables) && (forall t :: t in q.tables ==> t in schema)
    && var cols := AllCols(q.tables, schema);
       ListSays(stmt.items, q.tables, schema, q.cols) && FilterSays(stmt.filter, cols, q.conds) && OrderSays(stmt.orderBy, cols, q.order)
  }

  ghost predicate ListAccepted(items: seq<Expr>, tables: seq<string>, cols: seq<ColMeta>)
  {
    && items != [] && AllAllowed(items, tables)
    && forall item :: item in items && item.Column? ==> BindColumn(cols, item.col).Ok?
  }

  ghost predicate OrderAccepted(orderBy: seq<OrderItem>, cols: seq<ColMeta>)
  {
    |orderBy| <= 1 && forall o :: o in orderBy ==> o.key.Column? && BindColumn(cols, o.key.col).Ok?
  }

  ghost predicate FilterAccepted(filter: Option<Expr>, cols: seq<ColMeta>, schema: Schema)
  {
    filter.Some? ==> Flatten(filter.value).Ok? && forall c :: c in Flatten(filter.value).value ==> Checked(cols, schema, c)
  }

  /** Exactly the statements the analyzer takes. */
  ghost predicate Accepted(stmt: SelectStmt, schema: Schema)
  {
    && GetTableNames(stmt.from).Ok?
    && var tables := GetTableNames(stmt.from).value;
       && (forall t :: t in tables ==> t in schema)
       && var cols := AllCols(tables, schema);
          && ListAccepted(stmt.items, tables, cols) && !stmt.hasGroupHavingLimit
          && OrderAccepted(stmt.orderBy, cols) && FilterAccepted(stmt.filter, cols, schema)
  }

  method BindList(items: seq<Expr>, tables: seq<string>, schema: Schema, cols: seq<ColMeta>) returns (r: Analyzed<seq<TabCol>>)
    requires SchemaOk(schema) && (forall t :: t in tables ==> t in schema) && cols == AllCols(tables, schema)
    ensures r.Ok? <==> ListAccepted(items, tables, cols)
    ensures r.Ok? ==> ListSays(items, tables, schema, r.value) && ListKnown(r.value, tables, schema)
  {
    VisibleNamed(tables, schema);
    hide Known, Resolve, BindColumn, AllCols, ListNames, ResolveItems, SchemaOk;
    var named := ExpandItems(items, tables, schema, cols);
    if named.Err? { return Err(named.error); }
    NamesBind(items, tables, schema, named.value);
    r := BindColumns(cols, named.value);
    if r.Ok? {
      KnownList(tables, schema, named.value, r.value);
      BoundNames(items, tables, schema, named.value, r.value);
    }
  }

  lemma {:induction false} Locate(tables: seq<string>, schema: Schema, n: nat, i: nat) returns (k: nat, j: nat)
    requires n <= |tables| && (forall t :: t in tables ==> t in schema) && i < ColumnsBefore(tables, schema, n)
    ensures k < n && j < |schema[tables[k]].cols| && i == ColumnsBefore(tables, schema, k) + j
  {
    if i < ColumnsBefore(tables, schema, n - 1) {
      k, j := Locate(tables, schema, n - 1, i);
    } else {
      k, j := n - 1, i - ColumnsBefore(tables, schema, n - 1);
    }
  }

  /** What a star names needs no resolving and always binds. */
  lemma StarBinds(tab: string, tables: seq<string>, schema: Schema, run: seq<TabCol>, i: nat)
    requires SchemaOk(schema) && (forall t :: t in tables ==> t in schema)
    requires ItemNames(Star(tab), tables, schema, run) && i < |run|
    ensures run[i].tab != "" && BindColumn(AllCols(tables, schema), run[i]).Ok?
  {
    var c: ColMeta;
    if tab == "" {
      var k, j := Locate(tables, schema, |tables|, i);
      c := schema[tables[k]].cols[j];
      assert run[i] == TabCol(tables[k], c.name);
      assert tables[k] in tables && c in schema[tables[k]].cols;
    } else {
      assert |schema[tab].cols| != 0;
      c := schema[tab].cols[i % |schema[tab].cols|];
      assert run[i] == TabCol(tab, c.name) && c in schema[tab].cols;
    }
    AllColsMembers(tables, schema, c);
  }

  /** Only the names written out can fail to bind. */
  lemma {:induction false} NamesBind(items: seq<Expr>, tables: seq<string>, schema: Schema, named: seq<TabCol>)
    requires SchemaOk(schema) && (forall t :: t in tables ==> t in schema) && ListNames(items, tables, schema, named)
    ensures (forall t :: t in named ==> BindColumn(AllCols(tables, schema), t).Ok?)
       <==> forall item :: item in items && item.Column? ==> BindColumn(AllCols(tables, schema), item.col).Ok?
  {
    hide BindColumn, AllCols, SchemaOk, EveryColumn, ColumnsOf;
    if items != [] {
      var front, last := items[..|items| - 1], items[|items| - 1];
      assert items == front + [last];
      var n :| 0 <= n <= |named| && ListNames(front, tables, schema, named[..n]) && ItemNames(last, tables, schema, named[n..]);
      NamesBind(front, tables, schema, named[..n]);
      assert named == named[..n] + named[n..];
      if last.Star? {
        forall t | t in named[n..]
          ensures BindColumn(AllCols(tables, schema), t).Ok?
        {
          var i :| 0 <= i < |named[n..]| && named[n..][i] == t;
          StarBinds(last.tab, tables, schema, named[n..], i);
        }
      }
    }
  }

  lemma {:induction false} BoundNames(items: seq<Expr>, tables: seq<string>, schema: Schema, named: seq<TabCol>, bound: seq<TabCol>)
    requires SchemaOk(schema) && (forall t :: t in tables ==> t in schema) && ListNames(items, tables, schema, named)
    requires |bound| == |named| && forall i :: 0 <= i < |named| ==> bound[i] == Resolve(AllCols(tables, schema), named[i])
    ensures ListSays(items, tables, schema, bound)
  {
    hide BindColumn, AllCols, SchemaOk, ItemNames, Resolve, ResolveItem;
    var cols := AllCols(tables, schema);
    if items != [] {
      var front, last := items[..|items| - 1], items[|items| - 1];
      var n :| 0 <= n <= |named| && ListNames(front, tables, schema, named[..n]) && ItemNames(last, tables, schema, named[n..]);
      BoundNames(front, tables, schema, named[..n], bound[..n]);
      assert ResolveItems(cols, items)[..|items| - 1] == ResolveItems(cols, front);
      BoundRun(last, tables, schema, named[n..], bound[n..]);
    }
  }

  lemma BoundRun(item: Expr, tables: seq<string>, schema: Schema, run: seq<TabCol>, bound: seq<TabCol>)
    requires SchemaOk(schema) && (forall t :: t in tables ==> t in schema) && ItemNames(item, tables, schema, run)
    requires |bound| == |run| && forall i :: 0 <= i < |run| ==> bound[i] == Resolve(AllCols(tables, schema), run[i])
    ensures ItemNames(ResolveItem(AllCols(tables, schema), item), tables, schema, bound)
  {
    hide BindColumn, AllCols, SchemaOk, EveryColumn, ColumnsOf, Resolve;
    if item.Star? {
      forall i | 0 <= i < |run|
        ensures bound[i] == run[i]
      {
        StarBinds(item.tab, tables, schema, run, i);
        QualifiedStays(AllCols(tables, schema), run[i]);
      }
      assert bound == run;
    }
  }

  lemma QualifiedStays(cols: seq<ColMeta>, target: TabCol)
    requires target.tab != ""
    ensures Resolve(cols, target) == target
  {}

  method BindOrder(orderBy: seq<OrderItem>, tables: seq<string>, schema: Schema, cols: seq<ColMeta>) returns (r: Analyzed<Option<OrderBy>>)
    requires SchemaOk(schema) && (forall t :: t in tables ==> t in schema) && cols == AllCols(tables, schema)
    ensures r.Ok? <==> OrderAccepted(orderBy, cols)
    ensures r.Ok? ==> OrderSays(orderBy, cols, r.value) && OrderKnown(r.value, tables, schema)
  {
    VisibleNamed(tables, schema);
    if |orderBy| > 1 { return Err(NotImplemented); }
    if orderBy == [] { return Ok(None); }
    var item := orderBy[0];
    assert item in orderBy;
    if item.key.NoExpr? { return Err(Internal); }
    if !item.key.Column? { return Err(NotImplemented); }
    var key := CheckColumn(cols, item.key.col);
    if key.Err? { return Err(key.error); }
    BoundColumn(tables, schema, item.key.col);
    return Ok(Some(OrderBy(key.value, item.desc)));
  }

  method BindFilter(filter: Option<Expr>, tables: seq<string>, schema: Schema, cols: seq<ColMeta>) returns (r: Analyzed<seq<Condition>>)
    requires SchemaOk(schema) && (forall t :: t in tables ==> t in schema) && cols == AllCols(tables, schema)
    ensures r.Ok? <==> FilterAccepted(filter, cols, schema)
    ensures r.Ok? ==> FilterSays(filter, cols, r.value) && Bound(r.value, tables) && ConditionsKnown(r.value, schema)
  {
    VisibleNamed(tables, schema);
    var flat := if filter.Some? then Flatten(filter.value) else Ok([]);
    hide Known, Checked, Bound, AllCols, Flatten, Holds, SchemaOk;
    if flat.Err? { return Err(flat.error); }
    r := CheckClause(cols, schema, flat.value);
    if r.Err? { return; }
    CheckedAreBound(tables, schema, flat.value);
    SaysFilter(filter, cols, r.value);
  }

  lemma SaysFilter(filter: Option<Expr>, cols: seq<ColMeta>, conds: seq<Condition>)
    requires filter.Some? ==> Flatten(filter.value).Ok? && conds == ResolveAll(cols, Flatten(filter.value).value)
    requires filter.None? ==> conds == ResolveAll(cols, [])
    ensures FilterSays(filter, cols, conds)
  {
    forall db, row ensures Holds(conds, db, row) <==> FilterHolds(filter, cols, db, row) {
      if filter.Some? { FlattenKeepsMeaning(filter.value, cols, db, row); }
    }
  }

  method AnalyzeSelect(stmt: SelectStmt, schema: Schema) returns (r: Analyzed<SelectQuery>)
    requires SchemaOk(schema)
    ensures r.Ok? <==> Accepted(stmt, schema)
    ensures r.Ok? ==> SaysTheSame(stmt, schema, r.value)
    ensures r.Ok? ==> Bound(r.value.conds, r.value.tables) && ColumnsKnown(r.value, schema)
  {
    var tables := GetTableNames(stmt.from);
    if tables.Err? { return Err(tables.error); }
    var visible := GetAllCols(tables.value, schema);
    if visible.Err? { return Err(visible.error); }
    var cols := visible.value;
    hide GetTableNames, AllCols, ListAccepted, OrderAccepted, FilterAccepted, ListSays, OrderSays, FilterSays,
         ListKnown, OrderKnown, ConditionsKnown, Bound, SchemaOk;
    var list := BindList(stmt.items, tables.value, schema, cols);
    if list.Err? { return Err(list.error); }
    if stmt.hasGroupHavingLimit { return Err(NotImplemented); }
    var order := BindOrder(stmt.orderBy, tables.value, schema, cols);
    if order.Err? { return Err(order.error); }
    var conds := BindFilter(stmt.filter, tables.value, schema, cols);
    if conds.Err? { return Err(conds.error); }
    return Ok(SelectQuery(tables.value, conds.value, list.value, order.value));
  }

  lemma KnownList(tables: seq<string>, schema: Schema, named: seq<TabCol>, bound: seq<TabCol>)
    requires SchemaOk(schema) && forall t :: t in tables ==> t in schema
    requires |bound| == |named| && forall t :: t in named ==> BindColumn(AllCols(tables, schema), t).Ok?
    requires forall i :: 0 <= i < |named| ==> bound[i] == Resolve(AllCols(tables, schema), named[i])
    ensures ListKnown(bound, tables, schema)
  {
    forall t | t in bound
      ensures t.tab in tables && Known(schema, t)
    {
      var i :| 0 <= i < |bound| && bound[i] == t;
      assert named[i] in named;
      BoundColumn(tables, schema, named[i]);
    }
  }

  // ---- analysis and planning together ------------------------------------------------

  function Indexes(schema: Schema): Catalog
  {
    map t | t in schema :: schema[t].indexes
  }

  function FilterRows(rows: seq<Env>, filter: Option<Expr>, cols: seq<ColMeta>, db: Database): seq<Env>
  {
    if rows == [] then []
    else (if FilterHolds(filter, cols, db, rows[0]) then [rows[0]] else []) + FilterRows(rows[1..], filter, cols, db)
  }

  /** The answer read off the statement itself: FROM tree, WHERE tree, ORDER BY and select list. */
  ghost predicate StatementAnswer(stmt: SelectStmt, schema: Schema, q: SelectQuery, db: Database, out: seq<seq<Value>>)
    requires SaysTheSame(stmt, schema, q)
  {
    exists rows ::
      && multiset(rows) == multiset(FilterRows(FromRows(stmt.from, db), stmt.filter, AllCols(q.tables, schema), db))
      && (q.order.Some? ==> Sorted(rows, q.order.value.col, q.order.value.desc, db))
      && ListsColumns(out, rows, q.cols, db)
  }

  lemma {:induction false} FilterRowsIsFilter(rows: seq<Env>, filter: Option<Expr>, cols: seq<ColMeta>, conds: seq<Condition>, db: Database)
    requires forall row :: Holds(conds, db, row) <==> FilterHolds(filter, cols, db, row)
    ensures FilterRows(rows, filter, cols, db) == Filter(rows, conds, db)
  {
    if rows != [] { FilterRowsIsFilter(rows[1..], filter, cols, conds, db); }
  }

  lemma AnswerOfStatement(stmt: SelectStmt, schema: Schema, q: SelectQuery, db: Database, out: seq<seq<Value>>)
    requires SaysTheSame(stmt, schema, q) && Distinct(q.tables) && Answers(q, db, out)
    ensures StatementAnswer(stmt, schema, q, db, out)
  {
    var cols := AllCols(q.tables, schema);
    FilterRowsIsFilter(FromRows(stmt.from, db), stmt.filter, cols, q.conds, db);
    FlatteningKeepsRows(stmt.from, db);
    var a, b := FromRows(stmt.from, db), Cross(q.tables, db);
    forall e
      ensures multiset(Filter(a, q.conds, db))[e] == multiset(Filter(b, q.conds, db))[e]
    {
      FilterCount(a, q.conds, db, e);
      FilterCount(b, q.conds, db, e);
    }
    assert multiset(Filter(a, q.conds, db)) == multiset(Reference(q.tables, q.conds, db));
  }

  /** Analysis, then planning: every answer the plan can deliver is the statement's answer. */
  method RunSelect(stmt: SelectStmt, schema: Schema, enableSortMerge: bool) returns (q: Analyzed<SelectQuery>, p: Option<SelectPlan>)
    requires SchemaOk(schema)
    ensures q.Ok? <==> Accepted(stmt, schema)
    ensures q.Ok? <==> p.Some?
    ensures q.Ok? ==> SaysTheSame(stmt, schema, q.value) && ColumnsKnown(q.value, schema)
    ensures q.Ok? ==>
      && PlanOf(p.value.root, q.value.tables, q.value.conds, Indexes(schema)) && MergeReady(p.value.root)
      && p.value.cols == q.value.cols && PlanShape(p.value.root, q.value, Indexes(schema), enableSortMerge)
    ensures q.Ok? && Distinct(q.value.tables) ==>
      forall db, out :: SelectProduces(p.value, db, out) ==> StatementAnswer(stmt, schema, q.value, db, out)
  {
    q := AnalyzeSelect(stmt, schema);
    if q.Err? { return q, None; }
    NamesNonEmpty(stmt.from);
    var plan := PlanSelect(q.value, Indexes(schema), enableSortMerge);
    p := Some(plan.value);
    if Distinct(q.value.tables) {
      forall db, out | SelectProduces(p.value, db, out)
        ensures StatementAnswer(stmt, schema, q.value, db, out)
      {
        AnswerOfStatement(stmt, schema, q.value, db, out);
      }
    }
  }

  lemma {:induction false} NamesNonEmpty(from: FromNode)
    requires GetTableNames(from).Ok?
    ensures GetTableNames(from).value != []
  {
    if from.JoinNode? { NamesNonEmpty(from.left); }
  }
}
