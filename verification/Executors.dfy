/**
  Turning a plan into a tree of executors, and the layout of the records they pass on.

  Executors hand fixed-length byte records to each other.  A joined record is the left
  child's record followed by the right child's, so every column of the right child moves
  by the length of the left record.  tuple_len and cols follow their documented contract:
  a sort keeps its child's layout.
 */
module Executors {
  import opened Basics
  import opened Query
  import opened Plans
  import opened Planner
  import opened Analyzer
  import JoinTree

  datatype ExecError = UnknownTable | UnknownIndex | UnknownColumn | BadMergeKey
  type Converted<+T> = Result<T, ExecError>

  datatype Executor =
    | ScanExec(tab: string, cols: seq<ColMeta>, len: int, conds: seq<Condition>, indexCols: seq<string>)
    | NestedLoopExec(left: Executor, right: Executor, cols: seq<ColMeta>, len: int, conds: seq<Condition>)
    | MergeExec(left: Executor, right: Executor, cols: seq<ColMeta>, len: int,
                leftKey: ColMeta, rightKey: ColMeta, residual: seq<Condition>)
    | SortExec(prev: Executor, key: ColMeta, desc: bool)

  function ExecCols(x: Executor): seq<ColMeta>
  {
    if x.SortExec? then ExecCols(x.prev) else x.cols
  }

  function ExecLen(x: Executor): int
  {
    if x.SortExec? then ExecLen(x.prev) else x.len
  }

  // ---- column lookup ---------------------------------------------------------

  predicate IsCol(c: ColMeta, target: TabCol)
  {
    c.tab == target.tab && c.name == target.col
  }

  function GetCol(cols: seq<ColMeta>, target: TabCol): (r: Option<ColMeta>)
    ensures r.Some? <==> exists c :: c in cols && IsCol(c, target)
    ensures r.Some? ==> r.value in cols && IsCol(r.value, target)
  {
    if cols == [] then None else if IsCol(cols[0], target) then Some(cols[0]) else GetCol(cols[1..], target)
  }

  function Shift(c: ColMeta, delta: int): ColMeta
  {
    c.(offset := c.offset + delta)
  }

  function Shifted(cols: seq<ColMeta>, delta: int): (r: seq<ColMeta>)
    ensures |r| == |cols| && forall i :: 0 <= i < |cols| ==> r[i] == Shift(cols[i], delta)
  {
    seq(|cols|, i requires 0 <= i < |cols| => Shift(cols[i], delta))
  }

  lemma {:induction false} GetColConcat(a: seq<ColMeta>, b: seq<ColMeta>, target: TabCol)
    ensures GetCol(a + b, target) == if GetCol(a, target).Some? then GetCol(a, target) else GetCol(b, target)
  {
    if a == [] {
      assert a + b == b;
    } else {
      assert (a + b)[0] == a[0] && (a + b)[1..] == a[1..] + b;
      GetColConcat(a[1..], b, target);
    }
  }

  lemma {:induction false} GetColShifted(cols: seq<ColMeta>, delta: int, target: TabCol)
    ensures GetCol(Shifted(cols, delta), target)
         == match GetCol(cols, target) case None => None case Some(c) => Some(Shift(c, delta))
  {
    if cols != [] {
      assert Shifted(cols, delta)[1..] == Shifted(cols[1..], delta);
      GetColShifted(cols[1..], delta, target);
    }
  }

  // ---- constructors ------------------------------------------------------------

  /** The columns of a joined record: the right child's offsets grow by the left record's length. */
  method JoinColumns(left: seq<ColMeta>, right: seq<ColMeta>, leftLen: int) returns (cols: seq<ColMeta>)
    ensures cols == left + Shifted(right, leftLen)
  {
    var moved := right;
    for i := 0 to |right|
      invariant |moved| == |right|
      invariant forall j :: 0 <= j < i ==> moved[j] == Shift(right[j], leftLen)
      invariant forall j :: i <= j < |right| ==> moved[j] == right[j]
    {
      moved := moved[i := moved[i].(offset := moved[i].offset + leftLen)];
    }
    assert moved == Shifted(right, leftLen);
    cols := left + moved;
  }

  method NewNestedLoop(left: Executor, right: Executor, conds: seq<Condition>) returns (x: Executor)
    ensures ExecCols(x) == ExecCols(left) + Shifted(ExecCols(right), ExecLen(left))
    ensures ExecLen(x) == ExecLen(left) + ExecLen(right)
    ensures x.NestedLoopExec? && x.left == left && x.right == right && x.conds == conds
  {
    var cols := JoinColumns(ExecCols(left), ExecCols(right), ExecLen(left));
    x := NestedLoopExec(left, right, cols, ExecLen(left) + ExecLen(right), conds);
  }

  /** A merge join finds its two keys. */
  predicate MergeKeysFound(left: Executor, right: Executor, conds: seq<Condition>)
  {
    && conds != [] && conds[0].rhs.Col? && conds[0].op == EQ
    && GetCol(ExecCols(left), conds[0].lhs).Some? && GetCol(ExecCols(right), conds[0].rhs.col).Some?
  }

  /** A merge join of the two: their columns side by side, the first condition as keys and the rest as residual. */
  ghost predicate IsMergeOf(x: Executor, left: Executor, right: Executor, conds: seq<Condition>)
  {
    && ExecCols(x) == ExecCols(left) + Shifted(ExecCols(right), ExecLen(left)) && ExecLen(x) == ExecLen(left) + ExecLen(right)
    && x.MergeExec? && x.left == left && x.right == right && conds != [] && conds[0].rhs.Col?
    && IsCol(x.leftKey, conds[0].lhs) && x.leftKey in ExecCols(left)
    && IsCol(x.rightKey, conds[0].rhs.col) && x.rightKey in ExecCols(right)
    && conds == [Condition(conds[0].lhs, EQ, Col(conds[0].rhs.col))] + x.residual
  }

  method NewMerge(left: Executor, right: Executor, conds: seq<Condition>) returns (x: Converted<Executor>)
    ensures x.Ok? <==> MergeKeysFound(left, right, conds)
    ensures x.Ok? ==> IsMergeOf(x.value, left, right, conds)
  {
    if conds == [] || conds[0].rhs.Val? || conds[0].op != EQ { return Err(BadMergeKey); }
    var cols := JoinColumns(ExecCols(left), ExecCols(right), ExecLen(left));
    var leftKey, rightKey := GetCol(ExecCols(left), conds[0].lhs), GetCol(ExecCols(right), conds[0].rhs.col);
    if leftKey.None? || rightKey.None? { return Err(UnknownColumn); }
    return Ok(MergeExec(left, right, cols, ExecLen(left) + ExecLen(right), leftKey.value, rightKey.value, conds[1..]));
  }

  // ---- conversion -----------------------------------------------------------------

  function RecordLen(cols: seq<ColMeta>): int
  {
    if cols == [] then 0 else cols[|cols| - 1].offset + cols[|cols| - 1].len
  }

  function TableCols(schema: Schema, tab: string): seq<ColMeta>
  {
    if tab in schema then schema[tab].cols else []
  }

  /** The columns of the records a plan's executor delivers, and their length. */
  function PlanLen(p: Plan, schema: Schema): int
  {
    match p
    case Scan(tab, _, _) => RecordLen(TableCols(schema, tab))
    case Join(_, l, r, _) => PlanLen(l, schema) + PlanLen(r, schema)
    case Sort(sub, _, _) => PlanLen(sub, schema)
  }

  function PlanCols(p: Plan, schema: Schema): seq<ColMeta>
  {
    match p
    case Scan(tab, _, _) => TableCols(schema, tab)
    case Join(_, l, r, _) => PlanCols(l, schema) + Shifted(PlanCols(r, schema), PlanLen(l, schema))
    case Sort(sub, _, _) => PlanCols(sub, schema)
  }

  /** Exactly when every lookup of the conversion succeeds. */
  predicate Convertible(p: Plan, schema: Schema)
  {
    match p
    case Scan(tab, _, indexCols) => tab in schema && (indexCols == [] || indexCols in schema[tab].indexes)
    case Join(tag, l, r, conds) =>
      && Convertible(l, schema) && Convertible(r, schema)
      && (tag.SortMerge? ==>
            && conds != [] && conds[0].rhs.Col? && conds[0].op == EQ
            && GetCol(PlanCols(l, schema), conds[0].lhs).Some?
            && GetCol(PlanCols(r, schema), conds[0].rhs.col).Some?)
    case Sort(sub, key, _) => Convertible(sub, schema) && GetCol(PlanCols(sub, schema), key).Some?
  }

  /** The executor has the plan's shape, conditions and record layout. */
  ghost predicate Realizes(x: Executor, p: Plan, schema: Schema)
  {
    && ExecCols(x) == PlanCols(p, schema) && ExecLen(x) == PlanLen(p, schema)
    && match p
       case Scan(tab, conds, indexCols) => x.ScanExec? && x.tab == tab && x.conds == conds && x.indexCols == indexCols
       case Join(tag, l, r, conds) =>
         if tag.NestLoop? then
           x.NestedLoopExec? && Realizes(x.left, l, schema) && Realizes(x.right, r, schema) && x.conds == conds
         else
           && x.MergeExec? && Realizes(x.left, l, schema) && Realizes(x.right, r, schema)
           && conds != [] && conds[0].rhs.Col? && x.residual == conds[1..]
           && IsCol(x.leftKey, conds[0].lhs) && x.leftKey in PlanCols(l, schema)
           && IsCol(x.rightKey, conds[0].rhs.col) && x.rightKey in PlanCols(r, schema)
       case Sort(sub, key, desc) =>
         && x.SortExec? && Realizes(x.prev, sub, schema) && x.desc == desc
         && IsCol(x.key, key) && x.key in PlanCols(sub, schema)
  }

  lemma MergeRealizes(p: Plan, left: Executor, right: Executor, schema: Schema)
    requires p.Join? && p.tag.SortMerge? && Convertible(p.left, schema) && Convertible(p.right, schema)
    requires Realizes(left, p.left, schema) && Realizes(right, p.right, schema)
    ensures Convertible(p, schema) <==> MergeKeysFound(left, right, p.conds)
    ensures forall x :: IsMergeOf(x, left, right, p.conds) ==> Realizes(x, p, schema)
  {
    hide Shifted, IsCol, GetCol;
    forall x | IsMergeOf(x, left, right, p.conds) ensures Realizes(x, p, schema) {
      assert x.residual == p.conds[1..];
    }
  }

  /** The executor of a join over the executors of its sides. */
  method NewJoin(p: Plan, left: Executor, right: Executor, schema: Schema) returns (r: Converted<Executor>)
    requires p.Join? && Convertible(p.left, schema) && Convertible(p.right, schema)
    requires Realizes(left, p.left, schema) && Realizes(right, p.right, schema)
    ensures r.Ok? <==> Convertible(p, schema)
    ensures r.Ok? ==> Realizes(r.value, p, schema)
  {
    hide Shifted, IsCol, GetCol;
    if p.tag.SortMerge? {
      MergeRealizes(p, left, right, schema);
      hide *;
      r := NewMerge(left, right, p.conds);
    } else {
      var x := NewNestedLoop(left, right, p.conds);
      r := Ok(x);
    }
  }

  method Convert(p: Plan, schema: Schema) returns (r: Converted<Executor>)
    ensures r.Ok? <==> Convertible(p, schema)
    ensures r.Ok? ==> Realizes(r.value, p, schema)
    decreases p
  {
    hide Shifted, IsCol;
    match p {
      case Scan(tab, conds, indexCols) =>
        if tab !in schema { return Err(UnknownTable); }
        if indexCols != [] && indexCols !in schema[tab].indexes { return Err(UnknownIndex); }
        var cols := schema[tab].cols;
        return Ok(ScanExec(tab, cols, RecordLen(cols), conds, indexCols));
      case Join(tag, left, right, conds) =>
        var l := Convert(left, schema);
        if l.Err? { return l; }
        var r' := Convert(right, schema);
        if r'.Err? { return r'; }
        hide Convertible, Realizes, GetCol, ExecCols, ExecLen;
        r := NewJoin(p, l.value, r'.value, schema);
      case Sort(sub, key, desc) =>
        var x := Convert(sub, schema);
        if x.Err? { return x; }
        var col := GetCol(ExecCols(x.value), key);
        if col.None? { return Err(UnknownColumn); }
        return Ok(SortExec(x.value, col.value, desc));
    }
  }

  // ---- every plan of the planner converts -----------------------------------------

  /** All columns a plan's conditions and sorts name exist in the catalog. */
  predicate SortsVisible(p: Plan, schema: Schema)
  {
    match p
    case Scan(_, _, _) => true
    case Join(_, l, r, _) => SortsVisible(l, schema) && SortsVisible(r, schema)
    case Sort(sub, key, _) => SortsVisible(sub, schema) && key.tab in Tables(sub) && Known(schema, key)
  }

  lemma {:induction false} VisibleColumn(p: Plan, schema: Schema, target: TabCol)
    requires SchemaOk(schema) && target.tab in Tables(p) && Known(schema, target)
    ensures GetCol(PlanCols(p, schema), target).Some?
  {
    match p
    case Scan(tab, _, _) =>
      var c := FindCol(schema[tab].cols, target.col).value;
      assert c in PlanCols(p, schema) && IsCol(c, target);
    case Join(_, l, r, _) =>
      GetColConcat(PlanCols(l, schema), Shifted(PlanCols(r, schema), PlanLen(l, schema)), target);
      GetColShifted(PlanCols(r, schema), PlanLen(l, schema), target);
      if target.tab in Tables(l) { VisibleColumn(l, schema, target); } else { VisibleColumn(r, schema, target); }
    case Sort(sub, _, _) =>
      VisibleColumn(sub, schema, target);
  }

  lemma {:induction false} PlanConverts(p: Plan, schema: Schema)
    requires SchemaOk(schema) && MergeReady(p) && SortsVisible(p, schema) && IndexesBest(p, Indexes(schema))
    requires Tables(p) <= schema.Keys
    ensures Convertible(p, schema)
  {
    match p
    case Scan(tab, conds, indexCols) =>
    case Join(_, l, r, conds) =>
      PlanConverts(l, schema);
      PlanConverts(r, schema);
      if p.tag.SortMerge? {
        VisibleColumn(l, schema, conds[0].lhs);
        VisibleColumn(r, schema, conds[0].rhs.col);
      }
    case Sort(sub, key, _) =>
      PlanConverts(sub, schema);
      VisibleColumn(sub, schema, key);
  }

  /** The conditions a plan carries name the columns the query named. */
  lemma PlanColumnsKnown(p: Plan, q: SelectQuery, schema: Schema, c: Condition)
    requires Conserved(AllConds(p), q.conds) && ColumnsKnown(q, schema) && c in AllConds(p)
    ensures Known(schema, c.lhs) && (c.rhs.Col? ==> Known(schema, c.rhs.col))
  {
    assert Alike(c, c);
    CountPositive(AllConds(p), c);
    CountPositive(q.conds, c);
    var d :| d in q.conds && Alike(d, c);
  }

  /** The sorts choose_join_algorithm adds are on columns the joins below deliver. */
  lemma {:induction false} ChosenSortsVisible(p: Plan, on: bool, schema: Schema)
    requires JoinTree.JoinShape(p) && JoinTree.Placed(p)
    requires forall c :: c in AllConds(p) ==> Known(schema, c.lhs) && (c.rhs.Col? ==> Known(schema, c.rhs.col))
    ensures SortsVisible(ChooseJoin(p, on), schema)
  {
    if p.Join? {
      ChosenSortsVisible(p.left, on, schema);
      ChosenSortsVisible(p.right, on, schema);
      ChooseJoinShape(p.left, on);
      ChooseJoinShape(p.right, on);
      var n := FirstEquality(p.conds);
      if n < |p.conds| {
        assert p.conds[n] in p.conds;
        assert p.conds[n] in AllConds(p);
      }
    }
  }

  lemma PlannedConverts(root: Plan, q: SelectQuery, schema: Schema, on: bool)
    requires SchemaOk(schema) && ColumnsKnown(q, schema) && forall t :: t in q.tables ==> t in schema
    requires PlanShape(root, q, Indexes(schema), on) && MergeReady(root) && PlanOf(root, q.tables, q.conds, Indexes(schema))
    ensures Convertible(root, schema)
    ensures forall c :: c in q.cols ==> GetCol(PlanCols(root, schema), c).Some?
  {
    var base :| && JoinTree.JoinShape(base) && PlanOf(base, q.tables, q.conds, Indexes(schema))
                && root == AddOrder(ChooseJoin(base, on), q.order);
    forall c | c in AllConds(base)
      ensures Known(schema, c.lhs) && (c.rhs.Col? ==> Known(schema, c.rhs.col))
    {
      PlanColumnsKnown(base, q, schema, c);
    }
    ChosenSortsVisible(base, on, schema);
    ChooseJoinShape(base, on);
    PlanIndexed(root, q.tables, Indexes(schema));
    PlanConverts(root, schema);
    forall c | c in q.cols
      ensures GetCol(PlanCols(root, schema), c).Some?
    {
      VisibleColumn(root, schema, c);
    }
  }

  // ---- projection ---------------------------------------------------------------

  /** The projected columns, packed one after the other. */
  function Packed(cols: seq<ColMeta>, targets: seq<TabCol>): (r: seq<ColMeta>)
    requires forall t :: t in targets ==> GetCol(cols, t).Some?
    ensures |r| == |targets|
  {
    if targets == [] then []
    else
      var front := Packed(cols, targets[..|targets| - 1]);
      front + [GetCol(cols, targets[|targets| - 1]).value.(offset := RecordLen(front))]
  }

  method NewProjection(cols: seq<ColMeta>, targets: seq<TabCol>) returns (r: Converted<(seq<ColMeta>, int)>)
    ensures r.Ok? <==> forall t :: t in targets ==> GetCol(cols, t).Some?
    ensures r.Ok? ==> r.value.0 == Packed(cols, targets) && r.value.1 == RecordLen(r.value.0)
  {
    var out := [];
    var offset := 0;
    for i := 0 to |targets|
      invariant forall t :: t in targets[..i] ==> GetCol(cols, t).Some?
      invariant out == Packed(cols, targets[..i]) && offset == RecordLen(out)
    {
      var pos := GetCol(cols, targets[i]);
      if pos.None? {
        assert targets[i] in targets;
        return Err(UnknownColumn);
      }
      assert targets[..i + 1] == targets[..i] + [targets[i]];
      assert targets[..i + 1][..i] == targets[..i];
      out := out + [pos.value.(offset := offset)];
      offset := offset + pos.value.len;
    }
    assert targets[..|targets|] == targets;
    return Ok((out, offset));
  }

  /** x runs a plan of the statement's bound query, and projected is its packed select list. */
  ghost predicate Started(stmt: SelectStmt, schema: Schema, q: SelectQuery, root: Plan, x: Executor, projected: seq<ColMeta>)
  {
    && SaysTheSame(stmt, schema, q) && PlanOf(root, q.tables, q.conds, Indexes(schema)) && Realizes(x, root, schema)
    && (forall t :: t in q.cols ==> GetCol(ExecCols(x), t).Some?) && projected == Packed(ExecCols(x), q.cols)
  }

  /** Analysis, planning and conversion of one SELECT: nothing fails once analysis has accepted it. */
  method StartSelect(stmt: SelectStmt, schema: Schema, enableSortMerge: bool)
    returns (x: Option<Executor>, projected: seq<ColMeta>)
    requires SchemaOk(schema)
    ensures x.Some? <==> Accepted(stmt, schema)
    ensures x.Some? ==> exists q, root :: Started(stmt, schema, q, root, x.value, projected)
  {
    var q, p := RunSelect(stmt, schema, enableSortMerge);
    if q.Err? { return None, []; }
    PlannedConverts(p.value.root, q.value, schema, enableSortMerge);
    var root := Convert(p.value.root, schema);
    var cols := NewProjection(ExecCols(root.value), q.value.cols);
    assert Started(stmt, schema, q.value, p.value.root, root.value, cols.value.0);
    return Some(root.value), cols.value.0;
  }

  // ---- reading columns out of records -----------------------------------------------

  type RawTables = map<string, seq<seq<byte>>>

  /** Columns lie one after the other from offset zero. */
  predicate Contiguous(cols: seq<ColMeta>)
  {
    cols != [] ==>
      && Contiguous(cols[..|cols| - 1])
      && cols[|cols| - 1].offset == RecordLen(cols[..|cols| - 1]) && cols[|cols| - 1].len > 0
  }

  ghost predicate RawOk(raw: RawTables, schema: Schema)
  {
    forall t :: t in schema ==>
      && t in raw && Contiguous(schema[t].cols)
      && forall r :: r in raw[t] ==> |r| == RecordLen(schema[t].cols)
  }

  /** The bytes an executor delivers for a row: the records of the joined tables in leaf order. */
  function RecordOf(p: Plan, raw: RawTables, e: Env): seq<byte>
  {
    match p
    case Scan(tab, _, _) => if tab in raw && tab in e && e[tab] < |raw[tab]| then raw[tab][e[tab]] else []
    case Join(_, l, r, _) => RecordOf(l, raw, e) + RecordOf(r, raw, e)
    case Sort(sub, _, _) => RecordOf(sub, raw, e)
  }

  ghost predicate RowOf(p: Plan, raw: RawTables, e: Env)
  {
    forall t :: t in Tables(p) ==> t in raw && t in e && e[t] < |raw[t]|
  }

  lemma {:induction false} RecordOfLen(p: Plan, raw: RawTables, schema: Schema, e: Env)
    requires RawOk(raw, schema) && RowOf(p, raw, e) && Tables(p) <= schema.Keys
    ensures |RecordOf(p, raw, e)| == PlanLen(p, schema)
  {
    match p
    case Scan(tab, _, _) =>
      assert raw[tab][e[tab]] in raw[tab];
    case Join(_, l, r, _) =>
      RecordOfLen(l, raw, schema, e);
      RecordOfLen(r, raw, schema, e);
    case Sort(sub, _, _) =>
      RecordOfLen(sub, raw, schema, e);
  }

  lemma {:induction false} ContiguousBounds(cols: seq<ColMeta>, c: ColMeta)
    requires Contiguous(cols) && c in cols
    ensures 0 <= c.offset && 0 < c.len && c.offset + c.len <= RecordLen(cols)
  {
    var front, last := cols[..|cols| - 1], cols[|cols| - 1];
    assert cols == front + [last];
    if front != [] {
      ContiguousBounds(front, front[|front| - 1]);
      if c in front { ContiguousBounds(front, c); }
    }
  }

  lemma {:induction false} ColTables(p: Plan, schema: Schema, c: ColMeta)
    requires SchemaOk(schema) && c in PlanCols(p, schema)
    ensures c.tab in Tables(p)
  {
    match p
    case Scan(_, _, _) =>
    case Join(_, l, r, _) =>
      if c !in PlanCols(l, schema) {
        var right := Shifted(PlanCols(r, schema), PlanLen(l, schema));
        assert c in right;
        var i :| 0 <= i < |right| && right[i] == c;
        ColTables(r, schema, PlanCols(r, schema)[i]);
      } else {
        ColTables(l, schema, c);
      }
    case Sort(sub, _, _) =>
      ColTables(sub, schema, c);
  }

  function Slice(record: seq<byte>, c: ColMeta): seq<byte>
  {
    if 0 <= c.offset <= c.offset + c.len <= |record| then record[c.offset..c.offset + c.len] else []
  }

  /**
    However deep the joins, the bytes at a column's computed offset in the joined record
    are the bytes of that column in its own table's record.
   */
  lemma {:induction false} ReadColumn(p: Plan, raw: RawTables, schema: Schema, e: Env, target: TabCol)
    requires SchemaOk(schema) && RawOk(raw, schema) && RowOf(p, raw, e) && Tables(p) <= schema.Keys
    requires DistinctLeaves(p) && target.tab in Tables(p) && GetCol(schema[target.tab].cols, target).Some?
    ensures GetCol(PlanCols(p, schema), target).Some?
    ensures var c, own := GetCol(PlanCols(p, schema), target).value, GetCol(schema[target.tab].cols, target).value;
      && 0 <= c.offset && 0 < c.len == own.len && c.offset + c.len <= |RecordOf(p, raw, e)|
      && Slice(RecordOf(p, raw, e), c) == Slice(raw[target.tab][e[target.tab]], own)
  {
    RecordOfLen(p, raw, schema, e);
    match p
    case Scan(tab, _, _) =>
      ContiguousBounds(schema[tab].cols, GetCol(schema[tab].cols, target).value);
    case Join(_, l, r, _) =>
      var lcols, rcols, n := PlanCols(l, schema), PlanCols(r, schema), PlanLen(l, schema);
      RecordOfLen(l, raw, schema, e);
      GetColConcat(lcols, Shifted(rcols, n), target);
      GetColShifted(rcols, n, target);
      if target.tab in Tables(l) {
        ReadColumn(l, raw, schema, e, target);
        SliceLeft(RecordOf(l, raw, e), RecordOf(r, raw, e), GetCol(lcols, target).value);
      } else {
        if GetCol(lcols, target).Some? { ColTables(l, schema, GetCol(lcols, target).value); assert false; }
        ReadColumn(r, raw, schema, e, target);
        SliceRight(RecordOf(l, raw, e), RecordOf(r, raw, e), GetCol(rcols, target).value);
      }
    case Sort(sub, _, _) =>
      ReadColumn(sub, raw, schema, e, target);
  }

  lemma SliceLeft(a: seq<byte>, b: seq<byte>, c: ColMeta)
    requires 0 <= c.offset && 0 < c.len && c.offset + c.len <= |a|
    ensures Slice(a + b, c) == Slice(a, c)
  {
    assert (a + b)[c.offset..c.offset + c.len] == a[c.offset..c.offset + c.len];
  }

  lemma SliceRight(a: seq<byte>, b: seq<byte>, c: ColMeta)
    requires 0 <= c.offset && 0 < c.len && c.offset + c.len <= |b|
    ensures Slice(a + b, Shift(c, |a|)) == Slice(b, c)
  {
    assert (a + b)[|a| + c.offset..|a| + c.offset + c.len] == b[c.offset..c.offset + c.len];
  }

  /** The projected record: the selected columns' bytes one after the other. */
  function ProjectBytes(record: seq<byte>, cols: seq<ColMeta>, targets: seq<TabCol>): seq<byte>
    requires forall t :: t in targets ==> GetCol(cols, t).Some?
  {
    if targets == [] then []
    else
      var front, last := targets[..|targets| - 1], targets[|targets| - 1];
      ProjectBytes(record, cols, front) + Slice(record, GetCol(cols, last).value)
  }

  ghost predicate Inside(cols: seq<ColMeta>, targets: seq<TabCol>, n: int)
    requires forall t :: t in targets ==> GetCol(cols, t).Some?
  {
    forall t :: t in targets ==>
      var c := GetCol(cols, t).value; 0 <= c.offset && 0 < c.len && c.offset + c.len <= n
  }

  lemma {:induction false} ProjectBytesLen(record: seq<byte>, cols: seq<ColMeta>, targets: seq<TabCol>)
    requires (forall t :: t in targets ==> GetCol(cols, t).Some?) && Inside(cols, targets, |record|)
    ensures |ProjectBytes(record, cols, targets)| == RecordLen(Packed(cols, targets))
    ensures Contiguous(Packed(cols, targets))
  {
    if targets != [] {
      var front := targets[..|targets| - 1];
      ProjectBytesLen(record, cols, front);
      var packed := Packed(cols, targets);
      assert targets[|targets| - 1] in targets;
      assert packed[..|packed| - 1] == Packed(cols, front);
    }
  }

  /** Each selected column sits at its packed offset of the projected record. */
  lemma {:induction false} ReadProjected(record: seq<byte>, cols: seq<ColMeta>, targets: seq<TabCol>, i: nat)
    requires (forall t :: t in targets ==> GetCol(cols, t).Some?) && Inside(cols, targets, |record|) && i < |targets|
    ensures Slice(ProjectBytes(record, cols, targets), Packed(cols, targets)[i]) == Slice(record, GetCol(cols, targets[i]).value)
  {
    hide Packed, ProjectBytes, Contiguous, Slice, RecordLen, GetCol;
    var front, last := targets[..|targets| - 1], targets[|targets| - 1];
    assert last in targets;
    ProjectSnoc(record, cols, targets);
    ProjectBytesLen(record, cols, front);
    var packed, before := Packed(cols, front), ProjectBytes(record, cols, front);
    var c := GetCol(cols, last).value;
    if i < |front| {
      ReadProjected(record, cols, front, i);
      ContiguousBounds(packed, packed[i]);
      SliceLeft(before, Slice(record, c), packed[i]);
    } else {
      SliceLen(record, c);
      SliceEnd(before, Slice(record, c), c.(offset := |before|));
    }
  }

  lemma SliceLen(record: seq<byte>, c: ColMeta)
    requires 0 <= c.offset && 0 < c.len && c.offset + c.len <= |record|
    ensures |Slice(record, c)| == c.len
  {}

  lemma ProjectSnoc(record: seq<byte>, cols: seq<ColMeta>, targets: seq<TabCol>)
    requires targets != [] && (forall t :: t in targets ==> GetCol(cols, t).Some?) && Inside(cols, targets, |record|)
    ensures var front, last := targets[..|targets| - 1], targets[|targets| - 1];
      var before, c := ProjectBytes(record, cols, front), GetCol(cols, last).value;
      && Packed(cols, targets) == Packed(cols, front) + [c.(offset := |before|)]
      && ProjectBytes(record, cols, targets) == before + Slice(record, c)
  {
    hide GetCol, Slice;
    assert targets[|targets| - 1] in targets;
    ProjectBytesLen(record, cols, targets[..|targets| - 1]);
  }

  lemma SliceEnd(a: seq<byte>, b: seq<byte>, c: ColMeta)
    requires c.offset == |a| && c.len == |b|
    ensures Slice(a + b, c) == b
  {
    assert (a + b)[|a|..|a| + |b|] == b;
  }
}
