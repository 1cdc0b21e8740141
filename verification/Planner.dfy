/**
  The SELECT planner: choosing an index for each scan, pushing conditions down to the
  scans, handing the rest to the join tree, and rewriting equi-joins to sort-merge joins.
 */
module Planner {
  import opened Basics
  import opened Query
  import opened Joins
  import opened Plans
  import opened JoinTree

  /** For each table the column lists of its indexes, in catalog order. */
  type Catalog = map<string, seq<seq<string>>>

  // ---- choosing an index --------------------------------------------------

  predicate Matched(table: string, cols: seq<string>, conds: seq<Condition>)
  {
    forall k :: k in cols ==> KeyLiteral(conds, table, k).Some?
  }

  /** best is the first among the longest fully matched indexes, or empty when none has a column. */
  ghost predicate IsBestIndex(table: string, indexes: seq<seq<string>>, conds: seq<Condition>, best: seq<string>)
  {
    if best == [] then
      forall k :: 0 <= k < |indexes| && Matched(table, indexes[k], conds) ==> indexes[k] == []
    else
      exists k :: && 0 <= k < |indexes| && indexes[k] == best && Matched(table, best, conds)
                  && (forall j :: 0 <= j < |indexes| && Matched(table, indexes[j], conds) ==> |indexes[j]| <= |best|)
                  && (forall j :: 0 <= j < k && Matched(table, indexes[j], conds) ==> |indexes[j]| < |best|)
  }

  method ChooseIndex(table: string, indexes: seq<seq<string>>, conds: seq<Condition>) returns (best: seq<string>)
    ensures IsBestIndex(table, indexes, conds, best)
    ensures Matched(table, best, conds)
  {
    best := [];
    for i := 0 to |indexes|
      invariant IsBestIndex(table, indexes[..i], conds, best)
    {
      ghost var before := indexes[..i];
      assert indexes[..i + 1] == before + [indexes[i]];
      if Matched(table, indexes[i], conds) && |indexes[i]| > |best| {
        best := indexes[i];
        assert indexes[..i + 1][i] == best;
      } else if best != [] {
        ghost var k :| && 0 <= k < |before| && before[k] == best && Matched(table, best, conds)
                       && (forall j :: 0 <= j < |before| && Matched(table, before[j], conds) ==> |before[j]| <= |best|)
                       && (forall j :: 0 <= j < k && Matched(table, before[j], conds) ==> |before[j]| < |best|);
        assert indexes[..i + 1][k] == best;
        assert forall j :: 0 <= j < k ==> indexes[..i + 1][j] == before[j];
      }
    }
    assert indexes[..|indexes|] == indexes;
  }

  /** The choice depends on which conditions there are, not on their order. */
  lemma IndexChoiceIgnoresOrder(table: string, indexes: seq<seq<string>>, a: seq<Condition>, b: seq<Condition>,
                                best: seq<string>, other: seq<string>)
    requires ToSet(a) == ToSet(b)
    requires IsBestIndex(table, indexes, a, best) && IsBestIndex(table, indexes, b, other)
    ensures best == other
  {
    forall cols
      ensures Matched(table, cols, a) == Matched(table, cols, b)
    {
      forall k | k in cols
        ensures KeyLiteral(a, table, k).Some? == KeyLiteral(b, table, k).Some?
      {
        LiteralInBoth(table, k, a, b);
        LiteralInBoth(table, k, b, a);
      }
    }
    if best != [] && other != [] {
      var k :| 0 <= k < |indexes| && indexes[k] == best && Matched(table, best, a) &&
               (forall j :: 0 <= j < k && Matched(table, indexes[j], a) ==> |indexes[j]| < |best|);
      var m :| 0 <= m < |indexes| && indexes[m] == other && Matched(table, other, b) &&
               (forall j :: 0 <= j < m && Matched(table, indexes[j], b) ==> |indexes[j]| < |other|);
      assert |best| == |other|;
      assert k == m;
    }
  }

  lemma LiteralInBoth(table: string, k: string, a: seq<Condition>, b: seq<Condition>)
    requires ToSet(a) == ToSet(b)
    ensures KeyLiteral(a, table, k).Some? ==> KeyLiteral(b, table, k).Some?
  {
    var r := KeyLiteral(a, table, k);
    if r.Some? {
      var c := Condition(TabCol(table, k), EQ, Val(r.value));
      assert c in ToSet(a);
      assert c in ToSet(b);
      assert c in b;
    }
  }

  // ---- pushing conditions down --------------------------------------------

  predicate Pushable(c: Condition, table: string)
  {
    c.lhs.tab == table && (c.rhs.Val? || c.rhs.col.tab == table)
  }

  function Pushed(conds: seq<Condition>, table: string): seq<Condition>
  {
    if conds == [] then []
    else (if Pushable(conds[0], table) then [conds[0]] else []) + Pushed(conds[1..], table)
  }

  function Kept(conds: seq<Condition>, table: string): seq<Condition>
  {
    if conds == [] then []
    else (if Pushable(conds[0], table) then [] else [conds[0]]) + Kept(conds[1..], table)
  }

  method TakeTableConditions(conditions: seq<Condition>, table: string)
    returns (taken: seq<Condition>, rest: seq<Condition>)
    ensures taken == Pushed(conditions, table) && rest == Kept(conditions, table)
  {
    taken, rest := [], conditions;
    var it := 0;
    while it < |rest|
      invariant 0 <= it <= |rest|
      invariant taken + Pushed(rest[it..], table) == Pushed(conditions, table)
      invariant rest[..it] + Kept(rest[it..], table) == Kept(conditions, table)
      decreases |rest| - it
    {
      ghost var tail := rest[it..];
      assert tail[0] == rest[it] && tail[1..] == rest[it + 1..];
      if Pushable(rest[it], table) {
        taken := taken + [rest[it]];
        rest := rest[..it] + rest[it + 1..];
        assert rest[it..] == tail[1..];
      } else {
        assert rest[..it] + [rest[it]] == rest[..it + 1];
        it := it + 1;
      }
    }
    assert rest[..it] == rest;
  }

  /** Pushing down neither loses nor duplicates a condition. */
  lemma {:induction false} PushdownSplits(conds: seq<Condition>, table: string, d: Condition)
    ensures Count(Pushed(conds, table), d) + Count(Kept(conds, table), d) == Count(conds, d)
  {
    if conds != [] {
      PushdownSplits(conds[1..], table, d);
      var c, pushed, kept := conds[0], Pushed(conds[1..], table), Kept(conds[1..], table);
      CountCons(c, pushed, d);
      CountCons(c, kept, d);
      assert Pushed(conds, table) == if Pushable(c, table) then [c] + pushed else pushed;
      assert Kept(conds, table) == if Pushable(c, table) then kept else [c] + kept;
    }
  }

  lemma {:induction false} PushdownMembers(conds: seq<Condition>, table: string, c: Condition)
    ensures c in Pushed(conds, table) <==> c in conds && Pushable(c, table)
    ensures c in Kept(conds, table) <==> c in conds && !Pushable(c, table)
  {
    if conds != [] {
      PushdownMembers(conds[1..], table, c);
      assert conds == [conds[0]] + conds[1..];
    }
  }

  // ---- from a bound query to a plan over its tables ---------------------------

  lemma {:induction false} WaitingSnoc(scans: seq<Plan>, s: Plan, d: Condition)
    ensures PendingConds(Waiting(scans + [s]), d) == PendingConds(Waiting(scans), d) + CondCount(s, d)
  {
    var all := Waiting(scans + [s]);
    if scans == [] {
      assert all[1..] == [];
    } else {
      WaitingSnoc(scans[1..], s, d);
      assert all[0] == Some(scans[0]) && all[1..] == Waiting(scans[1..] + [s]);
      assert Waiting(scans)[1..] == Waiting(scans[1..]);
    }
  }

  /** What analysis guarantees: every condition speaks of tables in FROM. */
  ghost predicate Bound(conds: seq<Condition>, tables: seq<string>)
  {
    forall c :: c in conds ==> CondTables(c) <= ToSet(tables)
  }

  ghost predicate ScansIndexed(scans: seq<Plan>, catalog: Catalog)
  {
    forall s :: s in scans ==> IndexesBest(s, catalog)
  }

  /** Every scan uses the index the catalog offers for its conditions. */
  ghost predicate IndexesBest(p: Plan, catalog: Catalog)
  {
    match p
    case Scan(tab, conds, indexCols) => tab in catalog && IsBestIndex(tab, catalog[tab], conds, indexCols)
    case Join(_, l, r, _) => IndexesBest(l, catalog) && IndexesBest(r, catalog)
    case Sort(sub, _, _) => IndexesBest(sub, catalog)
  }

  /** The plan scans exactly the tables listed, as often as listed, each through its best index. */
  ghost predicate LeavesAre(p: Plan, tables: seq<string>, catalog: Catalog)
  {
    exists scans ::
      && ScansOf(tables, scans) && ScansIndexed(scans, catalog)
      && forall s :: ScanCount(p, s) == PendingScans(Waiting(scans), s)
  }

  /** The plan covers the tables, keeps every condition and puts each in its place. */
  ghost predicate PlanOf(p: Plan, tables: seq<string>, conds: seq<Condition>, catalog: Catalog)
  {
    && Tables(p) == ToSet(tables) && LeavesAre(p, tables, catalog) && (Distinct(tables) ==> DistinctLeaves(p))
    && Placed(p) && Conserved(AllConds(p), conds)
  }

  lemma {:induction false} WaitingHas(scans: seq<Plan>, s: Plan)
    requires PendingScans(Waiting(scans), s) > 0 && forall k :: 0 <= k < |scans| ==> scans[k].Scan?
    ensures s in scans
  {
    if scans != [] {
      assert Waiting(scans)[0] == Some(scans[0]) && Waiting(scans)[1..] == Waiting(scans[1..]);
      if scans[0] != s { WaitingHas(scans[1..], s); }
    }
  }

  /** A property of all scans that occur in a plan is a property of the plan. */
  lemma {:induction false} LeavesIndexed(p: Plan, scans: seq<Plan>, catalog: Catalog)
    requires ScansIndexed(scans, catalog) && forall s :: ScanCount(p, s) > 0 ==> s in scans
    ensures IndexesBest(p, catalog) && IndexUsable(p)
  {
    match p
    case Scan(_, _, _) =>
      assert ScanCount(p, p) == 1;
    case Join(_, l, r, _) =>
      assert forall s :: ScanCount(p, s) == ScanCount(l, s) + ScanCount(r, s);
      LeavesIndexed(l, scans, catalog);
      LeavesIndexed(r, scans, catalog);
    case Sort(sub, _, _) =>
      assert forall s :: ScanCount(p, s) == ScanCount(sub, s);
      LeavesIndexed(sub, scans, catalog);
  }

  lemma PlanIndexed(p: Plan, tables: seq<string>, catalog: Catalog)
    requires LeavesAre(p, tables, catalog)
    ensures IndexesBest(p, catalog) && IndexUsable(p)
  {
    var scans :| && ScansOf(tables, scans) && ScansIndexed(scans, catalog)
                 && forall s :: ScanCount(p, s) == PendingScans(Waiting(scans), s);
    forall s | ScanCount(p, s) > 0
      ensures s in scans
    {
      WaitingHas(scans, s);
    }
    LeavesIndexed(p, scans, catalog);
  }

  method MakeScanPlan(table: string, conds: seq<Condition>, catalog: Catalog) returns (r: Planned<Plan>)
    ensures r.Ok? <==> table in catalog
    ensures r.Ok? ==> r.value.Scan? && r.value.tab == table && r.value.conds == conds && IndexesBest(r.value, catalog)
  {
    if table !in catalog { return Err(TableNotFound); }
    var index := ChooseIndex(table, catalog[table], conds);
    return Ok(Scan(table, conds, index));
  }

  /** One table's share of the pushdown: its scan takes its conditions, the others remain. */
  lemma PushOne(conds: seq<Condition>, rest: seq<Condition>, scans: seq<Plan>, s: Plan)
    requires s.Scan? && s.conds == Pushed(rest, s.tab)
    requires forall d :: PendingConds(Waiting(scans), d) + Count(rest, d) == Count(conds, d)
    ensures forall d :: PendingConds(Waiting(scans + [s]), d) + Count(Kept(rest, s.tab), d) == Count(conds, d)
    ensures Placed(s)
    ensures forall c :: c in Kept(rest, s.tab) <==> c in rest && !Pushable(c, s.tab)
  {
    forall d
      ensures PendingConds(Waiting(scans + [s]), d) + Count(Kept(rest, s.tab), d) == Count(conds, d)
    {
      WaitingSnoc(scans, s, d);
      PushdownSplits(rest, s.tab, d);
    }
    forall c
      ensures c in s.conds ==> CondTables(c) == {s.tab}
      ensures c in Kept(rest, s.tab) <==> c in rest && !Pushable(c, s.tab)
    {
      PushdownMembers(rest, s.tab, c);
    }
  }

  method PushDown(tables: seq<string>, conds: seq<Condition>, catalog: Catalog)
    returns (scans: Planned<seq<Plan>>, rest: seq<Condition>)
    ensures scans.Ok? <==> forall t :: t in tables ==> t in catalog
    ensures scans.Ok? ==> ScansOf(tables, scans.value) && ScansIndexed(scans.value, catalog)
    ensures scans.Ok? ==> forall d :: PendingConds(Waiting(scans.value), d) + Count(rest, d) == Count(conds, d)
    ensures scans.Ok? ==> forall c :: c in rest <==> c in conds && forall t :: t in tables ==> !Pushable(c, t)
  {
    var plans: seq<Plan> := [];
    rest := conds;
    for i := 0 to |tables|
      invariant ScansOf(tables[..i], plans) && ScansIndexed(plans, catalog)
      invariant forall d :: PendingConds(Waiting(plans), d) + Count(rest, d) == Count(conds, d)
      invariant forall c :: c in rest <==> c in conds && forall t :: t in tables[..i] ==> !Pushable(c, t)
      invariant forall t :: t in tables[..i] ==> t in catalog
    {
      assert tables[..i + 1] == tables[..i] + [tables[i]];
      var taken, left := TakeTableConditions(rest, tables[i]);
      var scan := MakeScanPlan(tables[i], taken, catalog);
      if scan.Err? { return Err(scan.error), rest; }
      PushOne(conds, rest, plans, scan.value);
      plans, rest := plans + [scan.value], left;
    }
    assert tables[..|tables|] == tables;
    return Ok(plans), rest;
  }

  method BuildFromPlan(tables: seq<string>, conds: seq<Condition>, catalog: Catalog) returns (r: Planned<Plan>)
    ensures r.Ok? <==> tables != [] && (forall t :: t in tables ==> t in catalog) && (|tables| == 1 || Bound(conds, tables))
    ensures r.Ok? ==> JoinShape(r.value)
    ensures r.Ok? && Bound(conds, tables) ==> PlanOf(r.value, tables, conds, catalog)
  {
    if tables == [] { return Err(InternalError); }
    var scans, rest := PushDown(tables, conds, catalog);
    if scans.Err? { return Err(scans.error); }
    LeftForJoins(tables, conds, rest);
    if |tables| == 1 {
      if Bound(conds, tables) {
        SingleScan(tables, scans.value, conds, rest, catalog);
      }
      return Ok(scans.value[0]);
    }
    r := BuildJoinTree(tables, scans.value, rest);
    if r.Ok? {
      TreeIsPlan(r.value, tables, scans.value, conds, rest, catalog);
    }
  }

  /** After pushdown, the conditions left over are join conditions exactly when the query is bound. */
  lemma LeftForJoins(tables: seq<string>, conds: seq<Condition>, rest: seq<Condition>)
    requires forall c :: c in rest <==> c in conds && forall t :: t in tables ==> !Pushable(c, t)
    ensures Bound(conds, tables) <==> forall c :: c in rest ==> JoinCondition(c, tables)
    ensures |tables| == 1 && Bound(conds, tables) ==> forall c :: c !in rest
  {
    forall c | c in conds
      ensures CondTables(c) <= ToSet(tables) <==> (c in rest ==> JoinCondition(c, tables))
    {
      assert c.lhs.tab in CondTables(c);
      if c in rest {
        assert c.lhs.tab in tables ==> !Pushable(c, c.lhs.tab);
      } else {
        var t :| t in tables && Pushable(c, t);
        assert CondTables(c) == {t};
      }
    }
    if |tables| == 1 && Bound(conds, tables) {
      forall c | c in conds
        ensures c !in rest
      {
        assert CondTables(c) <= ToSet(tables) == {tables[0]};
        assert Pushable(c, tables[0]);
      }
    }
  }

  lemma SingleScan(tables: seq<string>, scans: seq<Plan>, conds: seq<Condition>, rest: seq<Condition>, catalog: Catalog)
    requires |tables| == 1 && ScansOf(tables, scans) && ScansIndexed(scans, catalog) && forall c :: c !in rest
    requires forall d :: PendingConds(Waiting(scans), d) + Count(rest, d) == Count(conds, d)
    ensures PlanOf(scans[0], tables, conds, catalog)
  {
    var p := scans[0];
    assert Waiting(scans) == [Some(p)] && [Some(p)][1..] == [];
    forall d ensures Count(AllConds(p), d) == Count(conds, d) {
      assert PendingConds(Waiting(scans), d) == CondCount(p, d);
      CountPositive(rest, d);
    }
    assert forall s :: ScanCount(p, s) == PendingScans(Waiting(scans), s);
    assert tables == [tables[0]] && ToSet(tables) == {tables[0]};
  }

  lemma TreeIsPlan(p: Plan, tables: seq<string>, scans: seq<Plan>, conds: seq<Condition>, rest: seq<Condition>, catalog: Catalog)
    requires ScansOf(tables, scans) && ScansIndexed(scans, catalog) && JoinTreeOf(p, tables, scans, rest)
    requires forall d :: PendingConds(Waiting(scans), d) + Count(rest, d) == Count(conds, d)
    ensures PlanOf(p, tables, conds, catalog)
  {
    forall d ensures Count(AllConds(p), d) == Count(conds, d) {
      CondCountIsCount(p, d);
    }
  }

  // ---- choosing the join algorithm -------------------------------------------

  predicate IsEquality(c: Condition)
  {
    c.rhs.Col? && c.op == EQ
  }

  /** The position of the first column equality, or the length when there is none. */
  function FirstEquality(conds: seq<Condition>): (n: nat)
    ensures n <= |conds|
    ensures forall i :: 0 <= i < n ==> !IsEquality(conds[i])
    ensures n < |conds| ==> IsEquality(conds[n])
  {
    if conds == [] || IsEquality(conds[0]) then 0 else 1 + FirstEquality(conds[1..])
  }

  /** The chosen condition moves to the front, the others keep their order. */
  function RotateToFront(conds: seq<Condition>, n: nat): seq<Condition>
    requires n < |conds|
  {
    [conds[n]] + conds[..n] + conds[n + 1..]
  }

  function ChooseJoin(p: Plan, enableSortMerge: bool): Plan
  {
    if !p.Join? then p
    else
      var left, right := ChooseJoin(p.left, enableSortMerge), ChooseJoin(p.right, enableSortMerge);
      var n := FirstEquality(p.conds);
      if !enableSortMerge || n == |p.conds| then Join(p.tag, left, right, p.conds)
      else
        var key := p.conds[n];
        Join(SortMerge, Sort(left, key.lhs, false), Sort(right, key.rhs.col, false), RotateToFront(p.conds, n))
  }

  lemma RotateCounts(conds: seq<Condition>, n: nat, d: Condition)
    requires n < |conds|
    ensures Count(RotateToFront(conds, n), d) == Count(conds, d)
  {
    assert conds == conds[..n] + ([conds[n]] + conds[n + 1..]);
    CountConcat(conds[..n], [conds[n]] + conds[n + 1..], d);
    CountConcat([conds[n]], conds[n + 1..], d);
    CountConcat([conds[n]] + conds[..n], conds[n + 1..], d);
    CountConcat([conds[n]], conds[..n], d);
  }

  lemma {:induction false} ChooseJoinCounts(p: Plan, on: bool, d: Condition)
    requires JoinShape(p)
    ensures CondCount(ChooseJoin(p, on), d) == CondCount(p, d)
  {
    if p.Join? {
      ChooseJoinCounts(p.left, on, d);
      ChooseJoinCounts(p.right, on, d);
      var n := FirstEquality(p.conds);
      if n < |p.conds| { RotateCounts(p.conds, n, d); }
    }
  }

  lemma {:induction false} ChooseJoinScans(p: Plan, on: bool, s: Plan)
    requires JoinShape(p)
    ensures ScanCount(ChooseJoin(p, on), s) == ScanCount(p, s)
  {
    if p.Join? {
      ChooseJoinScans(p.left, on, s);
      ChooseJoinScans(p.right, on, s);
    }
  }

  lemma {:induction false} ChooseJoinShape(p: Plan, on: bool)
    requires JoinShape(p)
    ensures var q := ChooseJoin(p, on);
      Tables(q) == Tables(p) && DistinctLeaves(q) == DistinctLeaves(p)
  {
    if p.Join? {
      ChooseJoinShape(p.left, on);
      ChooseJoinShape(p.right, on);
    }
  }

  /** Each merge join gets a column equality first and both inputs sorted on its two sides. */
  lemma {:induction false} ChooseJoinReady(p: Plan, on: bool)
    requires JoinShape(p) && Placed(p)
    ensures Placed(ChooseJoin(p, on)) && MergeReady(ChooseJoin(p, on))
  {
    if p.Join? {
      ChooseJoinReady(p.left, on);
      ChooseJoinReady(p.right, on);
      ChooseJoinShape(p.left, on);
      ChooseJoinShape(p.right, on);
      var n := FirstEquality(p.conds);
      if n < |p.conds| {
        assert p.conds[n] in p.conds;
        assert forall c :: c in RotateToFront(p.conds, n) ==> c in p.conds;
      }
    }
  }

  /** A join is a merge join exactly when the switch is on and it has a column equality. */
  ghost predicate AlgorithmsFit(p: Plan, on: bool)
  {
    match p
    case Scan(_, _, _) => true
    case Join(tag, l, r, conds) =>
      && AlgorithmsFit(l, on) && AlgorithmsFit(r, on)
      && (tag.SortMerge? <==> on && exists c :: c in conds && IsEquality(c))
    case Sort(sub, _, _) => AlgorithmsFit(sub, on)
  }

  lemma {:induction false} ChooseJoinFits(p: Plan, on: bool)
    requires JoinShape(p)
    ensures AlgorithmsFit(ChooseJoin(p, on), on)
  {
    if p.Join? {
      ChooseJoinFits(p.left, on);
      ChooseJoinFits(p.right, on);
      var n := FirstEquality(p.conds);
      if on && n < |p.conds| {
        assert p.conds[n] in RotateToFront(p.conds, n);
      } else if n == |p.conds| {
        assert forall c :: c in p.conds ==> !IsEquality(c);
      }
    }
  }

  lemma ChooseJoinKeepsPlan(p: Plan, on: bool, tables: seq<string>, conds: seq<Condition>, catalog: Catalog)
    requires JoinShape(p) && PlanOf(p, tables, conds, catalog)
    ensures PlanOf(ChooseJoin(p, on), tables, conds, catalog) && MergeReady(ChooseJoin(p, on))
  {
    var q := ChooseJoin(p, on);
    ChooseJoinShape(p, on);
    ChooseJoinReady(p, on);
    forall d ensures Count(AllConds(q), d) == Count(conds, d) {
      ChooseJoinCounts(p, on, d);
      CondCountIsCount(p, d);
      CondCountIsCount(q, d);
    }
    var scans :| && ScansOf(tables, scans) && ScansIndexed(scans, catalog)
                 && forall s :: ScanCount(p, s) == PendingScans(Waiting(scans), s);
    forall s ensures ScanCount(q, s) == PendingScans(Waiting(scans), s) {
      ChooseJoinScans(p, on, s);
    }
  }

  // ---- the whole SELECT ----------------------------------------------------------

  datatype OrderBy = OrderBy(col: TabCol, desc: bool)
  datatype SelectQuery = SelectQuery(tables: seq<string>, conds: seq<Condition>, cols: seq<TabCol>, order: Option<OrderBy>)
  datatype SelectPlan = SelectPlan(root: Plan, cols: seq<TabCol>)

  function ProjectRow(e: Env, cols: seq<TabCol>, db: Database): seq<Value>
  {
    seq(|cols|, i requires 0 <= i < |cols| => Cell(db, e, cols[i]))
  }

  function Project(rows: seq<Env>, cols: seq<TabCol>, db: Database): seq<seq<Value>>
  {
    seq(|rows|, i requires 0 <= i < |rows| => ProjectRow(rows[i], cols, db))
  }

  /** v is what the table's record holds in the column, where the row has such a record. */
  ghost predicate StoredValue(db: Database, e: Env, c: TabCol, v: Value)
  {
    c.tab in e && c.tab in db && e[c.tab] < |db[c.tab]| && c.col in db[c.tab][e[c.tab]] ==> v == db[c.tab][e[c.tab]][c.col]
  }

  /** One line for each row, holding the row's value of each selected column. */
  ghost predicate ListsColumns(out: seq<seq<Value>>, rows: seq<Env>, cols: seq<TabCol>, db: Database)
  {
    && |out| == |rows|
    && forall i :: 0 <= i < |rows| ==>
         |out[i]| == |cols| && forall j :: 0 <= j < |cols| ==>
           out[i][j] == Cell(db, rows[i], cols[j]) && StoredValue(db, rows[i], cols[j], out[i][j])
  }

  lemma ProjectExact(out: seq<seq<Value>>, rows: seq<Env>, cols: seq<TabCol>, db: Database)
    ensures out == Project(rows, cols, db) <==> ListsColumns(out, rows, cols, db)
  {
    if ListsColumns(out, rows, cols, db) {
      forall i | 0 <= i < |rows| ensures out[i] == ProjectRow(rows[i], cols, db) {}
    }
  }

  ghost predicate SelectProduces(p: SelectPlan, db: Database, out: seq<seq<Value>>)
  {
    exists rows :: Produces(p.root, db, rows) && out == Project(rows, p.cols, db)
  }

  ghost predicate CanRun(p: SelectPlan, db: Database)
  {
    exists out :: SelectProduces(p, db, out)
  }

  /** out lists the selected columns of every row of the filtered cross product, once each, in ORDER BY order. */
  ghost predicate Answers(q: SelectQuery, db: Database, out: seq<seq<Value>>)
  {
    exists rows ::
      && multiset(rows) == multiset(Reference(q.tables, q.conds, db))
      && (q.order.Some? ==> Sorted(rows, q.order.value.col, q.order.value.desc, db))
      && ListsColumns(out, rows, q.cols, db)
  }

  function AddOrder(p: Plan, order: Option<OrderBy>): Plan
  {
    if order.None? then p else Sort(p, order.value.col, order.value.desc)
  }

  lemma {:induction false} AddOrderKeepsPlan(p: Plan, order: Option<OrderBy>, tables: seq<string>, conds: seq<Condition>, catalog: Catalog)
    requires PlanOf(p, tables, conds, catalog) && MergeReady(p)
    ensures PlanOf(AddOrder(p, order), tables, conds, catalog) && MergeReady(AddOrder(p, order))
  {
    if order.Some? {
      var scans :| && ScansOf(tables, scans) && ScansIndexed(scans, catalog)
                   && forall s :: ScanCount(p, s) == PendingScans(Waiting(scans), s);
      assert forall s :: ScanCount(AddOrder(p, order), s) == PendingScans(Waiting(scans), s);
    }
  }

  /** Whatever the plan's operators deliver under their contracts answers the query. */
  lemma PlanAnswers(q: SelectQuery, p: Plan, catalog: Catalog, db: Database, out: seq<seq<Value>>)
    requires Distinct(q.tables) && PlanOf(AddOrder(p, q.order), q.tables, q.conds, catalog) && MergeReady(AddOrder(p, q.order))
    requires SelectProduces(SelectPlan(AddOrder(p, q.order), q.cols), db, out)
    ensures Answers(q, db, out)
  {
    var root := AddOrder(p, q.order);
    var rows :| Produces(root, db, rows) && out == Project(rows, q.cols, db);
    ProjectExact(out, rows, q.cols, db);
    PlacedIsScoped(root);
    PlanIndexed(root, q.tables, catalog);
    PlanMeaning(root, db, rows);
    ReferenceIsBagOf(q.tables, q.conds, db);
    SameBag(rows, Reference(q.tables, q.conds, db), ToSet(q.tables), AllConds(root), q.conds, db);
  }

  /** The root is a join tree of the query, with join algorithms chosen and the ORDER BY sort on top. */
  ghost predicate PlanShape(root: Plan, q: SelectQuery, catalog: Catalog, on: bool)
  {
    exists base :: && JoinShape(base) && PlanOf(base, q.tables, q.conds, catalog)
                   && root == AddOrder(ChooseJoin(base, on), q.order)
  }

  method PlanSelect(q: SelectQuery, catalog: Catalog, enableSortMerge: bool) returns (r: Planned<SelectPlan>)
    ensures r.Ok? <==>
      q.tables != [] && (forall t :: t in q.tables ==> t in catalog) && (|q.tables| == 1 || Bound(q.conds, q.tables))
    ensures r.Ok? && Bound(q.conds, q.tables) ==>
      && PlanOf(r.value.root, q.tables, q.conds, catalog) && MergeReady(r.value.root) && r.value.cols == q.cols
      && PlanShape(r.value.root, q, catalog, enableSortMerge)
    ensures r.Ok? ==> AlgorithmsFit(r.value.root, enableSortMerge)
    ensures r.Ok? && Bound(q.conds, q.tables) ==> forall db :: CanRun(r.value, db)
    ensures r.Ok? && Bound(q.conds, q.tables) && Distinct(q.tables) ==>
      forall db, out :: SelectProduces(r.value, db, out) ==> Answers(q, db, out)
  {
    var from := BuildFromPlan(q.tables, q.conds, catalog);
    if from.Err? { return Err(from.error); }
    var joined := ChooseJoin(from.value, enableSortMerge);
    ChooseJoinFits(from.value, enableSortMerge);
    var root := AddOrder(joined, q.order);
    r := Ok(SelectPlan(root, q.cols));
    if Bound(q.conds, q.tables) {
      ChooseJoinKeepsPlan(from.value, enableSortMerge, q.tables, q.conds, catalog);
      AddOrderKeepsPlan(joined, q.order, q.tables, q.conds, catalog);
      forall db ensures CanRun(r.value, db) {
        var rows := PlanRuns(root, db);
        assert SelectProduces(r.value, db, Project(rows, q.cols, db));
      }
      if Distinct(q.tables) {
        forall db, out | SelectProduces(r.value, db, out)
          ensures Answers(q, db, out)
        {
          PlanAnswers(q, joined, catalog, db, out);
        }
      }
    }
  }
}
