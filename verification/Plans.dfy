/**
  Plan trees and what they denote.

  Produces(p, db, rows) holds when the operators of p, each keeping its documented
  contract, may deliver exactly the list rows on db.  The order in which a scan or a
  nested loop delivers rows is left open; a sort-merge join runs the documented
  two-cursor merge, which is only right when its inputs happen to be sorted.
 */
module Plans {
  import opened Basics
  import opened Query
  import opened Joins

  datatype JoinTag = NestLoop | SortMerge

  /** A scan with no index columns is sequential; otherwise it looks up one index key. */
  datatype Plan =
    | Scan(tab: string, conds: seq<Condition>, indexCols: seq<string>)
    | Join(tag: JoinTag, left: Plan, right: Plan, conds: seq<Condition>)
    | Sort(sub: Plan, key: TabCol, desc: bool)

  function Tables(p: Plan): set<string>
  {
    match p
    case Scan(tab, _, _) => {tab}
    case Join(_, l, r, _) => Tables(l) + Tables(r)
    case Sort(sub, _, _) => Tables(sub)
  }

  /** Every condition that sits anywhere in the plan. */
  function AllConds(p: Plan): seq<Condition>
  {
    match p
    case Scan(_, conds, _) => conds
    case Join(_, l, r, conds) => AllConds(l) + AllConds(r) + conds
    case Sort(sub, _, _) => AllConds(sub)
  }

  /** No table is scanned twice. */
  predicate DistinctLeaves(p: Plan)
  {
    match p
    case Scan(_, _, _) => true
    case Join(_, l, r, _) => Tables(l) !! Tables(r) && DistinctLeaves(l) && DistinctLeaves(r)
    case Sort(sub, _, _) => DistinctLeaves(sub)
  }

  // ---- denotation -------------------------------------------------------

  /** The first literal a column of a table is equated with. */
  function KeyLiteral(conds: seq<Condition>, tab: string, col: string): (r: Option<Value>)
    ensures r.Some? ==> Condition(TabCol(tab, col), EQ, Val(r.value)) in conds
    ensures r.None? ==> forall v :: Condition(TabCol(tab, col), EQ, Val(v)) !in conds
  {
    if conds == [] then None
    else if conds[0].lhs == TabCol(tab, col) && conds[0].op == EQ && conds[0].rhs.Val? then Some(conds[0].rhs.value)
    else KeyLiteral(conds[1..], tab, col)
  }

  /** The record's index key compares equal to the key built from the literals. */
  predicate KeyMatches(tab: string, conds: seq<Condition>, indexCols: seq<string>, db: Database, e: Env)
  {
    forall k :: k in indexCols ==>
      var lit := KeyLiteral(conds, tab, k);
      lit.Some? && Compare(Cell(db, e, TabCol(tab, k)), lit.value) == 0
  }

  /** rows holds each row over ts that satisfies conds exactly once, and nothing else. */
  ghost predicate IsBagOf(rows: seq<Env>, ts: set<string>, conds: seq<Condition>, db: Database)
  {
    forall e: Env :: multiset(rows)[e] == if Fits(e, ts, db) && Holds(conds, db, e) then 1 else 0
  }

  /** A scan keeps the records that satisfy its conditions; an index scan only sees those under one key. */
  predicate Selects(p: Plan, db: Database, e: Env)
    requires p.Scan?
  {
    Holds(p.conds, db, e) && KeyMatches(p.tab, p.conds, p.indexCols, db, e)
  }

  ghost predicate ScanProduces(p: Plan, db: Database, rows: seq<Env>)
    requires p.Scan?
  {
    forall e: Env :: multiset(rows)[e] == (if Fits(e, {p.tab}, db) && Selects(p, db, e) then 1 else 0)
  }

  ghost predicate JoinProduces(p: Plan, l: seq<Env>, r: seq<Env>, db: Database, rows: seq<Env>)
    requires p.Join?
  {
    match p.tag
    case NestLoop => multiset(rows) == multiset(NestedLoop(l, r, p.conds, db))
    case SortMerge =>
      p.conds != [] && p.conds[0].rhs.Col? && p.conds[0].op == EQ &&
      rows == MergeJoin(l, r, p.conds[0].lhs, p.conds[0].rhs.col, p.conds[1..], db)
  }

  ghost predicate Produces(p: Plan, db: Database, rows: seq<Env>)
    decreases p
  {
    match p
    case Scan(_, _, _) => ScanProduces(p, db, rows)
    case Join(_, left, right, _) =>
      exists l, r :: Produces(left, db, l) && Produces(right, db, r) && JoinProduces(p, l, r, db, rows)
    case Sort(sub, key, desc) =>
      exists inner :: Produces(sub, db, inner) && multiset(rows) == multiset(inner) && Sorted(rows, key, desc, db)
  }

  // ---- when a plan is well formed ----------------------------------------

  /** Conditions stay where their columns are visible. */
  predicate Scoped(p: Plan)
  {
    match p
    case Scan(tab, conds, _) => forall c :: c in conds ==> CondTables(c) == {tab}
    case Join(_, l, r, conds) => Scoped(l) && Scoped(r) && forall c :: c in conds ==> CondTables(c) <= Tables(p)
    case Sort(sub, _, _) => Scoped(sub)
  }

  /** Every column of a scan's index is equated with a literal by the scan's own conditions. */
  predicate IndexUsable(p: Plan)
  {
    match p
    case Scan(tab, conds, indexCols) => forall k :: k in indexCols ==> KeyLiteral(conds, tab, k).Some?
    case Join(_, l, r, _) => IndexUsable(l) && IndexUsable(r)
    case Sort(sub, _, _) => IndexUsable(sub)
  }

  /** The first condition of a sort-merge join is a column equality and both children are sorted on it. */
  predicate MergeReady(p: Plan)
  {
    match p
    case Scan(_, _, _) => true
    case Join(tag, l, r, conds) =>
      && MergeReady(l) && MergeReady(r)
      && (tag.SortMerge? ==>
            && conds != [] && conds[0].op == EQ && conds[0].rhs.Col?
            && l.Sort? && l.key == conds[0].lhs && !l.desc && l.key.tab in Tables(l)
            && r.Sort? && r.key == conds[0].rhs.col && !r.desc && r.key.tab in Tables(r))
    case Sort(sub, _, _) => MergeReady(sub)
  }

  // ---- counting ----------------------------------------------------------

  function Restrict(e: Env, ts: set<string>): Env
  {
    map t | t in e && t in ts :: e[t]
  }

  lemma RestrictUnion(a: Env, b: Env, e: Env, ts: set<string>, us: set<string>)
    requires a.Keys == ts && b.Keys == us && ts !! us && e.Keys == ts + us
    ensures e == a + b <==> Restrict(e, ts) == a && Restrict(e, us) == b
  {
    if Restrict(e, ts) == a && Restrict(e, us) == b {
      forall t | t in e.Keys
        ensures e[t] == (a + b)[t]
      {
        if t in us { assert e[t] == Restrict(e, us)[t]; } else { assert e[t] == Restrict(e, ts)[t]; }
      }
      assert e == a + b;
    }
    if e == a + b {
      assert Restrict(e, ts) == a;
      assert Restrict(e, us) == b;
    }
  }

  lemma HeadCount<T>(s: seq<T>, x: T)
    requires s != []
    ensures multiset(s)[x] == (if s[0] == x then 1 else 0) + multiset(s[1..])[x]
  {
    assert s == [s[0]] + s[1..];
  }

  lemma TimesSucc(k: nat, n: nat)
    ensures (1 + k) * n == n + k * n
  {}

  lemma {:induction false} PairsCount(a: Env, r: seq<Env>, ts: set<string>, us: set<string>, conds: seq<Condition>, db: Database, e: Env)
    requires a.Keys == ts && ts !! us && forall b :: b in r ==> b.Keys == us
    ensures multiset(Pairs(a, r, conds, db))[e]
         == if e.Keys == ts + us && Restrict(e, ts) == a && Holds(conds, db, e) then multiset(r)[Restrict(e, us)] else 0
  {
    if r != [] {
      assert r[0] in r;
      PairCount(a, r[0], ts, us, conds, db, e);
      PairsCount(a, r[1..], ts, us, conds, db, e);
      HeadCount(r, Restrict(e, us));
      hide Pair, Restrict, Holds;
    }
  }

  lemma PairCount(a: Env, b: Env, ts: set<string>, us: set<string>, conds: seq<Condition>, db: Database, e: Env)
    requires a.Keys == ts && b.Keys == us && ts !! us
    ensures multiset(Pair(a, b, conds, db))[e]
         == if e.Keys == ts + us && Restrict(e, ts) == a && Restrict(e, us) == b && Holds(conds, db, e) then 1 else 0
  {
    hide Holds;
    assert (a + b).Keys == ts + us;
    if e.Keys == ts + us {
      RestrictUnion(a, b, e, ts, us);
    }
  }

  /** The multiplicity of a joined row is the product of the multiplicities of its halves. */
  lemma {:induction false} NestedLoopCount(l: seq<Env>, r: seq<Env>, ts: set<string>, us: set<string>, conds: seq<Condition>, db: Database, e: Env)
    requires ts !! us && (forall a :: a in l ==> a.Keys == ts) && (forall b :: b in r ==> b.Keys == us)
    ensures multiset(NestedLoop(l, r, conds, db))[e]
         == if e.Keys == ts + us && Holds(conds, db, e)
            then multiset(l)[Restrict(e, ts)] * multiset(r)[Restrict(e, us)] else 0
  {
    if l != [] {
      assert l[0] in l;
      PairsCount(l[0], r, ts, us, conds, db, e);
      NestedLoopCount(l[1..], r, ts, us, conds, db, e);
      HeadCount(l, Restrict(e, ts));
      TimesSucc(multiset(l[1..])[Restrict(e, ts)], multiset(r)[Restrict(e, us)]);
      assert multiset(NestedLoop(l, r, conds, db))[e]
          == multiset(Pairs(l[0], r, conds, db))[e] + multiset(NestedLoop(l[1..], r, conds, db))[e];
    }
  }

  lemma BagKeys(rows: seq<Env>, ts: set<string>, conds: seq<Condition>, db: Database)
    requires IsBagOf(rows, ts, conds, db)
    ensures forall e :: e in rows ==> e.Keys == ts
  {
    forall e | e in rows
      ensures e.Keys == ts
    {
      assert multiset(rows)[e] > 0;
    }
  }

  lemma JoinIsBagOf(l: seq<Env>, r: seq<Env>, ts: set<string>, us: set<string>,
                    lconds: seq<Condition>, rconds: seq<Condition>, conds: seq<Condition>, db: Database)
    requires ts !! us && IsBagOf(l, ts, lconds, db) && IsBagOf(r, us, rconds, db)
    requires forall c :: c in lconds ==> CondTables(c) <= ts
    requires forall c :: c in rconds ==> CondTables(c) <= us
    ensures IsBagOf(NestedLoop(l, r, conds, db), ts + us, lconds + rconds + conds, db)
  {
    BagKeys(l, ts, lconds, db);
    BagKeys(r, us, rconds, db);
    forall e: Env
      ensures multiset(NestedLoop(l, r, conds, db))[e]
           == if Fits(e, ts + us, db) && Holds(lconds + rconds + conds, db, e) then 1 else 0
    {
      NestedLoopCount(l, r, ts, us, conds, db, e);
      if e.Keys == ts + us {
        HoldsParts(lconds, rconds, conds, db, e);
        HoldsAgrees(lconds, db, e, Restrict(e, ts));
        HoldsAgrees(rconds, db, e, Restrict(e, us));
        FitsParts(e, ts, us, db);
      }
    }
  }

  lemma HoldsParts(a: seq<Condition>, b: seq<Condition>, c: seq<Condition>, db: Database, e: Env)
    ensures Holds(a + b + c, db, e) <==> Holds(a, db, e) && Holds(b, db, e) && Holds(c, db, e)
  {
    assert forall d :: d in a + b + c <==> d in a || d in b || d in c;
  }

  lemma FitsParts(e: Env, ts: set<string>, us: set<string>, db: Database)
    requires e.Keys == ts + us
    ensures Fits(e, ts + us, db) <==> Fits(Restrict(e, ts), ts, db) && Fits(Restrict(e, us), us, db)
  {
    assert Restrict(e, ts).Keys == ts && Restrict(e, us).Keys == us;
    if Fits(Restrict(e, ts), ts, db) && Fits(Restrict(e, us), us, db) {
      forall t | t in ts + us
        ensures e[t] < Size(db, t)
      {
        if t in ts { assert e[t] == Restrict(e, ts)[t]; } else { assert e[t] == Restrict(e, us)[t]; }
      }
    }
  }

  // ---- the meaning of a plan -----------------------------------------------

  lemma {:induction false} ScopedConds(p: Plan)
    requires Scoped(p)
    ensures forall c :: c in AllConds(p) ==> CondTables(c) <= Tables(p)
  {
    match p
    case Scan(_, _, _) =>
    case Join(_, l, r, _) =>
      ScopedConds(l);
      ScopedConds(r);
    case Sort(sub, _, _) =>
      ScopedConds(sub);
  }

  /** An equality literal on every index column makes the index lookup complete. */
  lemma IndexLookupLosesNothing(p: Plan, db: Database, e: Env)
    requires p.Scan? && IndexUsable(p) && Holds(p.conds, db, e)
    ensures KeyMatches(p.tab, p.conds, p.indexCols, db, e)
  {
    forall k | k in p.indexCols
      ensures var lit := KeyLiteral(p.conds, p.tab, k);
        lit.Some? && Compare(Cell(db, e, TabCol(p.tab, k)), lit.value) == 0
    {
      var lit := KeyLiteral(p.conds, p.tab, k);
      var c := Condition(TabCol(p.tab, k), EQ, Val(lit.value));
      assert c in p.conds && Satisfies(c, db, e);
    }
  }

  /** Whatever a well-formed plan delivers is the filtered cross product of its tables, as a bag. */
  lemma {:induction false} PlanMeaning(p: Plan, db: Database, rows: seq<Env>)
    requires DistinctLeaves(p) && Scoped(p) && IndexUsable(p) && MergeReady(p)
    requires Produces(p, db, rows)
    ensures IsBagOf(rows, Tables(p), AllConds(p), db)
  {
    match p
    case Scan(_, _, _) =>
      forall e: Env
        ensures multiset(rows)[e] == if Fits(e, Tables(p), db) && Holds(AllConds(p), db, e) then 1 else 0
      {
        if Holds(p.conds, db, e) { IndexLookupLosesNothing(p, db, e); }
      }
    case Join(_, left, right, conds) =>
      var l, r :| Produces(left, db, l) && Produces(right, db, r) && JoinProduces(p, l, r, db, rows);
      PlanMeaning(left, db, l);
      PlanMeaning(right, db, r);
      ScopedConds(left);
      ScopedConds(right);
      JoinIsBagOf(l, r, Tables(left), Tables(right), AllConds(left), AllConds(right), conds, db);
      if p.tag.SortMerge? {
        BagKeys(l, Tables(left), AllConds(left), db);
        BagKeys(r, Tables(right), AllConds(right), db);
        SortMergeIsNestedLoop(p, l, r, db, rows);
      }
      assert multiset(rows) == multiset(NestedLoop(l, r, conds, db));
    case Sort(sub, key, desc) =>
      var inner :| Produces(sub, db, inner) && multiset(rows) == multiset(inner) && Sorted(rows, key, desc, db);
      PlanMeaning(sub, db, inner);
  }

  /** The sorts below a sort-merge join are what makes the merge complete. */
  lemma SortMergeIsNestedLoop(p: Plan, l: seq<Env>, r: seq<Env>, db: Database, rows: seq<Env>)
    requires p.Join? && p.tag.SortMerge? && MergeReady(p) && DistinctLeaves(p)
    requires Produces(p.left, db, l) && Produces(p.right, db, r) && JoinProduces(p, l, r, db, rows)
    requires (forall a :: a in l ==> a.Keys == Tables(p.left)) && (forall b :: b in r ==> b.Keys == Tables(p.right))
    ensures multiset(rows) == multiset(NestedLoop(l, r, p.conds, db))
  {
    var lkey, rkey := p.conds[0].lhs, p.conds[0].rhs.col;
    assert Joinable(l, r, lkey, rkey);
    assert p.conds == [Condition(lkey, EQ, Col(rkey))] + p.conds[1..];
    MergeJoinIsNestedLoop(l, r, lkey, rkey, p.conds[1..], db);
  }

  // ---- the reference answer --------------------------------------------------

  function Row(tab: string, i: nat): Env
  {
    map[tab := i]
  }

  function Records(tab: string, n: nat): seq<Env>
  {
    if n == 0 then [] else Records(tab, n - 1) + [Row(tab, n - 1)]
  }

  /** The cross product of the tables, in FROM order. */
  function Cross(tables: seq<string>, db: Database): seq<Env>
  {
    if tables == [] then [map[]]
    else NestedLoop(Records(tables[0], Size(db, tables[0])), Cross(tables[1..], db), [], db)
  }

  function Filter(rows: seq<Env>, conds: seq<Condition>, db: Database): seq<Env>
  {
    if rows == [] then []
    else (if Holds(conds, db, rows[0]) then [rows[0]] else []) + Filter(rows[1..], conds, db)
  }

  /** What the SELECT asks for: every combination of records that satisfies the whole WHERE clause. */
  function Reference(tables: seq<string>, conds: seq<Condition>, db: Database): seq<Env>
  {
    Filter(Cross(tables, db), conds, db)
  }

  function ToSet<T>(s: seq<T>): set<T>
  {
    set x | x in s
  }

  lemma SingleRow(tab: string, i: nat, e: Env)
    ensures e == Row(tab, i) <==> e.Keys == {tab} && e[tab] == i
  {
    assert Row(tab, i).Keys == {tab} && Row(tab, i)[tab] == i;
  }

  lemma LastCount<T>(s: seq<T>, x: T, y: T)
    ensures multiset(s + [x])[y] == multiset(s)[y] + (if x == y then 1 else 0)
  {}

  predicate OneOf(e: Env, tab: string, n: nat)
  {
    e.Keys == {tab} && e[tab] < n
  }

  lemma {:induction false} RecordsCount(tab: string, n: nat, e: Env)
    ensures multiset(Records(tab, n))[e] == if OneOf(e, tab, n) then 1 else 0
  {
    if n == 0 {
      assert Records(tab, n) == [];
    } else {
      var front, row := Records(tab, n - 1), Row(tab, n - 1);
      RecordsCount(tab, n - 1, e);
      SingleRow(tab, n - 1, e);
      LastCount(front, row, e);
      assert Records(tab, n) == front + [row];
      assert OneOf(e, tab, n) <==> OneOf(e, tab, n - 1) || e == row;
    }
  }

  lemma RecordsIsBagOf(tab: string, db: Database)
    ensures IsBagOf(Records(tab, Size(db, tab)), {tab}, [], db)
  {
    forall e: Env
      ensures multiset(Records(tab, Size(db, tab)))[e] == if Fits(e, {tab}, db) && Holds([], db, e) then 1 else 0
    {
      RecordsCount(tab, Size(db, tab), e);
    }
  }

  lemma {:induction false} CrossIsBagOf(tables: seq<string>, db: Database)
    requires Distinct(tables)
    ensures IsBagOf(Cross(tables, db), ToSet(tables), [], db)
  {
    if tables == [] {
      forall e: Env
        ensures multiset(Cross(tables, db))[e] == if Fits(e, {}, db) && Holds([], db, e) then 1 else 0
      {
        if e.Keys == {} { assert e == map[]; }
      }
    } else {
      CrossIsBagOf(tables[1..], db);
      RecordsIsBagOf(tables[0], db);
      assert tables == [tables[0]] + tables[1..];
      assert ToSet(tables) == {tables[0]} + ToSet(tables[1..]);
      var none: seq<Condition> := [];
      JoinIsBagOf(Records(tables[0], Size(db, tables[0])), Cross(tables[1..], db), {tables[0]}, ToSet(tables[1..]), none, none, none, db);
      assert none + none + none == none;
    }
  }

  lemma {:induction false} FilterCount(rows: seq<Env>, conds: seq<Condition>, db: Database, e: Env)
    ensures multiset(Filter(rows, conds, db))[e] == if Holds(conds, db, e) then multiset(rows)[e] else 0
  {
    if rows != [] {
      assert rows == [rows[0]] + rows[1..];
      FilterCount(rows[1..], conds, db, e);
    }
  }

  lemma ReferenceIsBagOf(tables: seq<string>, conds: seq<Condition>, db: Database)
    requires Distinct(tables)
    ensures IsBagOf(Reference(tables, conds, db), ToSet(tables), conds, db)
  {
    CrossIsBagOf(tables, db);
    forall e: Env
      ensures multiset(Reference(tables, conds, db))[e]
           == if Fits(e, ToSet(tables), db) && Holds(conds, db, e) then 1 else 0
    {
      FilterCount(Cross(tables, db), conds, db, e);
    }
  }

  /** Two plans, or a plan and the reference, that agree on tables and conditions deliver one bag. */
  lemma SameBag(rows: seq<Env>, others: seq<Env>, ts: set<string>, a: seq<Condition>, b: seq<Condition>, db: Database)
    requires IsBagOf(rows, ts, a, db) && IsBagOf(others, ts, b, db) && Conserved(a, b)
    ensures multiset(rows) == multiset(others)
  {
    forall e: Env
      ensures multiset(rows)[e] == multiset(others)[e]
    {
      ConservedHolds(a, b, db, e);
    }
  }

  // ---- the contracts can be met ---------------------------------------------

  function InsertRow(x: Env, rows: seq<Env>, key: TabCol, desc: bool, db: Database): (out: seq<Env>)
    ensures multiset(out) == multiset(rows) + multiset{x}
    ensures out != [] && (out[0] == x || (rows != [] && out[0] == rows[0]))
  {
    if rows == [] then [x]
    else
      var order := Compare(Cell(db, x, key), Cell(db, rows[0], key));
      assert rows == [rows[0]] + rows[1..];
      if (if desc then order >= 0 else order <= 0) then [x] + rows
      else [rows[0]] + InsertRow(x, rows[1..], key, desc, db)
  }

  lemma {:induction false} InsertSorted(x: Env, rows: seq<Env>, key: TabCol, desc: bool, db: Database)
    requires Sorted(rows, key, desc, db)
    ensures Sorted(InsertRow(x, rows, key, desc, db), key, desc, db)
  {
    if rows != [] {
      var order := Compare(Cell(db, x, key), Cell(db, rows[0], key));
      if (if desc then order >= 0 else order <= 0) {
        PrependSorted(x, rows, key, desc, db);
      } else {
        CompareFlips(Cell(db, x, key), Cell(db, rows[0], key));
        InsertSorted(x, rows[1..], key, desc, db);
        PrependSorted(rows[0], InsertRow(x, rows[1..], key, desc, db), key, desc, db);
      }
    }
  }

  lemma PrependSorted(x: Env, rows: seq<Env>, key: TabCol, desc: bool, db: Database)
    requires rows != [] && Sorted(rows, key, desc, db)
    requires var order := Compare(Cell(db, x, key), Cell(db, rows[0], key)); if desc then order >= 0 else order <= 0
    ensures Sorted([x] + rows, key, desc, db)
  {
    var all := [x] + rows;
    forall i, j | 0 <= i < j < |all|
      ensures if desc then Compare(Cell(db, all[i], key), Cell(db, all[j], key)) >= 0
              else Compare(Cell(db, all[i], key), Cell(db, all[j], key)) <= 0
    {
      if i == 0 && j > 1 {
        var a, b, c := Cell(db, x, key), Cell(db, rows[0], key), Cell(db, rows[j - 1], key);
        if desc {
          CompareFlips(a, b);
          CompareFlips(b, c);
          CompareTransitive(c, b, a);
          CompareFlips(c, a);
        } else {
          CompareTransitive(a, b, c);
        }
      }
    }
  }

  function SortRows(rows: seq<Env>, key: TabCol, desc: bool, db: Database): (out: seq<Env>)
    ensures Sorted(out, key, desc, db) && multiset(out) == multiset(rows)
  {
    if rows == [] then []
    else
      assert rows == [rows[0]] + rows[1..];
      InsertSorted(rows[0], SortRows(rows[1..], key, desc, db), key, desc, db);
      InsertRow(rows[0], SortRows(rows[1..], key, desc, db), key, desc, db)
  }

  function ScanRows(rows: seq<Env>, p: Plan, db: Database): (out: seq<Env>)
    requires p.Scan?
    ensures forall e: Env ::
      multiset(out)[e] == (if Selects(p, db, e) then multiset(rows)[e] else 0)
  {
    if rows == [] then []
    else
      assert rows == [rows[0]] + rows[1..];
      (if Selects(p, db, rows[0]) then [rows[0]] else []) + ScanRows(rows[1..], p, db)
  }

  /** Every well-formed plan can run on every database, so PlanMeaning is never vacuous. */
  lemma {:induction false} PlanRuns(p: Plan, db: Database) returns (rows: seq<Env>)
    requires MergeReady(p)
    ensures Produces(p, db, rows)
  {
    match p
    case Scan(tab, conds, _) =>
      rows := ScanRows(Records(tab, Size(db, tab)), p, db);
      RecordsIsBagOf(tab, db);
      assert forall e: Env :: Holds([], db, e);
      assert ScanProduces(p, db, rows);
    case Join(tag, left, right, conds) =>
      var l := PlanRuns(left, db);
      var r := PlanRuns(right, db);
      if tag.NestLoop? {
        rows := NestedLoop(l, r, conds, db);
      } else {
        rows := MergeJoin(l, r, conds[0].lhs, conds[0].rhs.col, conds[1..], db);
      }
      assert JoinProduces(p, l, r, db, rows);
    case Sort(sub, key, desc) =>
      var inner := PlanRuns(sub, db);
      rows := SortRows(inner, key, desc, db);
  }
}
