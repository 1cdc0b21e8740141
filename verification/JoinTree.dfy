/**
  Building a join tree from scans and an arbitrary list of conditions, and attaching a
  condition to a tree that already covers both of its tables.

  Plan nodes are uniquely owned in the planner, so a subtree is a value here and an
  update in place is the construction of the new subtree.
 */
module JoinTree {
  import opened Basics
  import opened Query
  import opened Plans

  datatype PlanError = TableNotFound | InternalError
  type Planned<+T> = Result<T, PlanError>

  // ---- shape of a join tree -----------------------------------------------

  /** Only scans and nested loops, as before the join algorithms are chosen. */
  predicate JoinShape(p: Plan)
  {
    match p
    case Scan(_, _, _) => true
    case Join(tag, l, r, _) => tag.NestLoop? && JoinShape(l) && JoinShape(r)
    case Sort(_, _, _) => false
  }

  /**
    A scan's conditions speak of its own table; a join's conditions compare a column of
    the left subtree with a column of the right one.  With distinct leaves this puts each
    join condition at the lowest join that covers both of its tables.
   */
  predicate Placed(p: Plan)
  {
    match p
    case Scan(tab, conds, _) => forall c :: c in conds ==> CondTables(c) == {tab}
    case Join(_, l, r, conds) =>
      && Placed(l) && Placed(r)
      && forall c :: c in conds ==> c.rhs.Col? && c.lhs.tab in Tables(l) && c.rhs.col.tab in Tables(r)
    case Sort(sub, _, _) => Placed(sub)
  }

  /** How many scans of the plan are s, with its conditions and index. */
  function ScanCount(p: Plan, s: Plan): nat
  {
    match p
    case Scan(_, _, _) => if p == s then 1 else 0
    case Join(_, l, r, _) => ScanCount(l, s) + ScanCount(r, s)
    case Sort(sub, _, _) => ScanCount(sub, s)
  }

  /** How many conditions anywhere in the plan are alike d. */
  function CondCount(p: Plan, d: Condition): nat
  {
    match p
    case Scan(_, conds, _) => Count(conds, d)
    case Join(_, l, r, conds) => CondCount(l, d) + CondCount(r, d) + Count(conds, d)
    case Sort(sub, _, _) => CondCount(sub, d)
  }

  lemma {:induction false} CondCountIsCount(p: Plan, d: Condition)
    ensures CondCount(p, d) == Count(AllConds(p), d)
  {
    match p
    case Scan(_, _, _) =>
    case Join(_, l, r, conds) =>
      CondCountIsCount(l, d);
      CondCountIsCount(r, d);
      CountConcat(AllConds(l) + AllConds(r), conds, d);
      CountConcat(AllConds(l), AllConds(r), d);
    case Sort(sub, _, _) =>
      CondCountIsCount(sub, d);
  }

  lemma {:induction false} PlacedIsScoped(p: Plan)
    requires Placed(p)
    ensures Scoped(p)
  {
    match p
    case Scan(_, _, _) =>
    case Join(_, l, r, _) =>
      PlacedIsScoped(l);
      PlacedIsScoped(r);
    case Sort(sub, _, _) =>
      PlacedIsScoped(sub);
  }

  /** A condition of a join is covered by no subtree of that join. */
  lemma PlacedIsLowest(p: Plan, c: Condition)
    requires p.Join? && Placed(p) && DistinctLeaves(p) && c in p.conds
    ensures CondTables(c) <= Tables(p)
    ensures !(CondTables(c) <= Tables(p.left)) && !(CondTables(c) <= Tables(p.right))
  {
    assert c.lhs.tab in CondTables(c) && c.rhs.col.tab in CondTables(c);
  }

  // ---- attaching a condition to an existing tree ----------------------------

  datatype Coverage = CoversNone | CoversLhs | CoversRhs | CoversBoth
  datatype Attachment = Attachment(coverage: Coverage, plan: Plan)

  function Attach(c: Condition, p: Plan): Attachment
    requires c.rhs.Col?
  {
    match p
    case Scan(tab, _, _) =>
      if tab == c.lhs.tab then Attachment(CoversLhs, p)
      else if tab == c.rhs.col.tab then Attachment(CoversRhs, p)
      else Attachment(CoversNone, p)
    case Sort(_, _, _) => Attachment(CoversNone, p)
    case Join(_, left, right, conds) =>
      var l := Attach(c, left);
      if l.coverage.CoversBoth? then Attachment(CoversBoth, p.(left := l.plan))
      else
        var r := Attach(c, right);
        if r.coverage.CoversBoth? then Attachment(CoversBoth, p.(right := r.plan))
        else if l.coverage.CoversNone? then Attachment(r.coverage, p)
        else if r.coverage.CoversNone? then Attachment(l.coverage, p)
        else
          var placed := if l.coverage.CoversRhs? then Swap(c) else c;
          Attachment(CoversBoth, p.(conds := conds + [placed]))
  }

  function CoverageOf(c: Condition, ts: set<string>): Coverage
    requires c.rhs.Col?
  {
    if c.lhs.tab in ts && c.rhs.col.tab in ts then CoversBoth
    else if c.lhs.tab in ts then CoversLhs
    else if c.rhs.col.tab in ts then CoversRhs
    else CoversNone
  }

  lemma {:induction false} AttachCoverage(c: Condition, p: Plan)
    requires c.rhs.Col? && c.lhs.tab != c.rhs.col.tab && JoinShape(p) && DistinctLeaves(p)
    ensures Attach(c, p).coverage == CoverageOf(c, Tables(p))
    ensures Attach(c, p).coverage.CoversBoth? || Attach(c, p).plan == p
  {
    if p.Join? {
      AttachCoverage(c, p.left);
      AttachCoverage(c, p.right);
    }
  }

  /** Attaching rewrites at most one node: below it, or its own conditions. */
  lemma AttachShape(c: Condition, p: Plan)
    requires c.rhs.Col? && p.Join?
    ensures var l, r, q := Attach(c, p.left), Attach(c, p.right), Attach(c, p).plan;
      if l.coverage.CoversBoth? then q == Join(p.tag, l.plan, p.right, p.conds)
      else if r.coverage.CoversBoth? then q == Join(p.tag, p.left, r.plan, p.conds)
      else if Attach(c, p).coverage.CoversBoth? then
        q == Join(p.tag, p.left, p.right, p.conds + [if l.coverage.CoversRhs? then Swap(c) else c])
      else q == p
  {}

  lemma {:induction false} AttachKeepsScans(c: Condition, p: Plan)
    requires c.rhs.Col? && JoinShape(p)
    ensures var q := Attach(c, p).plan;
      JoinShape(q) && Tables(q) == Tables(p) && DistinctLeaves(q) == DistinctLeaves(p)
  {
    if p.Join? {
      AttachKeepsScans(c, p.left);
      AttachKeepsScans(c, p.right);
      AttachShape(c, p);
    }
  }

  lemma {:induction false} AttachKeepsScanCount(c: Condition, p: Plan, s: Plan)
    requires c.rhs.Col?
    ensures ScanCount(Attach(c, p).plan, s) == ScanCount(p, s)
  {
    if p.Join? {
      AttachKeepsScanCount(c, p.left, s);
      AttachKeepsScanCount(c, p.right, s);
      AttachShape(c, p);
    }
  }

  /** A condition that is attached is attached once, as itself or with its sides exchanged. */
  lemma {:induction false} AttachAddsOne(c: Condition, p: Plan, d: Condition)
    requires c.rhs.Col?
    ensures CondCount(Attach(c, p).plan, d)
         == CondCount(p, d) + if Attach(c, p).coverage.CoversBoth? && Alike(c, d) then 1 else 0
  {
    if p.Join? {
      var l := Attach(c, p.left);
      AttachAddsOne(c, p.left, d);
      AttachAddsOne(c, p.right, d);
      AttachShape(c, p);
      AlikeSwap(c, d);
      CountSnoc(p.conds, if l.coverage.CoversRhs? then Swap(c) else c, d);
    }
  }

  lemma {:induction false} AttachPlaces(c: Condition, p: Plan)
    requires c.rhs.Col? && c.lhs.tab != c.rhs.col.tab && JoinShape(p) && DistinctLeaves(p) && Placed(p)
    ensures Placed(Attach(c, p).plan)
  {
    if p.Join? {
      AttachPlaces(c, p.left);
      AttachPlaces(c, p.right);
      AttachCoverage(c, p.left);
      AttachCoverage(c, p.right);
      AttachKeepsScans(c, p.left);
      AttachKeepsScans(c, p.right);
    }
  }

  // ---- building the join tree -----------------------------------------------

  function TableIndex(tables: seq<string>, table: string): (r: Option<nat>)
    ensures r.Some? <==> table in tables
    ensures r.Some? ==> r.value < |tables| && tables[r.value] == table && FirstAt(tables, r.value)
  {
    if tables == [] then None
    else if tables[0] == table then Some(0)
    else
      var r := TableIndex(tables[1..], table);
      assert tables == [tables[0]] + tables[1..];
      if r.None? then None else Some(r.value + 1)
  }

  /** Position i is the first with its table. */
  ghost predicate FirstAt(tables: seq<string>, i: nat)
    requires i < |tables|
  {
    forall j :: 0 <= j < i ==> tables[j] != tables[i]
  }

  /** Compares columns of two different tables of the list. */
  predicate JoinCondition(c: Condition, tables: seq<string>)
  {
    c.rhs.Col? && c.lhs.tab in tables && c.rhs.col.tab in tables && c.lhs.tab != c.rhs.col.tab
  }

  datatype Taken = Taken(plan: Plan, joined: seq<bool>, pending: seq<Option<Plan>>)

  function TakeScanPlan(index: nat, joined: seq<bool>, pending: seq<Option<Plan>>): (r: Planned<Taken>)
    requires |joined| == |pending|
    ensures r.Ok? ==> |r.value.joined| == |joined| && |r.value.pending| == |pending|
  {
    if index >= |pending| || joined[index] || pending[index].None? then Err(InternalError)
    else Ok(Taken(pending[index].value, joined[index := true], pending[index := None]))
  }

  function PendingScans(pending: seq<Option<Plan>>, s: Plan): nat
  {
    if pending == [] then 0
    else (if pending[0].Some? then ScanCount(pending[0].value, s) else 0) + PendingScans(pending[1..], s)
  }

  function PendingConds(pending: seq<Option<Plan>>, d: Condition): nat
  {
    if pending == [] then 0
    else (if pending[0].Some? then CondCount(pending[0].value, d) else 0) + PendingConds(pending[1..], d)
  }

  function OptTables(p: Option<Plan>): set<string> { if p.None? then {} else Tables(p.value) }
  function OptScans(p: Option<Plan>, s: Plan): nat { if p.None? then 0 else ScanCount(p.value, s) }
  function OptConds(p: Option<Plan>, d: Condition): nat { if p.None? then 0 else CondCount(p.value, d) }

  lemma {:induction false} TakeScan(pending: seq<Option<Plan>>, i: nat, s: Plan)
    requires i < |pending| && pending[i].Some?
    ensures PendingScans(pending, s) == PendingScans(pending[i := None], s) + ScanCount(pending[i].value, s)
  {
    var rest := pending[i := None];
    if i > 0 {
      TakeScan(pending[1..], i - 1, s);
      assert rest[1..] == pending[1..][i - 1 := None];
    } else {
      assert rest[1..] == pending[1..];
    }
  }

  lemma {:induction false} TakeConds(pending: seq<Option<Plan>>, i: nat, d: Condition)
    requires i < |pending| && pending[i].Some?
    ensures PendingConds(pending, d) == PendingConds(pending[i := None], d) + CondCount(pending[i].value, d)
  {
    var rest := pending[i := None];
    if i > 0 {
      TakeConds(pending[1..], i - 1, d);
      assert rest[1..] == pending[1..][i - 1 := None];
    } else {
      assert rest[1..] == pending[1..];
    }
  }

  ghost predicate ScansOf(tables: seq<string>, scans: seq<Plan>)
  {
    && |tables| == |scans|
    && forall k :: 0 <= k < |scans| ==>
         scans[k].Scan? && scans[k].tab == tables[k] && Placed(scans[k])
  }

  /** A scan waits exactly while its table is not joined. */
  ghost predicate Marked(scans: seq<Plan>, joined: seq<bool>, pending: seq<Option<Plan>>)
  {
    && |scans| == |joined| == |pending|
    && forall k :: 0 <= k < |pending| ==> pending[k] == if joined[k] then None else Some(scans[k])
  }

  /** ts are the tables that are marked as joined. */
  ghost predicate Covers(ts: set<string>, tables: seq<string>, joined: seq<bool>)
    requires |joined| == |tables|
  {
    forall t :: t in ts <==> exists k :: 0 <= k < |joined| && joined[k] && tables[k] == t
  }

  /** Scans and conditions in the tree and still waiting add up to those given. */
  ghost predicate Accounts(scans: seq<Plan>, root: Option<Plan>, pending: seq<Option<Plan>>, done: seq<Condition>)
  {
    && (forall s :: OptScans(root, s) + PendingScans(pending, s) == PendingScans(Waiting(scans), s))
    && (forall d :: OptConds(root, d) + PendingConds(pending, d) == PendingConds(Waiting(scans), d) + Count(done, d))
  }

  ghost predicate GoodTree(p: Plan)
  {
    JoinShape(p) && Placed(p)
  }

  /** What the tree, the marks and the waiting scans agree on after the conditions in done. */
  ghost predicate Consistent(tables: seq<string>, scans: seq<Plan>, root: Option<Plan>,
                             joined: seq<bool>, pending: seq<Option<Plan>>, done: seq<Condition>)
  {
    && ScansOf(tables, scans) && Marked(scans, joined, pending)
    && Covers(OptTables(root), tables, joined)
    && Accounts(scans, root, pending, done)
    && (root.Some? ==> GoodTree(root.value))
  }

  /** Only first copies of a table are joined, so no table is scanned twice in the tree. */
  ghost predicate FirstCopies(tables: seq<string>, root: Option<Plan>, joined: seq<bool>)
    requires |joined| == |tables|
  {
    && (forall k :: 0 <= k < |joined| && joined[k] ==> FirstAt(tables, k))
    && (root.Some? ==> DistinctLeaves(root.value))
  }

  function Waiting(scans: seq<Plan>): seq<Option<Plan>>
  {
    seq(|scans|, i requires 0 <= i < |scans| => Some(scans[i]))
  }

  lemma {:induction false} NothingPendingScans(pending: seq<Option<Plan>>, s: Plan)
    requires forall k :: 0 <= k < |pending| ==> pending[k].None?
    ensures PendingScans(pending, s) == 0
  {
    if pending != [] { NothingPendingScans(pending[1..], s); }
  }

  lemma {:induction false} NothingPendingConds(pending: seq<Option<Plan>>, d: Condition)
    requires forall k :: 0 <= k < |pending| ==> pending[k].None?
    ensures PendingConds(pending, d) == 0
  {
    if pending != [] { NothingPendingConds(pending[1..], d); }
  }

  lemma CoversOneMore(ts: set<string>, tables: seq<string>, joined: seq<bool>, i: nat)
    requires |joined| == |tables| && i < |tables| && Covers(ts, tables, joined)
    ensures Covers(ts + {tables[i]}, tables, joined[i := true])
  {
    var joined' := joined[i := true];
    forall t
      ensures t in ts + {tables[i]} <==> exists k :: 0 <= k < |joined'| && joined'[k] && tables[k] == t
    {
      if t == tables[i] {
        assert joined'[i];
      } else if t in ts {
        var k :| 0 <= k < |joined| && joined[k] && tables[k] == t;
        assert joined'[k];
      } else {
        assert forall k :: 0 <= k < |joined| && tables[k] == t ==> k != i && joined'[k] == joined[k];
      }
    }
  }

  lemma NotYetCovered(ts: set<string>, tables: seq<string>, joined: seq<bool>, i: nat)
    requires |joined| == |tables| && i < |tables| && Covers(ts, tables, joined) && !joined[i] && FirstAt(tables, i)
    requires forall k :: 0 <= k < |joined| && joined[k] ==> FirstAt(tables, k)
    ensures tables[i] !in ts
  {
    forall k | 0 <= k < |joined| && joined[k]
      ensures tables[k] != tables[i]
    {
      assert FirstAt(tables, k);
      assert k < i || i < k;
    }
  }

  function Grow(p: Plan, root: Option<Plan>, conds: seq<Condition>): Plan
  {
    if root.None? then p else Join(NestLoop, p, root.value, conds)
  }

  lemma GrowAccounts(scans: seq<Plan>, root: Option<Plan>, pending: seq<Option<Plan>>, done: seq<Condition>,
                     i: nat, conds: seq<Condition>)
    requires Accounts(scans, root, pending, done) && i < |pending| && pending[i].Some?
    requires root.None? ==> conds == []
    ensures Accounts(scans, Some(Grow(pending[i].value, root, conds)), pending[i := None], done + conds)
  {
    var q := Some(Grow(pending[i].value, root, conds));
    forall s
      ensures OptScans(q, s) + PendingScans(pending[i := None], s) == PendingScans(Waiting(scans), s)
    {
      TakeScan(pending, i, s);
    }
    forall d
      ensures OptConds(q, d) + PendingConds(pending[i := None], d) == PendingConds(Waiting(scans), d) + Count(done + conds, d)
    {
      TakeConds(pending, i, d);
      CountConcat(done, conds, d);
    }
  }

  /** Joining one waiting scan with the tree, under conditions that compare it with the tree. */
  lemma GrowConsistent(tables: seq<string>, scans: seq<Plan>, root: Option<Plan>, joined: seq<bool>,
                       pending: seq<Option<Plan>>, done: seq<Condition>, i: nat, conds: seq<Condition>)
    requires Consistent(tables, scans, root, joined, pending, done)
    requires i < |tables| && !joined[i]
    requires root.None? ==> conds == []
    requires forall c :: c in conds ==> c.rhs.Col? && c.lhs.tab == tables[i] && c.rhs.col.tab in OptTables(root)
    ensures Consistent(tables, scans, Some(Grow(scans[i], root, conds)), joined[i := true], pending[i := None], done + conds)
    ensures FirstCopies(tables, root, joined) && FirstAt(tables, i) ==>
      FirstCopies(tables, Some(Grow(scans[i], root, conds)), joined[i := true])
  {
    assert GoodTree(scans[i]) && Tables(scans[i]) == {tables[i]};
    GrowGood(scans[i], root, conds);
    GrowFirstCopies(tables, scans, root, joined, i, conds);
    CoversOneMore(OptTables(root), tables, joined, i);
    GrowAccounts(scans, root, pending, done, i, conds);
    assert Tables(Grow(scans[i], root, conds)) == OptTables(root) + {tables[i]};
  }

  lemma GrowFirstCopies(tables: seq<string>, scans: seq<Plan>, root: Option<Plan>, joined: seq<bool>, i: nat, conds: seq<Condition>)
    requires ScansOf(tables, scans) && |joined| == |tables| && Covers(OptTables(root), tables, joined)
    requires i < |tables| && !joined[i]
    ensures FirstCopies(tables, root, joined) && FirstAt(tables, i) ==>
      FirstCopies(tables, Some(Grow(scans[i], root, conds)), joined[i := true])
  {
    if FirstCopies(tables, root, joined) && FirstAt(tables, i) {
      NotYetCovered(OptTables(root), tables, joined, i);
      assert scans[i].Scan? && Tables(scans[i]) == {tables[i]};
      assert root.Some? ==> Tables(scans[i]) !! Tables(root.value);
      assert DistinctLeaves(Grow(scans[i], root, conds));
    }
  }

  lemma GrowGood(p: Plan, root: Option<Plan>, conds: seq<Condition>)
    requires GoodTree(p) && (root.Some? ==> GoodTree(root.value))
    requires forall c :: c in conds ==> c.rhs.Col? && c.lhs.tab in Tables(p) && c.rhs.col.tab in OptTables(root)
    ensures GoodTree(Grow(p, root, conds))
  {}

  lemma PairAccounts(scans: seq<Plan>, root: Option<Plan>, pending: seq<Option<Plan>>, done: seq<Condition>,
                     i: nat, j: nat, c: Condition)
    requires Accounts(scans, root, pending, done)
    requires i < |pending| && j < |pending| && i != j && pending[i].Some? && pending[j].Some?
    ensures Accounts(scans, Some(Grow(Join(NestLoop, pending[i].value, pending[j].value, [c]), root, [])),
                     pending[i := None][j := None], done + [c])
  {
    var a, b := pending[i].value, pending[j].value;
    var pair := Join(NestLoop, a, b, [c]);
    var q := Some(Grow(pair, root, []));
    var rest := pending[i := None][j := None];
    var half := pending[i := None];
    forall s
      ensures OptScans(q, s) + PendingScans(rest, s) == PendingScans(Waiting(scans), s)
    {
      TakeScan(pending, i, s);
      TakeScan(half, j, s);
      assert ScanCount(pair, s) == ScanCount(a, s) + ScanCount(b, s);
    }
    forall d
      ensures OptConds(q, d) + PendingConds(rest, d) == PendingConds(Waiting(scans), d) + Count(done + [c], d)
    {
      TakeConds(pending, i, d);
      TakeConds(half, j, d);
      assert CondCount(pair, d) == CondCount(a, d) + CondCount(b, d) + Count([c], d);
      CountConcat(done, [c], d);
    }
  }

  /** Two waiting scans joined with each other; the pair then stands to the left of the tree. */
  lemma PairConsistent(tables: seq<string>, scans: seq<Plan>, root: Option<Plan>, joined: seq<bool>,
                       pending: seq<Option<Plan>>, done: seq<Condition>, i: nat, j: nat, c: Condition)
    requires Consistent(tables, scans, root, joined, pending, done)
    requires i < |tables| && j < |tables| && tables[i] != tables[j] && !joined[i] && !joined[j]
    requires c.rhs.Col? && c.lhs.tab == tables[i] && c.rhs.col.tab == tables[j]
    ensures Consistent(tables, scans, Some(Grow(Join(NestLoop, scans[i], scans[j], [c]), root, [])),
                       joined[i := true][j := true], pending[i := None][j := None], done + [c])
  {
    hide Accounts, Covers;
    var si, sj := scans[i], scans[j];
    assert GoodTree(si) && Tables(si) == {tables[i]} && GoodTree(sj) && Tables(sj) == {tables[j]};
    GrowGood(si, Some(sj), [c]);
    GrowGood(Join(NestLoop, si, sj, [c]), root, []);
    hide GoodTree;
    CoversOneMore(OptTables(root), tables, joined, i);
    CoversOneMore(OptTables(root) + {tables[i]}, tables, joined[i := true], j);
    PairAccounts(scans, root, pending, done, i, j, c);
    assert Tables(Grow(Join(NestLoop, si, sj, [c]), root, [])) == OptTables(root) + {tables[i]} + {tables[j]};
  }

  lemma PairFirstCopies(tables: seq<string>, scans: seq<Plan>, root: Option<Plan>, joined: seq<bool>,
                        i: nat, j: nat, conds: seq<Condition>)
    requires ScansOf(tables, scans) && |joined| == |tables| && Covers(OptTables(root), tables, joined)
    requires i < |tables| && j < |tables| && tables[i] != tables[j] && !joined[i] && !joined[j]
    requires FirstCopies(tables, root, joined) && FirstAt(tables, i) && FirstAt(tables, j)
    ensures FirstCopies(tables, Some(Grow(Join(NestLoop, scans[i], scans[j], conds), root, [])), joined[i := true][j := true])
  {
    NotYetCovered(OptTables(root), tables, joined, i);
    NotYetCovered(OptTables(root), tables, joined, j);
    var pair := Join(NestLoop, scans[i], scans[j], conds);
    PairOfScans(tables, scans, i, j, conds);
    hide ScansOf, Covers;
  }

  lemma PairOfScans(tables: seq<string>, scans: seq<Plan>, i: nat, j: nat, conds: seq<Condition>)
    requires ScansOf(tables, scans) && i < |tables| && j < |tables| && tables[i] != tables[j]
    ensures var pair := Join(NestLoop, scans[i], scans[j], conds); Tables(pair) == {tables[i], tables[j]} && DistinctLeaves(pair)
  {
    assert Tables(scans[i]) == {tables[i]} && Tables(scans[j]) == {tables[j]};
    assert DistinctLeaves(scans[i]) && DistinctLeaves(scans[j]);
  }

  lemma AttachAccounts(scans: seq<Plan>, root: Plan, pending: seq<Option<Plan>>, done: seq<Condition>, c: Condition)
    requires Accounts(scans, Some(root), pending, done)
    requires c.rhs.Col? && Attach(c, root).coverage.CoversBoth?
    ensures Accounts(scans, Some(Attach(c, root).plan), pending, done + [c])
  {
    var q := Some(Attach(c, root).plan);
    forall s
      ensures OptScans(q, s) + PendingScans(pending, s) == PendingScans(Waiting(scans), s)
    {
      AttachKeepsScanCount(c, root, s);
    }
    forall d
      ensures OptConds(q, d) + PendingConds(pending, d) == PendingConds(Waiting(scans), d) + Count(done + [c], d)
    {
      AttachAddsOne(c, root, d);
      CountSnoc(done, c, d);
    }
  }

  lemma AttachConsistent(tables: seq<string>, scans: seq<Plan>, root: Plan, joined: seq<bool>,
                         pending: seq<Option<Plan>>, done: seq<Condition>, c: Condition)
    requires Consistent(tables, scans, Some(root), joined, pending, done) && FirstCopies(tables, Some(root), joined)
    requires c.rhs.Col? && c.lhs.tab in Tables(root) && c.rhs.col.tab in Tables(root)
    ensures Attach(c, root).coverage.CoversBoth? <==> c.lhs.tab != c.rhs.col.tab
    ensures c.lhs.tab != c.rhs.col.tab ==>
      && Consistent(tables, scans, Some(Attach(c, root).plan), joined, pending, done + [c])
      && FirstCopies(tables, Some(Attach(c, root).plan), joined)
  {
    if c.lhs.tab != c.rhs.col.tab {
      AttachCoverage(c, root);
      AttachKeepsScans(c, root);
      AttachPlaces(c, root);
      AttachAccounts(scans, root, pending, done, c);
    } else {
      NeverBoth(c, root);
    }
  }

  /** A comparison within one table finds no join to sit at. */
  lemma {:induction false} NeverBoth(c: Condition, p: Plan)
    requires c.rhs.Col? && c.lhs.tab == c.rhs.col.tab && JoinShape(p) && DistinctLeaves(p)
    ensures Attach(c, p) == Attachment(if c.lhs.tab in Tables(p) then CoversLhs else CoversNone, p)
  {
    if p.Join? {
      NeverBoth(c, p.left);
      NeverBoth(c, p.right);
    }
  }

  /** The tree holds every scan once and every condition once, each in its place. */
  ghost predicate JoinTreeOf(p: Plan, tables: seq<string>, scans: seq<Plan>, conds: seq<Condition>)
  {
    && Tables(p) == ToSet(tables) && GoodTree(p) && (Distinct(tables) ==> DistinctLeaves(p))
    && (forall s :: ScanCount(p, s) == PendingScans(Waiting(scans), s))
    && (forall d :: CondCount(p, d) == PendingConds(Waiting(scans), d) + Count(conds, d))
  }

  datatype Building = Building(root: Option<Plan>, joined: seq<bool>, pending: seq<Option<Plan>>)

  /** One condition of the list: it starts the tree, extends it on the left, or settles inside it. */
  method AddCondition(tables: seq<string>, b: Building, c: Condition, ghost scans: seq<Plan>, ghost done: seq<Condition>)
    returns (r: Planned<Building>)
    requires Consistent(tables, scans, b.root, b.joined, b.pending, done) && FirstCopies(tables, b.root, b.joined)
    requires b.root.None? ==> forall k :: 0 <= k < |tables| ==> !b.joined[k]
    ensures r.Ok? <==> JoinCondition(c, tables)
    ensures r.Ok? ==>
      && Consistent(tables, scans, r.value.root, r.value.joined, r.value.pending, done + [c])
      && |r.value.joined| == |tables| && FirstCopies(tables, r.value.root, r.value.joined) && r.value.root.Some?
  {
    if c.rhs.Val? { return Err(InternalError); }
    var lhs, rhs := TableIndex(tables, c.lhs.tab), TableIndex(tables, c.rhs.col.tab);
    if lhs.None? || rhs.None? { return Err(InternalError); }
    var i, j := lhs.value, rhs.value;
    assert b.pending[i] == (if b.joined[i] then None else Some(scans[i]));
    assert b.pending[j] == (if b.joined[j] then None else Some(scans[j]));

    if !b.joined[i] && !b.joined[j] {
      var left := TakeScanPlan(i, b.joined, b.pending);
      var right := TakeScanPlan(j, left.value.joined, left.value.pending);
      if right.Err? { return Err(InternalError); }
      PairConsistent(tables, scans, b.root, b.joined, b.pending, done, i, j, c);
      PairFirstCopies(tables, scans, b.root, b.joined, i, j, [c]);
      var pair := Join(NestLoop, left.value.plan, right.value.plan, [c]);
      return Ok(Building(Some(Grow(pair, b.root, [])), right.value.joined, right.value.pending));
    }

    JoinedIsCovered(tables, b.root, b.joined, i);
    JoinedIsCovered(tables, b.root, b.joined, j);
    if b.joined[i] != b.joined[j] {
      var added := if b.joined[i] then j else i;
      var placed := if b.joined[i] then Swap(c) else c;
      var taken := TakeScanPlan(added, b.joined, b.pending);
      SideConsistent(tables, scans, b.root, b.joined, b.pending, done, added, c, placed);
      return Ok(Building(Some(Join(NestLoop, taken.value.plan, b.root.value, [placed])), taken.value.joined, taken.value.pending));
    }

    var attached := Attach(c, b.root.value);
    AttachConsistent(tables, scans, b.root.value, b.joined, b.pending, done, c);
    if !attached.coverage.CoversBoth? { return Err(InternalError); }
    return Ok(Building(Some(attached.plan), b.joined, b.pending));
  }

  lemma DistinctIsFirst(tables: seq<string>, i: nat)
    requires i < |tables|
    ensures Distinct(tables) ==> FirstAt(tables, i)
  {}

  lemma JoinedIsCovered(tables: seq<string>, root: Option<Plan>, joined: seq<bool>, i: nat)
    requires |joined| == |tables| && Covers(OptTables(root), tables, joined) && i < |tables|
    ensures joined[i] ==> root.Some? && tables[i] in Tables(root.value)
  {
    if joined[i] {
      assert tables[i] in OptTables(root);
    }
  }

  lemma NothingJoined(tables: seq<string>, scans: seq<Plan>, b: Building)
    requires ScansOf(tables, scans) && b == Building(None, seq(|tables|, _ => false), Waiting(scans))
    ensures Consistent(tables, scans, b.root, b.joined, b.pending, []) && FirstCopies(tables, b.root, b.joined)
  {}

  method BuildJoinTree(tables: seq<string>, scans: seq<Plan>, conds: seq<Condition>) returns (r: Planned<Plan>)
    requires tables != [] && ScansOf(tables, scans)
    ensures r.Ok? <==> forall c :: c in conds ==> JoinCondition(c, tables)
    ensures r.Ok? ==> JoinTreeOf(r.value, tables, scans, conds)
  {
    hide *;
    var b := Building(None, seq(|tables|, _ => false), Waiting(scans));
    NothingJoined(tables, scans, b);
    assert conds[..0] == [];

    for i := 0 to |conds|
      invariant Consistent(tables, scans, b.root, b.joined, b.pending, conds[..i])
      invariant |b.joined| == |tables| && FirstCopies(tables, b.root, b.joined)
      invariant forall j :: 0 <= j < i ==> JoinCondition(conds[j], tables)
      invariant b.root.None? ==> i == 0 && forall k :: 0 <= k < |tables| ==> !b.joined[k]
    {
      var step := AddCondition(tables, b, conds[i], scans, conds[..i]);
      if step.Err? {
        assert conds[i] in conds;
        return Err(InternalError);
      }
      assert conds[..i + 1] == conds[..i] + [conds[i]];
      b := step.value;
    }
    assert conds[..|conds|] == conds;
    var root := JoinRemaining(tables, b, scans, conds);
    return Ok(root);
  }

  /** Tables no condition has brought in are joined without one, in FROM order. */
  method JoinRemaining(tables: seq<string>, start: Building, ghost scans: seq<Plan>, ghost conds: seq<Condition>) returns (root: Plan)
    requires tables != [] && Consistent(tables, scans, start.root, start.joined, start.pending, conds)
    requires Distinct(tables) ==> FirstCopies(tables, start.root, start.joined)
    ensures JoinTreeOf(root, tables, scans, conds)
  {
    hide Accounts, Covers, GoodTree, FirstAt, JoinTreeOf, Grow;
    var b := start;
    for i := 0 to |tables|
      invariant Consistent(tables, scans, b.root, b.joined, b.pending, conds)
      invariant b.root.None? ==> i == 0
      invariant forall k :: 0 <= k < i ==> b.joined[k]
      invariant Distinct(tables) ==> FirstCopies(tables, b.root, b.joined)
    {
      JoinedIsCovered(tables, b.root, b.joined, i);
      if !b.joined[i] {
        DistinctIsFirst(tables, i);
        assert b.pending[i] == Some(scans[i]);
        var taken := TakeScanPlan(i, b.joined, b.pending);
        GrowConsistent(tables, scans, b.root, b.joined, b.pending, conds, i, []);
        assert conds + [] == conds;
        b := Building(Some(Grow(taken.value.plan, b.root, [])), taken.value.joined, taken.value.pending);
      }
    }
    AllJoined(tables, scans, b.root.value, b.joined, b.pending, conds);
    root := b.root.value;
  }

  /** One side joined: the other table's scan goes to the left, and the condition is turned to match. */
  lemma SideConsistent(tables: seq<string>, scans: seq<Plan>, root: Option<Plan>, joined: seq<bool>,
                       pending: seq<Option<Plan>>, done: seq<Condition>, i: nat, c: Condition, placed: Condition)
    requires Consistent(tables, scans, root, joined, pending, done) && FirstCopies(tables, root, joined)
    requires i < |tables| && !joined[i] && FirstAt(tables, i) && root.Some?
    requires c.rhs.Col? && placed == (if c.lhs.tab == tables[i] then c else Swap(c))
    requires placed.lhs.tab == tables[i] && placed.rhs.col.tab in Tables(root.value)
    ensures Consistent(tables, scans, Some(Join(NestLoop, scans[i], root.value, [placed])),
                       joined[i := true], pending[i := None], done + [c])
    ensures FirstCopies(tables, Some(Join(NestLoop, scans[i], root.value, [placed])), joined[i := true])
  {
    GrowConsistent(tables, scans, root, joined, pending, done, i, [placed]);
    forall d
      ensures Count(done + [placed], d) == Count(done + [c], d)
    {
      AlikeSwap(c, d);
      CountSnoc(done, placed, d);
      CountSnoc(done, c, d);
    }
  }

  lemma AllJoined(tables: seq<string>, scans: seq<Plan>, root: Plan, joined: seq<bool>,
                  pending: seq<Option<Plan>>, conds: seq<Condition>)
    requires Consistent(tables, scans, Some(root), joined, pending, conds)
    requires forall k :: 0 <= k < |joined| ==> joined[k]
    requires Distinct(tables) ==> FirstCopies(tables, Some(root), joined)
    ensures JoinTreeOf(root, tables, scans, conds)
  {
    forall t
      ensures t in Tables(root) <==> t in tables
    {
      if t in tables {
        var k :| 0 <= k < |tables| && tables[k] == t;
        assert joined[k];
      }
    }
    forall s ensures ScanCount(root, s) == PendingScans(Waiting(scans), s) {
      NothingPendingScans(pending, s);
      assert OptScans(Some(root), s) + PendingScans(pending, s) == PendingScans(Waiting(scans), s);
    }
    forall d ensures CondCount(root, d) == PendingConds(Waiting(scans), d) + Count(conds, d) {
      NothingPendingConds(pending, d);
      assert OptConds(Some(root), d) + PendingConds(pending, d) == PendingConds(Waiting(scans), d) + Count(conds, d);
    }
  }
}
