/**
  Join algorithms over lists of rows: the nested loop, and the two-cursor merge
  that the sort-merge join documents.  On inputs sorted by the join columns the
  merge returns the bag of rows of the nested loop.
 */
module Joins {
  import opened Query

  /** The joined row, if it satisfies the conditions. */
  function Pair(a: Env, b: Env, conds: seq<Condition>, db: Database): seq<Env>
  {
    if Holds(conds, db, a + b) then [a + b] else []
  }

  function Pairs(a: Env, r: seq<Env>, conds: seq<Condition>, db: Database): seq<Env>
  {
    if r == [] then [] else Pair(a, r[0], conds, db) + Pairs(a, r[1..], conds, db)
  }

  function NestedLoop(l: seq<Env>, r: seq<Env>, conds: seq<Condition>, db: Database): seq<Env>
  {
    if l == [] then [] else Pairs(l[0], r, conds, db) + NestedLoop(l[1..], r, conds, db)
  }

  predicate Sorted(rows: seq<Env>, key: TabCol, desc: bool, db: Database)
  {
    forall i, j :: 0 <= i < j < |rows| ==>
      if desc then Compare(Cell(db, rows[i], key), Cell(db, rows[j], key)) >= 0
      else Compare(Cell(db, rows[i], key), Cell(db, rows[j], key)) <= 0
  }

  /** How many leading rows carry the key value v. */
  function Group(rows: seq<Env>, key: TabCol, v: Value, db: Database): (n: nat)
    ensures n <= |rows|
    ensures forall i :: 0 <= i < n ==> Compare(Cell(db, rows[i], key), v) == 0
    ensures n < |rows| ==> Compare(Cell(db, rows[n], key), v) != 0
  {
    if rows == [] || Compare(Cell(db, rows[0], key), v) != 0 then 0 else 1 + Group(rows[1..], key, v, db)
  }

  /** Two cursors over sorted inputs; equal groups are paired and filtered by the residual conditions. */
  function MergeJoin(l: seq<Env>, r: seq<Env>, lkey: TabCol, rkey: TabCol, residual: seq<Condition>, db: Database): seq<Env>
    decreases |l| + |r|
  {
    if l == [] || r == [] then []
    else
      var v := Cell(db, l[0], lkey);
      var order := Compare(v, Cell(db, r[0], rkey));
      if order < 0 then MergeJoin(l[1..], r, lkey, rkey, residual, db)
      else if order > 0 then MergeJoin(l, r[1..], lkey, rkey, residual, db)
      else
        var gl := Group(l[1..], lkey, v, db) + 1;
        var gr := Group(r[1..], rkey, v, db) + 1;
        NestedLoop(l[..gl], r[..gr], residual, db) + MergeJoin(l[gl..], r[gr..], lkey, rkey, residual, db)
  }

  // ---- splitting the nested loop ------------------------------------------

  lemma {:induction false} PairsSplit(a: Env, r1: seq<Env>, r2: seq<Env>, conds: seq<Condition>, db: Database)
    ensures Pairs(a, r1 + r2, conds, db) == Pairs(a, r1, conds, db) + Pairs(a, r2, conds, db)
  {
    hide Pair;
    if r1 == [] {
      assert r1 + r2 == r2;
    } else {
      assert (r1 + r2)[0] == r1[0] && (r1 + r2)[1..] == r1[1..] + r2;
      PairsSplit(a, r1[1..], r2, conds, db);
    }
  }

  lemma {:induction false} NestedLoopSplitLeft(l1: seq<Env>, l2: seq<Env>, r: seq<Env>, conds: seq<Condition>, db: Database)
    ensures NestedLoop(l1 + l2, r, conds, db) == NestedLoop(l1, r, conds, db) + NestedLoop(l2, r, conds, db)
  {
    if l1 == [] {
      assert l1 + l2 == l2;
    } else {
      assert (l1 + l2)[0] == l1[0] && (l1 + l2)[1..] == l1[1..] + l2;
      NestedLoopSplitLeft(l1[1..], l2, r, conds, db);
    }
  }

  lemma {:induction false} NestedLoopSplitRight(l: seq<Env>, r1: seq<Env>, r2: seq<Env>, conds: seq<Condition>, db: Database)
    ensures multiset(NestedLoop(l, r1 + r2, conds, db))
         == multiset(NestedLoop(l, r1, conds, db)) + multiset(NestedLoop(l, r2, conds, db))
  {
    if l != [] {
      PairsSplit(l[0], r1, r2, conds, db);
      NestedLoopSplitRight(l[1..], r1, r2, conds, db);
    }
  }

  /** No pair of a block qualifies. */
  ghost predicate NoMatch(l: seq<Env>, r: seq<Env>, conds: seq<Condition>, db: Database)
  {
    forall a, b :: a in l && b in r ==> !Holds(conds, db, a + b)
  }

  lemma {:induction false} NoMatchEmpty(l: seq<Env>, r: seq<Env>, conds: seq<Condition>, db: Database)
    requires NoMatch(l, r, conds, db)
    ensures NestedLoop(l, r, conds, db) == []
  {
    if l != [] {
      NoPairs(l[0], r, conds, db);
      NoMatchEmpty(l[1..], r, conds, db);
    }
  }

  lemma {:induction false} NoPairs(a: Env, r: seq<Env>, conds: seq<Condition>, db: Database)
    requires forall b :: b in r ==> !Holds(conds, db, a + b)
    ensures Pairs(a, r, conds, db) == []
  {
    if r != [] {
      assert r[0] in r;
      NoPairs(a, r[1..], conds, db);
    }
  }

  lemma DiagonalBlocks(l1: seq<Env>, l2: seq<Env>, r1: seq<Env>, r2: seq<Env>, conds: seq<Condition>, db: Database)
    requires NoMatch(l1, r2, conds, db) && NoMatch(l2, r1, conds, db)
    ensures multiset(NestedLoop(l1 + l2, r1 + r2, conds, db))
         == multiset(NestedLoop(l1, r1, conds, db)) + multiset(NestedLoop(l2, r2, conds, db))
  {
    NoMatchEmpty(l1, r2, conds, db);
    NoMatchEmpty(l2, r1, conds, db);
    NestedLoopSplitLeft(l1, l2, r1 + r2, conds, db);
    NestedLoopSplitRight(l1, r1, r2, conds, db);
    NestedLoopSplitRight(l2, r1, r2, conds, db);
  }

  // ---- merge join against nested loop ---------------------------------------

  /** The rows of l bind lkey's table, those of r bind rkey's table and not lkey's. */
  ghost predicate Joinable(l: seq<Env>, r: seq<Env>, lkey: TabCol, rkey: TabCol)
  {
    && (forall a :: a in l ==> lkey.tab in a)
    && (forall b :: b in r ==> rkey.tab in b && lkey.tab !in b)
  }

  lemma HoldsCons(key: Condition, conds: seq<Condition>, db: Database, e: Env)
    ensures Holds([key] + conds, db, e) <==> Satisfies(key, db, e) && Holds(conds, db, e)
  {
    assert forall c :: c in [key] + conds <==> c == key || c in conds;
  }

  lemma KeyOrder(a: Env, b: Env, lkey: TabCol, rkey: TabCol, residual: seq<Condition>, db: Database)
    requires lkey.tab in a && rkey.tab in b && lkey.tab !in b
    ensures Holds([Condition(lkey, EQ, Col(rkey))] + residual, db, a + b)
       <==> Compare(Cell(db, a, lkey), Cell(db, b, rkey)) == 0 && Holds(residual, db, a + b)
  {
    var key := Condition(lkey, EQ, Col(rkey));
    assert Cell(db, a + b, lkey) == Cell(db, a, lkey);
    assert Cell(db, a + b, rkey) == Cell(db, b, rkey);
    assert Satisfies(key, db, a + b) <==> Compare(Cell(db, a, lkey), Cell(db, b, rkey)) == 0;
    HoldsCons(key, residual, db, a + b);
  }

  lemma {:induction false} PairsOfEqualKeys(a: Env, r: seq<Env>, lkey: TabCol, rkey: TabCol, residual: seq<Condition>, db: Database)
    requires lkey.tab in a
    requires forall b :: b in r ==>
      rkey.tab in b && lkey.tab !in b && Compare(Cell(db, a, lkey), Cell(db, b, rkey)) == 0
    ensures Pairs(a, r, [Condition(lkey, EQ, Col(rkey))] + residual, db) == Pairs(a, r, residual, db)
  {
    if r != [] {
      assert r[0] in r;
      KeyOrder(a, r[0], lkey, rkey, residual, db);
      PairsOfEqualKeys(a, r[1..], lkey, rkey, residual, db);
    }
  }

  lemma {:induction false} BlockOfEqualKeys(l: seq<Env>, r: seq<Env>, lkey: TabCol, rkey: TabCol, residual: seq<Condition>, db: Database)
    requires Joinable(l, r, lkey, rkey)
    requires forall a, b :: a in l && b in r ==> Compare(Cell(db, a, lkey), Cell(db, b, rkey)) == 0
    ensures NestedLoop(l, r, [Condition(lkey, EQ, Col(rkey))] + residual, db) == NestedLoop(l, r, residual, db)
  {
    if l != [] {
      assert l[0] in l;
      PairsOfEqualKeys(l[0], r, lkey, rkey, residual, db);
      BlockOfEqualKeys(l[1..], r, lkey, rkey, residual, db);
    }
  }

  lemma NoMatchWhenApart(l: seq<Env>, r: seq<Env>, lkey: TabCol, rkey: TabCol, residual: seq<Condition>, db: Database)
    requires Joinable(l, r, lkey, rkey)
    requires forall a, b :: a in l && b in r ==> Compare(Cell(db, a, lkey), Cell(db, b, rkey)) != 0
    ensures NoMatch(l, r, [Condition(lkey, EQ, Col(rkey))] + residual, db)
  {
    forall a, b | a in l && b in r
      ensures !Holds([Condition(lkey, EQ, Col(rkey))] + residual, db, a + b)
    {
      KeyOrder(a, b, lkey, rkey, residual, db);
    }
  }

  lemma SuffixJoinable(l: seq<Env>, r: seq<Env>, i: nat, j: nat, lkey: TabCol, rkey: TabCol, db: Database)
    requires Joinable(l, r, lkey, rkey) && i <= |l| && j <= |r|
    requires Sorted(l, lkey, false, db) && Sorted(r, rkey, false, db)
    ensures Joinable(l[i..], r[j..], lkey, rkey)
    ensures Sorted(l[i..], lkey, false, db) && Sorted(r[j..], rkey, false, db)
  {}

  /** On inputs sorted ascending by the join columns, the merge is the nested loop as a bag. */
  lemma {:induction false} MergeJoinIsNestedLoop(l: seq<Env>, r: seq<Env>, lkey: TabCol, rkey: TabCol, residual: seq<Condition>, db: Database)
    requires Joinable(l, r, lkey, rkey)
    requires Sorted(l, lkey, false, db) && Sorted(r, rkey, false, db)
    ensures multiset(MergeJoin(l, r, lkey, rkey, residual, db))
         == multiset(NestedLoop(l, r, [Condition(lkey, EQ, Col(rkey))] + residual, db))
    decreases |l| + |r|
  {
    if l == [] || r == [] {
      NoMatchEmpty(l, r, [Condition(lkey, EQ, Col(rkey))] + residual, db);
    } else {
      var v := Cell(db, l[0], lkey);
      var order := Compare(v, Cell(db, r[0], rkey));
      if order < 0 {
        LeftBelow(l, r, lkey, rkey, residual, db);
        SuffixJoinable(l, r, 1, 0, lkey, rkey, db);
        assert r[0..] == r;
        MergeJoinIsNestedLoop(l[1..], r, lkey, rkey, residual, db);
      } else if order > 0 {
        RightBelow(l, r, lkey, rkey, residual, db);
        SuffixJoinable(l, r, 0, 1, lkey, rkey, db);
        assert l[0..] == l;
        MergeJoinIsNestedLoop(l, r[1..], lkey, rkey, residual, db);
      } else {
        var gl := Group(l[1..], lkey, v, db) + 1;
        var gr := Group(r[1..], rkey, v, db) + 1;
        SuffixJoinable(l, r, gl, gr, lkey, rkey, db);
        MergeJoinIsNestedLoop(l[gl..], r[gr..], lkey, rkey, residual, db);
        EqualGroups(l, r, gl, gr, lkey, rkey, residual, db);
        EqualStep(l, r, gl, gr, lkey, rkey, residual, db);
      }
    }
  }

  lemma EqualStep(l: seq<Env>, r: seq<Env>, gl: nat, gr: nat, lkey: TabCol, rkey: TabCol, residual: seq<Condition>, db: Database)
    requires l != [] && r != [] && Compare(Cell(db, l[0], lkey), Cell(db, r[0], rkey)) == 0
    requires gl == Group(l[1..], lkey, Cell(db, l[0], lkey), db) + 1
    requires gr == Group(r[1..], rkey, Cell(db, l[0], lkey), db) + 1
    ensures multiset(MergeJoin(l, r, lkey, rkey, residual, db))
         == multiset(NestedLoop(l[..gl], r[..gr], residual, db))
          + multiset(MergeJoin(l[gl..], r[gr..], lkey, rkey, residual, db))
  {
    hide NestedLoop, Compare, Group, Cell;
    var block, rest := NestedLoop(l[..gl], r[..gr], residual, db), MergeJoin(l[gl..], r[gr..], lkey, rkey, residual, db);
    assert MergeJoin(l, r, lkey, rkey, residual, db) == block + rest;
  }

  /** The smallest left row lies below every right row, so it joins with nothing. */
  lemma LeftBelow(l: seq<Env>, r: seq<Env>, lkey: TabCol, rkey: TabCol, residual: seq<Condition>, db: Database)
    requires l != [] && r != [] && Joinable(l, r, lkey, rkey) && Sorted(r, rkey, false, db)
    requires Compare(Cell(db, l[0], lkey), Cell(db, r[0], rkey)) < 0
    ensures var conds := [Condition(lkey, EQ, Col(rkey))] + residual;
      NestedLoop(l, r, conds, db) == NestedLoop(l[1..], r, conds, db)
  {
    var conds := [Condition(lkey, EQ, Col(rkey))] + residual;
    forall b | b in r
      ensures !Holds(conds, db, l[0] + b)
    {
      assert l[0] in l;
      Above(r, rkey, Cell(db, l[0], lkey), b, db);
      KeyOrder(l[0], b, lkey, rkey, residual, db);
    }
    NoPairs(l[0], r, conds, db);
  }

  lemma RightBelow(l: seq<Env>, r: seq<Env>, lkey: TabCol, rkey: TabCol, residual: seq<Condition>, db: Database)
    requires l != [] && r != [] && Joinable(l, r, lkey, rkey) && Sorted(l, lkey, false, db)
    requires Compare(Cell(db, l[0], lkey), Cell(db, r[0], rkey)) > 0
    ensures var conds := [Condition(lkey, EQ, Col(rkey))] + residual;
      multiset(NestedLoop(l, r, conds, db)) == multiset(NestedLoop(l, r[1..], conds, db))
  {
    var conds := [Condition(lkey, EQ, Col(rkey))] + residual;
    var w := Cell(db, r[0], rkey);
    CompareFlips(Cell(db, l[0], lkey), w);
    forall a, b | a in l && b in r[..1]
      ensures Compare(Cell(db, a, lkey), Cell(db, b, rkey)) != 0
    {
      Above(l, lkey, w, a, db);
      CompareFlips(w, Cell(db, a, lkey));
    }
    NoMatchWhenApart(l, r[..1], lkey, rkey, residual, db);
    NoMatchEmpty(l, r[..1], conds, db);
    assert r == r[..1] + r[1..];
    NestedLoopSplitRight(l, r[..1], r[1..], conds, db);
  }

  /** Everything in a sorted list lies strictly above what its first row lies strictly above. */
  lemma Above(rows: seq<Env>, key: TabCol, v: Value, b: Env, db: Database)
    requires rows != [] && Sorted(rows, key, false, db) && b in rows
    requires Compare(v, Cell(db, rows[0], key)) < 0
    ensures Compare(v, Cell(db, b, key)) < 0
  {
    var i :| 0 <= i < |rows| && rows[i] == b;
    if i > 0 {
      CompareTransitive(v, Cell(db, rows[0], key), Cell(db, b, key));
    }
  }

  /** Past the group of rows that carry v, a sorted list lies strictly above v. */
  lemma PastGroup(rows: seq<Env>, key: TabCol, v: Value, g: nat, b: Env, db: Database)
    requires rows != [] && Sorted(rows, key, false, db)
    requires Compare(v, Cell(db, rows[0], key)) == 0
    requires g == Group(rows[1..], key, v, db) + 1
    requires b in rows[g..]
    ensures Compare(v, Cell(db, b, key)) < 0
  {
    assert Compare(Cell(db, rows[0], key), Cell(db, rows[g], key)) <= 0;
    assert rows[1..][g - 1] == rows[g];
    CompareFlips(Cell(db, rows[g], key), v);
    CompareTransitive(v, Cell(db, rows[0], key), Cell(db, rows[g], key));
    Above(rows[g..], key, v, b, db);
  }

  lemma InGroup(rows: seq<Env>, key: TabCol, v: Value, g: nat, b: Env, db: Database)
    requires rows != [] && g == Group(rows[1..], key, v, db) + 1 && b in rows[..g]
    requires Compare(v, Cell(db, rows[0], key)) == 0
    ensures Compare(Cell(db, b, key), v) == 0
  {
    CompareFlips(v, Cell(db, rows[0], key));
    var i :| 0 <= i < g && rows[..g][i] == b;
    if i > 0 {
      assert rows[1..][i - 1] == b;
    }
  }

  lemma EqualGroups(l: seq<Env>, r: seq<Env>, gl: nat, gr: nat, lkey: TabCol, rkey: TabCol, residual: seq<Condition>, db: Database)
    requires l != [] && r != [] && Joinable(l, r, lkey, rkey)
    requires Sorted(l, lkey, false, db) && Sorted(r, rkey, false, db)
    requires Compare(Cell(db, l[0], lkey), Cell(db, r[0], rkey)) == 0
    requires gl == Group(l[1..], lkey, Cell(db, l[0], lkey), db) + 1
    requires gr == Group(r[1..], rkey, Cell(db, l[0], lkey), db) + 1
    ensures var conds := [Condition(lkey, EQ, Col(rkey))] + residual;
      multiset(NestedLoop(l, r, conds, db))
      == multiset(NestedLoop(l[..gl], r[..gr], residual, db)) + multiset(NestedLoop(l[gl..], r[gr..], conds, db))
  {
    hide NestedLoop, Compare, Cell, Sorted;
    GroupsCompare(l, r, gl, gr, lkey, rkey, db);
    hide Group;
    assert l == l[..gl] + l[gl..] && r == r[..gr] + r[gr..];
    BlocksSplit(l[..gl], l[gl..], r[..gr], r[gr..], lkey, rkey, residual, db);
  }

  lemma BlocksSplit(l1: seq<Env>, l2: seq<Env>, r1: seq<Env>, r2: seq<Env>, lkey: TabCol, rkey: TabCol, residual: seq<Condition>, db: Database)
    requires Joinable(l1 + l2, r1 + r2, lkey, rkey)
    requires forall a, b :: a in l1 && b in r1 ==> Compare(Cell(db, a, lkey), Cell(db, b, rkey)) == 0
    requires forall a, b :: a in l1 && b in r2 ==> Compare(Cell(db, a, lkey), Cell(db, b, rkey)) != 0
    requires forall a, b :: a in l2 && b in r1 ==> Compare(Cell(db, a, lkey), Cell(db, b, rkey)) != 0
    ensures var conds := [Condition(lkey, EQ, Col(rkey))] + residual;
      multiset(NestedLoop(l1 + l2, r1 + r2, conds, db))
      == multiset(NestedLoop(l1, r1, residual, db)) + multiset(NestedLoop(l2, r2, conds, db))
  {
    BlocksJoinable(l1, l2, r1, r2, lkey, rkey);
    BlockOfEqualKeys(l1, r1, lkey, rkey, residual, db);
    NoMatchWhenApart(l1, r2, lkey, rkey, residual, db);
    NoMatchWhenApart(l2, r1, lkey, rkey, residual, db);
    DiagonalBlocks(l1, l2, r1, r2, [Condition(lkey, EQ, Col(rkey))] + residual, db);
  }

  lemma BlocksJoinable(l1: seq<Env>, l2: seq<Env>, r1: seq<Env>, r2: seq<Env>, lkey: TabCol, rkey: TabCol)
    requires Joinable(l1 + l2, r1 + r2, lkey, rkey)
    ensures Joinable(l1, r1, lkey, rkey) && Joinable(l1, r2, lkey, rkey) && Joinable(l2, r1, lkey, rkey)
  {
    assert forall a :: a in l1 || a in l2 ==> a in l1 + l2;
    assert forall b :: b in r1 || b in r2 ==> b in r1 + r2;
  }

  lemma GroupsCompare(l: seq<Env>, r: seq<Env>, gl: nat, gr: nat, lkey: TabCol, rkey: TabCol, db: Database)
    requires l != [] && r != []
    requires Sorted(l, lkey, false, db) && Sorted(r, rkey, false, db)
    requires Compare(Cell(db, l[0], lkey), Cell(db, r[0], rkey)) == 0
    requires gl == Group(l[1..], lkey, Cell(db, l[0], lkey), db) + 1
    requires gr == Group(r[1..], rkey, Cell(db, l[0], lkey), db) + 1
    ensures forall a, b :: a in l[..gl] && b in r[..gr] ==> Compare(Cell(db, a, lkey), Cell(db, b, rkey)) == 0
    ensures forall a, b :: a in l[..gl] && b in r[gr..] ==> Compare(Cell(db, a, lkey), Cell(db, b, rkey)) != 0
    ensures forall a, b :: a in l[gl..] && b in r[..gr] ==> Compare(Cell(db, a, lkey), Cell(db, b, rkey)) != 0
  {
    var v := Cell(db, l[0], lkey);
    CompareFlips(v, v);
    forall a, b | a in l[..gl] && b in r[..gr]
      ensures Compare(Cell(db, a, lkey), Cell(db, b, rkey)) == 0
    {
      InGroup(l, lkey, v, gl, a, db);
      InGroup(r, rkey, v, gr, b, db);
      EqualThroughMiddle(Cell(db, a, lkey), v, Cell(db, b, rkey));
    }
    forall a, b | a in l[..gl] && b in r[gr..]
      ensures Compare(Cell(db, a, lkey), Cell(db, b, rkey)) != 0
    {
      InGroup(l, lkey, v, gl, a, db);
      PastGroup(r, rkey, v, gr, b, db);
      CompareTransitive(Cell(db, a, lkey), v, Cell(db, b, rkey));
    }
    forall a, b | a in l[gl..] && b in r[..gr]
      ensures Compare(Cell(db, a, lkey), Cell(db, b, rkey)) != 0
    {
      PastGroup(l, lkey, v, gl, a, db);
      InGroup(r, rkey, v, gr, b, db);
      CompareTransitive(Cell(db, b, rkey), v, Cell(db, a, lkey));
      CompareFlips(Cell(db, b, rkey), Cell(db, a, lkey));
    }
  }

  lemma EqualThroughMiddle(a: Value, v: Value, b: Value)
    requires Compare(a, v) == 0 && Compare(b, v) == 0
    ensures Compare(a, b) == 0
  {
    CompareFlips(a, v);
    CompareFlips(b, v);
    CompareFlips(a, b);
    CompareTransitive(a, v, b);
    CompareTransitive(b, v, a);
  }
}
