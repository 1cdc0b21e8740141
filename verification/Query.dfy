/**
  Values, conditions and rows of a bound SELECT.

  A joined row is an environment: for every table taking part, the number of the
  record chosen from it.  Record numbers keep equal records of one table apart, so
  a bag of rows can be counted without confusing two records with the same columns.
 */
module Query {

  datatype Value = IntV(i: int) | FloatV(r: real) | StrV(s: string)

  datatype CompOp = EQ | NE | LT | GT | LE | GE

  datatype TabCol = TabCol(tab: string, col: string)

  datatype Rhs = Val(value: Value) | Col(col: TabCol)

  datatype Condition = Condition(lhs: TabCol, op: CompOp, rhs: Rhs)

  type Record = map<string, Value>
  type Database = map<string, seq<Record>>
  type Env = map<string, nat>

  // ---- comparison -------------------------------------------------------

  function CompareStrings(a: string, b: string): int
  {
    if a == [] && b == [] then 0
    else if a == [] then -1
    else if b == [] then 1
    else if a[0] < b[0] then -1
    else if a[0] > b[0] then 1
    else CompareStrings(a[1..], b[1..])
  }

  function Rank(v: Value): nat
  {
    match v
    case IntV(_) => 0
    case FloatV(_) => 1
    case StrV(_) => 2
  }

  /** Negative, zero or positive.  Values of different types never meet in a bound condition. */
  function Compare(a: Value, b: Value): int
  {
    match (a, b)
    case (IntV(x), IntV(y)) => if x < y then -1 else if x > y then 1 else 0
    case (FloatV(x), FloatV(y)) => if x < y then -1 else if x > y then 1 else 0
    case (StrV(x), StrV(y)) => CompareStrings(x, y)
    case _ => if Rank(a) < Rank(b) then -1 else 1
  }

  lemma {:induction false} CompareStringsFlips(a: string, b: string)
    ensures CompareStrings(b, a) == -CompareStrings(a, b)
  {
    if a != [] && b != [] && a[0] == b[0] {
      CompareStringsFlips(a[1..], b[1..]);
    }
  }

  lemma CompareFlips(a: Value, b: Value)
    ensures Compare(b, a) == -Compare(a, b)
  {
    if a.StrV? && b.StrV? {
      CompareStringsFlips(a.s, b.s);
    }
  }

  lemma {:induction false} CompareStringsTransitive(a: string, b: string, c: string)
    requires CompareStrings(a, b) <= 0 && CompareStrings(b, c) <= 0
    ensures CompareStrings(a, c) <= 0
    ensures CompareStrings(a, b) < 0 || CompareStrings(b, c) < 0 ==> CompareStrings(a, c) < 0
  {
    if a != [] && b != [] && c != [] && a[0] == b[0] == c[0] {
      CompareStringsTransitive(a[1..], b[1..], c[1..]);
    }
  }

  lemma CompareTransitive(a: Value, b: Value, c: Value)
    requires Compare(a, b) <= 0 && Compare(b, c) <= 0
    ensures Compare(a, c) <= 0
    ensures Compare(a, b) < 0 || Compare(b, c) < 0 ==> Compare(a, c) < 0
  {
    if a.StrV? && b.StrV? && c.StrV? {
      CompareStringsTransitive(a.s, b.s, c.s);
    }
  }

  predicate Test(op: CompOp, order: int)
  {
    match op
    case EQ => order == 0
    case NE => order != 0
    case LT => order < 0
    case GT => order > 0
    case LE => order <= 0
    case GE => order >= 0
  }

  /** The operators compare integers as numbers. */
  lemma ComparesIntegers(x: int, y: int)
    ensures var order := Compare(IntV(x), IntV(y));
      && (Test(EQ, order) <==> x == y) && (Test(NE, order) <==> x != y)
      && (Test(LT, order) <==> x < y) && (Test(GT, order) <==> x > y)
      && (Test(LE, order) <==> x <= y) && (Test(GE, order) <==> x >= y)
  {}

  lemma ComparesReals(x: real, y: real)
    ensures var order := Compare(FloatV(x), FloatV(y));
      && (Test(EQ, order) <==> x == y) && (Test(NE, order) <==> x != y)
      && (Test(LT, order) <==> x < y) && (Test(GT, order) <==> x > y)
      && (Test(LE, order) <==> x <= y) && (Test(GE, order) <==> x >= y)
  {}

  /** a ends, or has the smaller character, where the two first differ, which is at n. */
  predicate BelowAt(a: string, b: string, n: nat)
  {
    n <= |a| && n < |b| && a[..n] == b[..n] && (n == |a| || a[n] < b[n])
  }

  /** Strings compare by the first place where they differ. */
  lemma {:induction false} ComparesStrings(a: string, b: string)
    ensures Test(LT, Compare(StrV(a), StrV(b))) <==> exists n :: BelowAt(a, b, n)
    ensures Test(GT, Compare(StrV(a), StrV(b))) <==> exists n :: BelowAt(b, a, n)
    ensures Test(EQ, Compare(StrV(a), StrV(b))) <==> a == b
  {
    if a == "" || b == "" || a[0] != b[0] {
      assert a != b && (a == "" || (b != "" && a[0] < b[0])) ==> BelowAt(a, b, 0);
      assert a != b && (b == "" || (a != "" && b[0] < a[0])) ==> BelowAt(b, a, 0);
    } else {
      ComparesStrings(a[1..], b[1..]);
      BelowNext(a, b);
      BelowNext(b, a);
      assert a == [a[0]] + a[1..] && b == [b[0]] + b[1..];
    }
  }

  lemma BelowNext(a: string, b: string)
    requires a != "" && b != "" && a[0] == b[0]
    ensures (exists n :: BelowAt(a, b, n)) <==> exists n :: BelowAt(a[1..], b[1..], n)
  {
    if n: nat :| BelowAt(a, b, n) {
      assert n > 0 && a[..n][1..] == a[1..][..n - 1] && b[..n][1..] == b[1..][..n - 1];
      assert BelowAt(a[1..], b[1..], n - 1);
    }
    if n: nat :| BelowAt(a[1..], b[1..], n) {
      assert a[..n + 1] == [a[0]] + a[1..][..n] && b[..n + 1] == [b[0]] + b[1..][..n];
      assert BelowAt(a, b, n + 1);
    }
  }

  // ---- conditions over rows ---------------------------------------------

  function Size(db: Database, tab: string): nat
  {
    if tab in db then |db[tab]| else 0
  }

  /** The value of a column in a row; a column the row does not have reads as a fixed default. */
  function Cell(db: Database, e: Env, c: TabCol): Value
  {
    if c.tab in e && e[c.tab] < Size(db, c.tab) && c.col in db[c.tab][e[c.tab]]
    then db[c.tab][e[c.tab]][c.col]
    else IntV(0)
  }

  predicate Satisfies(c: Condition, db: Database, e: Env)
  {
    var right := match c.rhs case Val(v) => v case Col(col) => Cell(db, e, col);
    Test(c.op, Compare(Cell(db, e, c.lhs), right))
  }

  predicate Holds(conds: seq<Condition>, db: Database, e: Env)
  {
    forall c :: c in conds ==> Satisfies(c, db, e)
  }

  /** e picks one existing record from each of the tables ts and nothing else. */
  ghost predicate Fits(e: Env, ts: set<string>, db: Database)
  {
    e.Keys == ts && forall t :: t in ts ==> e[t] < Size(db, t)
  }

  function CondTables(c: Condition): set<string>
  {
    {c.lhs.tab} + if c.rhs.Col? then {c.rhs.col.tab} else {}
  }

  /** A condition only looks at the tables it names. */
  lemma SatisfiesAgrees(c: Condition, db: Database, e: Env, f: Env)
    requires forall t :: t in CondTables(c) ==> t in e && t in f && e[t] == f[t]
    ensures Satisfies(c, db, e) == Satisfies(c, db, f)
  {
    assert c.lhs.tab in CondTables(c);
    assert c.rhs.Col? ==> c.rhs.col.tab in CondTables(c);
  }

  lemma HoldsAgrees(conds: seq<Condition>, db: Database, e: Env, f: Env)
    requires forall c, t :: c in conds && t in CondTables(c) ==> t in e && t in f && e[t] == f[t]
    ensures Holds(conds, db, e) == Holds(conds, db, f)
  {
    forall c | c in conds
      ensures Satisfies(c, db, e) == Satisfies(c, db, f)
    {
      SatisfiesAgrees(c, db, e, f);
    }
  }

  // ---- reversing a comparison ---------------------------------------------

  function Reverse(op: CompOp): CompOp
  {
    match op
    case EQ => EQ
    case NE => NE
    case LT => GT
    case GT => LT
    case LE => GE
    case GE => LE
  }

  /** The condition with its two columns exchanged; a literal right-hand side stays. */
  function Swap(c: Condition): Condition
  {
    if c.rhs.Col? then Condition(c.rhs.col, Reverse(c.op), Col(c.lhs)) else c
  }

  /** Exchanging the sides with the operator reversed changes nothing, on any row of any database. */
  lemma SwapPreservesMeaning(c: Condition, db: Database, e: Env)
    ensures Satisfies(Swap(c), db, e) == Satisfies(c, db, e)
  {
    if c.rhs.Col? {
      CompareFlips(Cell(db, e, c.lhs), Cell(db, e, c.rhs.col));
    }
  }

  /** The same condition, or the same with its sides exchanged. */
  predicate Alike(c: Condition, d: Condition)
  {
    c == d || c == Swap(d)
  }

  lemma AlikeSwap(c: Condition, d: Condition)
    ensures Alike(Swap(c), d) == Alike(c, d)
  {
    assert Swap(Swap(c)) == c && Swap(Swap(d)) == d;
  }

  /** How many conditions of a list are alike d. */
  function Count(conds: seq<Condition>, d: Condition): nat
  {
    if conds == [] then 0 else (if Alike(conds[0], d) then 1 else 0) + Count(conds[1..], d)
  }

  lemma {:induction false} CountConcat(a: seq<Condition>, b: seq<Condition>, d: Condition)
    ensures Count(a + b, d) == Count(a, d) + Count(b, d)
  {
    if a == [] {
      assert a + b == b;
    } else {
      assert (a + b)[0] == a[0] && (a + b)[1..] == a[1..] + b;
      CountConcat(a[1..], b, d);
    }
  }

  lemma CountCons(c: Condition, conds: seq<Condition>, d: Condition)
    ensures Count([c] + conds, d) == (if Alike(c, d) then 1 else 0) + Count(conds, d)
  {
    assert ([c] + conds)[1..] == conds;
  }

  lemma CountSnoc(conds: seq<Condition>, c: Condition, d: Condition)
    ensures Count(conds + [c], d) == Count(conds, d) + if Alike(c, d) then 1 else 0
  {
    CountConcat(conds, [c], d);
    assert [c][1..] == [];
  }

  lemma {:induction false} CountPositive(conds: seq<Condition>, d: Condition)
    ensures Count(conds, d) > 0 <==> exists c :: c in conds && Alike(c, d)
  {
    if conds != [] {
      CountPositive(conds[1..], d);
      assert conds == [conds[0]] + conds[1..];
    }
  }

  /** The same bag of conditions up to exchange of sides: none lost, none added, none changed. */
  ghost predicate Conserved(a: seq<Condition>, b: seq<Condition>)
  {
    forall d :: Count(a, d) == Count(b, d)
  }

  /** Conserved conditions filter the same rows. */
  lemma ConservedHolds(a: seq<Condition>, b: seq<Condition>, db: Database, e: Env)
    requires Conserved(a, b)
    ensures Holds(a, db, e) == Holds(b, db, e)
  {
    if Holds(a, db, e) { ConservedCarries(a, b, db, e); }
    if Holds(b, db, e) { ConservedCarries(b, a, db, e); }
  }

  lemma ConservedCarries(a: seq<Condition>, b: seq<Condition>, db: Database, e: Env)
    requires Conserved(a, b) && Holds(a, db, e)
    ensures Holds(b, db, e)
  {
    forall c | c in b
      ensures Satisfies(c, db, e)
    {
      assert Alike(c, c);
      CountPositive(b, c);
      CountPositive(a, c);
      var d :| d in a && Alike(d, c);
      SwapPreservesMeaning(c, db, e);
    }
  }
}
