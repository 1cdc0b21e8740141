/**
  Values and the bytes that hold them in records and index keys.  Planning compares
  values, an index compares bytes; here the two orders meet.
 */
module ValueBytes {
  import opened Basics
  import opened Query
  import opened IndexKeys
  import Plans

  // ---- floats ----------------------------------------------------------------------------------

  const FRACTION: nat := 0x80_0000
  const INFINITE: nat := 0x7F80_0000

  function Pow2(n: nat): (p: nat)
    ensures p > 0
  {
    if n == 0 then 1 else 2 * Pow2(n - 1)
  }

  /** Neither infinite nor a NaN. */
  predicate Finite(b: Bytes)
    requires |b| == 4
  {
    Word(b) % 0x8000_0000 < INFINITE
  }

  /** A single precision magnitude, by exponent and fraction, in units of the smallest one. */
  function Scaled(m: nat): nat
  {
    var e, f := m / FRACTION, m % FRACTION;
    if e == 0 then f else (FRACTION + f) * Pow2(e - 1)
  }

  function SignedScaled(m: int): int
  {
    if m < 0 then 0 - Scaled(-m) else Scaled(m)
  }

  /** The number an IEEE-754 single precision bit pattern stands for. */
  function FloatValue(b: Bytes): real
    requires |b| == 4 && Finite(b)
  {
    SignedScaled(FloatOrder(b)) as real / Pow2(149) as real
  }

  /** The value by sign, exponent and fraction bits, as IEEE-754 gives it for single precision. */
  lemma FloatByBits(b: Bytes)
    requires |b| == 4 && Finite(b)
    ensures var w := Word(b);
      var sign, e, f := if w / 0x8000_0000 == 1 then -1 else 1, w / 0x80_0000 % 0x100, w % 0x80_0000;
      FloatValue(b) == (sign * if e == 0 then f else (0x80_0000 + f) * Pow2(e - 1)) as real / Pow2(149) as real
  {
    var w := Word(b);
    MagnitudeBits(w);
    ScaledByBits(w % 0x8000_0000);
    OrderByBits(b);
    hide Pow2, Word, FloatOrder, Scaled, Finite;
  }

  lemma ScaledByBits(m: nat)
    ensures Scaled(0) == 0
    ensures Scaled(m) == var e, f := m / 0x80_0000, m % 0x80_0000; if e == 0 then f else (0x80_0000 + f) * Pow2(e - 1)
  {
    hide Pow2;
  }

  lemma OrderByBits(b: Bytes)
    requires |b| == 4
    ensures var w := Word(b); var m: int := w % 0x8000_0000; FloatOrder(b) == if w / 0x8000_0000 == 1 then -m else m
  {
    hide Word;
  }

  lemma MagnitudeBits(w: nat)
    requires w < 0x1_0000_0000
    ensures w % 0x8000_0000 / 0x80_0000 == w / 0x80_0000 % 0x100 && w % 0x8000_0000 % 0x80_0000 == w % 0x80_0000
  {}

  lemma ScaledNext(m: nat)
    ensures Scaled(m) < Scaled(m + 1)
  {
    var e, f := m / FRACTION, m % FRACTION;
    if f + 1 < FRACTION {
      assert (m + 1) / FRACTION == e && (m + 1) % FRACTION == f + 1;
      if e > 0 { Larger(FRACTION + f, FRACTION + f + 1, Pow2(e - 1)); }
    } else {
      assert (m + 1) / FRACTION == e + 1 && (m + 1) % FRACTION == 0;
      if e > 0 {
        Larger(FRACTION + f, 2 * FRACTION, Pow2(e - 1));
        assert Pow2(e) == 2 * Pow2(e - 1);
      }
    }
  }

  lemma Larger(a: nat, b: nat, p: nat)
    requires a < b && p > 0
    ensures a * p < b * p
  {}

  lemma {:induction false} ScaledGrows(m: nat, n: nat)
    requires m < n
    ensures Scaled(m) < Scaled(n)
    decreases n
  {
    hide Scaled;
    ScaledNext(n - 1);
    if m < n - 1 { ScaledGrows(m, n - 1); }
  }

  lemma SignedGrows(m: int, n: int)
    requires m < n
    ensures SignedScaled(m) < SignedScaled(n)
  {
    assert Scaled(0) == 0;
    hide Scaled;
    if n <= 0 {
      ScaledGrows(-n, -m);
    } else {
      ScaledGrows(0, n);
      if m < 0 { ScaledGrows(0, -m); } else if m > 0 { ScaledGrows(m, n); }
    }
  }

  lemma DivideKeepsOrder(x: int, y: int, p: nat)
    requires p > 0
    ensures x < y <==> x as real / p as real < y as real / p as real
    ensures x == y <==> x as real / p as real == y as real / p as real
  {
    var a, b, q := x as real, y as real, p as real;
    assert a / q * q == a && b / q * q == b;
    if x < y { Divided(a, b, q); } else if y < x { Divided(b, a, q); }
  }

  lemma Divided(a: real, b: real, q: real)
    requires a < b && q > 0.0
    ensures a / q < b / q
  {
    var x, y := a / q, b / q;
    assert x * q == a && y * q == b;
    Multiplied(y, x, q);
  }

  lemma Multiplied(x: real, y: real, q: real)
    requires q > 0.0
    ensures x <= y ==> x * q <= y * q
  {}

  /** Bit patterns read as sign and magnitude are in the order of the numbers they stand for. */
  lemma FloatOrderIsValueOrder(a: Bytes, b: Bytes)
    requires |a| == 4 && |b| == 4 && Finite(a) && Finite(b)
    ensures Sign(FloatOrder(a) - FloatOrder(b)) == Compare(FloatV(FloatValue(a)), FloatV(FloatValue(b)))
  {
    var m, n := FloatOrder(a), FloatOrder(b);
    hide SignedScaled, FloatOrder, Finite;
    DivideKeepsOrder(SignedScaled(m), SignedScaled(n), Pow2(149));
    if m < n { SignedGrows(m, n); } else if n < m { SignedGrows(n, m); }
  }

  // ---- strings ---------------------------------------------------------------------------------

  predicate ByteChars(s: string)
  {
    forall i :: 0 <= i < |s| ==> (s[i] as int) < 256
  }

  predicate OnlyNul(s: string)
  {
    forall i :: 0 <= i < |s| ==> s[i] == '\0'
  }

  /** A string in a column of n bytes, filled up with zeros. */
  function Padded(s: string, n: nat): (b: Bytes)
    requires ByteChars(s) && |s| <= n
    ensures |b| == n
  {
    if n == 0 then []
    else if s == "" then [0] + Padded(s, n - 1)
    else [s[0] as int as byte] + Padded(s[1..], n - 1)
  }

  /** The strings differ in zeros at the end at most. */
  predicate SameUpToNul(x: string, y: string)
  {
    if x == "" then OnlyNul(y)
    else if y == "" then OnlyNul(x)
    else x[0] == y[0] && SameUpToNul(x[1..], y[1..])
  }

  lemma {:induction false} PaddedOrder(x: string, y: string, n: nat)
    requires ByteChars(x) && ByteChars(y) && |x| <= n && |y| <= n
    ensures SameUpToNul(x, y) ==> CompareBytes(Padded(x, n), Padded(y, n)) == 0
    ensures !SameUpToNul(x, y) ==> CompareBytes(Padded(x, n), Padded(y, n)) == CompareStrings(x, y)
    decreases n
  {
    if n > 0 {
      var x', y' := if x == "" then x else x[1..], if y == "" then y else y[1..];
      PaddedOrder(x', y', n - 1);
      var a, b := Padded(x, n), Padded(y, n);
      assert a[1..] == Padded(x', n - 1) && b[1..] == Padded(y', n - 1);
      NulCases(x);
      NulCases(y);
    }
  }

  lemma NulCases(s: string)
    ensures s != "" ==> (OnlyNul(s) <==> s[0] == '\0' && OnlyNul(s[1..]))
    ensures SameUpToNul("", s) <==> OnlyNul(s)
    ensures SameUpToNul(s, "") <==> OnlyNul(s)
  {
    if s != "" {
      assert forall i :: 0 < i < |s| ==> s[i] == s[1..][i - 1];
    }
  }

  lemma {:induction false} EqualStrings(x: string, y: string)
    ensures CompareStrings(x, y) == 0 <==> x == y
  {
    if x != "" && y != "" {
      EqualStrings(x[1..], y[1..]);
      assert x == [x[0]] + x[1..] && y == [y[0]] + y[1..];
    }
  }

  /** The byte order of padded strings is their order exactly if they do not differ in zeros at the end alone. */
  lemma StringOrder(x: string, y: string, n: nat)
    requires ByteChars(x) && ByteChars(y) && |x| <= n && |y| <= n
    ensures CompareBytes(Padded(x, n), Padded(y, n)) == CompareStrings(x, y) <==> (SameUpToNul(x, y) ==> x == y)
  {
    PaddedOrder(x, y, n);
    EqualStrings(x, y);
  }

  lemma NulAtEndIsLost()
    ensures CompareBytes(Padded("a", 2), Padded("a\0", 2)) == 0 && CompareStrings("a", "a\0") != 0
  {
    NulCases("\0");
    assert "a\0"[1..] == "\0" && "a"[1..] == "" && OnlyNul("\0") && SameUpToNul("a", "a\0");
    PaddedOrder("a", "a\0", 2);
    EqualStrings("a", "a\0");
  }

  predicate NoNul(s: string)
  {
    '\0' !in s
  }

  lemma NotOnlyNul(s: string)
    requires NoNul(s)
    ensures s != "" ==> !OnlyNul(s)
  {
    if s != "" { assert s[0] in s; }
  }

  lemma {:induction false} NoNulDiffer(x: string, y: string)
    requires NoNul(x) && NoNul(y) && SameUpToNul(x, y)
    ensures x == y
  {
    NotOnlyNul(x);
    NotOnlyNul(y);
    if x != "" && y != "" {
      NoNulDiffer(x[1..], y[1..]);
      assert x == [x[0]] + x[1..] && y == [y[0]] + y[1..];
    }
  }

  // ---- values ----------------------------------------------------------------------------------

  /** The bytes hold the value in a column of this kind. */
  predicate HoldsValue(b: Bytes, v: Value, c: Column)
    requires ValidColumn(c)
  {
    && |b| == c.len
    && match c.ctype
       case TInt => v == IntV(IntOf(b))
       case TFloat => Finite(b) && v == FloatV(FloatValue(b))
       case TString => v.StrV? && ByteChars(v.s) && NoNul(v.s) && |v.s| <= c.len && b == Padded(v.s, c.len)
  }

  /** Comparing the bytes of two values of a column is comparing the values. */
  lemma ByteOrderIsValueOrder(a: Bytes, b: Bytes, v: Value, w: Value, c: Column)
    requires ValidColumn(c) && HoldsValue(a, v, c) && HoldsValue(b, w, c)
    ensures CompareColumn(a, b, c) == Compare(v, w)
  {
    match c.ctype
    case TInt =>
    case TFloat =>
      FiniteIsNumber(a);
      FiniteIsNumber(b);
      FloatOrderIsValueOrder(a, b);
    case TString =>
      if SameUpToNul(v.s, w.s) { NoNulDiffer(v.s, w.s); }
      StringOrder(v.s, w.s, c.len);
  }

  lemma FiniteIsNumber(b: Bytes)
    requires |b| == 4 && Finite(b)
    ensures !IsNaN(b)
  {}

  // ---- literals --------------------------------------------------------------------------------

  /** A literal; raw is its encoding where the analyzer has already made it. */
  datatype Literal = Literal(vtype: ColType, word: Bytes, text: Bytes, raw: Option<Bytes>)

  predicate ValueOk(v: Literal)
  {
    |v.word| == 4
  }

  function Chars(t: Bytes): (s: string)
    ensures |s| == |t| && forall i :: 0 <= i < |t| ==> s[i] as int == t[i] as int
  {
    seq(|t|, i requires 0 <= i < |t| => t[i] as int as char)
  }

  lemma {:induction false} PaddedChars(t: Bytes, n: nat)
    requires |t| <= n
    ensures ByteChars(Chars(t)) && Padded(Chars(t), n) == t + seq(n - |t|, _ => 0)
    decreases n
  {
    if n > 0 {
      if t == [] {
        PaddedChars(t, n - 1);
        assert Chars(t) == "" && Padded("", n) == [0] + Padded("", n - 1);
      } else {
        PaddedChars(t[1..], n - 1);
        assert Chars(t)[1..] == Chars(t[1..]) && Chars(t)[0] as int == t[0] as int;
        assert t == [t[0]] + t[1..];
      }
    }
  }

  /** The value of a literal, leaving numbers that are not finite and strings with a zero in them aside. */
  function ValueOf(l: Literal): Value
    requires ValueOk(l) && HasValue(l)
  {
    match l.vtype
    case TInt => IntV(IntOf(l.word))
    case TFloat => FloatV(FloatValue(l.word))
    case TString => StrV(Chars(l.text))
  }

  predicate HasValue(l: Literal)
    requires ValueOk(l)
  {
    (l.vtype.TFloat? ==> Finite(l.word)) && (l.vtype.TString? ==> 0 !in l.text)
  }

  // ---- index lookup ----------------------------------------------------------------------------

  /** The columns of the record, and the literals, hold these values. */
  ghost predicate RowHolds(record: Bytes, cols: seq<IndexColumn>, lits: seq<Bytes>, vs: seq<Value>, ws: seq<Value>)
    requires IndexKeys.Fits(cols, |record|) && Literals(lits, cols)
  {
    && |vs| == |ws| == |cols|
    && forall i :: 0 <= i < |cols| ==> ColumnHolds(record, cols, lits, vs[i], ws[i], i)
  }

  ghost predicate ColumnHolds(record: Bytes, cols: seq<IndexColumn>, lits: seq<Bytes>, v: Value, w: Value, i: nat)
    requires IndexKeys.Fits(cols, |record|) && Literals(lits, cols) && i < |cols|
  {
    assert cols[i] in cols;
    var c := cols[i];
    HoldsValue(record[c.offset..c.offset + c.col.len], v, c.col) && HoldsValue(lits[i], w, c.col)
  }

  /** An index lookup by bytes finds a record exactly if its values equal the literals. */
  lemma LookupIsByValue(record: Bytes, cols: seq<IndexColumn>, lits: seq<Bytes>, vs: seq<Value>, ws: seq<Value>)
    requires IndexKeys.Fits(cols, |record|) && Literals(lits, cols) && RowHolds(record, cols, lits, vs, ws)
    ensures IsKey(KeyOf(record, cols), KeyColumns(cols)) && IsKey(LiteralKey(lits), KeyColumns(cols))
    ensures CompareKey(KeyOf(record, cols), LiteralKey(lits), KeyColumns(cols)) == 0 <==>
      forall i :: 0 <= i < |cols| ==> Compare(vs[i], ws[i]) == 0
  {
    LookupIsExact(record, cols, lits);
    hide KeyOf, LiteralKey, CompareKey, IsKey, Compare, CompareColumn;
    forall i | 0 <= i < |cols| ensures Matches(record, cols, lits, i) <==> Compare(vs[i], ws[i]) == 0 {
      MatchIsByValue(record, cols, lits, vs[i], ws[i], i);
    }
  }

  lemma MatchIsByValue(record: Bytes, cols: seq<IndexColumn>, lits: seq<Bytes>, v: Value, w: Value, i: nat)
    requires IndexKeys.Fits(cols, |record|) && Literals(lits, cols) && i < |cols| && ColumnHolds(record, cols, lits, v, w, i)
    ensures Matches(record, cols, lits, i) <==> Compare(v, w) == 0
  {
    assert cols[i] in cols;
    var c := cols[i];
    ByteOrderIsValueOrder(record[c.offset..c.offset + c.col.len], lits[i], v, w, c.col);
  }

  /**
    What an index scan plan looks up is what it asks for: by bytes the index finds a record
    exactly if the record's values match the plan's key literals, and so it finds every record that
    satisfies the scan's conditions.
   */
  lemma PlannedLookup(p: Plans.Plan, db: Database, e: Env, record: Bytes, cols: seq<IndexColumn>, lits: seq<Bytes>,
                      vs: seq<Value>, ws: seq<Value>)
    requires p.Scan? && Plans.IndexUsable(p) && |cols| == |p.indexCols| && IndexKeys.Fits(cols, |record|) && Literals(lits, cols)
    requires RowHolds(record, cols, lits, vs, ws)
    requires forall i :: 0 <= i < |cols| ==>
      vs[i] == Cell(db, e, TabCol(p.tab, p.indexCols[i])) && Plans.KeyLiteral(p.conds, p.tab, p.indexCols[i]) == Some(ws[i])
    ensures IsKey(KeyOf(record, cols), KeyColumns(cols)) && IsKey(LiteralKey(lits), KeyColumns(cols))
    ensures CompareKey(KeyOf(record, cols), LiteralKey(lits), KeyColumns(cols)) == 0 <==>
      Plans.KeyMatches(p.tab, p.conds, p.indexCols, db, e)
    ensures Query.Holds(p.conds, db, e) ==> CompareKey(KeyOf(record, cols), LiteralKey(lits), KeyColumns(cols)) == 0
  {
    LookupIsByValue(record, cols, lits, vs, ws);
    if Query.Holds(p.conds, db, e) { Plans.IndexLookupLosesNothing(p, db, e); }
    hide KeyOf, LiteralKey, CompareKey, IsKey, Compare;
    if Plans.KeyMatches(p.tab, p.conds, p.indexCols, db, e) {
      forall i | 0 <= i < |cols| ensures Compare(vs[i], ws[i]) == 0 {
        assert p.indexCols[i] in p.indexCols;
      }
    }
  }
}
