/**
  Composite index keys: how they are cut out of records and how they compare.

  Keys are byte strings.  Integers and floats are stored in little-endian order; a float
  is compared by its IEEE-754 bit pattern read as sign and magnitude, which orders all
  numbers as the processor does.  A NaN is neither below nor above anything, so it
  compares equal to every float.
 */
module IndexKeys {
  import opened Basics

  datatype Column = Column(ctype: ColType, len: int)

  type Key = seq<byte>

  // ---- single columns ------------------------------------------------------

  function Word(b: seq<byte>): (w: nat)
    requires |b| == 4
    ensures w < 0x1_0000_0000
  {
    (b[0] as int) + 0x100 * (b[1] as int) + 0x1_0000 * (b[2] as int) + 0x100_0000 * (b[3] as int)
  }

  function IntOf(b: seq<byte>): int
    requires |b| == 4
  {
    var w := Word(b);
    if w >= 0x8000_0000 then w - 0x1_0000_0000 else w
  }

  predicate IsNaN(b: seq<byte>)
    requires |b| == 4
  {
    Word(b) % 0x8000_0000 > 0x7F80_0000
  }

  /** Sign and magnitude of a float as one integer; both zeros give 0. */
  /** A NaN has all exponent bits set and some fraction bit. */
  lemma NaNByBits(b: seq<byte>)
    requires |b| == 4
    ensures IsNaN(b) <==> Word(b) / 0x80_0000 % 0x100 == 0xFF && Word(b) % 0x80_0000 != 0
  {}

  function FloatOrder(b: seq<byte>): int
    requires |b| == 4
  {
    var w := Word(b);
    if w >= 0x8000_0000 then -(w - 0x8000_0000) else w
  }

  function Sign(d: int): int
  {
    if d < 0 then -1 else if d > 0 then 1 else 0
  }

  function CompareBytes(a: seq<byte>, b: seq<byte>): int
    requires |a| == |b|
  {
    if a == [] then 0
    else if a[0] != b[0] then Sign(a[0] as int - b[0] as int)
    else CompareBytes(a[1..], b[1..])
  }

  predicate ValidColumn(c: Column)
  {
    c.len > 0 && (c.ctype.TString? || c.len == 4)
  }

  function CompareColumn(a: seq<byte>, b: seq<byte>, c: Column): int
    requires ValidColumn(c) && |a| == |b| == c.len
  {
    match c.ctype
    case TInt => Sign(IntOf(a) - IntOf(b))
    case TFloat => if IsNaN(a) || IsNaN(b) then 0 else Sign(FloatOrder(a) - FloatOrder(b))
    case TString => CompareBytes(a, b)
  }

  // ---- composite keys --------------------------------------------------------

  predicate ValidColumns(cols: seq<Column>)
  {
    forall c :: c in cols ==> ValidColumn(c)
  }

  function KeyLen(cols: seq<Column>): (n: int)
    ensures ValidColumns(cols) ==> n >= 0
  {
    if cols == [] then 0 else (assert cols[0] in cols; cols[0].len) + KeyLen(cols[1..])
  }

  predicate IsKey(k: Key, cols: seq<Column>)
  {
    ValidColumns(cols) && |k| == KeyLen(cols)
  }

  /** The first column that differs decides. */
  function CompareKey(a: Key, b: Key, cols: seq<Column>): int
    requires IsKey(a, cols) && IsKey(b, cols)
  {
    if cols == [] then 0
    else
      assert cols[0] in cols;
      var n := cols[0].len;
      assert KeyLen(cols[1..]) >= 0;
      var first := CompareColumn(a[..n], b[..n], cols[0]);
      if first != 0 then first else CompareKey(a[n..], b[n..], cols[1..])
  }

  function Columns(types: seq<ColType>, lens: seq<int>): (cols: seq<Column>)
    requires |types| == |lens|
    ensures |cols| == |types| && forall i :: 0 <= i < |types| ==> cols[i] == Column(types[i], lens[i])
  {
    seq(|types|, i requires 0 <= i < |types| => Column(types[i], lens[i]))
  }

  /** The number of columns before the first that is not valid. */
  function ValidPrefix(cols: seq<Column>): (n: nat)
    ensures n <= |cols| && ValidColumns(cols[..n]) && (n < |cols| ==> !ValidColumn(cols[n]))
  {
    if cols == [] || !ValidColumn(cols[0]) then 0
    else
      var n := ValidPrefix(cols[1..]);
      assert cols[..n + 1] == [cols[0]] + cols[1..][..n];
      n + 1
  }

  /** The keys compare so far as equal: what is left of them decides. */
  predicate Undecided(a: Key, b: Key, cols: seq<Column>, offset: int, i: nat)
    requires IsKey(a, cols) && IsKey(b, cols)
  {
    && 0 <= offset <= |a| && i <= |cols| && IsKey(a[offset..], cols[i..]) && IsKey(b[offset..], cols[i..])
    && CompareKey(a, b, cols) == CompareKey(a[offset..], b[offset..], cols[i..])
  }

  lemma DecideColumn(a: Key, b: Key, cols: seq<Column>, offset: int, i: nat)
    requires IsKey(a, cols) && IsKey(b, cols) && i < |cols| && Undecided(a, b, cols, offset, i)
    ensures var c := cols[i];
      && ValidColumn(c) && offset + c.len <= |a| == |b|
      && var order := CompareColumn(a[offset..offset + c.len], b[offset..offset + c.len], c);
         if order != 0 then CompareKey(a, b, cols) == order else Undecided(a, b, cols, offset + c.len, i + 1)
  {
    var c, rest := cols[i], cols[i..];
    assert c in cols && rest[0] == c && rest[1..] == cols[i + 1..] && KeyLen(rest[1..]) >= 0;
    var x, y := a[offset..], b[offset..];
    assert x[..c.len] == a[offset..offset + c.len] && y[..c.len] == b[offset..offset + c.len];
    assert x[c.len..] == a[offset + c.len..] && y[c.len..] == b[offset + c.len..];
  }

  /**
    compare_index_key over raw metadata; None where it throws.  The keys are the bytes it may
    read, those of the columns before the first that is not valid.  That column
    is found exactly if all columns before it are equal.
   */
  method CompareIndexKey(left: Key, right: Key, types: seq<ColType>, lens: seq<int>) returns (r: Option<int>)
    requires |types| == |lens| ==>
      var cols := Columns(types, lens);
      IsKey(left, cols[..ValidPrefix(cols)]) && IsKey(right, cols[..ValidPrefix(cols)])
    ensures |types| != |lens| ==> r.None?
    ensures |types| == |lens| ==>
      var cols := Columns(types, lens);
      var order := CompareKey(left, right, cols[..ValidPrefix(cols)]);
      r == if order != 0 || ValidColumns(cols) then Some(order) else None
  {
    if |types| != |lens| { return None; }
    ghost var all := Columns(types, lens);
    ghost var n := ValidPrefix(all);
    ghost var cols := all[..n];
    assert n < |all| ==> all[n] in all;
    assert n == |all| ==> cols == all;
    var offset := 0;
    assert left[0..] == left && right[0..] == right && cols[0..] == cols;
    for i := 0 to |types|
      invariant i <= n && Undecided(left, right, cols, offset, i)
    {
      var c := Column(types[i], lens[i]);
      if i < n { DecideColumn(left, right, cols, offset, i); }
      if !ValidColumn(c) { return None; }
      var order := CompareColumn(left[offset..offset + c.len], right[offset..offset + c.len], c);
      if order != 0 { return Some(order); }
      offset := offset + c.len;
    }
    return Some(0);
  }

  // ---- the order -----------------------------------------------------------------

  predicate NoNaNColumn(b: seq<byte>, c: Column)
    requires ValidColumn(c) && |b| == c.len
  {
    c.ctype.TFloat? ==> !IsNaN(b)
  }

  predicate NoNaN(k: Key, cols: seq<Column>)
    requires IsKey(k, cols)
  {
    cols == [] ||
    (assert cols[0] in cols; assert KeyLen(cols[1..]) >= 0;
     NoNaNColumn(k[..cols[0].len], cols[0]) && NoNaN(k[cols[0].len..], cols[1..]))
  }

  lemma {:induction false} CompareBytesOrder(a: seq<byte>, b: seq<byte>, c: seq<byte>)
    requires |a| == |b| == |c|
    ensures CompareBytes(b, a) == -CompareBytes(a, b) && CompareBytes(a, a) == 0
    ensures CompareBytes(a, b) <= 0 && CompareBytes(b, c) <= 0 ==>
      && CompareBytes(a, c) <= 0
      && (CompareBytes(a, b) < 0 || CompareBytes(b, c) < 0 ==> CompareBytes(a, c) < 0)
  {
    if a != [] {
      CompareBytesOrder(a[1..], b[1..], c[1..]);
    }
  }

  /** Without NaN a column compares as a total preorder. */
  lemma ColumnOrder(a: seq<byte>, b: seq<byte>, d: seq<byte>, c: Column)
    requires ValidColumn(c) && |a| == |b| == |d| == c.len
    ensures CompareColumn(b, a, c) == -CompareColumn(a, b, c) && CompareColumn(a, a, c) == 0
    ensures NoNaNColumn(b, c) && CompareColumn(a, b, c) <= 0 && CompareColumn(b, d, c) <= 0 && NoNaNColumn(a, c) && NoNaNColumn(d, c) ==>
      && CompareColumn(a, d, c) <= 0
      && (CompareColumn(a, b, c) < 0 || CompareColumn(b, d, c) < 0 ==> CompareColumn(a, d, c) < 0)
  {
    if c.ctype.TString? { CompareBytesOrder(a, b, d); }
  }

  lemma {:induction false} CompareKeyFlips(a: Key, b: Key, cols: seq<Column>)
    requires IsKey(a, cols) && IsKey(b, cols)
    ensures CompareKey(b, a, cols) == -CompareKey(a, b, cols) && CompareKey(a, a, cols) == 0
  {
    if cols != [] {
      assert cols[0] in cols;
      var n := cols[0].len;
      assert KeyLen(cols[1..]) >= 0;
      ColumnOrder(a[..n], b[..n], b[..n], cols[0]);
      CompareKeyFlips(a[n..], b[n..], cols[1..]);
    }
  }

  lemma {:induction false} CompareKeyTransitive(a: Key, b: Key, d: Key, cols: seq<Column>)
    requires IsKey(a, cols) && IsKey(b, cols) && IsKey(d, cols)
    requires NoNaN(a, cols) && NoNaN(b, cols) && NoNaN(d, cols)
    requires CompareKey(a, b, cols) <= 0 && CompareKey(b, d, cols) <= 0
    ensures CompareKey(a, d, cols) <= 0
    ensures CompareKey(a, b, cols) < 0 || CompareKey(b, d, cols) < 0 ==> CompareKey(a, d, cols) < 0
  {
    if cols != [] {
      assert cols[0] in cols;
      var n := cols[0].len;
      assert KeyLen(cols[1..]) >= 0;
      ColumnOrder(a[..n], b[..n], d[..n], cols[0]);
      if CompareColumn(a[..n], b[..n], cols[0]) == 0 && CompareColumn(b[..n], d[..n], cols[0]) == 0 {
        ColumnOrder(b[..n], a[..n], d[..n], cols[0]);
        ColumnOrder(d[..n], b[..n], a[..n], cols[0]);
        CompareKeyTransitive(a[n..], b[n..], d[n..], cols[1..]);
      }
    }
  }

  /** The keys between which k can stand are themselves in order. */
  ghost predicate Separates(k: Key, cols: seq<Column>)
    requires IsKey(k, cols)
  {
    forall a, b | IsKey(a, cols) && IsKey(b, cols) && NoNaN(a, cols) && NoNaN(b, cols) ::
      CompareKey(a, k, cols) <= 0 && CompareKey(k, b, cols) <= 0 ==> CompareKey(a, b, cols) <= 0
  }

  const ONE: seq<byte> := [0, 0, 0x80, 0x3F]
  const TWO: seq<byte> := [0, 0, 0, 0x40]

  /** k with each NaN column replaced by the float f. */
  function Without(k: Key, cols: seq<Column>, f: seq<byte>): (r: Key)
    requires IsKey(k, cols) && |f| == 4 && !IsNaN(f)
    ensures IsKey(r, cols) && NoNaN(r, cols)
  {
    if cols == [] then []
    else
      assert cols[0] in cols;
      var n := cols[0].len;
      assert KeyLen(cols[1..]) >= 0;
      var first := if NoNaNColumn(k[..n], cols[0]) then k[..n] else f;
      var rest := Without(k[n..], cols[1..], f);
      assert (first + rest)[..n] == first && (first + rest)[n..] == rest;
      first + rest
  }

  lemma {:induction false} WithoutCompares(k: Key, cols: seq<Column>, f: seq<byte>)
    requires IsKey(k, cols) && |f| == 4 && !IsNaN(f)
    ensures CompareKey(Without(k, cols, f), k, cols) == 0 && CompareKey(k, Without(k, cols, f), cols) == 0
  {
    if cols != [] {
      assert cols[0] in cols;
      var n := cols[0].len;
      assert KeyLen(cols[1..]) >= 0;
      var first := if NoNaNColumn(k[..n], cols[0]) then k[..n] else f;
      var rest := Without(k[n..], cols[1..], f);
      assert (first + rest)[..n] == first && (first + rest)[n..] == rest;
      ColumnOrder(k[..n], k[..n], k[..n], cols[0]);
      WithoutCompares(k[n..], cols[1..], f);
    }
  }

  lemma {:induction false} NaNBreaksOrder(k: Key, cols: seq<Column>)
    requires IsKey(k, cols) && !NoNaN(k, cols) && !IsNaN(ONE) && !IsNaN(TWO)
    ensures CompareKey(Without(k, cols, TWO), Without(k, cols, ONE), cols) > 0
  {
    assert cols[0] in cols;
    var n := cols[0].len;
    assert KeyLen(cols[1..]) >= 0;
    var rest1, rest2 := Without(k[n..], cols[1..], ONE), Without(k[n..], cols[1..], TWO);
    if NoNaNColumn(k[..n], cols[0]) {
      NaNBreaksOrder(k[n..], cols[1..]);
      ColumnOrder(k[..n], k[..n], k[..n], cols[0]);
      assert (k[..n] + rest1)[..n] == k[..n] && (k[..n] + rest1)[n..] == rest1;
      assert (k[..n] + rest2)[..n] == k[..n] && (k[..n] + rest2)[n..] == rest2;
    } else {
      assert (ONE + rest1)[..n] == ONE && (TWO + rest2)[..n] == TWO;
    }
  }

  /** A key takes its place in the order exactly when none of its float columns is NaN. */
  lemma SeparatesExactlyWithoutNaN(k: Key, cols: seq<Column>)
    requires IsKey(k, cols)
    ensures Separates(k, cols) <==> NoNaN(k, cols)
  {
    if NoNaN(k, cols) {
      forall a, b | IsKey(a, cols) && IsKey(b, cols) && NoNaN(a, cols) && NoNaN(b, cols) &&
                    CompareKey(a, k, cols) <= 0 && CompareKey(k, b, cols) <= 0
        ensures CompareKey(a, b, cols) <= 0
      {
        CompareKeyTransitive(a, k, b, cols);
      }
    } else {
      assert Word(ONE) == 0x3F80_0000 && Word(TWO) == 0x4000_0000;
      NaNBreaksOrder(k, cols);
      WithoutCompares(k, cols, ONE);
      WithoutCompares(k, cols, TWO);
    }
  }

  /** The NaN the processor makes is such a key: it compares equal to keys that differ in order. */
  lemma NaNDoesNotSeparate()
    ensures var k, cols := [0, 0, 0xC0, 0x7F], [Column(TFloat, 4)]; IsKey(k, cols) && !Separates(k, cols)
  {
    var k: Key, cols := [0, 0, 0xC0, 0x7F], [Column(TFloat, 4)];
    assert cols[1..] == [] && KeyLen(cols) == 4;
    assert k[..4] == k && IsNaN(k);
    SeparatesExactlyWithoutNaN(k, cols);
  }

  // ---- keys cut out of records ----------------------------------------------------

  /** One column of an index: where it lies in the record, its type and length. */
  datatype IndexColumn = IndexColumn(offset: int, col: Column)

  predicate Fits(cols: seq<IndexColumn>, n: int)
  {
    forall c :: c in cols ==> ValidColumn(c.col) && 0 <= c.offset && c.offset + c.col.len <= n
  }

  function KeyColumns(cols: seq<IndexColumn>): (r: seq<Column>)
    ensures |r| == |cols| && forall i :: 0 <= i < |cols| ==> r[i] == cols[i].col
  {
    seq(|cols|, i requires 0 <= i < |cols| => cols[i].col)
  }

  /** The indexed columns of a record, one after the other. */
  function KeyOf(record: seq<byte>, cols: seq<IndexColumn>): Key
    requires Fits(cols, |record|)
  {
    if cols == [] then []
    else
      assert cols[0] in cols;
      record[cols[0].offset..cols[0].offset + cols[0].col.len] + KeyOf(record, cols[1..])
  }

  lemma {:induction false} KeyOfIsKey(record: seq<byte>, cols: seq<IndexColumn>)
    requires Fits(cols, |record|)
    ensures IsKey(KeyOf(record, cols), KeyColumns(cols))
  {
    if cols != [] {
      assert cols[0] in cols;
      KeyOfIsKey(record, cols[1..]);
      assert KeyColumns(cols)[1..] == KeyColumns(cols[1..]);
      assert KeyColumns(cols) == [cols[0].col] + KeyColumns(cols[1..]);
    }
  }

  lemma KeyOfCons(record: seq<byte>, c: IndexColumn, rest: seq<IndexColumn>)
    requires Fits([c] + rest, |record|)
    ensures Fits(rest, |record|) && 0 <= c.offset && 0 < c.col.len && c.offset + c.col.len <= |record|
    ensures KeyOf(record, [c] + rest) == record[c.offset..c.offset + c.col.len] + KeyOf(record, rest)
  {
    FitsCons(c, rest, |record|);
    hide Fits;
    assert ([c] + rest)[1..] == rest;
  }

  method MakeKey(record: seq<byte>, cols: seq<IndexColumn>) returns (key: Key)
    requires Fits(cols, |record|)
    ensures key == KeyOf(record, cols) && IsKey(key, KeyColumns(cols))
  {
    hide KeyOf, Fits, IsKey, KeyColumns;
    key := [];
    ghost var rest := cols;
    for i := 0 to |cols|
      invariant rest == cols[i..] && Fits(rest, |record|) && key + KeyOf(record, rest) == KeyOf(record, cols)
    {
      assert rest == [cols[i]] + cols[i + 1..];
      KeyOfCons(record, cols[i], cols[i + 1..]);
      rest := cols[i + 1..];
      var part := record[cols[i].offset..cols[i].offset + cols[i].col.len];
      assert key + (part + KeyOf(record, rest)) == key + part + KeyOf(record, rest);
      key := key + part;
    }
    KeyOfNothing(record, rest);
    KeyOfIsKey(record, cols);
  }

  lemma KeyOfNothing(record: seq<byte>, cols: seq<IndexColumn>)
    requires cols == []
    ensures Fits(cols, |record|) && KeyOf(record, cols) == []
  {}

  /** One literal per index column, each encoded to the column's length. */
  predicate Literals(lits: seq<seq<byte>>, cols: seq<IndexColumn>)
  {
    |lits| == |cols| && forall i :: 0 <= i < |cols| ==> ValidColumn(cols[i].col) && |lits[i]| == cols[i].col.len
  }

  function LiteralKey(lits: seq<seq<byte>>): Key
  {
    if lits == [] then [] else lits[0] + LiteralKey(lits[1..])
  }

  lemma {:induction false} LiteralKeyIsKey(lits: seq<seq<byte>>, cols: seq<IndexColumn>)
    requires Literals(lits, cols)
    ensures IsKey(LiteralKey(lits), KeyColumns(cols))
  {
    if cols != [] {
      LiteralKeyIsKey(lits[1..], cols[1..]);
      assert KeyColumns(cols) == [cols[0].col] + KeyColumns(cols[1..]);
      assert KeyColumns(cols)[1..] == KeyColumns(cols[1..]);
    }
  }

  /** The i-th indexed column of the record compares equal to its literal. */
  predicate Matches(record: seq<byte>, cols: seq<IndexColumn>, lits: seq<seq<byte>>, i: nat)
    requires Fits(cols, |record|) && Literals(lits, cols) && i < |cols|
  {
    assert cols[i] in cols;
    CompareColumn(record[cols[i].offset..cols[i].offset + cols[i].col.len], lits[i], cols[i].col) == 0
  }

  lemma CompareKeyStep(first: seq<byte>, rest: Key, lit: seq<byte>, lits: Key, c: Column, cols: seq<Column>)
    requires ValidColumn(c) && |first| == |lit| == c.len && IsKey(rest, cols) && IsKey(lits, cols)
    ensures IsKey(first + rest, [c] + cols) && IsKey(lit + lits, [c] + cols)
    ensures CompareKey(first + rest, lit + lits, [c] + cols) == 0
       <==> CompareColumn(first, lit, c) == 0 && CompareKey(rest, lits, cols) == 0
  {
    assert ([c] + cols)[1..] == cols && ([c] + cols)[0] == c;
    assert (first + rest)[..c.len] == first && (first + rest)[c.len..] == rest;
    assert (lit + lits)[..c.len] == lit && (lit + lits)[c.len..] == lits;
  }

  lemma LiteralKeyCons(lit: seq<byte>, lits: seq<seq<byte>>)
    ensures LiteralKey([lit] + lits) == lit + LiteralKey(lits)
  {
    assert ([lit] + lits)[1..] == lits;
  }

  lemma KeyColumnsCons(c: IndexColumn, cols: seq<IndexColumn>)
    ensures KeyColumns([c] + cols) == [c.col] + KeyColumns(cols)
  {}

  lemma FitsCons(c: IndexColumn, rest: seq<IndexColumn>, n: int)
    requires Fits([c] + rest, n)
    ensures Fits(rest, n) && ValidColumn(c.col) && 0 <= c.offset && c.offset + c.col.len <= n
  {
    var all := [c] + rest;
    assert all[0] == c && c in all;
    forall d | d in rest ensures d in all {}
  }

  lemma MatchesCons(record: seq<byte>, c: IndexColumn, rest: seq<IndexColumn>, lit: seq<byte>, lits: seq<seq<byte>>)
    requires Fits([c] + rest, |record|) && Fits(rest, |record|) && Literals([lit] + lits, [c] + rest) && Literals(lits, rest)
    requires 0 <= c.offset && ValidColumn(c.col) && c.offset + c.col.len <= |record| && |lit| == c.col.len
    ensures AllMatch(record, [c] + rest, [lit] + lits) <==>
      CompareColumn(record[c.offset..c.offset + c.col.len], lit, c.col) == 0 && AllMatch(record, rest, lits)
  {
    var cs, ls := [c] + rest, [lit] + lits;
    assert |lits| == |rest|;
    hide CompareColumn, Fits, Literals;
    assert Matches(record, cs, ls, 0) <==> CompareColumn(record[c.offset..c.offset + c.col.len], lit, c.col) == 0;
    forall i | 0 <= i < |rest| ensures Matches(record, rest, lits, i) <==> Matches(record, cs, ls, i + 1) {
      assert cs[i + 1] == rest[i] && ls[i + 1] == lits[i];
    }
    if AllMatch(record, rest, lits) && Matches(record, cs, ls, 0) {
      forall i | 0 <= i < |cs| ensures Matches(record, cs, ls, i) {
        if i > 0 { assert Matches(record, rest, lits, i - 1); }
      }
    }
  }

  /** Every indexed column of the record compares equal to its literal. */
  ghost predicate AllMatch(record: seq<byte>, cols: seq<IndexColumn>, lits: seq<seq<byte>>)
    requires Fits(cols, |record|) && Literals(lits, cols)
  {
    forall i :: 0 <= i < |cols| ==> Matches(record, cols, lits, i)
  }

  /**
    A record's key compares equal to the key built from the literals exactly when every
    indexed column compares equal to its literal: the lookup sees just the qualifying records.
   */
  lemma {:induction false} LookupIsExact(record: seq<byte>, cols: seq<IndexColumn>, lits: seq<seq<byte>>)
    requires Fits(cols, |record|) && Literals(lits, cols)
    ensures IsKey(KeyOf(record, cols), KeyColumns(cols)) && IsKey(LiteralKey(lits), KeyColumns(cols))
    ensures CompareKey(KeyOf(record, cols), LiteralKey(lits), KeyColumns(cols)) == 0 <==> AllMatch(record, cols, lits)
    decreases |cols|, 1
  {
    KeyOfIsKey(record, cols);
    LiteralKeyIsKey(lits, cols);
    if cols != [] {
      assert cols == [cols[0]] + cols[1..] && lits == [lits[0]] + lits[1..];
      LookupCons(record, cols[0], cols[1..], lits[0], lits[1..], cols, lits);
    }
  }

  lemma {:induction false} LookupCons(record: seq<byte>, c: IndexColumn, rest: seq<IndexColumn>, lit: seq<byte>, others: seq<seq<byte>>,
                                      cols: seq<IndexColumn>, lits: seq<seq<byte>>)
    requires Fits(cols, |record|) && Literals(lits, cols) && cols == [c] + rest && lits == [lit] + others
    ensures IsKey(KeyOf(record, cols), KeyColumns(cols)) && IsKey(LiteralKey(lits), KeyColumns(cols))
    ensures CompareKey(KeyOf(record, cols), LiteralKey(lits), KeyColumns(cols)) == 0 <==> AllMatch(record, cols, lits)
    decreases |cols|, 0
  {
    assert ValidColumn(c.col) by { assert cols[0] == c && c in cols; }
    LiteralsCons(c, rest, lit, others);
    hide *;
    FitsCons(c, rest, |record|);
    KeyOfCons(record, c, rest);
    LiteralKeyCons(lit, others);
    KeyColumnsCons(c, rest);
    LookupIsExact(record, rest, others);
    MatchesCons(record, c, rest, lit, others);
    CompareKeyStep(record[c.offset..c.offset + c.col.len], KeyOf(record, rest), lit, LiteralKey(others), c.col, KeyColumns(rest));
  }

  lemma LiteralsCons(c: IndexColumn, rest: seq<IndexColumn>, lit: seq<byte>, lits: seq<seq<byte>>)
    requires Literals([lit] + lits, [c] + rest)
    ensures Literals(lits, rest) && |lit| == c.col.len
  {
    var cs, ls := [c] + rest, [lit] + lits;
    assert cs[0] == c && ls[0] == lit;
    forall i | 0 <= i < |rest| ensures ValidColumn(rest[i].col) && |lits[i]| == rest[i].col.len {
      assert cs[i + 1] == rest[i] && ls[i + 1] == lits[i];
    }
  }
}
