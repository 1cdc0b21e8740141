/**
  Payloads of the wire protocol: numbers in network byte order, the META payload that
  lists the columns, the ROW payload and the RESULT_END payload.
 */
module WireCodec {
  import opened Basics

  const MAX_PAYLOAD: nat := 0x10_0000

  const TYPE_INT32: byte := 1
  const TYPE_FLOAT32: byte := 2
  const TYPE_CHAR: byte := 3

  newtype int32 = x: int | -0x8000_0000 <= x < 0x8000_0000
  newtype word32 = x: int | 0 <= x < 0x1_0000_0000

  datatype ColumnDef = ColumnDef(name: Bytes, sqlType: byte)

  /** A float is its bit pattern; only the field that belongs to sqlType is used. */
  datatype Cell = Cell(isNull: bool, sqlType: byte, intVal: int32, floatVal: word32, strVal: Bytes)

  /** What an encoder makes: a payload, or the reason there is none. */
  datatype Encoded = Payload(bytes: Bytes) | Refused(why: Refusal)

  datatype Refusal = BadCount | BadName | BadColumnType | LongMeta | NoCell | BadCellType | LongString | LongRow

  function Diagnostic(why: Refusal): string
  {
    match why
    case BadCount => "META column count is out of range"
    case BadName => "META column name is out of range"
    case BadColumnType => "META contains an unknown column type"
    case LongMeta => "META payload exceeds 1 MiB"
    case NoCell => "ROW has no cells"
    case BadCellType => "ROW contains an unknown cell type"
    case LongString => "ROW string cell is out of range"
    case LongRow => "ROW payload exceeds 1 MiB"
  }

  /** A value read from the front of a buffer, and what follows it. */
  datatype Read<T> = Read(value: T, rest: Bytes)

  predicate KnownType(t: byte)
  {
    t == TYPE_INT32 || t == TYPE_FLOAT32 || t == TYPE_CHAR
  }

  // ---- numbers ----------------------------------------------------------------

  function U16(v: nat): (b: Bytes)
    requires v < 0x1_0000
    ensures |b| == 2
  {
    [(v / 0x100) as byte, (v % 0x100) as byte]
  }

  function FromU16(b: Bytes): (v: nat)
    requires |b| == 2
    ensures v < 0x1_0000 && U16(v) == b
  {
    0x100 * b[0] as int + b[1] as int
  }

  function U32(v: nat): (b: Bytes)
    requires v < 0x1_0000_0000
    ensures |b| == 4
  {
    U16(v / 0x1_0000) + U16(v % 0x1_0000)
  }

  function FromU32(b: Bytes): (v: nat)
    requires |b| == 4
    ensures v < 0x1_0000_0000 && U32(v) == b
  {
    var hi, lo := FromU16(b[..2]), FromU16(b[2..]);
    var v := 0x1_0000 * hi + lo;
    assert v / 0x1_0000 == hi && v % 0x1_0000 == lo;
    v
  }

  function U64(v: nat): (b: Bytes)
    requires v < 0x1_0000_0000_0000_0000
    ensures |b| == 8
  {
    U32(v / 0x1_0000_0000) + U32(v % 0x1_0000_0000)
  }

  function FromU64(b: Bytes): (v: nat)
    requires |b| == 8
    ensures v < 0x1_0000_0000_0000_0000 && U64(v) == b
  {
    var hi, lo := FromU32(b[..4]), FromU32(b[4..]);
    var v := 0x1_0000_0000 * hi + lo;
    assert v / 0x1_0000_0000 == hi && v % 0x1_0000_0000 == lo;
    v
  }

  lemma U16RoundTrip(v: nat)
    requires v < 0x1_0000
    ensures FromU16(U16(v)) == v
  {}

  lemma U32RoundTrip(v: nat)
    requires v < 0x1_0000_0000
    ensures FromU32(U32(v)) == v
  {
    assert U32(v)[..2] == U16(v / 0x1_0000) && U32(v)[2..] == U16(v % 0x1_0000);
    U16RoundTrip(v / 0x1_0000);
    U16RoundTrip(v % 0x1_0000);
  }

  lemma U64RoundTrip(v: nat)
    requires v < 0x1_0000_0000_0000_0000
    ensures FromU64(U64(v)) == v
  {
    assert U64(v)[..4] == U32(v / 0x1_0000_0000) && U64(v)[4..] == U32(v % 0x1_0000_0000);
    U32RoundTrip(v / 0x1_0000_0000);
    U32RoundTrip(v % 0x1_0000_0000);
  }

  /** Network byte order: the first byte weighs most. */
  lemma U16Weights(v: nat)
    requires v < 0x1_0000
    ensures v == 0x100 * U16(v)[0] as int + U16(v)[1] as int
  {}

  lemma U32Weights(v: nat)
    requires v < 0x1_0000_0000
    ensures var b := U32(v); v == 0x100_0000 * b[0] as int + 0x1_0000 * b[1] as int + 0x100 * b[2] as int + b[3] as int
  {
    U16Weights(v / 0x1_0000);
    U16Weights(v % 0x1_0000);
  }

  lemma U64Weights(v: nat)
    requires v < 0x1_0000_0000_0000_0000
    ensures var b := U64(v);
      v == 0x100_0000_0000_0000 * b[0] as int + 0x1_0000_0000_0000 * b[1] as int + 0x100_0000_0000 * b[2] as int
         + 0x1_0000_0000 * b[3] as int + 0x100_0000 * b[4] as int + 0x1_0000 * b[5] as int + 0x100 * b[6] as int + b[7] as int
  {
    hide U32;
    U32Weights(v / 0x1_0000_0000);
    U32Weights(v % 0x1_0000_0000);
    assert v == 0x1_0000_0000 * (v / 0x1_0000_0000) + v % 0x1_0000_0000;
  }

  /** The two's complement bits of an integer. */
  function Bits(x: int32): (w: nat)
    ensures w < 0x1_0000_0000 && FromBits(w) == x
  {
    if x < 0 then x as int + 0x1_0000_0000 else x as int
  }

  function FromBits(w: nat): int32
    requires w < 0x1_0000_0000
  {
    if w >= 0x8000_0000 then (w - 0x1_0000_0000) as int32 else w as int32
  }

  // ---- META -----------------------------------------------------------------------

  predicate ColumnOk(c: ColumnDef)
  {
    0 < |c.name| < 0x1_0000 && KnownType(c.sqlType)
  }

  function ColumnBytes(c: ColumnDef): (b: Bytes)
    requires ColumnOk(c)
    ensures |b| == 3 + |c.name|
  {
    U16(|c.name|) + c.name + [c.sqlType]
  }

  /** The length of the name in two bytes, the name, and one byte for the type. */
  lemma ColumnLayout(c: ColumnDef)
    requires ColumnOk(c)
    ensures var b := ColumnBytes(c);
      && |c.name| == 0x100 * b[0] as int + b[1] as int && b[2..2 + |c.name|] == c.name && b[2 + |c.name|] == c.sqlType
  {
    U16Weights(|c.name|);
    hide U16;
  }

  predicate AllColumnsOk(cs: seq<ColumnDef>)
  {
    forall c :: c in cs ==> ColumnOk(c)
  }

  function ColumnsBytes(cs: seq<ColumnDef>): Bytes
    requires AllColumnsOk(cs)
  {
    if cs == [] then [] else (assert cs[0] in cs; ColumnBytes(cs[0])) + ColumnsBytes(cs[1..])
  }

  predicate MetaOk(cs: seq<ColumnDef>)
  {
    0 < |cs| < 0x1_0000 && AllColumnsOk(cs)
  }

  function MetaBytes(cs: seq<ColumnDef>): Bytes
    requires MetaOk(cs)
  {
    U16(|cs|) + ColumnsBytes(cs)
  }

  predicate MetaFits(cs: seq<ColumnDef>)
  {
    MetaOk(cs) && |MetaBytes(cs)| <= MAX_PAYLOAD
  }

  lemma {:induction false} ColumnsBytesSnoc(cs: seq<ColumnDef>, c: ColumnDef)
    requires ColumnOk(c) && AllColumnsOk(cs)
    ensures ColumnsBytes(cs + [c]) == ColumnsBytes(cs) + ColumnBytes(c)
  {
    var all := cs + [c];
    if cs == [] {
      assert all[1..] == [];
    } else {
      assert all[1..] == cs[1..] + [c];
      ColumnsBytesSnoc(cs[1..], c);
    }
  }

  lemma ColumnsBytesPrefix(cs: seq<ColumnDef>, i: nat)
    requires i < |cs| && AllColumnsOk(cs)
    ensures cs[..i + 1] == cs[..i] + [cs[i]] && cs[i] in cs
    ensures ColumnsBytes(cs[..i + 1]) == ColumnsBytes(cs[..i]) + ColumnBytes(cs[i])
  {
    var c := cs[i];
    assert c in cs;
    ColumnsBytesSnoc(cs[..i], c);
  }

  lemma {:induction false} ColumnsBytesGrow(cs: seq<ColumnDef>, i: nat)
    requires i <= |cs| && AllColumnsOk(cs)
    ensures |ColumnsBytes(cs[..i])| <= |ColumnsBytes(cs)|
    decreases |cs| - i
  {
    if i == |cs| {
      assert cs[..i] == cs;
    } else {
      ColumnsBytesPrefix(cs, i);
      ColumnsBytesGrow(cs, i + 1);
    }
  }

  /** What is wrong with the first column from the i-th on that cannot follow size bytes. */
  function ColumnProblem(cs: seq<ColumnDef>, i: nat, size: nat): Option<Refusal>
    decreases |cs| - i
  {
    if i >= |cs| then None
    else if |cs[i].name| == 0 || |cs[i].name| > 0xFFFF then Some(BadName)
    else if !KnownType(cs[i].sqlType) then Some(BadColumnType)
    else if 3 + |cs[i].name| > MAX_PAYLOAD - size then Some(LongMeta)
    else ColumnProblem(cs, i + 1, size + 3 + |cs[i].name|)
  }

  function MetaProblem(cs: seq<ColumnDef>): Option<Refusal>
  {
    if |cs| == 0 || |cs| > 0xFFFF then Some(BadCount) else ColumnProblem(cs, 0, 2)
  }

  /** The encoder accepts exactly what fits into a frame, and never truncates. */
  method TryEncodeMeta(columns: seq<ColumnDef>) returns (r: Encoded)
    ensures MetaProblem(columns).None? <==> MetaFits(columns)
    ensures r == if MetaFits(columns) then Payload(MetaBytes(columns)) else Refused(MetaProblem(columns).value)
  {
    if |columns| == 0 || |columns| > 0xFFFF { return Refused(BadCount); }
    var size: nat := 2;
    hide ColumnsBytes, ColumnBytes;
    assert ColumnsBytes(columns[..0]) == [] by { NoColumns(columns[..0]); }
    for i := 0 to |columns|
      invariant AllColumnsOk(columns[..i]) && ColumnProblem(columns, 0, 2) == ColumnProblem(columns, i, size)
      invariant size == 2 + |ColumnsBytes(columns[..i])| <= MAX_PAYLOAD
    {
      var c := columns[i];
      assert c in columns;
      if |c.name| == 0 || |c.name| > 0xFFFF { return Refused(BadName); }
      if !KnownType(c.sqlType) { return Refused(BadColumnType); }
      assert columns[..i + 1] == columns[..i] + [c];
      ColumnsBytesSnoc(columns[..i], c);
      if 3 + |c.name| > MAX_PAYLOAD - size {
        if AllColumnsOk(columns) { ColumnsBytesGrow(columns, i + 1); }
        return Refused(LongMeta);
      }
      size := size + 3 + |c.name|;
    }
    assert columns[..|columns|] == columns;
    var payload := AppendColumns(columns);
    return Payload(payload);
  }

  lemma NoColumns(cs: seq<ColumnDef>)
    requires cs == []
    ensures ColumnsBytes(cs) == []
  {}

  method AppendColumns(columns: seq<ColumnDef>) returns (payload: Bytes)
    requires MetaOk(columns)
    ensures payload == MetaBytes(columns)
  {
    payload := U16(|columns|);
    for i := 0 to |columns|
      invariant payload == U16(|columns|) + ColumnsBytes(columns[..i])
    {
      ColumnsBytesPrefix(columns, i);
      payload := payload + U16(|columns[i].name|) + columns[i].name + [columns[i].sqlType];
    }
    assert columns[..|columns|] == columns;
  }

  /** Reads one column from the front of a buffer. */
  function ParseColumn(b: Bytes): (r: Option<Read<ColumnDef>>)
    ensures r.Some? ==> ColumnOk(r.value.value) && b == ColumnBytes(r.value.value) + r.value.rest
  {
    if |b| < 2 || FromU16(b[..2]) == 0 then None
    else
      var n := FromU16(b[..2]);
      if |b| - 2 < n + 1 || !KnownType(b[2 + n]) then None
      else Some(Read(ColumnDef(b[2..2 + n], b[2 + n]), b[3 + n..]))
  }

  lemma ParseColumnComplete(c: ColumnDef, rest: Bytes)
    requires ColumnOk(c)
    ensures ParseColumn(ColumnBytes(c) + rest) == Some(Read(c, rest))
  {
    var b := ColumnBytes(c) + rest;
    U16RoundTrip(|c.name|);
    assert b[..2] == U16(|c.name|) && b[2..2 + |c.name|] == c.name && b[3 + |c.name|..] == rest;
  }

  function After<T>(done: seq<T>, rest: Option<seq<T>>): Option<seq<T>>
  {
    if rest.None? then None else Some(done + rest.value)
  }

  function ParseColumns(b: Bytes, n: nat): Option<seq<ColumnDef>>
    decreases n
  {
    if n == 0 then (if b == [] then Some([]) else None)
    else
      var first := ParseColumn(b);
      if first.None? then None
      else
        After([first.value.value], ParseColumns(first.value.rest, n - 1))
  }

  function ParseMeta(b: Bytes): Option<seq<ColumnDef>>
  {
    if |b| < 2 || FromU16(b[..2]) == 0 then None else ParseColumns(b[2..], FromU16(b[..2]))
  }

  lemma {:induction false} ParseColumnsSound(b: Bytes, n: nat)
    requires ParseColumns(b, n).Some?
    ensures var cs := ParseColumns(b, n).value; |cs| == n && AllColumnsOk(cs) && b == ColumnsBytes(cs)
  {
    if n > 0 {
      var first := ParseColumn(b).value;
      ParseColumnsSound(first.rest, n - 1);
      var cs := ParseColumns(first.rest, n - 1).value;
      assert ([first.value] + cs)[1..] == cs;
    }
  }

  lemma {:induction false} ParseColumnsComplete(cs: seq<ColumnDef>)
    requires AllColumnsOk(cs)
    ensures ParseColumns(ColumnsBytes(cs), |cs|) == Some(cs)
  {
    if cs != [] {
      assert cs[0] in cs;
      ParseColumnComplete(cs[0], ColumnsBytes(cs[1..]));
      ParseColumnsComplete(cs[1..]);
      assert cs == [cs[0]] + cs[1..];
    }
  }

  /** META decodes to the columns it encodes, and to nothing else. */
  lemma ParseMetaExact(b: Bytes, cs: seq<ColumnDef>)
    ensures ParseMeta(b) == Some(cs) <==> MetaOk(cs) && b == MetaBytes(cs)
  {
    if ParseMeta(b) == Some(cs) {
      ParseColumnsSound(b[2..], FromU16(b[..2]));
      assert b == b[..2] + b[2..];
    }
    if MetaOk(cs) && b == MetaBytes(cs) {
      U16RoundTrip(|cs|);
      assert b[..2] == U16(|cs|) && b[2..] == ColumnsBytes(cs);
      ParseColumnsComplete(cs);
    }
  }

  lemma AfterStep<T>(done: seq<T>, x: T, rest: Option<seq<T>>)
    ensures After([], rest) == rest && After(done, None) == None && After(done, Some([])) == Some(done)
    ensures After(done, After([x], rest)) == After(done + [x], rest)
  {
    if rest.Some? {
      assert [] + rest.value == rest.value;
      assert done + ([x] + rest.value) == done + [x] + rest.value;
    }
    assert done + [] == done;
  }

  /** Reads the column at an offset, field by field. */
  method ReadColumn(payload: Bytes, off: nat) returns (r: Option<(ColumnDef, nat)>)
    requires off <= |payload|
    ensures r.None? ==> ParseColumn(payload[off..]) == None
    ensures r.Some? ==>
      && off < r.value.1 <= |payload|
      && ParseColumn(payload[off..]) == Some(Read(r.value.0, payload[r.value.1..]))
  {
    if |payload| - off < 2 { return None; }
    ghost var b := payload[off..];
    assert b[..2] == payload[off..off + 2];
    var n := FromU16(payload[off..off + 2]);
    if n == 0 || |payload| - (off + 2) < n { return None; }
    if |payload| - (off + 2 + n) < 1 || !KnownType(payload[off + 2 + n]) { return None; }
    assert b[2..2 + n] == payload[off + 2..off + 2 + n] && b[3 + n..] == payload[off + 3 + n..];
    return Some((ColumnDef(payload[off + 2..off + 2 + n], payload[off + 2 + n]), off + 3 + n));
  }

  /** The client's loop over the columns of a META payload. */
  method DecodeMeta(payload: Bytes) returns (r: Option<seq<ColumnDef>>)
    ensures r == ParseMeta(payload)
  {
    if |payload| < 2 { return None; }
    var count := FromU16(payload[..2]);
    if count == 0 { return None; }
    r := DecodeColumns(payload, 2, count);
  }

  method DecodeColumns(payload: Bytes, start: nat, count: nat) returns (r: Option<seq<ColumnDef>>)
    requires start <= |payload|
    ensures r == ParseColumns(payload[start..], count)
  {
    var off, columns := start, [];
    ghost var all := ParseColumns(payload[off..], count);
    AfterStep<ColumnDef>([], ColumnDef([], 0), all);
    hide ParseColumn;
    for i := 0 to count
      invariant 0 <= off <= |payload|
      invariant all == After(columns, ParseColumns(payload[off..], count - i))
    {
      var c := ReadColumn(payload, off);
      if c.None? { return None; }
      AfterStep(columns, c.value.0, ParseColumns(payload[c.value.1..], count - i - 1));
      columns, off := columns + [c.value.0], c.value.1;
    }
    AfterStep(columns, ColumnDef([], 0), None);
    if off != |payload| { return None; }
    return Some(columns);
  }

  // ---- ROW --------------------------------------------------------------------------

  predicate CellOk(c: Cell)
  {
    KnownType(c.sqlType) && (!c.isNull && c.sqlType == TYPE_CHAR ==> |c.strVal| < 0x1_0000_0000)
  }

  /** The value part of a cell that is not NULL. */
  function ValueBytes(c: Cell): (b: Bytes)
    requires CellOk(c) && !c.isNull
    ensures |b| == (if c.sqlType == TYPE_CHAR then 4 + |c.strVal| else 4)
  {
    if c.sqlType == TYPE_INT32 then U32(Bits(c.intVal))
    else if c.sqlType == TYPE_FLOAT32 then U32(c.floatVal as int)
    else U32(|c.strVal|) + c.strVal
  }

  function CellBytes(c: Cell): (b: Bytes)
    requires CellOk(c)
    ensures |b| == CellSize(c)
  {
    if c.isNull then [0] else [1] + ValueBytes(c)
  }

  function CellSize(c: Cell): nat
  {
    if c.isNull then 1 else if c.sqlType == TYPE_CHAR then 5 + |c.strVal| else 5
  }

  /** A flag byte, 0 for NULL and 1 for a value; numbers in four bytes, a text behind its length. */
  lemma CellLayout(c: Cell)
    requires CellOk(c)
    ensures c.isNull ==> CellBytes(c) == [0]
    ensures !c.isNull ==>
      var b := CellBytes(c);
      var w := 0x100_0000 * b[1] as int + 0x1_0000 * b[2] as int + 0x100 * b[3] as int + b[4] as int;
      && b[0] == 1
      && (c.sqlType == TYPE_INT32 ==> |b| == 5 && c.intVal as int == if w < 0x8000_0000 then w else w - 0x1_0000_0000)
      && (c.sqlType == TYPE_FLOAT32 ==> |b| == 5 && c.floatVal as int == w)
      && (c.sqlType == TYPE_CHAR ==> w == |c.strVal| && b[5..] == c.strVal)
  {
    if !c.isNull {
      U32Weights(if c.sqlType == TYPE_INT32 then Bits(c.intVal) else if c.sqlType == TYPE_FLOAT32 then c.floatVal as int else |c.strVal|);
      hide U32;
    }
  }

  /** The cell with every unused field at its default, as decoding leaves it. */
  function Canonical(c: Cell): Cell
  {
    if c.isNull then Cell(true, c.sqlType, 0, 0, [])
    else if c.sqlType == TYPE_INT32 then Cell(false, c.sqlType, c.intVal, 0, [])
    else if c.sqlType == TYPE_FLOAT32 then Cell(false, c.sqlType, 0, c.floatVal, [])
    else Cell(false, c.sqlType, 0, 0, c.strVal)
  }

  predicate AllCellsOk(cells: seq<Cell>)
  {
    forall c :: c in cells ==> CellOk(c)
  }

  function RowBytes(cells: seq<Cell>): Bytes
    requires AllCellsOk(cells)
  {
    if cells == [] then [] else (assert cells[0] in cells; CellBytes(cells[0])) + RowBytes(cells[1..])
  }

  function CanonicalRow(cells: seq<Cell>): (r: seq<Cell>)
    ensures |r| == |cells| && forall i :: 0 <= i < |cells| ==> r[i] == Canonical(cells[i])
  {
    seq(|cells|, i requires 0 <= i < |cells| => Canonical(cells[i]))
  }

  function Types(cells: seq<Cell>): (ts: seq<byte>)
    ensures |ts| == |cells| && forall i :: 0 <= i < |cells| ==> ts[i] == cells[i].sqlType
  {
    seq(|cells|, i requires 0 <= i < |cells| => cells[i].sqlType)
  }

  predicate RowFits(cells: seq<Cell>)
  {
    cells != [] && AllCellsOk(cells) && |RowBytes(cells)| <= MAX_PAYLOAD
  }

  lemma {:induction false} RowBytesSnoc(cells: seq<Cell>, c: Cell)
    requires CellOk(c) && AllCellsOk(cells)
    ensures RowBytes(cells + [c]) == RowBytes(cells) + CellBytes(c)
  {
    hide CellBytes, CellOk;
    var all := cells + [c];
    if cells == [] {
      assert all[1..] == [];
    } else {
      assert all[0] == cells[0] && all[1..] == cells[1..] + [c];
      RowBytesSnoc(cells[1..], c);
      assert CellBytes(cells[0]) + (RowBytes(cells[1..]) + CellBytes(c)) == CellBytes(cells[0]) + RowBytes(cells[1..]) + CellBytes(c);
    }
  }

  lemma RowBytesPrefix(cells: seq<Cell>, i: nat)
    requires i < |cells| && AllCellsOk(cells)
    ensures cells[..i + 1] == cells[..i] + [cells[i]] && CellOk(cells[i])
    ensures RowBytes(cells[..i + 1]) == RowBytes(cells[..i]) + CellBytes(cells[i])
  {
    hide RowBytes, CellBytes, CellOk;
    var c := cells[i];
    assert c in cells;
    RowBytesSnoc(cells[..i], c);
  }

  lemma {:induction false} RowBytesGrow(cells: seq<Cell>, i: nat)
    requires i <= |cells| && AllCellsOk(cells)
    ensures |RowBytes(cells[..i])| <= |RowBytes(cells)|
    decreases |cells| - i
  {
    if i == |cells| {
      assert cells[..i] == cells;
    } else {
      RowBytesPrefix(cells, i);
      RowBytesGrow(cells, i + 1);
    }
  }

  lemma NoCells(cells: seq<Cell>)
    requires cells == []
    ensures RowBytes(cells) == []
  {}

  /** What is wrong with the first cell from the i-th on that cannot follow size bytes. */
  function CellProblem(cells: seq<Cell>, i: nat, size: nat): Option<Refusal>
    decreases |cells| - i
  {
    if i >= |cells| then None
    else if !CellOk(cells[i]) then Some(Unmeasurable(cells[i]))
    else if CellSize(cells[i]) > MAX_PAYLOAD - size then Some(LongRow)
    else CellProblem(cells, i + 1, size + CellSize(cells[i]))
  }

  function Unmeasurable(c: Cell): Refusal
  {
    if !KnownType(c.sqlType) then BadCellType else LongString
  }

  function RowProblem(cells: seq<Cell>): Option<Refusal>
  {
    if cells == [] then Some(NoCell) else CellProblem(cells, 0, 0)
  }

  /** The first i cells are fine and take size bytes. */
  predicate Measured(cells: seq<Cell>, i: nat, size: nat)
    requires i <= |cells|
  {
    && AllCellsOk(cells[..i]) && size == |RowBytes(cells[..i])| <= MAX_PAYLOAD
    && CellProblem(cells, 0, 0) == CellProblem(cells, i, size)
  }

  lemma MeasureNext(cells: seq<Cell>, i: nat, size: nat)
    requires i < |cells| && Measured(cells, i, size) && CellOk(cells[i]) && CellSize(cells[i]) <= MAX_PAYLOAD - size
    ensures Measured(cells, i + 1, size + CellSize(cells[i]))
  {
    assert cells[..i + 1] == cells[..i] + [cells[i]];
    hide RowBytes, CellBytes, CellOk, CellSize;
    RowBytesSnoc(cells[..i], cells[i]);
  }

  lemma MeasureFails(cells: seq<Cell>, i: nat, size: nat)
    requires i < |cells| && Measured(cells, i, size) && (CellOk(cells[i]) ==> CellSize(cells[i]) > MAX_PAYLOAD - size)
    ensures !RowFits(cells)
    ensures RowProblem(cells) == Some(if CellOk(cells[i]) then LongRow else Unmeasurable(cells[i]))
  {
    assert cells[i] in cells;
    hide RowBytes, CellBytes, CellOk, CellSize, Unmeasurable;
    if AllCellsOk(cells) {
      RowBytesPrefix(cells, i);
      RowBytesGrow(cells, i + 1);
    }
  }

  lemma MeasureEnds(cells: seq<Cell>, size: nat)
    requires cells != [] && Measured(cells, |cells|, size)
    ensures RowFits(cells) && RowProblem(cells) == None
  {
    assert cells[..|cells|] == cells;
  }

  /** The encoder accepts exactly what fits into a frame, and never truncates. */
  method TryEncodeRow(cells: seq<Cell>) returns (r: Encoded)
    ensures RowProblem(cells).None? <==> RowFits(cells)
    ensures r == if RowFits(cells) then Payload(RowBytes(cells)) else Refused(RowProblem(cells).value)
  {
    if cells == [] { return Refused(NoCell); }
    var size: nat := 0;
    NoCells(cells[..0]);
    assert Measured(cells, 0, 0);
    hide *;
    for i := 0 to |cells|
      invariant Measured(cells, i, size)
    {
      var cellSize, why := MeasureCell(cells[i]);
      if cellSize.None? {
        MeasureFails(cells, i, size);
        return Refused(why);
      }
      if cellSize.value > MAX_PAYLOAD - size {
        MeasureFails(cells, i, size);
        return Refused(LongRow);
      }
      MeasureNext(cells, i, size);
      size := size + cellSize.value;
    }
    MeasureEnds(cells, size);
    FitsAreOk(cells);
    var payload := AppendCells(cells);
    return Payload(payload);
  }

  lemma FitsAreOk(cells: seq<Cell>)
    requires RowFits(cells)
    ensures AllCellsOk(cells)
  {}

  method MeasureCell(c: Cell) returns (size: Option<nat>, why: Refusal)
    ensures size.Some? <==> CellOk(c)
    ensures size.Some? ==> size.value == CellSize(c)
    ensures size.None? ==> why == Unmeasurable(c)
  {
    if !KnownType(c.sqlType) { return None, BadCellType; }
    var n := 1;
    if !c.isNull {
      if c.sqlType == TYPE_CHAR {
        if |c.strVal| > 0xFFFF_FFFF { return None, LongString; }
        n := n + 4 + |c.strVal|;
      } else {
        n := n + 4;
      }
    }
    return Some(n), LongRow;
  }

  method AppendCells(cells: seq<Cell>) returns (payload: Bytes)
    requires AllCellsOk(cells)
    ensures payload == RowBytes(cells)
  {
    payload := [];
    for i := 0 to |cells|
      invariant payload == RowBytes(cells[..i])
    {
      RowBytesPrefix(cells, i);
      payload := payload + CellBytes(cells[i]);
    }
    assert cells[..|cells|] == cells;
  }

  /** Reads a cell of the given type from the front of a buffer. */
  function ParseCell(b: Bytes, t: byte): (r: Option<Read<Cell>>)
  {
    if !KnownType(t) || b == [] || b[0] > 1 then None
    else if b[0] == 0 then Some(Read(Cell(true, t, 0, 0, []), b[1..]))
    else if |b| - 1 < 4 then None
    else
      var w := FromU32(b[1..5]);
      if t == TYPE_INT32 then Some(Read(Cell(false, t, FromBits(w), 0, []), b[5..]))
      else if t == TYPE_FLOAT32 then Some(Read(Cell(false, t, 0, w as word32, []), b[5..]))
      else if w > |b| - 5 then None
      else Some(Read(Cell(false, t, 0, 0, b[5..5 + w]), b[5 + w..]))
  }

  lemma BitsRoundTrip(w: nat)
    requires w < 0x1_0000_0000
    ensures Bits(FromBits(w)) == w
  {}

  lemma ParseCellSound(b: Bytes, t: byte)
    requires ParseCell(b, t).Some?
    ensures
      var r := ParseCell(b, t).value;
      CellOk(r.value) && r.value.sqlType == t && Canonical(r.value) == r.value && b == CellBytes(r.value) + r.rest
  {
    var r := ParseCell(b, t).value;
    if b[0] == 0 {
      assert b == [b[0]] + b[1..];
    } else {
      var w := FromU32(b[1..5]);
      BitsRoundTrip(w);
      assert b == [b[0]] + b[1..5] + b[5..];
      if t == TYPE_CHAR {
        assert b[5..] == b[5..5 + w] + b[5 + w..];
        assert b == [b[0]] + (b[1..5] + b[5..5 + w]) + b[5 + w..];
      }
    }
  }

  lemma ParseCellComplete(c: Cell, rest: Bytes)
    requires CellOk(c)
    ensures ParseCell(CellBytes(c) + rest, c.sqlType) == Some(Read(Canonical(c), rest))
  {
    var b := CellBytes(c) + rest;
    if c.isNull {
      assert b[1..] == rest;
    } else {
      ParseValueComplete(c, rest);
    }
  }

  lemma ParseValueComplete(c: Cell, rest: Bytes)
    requires CellOk(c) && !c.isNull
    ensures ParseCell(CellBytes(c) + rest, c.sqlType) == Some(Read(Canonical(c), rest))
  {
    var b := CellBytes(c) + rest;
    var w := if c.sqlType == TYPE_INT32 then Bits(c.intVal) else if c.sqlType == TYPE_FLOAT32 then c.floatVal as int else |c.strVal|;
    U32RoundTrip(w);
    hide U32, FromU32, Bits, FromBits;
    assert b[1..5] == U32(w);
    if c.sqlType == TYPE_CHAR {
      assert b[5..5 + w] == c.strVal && b[5 + w..] == rest;
    } else {
      assert b[5..] == rest;
    }
  }

  function ParseRow(b: Bytes, ts: seq<byte>): Option<seq<Cell>>
    decreases |ts|
  {
    if ts == [] then (if b == [] then Some([]) else None)
    else
      var first := ParseCell(b, ts[0]);
      if first.None? then None else After([first.value.value], ParseRow(first.value.rest, ts[1..]))
  }

  lemma {:induction false} ParseRowSound(b: Bytes, ts: seq<byte>)
    requires ParseRow(b, ts).Some?
    ensures var row := ParseRow(b, ts).value; AllCellsOk(row) && Types(row) == ts && CanonicalRow(row) == row && b == RowBytes(row)
  {
    if ts != [] {
      hide ParseCell, CellBytes, RowBytes, CellOk, Canonical;
      ParseCellSound(b, ts[0]);
      var first := ParseCell(b, ts[0]).value;
      ParseRowSound(first.rest, ts[1..]);
      var others := ParseRow(first.rest, ts[1..]).value;
      RowCons(first.value, others);
      assert ts == [ts[0]] + ts[1..];
    }
  }

  lemma RowCons(c: Cell, others: seq<Cell>)
    requires CellOk(c) && AllCellsOk(others)
    ensures AllCellsOk([c] + others) && RowBytes([c] + others) == CellBytes(c) + RowBytes(others)
    ensures Types([c] + others) == [c.sqlType] + Types(others)
    ensures CanonicalRow([c] + others) == [Canonical(c)] + CanonicalRow(others)
  {
    hide CellBytes, Canonical, CellOk, RowBytes;
    TypesCons(c, others);
    CanonicalCons(c, others);
    RowBytesCons(c, others);
  }

  lemma RowBytesCons(c: Cell, others: seq<Cell>)
    requires CellOk(c) && AllCellsOk(others)
    ensures AllCellsOk([c] + others) && RowBytes([c] + others) == CellBytes(c) + RowBytes(others)
  {
    hide CellBytes, CellOk;
    assert ([c] + others)[1..] == others;
  }

  lemma TypesCons(c: Cell, others: seq<Cell>)
    ensures Types([c] + others) == [c.sqlType] + Types(others)
  {}

  lemma CanonicalCons(c: Cell, others: seq<Cell>)
    ensures CanonicalRow([c] + others) == [Canonical(c)] + CanonicalRow(others)
  {
    hide Canonical;
  }

  lemma {:induction false} ParseRowComplete(cells: seq<Cell>)
    requires AllCellsOk(cells)
    ensures ParseRow(RowBytes(cells), Types(cells)) == Some(CanonicalRow(cells))
  {
    if cells != [] {
      assert cells[0] in cells;
      var rest := cells[1..];
      ParseCellComplete(cells[0], RowBytes(rest));
      ParseRowComplete(rest);
      assert Types(cells)[1..] == Types(rest);
      assert CanonicalRow(cells) == [Canonical(cells[0])] + CanonicalRow(rest);
    }
  }

  /** A ROW payload decodes under the column types to the cells it encodes, and to nothing else. */
  lemma ParseRowExact(b: Bytes, ts: seq<byte>, row: seq<Cell>)
    ensures ParseRow(b, ts) == Some(row) <==>
      AllCellsOk(row) && Types(row) == ts && CanonicalRow(row) == row && b == RowBytes(row)
  {
    if ParseRow(b, ts) == Some(row) { ParseRowSound(b, ts); }
    if AllCellsOk(row) && Types(row) == ts && CanonicalRow(row) == row && b == RowBytes(row) { ParseRowComplete(row); }
  }

  /** decode_cell with its offset, as the client calls it. */
  method DecodeCell(payload: Bytes, off: nat, t: byte) returns (r: Option<(Cell, nat)>)
    requires off <= |payload|
    ensures r.None? ==> ParseCell(payload[off..], t) == None
    ensures r.Some? ==>
      && off < r.value.1 <= |payload|
      && ParseCell(payload[off..], t) == Some(Read(r.value.0, payload[r.value.1..]))
  {
    ghost var b := payload[off..];
    if !KnownType(t) || |payload| - off < 1 || payload[off] > 1 { return None; }
    if payload[off] == 0 { return Some((Cell(true, t, 0, 0, []), off + 1)); }
    if |payload| - (off + 1) < 4 { return None; }
    assert b[1..5] == payload[off + 1..off + 5] && b[5..] == payload[off + 5..];
    var w := FromU32(payload[off + 1..off + 5]);
    if t == TYPE_INT32 { return Some((Cell(false, t, FromBits(w), 0, []), off + 5)); }
    if t == TYPE_FLOAT32 { return Some((Cell(false, t, 0, w as word32, []), off + 5)); }
    if w > |payload| - (off + 5) { return None; }
    assert b[5..5 + w] == payload[off + 5..off + 5 + w] && b[5 + w..] == payload[off + 5 + w..];
    return Some((Cell(false, t, 0, 0, payload[off + 5..off + 5 + w]), off + 5 + w));
  }

  /** The client's loop over the cells of a ROW payload. */
  method DecodeRow(payload: Bytes, ts: seq<byte>) returns (r: Option<seq<Cell>>)
    ensures r == ParseRow(payload, ts)
  {
    var off, row := 0, [];
    var blank := Cell(true, 0, 0, 0, []);
    assert payload[0..] == payload && ts[0..] == ts;
    AfterStep<Cell>([], blank, ParseRow(payload, ts));
    hide ParseCell;
    for i := 0 to |ts|
      invariant 0 <= off <= |payload|
      invariant ParseRow(payload, ts) == After(row, ParseRow(payload[off..], ts[i..]))
    {
      var c := DecodeCell(payload, off, ts[i]);
      if c.None? { return None; }
      assert ts[i..][1..] == ts[i + 1..];
      AfterStep(row, c.value.0, ParseRow(payload[c.value.1..], ts[i + 1..]));
      row, off := row + [c.value.0], c.value.1;
    }
    AfterStep(row, blank, None);
    if off != |payload| { return None; }
    return Some(row);
  }

  // ---- RESULT_END -----------------------------------------------------------------------

  function ParseEnd(b: Bytes): Option<nat>
  {
    if |b| != 8 then None else Some(FromU64(b))
  }

  /** The row count survives exactly while it fits into 64 bits. */
  lemma ParseEndExact(b: Bytes, n: nat)
    ensures ParseEnd(b) == Some(n) <==> n < 0x1_0000_0000_0000_0000 && b == U64(n)
  {
    if n < 0x1_0000_0000_0000_0000 { U64RoundTrip(n); }
  }
}
