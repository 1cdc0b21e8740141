/**
  What the client is shown of an answer, in the engine's own terms: columns, cells and
  diagnostics are compared with what the engine produced, without the wire in between.
 */
module WireShown {
  import opened Basics
  import opened WireCodec
  import opened WireFrames
  import opened WireClient
  import opened WireServer

  // ---- values ---------------------------------------------------------------------

  /** The engine numbers its types INT 0, FLOAT 1, STRING 2. */
  predicate TypeShown(ctype: int, sqlType: byte)
  {
    || (ctype == 0 && sqlType == TYPE_INT32)
    || (ctype == 1 && sqlType == TYPE_FLOAT32)
    || (ctype == 2 && sqlType == TYPE_CHAR)
  }

  predicate ColumnShown(c: ResultColumn, d: ColumnDef)
  {
    d.name == c.name && TypeShown(c.ctype, d.sqlType)
  }

  /** A cell carries the field of the engine's cell that its type calls for, and is never NULL. */
  predicate CellShown(e: ResultCell, c: Cell)
  {
    && !c.isNull && TypeShown(e.ctype, c.sqlType)
    && (e.ctype == 0 ==> c.intVal == e.intVal)
    && (e.ctype == 1 ==> c.floatVal == e.floatVal)
    && (e.ctype == 2 ==> c.strVal == e.strVal)
  }

  predicate RowShown(row: seq<ResultCell>, cells: Row)
  {
    |cells| == |row| && forall i :: 0 <= i < |row| ==> CellShown(row[i], cells[i])
  }

  // ---- which tables are accepted -----------------------------------------------------

  predicate ColumnAccepted(c: ResultColumn)
  {
    0 <= c.ctype <= 2 && 0 < |c.name| < 0x1_0000
  }

  /** The names with three bytes beside each. */
  function NamesSize(cs: seq<ResultColumn>): nat
  {
    if cs == [] then 0 else 3 + |cs[0].name| + NamesSize(cs[1..])
  }

  /** At least one column, of known types and with names that fit, and rows of these types. */
  predicate TableAccepted(cs: seq<ResultColumn>, rows: seq<seq<ResultCell>>)
  {
    && 0 < |cs| < 0x1_0000 && (forall i :: 0 <= i < |cs| ==> ColumnAccepted(cs[i]))
    && 2 + NamesSize(cs) <= MAX_PAYLOAD
    && forall r :: 0 <= r < |rows| ==>
         |rows[r]| == |cs| && forall i :: 0 <= i < |cs| ==> rows[r][i].ctype == cs[i].ctype
  }

  lemma {:induction false} MetaSize(cs: seq<ResultColumn>)
    requires KnownColumns(cs) && AllColumnsOk(WireColumns(cs))
    ensures |ColumnsBytes(WireColumns(cs))| == NamesSize(cs)
  {
    if cs != [] {
      var ds := WireColumns(cs);
      assert ds[1..] == WireColumns(cs[1..]);
      MetaSize(cs[1..]);
    }
  }

  /** The checks before META are exactly these. */
  lemma AcceptedExactly(cs: seq<ResultColumn>, rows: seq<seq<ResultCell>>)
    ensures Encodable(cs, rows) <==> TableAccepted(cs, rows)
  {
    KnownExactly(cs);
    if KnownColumns(cs) {
      var ds := WireColumns(cs);
      ColumnsExactly(cs);
      if AllColumnsOk(ds) {
        MetaSize(cs);
        assert 0 < |ds| < 0x1_0000 ==> |MetaBytes(ds)| == 2 + NamesSize(cs);
      }
      hide ColumnAccepted, MetaBytes, AllColumnsOk, NamesSize, ColTypeToWire;
    }
  }

  lemma KnownExactly(cs: seq<ResultColumn>)
    ensures KnownColumns(cs) <==> forall i :: 0 <= i < |cs| ==> 0 <= cs[i].ctype <= 2
    ensures KnownColumns(cs) ==> forall i :: 0 <= i < |cs| ==> TypeShown(cs[i].ctype, ColTypeToWire(cs[i].ctype).value)
  {}

  lemma ColumnsExactly(cs: seq<ResultColumn>)
    requires KnownColumns(cs)
    ensures AllColumnsOk(WireColumns(cs)) <==> forall i :: 0 <= i < |cs| ==> ColumnAccepted(cs[i])
  {
    var ds := WireColumns(cs);
    KnownExactly(cs);
    hide ColTypeToWire, KnownColumns;
    if AllColumnsOk(ds) {
      forall i | 0 <= i < |cs| ensures ColumnAccepted(cs[i]) { assert ds[i] in ds; }
    }
  }

  // ---- which rows fit ----------------------------------------------------------------

  /** Five bytes for each value, and the text of a string beside them. */
  function RowSize(row: seq<ResultCell>): nat
  {
    if row == [] then 0 else 5 + (if row[0].ctype == 2 then |row[0].strVal| else 0) + RowSize(row[1..])
  }

  lemma {:induction false} RowSizeExact(row: seq<ResultCell>, cells: seq<Cell>)
    requires |cells| == |row| && forall i :: 0 <= i < |row| ==> CellShown(row[i], cells[i])
    ensures RowSize(row) <= MAX_PAYLOAD <==> AllCellsOk(cells) && |RowBytes(cells)| <= MAX_PAYLOAD
    ensures AllCellsOk(cells) ==> |RowBytes(cells)| == RowSize(row)
  {
    if row != [] {
      assert cells == [cells[0]] + cells[1..];
      RowSizeExact(row[1..], cells[1..]);
      assert AllCellsOk(cells) <==> CellOk(cells[0]) && AllCellsOk(cells[1..]);
      hide AllCellsOk, CellBytes;
    }
  }

  lemma WireRowSize(cs: seq<ResultColumn>, row: seq<ResultCell>)
    requires KnownColumns(cs) && RowMatches(row, cs) && cs != []
    ensures RowFits(WireRow(row, WireColumns(cs))) <==> RowSize(row) <= MAX_PAYLOAD
  {
    KnownExactly(cs);
    var ds := WireColumns(cs);
    var wire := WireRow(row, ds);
    hide ColTypeToWire, WireColumns, WireRow;
    forall i | 0 <= i < |row| ensures CellShown(row[i], wire[i]) {
      assert wire[i] == Cell(false, ds[i].sqlType, row[i].intVal, row[i].floatVal, row[i].strVal);
    }
    RowSizeExact(row, wire);
  }

  /** A table can be delivered exactly if it is refused as a whole or each of its rows fits into a frame. */
  lemma DeliverableExactly(cs: seq<ResultColumn>, rows: seq<seq<ResultCell>>)
    ensures Deliverable(Table(cs, rows)) <==>
      (TableAccepted(cs, rows) ==> forall r :: 0 <= r < |rows| ==> RowSize(rows[r]) <= MAX_PAYLOAD)
  {
    AcceptedExactly(cs, rows);
    if Encodable(cs, rows) {
      forall r | 0 <= r < |rows| ensures RowFitsAt(cs, rows, r) <==> RowSize(rows[r]) <= MAX_PAYLOAD {
        assert RowMatches(rows[r], cs);
        WireRowSize(cs, rows[r]);
      }
      hide Encodable, RowFitsAt, RowSize, TableAccepted;
    }
  }

  // ---- results -----------------------------------------------------------------------

  /** The consumer is handed the rows in order and is asked after each, until it refuses. */
  ghost predicate HandedOver(k: Consumer, ds: seq<ColumnDef>, total: nat, status: Status, delivered: seq<Row>)
  {
    && |delivered| <= total && (delivered != [] ==> k.onMeta(ds))
    && (forall j :: 0 < j < |delivered| ==> k.onRow(ds, delivered[..j]))
    && (if |delivered| == total && k.onMeta(ds) && (delivered != [] ==> k.onRow(ds, delivered)) then status == ResultSet
        else status == ConsumerStopped && if delivered == [] then !k.onMeta(ds) else !k.onRow(ds, delivered))
  }

  ghost predicate TableShown(cs: seq<ResultColumn>, rows: seq<seq<ResultCell>>, k: Consumer, r: ExecuteResult, delivered: seq<Row>)
  {
    && |r.columns| == |cs| && (forall i :: 0 <= i < |cs| ==> ColumnShown(cs[i], r.columns[i]))
    && r.rowCount == |rows| && r.diagnostic == []
    && |delivered| <= |rows| && (forall i :: 0 <= i < |delivered| ==> RowShown(rows[i], delivered[i]))
    && HandedOver(k, r.columns, |rows|, r.status, delivered)
  }

  /** The diagnostic of the engine as one line, cut at the limit. */
  predicate LineShown(d: Bytes, shown: Bytes)
  {
    && shown <= d + [NEWLINE] && |shown| <= MAX_DIAGNOSTIC
    && (|d| >= MAX_DIAGNOSTIC ==> |shown| == MAX_DIAGNOSTIC)
    && (|d| < MAX_DIAGNOSTIC ==> d <= shown && (d != [] ==> shown[|shown| - 1] == NEWLINE))
    && (d == [] || d[|d| - 1] == NEWLINE ==> shown <= d)
  }

  /** A single text: one row with one CHAR cell. */
  predicate RawAccepted(cs: seq<ResultColumn>, rows: seq<seq<ResultCell>>)
  {
    && |cs| == 1 && |rows| == 1 && |rows[0]| == 1
    && 0 < |cs[0].name| < 0x1_0000 && 5 + |rows[0][0].strVal| <= MAX_PAYLOAD
  }

  ghost predicate RawShown(name: Bytes, text: Bytes, k: Consumer, r: ExecuteResult, delivered: seq<Row>)
  {
    && r.columns == [ColumnDef(name, TYPE_CHAR)] && r.rowCount == 1 && r.diagnostic == []
    && (delivered != [] ==> |delivered[0]| == 1 && !delivered[0][0].isNull && delivered[0][0].sqlType == TYPE_CHAR
                            && delivered[0][0].strVal == text)
    && HandedOver(k, r.columns, 1, r.status, delivered)
  }

  ghost predicate RefusedShown(r: ExecuteResult, delivered: seq<Row>)
  {
    r.status == SqlError && r.columns == [] && r.rowCount == 0 && delivered == []
  }

  const ABORT_TEXT: Bytes := [97, 98, 111, 114, 116]

  /** What the caller of the client is shown of an answer of the engine. */
  ghost predicate Shows(a: Answer, k: Consumer, r: ExecuteResult, delivered: seq<Row>)
  {
    match a
    case Acknowledge => r == ExecuteResult(CommandOk, [], 0, []) && delivered == []
    case Aborted => r == ExecuteResult(TransactionAbort, [], 0, ABORT_TEXT) && delivered == []
    case Failed(d) => RefusedShown(r, delivered) && LineShown(d, r.diagnostic)
    case Table(cs, rows) => if TableAccepted(cs, rows) then TableShown(cs, rows, k, r, delivered) else RefusedShown(r, delivered)
    case RawText(cs, rows) =>
      if RawAccepted(cs, rows) then RawShown(cs[0].name, rows[0][0].strVal, k, r, delivered) else RefusedShown(r, delivered)
  }

  lemma HandedOverSeen(k: Consumer, ds: seq<ColumnDef>, rows: seq<Row>, r: ExecuteResult, delivered: seq<Row>)
    requires MeansRows(ds, rows, k, r, delivered)
    ensures r.columns == ds && r.rowCount == |rows| && r.diagnostic == [] && delivered == rows[..|delivered|]
    ensures |delivered| <= |rows| && HandedOver(k, ds, |rows|, r.status, delivered)
  {
    SeenUntilRefused(k, ds, rows);
    hide Seen, Stopped;
    forall j | 0 < j < |delivered| ensures delivered[..j] == rows[..j] {}
  }

  lemma RowIsShown(cs: seq<ResultColumn>, row: seq<ResultCell>)
    requires KnownColumns(cs) && RowMatches(row, cs)
    ensures RowShown(row, CanonicalRow(WireRow(row, WireColumns(cs))))
  {
    KnownExactly(cs);
    var ds := WireColumns(cs);
    var wire := WireRow(row, ds);
    hide ColTypeToWire, WireColumns, WireRow;
    forall i | 0 <= i < |row| ensures CellShown(row[i], Canonical(wire[i])) {
      assert wire[i] == Cell(false, ds[i].sqlType, row[i].intVal, row[i].floatVal, row[i].strVal);
    }
  }

  lemma TableIsShown(cs: seq<ResultColumn>, rows: seq<seq<ResultCell>>, k: Consumer, r: ExecuteResult, delivered: seq<Row>)
    requires Encodable(cs, rows)
    requires MeansRows(WireColumns(cs), CanonicalRows(rows, WireColumns(cs)), k, r, delivered)
    ensures TableShown(cs, rows, k, r, delivered)
  {
    KnownExactly(cs);
    var ds := WireColumns(cs);
    var all := CanonicalRows(rows, ds);
    forall i | 0 <= i < |rows| ensures RowShown(rows[i], all[i]) {
      assert RowMatches(rows[i], cs);
      RowIsShown(cs, rows[i]);
    }
    hide MeansRows, HandedOver, RowShown, WireColumns, CanonicalRows, ColTypeToWire, KnownColumns, MetaFits, ShapeOk;
    HandedOverSeen(k, ds, all, r, delivered);
  }

  lemma RawExactly(cs: seq<ResultColumn>, rows: seq<seq<ResultCell>>)
    ensures RawOk(cs, rows) <==> RawAccepted(cs, rows)
  {
    if |cs| == 1 && |rows| == 1 && |rows[0]| == 1 {
      OneColumn(RawColumn(cs)[0]);
      OneCell(RawRow(rows)[0]);
    }
  }

  lemma OneColumn(d: ColumnDef)
    requires KnownType(d.sqlType)
    ensures MetaFits([d]) <==> 0 < |d.name| < 0x1_0000
  {
    assert d in [d];
    if ColumnOk(d) {
      assert AllColumnsOk([d]) && [d][1..] == [];
      assert ColumnsBytes([d]) == ColumnBytes(d) + ColumnsBytes([d][1..]);
    }
  }

  lemma OneCell(c: Cell)
    requires !c.isNull && c.sqlType == TYPE_CHAR
    ensures RowFits([c]) <==> 5 + |c.strVal| <= MAX_PAYLOAD
  {
    assert c in [c];
    if CellOk(c) {
      assert AllCellsOk([c]) && [c][1..] == [];
      assert RowBytes([c]) == CellBytes(c) + RowBytes([c][1..]);
    }
  }

  lemma RawIsShown(cs: seq<ResultColumn>, rows: seq<seq<ResultCell>>, k: Consumer, r: ExecuteResult, delivered: seq<Row>)
    requires RawOk(cs, rows) && MeansRows(RawColumn(cs), [RawRow(rows)], k, r, delivered)
    ensures RawShown(cs[0].name, rows[0][0].strVal, k, r, delivered)
  {
    var all := [RawRow(rows)];
    HandedOverSeen(k, RawColumn(cs), all, r, delivered);
    hide MeansRows, HandedOver, RawOk;
    assert delivered != [] ==> delivered[0] == all[0];
  }

  lemma LineIsShown(d: Bytes)
    ensures LineShown(d, ErrorFrame(d).payload)
  {}

  /** What a reply means to the client is what the engine's answer shows. */
  lemma MeansShows(a: Answer, k: Consumer, r: ExecuteResult, delivered: seq<Row>)
    requires MeansTo(a, k, r, delivered)
    ensures Shows(a, k, r, delivered)
  {
    match a
    case Table(cs, rows) =>
      AcceptedExactly(cs, rows);
      hide TableAccepted, TableShown, MeansRows, ErrorFrame;
      if Encodable(cs, rows) { TableIsShown(cs, rows, k, r, delivered); }
    case RawText(cs, rows) =>
      RawExactly(cs, rows);
      hide RawAccepted, RawShown, MeansRows, ErrorFrame;
      if RawOk(cs, rows) { RawIsShown(cs, rows, k, r, delivered); }
    case Failed(d) =>
      LineIsShown(d);
      hide LineShown, ErrorFrame;
    case Aborted =>
      assert Ascii("abort") == ABORT_TEXT;
    case Acknowledge =>
  }
}
