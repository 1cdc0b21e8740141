/**
  The server side: turning what a statement produced into response frames, and serving
  the requests of one connection.
 */
module WireServer {
  import opened Basics
  import opened WireCodec
  import opened WireFrames
  import opened WireClient

  datatype ResultColumn = ResultColumn(name: Bytes, ctype: int)
  datatype ResultCell = ResultCell(ctype: int, intVal: int32, floatVal: word32, strVal: Bytes)

  /** What executing a statement left behind. */
  datatype Answer =
    | Acknowledge
    | Table(columns: seq<ResultColumn>, rows: seq<seq<ResultCell>>)
    | RawText(columns: seq<ResultColumn>, rows: seq<seq<ResultCell>>)
    | Failed(diagnostic: Bytes)
    | Aborted

  const NEWLINE: byte := 10

  function Ascii(s: string): Bytes
  {
    seq(|s|, i requires 0 <= i < |s| => (s[i] as int % 256) as byte)
  }

  // ---- the engine's values on the wire --------------------------------------------------

  function ColTypeToWire(t: int): Option<byte>
  {
    match t
    case 0 => Some(TYPE_INT32)
    case 1 => Some(TYPE_FLOAT32)
    case 2 => Some(TYPE_CHAR)
    case _ => None
  }

  predicate KnownColumns(cs: seq<ResultColumn>)
  {
    forall i :: 0 <= i < |cs| ==> ColTypeToWire(cs[i].ctype).Some?
  }

  function WireColumns(cs: seq<ResultColumn>): (ds: seq<ColumnDef>)
    requires KnownColumns(cs)
    ensures |ds| == |cs| && forall i :: 0 <= i < |cs| ==> ds[i] == ColumnDef(cs[i].name, ColTypeToWire(cs[i].ctype).value)
  {
    seq(|cs|, i requires 0 <= i < |cs| => ColumnDef(cs[i].name, ColTypeToWire(cs[i].ctype).value))
  }

  predicate RowMatches(row: seq<ResultCell>, cs: seq<ResultColumn>)
  {
    |row| == |cs| && forall i :: 0 <= i < |cs| ==> row[i].ctype == cs[i].ctype
  }

  /** The cells of a row under the column types, none of them NULL. */
  function WireRow(row: seq<ResultCell>, ds: seq<ColumnDef>): (cells: Row)
    requires |row| == |ds|
    ensures |cells| == |row| && Types(cells) == ColumnTypes(ds)
    ensures forall i :: 0 <= i < |row| ==> cells[i] == Cell(false, ds[i].sqlType, row[i].intVal, row[i].floatVal, row[i].strVal)
  {
    seq(|row|, i requires 0 <= i < |row| => Cell(false, ds[i].sqlType, row[i].intVal, row[i].floatVal, row[i].strVal))
  }

  predicate ShapeOk(cs: seq<ResultColumn>, rows: seq<seq<ResultCell>>)
  {
    KnownColumns(cs) && forall i :: 0 <= i < |rows| ==> RowMatches(rows[i], cs)
  }

  /** The table passes every check that is made before META is sent. */
  predicate Encodable(cs: seq<ResultColumn>, rows: seq<seq<ResultCell>>)
  {
    ShapeOk(cs, rows) && MetaFits(WireColumns(cs))
  }

  /** The first n rows each fit into a frame. */
  predicate RowsFit(cs: seq<ResultColumn>, rows: seq<seq<ResultCell>>, n: nat)
    requires Encodable(cs, rows) && n <= |rows|
  {
    forall i :: 0 <= i < n ==> RowFitsAt(cs, rows, i)
  }

  predicate RowFitsAt(cs: seq<ResultColumn>, rows: seq<seq<ResultCell>>, i: nat)
    requires Encodable(cs, rows) && i < |rows|
  {
    RowFits(WireRow(rows[i], WireColumns(cs)))
  }

  function RowFrame(cs: seq<ResultColumn>, rows: seq<seq<ResultCell>>, i: nat): (f: Frame)
    requires Encodable(cs, rows) && i < |rows| && RowFitsAt(cs, rows, i)
    ensures FrameOk(f)
  {
    Frame(TAG_ROW, 0, RowBytes(WireRow(rows[i], WireColumns(cs))))
  }

  // ---- replies ----------------------------------------------------------------------------

  /** META and the first n rows. */
  function TableFrames(cs: seq<ResultColumn>, rows: seq<seq<ResultCell>>, n: nat): (fs: seq<Frame>)
    requires Encodable(cs, rows) && n <= |rows| && RowsFit(cs, rows, n)
    ensures |fs| == n + 1 && AllFramesOk(fs)
  {
    if n == 0 then [Frame(TAG_META, 0, MetaBytes(WireColumns(cs)))]
    else assert RowFitsAt(cs, rows, n - 1); TableFrames(cs, rows, n - 1) + [RowFrame(cs, rows, n - 1)]
  }

  function EndFrame(n: nat): (f: Frame)
    requires n < 0x1_0000_0000_0000_0000
    ensures FrameOk(f)
  {
    Frame(TAG_RESULT_END, 0, U64(n))
  }

  /** A diagnostic ends with a line feed and is cut to the limit. */
  function ErrorFrame(diagnostic: Bytes): (f: Frame)
    ensures FrameOk(f) && IsFailure(f)
  {
    var line := if diagnostic != [] && diagnostic[|diagnostic| - 1] != NEWLINE then diagnostic + [NEWLINE] else diagnostic;
    Frame(TAG_ERROR, 0, if |line| > MAX_DIAGNOSTIC then line[..MAX_DIAGNOSTIC] else line)
  }

  function RawColumn(cs: seq<ResultColumn>): seq<ColumnDef>
    requires |cs| == 1
  {
    [ColumnDef(cs[0].name, TYPE_CHAR)]
  }

  function RawRow(rows: seq<seq<ResultCell>>): Row
    requires |rows| == 1 && |rows[0]| == 1
  {
    [Cell(false, TYPE_CHAR, 0, 0, rows[0][0].strVal)]
  }

  predicate RawOk(cs: seq<ResultColumn>, rows: seq<seq<ResultCell>>)
  {
    |cs| == 1 && |rows| == 1 && |rows[0]| == 1 && MetaFits(RawColumn(cs)) && RowFits(RawRow(rows))
  }

  function RawFrames(cs: seq<ResultColumn>, rows: seq<seq<ResultCell>>): (fs: seq<Frame>)
    requires RawOk(cs, rows)
    ensures AllFramesOk(fs)
  {
    [Frame(TAG_META, 1, MetaBytes(RawColumn(cs))), Frame(TAG_ROW, 0, RowBytes(RawRow(rows))), EndFrame(1)]
  }

  predicate Countable(a: Answer)
  {
    a.Table? ==> |a.rows| < 0x1_0000_0000_0000_0000
  }

  /** Every row of a table that gets as far as META fits into a frame. */
  predicate Deliverable(a: Answer)
  {
    a.Table? && Encodable(a.columns, a.rows) ==> RowsFit(a.columns, a.rows, |a.rows|)
  }

  /** The first problem the shape check finds, from row i on. */
  function ShapeProblem(cs: seq<ResultColumn>, rows: seq<seq<ResultCell>>, i: nat): (p: Option<Shape>)
    ensures p.None? <==> forall j :: i <= j < |rows| ==> RowMatches(rows[j], cs)
    decreases |rows| - i
  {
    if i >= |rows| then None
    else if |rows[i]| != |cs| then Some(WrongLength)
    else if !RowMatches(rows[i], cs) then Some(WrongType)
    else ShapeProblem(cs, rows, i + 1)
  }

  datatype Shape = WrongLength | WrongType

  function ShapeText(p: Shape): string
  {
    if p.WrongLength? then "query result row does not match its schema" else "query result cell type does not match its schema"
  }

  /** The text of the error reply, for an answer that leads to one. */
  function Complaint(a: Answer): (d: Option<Bytes>)
    ensures a.Table? ==> (d.None? <==> Encodable(a.columns, a.rows))
    ensures a.RawText? ==> (d.None? <==> RawOk(a.columns, a.rows))
  {
    match a
    case Failed(d) => Some(d)
    case Table(cs, rows) =>
      if !KnownColumns(cs) then Some(Ascii("unsupported query result type"))
      else if ShapeProblem(cs, rows, 0).Some? then Some(Ascii(ShapeText(ShapeProblem(cs, rows, 0).value)))
      else if !MetaFits(WireColumns(cs)) then Some(Ascii(MetaText(WireColumns(cs))))
      else None
    case RawText(cs, rows) =>
      if |cs| != 1 || |rows| != 1 || |rows[0]| != 1 then Some(Ascii("raw text result must contain one CHAR cell"))
      else if !MetaFits(RawColumn(cs)) then Some(Ascii(MetaText(RawColumn(cs))))
      else if !RowFits(RawRow(rows)) then Some(Ascii(RowText(RawRow(rows))))
      else None
    case _ => None
  }

  function MetaText(ds: seq<ColumnDef>): string
  {
    if MetaProblem(ds).Some? then Diagnostic(MetaProblem(ds).value) else ""
  }

  function RowText(row: Row): string
  {
    if RowProblem(row).Some? then Diagnostic(RowProblem(row).value) else ""
  }

  lemma OneMoreFits(cs: seq<ResultColumn>, rows: seq<seq<ResultCell>>, i: nat)
    requires Encodable(cs, rows) && i < |rows| && RowsFit(cs, rows, i) && RowFitsAt(cs, rows, i)
    ensures RowsFit(cs, rows, i + 1)
  {
    hide Encodable, RowFitsAt;
  }

  /** The number of rows before the first that does not fit, counted from row i. */
  function Fitting(cs: seq<ResultColumn>, rows: seq<seq<ResultCell>>, i: nat): (n: nat)
    requires Encodable(cs, rows) && i <= |rows| && RowsFit(cs, rows, i)
    ensures i <= n <= |rows| && RowsFit(cs, rows, n) && (n < |rows| ==> !RowFitsAt(cs, rows, n))
    decreases |rows| - i
  {
    if i == |rows| || !RowFitsAt(cs, rows, i) then i
    else
      OneMoreFits(cs, rows, i);
      Fitting(cs, rows, i + 1)
  }

  /**
    The frames the server has for an answer.  They are a complete response exactly if the
    answer is deliverable; otherwise they stop before the first row that does not fit.
   */
  function Emission(a: Answer): (fs: seq<Frame>)
    requires Countable(a)
    ensures AllFramesOk(fs)
  {
    if Complaint(a).Some? then [ErrorFrame(Complaint(a).value)]
    else
      match a
      case Acknowledge => [Frame(TAG_COMMAND_OK, 0, [])]
      case Table(cs, rows) => TableEmission(cs, rows)
      case RawText(cs, rows) => RawFrames(cs, rows)
      case Aborted => [Frame(TAG_ABORT, 0, Ascii("abort"))]
  }

  function TableEmission(cs: seq<ResultColumn>, rows: seq<seq<ResultCell>>): (fs: seq<Frame>)
    requires Encodable(cs, rows) && |rows| < 0x1_0000_0000_0000_0000
    ensures AllFramesOk(fs)
  {
    var n := Fitting(cs, rows, 0);
    if n < |rows| then TableFrames(cs, rows, n) else TableFrames(cs, rows, n) + [EndFrame(n)]
  }

  lemma DeliverableFits(cs: seq<ResultColumn>, rows: seq<seq<ResultCell>>)
    requires Encodable(cs, rows)
    ensures Deliverable(Table(cs, rows)) <==> Fitting(cs, rows, 0) == |rows|
  {}

  // ---- what a reply means to the client ----------------------------------------------------

  function CanonicalRows(rows: seq<seq<ResultCell>>, ds: seq<ColumnDef>): (r: seq<Row>)
    requires forall i :: 0 <= i < |rows| ==> |rows[i]| == |ds|
    ensures |r| == |rows| && forall i :: 0 <= i < |rows| ==> r[i] == CanonicalRow(WireRow(rows[i], ds))
  {
    seq(|rows|, i requires 0 <= i < |rows| => CanonicalRow(WireRow(rows[i], ds)))
  }

  lemma MetaDecodes(ds: seq<ColumnDef>)
    requires MetaFits(ds)
    ensures ParseMeta(MetaBytes(ds)) == Some(ds)
  {
    ParseMetaExact(MetaBytes(ds), ds);
  }

  lemma RowDecodes(row: Row, ds: seq<ColumnDef>)
    requires RowFits(row) && Types(row) == ColumnTypes(ds)
    ensures ParseRow(RowBytes(row), ColumnTypes(ds)) == Some(CanonicalRow(row))
  {
    ParseRowComplete(row);
  }

  /** The frames sent so far are a table of the rows sent so far. */
  lemma {:induction false} TableFramesDecode(cs: seq<ResultColumn>, rows: seq<seq<ResultCell>>, n: nat)
    requires Encodable(cs, rows) && n <= |rows| && RowsFit(cs, rows, n)
    ensures var fs, ds := TableFrames(cs, rows, n), WireColumns(cs);
      IsTable(fs) && Columns(fs) == ds && RowsOf(fs) == CanonicalRows(rows[..n], ds)
  {
    var ds := WireColumns(cs);
    if n == 0 {
      MetaAlone(ds);
      assert rows[..0] == [];
    } else {
      assert RowFitsAt(cs, rows, n - 1) && RowMatches(rows[n - 1], cs);
      TableFramesDecode(cs, rows, n - 1);
      RowDecodes(WireRow(rows[n - 1], ds), ds);
      var f := RowFrame(cs, rows, n - 1);
      assert IsRow(f, ColumnTypes(ds));
      CanonicalRowsSnoc(rows, n - 1, ds);
      hide IsTable, RowsOf, Columns, IsRow, CanonicalRows, RowFrame, MetaFits;
      TableSnoc(TableFrames(cs, rows, n - 1), f);
    }
  }

  lemma MetaAlone(ds: seq<ColumnDef>)
    requires MetaFits(ds)
    ensures var fs := [Frame(TAG_META, 0, MetaBytes(ds))]; IsTable(fs) && Columns(fs) == ds && RowsOf(fs) == []
  {
    MetaDecodes(ds);
    hide MetaBytes, ParseMeta;
    assert IsMeta(Frame(TAG_META, 0, MetaBytes(ds)));
  }

  lemma CanonicalRowsSnoc(rows: seq<seq<ResultCell>>, n: nat, ds: seq<ColumnDef>)
    requires n < |rows| && forall i :: 0 <= i < |rows| ==> |rows[i]| == |ds|
    ensures CanonicalRows(rows[..n + 1], ds) == CanonicalRows(rows[..n], ds) + [CanonicalRow(WireRow(rows[n], ds))]
  {}

  /** What the caller gets to see of an answer. */
  predicate MeansTo(a: Answer, k: Consumer, r: ExecuteResult, delivered: seq<Row>)
  {
    if Complaint(a).Some? then r == ExecuteResult(SqlError, [], 0, ErrorFrame(Complaint(a).value).payload) && delivered == []
    else
      match a
      case Acknowledge => r == ExecuteResult(CommandOk, [], 0, []) && delivered == []
      case Aborted => r == ExecuteResult(TransactionAbort, [], 0, Ascii("abort")) && delivered == []
      case Table(cs, rows) => MeansRows(WireColumns(cs), CanonicalRows(rows, WireColumns(cs)), k, r, delivered)
      case RawText(cs, rows) => MeansRows(RawColumn(cs), [RawRow(rows)], k, r, delivered)
  }

  /** Columns and rows arrive unchanged and complete, up to where the consumer stops. */
  predicate MeansRows(ds: seq<ColumnDef>, rows: seq<Row>, k: Consumer, r: ExecuteResult, delivered: seq<Row>)
  {
    && r == ExecuteResult(if Stopped(k, ds, rows) then ConsumerStopped else ResultSet, ds, |rows|, [])
    && delivered == Seen(k, ds, rows)
  }

  /** A table closed by its row count is a response, and means that table. */
  lemma TableClosed(fs: seq<Frame>, n: nat, k: Consumer)
    requires IsTable(fs) && AllFramesOk(fs) && |fs| == n + 1 && n < 0x1_0000_0000_0000_0000
    ensures IsResponse(fs + [EndFrame(n)])
    ensures MeansRows(Columns(fs), RowsOf(fs), k, Outcome(fs + [EndFrame(n)], k).0, Outcome(fs + [EndFrame(n)], k).1)
  {
    var all := fs + [EndFrame(n)];
    ParseEndExact(U64(n), n);
    assert all[..|all| - 1] == fs && all[|all| - 1] == EndFrame(n);
  }

  /** What is sent for a deliverable answer is one complete response that gives the client what the server had. */
  lemma ReplyMeans(a: Answer, k: Consumer)
    requires Countable(a) && Deliverable(a)
    ensures IsResponse(Emission(a)) && MeansTo(a, k, Outcome(Emission(a), k).0, Outcome(Emission(a), k).1)
  {
    if Complaint(a).Some? {
      ErrorMeans(Complaint(a).value, k);
    } else {
      match a
      case Table(cs, rows) =>
        TableMeans(cs, rows, k);
      case RawText(cs, rows) =>
        RawMeans(cs, rows, k);
      case _ =>
    }
  }

  lemma ErrorMeans(d: Bytes, k: Consumer)
    ensures IsResponse([ErrorFrame(d)])
    ensures Outcome([ErrorFrame(d)], k) == (ExecuteResult(SqlError, [], 0, ErrorFrame(d).payload), [])
  {}

  lemma TableMeans(cs: seq<ResultColumn>, rows: seq<seq<ResultCell>>, k: Consumer)
    requires Encodable(cs, rows) && RowsFit(cs, rows, |rows|) && |rows| < 0x1_0000_0000_0000_0000
    ensures var fs := TableEmission(cs, rows);
      IsResponse(fs) && MeansRows(WireColumns(cs), CanonicalRows(rows, WireColumns(cs)), k, Outcome(fs, k).0, Outcome(fs, k).1)
  {
    DeliverableFits(cs, rows);
    TableFramesDecode(cs, rows, |rows|);
    assert rows[..|rows|] == rows;
    hide IsTable, RowsOf, Columns, CanonicalRows, TableFrames, IsResponse, Outcome, MeansRows, Encodable, RowFitsAt;
    TableClosed(TableFrames(cs, rows, |rows|), |rows|, k);
  }

  /** What is sent for any other answer is a table that is never closed. */
  lemma UndeliverableIsOpen(a: Answer)
    requires Countable(a) && !Deliverable(a)
    ensures IsTable(Emission(a))
  {
    DeliverableFits(a.columns, a.rows);
    TableFramesDecode(a.columns, a.rows, Fitting(a.columns, a.rows, 0));
    hide TableFrames;
  }

  lemma RawTable(ds: seq<ColumnDef>, row: Row)
    requires MetaFits(ds) && RowFits(row) && ColumnTypes(ds) == Types(row) == [TYPE_CHAR] && CanonicalRow(row) == row
    ensures var fs := [Frame(TAG_META, 1, MetaBytes(ds)), Frame(TAG_ROW, 0, RowBytes(row))];
      IsTable(fs) && AllFramesOk(fs) && Columns(fs) == ds && RowsOf(fs) == [row]
  {
    MetaDecodes(ds);
    RowDecodes(row, ds);
    var meta, f := Frame(TAG_META, 1, MetaBytes(ds)), Frame(TAG_ROW, 0, RowBytes(row));
    assert FrameOk(meta) && FrameOk(f) && IsRow(f, ColumnTypes(ds));
    RawMetaAlone(ds);
    hide *;
    assert [meta] + [f] == [meta, f];
    TableSnoc([meta], f);
    TwoOk(meta, f);
  }

  lemma TwoOk(a: Frame, b: Frame)
    requires FrameOk(a) && FrameOk(b)
    ensures AllFramesOk([a, b])
  {}

  lemma RawMetaAlone(ds: seq<ColumnDef>)
    requires MetaFits(ds) && ColumnTypes(ds) == [TYPE_CHAR]
    ensures var fs := [Frame(TAG_META, 1, MetaBytes(ds))]; IsTable(fs) && Columns(fs) == ds && RowsOf(fs) == []
  {
    MetaDecodes(ds);
    hide MetaBytes, ParseMeta;
    assert IsMeta(Frame(TAG_META, 1, MetaBytes(ds)));
  }

  lemma RawMeans(cs: seq<ResultColumn>, rows: seq<seq<ResultCell>>, k: Consumer)
    requires RawOk(cs, rows)
    ensures IsResponse(RawFrames(cs, rows))
    ensures MeansRows(RawColumn(cs), [RawRow(rows)], k, Outcome(RawFrames(cs, rows), k).0, Outcome(RawFrames(cs, rows), k).1)
  {
    var ds, row := RawColumn(cs), RawRow(rows);
    assert Types(row) == [TYPE_CHAR] == ColumnTypes(ds) && CanonicalRow(row) == row;
    RawTable(ds, row);
    var fs := [Frame(TAG_META, 1, MetaBytes(ds)), Frame(TAG_ROW, 0, RowBytes(row))];
    assert RawFrames(cs, rows) == fs + [EndFrame(1)];
    hide *;
    TableClosed(fs, 1, k);
  }

  // ---- an answer that cannot be delivered --------------------------------------------------

  /** A table of one row in which the same CHAR column is listed n times. */
  function Copies(n: nat, name: Bytes, text: Bytes): Answer
  {
    Table(seq(n, i => ResultColumn(name, 2)), [seq(n, i => ResultCell(2, 0, 0, text))])
  }

  lemma {:induction false} ColumnsOfCopies(n: nat, c: ColumnDef)
    requires ColumnOk(c)
    ensures AllColumnsOk(seq(n, i => c)) && |ColumnsBytes(seq(n, i => c))| == n * (3 + |c.name|)
  {
    if n > 0 {
      var all, rest := seq(n, i => c), seq(n - 1, i => c);
      assert all[1..] == rest && all[0] == c;
      hide ColumnBytes, ColumnOk;
      ColumnsOfCopies(n - 1, c);
      assert ColumnsBytes(all) == ColumnBytes(c) + ColumnsBytes(rest);
      OneMore(n, 3 + |c.name|);
    }
  }

  lemma OneMore(n: nat, size: nat)
    requires n > 0
    ensures n * size == (n - 1) * size + size
  {}

  lemma {:induction false} RowOfCopies(n: nat, c: Cell)
    requires CellOk(c)
    ensures AllCellsOk(seq(n, i => c)) && |RowBytes(seq(n, i => c))| == n * CellSize(c)
  {
    if n > 0 {
      var all, rest := seq(n, i => c), seq(n - 1, i => c);
      assert all[1..] == rest && all[0] == c;
      hide CellBytes, CellSize, CellOk;
      RowOfCopies(n - 1, c);
      assert RowBytes(all) == CellBytes(c) + RowBytes(rest);
      OneMore(n, CellSize(c));
    }
  }

  /** META of such a table can be sent exactly within its own limits. */
  lemma CopiesEncodable(n: nat, name: Bytes, text: Bytes)
    ensures var a := Copies(n, name, text);
      Encodable(a.columns, a.rows) <==> 0 < n <= 0xFFFF && 0 < |name| <= 0xFFFF && 2 + n * (3 + |name|) <= MAX_PAYLOAD
  {
    var a := Copies(n, name, text);
    var c := ColumnDef(name, TYPE_CHAR);
    assert WireColumns(a.columns) == seq(n, i => c);
    assert RowMatches(a.rows[0], a.columns);
    if ColumnOk(c) {
      ColumnsOfCopies(n, c);
    } else if n > 0 {
      assert WireColumns(a.columns)[0] == c && c in WireColumns(a.columns);
    }
  }

  /** A row can be too long for a frame while its table passes every check made before META. */
  lemma LongRowIsUndeliverable(n: nat, name: Bytes, text: Bytes)
    requires var a := Copies(n, name, text); Encodable(a.columns, a.rows)
    ensures Deliverable(Copies(n, name, text)) <==> n * (5 + |text|) <= MAX_PAYLOAD
  {
    var a := Copies(n, name, text);
    var c := Cell(false, TYPE_CHAR, 0, 0, text);
    CopiesEncodable(n, name, text);
    var row := WireRow(a.rows[0], WireColumns(a.columns));
    assert row == seq(n, i => c) && row[0] == c;
    if CellOk(c) {
      RowOfCopies(n, c);
    } else {
      LongText(n, text);
    }
    assert RowFitsAt(a.columns, a.rows, 0) <==> n * (5 + |text|) <= MAX_PAYLOAD;
  }

  lemma LongText(n: nat, text: Bytes)
    requires n > 0 && |text| > MAX_PAYLOAD
    ensures n * (5 + |text|) > MAX_PAYLOAD
  {}

  /** The widest column a table can have is more than a frame holds when it is selected more than 2028 times. */
  lemma WideSelectIsUndeliverable(n: nat, text: Bytes)
    requires 0 < n <= 0xFFFF && |text| == MAX_RECORD_SIZE
    ensures Deliverable(Copies(n, [99], text)) <==> n <= 2028
  {
    CopiesEncodable(n, [99], text);
    LongRowIsUndeliverable(n, [99], text);
  }

  // ---- sending ------------------------------------------------------------------------------

  /** All of the frames have been handed to the peer. */
  ghost predicate Sent(start: Bytes, after: Bytes, fs: seq<Frame>)
  {
    AllFramesOk(fs) && after == start + BytesOf(fs)
  }

  /** The frames have been handed to the peer, as far as it took them. */
  ghost predicate Pushed(start: Bytes, after: Bytes, room: nat, fs: seq<Frame>)
  {
    AllFramesOk(fs) && start <= after <= start + BytesOf(fs) && (room > 0 ==> after == start + BytesOf(fs))
  }

  /** One more frame was written behind those that are out. */
  lemma WroteMore(start: Bytes, before: Bytes, after: Bytes, room: nat, fs: seq<Frame>, f: Frame, ok: bool)
    requires Sent(start, before, fs) && FrameOk(f) && Wrote(f, ok, before, after, room)
    ensures Pushed(start, after, room, fs + [f]) && (ok <==> Sent(start, after, fs + [f]))
  {
    hide BytesOf, FrameBytes, FrameOk;
    BytesOfSnoc(fs, f);
    Regroup(start, BytesOf(fs), FrameBytes(f));
  }

  lemma WroteFirst(start: Bytes, after: Bytes, room: nat, f: Frame, ok: bool)
    requires FrameOk(f) && Wrote(f, ok, start, after, room)
    ensures Pushed(start, after, room, [f]) && (ok <==> Sent(start, after, [f]))
  {
    assert start + [] == start;
    WroteMore(start, start, after, room, [], f, ok);
    assert [] + [f] == [f];
  }

  /** What broke off among the first frames broke off in the whole list. */
  lemma PushedMore(start: Bytes, after: Bytes, fs: seq<Frame>, more: seq<Frame>)
    requires Pushed(start, after, 0, fs) && AllFramesOk(fs + more) && more != []
    ensures Pushed(start, after, 0, fs + more) && !Sent(start, after, fs + more)
  {
    BytesGrow(fs, more);
    hide BytesOf, AllFramesOk;
  }

  lemma BytesGrow(fs: seq<Frame>, more: seq<Frame>)
    requires AllFramesOk(fs) && AllFramesOk(fs + more) && more != []
    ensures BytesOf(fs) <= BytesOf(fs + more) && |BytesOf(fs)| < |BytesOf(fs + more)|
  {
    var all := fs + more;
    hide BytesOf, FrameOk, AllFramesOk;
    FrameAt(all, |fs|);
    assert all[..|fs|] == fs;
    BytesOfPrefix(all, |fs| + 1);
  }

  method SendError(conn: Connection, diagnostic: Bytes) returns (ok: bool)
    modifies conn`output, conn`room
    ensures conn.room + |conn.output| == old(conn.room) + |old(conn.output)|
    ensures Pushed(old(conn.output), conn.output, conn.room, [ErrorFrame(diagnostic)])
    ensures ok <==> Sent(old(conn.output), conn.output, [ErrorFrame(diagnostic)])
  {
    var line := diagnostic;
    if line != [] && line[|line| - 1] != NEWLINE { line := line + [NEWLINE]; }
    if |line| > MAX_DIAGNOSTIC { line := line[..MAX_DIAGNOSTIC]; }
    ghost var before := conn.output;
    ok := conn.WriteFrame(TAG_ERROR, 0, line);
    hide Pushed, Sent, Wrote;
    WroteFirst(before, conn.output, conn.room, ErrorFrame(diagnostic), ok);
  }

  /** The columns in wire types; None as soon as one has none. */
  method ConvertColumns(cs: seq<ResultColumn>) returns (r: Option<seq<ColumnDef>>)
    ensures r.Some? <==> KnownColumns(cs)
    ensures r.Some? ==> r.value == WireColumns(cs)
  {
    var ds := [];
    for i := 0 to |cs|
      invariant KnownColumns(cs[..i]) && ds == WireColumns(cs[..i])
    {
      var t := ColTypeToWire(cs[i].ctype);
      if t.None? { return None; }
      assert cs[..i + 1] == cs[..i] + [cs[i]];
      ds := ds + [ColumnDef(cs[i].name, t.value)];
    }
    assert cs[..|cs|] == cs;
    return Some(ds);
  }

  /** The shape check before META: the first row that does not fit its schema is reported. */
  method CheckRows(cs: seq<ResultColumn>, rows: seq<seq<ResultCell>>) returns (problem: Option<Shape>)
    ensures problem.None? <==> forall i :: 0 <= i < |rows| ==> RowMatches(rows[i], cs)
    ensures problem == ShapeProblem(cs, rows, 0)
  {
    for i := 0 to |rows|
      invariant forall j :: 0 <= j < i ==> RowMatches(rows[j], cs)
      invariant ShapeProblem(cs, rows, 0) == ShapeProblem(cs, rows, i)
    {
      if |rows[i]| != |cs| { return Some(WrongLength); }
      for j := 0 to |cs|
        invariant forall m :: 0 <= m < j ==> rows[i][m].ctype == cs[m].ctype
      {
        if rows[i][j].ctype != cs[j].ctype { return Some(WrongType); }
      }
    }
    return None;
  }

  /** Sends row i behind the rows before it; one that does not fit is not sent at all. */
  method SendRow(conn: Connection, cs: seq<ResultColumn>, rows: seq<seq<ResultCell>>, ds: seq<ColumnDef>, i: nat, ghost start: Bytes)
    returns (ok: bool)
    requires Encodable(cs, rows) && i < |rows| && ds == WireColumns(cs) && RowsFit(cs, rows, i)
    requires Sent(start, conn.output, TableFrames(cs, rows, i))
    modifies conn`output, conn`room
    ensures conn.room + |conn.output| == old(conn.room) + |old(conn.output)|
    ensures !RowFitsAt(cs, rows, i) ==> !ok && conn.output == old(conn.output)
    ensures RowFitsAt(cs, rows, i) ==> RowsFit(cs, rows, i + 1)
    ensures RowFitsAt(cs, rows, i) ==>
      && Pushed(start, conn.output, conn.room, TableFrames(cs, rows, i + 1))
      && (ok <==> Sent(start, conn.output, TableFrames(cs, rows, i + 1)))
  {
    assert RowMatches(rows[i], cs);
    var payload := TryEncodeRow(WireRow(rows[i], ds));
    if payload.Refused? { return false; }
    ghost var before, f := conn.output, RowFrame(cs, rows, i);
    ok := conn.WriteFrame(TAG_ROW, 0, payload.bytes);
    WroteMore(start, before, conn.output, conn.room, TableFrames(cs, rows, i), f, ok);
  }

  /** Sends rows up to the first that does not fit. */
  method SendRows(conn: Connection, cs: seq<ResultColumn>, rows: seq<seq<ResultCell>>, ghost start: Bytes) returns (ok: bool)
    requires Encodable(cs, rows) && Sent(start, conn.output, TableFrames(cs, rows, 0))
    modifies conn`output, conn`room
    ensures conn.room + |conn.output| == old(conn.room) + |old(conn.output)|
    ensures var n := Fitting(cs, rows, 0);
      && Pushed(start, conn.output, conn.room, TableFrames(cs, rows, n))
      && (ok <==> n == |rows| && Sent(start, conn.output, TableFrames(cs, rows, n)))
  {
    var ds := WireColumns(cs);
    hide *;
    for i := 0 to |rows|
      invariant RowsFit(cs, rows, i) && Sent(start, conn.output, TableFrames(cs, rows, i))
      invariant Fitting(cs, rows, 0) == Fitting(cs, rows, i)
      invariant conn.room + |conn.output| == old(conn.room) + |old(conn.output)|
    {
      ok := SendRow(conn, cs, rows, ds, i, start);
      FittingNext(cs, rows, i);
      if !ok {
        if RowFitsAt(cs, rows, i) {
          BrokenRow(cs, rows, i + 1, start, conn.output, conn.room);
        } else {
          SentIsPushed(start, conn.output, conn.room, TableFrames(cs, rows, i));
        }
        return;
      }
    }
    SentIsPushed(start, conn.output, conn.room, TableFrames(cs, rows, |rows|));
    FittingNext(cs, rows, |rows|);
    ok := true;
  }

  lemma FittingNext(cs: seq<ResultColumn>, rows: seq<seq<ResultCell>>, i: nat)
    requires Encodable(cs, rows) && i <= |rows| && RowsFit(cs, rows, i)
    ensures i == |rows| || !RowFitsAt(cs, rows, i) ==> Fitting(cs, rows, i) == i
    ensures i < |rows| && RowFitsAt(cs, rows, i) ==> RowsFit(cs, rows, i + 1) && Fitting(cs, rows, i) == Fitting(cs, rows, i + 1)
  {
    hide Encodable, RowFitsAt;
  }

  lemma SentIsPushed(start: Bytes, after: Bytes, room: nat, fs: seq<Frame>)
    requires Sent(start, after, fs)
    ensures Pushed(start, after, room, fs)
  {}

  lemma BrokenIsFull(start: Bytes, after: Bytes, room: nat, fs: seq<Frame>)
    requires Pushed(start, after, room, fs) && !Sent(start, after, fs)
    ensures room == 0
  {}

  lemma {:induction false} TableFramesGrow(cs: seq<ResultColumn>, rows: seq<seq<ResultCell>>, i: nat, n: nat)
    requires Encodable(cs, rows) && i <= n <= |rows| && RowsFit(cs, rows, n)
    ensures RowsFit(cs, rows, i) && TableFrames(cs, rows, i) <= TableFrames(cs, rows, n)
  {
    hide *;
    FewerFit(cs, rows, i, n);
    if i < n {
      FewerFit(cs, rows, n - 1, n);
      TableFramesGrow(cs, rows, i, n - 1);
      LastRow(cs, rows, n);
    }
  }

  lemma FewerFit(cs: seq<ResultColumn>, rows: seq<seq<ResultCell>>, i: nat, n: nat)
    requires Encodable(cs, rows) && i <= n <= |rows| && RowsFit(cs, rows, n)
    ensures RowsFit(cs, rows, i)
  {
    hide Encodable, RowFitsAt;
  }

  lemma LastRow(cs: seq<ResultColumn>, rows: seq<seq<ResultCell>>, n: nat)
    requires Encodable(cs, rows) && 0 < n <= |rows| && RowsFit(cs, rows, n) && RowsFit(cs, rows, n - 1)
    ensures TableFrames(cs, rows, n - 1) <= TableFrames(cs, rows, n)
  {
    assert RowFitsAt(cs, rows, n - 1);
    hide Encodable, RowFitsAt, RowFrame;
  }

  /** A row that broke off breaks off every longer table. */
  lemma BrokenRow(cs: seq<ResultColumn>, rows: seq<seq<ResultCell>>, i: nat, start: Bytes, after: Bytes, room: nat)
    requires Encodable(cs, rows) && i <= |rows| && RowsFit(cs, rows, i) && Fitting(cs, rows, 0) >= i
    requires Pushed(start, after, room, TableFrames(cs, rows, i)) && !Sent(start, after, TableFrames(cs, rows, i))
    ensures var fs := TableFrames(cs, rows, Fitting(cs, rows, 0));
      Pushed(start, after, room, fs) && !Sent(start, after, fs)
  {
    hide *;
    FewerFit(cs, rows, 0, i);
    TableFramesGrow(cs, rows, i, Fitting(cs, rows, 0));
    BrokenPrefix(start, after, room, TableFrames(cs, rows, i), TableFrames(cs, rows, Fitting(cs, rows, 0)));
  }

  lemma BrokenPrefix(start: Bytes, after: Bytes, room: nat, few: seq<Frame>, all: seq<Frame>)
    requires few <= all && AllFramesOk(all) && Pushed(start, after, room, few) && !Sent(start, after, few)
    ensures Pushed(start, after, room, all) && !Sent(start, after, all)
  {
    BrokenIsFull(start, after, room, few);
    hide *;
    if |few| < |all| {
      assert few + all[|few|..] == all;
      PushedMore(start, after, few, all[|few|..]);
    } else {
      WholePrefix(few, all);
    }
  }

  /** How sending an answer ends: all of it is out, exactly if it is deliverable and the peer takes it all. */
  ghost predicate SendEnds(a: Answer, ok: bool, start: Bytes, after: Bytes, room: nat)
    requires Countable(a)
  {
    Pushed(start, after, room, Emission(a)) && (ok <==> Deliverable(a) && Sent(start, after, Emission(a)))
  }

  method SendTable(conn: Connection, cs: seq<ResultColumn>, rows: seq<seq<ResultCell>>) returns (ok: bool)
    requires Countable(Table(cs, rows))
    modifies conn`output, conn`room
    ensures conn.room + |conn.output| == old(conn.room) + |old(conn.output)|
    ensures SendEnds(Table(cs, rows), ok, old(conn.output), conn.output, conn.room)
  {
    var ds := ConvertColumns(cs);
    if ds.None? {
      ok := SendError(conn, Ascii("unsupported query result type"));
      return;
    }
    var problem := CheckRows(cs, rows);
    if problem.Some? {
      ok := SendError(conn, Ascii(ShapeText(problem.value)));
      return;
    }
    var payload := TryEncodeMeta(ds.value);
    if payload.Refused? {
      ok := SendError(conn, Ascii(Diagnostic(payload.why)));
      return;
    }
    ok := SendEncodable(conn, cs, rows, payload.bytes);
  }

  method SendEncodable(conn: Connection, cs: seq<ResultColumn>, rows: seq<seq<ResultCell>>, payload: Bytes) returns (ok: bool)
    requires Countable(Table(cs, rows)) && Encodable(cs, rows) && payload == MetaBytes(WireColumns(cs))
    modifies conn`output, conn`room
    ensures conn.room + |conn.output| == old(conn.room) + |old(conn.output)|
    ensures Pushed(old(conn.output), conn.output, conn.room, TableEmission(cs, rows))
    ensures ok <==> Deliverable(Table(cs, rows)) && Sent(old(conn.output), conn.output, TableEmission(cs, rows))
  {
    ghost var start, n := conn.output, Fitting(cs, rows, 0);
    DeliverableFits(cs, rows);
    ok := conn.WriteFrame(TAG_META, 0, payload);
    WroteFirst(start, conn.output, conn.room, Frame(TAG_META, 0, payload), ok);
    hide Sent, Pushed, Deliverable, Encodable, Fitting, Wrote, FrameOk;
    if !ok {
      BrokenRow(cs, rows, 0, start, conn.output, conn.room);
      BrokenTable(cs, rows, start, conn.output, conn.room);
      return;
    }
    ok := SendRows(conn, cs, rows, start);
    if !ok {
      BrokenTable(cs, rows, start, conn.output, conn.room);
      return;
    }
    ghost var before := conn.output;
    ok := conn.WriteFrame(TAG_RESULT_END, 0, U64(|rows|));
    WroteMore(start, before, conn.output, conn.room, TableFrames(cs, rows, n), EndFrame(n), ok);
  }

  /** Where the rows are not all out, the emission is not: there is the end frame still to come, or a row that does not fit. */
  lemma BrokenTable(cs: seq<ResultColumn>, rows: seq<seq<ResultCell>>, start: Bytes, after: Bytes, room: nat)
    requires Encodable(cs, rows) && |rows| < 0x1_0000_0000_0000_0000
    requires var n := Fitting(cs, rows, 0);
      Pushed(start, after, room, TableFrames(cs, rows, n)) && (n == |rows| ==> !Sent(start, after, TableFrames(cs, rows, n)))
    ensures Pushed(start, after, room, TableEmission(cs, rows))
    ensures !(Deliverable(Table(cs, rows)) && Sent(start, after, TableEmission(cs, rows)))
  {
    var n := Fitting(cs, rows, 0);
    var fs := TableFrames(cs, rows, n);
    DeliverableFits(cs, rows);
    hide TableFrames, Fitting, Deliverable, Encodable, BytesOf;
    if n == |rows| {
      PushedMore(start, after, fs, [EndFrame(n)]);
    }
  }

  method SendRaw(conn: Connection, cs: seq<ResultColumn>, rows: seq<seq<ResultCell>>) returns (ok: bool)
    modifies conn`output, conn`room
    ensures conn.room + |conn.output| == old(conn.room) + |old(conn.output)|
    ensures SendEnds(RawText(cs, rows), ok, old(conn.output), conn.output, conn.room)
  {
    if |cs| != 1 || |rows| != 1 || |rows[0]| != 1 {
      ok := SendError(conn, Ascii("raw text result must contain one CHAR cell"));
      return;
    }
    var meta := TryEncodeMeta(RawColumn(cs));
    if meta.Refused? {
      ok := SendError(conn, Ascii(Diagnostic(meta.why)));
      return;
    }
    var row := TryEncodeRow(RawRow(rows));
    if row.Refused? {
      ok := SendError(conn, Ascii(Diagnostic(row.why)));
      return;
    }
    ok := SendThree(conn, Frame(TAG_META, 1, meta.bytes), Frame(TAG_ROW, 0, row.bytes), EndFrame(1));
  }

  /** Sends three frames, each only if the one before is out. */
  method SendThree(conn: Connection, a: Frame, b: Frame, c: Frame) returns (ok: bool)
    requires FrameOk(a) && FrameOk(b) && FrameOk(c)
    modifies conn`output, conn`room
    ensures conn.room + |conn.output| == old(conn.room) + |old(conn.output)|
    ensures Pushed(old(conn.output), conn.output, conn.room, [a, b, c])
    ensures ok <==> Sent(old(conn.output), conn.output, [a, b, c])
  {
    ghost var start := conn.output;
    assert [a] + [b] == [a, b] && [a, b] + [c] == [a, b, c] && [a] + [b, c] == [a, b, c];
    hide FrameOk;
    ok := conn.WriteFrame(a.tag, a.flags, a.payload);
    WroteFirst(start, conn.output, conn.room, a, ok);
    if !ok {
      PushedMore(start, conn.output, [a], [b, c]);
      return;
    }
    ghost var before := conn.output;
    ok := conn.WriteFrame(b.tag, b.flags, b.payload);
    WroteMore(start, before, conn.output, conn.room, [a], b, ok);
    if !ok {
      PushedMore(start, conn.output, [a, b], [c]);
      return;
    }
    before := conn.output;
    ok := conn.WriteFrame(c.tag, c.flags, c.payload);
    WroteMore(start, before, conn.output, conn.room, [a, b], c, ok);
  }

  /** Sends whatever executing the statement left behind. */
  method Send(conn: Connection, a: Answer) returns (ok: bool)
    requires Countable(a)
    modifies conn`output, conn`room
    ensures conn.room + |conn.output| == old(conn.room) + |old(conn.output)|
    ensures SendEnds(a, ok, old(conn.output), conn.output, conn.room)
  {
    ghost var start := conn.output;
    match a
    case Acknowledge =>
      ok := conn.WriteFrame(TAG_COMMAND_OK, 0, []);
      WroteFirst(start, conn.output, conn.room, Frame(TAG_COMMAND_OK, 0, []), ok);
    case Table(cs, rows) => ok := SendTable(conn, cs, rows);
    case RawText(cs, rows) => ok := SendRaw(conn, cs, rows);
    case Failed(d) => ok := SendError(conn, d);
    case Aborted =>
      ok := conn.WriteFrame(TAG_ABORT, 0, Ascii("abort"));
      WroteFirst(start, conn.output, conn.room, Frame(TAG_ABORT, 0, Ascii("abort")), ok);
  }

  // ---- serving a connection ------------------------------------------------------------------

  /**
    What statements do.  The answer to a request may depend on all requests before it, hence
    on everything the session has done to the database.
   */
  type Engine = seq<Frame> -> Answer

  /** The answer to the last of the requests. */
  function AnswerTo(requests: seq<Frame>, engine: Engine): Answer
    requires requests != []
  {
    var request := requests[|requests| - 1];
    if request.flags != 0 || request.tag != TAG_EXEC then Failed(Ascii("unsupported request (only EXEC_STREAM is implemented)"))
    else if request.payload == [] then Failed(Ascii("empty SQL"))
    else engine(requests)
  }

  ghost predicate Counts(engine: Engine)
  {
    forall requests :: Countable(engine(requests))
  }

  /** The answer to the i-th of the requests. */
  function AnswerAt(requests: seq<Frame>, i: nat, engine: Engine): Answer
    requires i < |requests|
  {
    AnswerTo(requests[..i + 1], engine)
  }

  lemma AnswerCounts(requests: seq<Frame>, engine: Engine)
    requires Counts(engine) && requests != []
    ensures Countable(AnswerTo(requests, engine))
  {}

  /** What the server has for each of the requests. */
  ghost function Replies(requests: seq<Frame>, engine: Engine): (rs: seq<seq<Frame>>)
    requires Counts(engine)
    ensures |rs| == |requests| && AllListsOk(rs)
  {
    if requests == [] then []
    else
      AnswerCounts(requests, engine);
      var last := Emission(AnswerTo(requests, engine));
      Replies(requests[..|requests| - 1], engine) + [last]
  }

  ghost predicate AllDeliverable(requests: seq<Frame>, engine: Engine)
  {
    forall i :: 0 <= i < |requests| ==> Deliverable(AnswerAt(requests, i, engine))
  }

  lemma {:induction false} RepliesPrefix(requests: seq<Frame>, n: nat, engine: Engine)
    requires Counts(engine) && n <= |requests|
    ensures Replies(requests[..n], engine) == Replies(requests, engine)[..n]
    decreases |requests|
  {
    hide Emission, AnswerTo, Counts;
    if n == |requests| {
      assert requests[..n] == requests;
    } else {
      var front := requests[..|requests| - 1];
      assert front[..n] == requests[..n];
      RepliesPrefix(front, n, engine);
    }
  }

  lemma DeliverablePrefix(requests: seq<Frame>, n: nat, engine: Engine)
    requires n <= |requests| && AllDeliverable(requests, engine)
    ensures AllDeliverable(requests[..n], engine)
  {
    hide AnswerTo, Deliverable;
    forall i | 0 <= i < n ensures AnswerAt(requests[..n], i, engine) == AnswerAt(requests, i, engine) {
      assert requests[..n][..i + 1] == requests[..i + 1];
    }
  }

  lemma ReplyOf(requests: seq<Frame>, i: nat, engine: Engine)
    requires Counts(engine) && i < |requests|
    ensures Countable(AnswerAt(requests, i, engine))
    ensures Replies(requests, engine)[i] == Emission(AnswerAt(requests, i, engine))
  {
    hide Emission, AnswerTo, Counts, Countable, Replies;
    LastReply(requests[..i + 1], engine);
    RepliesPrefix(requests, i + 1, engine);
    assert Replies(requests, engine)[..i + 1][i] == Replies(requests, engine)[i];
  }

  lemma LastReply(requests: seq<Frame>, engine: Engine)
    requires Counts(engine) && requests != []
    ensures Countable(AnswerTo(requests, engine))
    ensures Replies(requests, engine)[|requests| - 1] == Emission(AnswerTo(requests, engine))
  {
    AnswerCounts(requests, engine);
    hide Emission, AnswerTo, Counts, Countable;
  }

  /** The replies to deliverable answers are responses, and mean these answers. */
  lemma RepliesMean(requests: seq<Frame>, engine: Engine, i: nat, k: Consumer)
    requires Counts(engine) && i < |requests| && AllDeliverable(requests, engine)
    ensures var r := Replies(requests, engine)[i];
      IsResponse(r) && MeansTo(AnswerAt(requests, i, engine), k, Outcome(r, k).0, Outcome(r, k).1)
  {
    ReplyOf(requests, i, engine);
    hide Emission, AnswerTo, Counts, MeansTo, Outcome, IsResponse, Replies;
    ReplyMeans(AnswerAt(requests, i, engine), k);
  }

  ghost predicate NoFrameAhead(stream: Bytes)
  {
    forall f :: FrameOk(f) ==> !(FrameBytes(f) <= stream)
  }

  /** Everything read has been answered, and the answers are out. */
  ghost predicate InStep(requests: seq<Frame>, engine: Engine, stream: Bytes, input: Bytes, start: Bytes, output: Bytes)
    requires Counts(engine)
  {
    && AllDeliverable(requests, engine) && Consumed(stream, requests, input)
    && output == start + ReplyBytes(Replies(requests, engine))
  }

  /**
    How serving ends: with no complete request left, and all requests answered; or with a
    request whose answer is not deliverable or was not taken whole.
   */
  ghost predicate ServeEnds(requests: seq<Frame>, engine: Engine, stream: Bytes, rest: Bytes, start: Bytes, output: Bytes, room: nat)
    requires Counts(engine)
  {
    if InStep(requests, engine, stream, rest, start, output) then NoFrameAhead(rest)
    else
      && requests != [] && Consumed(stream, requests, rest)
      && var n := |requests| - 1;
         && AllDeliverable(requests[..n], engine)
         && Pushed(start + ReplyBytes(Replies(requests[..n], engine)), output, room, Emission(AnswerTo(requests, engine)))
  }

  /** A request was read and its answer sent, or not. */
  lemma StepServes(requests: seq<Frame>, engine: Engine, stream: Bytes, start: Bytes, f: Frame, rest: Bytes,
                   before: Bytes, after: Bytes, room: nat, ok: bool)
    requires Counts(engine) && FrameOk(f) && InStep(requests, engine, stream, FrameBytes(f) + rest, start, before)
    requires SendEnds(AnswerTo(requests + [f], engine), ok, before, after, room)
    ensures ok ==> InStep(requests + [f], engine, stream, rest, start, after)
    ensures !ok ==> ServeEnds(requests + [f], engine, stream, rest, start, after, room)
  {
    var all, n := requests + [f], |requests|;
    assert all[..n] == requests && all[..n + 1] == all;
    hide Emission, AnswerTo, Deliverable, BytesOf, FrameBytes, FrameOk, ReplyBytes, Counts, Replies, AllDeliverable;
    ConsumeFrame(stream, requests, f, rest);
    AnswerCounts(all, engine);
    ReplyBytesSnoc(requests, f, engine);
    Regroup(start, ReplyBytes(Replies(requests, engine)), BytesOf(Emission(AnswerTo(all, engine))));
    DeliverableSnoc(requests, f, engine);
  }

  lemma ReplyBytesSnoc(requests: seq<Frame>, f: Frame, engine: Engine)
    requires Counts(engine)
    ensures Countable(AnswerTo(requests + [f], engine))
    ensures ReplyBytes(Replies(requests + [f], engine)) == ReplyBytes(Replies(requests, engine)) + BytesOf(Emission(AnswerTo(requests + [f], engine)))
  {
    var all, n := requests + [f], |requests|;
    assert all[..n] == requests;
    hide *;
    LastReply(all, engine);
    RepliesPrefix(all, n, engine);
    var rs := Replies(all, engine);
    assert rs[..n + 1] == rs;
    ReplyBytesNext(rs, n);
  }

  lemma DeliverableSnoc(requests: seq<Frame>, f: Frame, engine: Engine)
    requires AllDeliverable(requests, engine)
    ensures AllDeliverable(requests + [f], engine) <==> Deliverable(AnswerTo(requests + [f], engine))
  {
    var all, n := requests + [f], |requests|;
    assert all[..n + 1] == all;
    hide AnswerTo, Deliverable;
    assert AnswerAt(all, n, engine) == AnswerTo(all, engine);
    forall i | 0 <= i < n ensures AnswerAt(all, i, engine) == AnswerAt(requests, i, engine) {
      assert all[..i + 1] == requests[..i + 1];
    }
  }

  lemma ServeStarts(engine: Engine, stream: Bytes, start: Bytes)
    requires Counts(engine)
    ensures InStep([], engine, stream, stream, start, start)
  {
    assert [] + stream == stream && start + [] == start;
  }

  /** Reads requests and answers them until the stream ends or an answer cannot be sent. */
  method Serve(conn: Connection, engine: Engine) returns (ghost requests: seq<Frame>, ghost rest: Bytes)
    requires Counts(engine)
    modifies conn
    ensures conn.room + |conn.output| == old(conn.room) + |old(conn.output)|
    ensures ServeEnds(requests, engine, old(conn.input), rest, old(conn.output), conn.output, conn.room)
  {
    ghost var stream, start := conn.input, conn.output;
    requests, rest := [], conn.input;
    var history := [];
    ServeStarts(engine, stream, start);
    hide AnswerTo, FrameBytes, FrameOk, InStep, SendEnds, BytesOf;
    while true
      invariant history == requests && InStep(requests, engine, stream, conn.input, start, conn.output)
      invariant conn.room + |conn.output| == old(conn.room) + |old(conn.output)|
      decreases |conn.input|
    {
      rest := conn.input;
      ghost var before := conn.output;
      var read := conn.ReadFrame();
      if !read.Got? { return; }
      var f := read.frame;
      history := history + [f];
      var ok := Send(conn, AnswerTo(history, engine));
      StepServes(requests, engine, stream, start, f, conn.input, before, conn.output, conn.room, ok);
      requests, rest := requests + [f], conn.input;
      if !ok { return; }
    }
  }
}
