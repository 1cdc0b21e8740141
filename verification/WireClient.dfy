/**
  The client side of a request: sending the statement and reading one response.

  A response is defined as a list of frames, apart from the code that reads it.
 */
module WireClient {
  import opened Basics
  import opened WireCodec
  import opened WireFrames

  type Row = seq<Cell>

  datatype Status = CommandOk | ResultSet | SqlError | TransactionAbort
                  | InvalidRequest | TransportError | ProtocolError | ConsumerStopped

  datatype ExecuteResult = ExecuteResult(status: Status, columns: seq<ColumnDef>, rowCount: nat, diagnostic: Bytes)

  /** The callbacks: whether they ask for more, given the columns and the rows they have been handed. */
  datatype Consumer = Consumer(onMeta: seq<ColumnDef> -> bool, onRow: (seq<ColumnDef>, seq<Row>) -> bool)

  predicate Reusable(s: Status)
  {
    s.CommandOk? || s.ResultSet? || s.SqlError? || s.TransactionAbort? || s.InvalidRequest? || s.ConsumerStopped?
  }

  // ---- what a response is --------------------------------------------------------

  predicate AllFramesOk(fs: seq<Frame>)
  {
    forall f :: f in fs ==> FrameOk(f)
  }

  function BytesOf(fs: seq<Frame>): Bytes
    requires AllFramesOk(fs)
  {
    if fs == [] then [] else BytesOf(fs[..|fs| - 1]) + (assert fs[|fs| - 1] in fs; FrameBytes(fs[|fs| - 1]))
  }

  function ColumnTypes(cs: seq<ColumnDef>): (ts: seq<byte>)
    ensures |ts| == |cs| && forall i :: 0 <= i < |cs| ==> ts[i] == cs[i].sqlType
  {
    seq(|cs|, i requires 0 <= i < |cs| => cs[i].sqlType)
  }

  predicate IsCommandOk(f: Frame)
  {
    f.tag == TAG_COMMAND_OK && f.flags == 0 && f.payload == []
  }

  predicate IsFailure(f: Frame)
  {
    IsDiagnostic(f.tag) && f.flags == 0
  }

  /** Column metadata; the raw-text flag is only for a single CHAR column. */
  predicate IsMeta(f: Frame)
  {
    && f.tag == TAG_META && f.flags <= 1 && ParseMeta(f.payload).Some?
    && (f.flags == 1 ==> ColumnTypes(ParseMeta(f.payload).value) == [TYPE_CHAR])
  }

  predicate IsRow(f: Frame, ts: seq<byte>)
  {
    f.tag == TAG_ROW && f.flags == 0 && ParseRow(f.payload, ts).Some?
  }

  predicate IsEnd(f: Frame, rows: nat)
  {
    f.tag == TAG_RESULT_END && f.flags == 0 && ParseEnd(f.payload) == Some(rows)
  }

  /** META followed by rows of its types. */
  predicate IsTable(fs: seq<Frame>)
  {
    fs != [] && IsMeta(fs[0]) && forall i :: 0 < i < |fs| ==> IsRow(fs[i], ColumnTypes(ParseMeta(fs[0].payload).value))
  }

  /** One complete response: a command's OK, a whole result set, or a failure at any point of one. */
  predicate IsResponse(fs: seq<Frame>)
  {
    && fs != [] && AllFramesOk(fs)
    && var last, table := fs[|fs| - 1], fs[..|fs| - 1];
       if |fs| == 1 then IsCommandOk(last) || IsFailure(last)
       else IsTable(table) && (IsFailure(last) || IsEnd(last, |table| - 1))
  }

  function Columns(fs: seq<Frame>): seq<ColumnDef>
    requires IsTable(fs)
  {
    ParseMeta(fs[0].payload).value
  }

  function RowsOf(fs: seq<Frame>): (rows: seq<Row>)
    requires IsTable(fs)
    ensures |rows| == |fs| - 1
  {
    seq(|fs| - 1, i requires 0 <= i < |fs| - 1 =>
      (assert IsRow(fs[i + 1], ColumnTypes(Columns(fs))); ParseRow(fs[i + 1].payload, ColumnTypes(Columns(fs))).value))
  }

  // ---- what the consumer is handed -----------------------------------------------------

  predicate Stopped(k: Consumer, cs: seq<ColumnDef>, rows: seq<Row>)
  {
    if rows == [] then !k.onMeta(cs) else Stopped(k, cs, rows[..|rows| - 1]) || !k.onRow(cs, rows)
  }

  function Seen(k: Consumer, cs: seq<ColumnDef>, rows: seq<Row>): (seen: seq<Row>)
    ensures seen <= rows
  {
    if rows == [] then []
    else if Stopped(k, cs, rows[..|rows| - 1]) then Seen(k, cs, rows[..|rows| - 1])
    else rows
  }

  /** The consumer sees the rows in order, all of them until it refuses one, and none after that. */
  lemma {:induction false} SeenUntilRefused(k: Consumer, cs: seq<ColumnDef>, rows: seq<Row>)
    ensures var seen := Seen(k, cs, rows);
      && seen == rows[..|seen|]
      && (seen != [] ==> k.onMeta(cs)) && (forall j :: 0 < j < |seen| ==> k.onRow(cs, rows[..j]))
      && (if Stopped(k, cs, rows) then (if seen == [] then !k.onMeta(cs) else !k.onRow(cs, seen))
          else seen == rows && k.onMeta(cs) && (rows != [] ==> k.onRow(cs, rows)))
  {
    if rows != [] {
      var front := rows[..|rows| - 1];
      SeenUntilRefused(k, cs, front);
      forall j | 0 < j < |rows| ensures rows[..j] == front[..j] {}
    }
  }

  /** What a response means to the caller. */
  function Outcome(fs: seq<Frame>, k: Consumer): (ExecuteResult, seq<Row>)
    requires IsResponse(fs)
  {
    var last, table := fs[|fs| - 1], fs[..|fs| - 1];
    if IsCommandOk(last) then (ExecuteResult(CommandOk, [], 0, []), [])
    else
      var cs := if table == [] then [] else Columns(table);
      var seen := if table == [] then [] else Seen(k, cs, RowsOf(table));
      if IsFailure(last) then
        (ExecuteResult(if last.tag == TAG_ERROR then SqlError else TransactionAbort, cs, 0, last.payload), seen)
      else
        (ExecuteResult(if Stopped(k, cs, RowsOf(table)) then ConsumerStopped else ResultSet, cs, |table| - 1, []), seen)
  }

  // ---- bytes of frame lists -------------------------------------------------------------

  lemma BytesOfSnoc(fs: seq<Frame>, f: Frame)
    requires AllFramesOk(fs) && FrameOk(f)
    ensures AllFramesOk(fs + [f]) && BytesOf(fs + [f]) == BytesOf(fs) + FrameBytes(f)
  {
    assert (fs + [f])[..|fs|] == fs;
  }

  lemma {:induction false} BytesOfPrefix(fs: seq<Frame>, i: nat)
    requires AllFramesOk(fs) && i <= |fs|
    ensures AllFramesOk(fs[..i]) && BytesOf(fs[..i]) <= BytesOf(fs)
    decreases |fs| - i
  {
    if i == |fs| {
      assert fs[..i] == fs;
    } else {
      var f := fs[i];
      assert f in fs && fs[..i + 1] == fs[..i] + [f];
      hide BytesOf, FrameOk, FrameBytes;
      BytesOfSnoc(fs[..i], f);
      BytesOfPrefix(fs, i + 1);
    }
  }

  /** Where a list of frames lies at the front of a stream, the next one of it comes next. */
  lemma NextFrame(fs: seq<Frame>, i: nat, stream: Bytes)
    requires AllFramesOk(fs) && i < |fs| && BytesOf(fs) <= BytesOf(fs[..i]) + stream
    ensures FrameOk(fs[i]) && FrameBytes(fs[i]) <= stream
  {
    hide *;
    FrameAt(fs, i);
    BytesOfPrefix(fs, i + 1);
    PrefixBehind(BytesOf(fs[..i]), FrameBytes(fs[i]), stream);
  }

  lemma FrameAt(fs: seq<Frame>, i: nat)
    requires AllFramesOk(fs) && i < |fs|
    ensures FrameOk(fs[i]) && AllFramesOk(fs[..i]) && AllFramesOk(fs[..i + 1])
    ensures BytesOf(fs[..i + 1]) == BytesOf(fs[..i]) + FrameBytes(fs[i])
  {
    var f := fs[i];
    assert f in fs && fs[..i + 1] == fs[..i] + [f];
    hide BytesOf, FrameOk, FrameBytes;
    BytesOfSnoc(fs[..i], f);
  }

  lemma PrefixBehind<T>(a: seq<T>, b: seq<T>, c: seq<T>)
    ensures a + b <= a + c <==> b <= c
  {
    if a + b <= a + c { assert (a + b)[|a|..] == b && (a + c)[|a|..] == c; }
  }

  /** A stream that starts with the bytes of some frames starts with these frames. */
  lemma {:induction false} FramesPrefix(a: seq<Frame>, b: seq<Frame>)
    requires AllFramesOk(a) && AllFramesOk(b) && BytesOf(a) <= BytesOf(b)
    ensures a <= b
    decreases |a|
  {
    if a != [] {
      hide *;
      var n := |a| - 1;
      FrameAt(a, n);
      assert a[..n + 1] == a;
      FramesPrefix(a[..n], b);
      NextInPrefix(a[..n], a[n], b);
      assert a == a[..n] + [a[n]];
    }
  }

  lemma NextInPrefix(front: seq<Frame>, f: Frame, b: seq<Frame>)
    requires AllFramesOk(front) && FrameOk(f) && AllFramesOk(b) && front <= b && BytesOf(front) + FrameBytes(f) <= BytesOf(b)
    ensures front + [f] <= b
  {
    hide *;
    var rest := BytesOf(b)[|BytesOf(front)|..];
    assert BytesOf(b) == BytesOf(front) + rest;
    PrefixBehind(BytesOf(front), FrameBytes(f), rest);
    WholePrefix(front, b);
    assert b[..|front|] == front;
    NextFrame(b, |front|, rest);
    SameFrame(f, b[|front|], rest);
  }

  lemma WholePrefix(a: seq<Frame>, b: seq<Frame>)
    requires a <= b
    ensures |a| == |b| ==> a == b
  {}

  lemma SameFrame(f: Frame, g: Frame, stream: Bytes)
    requires FrameOk(f) && FrameOk(g) && FrameBytes(f) <= stream && FrameBytes(g) <= stream
    ensures f == g
  {
    var a, b := FrameBytes(f), FrameBytes(g);
    assert stream == a + stream[|a|..] && stream == b + stream[|b|..];
    FramesAreUnique(f, stream[|a|..], g, stream[|b|..]);
  }

  // ---- reading one response ---------------------------------------------------------------

  datatype State = AwaitFirst | Receiving(columns: seq<ColumnDef>, observed: nat, stopped: bool, delivered: seq<Row>)

  datatype Step = Continue(state: State) | Finish(result: ExecuteResult, delivered: seq<Row>)

  /** The state after the frames of log, none of which ended the response. */
  predicate Reached(st: State, log: seq<Frame>, k: Consumer)
  {
    && AllFramesOk(log)
    && if st.AwaitFirst? then log == []
       else
         && IsTable(log) && st.columns == Columns(log) && st.observed == |log| - 1
         && st.stopped == Stopped(k, st.columns, RowsOf(log)) && st.delivered == Seen(k, st.columns, RowsOf(log))
  }

  function Broken(st: State): Step
  {
    Finish(ExecuteResult(ProtocolError, if st.AwaitFirst? then [] else st.columns, 0, []), if st.AwaitFirst? then [] else st.delivered)
  }

  /** What a step must be worth: a longer table, or the end of a response; nothing else goes through. */
  predicate StepOk(step: Step, log: seq<Frame>, k: Consumer)
  {
    match step
    case Continue(st) => st.Receiving? && Reached(st, log, k)
    case Finish(r, delivered) =>
      if IsResponse(log) then Outcome(log, k) == (r, delivered) && Reusable(r.status) && r.status != InvalidRequest
      else r.status == ProtocolError && !IsTable(log)
  }

  method HandleMeta(st: State, f: Frame, k: Consumer, ghost log: seq<Frame>) returns (step: Step)
    requires Reached(st, log, k) && FrameOk(f) && f.tag == TAG_META
    ensures StepOk(step, log + [f], k)
  {
    if f.flags > 1 || !st.AwaitFirst? { return Broken(st); }
    var columns := DecodeMeta(f.payload);
    if columns.None? { return Broken(st); }
    var cs := columns.value;
    if f.flags == 1 && (|cs| != 1 || cs[0].sqlType != TYPE_CHAR) { return Broken(st); }
    assert log + [f] == [f];
    assert IsTable([f]) && RowsOf([f]) == [];
    return Continue(Receiving(cs, 0, !k.onMeta(cs), []));
  }

  method HandleRow(st: State, f: Frame, k: Consumer, ghost log: seq<Frame>) returns (step: Step)
    requires Reached(st, log, k) && FrameOk(f) && f.tag == TAG_ROW
    ensures StepOk(step, log + [f], k)
  {
    if f.flags != 0 || !st.Receiving? { return Broken(st); }
    var row := DecodeRow(f.payload, ColumnTypes(st.columns));
    ghost var all := log + [f];
    assert all[0] == log[0] && all[|log|] == f;
    if row.None? { return Broken(st); }
    TableSnoc(log, f);
    var delivered, stopped := st.delivered, st.stopped;
    if !stopped {
      delivered := delivered + [row.value];
      assert delivered == RowsOf(all);
      stopped := !k.onRow(st.columns, delivered);
    }
    return Continue(Receiving(st.columns, st.observed + 1, stopped, delivered));
  }

  lemma TableSnoc(log: seq<Frame>, f: Frame)
    requires IsTable(log) && IsRow(f, ColumnTypes(Columns(log)))
    ensures IsTable(log + [f]) && Columns(log + [f]) == Columns(log)
    ensures RowsOf(log + [f]) == RowsOf(log) + [ParseRow(f.payload, ColumnTypes(Columns(log))).value]
    ensures RowsOf(log + [f])[..|RowsOf(log + [f])| - 1] == RowsOf(log)
  {
    var all := log + [f];
    forall i | 0 < i < |all| ensures IsRow(all[i], ColumnTypes(Columns(log))) {
      if i < |log| { assert all[i] == log[i]; }
    }
  }

  method HandleEnd(st: State, f: Frame, k: Consumer, ghost log: seq<Frame>) returns (step: Step)
    requires Reached(st, log, k) && FrameOk(f) && f.tag == TAG_RESULT_END
    ensures StepOk(step, log + [f], k)
  {
    LastOfLog(log, f);
    if f.flags != 0 || !st.Receiving? || |f.payload| != 8 { return Broken(st); }
    var declared := FromU64(f.payload);
    if declared != st.observed { return Broken(st); }
    return Finish(ExecuteResult(if st.stopped then ConsumerStopped else ResultSet, st.columns, declared, []), st.delivered);
  }

  lemma LastOfLog(log: seq<Frame>, f: Frame)
    ensures (log + [f])[|log|] == f && (log + [f])[..|log|] == log
    ensures f.tag != TAG_META && f.tag != TAG_ROW ==> !IsTable(log + [f])
    ensures AllFramesOk(log) && FrameOk(f) ==> AllFramesOk(log + [f])
  {}

  /** The client's dispatch on the tag of the next frame. */
  method HandleFrame(st: State, f: Frame, k: Consumer, ghost log: seq<Frame>) returns (step: Step)
    requires Reached(st, log, k) && FrameOk(f)
    ensures StepOk(step, log + [f], k)
  {
    LastOfLog(log, f);
    if f.tag == TAG_COMMAND_OK {
      if f.flags != 0 || !st.AwaitFirst? || f.payload != [] { return Broken(st); }
      return Finish(ExecuteResult(CommandOk, [], 0, []), []);
    } else if IsDiagnostic(f.tag) {
      if f.flags != 0 { return Broken(st); }
      var columns := if st.AwaitFirst? then [] else st.columns;
      var delivered := if st.AwaitFirst? then [] else st.delivered;
      return Finish(ExecuteResult(if f.tag == TAG_ERROR then SqlError else TransactionAbort, columns, 0, f.payload), delivered);
    } else if f.tag == TAG_META {
      step := HandleMeta(st, f, k, log);
    } else if f.tag == TAG_ROW {
      step := HandleRow(st, f, k, log);
    } else if f.tag == TAG_RESULT_END {
      step := HandleEnd(st, f, k, log);
    } else {
      return Broken(st);
    }
  }

  /** A response that starts with the frames of log is longer than log exactly if log is still a table. */
  lemma PrefixOfResponse(log: seq<Frame>, resp: seq<Frame>)
    requires IsResponse(resp) && log != [] && log <= resp
    ensures log == resp <==> IsResponse(log)
    ensures log != resp <==> IsTable(log)
  {
    if log != resp {
      assert resp[..|resp| - 1][0] == resp[0];
      forall i | 0 < i < |log| ensures IsRow(log[i], ColumnTypes(ParseMeta(resp[0].payload).value)) {
        assert resp[..|resp| - 1][i] == log[i];
      }
      assert IsTable(log);
    }
    if IsTable(log) { TableIsNoResponse(log); }
  }

  lemma TableIsNoResponse(fs: seq<Frame>)
    requires IsTable(fs)
    ensures !IsResponse(fs)
  {
    var last := fs[|fs| - 1];
    if |fs| > 1 { assert IsRow(last, ColumnTypes(Columns(fs))); }
  }

  /** No response is a proper beginning of another. */
  lemma ResponsesPrefixFree(a: seq<Frame>, b: seq<Frame>)
    requires IsResponse(a) && IsResponse(b) && a <= b
    ensures a == b
  {
    PrefixOfResponse(a, b);
  }

  /** The bytes of the response lie at the front of the stream. */
  ghost predicate Incoming(resp: seq<Frame>, stream: Bytes)
  {
    IsResponse(resp) && BytesOf(resp) <= stream
  }

  /** The frames of log were read from the front of a stream; rest is what is left of it. */
  ghost predicate Consumed(start: Bytes, log: seq<Frame>, rest: Bytes)
  {
    AllFramesOk(log) && start == BytesOf(log) + rest
  }

  lemma ConsumeFrame(start: Bytes, log: seq<Frame>, f: Frame, rest: Bytes)
    requires FrameOk(f) && Consumed(start, log, FrameBytes(f) + rest)
    ensures Consumed(start, log + [f], rest)
  {
    BytesOfSnoc(log, f);
    assert BytesOf(log) + (FrameBytes(f) + rest) == BytesOf(log) + FrameBytes(f) + rest;
  }

  lemma ExpectFrame(resp: seq<Frame>, start: Bytes, log: seq<Frame>, rest: Bytes)
    requires Consumed(start, log, rest) && Incoming(resp, start) && log < resp
    ensures FrameOk(resp[|log|]) && FrameBytes(resp[|log|]) <= rest
  {
    assert resp[..|log|] == log;
    NextFrame(resp, |log|, rest);
  }

  lemma StepMeans(step: Step, log: seq<Frame>, k: Consumer, resp: seq<Frame>, start: Bytes)
    requires StepOk(step, log, k) && log != []
    ensures step.Continue? ==> Reached(step.state, log, k)
    ensures step.Finish? ==> step.result.status != InvalidRequest
    ensures step.Finish? && Reusable(step.result.status) ==> IsResponse(log) && Outcome(log, k) == (step.result, step.delivered)
    ensures Incoming(resp, start) && log <= resp ==>
      if step.Continue? then log < resp else Reusable(step.result.status) && log == resp
  {
    if Incoming(resp, start) && log <= resp { PrefixOfResponse(log, resp); }
    if step.Continue? { TableIsNoResponse(log); }
  }

  /** Reads the next frame and acts on it. */
  method ReadStep(conn: Connection, st: State, k: Consumer, ghost start: Bytes, ghost log: seq<Frame>, ghost resp: seq<Frame>)
    returns (step: Step, ghost next: seq<Frame>)
    requires Reached(st, log, k) && Consumed(start, log, conn.input) && (Incoming(resp, start) ==> log < resp)
    modifies conn`input
    ensures step.Continue? ==>
      && Reached(step.state, next, k) && Consumed(start, next, conn.input) && |conn.input| < |old(conn.input)|
      && (Incoming(resp, start) ==> next < resp)
    ensures step.Finish? ==> Settled(step, start, next, conn.input, k, resp)
  {
    hide BytesOf, FrameBytes, FrameOk, IsResponse, IsTable, Outcome, StepOk, Incoming, Consumed, Reached;
    if Incoming(resp, start) { ExpectFrame(resp, start, log, conn.input); }
    var read := conn.ReadFrame();
    if !read.Got? {
      var status := if read.BadFrame? then ProtocolError else TransportError;
      if st.AwaitFirst? { return Finish(ExecuteResult(status, [], 0, []), []), log; }
      return Finish(ExecuteResult(status, st.columns, 0, []), st.delivered), log;
    }
    step := HandleFrame(st, read.frame, k, log);
    ConsumeFrame(start, log, read.frame, conn.input);
    next := log + [read.frame];
    StepMeans(step, next, k, resp, start);
  }

  /** The response has ended: with a reusable status exactly where it should, behind its last frame. */
  ghost predicate Settled(step: Step, start: Bytes, log: seq<Frame>, rest: Bytes, k: Consumer, resp: seq<Frame>)
    requires step.Finish?
  {
    && step.result.status != InvalidRequest
    && (Reusable(step.result.status) ==>
          IsResponse(log) && Consumed(start, log, rest) && Outcome(log, k) == (step.result, step.delivered))
    && (Incoming(resp, start) ==> Reusable(step.result.status) && log == resp)
  }

  /** Reads frames until the response ends. */
  method ReadResponse(conn: Connection, k: Consumer, ghost resp: seq<Frame>)
    returns (r: ExecuteResult, delivered: seq<Row>, ghost log: seq<Frame>)
    modifies conn`input
    ensures Settled(Finish(r, delivered), old(conn.input), log, conn.input, k, resp)
  {
    var st := AwaitFirst;
    log := [];
    ghost var start := conn.input;
    assert Consumed(start, log, start) && Reached(st, log, k);
    assert Incoming(resp, start) ==> log < resp;
    hide *;
    while true
      invariant Reached(st, log, k) && Consumed(start, log, conn.input)
      invariant Incoming(resp, start) ==> log < resp
      decreases |conn.input|
    {
      var step;
      step, log := ReadStep(conn, st, k, start, log, resp);
      if step.Finish? { return step.result, step.delivered, log; }
      st := step.state;
    }
  }

  // ---- requests ------------------------------------------------------------------------------

  predicate Sendable(sql: Bytes)
  {
    0 < |sql| <= MAX_PAYLOAD
  }

  function Request(sql: Bytes): (f: Frame)
    ensures Sendable(sql) ==> FrameOk(f)
  {
    Frame(TAG_EXEC, 0, sql)
  }

  const INVALID := ExecuteResult(InvalidRequest, [], 0, [])
  const LOST := ExecuteResult(TransportError, [], 0, [])

  /** Sends one statement and reads its response. */
  method ExecStream(conn: Connection, sql: Bytes, k: Consumer, ghost resp: seq<Frame>)
    returns (r: ExecuteResult, delivered: seq<Row>, ghost log: seq<Frame>)
    modifies conn
    ensures conn.room + |conn.output| == old(conn.room) + |old(conn.output)|
    ensures !Sendable(sql) ==> r == INVALID && delivered == []
    ensures !Sendable(sql) ==> conn.input == old(conn.input) && conn.output == old(conn.output)
    ensures Sendable(sql) ==>
      var sent := |FrameBytes(Request(sql))| <= old(conn.room);
      && Wrote(Request(sql), sent, old(conn.output), conn.output, conn.room)
      && (!sent ==> r == LOST && delivered == [] && conn.input == old(conn.input))
      && (sent ==> Settled(Finish(r, delivered), old(conn.input), log, conn.input, k, resp))
  {
    delivered, log := [], [];
    if sql == [] || |sql| > MAX_PAYLOAD { return INVALID, [], []; }
    var sent := conn.WriteFrame(TAG_EXEC, 0, sql);
    if !sent { return LOST, [], []; }
    r, delivered, log := ReadResponse(conn, k, resp);
  }

  /** A client gives its connection up with the first result that leaves it out of step. */
  class Client {
    const conn: Connection
    var open: bool

    constructor (conn: Connection)
      ensures this.conn == conn && open
    {
      this.conn := conn;
      open := true;
    }

    method Execute(sql: Bytes, k: Consumer, ghost resp: seq<Frame>)
      returns (r: ExecuteResult, delivered: seq<Row>, ghost log: seq<Frame>)
      modifies this`open, conn
      ensures open <==> old(open) && Reusable(r.status)
      ensures conn.room + |conn.output| == old(conn.room) + |old(conn.output)|
      ensures !old(open) ==> r == LOST && delivered == []
      ensures old(open) && !Sendable(sql) ==> r == INVALID && delivered == []
      ensures !old(open) || !Sendable(sql) ==> conn.input == old(conn.input) && conn.output == old(conn.output)
      ensures old(open) && Sendable(sql) ==>
        var sent := |FrameBytes(Request(sql))| <= old(conn.room);
        && Wrote(Request(sql), sent, old(conn.output), conn.output, conn.room)
        && (!sent ==> r == LOST && delivered == [])
        && (sent ==> Settled(Finish(r, delivered), old(conn.input), log, conn.input, k, resp))
    {
      if !open { return LOST, [], []; }
      r, delivered, log := ExecStream(conn, sql, k, resp);
      if !Reusable(r.status) { open := false; }
    }
  }

  // ---- many statements over one connection -----------------------------------------------------

  /** The requests of a list of statements: one for each that can be sent. */
  function RequestsOf(sqls: seq<Bytes>): (fs: seq<Frame>)
    ensures AllFramesOk(fs) && |fs| <= |sqls|
  {
    if sqls == [] then []
    else
      var front, last := RequestsOf(sqls[..|sqls| - 1]), sqls[|sqls| - 1];
      if Sendable(last) then front + [Request(last)] else front
  }

  lemma RequestsNext(sqls: seq<Bytes>, i: nat)
    requires i < |sqls|
    ensures Sendable(sqls[i]) ==> RequestsOf(sqls[..i + 1]) == RequestsOf(sqls[..i]) + [Request(sqls[i])]
    ensures !Sendable(sqls[i]) ==> RequestsOf(sqls[..i + 1]) == RequestsOf(sqls[..i])
  {
    assert sqls[..i + 1][..i] == sqls[..i];
  }

  lemma {:induction false} RequestsGrow(sqls: seq<Bytes>, i: nat)
    requires i <= |sqls|
    ensures RequestsOf(sqls[..i]) <= RequestsOf(sqls)
    decreases |sqls| - i
  {
    if i == |sqls| {
      assert sqls[..i] == sqls;
    } else {
      RequestsNext(sqls, i);
      RequestsGrow(sqls, i + 1);
    }
  }

  predicate AllListsOk(rs: seq<seq<Frame>>)
  {
    forall i :: 0 <= i < |rs| ==> AllFramesOk(rs[i])
  }

  function ReplyBytes(rs: seq<seq<Frame>>): Bytes
    requires AllListsOk(rs)
  {
    if rs == [] then [] else ReplyBytes(rs[..|rs| - 1]) + BytesOf(rs[|rs| - 1])
  }

  lemma ReplyBytesNext(rs: seq<seq<Frame>>, i: nat)
    requires AllListsOk(rs) && i < |rs|
    ensures ReplyBytes(rs[..i + 1]) == ReplyBytes(rs[..i]) + BytesOf(rs[i])
  {
    assert rs[..i + 1][..i] == rs[..i];
  }

  lemma {:induction false} ReplyBytesPrefix(rs: seq<seq<Frame>>, i: nat)
    requires AllListsOk(rs) && i <= |rs|
    ensures ReplyBytes(rs[..i]) <= ReplyBytes(rs)
    decreases |rs| - i
  {
    if i == |rs| {
      assert rs[..i] == rs;
    } else {
      ReplyBytesNext(rs, i);
      ReplyBytesPrefix(rs, i + 1);
    }
  }

  predicate AllResponses(rs: seq<seq<Frame>>)
  {
    forall i :: 0 <= i < |rs| ==> IsResponse(rs[i])
  }

  /** There is no complete response at the front of the stream. */
  ghost predicate NoResponse(stream: Bytes)
  {
    forall fs :: IsResponse(fs) ==> !(BytesOf(fs) <= stream)
  }

  /** A response that breaks off, or a table that is never closed, holds no response. */
  lemma BrokenOff(fs: seq<Frame>, tail: Bytes)
    requires AllFramesOk(fs) && tail <= BytesOf(fs) && (IsTable(fs) || (IsResponse(fs) && tail != BytesOf(fs)))
    ensures NoResponse(tail)
  {
    forall r | IsResponse(r) ensures !(BytesOf(r) <= tail) {
      if BytesOf(r) <= tail {
        FramesPrefix(r, fs);
        if IsTable(fs) { TableIsNoResponse(r); } else { ResponsesPrefixFree(r, fs); }
      }
    }
  }

  lemma NothingIsNoResponse()
    ensures NoResponse([])
  {
    forall r | IsResponse(r) ensures !(BytesOf(r) <= []) {
      assert r[|r| - 1] in r;
    }
  }

  /** As much of the bytes as the peer takes. */
  function Cut(b: Bytes, room: nat): Bytes
  {
    if |b| <= room then b else b[..room]
  }

  /** The connection breaks after these replies: what follows them is no response. */
  ghost predicate Script(sqls: seq<Bytes>, replies: seq<seq<Frame>>, whole: Bytes, tail: Bytes, room: nat)
  {
    && AllResponses(replies) && AllListsOk(replies) && |replies| <= |RequestsOf(sqls)|
    && whole == ReplyBytes(replies) + tail && NoResponse(tail)
    && |BytesOf(RequestsOf(sqls)[..|replies|])| <= room
  }

  /** After i statements: every request was written and its reply read, up to where the connection broke. */
  ghost predicate Progress(sqls: seq<Bytes>, replies: seq<seq<Frame>>, i: nat, open: bool, whole: Bytes, input: Bytes,
                           out: Bytes, output: Bytes, room: nat)
    requires i <= |sqls| && AllListsOk(replies)
  {
    var fs := RequestsOf(sqls[..i]);
    if open then |fs| <= |replies| && whole == ReplyBytes(replies[..|fs|]) + input && output == out + BytesOf(fs)
    else |replies| < |fs| && |replies| < |RequestsOf(sqls)| && output == out + Cut(BytesOf(RequestsOf(sqls)[..|replies| + 1]), room)
  }

  /** What the i-th statement reports: the reply to its own request, unless the connection has broken. */
  ghost predicate Reports(sqls: seq<Bytes>, replies: seq<seq<Frame>>, ks: seq<Consumer>, i: nat, result: (ExecuteResult, seq<Row>))
    requires i < |sqls| == |ks| && AllResponses(replies)
  {
    var n := |RequestsOf(sqls[..i + 1])|;
    if n > |replies| then !Reusable(result.0.status)
    else if !Sendable(sqls[i]) then result == (INVALID, [])
    else n > 0 && result == Outcome(replies[n - 1], ks[i])
  }

  ghost predicate AllReport(sqls: seq<Bytes>, replies: seq<seq<Frame>>, ks: seq<Consumer>, results: seq<(ExecuteResult, seq<Row>)>)
    requires |results| <= |sqls| == |ks| && AllResponses(replies)
  {
    forall i :: 0 <= i < |results| ==> Reports(sqls, replies, ks, i, results[i])
  }

  lemma ProgressStarts(sqls: seq<Bytes>, replies: seq<seq<Frame>>, whole: Bytes, out: Bytes, room: nat)
    requires AllListsOk(replies)
    ensures Progress(sqls, replies, 0, true, whole, whole, out, out, room)
  {
    assert replies[..0] == [] && sqls[..0] == [];
  }

  /** A statement that sends nothing, because it cannot be sent or the connection is closed. */
  lemma StepAside(sqls: seq<Bytes>, replies: seq<seq<Frame>>, ks: seq<Consumer>, i: nat, open: bool, whole: Bytes, tail: Bytes,
                  input: Bytes, out: Bytes, output: Bytes, room: nat)
    requires i < |sqls| == |ks| && Script(sqls, replies, whole, tail, room)
    requires Progress(sqls, replies, i, open, whole, input, out, output, room) && (open ==> !Sendable(sqls[i]))
    ensures Progress(sqls, replies, i + 1, open, whole, input, out, output, room)
    ensures Reports(sqls, replies, ks, i, (if open then INVALID else LOST, []))
  {
    RequestsNext(sqls, i);
    hide ReplyBytes, BytesOf, IsResponse, RequestsOf, NoResponse, Outcome;
  }

  /** The request of the next statement is the next request. */
  lemma NextRequest(sqls: seq<Bytes>, i: nat)
    requires i < |sqls| && Sendable(sqls[i])
    ensures var n, all := |RequestsOf(sqls[..i])|, RequestsOf(sqls);
      && n < |all| && all[..n] == RequestsOf(sqls[..i]) && all[..n + 1] == RequestsOf(sqls[..i + 1])
      && BytesOf(all[..n + 1]) == BytesOf(all[..n]) + FrameBytes(Request(sqls[i]))
  {
    RequestsNext(sqls, i);
    RequestsGrow(sqls, i);
    RequestsGrow(sqls, i + 1);
    BytesOfSnoc(RequestsOf(sqls[..i]), Request(sqls[i]));
    hide BytesOf, FrameBytes, FrameOk, RequestsOf;
  }

  lemma BytesOfPrefixes(fs: seq<Frame>, i: nat, j: nat)
    requires AllFramesOk(fs) && i <= j <= |fs|
    ensures AllFramesOk(fs[..i]) && AllFramesOk(fs[..j]) && BytesOf(fs[..i]) <= BytesOf(fs[..j])
  {
    assert fs[..j][..i] == fs[..i];
    hide BytesOf, FrameOk;
    BytesOfPrefix(fs[..j], i);
  }

  /** Its reply is what the stream goes on with, and there is room for it. */
  lemma BeforeReply(sqls: seq<Bytes>, replies: seq<seq<Frame>>, i: nat, whole: Bytes, tail: Bytes, input: Bytes,
                    out: Bytes, output: Bytes, room: nat)
    requires i < |sqls| && Script(sqls, replies, whole, tail, room) && Sendable(sqls[i])
    requires Progress(sqls, replies, i, true, whole, input, out, output, room)
    ensures var n := |RequestsOf(sqls[..i])|;
      if n < |replies| then Incoming(replies[n], input) && |BytesOf(RequestsOf(sqls[..i + 1]))| <= room else input == tail
  {
    var n, all := |RequestsOf(sqls[..i])|, RequestsOf(sqls);
    hide ReplyBytes, BytesOf, FrameOk, RequestsOf, NoResponse, IsResponse;
    NextRequest(sqls, i);
    if n < |replies| {
      ReplyAhead(replies, n, tail, input);
      BytesOfPrefixes(all, n + 1, |replies|);
    } else {
      assert replies[..n] == replies;
      SameRest(ReplyBytes(replies), input, tail);
    }
  }

  lemma SameRest<T>(a: seq<T>, b: seq<T>, c: seq<T>)
    requires a + b == a + c
    ensures b == c
  {
    assert (a + b)[|a|..] == b && (a + c)[|a|..] == c;
  }

  lemma ReplyAhead(rs: seq<seq<Frame>>, n: nat, tail: Bytes, input: Bytes)
    requires AllResponses(rs) && AllListsOk(rs) && n < |rs| && ReplyBytes(rs) + tail == ReplyBytes(rs[..n]) + input
    ensures Incoming(rs[n], input)
  {
    ReplyBytesPrefix(rs, n + 1);
    ReplyBytesNext(rs, n);
    hide ReplyBytes, BytesOf, IsResponse;
    assert ReplyBytes(rs[..n]) + BytesOf(rs[n]) <= ReplyBytes(rs) + tail;
    PrefixBehind(ReplyBytes(rs[..n]), BytesOf(rs[n]), input);
  }

  /** The reply was there and has been read. */
  lemma AfterReply(sqls: seq<Bytes>, replies: seq<seq<Frame>>, ks: seq<Consumer>, i: nat, whole: Bytes, tail: Bytes, input: Bytes,
                   rest: Bytes, out: Bytes, output: Bytes, room: nat, r: ExecuteResult, delivered: seq<Row>, log: seq<Frame>)
    requires i < |sqls| == |ks| && Script(sqls, replies, whole, tail, room) && Sendable(sqls[i])
    requires Progress(sqls, replies, i, true, whole, input, out, output, room) && |RequestsOf(sqls[..i])| < |replies|
    requires Settled(Finish(r, delivered), input, log, rest, ks[i], replies[|RequestsOf(sqls[..i])|])
    ensures Reusable(r.status) && Reports(sqls, replies, ks, i, (r, delivered))
    ensures Progress(sqls, replies, i + 1, true, whole, rest, out, output + FrameBytes(Request(sqls[i])), room)
  {
    var n := |RequestsOf(sqls[..i])|;
    BeforeReply(sqls, replies, i, whole, tail, input, out, output, room);
    NextRequest(sqls, i);
    ReplyBytesNext(replies, n);
    hide ReplyBytes, BytesOf, IsResponse, FrameBytes, FrameOk, Outcome, RequestsOf, NoResponse, Incoming;
    Regroup(ReplyBytes(replies[..n]), BytesOf(replies[n]), rest);
    Regroup(out, BytesOf(RequestsOf(sqls[..i])), FrameBytes(Request(sqls[i])));
  }

  lemma Regroup<T>(a: seq<T>, b: seq<T>, c: seq<T>)
    ensures a + b + c == a + (b + c)
  {}

  /** The reply was not there, or the request could not be written: the connection is given up. */
  lemma AfterLoss(sqls: seq<Bytes>, replies: seq<seq<Frame>>, ks: seq<Consumer>, i: nat, whole: Bytes, tail: Bytes, input: Bytes,
                  rest: Bytes, out: Bytes, output: Bytes, now: Bytes, room: nat, left: nat, sent: bool,
                  r: ExecuteResult, delivered: seq<Row>, log: seq<Frame>)
    requires i < |sqls| == |ks| && Script(sqls, replies, whole, tail, room) && Sendable(sqls[i])
    requires Progress(sqls, replies, i, true, whole, input, out, output, room) && |RequestsOf(sqls[..i])| == |replies|
    requires Wrote(Request(sqls[i]), sent, output, now, left) && left + |now| == room + |out|
    requires if sent then Settled(Finish(r, delivered), input, log, rest, ks[i], []) else r == LOST
    ensures !Reusable(r.status) && Reports(sqls, replies, ks, i, (r, delivered))
    ensures Progress(sqls, replies, i + 1, false, whole, rest, out, now, room)
  {
    BeforeReply(sqls, replies, i, whole, tail, input, out, output, room);
    NextRequest(sqls, i);
    if sent { NoReply(Finish(r, delivered), tail, log, rest, ks[i]); }
    hide BytesOf, FrameBytes, FrameOk, RequestsOf, NoResponse, IsResponse;
    CutOff(out, BytesOf(RequestsOf(sqls[..i])), FrameBytes(Request(sqls[i])), now, room, left, sent);
  }

  lemma NoReply(step: Step, stream: Bytes, log: seq<Frame>, rest: Bytes, k: Consumer)
    requires step.Finish? && NoResponse(stream) && Settled(step, stream, log, rest, k, [])
    ensures !Reusable(step.result.status)
  {
    assert IsResponse(log) ==> !(BytesOf(log) <= stream);
  }

  lemma CutOff(out: Bytes, a: Bytes, b: Bytes, now: Bytes, room: nat, left: nat, sent: bool)
    requires out + a <= now <= out + a + b && (sent <==> now == out + a + b) && (!sent ==> left == 0) && left + |now| == room + |out|
    ensures now == out + Cut(a + b, room)
  {
    assert out + a + b == out + (a + b);
    if !sent { assert now == (out + (a + b))[..|now|]; }
  }

  lemma AllReportNext(sqls: seq<Bytes>, replies: seq<seq<Frame>>, ks: seq<Consumer>,
                      results: seq<(ExecuteResult, seq<Row>)>, result: (ExecuteResult, seq<Row>))
    requires |results| < |sqls| == |ks| && AllResponses(replies) && AllReport(sqls, replies, ks, results)
    requires Reports(sqls, replies, ks, |results|, result)
    ensures AllReport(sqls, replies, ks, results + [result])
  {
    hide Reports;
  }

  lemma ProgressEnds(sqls: seq<Bytes>, replies: seq<seq<Frame>>, open: bool, whole: Bytes, tail: Bytes, input: Bytes,
                     out: Bytes, output: Bytes, room: nat)
    requires Script(sqls, replies, whole, tail, room)
    requires Progress(sqls, replies, |sqls|, open, whole, input, out, output, room)
    ensures open <==> |replies| == |RequestsOf(sqls)|
    ensures output == out + Cut(BytesOf(if open then RequestsOf(sqls) else RequestsOf(sqls)[..|replies| + 1]), room)
  {
    assert sqls[..|sqls|] == sqls;
    var all := RequestsOf(sqls);
    assert all[..|all|] == all;
    hide BytesOf, ReplyBytes, RequestsOf, NoResponse, IsResponse;
  }

  /** Executes the next statement. */
  method NextStatement(client: Client, sqls: seq<Bytes>, ks: seq<Consumer>, i: nat, ghost replies: seq<seq<Frame>>,
                       ghost whole: Bytes, ghost tail: Bytes, ghost out: Bytes, ghost room: nat)
    returns (result: (ExecuteResult, seq<Row>))
    requires i < |sqls| == |ks| && Script(sqls, replies, whole, tail, room)
    requires Progress(sqls, replies, i, client.open, whole, client.conn.input, out, client.conn.output, room)
    requires client.conn.room + |client.conn.output| == room + |out|
    modifies client`open, client.conn
    ensures Progress(sqls, replies, i + 1, client.open, whole, client.conn.input, out, client.conn.output, room)
    ensures client.conn.room + |client.conn.output| == room + |out|
    ensures Reports(sqls, replies, ks, i, result)
  {
    ghost var open, input, output := client.open, client.conn.input, client.conn.output;
    ghost var n := |RequestsOf(sqls[..i])|;
    ghost var resp := if n < |replies| then replies[n] else [];
    if open && Sendable(sqls[i]) {
      BeforeReply(sqls, replies, i, whole, tail, input, out, output, room);
      NextRequest(sqls, i);
    }
    hide Progress, Reports, Script, Settled, Wrote, RequestsOf, BytesOf, FrameBytes, IsResponse, NoResponse;
    var r, delivered, log := client.Execute(sqls[i], ks[i], resp);
    if !open || !Sendable(sqls[i]) {
      StepAside(sqls, replies, ks, i, open, whole, tail, input, out, output, room);
    } else if n < |replies| {
      AfterReply(sqls, replies, ks, i, whole, tail, input, client.conn.input, out, output, room, r, delivered, log);
    } else {
      AfterLoss(sqls, replies, ks, i, whole, tail, input, client.conn.input, out, output, client.conn.output, room,
                client.conn.room, |FrameBytes(Request(sqls[i]))| <= room + |out| - |output|, r, delivered, log);
    }
    return (r, delivered);
  }

  /**
    Statements executed one after the other over one connection: each gets the response to
    its own request, until the connection breaks; a statement that cannot be sent takes no
    part in this.
   */
  method RunStatements(client: Client, sqls: seq<Bytes>, ks: seq<Consumer>, ghost replies: seq<seq<Frame>>, ghost tail: Bytes)
    returns (results: seq<(ExecuteResult, seq<Row>)>)
    requires |ks| == |sqls| && client.open && Script(sqls, replies, client.conn.input, tail, client.conn.room)
    modifies client`open, client.conn
    ensures |results| == |sqls| && AllReport(sqls, replies, ks, results)
    ensures client.open <==> |replies| == |RequestsOf(sqls)|
    ensures client.conn.output == old(client.conn.output) +
      Cut(BytesOf(if client.open then RequestsOf(sqls) else RequestsOf(sqls)[..|replies| + 1]), old(client.conn.room))
  {
    results := [];
    ghost var whole, out, room := client.conn.input, client.conn.output, client.conn.room;
    ProgressStarts(sqls, replies, whole, out, room);
    assert AllReport(sqls, replies, ks, results);
    hide *;
    for i := 0 to |sqls|
      invariant |results| == i && AllReport(sqls, replies, ks, results)
      invariant Progress(sqls, replies, i, client.open, whole, client.conn.input, out, client.conn.output, room)
      invariant client.conn.room + |client.conn.output| == room + |out|
    {
      var result := NextStatement(client, sqls, ks, i, replies, whole, tail, out, room);
      AllReportNext(sqls, replies, ks, results, result);
      results := results + [result];
    }
    ProgressEnds(sqls, replies, client.open, whole, tail, client.conn.input, out, client.conn.output, room);
  }
}
