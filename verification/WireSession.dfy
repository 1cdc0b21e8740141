/**
  Both ends of a connection together: what the client sends is what the server reads, and
  what the server sends is what the client reads.  Either direction may break after any
  number of bytes.
 */
module WireSession {
  import opened Basics
  import opened WireCodec
  import opened WireFrames
  import opened WireClient
  import opened WireServer
  import opened WireShown

  /** The connection carries these requests and the whole of their replies. */
  ghost predicate Carried(requests: seq<Frame>, engine: Engine, up: nat, down: nat)
    requires Counts(engine)
  {
    && AllFramesOk(requests) && |BytesOf(requests)| <= up
    && AllDeliverable(requests, engine) && |ReplyBytes(Replies(requests, engine))| <= down
  }

  /**
    What the i-th statement reports.  While the connection holds, it is the engine's answer
    to all statements sent up to this one; a statement that cannot be sent is refused and
    changes nothing.  From the first request on that is not carried, the connection is lost.
   */
  ghost predicate Faithful(sqls: seq<Bytes>, engine: Engine, ks: seq<Consumer>, up: nat, down: nat, i: nat,
                           result: (ExecuteResult, seq<Row>))
    requires Counts(engine) && i < |sqls| == |ks|
  {
    var requests := RequestsOf(sqls[..i + 1]);
    if !Carried(requests, engine, up, down) then !Reusable(result.0.status)
    else if !Sendable(sqls[i]) then result == (INVALID, [])
    else MeansTo(engine(requests), ks[i], result.0, result.1) && Shows(engine(requests), ks[i], result.0, result.1)
  }

  /** The number of requests that were read and answered whole. */
  ghost function AnsweredOf(read: seq<Frame>, engine: Engine, stream: Bytes, rest: Bytes, output: Bytes): (n: nat)
    requires Counts(engine)
    ensures n <= |read|
  {
    if InStep(read, engine, stream, rest, [], output) || read == [] then |read| else |read| - 1
  }

  /** What the server read and sent, when the client meant to send all. */
  ghost predicate Served(all: seq<Frame>, engine: Engine, up: nat, down: nat, read: seq<Frame>, n: nat, rest: Bytes,
                         output: Bytes, room: nat)
    requires Counts(engine)
  {
    && AllFramesOk(all) && room + |output| == down
    && ServeEnds(read, engine, Cut(BytesOf(all), up), rest, [], output, room)
    && n == AnsweredOf(read, engine, Cut(BytesOf(all), up), rest, output)
  }

  /** The server reads the requests of the client in order, and answers all but perhaps the last it reads. */
  lemma ReadInOrder(all: seq<Frame>, engine: Engine, up: nat, down: nat, read: seq<Frame>, n: nat, rest: Bytes,
                    output: Bytes, room: nat)
    requires Counts(engine) && Served(all, engine, up, down, read, n, rest, output, room)
    ensures AllFramesOk(read) && Consumed(Cut(BytesOf(all), up), read, rest) && |BytesOf(read)| <= up
    ensures read <= all && n <= |read| <= n + 1 && read[..n] == all[..n]
    ensures AllDeliverable(all[..n], engine) && ReplyBytes(Replies(all[..n], engine)) <= output
  {
    hide AllDeliverable, Replies, ReplyBytes, FrameOk, NoFrameAhead, BytesOf, Emission, AnswerTo, Counts;
    var wire := Cut(BytesOf(all), up);
    assert AllFramesOk(read) && wire == BytesOf(read) + rest;
    assert BytesOf(read) <= wire <= BytesOf(all);
    FramesPrefix(read, all);
    assert read[..n] == all[..n] && (n == |read| ==> read[..n] == read);
    var sent := ReplyBytes(Replies(read[..n], engine));
    assert [] + sent == sent;
  }

  /** Either all requests read were answered and no more came, or the last one was not answered whole. */
  lemma ServedCases(all: seq<Frame>, engine: Engine, up: nat, down: nat, read: seq<Frame>, n: nat, rest: Bytes,
                    output: Bytes, room: nat)
    requires Counts(engine) && Served(all, engine, up, down, read, n, rest, output, room)
    ensures n == |read| ==> read[..n] == read && output == ReplyBytes(Replies(read, engine)) && NoFrameAhead(rest)
    ensures n < |read| ==>
      && n == |read| - 1 && ServeEnds(read, engine, Cut(BytesOf(all), up), rest, [], output, room)
      && !InStep(read, engine, Cut(BytesOf(all), up), rest, [], output)
  {
    hide AllDeliverable, Replies, ReplyBytes, NoFrameAhead, BytesOf, Emission, AnswerTo, Counts;
    var sent := ReplyBytes(Replies(read, engine));
    assert [] + sent == sent;
  }

  lemma NotInStep(read: seq<Frame>, engine: Engine, stream: Bytes, rest: Bytes, output: Bytes, room: nat)
    requires Counts(engine) && ServeEnds(read, engine, stream, rest, [], output, room)
    requires !InStep(read, engine, stream, rest, [], output)
    ensures read != [] && Countable(AnswerTo(read, engine)) && AllDeliverable(read[..|read| - 1], engine)
    ensures Pushed(ReplyBytes(Replies(read[..|read| - 1], engine)), output, room, Emission(AnswerTo(read, engine)))
    ensures AllDeliverable(read, engine) ==> output != ReplyBytes(Replies(read, engine))
  {
    AnswerCounts(read, engine);
    hide Emission, AnswerTo, BytesOf, ReplyBytes, Counts, Replies, AllDeliverable, Pushed, Countable, AllFramesOk;
    EmptyStart(ReplyBytes(Replies(read[..|read| - 1], engine)));
    EmptyStart(ReplyBytes(Replies(read, engine)));
  }

  lemma EmptyStart(b: Bytes)
    ensures [] + b == b
  {}

  /** How the last answer broke off. */
  lemma LastCase(read: seq<Frame>, engine: Engine, stream: Bytes, rest: Bytes, output: Bytes, room: nat)
    requires Counts(engine) && ServeEnds(read, engine, stream, rest, [], output, room)
    requires !InStep(read, engine, stream, rest, [], output)
    ensures read != [] && Countable(AnswerTo(read, engine))
    ensures var sent, last := ReplyBytes(Replies(read[..|read| - 1], engine)), Emission(AnswerTo(read, engine));
      && Pushed(sent, output, room, last) && ReplyBytes(Replies(read, engine)) == sent + BytesOf(last)
      && (Deliverable(AnswerTo(read, engine)) ==> output != sent + BytesOf(last))
      && (AllDeliverable(read, engine) ==> Deliverable(AnswerTo(read, engine)))
  {
    hide *;
    NotInStep(read, engine, stream, rest, output, room);
    var front, f := read[..|read| - 1], read[|read| - 1];
    assert read == front + [f];
    ReplyBytesSnoc(front, f, engine);
    DeliverableSnoc(front, f, engine);
  }

  /** What follows the whole replies in the server's output is no response. */
  lemma TailOf(all: seq<Frame>, engine: Engine, up: nat, down: nat, read: seq<Frame>, n: nat, rest: Bytes,
               output: Bytes, room: nat)
    returns (tail: Bytes)
    requires Counts(engine) && Served(all, engine, up, down, read, n, rest, output, room)
    ensures n <= |all| && output == ReplyBytes(Replies(all[..n], engine)) + tail && NoResponse(tail)
  {
    hide *;
    ServedOk(all, engine, up, down, read, n, rest, output, room);
    ReadInOrder(all, engine, up, down, read, n, rest, output, room);
    ServedCases(all, engine, up, down, read, n, rest, output, room);
    var sent := ReplyBytes(Replies(all[..n], engine));
    tail := output[|sent|..];
    if n == |read| {
      NothingIsNoResponse();
    } else {
      LastBreaks(read, engine, Cut(BytesOf(all), up), rest, output, room, sent, tail);
    }
  }

  lemma ServedOk(all: seq<Frame>, engine: Engine, up: nat, down: nat, read: seq<Frame>, n: nat, rest: Bytes,
                 output: Bytes, room: nat)
    requires Counts(engine) && Served(all, engine, up, down, read, n, rest, output, room)
    ensures AllFramesOk(all) && room + |output| == down
  {}

  lemma LastBreaks(read: seq<Frame>, engine: Engine, stream: Bytes, rest: Bytes, output: Bytes, room: nat, sent: Bytes, tail: Bytes)
    requires Counts(engine) && read != [] && ServeEnds(read, engine, stream, rest, [], output, room)
    requires !InStep(read, engine, stream, rest, [], output)
    requires sent == ReplyBytes(Replies(read[..|read| - 1], engine)) && output == sent + tail
    ensures NoResponse(tail)
  {
    LastCase(read, engine, stream, rest, output, room);
    var a := AnswerTo(read, engine);
    hide Emission, AnswerTo, Deliverable, BytesOf, ReplyBytes, Counts, Replies, AllDeliverable, NoResponse, IsTable, IsResponse,
         ServeEnds, InStep;
    PrefixBehind(sent, tail, BytesOf(Emission(a)));
    if Deliverable(a) { ReplyMeans(a, Consumer(_ => true, (_, _) => true)); } else { UndeliverableIsOpen(a); }
    BrokenOff(Emission(a), tail);
  }

  lemma CarriedPrefix(all: seq<Frame>, engine: Engine, up: nat, down: nat, p: nat, q: nat)
    requires Counts(engine) && p <= q <= |all| && Carried(all[..q], engine, up, down)
    ensures Carried(all[..p], engine, up, down)
  {
    var some := all[..q];
    assert some[..p] == all[..p];
    hide BytesOf, ReplyBytes, Replies, AllDeliverable, Counts;
    BytesOfPrefix(some, p);
    DeliverablePrefix(some, p, engine);
    RepliesPrefix(some, p, engine);
    ReplyBytesPrefix(Replies(some, engine), p);
  }

  lemma AnsweredIsCarried(all: seq<Frame>, engine: Engine, up: nat, down: nat, read: seq<Frame>, n: nat, rest: Bytes,
                          output: Bytes, room: nat)
    requires Counts(engine) && Served(all, engine, up, down, read, n, rest, output, room)
    ensures n <= |all| && Carried(all[..n], engine, up, down)
  {
    ReadInOrder(all, engine, up, down, read, n, rest, output, room);
    hide BytesOf, ReplyBytes, Replies, AllDeliverable, Counts, ServeEnds, AnsweredOf;
    BytesOfPrefix(read, n);
  }

  /** Where the server found no further request, the client had none that gets through. */
  lemma StreamEnds(all: seq<Frame>, up: nat, n: nat, rest: Bytes)
    requires AllFramesOk(all) && n < |all| && Consumed(Cut(BytesOf(all), up), all[..n], rest) && NoFrameAhead(rest)
    ensures AllFramesOk(all[..n + 1]) && |BytesOf(all[..n + 1])| > up
  {
    FrameAt(all, n);
    BytesOfPrefix(all, n + 1);
    assert !(FrameBytes(all[n]) <= rest);
    hide BytesOf, FrameBytes, FrameOk, NoFrameAhead;
    if |BytesOf(all[..n + 1])| <= up {
      assert BytesOf(all[..n + 1]) <= Cut(BytesOf(all), up);
      PrefixBehind(BytesOf(all[..n]), FrameBytes(all[n]), rest);
    }
  }

  /** Where the last answer was not sent whole, it is not deliverable or the replies are more than the client takes. */
  lemma LastNotCarried(read: seq<Frame>, engine: Engine, stream: Bytes, rest: Bytes, output: Bytes, room: nat, down: nat)
    requires Counts(engine) && ServeEnds(read, engine, stream, rest, [], output, room) && room + |output| == down
    requires !InStep(read, engine, stream, rest, [], output)
    ensures AllDeliverable(read, engine) ==> |ReplyBytes(Replies(read, engine))| > down
  {
    LastCase(read, engine, stream, rest, output, room);
    hide Emission, AnswerTo, BytesOf, ReplyBytes, Counts, Replies, AllDeliverable, ServeEnds, InStep, Deliverable;
  }

  /** The first request that is not answered is not carried. */
  lemma NextNotCarried(all: seq<Frame>, engine: Engine, up: nat, down: nat, read: seq<Frame>, n: nat, rest: Bytes,
                       output: Bytes, room: nat)
    requires Counts(engine) && Served(all, engine, up, down, read, n, rest, output, room) && n < |all|
    ensures !Carried(all[..n + 1], engine, up, down)
  {
    hide *;
    ServedOk(all, engine, up, down, read, n, rest, output, room);
    ReadInOrder(all, engine, up, down, read, n, rest, output, room);
    ServedCases(all, engine, up, down, read, n, rest, output, room);
    if n == |read| {
      StreamEnds(all, up, n, rest);
      NotUp(all[..n + 1], engine, up, down);
    } else {
      assert read == all[..n + 1];
      LastNotCarried(read, engine, Cut(BytesOf(all), up), rest, output, room, down);
      NotDown(read, engine, up, down);
    }
  }

  lemma NotUp(requests: seq<Frame>, engine: Engine, up: nat, down: nat)
    requires Counts(engine) && AllFramesOk(requests) && |BytesOf(requests)| > up
    ensures !Carried(requests, engine, up, down)
  {
    hide BytesOf, Counts;
  }

  lemma NotDown(requests: seq<Frame>, engine: Engine, up: nat, down: nat)
    requires Counts(engine) && (AllDeliverable(requests, engine) ==> |ReplyBytes(Replies(requests, engine))| > down)
    ensures !Carried(requests, engine, up, down)
  {
    hide BytesOf, ReplyBytes, Replies, AllDeliverable, Counts;
  }

  /** The requests answered are exactly those that are carried. */
  lemma AnsweredAreCarried(all: seq<Frame>, engine: Engine, up: nat, down: nat, read: seq<Frame>, n: nat, rest: Bytes,
                           output: Bytes, room: nat, q: nat)
    requires Counts(engine) && Served(all, engine, up, down, read, n, rest, output, room) && q <= |all|
    ensures q <= n <==> Carried(all[..q], engine, up, down)
  {
    hide *;
    AnsweredIsCarried(all, engine, up, down, read, n, rest, output, room);
    if q <= n {
      CarriedPrefix(all, engine, up, down, q, n);
    } else {
      NextNotCarried(all, engine, up, down, read, n, rest, output, room);
      if Carried(all[..q], engine, up, down) { CarriedPrefix(all, engine, up, down, n + 1, q); }
    }
  }

  /** The client finds in the server's output the whole replies, and then no response. */
  lemma ScriptHolds(sqls: seq<Bytes>, engine: Engine, up: nat, down: nat, read: seq<Frame>, n: nat, rest: Bytes,
                    output: Bytes, room: nat)
    returns (tail: Bytes)
    requires Counts(engine) && Served(RequestsOf(sqls), engine, up, down, read, n, rest, output, room)
    ensures n <= |RequestsOf(sqls)| && Script(sqls, Replies(RequestsOf(sqls)[..n], engine), output, tail, up)
  {
    var all := RequestsOf(sqls);
    hide *;
    ReadInOrder(all, engine, up, down, read, n, rest, output, room);
    tail := TailOf(all, engine, up, down, read, n, rest, output, room);
    BytesOfPrefix(read, n);
    RepliesAreResponses(all[..n], engine);
    ScriptOf(sqls, Replies(all[..n], engine), output, tail, up);
  }

  lemma ScriptOf(sqls: seq<Bytes>, replies: seq<seq<Frame>>, whole: Bytes, tail: Bytes, room: nat)
    requires AllResponses(replies) && AllListsOk(replies) && |replies| <= |RequestsOf(sqls)|
    requires whole == ReplyBytes(replies) + tail && NoResponse(tail)
    requires AllFramesOk(RequestsOf(sqls)[..|replies|]) && |BytesOf(RequestsOf(sqls)[..|replies|])| <= room
    ensures Script(sqls, replies, whole, tail, room)
  {
    hide AllResponses, AllListsOk, RequestsOf, BytesOf, ReplyBytes, NoResponse;
  }

  lemma RepliesAreResponses(requests: seq<Frame>, engine: Engine)
    requires Counts(engine) && AllDeliverable(requests, engine)
    ensures AllResponses(Replies(requests, engine))
  {
    hide IsResponse, Counts, AllDeliverable, MeansTo, Outcome, Replies;
    forall i | 0 <= i < |requests| ensures IsResponse(Replies(requests, engine)[i]) {
      RepliesMean(requests, engine, i, Consumer(_ => true, (_, _) => true));
    }
  }

  /** A report in terms of the replies is one in terms of the engine. */
  lemma ReportIsFaithful(sqls: seq<Bytes>, engine: Engine, ks: seq<Consumer>, up: nat, down: nat, n: nat,
                         replies: seq<seq<Frame>>, i: nat, result: (ExecuteResult, seq<Row>))
    requires Counts(engine) && i < |sqls| == |ks| && n == |replies| && AllResponses(replies)
    requires Reports(sqls, replies, ks, i, result)
    requires var fs := RequestsOf(sqls[..i + 1]);
      && (|fs| <= n <==> Carried(fs, engine, up, down))
      && (0 < |fs| <= n && Sendable(sqls[i]) ==> Conveys(replies[|fs| - 1], engine(fs), ks[i]))
    ensures Faithful(sqls, engine, ks, up, down, i, result)
  {
    hide AllResponses, RequestsOf, Carried, MeansTo, Shows, Outcome, IsResponse, Counts;
    var fs := RequestsOf(sqls[..i + 1]);
    if Carried(fs, engine, up, down) && Sendable(sqls[i]) { MeansShows(engine(fs), ks[i], result.0, result.1); }
  }

  ghost predicate Conveys(reply: seq<Frame>, a: Answer, k: Consumer)
  {
    IsResponse(reply) && MeansTo(a, k, Outcome(reply, k).0, Outcome(reply, k).1)
  }

  lemma AllFaithful(sqls: seq<Bytes>, all: seq<Frame>, engine: Engine, ks: seq<Consumer>, up: nat, down: nat, read: seq<Frame>, n: nat,
                    rest: Bytes, output: Bytes, room: nat, results: seq<(ExecuteResult, seq<Row>)>)
    requires Counts(engine) && all == RequestsOf(sqls) && Served(all, engine, up, down, read, n, rest, output, room)
    requires |results| == |sqls| == |ks| && n <= |all| && AllDeliverable(all[..n], engine)
    requires AllResponses(Replies(all[..n], engine)) && AllReport(sqls, Replies(all[..n], engine), ks, results)
    ensures forall i :: 0 <= i < |sqls| ==> Faithful(sqls, engine, ks, up, down, i, results[i])
  {
    hide *;
    forall i | 0 <= i < |sqls| ensures Faithful(sqls, engine, ks, up, down, i, results[i]) {
      var fs := RequestsOf(sqls[..i + 1]);
      RequestsGrow(sqls, i + 1);
      assert fs == all[..|fs|];
      AnsweredAreCarried(all, engine, up, down, read, n, rest, output, room, |fs|);
      if |fs| <= n && Sendable(sqls[i]) {
        RequestsNext(sqls, i);
        CarriedAnswer(all, RequestsOf(sqls[..i]), sqls[i], n, engine, ks[i]);
      }
      ReportAt(sqls, Replies(all[..n], engine), ks, results, i);
      ReportIsFaithful(sqls, engine, ks, up, down, n, Replies(all[..n], engine), i, results[i]);
    }
  }

  lemma CarriedAnswer(all: seq<Frame>, before: seq<Frame>, sql: Bytes, n: nat, engine: Engine, k: Consumer)
    requires Counts(engine) && Sendable(sql) && |before| < n <= |all| && all[..|before| + 1] == before + [Request(sql)]
    requires AllDeliverable(all[..n], engine)
    ensures Conveys(Replies(all[..n], engine)[|before|], engine(before + [Request(sql)]), k)
  {
    var some := all[..n];
    assert some[..|before| + 1] == before + [Request(sql)];
    assert AnswerAt(some, |before|, engine) == AnswerTo(before + [Request(sql)], engine);
    hide AllDeliverable, Counts, Replies, MeansTo, Outcome, AnswerTo, AnswerAt, IsResponse;
    RepliesMean(some, engine, |before|, k);
    EngineAnswers(before, sql, engine);
  }

  lemma EngineAnswers(before: seq<Frame>, sql: Bytes, engine: Engine)
    requires Sendable(sql)
    ensures AnswerTo(before + [Request(sql)], engine) == engine(before + [Request(sql)])
  {}

  /** The server reads nothing that the client did not send. */
  lemma OnlyWhatWasSent(all: seq<Frame>, up: nat, read: seq<Frame>, n: nat, open: bool, some: seq<Frame>)
    requires AllFramesOk(all) && AllFramesOk(read) && read <= all && n <= |read| <= n + 1 && |BytesOf(read)| <= up
    requires (open <==> n == |all|) && some == (if open then all else all[..n + 1]) && AllFramesOk(some)
    ensures BytesOf(read) <= Cut(BytesOf(some), up)
  {
    assert some[..|read|] == read;
    hide BytesOf, AllFramesOk;
    BytesOfPrefix(some, |read|);
  }

  /** The server's end: it is given as much of the requests as gets through. */
  method ServerEnd(all: seq<Frame>, engine: Engine, up: nat, down: nat)
    returns (output: Bytes, ghost read: seq<Frame>, ghost n: nat, ghost rest: Bytes, ghost room: nat)
    requires Counts(engine) && AllFramesOk(all)
    ensures Served(all, engine, up, down, read, n, rest, output, room)
  {
    var wire := Cut(BytesOf(all), up);
    var server := new Connection(wire, down);
    hide Counts, BytesOf, InStep, ServeEnds;
    read, rest := Serve(server, engine);
    output, room := server.output, server.room;
    n := AnsweredOf(read, engine, wire, rest, output);
  }

  /** The client's end: it is given what the server sent. */
  method ClientEnd(sqls: seq<Bytes>, ks: seq<Consumer>, up: nat, input: Bytes, ghost replies: seq<seq<Frame>>, ghost tail: Bytes)
    returns (results: seq<(ExecuteResult, seq<Row>)>, ghost written: Bytes, ghost open: bool, ghost some: seq<Frame>)
    requires |ks| == |sqls| && Script(sqls, replies, input, tail, up) && AllResponses(replies) && |replies| <= |RequestsOf(sqls)|
    ensures |results| == |sqls| && AllReport(sqls, replies, ks, results) && (open <==> |replies| == |RequestsOf(sqls)|)
    ensures some == if open then RequestsOf(sqls) else RequestsOf(sqls)[..|replies| + 1]
    ensures AllFramesOk(some) && written == Cut(BytesOf(some), up)
  {
    var conn := new Connection(input, up);
    var client := new Client(conn);
    results := RunStatements(client, sqls, ks, replies, tail);
    written, open := conn.output, client.open;
    some := if open then RequestsOf(sqls) else RequestsOf(sqls)[..|replies| + 1];
    hide *;
    EmptyStart(Cut(BytesOf(some), up));
  }

  /**
    A whole session.  The server serves the byte stream of the requests, as much of it as
    gets through; the client runs the statements against the byte stream the server
    produced.  The server reads nothing the client did not send.
   */
  method Session(sqls: seq<Bytes>, engine: Engine, ks: seq<Consumer>, up: nat, down: nat)
    returns (results: seq<(ExecuteResult, seq<Row>)>, ghost read: seq<Frame>, ghost written: Bytes)
    requires Counts(engine) && |ks| == |sqls|
    ensures |results| == |sqls|
    ensures forall i :: 0 <= i < |sqls| ==> Faithful(sqls, engine, ks, up, down, i, results[i])
    ensures AllFramesOk(read) && BytesOf(read) <= written
  {
    hide *;
    var all := RequestsOf(sqls);
    ghost var n, rest, room;
    var output;
    output, read, n, rest, room := ServerEnd(all, engine, up, down);
    ReadInOrder(all, engine, up, down, read, n, rest, output, room);
    ghost var tail := ScriptHolds(sqls, engine, up, down, read, n, rest, output, room);
    RepliesAreResponses(all[..n], engine);
    ghost var open, some;
    results, written, open, some := ClientEnd(sqls, ks, up, output, Replies(all[..n], engine), tail);
    OnlyWhatWasSent(all, up, read, n, open, some);
    AllFaithful(sqls, all, engine, ks, up, down, read, n, rest, output, room, results);
  }

  /** A connection that carries all requests with their replies is never lost. */
  lemma NeverLost(sqls: seq<Bytes>, engine: Engine, up: nat, down: nat, i: nat)
    requires Counts(engine) && i <= |sqls| && Carried(RequestsOf(sqls), engine, up, down)
    ensures Carried(RequestsOf(sqls[..i]), engine, up, down)
  {
    hide *;
    var all := RequestsOf(sqls);
    RequestsGrow(sqls, i);
    assert all[..|all|] == all && all[..|RequestsOf(sqls[..i])|] == RequestsOf(sqls[..i]);
    CarriedPrefix(all, engine, up, down, |RequestsOf(sqls[..i])|, |all|);
  }

  lemma ReportAt(sqls: seq<Bytes>, replies: seq<seq<Frame>>, ks: seq<Consumer>, results: seq<(ExecuteResult, seq<Row>)>, i: nat)
    requires i < |results| <= |sqls| == |ks| && AllResponses(replies) && AllReport(sqls, replies, ks, results)
    ensures Reports(sqls, replies, ks, i, results[i])
  {
    hide Reports, AllResponses;
  }
}
