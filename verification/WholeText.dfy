/**
  Sending a whole text at once, and how that compares with typing the same text line by
  line.  The two take different texts as exit commands: line by line, the pending text and
  every statement without the blanks and comments dropped in front; at once, every
  statement with them, and the open end.
 */
module WholeText {
  import opened Pieces
  import opened Splitter

  /** The statements of a scanned text, its open end included. */
  function ProgramOf(z: Scan): seq<string>
  {
    var rest := Trim(Tail(z));
    if rest == "" then Statements(z.closed) else Statements(z.closed) + [rest]
  }

  function Program(text: string): seq<string>
  {
    ProgramOf(Run(START, text))
  }

  /** Sends the statements of a whole text; false exactly if one of them fails. */
  method RunSqlText(text: string, succeeds: seq<string> -> bool) returns (ok: bool, ghost n: nat, ghost stop: Stop)
    ensures SendEnds([], Program(text), succeeds, n, stop) && (ok <==> stop != SendFailed)
  {
    hide CutsInto;
    var statements, rest := TakeCompleteStatements(text);
    if Trim(rest) != "" { statements := statements + [Trim(rest)]; }
    assert statements == Program(text);
    var sent, why := SendAll([], statements, succeeds);
    return why != SendFailed, sent, why;
  }

  // ---- trimming --------------------------------------------------------------------------------

  predicate AllTrimmed(d: string)
  {
    forall i :: 0 <= i < |d| ==> IsTrimmed(d[i])
  }

  lemma {:induction false} TrimBlanks(d: string, s: string)
    requires AllTrimmed(d)
    ensures Trim(d + s) == Trim(s)
  {
    if d == "" {
      assert d + s == s;
    } else {
      assert (d + s)[1..] == d[1..] + s;
      TrimBlanks(d[1..], s);
    }
  }

  /** Trimming stops at the first character that is not trimmed. */
  lemma {:induction false} TrimKeepsFirst(s: string)
    requires s != "" && !IsTrimmed(s[0])
    ensures Trim(s) != "" && Trim(s)[0] == s[0]
    decreases |s|
  {
    if IsTrimmed(s[|s| - 1]) { TrimKeepsFirst(s[..|s| - 1]); }
  }

  lemma {:induction false} SqlStays(sc: Scan, t: string)
    requires sc.hasSql
    ensures Run(sc, t).hasSql || |Run(sc, t).closed| > |sc.closed|
    ensures |Run(sc, t).closed| >= |sc.closed|
    decreases |t|
  {
    KeepsClosed(sc, sc.closed, t);
    assert sc.(closed := sc.closed) == sc;
    if t != "" {
      var next, w := Token(sc, t), Width(sc, t);
      RunToken(sc, t);
      KeepsClosed(next, next.closed, t[w..]);
      assert next.(closed := next.closed) == next;
      if next.closed == sc.closed { SqlStays(next, t[w..]); }
    }
  }

  /** Text without a statement does not begin with a letter of one. */
  lemma {:induction false} BlankBegins(sc: Scan, d: string, k: nat)
    requires sc.mode == Code && !sc.hasSql && sc.closed == [] && k < |d| && AllTrimmed(d[..k]) && !IsTrimmed(d[k])
    requires !Run(sc, d).hasSql && Run(sc, d).closed == []
    ensures d[k] != 'e' && d[k] != 'b'
    decreases k
  {
    RunToken(sc, d);
    if k == 0 {
      if d[0] == 'e' || d[0] == 'b' { SqlStays(Token(sc, d), d[1..]); }
    } else {
      assert IsTrimmed(d[..k][0]) && Width(sc, d) == 1;
      assert d[1..][..k - 1] == d[..k][1..] && d[1..][k - 1] == d[k];
      BlankBegins(Token(sc, d), d[1..], k - 1);
    }
  }

  lemma {:induction false} FirstUntrimmed(d: string) returns (k: nat)
    requires !AllTrimmed(d)
    ensures k < |d| && AllTrimmed(d[..k]) && !IsTrimmed(d[k])
  {
    k := 0;
    while IsTrimmed(d[k])
      invariant k < |d| && AllTrimmed(d[..k])
      decreases |d| - k
    {
      k := k + 1;
    }
  }

  /** With blanks and comments in front, a text is an exit command exactly if it is one by itself and all of them are trimmed. */
  lemma ExitBehind(d: string, short: string)
    requires Blank(d)
    ensures IsExitCommand(d + short) <==> IsExitCommand(short) && AllTrimmed(d)
  {
    hide IsExitCommand, Trim, Run;
    if AllTrimmed(d) {
      TrimBlanks(d, short);
      ExitByTrim(d + short, short);
    } else {
      BehindOther(d, short);
      ExitBegins(d + short);
    }
  }

  lemma ExitByTrim(s: string, t: string)
    requires Trim(s) == Trim(t)
    ensures IsExitCommand(s) <==> IsExitCommand(t)
  {
    hide Trim;
  }

  lemma ExitBegins(s: string)
    ensures IsExitCommand(s) ==> Trim(s) != "" && (Trim(s)[0] == 'e' || Trim(s)[0] == 'b')
  {
    hide Trim;
  }

  /** Behind a comment, what is left after trimming begins with the comment. */
  lemma BehindOther(d: string, short: string)
    requires Blank(d) && !AllTrimmed(d)
    ensures var t := Trim(d + short); t != "" && t[0] != 'e' && t[0] != 'b'
  {
    var k := FirstUntrimmed(d);
    BlankBegins(START, d, k);
    var rest := d[k..] + short;
    assert !IsTrimmed(d[k]);
    hide *;
    CutAt(d, k, short);
    TrimBlanks(d[..k], rest);
    TrimKeepsFirst(rest);
  }

  lemma CutAt(d: string, k: nat, s: string)
    requires k < |d|
    ensures d + s == d[..k] + (d[k..] + s) && (d[k..] + s)[0] == d[k]
  {
    assert d == d[..k] + d[k..];
  }

  /** What is trimmed off lies at the ends. */
  lemma {:induction false} TrimParts(s: string) returns (a: string, b: string)
    ensures s == a + Trim(s) + b && AllTrimmed(a) && AllTrimmed(b)
    decreases |s|
  {
    a, b := "", "";
    if s != "" {
      if IsTrimmed(s[0]) {
        a, b := TrimParts(s[1..]);
        assert s == [s[0]] + s[1..];
        a := [s[0]] + a;
      } else if IsTrimmed(s[|s| - 1]) {
        a, b := TrimParts(s[..|s| - 1]);
        assert s == s[..|s| - 1] + [s[|s| - 1]];
        b := b + [s[|s| - 1]];
      }
    }
  }

  lemma {:induction false} TrimTwice(s: string)
    ensures Trim(Trim(s)) == Trim(s)
    decreases |s|
  {
    if s != "" {
      if IsTrimmed(s[0]) { TrimTwice(s[1..]); } else if IsTrimmed(s[|s| - 1]) { TrimTwice(s[..|s| - 1]); }
    }
  }

  lemma {:induction false} TrimBehind(s: string, b: string)
    requires AllTrimmed(b)
    ensures Trim(s + b) == Trim(s)
    decreases |s| + |b|
  {
    if b == "" {
      assert s + b == s;
    } else if s == "" {
      TrimBlanks(b, "");
      assert b + "" == b && s + b == b;
    } else if IsTrimmed(s[0]) {
      assert (s + b)[1..] == s[1..] + b;
      TrimBehind(s[1..], b);
    } else {
      assert (s + b)[..|s + b| - 1] == s + b[..|b| - 1];
      TrimBehind(s, b[..|b| - 1]);
    }
  }

  /** What lies between two characters that are not trimmed is not trimmed. */
  lemma {:induction false} TrimKeepsInner(s: string, i: nat, j: nat, k: nat)
    requires i < j < k < |s| && !IsTrimmed(s[i]) && !IsTrimmed(s[k])
    ensures s[j] in Trim(s)
    decreases |s|
  {
    if IsTrimmed(s[0]) {
      TrimKeepsInner(s[1..], i - 1, j - 1, k - 1);
    } else if IsTrimmed(s[|s| - 1]) {
      TrimKeepsInner(s[..|s| - 1], i, j, k);
    }
  }

  lemma ExitHasNoBlank(s: string)
    requires IsExitCommand(s)
    ensures forall c :: c in Trim(s) ==> !IsTrimmed(c)
  {
    hide Trim;
  }

  /** A text that goes on behind a blank behind a word is no exit command. */
  lemma NoExitAcross(s: string, i: nat, j: nat, k: nat)
    requires i < j < k < |s| && !IsTrimmed(s[i]) && IsTrimmed(s[j]) && !IsTrimmed(s[k])
    ensures !IsExitCommand(s)
  {
    TrimKeepsInner(s, i, j, k);
    if IsExitCommand(s) { ExitHasNoBlank(s); }
  }

  // ---- how exit commands are scanned -------------------------------------------------------------

  /** A character that, in code, begins no comment and no literal and closes nothing. */
  predicate Plain(c: char)
  {
    c != '-' && c != '/' && c != '\'' && c != ';'
  }

  predicate AllPlain(t: string)
  {
    forall i :: 0 <= i < |t| ==> Plain(t[i])
  }

  predicate AllBlank(t: string)
  {
    forall i :: 0 <= i < |t| ==> IsSpace(t[i])
  }

  lemma {:induction false} RunPlain(sc: Scan, x: string, y: string)
    requires sc.mode == Code && AllPlain(x)
    ensures Run(sc, x + y) == Run(sc.(hasSql := sc.hasSql || !AllBlank(x), current := sc.current + x), y)
    decreases |x|
  {
    if x == "" {
      assert x + y == y && sc.current + x == sc.current;
    } else {
      var t := x + y;
      var next := sc.(hasSql := sc.hasSql || !IsSpace(x[0]), current := sc.current + [x[0]]);
      assert t[0] == x[0] && t[..1] == [x[0]] && t[1..] == x[1..] + y;
      assert Token(sc, t) == next && Width(sc, t) == 1;
      RunToken(sc, t);
      RunPlain(next, x[1..], y);
      assert sc.current + [x[0]] + x[1..] == sc.current + x;
      assert AllBlank(x) <==> IsSpace(x[0]) && AllBlank(x[1..]);
    }
  }

  lemma {:induction false} RunPlainOnly(sc: Scan, x: string)
    requires sc.mode == Code && AllPlain(x)
    ensures Run(sc, x) == sc.(hasSql := sc.hasSql || !AllBlank(x), current := sc.current + x)
  {
    RunPlain(sc, x, "");
    assert x + "" == x;
  }

  lemma TrimmedArePlain(t: string)
    requires AllTrimmed(t)
    ensures AllPlain(t) && AllBlank(t)
  {}

  /** An exit command without its semicolon. */
  predicate Bare(t: string)
  {
    Trim(t) == "exit" || Trim(t) == "bye"
  }

  lemma BareIsExit(t: string)
    ensures Bare(t) ==> IsExitCommand(t)
    ensures IsExitCommand(t) && !Bare(t) ==> Trim(t) == "exit;" || Trim(t) == "bye;"
  {
    hide Trim;
  }

  lemma Words(w: string)
    requires w == "exit" || w == "bye"
    ensures w != "" && AllPlain(w) && !AllBlank(w) && !IsTrimmed(w[0])
  {
    assert !IsSpace(w[0]);
  }

  /** A bare exit command is one open piece of code. */
  lemma BareScan(t: string) returns (i: nat)
    requires Bare(t)
    ensures Run(START, t) == Scan(Code, true, [], t) && i < |t| && !IsTrimmed(t[i])
  {
    var a, b := TrimParts(t);
    var w := Trim(t);
    Words(w);
    TrimmedArePlain(a);
    TrimmedArePlain(b);
    assert AllPlain(a + w + b);
    i := |a|;
    assert (a + w + b)[i] == w[0] && !IsSpace(t[i]);
    RunPlainOnly(START, t);
    assert "" + t == t;
  }

  /** Behind plain code a semicolon closes a segment. */
  lemma CloseScan(x: string, y: string)
    requires AllPlain(x) && !AllBlank(x)
    ensures var r := Run(START, x + ";" + y);
      |r.closed| > 0 && r.closed[0] == Segment(x + ";", true)
  {
    assert x + ";" + y == x + (";" + y);
    RunPlain(START, x, ";" + y);
    var sc := START.(hasSql := true, current := "" + x);
    assert "" + x == x;
    var t := ";" + y;
    assert t[0] == ';' && t[..1] == ";" && t[1..] == y;
    RunToken(sc, t);
    var next := Scan(Code, false, [Segment(x + ";", true)], "");
    assert Token(sc, t) == next && Width(sc, t) == 1;
    KeepsClosed(next, next.closed, y);
    assert next.(closed := next.closed) == next;
  }

  /** A pending exit command with its semicolon is the first statement of the text. */
  lemma ClosedExit(t: string)
    requires IsExitCommand(t) && !Bare(t)
    ensures StatementsOf(t) != [] && IsExitCommand(StatementsOf(t)[0])
  {
    BareIsExit(t);
    var a, b := TrimParts(t);
    var w := if Trim(t) == "exit;" then "exit" else "bye";
    assert Trim(t) == w + ";";
    Words(w);
    TrimmedArePlain(a);
    var x := a + w;
    assert AllPlain(x) && x[|a|] == w[0] && !IsSpace(x[|a|]);
    assert t == x + ";" + b;
    CloseScan(x, b);
    FirstStatement(t);
    assert x + ";" == a + (w + ";");
    TrimBlanks(a, w + ";");
    TrimTwice(t);
    ExitByTrim(x + ";", t);
  }

  lemma FirstStatement(t: string)
    requires var c := Run(START, t).closed; |c| > 0 && c[0].isStatement
    ensures StatementsOf(t) != [] && StatementsOf(t)[0] == Run(START, t).closed[0].text
  {
    var c := Run(START, t).closed;
    assert c == [c[0]] + c[1..];
    StatementsConcat([c[0]], c[1..]);
    OneStatement(c[0]);
  }

  // ---- where the two stop --------------------------------------------------------------------------

  /** The number of statements before the first exit command. */
  function FirstExit(ss: seq<string>): (n: nat)
    ensures n <= |ss| && (forall i :: 0 <= i < n ==> !IsExitCommand(ss[i])) && (n < |ss| ==> IsExitCommand(ss[n]))
  {
    if ss == [] then 0
    else
      var n := FirstExit(ss[..|ss| - 1]);
      if n < |ss| - 1 || IsExitCommand(ss[|ss| - 1]) then n else |ss|
  }

  lemma FirstExitAt(ss: seq<string>, m: nat)
    requires m <= |ss| && NoExit(ss[..m])
    ensures FirstExit(ss) >= m && (m < |ss| ==> (FirstExit(ss) == m <==> IsExitCommand(ss[m])))
  {
    hide IsExitCommand, FirstExit;
    forall i | 0 <= i < m ensures !IsExitCommand(ss[i]) {
      assert ss[..m][i] == ss[i];
    }
  }

  /** Line i makes the interactive client exit. */
  predicate Exits(lines: seq<string>, i: nat)
    requires i < |lines|
  {
    IsExitCommand(Pending(lines, i)) || FirstExit(StatementsOf(Pending(lines, i))) < |StatementsOf(Pending(lines, i))|
  }

  /** The first such line, from line i on. */
  function ExitLine(lines: seq<string>, i: nat): (n: nat)
    requires i <= |lines|
    ensures i <= n <= |lines| && (forall j :: i <= j < n ==> !Exits(lines, j)) && (n < |lines| ==> Exits(lines, n))
    decreases |lines| - i
  {
    if i == |lines| || Exits(lines, i) then i else ExitLine(lines, i + 1)
  }

  /** What the full text has in front of the short one. */
  function InFrontOf(full: string, short: string): string
  {
    if |short| <= |full| then full[..|full| - |short|] else ""
  }

  /**
    The condition on a text under which both uses stop at the same place for the same reason.
    Where no line exits, the open end must be blank.  Where a line exits with an exit command
    without its semicolon, there must be only trimmed blanks in front of it, back to the last
    statement, and behind it, to the end of the text.  Where it exits with a statement, there
    must be only trimmed blanks in front of that statement.
   */
  predicate SameStop(lines: seq<string>)
  {
    var i, scan := ExitLine(lines, 0), Run(START, AllLines(lines));
    if i == |lines| then Trim(Tail(scan)) == ""
    else if Bare(Pending(lines, i)) then
      && AllTrimmed(InFrontOf(Run(START, AllLines(lines[..i])).current, Fed(lines[..i]).pending))
      && AllTrimmed(AllLines(lines[i + 1..]))
    else
      var m := FirstExit(Fed(lines).statements);
      && m < |Fed(lines).statements| && m < |Statements(scan.closed)|
      && AllTrimmed(InFrontOf(Statements(scan.closed)[m], Fed(lines).statements[m]))
  }

  /** How reading the lines one by one ended. */
  ghost predicate Interacted(lines: seq<string>, keeps: seq<string> -> bool, sent: seq<string>, pending: string, stop: Stop, at: nat)
  {
    if stop == NotStopped then at == |lines| && WentThrough(lines, keeps, at, sent, pending)
    else at < |lines| && StopsAt(lines, keeps, at, sent, stop)
  }

  /** Sending a list stops at its first exit command, if nothing fails before. */
  lemma ListStops(ss: seq<string>, succeeds: seq<string> -> bool, n: nat, stop: Stop)
    requires SendEnds([], ss, succeeds, n, stop) && stop != SendFailed
    ensures n == FirstExit(ss) && (stop == NotStopped <==> n == |ss|)
  {
    hide IsExitCommand, Kept;
    FirstExitAt(ss, n);
  }

  lemma FedPrefix(lines: seq<string>, i: nat, j: nat)
    requires i <= j <= |lines|
    ensures Fed(lines[..i]).statements <= Fed(lines[..j]).statements
  {
    hide Fed;
    assert lines[..j][..i] == lines[..i];
    FedGrows(lines[..j], i);
  }

  /** Lines that went through do not exit. */
  lemma NoLineExits(lines: seq<string>, keeps: seq<string> -> bool, i: nat, sent: seq<string>, pending: string)
    requires i <= |lines| && WentThrough(lines, keeps, i, sent, pending)
    ensures forall j :: 0 <= j < i ==> !Exits(lines, j)
  {
    forall j | 0 <= j < i ensures !Exits(lines, j) {
      assert !IsExitCommand(Pending(lines, j));
      NoneTaken(lines, j, i);
    }
  }

  lemma NoneTaken(lines: seq<string>, j: nat, i: nat)
    requires j < i <= |lines| && NoExit(Fed(lines[..i]).statements)
    ensures FirstExit(StatementsOf(Pending(lines, j))) == |StatementsOf(Pending(lines, j))|
  {
    hide Fed, Pending, StatementsOf, IsExitCommand, Run, Tail;
    var taken, before := StatementsOf(Pending(lines, j)), Fed(lines[..j]).statements;
    FedNext(lines, j);
    FedPrefix(lines, j + 1, i);
    forall k | 0 <= k < |taken| ensures !IsExitCommand(taken[k]) {
      assert Fed(lines[..i]).statements[|before| + k] == taken[k];
    }
  }

  lemma ExitLineIs(lines: seq<string>, i: nat)
    requires i <= |lines| && (forall j :: 0 <= j < i ==> !Exits(lines, j)) && (i < |lines| ==> Exits(lines, i))
    ensures ExitLine(lines, 0) == i
  {
    hide Exits, ExitLine;
  }

  /** The interactive client stops at the first line that exits, with that many statements sent. */
  lemma InteractionStops(lines: seq<string>, keeps: seq<string> -> bool, sent: seq<string>, pending: string, stop: Stop, at: nat)
    requires Interacted(lines, keeps, sent, pending, stop, at) && stop != SendFailed
    ensures at == ExitLine(lines, 0) <= |lines| && (stop == NotStopped <==> at == |lines|)
    ensures stop == NotStopped ==> NoExit(Fed(lines).statements) && |sent| == |Fed(lines).statements|
    ensures stop == ExitCommand ==> NoExit(Fed(lines[..at]).statements)
    ensures stop == ExitCommand && Bare(Pending(lines, at)) ==> |sent| == |Fed(lines[..at]).statements|
    ensures stop == ExitCommand && !Bare(Pending(lines, at)) ==> |sent| == FirstExit(Fed(lines).statements) < |Fed(lines).statements|
  {
    if stop == NotStopped {
      NoLineExits(lines, keeps, at, sent, pending);
      ThroughIsFed(lines, keeps, sent, pending);
      hide *;
      ExitLineIs(lines, at);
    } else {
      ExitStops(lines, keeps, sent, at);
    }
  }

  lemma ExitStops(lines: seq<string>, keeps: seq<string> -> bool, sent: seq<string>, at: nat)
    requires at < |lines| && StopsAt(lines, keeps, at, sent, ExitCommand)
    ensures at == ExitLine(lines, 0) && NoExit(Fed(lines[..at]).statements)
    ensures Bare(Pending(lines, at)) ==> |sent| == |Fed(lines[..at]).statements|
    ensures !Bare(Pending(lines, at)) ==> |sent| == FirstExit(Fed(lines).statements) < |Fed(lines).statements|
  {
    var before, taken := Fed(lines[..at]), StatementsOf(Pending(lines, at));
    NoLineExits(lines, keeps, at, before.statements, before.pending);
    BareIsExit(Pending(lines, at));
    assert NoExit(before.statements);
    if IsExitCommand(Pending(lines, at)) {
      assert sent == before.statements;
      if !Bare(Pending(lines, at)) {
        ClosedExit(Pending(lines, at));
        assert taken[..0] == [];
        FirstExitAt(taken, 0);
        ExitTaken(lines, at, 0);
      }
    } else {
      var n := |sent| - |before.statements|;
      assert SendEnds(before.statements, taken, keeps, n, ExitCommand);
      assert n < |taken| && NoExit(taken[..n]) && IsExitCommand(taken[n]);
      FirstExitAt(taken, n);
      ExitTaken(lines, at, n);
    }
    assert Exits(lines, at);
    hide *;
    ExitLineIs(lines, at);
  }

  /** The first exit command a line completes is the first of all, if none came before. */
  lemma ExitTaken(lines: seq<string>, at: nat, n: nat)
    requires at < |lines| && NoExit(Fed(lines[..at]).statements)
    requires var taken := StatementsOf(Pending(lines, at)); n < |taken| && NoExit(taken[..n]) && IsExitCommand(taken[n])
    ensures |Fed(lines[..at]).statements| + n == FirstExit(Fed(lines).statements) < |Fed(lines).statements|
  {
    hide Fed, Pending, StatementsOf, IsExitCommand, Run, Tail, FirstExit;
    var before, taken, all := Fed(lines[..at]).statements, StatementsOf(Pending(lines, at)), Fed(lines).statements;
    FedNext(lines, at);
    FedGrows(lines, at + 1);
    var m := |before| + n;
    assert all[m] == (before + taken)[m] == taken[n];
    assert all[..m] == before + taken[..n];
    NoExitConcat(before, taken[..n]);
    FirstExitAt(all, m);
  }

  // ---- the three cases -----------------------------------------------------------------------------

  /** Where nothing sent line by line is an exit command, nothing of the whole text is. */
  lemma WholeNoExit(lines: seq<string>, m: nat)
    requires m <= |Fed(lines).statements| && NoExit(Fed(lines).statements[..m])
    ensures |StatementsOf(AllLines(lines))| == |Fed(lines).statements| && NoExit(StatementsOf(AllLines(lines))[..m])
  {
    hide Fed, StatementsOf, AllLines, IsExitCommand, Follows;
    var d := FeedingIsSplitting(lines);
    var short, full := Fed(lines).statements, StatementsOf(AllLines(lines));
    forall j | 0 <= j < m ensures !IsExitCommand(full[..m][j]) {
      assert Trims(full[j], short[j]) && !IsExitCommand(short[..m][j]);
      var e :| Blank(e) && full[j] == e + short[j];
      ExitBehind(e, short[j]);
    }
  }

  /** A statement that exits line by line exits in the whole text exactly with only trimmed blanks in front. */
  lemma ExitOfWhole(lines: seq<string>, m: nat)
    requires m < |Fed(lines).statements| && IsExitCommand(Fed(lines).statements[m])
    ensures m < |StatementsOf(AllLines(lines))|
    ensures IsExitCommand(StatementsOf(AllLines(lines))[m]) <==>
      AllTrimmed(InFrontOf(StatementsOf(AllLines(lines))[m], Fed(lines).statements[m]))
  {
    hide Fed, StatementsOf, AllLines, IsExitCommand, Follows, AllTrimmed;
    var _ := FeedingIsSplitting(lines);
    var short, full := Fed(lines).statements[m], StatementsOf(AllLines(lines))[m];
    assert Trims(full, short);
    var e :| Blank(e) && full == e + short;
    assert InFrontOf(full, short) == e;
    ExitBehind(e, short);
  }

  lemma ProgramParts(text: string)
    ensures StatementsOf(text) <= Program(text)
    ensures Trim(Tail(Run(START, text))) == "" ==> Program(text) == StatementsOf(text)
    ensures Trim(Tail(Run(START, text))) != "" ==> |Program(text)| == |StatementsOf(text)| + 1
  {}

  /** No line exits: the whole text sends the same exactly if its open end is blank. */
  lemma OpenCase(lines: seq<string>)
    requires NoExit(Fed(lines).statements)
    ensures FirstExit(Program(AllLines(lines))) == |Fed(lines).statements| == |Program(AllLines(lines))| <==>
      Trim(Tail(Run(START, AllLines(lines)))) == ""
  {
    var short, text := Fed(lines).statements, AllLines(lines);
    hide Fed, StatementsOf, AllLines, IsExitCommand, Run, Tail, Trim, Program, FirstExit;
    assert short[..|short|] == short;
    WholeNoExit(lines, |short|);
    ProgramParts(text);
    var all := StatementsOf(text);
    assert all[..|short|] == all;
    if Program(text) == all { FirstExitAt(all, |all|); }
  }

  /** A statement exits: so does the whole text there, exactly with only trimmed blanks in front. */
  lemma ClosedCase(lines: seq<string>, m: nat)
    requires m == FirstExit(Fed(lines).statements) < |Fed(lines).statements|
    ensures m < |Program(AllLines(lines))| && m < |StatementsOf(AllLines(lines))|
    ensures FirstExit(Program(AllLines(lines))) == m <==>
      AllTrimmed(InFrontOf(StatementsOf(AllLines(lines))[m], Fed(lines).statements[m]))
  {
    var text := AllLines(lines);
    hide Fed, StatementsOf, AllLines, IsExitCommand, Program, FirstExit, AllTrimmed, InFrontOf;
    WholeNoExit(lines, m);
    ExitOfWhole(lines, m);
    ProgramParts(text);
    var all, full := StatementsOf(text), Program(text);
    assert full[m] == all[m] && full[..m] == all[..m];
    FirstExitAt(full, m);
  }

  lemma {:induction false} LinesCut(lines: seq<string>, i: nat)
    requires i < |lines|
    ensures AllLines(lines) == AllLines(lines[..i]) + (lines[i] + "\n") + AllLines(lines[i + 1..])
  {
    var n := |lines| - 1;
    if i == n {
      assert lines[i + 1..] == [];
      assert AllLines(lines) == AllLines(lines[..n]) + (lines[n] + "\n") + "";
    } else {
      var front, back := lines[..n], lines[i + 1..];
      LinesCut(front, i);
      assert front[..i] == lines[..i] && front[i + 1..] == back[..|back| - 1] && back[|back| - 1] == lines[n];
    }
  }

  /** The scan of the text up to and including a bare exit command. */
  lemma BareScanned(w: Scan, pending: string, d: string, line: string)
    requires Follows(w, pending, d) && Bare(pending + line)
    ensures Run(w, line) == Scan(Code, true, w.closed, d + (pending + line))
  {
    var k := BareScan(pending + line);
    hide Run, Bare;
    RunSplit(START, pending, line);
    RunShift(Scan(w.mode, w.hasSql, [], pending), w.closed, d, line);
    assert w.closed + Shifted(d, []) == w.closed;
  }

  /** Behind it only trimmed blanks: the open end is the exit command, exactly with only such in front. */
  lemma BareAtEnd(closed: seq<Segment>, d: string, t: string, rest: string)
    requires Blank(d) && Bare(t) && AllTrimmed(rest)
    ensures var p, m := ProgramOf(Run(Scan(Code, true, closed, d + t), rest)), |Statements(closed)|;
      |p| == m + 1 && p[..m] == Statements(closed) && (IsExitCommand(p[m]) <==> AllTrimmed(d))
  {
    var z := Run(Scan(Code, true, closed, d + t), rest);
    TrimmedArePlain(rest);
    RunPlainOnly(Scan(Code, true, closed, d + t), rest);
    assert z == Scan(Code, true, closed, d + t + rest);
    assert d + t + rest == d + (t + rest);
    TrimBehind(t, rest);
    BareIsExit(t);
    BareIsExit(t + rest);
    ExitBehind(d, t + rest);
    TrimTwice(d + (t + rest));
    var k := BareScan(t);
    hide *;
    OpenEnd(z, d + (t + rest), |d| + k);
    ExitByTrim(Trim(d + (t + rest)), d + (t + rest));
  }

  /** An open end with a character that is not trimmed is the last of the program. */
  lemma OpenEnd(z: Scan, u: string, k: nat)
    requires z.hasSql && z.current == u && k < |u| && !IsTrimmed(u[k])
    ensures var p, m := ProgramOf(z), |Statements(z.closed)|;
      |p| == m + 1 && p[..m] == Statements(z.closed) && p[m] == Trim(u)
  {
    var a, b := TrimParts(u);
  }

  /** Behind it anything else: what the program has at its place is no exit command. */
  lemma BareGoesOn(closed: seq<Segment>, u: string, i: nat, rest: string)
    requires i < |u| - 1 && !IsTrimmed(u[i]) && IsTrimmed(u[|u| - 1]) && !AllTrimmed(rest)
    ensures var p, m := ProgramOf(Run(Scan(Code, true, closed, u), rest)), |Statements(closed)|;
      |p| > m && p[..m] == Statements(closed) && !IsExitCommand(p[m])
  {
    var more := Run(Scan(Code, true, [], u), rest);
    var z := Run(Scan(Code, true, closed, u), rest);
    hide Run, Statements, ProgramOf, IsExitCommand;
    RunBehind(closed, u, rest);
    if more.closed == [] {
      StillOpen(u, i, rest);
      assert Statements(z.closed) == Statements(closed);
      OpenEnd(z, u + rest, i);
    } else {
      SegmentAcross(u, i, rest);
      ProgramBegins(z);
    }
  }

  lemma ProgramBegins(z: Scan)
    ensures Statements(z.closed) <= ProgramOf(z)
  {}

  lemma RunBehind(closed: seq<Segment>, u: string, rest: string)
    ensures var z, more := Run(Scan(Code, true, closed, u), rest), Run(Scan(Code, true, [], u), rest);
      && z == more.(closed := closed + more.closed)
      && Statements(z.closed) == Statements(closed) + Statements(more.closed)
      && (more.closed == [] ==> Statements(z.closed) == Statements(closed))
  {
    var sc := Scan(Code, true, [], u);
    KeepsClosed(sc, closed, rest);
    assert sc.(closed := closed) == Scan(Code, true, closed, u) && sc.(closed := []) == sc;
    StatementsConcat(closed, Run(sc, rest).closed);
    assert closed + [] == closed;
  }

  lemma StillOpen(u: string, i: nat, rest: string)
    requires i < |u| - 1 && !IsTrimmed(u[i]) && IsTrimmed(u[|u| - 1]) && !AllTrimmed(rest)
    requires Run(Scan(Code, true, [], u), rest).closed == []
    ensures var more := Run(Scan(Code, true, [], u), rest); more.hasSql && more.current == u + rest
    ensures i < |u + rest| && !IsTrimmed((u + rest)[i]) && !IsExitCommand(Trim(u + rest))
  {
    OpenRun(u, rest);
    hide *;
    OpenAcross(u, i, rest);
  }

  lemma OpenRun(u: string, rest: string)
    requires Run(Scan(Code, true, [], u), rest).closed == []
    ensures var more := Run(Scan(Code, true, [], u), rest); more.hasSql && more.current == u + rest
  {
    var sc := Scan(Code, true, [], u);
    RunAccounts(sc, rest);
    SqlStays(sc, rest);
    var more := Run(sc, rest);
    hide Run;
    assert Joined([]) == "";
    NothingInFront(more.current);
    NothingInFront(u);
  }

  lemma NothingInFront(s: string)
    ensures "" + s == s
  {}

  lemma OpenAcross(u: string, i: nat, rest: string)
    requires i < |u| - 1 && !IsTrimmed(u[i]) && IsTrimmed(u[|u| - 1]) && !AllTrimmed(rest)
    ensures i < |u + rest| && !IsTrimmed((u + rest)[i]) && !IsExitCommand(Trim(u + rest))
  {
    hide IsExitCommand, Trim;
    var k := FirstUntrimmed(rest);
    var all := u + rest;
    assert all[i] == u[i] && all[|u| - 1] == u[|u| - 1] && all[|u| + k] == rest[k];
    NoExitAcross(all, i, |u| - 1, |u| + k);
    TrimTwice(all);
    ExitByTrim(Trim(all), all);
  }

  /** The first statement closed behind it reaches across its line end. */
  lemma SegmentAcross(u: string, i: nat, rest: string)
    requires i < |u| - 1 && !IsTrimmed(u[i]) && IsTrimmed(u[|u| - 1]) && Run(Scan(Code, true, [], u), rest).closed != []
    ensures var ss := Statements(Run(Scan(Code, true, [], u), rest).closed); ss != [] && !IsExitCommand(ss[0])
  {
    var n, c := FirstClosed(u, rest);
    var seg := Segment(u + rest[..n], true);
    StatementsConcat([seg], c);
    OneStatement(seg);
    hide *;
    var all := seg.text;
    assert all[i] == u[i] && all[|u| - 1] == u[|u| - 1] && all[|all| - 1] == rest[n - 1] == ';';
    NoExitAcross(all, i, |u| - 1, |all| - 1);
  }

  lemma FirstClosed(u: string, rest: string) returns (n: nat, c: seq<Segment>)
    requires Run(Scan(Code, true, [], u), rest).closed != []
    ensures 0 < n <= |rest| && rest[n - 1] == ';' && !IsTrimmed(';')
    ensures Run(Scan(Code, true, [], u), rest).closed == [Segment(u + rest[..n], true)] + c
  {
    var sc := Scan(Code, true, [], u);
    var sql;
    hide Run;
    n, sql := FirstSegment(sc, rest);
    var next := Scan(Code, false, [Segment(u + rest[..n], true)], "");
    assert rest[..n] + rest[n..] == rest;
    RunSplit(sc, rest[..n], rest[n..]);
    KeepsClosed(next, next.closed, rest[n..]);
    assert next.(closed := next.closed) == next;
    c := Run(next.(closed := []), rest[n..]).closed;
  }

  /** A bare exit command: the whole text stops there, exactly with only trimmed blanks around it. */
  lemma BareCase(lines: seq<string>, i: nat)
    requires i < |lines| && Bare(Pending(lines, i)) && NoExit(Fed(lines[..i]).statements)
    ensures var m, p := |Fed(lines[..i]).statements|, Program(AllLines(lines));
      FirstExit(p) == m < |p| <==>
        && AllTrimmed(InFrontOf(Run(START, AllLines(lines[..i])).current, Fed(lines[..i]).pending))
        && AllTrimmed(AllLines(lines[i + 1..]))
  {
    var front, rest := lines[..i], AllLines(lines[i + 1..]);
    var w, t, p := Run(START, AllLines(front)), Pending(lines, i), Program(AllLines(lines));
    hide *;
    var d, k := BareProgram(lines, i);
    BareBefore(lines, i);
    if AllTrimmed(rest) { BareAtEnd(w.closed, d, t, rest); } else { BareGoesOn(w.closed, d + t, |d| + k, rest); }
    FirstExitAt(p, |Statements(w.closed)|);
  }

  lemma BareBefore(lines: seq<string>, i: nat)
    requires i < |lines| && NoExit(Fed(lines[..i]).statements)
    ensures var ss := Statements(Run(START, AllLines(lines[..i])).closed); |ss| == |Fed(lines[..i]).statements| && NoExit(ss)
  {
    var front := lines[..i];
    var short, all := Fed(front).statements, StatementsOf(AllLines(front));
    StatementsAre(AllLines(front));
    hide *;
    assert short[..|short|] == short;
    WholeNoExit(front, |short|);
    assert all[..|short|] == all;
  }

  /** The program of a text in which line i exits with a bare command, and where that command stands. */
  lemma BareProgram(lines: seq<string>, i: nat) returns (d: string, k: nat)
    requires i < |lines| && Bare(Pending(lines, i))
    ensures Blank(d) && d == InFrontOf(Run(START, AllLines(lines[..i])).current, Fed(lines[..i]).pending)
    ensures var t, closed := Pending(lines, i), Run(START, AllLines(lines[..i])).closed;
      && Program(AllLines(lines)) == ProgramOf(Run(Scan(Code, true, closed, d + t), AllLines(lines[i + 1..])))
      && |d| + k < |d + t| - 1 && !IsTrimmed((d + t)[|d| + k]) && IsTrimmed((d + t)[|d + t| - 1])
  {
    var front, line := lines[..i], lines[i] + "\n";
    var w, pending := Run(START, AllLines(front)), Fed(front).pending;
    d := FeedingIsSplitting(front);
    assert w.current == d + pending && Blank(d);
    k := BareScan(pending + line);
    hide Run, Fed, AllLines, ProgramOf, Bare, Blank;
    assert InFrontOf(w.current, pending) == d;
    BareScanned(w, pending, d, line);
    WholeScanned(lines, i);
    EndsWithLine(d, pending, lines[i], k);
  }

  lemma EndsWithLine(d: string, pending: string, line: string, k: nat)
    requires k < |pending + (line + "\n")| && !IsTrimmed((pending + (line + "\n"))[k])
    ensures var u := d + (pending + (line + "\n"));
      |d| + k < |u| - 1 && u[|d| + k] == (pending + (line + "\n"))[k] && IsTrimmed(u[|u| - 1])
  {
    var t := pending + (line + "\n");
    assert t[|t| - 1] == '\n';
  }

  lemma WholeScanned(lines: seq<string>, i: nat)
    requires i < |lines|
    ensures Run(START, AllLines(lines)) == Run(Run(Run(START, AllLines(lines[..i])), lines[i] + "\n"), AllLines(lines[i + 1..]))
  {
    var a, line, rest := AllLines(lines[..i]), lines[i] + "\n", AllLines(lines[i + 1..]);
    LinesCut(lines, i);
    LinesSettled(lines[..i]);
    hide Run, AllLines;
    RunSplit(START, a, line);
    RunSplit(START, a + line, rest);
  }

  // ---- the theorem ---------------------------------------------------------------------------------

  /**
    Where no statement fails, typing a text line by line and sending it at once stop at the
    same place for the same reason exactly if the text satisfies the condition.
   */
  lemma StopsAgree(lines: seq<string>, keeps: seq<string> -> bool, sent: seq<string>, pending: string, stop: Stop, at: nat,
                   succeeds: seq<string> -> bool, n: nat, whole: Stop)
    requires Interacted(lines, keeps, sent, pending, stop, at) && stop != SendFailed
    requires SendEnds([], Program(AllLines(lines)), succeeds, n, whole) && whole != SendFailed
    ensures stop == whole && |sent| == n <==> SameStop(lines)
  {
    hide *;
    InteractionStops(lines, keeps, sent, pending, stop, at);
    ListStops(Program(AllLines(lines)), succeeds, n, whole);
    SameStopCases(lines);
    if stop == NotStopped {
      OpenCase(lines);
    } else if Bare(Pending(lines, at)) {
      BareCase(lines, at);
    } else {
      ClosedCase(lines, |sent|);
    }
  }

  lemma SameStopCases(lines: seq<string>)
    ensures var i := ExitLine(lines, 0);
      && (i == |lines| ==> (SameStop(lines) <==> Trim(Tail(Run(START, AllLines(lines)))) == ""))
      && (i < |lines| && Bare(Pending(lines, i)) ==>
            (SameStop(lines) <==>
               && AllTrimmed(InFrontOf(Run(START, AllLines(lines[..i])).current, Fed(lines[..i]).pending))
               && AllTrimmed(AllLines(lines[i + 1..]))))
      && (i < |lines| && !Bare(Pending(lines, i)) ==>
            var m, all := FirstExit(Fed(lines).statements), StatementsOf(AllLines(lines));
            m < |Fed(lines).statements| && m < |all| ==> (SameStop(lines) <==> AllTrimmed(InFrontOf(all[m], Fed(lines).statements[m]))))
  {
    StatementsAre(AllLines(lines));
    hide ExitLine, Bare, Pending, AllTrimmed, InFrontOf, Run, AllLines, Fed, FirstExit, StatementsOf, Tail, Trim, Statements;
  }

  /** Both uses of one text. */
  method RunBoth(lines: seq<string>, keeps: seq<string> -> bool, succeeds: seq<string> -> bool)
    returns (sent: seq<string>, stop: Stop, ghost n: nat, ghost whole: Stop)
    ensures n <= |Program(AllLines(lines))|
    ensures stop != SendFailed && whole != SendFailed ==> (stop == whole && |sent| == n <==> SameStop(lines))
    ensures stop != SendFailed && |sent| == n ==> TrimsAll(Program(AllLines(lines))[..n], sent)
  {
    var pending, ok;
    ghost var at;
    sent, pending, stop, at := RunInteractive(lines, keeps);
    ok, n, whole := RunSqlText(AllLines(lines), succeeds);
    assert Interacted(lines, keeps, sent, pending, stop, at) && n <= |Program(AllLines(lines))|;
    ProgramParts(AllLines(lines));
    assert SentSoFar(StatementsOf(AllLines(lines)), sent);
    if |sent| == n { assert Program(AllLines(lines))[..n] == StatementsOf(AllLines(lines))[..n]; }
    hide *;
    if stop != SendFailed && whole != SendFailed {
      StopsAgree(lines, keeps, sent, pending, stop, at, succeeds, n, whole);
    }
  }

  // ---- texts on which they differ ----------------------------------------------------------------

  lemma FirstPending(lines: seq<string>)
    requires lines != []
    ensures Pending(lines, 0) == lines[0] + "\n"
  {
    assert lines[..0] == [];
    NothingInFront(lines[0] + "\n");
  }

  lemma OneLine(line: string)
    ensures AllLines([line]) == line + "\n"
  {
    assert [line][..0] == [] && AllLines([]) == "";
    NothingInFront(line + "\n");
  }

  lemma BareExit()
    ensures Bare("exit\n")
  {
    assert "exit\n" == "exit" + "\n";
    TrimBehind("exit", "\n");
  }

  /** Text behind a bare exit command: the interactive client exits, the whole text sends it with what follows. */
  lemma ExitThenMore(more: string)
    requires !AllTrimmed(more)
    ensures IsExitCommand(Pending(["exit", more], 0)) && !SameStop(["exit", more])
  {
    var lines := ["exit", more];
    FirstPending(lines);
    assert "exit" + "\n" == "exit\n";
    BareExit();
    BareIsExit("exit\n");
    assert Exits(lines, 0);
    ExitLineIs(lines, 0);
    assert lines[1..] == [more];
    OneLine(more);
    var k := FirstUntrimmed(more);
    assert (more + "\n")[k] == more[k];
    hide *;
    SameStopCases(lines);
  }

  lemma ExitStatement()
    ensures IsExitCommand("exit;\n") && !Bare("exit;\n")
    ensures var r := Run(START, "exit;\n"); |r.closed| > 0 && r.closed[0] == Segment("exit;", true)
  {
    assert "exit;\n" == "exit;" + "\n" && "exit" + ";" == "exit;" && "exit;\n" == "exit" + ";" + "\n";
    TrimBehind("exit;", "\n");
    Words("exit");
    CloseScan("exit", "\n");
  }

  /** A line without a statement, and behind it the text t. */
  lemma BlankThen(d: string, t: string)
    requires Blank(d) && |Run(START, t).closed| > 0 && Run(START, t).closed[0].isStatement
    ensures var ss := StatementsOf(d + t); ss != [] && ss[0] == d + Run(START, t).closed[0].text
  {
    hide Run;
    RunSplit(START, d, t);
    RunShift(START, [], d, t);
    NothingInFront(d);
    assert START.(closed := [], current := d + START.current) == Scan(Code, false, [], d);
    FirstStatement(d + t);
  }

  lemma BlankTaken(d: string)
    requires Blank(d)
    ensures !IsExitCommand(d) && StatementsOf(d) == [] && Tail(Run(START, d)) == "" && FirstExit(StatementsOf(d)) == 0
  {
    hide Run;
    ExitBehind(d, "");
    assert d + "" == d && Trim("") == "";
  }

  lemma FedBlank(lines: seq<string>)
    requires |lines| == 2 && Blank(lines[0] + "\n")
    ensures !Exits(lines, 0) && Pending(lines, 1) == lines[1] + "\n"
    ensures Fed(lines).statements == StatementsOf(lines[1] + "\n")
  {
    var d, e := lines[0] + "\n", lines[1] + "\n";
    FirstPending(lines);
    assert lines[..0] == [] && Fed(lines[..0]) == Feed([], "") && lines[..2] == lines;
    hide Run, IsExitCommand, Statements, Tail, FirstExit, StatementsOf, Fed, Blank;
    BlankTaken(d);
    FedNext(lines, 0);
    NothingInFront(e);
    FedNext(lines, 1);
  }

  lemma TwoLines(lines: seq<string>)
    requires |lines| == 2
    ensures AllLines(lines) == (lines[0] + "\n") + (lines[1] + "\n")
  {
    assert lines[..1] == [lines[0]];
    OneLine(lines[0]);
  }

  /** An exit command behind a comment line: the interactive client exits, the whole text sends comment and all. */
  lemma ExitBehindLine(line: string)
    requires Blank(line + "\n") && !AllTrimmed(line + "\n")
    ensures IsExitCommand(Pending([line, "exit;"], 1)) && !SameStop([line, "exit;"])
  {
    var lines, d := [line, "exit;"], line + "\n";
    ExitStatement();
    assert "exit;" + "\n" == "exit;\n" && InFrontOf(d + "exit;", "exit;") == d;
    hide *;
    FedBlank(lines);
    TwoLines(lines);
    BlankThen(d, "exit;\n");
    ExitIsFirst();
    ExitLineOne(lines);
    SameStopCases(lines);
  }

  lemma ExitIsFirst()
    ensures var ss := StatementsOf("exit;\n"); ss != [] && ss[0] == "exit;" && FirstExit(ss) == 0
  {
    hide Run, Bare, IsExitCommand, FirstExit, StatementsOf;
    ExitStatement();
    FirstStatement("exit;\n");
    ClosedExit("exit;\n");
    FirstExitAt(StatementsOf("exit;\n"), 0);
  }

  lemma ExitLineOne(lines: seq<string>)
    requires |lines| == 2 && !Exits(lines, 0) && IsExitCommand(Pending(lines, 1))
    ensures ExitLine(lines, 0) == 1
  {
    hide IsExitCommand, Pending, StatementsOf, FirstExit;
    assert Exits(lines, 1);
    hide *;
    ExitLineIs(lines, 1);
  }

  /** The shortest such texts. */
  lemma ExitsDiffer()
    ensures !SameStop(["exit", "x;"]) && !SameStop(["-- c", "exit;"])
  {
    hide *;
    NotBlank("x;");
    ExitThenMore("x;");
    CommentIsBlank(" c");
    assert "--" + " c" == "-- c";
    NotBlank("-- c" + "\n");
    ExitBehindLine("-- c");
  }

  lemma NotBlank(s: string)
    requires s != "" && (s[0] == 'x' || s[0] == '-')
    ensures !AllTrimmed(s)
  {
    assert !IsTrimmed(s[0]);
  }

  lemma CommentIsBlank(c: string)
    requires '\n' !in c
    ensures Blank("--" + c + "\n")
  {
    var t := "--" + c + "\n";
    RunLineComment(START, c, "");
    NothingInFront(t);
    AtEnd(START.(current := t), t);
    hide Run;
  }
}
