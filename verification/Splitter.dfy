/**
  How the command-line client cuts its input into statements.

  The text is scanned as code, string literals and two kinds of comment.  A semicolon in
  code closes a segment; a segment is a statement if it holds anything but blanks and
  comments.
 */
module Splitter {
  import opened Pieces

  datatype Mode = Code | Line | Block | Text

  /** Where the scan is, the segments closed so far, and the text since the last of them. */
  datatype Scan = Scan(mode: Mode, hasSql: bool, closed: seq<Segment>, current: string)

  const START := Scan(Code, false, [], "")

  /** What the character ch, with next behind it, does to the scan. */
  datatype Move = Move(mode: Mode, hasSql: bool, takesNext: bool, closes: bool)

  function Classify(mode: Mode, hasSql: bool, ch: char, next: char): (m: Move)
    ensures m.takesNext ==> next != '\0' && next != '\n' && ch != '\n' && ch != ';' && !m.closes
  {
    match mode
    case Line => Move(if ch == '\n' then Code else Line, hasSql, false, false)
    case Block => if ch == '*' && next == '/' then Move(Code, hasSql, true, false) else Move(Block, hasSql, false, false)
    case Text =>
      if ch != '\'' then Move(Text, hasSql, false, false)
      else if next == '\'' then Move(Text, hasSql, true, false) else Move(Code, hasSql, false, false)
    case Code =>
      if ch == '-' && next == '-' then Move(Line, hasSql, true, false)
      else if ch == '/' && next == '*' then Move(Block, hasSql, true, false)
      else if ch == '\'' then Move(Text, true, false, false)
      else if ch == ';' then Move(Code, false, false, true)
      else Move(Code, hasSql || !IsSpace(ch), false, false)
  }

  function Next(t: string): char
  {
    if |t| >= 2 then t[1] else '\0'
  }

  /** How many characters the token at the front of the text takes. */
  function Width(sc: Scan, t: string): (w: nat)
    requires t != ""
    ensures 1 <= w <= |t|
  {
    if Classify(sc.mode, sc.hasSql, t[0], Next(t)).takesNext then 2 else 1
  }

  /** The scan after the token at the front of the text. */
  function Token(sc: Scan, t: string): Scan
    requires t != ""
  {
    var m := Classify(sc.mode, sc.hasSql, t[0], Next(t));
    var current := sc.current + t[..Width(sc, t)];
    if m.closes then Scan(m.mode, m.hasSql, sc.closed + [Segment(current, sc.hasSql)], "")
    else Scan(m.mode, m.hasSql, sc.closed, current)
  }

  function Run(sc: Scan, t: string): Scan
    decreases |t|
  {
    if t == "" then sc else Run(Token(sc, t), t[Width(sc, t)..])
  }

  function Statements(segs: seq<Segment>): seq<string>
  {
    if segs == [] then []
    else
      var front, last := Statements(segs[..|segs| - 1]), segs[|segs| - 1];
      if last.isStatement then front + [last.text] else front
  }

  /** What stays for later: nothing, if it is only blanks and finished comments. */
  function Tail(sc: Scan): string
  {
    if !sc.hasSql && sc.mode != Block then "" else sc.current
  }

  // ---- what the scan does to a piece ----------------------------------------------------

  /** Text inside a literal, with quotes written twice, is passed over. */
  lemma {:induction false} InLiteral(sc: Scan, b: string, rest: string)
    requires sc.mode == Text && QuotesDoubled(b)
    ensures Run(sc, b + rest) == Run(sc.(current := sc.current + b), rest)
    decreases |b|
  {
    if b == "" {
      assert b + rest == rest && sc.current + b == sc.current;
    } else {
      var w := if b[0] == '\'' then 2 else 1;
      Passed(sc, b, rest, w);
      InLiteral(sc.(current := sc.current + b[..w]), b[w..], rest);
    }
  }

  lemma {:induction false} InLine(sc: Scan, b: string, rest: string)
    requires sc.mode == Line && '\n' !in b
    ensures Run(sc, b + rest) == Run(sc.(current := sc.current + b), rest)
    decreases |b|
  {
    if b == "" {
      assert b + rest == rest && sc.current + b == sc.current;
    } else {
      Passed(sc, b, rest, 1);
      InLine(sc.(current := sc.current + b[..1]), b[1..], rest);
    }
  }

  lemma {:induction false} InBlock(sc: Scan, b: string, rest: string)
    requires sc.mode == Block && NoBlockEnd(b) && !Begins(rest, '/')
    ensures Run(sc, b + rest) == Run(sc.(current := sc.current + b), rest)
    decreases |b|
  {
    if b == "" {
      assert b + rest == rest && sc.current + b == sc.current;
    } else {
      assert Next(b + rest) == '/' ==> |b| >= 2 && b[1] == '/';
      Passed(sc, b, rest, 1);
      assert forall i :: 0 <= i < |b| - 1 ==> b[1..][i] == b[i + 1];
      InBlock(sc.(current := sc.current + b[..1]), b[1..], rest);
    }
  }

  /** One token that changes nothing but the position. */
  lemma Passed(sc: Scan, b: string, rest: string, w: nat)
    requires 1 <= w <= |b| && Classify(sc.mode, sc.hasSql, b[0], Next(b + rest)) == Move(sc.mode, sc.hasSql, w == 2, false) && w <= 2
    ensures Run(sc, b + rest) == Run(sc.(current := sc.current + b[..w]), b[w..] + rest)
    ensures sc.current + b[..w] + b[w..] == sc.current + b
  {
    hide Run, Classify, Next, Token, Width;
    var t := b + rest;
    Cutting(b, rest, w);
    JoinAt(sc.current, b, w);
    PassedToken(sc, t, w);
    RunToken(sc, t);
  }

  lemma Cutting(b: string, rest: string, w: nat)
    requires w <= |b|
    ensures (b + rest)[..w] == b[..w] && (b + rest)[w..] == b[w..] + rest
    ensures b != "" ==> (b + rest)[0] == b[0]
  {}

  lemma PassedToken(sc: Scan, t: string, w: nat)
    requires t != "" && 1 <= w <= 2 && w <= |t| && Classify(sc.mode, sc.hasSql, t[0], Next(t)) == Move(sc.mode, sc.hasSql, w == 2, false)
    ensures Width(sc, t) == w && Token(sc, t) == sc.(current := sc.current + t[..w])
  {
    hide Classify, Next;
  }

  /** One token at the front of the text. */
  lemma Opens(sc: Scan, mark: string, rest: string, next: Scan)
    requires mark != "" && Token(sc, mark + rest) == next && Width(sc, mark + rest) == |mark|
    ensures Run(sc, mark + rest) == Run(next, rest)
  {
    hide Token, Width;
    RunToken(sc, mark + rest);
    assert (mark + rest)[|mark|..] == rest;
  }

  /** The marks that begin and end literals and comments. */
  lemma Quote(sc: Scan, rest: string)
    ensures sc.mode == Code ==> Run(sc, "'" + rest) == Run(Scan(Text, true, sc.closed, sc.current + "'"), rest)
    ensures sc.mode == Text && !Begins(rest, '\'') ==> Run(sc, "'" + rest) == Run(sc.(mode := Code, current := sc.current + "'"), rest)
  {
    hide Run;
    if sc.mode == Code { Opens(sc, "'", rest, Scan(Text, true, sc.closed, sc.current + "'")); }
    if sc.mode == Text && !Begins(rest, '\'') { Opens(sc, "'", rest, sc.(mode := Code, current := sc.current + "'")); }
  }

  lemma Dashes(sc: Scan, rest: string)
    ensures sc.mode == Code ==> Run(sc, "--" + rest) == Run(sc.(mode := Line, current := sc.current + "--"), rest)
    ensures sc.mode == Line ==> Run(sc, "\n" + rest) == Run(sc.(mode := Code, current := sc.current + "\n"), rest)
  {
    hide Run;
    if sc.mode == Code { Opens(sc, "--", rest, sc.(mode := Line, current := sc.current + "--")); }
    if sc.mode == Line { Opens(sc, "\n", rest, sc.(mode := Code, current := sc.current + "\n")); }
  }

  lemma Stars(sc: Scan, rest: string)
    ensures sc.mode == Code ==> Run(sc, "/*" + rest) == Run(sc.(mode := Block, current := sc.current + "/*"), rest)
    ensures sc.mode == Block ==> Run(sc, "*/" + rest) == Run(sc.(mode := Code, current := sc.current + "*/"), rest)
  {
    hide Run;
    if sc.mode == Code { Opens(sc, "/*", rest, sc.(mode := Block, current := sc.current + "/*")); }
    if sc.mode == Block { Opens(sc, "*/", rest, sc.(mode := Code, current := sc.current + "*/")); }
  }

  lemma Regroup(a: string, b: string, c: string, d: string)
    ensures a + b + c + d == a + (b + c + d) && b + (c + d) == b + c + d
  {}

  lemma AtEnd(sc: Scan, b: string)
    ensures b + "" == b && Run(sc, "") == sc
  {}

  /** A literal closes nothing and makes the segment a statement, whatever is written in it. */
  lemma RunLiteral(sc: Scan, body: string, rest: string)
    requires sc.mode == Code && QuotesDoubled(body)
    ensures !Begins(rest, '\'') ==>
      Run(sc, "'" + body + "'" + rest) == Run(Scan(Code, true, sc.closed, sc.current + ("'" + body + "'")), rest)
    ensures Run(sc, "'" + body) == Scan(Text, true, sc.closed, sc.current + ("'" + body))
  {
    hide Run, QuotesDoubled;
    var inside := Scan(Text, true, sc.closed, sc.current + "'");
    Quote(sc, body + ("'" + rest));
    Quote(sc, body);
    InLiteral(inside, body, "'" + rest);
    InLiteral(inside, body, "");
    Quote(inside.(current := inside.current + body), rest);
    AtEnd(inside.(current := inside.current + body), body);
    Regroup(sc.current, "'", body, "'");
    Regroup("'", body, "'", rest);
    Regroup("", sc.current, "'", body);
  }

  /** A line comment up to its newline closes nothing and is no statement, whatever is written in it. */
  lemma RunLineComment(sc: Scan, body: string, rest: string)
    requires sc.mode == Code && '\n' !in body
    ensures Run(sc, "--" + body + "\n" + rest) == Run(sc.(current := sc.current + ("--" + body + "\n")), rest)
    ensures Run(sc, "--" + body) == sc.(mode := Line, current := sc.current + ("--" + body))
  {
    hide Run;
    var inside := sc.(mode := Line, current := sc.current + "--");
    Dashes(sc, body + ("\n" + rest));
    Dashes(sc, body);
    InLine(inside, body, "\n" + rest);
    InLine(inside, body, "");
    Dashes(inside.(current := inside.current + body), rest);
    AtEnd(inside.(current := inside.current + body), body);
    Regroup(sc.current, "--", body, "\n");
    Regroup("--", body, "\n", rest);
    Regroup("", sc.current, "--", body);
  }

  /** The same of a block comment up to the first end mark. */
  lemma RunBlockComment(sc: Scan, body: string, rest: string)
    requires sc.mode == Code && NoBlockEnd(body)
    ensures Run(sc, "/*" + body + "*/" + rest) == Run(sc.(current := sc.current + ("/*" + body + "*/")), rest)
    ensures Run(sc, "/*" + body) == sc.(mode := Block, current := sc.current + ("/*" + body))
  {
    hide Run, NoBlockEnd;
    var inside := sc.(mode := Block, current := sc.current + "/*");
    Stars(sc, body + ("*/" + rest));
    Stars(sc, body);
    InBlock(inside, body, "*/" + rest);
    InBlock(inside, body, "");
    Stars(inside.(current := inside.current + body), rest);
    AtEnd(inside.(current := inside.current + body), body);
    Regroup(sc.current, "/*", body, "*/");
    Regroup("/*", body, "*/", rest);
    Regroup("", sc.current, "/*", body);
  }

  /** A semicolon in code closes the segment; any other character in code is part of it. */
  lemma RunCode(sc: Scan, c: char, rest: string)
    requires sc.mode == Code && c != '\''
    ensures c == ';' ==>
      Run(sc, [c] + rest) == Run(Scan(Code, false, sc.closed + [Segment(sc.current + ";", sc.hasSql)], ""), rest)
    ensures c != ';' && !(c == '-' && Begins(rest, '-')) && !(c == '/' && Begins(rest, '*')) ==>
      Run(sc, [c] + rest) == Run(Scan(Code, sc.hasSql || !IsSpace(c), sc.closed, sc.current + [c]), rest)
  {
    var t := [c] + rest;
    assert t[1..] == rest && t[..1] == [c];
    RunToken(sc, t);
    hide Run;
  }

  // ---- the scan of a text made of pieces ----------------------------------------------------

  function ModeAfter(p: Piece): Mode
  {
    if Ended(p) then Code else if p.Quoted? then Text else if p.Dashed? then Line else Block
  }

  /** What a piece does to a scan in code: a semicolon closes, all else is taken in. */
  function AfterPiece(sc: Scan, p: Piece): Scan
  {
    if p.Semicolon? then Scan(Code, false, sc.closed + [Segment(sc.current + ";", sc.hasSql)], "")
    else Scan(ModeAfter(p), sc.hasSql || IsSql(p), sc.closed, sc.current + Spelled(p))
  }

  lemma RunPiece(sc: Scan, p: Piece, rest: string)
    requires sc.mode == Code && WellFormed(p) && Stands(p, rest)
    ensures Run(sc, Spelled(p) + rest) == Run(AfterPiece(sc, p), rest)
  {
    if p.Semicolon? || p.Plain? {
      hide Run;
      RunCode(sc, if p.Semicolon? then ';' else p.c, rest);
    } else {
      match p {
        case Quoted(body, _) => RunLiteral(sc, body, rest);
        case Dashed(body, _) => RunLineComment(sc, body, rest);
        case Starred(body, _) => RunBlockComment(sc, body, rest);
      }
      hide Run, QuotesDoubled, NoBlockEnd;
      if !p.ended {
        Unended(p);
        AtEnd(AfterPiece(sc, p), Spelled(p));
      }
    }
  }

  lemma Unended(p: Piece)
    requires !Ended(p)
    ensures Spelled(p) == (if p.Quoted? then "'" else if p.Dashed? then "--" else "/*") + p.body
  {}

  /** The scan of a list of pieces, one after the other. */
  function AfterPieces(ps: seq<Piece>): Scan
  {
    if ps == [] then START else AfterPiece(AfterPieces(ps[..|ps| - 1]), ps[|ps| - 1])
  }

  lemma {:induction false} SpellNothing(ps: seq<Piece>)
    ensures ps != [] ==> Spell(ps) != ""
  {
    if ps != [] { assert Spelled(ps[0]) != ""; }
  }

  /** Between two pieces the scan is in code. */
  lemma InCode(ps: seq<Piece>, t: string, n: nat)
    requires Lexed(ps, t) && n < |ps|
    ensures AfterPieces(ps[..n]).mode == Code
  {
    if n > 0 {
      LexedAt(ps, t, n - 1);
      PieceAt(ps, n - 1);
      SpellNothing(ps[n..]);
      hide Spell, AfterPieces, WellFormed, Lexed;
    }
  }

  /** The n-th piece, in the text and in the scan. */
  lemma PieceAt(ps: seq<Piece>, n: nat)
    requires n < |ps|
    ensures Spell(ps[n..]) == Spelled(ps[n]) + Spell(ps[n + 1..])
    ensures AfterPieces(ps[..n + 1]) == AfterPiece(AfterPieces(ps[..n]), ps[n])
  {
    hide Spelled, AfterPiece;
    assert ps[n..][0] == ps[n] && ps[n..][1..] == ps[n + 1..] && ps[..n + 1][..n] == ps[..n];
  }

  lemma {:induction false} RunPieces(ps: seq<Piece>, t: string, n: nat)
    requires Lexed(ps, t) && n <= |ps|
    ensures Run(START, t) == Run(AfterPieces(ps[..n]), Spell(ps[n..]))
  {
    if n == 0 {
      assert ps[0..] == ps && ps[..0] == [];
    } else {
      RunPieces(ps, t, n - 1);
      InCode(ps, t, n - 1);
      PieceAt(ps, n - 1);
      LexedAt(ps, t, n - 1);
      hide Run, Spell, Spelled, AfterPiece, AfterPieces, Lexed, WellFormed, Stands;
      RunPiece(AfterPieces(ps[..n - 1]), ps[n - 1], Spell(ps[n..]));
    }
  }

  lemma LexedAt(ps: seq<Piece>, t: string, n: nat)
    requires Lexed(ps, t) && n < |ps|
    ensures WellFormed(ps[n]) && Stands(ps[n], Spell(ps[n + 1..]))
  {
    hide WellFormed, Stands, Spell;
  }

  /** A text scans as its pieces say. */
  lemma ScanIsPieces(ps: seq<Piece>, t: string)
    requires Lexed(ps, t)
    ensures Run(START, t) == AfterPieces(ps)
  {
    RunPieces(ps, t, |ps|);
    assert ps[..|ps|] == ps && ps[|ps|..] == [];
    hide Lexed, AfterPieces;
  }

  /** The segments are those between semicolons. */
  lemma {:induction false} PiecesSplit(ps: seq<Piece>) returns (at: seq<nat>)
    ensures var r := AfterPieces(ps); SplitsAt(ps, at, r.closed, r.current, r.hasSql)
  {
    if ps == [] {
      at := [];
    } else {
      var front, p := ps[..|ps| - 1], ps[|ps| - 1];
      at := PiecesSplit(front);
      var r := AfterPieces(front);
      assert ps == front + [p];
      PieceAt(ps, |front|);
      assert ps[..|front|] == front && ps[..|front| + 1] == ps;
      hide SplitsAt, Spelled, IsSql, ModeAfter, AfterPieces;
      if p.Semicolon? {
        SplitClosed(front, at, r.closed, r.current, r.hasSql);
        at := at + [|front|];
      } else {
        SplitMore(front, p, at, r.closed, r.current, r.hasSql);
      }
    }
  }

  lemma {:induction false} StatementsPicked(segs: seq<Segment>) returns (picks: seq<nat>)
    ensures Picked(segs, Statements(segs), picks)
  {
    if segs == [] {
      picks := [];
    } else {
      var front, last := segs[..|segs| - 1], segs[|segs| - 1];
      picks := StatementsPicked(front);
      assert segs == front + [last];
      PickMore(front, Statements(front), picks, last);
      if last.isStatement { picks := picks + [|front|]; }
    }
  }

  lemma PickMore(segs: seq<Segment>, statements: seq<string>, picks: seq<nat>, last: Segment)
    requires Picked(segs, statements, picks)
    ensures last.isStatement ==> Picked(segs + [last], statements + [last.text], picks + [|segs|])
    ensures !last.isStatement ==> Picked(segs + [last], statements, picks)
  {}

  /** The scan ends inside a block comment exactly if the text does. */
  lemma BlockAtEnd(ps: seq<Piece>)
    ensures AfterPieces(ps).mode == Block <==> EndsInBlock(ps)
  {}

  /** What the scan finds is the text cut at the semicolons outside literals and comments, and nowhere else. */
  lemma ScanCuts(t: string)
    ensures CutsInto(t, Statements(Run(START, t).closed), Tail(Run(START, t)))
  {
    var ps := LexExists(t);
    ScanIsPieces(ps, t);
    BlockAtEnd(ps);
    var at := PiecesSplit(ps);
    var r := Run(START, t);
    var picks := StatementsPicked(r.closed);
    hide Run, Lexed, SplitsAt, Picked, AfterPieces, EndsInBlock;
    assert SplitsAt(ps, at, r.closed, r.current, r.hasSql);
  }

  // ---- the scanning loop --------------------------------------------------------------

  lemma StatementsSnoc(segs: seq<Segment>, s: Segment)
    ensures s.isStatement ==> Statements(segs + [s]) == Statements(segs) + [s.text]
    ensures !s.isStatement ==> Statements(segs + [s]) == Statements(segs)
  {
    assert (segs + [s])[..|segs|] == segs;
  }

  /** The scan has come to index, and the current segment began at start. */
  ghost predicate At(sc: Scan, input: string, start: nat, index: nat)
  {
    start <= index <= |input| && sc.current == input[start..index] && Run(START, input) == Run(sc, input[index..])
  }

  lemma AtEnds(sc: Scan, input: string, start: nat)
    ensures At(START, input, 0, 0)
    ensures At(sc, input, start, |input|) ==> Run(START, input) == sc && sc.current == input[start..]
  {
    assert input[0..] == input;
  }

  /** The scan after the token at index. */
  lemma AtNext(sc: Scan, input: string, start: nat, index: nat, next: Scan, m: Move)
    requires At(sc, input, start, index) && index < |input| && next == Token(sc, input[index..])
    requires m == Classify(sc.mode, sc.hasSql, input[index], if index + 1 < |input| then input[index + 1] else '\0')
    ensures next.mode == m.mode && next.hasSql == m.hasSql
    ensures m.closes ==> index < |input| && next.closed == sc.closed + [Segment(input[start..index + 1], sc.hasSql)]
    ensures m.closes ==> !m.takesNext && At(next, input, index + 1, index + 1)
    ensures !m.closes ==> next.closed == sc.closed && At(next, input, start, if m.takesNext then index + 2 else index + 1)
  {
    hide Classify, Run;
    var t := input[index..];
    assert m == Classify(sc.mode, sc.hasSql, t[0], Next(t));
    var w := if m.takesNext then 2 else 1;
    assert w == Width(sc, t);
    SliceToken(input, start, index, w);
    RunToken(sc, t);
  }

  lemma RunToken(sc: Scan, t: string)
    requires t != ""
    ensures Run(sc, t) == Run(Token(sc, t), t[Width(sc, t)..])
  {}

  lemma SliceToken(input: string, start: nat, index: nat, w: nat)
    requires start <= index && index + w <= |input|
    ensures input[index..][w..] == input[index + w..]
    ensures input[start..index] + input[index..][..w] == input[start..index + w]
  {}

  /** The flags of the loop as a mode; at most one of them is set. */
  predicate Flags(inString: bool, inLine: bool, inBlock: bool, mode: Mode)
  {
    && !(inLine && inBlock) && !(inLine && inString) && !(inBlock && inString)
    && mode == if inLine then Line else if inBlock then Block else if inString then Text else Code
  }

  lemma FlagsBlock(inString: bool, inLine: bool, inBlock: bool, mode: Mode)
    requires Flags(inString, inLine, inBlock, mode)
    ensures inBlock <==> mode == Block
  {}

  /** The branches of the loop for one character. */
  method ScanChar(inString: bool, inLine: bool, inBlock: bool, hasSql: bool, ch: char, next: char, ghost mode: Mode)
    returns (str: bool, line: bool, block: bool, sql: bool, skip: bool, closes: bool)
    requires Flags(inString, inLine, inBlock, mode)
    ensures var m := Classify(mode, hasSql, ch, next);
      && Flags(str, line, block, m.mode) && skip == m.takesNext && closes == m.closes && !(skip && closes)
      && (if closes then !m.hasSql && sql == hasSql else sql == m.hasSql)
  {
    str, line, block, sql, skip, closes := inString, inLine, inBlock, hasSql, false, false;
    if line {
      if ch == '\n' { line := false; }
    } else if block {
      if ch == '*' && next == '/' { block, skip := false, true; }
    } else if str {
      if ch == '\'' {
        if next == '\'' { skip := true; } else { str := false; }
      }
    } else if ch == '-' && next == '-' {
      line, skip := true, true;
    } else if ch == '/' && next == '*' {
      block, skip := true, true;
    } else if ch == '\'' {
      str, sql := true, true;
    } else if ch == ';' {
      closes := true;
    } else if !IsSpace(ch) {
      sql := true;
    }
  }

  /** The loop's variables agree with the scan at index. */
  ghost predicate InSync(sc: Scan, input: string, start: nat, index: nat, inString: bool, inLine: bool, inBlock: bool,
                         hasSql: bool, statements: seq<string>)
  {
    && At(sc, input, start, index) && Flags(inString, inLine, inBlock, sc.mode)
    && sc.hasSql == hasSql && statements == Statements(sc.closed)
  }

  /** One turn of the loop. */
  method ScanNext(input: string, start: nat, index: nat, inString: bool, inLine: bool, inBlock: bool, hasSql: bool,
                  statements: seq<string>, ghost sc: Scan)
    returns (start': nat, index': nat, str: bool, line: bool, block: bool, sql: bool, out: seq<string>, ghost next: Scan)
    requires start <= index < |input| && InSync(sc, input, start, index, inString, inLine, inBlock, hasSql, statements)
    ensures start' <= index' <= |input| && index < index'
    ensures InSync(next, input, start', index', str, line, block, sql, out)
  {
    hide Statements, Classify, Token, Flags;
    var ch := if index + 1 < |input| then input[index + 1] else '\0';
    next := Token(sc, input[index..]);
    AtNext(sc, input, start, index, next, Classify(sc.mode, hasSql, input[index], ch));
    var skip, closes;
    str, line, block, sql, skip, closes := ScanChar(inString, inLine, inBlock, hasSql, input[index], ch, sc.mode);
    start', out := start, statements;
    if closes {
      var text := input[start..index + 1];
      StatementsSnoc(sc.closed, Segment(text, hasSql));
      if sql { out := out + [text]; }
      start', sql := index + 1, false;
    }
    index' := if skip then index + 2 else index + 1;
  }

  method TakeCompleteStatements(input: string) returns (statements: seq<string>, rest: string)
    ensures statements == Statements(Run(START, input).closed) && rest == Tail(Run(START, input))
    ensures CutsInto(input, statements, rest)
  {
    ScanCuts(input);
    statements := [];
    var start: nat, index: nat, inString, inLine, inBlock, hasSql := 0, 0, false, false, false, false;
    ghost var sc := START;
    AtEnds(sc, input, start);
    assert InSync(sc, input, start, index, inString, inLine, inBlock, hasSql, statements);
    hide Run, Statements, InSync;
    while index < |input|
      invariant start <= index <= |input| && InSync(sc, input, start, index, inString, inLine, inBlock, hasSql, statements)
      decreases |input| - index
    {
      start, index, inString, inLine, inBlock, hasSql, statements, sc :=
        ScanNext(input, start, index, inString, inLine, inBlock, hasSql, statements, sc);
    }
    SyncEnds(sc, input, start, inString, inLine, inBlock, hasSql, statements);
    rest := input[start..];
    if !hasSql && !inBlock { rest := ""; }
  }

  lemma SyncEnds(sc: Scan, input: string, start: nat, inString: bool, inLine: bool, inBlock: bool, hasSql: bool, statements: seq<string>)
    requires start <= |input| && InSync(sc, input, start, |input|, inString, inLine, inBlock, hasSql, statements)
    ensures Run(START, input) == sc && statements == Statements(sc.closed)
    ensures Tail(sc) == if !hasSql && !inBlock then "" else input[start..]
  {
    AtEnds(sc, input, start);
    FlagsBlock(inString, inLine, inBlock, sc.mode);
  }

  // ---- scanning in pieces ----------------------------------------------------------------

  /** The last character takes part in no two-character token. */
  predicate Settled(t: string)
  {
    t == "" || t[|t| - 1] == '\n' || t[|t| - 1] == ';'
  }

  /** Text can be scanned piece by piece where a piece ends with a newline or a semicolon. */
  lemma {:induction false} RunSplit(sc: Scan, a: string, b: string)
    requires Settled(a)
    ensures Run(sc, a + b) == Run(Run(sc, a), b)
    decreases |a|
  {
    if a == "" {
      assert a + b == b;
    } else {
      TokenOfFirst(sc, a, b);
      hide Token, Width;
      RunSplit(Token(sc, a), a[Width(sc, a)..], b);
    }
  }

  lemma TokenOfFirst(sc: Scan, a: string, b: string)
    requires Settled(a) && a != ""
    ensures Token(sc, a + b) == Token(sc, a) && Width(sc, a + b) == Width(sc, a)
    ensures (a + b)[Width(sc, a)..] == a[Width(sc, a)..] + b && Settled(a[Width(sc, a)..])
  {
    assert Classify(sc.mode, sc.hasSql, a[0], Next(a)) == Classify(sc.mode, sc.hasSql, a[0], Next(a + b));
    var w := Width(sc, a);
    assert (a + b)[..w] == a[..w];
  }

  // ---- segments --------------------------------------------------------------------------

  function Joined(segs: seq<Segment>): string
  {
    if segs == [] then "" else Joined(segs[..|segs| - 1]) + segs[|segs| - 1].text
  }

  /** Nothing is lost and nothing is invented: the segments and the open end are the text. */
  lemma {:induction false} RunAccounts(sc: Scan, t: string)
    ensures Joined(Run(sc, t).closed) + Run(sc, t).current == Joined(sc.closed) + sc.current + t
    decreases |t|
  {
    if t == "" {
      assert Joined(sc.closed) + sc.current + t == Joined(sc.closed) + sc.current;
    } else {
      var w, next := Width(sc, t), Token(sc, t);
      hide *;
      TokenAccounts(sc, t);
      RunToken(sc, t);
      RunAccounts(next, t[w..]);
      JoinAt(Joined(sc.closed) + sc.current, t, w);
    }
  }

  lemma JoinAt(a: string, t: string, w: nat)
    requires w <= |t|
    ensures a + t[..w] + t[w..] == a + t
  {}

  lemma TokenAccounts(sc: Scan, t: string)
    requires t != ""
    ensures Joined(Token(sc, t).closed) + Token(sc, t).current == Joined(sc.closed) + sc.current + t[..Width(sc, t)]
  {
    hide Classify;
    var segment := Segment(sc.current + t[..Width(sc, t)], sc.hasSql);
    assert (sc.closed + [segment])[..|sc.closed|] == sc.closed;
  }

  function Shifted(d: string, segs: seq<Segment>): (r: seq<Segment>)
    ensures |r| == |segs|
  {
    if segs == [] then [] else [Segment(d + segs[0].text, segs[0].isStatement)] + segs[1..]
  }

  /** Text in front of the current segment stays in front of the first segment closed next. */
  lemma {:induction false} RunShift(sc: Scan, pre: seq<Segment>, d: string, t: string)
    requires sc.closed == []
    ensures var a, b := Run(sc.(closed := pre, current := d + sc.current), t), Run(sc, t);
      && a.mode == b.mode && a.hasSql == b.hasSql && a.closed == pre + Shifted(d, b.closed)
      && a.current == if b.closed == [] then d + b.current else b.current
    decreases |t|
  {
    var more := sc.(closed := pre, current := d + sc.current);
    if t == "" {
      assert pre + [] == pre;
    } else {
      TokenShift(sc, pre, d, t);
      RunToken(sc, t);
      RunToken(more, t);
      hide Run, Token, Width, Shifted;
      var w, next := Width(sc, t), Token(sc, t);
      if next.closed == [] {
        RunShift(next, pre, d, t[w..]);
      } else {
        ClosedFirst(next, pre, d, t[w..]);
      }
    }
  }

  lemma TokenShift(sc: Scan, pre: seq<Segment>, d: string, t: string)
    requires sc.closed == [] && t != ""
    ensures var a, b := sc.(closed := pre, current := d + sc.current), Token(sc, t);
      && Width(a, t) == Width(sc, t)
      && (b.closed == [] ==> Token(a, t) == b.(closed := pre, current := d + b.current))
      && (b.closed != [] ==> Token(a, t) == b.(closed := pre + Shifted(d, b.closed)) && |b.closed| == 1 && b.current == "")
  {
    hide Classify;
    var w := Width(sc, t);
    assert (d + sc.current) + t[..w] == d + (sc.current + t[..w]);
  }

  /** The same just behind a semicolon, where nothing is shifted any more. */
  lemma {:induction false} ClosedFirst(next: Scan, pre: seq<Segment>, d: string, t: string)
    requires |next.closed| == 1 && next.current == ""
    ensures var a, b := Run(next.(closed := pre + Shifted(d, next.closed)), t), Run(next, t);
      && a.mode == b.mode && a.hasSql == b.hasSql && a.closed == pre + Shifted(d, b.closed)
      && a.current == b.current && b.closed != []
  {
    KeepsClosed(next, pre + Shifted(d, next.closed), t);
    KeepsClosed(next, next.closed, t);
    var b := Run(next.(closed := []), t);
    assert next.(closed := next.closed) == next;
    assert Shifted(d, next.closed + b.closed) == Shifted(d, next.closed) + b.closed;
    assert pre + Shifted(d, next.closed) + b.closed == pre + (Shifted(d, next.closed) + b.closed);
  }

  lemma TokenKeeps(sc: Scan, pre: seq<Segment>, t: string)
    requires t != ""
    ensures var a, b := sc.(closed := pre), sc.(closed := []);
      Width(a, t) == Width(b, t) && Token(a, t) == Token(b, t).(closed := pre + Token(b, t).closed)
  {
    hide Classify;
  }

  /** What was closed before does not matter to the scan. */
  lemma {:induction false} KeepsClosed(sc: Scan, pre: seq<Segment>, t: string)
    ensures var a, b := Run(sc.(closed := pre), t), Run(sc.(closed := []), t);
      a == b.(closed := pre + b.closed)
    decreases |t|
  {
    var a, b := sc.(closed := pre), sc.(closed := []);
    if t == "" {
      assert pre + [] == pre;
    } else {
      TokenKeeps(sc, pre, t);
      RunToken(a, t);
      RunToken(b, t);
      hide Run, Token, Width;
      var w, nb := Width(a, t), Token(b, t);
      KeepsClosed(nb, pre + nb.closed, t[w..]);
      KeepsClosed(nb, nb.closed, t[w..]);
      assert nb.(closed := nb.closed) == nb;
      var rest := Run(nb.(closed := []), t[w..]).closed;
      assert pre + nb.closed + rest == pre + (nb.closed + rest);
    }
  }

  /** The text up to and including the first semicolon that closes a segment. */
  lemma {:induction false} FirstSegment(sc: Scan, t: string) returns (p: nat, sql: bool)
    requires sc.closed == [] && Run(sc, t).closed != []
    ensures 0 < p <= |t| && t[p - 1] == ';'
    ensures Run(sc, t[..p]) == Scan(Code, false, [Segment(sc.current + t[..p], sql)], "") && (sc.hasSql ==> sql)
    decreases |t|
  {
    TokenKeepsSql(sc, t);
    hide Token, Classify;
    var w, next := Width(sc, t), Token(sc, t);
    RunToken(sc, t);
    if next.closed != [] {
      p, sql := 1, sc.hasSql;
      CloseAlone(sc, t);
    } else {
      var q;
      q, sql := FirstSegment(next, t[w..]);
      p := w + q;
      FirstLater(sc, t, p, sql);
    }
  }

  lemma TokenKeepsSql(sc: Scan, t: string)
    requires sc.closed == []
    ensures t != "" && sc.hasSql && Token(sc, t).closed == [] ==> Token(sc, t).hasSql
  {}

  lemma FirstLater(sc: Scan, t: string, p: nat, sql: bool)
    requires sc.closed == [] && t != "" && Token(sc, t).closed == [] && Width(sc, t) < p <= |t| && t[p - 1] == ';'
    requires var w, next := Width(sc, t), Token(sc, t);
      Run(next, t[w..][..p - w]) == Scan(Code, false, [Segment(next.current + t[w..][..p - w], sql)], "")
    ensures Run(sc, t[..p]) == Scan(Code, false, [Segment(sc.current + t[..p], sql)], "")
  {
    var w := Width(sc, t);
    var u := t[..p];
    assert u + t[p..] == t;
    TokenOfFirst(sc, u, t[p..]);
    RunToken(sc, u);
    CurrentOfToken(sc, t);
    hide Run, Token, Width;
    assert u[w..] == t[w..][..p - w] && u[..w] == t[..w];
    JoinAt(sc.current, u, w);
  }

  lemma CloseAlone(sc: Scan, t: string)
    requires sc.closed == [] && t != "" && Token(sc, t).closed != []
    ensures Width(sc, t) == 1 && t[0] == ';'
    ensures Run(sc, t[..1]) == Scan(Code, false, [Segment(sc.current + t[..1], sc.hasSql)], "")
  {
    var u := t[..1];
    assert u[..1] == u && Token(sc, u) == Token(sc, t) && u[1..] == "";
    RunToken(sc, u);
  }

  lemma CurrentOfToken(sc: Scan, t: string)
    requires t != "" && sc.closed == [] && Token(sc, t).closed == []
    ensures Token(sc, t).current == sc.current + t[..Width(sc, t)]
  {}

  /** The segment, scanned by itself, is one segment: its only semicolon in code is its last character. */
  predicate Alone(seg: Segment)
  {
    Run(START, seg.text) == Scan(Code, false, [seg], "")
  }

  /** A text with a closed segment is that segment followed by an independent text. */
  lemma SplitFirst(t: string) returns (p: nat, seg: Segment)
    requires Run(START, t).closed != []
    ensures 0 < p <= |t| && seg.text == t[..p] && Alone(seg)
    ensures var r := Run(START, t[p..]); Run(START, t) == r.(closed := [seg] + r.closed)
  {
    var sql;
    hide Run;
    p, sql := FirstSegment(START, t);
    assert START.current + t[..p] == t[..p];
    seg := Segment(t[..p], sql);
    assert t[..p] + t[p..] == t;
    RunSplit(START, t[..p], t[p..]);
    KeepsClosed(START, [seg], t[p..]);
    assert START.(closed := []) == START;
  }

  /** Every segment stands alone, and so does what is open at the end. */
  lemma {:induction false} SegmentsStandAlone(t: string)
    ensures forall i :: 0 <= i < |Run(START, t).closed| ==> Alone(Run(START, t).closed[i])
    ensures Run(START, Run(START, t).current) == Run(START, t).(closed := [])
    decreases |t|
  {
    var r := Run(START, t);
    if r.closed == [] {
      RunAccounts(START, t);
      assert "" + r.current == r.current && "" + "" + t == t;
    } else {
      var p, seg := SplitFirst(t);
      SegmentsStandAlone(t[p..]);
    }
  }

  // ---- line by line --------------------------------------------------------------------------

  /** Text that holds no statement and leaves the scan where it began. */
  predicate Blank(d: string)
  {
    Settled(d) && Run(START, d) == Scan(Code, false, [], d)
  }

  /** The short statement is the full one without blanks and comments in front. */
  ghost predicate Trims(full: string, short: string)
  {
    exists d :: Blank(d) && full == d + short
  }

  ghost predicate TrimsAll(full: seq<string>, short: seq<string>)
  {
    |full| == |short| && forall i :: 0 <= i < |full| ==> Trims(full[i], short[i])
  }

  lemma TrimsSelf(s: string)
    ensures Trims(s, s)
  {
    assert Blank("") && s == "" + s;
  }

  lemma TrimsConcat(a: seq<string>, b: seq<string>, c: seq<string>, d: seq<string>)
    requires TrimsAll(a, b) && TrimsAll(c, d)
    ensures TrimsAll(a + c, b + d)
  {
    forall i | 0 <= i < |a + c| ensures Trims((a + c)[i], (b + d)[i]) {
      if i < |a| { assert Trims(a[i], b[i]); } else { assert Trims(c[i - |a|], d[i - |a|]); }
    }
  }

  lemma {:induction false} StatementsConcat(a: seq<Segment>, b: seq<Segment>)
    ensures Statements(a + b) == Statements(a) + Statements(b)
  {
    if b == [] {
      assert a + b == a;
    } else {
      var front, last := b[..|b| - 1], b[|b| - 1];
      assert a + b == a + front + [last] && b == front + [last];
      StatementsConcat(a, front);
      StatementsSnoc(a + front, last);
      StatementsSnoc(front, last);
    }
  }

  /** A blank in front of the first segment is all the difference a shift makes. */
  lemma ShiftTrims(d: string, segs: seq<Segment>)
    requires Blank(d)
    ensures TrimsAll(Statements(Shifted(d, segs)), Statements(segs))
  {
    if segs != [] {
      var first, rest := segs[0], segs[1..];
      var moved := Segment(d + first.text, first.isStatement);
      assert segs == [first] + rest;
      StatementsConcat([first], rest);
      StatementsConcat([moved], rest);
      OneStatement(first);
      OneStatement(moved);
      assert Trims(moved.text, first.text);
      forall i | 0 <= i < |Statements(rest)| ensures Trims(Statements(rest)[i], Statements(rest)[i]) {
        TrimsSelf(Statements(rest)[i]);
      }
      TrimsConcat(Statements([moved]), Statements([first]), Statements(rest), Statements(rest));
    }
  }

  lemma OneStatement(s: Segment)
    ensures Statements([s]) == if s.isStatement then [s.text] else []
  {
    assert [s][..0] == [];
  }

  lemma {:induction false} LineEnds(sc: Scan, t: string)
    requires sc.mode == Text ==> sc.hasSql
    ensures Run(sc, t).mode == Text ==> Run(sc, t).hasSql
    ensures t != "" && t[|t| - 1] == '\n' ==> Run(sc, t).mode != Line
    decreases |t|
  {
    if t != "" {
      var w := Width(sc, t);
      LineEnds(Token(sc, t), t[w..]);
    }
  }

  lemma OpenEndSettled(t: string)
    requires t != "" && t[|t| - 1] == '\n'
    ensures Settled(Run(START, t).current)
  {
    RunAccounts(START, t);
    var r := Run(START, t);
    EmptyJoined(t);
    hide *;
    LastOfConcat(Joined(r.closed), r.current, t);
  }

  lemma EmptyJoined(t: string)
    ensures Joined(START.closed) + START.current + t == t
  {}

  lemma LastOfConcat(a: string, b: string, t: string)
    requires a + b == t && t != "" && t[|t| - 1] == '\n'
    ensures Settled(b)
  {}

  lemma BlankConcat(a: string, b: string)
    requires Blank(a) && Blank(b)
    ensures Blank(a + b)
  {
    RunSplit(START, a, b);
    RunShift(START, [], a, b);
    assert a + "" == a && [] + Shifted(a, []) == [];
  }

  /** The scan of the whole text and the text that is pending differ by a blank only. */
  ghost predicate Follows(w: Scan, pending: string, d: string)
  {
    Blank(d) && Settled(pending) && w.current == d + pending && Run(START, pending) == Scan(w.mode, w.hasSql, [], pending)
  }

  /** The pending text after a line, and the blank that is dropped in front of it. */
  lemma TailFollows(s: Scan, all: Scan, d: string) returns (e: string)
    requires Blank(d) && Settled(s.current) && Run(START, s.current) == s.(closed := [])
    requires s.mode != Line && (s.mode == Text ==> s.hasSql)
    requires all.mode == s.mode && all.hasSql == s.hasSql && all.current == if s.closed == [] then d + s.current else s.current
    ensures Follows(all, Tail(s), e)
  {
    hide Run, Settled;
    EmptyIsBlank();
    if Tail(s) == s.current {
      e := if s.closed == [] then d else "";
      assert "" + s.current == s.current;
    } else {
      assert Blank(s.current);
      if s.closed == [] { BlankConcat(d, s.current); }
      e := all.current;
      assert e + "" == e;
    }
  }

  /** Reading on, the whole text closes the segments that the pending text closes, up to that blank. */
  lemma FollowsNext(w: Scan, pending: string, d: string, line: string) returns (e: string)
    requires Follows(w, pending, d) && line != "" && line[|line| - 1] == '\n'
    ensures Run(w, line).closed == w.closed + Shifted(d, Run(START, pending + line).closed)
    ensures Follows(Run(w, line), Tail(Run(START, pending + line)), e)
  {
    var t := pending + line;
    hide Run, Shifted, Settled, Tail;
    RunSplit(START, pending, line);
    RunShift(Scan(w.mode, w.hasSql, [], pending), w.closed, d, line);
    SegmentsStandAlone(t);
    OpenEndSettled(t);
    LineEnds(START, t);
    e := TailFollows(Run(START, t), Run(w, line), d);
  }

  lemma EmptyIsBlank()
    ensures Blank("") && Settled("") && Run(START, "") == START
  {}

  // ---- commands and lines -------------------------------------------------------------------------

  predicate IsTrimmed(c: char)
  {
    c == ' ' || c == '\t' || c == '\r' || c == '\n'
  }

  function Trim(s: string): string
  {
    if s == "" then ""
    else if IsTrimmed(s[0]) then Trim(s[1..])
    else if IsTrimmed(s[|s| - 1]) then Trim(s[..|s| - 1])
    else s
  }

  predicate IsExitCommand(s: string)
  {
    Trim(s) == "exit" || Trim(s) == "exit;" || Trim(s) == "bye" || Trim(s) == "bye;"
  }

  /** The whole input: every line with its line end. */
  function AllLines(lines: seq<string>): string
  {
    if lines == [] then "" else AllLines(lines[..|lines| - 1]) + (lines[|lines| - 1] + "\n")
  }

  /** The statements a text holds. */
  function StatementsOf(t: string): seq<string>
  {
    Statements(Run(START, t).closed)
  }

  lemma LinesSettled(lines: seq<string>)
    ensures Settled(AllLines(lines))
  {}

  // ---- feeding the splitter line by line ----------------------------------------------------------

  /** The statements taken out, and the text left pending, when lines are fed one by one. */
  datatype Feed = Feed(statements: seq<string>, pending: string)

  function Fed(lines: seq<string>): Feed
  {
    if lines == [] then Feed([], "")
    else
      var before := Fed(lines[..|lines| - 1]);
      var text := before.pending + (lines[|lines| - 1] + "\n");
      Feed(before.statements + StatementsOf(text), Tail(Run(START, text)))
  }

  /** What the splitter is given when line i has been read. */
  function Pending(lines: seq<string>, i: nat): string
    requires i < |lines|
  {
    Fed(lines[..i]).pending + (lines[i] + "\n")
  }

  lemma FedNext(lines: seq<string>, i: nat)
    requires i < |lines|
    ensures Fed(lines[..i + 1]) ==
      Feed(Fed(lines[..i]).statements + StatementsOf(Pending(lines, i)), Tail(Run(START, Pending(lines, i))))
  {
    assert lines[..i + 1][..i] == lines[..i];
  }

  lemma {:induction false} FedGrows(lines: seq<string>, i: nat)
    requires i <= |lines|
    ensures Fed(lines[..i]).statements <= Fed(lines).statements
    decreases |lines| - i
  {
    if i == |lines| {
      assert lines[..i] == lines;
    } else {
      hide Fed, Pending, StatementsOf, Tail, Run;
      FedNext(lines, i);
      FedGrows(lines, i + 1);
    }
  }

  /** One more line: what it completes, together with what came before, is what the text so far holds. */
  lemma AfterLine(w: Scan, pending: string, d: string, line: string, before: seq<string>) returns (e: string)
    requires Follows(w, pending, d) && line != "" && line[|line| - 1] == '\n' && TrimsAll(Statements(w.closed), before)
    ensures Follows(Run(w, line), Tail(Run(START, pending + line)), e)
    ensures TrimsAll(Statements(Run(w, line).closed), before + StatementsOf(pending + line))
  {
    var s := Run(START, pending + line);
    e := FollowsNext(w, pending, d, line);
    StatementsAre(pending + line);
    FollowsBlank(w, pending, d);
    hide *;
    ShiftTrims(d, s.closed);
    StatementsConcat(w.closed, Shifted(d, s.closed));
    TrimsConcat(Statements(w.closed), before, Statements(Shifted(d, s.closed)), StatementsOf(pending + line));
  }

  lemma FollowsBlank(w: Scan, pending: string, d: string)
    requires Follows(w, pending, d)
    ensures Blank(d)
  {}

  lemma StatementsAre(t: string)
    ensures StatementsOf(t) == Statements(Run(START, t).closed)
  {}

  /**
    Feeding any text line by line gives the statements of the whole text, in order, up to
    blanks and comments dropped in front; and what is pending is its open end up to such.
   */
  lemma {:induction false} FeedingIsSplitting(lines: seq<string>) returns (d: string)
    ensures TrimsAll(StatementsOf(AllLines(lines)), Fed(lines).statements)
    ensures Follows(Run(START, AllLines(lines)), Fed(lines).pending, d)
  {
    if lines == [] {
      EmptyIsBlank();
      d := "";
    } else {
      var n := |lines| - 1;
      var front, line := lines[..n], lines[n] + "\n";
      d := FeedingIsSplitting(front);
      LinesSettled(front);
      StatementsAre(AllLines(front));
      StatementsAre(AllLines(lines));
      hide Run, Follows, TrimsAll, StatementsOf, Tail;
      RunSplit(START, AllLines(front), line);
      d := AfterLine(Run(START, AllLines(front)), Fed(front).pending, d, line, Fed(front).statements);
    }
  }

  /** What has been sent is, up to blanks in front, the beginning of what the whole input holds. */
  ghost predicate SentSoFar(all: seq<string>, sent: seq<string>)
  {
    |sent| <= |all| && TrimsAll(all[..|sent|], sent)
  }

  lemma SentOfText(lines: seq<string>, i: nat, sent: seq<string>)
    requires i <= |lines| && sent <= Fed(lines[..i]).statements
    ensures SentSoFar(StatementsOf(AllLines(lines)), sent)
    ensures sent == Fed(lines).statements ==> |sent| == |StatementsOf(AllLines(lines))|
  {
    var all := StatementsOf(AllLines(lines));
    FedGrows(lines, i);
    var d := FeedingIsSplitting(lines);
    hide Fed, StatementsOf, AllLines, Follows;
    forall j | 0 <= j < |sent| ensures Trims(all[..|sent|][j], sent[j]) {
      assert Trims(all[j], Fed(lines).statements[j]);
    }
  }

  // ---- the interactive loop ---------------------------------------------------------------------

  /** Why the client stops: at an exit command, or because it does not go on after what it sent. */
  datatype Stop = NotStopped | ExitCommand | SendFailed

  ghost predicate NoExit(sent: seq<string>)
  {
    forall i :: 0 <= i < |sent| ==> !IsExitCommand(sent[i])
  }

  /**
    The client goes on after each statement: interactively while the connection is kept,
    with a whole text while statements succeed.  Either may depend on everything sent so far.
   */
  ghost predicate Kept(keeps: seq<string> -> bool, sent: seq<string>)
  {
    forall n :: 0 < n <= |sent| ==> keeps(Commands(sent[..n]))
  }

  /** What reaches the server: the statements without the blanks around them. */
  function Commands(statements: seq<string>): (r: seq<string>)
    ensures |r| == |statements| && forall i :: 0 <= i < |r| ==> r[i] == Trim(statements[i])
  {
    seq(|statements|, i requires 0 <= i < |statements| => Trim(statements[i]))
  }

  /** Of some statements, the first n are sent behind those sent before, and then this happens. */
  ghost predicate SendEnds(before: seq<string>, statements: seq<string>, keeps: seq<string> -> bool, n: nat, stop: Stop)
  {
    && n <= |statements| && NoExit(statements[..n])
    && match stop
       case NotStopped => n == |statements| && Kept(keeps, before + statements)
       case ExitCommand => n < |statements| && IsExitCommand(statements[n]) && Kept(keeps, before + statements[..n])
       case SendFailed => n > 0 && Kept(keeps, before + statements[..n - 1]) && !keeps(Commands(before + statements[..n]))
  }

  lemma KeptMore(keeps: seq<string> -> bool, before: seq<string>, statements: seq<string>, n: nat)
    requires n < |statements| && Kept(keeps, before + statements[..n]) && keeps(Commands(before + statements[..n + 1]))
    ensures Kept(keeps, before + statements[..n + 1])
  {
    var some, all := before + statements[..n], before + statements[..n + 1];
    hide Commands;
    forall k | 0 < k <= |all| ensures keeps(Commands(all[..k])) {
      if k < |all| { assert all[..k] == some[..k]; } else { assert all[..k] == all; }
    }
  }

  /** Sends statements until one is an exit command or the connection is lost. */
  method SendAll(before: seq<string>, statements: seq<string>, keeps: seq<string> -> bool) returns (n: nat, stop: Stop)
    requires Kept(keeps, before)
    ensures SendEnds(before, statements, keeps, n, stop)
  {
    n, stop := 0, NotStopped;
    assert before + statements[..0] == before;
    while n < |statements|
      invariant n <= |statements| && NoExit(statements[..n]) && Kept(keeps, before + statements[..n])
    {
      hide Kept, IsExitCommand;
      if IsExitCommand(statements[n]) { return n, ExitCommand; }
      n := n + 1;
      if !keeps(Commands(before + statements[..n])) { return n, SendFailed; }
      KeptMore(keeps, before, statements, n - 1);
    }
    assert statements[..n] == statements;
  }

  /** The first i lines went through: no exit command, and everything they complete was sent and kept the connection. */
  ghost predicate WentThrough(lines: seq<string>, keeps: seq<string> -> bool, i: nat, sent: seq<string>, pending: string)
    requires i <= |lines|
  {
    && Fed(lines[..i]) == Feed(sent, pending) && NoExit(sent) && Kept(keeps, sent)
    && forall j :: 0 <= j < i ==> !IsExitCommand(Pending(lines, j))
  }

  /** Line i stopped the client: the pending text is an exit command, or sending what it completes ended so. */
  ghost predicate StopsAt(lines: seq<string>, keeps: seq<string> -> bool, i: nat, sent: seq<string>, stop: Stop)
    requires i < |lines|
  {
    var before := Fed(lines[..i]);
    && WentThrough(lines, keeps, i, before.statements, before.pending)
    && if IsExitCommand(Pending(lines, i)) then stop == ExitCommand && sent == before.statements
       else
         && stop != NotStopped && |before.statements| <= |sent|
         && var n := |sent| - |before.statements|;
            && SendEnds(before.statements, StatementsOf(Pending(lines, i)), keeps, n, stop)
            && sent == before.statements + StatementsOf(Pending(lines, i))[..n]
  }

  lemma GoesOn(lines: seq<string>, keeps: seq<string> -> bool, i: nat, sent: seq<string>, pending: string)
    requires i < |lines| && WentThrough(lines, keeps, i, sent, pending) && !IsExitCommand(Pending(lines, i))
    requires SendEnds(sent, StatementsOf(Pending(lines, i)), keeps, |StatementsOf(Pending(lines, i))|, NotStopped)
    ensures WentThrough(lines, keeps, i + 1, sent + StatementsOf(Pending(lines, i)), Tail(Run(START, Pending(lines, i))))
  {
    FedNext(lines, i);
    var taken := StatementsOf(Pending(lines, i));
    assert taken[..|taken|] == taken;
    hide Fed, StatementsOf, Tail, Run, IsExitCommand, Pending, Kept;
    NoExitConcat(sent, taken);
  }

  lemma NoExitConcat(a: seq<string>, b: seq<string>)
    requires NoExit(a) && NoExit(b)
    ensures NoExit(a + b)
  {
    hide IsExitCommand;
  }

  /** What a line that stops the client leads to. */
  lemma StopsThere(lines: seq<string>, keeps: seq<string> -> bool, i: nat, sent: seq<string>, pending: string, n: nat, stop: Stop)
    requires i < |lines| && WentThrough(lines, keeps, i, sent, pending)
    ensures pending + (lines[i] + "\n") == Pending(lines, i) && Kept(keeps, sent)
    ensures IsExitCommand(Pending(lines, i)) ==> StopsAt(lines, keeps, i, sent, ExitCommand)
    ensures !IsExitCommand(Pending(lines, i)) && stop != NotStopped && SendEnds(sent, StatementsOf(Pending(lines, i)), keeps, n, stop) ==>
      StopsAt(lines, keeps, i, sent + StatementsOf(Pending(lines, i))[..n], stop)
  {
    hide Fed, StatementsOf, Run, IsExitCommand, Kept, NoExit;
  }

  /** Reads one line and sends what it completes. */
  method ReadLine(lines: seq<string>, i: nat, sent: seq<string>, pending: string, keeps: seq<string> -> bool)
    returns (sent': seq<string>, pending': string, stop: Stop)
    requires i < |lines| && WentThrough(lines, keeps, i, sent, pending)
    ensures stop == NotStopped ==> WentThrough(lines, keeps, i + 1, sent', pending')
    ensures stop != NotStopped ==> StopsAt(lines, keeps, i, sent', stop)
  {
    hide *;
    pending' := pending + (lines[i] + "\n");
    StopsThere(lines, keeps, i, sent, pending, 0, NotStopped);
    if IsExitCommand(pending') { return sent, pending', ExitCommand; }
    var statements, rest := TakeCompleteStatements(pending');
    StatementsAre(pending');
    var n;
    n, stop := SendAll(sent, statements, keeps);
    AllOrSome(sent, statements, keeps, n, stop);
    sent', pending' := sent + statements[..n], rest;
    if stop == NotStopped { GoesOn(lines, keeps, i, sent, pending); } else { StopsThere(lines, keeps, i, sent, pending, n, stop); }
  }

  lemma AllOrSome(before: seq<string>, statements: seq<string>, keeps: seq<string> -> bool, n: nat, stop: Stop)
    requires SendEnds(before, statements, keeps, n, stop)
    ensures n <= |statements| && (stop == NotStopped ==> n == |statements| && statements[..n] == statements)
  {}

  /**
    Reads lines, sends every statement that becomes complete, and stops at the first exit
    command or when the connection is lost; line at is the one it stopped at, if it did.
   */
  method RunInteractive(lines: seq<string>, keeps: seq<string> -> bool)
    returns (sent: seq<string>, pending: string, stop: Stop, ghost at: nat)
    ensures stop == NotStopped ==> at == |lines| && WentThrough(lines, keeps, at, sent, pending)
    ensures stop != NotStopped ==> at < |lines| && StopsAt(lines, keeps, at, sent, stop)
    ensures SentSoFar(StatementsOf(AllLines(lines)), sent)
    ensures stop == NotStopped ==> |sent| == |StatementsOf(AllLines(lines))|
  {
    sent, pending, stop, at := [], "", NotStopped, 0;
    assert lines[..0] == [] && WentThrough(lines, keeps, 0, [], "");
    hide *;
    for i := 0 to |lines|
      invariant WentThrough(lines, keeps, i, sent, pending)
    {
      sent, pending, stop := ReadLine(lines, i, sent, pending, keeps);
      if stop != NotStopped {
        at := i;
        StoppedIsFed(lines, keeps, i, sent, stop);
        SentOfText(lines, i + 1, sent);
        return;
      }
    }
    stop, at := NotStopped, |lines|;
    ThroughIsFed(lines, keeps, sent, pending);
    SentOfText(lines, |lines|, sent);
  }

  lemma ThroughIsFed(lines: seq<string>, keeps: seq<string> -> bool, sent: seq<string>, pending: string)
    requires WentThrough(lines, keeps, |lines|, sent, pending)
    ensures sent == Fed(lines).statements == Fed(lines[..|lines|]).statements
  {
    assert lines[..|lines|] == lines;
  }

  lemma StoppedIsFed(lines: seq<string>, keeps: seq<string> -> bool, i: nat, sent: seq<string>, stop: Stop)
    requires i < |lines| && StopsAt(lines, keeps, i, sent, stop)
    ensures sent <= Fed(lines[..i + 1]).statements
  {
    FedNext(lines, i);
    hide Fed, StatementsOf, Tail, Run, IsExitCommand, Pending, Kept, NoExit;
  }

  /** The blanks really are dropped: a statement read on its own line loses every blank line before it. */
  lemma LeadingBlanksAreDropped(d: string, seg: Segment)
    requires Blank(d) && Alone(seg) && seg.isStatement
    ensures StatementsOf(d + seg.text) == [d + seg.text] && StatementsOf(seg.text) == [seg.text] && Tail(Run(START, d)) == ""
  {
    var whole := Segment(d + seg.text, true);
    BlankInFront(d, seg);
    OneStatement(whole);
    OneStatement(seg);
    hide Run, Statements;
  }

  lemma BlankInFront(d: string, seg: Segment)
    requires Blank(d) && Alone(seg)
    ensures Run(START, d + seg.text) == Scan(Code, false, [Segment(d + seg.text, seg.isStatement)], "")
  {
    hide Run;
    var start := Scan(Code, false, [], "");
    RunSplit(start, d, seg.text);
    RunShift(start, [], d, seg.text);
    assert d + "" == d;
    assert [seg][1..] == [] && Shifted(d, [seg]) == [Segment(d + seg.text, seg.isStatement)] + [];
  }
}
