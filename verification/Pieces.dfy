/**
  What a text of statements is made of: string literals, two kinds of comment, semicolons
  and single other characters.  This is the lexical structure by itself; how the client
  scans it is another matter.
 */
module Pieces {
  /** A piece that is not ended runs to the end of the text. */
  datatype Piece =
    | Quoted(body: string, ended: bool)
    | Dashed(body: string, ended: bool)
    | Starred(body: string, ended: bool)
    | Semicolon
    | Plain(c: char)

  function Spelled(p: Piece): string
  {
    match p
    case Quoted(body, ended) => "'" + body + (if ended then "'" else "")
    case Dashed(body, ended) => "--" + body + (if ended then "\n" else "")
    case Starred(body, ended) => "/*" + body + (if ended then "*/" else "")
    case Semicolon => ";"
    case Plain(c) => [c]
  }

  function Spell(ps: seq<Piece>): string
  {
    if ps == [] then "" else Spelled(ps[0]) + Spell(ps[1..])
  }

  predicate Begins(t: string, c: char)
  {
    t != "" && t[0] == c
  }

  /** Inside a literal a quote is written twice. */
  predicate QuotesDoubled(b: string)
  {
    || b == ""
    || (b[0] != '\'' && QuotesDoubled(b[1..]))
    || (|b| >= 2 && b[0] == '\'' && b[1] == '\'' && QuotesDoubled(b[2..]))
  }

  predicate NoBlockEnd(b: string)
  {
    forall i :: 0 < i < |b| && b[i] == '/' ==> b[i - 1] != '*'
  }

  predicate WellFormed(p: Piece)
  {
    match p
    case Quoted(body, _) => QuotesDoubled(body)
    case Dashed(body, _) => '\n' !in body
    case Starred(body, _) => NoBlockEnd(body)
    case Semicolon => true
    case Plain(c) => c != '\'' && c != ';'
  }

  /** Whether a piece is ended, and so leads back to code. */
  predicate Ended(p: Piece)
  {
    p.Semicolon? || p.Plain? || p.ended
  }

  /** The piece ends where it does, given what follows. */
  predicate Stands(p: Piece, rest: string)
  {
    && (!Ended(p) ==> rest == "")
    && (p.Quoted? ==> !Begins(rest, '\''))
    && (p == Plain('-') ==> !Begins(rest, '-'))
    && (p == Plain('/') ==> !Begins(rest, '*'))
  }

  predicate Lexed(ps: seq<Piece>, t: string)
  {
    t == Spell(ps) && forall i :: 0 <= i < |ps| ==> WellFormed(ps[i]) && Stands(ps[i], Spell(ps[i + 1..]))
  }

  // ---- every text is made of such pieces ----------------------------------------------

  lemma {:induction false} TakeLiteral(u: string) returns (body: string, ended: bool, rest: string)
    ensures u == body + (if ended then "'" else "") + rest
    ensures QuotesDoubled(body) && !Begins(rest, '\'') && (!ended ==> rest == "")
    decreases |u|
  {
    if u == "" {
      return "", false, "";
    } else if u[0] != '\'' {
      var more;
      more, ended, rest := TakeLiteral(u[1..]);
      body := u[..1] + more;
      assert body[1..] == more;
      assert u == u[..1] + u[1..];
    } else if |u| >= 2 && u[1] == '\'' {
      var more;
      more, ended, rest := TakeLiteral(u[2..]);
      body := u[..2] + more;
      assert body[2..] == more;
      assert u == u[..2] + u[2..];
    } else {
      return "", true, u[1..];
    }
  }

  lemma {:induction false} TakeLine(u: string) returns (body: string, ended: bool, rest: string)
    ensures u == body + (if ended then "\n" else "") + rest && '\n' !in body && (!ended ==> rest == "")
    decreases |u|
  {
    if u == "" {
      return "", false, "";
    } else if u[0] == '\n' {
      return "", true, u[1..];
    } else {
      var more;
      more, ended, rest := TakeLine(u[1..]);
      body := u[..1] + more;
      assert u == u[..1] + u[1..];
    }
  }

  lemma {:induction false} TakeBlock(u: string) returns (body: string, ended: bool, rest: string)
    ensures u == body + (if ended then "*/" else "") + rest && NoBlockEnd(body) && (!ended ==> rest == "")
    decreases |u|
  {
    if u == "" {
      return "", false, "";
    } else if |u| >= 2 && u[0] == '*' && u[1] == '/' {
      return "", true, u[2..];
    } else {
      var more;
      more, ended, rest := TakeBlock(u[1..]);
      body := u[..1] + more;
      assert u == u[..1] + u[1..];
      assert more != "" ==> u[1] == more[0];
      assert forall i :: 0 < i < |body| ==> body[i] == more[i - 1];
    }
  }

  /** The piece a text begins with. */
  lemma FirstPiece(t: string) returns (p: Piece, rest: string)
    requires t != ""
    ensures t == Spelled(p) + rest && WellFormed(p) && Stands(p, rest)
  {
    var body, ended;
    if t[0] == '\'' {
      body, ended, rest := TakeLiteral(t[1..]);
      p := Quoted(body, ended);
    } else if |t| >= 2 && t[0] == '-' && t[1] == '-' {
      body, ended, rest := TakeLine(t[2..]);
      p := Dashed(body, ended);
    } else if |t| >= 2 && t[0] == '/' && t[1] == '*' {
      body, ended, rest := TakeBlock(t[2..]);
      p := Starred(body, ended);
    } else {
      p, rest := if t[0] == ';' then Semicolon else Plain(t[0]), t[1..];
    }
  }

  lemma {:induction false} LexExists(t: string) returns (ps: seq<Piece>)
    ensures Lexed(ps, t)
    decreases |t|
  {
    if t == "" {
      return [];
    } else {
      var p, rest := FirstPiece(t);
      var more := LexExists(rest);
      ps := [p] + more;
      assert ps[1..] == more;
      forall i | 0 <= i < |ps|
        ensures WellFormed(ps[i]) && Stands(ps[i], Spell(ps[i + 1..]))
      {
        if i > 0 { assert ps[i] == more[i - 1] && ps[i + 1..] == more[i..]; }
      }
    }
  }

  lemma {:induction false} NoQuotes(b: string)
    requires '\'' !in b
    ensures QuotesDoubled(b)
  {
    if b != "" { NoQuotes(b[1..]); }
  }

  // ---- where a text is cut ---------------------------------------------------------------

  predicate IsSpace(c: char)
  {
    c == ' ' || c == '\t' || c == '\n' || c == '\r' || c as int == 11 || c as int == 12
  }

  /** A literal, or a character that is not blank, makes the text around it a statement. */
  predicate IsSql(p: Piece)
  {
    p.Quoted? || (p.Plain? && !IsSpace(p.c))
  }

  ghost predicate HasSql(ps: seq<Piece>)
  {
    exists i :: 0 <= i < |ps| && IsSql(ps[i])
  }

  datatype Segment = Segment(text: string, isStatement: bool)

  /** The piece the j-th segment begins with, given the semicolons. */
  function From(at: seq<nat>, j: nat): nat
    requires j <= |at|
  {
    if j == 0 then 0 else at[j - 1] + 1
  }

  /** The semicolons among the pieces, all of them and in order. */
  ghost predicate Semicolons(ps: seq<Piece>, at: seq<nat>)
  {
    && (forall j :: 0 <= j < |at| ==> at[j] < |ps| && ps[at[j]].Semicolon?)
    && (forall i, j :: 0 <= i < j < |at| ==> at[i] < at[j])
    && (forall k :: 0 <= k < |ps| && ps[k].Semicolon? ==> k in at)
  }

  /** A segment is the text of its pieces, and a statement if there is SQL among them. */
  ghost predicate IsSegment(ps: seq<Piece>, seg: Segment)
  {
    seg.text == Spell(ps) && (seg.isStatement <==> HasSql(ps))
  }

  /** The pieces of the j-th segment: from behind the semicolon before it up to its own. */
  ghost function Group(ps: seq<Piece>, at: seq<nat>, j: nat): seq<Piece>
    requires j < |at| && From(at, j) <= at[j] < |ps|
  {
    ps[From(at, j)..at[j] + 1]
  }

  ghost predicate SegmentAt(ps: seq<Piece>, at: seq<nat>, segs: seq<Segment>, j: nat)
    requires j < |segs| == |at|
  {
    From(at, j) <= at[j] < |ps| && IsSegment(Group(ps, at, j), segs[j])
  }

  /** The text is cut at its semicolons and nowhere else; open is what follows the last of them. */
  ghost predicate SplitsAt(ps: seq<Piece>, at: seq<nat>, segs: seq<Segment>, open: string, sql: bool)
  {
    && Semicolons(ps, at) && |segs| == |at| && From(at, |at|) <= |ps|
    && (forall j :: 0 <= j < |at| ==> SegmentAt(ps, at, segs, j))
    && IsSegment(ps[From(at, |at|)..], Segment(open, sql))
  }

  /** The texts of the statements among the segments, in order. */
  ghost predicate Picked(segs: seq<Segment>, statements: seq<string>, picks: seq<nat>)
  {
    && |picks| == |statements| && (forall i, j :: 0 <= i < j < |picks| ==> picks[i] < picks[j])
    && (forall i :: 0 <= i < |picks| ==>
          picks[i] < |segs| && segs[picks[i]].isStatement && statements[i] == segs[picks[i]].text)
    && (forall k :: 0 <= k < |segs| && segs[k].isStatement ==> k in picks)
  }

  /** The text ends inside a block comment. */
  predicate EndsInBlock(ps: seq<Piece>)
  {
    ps != [] && ps[|ps| - 1].Starred? && !ps[|ps| - 1].ended
  }

  /** What is to be done with a text: its statements are taken, and the rest is kept if there may be one in it. */
  ghost predicate CutsInto(t: string, statements: seq<string>, rest: string)
  {
    exists ps, at, segs, open, sql, picks ::
      && Lexed(ps, t) && SplitsAt(ps, at, segs, open, sql) && Picked(segs, statements, picks)
      && rest == if sql || EndsInBlock(ps) then open else ""
  }

  // ---- one more piece ------------------------------------------------------------------------

  lemma {:induction false} SpellSnoc(ps: seq<Piece>, p: Piece)
    ensures Spell(ps + [p]) == Spell(ps) + Spelled(p)
  {
    hide Spelled;
    if ps == [] {
      assert ps + [p] == [p] && [p][1..] == [];
    } else {
      assert (ps + [p])[1..] == ps[1..] + [p];
      SpellSnoc(ps[1..], p);
    }
  }

  lemma HasSqlSnoc(ps: seq<Piece>, p: Piece)
    ensures HasSql(ps + [p]) <==> HasSql(ps) || IsSql(p)
  {
    var all := ps + [p];
    if i :| 0 <= i < |ps| && IsSql(ps[i]) { assert IsSql(all[i]); }
    if IsSql(p) { assert IsSql(all[|ps|]); }
  }

  lemma SegmentSnoc(ps: seq<Piece>, p: Piece, seg: Segment)
    requires IsSegment(ps, seg)
    ensures IsSegment(ps + [p], Segment(seg.text + Spelled(p), seg.isStatement || IsSql(p)))
  {
    hide Spelled;
    SpellSnoc(ps, p);
    HasSqlSnoc(ps, p);
  }

  lemma SemicolonsMore(ps: seq<Piece>, p: Piece, at: seq<nat>)
    requires Semicolons(ps, at)
    ensures !p.Semicolon? ==> Semicolons(ps + [p], at)
    ensures p.Semicolon? ==> Semicolons(ps + [p], at + [|ps|])
  {}

  /** What an added piece leaves as it was. */
  lemma SegmentStays(ps: seq<Piece>, p: Piece, at: seq<nat>, segs: seq<Segment>, at': seq<nat>, segs': seq<Segment>, j: nat)
    requires j < |segs| == |at| && SegmentAt(ps, at, segs, j) && at <= at' && segs <= segs' && |segs'| == |at'|
    ensures SegmentAt(ps + [p], at', segs', j)
  {
    hide IsSegment;
    assert Group(ps + [p], at', j) == Group(ps, at, j);
  }

  lemma SplitMore(ps: seq<Piece>, p: Piece, at: seq<nat>, segs: seq<Segment>, open: string, sql: bool)
    requires SplitsAt(ps, at, segs, open, sql) && !p.Semicolon?
    ensures SplitsAt(ps + [p], at, segs, open + Spelled(p), sql || IsSql(p))
  {
    var all, n := ps + [p], From(at, |at|);
    SemicolonsMore(ps, p, at);
    assert all[n..] == ps[n..] + [p];
    hide IsSegment, SegmentAt, Semicolons, From, IsSql, Spelled;
    SegmentSnoc(ps[n..], p, Segment(open, sql));
    forall j | 0 <= j < |at| ensures SegmentAt(all, at, segs, j) { SegmentStays(ps, p, at, segs, at, segs, j); }
  }

  /** The segment a semicolon closes, and the empty one behind it. */
  lemma LastSegment(ps: seq<Piece>, at: seq<nat>, segs: seq<Segment>, seg: Segment)
    requires |segs| == |at| && From(at, |at|) <= |ps| && IsSegment(ps[From(at, |at|)..], seg)
    ensures var all, at', segs' := ps + [Semicolon], at + [|ps|], segs + [Segment(seg.text + ";", seg.isStatement)];
      && SegmentAt(all, at', segs', |at|) && From(at', |at'|) == |all| && all[|all|..] == []
      && IsSegment([], Segment("", false))
  {
    var all, at', n := ps + [Semicolon], at + [|ps|], From(at, |at|);
    SegmentSnoc(ps[n..], Semicolon, seg);
    assert Group(all, at', |at|) == ps[n..] + [Semicolon];
  }

  lemma SplitClosed(ps: seq<Piece>, at: seq<nat>, segs: seq<Segment>, open: string, sql: bool)
    requires SplitsAt(ps, at, segs, open, sql)
    ensures SplitsAt(ps + [Semicolon], at + [|ps|], segs + [Segment(open + ";", sql)], "", false)
  {
    hide IsSegment, SegmentAt, Semicolons, From;
    var all, at', segs' := ps + [Semicolon], at + [|ps|], segs + [Segment(open + ";", sql)];
    SemicolonsMore(ps, Semicolon, at);
    LastSegment(ps, at, segs, Segment(open, sql));
    forall j | 0 <= j < |at'| ensures SegmentAt(all, at', segs', j) {
      if j < |at| { SegmentStays(ps, Semicolon, at, segs, at', segs', j); }
    }
  }
}
