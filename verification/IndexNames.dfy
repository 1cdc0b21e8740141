/**
  Index names: table and columns joined with underscores.  The name is the index file and
  the key of its open tree, so what matters is when two of them are equal.
 */
module IndexNames {
  /** make_index_name: the table and its columns joined with underscores. */
  method MakeIndexName(table: string, columns: seq<string>) returns (name: string)
    ensures name == IndexName(table, columns)
  {
    name := table;
    for i := 0 to |columns|
      invariant name == table + Suffix(columns[..i])
    {
      assert columns[..i + 1][..i] == columns[..i];
      name := name + "_" + columns[i];
    }
    assert columns[..|columns|] == columns;
    name := name + ".idx";
  }

  function Suffix(columns: seq<string>): string
  {
    if columns == [] then "" else Suffix(columns[..|columns| - 1]) + "_" + columns[|columns| - 1]
  }

  function IndexName(table: string, columns: seq<string>): string
  {
    table + Suffix(columns) + ".idx"
  }

  /** A name cut at its underscores. */
  function Split(s: string): (ps: seq<string>)
    ensures ps != []
  {
    if s == "" then [""] else Extended(Split(s[..|s| - 1]), s[|s| - 1])
  }

  /** The pieces when one more character follows. */
  function Extended(ps: seq<string>, c: char): (r: seq<string>)
    requires ps != []
    ensures r != []
  {
    if c == '_' then ps + [""] else ps[..|ps| - 1] + [ps[|ps| - 1] + [c]]
  }

  lemma ExtendedBehind(a: seq<string>, b: seq<string>, c: char)
    requires b != []
    ensures Extended(a + b, c) == a + Extended(b, c)
  {
    assert (a + b)[..|a + b| - 1] == a + b[..|b| - 1];
  }

  lemma GlueExtended(ps: seq<string>, c: char)
    requires ps != []
    ensures Glue(Extended(ps, c)) == Glue(ps) + [c]
  {
    var n := |ps| - 1;
    if c == '_' {
      assert (ps + [""])[..|ps|] == ps;
      assert Glue(ps) + "_" + "" == Glue(ps) + [c];
    } else {
      var last := ps[n] + [c];
      var more := ps[..n] + [last];
      assert more[..n] == ps[..n] && more[n] == last;
      if n > 0 { assert Glue(ps[..n]) + "_" + (ps[n] + [c]) == Glue(ps[..n]) + "_" + ps[n] + [c]; }
    }
  }

  /** The pieces of a list of names, in order. */
  function Pieces(names: seq<string>): seq<string>
  {
    if names == [] then [] else Pieces(names[..|names| - 1]) + Split(names[|names| - 1])
  }

  /** Names joined with underscores. */
  function Glue(names: seq<string>): string
    requires names != []
  {
    if |names| == 1 then names[0] else Glue(names[..|names| - 1]) + "_" + names[|names| - 1]
  }

  lemma {:induction false} GlueIsSuffix(table: string, columns: seq<string>)
    ensures table + Suffix(columns) == Glue([table] + columns)
  {
    var all := [table] + columns;
    if columns != [] {
      var n := |columns| - 1;
      assert all[..|all| - 1] == [table] + columns[..n];
      GlueIsSuffix(table, columns[..n]);
    }
  }

  lemma {:induction false} GlueSplit(s: string)
    ensures Glue(Split(s)) == s
  {
    if s != "" {
      var n := |s| - 1;
      hide Extended, Glue;
      GlueSplit(s[..n]);
      GlueExtended(Split(s[..n]), s[n]);
      assert s == s[..n] + [s[n]];
    } else {
      assert Glue([""]) == "";
    }
  }

  /** Cutting undoes joining. */
  lemma {:induction false} SplitJoined(x: string, y: string)
    ensures Split(x + "_" + y) == Split(x) + Split(y)
  {
    if y == "" {
      assert x + "_" + y == x + ['_'];
      SplitSnoc(x, '_');
    } else {
      hide *;
      var front, c := y[..|y| - 1], y[|y| - 1];
      SplitJoined(x, front);
      ExtendedBehind(Split(x), Split(front), c);
      SplitSnoc(x + "_" + front, c);
      SplitSnoc(front, c);
      LastLater(x, y);
    }
  }

  lemma LastLater(x: string, y: string)
    requires y != ""
    ensures y == y[..|y| - 1] + [y[|y| - 1]] && x + "_" + y == x + "_" + y[..|y| - 1] + [y[|y| - 1]]
  {}

  lemma SplitSnoc(s: string, c: char)
    ensures Split(s + [c]) == Extended(Split(s), c)
  {
    assert (s + [c])[..|s|] == s;
  }

  lemma {:induction false} SplitGlue(names: seq<string>)
    requires names != []
    ensures Split(Glue(names)) == Pieces(names)
  {
    var n := |names| - 1;
    if n == 0 {
      assert names[..0] == [];
    } else {
      SplitGlue(names[..n]);
      SplitJoined(Glue(names[..n]), names[n]);
    }
  }

  /** Two indexes have one name exactly if table and columns, cut at their underscores, give the same pieces. */
  lemma NamesEqual(table: string, a: seq<string>, other: string, b: seq<string>)
    ensures IndexName(table, a) == IndexName(other, b) <==> Pieces([table] + a) == Pieces([other] + b)
  {
    var x, y := [table] + a, [other] + b;
    GlueIsSuffix(table, a);
    GlueIsSuffix(other, b);
    SplitGlue(x);
    SplitGlue(y);
    GlueSplit(Glue(x));
    GlueSplit(Glue(y));
    SameEnding(Glue(x), Glue(y), ".idx");
  }

  lemma SameEnding(x: string, y: string, e: string)
    ensures x + e == y + e <==> x == y
  {
    if x + e == y + e { assert x == (x + e)[..|x|] && y == (y + e)[..|y|]; }
  }

  lemma {:induction false} PiecesCons(name: string, names: seq<string>)
    ensures Pieces([name] + names) == Split(name) + Pieces(names)
  {
    var all := [name] + names;
    hide Split;
    if names == [] {
      assert all[..0] == [] && Pieces([]) == [];
    } else {
      var n := |names| - 1;
      assert all[..|all| - 1] == [name] + names[..n];
      PiecesCons(name, names[..n]);
      assert Split(name) + Pieces(names[..n]) + Split(names[n]) == Split(name) + (Pieces(names[..n]) + Split(names[n]));
    }
  }

  /** Within one table it depends on the columns alone. */
  lemma NamesOfTable(table: string, a: seq<string>, b: seq<string>)
    ensures IndexName(table, a) == IndexName(table, b) <==> Pieces(a) == Pieces(b)
  {
    NamesEqual(table, a, table, b);
    PiecesCons(table, a);
    PiecesCons(table, b);
    var t := Split(table);
    assert (t + Pieces(a))[|t|..] == Pieces(a) && (t + Pieces(b))[|t|..] == Pieces(b);
  }

  predicate NoUnderscore(s: string)
  {
    '_' !in s
  }

  lemma {:induction false} SplitWhole(s: string)
    requires NoUnderscore(s)
    ensures Split(s) == [s]
  {
    if s != "" {
      SplitWhole(s[..|s| - 1]);
      assert s == s[..|s| - 1] + [s[|s| - 1]];
    }
  }

  lemma {:induction false} PiecesWhole(names: seq<string>)
    requires forall c :: c in names ==> NoUnderscore(c)
    ensures Pieces(names) == names
  {
    if names != [] {
      var n := |names| - 1;
      assert names[n] in names && names == names[..n] + [names[n]];
      PiecesWhole(names[..n]);
      SplitWhole(names[n]);
    }
  }

  /** Without underscores in column names the columns of a table can be read back from the name. */
  lemma NamesDiffer(table: string, a: seq<string>, b: seq<string>)
    requires forall c :: c in a || c in b ==> NoUnderscore(c)
    ensures IndexName(table, a) == IndexName(table, b) <==> a == b
  {
    NamesOfTable(table, a, b);
    PiecesWhole(a);
    PiecesWhole(b);
  }

  /**
    Two indexes of one table can get the same name, and then the same open tree; and so can
    indexes of two tables, without an underscore in any column name.
   */
  lemma NamesCollide()
    ensures IndexName("t", ["a_b"]) == IndexName("t", ["a", "b"])
    ensures IndexName("a_b", ["c"]) == IndexName("a", ["b", "c"])
  {
    SuffixOfTwo("a", "b");
    SuffixOfTwo("b", "c");
    SuffixOfOne("a_b");
    SuffixOfOne("c");
  }

  lemma SuffixOfOne(c: string)
    ensures Suffix([c]) == "_" + c
  {
    assert [c][..0] == [];
  }

  lemma SuffixOfTwo(c: string, d: string)
    ensures Suffix([c, d]) == "_" + c + "_" + d
  {
    assert [c, d][..1] == [c];
    SuffixOfOne(c);
  }
}
