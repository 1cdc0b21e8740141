/**
  The catalog: what is written of it, what reading makes of a document, and how a new
  table gets into it.

  A document is a JSON value; its text form is not part of the model.
 */
module Catalog {
  import opened Basics
  import opened IndexKeys

  datatype Json =
    | JNull
    | JBool(b: bool)
    | JInt(n: int)
    | JFloat
    | JString(s: string)
    | JArray(items: seq<Json>)
    | JObject(fields: seq<(string, Json)>)

  datatype IndexMeta = IndexMeta(tab: string, totalLen: int, count: int, unique: bool, cols: seq<ColMeta>)
  datatype TabMeta = TabMeta(name: string, cols: seq<ColMeta>, indexes: seq<IndexMeta>)
  datatype DbMeta = DbMeta(name: string, tabs: map<string, TabMeta>)

  // ---- well-formed catalogs ------------------------------------------------------------

  predicate LengthOk(t: ColType, len: int)
  {
    ValidColumn(Column(t, len))
  }

  function TotalLen(cols: seq<ColMeta>): int
  {
    if cols == [] then 0 else TotalLen(cols[..|cols| - 1]) + cols[|cols| - 1].len
  }

  function Names(cols: seq<ColMeta>): (ns: seq<string>)
    ensures |ns| == |cols| && forall i :: 0 <= i < |cols| ==> ns[i] == cols[i].name
  {
    seq(|cols|, i requires 0 <= i < |cols| => cols[i].name)
  }

  /** The columns of a table, one after the other, within the record size. */
  predicate LaidOut(cols: seq<ColMeta>, tab: string)
  {
    && (forall i :: 0 <= i < |cols| ==> ColumnAt(cols, tab, i))
    && Distinct(Names(cols)) && TotalLen(cols) <= MAX_RECORD_SIZE
  }

  predicate ColumnAt(cols: seq<ColMeta>, tab: string, i: nat)
    requires i < |cols|
  {
    var c := cols[i];
    c.tab == tab && c.name != "" && LengthOk(c.ctype, c.len) && c.offset == TotalLen(cols[..i])
  }

  predicate HasCol(cols: seq<ColMeta>, name: string)
  {
    name in Names(cols)
  }

  /** The first column of the name. */
  function Find(cols: seq<ColMeta>, name: string): (i: nat)
    requires HasCol(cols, name)
    ensures i < |cols| && cols[i].name == name && forall j :: 0 <= j < i ==> cols[j].name != name
  {
    if cols[0].name == name then 0
    else
      assert Names(cols)[1..] == Names(cols[1..]);
      1 + Find(cols[1..], name)
  }

  /** The columns an index is built from, each marked as indexed. */
  function Picked(cols: seq<ColMeta>, names: seq<string>): (r: seq<ColMeta>)
    requires forall i :: 0 <= i < |names| ==> HasCol(cols, names[i])
    ensures |r| == |names| && forall i :: 0 <= i < |names| ==> r[i] == cols[Find(cols, names[i])].(index := true)
  {
    seq(|names|, i requires 0 <= i < |names| => cols[Find(cols, names[i])].(index := true))
  }

  predicate NamesOk(cols: seq<ColMeta>, names: seq<string>)
  {
    names != [] && Distinct(names) && forall i :: 0 <= i < |names| ==> names[i] != "" && HasCol(cols, names[i])
  }

  function MakeIndex(tab: string, cols: seq<ColMeta>, names: seq<string>, unique: bool): IndexMeta
    requires NamesOk(cols, names)
  {
    IndexMeta(tab, TotalLen(Picked(cols, names)), |names|, unique, Picked(cols, names))
  }

  /** The index is made of columns of the table, with its derived fields right. */
  predicate IndexOk(ix: IndexMeta, tab: string, cols: seq<ColMeta>)
  {
    NamesOk(cols, Names(ix.cols)) && ix == MakeIndex(tab, cols, Names(ix.cols), ix.unique)
  }

  predicate Covers(ixs: seq<IndexMeta>, name: string)
  {
    exists i :: 0 <= i < |ixs| && name in Names(ixs[i].cols)
  }

  /** No other index has the same columns in the same order. */
  predicate NewIndex(ixs: seq<IndexMeta>, names: seq<string>)
  {
    forall i :: 0 <= i < |ixs| ==> Names(ixs[i].cols) != names
  }

  /** A table as it must be: layout, indexes and the index marks of its columns. */
  predicate TableOk(t: TabMeta)
  {
    && t.name != "" && t.cols != [] && LaidOut(t.cols, t.name)
    && (forall i :: 0 <= i < |t.indexes| ==> IndexOk(t.indexes[i], t.name, t.cols))
    && (forall i :: 0 <= i < |t.indexes| ==> NewIndex(t.indexes[..i], Names(t.indexes[i].cols)))
    && (forall i :: 0 <= i < |t.cols| ==> (t.cols[i].index <==> Covers(t.indexes, t.cols[i].name)))
  }

  predicate CatalogOk(db: DbMeta)
  {
    db.name != "" && forall n :: n in db.tabs ==> db.tabs[n].name == n && TableOk(db.tabs[n])
  }

  // ---- writing ------------------------------------------------------------------------------

  function TypeName(t: ColType): string
  {
    match t
    case TInt => "INT"
    case TFloat => "FLOAT"
    case TString => "STRING"
  }

  function WriteColumn(c: ColMeta): Json
  {
    JObject([("name", JString(c.name)), ("type", JString(TypeName(c.ctype))), ("length", JInt(c.len))])
  }

  function WriteColumns(cs: seq<ColMeta>): (r: seq<Json>)
    ensures |r| == |cs| && forall i :: 0 <= i < |cs| ==> r[i] == WriteColumn(cs[i])
  {
    seq(|cs|, i requires 0 <= i < |cs| => WriteColumn(cs[i]))
  }

  function WriteNames(ns: seq<string>): (r: seq<Json>)
    ensures |r| == |ns| && forall i :: 0 <= i < |ns| ==> r[i] == JString(ns[i])
  {
    seq(|ns|, i requires 0 <= i < |ns| => JString(ns[i]))
  }

  function WriteIndex(ix: IndexMeta): Json
  {
    JObject([("columns", JArray(WriteNames(Names(ix.cols)))), ("unique", JBool(ix.unique))])
  }

  function WriteIndexes(ixs: seq<IndexMeta>): (r: seq<Json>)
    ensures |r| == |ixs| && forall i :: 0 <= i < |ixs| ==> r[i] == WriteIndex(ixs[i])
  {
    seq(|ixs|, i requires 0 <= i < |ixs| => WriteIndex(ixs[i]))
  }

  function WriteTable(t: TabMeta): Json
  {
    JObject([("name", JString(t.name)), ("columns", JArray(WriteColumns(t.cols))), ("indexes", JArray(WriteIndexes(t.indexes)))])
  }

  /** The tables of a catalog in some order, each once. */
  predicate Lists(order: seq<string>, db: DbMeta)
  {
    Distinct(order) && (forall i :: 0 <= i < |order| ==> order[i] in db.tabs) && forall n :: n in db.tabs ==> n in order
  }

  function WriteTables(order: seq<string>, db: DbMeta): (r: seq<Json>)
    requires forall i :: 0 <= i < |order| ==> order[i] in db.tabs
    ensures |r| == |order| && forall i :: 0 <= i < |order| ==> r[i] == WriteTable(db.tabs[order[i]])
  {
    seq(|order|, i requires 0 <= i < |order| => WriteTable(db.tabs[order[i]]))
  }

  function WriteCatalog(order: seq<string>, db: DbMeta): Json
    requires Lists(order, db)
  {
    JObject([("database", JString(db.name)), ("tables", JArray(WriteTables(order, db)))])
  }

  // ---- reading fields -------------------------------------------------------------------------

  function Lookup(fields: seq<(string, Json)>, key: string): Option<Json>
  {
    if fields == [] then None else if fields[0].0 == key then Some(fields[0].1) else Lookup(fields[1..], key)
  }

  function Field(v: Json, key: string): Option<Json>
  {
    if v.JObject? then Lookup(v.fields, key) else None
  }

  function StringField(v: Json, key: string): Option<string>
  {
    var f := Field(v, key);
    if f.Some? && f.value.JString? then Some(f.value.s) else None
  }

  function ArrayField(v: Json, key: string): Option<seq<Json>>
  {
    var f := Field(v, key);
    if f.Some? && f.value.JArray? then Some(f.value.items) else None
  }

  /** A wider number is cut to 32 bits. */
  function ToInt(n: int): int
  {
    var w := n % 0x1_0000_0000;
    if w >= 0x8000_0000 then w - 0x1_0000_0000 else w
  }

  function IntField(v: Json, key: string): Option<int>
  {
    var f := Field(v, key);
    if f.Some? && f.value.JInt? then Some(ToInt(f.value.n)) else None
  }

  function ReadType(s: string): Option<ColType>
  {
    if s == "INT" then Some(TInt) else if s == "FLOAT" then Some(TFloat) else if s == "STRING" then Some(TString) else None
  }

  /** A type is stored under its own name. */
  lemma TypesByName(s: string, t: ColType)
    ensures ReadType(s) == Some(t) <==> s == TypeName(t)
    ensures TypeName(t) == "INT" <==> t == TInt
    ensures TypeName(t) == "FLOAT" <==> t == TFloat
    ensures TypeName(t) == "STRING" <==> t == TString
  {}

  /** Cutting keeps the low 32 bits, read with a sign. */
  lemma CutTo32(n: int)
    ensures -0x8000_0000 <= ToInt(n) < 0x8000_0000 && (n - ToInt(n)) % 0x1_0000_0000 == 0
    ensures -0x8000_0000 <= n < 0x8000_0000 ==> ToInt(n) == n
  {}

  function ReadColumn(v: Json, tab: string, offset: int): (r: Option<ColMeta>)
    ensures r.Some? ==>
      && r.value.tab == tab && r.value.name != "" && LengthOk(r.value.ctype, r.value.len)
      && r.value.offset == offset && !r.value.index
  {
    var name, tname, len := StringField(v, "name"), StringField(v, "type"), IntField(v, "length");
    if name.None? || tname.None? || len.None? then None
    else
      var t := ReadType(tname.value);
      if t.None? || name.value == "" || !LengthOk(t.value, len.value) then None
      else Some(ColMeta(tab, name.value, t.value, len.value, offset, false))
  }

  /** Writing and reading a column gives it back, with its place and owner made anew. */
  lemma ColumnRoundTrip(c: ColMeta, tab: string, offset: int)
    requires c.name != "" && LengthOk(c.ctype, c.len) && c.len <= MAX_RECORD_SIZE
    ensures ReadColumn(WriteColumn(c), tab, offset) == Some(ColMeta(tab, c.name, c.ctype, c.len, offset, false))
  {
    var v := WriteColumn(c);
    var f := v.fields;
    assert f[1..][0] == ("type", JString(TypeName(c.ctype))) && f[1..][1..][0] == ("length", JInt(c.len));
    assert Lookup(f, "name") == Some(JString(c.name));
    assert Lookup(f, "type") == Lookup(f[1..], "type") == Some(JString(TypeName(c.ctype)));
    assert Lookup(f, "length") == Lookup(f[1..], "length") == Lookup(f[1..][1..], "length") == Some(JInt(c.len));
  }

  // ---- marking indexed columns -------------------------------------------------------------

  function Marked(cols: seq<ColMeta>, names: seq<string>): (r: seq<ColMeta>)
    ensures |r| == |cols| && forall i :: 0 <= i < |cols| ==> r[i] == cols[i].(index := cols[i].index || cols[i].name in names)
  {
    seq(|cols|, i requires 0 <= i < |cols| => cols[i].(index := cols[i].index || cols[i].name in names))
  }

  /** Both lists hold the same columns up to their marks. */
  predicate SameColumns(a: seq<ColMeta>, b: seq<ColMeta>)
  {
    |a| == |b| && forall i :: 0 <= i < |a| ==> a[i].(index := false) == b[i].(index := false)
  }

  lemma {:induction false} SameTotal(a: seq<ColMeta>, b: seq<ColMeta>)
    requires SameColumns(a, b)
    ensures TotalLen(a) == TotalLen(b)
  {
    if a != [] {
      var n := |a| - 1;
      assert a[n].(index := false) == b[n].(index := false);
      SameTotal(a[..n], b[..n]);
    }
  }

  lemma SameFind(a: seq<ColMeta>, b: seq<ColMeta>, name: string)
    requires SameColumns(a, b) && HasCol(a, name)
    ensures HasCol(b, name) && Find(a, name) == Find(b, name)
  {
    var i := Find(a, name);
    assert forall j :: 0 <= j < |a| ==> a[j].(index := false) == b[j].(index := false);
    assert Names(b)[i] == name;
  }

  lemma SameLayout(a: seq<ColMeta>, b: seq<ColMeta>, tab: string)
    requires SameColumns(a, b) && LaidOut(a, tab)
    ensures LaidOut(b, tab)
  {
    forall i | 0 <= i < |b| ensures ColumnAt(b, tab, i) {
      assert ColumnAt(a, tab, i) && a[i].(index := false) == b[i].(index := false);
      SameTotal(a[..i], b[..i]);
    }
    SameTotal(a, b);
    assert forall i :: 0 <= i < |a| ==> a[i].(index := false) == b[i].(index := false);
    assert Names(a) == Names(b);
  }

  /** Index definitions do not depend on the marks. */
  lemma SameIndex(a: seq<ColMeta>, b: seq<ColMeta>, names: seq<string>, tab: string, unique: bool)
    requires SameColumns(a, b) && NamesOk(a, names)
    ensures NamesOk(b, names) && MakeIndex(tab, a, names, unique) == MakeIndex(tab, b, names, unique)
  {
    forall i | 0 <= i < |names| ensures HasCol(b, names[i]) && Find(a, names[i]) == Find(b, names[i]) {
      SameFind(a, b, names[i]);
    }
    assert Picked(a, names) == Picked(b, names) by {
      forall i | 0 <= i < |names| ensures Picked(a, names)[i] == Picked(b, names)[i] {
        var k := Find(a, names[i]);
        assert a[k].(index := false) == b[k].(index := false);
      }
    }
  }

  lemma MarkedIsSame(cols: seq<ColMeta>, names: seq<string>)
    ensures SameColumns(cols, Marked(cols, names))
  {}

  lemma PickedNames(cols: seq<ColMeta>, names: seq<string>)
    requires NamesOk(cols, names)
    ensures Names(Picked(cols, names)) == names
  {}

  /** A table with one more index is again as it must be. */
  lemma AddIndex(t: TabMeta, names: seq<string>, unique: bool)
    requires TableOk(t) && NamesOk(t.cols, names) && NewIndex(t.indexes, names)
    ensures TableOk(TabMeta(t.name, Marked(t.cols, names), t.indexes + [MakeIndex(t.name, t.cols, names, unique)]))
  {
    var cols, ix := Marked(t.cols, names), MakeIndex(t.name, t.cols, names, unique);
    var ixs := t.indexes + [ix];
    PickedNames(t.cols, names);
    MarkedIsSame(t.cols, names);
    SameLayout(t.cols, cols, t.name);
    forall i | 0 <= i < |ixs| ensures IndexOk(ixs[i], t.name, cols) && NewIndex(ixs[..i], Names(ixs[i].cols)) {
      if i < |t.indexes| {
        assert ixs[i] == t.indexes[i] && ixs[..i] == t.indexes[..i];
        assert IndexOk(t.indexes[i], t.name, t.cols);
        SameIndex(t.cols, cols, Names(ixs[i].cols), t.name, ixs[i].unique);
      } else {
        assert ixs[..i] == t.indexes;
        SameIndex(t.cols, cols, names, t.name, unique);
      }
    }
    CoversMore(t.indexes, ix);
  }

  lemma CoversMore(ixs: seq<IndexMeta>, ix: IndexMeta)
    ensures forall n :: Covers(ixs + [ix], n) <==> Covers(ixs, n) || n in Names(ix.cols)
  {
    var all := ixs + [ix];
    forall n ensures Covers(all, n) <==> Covers(ixs, n) || n in Names(ix.cols) {
      if n in Names(ix.cols) { assert all[|ixs|] == ix; }
      if Covers(ixs, n) {
        var i :| 0 <= i < |ixs| && n in Names(ixs[i].cols);
        assert all[i] == ixs[i];
      }
    }
  }

  // ---- reading an index ----------------------------------------------------------------------

  predicate GoodNames(names: seq<string>)
  {
    Distinct(names) && forall i :: 0 <= i < |names| ==> names[i] != ""
  }

  lemma WriteNamesInjective(a: seq<string>, b: seq<string>)
    requires WriteNames(a) == WriteNames(b)
    ensures a == b
  {
    assert |WriteNames(a)| == |WriteNames(b)|;
    forall i | 0 <= i < |a| ensures a[i] == b[i] {
      assert WriteNames(a)[i] == WriteNames(b)[i];
    }
  }

  method ReadNames(items: seq<Json>) returns (r: Option<seq<string>>)
    ensures r.Some? ==> GoodNames(r.value) && items == WriteNames(r.value)
    ensures forall ns :: items == WriteNames(ns) && GoodNames(ns) ==> r == Some(ns)
  {
    var names: seq<string> := [];
    for i := 0 to |items|
      invariant GoodNames(names) && items[..i] == WriteNames(names)
    {
      forall ns | items == WriteNames(ns) && GoodNames(ns)
        ensures items[i].JString? && items[i].s != "" && items[i].s !in names
      {
        assert items[i] == JString(ns[i]) && |names| == i;
        forall j | 0 <= j < i ensures names[j] == ns[j] { assert items[..i][j] == WriteNames(names)[j]; }
      }
      if !items[i].JString? { return None; }
      if items[i].s == "" || items[i].s in names { return None; }
      names := names + [items[i].s];
    }
    forall ns | items == WriteNames(ns) && GoodNames(ns) ensures names == ns {
      assert items[..|items|] == items;
      WriteNamesInjective(names, ns);
    }
    return Some(names);
  }

  /** Marks the named columns and copies them, one name after the other; None at an unknown name. */
  method PickColumns(cols: seq<ColMeta>, tab: string, names: seq<string>) returns (r: Option<(seq<ColMeta>, seq<ColMeta>)>)
    requires LaidOut(cols, tab)
    ensures r.Some? <==> forall i :: 0 <= i < |names| ==> HasCol(cols, names[i])
    ensures r.Some? ==> r.value == (Picked(cols, names), Marked(cols, names))
  {
    var now, picked := cols, [];
    assert Marked(cols, names[..0]) == cols && Picked(cols, names[..0]) == [];
    hide Marked, Picked, Find, LaidOut;
    for k := 0 to |names|
      invariant forall i :: 0 <= i < k ==> HasCol(cols, names[i])
      invariant now == Marked(cols, names[..k]) && picked == Picked(cols, names[..k])
    {
      MarkedNames(cols, names[..k]);
      if !HasCol(now, names[k]) { return None; }
      var i := Find(now, names[k]);
      PickOne(cols, tab, names, k, i);
      now := now[i := now[i].(index := true)];
      picked := picked + [now[i]];
    }
    assert names[..|names|] == names;
    return Some((picked, now));
  }

  lemma MarkedNames(cols: seq<ColMeta>, names: seq<string>)
    ensures Names(Marked(cols, names)) == Names(cols)
  {}

  lemma PickOne(cols: seq<ColMeta>, tab: string, names: seq<string>, k: nat, i: nat)
    requires LaidOut(cols, tab) && k < |names| && (forall j :: 0 <= j <= k ==> HasCol(cols, names[j]))
    requires HasCol(Marked(cols, names[..k]), names[k]) && i == Find(Marked(cols, names[..k]), names[k])
    ensures var now := Marked(cols, names[..k]);
      && i < |now| && Marked(cols, names[..k + 1]) == now[i := now[i].(index := true)]
      && Picked(cols, names[..k + 1]) == Picked(cols, names[..k]) + [now[i].(index := true)]
  {
    MarkedIsSame(cols, names[..k]);
    SameFind(cols, Marked(cols, names[..k]), names[k]);
    MarkOne(cols, tab, names, k, i);
  }

  lemma MarkOne(cols: seq<ColMeta>, tab: string, names: seq<string>, k: nat, i: nat)
    requires LaidOut(cols, tab) && k < |names| && i < |cols| && cols[i].name == names[k]
    ensures var now := Marked(cols, names[..k]); Marked(cols, names[..k + 1]) == now[i := now[i].(index := true)]
  {
    var now, next := Marked(cols, names[..k]), Marked(cols, names[..k + 1]);
    forall j | 0 <= j < |cols| ensures next[j] == now[i := now[i].(index := true)][j] {
      assert names[..k + 1] == names[..k] + [names[k]];
      assert j != i ==> Names(cols)[j] != Names(cols)[i];
    }
  }

  /** Whether some index of the table has exactly these columns. */
  method IsIndex(ixs: seq<IndexMeta>, names: seq<string>) returns (b: bool)
    ensures b <==> !NewIndex(ixs, names)
  {
    for i := 0 to |ixs|
      invariant forall j :: 0 <= j < i ==> Names(ixs[j].cols) != names
    {
      if Names(ixs[i].cols) == names { return true; }
    }
    return false;
  }

  lemma IndexFields(ix: IndexMeta)
    ensures ArrayField(WriteIndex(ix), "columns") == Some(WriteNames(Names(ix.cols)))
    ensures Field(WriteIndex(ix), "unique") == Some(JBool(ix.unique))
  {
    var f := WriteIndex(ix).fields;
    assert f[1..][0] == ("unique", JBool(ix.unique));
    assert Lookup(f, "columns") == Some(JArray(WriteNames(Names(ix.cols))));
    assert Lookup(f, "unique") == Lookup(f[1..], "unique") == Some(JBool(ix.unique));
  }

  /** The document is what would be written for this index of the table. */
  ghost predicate IndexWritten(v: Json, ix: IndexMeta, t: TabMeta)
  {
    v == WriteIndex(ix) && IndexOk(ix, t.name, t.cols) && NewIndex(t.indexes, Names(ix.cols))
  }

  method ReadIndex(v: Json, t: TabMeta, ghost hint: IndexMeta) returns (r: Option<(IndexMeta, seq<ColMeta>)>)
    requires TableOk(t)
    ensures r.Some? ==> TableOk(TabMeta(t.name, r.value.1, t.indexes + [r.value.0])) && r.value.1 == Marked(t.cols, Names(r.value.0.cols))
    ensures IndexWritten(v, hint, t) ==> r.Some? && r.value.0 == hint
    ensures r.Some? && v == WriteIndex(hint) ==> WriteIndex(r.value.0) == v
  {
    IndexFields(hint);
    var columns := ArrayField(v, "columns");
    if columns.None? || columns.value == [] { return None; }
    var names := ReadNames(columns.value);
    if v == WriteIndex(hint) && GoodNames(Names(hint.cols)) { assert names == Some(Names(hint.cols)); }
    if names.None? { return None; }
    var known := IsIndex(t.indexes, names.value);
    if known { return None; }
    var unique := Field(v, "unique");
    if unique.Some? && !unique.value.JBool? { return None; }
    var flag := unique.Some? && unique.value.b;
    var picked := PickColumns(t.cols, t.name, names.value);
    if picked.None? { return None; }
    var ix := IndexMeta(t.name, TotalLen(picked.value.0), |picked.value.0|, flag, picked.value.0);
    assert NamesOk(t.cols, names.value);
    PickedNames(t.cols, names.value);
    AddIndex(t, names.value, flag);
    return Some((ix, picked.value.1));
  }

  // ---- reading a table ------------------------------------------------------------------------

  predicate IntLengths(cols: seq<ColMeta>)
  {
    forall i :: 0 <= i < |cols| ==> -0x8000_0000 <= cols[i].len < 0x8000_0000
  }

  predicate Unmarked(cols: seq<ColMeta>)
  {
    forall i :: 0 <= i < |cols| ==> !cols[i].index
  }

  lemma {:induction false} LaidOutPrefix(cols: seq<ColMeta>, tab: string, i: nat)
    requires LaidOut(cols, tab) && i <= |cols|
    ensures LaidOut(cols[..i], tab) && TotalLen(cols[..i]) <= TotalLen(cols)
    decreases |cols| - i
  {
    if i == |cols| {
      assert cols[..i] == cols;
    } else {
      LaidOutPrefix(cols, tab, i + 1);
      assert ColumnAt(cols, tab, i) && cols[..i + 1][..i] == cols[..i];
      forall j | 0 <= j < i ensures ColumnAt(cols[..i], tab, j) {
        assert ColumnAt(cols, tab, j) && cols[..i][..j] == cols[..j];
      }
      assert Names(cols[..i]) == Names(cols)[..i];
    }
  }

  lemma LaidOutSnoc(cols: seq<ColMeta>, tab: string, c: ColMeta)
    requires LaidOut(cols, tab) && c.tab == tab && c.name != "" && LengthOk(c.ctype, c.len)
    requires c.offset == TotalLen(cols) && !HasCol(cols, c.name) && c.len <= MAX_RECORD_SIZE - c.offset
    ensures LaidOut(cols + [c], tab) && TotalLen(cols + [c]) == TotalLen(cols) + c.len
  {
    var all := cols + [c];
    assert all[..|cols|] == cols && Names(all) == Names(cols) + [c.name];
    forall i | 0 <= i < |all| ensures ColumnAt(all, tab, i) {
      if i < |cols| { assert ColumnAt(cols, tab, i) && all[..i] == cols[..i]; }
    }
  }

  /** The next column of a written table passes every check of the reader. */
  lemma NextColumn(hint: seq<ColMeta>, tab: string, cols: seq<ColMeta>)
    requires LaidOut(hint, tab) && |cols| < |hint| && SameColumns(cols, hint[..|cols|])
    ensures var i, c := |cols|, hint[|cols|];
      && ReadColumn(WriteColumn(c), tab, TotalLen(cols)) == Some(c.(index := false))
      && !HasCol(cols, c.name) && c.len <= MAX_RECORD_SIZE - TotalLen(cols)
  {
    var i, c := |cols|, hint[|cols|];
    assert ColumnAt(hint, tab, i);
    NotYetNamed(hint, cols);
    RoomForNext(hint, tab, cols);
    hide LaidOut, SameColumns, TotalLen, ReadColumn, WriteColumn, HasCol;
    ColumnRoundTrip(c, tab, TotalLen(cols));
  }

  lemma RoomForNext(hint: seq<ColMeta>, tab: string, cols: seq<ColMeta>)
    requires LaidOut(hint, tab) && |cols| < |hint| && SameColumns(cols, hint[..|cols|])
    ensures TotalLen(cols) == TotalLen(hint[..|cols|]) >= 0 && hint[|cols|].len <= MAX_RECORD_SIZE - TotalLen(cols)
  {
    var i := |cols|;
    SameTotal(cols, hint[..i]);
    LaidOutPrefix(hint, tab, i + 1);
    LaidOutPrefix(hint, tab, i);
    TotalNonNegative(hint[..i], tab);
    assert hint[..i + 1][..i] == hint[..i];
    hide LaidOut;
  }

  lemma NotYetNamed(hint: seq<ColMeta>, cols: seq<ColMeta>)
    requires Distinct(Names(hint)) && |cols| < |hint| && SameColumns(cols, hint[..|cols|])
    ensures !HasCol(cols, hint[|cols|].name)
  {
    forall j | 0 <= j < |cols| ensures Names(cols)[j] == Names(hint)[j] {
      assert cols[j].(index := false) == hint[..|cols|][j].(index := false);
    }
  }

  lemma TotalNonNegative(cols: seq<ColMeta>, tab: string)
    requires LaidOut(cols, tab)
    ensures TotalLen(cols) >= 0
  {
    LaidOutPrefix(cols, tab, 0);
    assert cols[..0] == [];
  }

  lemma EchoColumn(c: ColMeta, tab: string, offset: int)
    requires -0x8000_0000 <= c.len < 0x8000_0000 && ReadColumn(WriteColumn(c), tab, offset).Some?
    ensures WriteColumn(ReadColumn(WriteColumn(c), tab, offset).value) == WriteColumn(c)
  {
    var f := WriteColumn(c).fields;
    assert f[1..][0] == ("type", JString(TypeName(c.ctype))) && f[1..][1..][0] == ("length", JInt(c.len));
    assert Lookup(f, "name") == Some(JString(c.name));
    assert Lookup(f, "type") == Lookup(f[1..], "type") == Some(JString(TypeName(c.ctype)));
    assert Lookup(f, "length") == Lookup(f[1..], "length") == Lookup(f[1..][1..], "length") == Some(JInt(c.len));
  }

  /** What has been read so far: well laid out, and if it was written from hint, the same as hint. */
  ghost predicate ColumnsRead(items: seq<Json>, tab: string, hint: seq<ColMeta>, cols: seq<ColMeta>)
  {
    && LaidOut(cols, tab) && Unmarked(cols) && |cols| <= |items|
    && (items == WriteColumns(hint) && LaidOut(hint, tab) ==> SameColumns(cols, hint[..|cols|]))
    && (items == WriteColumns(hint) && IntLengths(hint) ==> WriteColumns(cols) == items[..|cols|])
  }

  /** The reader's checks on a column. */
  predicate Admits(cols: seq<ColMeta>, offset: int, c: Option<ColMeta>)
  {
    c.Some? && !HasCol(cols, c.value.name) && c.value.len <= MAX_RECORD_SIZE - offset
  }

  lemma ColumnsAdmitted(items: seq<Json>, tab: string, hint: seq<ColMeta>, cols: seq<ColMeta>, c: Option<ColMeta>)
    requires ColumnsRead(items, tab, hint, cols) && |cols| < |items| && c == ReadColumn(items[|cols|], tab, TotalLen(cols))
    requires items == WriteColumns(hint) && LaidOut(hint, tab)
    ensures Admits(cols, TotalLen(cols), c) && c.value == hint[|cols|].(index := false)
  {
    hide LaidOut, ReadColumn, TotalLen, WriteColumn, SameColumns, HasCol;
    NextColumn(hint, tab, cols);
  }

  lemma ColumnsEcho(items: seq<Json>, tab: string, hint: seq<ColMeta>, cols: seq<ColMeta>, c: Option<ColMeta>)
    requires ColumnsRead(items, tab, hint, cols) && |cols| < |items| && c == ReadColumn(items[|cols|], tab, TotalLen(cols))
    requires items == WriteColumns(hint) && IntLengths(hint) && c.Some?
    ensures WriteColumns(cols + [c.value]) == items[..|cols| + 1]
  {
    hide LaidOut, ReadColumn, TotalLen, WriteColumn, SameColumns, HasCol;
    EchoColumn(hint[|cols|], tab, TotalLen(cols));
    WriteColumnsSnoc(items, cols, c.value);
  }

  lemma ColumnsNext(items: seq<Json>, tab: string, hint: seq<ColMeta>, cols: seq<ColMeta>, c: Option<ColMeta>)
    requires ColumnsRead(items, tab, hint, cols) && |cols| < |items| && c == ReadColumn(items[|cols|], tab, TotalLen(cols))
    ensures items == WriteColumns(hint) && LaidOut(hint, tab) ==> Admits(cols, TotalLen(cols), c)
    ensures Admits(cols, TotalLen(cols), c) ==>
      ColumnsRead(items, tab, hint, cols + [c.value]) && TotalLen(cols + [c.value]) == TotalLen(cols) + c.value.len
  {
    hide LaidOut, ReadColumn, TotalLen, WriteColumn, WriteColumns, SameColumns, HasCol, IntLengths;
    if items == WriteColumns(hint) && LaidOut(hint, tab) {
      ColumnsAdmitted(items, tab, hint, cols, c);
      SameColumnsSnoc(cols, hint, c.value);
    }
    if Admits(cols, TotalLen(cols), c) {
      if items == WriteColumns(hint) && IntLengths(hint) { ColumnsEcho(items, tab, hint, cols, c); }
      LaidOutSnoc(cols, tab, c.value);
      UnmarkedSnoc(cols, c.value);
      hide ColumnsRead, Unmarked;
      ColumnsReadIs(items, tab, hint, cols + [c.value], |cols| + 1);
    }
  }

  lemma UnmarkedSnoc(cols: seq<ColMeta>, c: ColMeta)
    requires Unmarked(cols) && !c.index
    ensures Unmarked(cols + [c])
  {}

  lemma ColumnsReadIs(items: seq<Json>, tab: string, hint: seq<ColMeta>, cols: seq<ColMeta>, n: nat)
    requires LaidOut(cols, tab) && Unmarked(cols) && |cols| == n <= |items|
    requires items == WriteColumns(hint) && LaidOut(hint, tab) ==> SameColumns(cols, hint[..n])
    requires items == WriteColumns(hint) && IntLengths(hint) ==> WriteColumns(cols) == items[..n]
    ensures ColumnsRead(items, tab, hint, cols)
  {}

  lemma SameColumnsSnoc(cols: seq<ColMeta>, hint: seq<ColMeta>, c: ColMeta)
    requires |cols| < |hint| && SameColumns(cols, hint[..|cols|]) && c == hint[|cols|].(index := false)
    ensures SameColumns(cols + [c], hint[..|cols| + 1])
  {
    forall j | 0 <= j < |cols| ensures cols[j].(index := false) == hint[j].(index := false) {
      assert cols[j].(index := false) == hint[..|cols|][j].(index := false);
    }
  }

  lemma WriteColumnsSnoc(items: seq<Json>, cols: seq<ColMeta>, c: ColMeta)
    requires |cols| < |items| && WriteColumns(cols) == items[..|cols|] && WriteColumn(c) == items[|cols|]
    ensures WriteColumns(cols + [c]) == items[..|cols| + 1]
  {
    hide WriteColumn;
    assert WriteColumns(cols + [c]) == WriteColumns(cols) + [WriteColumn(c)];
  }

  lemma ColumnsStart(items: seq<Json>, tab: string, hint: seq<ColMeta>)
    ensures ColumnsRead(items, tab, hint, []) && TotalLen([]) == 0
  {}

  method ReadColumns(items: seq<Json>, tab: string, ghost hint: seq<ColMeta>) returns (r: Option<seq<ColMeta>>)
    ensures r.Some? ==> LaidOut(r.value, tab) && Unmarked(r.value) && |r.value| == |items|
    ensures items == WriteColumns(hint) && LaidOut(hint, tab) ==> r.Some? && SameColumns(r.value, hint)
    ensures r.Some? && items == WriteColumns(hint) && IntLengths(hint) ==> WriteColumns(r.value) == items
  {
    hide LaidOut, ReadColumn, TotalLen, WriteColumns;
    var cols: seq<ColMeta> := [];
    var offset := 0;
    ColumnsStart(items, tab, hint);
    for i := 0 to |items|
      invariant |cols| == i && offset == TotalLen(cols) && ColumnsRead(items, tab, hint, cols)
    {
      var c := ReadColumn(items[i], tab, offset);
      ColumnsNext(items, tab, hint, cols, c);
      if !Admits(cols, offset, c) { return None; }
      offset := offset + c.value.len;
      cols := cols + [c.value];
    }
    assert items == WriteColumns(hint) ==> hint[..|items|] == hint;
    assert items[..|items|] == items;
    return Some(cols);
  }

  lemma TableFields(t: TabMeta)
    ensures StringField(WriteTable(t), "name") == Some(t.name)
    ensures ArrayField(WriteTable(t), "columns") == Some(WriteColumns(t.cols))
    ensures ArrayField(WriteTable(t), "indexes") == Some(WriteIndexes(t.indexes))
  {
    var f := WriteTable(t).fields;
    assert f[1..][0] == ("columns", JArray(WriteColumns(t.cols))) && f[1..][1..][0] == ("indexes", JArray(WriteIndexes(t.indexes)));
    assert Lookup(f, "name") == Some(JString(t.name));
    assert Lookup(f, "columns") == Lookup(f[1..], "columns") == Some(JArray(WriteColumns(t.cols)));
    assert Lookup(f, "indexes") == Lookup(f[1..], "indexes") == Lookup(f[1..][1..], "indexes") == Some(JArray(WriteIndexes(t.indexes)));
  }

  /** The next index of a written table passes every check of the reader. */
  lemma NextIndex(hint: TabMeta, t: TabMeta)
    requires TableOk(hint) && |t.indexes| < |hint.indexes| && t.name == hint.name
    requires t.indexes == hint.indexes[..|t.indexes|] && SameColumns(t.cols, hint.cols)
    ensures var ix := hint.indexes[|t.indexes|]; IndexWritten(WriteIndex(ix), ix, t)
  {
    var ix := hint.indexes[|t.indexes|];
    assert IndexOk(ix, hint.name, hint.cols);
    SameIndex(hint.cols, t.cols, Names(ix.cols), hint.name, ix.unique);
  }

  /** Two well-formed tables that differ at most in marks are the same table. */
  lemma SameTable(a: TabMeta, b: TabMeta)
    requires TableOk(a) && TableOk(b) && a.name == b.name && a.indexes == b.indexes && SameColumns(a.cols, b.cols)
    ensures a == b
  {
    forall i | 0 <= i < |a.cols| ensures a.cols[i] == b.cols[i] {
      assert a.cols[i].(index := false) == b.cols[i].(index := false);
    }
  }

  /** hint is the table that starts out like this and was written with these indexes. */
  ghost predicate WholeTable(items: seq<Json>, start: TabMeta, hint: TabMeta)
  {
    items == WriteIndexes(hint.indexes) && TableOk(hint) && start.name == hint.name && SameColumns(start.cols, hint.cols)
  }

  ghost predicate IndexesRead(items: seq<Json>, start: TabMeta, hint: TabMeta, t: TabMeta)
  {
    && TableOk(t) && |t.indexes| <= |items| && t.name == start.name && SameColumns(t.cols, start.cols)
    && (WholeTable(items, start, hint) ==> t.indexes == hint.indexes[..|t.indexes|] && SameColumns(t.cols, hint.cols))
    && (items == WriteIndexes(hint.indexes) ==> WriteIndexes(t.indexes) == items[..|t.indexes|])
  }

  ghost function HintAt(items: seq<Json>, hint: TabMeta, i: nat): IndexMeta
  {
    if items == WriteIndexes(hint.indexes) && i < |items| then hint.indexes[i] else IndexMeta("", 0, 0, false, [])
  }

  lemma IndexesNext(items: seq<Json>, start: TabMeta, hint: TabMeta, t: TabMeta, ix: IndexMeta, cols: seq<ColMeta>)
    requires IndexesRead(items, start, hint, t) && |t.indexes| < |items|
    requires TableOk(TabMeta(t.name, cols, t.indexes + [ix])) && cols == Marked(t.cols, Names(ix.cols))
    requires WholeTable(items, start, hint) ==> ix == hint.indexes[|t.indexes|]
    requires items == WriteIndexes(hint.indexes) ==> WriteIndex(ix) == items[|t.indexes|]
    ensures IndexesRead(items, start, hint, TabMeta(t.name, cols, t.indexes + [ix]))
  {
    hide TableOk, WriteIndex, Marked;
    MarkedIsSame(t.cols, Names(ix.cols));
    SameColumnsTrans(cols, t.cols, start.cols);
    if WholeTable(items, start, hint) { SameColumnsTrans(cols, t.cols, hint.cols); }
    assert items == WriteIndexes(hint.indexes) ==> WriteIndexes(t.indexes + [ix]) == WriteIndexes(t.indexes) + [WriteIndex(ix)];
  }

  lemma IndexesDone(items: seq<Json>, start: TabMeta, hint: TabMeta, t: TabMeta)
    requires IndexesRead(items, start, hint, t) && |t.indexes| == |items|
    ensures WholeTable(items, start, hint) ==> t == hint
    ensures items == WriteIndexes(hint.indexes) ==> WriteIndexes(t.indexes) == items
  {
    assert items[..|items|] == items;
    if WholeTable(items, start, hint) {
      assert hint.indexes[..|items|] == hint.indexes;
      SameTable(t, hint);
    }
  }

  lemma IndexesExpect(items: seq<Json>, start: TabMeta, hint: TabMeta, t: TabMeta)
    requires IndexesRead(items, start, hint, t) && |t.indexes| < |items|
    ensures WholeTable(items, start, hint) ==> IndexWritten(items[|t.indexes|], HintAt(items, hint, |t.indexes|), t)
    ensures items == WriteIndexes(hint.indexes) ==>
      items[|t.indexes|] == WriteIndex(HintAt(items, hint, |t.indexes|)) && HintAt(items, hint, |t.indexes|) == hint.indexes[|t.indexes|]
  {
    hide TableOk, IndexWritten, WriteIndex, SameColumns;
    if WholeTable(items, start, hint) { NextIndex(hint, t); }
  }

  lemma IndexesTable(items: seq<Json>, start: TabMeta, hint: TabMeta, t: TabMeta)
    requires IndexesRead(items, start, hint, t)
    ensures TableOk(t) && t.name == start.name && SameColumns(t.cols, start.cols)
    ensures WholeTable(items, start, hint) ==> items == WriteIndexes(hint.indexes)
  {}

  /** Reads the indexes of a table whose columns have been read. */
  method ReadIndexes(items: seq<Json>, start: TabMeta, ghost hint: TabMeta) returns (r: Option<TabMeta>)
    requires TableOk(start) && start.indexes == []
    ensures r.Some? ==> TableOk(r.value) && r.value.name == start.name && SameColumns(r.value.cols, start.cols)
    ensures WholeTable(items, start, hint) ==> r == Some(hint)
    ensures r.Some? && items == WriteIndexes(hint.indexes) ==> WriteIndexes(r.value.indexes) == items
  {
    var t := start;
    assert IndexesRead(items, start, hint, t);
    hide *;
    for i := 0 to |items|
      invariant |t.indexes| == i && IndexesRead(items, start, hint, t)
    {
      IndexesTable(items, start, hint, t);
      IndexesExpect(items, start, hint, t);
      var ix := ReadIndex(items[i], t, HintAt(items, hint, i));
      if ix.None? { return None; }
      IndexesNext(items, start, hint, t, ix.value.0, ix.value.1);
      t := TabMeta(t.name, ix.value.1, t.indexes + [ix.value.0]);
    }
    IndexesTable(items, start, hint, t);
    IndexesDone(items, start, hint, t);
    return Some(t);
  }

  lemma SameColumnsTrans(a: seq<ColMeta>, b: seq<ColMeta>, c: seq<ColMeta>)
    requires SameColumns(b, a) && SameColumns(b, c)
    ensures SameColumns(a, c)
  {
    forall i | 0 <= i < |a| ensures a[i].(index := false) == c[i].(index := false) {
      assert b[i].(index := false) == a[i].(index := false) && b[i].(index := false) == c[i].(index := false);
    }
  }

  /** Reads a table; a well-formed one that was written comes back as it was. */
  method ReadTable(v: Json, ghost hint: TabMeta) returns (r: Option<TabMeta>)
    ensures r.Some? ==> TableOk(r.value)
    ensures v == WriteTable(hint) && TableOk(hint) ==> r == Some(hint)
    ensures r.Some? && v == WriteTable(hint) && IntLengths(hint.cols) ==> WriteTable(r.value) == v
  {
    TableFields(hint);
    hide WriteTable, TableOk;
    var name := StringField(v, "name");
    if name.None? { return None; }
    assert v == WriteTable(hint) && TableOk(hint) ==> hint.name != "" && hint.cols != [] && LaidOut(hint.cols, hint.name) by { TableParts(hint); }
    if name.value == "" { return None; }
    var columns := ArrayField(v, "columns");
    if columns.None? || columns.value == [] { return None; }
    var cols := ReadColumns(columns.value, name.value, hint.cols);
    if cols.None? { return None; }
    var t := TabMeta(name.value, cols.value, []);
    BareTable(t);
    var indexes := ArrayField(v, "indexes");
    if indexes.None? { return None; }
    r := ReadIndexes(indexes.value, t, hint);
    assert v == WriteTable(hint) && TableOk(hint) ==> WholeTable(indexes.value, t, hint);
    if r.Some? { SameText(r.value, hint, cols.value); }
  }

  lemma TableParts(t: TabMeta)
    ensures TableOk(t) ==> t.name != "" && t.cols != [] && LaidOut(t.cols, t.name)
  {}

  lemma BareTable(t: TabMeta)
    requires t.name != "" && t.cols != [] && LaidOut(t.cols, t.name) && Unmarked(t.cols) && t.indexes == []
    ensures TableOk(t)
  {}

  lemma SameText(r: TabMeta, hint: TabMeta, cols: seq<ColMeta>)
    requires SameColumns(r.cols, cols)
    ensures r.name == hint.name && WriteColumns(cols) == WriteColumns(hint.cols) && WriteIndexes(r.indexes) == WriteIndexes(hint.indexes)
      ==> WriteTable(r) == WriteTable(hint)
  {
    forall i | 0 <= i < |cols| ensures WriteColumns(r.cols)[i] == WriteColumns(cols)[i] {
      assert r.cols[i].(index := false) == cols[i].(index := false);
    }
    assert WriteColumns(r.cols) == WriteColumns(cols);
  }

  // ---- the whole catalog --------------------------------------------------------------------

  lemma CatalogFields(order: seq<string>, db: DbMeta)
    requires Lists(order, db)
    ensures StringField(WriteCatalog(order, db), "database") == Some(db.name)
    ensures ArrayField(WriteCatalog(order, db), "tables") == Some(WriteTables(order, db))
  {
    var f := WriteCatalog(order, db).fields;
    assert f[1..][0] == ("tables", JArray(WriteTables(order, db)));
    assert Lookup(f, "database") == Some(JString(db.name));
    assert Lookup(f, "tables") == Lookup(f[1..], "tables") == Some(JArray(WriteTables(order, db)));
  }

  /** The document is what would be written for this catalog, its tables in this order. */
  ghost predicate Written(root: Json, order: seq<string>, db: DbMeta)
  {
    CatalogOk(db) && Lists(order, db) && root == WriteCatalog(order, db)
  }

  /** The tables read so far are those of the catalog that was written. */
  ghost predicate TablesRead(root: Json, order: seq<string>, hint: DbMeta, tabs: map<string, TabMeta>, i: nat)
  {
    && (forall n :: n in tabs ==> tabs[n].name == n && TableOk(tabs[n]))
    && (Written(root, order, hint) ==>
          && i <= |order| && (forall n :: n in tabs <==> n in order[..i])
          && (forall n :: n in tabs ==> n in hint.tabs && tabs[n] == hint.tabs[n]))
  }

  ghost function TableHint(root: Json, order: seq<string>, hint: DbMeta, i: nat): TabMeta
  {
    if Written(root, order, hint) && i < |order| then hint.tabs[order[i]] else TabMeta("", [], [])
  }

  lemma TablesNext(root: Json, order: seq<string>, hint: DbMeta, tabs: map<string, TabMeta>, i: nat, t: TabMeta)
    requires TablesRead(root, order, hint, tabs, i) && TableOk(t) && t.name !in tabs
    requires Written(root, order, hint) ==> i < |order| && t == hint.tabs[order[i]]
    ensures TablesRead(root, order, hint, tabs[t.name := t], i + 1)
  {
    hide TableOk, WriteCatalog;
    if Written(root, order, hint) {
      assert order[i] in hint.tabs && t.name == order[i];
      assert order[..i + 1] == order[..i] + [order[i]];
    }
  }

  lemma TableIsNew(root: Json, order: seq<string>, hint: DbMeta, tabs: map<string, TabMeta>, i: nat)
    requires TablesRead(root, order, hint, tabs, i) && Written(root, order, hint) && i < |order|
    ensures TableOk(hint.tabs[order[i]]) && hint.tabs[order[i]].name !in tabs
  {
    assert order[i] in hint.tabs;
    forall j | 0 <= j < i ensures order[..i][j] != order[i] {}
  }

  lemma TablesAreOk(root: Json, order: seq<string>, hint: DbMeta, tabs: map<string, TabMeta>, i: nat)
    requires TablesRead(root, order, hint, tabs, i)
    ensures forall n :: n in tabs ==> tabs[n].name == n && TableOk(tabs[n])
  {}

  lemma TablesDone(root: Json, order: seq<string>, hint: DbMeta, tabs: map<string, TabMeta>)
    requires TablesRead(root, order, hint, tabs, |order|) && Written(root, order, hint)
    ensures tabs == hint.tabs
  {
    hide TableOk, WriteCatalog, Distinct;
    assert order[..|order|] == order;
    assert tabs.Keys == hint.tabs.Keys;
  }

  method ReadCatalog(root: Json, ghost order: seq<string>, ghost hint: DbMeta) returns (r: Option<DbMeta>)
    ensures r.Some? ==> CatalogOk(r.value)
    ensures Written(root, order, hint) ==> r == Some(hint)
  {
    if Written(root, order, hint) { CatalogFields(order, hint); }
    var name := StringField(root, "database");
    if name.None? || name.value == "" { return None; }
    var tables := ArrayField(root, "tables");
    if tables.None? { return None; }
    var tabs: map<string, TabMeta> := map[];
    assert Written(root, order, hint) ==> tables.value == WriteTables(order, hint);
    assert TablesRead(root, order, hint, tabs, 0);
    hide TableOk, WriteTable, WriteCatalog, TablesRead;
    for i := 0 to |tables.value|
      invariant TablesRead(root, order, hint, tabs, i)
    {
      if Written(root, order, hint) { TableIsNew(root, order, hint, tabs, i); }
      var t := ReadTable(tables.value[i], TableHint(root, order, hint, i));
      if t.None? { return None; }
      if t.value.name in tabs { return None; }
      TablesNext(root, order, hint, tabs, i, t.value);
      tabs := tabs[t.value.name := t.value];
    }
    TablesAreOk(root, order, hint, tabs, |tables.value|);
    if Written(root, order, hint) { TablesDone(root, order, hint, tabs); }
    return Some(DbMeta(name.value, tabs));
  }

  // ---- new tables ------------------------------------------------------------------------------

  datatype ColDef = ColDef(name: string, ctype: ColType, len: int)

  datatype CreateResult = Created | TableExists | HandleExists | NoColumns | ColumnExists | BadLength | TooWide | FileError

  function DefNames(defs: seq<ColDef>): (ns: seq<string>)
    ensures |ns| == |defs| && forall i :: 0 <= i < |defs| ==> ns[i] == defs[i].name
  {
    seq(|defs|, i requires 0 <= i < |defs| => defs[i].name)
  }

  function DefTotal(defs: seq<ColDef>): int
  {
    if defs == [] then 0 else DefTotal(defs[..|defs| - 1]) + defs[|defs| - 1].len
  }

  /** What create_table checks; it does not ask for non-empty names. */
  predicate DefsOk(defs: seq<ColDef>)
  {
    && defs != [] && Distinct(DefNames(defs)) && DefTotal(defs) <= MAX_RECORD_SIZE
    && forall i :: 0 <= i < |defs| ==> LengthOk(defs[i].ctype, defs[i].len)
  }

  predicate NamesGiven(tab: string, defs: seq<ColDef>)
  {
    tab != "" && forall i :: 0 <= i < |defs| ==> defs[i].name != ""
  }

  function NewColumns(tab: string, defs: seq<ColDef>): (r: seq<ColMeta>)
    ensures |r| == |defs|
    ensures forall i :: 0 <= i < |defs| ==> r[i] == ColMeta(tab, defs[i].name, defs[i].ctype, defs[i].len, DefTotal(defs[..i]), false)
  {
    seq(|defs|, i requires 0 <= i < |defs| => ColMeta(tab, defs[i].name, defs[i].ctype, defs[i].len, DefTotal(defs[..i]), false))
  }

  function NewTable(tab: string, defs: seq<ColDef>): TabMeta
  {
    TabMeta(tab, NewColumns(tab, defs), [])
  }

  lemma {:induction false} NewColumnsTotal(tab: string, defs: seq<ColDef>)
    ensures TotalLen(NewColumns(tab, defs)) == DefTotal(defs)
  {
    if defs != [] {
      var n := |defs| - 1;
      NewColumnsTotal(tab, defs[..n]);
      NewColumnsPrefix(tab, defs, n);
    }
  }

  lemma NewColumnsPrefix(tab: string, defs: seq<ColDef>, n: nat)
    requires n <= |defs|
    ensures NewColumns(tab, defs)[..n] == NewColumns(tab, defs[..n])
  {
    forall i | 0 <= i < n ensures NewColumns(tab, defs)[i] == NewColumns(tab, defs[..n])[i] {
      assert defs[..n][..i] == defs[..i];
    }
  }

  /** A table that create_table admits is well-formed exactly if all its names are given. */
  lemma NewTableOk(tab: string, defs: seq<ColDef>)
    requires DefsOk(defs)
    ensures TableOk(NewTable(tab, defs)) <==> NamesGiven(tab, defs)
  {
    var cols := NewColumns(tab, defs);
    forall i | 0 <= i < |cols| ensures ColumnAt(cols, tab, i) <==> defs[i].name != "" {
      NewColumnsPrefix(tab, defs, i);
      NewColumnsTotal(tab, defs[..i]);
    }
    NewColumnsTotal(tab, defs);
    assert Names(cols) == DefNames(defs);
    if NamesGiven(tab, defs) {
      BareTable(NewTable(tab, defs));
    }
    if TableOk(NewTable(tab, defs)) {
      forall i | 0 <= i < |defs| ensures defs[i].name != "" { assert ColumnAt(cols, tab, i); }
    }
  }

  /** A column without a name is admitted, and makes a table that is not well-formed. */
  lemma NamelessColumnIsAdmitted(tab: string)
    ensures DefsOk([ColDef("", TInt, 4)]) && !TableOk(NewTable(tab, [ColDef("", TInt, 4)]))
  {
    var defs := [ColDef("", TInt, 4)];
    assert defs[..0] == [] && DefTotal(defs) == 4;
    assert DefsOk(defs);
    hide TableOk, NewTable;
    NewTableOk(tab, defs);
    assert defs[0].name == "";
  }

  lemma {:induction false} DefsOkPrefix(defs: seq<ColDef>, i: nat)
    requires DefsOk(defs) && i <= |defs|
    ensures DefTotal(defs[..i]) <= DefTotal(defs) && (i < |defs| ==> defs[i].name !in DefNames(defs[..i]))
    decreases |defs| - i
  {
    if i == |defs| {
      assert defs[..i] == defs;
    } else {
      DefsOkPrefix(defs, i + 1);
      assert defs[..i + 1][..i] == defs[..i];
      assert forall j :: 0 <= j < i ==> DefNames(defs)[j] == DefNames(defs[..i])[j];
    }
  }

  /** The first i columns pass the checks. */
  ghost predicate DefsChecked(defs: seq<ColDef>, i: nat, names: seq<string>, size: int)
    requires i <= |defs|
  {
    && names == DefNames(defs[..i]) && Distinct(names) && 0 <= size == DefTotal(defs[..i]) <= MAX_RECORD_SIZE
    && forall j :: 0 <= j < i ==> LengthOk(defs[j].ctype, defs[j].len)
  }

  lemma DefsNext(defs: seq<ColDef>, i: nat, names: seq<string>, size: int)
    requires i < |defs| && DefsChecked(defs, i, names, size)
    ensures var d := defs[i];
      && (d.name !in names && LengthOk(d.ctype, d.len) && size + d.len <= MAX_RECORD_SIZE ==>
            DefsChecked(defs, i + 1, names + [d.name], size + d.len))
      && (DefsOk(defs) ==> d.name !in names && LengthOk(d.ctype, d.len) && size + d.len <= MAX_RECORD_SIZE)
  {
    var d := defs[i];
    assert defs[..i + 1][..i] == defs[..i];
    assert DefNames(defs[..i + 1]) == DefNames(defs[..i]) + [d.name];
    if DefsOk(defs) {
      DefsOkPrefix(defs, i);
      DefsOkPrefix(defs, i + 1);
    }
  }

  /** The checks on the columns of a new table, in the order they are made. */
  method CheckDefs(defs: seq<ColDef>) returns (r: CreateResult)
    ensures r == Created <==> DefsOk(defs)
    ensures r == Created || r == NoColumns || r == ColumnExists || r == BadLength || r == TooWide
  {
    if defs == [] { return NoColumns; }
    var names: seq<string> := [];
    var size := 0;
    for i := 0 to |defs|
      invariant DefsChecked(defs, i, names, size)
    {
      hide DefsChecked, DefsOk;
      DefsNext(defs, i, names, size);
      if defs[i].name in names { return ColumnExists; }
      names := names + [defs[i].name];
      if defs[i].len <= 0 || (!defs[i].ctype.TString? && defs[i].len != 4) { return BadLength; }
      if size + defs[i].len > MAX_RECORD_SIZE { return TooWide; }
      size := size + defs[i].len;
    }
    assert defs[..|defs|] == defs;
    return Created;
  }

  /** Lays the columns out one after the other. */
  method LayOut(tab: string, defs: seq<ColDef>) returns (t: TabMeta)
    ensures t == NewTable(tab, defs)
  {
    var cols: seq<ColMeta> := [];
    var offset := 0;
    for i := 0 to |defs|
      invariant cols == NewColumns(tab, defs)[..i] && offset == DefTotal(defs[..i])
    {
      hide *;
      LayOutNext(tab, defs, i);
      cols := cols + [ColMeta(tab, defs[i].name, defs[i].ctype, defs[i].len, offset, false)];
      offset := offset + defs[i].len;
    }
    t := TabMeta(tab, cols, []);
  }

  lemma LayOutNext(tab: string, defs: seq<ColDef>, i: nat)
    requires i < |defs|
    ensures DefTotal(defs[..i + 1]) == DefTotal(defs[..i]) + defs[i].len
    ensures NewColumns(tab, defs)[..i + 1] ==
      NewColumns(tab, defs)[..i] + [ColMeta(tab, defs[i].name, defs[i].ctype, defs[i].len, DefTotal(defs[..i]), false)]
  {
    assert defs[..i + 1][..i] == defs[..i];
    hide DefTotal;
    var cols := NewColumns(tab, defs);
    assert cols[..i + 1] == cols[..i] + [cols[i]];
  }

  /** A table that create_table admits survives writing and reading exactly if all its names are given. */
  method ReadBack(tab: string, defs: seq<ColDef>) returns (r: Option<TabMeta>)
    requires DefsOk(defs)
    ensures r.Some? <==> NamesGiven(tab, defs)
    ensures r.Some? ==> r.value == NewTable(tab, defs)
  {
    var t := NewTable(tab, defs);
    NewTableOk(tab, defs);
    forall i | 0 <= i < |defs| ensures t.cols[i].len <= MAX_RECORD_SIZE {
      DefsOkPrefix(defs, i + 1);
      DefsOkPrefix(defs, i);
      DefsPositive(defs, i);
      assert defs[..i + 1][..i] == defs[..i];
    }
    assert IntLengths(t.cols);
    hide TableOk;
    r := ReadTable(WriteTable(t), t);
    if r.Some? { SameNames(r.value, tab, defs); }
  }

  lemma {:induction false} DefsPositive(defs: seq<ColDef>, i: nat)
    requires DefsOk(defs) && i <= |defs|
    ensures DefTotal(defs[..i]) >= 0
  {
    if i > 0 {
      DefsPositive(defs, i - 1);
      assert defs[..i][..i - 1] == defs[..i - 1];
    }
  }

  lemma SameNames(r: TabMeta, tab: string, defs: seq<ColDef>)
    requires TableOk(r) && WriteTable(r) == WriteTable(NewTable(tab, defs))
    ensures NamesGiven(tab, defs)
  {
    TableFields(r);
    TableFields(NewTable(tab, defs));
    assert WriteColumns(r.cols) == WriteColumns(NewColumns(tab, defs));
    forall i | 0 <= i < |defs| ensures defs[i].name != "" {
      assert WriteColumns(r.cols)[i] == WriteColumns(NewColumns(tab, defs))[i];
      assert WriteColumn(r.cols[i]).fields[0] == WriteColumn(NewColumns(tab, defs)[i]).fields[0];
      assert ColumnAt(r.cols, r.name, i);
    }
  }

  lemma CatalogGrows(db: DbMeta, tab: string, defs: seq<ColDef>)
    requires DefsOk(defs) && tab !in db.tabs
    ensures CatalogOk(db) ==> (CatalogOk(db.(tabs := db.tabs[tab := NewTable(tab, defs)])) <==> NamesGiven(tab, defs))
  {
    NewTableOk(tab, defs);
    var next := db.(tabs := db.tabs[tab := NewTable(tab, defs)]);
    assert next.tabs[tab].name == tab;
    hide TableOk, NewColumns, DefsOk;
    if CatalogOk(db) && CatalogOk(next) { assert TableOk(next.tabs[tab]); }
  }

  /** What writing the catalog file does: it replaces the file, does not open it, or breaks off and leaves something. */
  datatype Writing = Replaced | NotOpened | BrokeOff(left: Option<Json>)

  /** The running system: the catalog, the open record files, the record files on disk and the catalog file. */
  class Manager {
    var db: DbMeta
    var handles: set<string>
    var files: set<string>
    var meta: Option<Json>

    constructor (db: DbMeta, handles: set<string>, files: set<string>, meta: Option<Json>)
      ensures this.db == db && this.handles == handles && this.files == files && this.meta == meta
    {
      this.db := db;
      this.handles := handles;
      this.files := files;
      this.meta := meta;
    }

    /** The catalog file holds the catalog. */
    ghost predicate Saved()
      reads this
    {
      exists order :: Lists(order, db) && meta == Some(WriteCatalog(order, db))
    }

    /** Replaces the catalog by the document; a document that is refused leaves it as it was. */
    method Load(ghost order: seq<string>, ghost hint: DbMeta) returns (ok: bool)
      modifies this`db
      ensures ok ==> CatalogOk(db)
      ensures !ok ==> db == old(db)
      ensures meta.Some? && Written(meta.value, order, hint) ==> ok && db == hint
    {
      if meta.None? { return false; }
      var parsed := ReadCatalog(meta.value, order, hint);
      if parsed.None? { return false; }
      db := parsed.value;
      return true;
    }

    /**
      Creates a table; order is the order in which the new catalog lists its tables.  Either
      all of catalog, open files and disk have the table, or none of them has changed;
      except that writing the catalog file may break off, which loses the old file.
     */
    method CreateTable(tab: string, defs: seq<ColDef>, openOk: bool, writing: Writing, order: seq<string>) returns (r: CreateResult)
      requires Distinct(order) && forall n :: n in order <==> n in db.tabs || n == tab
      modifies this
      ensures r == Created <==>
        tab !in old(db.tabs) && tab !in old(handles) && tab !in old(files) && DefsOk(defs) && openOk && writing == Replaced
      ensures r == Created ==>
        && db == old(db).(tabs := old(db.tabs)[tab := NewTable(tab, defs)])
        && handles == old(handles) + {tab} && files == old(files) + {tab}
        && Lists(order, db) && meta == Some(WriteCatalog(order, db)) && Saved()
      ensures r != Created ==> db == old(db) && handles == old(handles) && files == old(files)
      ensures r != Created ==>
        meta == if r == FileError && tab !in old(files) && openOk && writing.BrokeOff? then writing.left else old(meta)
      // what was written is read back as the catalog, exactly if all names are given
      ensures r == Created && old(CatalogOk(db)) ==> (Written(meta.value, order, db) <==> NamesGiven(tab, defs))
    {
      hide DefsOk, NewTable, TableOk, NamesGiven, CatalogOk, WriteTables, WriteCatalog;
      if tab in db.tabs { return TableExists; }
      if tab in handles { return HandleExists; }
      r := CheckDefs(defs);
      if r != Created { return; }
      var t := LayOut(tab, defs);
      var next := db.(tabs := db.tabs[tab := t]);
      if tab in files { return FileError; }
      files := files + {tab};
      if openOk {
        handles := handles + {tab};
        meta := match writing case Replaced => Some(WriteCatalog(order, next)) case NotOpened => meta case BrokeOff(left) => left;
      }
      if !openOk || writing != Replaced {
        handles := handles - {tab};
        files := files - {tab};
        return FileError;
      }
      CatalogGrows(db, tab, defs);
      db := next;
    }
  }
}
