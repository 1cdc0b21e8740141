/**
  Inserting a row into a table and all its indexes.

  The record file and the index trees are taken at their documented contracts: a record
  gets a free position, an index holds (key, position) pairs and a unique index refuses a
  key that compares equal to one it holds.
 */
module Insert {
  import opened Basics
  import opened IndexKeys
  import opened PageTree
  import opened ValueBytes

  datatype TableColumn = TableColumn(offset: int, col: Column)

  datatype IndexDef = IndexDef(name: string, cols: seq<IndexColumn>)

  datatype InsertResult = Inserted | TypeMismatch | RawSizeMismatch | StringOverflow | NoSuchIndex | DuplicateKey

  // ---- the row -------------------------------------------------------------------

  /** The bytes of a value in a column; an error where the insertion is refused. */
  function Encode(v: Literal, c: Column): (r: Option<Bytes>)
    requires ValueOk(v) && ValidColumn(c)
    ensures r.Some? ==> |r.value| == c.len
  {
    if v.vtype != c.ctype then None
    else if v.raw.Some? then (if |v.raw.value| == c.len then v.raw else None)
    else if !v.vtype.TString? then Some(v.word)
    else if |v.text| > c.len then None
    else Some(v.text + seq(c.len - |v.text|, _ => 0))
  }

  /** What is asked of a value: the column's type, the column's length if it is encoded, and a text that fits. */
  predicate Admitted(v: Literal, c: Column)
  {
    && v.vtype == c.ctype
    && (v.raw.Some? ==> |v.raw.value| == c.len)
    && (v.raw.None? && v.vtype.TString? ==> |v.text| <= c.len)
  }

  /** How a value that is not admitted is refused. */
  predicate Refused(v: Literal, c: Column, r: InsertResult)
  {
    !Admitted(v, c) &&
    r == if v.vtype != c.ctype then TypeMismatch else if v.raw.Some? then RawSizeMismatch else StringOverflow
  }

  /**
    The bytes of a column are the encoding the value came with; otherwise they hold the
    value: a number as its four bytes, a text followed by zeros.
   */
  predicate StoredAs(field: Bytes, v: Literal, c: Column)
    requires ValueOk(v) && ValidColumn(c)
  {
    if v.raw.Some? then field == v.raw.value
    else
      && (HasValue(v) ==> HoldsValue(field, ValueOf(v), c))
      && (if v.vtype.TString? then v.text <= field && forall k :: |v.text| <= k < |field| ==> field[k] == 0 else field == v.word)
  }

  lemma EncodeExact(v: Literal, c: Column)
    requires ValueOk(v) && ValidColumn(c)
    ensures Encode(v, c).Some? <==> Admitted(v, c)
    ensures Admitted(v, c) ==> StoredAs(Encode(v, c).value, v, c)
  {
    if Admitted(v, c) && v.raw.None? && HasValue(v) { EncodedHolds(v, c); }
    hide HoldsValue, ValueOf, HasValue;
  }

  /** A literal without encoding is put into its column as bytes that hold its value. */
  lemma EncodedHolds(v: Literal, c: Column)
    requires ValueOk(v) && ValidColumn(c) && v.raw.None? && HasValue(v) && Admitted(v, c)
    ensures Encode(v, c).Some? && HoldsValue(Encode(v, c).value, ValueOf(v), c)
  {
    if v.vtype.TString? {
      PaddedChars(v.text, c.len);
      var s := Chars(v.text);
      forall i | 0 <= i < |s| ensures s[i] != '\0' {
        assert v.text[i] in v.text;
      }
    }
  }

  /** The columns lie one after the other and fill the record. */
  predicate Packed(cols: seq<TableColumn>, size: int)
  {
    if cols == [] then size == 0
    else
      var front, last := cols[..|cols| - 1], cols[|cols| - 1];
      ValidColumn(last.col) && last.offset + last.col.len == size && Packed(front, last.offset)
  }

  lemma {:induction false} PackedAt(cols: seq<TableColumn>, size: int, i: nat)
    requires Packed(cols, size) && i < |cols|
    ensures ValidColumn(cols[i].col) && 0 <= cols[i].offset && cols[i].offset + cols[i].col.len <= size
    ensures Packed(cols[..i], cols[i].offset) && Packed(cols[..i + 1], cols[i].offset + cols[i].col.len)
  {
    var front := cols[..|cols| - 1];
    if i < |front| {
      PackedAt(front, cols[|cols| - 1].offset, i);
      assert front[..i] == cols[..i] && front[..i + 1] == cols[..i + 1];
      PackedSize(front, cols[|cols| - 1].offset);
    } else {
      assert cols[..i + 1] == cols;
      PackedSize(front, cols[i].offset);
    }
  }

  lemma {:induction false} PackedSize(cols: seq<TableColumn>, size: int)
    requires Packed(cols, size)
    ensures size >= 0
  {
    if cols != [] { PackedSize(cols[..|cols| - 1], cols[|cols| - 1].offset); }
  }

  /** The record whose columns hold the values. */
  function Row(cols: seq<TableColumn>, vs: seq<Literal>, size: int): (r: Option<Bytes>)
    requires Packed(cols, size) && |vs| == |cols| && forall v :: v in vs ==> ValueOk(v)
    ensures r.Some? ==> |r.value| == size
  {
    if cols == [] then Some([])
    else
      var n := |cols| - 1;
      var before := Row(cols[..n], vs[..n], cols[n].offset);
      assert vs[n] in vs;
      var last := Encode(vs[n], cols[n].col);
      if before.None? || last.None? then None else Some(before.value + last.value)
  }

  lemma {:induction false} RowRefused(cols: seq<TableColumn>, vs: seq<Literal>, size: int, i: nat)
    requires Packed(cols, size) && |vs| == |cols| && forall v :: v in vs ==> ValueOk(v)
    requires i < |cols| && ValidColumn(cols[i].col) && ValueOk(vs[i]) && Encode(vs[i], cols[i].col).None?
    ensures Row(cols, vs, size).None?
  {
    var n := |cols| - 1;
    if i < n { RowRefused(cols[..n], vs[..n], cols[n].offset, i); }
  }

  lemma RowStep(cols: seq<TableColumn>, vs: seq<Literal>, size: int, i: nat)
    requires Packed(cols, size) && |vs| == |cols| && (forall v :: v in vs ==> ValueOk(v)) && i < |cols|
    ensures var c := cols[i];
      && ValidColumn(c.col) && ValueOk(vs[i]) && 0 <= c.offset && c.offset + c.col.len <= size
      && Packed(cols[..i], c.offset) && Packed(cols[..i + 1], c.offset + c.col.len)
      && (Row(cols[..i], vs[..i], c.offset).Some? && Encode(vs[i], c.col).Some? ==>
            Row(cols[..i + 1], vs[..i + 1], c.offset + c.col.len)
            == Some(Row(cols[..i], vs[..i], c.offset).value + Encode(vs[i], c.col).value))
  {
    PackedAt(cols, size, i);
    assert vs[i] in vs;
    assert cols[..i + 1][..i] == cols[..i] && vs[..i + 1][..i] == vs[..i];
  }

  /** The column lies within the record and holds the value. */
  predicate FieldStored(record: Bytes, c: TableColumn, v: Literal)
  {
    && ValueOk(v) && ValidColumn(c.col) && 0 <= c.offset && c.offset + c.col.len <= |record|
    && StoredAs(record[c.offset..c.offset + c.col.len], v, c.col)
  }

  /** Every column of the record holds its value. */
  ghost predicate RowStored(record: Bytes, cols: seq<TableColumn>, vs: seq<Literal>)
    requires |vs| == |cols|
  {
    forall i :: 0 <= i < |cols| ==> FieldStored(record, cols[i], vs[i])
  }

  ghost predicate AllAdmitted(cols: seq<TableColumn>, vs: seq<Literal>)
    requires |vs| == |cols|
  {
    forall i :: 0 <= i < |cols| ==> Admitted(vs[i], cols[i].col)
  }

  /** The first value that is not admitted is refused, for its own reason. */
  ghost predicate RefusedRow(cols: seq<TableColumn>, vs: seq<Literal>, r: InsertResult)
    requires |vs| == |cols|
  {
    exists i :: 0 <= i < |cols| && AllAdmitted(cols[..i], vs[..i]) && Refused(vs[i], cols[i].col, r)
  }

  /** A row can be made exactly of admitted values. */
  lemma {:induction false} RowAdmitted(cols: seq<TableColumn>, vs: seq<Literal>, size: int)
    requires Packed(cols, size) && |vs| == |cols| && forall v :: v in vs ==> ValueOk(v)
    ensures Row(cols, vs, size).Some? <==> AllAdmitted(cols, vs)
  {
    if cols != [] {
      var n := |cols| - 1;
      RowAdmitted(cols[..n], vs[..n], cols[n].offset);
      assert vs[n] in vs;
      EncodeExact(vs[n], cols[n].col);
      hide Encode, StoredAs, Admitted;
      assert forall i :: 0 <= i < n ==> cols[..n][i] == cols[i] && vs[..n][i] == vs[i];
    }
  }

  /** The columns of a row hold the values. */
  lemma {:induction false} RowField(cols: seq<TableColumn>, vs: seq<Literal>, size: int, i: nat)
    requires Packed(cols, size) && |vs| == |cols| && (forall v :: v in vs ==> ValueOk(v)) && i < |cols|
    requires Row(cols, vs, size).Some?
    ensures FieldStored(Row(cols, vs, size).value, cols[i], vs[i])
  {
    var n := |cols| - 1;
    assert vs[n] in vs;
    PackedSize(cols[..n], cols[n].offset);
    var before, last := Row(cols[..n], vs[..n], cols[n].offset).value, Encode(vs[n], cols[n].col).value;
    assert Row(cols, vs, size).value == before + last;
    if i < n {
      RowField(cols[..n], vs[..n], cols[n].offset, i);
      hide StoredAs, Encode, Row, Packed;
      FieldKept(before, last, cols[i], vs[i]);
    } else {
      EncodeExact(vs[n], cols[n].col);
      hide StoredAs, Encode, Row;
      assert (before + last)[cols[n].offset..cols[n].offset + cols[n].col.len] == last;
    }
  }

  lemma FieldKept(before: Bytes, more: Bytes, c: TableColumn, v: Literal)
    requires FieldStored(before, c, v)
    ensures FieldStored(before + more, c, v)
  {
    hide StoredAs;
    assert (before + more)[c.offset..c.offset + c.col.len] == before[c.offset..c.offset + c.col.len];
  }

  lemma RowExact(cols: seq<TableColumn>, vs: seq<Literal>, size: int)
    requires Packed(cols, size) && |vs| == |cols| && forall v :: v in vs ==> ValueOk(v)
    ensures Row(cols, vs, size).Some? <==> AllAdmitted(cols, vs)
    ensures Row(cols, vs, size).Some? ==> RowStored(Row(cols, vs, size).value, cols, vs)
  {
    hide Packed, Row, FieldStored, AllAdmitted;
    RowAdmitted(cols, vs, size);
    if Row(cols, vs, size).Some? {
      forall i | 0 <= i < |cols| ensures FieldStored(Row(cols, vs, size).value, cols[i], vs[i]) { RowField(cols, vs, size, i); }
    }
  }

  /** Where the first value that is not admitted is found, there is no row. */
  lemma RefusesHere(cols: seq<TableColumn>, vs: seq<Literal>, size: int, filled: int, i: nat, r: InsertResult)
    requires Packed(cols, size) && |vs| == |cols| && (forall v :: v in vs ==> ValueOk(v)) && i < |cols|
    requires Packed(cols[..i], filled) && Row(cols[..i], vs[..i], filled).Some? && Refused(vs[i], cols[i].col, r)
    ensures Row(cols, vs, size).None? && RefusedRow(cols, vs, r)
  {
    RowAdmitted(cols[..i], vs[..i], filled);
    PackedAt(cols, size, i);
    assert vs[i] in vs;
    EncodeExact(vs[i], cols[i].col);
    hide Packed, Row, AllAdmitted, Encode, StoredAs;
    RowRefused(cols, vs, size, i);
  }

  /** The bytes of one value, or why it is refused. */
  method EncodeValue(v: Literal, c: Column) returns (r: InsertResult, raw: Bytes)
    requires ValueOk(v) && ValidColumn(c)
    ensures r == Inserted ==> Encode(v, c) == Some(raw)
    ensures r != Inserted ==> Refused(v, c, r)
  {
    EncodeExact(v, c);
    hide StoredAs;
    if v.vtype != c.ctype { return TypeMismatch, []; }
    if v.raw.Some? && |v.raw.value| != c.len { return RawSizeMismatch, []; }
    var bytes := Encode(v, c);
    if bytes.None? { return StringOverflow, []; }
    return Inserted, bytes.value;
  }

  method CopyInto(buffer: array<byte>, offset: nat, raw: Bytes)
    requires offset + |raw| <= buffer.Length
    modifies buffer
    ensures buffer[..offset + |raw|] == old(buffer[..offset]) + raw
  {
    forall k | 0 <= k < |raw| { buffer[offset + k] := raw[k]; }
    assert buffer[..offset] == old(buffer[..offset]) && buffer[offset..offset + |raw|] == raw;
    assert buffer[..offset + |raw|] == buffer[..offset] + buffer[offset..offset + |raw|];
  }

  /** Copies every value to its column's place in the record buffer. */
  method FillRecord(cols: seq<TableColumn>, vs: seq<Literal>, size: nat) returns (r: InsertResult, record: Bytes)
    requires Packed(cols, size) && |vs| == |cols| && forall v :: v in vs ==> ValueOk(v)
    ensures r == Inserted <==> Row(cols, vs, size).Some?
    ensures r == Inserted ==> Some(record) == Row(cols, vs, size)
    ensures r == Inserted <==> AllAdmitted(cols, vs)
    ensures r == Inserted ==> |record| == size && RowStored(record, cols, vs)
    ensures r != Inserted ==> RefusedRow(cols, vs, r)
  {
    RowExact(cols, vs, size);
    PackedSize(cols, size);
    var buffer := new byte[size];
    var filled: nat := 0;
    assert Packed(cols[..0], 0) && Row(cols[..0], vs[..0], 0) == Some([]);
    hide RowStored, AllAdmitted, RefusedRow, Encode, Packed, Row, Refused;
    for i := 0 to |cols|
      invariant 0 <= filled <= size && Packed(cols[..i], filled)
      invariant Some(buffer[..filled]) == Row(cols[..i], vs[..i], filled)
    {
      RowStep(cols, vs, size, i);
      PackedUnique(cols[..i], filled, cols[i].offset);
      var raw;
      r, raw := EncodeValue(vs[i], cols[i].col);
      if r != Inserted {
        RefusesHere(cols, vs, size, filled, i, r);
        return r, [];
      }
      CopyInto(buffer, filled, raw);
      filled := filled + cols[i].col.len;
    }
    assert cols[..|cols|] == cols && vs[..|vs|] == vs;
    PackedUnique(cols, filled, size);
    assert buffer[..] == buffer[..filled];
    return Inserted, buffer[..];
  }

  lemma PackedUnique(cols: seq<TableColumn>, a: int, b: int)
    requires Packed(cols, a) && Packed(cols, b)
    ensures a == b
  {}

  // ---- the indexes --------------------------------------------------------------------

  /** An index at its documented contract. */
  class IndexTree {
    const cols: seq<IndexColumn>
    const unique: bool
    var entries: set<(Key, Rid)>

    constructor (cols: seq<IndexColumn>, unique: bool)
      ensures this.cols == cols && this.unique == unique && entries == {}
    {
      this.cols := cols;
      this.unique := unique;
      this.entries := {};
    }

    predicate Valid()
      reads this
    {
      forall e :: e in entries ==> IsKey(e.0, KeyColumns(cols))
    }

    /** The index is unique and holds a key that compares equal. */
    predicate Refuses(key: Key)
      requires Valid() && IsKey(key, KeyColumns(cols))
      reads this
    {
      unique && exists e :: e in entries && CompareKey(e.0, key, KeyColumns(cols)) == 0
    }

    method InsertEntry(key: Key, rid: Rid) returns (ok: bool)
      requires Valid() && IsKey(key, KeyColumns(cols)) && (key, rid) !in entries
      modifies this
      ensures Valid() && ok == !old(Refuses(key))
      ensures entries == if ok then old(entries) + {(key, rid)} else old(entries)
    {
      ok := !Refuses(key);
      if ok { entries := entries + {(key, rid)}; }
    }

    method DeleteEntry(key: Key, rid: Rid) returns (found: bool)
      requires Valid()
      modifies this
      ensures Valid() && found == ((key, rid) in old(entries)) && entries == old(entries) - {(key, rid)}
    {
      found := (key, rid) in entries;
      entries := entries - {(key, rid)};
    }
  }

  /** The entries an index must hold for the records of its table. */
  ghost function EntriesFor(records: map<Rid, Bytes>, cols: seq<IndexColumn>): set<(Key, Rid)>
    requires forall r :: r in records ==> Fits(cols, |records[r]|)
  {
    set r | r in records :: (KeyOf(records[r], cols), r)
  }

  /** One of the entries has a key that compares equal. */
  ghost predicate HoldsKey(entries: set<(Key, Rid)>, key: Key, cols: seq<Column>)
  {
    IsKey(key, cols) && exists e :: e in entries && IsKey(e.0, cols) && CompareKey(e.0, key, cols) == 0
  }

  class Table {
    const columns: seq<TableColumn>
    const size: nat
    const indexes: seq<IndexDef>
    const handles: map<string, IndexTree>
    var records: map<Rid, Bytes>

    constructor (columns: seq<TableColumn>, size: nat, indexes: seq<IndexDef>, handles: map<string, IndexTree>)
      ensures this.columns == columns && this.size == size && this.indexes == indexes && this.handles == handles && records == map[]
    {
      this.columns := columns;
      this.size := size;
      this.indexes := indexes;
      this.handles := handles;
      this.records := map[];
    }

    /** The open tree of the i-th index, where there is one. */
    predicate Open(i: int)
    {
      0 <= i < |indexes| && indexes[i].name in handles
    }

    function Tree(i: int): IndexTree
      requires Open(i)
    {
      handles[indexes[i].name]
    }

    ghost function Trees(): set<IndexTree>
    {
      set i | 0 <= i < |indexes| && Open(i) :: Tree(i)
    }

    /** Layout and index columns fit the records; no two indexes share an open tree. */
    ghost predicate WellFormed()
      reads this
    {
      && Packed(columns, size) && (forall r :: r in records ==> |records[r]| == size)
      && (forall i :: 0 <= i < |indexes| ==> Fits(indexes[i].cols, size))
      && (forall i :: Open(i) ==> Tree(i).cols == indexes[i].cols)
      && (forall i, j :: Open(i) && Open(j) && i != j ==> Tree(i) != Tree(j))
    }

    /** Every open index holds exactly the keys of the records. */
    ghost predicate Consistent()
      reads this, Trees()
      requires WellFormed()
    {
      forall i :: Open(i) ==> Tree(i).entries == EntriesFor(records, Tree(i).cols)
    }

    /** The entry of a record in the i-th index. */
    ghost function EntryOf(record: Bytes, slot: Rid, i: int): (Key, Rid)
      requires 0 <= i < |indexes| && Fits(indexes[i].cols, |record|)
    {
      (KeyOf(record, indexes[i].cols), slot)
    }

    /** What every open index held at some point. */
    ghost function Snapshot(): map<int, set<(Key, Rid)>>
      reads this, Trees()
    {
      map i | 0 <= i < |indexes| && Open(i) :: Tree(i).entries
    }

    /** The first n indexes hold the record's entry on top of what they held, the others what they held. */
    ghost predicate Extended(before: map<int, set<(Key, Rid)>>, record: Bytes, slot: Rid, n: int)
      reads this, Trees()
    {
      && |record| == size && WellFormed()
      && forall i :: Open(i) ==>
           i in before && Tree(i).entries == if i < n then before[i] + {EntryOf(record, slot, i)} else before[i]
    }

    /** No entry is for the position, and all keys are well-formed. */
    ghost predicate FreeSlot(before: map<int, set<(Key, Rid)>>, slot: Rid)
      reads this
      requires WellFormed()
    {
      forall i, e :: Open(i) && i in before && e in before[i] ==> e.1 != slot && IsKey(e.0, KeyColumns(indexes[i].cols))
    }

    /** The i-th index refuses the record's key. */
    ghost predicate Blocks(before: map<int, set<(Key, Rid)>>, record: Bytes, i: int)
      requires Open(i) && i in before && Fits(indexes[i].cols, |record|)
    {
      Tree(i).unique && HoldsKey(before[i], KeyOf(record, indexes[i].cols), KeyColumns(indexes[i].cols))
    }

    /** Removes the entries made so far, last index first. */
    method Rollback(inserted: seq<(IndexTree, Key)>, slot: Rid, ghost before: map<int, set<(Key, Rid)>>, ghost record: Bytes)
      requires |inserted| <= |indexes| && Extended(before, record, slot, |inserted|) && FreeSlot(before, slot)
      requires forall i :: 0 <= i < |inserted| ==> Open(i) && inserted[i] == (Tree(i), EntryOf(record, slot, i).0)
      modifies Trees()
      ensures Extended(before, record, slot, 0)
    {
      var n := |inserted|;
      while n > 0
        invariant 0 <= n <= |inserted| && Extended(before, record, slot, n)
      {
        n := n - 1;
        assert Open(n);
        KeyOfIsKey(record, indexes[n].cols);
        var _ := inserted[n].0.DeleteEntry(inserted[n].1, slot);
      }
    }

    /** Adds the record to the n-th index, behind the ones before it. */
    method AddToIndex(record: Bytes, slot: Rid, n: nat, ghost before: map<int, set<(Key, Rid)>>) returns (ok: bool, key: Key)
      requires Open(n) && Extended(before, record, slot, n) && FreeSlot(before, slot)
      modifies Trees()
      ensures ok == !Blocks(before, record, n) && key == EntryOf(record, slot, n).0
      ensures Extended(before, record, slot, if ok then n + 1 else n)
    {
      var tree := handles[indexes[n].name];
      assert tree == Tree(n);
      key := MakeKey(record, indexes[n].cols);
      ok := tree.InsertEntry(key, slot);
    }

    /** The entries made so far, as the executor remembers them. */
    ghost predicate Remembers(inserted: seq<(IndexTree, Key)>, record: Bytes, slot: Rid, before: map<int, set<(Key, Rid)>>)
      reads this
    {
      && WellFormed() && |record| == size && |inserted| <= |indexes|
      && forall i :: 0 <= i < |inserted| ==>
           Open(i) && i in before && inserted[i] == (Tree(i), EntryOf(record, slot, i).0) && !Blocks(before, record, i)
    }

    /** The first index that is not open or refuses the key decides what is reported. */
    ghost predicate FailsAt(before: map<int, set<(Key, Rid)>>, record: Bytes, i: int, r: InsertResult)
      requires 0 <= i < |indexes| && forall j :: 0 <= j <= i && Open(j) ==> j in before && Fits(indexes[j].cols, |record|)
    {
      && (forall j :: 0 <= j < i ==> Open(j) && !Blocks(before, record, j))
      && if Open(i) then Blocks(before, record, i) && r == DuplicateKey else r == NoSuchIndex
    }

    /** Adds the record to every index in order, or to none of them. */
    method AddToIndexes(record: Bytes, slot: Rid, ghost before: map<int, set<(Key, Rid)>>) returns (r: InsertResult)
      requires Extended(before, record, slot, 0) && FreeSlot(before, slot)
      modifies Trees()
      ensures r == Inserted || r == NoSuchIndex || r == DuplicateKey
      ensures Extended(before, record, slot, if r == Inserted then |indexes| else 0)
      ensures r == Inserted <==> forall i :: 0 <= i < |indexes| ==> Open(i) && !Blocks(before, record, i)
      ensures r != Inserted ==> exists i :: 0 <= i < |indexes| && FailsAt(before, record, i, r)
    {
      hide HoldsKey, Blocks, FreeSlot, Packed;
      var inserted: seq<(IndexTree, Key)> := [];
      for n := 0 to |indexes|
        invariant |inserted| == n && Extended(before, record, slot, n) && Remembers(inserted, record, slot, before)
      {
        if indexes[n].name !in handles {
          assert !Open(n) && FailsAt(before, record, n, NoSuchIndex);
          Rollback(inserted, slot, before, record);
          return NoSuchIndex;
        }
        assert Open(n);
        var ok, key := AddToIndex(record, slot, n, before);
        if !ok {
          assert FailsAt(before, record, n, DuplicateKey);
          Rollback(inserted, slot, before, record);
          return DuplicateKey;
        }
        inserted := inserted + [(Tree(n), key)];
      }
      return Inserted;
    }

    lemma ConsistentIsFree(slot: Rid)
      requires WellFormed() && Consistent() && slot !in records
      ensures FreeSlot(Snapshot(), slot)
    {
      forall i, e | Open(i) && e in Snapshot()[i] ensures e.1 != slot && IsKey(e.0, KeyColumns(indexes[i].cols)) {
        assert Tree(i).entries == EntriesFor(records, Tree(i).cols);
        var r :| r in records && e == (KeyOf(records[r], Tree(i).cols), r);
        KeyOfIsKey(records[r], indexes[i].cols);
      }
    }

    lemma NothingAdded(before: map<int, set<(Key, Rid)>>, record: Bytes, slot: Rid)
      requires Extended(before, record, slot, 0) && forall i :: i in before <==> Open(i)
      ensures Snapshot() == before
    {
      hide WellFormed;
    }

    /** With one record more, every index holds one entry more. */
    lemma EntriesGrow(was: map<Rid, Bytes>, record: Bytes, slot: Rid, i: int)
      requires Open(i) && Fits(indexes[i].cols, |record|) && slot !in was && forall r :: r in was ==> Fits(indexes[i].cols, |was[r]|)
      ensures EntriesFor(was[slot := record], indexes[i].cols) == EntriesFor(was, indexes[i].cols) + {EntryOf(record, slot, i)}
    {
      var now, cols := was[slot := record], indexes[i].cols;
      var all, more := EntriesFor(now, cols), EntriesFor(was, cols) + {EntryOf(record, slot, i)};
      forall e | e in all ensures e in more {
        var r :| r in now && e == (KeyOf(now[r], cols), r);
        if r != slot { assert r in was; }
      }
      forall e | e in more ensures e in all {
        if e in EntriesFor(was, cols) {
          var r :| r in was && e == (KeyOf(was[r], cols), r);
          assert r in now && now[r] == was[r];
        } else {
          assert slot in now && now[slot] == record;
        }
      }
    }

    /**
      Inserts a row: into the table and all its indexes, or nowhere.  slot is the free
      position the record file gives to the record.
     */
    method Next(values: seq<Literal>, slot: Rid) returns (r: InsertResult)
      requires WellFormed() && Consistent() && slot !in records
      requires |values| == |columns| && forall v :: v in values ==> ValueOk(v)
      modifies this, Trees()
      ensures WellFormed() && Consistent()
      ensures r == Inserted <==>
        && Row(columns, values, size).Some?
        && forall i :: 0 <= i < |indexes| ==> Open(i) && !Blocks(old(Snapshot()), Row(columns, values, size).value, i)
      ensures r == Inserted ==> records == old(records)[slot := Row(columns, values, size).value]
      ensures r == Inserted ==> |records[slot]| == size && RowStored(records[slot], columns, values)
      ensures Row(columns, values, size).Some? <==> AllAdmitted(columns, values)
      ensures r != Inserted && !AllAdmitted(columns, values) ==> RefusedRow(columns, values, r)
      ensures r != Inserted && AllAdmitted(columns, values) ==>
        exists i :: 0 <= i < |indexes| && FailsAt(old(Snapshot()), Row(columns, values, size).value, i, r)
      ensures r != Inserted ==> records == old(records) && Snapshot() == old(Snapshot())
    {
      var record;
      r, record := FillRecord(columns, values, size);
      if r != Inserted { return; }
      hide Row, Packed, KeyOf, HoldsKey, EntriesFor, RowStored, AllAdmitted, RefusedRow, Blocks;
      r := StoreRecord(record, slot);
    }

    /** Puts a record at its position and into all indexes, or nowhere. */
    method StoreRecord(record: Bytes, slot: Rid) returns (r: InsertResult)
      requires WellFormed() && Consistent() && slot !in records && |record| == size
      modifies this, Trees()
      ensures WellFormed() && Consistent()
      ensures r == Inserted <==> forall i :: 0 <= i < |indexes| ==> Open(i) && !Blocks(old(Snapshot()), record, i)
      ensures r != Inserted ==> exists i :: 0 <= i < |indexes| && FailsAt(old(Snapshot()), record, i, r)
      ensures r == Inserted ==> records == old(records)[slot := record]
      ensures r != Inserted ==> records == old(records) && Snapshot() == old(Snapshot())
    {
      ghost var before, was := Snapshot(), records;
      hide HoldsKey, Blocks, Packed;
      ConsistentIsFree(slot);
      records := records[slot := record];
      assert Extended(before, record, slot, 0);
      r := AddToIndexes(record, slot, before);
      if r != Inserted {
        records := records - {slot};
        assert records == was;
        NothingAdded(before, record, slot);
        return;
      }
      forall i | Open(i) ensures Tree(i).entries == EntriesFor(records, Tree(i).cols) {
        EntriesGrow(was, record, slot, i);
      }
    }
  }
}
