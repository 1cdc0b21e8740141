/**
  The index file header: how many entries fit into a page, how the header is stored, and
  what a new index file holds.
 */
module IndexHeader {
  import opened Basics
  import opened IndexKeys
  import opened PageTree

  const PAGE_SIZE: int := 4096
  const PAGE_HEADER_SIZE: int := 24
  const RID_SIZE: int := 8
  const MAX_KEY_LENGTH: int := 512
  const MAX_INT: int := 0x7FFF_FFFF
  const FIXED_SIZE: int := 44
  const MAX_COLUMNS: int := (PAGE_SIZE - FIXED_SIZE) / 8

  // ---- page layout ----------------------------------------------------------------------

  function Aligned(n: int): int
  {
    (n + 3) / 4 * 4
  }

  /** The size of the key slots, one more than the order, rounded up to the alignment of a rid. */
  function KeysRegion(order: int, keyLength: int): Option<int>
  {
    if order < 0 || keyLength <= 0 then None
    else
      var size := Aligned((order + 1) * keyLength);
      if size > MAX_INT then None else Some(size)
  }

  predicate LayoutFits(order: int, keyLength: int)
  {
    && KeysRegion(order, keyLength).Some?
    && PAGE_HEADER_SIZE + KeysRegion(order, keyLength).value + (order + 1) * RID_SIZE <= PAGE_SIZE
  }

  function FirstOrder(keyLength: int): int
    requires keyLength > 0
  {
    (PAGE_SIZE - PAGE_HEADER_SIZE) / (keyLength + RID_SIZE) - 1
  }

  lemma QuotientBounds(n: int, d: int)
    requires d > 0
    ensures n / d * d <= n < (n / d + 1) * d
  {}

  lemma AlignedBounds(n: int)
    ensures n <= Aligned(n) < n + 4 && Aligned(n) % 4 == 0
  {}

  lemma AlignFits(a: int, m: int)
    ensures Aligned(a) + 8 * m <= 4072 <==> a + 8 * m <= 4072
  {
    var q := (a + 3) / 4;
    assert a <= 4 * q < a + 4 && Aligned(a) == 4 * q;
    assert 4 * q + 8 * m <= 4072 <==> q <= 1018 - 2 * m;
    hide Aligned;
  }

  /** Alignment costs nothing: a layout fits exactly if its slots fit. */
  lemma FitsExactly(order: int, keyLength: int)
    requires 0 < keyLength
    ensures LayoutFits(order, keyLength) <==> order >= 0 && (order + 1) * (keyLength + RID_SIZE) <= PAGE_SIZE - PAGE_HEADER_SIZE
  {
    var m, a := order + 1, (order + 1) * keyLength;
    assert m * (keyLength + 8) == a + 8 * m;
    AlignFits(a, m);
  }

  /** The order computed first is the largest that fits, and always more than two. */
  lemma FirstOrderIsLargest(keyLength: int)
    requires 0 < keyLength <= MAX_KEY_LENGTH
    ensures FirstOrder(keyLength) > 2
    ensures forall order :: LayoutFits(order, keyLength) <==> 0 <= order <= FirstOrder(keyLength)
  {
    var d := keyLength + RID_SIZE;
    var n := (PAGE_SIZE - PAGE_HEADER_SIZE) / d;
    QuotientBounds(PAGE_SIZE - PAGE_HEADER_SIZE, d);
    SevenFit(d, n);
    forall order ensures LayoutFits(order, keyLength) <==> 0 <= order <= FirstOrder(keyLength) {
      FitsExactly(order, keyLength);
      if order + 1 <= n { Monotone(order + 1, n, d); } else { Monotone(n + 1, order + 1, d); }
    }
  }

  lemma SevenFit(d: int, n: int)
    requires 0 < d <= 520 && 4072 < (n + 1) * d
    ensures n >= 7
  {
    if n < 7 { Monotone(n + 1, 7, d); }
  }

  lemma Monotone(a: int, b: int, d: int)
    requires a <= b && d > 0
    ensures a * d <= b * d
  {}

  // ---- the stored header --------------------------------------------------------------------

  datatype FileHeader = FileHeader(serializedSize: int, firstFree: int, pageCount: int, root: int, columnCount: int,
                                   types: seq<int>, lengths: seq<int>, keyLength: int, order: int, keysRegion: int,
                                   firstLeaf: int, lastLeaf: int, unique: bool)

  predicate IsInt(n: int)
  {
    -0x8000_0000 <= n <= MAX_INT
  }

  predicate AllInts(ns: seq<int>)
  {
    forall i :: 0 <= i < |ns| ==> IsInt(ns[i])
  }

  function Sum(ns: seq<int>): int
  {
    if ns == [] then 0 else Sum(ns[..|ns| - 1]) + ns[|ns| - 1]
  }

  /** The counts agree, so the header can be stored. */
  predicate Storable(h: FileHeader)
  {
    && 0 < h.columnCount <= MAX_COLUMNS && |h.types| == |h.lengths| == h.columnCount
    && h.serializedSize == FIXED_SIZE + 8 * h.columnCount
    && AllInts(h.types) && AllInts(h.lengths)
    && IsInt(h.firstFree) && IsInt(h.pageCount) && IsInt(h.root) && IsInt(h.keyLength) && IsInt(h.order)
    && IsInt(h.keysRegion) && IsInt(h.firstLeaf) && IsInt(h.lastLeaf)
  }

  /** What opening an index file asks of its header. */
  predicate HeaderOk(h: FileHeader)
  {
    && Storable(h) && (forall i :: 0 <= i < |h.lengths| ==> h.lengths[i] > 0) && Sum(h.lengths) == h.keyLength
    && 0 < h.keyLength <= MAX_KEY_LENGTH && h.order > 2
    && KeysRegion(h.order, h.keyLength) == Some(h.keysRegion) && LayoutFits(h.order, h.keyLength)
  }

  /** The header as the list of its 32-bit fields. */
  function Fields(h: FileHeader): (ns: seq<int>)
    ensures |ns| == 11 + |h.types| + |h.lengths|
  {
    [h.serializedSize, h.firstFree, h.pageCount, h.root, h.columnCount] + h.types + h.lengths
    + [h.keyLength, h.order, h.keysRegion, h.firstLeaf, h.lastLeaf, if h.unique then 1 else 0]
  }

  lemma FieldsAreInts(h: FileHeader)
    requires Storable(h)
    ensures AllInts(Fields(h))
  {}

  /** Four bytes, lowest first. */
  function LittleEndian(n: int): (b: Bytes)
    requires IsInt(n)
    ensures |b| == 4
  {
    var w := if n < 0 then n + 0x1_0000_0000 else n;
    var w1 := w / 0x100;
    var w2 := w1 / 0x100;
    [(w % 0x100) as byte, (w1 % 0x100) as byte, (w2 % 0x100) as byte, (w2 / 0x100) as byte]
  }

  lemma LittleEndianRoundTrip(n: int)
    requires IsInt(n)
    ensures IntOf(LittleEndian(n)) == n
  {
    var w := if n < 0 then n + 0x1_0000_0000 else n;
    var w1 := w / 0x100;
    var w2 := w1 / 0x100;
    assert w == w % 0x100 + 0x100 * w1 && w1 == w1 % 0x100 + 0x100 * w2 && w2 == w2 % 0x100 + 0x100 * (w2 / 0x100);
    assert Word(LittleEndian(n)) == w;
  }

  lemma LittleEndianInverse(b: Bytes)
    requires |b| == 4
    ensures IsInt(IntOf(b)) && LittleEndian(IntOf(b)) == b
  {
    var w := Word(b);
    var w1 := b[1] as int + 0x100 * b[2] as int + 0x1_0000 * b[3] as int;
    var w2 := b[2] as int + 0x100 * b[3] as int;
    assert w == b[0] as int + 0x100 * w1 && w1 == b[1] as int + 0x100 * w2;
    assert w / 0x100 == w1 && w1 / 0x100 == w2 && w2 / 0x100 == b[3] as int;
  }

  function IntsBytes(ns: seq<int>): (b: Bytes)
    requires AllInts(ns)
    ensures |b| == 4 * |ns|
  {
    if ns == [] then [] else IntsBytes(ns[..|ns| - 1]) + LittleEndian(ns[|ns| - 1])
  }

  /** The i-th 32-bit field of a buffer. */
  function IntAt(src: Bytes, i: nat): int
    requires 4 * i + 4 <= |src|
  {
    IntOf(src[4 * i..4 * i + 4])
  }

  /** A buffer starts with these fields exactly if reading it field by field gives them. */
  lemma {:induction false} PrefixIsFields(ns: seq<int>, src: Bytes)
    requires AllInts(ns)
    ensures IntsBytes(ns) <= src <==> 4 * |ns| <= |src| && forall i :: 0 <= i < |ns| ==> IntAt(src, i) == ns[i]
  {
    if ns != [] {
      var n := |ns| - 1;
      PrefixIsFields(ns[..n], src);
      PrefixConcat(IntsBytes(ns[..n]), LittleEndian(ns[n]), src);
      if 4 * |ns| <= |src| { FieldIs(src, n, ns[n]); }
      hide LittleEndian, IntAt;
      assert forall i :: 0 <= i < n ==> ns[..n][i] == ns[i];
    }
  }

  lemma PrefixConcat(a: Bytes, b: Bytes, src: Bytes)
    ensures a + b <= src <==> a <= src && |a| + |b| <= |src| && src[|a|..|a| + |b|] == b
  {
    if |a| + |b| <= |src| { assert src[..|a| + |b|] == src[..|a|] + src[|a|..|a| + |b|]; }
  }

  lemma FieldIs(src: Bytes, n: nat, v: int)
    requires 4 * n + 4 <= |src| && IsInt(v)
    ensures IntAt(src, n) == v <==> src[4 * n..4 * n + 4] == LittleEndian(v)
  {
    LittleEndianInverse(src[4 * n..4 * n + 4]);
    LittleEndianRoundTrip(v);
  }

  /** serialize: None where it refuses. */
  method Serialize(h: FileHeader) returns (dest: Option<Bytes>)
    requires AllInts(h.types) && AllInts(h.lengths) && IsInt(h.firstFree) && IsInt(h.pageCount) && IsInt(h.root)
    requires IsInt(h.keyLength) && IsInt(h.order) && IsInt(h.keysRegion) && IsInt(h.firstLeaf) && IsInt(h.lastLeaf)
    ensures dest.Some? <==> Storable(h)
    ensures dest.Some? ==> AllInts(Fields(h)) && dest.value == IntsBytes(Fields(h)) && |dest.value| == h.serializedSize
  {
    if h.columnCount <= 0 || h.columnCount > MAX_COLUMNS || |h.types| != h.columnCount || |h.lengths| != h.columnCount ||
       h.serializedSize != FIXED_SIZE + 8 * h.columnCount
    {
      return None;
    }
    FieldsAreInts(h);
    var fields := Fields(h);
    var out: Bytes := [];
    for i := 0 to |fields|
      invariant out == IntsBytes(fields[..i])
    {
      assert fields[..i + 1][..i] == fields[..i];
      out := out + LittleEndian(fields[i]);
    }
    assert fields[..|fields|] == fields;
    return Some(out);
  }

  /** The fields of a buffer from index a on. */
  ghost predicate Piece(src: Bytes, a: nat, ns: seq<int>)
  {
    4 * (a + |ns|) <= |src| && AllInts(ns) && forall i :: 0 <= i < |ns| ==> ns[i] == IntAt(src, a + i)
  }

  method ReadInts(src: Bytes, a: nat, b: nat) returns (ns: seq<int>)
    requires a <= b && 4 * b <= |src|
    ensures |ns| == b - a && Piece(src, a, ns)
  {
    ns := [];
    for i := a to b
      invariant |ns| == i - a && Piece(src, a, ns)
    {
      LittleEndianInverse(src[4 * i..4 * i + 4]);
      ns := ns + [IntAt(src, i)];
    }
  }

  /** The header is well-formed and stored at the front of the buffer. */
  ghost predicate StoredIn(src: Bytes, h: FileHeader)
  {
    HeaderOk(h) && AllInts(Fields(h)) && IntsBytes(Fields(h)) <= src
  }

  lemma FieldsInOrder(h: FileHeader)
    requires |h.types| == |h.lengths| == h.columnCount
    ensures var ns, n := Fields(h), h.columnCount;
      && ns[..5] == [h.serializedSize, h.firstFree, h.pageCount, h.root, n]
      && ns[5..5 + n] == h.types && ns[5 + n..5 + 2 * n] == h.lengths
      && ns[5 + 2 * n..] == [h.keyLength, h.order, h.keysRegion, h.firstLeaf, h.lastLeaf, if h.unique then 1 else 0]
  {}

  /** The fields of a buffer from a to b, where a stored header has them. */
  lemma StoredFields(src: Bytes, h: FileHeader, a: nat, b: nat, ns: seq<int>)
    requires StoredIn(src, h) && a <= b <= |Fields(h)| && |ns| == b - a && Piece(src, a, ns)
    ensures ns == Fields(h)[a..b]
  {
    PrefixIsFields(Fields(h), src);
    forall i | 0 <= i < |ns| ensures ns[i] == Fields(h)[a + i] {
      assert IntAt(src, a + i) == Fields(h)[a + i];
    }
  }

  /** A header read field by field is the one that is stored there. */
  lemma ReadIsStored(src: Bytes, h: FileHeader, ns: seq<int>)
    requires Storable(h) && ns == Fields(h) && Piece(src, 0, ns)
    ensures AllInts(Fields(h)) && IntsBytes(Fields(h)) <= src
  {
    FieldsAreInts(h);
    PrefixIsFields(Fields(h), src);
    assert forall i :: 0 <= i < |ns| ==> ns[i] == IntAt(src, 0 + i);
  }

  method AllPositive(ns: seq<int>) returns (ok: bool, sum: int)
    ensures ok <==> forall i :: 0 <= i < |ns| ==> ns[i] > 0
    ensures ok ==> sum == Sum(ns)
  {
    sum := 0;
    for i := 0 to |ns|
      invariant (forall j :: 0 <= j < i ==> ns[j] > 0) && sum == Sum(ns[..i])
    {
      if ns[i] <= 0 { return false, sum; }
      assert ns[..i + 1][..i] == ns[..i];
      sum := sum + ns[i];
    }
    assert ns[..|ns|] == ns;
    return true, sum;
  }

  function Assemble(head: seq<int>, types: seq<int>, lengths: seq<int>, tail: seq<int>): FileHeader
    requires |head| == 5 && |tail| == 6
  {
    FileHeader(head[0], head[1], head[2], head[3], head[4], types, lengths, tail[0], tail[1], tail[2], tail[3], tail[4], tail[5] == 1)
  }

  lemma AssembleFields(head: seq<int>, types: seq<int>, lengths: seq<int>, tail: seq<int>)
    requires |head| == 5 && |tail| == 6 && (tail[5] == 0 || tail[5] == 1)
    ensures Fields(Assemble(head, types, lengths, tail)) == head + types + lengths + tail
  {}

  /** The pieces of a stored header are its fields. */
  lemma PiecesOf(src: Bytes, h: FileHeader, n: int, head: seq<int>, types: seq<int>, lengths: seq<int>, tail: seq<int>)
    requires StoredIn(src, h) && n == h.columnCount
    requires |head| == 5 && |types| == |lengths| == n && |tail| == 6
    requires Piece(src, 0, head) && Piece(src, 5, types) && Piece(src, 5 + n, lengths) && Piece(src, 5 + 2 * n, tail)
    ensures Assemble(head, types, lengths, tail) == h && (tail[5] == 0 || tail[5] == 1)
  {
    StoredInOrder(src, h);
    hide HeaderOk, IntAt, Fields;
    StoredFields(src, h, 0, 5, head);
    StoredFields(src, h, 5, 5 + n, types);
    StoredFields(src, h, 5 + n, 5 + 2 * n, lengths);
    StoredFields(src, h, 5 + 2 * n, 11 + 2 * n, tail);
    assert Fields(h)[0..5] == Fields(h)[..5];
  }

  /** The counts at the front of a stored header pass the first check. */
  lemma HeadOf(src: Bytes, h: FileHeader)
    requires StoredIn(src, h)
    ensures |src| >= FIXED_SIZE && IntAt(src, 4) == h.columnCount && IntAt(src, 0) == FIXED_SIZE + 8 * h.columnCount <= |src|
  {
    StoredInOrder(src, h);
    PrefixIsFields(Fields(h), src);
    assert Fields(h)[..5][4] == h.columnCount && Fields(h)[..5][0] == h.serializedSize;
  }

  lemma PiecesAreFields(src: Bytes, n: int, head: seq<int>, types: seq<int>, lengths: seq<int>, tail: seq<int>)
    requires 0 <= n && |head| == 5 && |types| == |lengths| == n && |tail| == 6
    requires Piece(src, 0, head) && Piece(src, 5, types) && Piece(src, 5 + n, lengths) && Piece(src, 5 + 2 * n, tail)
    ensures AllInts(head) && AllInts(types) && AllInts(lengths) && AllInts(tail)
    ensures var ns := head + types + lengths + tail; |ns| == 11 + 2 * n && Piece(src, 0, ns)
  {
    hide IntAt;
    var ns := head + types + lengths + tail;
    forall i | 0 <= i < |ns| ensures IsInt(ns[i]) && ns[i] == IntAt(src, i) {
      if i < 5 {
        assert ns[i] == head[i] == IntAt(src, 0 + i);
      } else if i < 5 + n {
        assert ns[i] == types[i - 5];
      } else if i < 5 + 2 * n {
        assert ns[i] == lengths[i - 5 - n];
      } else {
        assert ns[i] == tail[i - 5 - 2 * n];
      }
    }
  }

  lemma TailInts(tail: seq<int>)
    requires |tail| == 6 && AllInts(tail)
    ensures IsInt(tail[0]) && IsInt(tail[1]) && IsInt(tail[2]) && IsInt(tail[3]) && IsInt(tail[4])
  {}

  lemma HeadPiece(src: Bytes, head: seq<int>)
    requires |head| == 5 && Piece(src, 0, head)
    ensures |src| >= 20 && head[0] == IntAt(src, 0) && head[4] == IntAt(src, 4) && forall i :: 0 <= i < 5 ==> IsInt(head[i])
  {}

  /** Reads the fields; the checks on their values are still to come. */
  method ReadHeader(src: Bytes, ghost hint: FileHeader) returns (r: Option<FileHeader>)
    ensures r.Some? ==> Storable(r.value) && AllInts(Fields(r.value)) && IntsBytes(Fields(r.value)) <= src
    ensures StoredIn(src, hint) ==> r == Some(hint)
  {
    if StoredIn(src, hint) { HeadOf(src, hint); }
    assert StoredIn(src, hint) ==> 0 < hint.columnCount <= MAX_COLUMNS;
    hide StoredIn, IntAt, Fields, IntsBytes, Piece, AllInts;
    if |src| < FIXED_SIZE { return None; }
    var head := ReadInts(src, 0, 5);
    HeadPiece(src, head);
    var n := head[4];
    if n <= 0 || n > MAX_COLUMNS || FIXED_SIZE + 8 * n != head[0] || head[0] > |src| { return None; }
    r := ReadRest(src, head, n, hint);
  }

  /** Reads what follows the counts. */
  method ReadRest(src: Bytes, head: seq<int>, n: nat, ghost hint: FileHeader) returns (r: Option<FileHeader>)
    requires |head| == 5 && Piece(src, 0, head) && head[4] == n && 0 < n <= MAX_COLUMNS && head[0] == FIXED_SIZE + 8 * n <= |src|
    requires StoredIn(src, hint) ==> n == hint.columnCount
    ensures r.Some? ==> Storable(r.value) && AllInts(Fields(r.value)) && IntsBytes(Fields(r.value)) <= src
    ensures StoredIn(src, hint) ==> r == Some(hint)
  {
    hide StoredIn, IntAt, Fields, IntsBytes, Piece, AllInts;
    HeadPiece(src, head);
    var types := ReadInts(src, 5, 5 + n);
    var lengths := ReadInts(src, 5 + n, 5 + 2 * n);
    var tail := ReadInts(src, 5 + 2 * n, 11 + 2 * n);
    if StoredIn(src, hint) { PiecesOf(src, hint, n, head, types, lengths, tail); }
    if tail[5] != 0 && tail[5] != 1 { return None; }
    AssembleFields(head, types, lengths, tail);
    PiecesAreFields(src, n, head, types, lengths, tail);
    TailInts(tail);
    ReadIsStored(src, Assemble(head, types, lengths, tail), head + types + lengths + tail);
    return Some(Assemble(head, types, lengths, tail));
  }

  /** deserialize: None where it throws. */
  method Deserialize(src: Bytes, ghost hint: FileHeader) returns (r: Option<FileHeader>)
    ensures r.Some? ==> StoredIn(src, r.value)
    ensures StoredIn(src, hint) ==> r == Some(hint)
  {
    r := ReadHeader(src, hint);
    if r.None? { return; }
    hide IntsBytes, Fields, KeysRegion, LayoutFits, Storable;
    var h := r.value;
    var positive, sum := AllPositive(h.lengths);
    if !positive || sum != h.keyLength || h.keyLength <= 0 || h.keyLength > MAX_KEY_LENGTH || h.order <= 2 ||
       KeysRegion(h.order, h.keyLength) != Some(h.keysRegion) || !LayoutFits(h.order, h.keyLength)
    {
      return None;
    }
  }

  lemma StoredInOrder(src: Bytes, h: FileHeader)
    ensures StoredIn(src, h) ==>
      var ns, n := Fields(h), h.columnCount;
      && |src| >= h.serializedSize == 4 * |ns| && |ns| == 11 + 2 * n && 0 < n <= MAX_COLUMNS
      && ns[..5] == [h.serializedSize, h.firstFree, h.pageCount, h.root, n]
      && ns[5..5 + n] == h.types && ns[5 + n..5 + 2 * n] == h.lengths
      && ns[5 + 2 * n..11 + 2 * n] == [h.keyLength, h.order, h.keysRegion, h.firstLeaf, h.lastLeaf, if h.unique then 1 else 0]
  {
    if StoredIn(src, h) { FieldsInOrder(h); }
  }

  // ---- a new index file ------------------------------------------------------------------------

  datatype CreateResult = Made(hdr: FileHeader) | BadColumnCount | BadLength | NoLayout

  /** Columns an index may have: not too many, right lengths, a key that is not too long. */
  predicate ColumnsOk(cols: seq<Column>)
  {
    0 < |cols| <= MAX_COLUMNS && ValidColumns(cols) && Sum(Lengths(cols)) <= MAX_KEY_LENGTH
  }

  function Lengths(cols: seq<Column>): (ns: seq<int>)
    ensures |ns| == |cols| && forall i :: 0 <= i < |cols| ==> ns[i] == cols[i].len
  {
    seq(|cols|, i requires 0 <= i < |cols| => cols[i].len)
  }

  function TypeCode(t: ColType): int
  {
    match t
    case TInt => 0
    case TFloat => 1
    case TString => 2
  }

  function TypeCodes(cols: seq<Column>): (ns: seq<int>)
    ensures |ns| == |cols| && forall i :: 0 <= i < |cols| ==> ns[i] == TypeCode(cols[i].ctype)
  {
    seq(|cols|, i requires 0 <= i < |cols| => TypeCode(cols[i].ctype))
  }

  /** The stored header describes the columns: INT is 0, FLOAT is 1, STRING is 2, each with its length. */
  ghost predicate Describes(h: FileHeader, cols: seq<Column>)
  {
    && h.columnCount == |cols| == |h.types| == |h.lengths|
    && forall i :: 0 <= i < |cols| ==>
         && h.lengths[i] == cols[i].len
         && (h.types[i] == 0 <==> cols[i].ctype == TInt) && (h.types[i] == 1 <==> cols[i].ctype == TFloat)
         && (h.types[i] == 2 <==> cols[i].ctype == TString)
  }

  lemma {:induction false} LengthsGrow(cols: seq<Column>, i: nat)
    requires ValidColumns(cols) && i <= |cols|
    ensures i <= Sum(Lengths(cols[..i])) <= Sum(Lengths(cols))
    ensures forall j :: 0 <= j < i ==> 0 < cols[j].len <= Sum(Lengths(cols))
    decreases |cols| - i
  {
    if i == |cols| {
      assert cols[..i] == cols;
      LengthsBound(cols);
    } else {
      LengthsGrow(cols, i + 1);
      LengthsBound(cols[..i]);
      var c := cols[i];
      assert c in cols;
      LengthsSnoc(cols, i);
    }
  }

  lemma LengthsSnoc(cols: seq<Column>, i: nat)
    requires i < |cols|
    ensures Sum(Lengths(cols[..i + 1])) == Sum(Lengths(cols[..i])) + cols[i].len
  {
    var all := Lengths(cols[..i + 1]);
    assert all[..i] == Lengths(cols[..i]);
  }

  lemma {:induction false} LengthsBound(cols: seq<Column>)
    requires ValidColumns(cols)
    ensures Sum(Lengths(cols)) >= |cols| && forall j :: 0 <= j < |cols| ==> 0 < cols[j].len <= Sum(Lengths(cols))
  {
    if cols != [] {
      var n := |cols| - 1;
      var c := cols[n];
      assert c in cols && cols[..n + 1] == cols;
      LengthsBound(cols[..n]);
      LengthsSnoc(cols, n);
      forall j | 0 <= j < n ensures 0 < cols[j].len <= Sum(Lengths(cols)) { assert cols[..n][j] == cols[j]; }
    }
  }

  /** Adds up the key length, refusing a column or a key that is too long. */
  method MeasureKey(cols: seq<Column>) returns (r: Option<int>)
    requires 0 < |cols|
    ensures r.Some? <==> ValidColumns(cols) && Sum(Lengths(cols)) <= MAX_KEY_LENGTH
    ensures r.Some? ==> r.value == Sum(Lengths(cols)) > 0
  {
    var total := 0;
    for i := 0 to |cols|
      invariant ValidColumns(cols[..i]) && i <= total == Sum(Lengths(cols[..i])) <= MAX_KEY_LENGTH
    {
      var c := cols[i];
      assert c in cols && cols[..i + 1] == cols[..i] + [c];
      LengthsSnoc(cols, i);
      if !ValidColumn(c) { return None; }
      total := total + c.len;
      if total > MAX_KEY_LENGTH {
        if ValidColumns(cols) { LengthsGrow(cols, i + 1); }
        return None;
      }
    }
    assert cols[..|cols|] == cols;
    return Some(total);
  }

  /**
    create_index up to its file operations.  For every column list the checks admit, the
    order is the largest that fits, the search for a smaller one never runs, and the
    layout error is never raised.
   */
  method CreateIndex(cols: seq<Column>, unique: bool) returns (r: CreateResult)
    ensures r.Made? <==> ColumnsOk(cols)
    ensures r != NoLayout
    ensures r.Made? ==>
      && HeaderOk(r.hdr) && r.hdr.types == TypeCodes(cols) && r.hdr.lengths == Lengths(cols) && r.hdr.unique == unique
      && Describes(r.hdr, cols)
      && r.hdr.root == r.hdr.firstLeaf == r.hdr.lastLeaf == INITIAL_ROOT_PAGE && r.hdr.pageCount == 3
      && forall order :: LayoutFits(order, r.hdr.keyLength) ==> order <= r.hdr.order
  {
    if |cols| == 0 || |cols| > MAX_COLUMNS { return BadColumnCount; }
    var key := MeasureKey(cols);
    if key.None? { return BadLength; }
    hide LayoutFits, FirstOrder, KeysRegion, Sum, ValidColumns;
    var order := ChooseOrder(key.value);
    FirstOrderIsLargest(key.value);
    if order <= 2 || !LayoutFits(order, key.value) { return NoLayout; }
    NewHeaderOk(cols, key.value, order, unique);
    return Made(NewHeader(cols, key.value, order, unique));
  }

  /** The largest order that fits, searched downwards from the first estimate. */
  method ChooseOrder(keyLength: int) returns (order: int)
    requires 0 < keyLength <= MAX_KEY_LENGTH
    ensures order == FirstOrder(keyLength)
  {
    hide LayoutFits, FirstOrder;
    NothingAbove(keyLength);
    order := FirstOrder(keyLength);
    while order > 2 && !LayoutFits(order, keyLength)
      invariant order <= FirstOrder(keyLength) && forall o :: LayoutFits(o, keyLength) ==> o <= order
    {
      order := order - 1;
    }
    FirstOrderIsLargest(keyLength);
    assert LayoutFits(FirstOrder(keyLength), keyLength);
  }

  lemma NothingAbove(keyLength: int)
    requires 0 < keyLength <= MAX_KEY_LENGTH
    ensures forall o :: LayoutFits(o, keyLength) ==> o <= FirstOrder(keyLength)
  {
    FirstOrderIsLargest(keyLength);
  }

  function NewHeader(cols: seq<Column>, keyLength: int, order: int, unique: bool): FileHeader
    requires LayoutFits(order, keyLength)
  {
    FileHeader(FIXED_SIZE + 8 * |cols|, NO_PAGE, 3, INITIAL_ROOT_PAGE, |cols|, TypeCodes(cols), Lengths(cols),
               keyLength, order, KeysRegion(order, keyLength).value, INITIAL_ROOT_PAGE, INITIAL_ROOT_PAGE, unique)
  }

  lemma NewHeaderOk(cols: seq<Column>, keyLength: int, order: int, unique: bool)
    requires ColumnsOk(cols) && keyLength == Sum(Lengths(cols)) && order > 2 && LayoutFits(order, keyLength)
    ensures keyLength > 0 && HeaderOk(NewHeader(cols, keyLength, order, unique))
  {
    LengthsBound(cols);
    RegionIsInt(order, keyLength);
    hide ValidColumns, Sum, KeysRegion, LayoutFits;
    var h := NewHeader(cols, keyLength, order, unique);
    assert AllInts(h.types) && AllInts(h.lengths);
  }

  lemma RegionIsInt(order: int, keyLength: int)
    requires 0 < keyLength && LayoutFits(order, keyLength)
    ensures KeysRegion(order, keyLength).Some? && IsInt(KeysRegion(order, keyLength).value) && IsInt(order)
  {
    FitsExactly(order, keyLength);
    OrderBound(order, keyLength);
    AlignedBounds((order + 1) * keyLength);
    Monotone(0, order + 1, keyLength);
  }

  lemma OrderBound(order: int, keyLength: int)
    requires 0 < keyLength && order >= 0 && (order + 1) * (keyLength + RID_SIZE) <= 4072
    ensures order <= 4072
  {
    if order + 1 > 4072 { Monotone(4073, order + 1, keyLength + RID_SIZE); }
  }

  // ---- the pages of a new index ------------------------------------------------------------------

  function ZeroKey(cols: seq<Column>): Key
  {
    if KeyLen(cols) >= 0 then seq(KeyLen(cols), _ => 0) else []
  }

  function EmptyPage(cols: seq<Column>, order: nat, prev: int, next: int): Page
  {
    Page(NO_PAGE, true, 0, prev, next, seq(order + 1, _ => ZeroKey(cols)), seq(order + 1, _ => Rid(0, 0)))
  }

  /** The index file as create_index leaves it: the sentinel and one empty leaf that is the root. */
  function NewStore(cols: seq<Column>, order: nat, unique: bool): Store
  {
    Store(Header(INITIAL_ROOT_PAGE, INITIAL_ROOT_PAGE, INITIAL_ROOT_PAGE, 3, order, unique, cols),
          map[LEAF_HEADER_PAGE := EmptyPage(cols, order, INITIAL_ROOT_PAGE, INITIAL_ROOT_PAGE),
              INITIAL_ROOT_PAGE := EmptyPage(cols, order, LEAF_HEADER_PAGE, LEAF_HEADER_PAGE)],
          3)
  }

  /** A new index is a tree in order, with one empty leaf. */
  lemma NewIndexIsTree(cols: seq<Column>, order: nat, unique: bool)
    requires ValidColumns(cols) && order > 2
    ensures StoreOk(NewStore(cols, order, unique)) && IsIndexTree(NewStore(cols, order, unique), Leaf(INITIAL_ROOT_PAGE), 0)
  {
    var s, t := NewStore(cols, order, unique), Leaf(INITIAL_ROOT_PAGE);
    assert IsKey(ZeroKey(cols), cols);
    assert StoreOk(s);
    assert Pages(t) == {INITIAL_ROOT_PAGE} && Fringe(t) == [INITIAL_ROOT_PAGE];
    assert LinkOk(s, [INITIAL_ROOT_PAGE], 0);
    assert TreeOk(s, t, NO_PAGE, 0, 0);
  }
}
