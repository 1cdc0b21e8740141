/**
  Index pages and the trees they form.

  A store is the index file seen through the buffer pool: pages by number, where a page
  that cannot be fetched is absent.  Tree is the shape the child pointers describe; it
  holds page numbers only, keys are read from the store.
 */
module PageTree {
  import opened Basics
  import opened IndexKeys

  const NO_PAGE: int := -1
  const LEAF_HEADER_PAGE: int := 1
  const INITIAL_ROOT_PAGE: int := 2

  datatype Rid = Rid(page: int, slot: int)

  /** A node page: key and rid slots, of which the first size are in use. */
  datatype Page = Page(parent: int, isLeaf: bool, size: int, prev: int, next: int, keys: seq<Key>, rids: seq<Rid>)

  datatype Header = Header(root: int, firstLeaf: int, lastLeaf: int, pageCount: int, order: int,
                           unique: bool, columns: seq<Column>)

  /** Pages up to highWater are allocated. */
  datatype Store = Store(hdr: Header, pages: map<int, Page>, highWater: int)

  /**
    What is taken for granted of an open index file: a usable order and full-length slots,
    which opening checks, and columns of known types with their lengths, which it does not.
   */
  predicate StoreOk(s: Store)
  {
    && s.hdr.order > 2 && ValidColumns(s.hdr.columns)
    && forall p :: p in s.pages ==>
         && |s.pages[p].keys| == |s.pages[p].rids| == s.hdr.order + 1
         && forall k :: k in s.pages[p].keys ==> IsKey(k, s.hdr.columns)
  }

  datatype Tree = Leaf(page: int) | Node(page: int, kids: seq<Tree>)

  /** The page numbers a tree node may have. */
  ghost function Allocated(highWater: int): (ps: set<int>)
    ensures forall p :: p in ps <==> INITIAL_ROOT_PAGE <= p < highWater
  {
    if highWater <= INITIAL_ROOT_PAGE then {} else Allocated(highWater - 1) + {highWater - 1}
  }

  /** The page can be read and its size field makes sense. */
  predicate Readable(s: Store, p: int)
  {
    p in s.pages && 0 <= s.pages[p].size <= s.hdr.order + 1
  }

  function Keys(s: Store, p: int): (ks: seq<Key>)
    requires StoreOk(s) && Readable(s, p)
    ensures |ks| == s.pages[p].size && forall k :: k in ks ==> IsKey(k, s.hdr.columns)
  {
    s.pages[p].keys[..s.pages[p].size]
  }

  function EntryKey(s: Store, p: int, i: nat): (k: Key)
    requires StoreOk(s) && Readable(s, p) && i < s.pages[p].size
    ensures IsKey(k, s.hdr.columns)
  {
    assert Keys(s, p)[i] in Keys(s, p);
    Keys(s, p)[i]
  }

  function Child(s: Store, p: int, i: nat): int
    requires StoreOk(s) && Readable(s, p) && i < s.pages[p].size
  {
    s.pages[p].rids[i].page
  }

  predicate OutOfOrder(hdr: Header, a: Key, b: Key)
    requires IsKey(a, hdr.columns) && IsKey(b, hdr.columns)
  {
    var order := CompareKey(a, b, hdr.columns);
    if hdr.unique then order >= 0 else order > 0
  }

  // ---- what a tree of pages contains ----------------------------------------

  function Pages(t: Tree): set<int>
    decreases t, 1
  {
    match t
    case Leaf(p) => {p}
    case Node(p, kids) => {p} + PagesOf(kids)
  }

  function PagesOf(ts: seq<Tree>): set<int>
    decreases ts, 0
  {
    if ts == [] then {} else PagesOf(ts[..|ts| - 1]) + Pages(ts[|ts| - 1])
  }

  /** The leaf pages from left to right. */
  function Fringe(t: Tree): seq<int>
    decreases t, 1
  {
    match t
    case Leaf(p) => [p]
    case Node(_, kids) => FringeOf(kids)
  }

  function FringeOf(ts: seq<Tree>): seq<int>
    decreases ts, 0
  {
    if ts == [] then [] else FringeOf(ts[..|ts| - 1]) + Fringe(ts[|ts| - 1])
  }

  /** No page occurs twice. */
  predicate DistinctPages(t: Tree)
    decreases t, 1
  {
    t.Leaf? || (t.page !in PagesOf(t.kids) && DistinctPagesOf(t.kids))
  }

  predicate DistinctPagesOf(ts: seq<Tree>)
    decreases ts, 0
  {
    ts == [] ||
    (DistinctPagesOf(ts[..|ts| - 1]) && DistinctPages(ts[|ts| - 1]) && PagesOf(ts[..|ts| - 1]) !! Pages(ts[|ts| - 1]))
  }

  datatype Summary = Summary(minimum: Key, maximum: Key)

  /** Smallest and largest key below, as the first and last key of the outermost leaves. */
  function SummaryOf(s: Store, t: Tree): (r: Option<Summary>)
    requires StoreOk(s)
    ensures r.Some? ==> IsKey(r.value.minimum, s.hdr.columns) && IsKey(r.value.maximum, s.hdr.columns)
  {
    match t
    case Leaf(p) =>
      if !Readable(s, p) || s.pages[p].size == 0 then None
      else
        var ks := Keys(s, p);
        assert ks[0] in ks && ks[|ks| - 1] in ks;
        Some(Summary(ks[0], ks[|ks| - 1]))
    case Node(_, kids) =>
      if kids == [] then None
      else
        var first, last := SummaryOf(s, kids[0]), SummaryOf(s, kids[|kids| - 1]);
        if first.None? || last.None? then None else Some(Summary(first.value.minimum, last.value.maximum))
  }

  // ---- when a tree of pages is right -------------------------------------------

  /** Everything the checker asks of one page on its own. */
  predicate NodeOk(s: Store, p: int, parent: int)
    requires StoreOk(s)
  {
    && INITIAL_ROOT_PAGE <= p < s.highWater && Readable(s, p) && s.pages[p].parent == parent
    && s.pages[p].size <= s.hdr.order
    && (p != s.hdr.root ==> s.pages[p].size >= (s.hdr.order + 1) / 2)
    && (p == s.hdr.root && !s.pages[p].isLeaf ==> s.pages[p].size >= 2)
    && KeysAscending(s, p)
  }

  predicate KeysAscending(s: Store, p: int)
    requires StoreOk(s) && Readable(s, p)
  {
    forall i :: 0 < i < s.pages[p].size ==> InOrderAt(s, p, i)
  }

  predicate InOrderAt(s: Store, p: int, i: nat)
    requires StoreOk(s) && Readable(s, p) && 0 < i < s.pages[p].size
  {
    !OutOfOrder(s.hdr, EntryKey(s, p, i - 1), EntryKey(s, p, i))
  }

  /** The i-th key of an inner node compares equal to the smallest key of the i-th subtree. */
  predicate KeyFits(s: Store, p: int, kids: seq<Tree>, i: nat)
    requires StoreOk(s) && Readable(s, p) && i < |kids| && i < s.pages[p].size
  {
    var own := SummaryOf(s, kids[i]);
    kids[i].page == Child(s, p, i) && own.Some? && CompareKey(EntryKey(s, p, i), own.value.minimum, s.hdr.columns) == 0
  }

  /** Neighbouring subtrees do not overlap. */
  predicate SiblingsOk(s: Store, kids: seq<Tree>, i: nat)
    requires StoreOk(s) && 0 < i < |kids|
  {
    var left, own := SummaryOf(s, kids[i - 1]), SummaryOf(s, kids[i]);
    left.Some? && own.Some? && !OutOfOrder(s.hdr, left.value.maximum, own.value.minimum)
  }

  /** t is what hangs below its page: all leaves at one depth, keys and subtrees in order. */
  predicate TreeOk(s: Store, t: Tree, parent: int, depth: int, leafDepth: int)
    requires StoreOk(s)
    decreases t
  {
    && NodeOk(s, t.page, parent)
    && match t
       case Leaf(p) => s.pages[p].isLeaf && depth == leafDepth
       case Node(p, kids) =>
         && !s.pages[p].isLeaf && |kids| == s.pages[p].size
         && (forall i :: 0 <= i < |kids| ==> TreeOk(s, kids[i], p, depth + 1, leafDepth))
         && (forall i :: 0 <= i < |kids| ==> KeyFits(s, p, kids, i))
         && (forall i :: 0 < i < |kids| ==> SiblingsOk(s, kids, i))
  }

  /** The leaf pages form one chain through the sentinel, in both directions. */
  predicate ChainOk(s: Store, leaves: seq<int>)
  {
    && leaves != [] && LEAF_HEADER_PAGE in s.pages && (forall p :: p in leaves ==> p in s.pages)
    && s.hdr.firstLeaf == leaves[0] && s.hdr.lastLeaf == leaves[|leaves| - 1]
    && s.pages[LEAF_HEADER_PAGE].next == leaves[0] && s.pages[LEAF_HEADER_PAGE].prev == leaves[|leaves| - 1]
    && forall i :: 0 <= i < |leaves| ==> LinkOk(s, leaves, i)
  }

  predicate LinkOk(s: Store, leaves: seq<int>, i: nat)
    requires i < |leaves| && leaves[i] in s.pages
  {
    && s.pages[leaves[i]].prev == (if i == 0 then LEAF_HEADER_PAGE else leaves[i - 1])
    && s.pages[leaves[i]].next == (if i + 1 == |leaves| then LEAF_HEADER_PAGE else leaves[i + 1])
  }

  predicate SentinelOk(s: Store)
    requires StoreOk(s)
  {
    && LEAF_HEADER_PAGE < s.highWater && Readable(s, LEAF_HEADER_PAGE)
    && s.pages[LEAF_HEADER_PAGE].isLeaf && s.pages[LEAF_HEADER_PAGE].size == 0
    && s.pages[LEAF_HEADER_PAGE].parent == NO_PAGE
  }

  /** t is the tree of the whole index. */
  ghost predicate IsIndexTree(s: Store, t: Tree, leafDepth: int)
    requires StoreOk(s)
  {
    && t.page == s.hdr.root && TreeOk(s, t, NO_PAGE, 0, leafDepth) && DistinctPages(t)
    && SentinelOk(s) && ChainOk(s, Fringe(t)) && s.hdr.pageCount == |Pages(t)| + 2
  }

  // ---- facts about well-formed trees --------------------------------------------

  lemma {:induction false} FringeInPages(t: Tree)
    ensures Fringe(t) != [] || (t.Node? && FringeOf(t.kids) == [])
    ensures forall p :: p in Fringe(t) ==> p in Pages(t)
    decreases t, 1
  {
    if t.Node? { FringeOfInPages(t.kids); }
  }

  lemma {:induction false} FringeOfInPages(ts: seq<Tree>)
    ensures forall p :: p in FringeOf(ts) ==> p in PagesOf(ts)
    decreases ts, 0
  {
    if ts != [] {
      FringeOfInPages(ts[..|ts| - 1]);
      FringeInPages(ts[|ts| - 1]);
    }
  }

  lemma {:induction false} DistinctAt(ts: seq<Tree>, i: nat)
    requires DistinctPagesOf(ts) && i < |ts|
    ensures DistinctPages(ts[i]) && PagesOf(ts[..i]) !! Pages(ts[i]) && Pages(ts[i]) <= PagesOf(ts)
  {
    var front := ts[..|ts| - 1];
    if i < |front| {
      DistinctAt(front, i);
      assert front[..i] == ts[..i];
    }
  }

  lemma MinimumSize(order: int)
    requires order > 2
    ensures (order + 1) / 2 >= 2
  {}
}
