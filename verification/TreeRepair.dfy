/**
  In-place repairs of an index: carrying a changed first key up to the ancestors, and
  taking a leaf out of the leaf chain.
 */
module TreeRepair {
  import opened Basics
  import opened IndexKeys
  import opened PageTree
  import opened TreeOrder

  // ---- parents and the keys they hold for their children ---------------------------

  /** The first of size entries that points at child; size if there is none. */
  function FindChild(rids: seq<Rid>, size: nat, child: int): (i: nat)
    requires size <= |rids|
    ensures i <= size && forall j :: 0 <= j < i ==> rids[j].page != child
    ensures i < size ==> rids[i].page == child
  {
    if size == 0 then 0
    else
      var i := FindChild(rids, size - 1, child);
      if i == size - 1 && rids[i].page != child then size else i
  }

  function Rank(s: Store, c: int): (i: nat)
    requires StoreOk(s) && c in s.pages && Readable(s, s.pages[c].parent)
  {
    var parent := s.pages[s.pages[c].parent];
    FindChild(parent.rids, parent.size, c)
  }

  /** find_child: the caller guarantees that the node points at the child. */
  method FindChildSlot(page: Page, child: int) returns (i: nat)
    requires 0 <= page.size <= |page.rids| && exists j :: 0 <= j < page.size && page.rids[j].page == child
    ensures i == FindChild(page.rids, page.size, child) < page.size
  {
    i := 0;
    while i < page.size && page.rids[i].page != child
      invariant i <= page.size && forall j :: 0 <= j < i ==> page.rids[j].page != child
    {
      i := i + 1;
    }
  }

  /** The page's parent can be fetched and has an entry for it. */
  predicate HasParent(s: Store, c: int)
    requires StoreOk(s)
  {
    && c in s.pages && s.pages[c].parent != NO_PAGE && Readable(s, s.pages[c].parent)
    && Rank(s, c) < s.pages[s.pages[c].parent].size
  }

  /** The parent's key for the page is the page's first key, byte for byte. */
  predicate AgreesAt(s: Store, c: int)
    requires StoreOk(s) && HasParent(s, c)
  {
    s.pages[s.pages[c].parent].keys[Rank(s, c)] == s.pages[c].keys[0]
  }

  /** The key in a slot of a page, in use or not. */
  function SlotKey(s: Store, p: int, j: nat): (k: Key)
    requires StoreOk(s) && p in s.pages && j <= s.hdr.order
    ensures IsKey(k, s.hdr.columns)
  {
    assert s.pages[p].keys[j] in s.pages[p].keys;
    s.pages[p].keys[j]
  }

  /** The parent's key for the page compares equal to the page's first key, and neither holds a NaN. */
  predicate ComparesAt(s: Store, c: int)
    requires StoreOk(s) && HasParent(s, c)
  {
    var above, first := SlotKey(s, s.pages[c].parent, Rank(s, c)), SlotKey(s, c, 0);
    NoNaN(above, s.hdr.columns) && NoNaN(first, s.hdr.columns) && CompareKey(above, first, s.hdr.columns) == 0
  }

  /** The two keys are the same bytes, or compare equal. */
  predicate InStepAt(s: Store, c: int)
    requires StoreOk(s) && HasParent(s, c)
  {
    AgreesAt(s, c) || ComparesAt(s, c)
  }

  /** Neither the parent's key for the page nor the page's first key has changed. */
  predicate Untouched(s: Store, r: Store, c: int)
    requires StoreOk(s) && StoreOk(r) && HasParent(s, c) && HasParent(r, c)
  {
    && s.pages[s.pages[c].parent].keys[Rank(s, c)] == r.pages[r.pages[c].parent].keys[Rank(r, c)]
    && s.pages[c].keys[0] == r.pages[c].keys[0]
  }

  /** A way up: each page's parent is the next one, and the last has no parent to fetch. */
  ghost predicate Climbs(s: Store, path: seq<int>)
    requires StoreOk(s)
  {
    && path != [] && path[0] in s.pages
    && (forall i :: 0 < i < |path| ==> StepsUp(s, path[i - 1], path[i]))
    && path[|path| - 1] in s.pages
    && var top := s.pages[path[|path| - 1]].parent; top == NO_PAGE || top !in s.pages
  }

  ghost predicate StepsUp(s: Store, from: int, to: int)
    requires StoreOk(s)
  {
    HasParent(s, from) && s.pages[from].parent == to && !s.pages[to].isLeaf
  }

  /** Both stores hold the same pages up to the keys of inner nodes. */
  ghost predicate SameButInnerKeys(s: Store, r: Store)
  {
    && s.hdr == r.hdr && s.highWater == r.highWater && s.pages.Keys == r.pages.Keys
    && forall p :: p in s.pages ==> SamePage(s.pages[p], r.pages[p])
  }

  predicate SamePage(a: Page, b: Page)
  {
    && a.parent == b.parent && a.isLeaf == b.isLeaf && a.size == b.size && a.prev == b.prev && a.next == b.next
    && a.rids == b.rids && (a.isLeaf ==> a.keys == b.keys)
  }

  /**
    Between every page and its parent nothing has changed or the keys agree byte for byte,
    except at the page skip; and for the node they agree.
   */
  ghost predicate Repaired(s: Store, r: Store, node: int, skip: Option<int>)
    requires StoreOk(s) && StoreOk(r) && SameButInnerKeys(s, r)
  {
    forall c :: c in s.pages && HasParent(s, c) && skip != Some(c) ==>
      HasParent(r, c) && (AgreesAt(r, c) || (c != node && Untouched(s, r, c)))
  }

  /** The key slot j of page p is the one for some page on the path. */
  ghost predicate OnPath(s: Store, path: seq<int>, p: int, j: int)
    requires StoreOk(s) && Climbs(s, path)
  {
    exists i :: 0 < i < |path| && path[i] == p && StepsUp(s, path[i - 1], path[i]) && j == Rank(s, path[i - 1])
  }

  /** Only keys on the way up have changed. */
  ghost predicate ChangesOnPath(s: Store, r: Store, path: seq<int>)
    requires StoreOk(s) && StoreOk(r) && SameButInnerKeys(s, r) && Climbs(s, path)
  {
    forall p, j :: p in s.pages && 0 <= j < |s.pages[p].keys| && r.pages[p].keys[j] != s.pages[p].keys[j] ==> OnPath(s, path, p, j)
  }

  lemma {:induction false} NoSelfParent(s: Store, path: seq<int>, i: nat)
    requires StoreOk(s) && Climbs(s, path) && i < |path| && path[i] in s.pages && path[i] != NO_PAGE
    ensures s.pages[path[i]].parent != path[i]
    decreases |path| - i
  {
    if i + 1 < |path| {
      assert StepsUp(s, path[i], path[i + 1]);
      if path[i + 1] == path[i] { NoSelfParent(s, path, i + 1); }
    }
  }

  /** The store with the parent's key for page c set to c's first key. */
  function CopyKeyUp(s: Store, c: int): (r: Store)
    requires StoreOk(s) && HasParent(s, c)
    ensures StoreOk(r)
  {
    var up := s.pages[c].parent;
    var key := s.pages[c].keys[0];
    assert key in s.pages[c].keys;
    s.(pages := s.pages[up := s.pages[up].(keys := s.pages[up].keys[Rank(s, c) := key])])
  }

  lemma CopyKeyUpRepairs(s0: Store, s: Store, node: int, c: int)
    requires StoreOk(s0) && StoreOk(s) && SameButInnerKeys(s0, s) && HasParent(s, c) && Repaired(s0, s, node, Some(c))
    requires s.pages[c].parent != c && !s.pages[s.pages[c].parent].isLeaf
    ensures SameButInnerKeys(s0, CopyKeyUp(s, c)) && Repaired(s0, CopyKeyUp(s, c), node, Some(s.pages[c].parent))
  {
    var r, up := CopyKeyUp(s, c), s.pages[c].parent;
    forall d | d in s0.pages && HasParent(s0, d) && d != up
      ensures HasParent(r, d) && (AgreesAt(r, d) || (d != node && Untouched(s0, r, d)))
    {
      assert Rank(r, d) == Rank(s, d) && r.pages[d] == s.pages[d];
      if d != c {
        assert HasParent(s, d);
        assert s.pages[d].parent == up ==> Rank(s, d) != Rank(s, c);
        assert Untouched(s, r, d);
      }
    }
  }

  lemma ClimbsStill(s: Store, path: seq<int>, c: int)
    requires StoreOk(s) && HasParent(s, c) && Climbs(s, path)
    ensures Climbs(CopyKeyUp(s, c), path)
  {
    var r := CopyKeyUp(s, c);
    forall i | 0 < i < |path| ensures StepsUp(r, path[i - 1], path[i]) {
      assert StepsUp(s, path[i - 1], path[i]);
    }
  }

  // ---- taking a leaf out of the chain ---------------------------------------------------

  /** The k-th stop on the way around: the sentinel, the leaves, the sentinel again. */
  function Stop(leaves: seq<int>, k: nat): int
    requires k <= |leaves| + 1
  {
    if k == 0 || k == |leaves| + 1 then LEAF_HEADER_PAGE else leaves[k - 1]
  }

  /** The leaves are linked in a ring through the sentinel, in both directions. */
  ghost predicate Ring(s: Store, leaves: seq<int>)
  {
    && (forall k :: 0 <= k <= |leaves| ==> Stop(leaves, k) in s.pages)
    && (forall k :: 0 <= k <= |leaves| ==> RingLink(s, Stop(leaves, k), Stop(leaves, k + 1)))
  }

  predicate RingLink(s: Store, from: int, to: int)
  {
    from in s.pages && to in s.pages && s.pages[from].next == to && s.pages[to].prev == from
  }

  predicate DistinctStops(leaves: seq<int>)
  {
    && LEAF_HEADER_PAGE !in leaves
    && forall i, j :: 0 <= i < j < |leaves| ==> leaves[i] != leaves[j]
  }

  lemma LeafFetched(s: Store, leaves: seq<int>, i: nat)
    requires ChainOk(s, leaves) && i < |leaves|
    ensures leaves[i] in s.pages && LinkOk(s, leaves, i)
  {
    var p := leaves[i];
    assert p in leaves;
  }

  /** ChainOk is this ring together with the header's first and last leaf. */
  lemma ChainIsRing(s: Store, leaves: seq<int>)
    requires leaves != []
    ensures ChainOk(s, leaves) <==>
      Ring(s, leaves) && s.hdr.firstLeaf == leaves[0] && s.hdr.lastLeaf == leaves[|leaves| - 1]
  {
    if ChainOk(s, leaves) {
      forall k | 0 <= k <= |leaves|
        ensures Stop(leaves, k) in s.pages && RingLink(s, Stop(leaves, k), Stop(leaves, k + 1))
      {
        if k > 0 { LeafFetched(s, leaves, k - 1); }
        if k < |leaves| { LeafFetched(s, leaves, k); }
      }
    }
    if Ring(s, leaves) {
      forall i | 0 <= i < |leaves| ensures leaves[i] in s.pages && LinkOk(s, leaves, i) {
        assert RingLink(s, Stop(leaves, i), Stop(leaves, i + 1)) && RingLink(s, Stop(leaves, i + 1), Stop(leaves, i + 2));
      }
      assert RingLink(s, Stop(leaves, 0), Stop(leaves, 1)) && RingLink(s, Stop(leaves, |leaves|), Stop(leaves, |leaves| + 1));
    }
  }

  function SetNext(s: Store, p: int, next: int): Store
    requires p in s.pages
  {
    s.(pages := s.pages[p := s.pages[p].(next := next)])
  }

  function SetPrev(s: Store, p: int, prev: int): Store
    requires p in s.pages
  {
    s.(pages := s.pages[p := s.pages[p].(prev := prev)])
  }

  /** Where the previous page linked elsewhere, the rollback links it to the leaf instead. */
  lemma RollbackRelinks()
    ensures exists s: Store, leaf, prev, next ::
      && leaf in s.pages && prev in s.pages && s.pages[leaf].isLeaf && s.pages[leaf].prev == prev && s.pages[leaf].next == next
      && SetNext(SetNext(s, prev, next), prev, leaf) != s
  {
    var one, two := Page(NO_PAGE, true, 0, 9, 9, [], []), Page(NO_PAGE, true, 0, 2, 4, [], []);
    var s := Store(Header(3, 3, 3, 3, 3, true, []), map[2 := one, 3 := two], 5);
    var r := SetNext(SetNext(s, 2, 4), 2, 3);
    assert r.pages[2].next == 3 && s.pages[2].next == 9;
    assert 3 in s.pages && 2 in s.pages && s.pages[3].isLeaf && s.pages[3].prev == 2 && s.pages[3].next == 4;
  }

  datatype Unlinked = Unlinked | NotALeaf | NoPrevious | NoNext

  function Drop(leaves: seq<int>, i: nat): seq<int>
    requires i < |leaves|
  {
    leaves[..i] + leaves[i + 1..]
  }

  lemma DropKeepsRing(s: Store, leaves: seq<int>, i: nat)
    requires Ring(s, leaves) && DistinctStops(leaves) && i < |leaves| && leaves[i] in s.pages
    requires s.pages[leaves[i]].prev in s.pages && s.pages[leaves[i]].next in s.pages
    ensures
      var prev, next := s.pages[leaves[i]].prev, s.pages[leaves[i]].next;
      Ring(SetPrev(SetNext(s, prev, next), next, prev), Drop(leaves, i))
  {
    var rest := Drop(leaves, i);
    assert RingLink(s, Stop(leaves, i), Stop(leaves, i + 1)) && RingLink(s, Stop(leaves, i + 1), Stop(leaves, i + 2));
    var prev, next := Stop(leaves, i), Stop(leaves, i + 2);
    var r := SetPrev(SetNext(s, prev, next), next, prev);
    forall k | 0 <= k <= |rest|
      ensures Stop(rest, k) in r.pages && RingLink(r, Stop(rest, k), Stop(rest, k + 1))
    {
      if k < i {
        assert Stop(rest, k) == Stop(leaves, k) && Stop(rest, k + 1) == Stop(leaves, k + 1);
        assert RingLink(s, Stop(leaves, k), Stop(leaves, k + 1));
        StopsDiffer(leaves, k, i);
        StopsDiffer(leaves, k + 1, i + 2);
      } else if k == i {
        assert Stop(rest, k) == prev && Stop(rest, k + 1) == next;
      } else {
        assert Stop(rest, k) == Stop(leaves, k + 1) && Stop(rest, k + 1) == Stop(leaves, k + 2);
        assert RingLink(s, Stop(leaves, k + 1), Stop(leaves, k + 2));
        StopsDiffer(leaves, i, k + 1);
        StopsDiffer(leaves, i + 2, k + 2);
      }
    }
  }

  /** The store with the ends of the leaf chain in its header. */
  function WithEnds(s: Store, leaves: seq<int>): Store
    requires leaves != []
  {
    s.(hdr := s.hdr.(firstLeaf := leaves[0], lastLeaf := leaves[|leaves| - 1]))
  }

  lemma RingIsChain(s: Store, leaves: seq<int>)
    requires leaves != [] && Ring(s, leaves)
    ensures ChainOk(WithEnds(s, leaves), leaves)
  {
    var r := WithEnds(s, leaves);
    forall k | 0 <= k <= |leaves| ensures Stop(leaves, k) in r.pages && RingLink(r, Stop(leaves, k), Stop(leaves, k + 1)) {
      assert RingLink(s, Stop(leaves, k), Stop(leaves, k + 1));
    }
    ChainIsRing(r, leaves);
  }

  lemma StopsDiffer(leaves: seq<int>, j: nat, k: nat)
    requires DistinctStops(leaves) && j < k <= |leaves| + 1 && !(j == 0 && k == |leaves| + 1)
    ensures Stop(leaves, j) != Stop(leaves, k)
  {
    if 0 < j { assert leaves[j - 1] in leaves; }
    if k <= |leaves| { assert leaves[k - 1] in leaves; }
  }

  // ---- the operations ----------------------------------------------------------------

  class Index {
    var s: Store

    constructor (s: Store)
      ensures this.s == s
    {
      this.s := s;
    }

    /** Carries the first key of a page up, until an ancestor already holds the right key. */
    method UpdateAncestorKeys(node: int, ghost path: seq<int>)
      requires StoreOk(s) && Climbs(s, path) && path[0] == node
      modifies this
      ensures StoreOk(s) && SameButInnerKeys(old(s), s) && Repaired(old(s), s, node, None)
      ensures ChangesOnPath(old(s), s, path)
    {
      var current := node;
      ghost var i := 0;
      while s.pages[current].parent != NO_PAGE && s.pages[current].parent in s.pages
        invariant i < |path| && current == path[i] && current in s.pages
        invariant StoreOk(s) && SameButInnerKeys(old(s), s) && Climbs(s, path)
        invariant Repaired(old(s), s, node, Some(current)) && ChangesOnPath(old(s), s, path)
        decreases |path| - i
      {
        assert i + 1 < |path|;
        assert StepsUp(s, current, path[i + 1]) && StepsUp(old(s), path[i], path[i + 1]);
        var rank := FindChildSlot(s.pages[s.pages[current].parent], current);
        if s.pages[s.pages[current].parent].keys[rank] == s.pages[current].keys[0] { return; }
        if s.pages[current].parent == current { NoSelfParent(s, path, i); }
        CopyKeyUpRepairs(old(s), s, node, current);
        ClimbsStill(s, path, current);
        var up := s.pages[current].parent;
        s := CopyKeyUp(s, current);
        current := up;
        i := i + 1;
      }
    }

    /** Repairs an index in which at most this page is out of step with its parent. */
    method RepairIndex(node: int, ghost t: Tree, ghost leafDepth: int)
      requires StoreOk(s) && IsIndexOutline(s, t, leafDepth) && CleanLeaves(s, Fringe(t))
      requires node in Pages(t) && InStepBut(s, t, node)
      modifies this
      ensures StoreOk(s) && IsIndexTree(s, t, leafDepth) && SameButInnerKeys(old(s), s)
    {
      ghost var path := ClimbFrom(s, t, leafDepth, node);
      hide *;
      UpdateAncestorKeys(node, path);
      RepairRestoresIndex(old(s), s, t, leafDepth, node);
    }

    /**
      Links the leaf's neighbours to each other.  The flags say which fetches succeed:
      of the previous page, of the next, and of the previous again for the rollback.
     */
    method UnlinkLeaf(leaf: int, fetchPrev: bool, fetchNext: bool, fetchAgain: bool) returns (r: Unlinked)
      requires leaf in s.pages && (fetchPrev ==> s.pages[leaf].prev in s.pages) && (fetchNext ==> s.pages[leaf].next in s.pages)
      modifies this
      ensures r == NotALeaf <==> !old(s.pages[leaf].isLeaf)
      ensures r == NoPrevious <==> old(s.pages[leaf].isLeaf) && !fetchPrev
      ensures r == NoNext <==> old(s.pages[leaf].isLeaf) && fetchPrev && !fetchNext
      ensures r == NotALeaf || r == NoPrevious ==> s == old(s)
      // the rollback undoes the half-done step exactly if the chain was linked here
      ensures r == NoNext && fetchAgain ==> (s == old(s) <==> old(s.pages[s.pages[leaf].prev].next) == leaf)
      ensures r == NoNext && !fetchAgain ==> s == SetNext(old(s), old(s.pages[leaf].prev), old(s.pages[leaf].next))
      // nothing but the two links has changed
      ensures r == Unlinked ==>
        var prev, next := old(s.pages[leaf].prev), old(s.pages[leaf].next);
        s == SetPrev(SetNext(old(s), prev, next), next, prev)
      ensures r == Unlinked ==> forall leaves, i ::
        Ring(old(s), leaves) && DistinctStops(leaves) && 0 <= i < |leaves| && leaves[i] == leaf ==> Ring(s, Drop(leaves, i))
      ensures r == Unlinked ==> forall leaves, i ::
        ChainOk(old(s), leaves) && DistinctStops(leaves) && |leaves| > 1 && 0 <= i < |leaves| && leaves[i] == leaf ==>
          ChainOk(WithEnds(s, Drop(leaves, i)), Drop(leaves, i))
    {
      if !s.pages[leaf].isLeaf { return NotALeaf; }
      var prev, next := s.pages[leaf].prev, s.pages[leaf].next;
      if !fetchPrev { return NoPrevious; }
      s := SetNext(s, prev, next);
      if !fetchNext {
        if fetchAgain {
          s := SetNext(s, prev, leaf);
          var page := old(s).pages[prev];
          assert s.pages[prev] == page.(next := leaf);
          if page.next == leaf { assert s.pages == old(s).pages; }
        }
        return NoNext;
      }
      s := SetPrev(s, next, prev);
      r := Unlinked;
      forall leaves, i | Ring(old(s), leaves) && DistinctStops(leaves) && 0 <= i < |leaves| && leaves[i] == leaf
        ensures Ring(s, Drop(leaves, i))
      {
        DropKeepsRing(old(s), leaves, i);
      }
      forall leaves, i | ChainOk(old(s), leaves) && DistinctStops(leaves) && |leaves| > 1 && 0 <= i < |leaves| && leaves[i] == leaf
        ensures ChainOk(WithEnds(s, Drop(leaves, i)), Drop(leaves, i))
      {
        ChainIsRing(old(s), leaves);
        RingIsChain(s, Drop(leaves, i));
      }
    }
  }

  // ---- what a repair gives back ------------------------------------------------------

  /** Everything a tree owes except the keys of its inner nodes. */
  predicate OutlineOk(s: Store, t: Tree, parent: int, depth: int, leafDepth: int)
    requires StoreOk(s)
    decreases t
  {
    && PageOk(s, t.page, parent)
    && match t
       case Leaf(p) => s.pages[p].isLeaf && depth == leafDepth && KeysAscending(s, p)
       case Node(p, kids) =>
         && !s.pages[p].isLeaf && |kids| == s.pages[p].size
         && (forall i :: 0 <= i < |kids| ==> OutlineOk(s, kids[i], p, depth + 1, leafDepth))
         && (forall i :: 0 <= i < |kids| ==> PointsAt(s, p, kids, i))
         && (forall i :: 0 < i < |kids| ==> SiblingsOk(s, kids, i))
  }

  predicate PageOk(s: Store, p: int, parent: int)
  {
    && INITIAL_ROOT_PAGE <= p < s.highWater && Readable(s, p) && s.pages[p].parent == parent
    && s.pages[p].size <= s.hdr.order
    && (p != s.hdr.root ==> s.pages[p].size >= (s.hdr.order + 1) / 2)
    && (p == s.hdr.root && !s.pages[p].isLeaf ==> s.pages[p].size >= 2)
  }

  predicate PointsAt(s: Store, p: int, kids: seq<Tree>, i: nat)
    requires StoreOk(s) && Readable(s, p) && i < |kids| && i < s.pages[p].size
  {
    kids[i].page == Child(s, p, i) && SummaryOf(s, kids[i]).Some?
  }

  /** The parent's key for the i-th subtree compares equal to the first key of its page. */
  predicate KeyAgrees(s: Store, t: Tree, i: nat)
    requires StoreOk(s) && t.Node? && Readable(s, t.page) && |t.kids| == s.pages[t.page].size && i < |t.kids|
  {
    && t.kids[i].page in s.pages && NoNaN(EntryKey(s, t.page, i), s.hdr.columns)
    && NoNaN(SlotKey(s, t.kids[i].page, 0), s.hdr.columns)
    && CompareKey(EntryKey(s, t.page, i), SlotKey(s, t.kids[i].page, 0), s.hdr.columns) == 0
  }

  /** Every page below t agrees with its parent. */
  predicate Agrees(s: Store, t: Tree)
    requires StoreOk(s)
    decreases t
  {
    t.Node? ==>
      && Readable(s, t.page) && |t.kids| == s.pages[t.page].size
      && (forall i :: 0 <= i < |t.kids| ==> Agrees(s, t.kids[i]))
      && (forall i :: 0 <= i < |t.kids| ==> KeyAgrees(s, t, i))
  }

  lemma EqualTransitive(a: Key, b: Key, d: Key, cols: seq<Column>)
    requires IsKey(a, cols) && IsKey(b, cols) && IsKey(d, cols)
    requires NoNaN(a, cols) && NoNaN(b, cols) && NoNaN(d, cols)
    requires CompareKey(a, b, cols) == 0 && CompareKey(b, d, cols) == 0
    ensures CompareKey(a, d, cols) == 0
  {
    CompareKeyTransitive(a, b, d, cols);
    CompareKeyFlips(a, b, cols);
    CompareKeyFlips(b, d, cols);
    CompareKeyTransitive(d, b, a, cols);
    CompareKeyFlips(a, d, cols);
  }

  /** Keys that compare equal are in the same order to every other key. */
  lemma EqualKeysOrder(hdr: Header, a: Key, x: Key, b: Key, y: Key)
    requires IsKey(a, hdr.columns) && IsKey(x, hdr.columns) && IsKey(b, hdr.columns) && IsKey(y, hdr.columns)
    requires NoNaN(a, hdr.columns) && NoNaN(x, hdr.columns) && NoNaN(b, hdr.columns) && NoNaN(y, hdr.columns)
    requires CompareKey(a, x, hdr.columns) == 0 && CompareKey(b, y, hdr.columns) == 0 && !OutOfOrder(hdr, x, y)
    ensures !OutOfOrder(hdr, a, b)
  {
    var cols := hdr.columns;
    CompareKeyFlips(b, y, cols);
    CompareKeyTransitive(a, x, y, cols);
    CompareKeyTransitive(a, y, b, cols);
  }

  lemma {:induction false} FirstKeyIsMinimum(s: Store, t: Tree, parent: int, depth: int, leafDepth: int)
    requires StoreOk(s) && OutlineOk(s, t, parent, depth, leafDepth) && Agrees(s, t) && SummaryOf(s, t).Some?
    requires CleanLeaves(s, Fringe(t))
    ensures NoNaN(SlotKey(s, t.page, 0), s.hdr.columns) && NoNaN(SummaryOf(s, t).value.minimum, s.hdr.columns)
    ensures CompareKey(SlotKey(s, t.page, 0), SummaryOf(s, t).value.minimum, s.hdr.columns) == 0
  {
    match t
    case Leaf(p) =>
      assert EntryKey(s, p, 0) == SlotKey(s, p, 0);
      CompareKeyFlips(SlotKey(s, p, 0), SlotKey(s, p, 0), s.hdr.columns);
    case Node(p, kids) =>
      KidFringe(kids, 0);
      FirstKeyIsMinimum(s, kids[0], p, depth + 1, leafDepth);
      assert KeyAgrees(s, t, 0) && EntryKey(s, p, 0) == SlotKey(s, p, 0);
      EqualTransitive(SlotKey(s, p, 0), SlotKey(s, kids[0].page, 0), SummaryOf(s, t).value.minimum, s.hdr.columns);
  }

  // ---- from single pages to the whole tree ---------------------------------------------

  lemma {:induction false} RootInPages(ts: seq<Tree>, i: nat)
    requires i < |ts|
    ensures ts[i].page in PagesOf(ts) && Pages(ts[i]) <= PagesOf(ts)
  {
    var front := ts[..|ts| - 1];
    if i < |front| { RootInPages(front, i); }
  }

  lemma {:induction false} PageInKid(ts: seq<Tree>, c: int) returns (i: nat)
    requires c in PagesOf(ts)
    ensures i < |ts| && c in Pages(ts[i])
  {
    var front := ts[..|ts| - 1];
    if c in PagesOf(front) { i := PageInKid(front, c); } else { i := |front|; }
  }

  /** In a tree without repeated pages the i-th child is found at slot i. */
  lemma KidRank(s: Store, t: Tree, parent: int, depth: int, leafDepth: int, i: nat)
    requires StoreOk(s) && t.Node? && OutlineOk(s, t, parent, depth, leafDepth) && DistinctPages(t) && i < |t.kids|
    ensures HasParent(s, t.kids[i].page) && s.pages[t.kids[i].page].parent == t.page && Rank(s, t.kids[i].page) == i
  {
    var c := t.kids[i].page;
    assert OutlineOk(s, t.kids[i], t.page, depth + 1, leafDepth);
    assert PointsAt(s, t.page, t.kids, i);
    forall j | 0 <= j < i ensures s.pages[t.page].rids[j].page != c {
      assert PointsAt(s, t.page, t.kids, j);
      DistinctAt(t.kids, i);
      RootInPages(t.kids[..i], j);
    }
  }

  /** Every page below the root has its parent in the tree, and the root page is above it. */
  lemma {:induction false} PathUp(s: Store, t: Tree, parent: int, depth: int, leafDepth: int, c: int) returns (path: seq<int>)
    requires StoreOk(s) && OutlineOk(s, t, parent, depth, leafDepth) && DistinctPages(t) && c in Pages(t)
    ensures path != [] && path[0] == c && path[|path| - 1] == t.page && c in s.pages
    ensures forall i :: 0 < i < |path| ==> StepsUp(s, path[i - 1], path[i])
    ensures c != t.page ==> HasParent(s, c)
  {
    if c == t.page {
      path := [c];
    } else {
      var k := PageInKid(t.kids, c);
      DistinctAt(t.kids, k);
      var below := PathUp(s, t.kids[k], t.page, depth + 1, leafDepth, c);
      KidRank(s, t, parent, depth, leafDepth, k);
      path := below + [t.page];
      forall i | 0 < i < |path| ensures StepsUp(s, path[i - 1], path[i]) {
        if i < |below| { assert StepsUp(s, below[i - 1], below[i]); }
      }
    }
  }

  /** In the repaired store every page of the tree agrees with its parent, if all but the node did before. */
  lemma {:induction false} AgreesBelow(s: Store, r: Store, t: Tree, parent: int, depth: int, leafDepth: int, node: int)
    requires StoreOk(s) && StoreOk(r) && SameButInnerKeys(s, r) && Repaired(s, r, node, None)
    requires OutlineOk(s, t, parent, depth, leafDepth) && OutlineOk(r, t, parent, depth, leafDepth) && DistinctPages(t)
    requires CleanLeaves(r, Fringe(t))
    requires forall c :: c in Pages(t) && c != t.page && c != node && HasParent(s, c) ==> InStepAt(s, c)
    ensures Agrees(r, t) && (r.pages[t.page].size > 0 ==> NoNaN(SlotKey(r, t.page, 0), r.hdr.columns))
  {
    match t
    case Leaf(p) =>
      if r.pages[p].size > 0 { assert EntryKey(r, p, 0) == SlotKey(r, p, 0); }
    case Node(p, kids) =>
      forall i | 0 <= i < |kids| ensures Agrees(r, kids[i]) && KeyAgrees(r, t, i) {
        DistinctAt(kids, i);
        KidFringe(kids, i);
        AgreesBelow(s, r, kids[i], p, depth + 1, leafDepth, node);
        SomeKey(r, t, parent, depth, leafDepth, i);
        AgreesKid(s, r, t, parent, depth, leafDepth, node, i);
      }
      if r.pages[p].size > 0 {
        assert KeyAgrees(r, t, 0);
        assert EntryKey(r, p, 0) == SlotKey(r, p, 0);
      }
  }

  /** A subtree below an inner page is not empty. */
  lemma SomeKey(s: Store, t: Tree, parent: int, depth: int, leafDepth: int, i: nat)
    requires StoreOk(s) && t.Node? && OutlineOk(s, t, parent, depth, leafDepth) && i < |t.kids|
    ensures t.kids[i].page in s.pages && s.pages[t.kids[i].page].size > 0
  {
    assert PointsAt(s, t.page, t.kids, i);
    assert OutlineOk(s, t.kids[i], t.page, depth + 1, leafDepth);
  }

  lemma AgreesKid(s: Store, r: Store, t: Tree, parent: int, depth: int, leafDepth: int, node: int, i: nat)
    requires StoreOk(s) && StoreOk(r) && SameButInnerKeys(s, r) && Repaired(s, r, node, None) && t.Node?
    requires OutlineOk(s, t, parent, depth, leafDepth) && OutlineOk(r, t, parent, depth, leafDepth) && DistinctPages(t)
    requires i < |t.kids| && forall c :: c in Pages(t) && c != t.page && c != node && HasParent(s, c) ==> InStepAt(s, c)
    requires t.kids[i].page in r.pages && NoNaN(SlotKey(r, t.kids[i].page, 0), r.hdr.columns)
    ensures KeyAgrees(r, t, i)
  {
    var c := t.kids[i].page;
    DistinctAt(t.kids, i);
    RootInPages(t.kids, i);
    KidRank(s, t, parent, depth, leafDepth, i);
    KidRank(r, t, parent, depth, leafDepth, i);
    assert EntryKey(r, t.page, i) == SlotKey(r, t.page, i);
    CompareKeyFlips(SlotKey(r, c, 0), SlotKey(r, c, 0), r.hdr.columns);
    if !AgreesAt(r, c) {
      assert Untouched(s, r, c) && InStepAt(s, c) && ComparesAt(s, c);
      assert SlotKey(r, t.page, i) == SlotKey(s, t.page, i) && SlotKey(r, c, 0) == SlotKey(s, c, 0);
    }
  }

  /** No NaN in the keys of the leaves. */
  ghost predicate CleanLeaves(s: Store, ps: seq<int>)
    requires StoreOk(s)
  {
    forall p, i {:trigger EntryKey(s, p, i)} :: p in ps && Readable(s, p) && 0 <= i < s.pages[p].size ==>
      NoNaN(EntryKey(s, p, i), s.hdr.columns)
  }

  lemma {:induction false} CleanEntries(s: Store, ps: seq<int>)
    requires StoreOk(s) && Leaves(s, ps) && CleanLeaves(s, ps)
    ensures AllKeys(s, Entries(s, ps)) && NaNFree(s, Entries(s, ps))
  {
    EntriesAreKeys(s, ps);
    if ps != [] {
      CleanEntries(s, ps[..|ps| - 1]);
      var p := ps[|ps| - 1];
      forall i | 0 <= i < s.pages[p].size ensures NoNaN(PageEntries(s, p)[i].key, s.hdr.columns) {
        assert PageEntries(s, p)[i].key == EntryKey(s, p, i);
      }
    }
  }

  lemma {:induction false} KidFringe(ts: seq<Tree>, i: nat)
    requires i < |ts|
    ensures forall p :: p in Fringe(ts[i]) ==> p in FringeOf(ts)
  {
    var front := ts[..|ts| - 1];
    if i < |front| { KidFringe(front, i); }
  }

  /** A subtree's smallest key is at or below its largest, strictly unless they are one entry. */
  lemma MinimumBelowNext(s: Store, kid: Tree, parent: int, depth: int, leafDepth: int, next: Key)
    requires StoreOk(s) && TreeOk(s, kid, parent, depth, leafDepth) && SummaryOf(s, kid).Some?
    requires CleanLeaves(s, Fringe(kid)) && IsKey(next, s.hdr.columns) && NoNaN(next, s.hdr.columns)
    requires !OutOfOrder(s.hdr, SummaryOf(s, kid).value.maximum, next)
    ensures !OutOfOrder(s.hdr, SummaryOf(s, kid).value.minimum, next)
  {
    TreeSpans(s, kid, parent, depth, leafDepth);
    CleanEntries(s, Fringe(kid));
    var es := Entries(s, Fringe(kid));
    if |es| > 1 {
      OrderedFrom(s, es, 0, |es| - 1);
      CompareKeyTransitive(es[0].key, es[|es| - 1].key, next, s.hdr.columns);
    }
  }

  /** The key for a subtree compares equal to its smallest key. */
  lemma KeyIsMinimum(s: Store, t: Tree, parent: int, depth: int, leafDepth: int, i: nat)
    requires StoreOk(s) && t.Node? && OutlineOk(s, t, parent, depth, leafDepth) && Agrees(s, t) && CleanLeaves(s, Fringe(t))
    requires i < |t.kids|
    ensures SummaryOf(s, t.kids[i]).Some? && KeyFits(s, t.page, t.kids, i) && NoNaN(EntryKey(s, t.page, i), s.hdr.columns)
    ensures NoNaN(SummaryOf(s, t.kids[i]).value.minimum, s.hdr.columns) && CleanLeaves(s, Fringe(t.kids[i]))
  {
    assert PointsAt(s, t.page, t.kids, i) && KeyAgrees(s, t, i);
    KidFringe(t.kids, i);
    var kid := t.kids[i];
    FirstKeyIsMinimum(s, kid, t.page, depth + 1, leafDepth);
    EqualTransitive(EntryKey(s, t.page, i), SlotKey(s, kid.page, 0), SummaryOf(s, kid).value.minimum, s.hdr.columns);
  }

  /** An outline whose pages all agree with their parents is a tree in order. */
  lemma {:induction false} OutlineIsTree(s: Store, t: Tree, parent: int, depth: int, leafDepth: int)
    requires StoreOk(s) && OutlineOk(s, t, parent, depth, leafDepth) && Agrees(s, t) && CleanLeaves(s, Fringe(t))
    ensures TreeOk(s, t, parent, depth, leafDepth)
  {
    if t.Node? {
      var p, kids := t.page, t.kids;
      forall i | 0 <= i < |kids| ensures TreeOk(s, kids[i], p, depth + 1, leafDepth) && KeyFits(s, p, kids, i) {
        KeyIsMinimum(s, t, parent, depth, leafDepth, i);
        OutlineIsTree(s, kids[i], p, depth + 1, leafDepth);
      }
      forall i | 0 < i < s.pages[p].size ensures InOrderAt(s, p, i) {
        KeysInOrder(s, t, parent, depth, leafDepth, i);
      }
    }
  }

  /** A key equal to the smallest key of a subtree is in order with a key equal to the smallest of the next. */
  lemma MinimaInOrder(s: Store, left: Tree, parent: int, depth: int, leafDepth: int, a: Key, least: Key, b: Key)
    requires StoreOk(s) && TreeOk(s, left, parent, depth, leafDepth) && SummaryOf(s, left).Some? && CleanLeaves(s, Fringe(left))
    requires IsKey(a, s.hdr.columns) && IsKey(b, s.hdr.columns) && IsKey(least, s.hdr.columns)
    requires NoNaN(a, s.hdr.columns) && NoNaN(b, s.hdr.columns) && NoNaN(least, s.hdr.columns)
    requires NoNaN(SummaryOf(s, left).value.minimum, s.hdr.columns)
    requires CompareKey(a, SummaryOf(s, left).value.minimum, s.hdr.columns) == 0 && CompareKey(b, least, s.hdr.columns) == 0
    requires !OutOfOrder(s.hdr, SummaryOf(s, left).value.maximum, least)
    ensures !OutOfOrder(s.hdr, a, b)
  {
    hide *;
    MinimumBelowNext(s, left, parent, depth, leafDepth, least);
    EqualKeysOrder(s.hdr, a, SummaryOf(s, left).value.minimum, b, least);
  }

  lemma KeysInOrder(s: Store, t: Tree, parent: int, depth: int, leafDepth: int, i: nat)
    requires StoreOk(s) && t.Node? && OutlineOk(s, t, parent, depth, leafDepth) && Agrees(s, t) && CleanLeaves(s, Fringe(t))
    requires 0 < i < |t.kids| && TreeOk(s, t.kids[i - 1], t.page, depth + 1, leafDepth)
    ensures InOrderAt(s, t.page, i)
  {
    var p, left, own := t.page, t.kids[i - 1], t.kids[i];
    KeyIsMinimum(s, t, parent, depth, leafDepth, i - 1);
    KeyIsMinimum(s, t, parent, depth, leafDepth, i);
    assert SiblingsOk(s, t.kids, i);
    MinimaInOrder(s, left, p, depth + 1, leafDepth, EntryKey(s, p, i - 1), SummaryOf(s, own).value.minimum, EntryKey(s, p, i));
  }

  // ---- the theorem -----------------------------------------------------------------------

  /** Everything an index owes except the keys of its inner nodes. */
  ghost predicate IsIndexOutline(s: Store, t: Tree, leafDepth: int)
    requires StoreOk(s)
  {
    && t.page == s.hdr.root && OutlineOk(s, t, NO_PAGE, 0, leafDepth) && DistinctPages(t)
    && SentinelOk(s) && ChainOk(s, Fringe(t)) && s.hdr.pageCount == |Pages(t)| + 2
  }

  lemma {:induction false} SameSummary(s: Store, r: Store, t: Tree, parent: int, depth: int, leafDepth: int)
    requires StoreOk(s) && StoreOk(r) && SameButInnerKeys(s, r) && OutlineOk(s, t, parent, depth, leafDepth)
    ensures SummaryOf(r, t) == SummaryOf(s, t)
  {
    if t.Node? && t.kids != [] {
      SameSummary(s, r, t.kids[0], t.page, depth + 1, leafDepth);
      SameSummary(s, r, t.kids[|t.kids| - 1], t.page, depth + 1, leafDepth);
    }
  }

  lemma {:induction false} SameOutline(s: Store, r: Store, t: Tree, parent: int, depth: int, leafDepth: int)
    requires StoreOk(s) && StoreOk(r) && SameButInnerKeys(s, r) && OutlineOk(s, t, parent, depth, leafDepth)
    ensures OutlineOk(r, t, parent, depth, leafDepth)
  {
    match t
    case Leaf(p) =>
      forall i | 0 < i < r.pages[p].size ensures InOrderAt(r, p, i) {
        assert InOrderAt(s, p, i);
      }
    case Node(p, kids) =>
      forall i | 0 <= i < |kids| ensures OutlineOk(r, kids[i], p, depth + 1, leafDepth) && PointsAt(r, p, kids, i) {
        SameOutline(s, r, kids[i], p, depth + 1, leafDepth);
        SameSummary(s, r, kids[i], p, depth + 1, leafDepth);
        assert PointsAt(s, p, kids, i);
      }
      forall i | 0 < i < |kids| ensures SiblingsOk(r, kids, i) {
        SameSummary(s, r, kids[i - 1], p, depth + 1, leafDepth);
        SameSummary(s, r, kids[i], p, depth + 1, leafDepth);
        assert SiblingsOk(s, kids, i);
      }
  }

  lemma {:induction false} FringeReadable(s: Store, t: Tree, parent: int, depth: int, leafDepth: int)
    requires StoreOk(s) && OutlineOk(s, t, parent, depth, leafDepth)
    ensures forall p :: p in Fringe(t) ==> Readable(s, p) && s.pages[p].isLeaf
    decreases t, 1
  {
    if t.Node? { KidsFringeReadable(s, t.kids, t.page, depth, leafDepth); }
  }

  lemma {:induction false} KidsFringeReadable(s: Store, kids: seq<Tree>, p: int, depth: int, leafDepth: int)
    requires StoreOk(s) && forall i :: 0 <= i < |kids| ==> OutlineOk(s, kids[i], p, depth + 1, leafDepth)
    ensures forall q :: q in FringeOf(kids) ==> Readable(s, q) && s.pages[q].isLeaf
    decreases kids, 0
  {
    if kids != [] {
      KidsFringeReadable(s, kids[..|kids| - 1], p, depth, leafDepth);
      FringeReadable(s, kids[|kids| - 1], p, depth + 1, leafDepth);
    }
  }

  lemma SameLeaves(s: Store, r: Store, leaves: seq<int>)
    requires StoreOk(s) && StoreOk(r) && SameButInnerKeys(s, r)
    requires forall p :: p in leaves ==> Readable(s, p) && s.pages[p].isLeaf
    ensures CleanLeaves(s, leaves) ==> CleanLeaves(r, leaves)
    ensures ChainOk(s, leaves) ==> ChainOk(r, leaves)
  {
    if CleanLeaves(s, leaves) {
      forall p, i | p in leaves && Readable(r, p) && 0 <= i < r.pages[p].size
        ensures NoNaN(EntryKey(r, p, i), r.hdr.columns)
      {
        assert EntryKey(r, p, i) == EntryKey(s, p, i);
      }
    }
    if ChainOk(s, leaves) {
      forall i | 0 <= i < |leaves| ensures leaves[i] in r.pages && LinkOk(r, leaves, i) {
        LeafFetched(s, leaves, i);
        var p := leaves[i];
        assert SamePage(s.pages[p], r.pages[p]);
      }
    }
  }

  /** Every page of the tree but the node, and the root, is in step with its parent. */
  ghost predicate InStepBut(s: Store, t: Tree, node: int)
    requires StoreOk(s)
  {
    forall c :: c in Pages(t) && c != t.page && c != node && HasParent(s, c) ==> InStepAt(s, c)
  }

  /**
    A page whose first key changed, in an index that is otherwise in order: after its
    ancestors are repaired, the index is in order.
   */
  lemma RepairRestoresIndex(s: Store, r: Store, t: Tree, leafDepth: int, node: int)
    requires StoreOk(s) && StoreOk(r) && IsIndexOutline(s, t, leafDepth) && CleanLeaves(s, Fringe(t))
    requires InStepBut(s, t, node) && SameButInnerKeys(s, r) && Repaired(s, r, node, None)
    ensures IsIndexTree(r, t, leafDepth)
  {
    SameOutline(s, r, t, NO_PAGE, 0, leafDepth);
    FringeReadable(s, t, NO_PAGE, 0, leafDepth);
    SameLeaves(s, r, Fringe(t));
    AgreesBelow(s, r, t, NO_PAGE, 0, leafDepth, node);
    OutlineIsTree(r, t, NO_PAGE, 0, leafDepth);
  }

  /** Every page of an index has a way up to the root. */
  lemma ClimbFrom(s: Store, t: Tree, leafDepth: int, c: int) returns (path: seq<int>)
    requires StoreOk(s) && IsIndexOutline(s, t, leafDepth) && c in Pages(t)
    ensures Climbs(s, path) && path[0] == c
  {
    path := PathUp(s, t, NO_PAGE, 0, leafDepth, c);
  }

  // ---- a checked index is in step ------------------------------------------------------------

  /** No NaN in the keys of the tree's pages. */
  ghost predicate CleanPages(s: Store, ps: set<int>)
    requires StoreOk(s)
  {
    forall p, i {:trigger EntryKey(s, p, i)} :: p in ps && Readable(s, p) && 0 <= i < s.pages[p].size ==>
      NoNaN(EntryKey(s, p, i), s.hdr.columns)
  }

  lemma {:induction false} TreeHasOutline(s: Store, t: Tree, parent: int, depth: int, leafDepth: int)
    requires StoreOk(s) && TreeOk(s, t, parent, depth, leafDepth)
    ensures OutlineOk(s, t, parent, depth, leafDepth)
  {
    if t.Node? {
      forall i | 0 <= i < |t.kids| ensures OutlineOk(s, t.kids[i], t.page, depth + 1, leafDepth) && PointsAt(s, t.page, t.kids, i) {
        TreeHasOutline(s, t.kids[i], t.page, depth + 1, leafDepth);
        assert KeyFits(s, t.page, t.kids, i);
      }
    }
  }

  /** The first key of a page compares equal to the smallest key below it. */
  lemma {:induction false} FirstKeyFits(s: Store, t: Tree, parent: int, depth: int, leafDepth: int)
    requires StoreOk(s) && TreeOk(s, t, parent, depth, leafDepth) && SummaryOf(s, t).Some? && CleanPages(s, Pages(t))
    ensures NoNaN(SlotKey(s, t.page, 0), s.hdr.columns) && NoNaN(SummaryOf(s, t).value.minimum, s.hdr.columns)
    ensures CompareKey(SlotKey(s, t.page, 0), SummaryOf(s, t).value.minimum, s.hdr.columns) == 0
  {
    match t
    case Leaf(p) =>
      assert EntryKey(s, p, 0) == SlotKey(s, p, 0);
      CompareKeyFlips(SlotKey(s, p, 0), SlotKey(s, p, 0), s.hdr.columns);
    case Node(p, kids) =>
      RootInPages(kids, 0);
      assert KeyFits(s, p, kids, 0) && EntryKey(s, p, 0) == SlotKey(s, p, 0);
      FirstKeyFits(s, kids[0], p, depth + 1, leafDepth);
  }

  lemma KidInStep(s: Store, t: Tree, parent: int, depth: int, leafDepth: int, i: nat)
    requires StoreOk(s) && t.Node? && TreeOk(s, t, parent, depth, leafDepth) && DistinctPages(t) && CleanPages(s, Pages(t))
    requires i < |t.kids|
    ensures HasParent(s, t.kids[i].page) && InStepAt(s, t.kids[i].page)
  {
    var p, kid := t.page, t.kids[i];
    TreeHasOutline(s, t, parent, depth, leafDepth);
    KidRank(s, t, parent, depth, leafDepth, i);
    RootInPages(t.kids, i);
    assert KeyFits(s, p, t.kids, i) && EntryKey(s, p, i) == SlotKey(s, p, i);
    FirstKeyFits(s, kid, p, depth + 1, leafDepth);
    var least := SummaryOf(s, kid).value.minimum;
    CompareKeyFlips(SlotKey(s, kid.page, 0), least, s.hdr.columns);
    EqualTransitive(EntryKey(s, p, i), least, SlotKey(s, kid.page, 0), s.hdr.columns);
  }

  lemma {:induction false} TreeInStep(s: Store, t: Tree, parent: int, depth: int, leafDepth: int, c: int)
    requires StoreOk(s) && TreeOk(s, t, parent, depth, leafDepth) && DistinctPages(t) && CleanPages(s, Pages(t))
    requires c in Pages(t) && c != t.page
    ensures HasParent(s, c) && InStepAt(s, c) && !s.pages[s.pages[c].parent].isLeaf
  {
    var k := PageInKid(t.kids, c);
    DistinctAt(t.kids, k);
    if c == t.kids[k].page {
      KidInStep(s, t, parent, depth, leafDepth, k);
      TreeHasOutline(s, t, parent, depth, leafDepth);
      KidRank(s, t, parent, depth, leafDepth, k);
    } else {
      TreeInStep(s, t.kids[k], t.page, depth + 1, leafDepth, c);
    }
  }

  /** The stores differ in what one leaf holds. */
  ghost predicate OnlyLeaf(s: Store, r: Store, leaf: int)
  {
    && s.hdr.columns == r.hdr.columns && s.pages.Keys == r.pages.Keys && s.hdr.order == r.hdr.order
    && (forall p :: p in s.pages && p != leaf ==> r.pages[p] == s.pages[p])
    && (leaf in s.pages ==> s.pages[leaf].isLeaf)
  }

  /** When a leaf of a checked index changes, all other pages stay in step. */
  lemma ChangedLeafInStep(s: Store, r: Store, t: Tree, leafDepth: int, leaf: int)
    requires StoreOk(s) && StoreOk(r) && IsIndexTree(s, t, leafDepth) && CleanPages(s, Pages(t)) && OnlyLeaf(s, r, leaf)
    ensures InStepBut(r, t, leaf)
  {
    forall c | c in Pages(t) && c != t.page && c != leaf && HasParent(r, c) ensures InStepAt(r, c) {
      TreeInStep(s, t, NO_PAGE, 0, leafDepth, c);
      assert r.pages[s.pages[c].parent] == s.pages[s.pages[c].parent];
    }
  }
}
