/**
  Index scans: walking the leaf chain from one position to another.

  In an index tree every position in canonical form (inside a leaf, or at the end of the
  last one) stands for one index into the list of all leaf entries.
 */
module TreeScan {
  import opened Basics
  import opened IndexKeys
  import opened PageTree
  import opened TreeOrder
  import TreeChecker

  datatype Position = Position(page: int, slot: int)

  function LeafBegin(s: Store): Position
  {
    Position(s.hdr.firstLeaf, 0)
  }

  /** None where the last leaf cannot be fetched. */
  function LeafEnd(s: Store): Option<Position>
  {
    if s.hdr.lastLeaf in s.pages then Some(Position(s.hdr.lastLeaf, s.pages[s.hdr.lastLeaf].size)) else None
  }

  /** get_rid: None where it throws. */
  function RidAt(s: Store, pos: Position): Option<Rid>
    requires StoreOk(s)
  {
    if pos.page in s.pages && 0 <= pos.slot < s.pages[pos.page].size && pos.slot < |s.pages[pos.page].rids|
    then Some(s.pages[pos.page].rids[pos.slot]) else None
  }

  // ---- positions as indexes -------------------------------------------------------

  /** pos is slot pos.slot of the i-th leaf, in canonical form, and stands for entry k. */
  ghost predicate Denotes(s: Store, leaves: seq<int>, pos: Position, i: nat, k: nat)
    requires StoreOk(s) && Leaves(s, leaves)
  {
    && i < |leaves| && pos.page == leaves[i] && 0 <= pos.slot
    && k == |Entries(s, leaves[..i])| + pos.slot
    && (pos.slot < s.pages[leaves[i]].size || (i + 1 == |leaves| && pos.slot == s.pages[leaves[i]].size))
  }

  /** The leaves an index tree has: distinct pages, non-empty if there are several, chained. */
  ghost predicate Walkable(s: Store, leaves: seq<int>)
    requires StoreOk(s)
  {
    && Leaves(s, leaves) && ChainOk(s, leaves)
    && (forall i, j :: 0 <= i < j < |leaves| ==> leaves[i] != leaves[j])
    && (|leaves| > 1 ==> forall i :: 0 <= i < |leaves| ==> s.pages[leaves[i]].size > 0)
  }

  lemma EntriesSplit(s: Store, leaves: seq<int>, i: nat)
    requires StoreOk(s) && Leaves(s, leaves) && i < |leaves|
    ensures Entries(s, leaves[..i + 1]) == Entries(s, leaves[..i]) + PageEntries(s, leaves[i])
    ensures Entries(s, leaves) == Entries(s, leaves[..i]) + PageEntries(s, leaves[i]) + Entries(s, leaves[i + 1..])
  {
    LeavesSplit(s, leaves, i);
    hide *;
    EntriesSnoc(s, leaves[..i], leaves[i]);
    EntriesConcat(s, leaves[..i + 1], leaves[i + 1..]);
  }

  lemma LeavesSplit(s: Store, leaves: seq<int>, i: nat)
    requires Leaves(s, leaves) && i < |leaves|
    ensures leaves[..i + 1] == leaves[..i] + [leaves[i]] && leaves[..i + 1] + leaves[i + 1..] == leaves
    ensures Leaves(s, leaves[..i]) && Leaves(s, [leaves[i]]) && Leaves(s, leaves[..i + 1]) && Leaves(s, leaves[i + 1..])
    ensures Readable(s, leaves[i])
  {
    hide Readable;
  }

  lemma EntriesSnoc(s: Store, ps: seq<int>, p: int)
    requires StoreOk(s) && Leaves(s, ps) && Leaves(s, [p]) && Readable(s, p)
    ensures Leaves(s, ps + [p]) && Entries(s, ps + [p]) == Entries(s, ps) + PageEntries(s, p)
  {
    hide PageEntries, StoreOk;
    assert (ps + [p])[..|ps|] == ps;
  }

  lemma EntriesGrow(s: Store, leaves: seq<int>, i: nat, j: nat)
    requires StoreOk(s) && Leaves(s, leaves) && i <= j <= |leaves|
    ensures |Entries(s, leaves[..i])| <= |Entries(s, leaves[..j])|
    ensures i < j ==> |Entries(s, leaves[..i])| + s.pages[leaves[i]].size <= |Entries(s, leaves[..j])|
  {
    EntriesPrefix(s, leaves, i, j);
    if i < j {
      EntriesSplit(s, leaves, i);
      EntriesPrefix(s, leaves, i + 1, j);
    }
  }

  lemma EntriesPrefix(s: Store, leaves: seq<int>, i: nat, j: nat)
    requires StoreOk(s) && Leaves(s, leaves) && i <= j <= |leaves|
    ensures |Entries(s, leaves[..i])| <= |Entries(s, leaves[..j])|
  {
    hide Entries, StoreOk;
    assert leaves[..i] + leaves[i..j] == leaves[..j];
    EntriesConcat(s, leaves[..i], leaves[i..j]);
  }

  /** A canonical position stands for an entry, or for the end of the index. */
  lemma DenotesEntry(s: Store, leaves: seq<int>, pos: Position, i: nat, k: nat)
    requires StoreOk(s) && Walkable(s, leaves) && Denotes(s, leaves, pos, i, k)
    ensures k <= |Entries(s, leaves)|
    ensures k < |Entries(s, leaves)| <==> pos.slot < s.pages[pos.page].size
    ensures k < |Entries(s, leaves)| ==> RidAt(s, pos) == Some(Entries(s, leaves)[k].rid)
  {
    EntryOfLeaf(s, leaves, i, pos.slot);
    hide Entries, StoreOk, ChainOk, Leaves, PageEntries;
  }

  /** The entries of a leaf lie behind those of the leaves before it. */
  lemma EntryOfLeaf(s: Store, leaves: seq<int>, i: nat, slot: int)
    requires StoreOk(s) && Leaves(s, leaves) && i < |leaves| && Readable(s, leaves[i]) && Leaves(s, leaves[..i])
    requires 0 <= slot < s.pages[leaves[i]].size || (i + 1 == |leaves| && slot == s.pages[leaves[i]].size)
    ensures var k := |Entries(s, leaves[..i])| + slot;
      && k <= |Entries(s, leaves)| && (k < |Entries(s, leaves)| <==> slot < s.pages[leaves[i]].size)
      && (k < |Entries(s, leaves)| ==> RidAt(s, Position(leaves[i], slot)) == Some(Entries(s, leaves)[k].rid))
  {
    hide Entries, PageEntries, StoreOk, Leaves, RidAt;
    EntriesSplit(s, leaves, i);
    NothingBehind(s, leaves, i);
    EntryAt(s, leaves[i], slot);
    if slot < s.pages[leaves[i]].size {
      MiddleAt(Entries(s, leaves[..i]), PageEntries(s, leaves[i]), Entries(s, leaves[i + 1..]), slot);
    }
  }

  lemma NothingBehind(s: Store, leaves: seq<int>, i: nat)
    requires StoreOk(s) && Leaves(s, leaves) && i < |leaves|
    ensures Leaves(s, leaves[i + 1..]) && (i + 1 == |leaves| ==> Entries(s, leaves[i + 1..]) == [])
  {
    assert i + 1 == |leaves| ==> leaves[i + 1..] == [];
  }

  lemma EntryAt(s: Store, p: int, slot: int)
    requires StoreOk(s) && Readable(s, p)
    ensures 0 <= slot < s.pages[p].size ==> RidAt(s, Position(p, slot)) == Some(PageEntries(s, p)[slot].rid)
  {}

  lemma MiddleAt<T>(a: seq<T>, b: seq<T>, c: seq<T>, k: nat)
    requires k < |b|
    ensures |a| + k < |a + b + c| && (a + b + c)[|a| + k] == b[k]
  {}

  /** Two canonical positions are the same position exactly if they stand for the same index. */
  lemma PositionsAreIndexes(s: Store, leaves: seq<int>, p: Position, i: nat, k: nat, q: Position, j: nat, m: nat)
    requires StoreOk(s) && Walkable(s, leaves) && Denotes(s, leaves, p, i, k) && Denotes(s, leaves, q, j, m)
    ensures p == q <==> k == m
  {
    if i < j {
      EntriesGrow(s, leaves, i, j);
    } else if j < i {
      EntriesGrow(s, leaves, j, i);
    }
  }

  lemma EndsDenote(s: Store, leaves: seq<int>)
    requires StoreOk(s) && Walkable(s, leaves)
    ensures LeafEnd(s).Some? && Denotes(s, leaves, LeafBegin(s), 0, 0)
    ensures Denotes(s, leaves, LeafEnd(s).value, |leaves| - 1, |Entries(s, leaves)|)
  {
    assert leaves[..0] == [];
    EntriesSplit(s, leaves, |leaves| - 1);
    assert leaves[|leaves|..] == [];
  }

  // ---- the scan ---------------------------------------------------------------------

  class IndexScan {
    const s: Store
    var position: Position
    const end: Position

    constructor (s: Store, begin: Position, end: Position)
      ensures this.s == s && this.position == begin && this.end == end
    {
      this.s := s;
      this.position := begin;
      this.end := end;
    }

    predicate IsEnd()
      reads this
    {
      position == end
    }

    /** Moves to the next entry: the entry after the one the position stands for. */
    method Next(ghost leaves: seq<int>, ghost i: nat, ghost k: nat) returns (ghost j: nat)
      requires StoreOk(s) && Walkable(s, leaves) && Denotes(s, leaves, position, i, k) && k < |Entries(s, leaves)|
      modifies this
      ensures Denotes(s, leaves, position, j, k + 1)
    {
      DenotesEntry(s, leaves, position, i, k);
      assert LinkOk(s, leaves, i);
      j := i;
      var node := s.pages[position.page];
      position := position.(slot := position.slot + 1);
      if position.page != s.hdr.lastLeaf && position.slot == node.size {
        EntriesSplit(s, leaves, i);
        position := Position(node.next, 0);
        j := i + 1;
      }
    }

    method Rid() returns (r: Option<Rid>)
      requires StoreOk(s)
      ensures r == RidAt(s, position)
    {
      r := RidAt(s, position);
    }

    /** Yields the current entry and moves on. */
    method Take(ghost leaves: seq<int>, ghost i: nat, ghost k: nat) returns (rid: Rid, ghost j: nat)
      requires StoreOk(s) && Walkable(s, leaves) && Denotes(s, leaves, position, i, k) && k < |Entries(s, leaves)|
      modifies this
      ensures rid == Entries(s, leaves)[k].rid && Denotes(s, leaves, position, j, k + 1)
    {
      hide *;
      DenotesEntry(s, leaves, position, i, k);
      var r := Rid();
      rid := r.value;
      j := Next(leaves, i, k);
    }
  }

  function Rids(es: seq<Entry>): (rs: seq<Rid>)
    ensures |rs| == |es| && forall i :: 0 <= i < |es| ==> rs[i] == es[i].rid
  {
    seq(|es|, i requires 0 <= i < |es| => es[i].rid)
  }

  lemma RidsSnoc(es: seq<Entry>, a: nat, k: nat)
    requires a <= k < |es|
    ensures Rids(es[a..k + 1]) == Rids(es[a..k]) + [es[k].rid]
  {}

  /** A scan between two canonical positions ends, and yields the entries from one to the other. */
  method ScanRange(s: Store, begin: Position, end: Position, ghost leaves: seq<int>,
                   ghost i: nat, ghost a: nat, ghost j: nat, ghost b: nat) returns (rids: seq<Rid>)
    requires StoreOk(s) && Walkable(s, leaves)
    requires Denotes(s, leaves, begin, i, a) && Denotes(s, leaves, end, j, b) && a <= b <= |Entries(s, leaves)|
    ensures rids == Rids(Entries(s, leaves)[a..b])
  {
    ghost var es := Entries(s, leaves);
    assert Rids(es[a..a]) == [];
    hide StoreOk, Walkable, Denotes, Entries, RidAt, Leaves, Rids;
    var scan := new IndexScan(s, begin, end);
    ghost var at, k := i, a;
    PositionsAreIndexes(s, leaves, begin, i, a, end, j, b);
    rids := [];
    while !scan.IsEnd()
      invariant scan.s == s && scan.end == end && a <= k <= b
      invariant Denotes(s, leaves, scan.position, at, k) && (scan.IsEnd() <==> k == b)
      invariant rids == Rids(es[a..k])
      decreases b - k
    {
      var rid;
      rid, at := scan.Take(leaves, at, k);
      rids := rids + [rid];
      RidsSnoc(es, a, k);
      k := k + 1;
      PositionsAreIndexes(s, leaves, scan.position, at, k, end, j, b);
    }
  }

  /** A full scan yields every leaf entry once, in key order. */
  method ScanAll(s: Store, ghost t: Tree, ghost leafDepth: int) returns (rids: seq<Rid>)
    requires StoreOk(s) && IsIndexTree(s, t, leafDepth)
    ensures Leaves(s, Fringe(t)) && AllKeys(s, Entries(s, Fringe(t)))
    ensures rids == Rids(Entries(s, Fringe(t)))
    ensures NaNFree(s, Entries(s, Fringe(t))) ==> Sorted(s, Entries(s, Fringe(t)))
  {
    IndexLeaves(s, t, leafDepth);
    LeafEntriesSorted(s, t, leafDepth);
    EndsDenote(s, Fringe(t));
    ghost var es := Entries(s, Fringe(t));
    rids := ScanRange(s, LeafBegin(s), LeafEnd(s).value, Fringe(t), 0, 0, |Fringe(t)| - 1, |es|);
    assert es[0..|es|] == es;
  }

  /** A scan of pages the checker has nothing to say against yields their leaf entries in order. */
  method CheckAndScan(s: Store) returns (rids: Option<seq<Rid>>, ghost t: Tree, ghost leafDepth: int)
    requires StoreOk(s) && s.hdr.root != NO_PAGE
    ensures rids.None? <==> !exists t0, d :: IsIndexTree(s, t0, d)
    ensures rids.Some? ==> GloballyOrdered(s, t, leafDepth) && rids.value == Rids(Entries(s, Fringe(t)))
  {
    var checker := new TreeChecker.Checker(s);
    leafDepth := 0;
    t := checker.Run();
    if checker.violations != [] { return None, t, 0; }
    leafDepth := checker.leafDepth.value;
    IndexTreeIsOrdered(s, t, leafDepth);
    var found := ScanAll(s, t, leafDepth);
    return Some(found), t, leafDepth;
  }

  // ---- lookups between the documented bounds -----------------------------------------

  /** The first index whose key is not below (strict: not above) k; all of them if there is none. */
  ghost function Bound(s: Store, es: seq<Entry>, k: Key, strict: bool): (n: nat)
    requires AllKeys(s, es) && IsKey(k, s.hdr.columns)
    ensures n <= |es|
    ensures forall i :: 0 <= i < n ==> Before(s, es[i].key, k, strict)
    ensures n < |es| ==> !Before(s, es[n].key, k, strict)
  {
    if es == [] || !Before(s, es[0].key, k, strict) then 0 else 1 + Bound(s, es[1..], k, strict)
  }

  /** strict: a is at or below b; otherwise a is below b. */
  ghost predicate Before(s: Store, a: Key, b: Key, strict: bool)
    requires IsKey(a, s.hdr.columns) && IsKey(b, s.hdr.columns)
  {
    var c := CompareKey(a, b, s.hdr.columns);
    c < 0 || (strict && c == 0)
  }

  ghost function Equal(s: Store, es: seq<Entry>, k: Key): seq<Entry>
    requires AllKeys(s, es) && IsKey(k, s.hdr.columns)
  {
    if es == [] then []
    else
      var rest := Equal(s, es[..|es| - 1], k);
      if CompareKey(es[|es| - 1].key, k, s.hdr.columns) == 0 then rest + [es[|es| - 1]] else rest
  }

  lemma {:induction false} EqualIsRun(s: Store, es: seq<Entry>, k: Key, lo: nat, hi: nat)
    requires AllKeys(s, es) && IsKey(k, s.hdr.columns) && lo <= hi <= |es|
    requires forall i :: 0 <= i < |es| ==> (CompareKey(es[i].key, k, s.hdr.columns) == 0 <==> lo <= i < hi)
    ensures Equal(s, es, k) == es[lo..hi]
  {
    hide CompareKey, IsKey;
    if es != [] {
      var n := |es| - 1;
      if lo == hi {
        EqualIsRun(s, es[..n], k, 0, 0);
      } else if hi == |es| {
        EqualIsRun(s, es[..n], k, lo, n);
        assert es[lo..hi] == es[..n][lo..n] + [es[n]];
      } else {
        EqualIsRun(s, es[..n], k, lo, hi);
        assert es[lo..hi] == es[..n][lo..hi];
      }
    }
  }

  /** Once out of the bound, out of it for good. */
  lemma StaysOut(s: Store, es: seq<Entry>, k: Key, strict: bool, n: nat, i: nat)
    requires AllKeys(s, es) && NaNFree(s, es) && Sorted(s, es) && IsKey(k, s.hdr.columns) && NoNaN(k, s.hdr.columns)
    requires n <= i < |es| && !Before(s, es[n].key, k, strict)
    ensures !Before(s, es[i].key, k, strict)
  {
    if n < i {
      assert InOrder(s, es, n, i);
      CompareKeyFlips(es[n].key, k, s.hdr.columns);
      CompareKeyFlips(es[i].key, k, s.hdr.columns);
      CompareKeyTransitive(k, es[n].key, es[i].key, s.hdr.columns);
    }
  }

  /** Between the two bounds of a key lie exactly the entries whose key compares equal to it. */
  lemma BoundsHoldEqualKeys(s: Store, es: seq<Entry>, k: Key)
    requires AllKeys(s, es) && NaNFree(s, es) && Sorted(s, es) && IsKey(k, s.hdr.columns) && NoNaN(k, s.hdr.columns)
    ensures Bound(s, es, k, false) <= Bound(s, es, k, true)
    ensures es[Bound(s, es, k, false)..Bound(s, es, k, true)] == Equal(s, es, k)
  {
    var lo, hi := Bound(s, es, k, false), Bound(s, es, k, true);
    forall i | 0 <= i < |es|
      ensures i < lo <==> CompareKey(es[i].key, k, s.hdr.columns) < 0
      ensures i < hi <==> CompareKey(es[i].key, k, s.hdr.columns) <= 0
    {
      if i >= lo { StaysOut(s, es, k, false, lo, i); }
      if i >= hi { StaysOut(s, es, k, true, hi, i); }
    }
    EqualIsRun(s, es, k, lo, hi);
  }

  /** The scan from the lower to the upper bound of a key yields exactly its entries, in order. */
  method ScanEqual(s: Store, k: Key, begin: Position, end: Position, ghost t: Tree, ghost leafDepth: int,
                   ghost i: nat, ghost j: nat) returns (rids: seq<Rid>)
    requires StoreOk(s) && IsIndexTree(s, t, leafDepth) && Leaves(s, Fringe(t)) && AllKeys(s, Entries(s, Fringe(t)))
    requires NaNFree(s, Entries(s, Fringe(t))) && IsKey(k, s.hdr.columns) && NoNaN(k, s.hdr.columns)
    requires Denotes(s, Fringe(t), begin, i, Bound(s, Entries(s, Fringe(t)), k, false))
    requires Denotes(s, Fringe(t), end, j, Bound(s, Entries(s, Fringe(t)), k, true))
    ensures rids == Rids(Equal(s, Entries(s, Fringe(t)), k))
  {
    IndexLeaves(s, t, leafDepth);
    LeafEntriesSorted(s, t, leafDepth);
    ghost var es := Entries(s, Fringe(t));
    BoundsHoldEqualKeys(s, es, k);
    rids := ScanRange(s, begin, end, Fringe(t), i, Bound(s, es, k, false), j, Bound(s, es, k, true));
  }
}
