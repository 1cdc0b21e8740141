/**
  What a right index tree promises globally: one depth for all leaves, inner keys that
  are the minima of their subtrees, and leaf keys in order from end to end.
 */
module TreeOrder {
  import opened Basics
  import opened IndexKeys
  import opened PageTree

  datatype Entry = Entry(key: Key, rid: Rid)

  ghost predicate Leaves(s: Store, ps: seq<int>)
  {
    forall i :: 0 <= i < |ps| ==> Readable(s, ps[i]) && s.pages[ps[i]].isLeaf
  }

  function PageEntries(s: Store, p: int): (es: seq<Entry>)
    requires StoreOk(s) && Readable(s, p)
    ensures |es| == s.pages[p].size
  {
    seq(s.pages[p].size, i requires 0 <= i < s.pages[p].size => Entry(s.pages[p].keys[i], s.pages[p].rids[i]))
  }

  /** The entries of a list of leaf pages, one page after the other. */
  function Entries(s: Store, ps: seq<int>): seq<Entry>
    requires StoreOk(s) && Leaves(s, ps)
  {
    if ps == [] then [] else Entries(s, ps[..|ps| - 1]) + PageEntries(s, ps[|ps| - 1])
  }

  lemma {:induction false} EntriesConcat(s: Store, a: seq<int>, b: seq<int>)
    requires StoreOk(s) && Leaves(s, a) && Leaves(s, b)
    ensures Leaves(s, a + b) && Entries(s, a + b) == Entries(s, a) + Entries(s, b)
  {
    if b == [] {
      assert a + b == a;
    } else {
      hide PageEntries, StoreOk, Readable;
      var front, last := b[..|b| - 1], b[|b| - 1];
      EntriesConcat(s, a, front);
      assert (a + b)[..|a + b| - 1] == a + front && (a + b)[|a + b| - 1] == last;
      assert Entries(s, a) + Entries(s, front) + PageEntries(s, last) == Entries(s, a) + (Entries(s, front) + PageEntries(s, last));
    }
  }

  lemma {:induction false} EntriesAreKeys(s: Store, ps: seq<int>)
    requires StoreOk(s) && Leaves(s, ps)
    ensures forall i :: 0 <= i < |Entries(s, ps)| ==> IsKey(Entries(s, ps)[i].key, s.hdr.columns)
  {
    if ps != [] {
      EntriesAreKeys(s, ps[..|ps| - 1]);
      var p := ps[|ps| - 1];
      forall i | 0 <= i < s.pages[p].size
        ensures IsKey(PageEntries(s, p)[i].key, s.hdr.columns)
      {
        assert s.pages[p].keys[i] in s.pages[p].keys;
      }
    }
  }

  ghost predicate AllKeys(s: Store, es: seq<Entry>)
  {
    forall i :: 0 <= i < |es| ==> IsKey(es[i].key, s.hdr.columns)
  }

  /** The key at i is below the key at j, or equal to it where the index allows equal keys. */
  predicate InOrder(s: Store, es: seq<Entry>, i: nat, j: nat)
    requires i < |es| && j < |es| && IsKey(es[i].key, s.hdr.columns) && IsKey(es[j].key, s.hdr.columns)
  {
    var order := CompareKey(es[i].key, es[j].key, s.hdr.columns);
    order < 0 || (order == 0 && !s.hdr.unique)
  }

  ghost predicate Adjacent(s: Store, es: seq<Entry>)
    requires AllKeys(s, es)
  {
    forall i, j :: 0 <= i && j == i + 1 < |es| ==> InOrder(s, es, i, j)
  }

  /** Every entry is in order with every later one: strictly increasing if unique, else non-decreasing. */
  ghost predicate Sorted(s: Store, es: seq<Entry>)
    requires AllKeys(s, es)
  {
    forall i, j :: 0 <= i < j < |es| ==> InOrder(s, es, i, j)
  }

  lemma AdjacentConcat(s: Store, a: seq<Entry>, b: seq<Entry>)
    requires AllKeys(s, a) && AllKeys(s, b) && Adjacent(s, a) && Adjacent(s, b)
    requires a != [] && b != [] ==> !OutOfOrder(s.hdr, a[|a| - 1].key, b[0].key)
    ensures AllKeys(s, a + b) && Adjacent(s, a + b)
  {
    var all := a + b;
    forall i, j | 0 <= i && j == i + 1 < |all|
      ensures IsKey(all[i].key, s.hdr.columns) && IsKey(all[j].key, s.hdr.columns) && InOrder(s, all, i, j)
    {
      if j < |a| {
        assert all[i] == a[i] && all[j] == a[j] && InOrder(s, a, i, j);
      } else if i >= |a| {
        assert all[i] == b[i - |a|] && all[j] == b[j - |a|] && InOrder(s, b, i - |a|, j - |a|);
      } else {
        assert all[i] == a[|a| - 1] && all[j] == b[0];
      }
    }
  }

  lemma PageAdjacent(s: Store, p: int)
    requires StoreOk(s) && Readable(s, p) && KeysAscending(s, p)
    ensures AllKeys(s, PageEntries(s, p)) && Adjacent(s, PageEntries(s, p))
  {
    var es := PageEntries(s, p);
    forall i | 0 <= i < |es| ensures es[i].key == EntryKey(s, p, i) {}
    forall i, j | 0 <= i && j == i + 1 < |es|
      ensures InOrder(s, es, i, j)
    {
      assert InOrderAt(s, p, j);
    }
  }

  // ---- the entries below a tree ----------------------------------------------

  /** The leaf entries below t are in order and the summary names their first and last key. */
  ghost predicate Spans(s: Store, es: seq<Entry>, sum: Option<Summary>)
  {
    && AllKeys(s, es) && Adjacent(s, es)
    && (if sum.None? then es == [] else es != [] && es[0].key == sum.value.minimum && es[|es| - 1].key == sum.value.maximum)
  }

  lemma SpansConcat(s: Store, a: seq<Entry>, b: seq<Entry>, left: Option<Summary>, own: Option<Summary>)
    requires Spans(s, a, left) && Spans(s, b, own) && own.Some?
    requires left.Some? ==>
      && IsKey(left.value.maximum, s.hdr.columns) && IsKey(own.value.minimum, s.hdr.columns)
      && !OutOfOrder(s.hdr, left.value.maximum, own.value.minimum)
    ensures Spans(s, a + b, Some(Summary(if left.None? then own.value.minimum else left.value.minimum, own.value.maximum)))
  {
    AdjacentConcat(s, a, b);
  }

  lemma LeafSpans(s: Store, p: int, parent: int)
    requires StoreOk(s) && NodeOk(s, p, parent) && s.pages[p].isLeaf
    ensures Leaves(s, [p]) && Spans(s, Entries(s, [p]), SummaryOf(s, Leaf(p)))
  {
    PageAdjacent(s, p);
    OneLeaf(s, p);
    LeafSummary(s, p);
    hide PageEntries, Entries, SummaryOf, AllKeys, Adjacent, StoreOk, NodeOk;
  }

  lemma OneLeaf(s: Store, p: int)
    requires StoreOk(s) && Readable(s, p) && s.pages[p].isLeaf
    ensures Leaves(s, [p]) && Entries(s, [p]) == PageEntries(s, p)
  {
    hide PageEntries, StoreOk;
    assert [p][..0] == [];
    assert [] + PageEntries(s, p) == PageEntries(s, p);
  }

  lemma LeafSummary(s: Store, p: int)
    requires StoreOk(s) && Readable(s, p)
    ensures var es, sum := PageEntries(s, p), SummaryOf(s, Leaf(p));
      if es == [] then sum.None? else sum == Some(Summary(es[0].key, es[|es| - 1].key))
  {
    hide KeyLen, ValidColumns;
    var es := PageEntries(s, p);
    if es != [] {
      assert es[0].key == Keys(s, p)[0] && es[|es| - 1].key == Keys(s, p)[|es| - 1];
    }
  }

  lemma {:induction false} TreeSpans(s: Store, t: Tree, parent: int, depth: int, leafDepth: int)
    requires StoreOk(s) && TreeOk(s, t, parent, depth, leafDepth)
    ensures Leaves(s, Fringe(t)) && Spans(s, Entries(s, Fringe(t)), SummaryOf(s, t))
    decreases t, 1
  {
    match t
    case Leaf(p) =>
      LeafSpans(s, p, parent);
    case Node(p, kids) =>
      MinimumSize(s.hdr.order);
      assert |kids| > 0;
      forall i | 0 <= i < |kids| ensures SummaryOf(s, kids[i]).Some? { assert KeyFits(s, p, kids, i); }
      KidsSpan(s, kids, p, depth, leafDepth);
  }

  lemma {:induction false} KidsSpan(s: Store, kids: seq<Tree>, p: int, depth: int, leafDepth: int)
    requires StoreOk(s) && forall i :: 0 <= i < |kids| ==> TreeOk(s, kids[i], p, depth + 1, leafDepth)
    requires forall i :: 0 <= i < |kids| ==> SummaryOf(s, kids[i]).Some?
    requires forall i :: 0 < i < |kids| ==> SiblingsOk(s, kids, i)
    ensures Leaves(s, FringeOf(kids))
    ensures Spans(s, Entries(s, FringeOf(kids)),
                  if kids == [] then None
                  else Some(Summary(SummaryOf(s, kids[0]).value.minimum, SummaryOf(s, kids[|kids| - 1]).value.maximum)))
    decreases kids, 0
  {
    if kids != [] {
      hide CompareKey, KeyLen, ValidColumns, InOrder, OutOfOrder, Entries, TreeOk, SummaryOf, Fringe;
      var front, last := kids[..|kids| - 1], kids[|kids| - 1];
      forall i | 0 < i < |front| ensures SiblingsOk(s, front, i) { assert SiblingsOk(s, kids, i); }
      KidsSpan(s, front, p, depth, leafDepth);
      TreeSpans(s, last, p, depth + 1, leafDepth);
      var a, b := Entries(s, FringeOf(front)), Entries(s, Fringe(last));
      EntriesConcat(s, FringeOf(front), Fringe(last));
      assert Entries(s, FringeOf(kids)) == a + b;
      if front != [] { assert SiblingsOk(s, kids, |kids| - 1); }
      SpansConcat(s, a, b, if front == [] then None else Some(Summary(SummaryOf(s, front[0]).value.minimum, SummaryOf(s, front[|front| - 1]).value.maximum)), SummaryOf(s, last));
    }
  }

  // ---- from neighbours to all pairs --------------------------------------------

  ghost predicate NaNFree(s: Store, es: seq<Entry>)
    requires AllKeys(s, es)
  {
    forall i :: 0 <= i < |es| ==> NoNaN(es[i].key, s.hdr.columns)
  }

  lemma {:induction false} OrderedFrom(s: Store, es: seq<Entry>, i: nat, j: nat)
    requires AllKeys(s, es) && NaNFree(s, es) && Adjacent(s, es) && i < j < |es|
    ensures InOrder(s, es, i, j)
    decreases j - i
  {
    if j == i + 1 {
      assert InOrder(s, es, i, j);
    } else {
      OrderedFrom(s, es, i, j - 1);
      assert InOrder(s, es, j - 1, j);
      CompareKeyTransitive(es[i].key, es[j - 1].key, es[j].key, s.hdr.columns);
    }
  }

  /** The leaf entries of an index tree are sorted from the first leaf to the last. */
  lemma LeafEntriesSorted(s: Store, t: Tree, leafDepth: int)
    requires StoreOk(s) && IsIndexTree(s, t, leafDepth)
    ensures Leaves(s, Fringe(t)) && AllKeys(s, Entries(s, Fringe(t)))
    ensures NaNFree(s, Entries(s, Fringe(t))) ==> Sorted(s, Entries(s, Fringe(t)))
  {
    TreeSpans(s, t, NO_PAGE, 0, leafDepth);
    var es := Entries(s, Fringe(t));
    if NaNFree(s, es) {
      forall i, j | 0 <= i < j < |es|
        ensures InOrder(s, es, i, j)
      {
        OrderedFrom(s, es, i, j);
      }
    }
  }

  // ---- depth and minima -----------------------------------------------------------

  predicate LeavesAtDepth(t: Tree, n: int)
  {
    match t
    case Leaf(_) => n == 0
    case Node(_, kids) => forall i :: 0 <= i < |kids| ==> LeavesAtDepth(kids[i], n - 1)
  }

  lemma {:induction false} OneLeafDepth(s: Store, t: Tree, parent: int, depth: int, leafDepth: int)
    requires StoreOk(s) && TreeOk(s, t, parent, depth, leafDepth)
    ensures LeavesAtDepth(t, leafDepth - depth)
  {
    if t.Node? {
      forall i | 0 <= i < |t.kids|
        ensures LeavesAtDepth(t.kids[i], leafDepth - depth - 1)
      {
        OneLeafDepth(s, t.kids[i], t.page, depth + 1, leafDepth);
      }
    }
  }

  /** The key compares equal to one of the entries and above none of them. */
  ghost predicate IsMinimumOf(s: Store, k: Key, es: seq<Entry>)
    requires IsKey(k, s.hdr.columns) && AllKeys(s, es)
  {
    && (exists i :: 0 <= i < |es| && CompareKey(k, es[i].key, s.hdr.columns) == 0)
    && (forall i :: 0 <= i < |es| ==> CompareKey(k, es[i].key, s.hdr.columns) <= 0)
  }

  /** In every inner node, at every level, each key is the smallest key below its child. */
  ghost predicate KeysAreMinima(s: Store, t: Tree)
    requires StoreOk(s)
  {
    t.Node? ==>
      && Readable(s, t.page) && |t.kids| == s.pages[t.page].size
      && forall i :: 0 <= i < |t.kids| ==>
           && KeysAreMinima(s, t.kids[i]) && Leaves(s, Fringe(t.kids[i]))
           && AllKeys(s, Entries(s, Fringe(t.kids[i])))
           && (NaNFree(s, Entries(s, Fringe(t.kids[i]))) && NoNaN(EntryKey(s, t.page, i), s.hdr.columns) ==>
                 IsMinimumOf(s, EntryKey(s, t.page, i), Entries(s, Fringe(t.kids[i]))))
  }

  lemma FirstIsMinimum(s: Store, k: Key, es: seq<Entry>)
    requires StoreOk(s) && AllKeys(s, es) && NaNFree(s, es) && Adjacent(s, es) && es != []
    requires IsKey(k, s.hdr.columns) && NoNaN(k, s.hdr.columns) && CompareKey(k, es[0].key, s.hdr.columns) == 0
    ensures IsMinimumOf(s, k, es)
  {
    forall i | 0 <= i < |es|
      ensures CompareKey(k, es[i].key, s.hdr.columns) <= 0
    {
      if i > 0 {
        OrderedFrom(s, es, 0, i);
        CompareKeyTransitive(k, es[0].key, es[i].key, s.hdr.columns);
      }
    }
  }

  lemma {:induction false} InnerKeysAreMinima(s: Store, t: Tree, parent: int, depth: int, leafDepth: int)
    requires StoreOk(s) && TreeOk(s, t, parent, depth, leafDepth)
    ensures KeysAreMinima(s, t)
  {
    if t.Node? {
      forall i | 0 <= i < |t.kids|
        ensures KeysAreMinima(s, t.kids[i]) && Leaves(s, Fringe(t.kids[i])) && AllKeys(s, Entries(s, Fringe(t.kids[i])))
        ensures NaNFree(s, Entries(s, Fringe(t.kids[i]))) && NoNaN(EntryKey(s, t.page, i), s.hdr.columns) ==>
          IsMinimumOf(s, EntryKey(s, t.page, i), Entries(s, Fringe(t.kids[i])))
      {
        InnerKeysAreMinima(s, t.kids[i], t.page, depth + 1, leafDepth);
        TreeSpans(s, t.kids[i], t.page, depth + 1, leafDepth);
        assert KeyFits(s, t.page, t.kids, i);
        var es, k := Entries(s, Fringe(t.kids[i])), EntryKey(s, t.page, i);
        if NaNFree(s, es) && NoNaN(k, s.hdr.columns) { FirstIsMinimum(s, k, es); }
      }
    }
  }

  // ---- the leaves of an index tree ------------------------------------------------

  lemma {:induction false} FringeDistinct(t: Tree)
    requires DistinctPages(t)
    ensures forall i, j :: 0 <= i < j < |Fringe(t)| ==> Fringe(t)[i] != Fringe(t)[j]
    decreases t, 1
  {
    if t.Node? { FringeOfDistinct(t.kids); }
  }

  lemma {:induction false} FringeOfDistinct(ts: seq<Tree>)
    requires DistinctPagesOf(ts)
    ensures forall i, j :: 0 <= i < j < |FringeOf(ts)| ==> FringeOf(ts)[i] != FringeOf(ts)[j]
    decreases ts, 0
  {
    if ts != [] {
      var front, last := ts[..|ts| - 1], ts[|ts| - 1];
      FringeOfDistinct(front);
      FringeDistinct(last);
      FringeOfInPages(front);
      FringeInPages(last);
      var a, b := FringeOf(front), Fringe(last);
      forall i, j | 0 <= i < j < |a + b|
        ensures (a + b)[i] != (a + b)[j]
      {
        if i < |a| && j >= |a| { assert a[i] in a && b[j - |a|] in b; }
      }
    }
  }

  lemma {:induction false} LeafSizes(s: Store, t: Tree, parent: int, depth: int, leafDepth: int)
    requires StoreOk(s) && TreeOk(s, t, parent, depth, leafDepth)
    ensures forall p :: p in Fringe(t) ==> p in s.pages && (p != s.hdr.root ==> s.pages[p].size > 0)
    decreases t, 1
  {
    MinimumSize(s.hdr.order);
    if t.Node? { KidsLeafSizes(s, t.kids, t.page, depth, leafDepth); }
  }

  lemma {:induction false} KidsLeafSizes(s: Store, kids: seq<Tree>, p: int, depth: int, leafDepth: int)
    requires StoreOk(s) && forall i :: 0 <= i < |kids| ==> TreeOk(s, kids[i], p, depth + 1, leafDepth)
    ensures forall q :: q in FringeOf(kids) ==> q in s.pages && (q != s.hdr.root ==> s.pages[q].size > 0)
    decreases kids, 0
  {
    if kids != [] {
      KidsLeafSizes(s, kids[..|kids| - 1], p, depth, leafDepth);
      LeafSizes(s, kids[|kids| - 1], p, depth + 1, leafDepth);
    }
  }

  /** Leaves are distinct pages, and only a root that is itself the one leaf may be empty. */
  lemma IndexLeaves(s: Store, t: Tree, leafDepth: int)
    requires StoreOk(s) && IsIndexTree(s, t, leafDepth)
    ensures Leaves(s, Fringe(t)) && forall i, j :: 0 <= i < j < |Fringe(t)| ==> Fringe(t)[i] != Fringe(t)[j]
    ensures |Fringe(t)| > 1 ==> forall i :: 0 <= i < |Fringe(t)| ==> s.pages[Fringe(t)[i]].size > 0
  {
    TreeSpans(s, t, NO_PAGE, 0, leafDepth);
    FringeDistinct(t);
    LeafSizes(s, t, NO_PAGE, 0, leafDepth);
    if t.Node? {
      FringeOfInPages(t.kids);
      forall i | 0 <= i < |Fringe(t)| ensures s.pages[Fringe(t)[i]].size > 0 {
        assert Fringe(t)[i] in Fringe(t);
      }
    }
  }

  // ---- how full the pages are and how many entries a height holds --------------------

  /** Every page but the root is at least half full, none is overfull, and an inner root has two children. */
  ghost predicate Filled(s: Store, t: Tree)
  {
    && (forall p :: p in Pages(t) ==> p in s.pages && s.pages[p].size <= s.hdr.order)
    && (forall p :: p in Pages(t) && p != s.hdr.root ==> s.pages[p].size >= (s.hdr.order + 1) / 2)
    && (t.Node? ==> |t.kids| >= 2)
  }

  lemma {:induction false} TreeFilled(s: Store, t: Tree, parent: int, depth: int, leafDepth: int)
    requires StoreOk(s) && TreeOk(s, t, parent, depth, leafDepth)
    ensures Filled(s, t)
    decreases t, 1
  {
    hide KeysAscending, KeyFits, SiblingsOk;
    MinimumSize(s.hdr.order);
    if t.Node? { KidsFilled(s, t.kids, t.page, depth, leafDepth); }
  }

  lemma {:induction false} KidsFilled(s: Store, kids: seq<Tree>, p: int, depth: int, leafDepth: int)
    requires StoreOk(s) && forall i :: 0 <= i < |kids| ==> TreeOk(s, kids[i], p, depth + 1, leafDepth)
    ensures forall q :: q in PagesOf(kids) ==> q in s.pages && s.pages[q].size <= s.hdr.order
    ensures forall q :: q in PagesOf(kids) && q != s.hdr.root ==> s.pages[q].size >= (s.hdr.order + 1) / 2
    decreases kids, 0
  {
    if kids != [] {
      hide StoreOk, TreeOk;
      KidsFilled(s, kids[..|kids| - 1], p, depth, leafDepth);
      TreeFilled(s, kids[|kids| - 1], p, depth + 1, leafDepth);
    }
  }

  function Power(base: nat, n: nat): nat
  {
    if n == 0 then 1 else base * Power(base, n - 1)
  }

  lemma Scale(a: nat, b: nat, x: nat)
    requires a <= b
    ensures a * x <= b * x
  {}

  lemma OneMoreChild(n: nat, x: nat)
    requires n > 0
    ensures n * x == (n - 1) * x + x
  {}

  ghost function Minimum(s: Store): nat
    requires StoreOk(s)
  {
    (s.hdr.order + 1) / 2
  }

  /** A subtree below the root, height h above its leaves: at least m^(h+1) entries, at most order^(h+1). */
  lemma {:induction false} SubtreeHolds(s: Store, t: Tree, parent: int, depth: int, leafDepth: int)
    requires StoreOk(s) && TreeOk(s, t, parent, depth, leafDepth) && t.page != s.hdr.root
    requires s.hdr.root in s.pages && s.pages[s.hdr.root].parent == NO_PAGE
    ensures leafDepth >= depth && Leaves(s, Fringe(t))
    ensures Power(Minimum(s), leafDepth - depth + 1) <= |Entries(s, Fringe(t))| <= Power(s.hdr.order, leafDepth - depth + 1)
    decreases t, 1
  {
    MinimumSize(s.hdr.order);
    if t.Leaf? {
      OneLeaf(s, t.page);
      assert Power(Minimum(s), 1) == Minimum(s) * Power(Minimum(s), 0);
      assert Power(s.hdr.order, 1) == s.hdr.order * Power(s.hdr.order, 0);
    } else {
      assert t.page != NO_PAGE;
      KidsHold(s, t.kids, t.page, depth, leafDepth);
      var n, h := |t.kids|, leafDepth - depth;
      Scale(Minimum(s), n, Power(Minimum(s), h));
      Scale(n, s.hdr.order, Power(s.hdr.order, h));
    }
  }

  lemma {:induction false} KidsHold(s: Store, kids: seq<Tree>, p: int, depth: int, leafDepth: int)
    requires StoreOk(s) && p != NO_PAGE && forall i :: 0 <= i < |kids| ==> TreeOk(s, kids[i], p, depth + 1, leafDepth)
    requires s.hdr.root in s.pages && s.pages[s.hdr.root].parent == NO_PAGE
    ensures (kids != [] ==> leafDepth > depth) && Leaves(s, FringeOf(kids))
    ensures leafDepth >= depth ==>
      |kids| * Power(Minimum(s), leafDepth - depth) <= |Entries(s, FringeOf(kids))| <= |kids| * Power(s.hdr.order, leafDepth - depth)
    decreases kids, 0
  {
    if kids != [] {
      var front, last := kids[..|kids| - 1], kids[|kids| - 1];
      assert TreeOk(s, last, p, depth + 1, leafDepth);
      assert last.page != s.hdr.root;
      hide TreeOk, StoreOk, Entries, Fringe, Power;
      KidsHold(s, front, p, depth, leafDepth);
      SubtreeHolds(s, last, p, depth + 1, leafDepth);
      EntriesConcat(s, FringeOf(front), Fringe(last));
      OneMoreChild(|kids|, Power(Minimum(s), leafDepth - depth));
      OneMoreChild(|kids|, Power(s.hdr.order, leafDepth - depth));
    }
  }

  /** How many entries an index of a given height holds, with pages at least half full. */
  ghost predicate HoldsByHeight(s: Store, n: nat, leafDepth: int)
  {
    && leafDepth >= 0 && s.hdr.order > 0 && n <= Power(s.hdr.order, leafDepth + 1)
    && (leafDepth > 0 ==> 2 * Power((s.hdr.order + 1) / 2, leafDepth) <= n)
  }

  lemma IndexHolds(s: Store, t: Tree, leafDepth: int)
    requires StoreOk(s) && IsIndexTree(s, t, leafDepth)
    ensures Leaves(s, Fringe(t)) && HoldsByHeight(s, |Entries(s, Fringe(t))|, leafDepth)
  {
    if t.Leaf? {
      OneLeaf(s, t.page);
      assert Power(s.hdr.order, 1) == s.hdr.order * Power(s.hdr.order, 0);
    } else {
      KidsHold(s, t.kids, t.page, 0, leafDepth);
      var n := |t.kids|;
      Scale(2, n, Power(Minimum(s), leafDepth));
      Scale(n, s.hdr.order, Power(s.hdr.order, leafDepth));
    }
  }

  /** What the checks on single pages add up to. */
  ghost predicate GloballyOrdered(s: Store, t: Tree, leafDepth: int)
    requires StoreOk(s)
  {
    && LeavesAtDepth(t, leafDepth) && KeysAreMinima(s, t)
    && ChainOk(s, Fringe(t)) && Leaves(s, Fringe(t)) && AllKeys(s, Entries(s, Fringe(t)))
    && (NaNFree(s, Entries(s, Fringe(t))) ==> Sorted(s, Entries(s, Fringe(t))))
    && Filled(s, t) && HoldsByHeight(s, |Entries(s, Fringe(t))|, leafDepth)
  }

  /** One depth, subtree minima, leaf keys in order, and the chain is the leaf order both ways. */
  lemma IndexTreeIsOrdered(s: Store, t: Tree, leafDepth: int)
    requires StoreOk(s) && IsIndexTree(s, t, leafDepth)
    ensures GloballyOrdered(s, t, leafDepth)
  {
    OneLeafDepth(s, t, NO_PAGE, 0, leafDepth);
    InnerKeysAreMinima(s, t, NO_PAGE, 0, leafDepth);
    LeafEntriesSorted(s, t, leafDepth);
    TreeFilled(s, t, NO_PAGE, 0, leafDepth);
    IndexHolds(s, t, leafDepth);
    hide Filled, HoldsByHeight, TreeOk, StoreOk, KeysAreMinima, LeavesAtDepth, Fringe, Entries, Leaves, AllKeys, NaNFree, Sorted, ChainOk, SentinelOk;
  }
}
