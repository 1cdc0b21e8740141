/**
  The depth-first checker that defines a correct index: it visits the page graph from the
  root, remembers visited and active pages, and collects the leaves on the way.

  The checker reports no violation exactly when the pages form one tree that is right in
  every respect (IsIndexTree).  It terminates on any page graph, cyclic or shared.
 */
module TreeChecker {
  import opened Basics
  import opened IndexKeys
  import opened PageTree

  datatype Violation = Violation(page: int, text: string)

  const MAX_VIOLATIONS: nat := 8

  /** What a run has gathered so far. */
  datatype Progress = Progress(visited: set<int>, leaves: seq<int>, leafDepth: Option<int>)

  /** t accounts for all that was gathered between p0 and p1 below the given page. */
  ghost predicate Found(s: Store, t: Tree, page: int, parent: int, depth: int, p0: Progress, p1: Progress)
    requires StoreOk(s)
  {
    && t.page == page && p1.leafDepth.Some? && (p0.leafDepth.Some? ==> p1.leafDepth == p0.leafDepth)
    && TreeOk(s, t, parent, depth, p1.leafDepth.value) && DistinctPages(t)
    && Pages(t) !! p0.visited && p1.visited == p0.visited + Pages(t) && p1.leaves == p0.leaves + Fringe(t)
  }

  /** kids account for all that was gathered below the first |kids| entries of an inner node. */
  ghost predicate FoundKids(s: Store, kids: seq<Tree>, page: int, depth: int, p0: Progress, p1: Progress)
    requires StoreOk(s) && Readable(s, page)
  {
    && |kids| <= s.pages[page].size
    && (kids != [] ==> p1.leafDepth.Some?) && (p0.leafDepth.Some? ==> p1.leafDepth == p0.leafDepth)
    && (forall j :: 0 <= j < |kids| ==> TreeOk(s, kids[j], page, depth + 1, p1.leafDepth.value))
    && (forall j :: 0 <= j < |kids| ==> KeyFits(s, page, kids, j))
    && DistinctPagesOf(kids) && PagesOf(kids) !! p0.visited
    && p1.visited == p0.visited + PagesOf(kids) && p1.leaves == p0.leaves + FringeOf(kids)
  }

  /** The hint is a right tree for the page and meets nothing visited before. */
  ghost predicate Expected(s: Store, hint: Option<Tree>, d: int, page: int, parent: int, depth: int, p: Progress)
    requires StoreOk(s)
  {
    && hint.Some? && hint.value.page == page && TreeOk(s, hint.value, parent, depth, d)
    && DistinctPages(hint.value) && Pages(hint.value) !! p.visited && (p.leafDepth.Some? ==> p.leafDepth.value == d)
  }

  /** kids are right subtrees for all entries of an inner node. */
  ghost predicate KidsOk(s: Store, kids: seq<Tree>, page: int, depth: int, d: int)
    requires StoreOk(s) && Readable(s, page)
  {
    && |kids| == s.pages[page].size
    && (forall j :: 0 <= j < |kids| ==> TreeOk(s, kids[j], page, depth + 1, d))
    && (forall j :: 0 <= j < |kids| ==> KeyFits(s, page, kids, j))
    && (forall j :: 0 < j < |kids| ==> SiblingsOk(s, kids, j))
    && DistinctPagesOf(kids)
  }

  ghost predicate Wanted(s: Store, kids: seq<Tree>, d: int, page: int, depth: int, p: Progress)
    requires StoreOk(s) && Readable(s, page)
  {
    KidsOk(s, kids, page, depth, d) && PagesOf(kids) !! p.visited && (p.leafDepth.Some? ==> p.leafDepth.value == d)
  }

  ghost predicate ExpectedKids(s: Store, hint: Option<Tree>, d: int, page: int, depth: int, p: Progress)
    requires StoreOk(s) && Readable(s, page)
  {
    hint.Some? && hint.value.Node? && hint.value.page == page && Wanted(s, hint.value.kids, d, page, depth, p)
  }

  lemma ExpectedSiblings(s: Store, hint: Option<Tree>, d: int, page: int, depth: int, p: Progress)
    requires StoreOk(s) && Readable(s, page)
    ensures ExpectedKids(s, hint, d, page, depth, p) ==>
      && hint == Some(Node(page, hint.value.kids)) && Wanted(s, hint.value.kids, d, page, depth, p)
      && forall j :: 0 < j < |hint.value.kids| ==> SiblingsOk(s, hint.value.kids, j)
  {}

  // ---- steps of the visit ---------------------------------------------------

  lemma AddKid(kids: seq<Tree>, kid: Tree)
    ensures PagesOf(kids + [kid]) == PagesOf(kids) + Pages(kid) && FringeOf(kids + [kid]) == FringeOf(kids) + Fringe(kid)
    ensures DistinctPagesOf(kids + [kid]) <==> DistinctPagesOf(kids) && DistinctPages(kid) && PagesOf(kids) !! Pages(kid)
  {
    assert (kids + [kid])[..|kids|] == kids;
  }

  /** One more subtree has been visited and its key fits. */
  lemma KidFound(s: Store, kids: seq<Tree>, kid: Tree, page: int, depth: int, p0: Progress, p1: Progress, p2: Progress)
    requires StoreOk(s) && Readable(s, page) && |kids| < s.pages[page].size
    requires FoundKids(s, kids, page, depth, p0, p1)
    requires Found(s, kid, Child(s, page, |kids|), page, depth + 1, p1, p2)
    requires KeyFits(s, page, kids + [kid], |kids|)
    ensures FoundKids(s, kids + [kid], page, depth, p0, p2)
  {
    var all := kids + [kid];
    AddKid(kids, kid);
    hide TreeOk, PagesOf, DistinctPagesOf, FringeOf, Pages, StoreOk, DistinctPages, Fringe;
    forall j | 0 <= j < |all|
      ensures TreeOk(s, all[j], page, depth + 1, p2.leafDepth.value) && KeyFits(s, page, all, j)
    {
      if j < |kids| { assert all[j] == kids[j] && KeyFits(s, page, kids, j); }
    }
  }

  /** The next child of an expected inner node is itself expected. */
  lemma KidExpected(s: Store, kids: seq<Tree>, page: int, depth: int, d: int, i: nat, p0: Progress, p1: Progress)
    requires StoreOk(s) && Readable(s, page) && i < |kids| && Wanted(s, kids, d, page, depth, p0)
    requires p1.leafDepth.Some? ==> p1.leafDepth == Some(d)
    requires FoundKids(s, kids[..i], page, depth, p0, p1)
    ensures Expected(s, Some(kids[i]), d, Child(s, page, i), page, depth + 1, p1)
    ensures KeyFits(s, page, kids[..i] + [kids[i]], i)
  {
    DistinctAt(kids, i);
    assert KeyFits(s, page, kids, i) && TreeOk(s, kids[i], page, depth + 1, d);
    assert (kids[..i] + [kids[i]])[i] == kids[i];
  }

  lemma NodeSummary(s: Store, page: int, kids: seq<Tree>, sums: seq<Option<Summary>>)
    requires StoreOk(s) && |sums| == |kids| > 0
    requires forall j :: 0 <= j < |kids| ==> sums[j] == SummaryOf(s, kids[j]) && sums[j].Some?
    ensures SummaryOf(s, Node(page, kids)) == Some(Summary(sums[0].value.minimum, sums[|kids| - 1].value.maximum))
  {
    assert sums[0] == SummaryOf(s, kids[0]) && sums[|kids| - 1] == SummaryOf(s, kids[|kids| - 1]);
  }

  function Entered(p: Progress, page: int): Progress
  {
    p.(visited := p.visited + {page})
  }

  lemma InnerFound(s: Store, kids: seq<Tree>, page: int, parent: int, depth: int, p0: Progress, p1: Progress)
    requires StoreOk(s) && NodeOk(s, page, parent) && !s.pages[page].isLeaf && page !in p0.visited
    requires |kids| == s.pages[page].size > 0 && FoundKids(s, kids, page, depth, Entered(p0, page), p1)
    requires forall j :: 0 < j < |kids| ==> SiblingsOk(s, kids, j)
    ensures Found(s, Node(page, kids), page, parent, depth, p0, p1)
  {
    var t := Node(page, kids);
    assert Pages(t) == {page} + PagesOf(kids) && Fringe(t) == FringeOf(kids);
    assert DistinctPages(t);
    assert TreeOk(s, t, parent, depth, p1.leafDepth.value);
  }

  lemma InnerExpected(s: Store, hint: Option<Tree>, d: int, page: int, parent: int, depth: int, p: Progress)
    requires StoreOk(s) && Expected(s, hint, d, page, parent, depth, p) && !s.pages[page].isLeaf
    ensures ExpectedKids(s, hint, d, page, depth, Entered(p, page))
  {
    assert hint.value.Node?;
    assert Pages(hint.value) == {page} + PagesOf(hint.value.kids);
  }

  /** What an expected page looks like on its own. */
  lemma ExpectedPage(s: Store, hint: Option<Tree>, d: int, page: int, parent: int, depth: int, p: Progress)
    requires StoreOk(s) && Expected(s, hint, d, page, parent, depth, p)
    ensures page !in p.visited && NodeOk(s, page, parent)
    ensures s.pages[page].isLeaf ==> hint == Some(Leaf(page)) && depth == d && (p.leafDepth.Some? ==> p.leafDepth.value == d)
    ensures !s.pages[page].isLeaf ==> ExpectedKids(s, hint, d, page, depth, Entered(p, page))
  {
    assert page in Pages(hint.value);
    if !s.pages[page].isLeaf { InnerExpected(s, hint, d, page, parent, depth, p); }
  }

  lemma LeafFound(s: Store, page: int, parent: int, depth: int, p0: Progress, p1: Progress)
    requires StoreOk(s) && NodeOk(s, page, parent) && s.pages[page].isLeaf && page !in p0.visited
    requires p1 == Progress(p0.visited + {page}, p0.leaves + [page], Some(depth)) && (p0.leafDepth.Some? ==> p0.leafDepth == Some(depth))
    ensures Found(s, Leaf(page), page, parent, depth, p0, p1)
  {}

  lemma FoundPage(s: Store, t: Tree, page: int, parent: int, depth: int, p0: Progress, p1: Progress)
    requires StoreOk(s) && Found(s, t, page, parent, depth, p0, p1)
    ensures page !in p0.visited && t.page == page
  {
    assert page in Pages(t);
  }

  lemma KeyFitsLast(s: Store, page: int, kids: seq<Tree>, kid: Tree)
    requires StoreOk(s) && Readable(s, page) && |kids| < s.pages[page].size && kid.page == Child(s, page, |kids|)
    requires SummaryOf(s, kid).Some? && CompareKey(EntryKey(s, page, |kids|), SummaryOf(s, kid).value.minimum, s.hdr.columns) == 0
    ensures KeyFits(s, page, kids + [kid], |kids|)
  {
    assert (kids + [kid])[|kids|] == kid;
  }

  lemma KeyFitsAgain(s: Store, page: int, kids: seq<Tree>, kid: Tree)
    requires StoreOk(s) && Readable(s, page) && |kids| < s.pages[page].size && KeyFits(s, page, kids + [kid], |kids|)
    ensures SummaryOf(s, kid).Some? && CompareKey(EntryKey(s, page, |kids|), SummaryOf(s, kid).value.minimum, s.hdr.columns) == 0
  {
    assert (kids + [kid])[|kids|] == kid;
  }

  class Checker {
    const s: Store
    var violations: seq<Violation>
    var visited: set<int>
    var active: set<int>
    var leaves: seq<int>
    var leafDepth: Option<int>

    constructor (store: Store)
      ensures s == store && violations == [] && visited == {} && active == {} && leaves == [] && leafDepth == None
    {
      s, violations, visited, active, leaves, leafDepth := store, [], {}, {}, [], None;
    }

    ghost predicate Valid()
      reads this
    {
      StoreOk(s) && active <= visited <= Allocated(s.highWater) && forall i :: 0 <= i < |leaves| ==> leaves[i] in s.pages
    }

    ghost function Now(): Progress
      reads this
    {
      Progress(visited, leaves, leafDepth)
    }

    ghost predicate Ranged(sum: Option<Summary>)
    {
      sum.Some? ==> IsKey(sum.value.minimum, s.hdr.columns) && IsKey(sum.value.maximum, s.hdr.columns)
    }

    /** Keeps at most MAX_VIOLATIONS reports, but never loses the fact that there was one. */
    method Add(page: int, text: string)
      modifies this`violations
      ensures violations != []
    {
      if |violations| < MAX_VIOLATIONS {
        violations := violations + [Violation(page, text)];
      }
    }

    /** The checks on a page by itself. */
    method CheckNode(page: int, parent: int)
      requires StoreOk(s) && Readable(s, page) && INITIAL_ROOT_PAGE <= page < s.highWater
      modifies this`violations
      ensures violations == [] <==> old(violations) == [] && NodeOk(s, page, parent)
    {
      var node := s.pages[page];
      if node.parent != parent { Add(page, "wrong parent"); }
      if node.size >= s.hdr.order + 1 { Add(page, "too many entries"); }
      var isRoot := page == s.hdr.root;
      if !isRoot && node.size < (s.hdr.order + 1) / 2 { Add(page, "too few entries"); }
      if isRoot && !node.isLeaf && node.size < 2 { Add(page, "root should have been collapsed"); }
      CheckLocalKeyOrder(page);
      if !isRoot && node.isLeaf && node.size == 0 { Add(page, "a non-root leaf is empty"); }
    }

    method CheckLocalKeyOrder(page: int)
      requires StoreOk(s) && Readable(s, page)
      modifies this`violations
      ensures violations == [] <==> old(violations) == [] && KeysAscending(s, page)
    {
      var i := 1;
      while i < s.pages[page].size
        invariant 1 <= i
        invariant violations == [] <==>
          (old(violations) == [] && forall j :: 0 < j < i && j < s.pages[page].size ==> InOrderAt(s, page, j))
      {
        assert InOrderAt(s, page, i) <==> !OutOfOrder(s.hdr, EntryKey(s, page, i - 1), EntryKey(s, page, i));
        if OutOfOrder(s.hdr, EntryKey(s, page, i - 1), EntryKey(s, page, i)) { Add(page, "keys out of order"); }
        i := i + 1;
      }
    }

    method Visit(page: int, parent: int, depth: int, ghost hint: Option<Tree>, ghost d: int)
      returns (res: Option<Summary>, ghost t: Tree)
      requires Valid() && (page == s.hdr.root || s.hdr.root in visited)
      modifies this
      ensures Valid() && active == old(active) && old(visited) <= visited && Ranged(res)
      ensures old(violations) != [] ==> violations != []
      ensures violations == [] ==> Found(s, t, page, parent, depth, old(Now()), Now()) && res == SummaryOf(s, t)
      ensures violations == [] && page != s.hdr.root ==> res.Some?
      ensures old(violations) == [] && Expected(s, hint, d, page, parent, depth, old(Now())) ==>
        violations == [] && Some(t) == hint && leafDepth == Some(d)
      decreases Allocated(s.highWater) - visited, 0
    {
      res, t := None, Leaf(page);
      ghost var p0 := Now();
      ghost var expected := violations == [] && Expected(s, hint, d, page, parent, depth, p0);
      if expected { ExpectedPage(s, hint, d, page, parent, depth, p0); }
      MinimumSize(s.hdr.order);
      hide TreeOk, Found, FoundKids, Expected, ExpectedKids, SiblingsOk, KeysAscending, StoreOk;
      var entered := Enter(page);
      if !entered { return; }
      CheckNode(page, parent);
      if s.pages[page].isLeaf {
        res := VisitLeaf(page, depth);
        if violations == [] {
          LeafFound(s, page, parent, depth, p0, Now());
        }
      } else {
        res, t := VisitInner(page, depth, hint, d);
        if violations == [] {
          InnerFound(s, t.kids, page, parent, depth, p0, Now());
        }
      }
      active := active - {page};
    }

    /** Marks a page on the way down, unless it is on the path, was seen before or cannot be read. */
    method Enter(page: int) returns (entered: bool)
      requires Valid()
      modifies this`violations, this`visited, this`active
      ensures entered <==> page !in old(visited) && INITIAL_ROOT_PAGE <= page < s.highWater && Readable(s, page)
      ensures entered ==> violations == old(violations) && visited == old(visited) + {page} && active == old(active) + {page}
      ensures !entered ==> violations != [] && active == old(active) && old(visited) <= visited <= Allocated(s.highWater)
      ensures Valid()
    {
      entered := false;
      if page in active {
        Add(page, "child graph contains a cycle");
        return;
      }
      if page in visited {
        Add(page, "page is reachable more than once");
        return;
      }
      if !(INITIAL_ROOT_PAGE <= page < s.highWater) {
        Add(page, "page is outside the allocated range");
        return;
      }
      visited := visited + {page};
      active := active + {page};
      if !Readable(s, page) {
        Add(page, "page cannot be read");
        active := active - {page};
        return;
      }
      entered := true;
    }

    method VisitLeaf(page: int, depth: int) returns (res: Option<Summary>)
      requires StoreOk(s) && Readable(s, page)
      modifies this`violations, this`leafDepth, this`leaves
      ensures leafDepth == (if old(leafDepth).None? then Some(depth) else old(leafDepth)) && leaves == old(leaves) + [page]
      ensures violations == [] <==> old(violations) == [] && leafDepth == Some(depth)
      ensures res == SummaryOf(s, Leaf(page)) && Ranged(res) && (s.pages[page].size > 0 ==> res.Some?)
    {
      if leafDepth.None? {
        leafDepth := Some(depth);
      } else if leafDepth.value != depth {
        Add(page, "leaf at a different depth");
      }
      leaves := leaves + [page];
      var ks := Keys(s, page);
      res := if ks == [] then None else Some(Summary(ks[0], ks[|ks| - 1]));
    }

    method VisitInner(page: int, depth: int, ghost hint: Option<Tree>, ghost d: int)
      returns (res: Option<Summary>, ghost t: Tree)
      requires Valid() && Readable(s, page) && s.hdr.root in visited && !s.pages[page].isLeaf
      modifies this
      ensures Valid() && active == old(active) && old(visited) <= visited
      ensures old(violations) != [] ==> violations != []
      ensures t.Node? && t.page == page && Ranged(res)
      ensures violations == [] && s.pages[page].size > 0 ==>
        && FoundKids(s, t.kids, page, depth, old(Now()), Now()) && |t.kids| == s.pages[page].size
        && (forall i :: 0 < i < |t.kids| ==> SiblingsOk(s, t.kids, i)) && res == SummaryOf(s, t) && res.Some?
      ensures old(violations) == [] && ExpectedKids(s, hint, d, page, depth, old(Now())) && s.pages[page].size > 0 ==>
        violations == [] && Some(t) == hint && leafDepth == Some(d)
      decreases Allocated(s.highWater) - visited, 3
    {
      ghost var expected := old(violations) == [] && ExpectedKids(s, hint, d, page, depth, old(Now()));
      ExpectedSiblings(s, hint, d, page, depth, old(Now()));
      hide FoundKids, ExpectedKids, SummaryOf, SiblingsOk, KidsOk, Wanted, StoreOk, Ranged, Summed;
      var sums, kids := VisitChildren(page, depth, if expected then hint.value.kids else [], d);
      SummedAre(sums, kids);
      res := CloseInner(page, sums, kids);
      t := Node(page, kids);
    }

    /** The summaries are those of the children. */
    ghost predicate Summed(sums: seq<Option<Summary>>, kids: seq<Tree>)
      requires StoreOk(s) && |sums| == |kids|
    {
      forall j :: 0 <= j < |kids| ==> sums[j] == SummaryOf(s, kids[j]) && sums[j].Some?
    }

    lemma SummedAre(sums: seq<Option<Summary>>, kids: seq<Tree>)
      requires StoreOk(s) && |sums| == |kids|
      ensures (forall j :: 0 <= j < |kids| ==> sums[j] == SummaryOf(s, kids[j]) && sums[j].Some?) ==> Summed(sums, kids)
    {}

    /** Compares neighbouring subtrees and sums the node up. */
    method CloseInner(page: int, sums: seq<Option<Summary>>, ghost kids: seq<Tree>) returns (res: Option<Summary>)
      requires StoreOk(s) && |sums| == |kids| && forall j :: 0 <= j < |sums| ==> Ranged(sums[j])
      modifies this`violations
      ensures Ranged(res) && (old(violations) != [] ==> violations != [])
      ensures Summed(sums, kids) ==>
        && (violations == [] <==> old(violations) == [] && forall j :: 0 < j < |kids| ==> SiblingsOk(s, kids, j))
        && (|kids| > 0 ==> res == SummaryOf(s, Node(page, kids)) && res.Some?)
    {
      var n := |sums|;
      hide SummaryOf, SiblingsOk, StoreOk;
      CheckSiblings(page, sums, kids);
      res := None;
      if n > 0 && sums[0].Some? && sums[n - 1].Some? {
        assert Ranged(sums[0]) && Ranged(sums[n - 1]);
        res := Some(Summary(sums[0].value.minimum, sums[n - 1].value.maximum));
      }
      if n > 0 && Summed(sums, kids) { NodeSummary(s, page, kids, sums); }
    }

    /** All children of an inner node, from left to right. */
    method VisitChildren(page: int, depth: int, ghost wanted: seq<Tree>, ghost d: int)
      returns (sums: seq<Option<Summary>>, ghost kids: seq<Tree>)
      requires Valid() && Readable(s, page) && s.hdr.root in visited
      modifies this
      ensures Valid() && active == old(active) && old(visited) <= visited && |sums| == |kids| == s.pages[page].size
      ensures old(violations) != [] ==> violations != []
      ensures forall j :: 0 <= j < |sums| ==> Ranged(sums[j])
      ensures violations == [] ==> FoundKids(s, kids, page, depth, old(Now()), Now())
      ensures violations == [] ==> forall j :: 0 <= j < |kids| ==> sums[j] == SummaryOf(s, kids[j]) && sums[j].Some?
      ensures old(violations) == [] && Wanted(s, wanted, d, page, depth, old(Now())) ==>
        violations == [] && kids == wanted && (|kids| > 0 ==> leafDepth == Some(d))
      decreases Allocated(s.highWater) - visited, 2
    {
      sums, kids := [], [];
      ghost var p0 := Now();
      ghost var expected := violations == [] && Wanted(s, wanted, d, page, depth, p0);
      assert SoFar(sums, kids, page, depth, p0, wanted, d, expected);
      assert page in s.pages && 0 <= s.pages[page].size;
      hide SoFar, StoreOk, Readable, Child;
      for i := 0 to s.pages[page].size
        invariant Valid() && active == old(active) && old(visited) <= visited && |sums| == |kids| == i
        invariant old(violations) != [] ==> violations != []
        invariant SoFar(sums, kids, page, depth, p0, wanted, d, expected)
      {
        var sum, kid := VisitChild(page, depth, i, sums, kids, p0, wanted, d, expected);
        kids := kids + [kid];
        sums := sums + [sum];
      }
      SoFarDone(sums, kids, page, depth, p0, wanted, d, expected);
    }

    /** What is known after the first |kids| children; if expected, they are the wanted ones. */
    ghost predicate SoFar(sums: seq<Option<Summary>>, kids: seq<Tree>, page: int, depth: int, p0: Progress,
                          wanted: seq<Tree>, d: int, expected: bool)
      requires StoreOk(s) && Readable(s, page)
      reads this
    {
      && |sums| == |kids| <= s.pages[page].size
      && (forall j :: 0 <= j < |sums| ==> Ranged(sums[j]))
      && (violations == [] ==>
            && FoundKids(s, kids, page, depth, p0, Now())
            && forall j :: 0 <= j < |kids| ==> sums[j] == SummaryOf(s, kids[j]) && sums[j].Some?)
      && (expected ==>
            && Wanted(s, wanted, d, page, depth, p0) && violations == [] && kids == wanted[..|kids|]
            && (leafDepth.Some? || |kids| > 0 ==> leafDepth == Some(d)))
    }

    lemma SoFarParts(sums: seq<Option<Summary>>, kids: seq<Tree>, page: int, depth: int, p0: Progress,
                     wanted: seq<Tree>, d: int, expected: bool)
      requires StoreOk(s) && Readable(s, page) && SoFar(sums, kids, page, depth, p0, wanted, d, expected)
      ensures |sums| == |kids| && forall j :: 0 <= j < |sums| ==> Ranged(sums[j])
      ensures violations == [] ==>
        && FoundKids(s, kids, page, depth, p0, Now())
        && forall j :: 0 <= j < |kids| ==> sums[j] == SummaryOf(s, kids[j]) && sums[j].Some?
      ensures expected ==>
        && Wanted(s, wanted, d, page, depth, p0) && |wanted| == s.pages[page].size && violations == [] && kids == wanted[..|kids|]
        && (leafDepth.Some? ==> leafDepth == Some(d))
    {
      hide FoundKids, SummaryOf, TreeOk, NodeOk, KeyFits, StoreOk;
    }

    lemma SoFarDone(sums: seq<Option<Summary>>, kids: seq<Tree>, page: int, depth: int, p0: Progress,
                    wanted: seq<Tree>, d: int, expected: bool)
      requires StoreOk(s) && Readable(s, page) && SoFar(sums, kids, page, depth, p0, wanted, d, expected)
      requires |kids| == s.pages[page].size
      ensures forall j :: 0 <= j < |sums| ==> Ranged(sums[j])
      ensures violations == [] ==>
        && FoundKids(s, kids, page, depth, p0, Now())
        && forall j :: 0 <= j < |kids| ==> sums[j] == SummaryOf(s, kids[j]) && sums[j].Some?
      ensures expected ==> violations == [] && kids == wanted && (|kids| > 0 ==> leafDepth == Some(d))
    {
      assert expected ==> wanted[..|wanted|] == wanted;
    }

    lemma SoFarNext(sums: seq<Option<Summary>>, kids: seq<Tree>, sum: Option<Summary>, kid: Tree, page: int, depth: int,
                    p0: Progress, wanted: seq<Tree>, d: int, expected: bool)
      requires StoreOk(s) && Readable(s, page) && |sums| == |kids| < s.pages[page].size
      requires Ranged(sum) && forall j :: 0 <= j < |sums| ==> Ranged(sums[j])
      requires violations == [] ==>
        && FoundKids(s, kids + [kid], page, depth, p0, Now()) && sum == SummaryOf(s, kid) && sum.Some?
        && forall j :: 0 <= j < |kids| ==> sums[j] == SummaryOf(s, kids[j]) && sums[j].Some?
      requires expected ==>
        && Wanted(s, wanted, d, page, depth, p0) && violations == [] && leafDepth == Some(d)
        && |kids| < |wanted| && kids + [kid] == wanted[..|kids| + 1]
      ensures SoFar(sums + [sum], kids + [kid], page, depth, p0, wanted, d, expected)
    {
      hide FoundKids, SummaryOf, Wanted, StoreOk;
    }

    /** One child: visit it and compare its smallest key with the entry that leads to it. */
    method VisitChild(page: int, depth: int, i: nat, ghost sums: seq<Option<Summary>>, ghost kids: seq<Tree>,
                      ghost p0: Progress, ghost wanted: seq<Tree>, ghost d: int, ghost expected: bool)
      returns (sum: Option<Summary>, ghost kid: Tree)
      requires Valid() && Readable(s, page) && s.hdr.root in visited && |kids| == i < s.pages[page].size
      requires SoFar(sums, kids, page, depth, p0, wanted, d, expected)
      modifies this
      ensures Valid() && active == old(active) && old(visited) <= visited
      ensures old(violations) != [] ==> violations != []
      ensures SoFar(sums + [sum], kids + [kid], page, depth, p0, wanted, d, expected)
      decreases Allocated(s.highWater) - visited, 1
    {
      ghost var hint := None;
      SoFarParts(sums, kids, page, depth, p0, wanted, d, expected);
      hide SoFar, Wanted, FoundKids, SummaryOf, Found, Expected, KeyFits, StoreOk, TreeOk, NodeOk, CompareKey, EntryKey, Child, Readable;
      if expected {
        ChildExpected(kids, wanted, page, depth, d, p0);
        hint := Some(wanted[i]);
      }
      sum, kid := Visit(Child(s, page, i), page, depth + 1, hint, d);
      if sum.Some? && CompareKey(EntryKey(s, page, i), sum.value.minimum, s.hdr.columns) != 0 {
        Add(page, "key does not equal the subtree minimum");
      }
      ChildDone(sums, kids, sum, kid, page, depth, p0, old(Now()), wanted, d, expected);
    }

    lemma ChildExpected(kids: seq<Tree>, wanted: seq<Tree>, page: int, depth: int, d: int, p0: Progress)
      requires StoreOk(s) && Readable(s, page) && |kids| < |wanted| == s.pages[page].size && kids == wanted[..|kids|]
      requires Wanted(s, wanted, d, page, depth, p0) && FoundKids(s, kids, page, depth, p0, Now()) && (leafDepth.Some? ==> leafDepth == Some(d))
      ensures Expected(s, Some(wanted[|kids|]), d, Child(s, page, |kids|), page, depth + 1, Now())
      ensures SummaryOf(s, wanted[|kids|]).Some?
      ensures CompareKey(EntryKey(s, page, |kids|), SummaryOf(s, wanted[|kids|]).value.minimum, s.hdr.columns) == 0
      ensures wanted[..|kids| + 1] == kids + [wanted[|kids|]]
    {
      hide Wanted, FoundKids, SummaryOf, Expected, KeyFits, StoreOk, CompareKey, EntryKey, Child, Readable;
      KidExpected(s, wanted, page, depth, d, |kids|, p0, Now());
      KeyFitsAgain(s, page, kids, wanted[|kids|]);
    }

    lemma ChildDone(sums: seq<Option<Summary>>, kids: seq<Tree>, sum: Option<Summary>, kid: Tree, page: int, depth: int,
                    p0: Progress, p1: Progress, wanted: seq<Tree>, d: int, expected: bool)
      requires StoreOk(s) && Readable(s, page) && |sums| == |kids| < s.pages[page].size
      requires Ranged(sum) && forall j :: 0 <= j < |sums| ==> Ranged(sums[j])
      requires violations == [] ==>
        && FoundKids(s, kids, page, depth, p0, p1) && (forall j :: 0 <= j < |kids| ==> sums[j] == SummaryOf(s, kids[j]) && sums[j].Some?)
        && Found(s, kid, Child(s, page, |kids|), page, depth + 1, p1, Now()) && sum == SummaryOf(s, kid) && sum.Some?
        && CompareKey(EntryKey(s, page, |kids|), sum.value.minimum, s.hdr.columns) == 0
      requires expected ==>
        && Wanted(s, wanted, d, page, depth, p0) && violations == [] && leafDepth == Some(d)
        && |kids| < |wanted| && kids + [kid] == wanted[..|kids| + 1]
      ensures SoFar(sums + [sum], kids + [kid], page, depth, p0, wanted, d, expected)
    {
      hide SoFar, Wanted, FoundKids, SummaryOf, Found, KeyFits, StoreOk, CompareKey, Readable;
      if violations == [] {
        FoundPage(s, kid, Child(s, page, |kids|), page, depth + 1, p1, Now());
        KeyFitsLast(s, page, kids, kid);
        KidFound(s, kids, kid, page, depth, p0, p1, Now());
      }
      SoFarNext(sums, kids, sum, kid, page, depth, p0, wanted, d, expected);
    }

    /** Subtrees next to each other must not overlap. */
    method CheckSiblings(page: int, sums: seq<Option<Summary>>, ghost kids: seq<Tree>)
      requires StoreOk(s) && |sums| == |kids| && forall j :: 0 <= j < |sums| ==> Ranged(sums[j])
      modifies this`violations
      ensures old(violations) != [] ==> violations != []
      ensures (forall j :: 0 <= j < |sums| ==> sums[j] == SummaryOf(s, kids[j]) && sums[j].Some?) ==>
        (violations == [] <==> old(violations) == [] && forall j :: 0 < j < |kids| ==> SiblingsOk(s, kids, j))
    {
      var i := 1;
      while i < |sums|
        invariant 1 <= i && (old(violations) != [] ==> violations != [])
        invariant (forall j :: 0 <= j < |sums| ==> sums[j] == SummaryOf(s, kids[j]) && sums[j].Some?) ==>
          (violations == [] <==> old(violations) == [] && forall j :: 0 < j < i && j < |kids| ==> SiblingsOk(s, kids, j))
      {
        hide SummaryOf, StoreOk, OutOfOrder;
        if sums[i - 1].Some? && sums[i].Some? {
          assert Ranged(sums[i - 1]) && Ranged(sums[i]);
          assert sums[i - 1] == SummaryOf(s, kids[i - 1]) && sums[i] == SummaryOf(s, kids[i]) ==>
            (SiblingsOk(s, kids, i) <==> !OutOfOrder(s.hdr, sums[i - 1].value.maximum, sums[i].value.minimum));
          if OutOfOrder(s.hdr, sums[i - 1].value.maximum, sums[i].value.minimum) {
            Add(page, "subtrees overlap or are out of order");
          }
        }
        i := i + 1;
      }
    }

    /** The collected leaves against header, sentinel and their own links. */
    method CheckLeafChain(hasSentinel: bool)
      requires Valid() && (hasSentinel ==> LEAF_HEADER_PAGE in s.pages)
      modifies this`violations
      ensures hasSentinel ==> (violations == [] <==> old(violations) == [] && ChainOk(s, leaves))
      ensures old(violations) != [] ==> violations != []
    {
      if leaves == [] {
        Add(NO_PAGE, "no leaf pages");
        return;
      }
      var n := |leaves|;
      if s.hdr.firstLeaf != leaves[0] { Add(leaves[0], "header first leaf"); }
      if s.hdr.lastLeaf != leaves[n - 1] { Add(leaves[n - 1], "header last leaf"); }
      if hasSentinel {
        if s.pages[LEAF_HEADER_PAGE].next != leaves[0] { Add(leaves[0], "sentinel next"); }
        if s.pages[LEAF_HEADER_PAGE].prev != leaves[n - 1] { Add(leaves[n - 1], "sentinel previous"); }
      }
      CheckLinks(leaves);
      assert (forall p :: p in leaves ==> p in s.pages);
    }

    method CheckLinks(ls: seq<int>)
      requires forall j :: 0 <= j < |ls| ==> ls[j] in s.pages
      modifies this`violations
      ensures violations == [] <==> old(violations) == [] && forall j :: 0 <= j < |ls| ==> LinkOk(s, ls, j)
    {
      for i := 0 to |ls|
        invariant violations == [] <==> old(violations) == [] && forall j :: 0 <= j < i ==> LinkOk(s, ls, j)
      {
        var node := s.pages[ls[i]];
        var prev := if i == 0 then LEAF_HEADER_PAGE else ls[i - 1];
        var next := if i + 1 == |ls| then LEAF_HEADER_PAGE else ls[i + 1];
        assert LinkOk(s, ls, i) <==> node.prev == prev && node.next == next;
        if node.prev != prev { Add(ls[i], "previous link"); }
        if node.next != next { Add(ls[i], "next link"); }
      }
    }

    method CheckSentinel() returns (found: bool)
      requires StoreOk(s)
      modifies this`violations
      ensures found <==> LEAF_HEADER_PAGE < s.highWater && Readable(s, LEAF_HEADER_PAGE)
      ensures violations == [] <==> old(violations) == [] && SentinelOk(s)
    {
      found := false;
      if LEAF_HEADER_PAGE >= s.highWater || !Readable(s, LEAF_HEADER_PAGE) {
        Add(LEAF_HEADER_PAGE, "sentinel cannot be read");
        return;
      }
      found := true;
      var node := s.pages[LEAF_HEADER_PAGE];
      if !node.isLeaf { Add(LEAF_HEADER_PAGE, "sentinel is not a leaf"); }
      if node.size != 0 { Add(LEAF_HEADER_PAGE, "sentinel has entries"); }
      if node.parent != NO_PAGE { Add(LEAF_HEADER_PAGE, "sentinel has a parent"); }
    }

    /** With a root, no violation means exactly that the pages form one right index tree. */
    method Run() returns (ghost t: Tree)
      requires StoreOk(s) && violations == [] && visited == {} && active == {} && leaves == [] && leafDepth == None
      modifies this
      ensures s.hdr.root != NO_PAGE ==> (violations == [] <==> exists t0, d :: IsIndexTree(s, t0, d))
      ensures s.hdr.root != NO_PAGE && violations == [] ==> leafDepth.Some? && IsIndexTree(s, t, leafDepth.value)
      ensures s.hdr.root == NO_PAGE ==> (violations == [] <==> EmptyOk(s))
    {
      t := Leaf(NO_PAGE);
      var hasSentinel := CheckSentinel();
      if s.hdr.root == NO_PAGE {
        if s.hdr.firstLeaf != s.hdr.lastLeaf {
          Add(NO_PAGE, "empty tree has different leaf ends");
        } else if s.hdr.firstLeaf != LEAF_HEADER_PAGE && !(INITIAL_ROOT_PAGE <= s.hdr.firstLeaf < s.highWater) {
          Add(s.hdr.firstLeaf, "empty tree leaf is outside the allocated range");
        } else if hasSentinel &&
                  (s.pages[LEAF_HEADER_PAGE].prev != s.hdr.firstLeaf || s.pages[LEAF_HEADER_PAGE].next != s.hdr.firstLeaf) {
          Add(LEAF_HEADER_PAGE, "sentinel does not point to the header leaf");
        }
        return;
      }
      t := RunFromRoot(hasSentinel);
    }

    method RunFromRoot(hasSentinel: bool) returns (ghost t: Tree)
      requires Valid() && Now() == START && s.hdr.root != NO_PAGE
      requires hasSentinel <==> LEAF_HEADER_PAGE < s.highWater && Readable(s, LEAF_HEADER_PAGE)
      requires violations == [] <==> SentinelOk(s)
      modifies this
      ensures violations == [] <==> exists t0, d :: IsIndexTree(s, t0, d)
      ensures violations == [] ==> leafDepth.Some? && IsIndexTree(s, t, leafDepth.value)
    {
      ghost var hint, d := ExpectedRoot(s);
      hide IsIndexTree, Found, Expected, StoreOk, TreeOk, NodeOk;
      var _, t1 := Visit(s.hdr.root, NO_PAGE, 0, hint, d);
      t := t1;
      ghost var seen := violations == [];
      CheckLeafChain(hasSentinel);
      if s.hdr.pageCount != |visited| + 2 { Add(NO_PAGE, "page count"); }
      if seen { RootFound(s, t, Now()); }
    }
  }

  const START := Progress({}, [], None)

  lemma ExpectedRoot(s: Store) returns (hint: Option<Tree>, d: int)
    requires StoreOk(s)
    ensures (exists t, d0 :: IsIndexTree(s, t, d0)) ==>
      && hint.Some? && IsIndexTree(s, hint.value, d) && SentinelOk(s)
      && Expected(s, hint, d, s.hdr.root, NO_PAGE, 0, START)
  {
    hint, d := None, 0;
    if exists t, d0 :: IsIndexTree(s, t, d0) {
      var t, d0 :| IsIndexTree(s, t, d0);
      hint, d := Some(t), d0;
    }
  }

  lemma RootFound(s: Store, t: Tree, p: Progress)
    requires StoreOk(s) && Found(s, t, s.hdr.root, NO_PAGE, 0, START, p)
    ensures p.visited == Pages(t) && p.leaves == Fringe(t) && p.leafDepth.Some?
    ensures IsIndexTree(s, t, p.leafDepth.value) <==>
      SentinelOk(s) && ChainOk(s, p.leaves) && s.hdr.pageCount == |p.visited| + 2
  {}

  /** What is asked of an index without a root. */
  predicate EmptyOk(s: Store)
    requires StoreOk(s)
  {
    && SentinelOk(s) && s.hdr.firstLeaf == s.hdr.lastLeaf
    && (s.hdr.firstLeaf == LEAF_HEADER_PAGE || INITIAL_ROOT_PAGE <= s.hdr.firstLeaf < s.highWater)
    && s.pages[LEAF_HEADER_PAGE].prev == s.hdr.firstLeaf && s.pages[LEAF_HEADER_PAGE].next == s.hdr.firstLeaf
  }
}
