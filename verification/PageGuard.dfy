/**
  Page guards: each holds one pin of a buffer pool page and gives it back once.

  Every pin taken through a guard gets a number.  A ghost record says which pins were
  given back, in which order and with which dirty flag, and which were marked dirty.
 */
module PageGuard {
  datatype PageId = PageId(fd: int, page: int)

  const NO_PAGE_ID := PageId(-1, -1)

  /** What a guard holds; pin is the number of its pin. */
  datatype View = View(held: bool, id: PageId, dirty: bool, pin: nat)

  datatype Release = Release(id: PageId, dirty: bool, pin: nat)

  datatype Record = Record(taken: nat, given: seq<Release>, marked: set<nat>)

  // ---- the account of pins -----------------------------------------------------------

  predicate Live(vs: seq<View>, pin: nat)
  {
    exists i :: 0 <= i < |vs| && vs[i].held && vs[i].pin == pin
  }

  predicate Given(r: Record, pin: nat)
  {
    exists i :: 0 <= i < |r.given| && r.given[i].pin == pin
  }

  /** No two guards hold the same pin, and a guard's dirty flag is the mark of its pin. */
  predicate GuardsOk(vs: seq<View>, r: Record)
  {
    && (forall i :: 0 <= i < |vs| && vs[i].held ==> vs[i].pin < r.taken && (vs[i].dirty <==> vs[i].pin in r.marked))
    && (forall i, j :: 0 <= i < j < |vs| && vs[i].held && vs[j].held ==> vs[i].pin != vs[j].pin)
  }

  /** No pin is given back twice, and each is given back with its mark. */
  predicate ReleasesOk(r: Record)
  {
    && (forall i :: 0 <= i < |r.given| ==> r.given[i].pin < r.taken && (r.given[i].dirty <==> r.given[i].pin in r.marked))
    && (forall i, j :: 0 <= i < j < |r.given| ==> r.given[i].pin != r.given[j].pin)
    && (forall n :: n in r.marked ==> n < r.taken)
  }

  /** Every pin is either live in a guard or has been given back. */
  predicate EachOnce(vs: seq<View>, r: Record)
  {
    forall n: nat :: n < r.taken ==> (Live(vs, n) <==> !Given(r, n))
  }

  predicate Sound(vs: seq<View>, r: Record)
  {
    GuardsOk(vs, r) && ReleasesOk(r) && EachOnce(vs, r)
  }

  /** How many guards hold a pin of the page. */
  function Holders(vs: seq<View>, p: PageId): nat
  {
    if vs == [] then 0 else Holders(vs[..|vs| - 1], p) + One(vs[|vs| - 1], p)
  }

  function One(v: View, p: PageId): nat
  {
    if v.held && v.id == p then 1 else 0
  }

  lemma {:induction false} HoldersSplit(a: seq<View>, b: seq<View>, p: PageId)
    ensures Holders(a + b, p) == Holders(a, p) + Holders(b, p)
  {
    if b == [] {
      assert a + b == a;
    } else {
      var n := |b| - 1;
      assert (a + b)[..|a + b| - 1] == a + b[..n];
      HoldersSplit(a, b[..n], p);
    }
  }

  lemma HoldersAt(vs: seq<View>, i: nat, p: PageId)
    requires i < |vs|
    ensures Holders(vs, p) == Holders(vs[..i], p) + One(vs[i], p) + Holders(vs[i + 1..], p)
  {
    var one := [vs[i]];
    assert one[..0] == [] && Holders(one, p) == One(vs[i], p);
    HoldersSplit(vs[..i], one, p);
    HoldersSplit(vs[..i] + one, vs[i + 1..], p);
    assert vs[..i] + one + vs[i + 1..] == vs;
  }

  lemma HoldersSet(vs: seq<View>, i: nat, v: View, p: PageId)
    requires i < |vs|
    ensures Holders(vs[i := v], p) == Holders(vs, p) - One(vs[i], p) + One(v, p)
  {
    var now := vs[i := v];
    HoldersAt(vs, i, p);
    HoldersAt(now, i, p);
    assert now[..i] == vs[..i] && now[i + 1..] == vs[i + 1..];
  }

  // ---- what each operation does to it -----------------------------------------------------

  const EMPTY := View(false, NO_PAGE_ID, false, 0)

  lemma GiveBack(vs: seq<View>, r: Record, i: nat)
    requires Sound(vs, r) && i < |vs| && vs[i].held
    ensures Sound(vs[i := EMPTY], r.(given := r.given + [Release(vs[i].id, vs[i].dirty, vs[i].pin)]))
  {
    var v := vs[i];
    var now, next := vs[i := EMPTY], r.(given := r.given + [Release(v.id, v.dirty, v.pin)]);
    assert Live(vs, v.pin) && !Given(r, v.pin);
    assert next.given[|r.given|].pin == v.pin;
    forall n: nat | n < r.taken
      ensures Given(next, n) <==> Given(r, n) || n == v.pin
      ensures Live(now, n) <==> Live(vs, n) && n != v.pin
    {
      GivenMore(r, Release(v.id, v.dirty, v.pin), n);
      LiveLess(vs, r, i, n);
    }
  }

  lemma GivenMore(r: Record, x: Release, n: nat)
    ensures Given(r.(given := r.given + [x]), n) <==> Given(r, n) || n == x.pin
  {
    var next := r.(given := r.given + [x]);
    assert next.given[|r.given|] == x;
    if Given(r, n) {
      var k :| 0 <= k < |r.given| && r.given[k].pin == n;
      assert next.given[k].pin == n;
    }
  }

  lemma LiveLess(vs: seq<View>, r: Record, i: nat, n: nat)
    requires GuardsOk(vs, r) && i < |vs| && vs[i].held
    ensures Live(vs[i := EMPTY], n) <==> Live(vs, n) && n != vs[i].pin
  {
    var now := vs[i := EMPTY];
    if Live(vs, n) && n != vs[i].pin {
      var k :| 0 <= k < |vs| && vs[k].held && vs[k].pin == n;
      assert now[k] == vs[k];
    }
  }

  lemma TakePin(vs: seq<View>, r: Record, id: PageId)
    requires Sound(vs, r)
    ensures Sound(vs + [View(true, id, false, r.taken)], r.(taken := r.taken + 1))
  {
    var now, next := vs + [View(true, id, false, r.taken)], r.(taken := r.taken + 1);
    assert now[|vs|].pin == r.taken;
    forall n: nat | n < next.taken ensures Live(now, n) <==> !Given(next, n) {
      if n < r.taken {
        assert Live(vs, n) <==> !Given(r, n);
        if Live(vs, n) {
          var k :| 0 <= k < |vs| && vs[k].held && vs[k].pin == n;
          assert now[k] == vs[k];
        }
      }
    }
  }

  lemma AddEmpty(vs: seq<View>, r: Record)
    requires Sound(vs, r)
    ensures Sound(vs + [EMPTY], r)
  {
    var now := vs + [EMPTY];
    forall n: nat | n < r.taken ensures Live(now, n) <==> !Given(r, n) {
      assert Live(vs, n) <==> !Given(r, n);
      if Live(vs, n) {
        var k :| 0 <= k < |vs| && vs[k].held && vs[k].pin == n;
        assert now[k] == vs[k];
      }
    }
  }

  /** Handing a pin over leaves the account as it is. */
  lemma HandOver(vs: seq<View>, r: Record, i: nat, j: nat)
    requires Sound(vs, r) && i < |vs| && j < |vs| && i != j && !vs[i].held
    ensures Sound(vs[i := vs[j]][j := EMPTY], r)
  {
    var now := vs[i := vs[j]][j := EMPTY];
    forall n: nat | n < r.taken ensures Live(now, n) <==> !Given(r, n) {
      assert Live(vs, n) <==> !Given(r, n);
      if Live(vs, n) {
        var k :| 0 <= k < |vs| && vs[k].held && vs[k].pin == n;
        assert if k == j then now[i] == vs[j] else now[k] == vs[k];
      }
    }
  }

  lemma Mark(vs: seq<View>, r: Record, i: nat)
    requires Sound(vs, r) && i < |vs| && vs[i].held
    ensures Sound(vs[i := vs[i].(dirty := true)], r.(marked := r.marked + {vs[i].pin}))
  {
    var now, next := vs[i := vs[i].(dirty := true)], r.(marked := r.marked + {vs[i].pin});
    assert Live(vs, vs[i].pin) && !Given(r, vs[i].pin);
    forall n: nat | n < r.taken ensures Live(now, n) <==> !Given(next, n) {
      assert Live(vs, n) <==> !Given(r, n);
      if Live(vs, n) {
        var k :| 0 <= k < |vs| && vs[k].held && vs[k].pin == n;
        assert now[k].held && now[k].pin == n;
      }
    }
  }

  lemma Forget(vs: seq<View>, r: Record, i: nat)
    requires Sound(vs, r) && i < |vs| && !vs[i].held
    ensures Sound(vs[..i] + vs[i + 1..], r)
  {
    var now := vs[..i] + vs[i + 1..];
    forall n: nat | n < r.taken ensures Live(now, n) <==> !Given(r, n) {
      assert Live(vs, n) <==> !Given(r, n);
      if Live(vs, n) {
        var k :| 0 <= k < |vs| && vs[k].held && vs[k].pin == n;
        assert if k < i then now[k] == vs[k] else now[k - 1] == vs[k];
      }
    }
  }

  /** With no pin live, every pin taken was given back exactly once, with its mark. */
  lemma AllGivenBack(vs: seq<View>, r: Record, n: nat)
    requires Sound(vs, r) && (forall i :: 0 <= i < |vs| ==> !vs[i].held) && n < r.taken
    ensures exists i :: 0 <= i < |r.given| && r.given[i].pin == n && (r.given[i].dirty <==> n in r.marked) &&
              (forall j :: 0 <= j < |r.given| && j != i ==> r.given[j].pin != n)
  {
    assert !Live(vs, n);
    var i :| 0 <= i < |r.given| && r.given[i].pin == n;
    assert forall j :: 0 <= j < |r.given| && j != i ==> r.given[j].pin != n;
  }

  // ---- the account with the pool's counts -----------------------------------------------------

  function Count(m: map<PageId, int>, p: PageId): int
  {
    if p in m then m[p] else 0
  }

  /** Each page is pinned as often as other code pins it, plus once for each guard that holds it. */
  ghost predicate Balanced(vs: seq<View>, pins: map<PageId, int>, base: map<PageId, int>)
  {
    forall p :: Count(base, p) >= 0 && Count(pins, p) == Count(base, p) + Holders(vs, p)
  }

  ghost predicate Accounts(vs: seq<View>, r: Record, pins: map<PageId, int>, base: map<PageId, int>)
  {
    Sound(vs, r) && Balanced(vs, pins, base)
  }

  /** The counts after the pool has changed the page's count by d. */
  ghost predicate Changed(pins: map<PageId, int>, now: map<PageId, int>, id: PageId, d: int)
  {
    forall p :: Count(now, p) == Count(pins, p) + (if p == id then d else 0)
  }

  function Returned(r: Record, v: View): Record
  {
    r.(given := r.given + [Release(v.id, v.dirty, v.pin)])
  }

  lemma AccountsDropped(vs: seq<View>, r: Record, pins: map<PageId, int>, base: map<PageId, int>, i: nat, now: map<PageId, int>)
    requires Accounts(vs, r, pins, base) && i < |vs| && vs[i].held && Changed(pins, now, vs[i].id, -1)
    ensures Accounts(vs[i := EMPTY], Returned(r, vs[i]), now, base)
  {
    GiveBack(vs, r, i);
    forall p ensures Holders(vs[i := EMPTY], p) == Holders(vs, p) - One(vs[i], p) { HoldersSet(vs, i, EMPTY, p); }
    hide Sound, Holders;
  }

  lemma AccountsFetched(vs: seq<View>, r: Record, pins: map<PageId, int>, base: map<PageId, int>, id: PageId, now: map<PageId, int>)
    requires Accounts(vs, r, pins, base) && Changed(pins, now, id, 1)
    ensures Accounts(vs + [View(true, id, false, r.taken)], r.(taken := r.taken + 1), now, base)
  {
    var v := View(true, id, false, r.taken);
    TakePin(vs, r, id);
    forall p ensures Holders(vs + [v], p) == Holders(vs, p) + One(v, p) { HoldersSnoc(vs, v, p); }
    hide Sound, Holders;
  }

  lemma AccountsEmpty(vs: seq<View>, r: Record, pins: map<PageId, int>, base: map<PageId, int>)
    requires Accounts(vs, r, pins, base)
    ensures Accounts(vs + [EMPTY], r, pins, base)
  {
    AddEmpty(vs, r);
    forall p ensures Holders(vs + [EMPTY], p) == Holders(vs, p) { HoldersSnoc(vs, EMPTY, p); }
    hide Sound, Holders;
  }

  lemma AccountsMoved(vs: seq<View>, r: Record, pins: map<PageId, int>, base: map<PageId, int>, i: nat, j: nat)
    requires Accounts(vs, r, pins, base) && i < |vs| && j < |vs| && i != j && !vs[i].held
    ensures Accounts(vs[i := vs[j]][j := EMPTY], r, pins, base)
  {
    HandOver(vs, r, i, j);
    forall p ensures Holders(vs[i := vs[j]][j := EMPTY], p) == Holders(vs, p) { HoldersMoved(vs, i, j, p); }
    hide Sound, Holders;
  }

  /** Move assignment: the old pin is given back, the other guard's is taken over. */
  lemma AccountsAssigned(vs: seq<View>, r: Record, pins: map<PageId, int>, base: map<PageId, int>, i: nat, j: nat, now: map<PageId, int>)
    requires Accounts(vs, r, pins, base) && i < |vs| && j < |vs| && i != j && (!vs[i].held ==> vs[i] == EMPTY && now == pins)
    requires vs[i].held ==> Changed(pins, now, vs[i].id, -1)
    ensures Accounts(vs[i := vs[j]][j := EMPTY], if vs[i].held then Returned(r, vs[i]) else r, now, base)
  {
    var mid := vs[i := EMPTY];
    hide Accounts, Returned;
    if vs[i].held { AccountsDropped(vs, r, pins, base, i, now); } else { assert mid == vs; }
    AccountsMoved(mid, if vs[i].held then Returned(r, vs[i]) else r, now, base, i, j);
    assert mid[i := mid[j]][j := EMPTY] == vs[i := vs[j]][j := EMPTY];
  }

  lemma AccountsMarked(vs: seq<View>, r: Record, pins: map<PageId, int>, base: map<PageId, int>, i: nat)
    requires Accounts(vs, r, pins, base) && i < |vs| && vs[i].held
    ensures Accounts(vs[i := vs[i].(dirty := true)], r.(marked := r.marked + {vs[i].pin}), pins, base)
  {
    Mark(vs, r, i);
    hide Sound, Holders;
    var now := vs[i := vs[i].(dirty := true)];
    forall p ensures Holders(now, p) == Holders(vs, p) { HoldersSet(vs, i, vs[i].(dirty := true), p); }
    assert Balanced(now, pins, base);
  }

  lemma AccountsForgotten(vs: seq<View>, r: Record, pins: map<PageId, int>, base: map<PageId, int>, i: nat)
    requires Accounts(vs, r, pins, base) && i < |vs| && !vs[i].held
    ensures Accounts(vs[..i] + vs[i + 1..], r, pins, base)
  {
    Forget(vs, r, i);
    forall p ensures Holders(vs[..i] + vs[i + 1..], p) == Holders(vs, p) {
      HoldersAt(vs, i, p);
      HoldersSplit(vs[..i], vs[i + 1..], p);
    }
    hide Sound, Holders;
  }

  /** A pin that a guard holds is one the pool counts. */
  lemma HeldIsCounted(vs: seq<View>, r: Record, pins: map<PageId, int>, base: map<PageId, int>, i: nat)
    requires Accounts(vs, r, pins, base) && i < |vs| && vs[i].held
    ensures Count(pins, vs[i].id) > 0
  {
    HoldersAt(vs, i, vs[i].id);
  }

  /** When no guard holds a pin, every page is pinned as often as other code pins it. */
  lemma NothingHeld(vs: seq<View>, r: Record, pins: map<PageId, int>, base: map<PageId, int>, p: PageId)
    requires Accounts(vs, r, pins, base) && forall i :: 0 <= i < |vs| ==> !vs[i].held
    ensures Count(pins, p) == Count(base, p)
  {
    NoHolders(vs, p);
  }

  lemma HoldersSnoc(vs: seq<View>, v: View, p: PageId)
    ensures Holders(vs + [v], p) == Holders(vs, p) + One(v, p)
  {
    assert (vs + [v])[..|vs|] == vs;
  }

  lemma HoldersMoved(vs: seq<View>, i: nat, j: nat, p: PageId)
    requires i < |vs| && j < |vs| && i != j
    ensures Holders(vs[i := vs[j]][j := EMPTY], p) == Holders(vs, p) - One(vs[i], p)
  {
    HoldersSet(vs, i, vs[j], p);
    HoldersSet(vs[i := vs[j]], j, EMPTY, p);
  }

  lemma {:induction false} NoHolders(vs: seq<View>, p: PageId)
    requires forall i :: 0 <= i < |vs| ==> !vs[i].held
    ensures Holders(vs, p) == 0
  {
    if vs != [] { NoHolders(vs[..|vs| - 1], p); }
  }

  // ---- pool and guards ----------------------------------------------------------------------

  /** The pool's part of the contract: it counts pins. */
  class BufferPool {
    var pins: map<PageId, int>
    ghost var record: Record

    constructor (pins: map<PageId, int>)
      ensures this.pins == pins && record == Record(0, [], {})
    {
      this.pins := pins;
      record := Record(0, [], {});
    }

    /** Pins a page that can be brought in. */
    method FetchPage(id: PageId, available: bool) returns (ok: bool)
      modifies this
      ensures ok == available
      ensures ok ==> record == old(record).(taken := old(record.taken) + 1) && Changed(old(pins), pins, id, 1)
      ensures !ok ==> record == old(record) && pins == old(pins)
    {
      ok := available;
      if ok {
        pins := pins[id := Count(pins, id) + 1];
        record := record.(taken := record.taken + 1);
      }
    }

    /** Gives a pin back; refused where there is none. */
    method UnpinPage(id: PageId, dirty: bool, ghost pin: nat) returns (ok: bool)
      modifies this
      ensures ok == (Count(old(pins), id) > 0)
      ensures ok ==> record == Returned(old(record), View(true, id, dirty, pin)) && Changed(old(pins), pins, id, -1)
      ensures !ok ==> record == old(record) && pins == old(pins)
    {
      ok := Count(pins, id) > 0;
      if ok {
        pins := pins[id := Count(pins, id) - 1];
        record := Returned(record, View(true, id, dirty, pin));
      }
    }
  }

  class Guard {
    var pool: BufferPool?
    var held: bool
    var id: PageId
    var dirty: bool
    ghost var pin: nat

    constructor ()
      ensures pool == null && State() == EMPTY
    {
      pool, held, id, dirty, pin := null, false, NO_PAGE_ID, false, 0;
    }

    constructor Pinned(pool: BufferPool, id: PageId, ghost pin: nat)
      ensures this.pool == pool && State() == View(true, id, false, pin)
    {
      this.pool, this.held, this.id, this.dirty, this.pin := pool, true, id, false, pin;
    }

    /** The move constructor: the new guard takes over what the other one holds. */
    constructor Moved(other: Guard)
      requires other.Tidy()
      modifies other
      ensures pool == old(other.pool) && State() == old(other.State()) && other.pool == null && other.State() == EMPTY
    {
      pool, held, id, dirty, pin := other.pool, other.held, other.id, other.dirty, other.pin;
      new;
      other.pool, other.held, other.id, other.dirty, other.pin := null, false, NO_PAGE_ID, false, 0;
    }

    ghost function State(): View
      reads this
    {
      View(held, id, dirty, pin)
    }

    /** An empty guard is empty in all its fields. */
    ghost predicate Tidy()
      reads this
    {
      if held then pool != null else pool == null && State() == EMPTY
    }

    method MarkDirty()
      modifies this`dirty
      ensures State() == if held then old(State()).(dirty := true) else old(State())
    {
      if held { dirty := true; }
    }

    /** Releases the pin early; without one there is nothing to do. */
    method Drop() returns (ok: bool)
      requires Tidy() && (held ==> Count(pool.pins, id) > 0)
      modifies this, pool
      ensures ok && State() == EMPTY && pool == null
      ensures old(held) ==>
        old(pool).record == Returned(old(pool.record), old(State())) && Changed(old(pool.pins), old(pool).pins, old(id), -1)
    {
      if !held { return true; }
      var was, page, mark := pool, id, dirty;
      ghost var number := pin;
      pool, held, id, dirty, pin := null, false, NO_PAGE_ID, false, 0;
      if was == null { return false; }
      ok := was.UnpinPage(page, mark, number);
    }

    /** Takes over what the other guard holds, releasing its own pin first; moving to itself changes nothing. */
    method MoveFrom(other: Guard)
      requires Tidy() && other.Tidy() && (held ==> Count(pool.pins, id) > 0)
      modifies this, other, pool
      ensures this == other ==> State() == old(State()) && pool == old(pool)
      ensures this != other ==> State() == old(other.State()) && pool == old(other.pool) && other.State() == EMPTY && other.pool == null
      ensures old(held) && this == other ==> old(pool).record == old(pool.record) && old(pool).pins == old(pool.pins)
      ensures old(held) && this != other ==>
        old(pool).record == Returned(old(pool.record), old(State())) && Changed(old(pool.pins), old(pool).pins, old(id), -1)
    {
      if this == other { return; }
      var _ := Drop();
      pool, held, id, dirty, pin := other.pool, other.held, other.id, other.dirty, other.pin;
      other.pool, other.held, other.id, other.dirty, other.pin := null, false, NO_PAGE_ID, false, 0;
    }
  }

  // ---- all guards of a pool ---------------------------------------------------------------------

  class Scope {
    const pool: BufferPool
    ghost const base: map<PageId, int>
    var guards: seq<Guard>

    constructor (pool: BufferPool)
      requires pool.record == Record(0, [], {}) && forall p :: p in pool.pins ==> pool.pins[p] >= 0
      ensures this.pool == pool && guards == [] && base == pool.pins && Valid()
    {
      this.pool := pool;
      base := pool.pins;
      guards := [];
    }

    ghost function States(): (vs: seq<View>)
      reads this, guards
      ensures |vs| == |guards| && forall i :: 0 <= i < |guards| ==> vs[i] == guards[i].State()
    {
      seq(|guards|, i requires 0 <= i < |guards| reads this, guards => guards[i].State())
    }

    ghost function Book(): Ledger
      reads this, guards, pool
    {
      Ledger(States(), pool.record)
    }

    /** The guards are separate objects on this pool. */
    ghost predicate Separate()
      reads this, guards
    {
      && (forall i :: 0 <= i < |guards| ==> guards[i].Tidy() && (guards[i].held ==> guards[i].pool == pool))
      && (forall i, j :: 0 <= i < j < |guards| ==> guards[i] != guards[j])
    }

    ghost predicate Valid()
      reads this, pool, guards
    {
      Separate() && Accounts(States(), pool.record, pool.pins, base)
    }

    method Drop(i: nat) returns (ok: bool)
      requires Valid() && i < |guards|
      modifies pool, guards[i]
      ensures Valid() && ok && States() == old(States())[i := EMPTY]
      ensures pool.record == if old(guards[i].held) then Returned(old(pool.record), old(guards[i].State())) else old(pool.record)
    {
      hide Accounts, Returned;
      ghost var vs, r, pins := States(), pool.record, pool.pins;
      if guards[i].held { HeldIsCounted(vs, r, pins, base, i); }
      ok := guards[i].Drop();
      if vs[i].held { AccountsDropped(vs, r, pins, base, i, pool.pins); }
      assert States() == vs[i := EMPTY];
      assert !vs[i].held ==> vs[i := EMPTY] == vs;
    }

    /** A new guard on the page, empty where the page cannot be brought in. */
    method Fetch(id: PageId, available: bool)
      requires Valid()
      modifies this, pool
      ensures Valid() && States() == old(States()) + [if available then View(true, id, false, old(pool.record.taken)) else EMPTY]
      ensures |guards| == |old(guards)| + 1 && guards[..|old(guards)|] == old(guards) && fresh(guards[|old(guards)|])
      ensures pool.record == if available then old(pool.record).(taken := old(pool.record.taken) + 1) else old(pool.record)
    {
      hide Accounts;
      ghost var vs, r, pins := States(), pool.record, pool.pins;
      var ok := pool.FetchPage(id, available);
      var g;
      if ok {
        g := new Guard.Pinned(pool, id, r.taken);
        AccountsFetched(vs, r, pins, base, id, pool.pins);
      } else {
        g := new Guard();
        AccountsEmpty(vs, r, pins, base);
      }
      guards := guards + [g];
      assert States() == vs + [g.State()];
    }

    /** Move assignment between two guards, possibly the same one. */
    method Move(i: nat, j: nat)
      requires Valid() && i < |guards| && j < |guards|
      modifies pool, guards[i], guards[j]
      ensures Valid() && States() == if i == j then old(States()) else old(States())[i := old(States()[j])][j := EMPTY]
      ensures pool.record == if i != j && old(guards[i].held) then Returned(old(pool.record), old(guards[i].State())) else old(pool.record)
    {
      hide Accounts, Returned;
      ghost var vs, r, pins := States(), pool.record, pool.pins;
      if guards[i].held { HeldIsCounted(vs, r, pins, base, i); }
      if i != j { assert guards[i] != guards[j]; }
      guards[i].MoveFrom(guards[j]);
      if i == j {
        assert States() == vs;
      } else {
        AccountsAssigned(vs, r, pins, base, i, j, pool.pins);
        assert States() == vs[i := vs[j]][j := EMPTY];
      }
    }

    /** Move construction: a new guard for what an old one held. */
    method MoveNew(j: nat)
      requires Valid() && j < |guards|
      modifies this, pool, guards[j]
      ensures Valid() && States() == old(States())[j := EMPTY] + [old(States()[j])]
      ensures |guards| == |old(guards)| + 1 && guards[..|old(guards)|] == old(guards) && fresh(guards[|old(guards)|])
      ensures pool.record == old(pool.record)
    {
      hide Accounts;
      ghost var vs, r, pins := States(), pool.record, pool.pins;
      var g := new Guard.Moved(guards[j]);
      guards := guards + [g];
      AccountsEmpty(vs, r, pins, base);
      AccountsMoved(vs + [EMPTY], r, pins, base, |vs|, j);
      assert (vs + [EMPTY])[|vs| := vs[j]][j := EMPTY] == vs[j := EMPTY] + [vs[j]];
      assert States() == vs[j := EMPTY] + [vs[j]];
    }

    /** Marks the page of a guard; the mark stays with the pin. */
    method MarkDirty(i: nat)
      requires Valid() && i < |guards|
      modifies pool, guards[i]
      ensures Valid() && pool.pins == old(pool.pins)
      ensures States() == if old(guards[i].held) then old(States())[i := old(States()[i]).(dirty := true)] else old(States())
      ensures pool.record == if old(guards[i].held) then old(pool.record).(marked := old(pool.record.marked) + {old(guards[i].pin)}) else old(pool.record)
    {
      hide Accounts;
      ghost var vs, r := States(), pool.record;
      guards[i].MarkDirty();
      if vs[i].held {
        AccountsMarked(vs, r, pool.pins, base, i);
        pool.record := r.(marked := r.marked + {vs[i].pin});
      }
      assert States() == if vs[i].held then vs[i := vs[i].(dirty := true)] else vs;
    }

    /** The destructor: releases the pin, and the guard is gone. */
    method Destroy(i: nat)
      requires Valid() && i < |guards|
      modifies this, pool, guards[i]
      ensures Valid() && guards == old(guards)[..i] + old(guards)[i + 1..]
      ensures States() == old(States())[..i] + old(States())[i + 1..]
      ensures pool.record == if old(guards[i].held) then Returned(old(pool.record), old(guards[i].State())) else old(pool.record)
    {
      hide Accounts, Returned;
      var _ := Drop(i);
      ghost var vs := States();
      AccountsForgotten(vs, pool.record, pool.pins, base, i);
      guards := guards[..i] + guards[i + 1..];
      assert States() == vs[..i] + vs[i + 1..];
    }
  }

  // ---- any sequence of operations ------------------------------------------------------------------

  datatype Op = FetchOp(id: PageId, available: bool) | MoveOp(i: nat, j: nat) | MoveNewOp(j: nat) | MarkOp(i: nat)
              | DropOp(i: nat) | DestroyOp(i: nat)

  /** All guards with what they hold, and what the pool has been asked for. */
  datatype Ledger = Ledger(vs: seq<View>, record: Record)

  function Released(r: Record, v: View): Record
  {
    if v.held then Returned(r, v) else r
  }

  /** What an operation does; one on a guard that is not there does nothing. */
  function Step(l: Ledger, op: Op): Ledger
  {
    var vs, r := l.vs, l.record;
    match op
    case FetchOp(id, available) =>
      if available then Ledger(vs + [View(true, id, false, r.taken)], r.(taken := r.taken + 1)) else Ledger(vs + [EMPTY], r)
    case MoveOp(i, j) =>
      if i >= |vs| || j >= |vs| || i == j then l else Ledger(vs[i := vs[j]][j := EMPTY], Released(r, vs[i]))
    case MoveNewOp(j) => if j >= |vs| then l else Ledger(vs[j := EMPTY] + [vs[j]], r)
    case MarkOp(i) =>
      if i >= |vs| || !vs[i].held then l else Ledger(vs[i := vs[i].(dirty := true)], r.(marked := r.marked + {vs[i].pin}))
    case DropOp(i) => if i >= |vs| then l else Ledger(vs[i := EMPTY], Released(r, vs[i]))
    case DestroyOp(i) => if i >= |vs| then l else Ledger(vs[..i] + vs[i + 1..], Released(r, vs[i]))
  }

  function Steps(l: Ledger, ops: seq<Op>): Ledger
  {
    if ops == [] then l else Step(Steps(l, ops[..|ops| - 1]), ops[|ops| - 1])
  }

  /** A guard that is dropped, destroyed or moved onto returns its pin there and then, with its mark. */
  lemma ReturnedAtOnce(l: Ledger, op: Op, i: nat)
    requires i < |l.vs| && l.vs[i].held
    requires op == DropOp(i) || op == DestroyOp(i) || (op.MoveOp? && op.i == i && op.j < |l.vs| && op.j != i)
    ensures var v, given := l.vs[i], Step(l, op).record.given;
      given == l.record.given + [Release(v.id, v.dirty, v.pin)]
  {}

  /** A move hands over what the other guard held, and leaves that one empty. */
  lemma MovedOver(l: Ledger, i: nat, j: nat)
    requires i < |l.vs| && j < |l.vs| && i != j
    ensures var vs := Step(l, MoveOp(i, j)).vs;
      && |vs| == |l.vs| && vs[i] == l.vs[j] && !vs[j].held
      && forall k :: 0 <= k < |vs| && k != i && k != j ==> vs[k] == l.vs[k]
  {}

  /** What was marked once stays marked, whatever follows. */
  lemma {:induction false} MarksStay(l: Ledger, ops: seq<Op>)
    ensures l.record.marked <= Steps(l, ops).record.marked
  {
    if ops != [] { MarksStay(l, ops[..|ops| - 1]); }
  }

  /** A page marked through a guard is returned dirty, whenever that happens. */
  lemma MarkedIsReturnedDirty(l: Ledger, i: nat, ops: seq<Op>, k: nat)
    requires i < |l.vs| && l.vs[i].held
    requires var end := Steps(Step(l, MarkOp(i)), ops); ReleasesOk(end.record) && k < |end.record.given|
    requires Steps(Step(l, MarkOp(i)), ops).record.given[k].pin == l.vs[i].pin
    ensures Steps(Step(l, MarkOp(i)), ops).record.given[k].dirty
  {
    var marked := Step(l, MarkOp(i));
    assert l.vs[i].pin in marked.record.marked;
    MarksStay(marked, ops);
    hide Step, Steps;
  }

  /** Runs operations in order; whatever they are, pins and live guards stay in balance. */
  method RunAll(scope: Scope, ops: seq<Op>)
    requires scope.Valid()
    modifies scope, scope.pool, scope.guards
    ensures scope.Valid() && scope.Book() == Steps(old(scope.Book()), ops)
  {
    ghost var start := scope.Book();
    assert ops[..0] == [];
    for k := 0 to |ops|
      invariant scope.Valid() && scope.Book() == Steps(start, ops[..k])
      invariant forall i :: 0 <= i < |scope.guards| ==> scope.guards[i] in old(scope.guards) || fresh(scope.guards[i])
    {
      hide Step, Steps, Accounts;
      RunOne(scope, ops[k]);
      assert forall i :: 0 <= i < |scope.guards| ==> scope.guards[i] in scope.guards;
      StepsNext(start, ops, k);
    }
    assert ops[..|ops|] == ops;
  }

  lemma StepsNext(l: Ledger, ops: seq<Op>, k: nat)
    requires k < |ops|
    ensures Steps(l, ops[..k + 1]) == Step(Steps(l, ops[..k]), ops[k])
  {
    assert ops[..k + 1][..k] == ops[..k];
  }

  method RunOne(scope: Scope, op: Op)
    requires scope.Valid()
    modifies scope, scope.pool, scope.guards
    ensures scope.Valid() && scope.Book() == Step(old(scope.Book()), op)
    ensures forall g :: g in scope.guards ==> g in old(scope.guards) || fresh(g)
  {
    hide Returned, Accounts;
    match op
    case FetchOp(id, available) => scope.Fetch(id, available);
    case MoveOp(i, j) => if i < |scope.guards| && j < |scope.guards| { scope.Move(i, j); }
    case MoveNewOp(j) => if j < |scope.guards| { scope.MoveNew(j); }
    case MarkOp(i) => if i < |scope.guards| { scope.MarkDirty(i); }
    case DropOp(i) => if i < |scope.guards| { var _ := scope.Drop(i); }
    case DestroyOp(i) => if i < |scope.guards| { scope.Destroy(i); }
  }
}
