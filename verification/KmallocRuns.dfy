/** Whole runs of `kmalloc` and `kfree` (Lab5/kern/mm/kmalloc.c) by any number of clients. */
module KmallocRuns {
  import opened FreeRing
  import opened Kmalloc
  import opened Options
  import opened Seqs
  import opened Slob

  /** A call of `kmalloc`, with what the page source would answer, or of `kfree` for the `k`-th of the
      pointers that are outstanding. */
  datatype Request = Get(size: nat, slobPage: Option<int>, bigPages: Option<int>) | Give(k: nat)

  /** A pointer handed out for a request of `size` bytes, and the SLOB block behind it: the one in front
      of its payload, or the record of its pages. */
  datatype Grant = Grant(pointer: int, size: nat, block: int)

  /** What a call came to: `grew` says whether the heap took a page. */
  datatype Answer =
    | Granted(pointer: int, block: int, grew: bool)
    | Refused(grew: bool)
    | Released(back: Option<int>)
    | Nothing

  /** The grants outstanding, and the units of the pages the heap has taken. */
  datatype Ledger = Ledger(grants: seq<Grant>, pages: set<int>)

  /** The pages a large grant stands for. */
  function RunOf(g: Grant): set<int> {
    if Large(g.size) then Extent(g.pointer, PAGE_UNITS * Pow2(FindOrder(g.size))) else {}
  }

  /** All units that the page source has given away. */
  function Owned(l: Ledger): set<int> {
    l.pages + set g, x | g in l.grants && x in RunOf(g) :: x
  }

  function After(l: Ledger, r: Request, a: Answer): Ledger {
    match r
    case Get(size, slobPage, _) =>
      (match a
       case Granted(p, b, grew) => Ledger(l.grants + [Grant(p, size, b)], l.pages + Added(grew, slobPage))
       case Refused(grew) => l.(pages := l.pages + Added(grew, slobPage))
       case _ => l)
    case Give(k) => if k < |l.grants| then l.(grants := Without(l.grants, k)) else l
  }

  function Replay(l: Ledger, requests: seq<Request>, answers: seq<Answer>): Ledger
    requires |requests| == |answers|
  {
    if requests == [] then l
    else
      var n := |requests| - 1;
      After(Replay(l, requests[..n], answers[..n]), requests[n], answers[n])
  }

  /** The units of the blocks granted. */
  ghost function BlocksOf(grants: seq<Grant>): set<int> {
    set g, x | g in grants && x in Extent(g.block, BlockUnits(g.size)) :: x
  }

  /** The units that are nobody's: those of the heap's pages and the sentinel's, without the blocks granted. */
  ghost function FreeOf(l: Ledger, arena: int): set<int> {
    l.pages + {arena} - BlocksOf(l.grants)
  }

  /** Nowhere are `n` units free in a row. */
  ghost predicate NoRoom(l: Ledger, arena: int, n: int) {
    forall b :: !(Extent(b, n) <= FreeOf(l, arena))
  }

  /** The answer to a request, but for the place of the block, which overlaps no other: the heap takes a page
      exactly if it has no room, and there is no memory exactly if it has none and no page is to be had, or the
      request's own pages are not. `kfree` gives back the pages of the grant itself. */
  ghost predicate Answered(l: Ledger, arena: int, r: Request, a: Answer) {
    match r
    case Get(size, slobPage, bigPages) =>
      var full := NoRoom(l, arena, BlockUnits(size));
      (match a
       case Granted(p, b, grew) =>
         && (if Large(size) then bigPages == Some(p) else p == b + 1)
         && (grew <==> slobPage.Some? && full) && (full ==> slobPage.Some?)
         && forall g :: g in l.grants ==> Extent(b, BlockUnits(size)) !! Extent(g.block, BlockUnits(g.size))
       case Refused(grew) =>
         && (grew <==> slobPage.Some? && full)
         && ((full && slobPage.None?) || (Large(size) && bigPages.None?))
       case _ => false)
    case Give(k) =>
      a == if k >= |l.grants| then Nothing
           else Released(if Large(l.grants[k].size) then Some(FindOrder(l.grants[k].size)) else None)
  }

  /** A request is granted whenever the page source has what it may need; a small one, or one with pages of its own,
      is refused only when nowhere between the blocks granted are enough units free in a row; and no unit of
      the block is one of another grant's. */
  lemma AnsweredMeans(l: Ledger, arena: int, size: nat, slobPage: Option<int>, bigPages: Option<int>, a: Answer,
                      b: int)
    requires Answered(l, arena, Get(size, slobPage, bigPages), a)
    ensures slobPage.Some? && (size >= 4080 ==> bigPages.Some?) ==> a.Granted?
    ensures (size >= 4080 ==> bigPages.Some?) && a.Refused? ==>
      exists x :: b <= x < b + BlockUnits(size) && (x in BlocksOf(l.grants) || (x !in l.pages && x != arena))
    ensures a.Granted? ==> if size >= 4080 then bigPages == Some(a.pointer) else a.pointer == a.block + 1
    ensures a.Granted? ==> forall x :: a.block <= x < a.block + BlockUnits(size) ==> x !in BlocksOf(l.grants)
  {
    hide FindOrder, Pow2;
    if a.Refused? && (size >= 4080 ==> bigPages.Some?) {
      assert !(Extent(b, BlockUnits(size)) <= FreeOf(l, arena));
      var x :| x in Extent(b, BlockUnits(size)) && x !in FreeOf(l, arena);
    }
    if a.Granted? {
      forall x | a.block <= x < a.block + BlockUnits(size) ensures x !in BlocksOf(l.grants) {
        assert x in Extent(a.block, BlockUnits(size));
      }
    }
  }

  /** The page source answers with pages that nobody has, away from the sentinel. */
  predicate Proper(l: Ledger, arena: int, size: nat, slobPage: Option<int>, bigPages: Option<int>) {
    && (slobPage.Some? ==>
          && Extent(slobPage.value, PAGE_UNITS) !! Owned(l)
          && arena !in Extent(slobPage.value - 1, PAGE_UNITS + 2))
    && (Large(size) && bigPages.Some? ==>
          var n := PAGE_UNITS * Pow2(FindOrder(size));
          && bigPages.value % PAGE_UNITS == 0
          && Extent(bigPages.value, n) !! Owned(l) && arena !in Extent(bigPages.value - 1, n + 2)
          && (slobPage.Some? ==> Extent(slobPage.value, PAGE_UNITS) !! Extent(bigPages.value, n)))
  }

  /** The pointer of a request for no bytes is also that of somebody's pages. */
  predicate Ambiguous(l: Ledger, k: nat) {
    && k < |l.grants| && l.grants[k].size == 0
    && exists j :: 0 <= j < |l.grants| && Large(l.grants[j].size) && l.grants[j].pointer == l.grants[k].pointer
  }

  /** Where a run ends: at the assertion of `slob_alloc`, at an answer that is not the page source's to
      give, or at the release of an ambiguous pointer. */
  predicate Stops(l: Ledger, arena: int, r: Request) {
    match r
    case Get(size, slobPage, bigPages) =>
      PAGE_SIZE - 2 * SLOB_UNIT <= size < PAGE_SIZE - SLOB_UNIT || !Proper(l, arena, size, slobPage, bigPages)
    case Give(k) => Ambiguous(l, k)
  }

  /** The units that the page source has given away: those of the heap's pages and of the pages of every
      grant of 4080 bytes or more. */
  lemma OwnedUnits(l: Ledger, x: int)
    ensures x in Owned(l) <==>
      || x in l.pages
      || exists g :: g in l.grants && g.size >= 4080 && g.pointer <= x < g.pointer + 256 * Pow2(FindOrder(g.size))
  {
    hide FindOrder, Pow2;
    if x in Owned(l) && x !in l.pages {
      var g :| g in l.grants && x in RunOf(g);
    }
    if g :| g in l.grants && g.size >= 4080 && g.pointer <= x < g.pointer + 256 * Pow2(FindOrder(g.size)) {
      assert x in RunOf(g);
    }
  }

  /** A run of `n` units from `p` on that nobody owns and that does not touch the sentinel. */
  ghost predicate Nobodys(l: Ledger, arena: int, p: int, n: nat) {
    && (forall x :: p <= x < p + n ==> x !in Owned(l))
    && !(p - 1 <= arena <= p + n)
  }

  /** Requests stop a run for the sizes from 4064 to 4079, and when a page is offered that somebody owns or that
      touches the sentinel, or pages that do, or that are not aligned, or overlap. */
  lemma StopsAt(l: Ledger, arena: int, size: nat, slobPage: Option<int>, bigPages: Option<int>)
    ensures Stops(l, arena, Get(size, slobPage, bigPages)) <==>
      || 4064 <= size < 4080
      || (slobPage.Some? && !Nobodys(l, arena, slobPage.value, 256))
      || (size >= 4080 && bigPages.Some? &&
            var n := 256 * Pow2(FindOrder(size));
            || bigPages.value % 256 != 0 || !Nobodys(l, arena, bigPages.value, n)
            || (slobPage.Some? && bigPages.value - 256 < slobPage.value < bigPages.value + n))
  {
    hide FindOrder, Pow2, Owned;
    var n := 256 * Pow2(FindOrder(size));
    if slobPage.Some? {
      RangeApart(slobPage.value, 256, Owned(l));
    }
    if size >= 4080 && bigPages.Some? {
      RangeApart(bigPages.value, n, Owned(l));
      if slobPage.Some? { RangesApart(slobPage.value, 256, bigPages.value, n); }
    }
  }

  lemma RangeApart(p: int, n: nat, s: set<int>)
    ensures Extent(p, n) !! s <==> forall x :: p <= x < p + n ==> x !in s
  {
    assert forall x :: p <= x < p + n <==> x in Extent(p, n);
  }

  lemma RangesApart(p: int, m: nat, q: int, n: nat)
    requires m > 0 && n > 0
    ensures Extent(p, m) !! Extent(q, n) <==> !(q - m < p < q + n)
  {
    if q - m < p < q + n {
      var x := if p < q then q else p;
      assert x in Extent(p, m) && x in Extent(q, n);
    }
  }

  /** Releases stop it when the pointer is of no bytes and also that of a grant of 4080 bytes or more. */
  lemma StopsRelease(l: Ledger, arena: int, k: nat)
    ensures Stops(l, arena, Give(k)) <==>
      && k < |l.grants| && l.grants[k].size == 0
      && exists g :: g in l.grants && g.size >= 4080 && g.pointer == l.grants[k].pointer
  {
    if Stops(l, arena, Give(k)) {
      var j :| 0 <= j < |l.grants| && Large(l.grants[j].size) && l.grants[j].pointer == l.grants[k].pointer;
      assert l.grants[j] in l.grants;
    }
  }

  // ---------- the ledger and the heap ----------

  /** The heap holds the block of the grant, and the record of its pages if it is large. */
  ghost predicate Backed(g: Grant, bigs: seq<int>, live: map<int, int>, units: map<int, int>, next: map<int, int>) {
    && g.block in live && live[g.block] == BlockUnits(g.size)
    && (g.block in bigs <==> Large(g.size))
    && if Large(g.size)
       then g.block in next && next[g.block] == g.pointer && g.block in units && units[g.block] == FindOrder(g.size)
       else g.pointer == g.block + 1
  }

  /** The grants are exactly the live blocks. */
  ghost predicate Outstanding(grants: seq<Grant>, bigs: seq<int>, live: map<int, int>, units: map<int, int>,
                              next: map<int, int>)
  {
    && (forall k :: 0 <= k < |grants| ==> Backed(grants[k], bigs, live, units, next))
    && (forall j, k :: 0 <= j < k < |grants| ==> grants[j].block != grants[k].block)
    && forall b :: b in live ==> HasGrant(grants, b)
  }

  ghost predicate HasGrant(grants: seq<Grant>, b: int) {
    exists k :: 0 <= k < |grants| && grants[k].block == b
  }

  lemma StillBacked(g: Grant, bigs: seq<int>, live: map<int, int>, units: map<int, int>, next: map<int, int>,
                    bigs': seq<int>, live': map<int, int>, units': map<int, int>, next': map<int, int>)
    requires Backed(g, bigs, live, units, next)
    requires g.block in live' && live'[g.block] == live[g.block] && (g.block in bigs' <==> g.block in bigs)
    requires g.block in units ==> g.block in units' && units'[g.block] == units[g.block]
    requires g.block in next ==> g.block in next' && next'[g.block] == next[g.block]
    ensures Backed(g, bigs', live', units', next')
  {
  }

  lemma AllStillBacked(grants: seq<Grant>, bigs: seq<int>, live: map<int, int>, units: map<int, int>,
                       next: map<int, int>, units': map<int, int>, next': map<int, int>)
    requires Outstanding(grants, bigs, live, units, next)
    requires Untouched(live.Keys, units, units') && Untouched(live.Keys, next, next')
    ensures Outstanding(grants, bigs, live, units', next')
  {
    forall k | 0 <= k < |grants| ensures Backed(grants[k], bigs, live, units', next') {
      StillBacked(grants[k], bigs, live, units, next, bigs, live, units', next');
    }
  }

  lemma GrantAdded(grants: seq<Grant>, bigs: seq<int>, live: map<int, int>, units: map<int, int>,
                   next: map<int, int>, g: Grant, bigs': seq<int>, units': map<int, int>, next': map<int, int>)
    requires Outstanding(grants, bigs, live, units, next) && g.block !in live
    requires Untouched(live.Keys, units, units') && Untouched(live.Keys, next, next')
    requires Backed(g, bigs', live[g.block := BlockUnits(g.size)], units', next')
    requires forall b :: b in live ==> (b in bigs' <==> b in bigs)
    ensures Outstanding(grants + [g], bigs', live[g.block := BlockUnits(g.size)], units', next')
  {
    hide Backed;
    var all, live' := grants + [g], live[g.block := BlockUnits(g.size)];
    forall k | 0 <= k < |grants|
      ensures grants[k].block in live && Backed(grants[k], bigs', live', units', next')
    {
      BackedLive(grants[k], bigs, live, units, next);
      StillBacked(grants[k], bigs, live, units, next, bigs', live', units', next');
    }
    forall b | b in live' ensures HasGrant(all, b) {
      if b == g.block {
        assert all[|grants|].block == b;
      } else {
        assert HasGrant(grants, b);
        var k :| 0 <= k < |grants| && grants[k].block == b;
        assert all[k].block == b;
      }
    }
  }

  lemma BackedLive(g: Grant, bigs: seq<int>, live: map<int, int>, units: map<int, int>, next: map<int, int>)
    requires Backed(g, bigs, live, units, next)
    ensures g.block in live && live[g.block] == BlockUnits(g.size)
  {
  }

  lemma GrantDropped(grants: seq<Grant>, bigs: seq<int>, live: map<int, int>, units: map<int, int>,
                     next: map<int, int>, k: nat, bigs': seq<int>, units': map<int, int>, next': map<int, int>)
    requires Outstanding(grants, bigs, live, units, next) && k < |grants|
    requires var rest := live - {grants[k].block};
      Untouched(rest.Keys, units, units') && Untouched(rest.Keys, next, next')
    requires forall b :: b in live && b != grants[k].block ==> (b in bigs' <==> b in bigs)
    ensures Outstanding(Without(grants, k), bigs', live - {grants[k].block}, units', next')
  {
    hide Backed;
    var rest, live' := Without(grants, k), live - {grants[k].block};
    forall i | 0 <= i < |rest| ensures rest[i].block in live' && Backed(rest[i], bigs', live', units', next') {
      var j := if i < k then i else i + 1;
      assert rest[i] == grants[j];
      BackedLive(grants[j], bigs, live, units, next);
      StillBacked(grants[j], bigs, live, units, next, bigs', live', units', next');
    }
    forall b | b in live' ensures HasGrant(rest, b) {
      assert HasGrant(grants, b);
      var j :| 0 <= j < |grants| && grants[j].block == b;
      assert rest[if j < k then j else j - 1].block == b;
    }
  }

  /** The allocator stands where the ledger says. */
  ghost predicate Shows(a: Allocator, l: Ledger)
    reads a, a.heap
  {
    && a.Valid() && l.pages == a.heap.pages
    && Outstanding(l.grants, a.bigblocks, a.heap.live, a.heap.units, a.heap.next)
  }

  lemma RunsOwned(l: Ledger, k: nat)
    requires k < |l.grants|
    ensures RunOf(l.grants[k]) <= Owned(l)
  {
    forall x | x in RunOf(l.grants[k]) ensures x in Owned(l) {
      assert l.grants[k] in l.grants;
    }
  }

  /** Pages that the page source still has are nobody's. */
  lemma NotOwned(a: Allocator, l: Ledger, p: int, n: nat)
    requires Shows(a, l) && Extent(p, n) !! Owned(l) && a.heap.arena !in Extent(p - 1, n + 2)
    ensures a.Fresh(p, n)
  {
    hide Heap.Valid, Extent, FindOrder, Pow2, Owned;
    assert l.pages <= Owned(l) by { PagesOwned(l); }
    forall bb | bb in a.bigblocks && bb in a.heap.units && bb in a.heap.next
      ensures Extent(p, n) !! BigExtent(bb, a.heap.units, a.heap.next)
    {
      a.LiveOfValid();
      assert HasGrant(l.grants, bb);
      var k :| 0 <= k < |l.grants| && l.grants[k].block == bb;
      assert Backed(l.grants[k], a.bigblocks, a.heap.live, a.heap.units, a.heap.next);
      RunsOwned(l, k);
    }
  }

  lemma PagesOwned(l: Ledger)
    ensures l.pages <= Owned(l)
  {
  }

  lemma Offers(a: Allocator, l: Ledger, size: nat, slobPage: Option<int>, bigPages: Option<int>)
    requires Shows(a, l) && Proper(l, a.heap.arena, size, slobPage, bigPages)
    ensures a.Offered(size, slobPage, bigPages)
  {
    hide Heap.Valid, Extent, FindOrder, Pow2, Owned, Shows, Unowned;
    if slobPage.Some? {
      NotOwned(a, l, slobPage.value, PAGE_UNITS);
    }
    if Large(size) && bigPages.Some? {
      NotOwned(a, l, bigPages.value, PAGE_UNITS * Pow2(FindOrder(size)));
    }
  }

  /** Live blocks do not overlap. */
  lemma Separate(h: Heap, x: int, y: int)
    requires h.Valid() && x in h.live && y in h.live && x != y
    ensures Extent(x, h.live[x]) !! Extent(y, h.live[y])
  {
    hide OnRing, UnitsOf;
  }

  lemma OverlapsNone(h: Heap, l: Ledger, g: Grant, bigs: seq<int>)
    requires h.Valid() && Outstanding(l.grants + [g], bigs, h.live, h.units, h.next)
    ensures forall o :: o in l.grants ==> Extent(g.block, BlockUnits(g.size)) !! Extent(o.block, BlockUnits(o.size))
  {
    hide Heap.Valid, Extent;
    var all, n := l.grants + [g], |l.grants|;
    assert all[n] == g && Backed(all[n], bigs, h.live, h.units, h.next);
    forall o | o in l.grants ensures Extent(g.block, BlockUnits(g.size)) !! Extent(o.block, BlockUnits(o.size)) {
      var k :| 0 <= k < n && l.grants[k] == o;
      assert all[k] == o && Backed(all[k], bigs, h.live, h.units, h.next);
      Separate(h, g.block, o.block);
    }
  }

  lemma UnitsGranted(grants: seq<Grant>, bigs: seq<int>, live: map<int, int>, units: map<int, int>, next: map<int, int>)
    requires Outstanding(grants, bigs, live, units, next)
    ensures UnitsOf(live.Keys, live) == BlocksOf(grants)
  {
    hide Extent, Pow2, FindOrder, BlockUnits;
    forall x ensures x in UnitsOf(live.Keys, live) <==> x in BlocksOf(grants) {
      if x in UnitsOf(live.Keys, live) {
        var b :| b in live && x in Extent(b, live[b]);
        assert HasGrant(grants, b);
        var k :| 0 <= k < |grants| && grants[k].block == b;
        assert grants[k] in grants && Backed(grants[k], bigs, live, units, next);
      }
      if x in BlocksOf(grants) {
        var g :| g in grants && x in Extent(g.block, BlockUnits(g.size));
        var k :| 0 <= k < |grants| && grants[k] == g;
        assert Backed(grants[k], bigs, live, units, next);
        assert x in Extent(g.block, live[g.block]);
      }
    }
  }

  lemma Complement(a: set<int>, b: set<int>, all: set<int>)
    requires a !! b && a + b == all
    ensures a == all - b
  {
  }

  lemma FreeUnitsHere(a: Allocator, l: Ledger)
    requires Shows(a, l)
    ensures a.heap.free <= a.heap.units.Keys && Apart(a.heap.free, a.heap.units)
    ensures FreeOf(l, a.heap.arena) == UnitsOf(a.heap.free, a.heap.units)
  {
    hide Records, Headers, Extent, UnitsOf, Circular, Outstanding, BlocksOf;
    UnitsGranted(l.grants, a.bigblocks, a.heap.live, a.heap.units, a.heap.next);
    Complement(a.heap.FreeUnits(), BlocksOf(l.grants), a.heap.pages + {a.heap.arena});
  }

  /** A coalesced list has room for a request exactly if there are as many free units in a row. */
  lemma FullHere(a: Allocator, l: Ledger, n: int)
    requires Shows(a, l) && n >= 1
    ensures NoneFits(a.heap.free, a.heap.units, n) <==> NoRoom(l, a.heap.arena, n)
  {
    hide Shows, FreeOf, Extent;
    FreeUnitsHere(a, l);
    var f, u := a.heap.free, a.heap.units;
    if NoneFits(f, u, n) {
      forall b ensures !(Extent(b, n) <= UnitsOf(f, u)) {
        if Extent(b, n) <= UnitsOf(f, u) {
          var c := OneBlock(f, u, b, n);
        }
      }
    } else {
      var b :| b in f && u[b] >= n;
      assert Extent(b, n) <= UnitsOf(f, u) by { UnitsRemove(f, u, b); }
    }
  }

  method Acquire(a: Allocator, size: nat, slobPage: Option<int>, bigPages: Option<int>, ghost l: Ledger)
    returns (answer: Answer)
    requires Shows(a, l) && !Stops(l, a.heap.arena, Get(size, slobPage, bigPages))
    requires !(size == 0 && a.heap.SentinelNext(1))
    modifies a, a.heap
    ensures Shows(a, After(l, Get(size, slobPage, bigPages), answer))
    ensures Answered(l, a.heap.arena, Get(size, slobPage, bigPages), answer)
  {
    hide Heap.Valid, Heap.FreeUnits, Heap.SentinelNext, Records, Headers, Extent, FindOrder, Pow2, Owned, Proper,
         Outstanding, Backed;
    Offers(a, l, size, slobPage, bigPages);
    FullHere(a, l, BlockUnits(size));
    a.LiveOfValid();
    ghost var bigs, live, units, next := a.bigblocks, a.heap.live, a.heap.units, a.heap.next;
    var r, grew := a.Kmalloc(size, slobPage, bigPages);
    if r.Null? {
      AllStillBacked(l.grants, bigs, live, units, next, a.heap.units, a.heap.next);
      return Refused(grew);
    }
    var b := if Large(size) then a.bigblocks[0] else r.p - 1;
    ghost var g := Grant(r.p, size, b);
    assert Backed(g, a.bigblocks, a.heap.live, a.heap.units, a.heap.next) by { Recorded(a, g); }
    GrantAdded(l.grants, bigs, live, units, next, g, a.bigblocks, a.heap.units, a.heap.next);
    OverlapsNone(a.heap, l, g, a.bigblocks);
    return Granted(r.p, b, grew);
  }

  lemma Recorded(a: Allocator, g: Grant)
    requires g.block in a.heap.live && a.heap.live[g.block] == BlockUnits(g.size)
    requires g.block in a.bigblocks <==> Large(g.size)
    requires if Large(g.size)
             then g.block in a.heap.next && a.heap.next[g.block] == g.pointer
                  && g.block in a.heap.units && a.heap.units[g.block] == FindOrder(g.size)
             else g.pointer == g.block + 1
    ensures Backed(g, a.bigblocks, a.heap.live, a.heap.units, a.heap.next)
  {
  }

  /** A pointer is that of pages only if a large grant has it. */
  lemma PagesGranted(a: Allocator, l: Ledger, p: int)
    requires Shows(a, l) && a.IsBig(p)
    ensures exists j :: 0 <= j < |l.grants| && Large(l.grants[j].size) && l.grants[j].pointer == p
  {
    hide Heap.Valid, Headers, Extent, FindOrder, Pow2;
    var bb :| bb in a.bigblocks && bb in a.heap.next && a.heap.next[bb] == p;
    a.LiveOfValid();
    assert HasGrant(l.grants, bb);
    var j :| 0 <= j < |l.grants| && l.grants[j].block == bb;
    assert Backed(l.grants[j], a.bigblocks, a.heap.live, a.heap.units, a.heap.next);
  }

  lemma SmallGrant(a: Allocator, l: Ledger, k: nat)
    requires Shows(a, l) && k < |l.grants| && !Large(l.grants[k].size) && !Ambiguous(l, k)
    ensures var p := l.grants[k].pointer; a.IsSmall(p) && !a.IsBig(p) && p == l.grants[k].block + 1
  {
    hide Heap.Valid, Extent, FindOrder, Pow2;
    var g := l.grants[k];
    assert Backed(g, a.bigblocks, a.heap.live, a.heap.units, a.heap.next);
    if g.size > 0 {
      a.SmallIsNotBig(g.pointer);
    } else if a.IsBig(g.pointer) {
      PagesGranted(a, l, g.pointer);
    }
  }

  /** The record of a large grant is the only one of its pages. */
  lemma LargeGrant(a: Allocator, l: Ledger, k: nat)
    requires Shows(a, l) && k < |l.grants| && Large(l.grants[k].size)
    ensures var g := l.grants[k]; var h := a.heap;
      && a.IsBig(g.pointer) && g.block in h.units && h.units[g.block] == FindOrder(g.size)
      && forall b :: b in a.bigblocks && b in h.next && h.next[b] == g.pointer ==> b == g.block
  {
    hide Heap.Valid, Records, Headers, Extent, FindOrder, Pow2;
    var g, h, bigs := l.grants[k], a.heap, a.bigblocks;
    assert Backed(g, bigs, h.live, h.units, h.next);
    forall b | b in bigs && b in h.next && h.next[b] == g.pointer ensures b == g.block {
      var i :| 0 <= i < |bigs| && bigs[i] == b;
      var j :| 0 <= j < |bigs| && bigs[j] == g.block;
      a.OneRecord(g.pointer, i, j);
    }
  }

  lemma OthersLinked(bigs: seq<int>, bigs': seq<int>, i: nat, b: int)
    requires i < |bigs| && bigs' == bigs[..i] + bigs[i + 1..] && b != bigs[i]
    ensures b in bigs' <==> b in bigs
  {
    assert bigs == bigs[..i] + [bigs[i]] + bigs[i + 1..];
  }

  lemma UnitsPair(units: map<int, int>, a: int, b: int)
    requires a in units && b in units && a != b
    ensures UnitsOf({a, b}, units) == Extent(a, units[a]) + Extent(b, units[b])
  {
    forall x | x in Extent(a, units[a]) + Extent(b, units[b]) ensures x in UnitsOf({a, b}, units) {
      if x in Extent(a, units[a]) {
        assert a in {a, b};
      } else {
        assert b in {a, b};
      }
    }
  }

  // A pointer to no bytes can indeed be that of pages: unit 511, the last of the heap's page, serves a
  // request for none, and the next page belongs to the record at unit 256.

  ghost const LIVE: map<int, int> := map[256 := 2, 511 := 1]
  ghost const UNITS: map<int, int> := map[0 := 1, 258 := 253, 256 := 0, 511 := 1]
  ghost const NEXT: map<int, int> := map[0 := 258, 258 := 0, 256 := 512, 511 := 0]
  ghost const GRANTS: seq<Grant> := [Grant(512, 0, 511), Grant(512, 4096, 256)]

  lemma NoBytesRing()
    ensures OnRing({0, 258}, UNITS, NEXT, 0, 0)
  {
    hide Circular;
    var f := {0, 258};
    assert Follows(f, 0, 258) && Follows(f, 258, 0);
    AllFollow(f, NEXT);
  }

  lemma NoBytesHeap()
    ensures Partition(UnitsOf({0, 258}, UNITS), LIVE, Extent(256, PAGE_UNITS), 0)
  {
    hide UnitsOf, Extent;
    UnitsPair(UNITS, 0, 258);
    assert LIVE.Keys == {256, 511};
    UnitsPair(LIVE, 256, 511);
  }

  lemma NoBytesRecords()
    ensures Records([256], LIVE, UNITS, NEXT, Extent(256, PAGE_UNITS)) && Headers([256], LIVE, UNITS)
  {
    hide Extent;
    assert Pow2(0) == 1;
  }

  /** This is a state of the allocator in which the pointer cannot be told apart. */
  lemma NoBytesAmbiguous()
    ensures OnRing({0, 258}, UNITS, NEXT, 0, 0)
    ensures Partition(UnitsOf({0, 258}, UNITS), LIVE, Extent(256, PAGE_UNITS), 0)
    ensures Records([256], LIVE, UNITS, NEXT, Extent(256, PAGE_UNITS)) && Headers([256], LIVE, UNITS)
    ensures Outstanding(GRANTS, [256], LIVE, UNITS, NEXT) && Ambiguous(Ledger(GRANTS, Extent(256, PAGE_UNITS)), 0)
  {
    hide OnRing, Partition, Records, Headers, Extent, UnitsOf;
    NoBytesRing();
    NoBytesHeap();
    NoBytesRecords();
    assert GRANTS[0].block == 511 && GRANTS[1].block == 256;
    assert HasGrant(GRANTS, 511) && HasGrant(GRANTS, 256);
    assert FindOrder(4096) == 0;
  }

  method Surrender(a: Allocator, grants: seq<Grant>, k: nat, ghost l: Ledger) returns (answer: Answer)
    requires Shows(a, l) && grants == l.grants && k < |grants| && !Ambiguous(l, k)
    modifies a, a.heap
    ensures Shows(a, After(l, Give(k), answer)) && Answered(l, a.heap.arena, Give(k), answer)
  {
    hide Heap.Valid, Heap.FreeUnits, Records, Headers, Extent, FindOrder, Pow2, Outstanding, Ambiguous, Gap;
    ghost var g, bigs, live, units, next := grants[k], a.bigblocks, a.heap.live, a.heap.units, a.heap.next;
    if Large(g.size) { LargeGrant(a, l, k); } else { SmallGrant(a, l, k); }
    var back := a.Kfree(Some(grants[k].pointer));
    if Large(g.size) {
      ghost var i: nat :| Unlinked(bigs, a.bigblocks, i, g.pointer, units, next, back) && a.heap.live == live - {bigs[i]};
      assert bigs[i] in bigs;
      forall b | b in live && b != g.block ensures b in a.bigblocks <==> b in bigs {
        OthersLinked(bigs, a.bigblocks, i, b);
      }
    }
    GrantDropped(l.grants, bigs, live, units, next, k, a.bigblocks, a.heap.units, a.heap.next);
    return Released(back);
  }

  method Handle(a: Allocator, r: Request, l: Ledger) returns (answer: Answer)
    requires Shows(a, l) && !Stops(l, a.heap.arena, r)
    requires !(r.Get? && r.size == 0 && a.heap.SentinelNext(1))
    modifies a, a.heap
    ensures Shows(a, After(l, r, answer)) && Answered(l, a.heap.arena, r, answer)
  {
    hide Shows, Ambiguous, Proper, Heap.SentinelNext;
    match r
    case Get(size, slobPage, bigPages) => answer := Acquire(a, size, slobPage, bigPages, l);
    case Give(k) =>
      answer := Nothing;
      if k < |l.grants| {
        answer := Surrender(a, l.grants, k, l);
      }
  }

  // How the allocator comes into such a state.

  /** A block of a coalesced list begins where a run of free units does. */
  lemma AtStart(f: set<int>, units: map<int, int>, b: int)
    requires Apart(f, units) && b in f
    ensures b in UnitsOf(f, units) && b - 1 !in UnitsOf(f, units)
  {
    UnitsRemove(f, units, b);
    assert b in Extent(b, units[b]);
    forall c | c in f ensures b - 1 !in Extent(c, units[c]) {
      if c < b { assert c + units[c] < b; }
    }
  }

  /** The free units of the heap. */
  lemma FreeNow(h: Heap)
    requires h.Valid()
    ensures h.free <= h.units.Keys && Apart(h.free, h.units) && h.FreeUnits() == UnitsOf(h.free, h.units)
    ensures h.arena in h.free && h.units[h.arena] == 1 && h.slobfree in h.free
    ensures UnitsOf(h.free, h.units) == h.pages + {h.arena} - UnitsOf(h.live.Keys, h.live)
  {
    hide UnitsOf, Extent, Circular;
    Complement(h.FreeUnits(), UnitsOf(h.live.Keys, h.live), h.pages + {h.arena});
  }

  lemma GrownAt256(free: set<int>, left: set<int>, b: int)
    requires FitsOnceGrown(free, left, 0, 256, b, 2) && left == {0} + Extent(256, PAGE_UNITS)
    ensures b == 256
  {
    hide UnitsOf, Extent, Gap, Arc, Apart, Circular;
    var f, u, next, start :|
      && OnRing(f, u, next, start, 0) && f <= u.Keys && UnitsOf(f, u) == left && Gap(free, start, 256)
      && FirstFit(f, u, start, b, 2);
    RingIsApart(f, u, next, start, 0);
    Heap.ArenaWhole(f, u, next, start, 0);
    AtStart(f, u, b);
  }

  /** Block 256 records one page at 512. */
  ghost predicate Record256(h: Heap)
    reads h
  {
    256 in h.next && h.next[256] == 512 && 256 in h.units && h.units[256] == 0
  }

  method FirstCall(a: Allocator)
    requires a.Valid() && a.bigblocks == [] && a.heap.arena == 0 && a.heap.free == {0}
    requires a.heap.live == map[] && a.heap.pages == {}
    modifies a, a.heap
    ensures a.Valid() && a.bigblocks == [256] && a.heap.live == map[256 := 2]
    ensures a.heap.pages == Extent(256, PAGE_UNITS) && Record256(a.heap)
  {
    hide Heap.Valid, Heap.FreeUnits, UnitsOf, FitsOnceGrown, FirstFit, Gap, Records, Headers, Extent, FindOrder, Pow2;
    FreeNow(a.heap);
    assert NoneFits(a.heap.free, a.heap.units, 2);
    assert UnitsOf(a.heap.live.Keys, a.heap.live) == {} by { NoUnits(a.heap.live); }
    PageAndPages();
    var r, grew := a.Kmalloc(4096, Some(256), Some(512));
    GrownAt256({0}, {0} + Extent(256, PAGE_UNITS), a.bigblocks[0]);
  }

  /** Handing out 4032 bytes leaves one unit at the end of the page. */
  method SecondCall(a: Allocator)
    requires a.Valid() && a.bigblocks == [256] && a.heap.arena == 0 && a.heap.live == map[256 := 2]
    requires a.heap.pages == Extent(256, PAGE_UNITS) && Record256(a.heap)
    modifies a, a.heap
    ensures a.Valid() && a.bigblocks == [256] && a.heap.live == map[256 := 2, 258 := 253]
    ensures a.heap.pages == Extent(256, PAGE_UNITS) && Record256(a.heap)
    ensures a.heap.slobfree == 0
  {
    hide Heap.Valid, Heap.FreeUnits, UnitsOf, FitsOnceGrown, FirstFit, NoneFits, Gap, Records, Headers, Extent, Apart;
    ghost var f, u := a.heap.free, a.heap.units;
    FreeNow(a.heap);
    OneUnits(a.heap.live, 256);
    Room(f, u, 258, 253);
    var r, grew := a.Kmalloc(4032, None, None);
    ghost var b := r.p - 1;
    FirstFitThere(f, u, old(a.heap.slobfree), b, 253);
    AtStart(f, u, b);
    FreeNow(a.heap);
    TwoUnits(a.heap.live);
    OneLeft();
    GapAtZero(a.heap.free, a.heap.units, a.heap.slobfree);
  }

  lemma OneLeft()
    ensures Extent(256, PAGE_UNITS) + {0} - (Extent(256, 2) + Extent(258, 253)) == {0, 511}
  {
  }

  /** A request for no bytes gets the last unit, and the pointer of the next page, which is not the heap's. */
  method ThirdCall(a: Allocator) returns (p: int)
    requires a.Valid() && a.bigblocks == [256] && a.heap.arena == 0 && a.heap.live == map[256 := 2, 258 := 253]
    requires a.heap.pages == Extent(256, PAGE_UNITS) && Record256(a.heap)
    requires a.heap.slobfree == 0
    modifies a, a.heap
    ensures a.Valid() && a.bigblocks == [256] && Record256(a.heap) && p == 512 && a.IsSmall(p) && a.IsBig(p)
  {
    hide Heap.Valid, Heap.FreeUnits, UnitsOf, FitsOnceGrown, FirstFit, NoneFits, Gap, Records, Headers, Extent, Apart;
    ghost var f, u := a.heap.free, a.heap.units;
    FreeNow(a.heap);
    TwoUnits(a.heap.live);
    OneLeft();
    NotSentinel(a.heap);
    Room(f, u, 511, 1);
    var r, grew := a.Kmalloc(0, None, None);
    p := r.p;
    NextAfterZero(f, u, p - 1);
    assert 256 in a.bigblocks;
  }

  /** The block after the sentinel is not the sentinel. */
  lemma NotSentinel(h: Heap)
    requires h.Valid() && h.arena == 0 && h.slobfree == 0 && UnitsOf(h.free, h.units) == {0, 511}
    ensures !h.SentinelNext(1)
  {
    hide UnitsOf, Extent, Partition;
    FollowsHere(h.free, h.units, h.next, 0, 0, 0);
    LastBlock(h.free, h.units);
  }

  lemma LastBlock(f: set<int>, units: map<int, int>)
    requires Apart(f, units) && 0 in f && units[0] == 1 && UnitsOf(f, units) == {0, 511}
    ensures 511 in f
  {
    InBlock(f, units, 511);
    var c :| c in f && 511 in Extent(c, units[c]);
    AtStart(f, units, c);
  }

  lemma InBlock(f: set<int>, units: map<int, int>, x: int)
    requires f <= units.Keys && x in UnitsOf(f, units)
    ensures exists c :: c in f && x in Extent(c, units[c])
  {
  }

  lemma NextAfterZero(f: set<int>, units: map<int, int>, b: int)
    requires Apart(f, units) && 0 in f && units[0] == 1 && UnitsOf(f, units) == {0, 511}
    requires FirstFit(f, units, 0, b, 1)
    ensures b == 511
  {
    hide UnitsOf, Extent;
    LastBlock(f, units);
    AtStart(f, units, b);
  }

  /** Three calls on a new allocator: then the pointer of the last, which asked for no bytes, is also that of
      the pages of the first. */
  method NoBytesReached() returns (a: Allocator, p: int)
    ensures fresh(a) && fresh(a.heap) && a.Valid() && a.bigblocks == [256] && Record256(a.heap)
    ensures p == 512 && a.IsSmall(p) && a.IsBig(p)
  {
    hide Allocator.Valid;
    a := new Allocator(0);
    FirstCall(a);
    SecondCall(a);
    p := ThirdCall(a);
  }

  /** `kfree` of it takes back those pages; the block stays. */
  method AnotherFreed() returns (a: Allocator, p: int, back: Option<int>)
    ensures fresh(a) && a.Valid() && back == Some(0) && a.bigblocks == [] && p - 1 in a.heap.live
  {
    hide Heap.Valid, Heap.FreeUnits, Records, Headers, Extent, UnitsOf, Gap;
    a, p := NoBytesReached();
    ghost var live := a.heap.live;
    back := a.Kfree(Some(p));
    assert a.heap.live == live - {256};
  }

  lemma TwoUnits(live: map<int, int>)
    requires live == map[256 := 2, 258 := 253]
    ensures UnitsOf(live.Keys, live) == Extent(256, 2) + Extent(258, 253)
  {
    hide UnitsOf, Extent;
    assert live.Keys == {256, 258};
    UnitsPair(live, 256, 258);
  }

  lemma OneUnits(live: map<int, int>, b: int)
    requires live.Keys == {b}
    ensures UnitsOf(live.Keys, live) == Extent(b, live[b])
  {
  }

  lemma Room(f: set<int>, units: map<int, int>, b: int, n: int)
    requires Apart(f, units) && n >= 1 && Extent(b, n) <= UnitsOf(f, units)
    ensures !NoneFits(f, units, n)
  {
    var c := OneBlock(f, units, b, n);
  }

  lemma FirstFitThere(f: set<int>, units: map<int, int>, start: int, b: int, n: int)
    requires FirstFit(f, units, start, b, n)
    ensures b in f && b in units && units[b] >= n
  {
  }

  lemma GapAtZero(f: set<int>, units: map<int, int>, g: int)
    requires Apart(f, units) && g in f && 0 in f && Gap(f, g, 258)
    requires UnitsOf(f, units) == {0, 511}
    ensures g == 0
  {
    AtStart(f, units, g);
  }

  lemma NoUnits(live: map<int, int>)
    requires live == map[]
    ensures UnitsOf(live.Keys, live) == {}
  {
  }

  lemma PageAndPages()
    ensures FindOrder(4096) == 0 && Pow2(0) == 1
  {
  }

  /** Every answer is one the ledger of its time allows. */
  ghost predicate AllAnswered(l: Ledger, arena: int, requests: seq<Request>, answers: seq<Answer>) {
    |answers| <= |requests| &&
    forall i :: 0 <= i < |answers| ==> Answered(Replay(l, requests[..i], answers[..i]), arena, requests[i], answers[i])
  }

  lemma Unanswered(l: Ledger, arena: int, requests: seq<Request>)
    ensures AllAnswered(l, arena, requests, []) && Replay(l, requests[..0], []) == l
  {
  }

  lemma OneMoreAnswer(l: Ledger, arena: int, requests: seq<Request>, answers: seq<Answer>, a: Answer)
    requires |answers| < |requests| && AllAnswered(l, arena, requests, answers)
    requires Answered(Replay(l, requests[..|answers|], answers), arena, requests[|answers|], a)
    ensures AllAnswered(l, arena, requests, answers + [a])
    ensures Replay(l, requests[..|answers| + 1], answers + [a])
         == After(Replay(l, requests[..|answers|], answers), requests[|answers|], a)
  {
    hide Answered, After;
    var n, all := |answers|, answers + [a];
    assert requests[..n + 1][..n] == requests[..n] && all[..n] == answers;
    forall i | 0 <= i < |all| ensures Answered(Replay(l, requests[..i], all[..i]), arena, requests[i], all[i]) {
      if i < n {
        assert all[..i] == answers[..i];
      }
    }
  }

  lemma NothingOutstanding(a: Allocator)
    requires a.Valid() && a.bigblocks == [] && a.heap.live == map[] && a.heap.pages == {}
    ensures Shows(a, Ledger([], {}))
  {
  }

  lemma Partitioned(a: Allocator, l: Ledger)
    requires Shows(a, l)
    ensures a.heap.FreeUnits() !! UnitsOf(a.heap.live.Keys, a.heap.live)
    ensures a.heap.FreeUnits() + UnitsOf(a.heap.live.Keys, a.heap.live) == l.pages + {a.heap.arena}
  {
  }

  /** Any interleaving of `kmalloc` and `kfree`: at every point the outstanding pointers are exactly the
      live blocks and records, each with its size, no block overlaps another, and `kfree` gives back the
      pointer's own block or its own pages and order; free and live units partition the heap's pages. A
      run goes on until an assertion fails, the page source answers with what it has given away, or a
      pointer to no bytes is the sentinel's or also that of pages. */
  method Run(a: Allocator, requests: seq<Request>) returns (answers: seq<Answer>, grants: seq<Grant>)
    requires a.Valid() && a.bigblocks == [] && a.heap.live == map[] && a.heap.pages == {}
    modifies a, a.heap
    ensures AllAnswered(Ledger([], {}), a.heap.arena, requests, answers)
    ensures var l := Replay(Ledger([], {}), requests[..|answers|], answers);
      && grants == l.grants && Shows(a, l)
      && a.heap.FreeUnits() !! UnitsOf(a.heap.live.Keys, a.heap.live)
      && a.heap.FreeUnits() + UnitsOf(a.heap.live.Keys, a.heap.live) == l.pages + {a.heap.arena}
      && (|answers| < |requests| ==>
            var r := requests[|answers|];
            Stops(l, a.heap.arena, r) || (r.Get? && r.size == 0 && a.heap.SentinelNext(1)))
  {
    hide Shows, Answered, Stops, After, Heap.SentinelNext, Replay, AllAnswered, UnitsOf, Heap.FreeUnits, Allocator.Valid;
    answers, grants := [], [];
    var start := Ledger([], {});
    var l := start;
    NothingOutstanding(a);
    Unanswered(start, a.heap.arena, requests);
    while |answers| < |requests|
      invariant |answers| <= |requests| && l == Replay(start, requests[..|answers|], answers)
      invariant Shows(a, l) && AllAnswered(start, a.heap.arena, requests, answers)
      decreases |requests| - |answers|
    {
      var r := requests[|answers|];
      if Stops(l, a.heap.arena, r) || (r.Get? && r.size == 0 && a.heap.SentinelNext(1)) {
        break;
      }
      var answer := Handle(a, r, l);
      OneMoreAnswer(start, a.heap.arena, requests, answers, answer);
      answers := answers + [answer];
      l := After(l, r, answer);
    }
    grants := l.grants;
    Partitioned(a, l);
  }
}
