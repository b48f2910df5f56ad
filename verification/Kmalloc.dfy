/** `kmalloc` and `kfree` (Lab5/kern/mm/kmalloc.c) on top of the SLOB allocator: small requests come
    from the free list behind a one-unit header, large ones get whole pages, remembered in
    `bigblock` records that are themselves SLOB blocks. Pointers count allocation units. */
module Kmalloc {
  import opened FreeRing
  import opened Options
  import opened Slob
  import opened Words

  /** sizeof(bigblock_t) */
  const BIGBLOCK_SIZE: nat := 24

  function Pow2(n: int): (r: nat)
    ensures r >= 1
    decreases n
  {
    if n <= 0 then 1 else 2 * Pow2(n - 1)
  }

  /** The loop of `find_order`, on its `int`. */
  function Halvings(size: nat): nat {
    if size > 4096 then Halvings(size / 2) + 1 else 0
  }

  /** `find_order`: its parameter is the low word of the size as a signed number, and below zero the loop
      is not entered. */
  function FindOrder(size: nat): nat {
    var w := Wrap(size);
    if w < 0x8000_0000 then Halvings(w) else 0
  }

  /** Halving, with the remainders dropped, until at most 4096 is left. */
  lemma {:induction false} OrderBound(size: nat)
    ensures size < 4097 * Pow2(Halvings(size))
  {
    if size > 4096 {
      OrderBound(size / 2);
    }
  }

  lemma {:induction false} OrderIsLeast(size: nat, j: nat)
    requires j < Halvings(size)
    ensures size >= 4097 * Pow2(j)
  {
    if j > 0 {
      OrderIsLeast(size / 2, j - 1);
    }
  }

  lemma {:induction false} Pow2Doubles(k: nat, o: nat)
    requires k < o
    ensures 2 * Pow2(k) <= Pow2(o)
  {
    if k + 1 < o {
      Pow2Doubles(k, o - 1);
    }
  }

  /** `find_order` gives the least order with which the pages, and less than one byte for each of them, hold a
      size below 2^31; only the low word of a size matters, and none of the upper half of the words is halved. */
  lemma OrderExact(size: nat)
    ensures FindOrder(size) == FindOrder(size % 0x1_0000_0000)
    ensures size % 0x1_0000_0000 >= 0x8000_0000 ==> FindOrder(size) == 0
    ensures size < 0x8000_0000 ==> size < 4097 * Pow2(FindOrder(size))
    ensures size < 0x8000_0000 ==> forall j: nat :: j < FindOrder(size) ==> size >= 4097 * Pow2(j)
  {
    if size < 0x8000_0000 {
      assert Wrap(size) == size;
      OrderBound(size);
      forall j: nat | j < FindOrder(size) ensures size >= 4097 * Pow2(j) {
        OrderIsLeast(size, j);
      }
    }
  }

  /** The size is just above a power of two times the page size: by less than that power of two. */
  ghost predicate JustAbove(size: nat, k: nat) {
    4096 * Pow2(k) < size < 4097 * Pow2(k)
  }

  lemma HalvingsSuffice(size: nat)
    ensures size <= 4096 * Pow2(Halvings(size)) <==> !exists k: nat :: k >= 1 && JustAbove(size, k)
  {
    if size > 4096 {
      var o := Halvings(size);
      OrderBound(size);
      forall k: nat | k >= 1 && JustAbove(size, k) ensures k == o {
        if k < o { OrderIsLeast(size, k); }
        if o < k { Pow2Doubles(o, k); }
      }
      if size > 4096 * Pow2(o) {
        assert JustAbove(size, o);
      }
    } else {
      assert Pow2(0) == 1;
    }
  }

  /** The pages asked for are less than twice the size. */
  lemma HalvingsModest(size: nat)
    ensures size <= 4096 || 4096 * Pow2(Halvings(size)) < 2 * size
  {
    if size > 4096 {
      OrderIsLeast(size, Halvings(size) - 1);
    }
  }

  /** The pages that `find_order` asks for hold the request unless its size is just above a power of two
      times the page size, or does not fit a signed word. */
  lemma OrderSuffices(size: nat)
    ensures size <= 4096 * Pow2(FindOrder(size)) <==>
      size < 0x8000_0000 && !exists k: nat :: k >= 1 && JustAbove(size, k)
  {
    if size < 0x8000_0000 {
      HalvingsSuffice(size);
    } else {
      assert Pow2(0) == 1;
      HalvingsModest(Wrap(size));
    }
  }

  /** 8193 bytes get two pages, and 2^31 bytes get one. */
  lemma OrderTooSmall()
    ensures FindOrder(8193) == 1 && 4096 * Pow2(FindOrder(8193)) < 8193
    ensures FindOrder(0x8000_0000) == 0 && 4096 * Pow2(FindOrder(0x8000_0000)) < 0x8000_0000
  {
    assert Halvings(4096) == 0 && Pow2(1) == 2 * Pow2(0);
  }

  /** Whether a request gets pages of its own. */
  predicate Large(size: nat) { size >= PAGE_SIZE - SLOB_UNIT }

  /** The units asked of `slob_alloc`: header and payload, or the record. */
  function BlockUnits(size: nat): nat {
    UnitsFor(if Large(size) then BIGBLOCK_SIZE else size + SLOB_UNIT)
  }

  /** A block holds header and payload with less than a unit to spare, a record takes two units. */
  lemma BlockTight(size: nat)
    ensures size >= 4080 ==> BlockUnits(size) == 2
    ensures size < 4080 ==> size + 16 <= 16 * BlockUnits(size) < size + 32
  {
    UnitsTight(size + 16);
  }

  datatype Outcome = Pointer(p: int) | Null | Panic

  /** `bb` is the address of a live two-unit block whose first words hold an order and a page address
      (over the place where a small block keeps its size and a free one its link). */
  ghost predicate IsRecord(bb: int, live: map<int, int>, units: map<int, int>, next: map<int, int>) {
    bb in live && live[bb] == 2 && bb in units && bb in next && next[bb] % PAGE_UNITS == 0
  }

  /** The units of the pages that a record stands for. */
  ghost function BigExtent(bb: int, units: map<int, int>, next: map<int, int>): set<int>
    requires bb in units && bb in next
  {
    Extent(next[bb], PAGE_UNITS * Pow2(units[bb]))
  }

  /** The records of `bigs` stand for disjoint runs of pages, none of them among the heap's own. */
  ghost predicate Records(bigs: seq<int>, live: map<int, int>, units: map<int, int>, next: map<int, int>, pages: set<int>)
  {
    && (forall i, j :: 0 <= i < j < |bigs| ==> bigs[i] != bigs[j])
    && (forall bb :: bb in bigs ==> IsRecord(bb, live, units, next) && BigExtent(bb, units, next) !! pages)
    && (forall a, b :: a in bigs && b in bigs && a != b ==> BigExtent(a, units, next) !! BigExtent(b, units, next))
  }

  /** The header of every small block holds its size. */
  ghost predicate Headers(bigs: seq<int>, live: map<int, int>, units: map<int, int>) {
    forall b :: b in live && b !in bigs ==> b in units && units[b] == live[b]
  }

  /** An answer of the page source: `n` units nobody owns, away from the sentinel. */
  ghost predicate Unowned(p: int, n: nat, bigs: seq<int>, units: map<int, int>, next: map<int, int>,
                          pages: set<int>, arena: int)
  {
    && Extent(p, n) !! pages && arena !in Extent(p - 1, n + 2)
    && forall bb :: bb in bigs && bb in units && bb in next ==> Extent(p, n) !! BigExtent(bb, units, next)
  }

  lemma RecordsKept(bigs: seq<int>, live: map<int, int>, live': map<int, int>, units: map<int, int>,
                    units': map<int, int>, next: map<int, int>, next': map<int, int>, pages: set<int>, added: set<int>)
    requires Records(bigs, live, units, next, pages) && Headers(bigs, live, units)
    requires (forall b :: b in live ==> b in live' && live'[b] == live[b])
    requires Untouched(live.Keys, units, units') && Untouched(live.Keys, next, next')
    requires forall bb :: bb in bigs && bb in units && bb in next ==> added !! BigExtent(bb, units, next)
    requires forall b :: b in live' && b !in live ==> b in units' && units'[b] == live'[b]
    ensures Records(bigs, live', units', next', pages + added) && Headers(bigs, live', units')
    ensures forall bb :: bb in bigs ==> BigExtent(bb, units', next') == BigExtent(bb, units, next)
  {
    forall bb | bb in bigs
      ensures IsRecord(bb, live', units', next') && units'[bb] == units[bb] && next'[bb] == next[bb]
    {
      assert IsRecord(bb, live, units, next);
    }
  }

  lemma RecordAdded(bigs: seq<int>, live: map<int, int>, units: map<int, int>, next: map<int, int>, pages: set<int>,
                    bb: int, order: nat, p: int)
    requires Records(bigs, live, units, next, pages) && Headers(bigs, live, units)
    requires bb !in bigs && bb in live && live[bb] == 2 && p % PAGE_UNITS == 0
    requires Extent(p, PAGE_UNITS * Pow2(order)) !! pages
    requires forall b :: b in bigs && b in units && b in next ==>
               Extent(p, PAGE_UNITS * Pow2(order)) !! BigExtent(b, units, next)
    ensures Records([bb] + bigs, live, units[bb := order], next[bb := p], pages)
    ensures Headers([bb] + bigs, live, units[bb := order])
  {
    hide Extent, Pow2;
    var u, n, all := units[bb := order], next[bb := p], [bb] + bigs;
    assert forall b :: b in all <==> b == bb || b in bigs;
    assert IsRecord(bb, live, u, n) && BigExtent(bb, u, n) == Extent(p, PAGE_UNITS * Pow2(order));
    forall b | b in bigs
      ensures b != bb && IsRecord(b, live, u, n) && BigExtent(b, u, n) == BigExtent(b, units, next)
    {
      assert IsRecord(b, live, units, next);
    }
    assert forall i, j :: 0 <= i < j < |all| ==> all[i] != all[j];
  }

  lemma LiveOfRecords(bigs: seq<int>, live: map<int, int>, units: map<int, int>, next: map<int, int>, pages: set<int>)
    requires Records(bigs, live, units, next, pages)
    ensures forall bb :: bb in bigs ==> bb in live
  {
    forall bb | bb in bigs ensures bb in live {
      assert IsRecord(bb, live, units, next);
    }
  }

  lemma AsBefore(s: set<int>, m: map<int, int>)
    ensures Untouched(s, m, m)
  {
  }

  lemma GivenBack(free: set<int>, added: set<int>, taken: set<int>, left: set<int>)
    requires left == free + added - taken && taken <= free + added
    ensures left + taken == free + added
  {
  }

  lemma StillUnowned(p: int, n: nat, bigs: seq<int>, live: map<int, int>, units: map<int, int>, next: map<int, int>,
                     units': map<int, int>, next': map<int, int>, pages: set<int>, added: set<int>, arena: int)
    requires Records(bigs, live, units, next, pages)
    requires Unowned(p, n, bigs, units, next, pages, arena) && Extent(p, n) !! added
    requires Untouched(live.Keys, units, units') && Untouched(live.Keys, next, next')
    ensures Extent(p, n) !! pages + added
    ensures forall bb :: bb in bigs && bb in units' && bb in next' ==> Extent(p, n) !! BigExtent(bb, units', next')
  {
    forall bb | bb in bigs && bb in units' && bb in next'
      ensures Extent(p, n) !! BigExtent(bb, units', next')
    {
      assert IsRecord(bb, live, units, next);
      assert BigExtent(bb, units', next') == BigExtent(bb, units, next);
    }
  }

  lemma RecordOf(bigs: seq<int>, live: map<int, int>, units: map<int, int>, next: map<int, int>, pages: set<int>, bb: int)
    requires Records(bigs, live, units, next, pages) && bb in bigs
    ensures IsRecord(bb, live, units, next) && next[bb] in BigExtent(bb, units, next)
    ensures BigExtent(bb, units, next) !! pages
  {
    assert IsRecord(bb, live, units, next);
  }

  lemma HeaderOf(bigs: seq<int>, live: map<int, int>, units: map<int, int>, b: int)
    requires Headers(bigs, live, units) && b in live && b !in bigs
    ensures b in units && units[b] == live[b]
  {
  }

  /** Where the payload of a small block lies. */
  lemma SmallBlock(live: map<int, int>, pages: set<int>, b: int)
    requires b in live && live[b] >= 2 && Extent(b, live[b]) <= pages
    ensures b + 1 in pages
  {
    assert b + 1 in Extent(b, live[b]);
  }

  lemma RecordsWithout(bigs: seq<int>, live: map<int, int>, units: map<int, int>, next: map<int, int>, pages: set<int>,
                       b: int)
    requires Records(bigs, live, units, next, pages) && Headers(bigs, live, units) && b !in bigs
    ensures Records(bigs, live - {b}, units, next, pages) && Headers(bigs, live - {b}, units)
  {
    forall bb | bb in bigs ensures IsRecord(bb, live - {b}, units, next) {
      assert IsRecord(bb, live, units, next);
    }
  }

  lemma RecordRemoved(bigs: seq<int>, live: map<int, int>, units: map<int, int>, next: map<int, int>, pages: set<int>,
                      i: int)
    requires Records(bigs, live, units, next, pages) && Headers(bigs, live, units) && 0 <= i < |bigs|
    ensures Records(bigs[..i] + bigs[i + 1..], live - {bigs[i]}, units, next, pages)
    ensures Headers(bigs[..i] + bigs[i + 1..], live - {bigs[i]}, units)
  {
    var rest := bigs[..i] + bigs[i + 1..];
    assert forall k :: 0 <= k < |rest| ==> rest[k] == bigs[if k < i then k else k + 1];
    assert forall bb :: bb in bigs <==> bb in rest || bb == bigs[i] by {
      assert bigs == bigs[..i] + [bigs[i]] + bigs[i + 1..];
    }
    forall bb | bb in rest ensures IsRecord(bb, live - {bigs[i]}, units, next) {
      assert IsRecord(bb, live, units, next);
    }
  }

  /** The record at `i`, of the pages at `p`, has left the list; its pages go back with `back`. */
  ghost predicate Unlinked(bigs: seq<int>, bigs': seq<int>, i: nat, p: int, units: map<int, int>, next: map<int, int>,
                           back: Option<int>)
  {
    && i < |bigs| && bigs' == bigs[..i] + bigs[i + 1..]
    && bigs[i] in next && next[bigs[i]] == p && bigs[i] in units && back == Some(units[bigs[i]])
  }

  class Allocator {
    const heap: Heap
    var bigblocks: seq<int>

    constructor (arena: int)
      ensures Valid() && fresh(heap) && bigblocks == [] && heap.live == map[] && heap.pages == {}
      ensures heap.arena == arena && heap.free == {arena}
    {
      hide Heap.Valid, UnitsOf, Extent;
      heap := new Heap(arena);
      bigblocks := [];
    }

    ghost predicate Valid()
      reads this, heap
    {
      && heap.Valid()
      && Records(bigblocks, heap.live, heap.units, heap.next, heap.pages)
      && Headers(bigblocks, heap.live, heap.units)
    }

    /** The blocks a client got from a small `kmalloc` and may free. */
    ghost predicate IsSmall(p: int)
      reads this, heap
    {
      p - 1 in heap.live && p - 1 !in bigblocks
    }

    /** ... of `n` units with its header. */
    ghost predicate IsBlock(p: int, n: int)
      reads this, heap
    {
      IsSmall(p) && heap.live[p - 1] == n
    }

    ghost predicate Fresh(p: int, n: nat)
      reads this, heap
    {
      Unowned(p, n, bigblocks, heap.units, heap.next, heap.pages, heap.arena)
    }

    /** What the page source would answer a call is its own to give. */
    ghost predicate Offered(size: nat, slobPage: Option<int>, bigPages: Option<int>)
      reads this, heap
    {
      && (slobPage.Some? ==> Fresh(slobPage.value, PAGE_UNITS))
      && (Large(size) && bigPages.Some? ==>
            var n := PAGE_UNITS * Pow2(FindOrder(size));
            && bigPages.value % PAGE_UNITS == 0 && Fresh(bigPages.value, n)
            && (slobPage.Some? ==> Extent(slobPage.value, PAGE_UNITS) !! Extent(bigPages.value, n)))
    }

    /** The block was found where `slob_alloc` looks for it. */
    twostate predicate PlacedAt(b: int, n: int, grew: bool, page: Option<int>)
      reads this, heap
    {
      Placed(b, n, grew, page, old(heap.free), old(heap.units), old(heap.slobfree), old(heap.FreeUnits()), heap.arena,
             heap.free, heap.slobfree)
    }

    lemma LiveOfValid()
      requires Valid()
      ensures forall bb :: bb in bigblocks ==> bb in heap.live && bb in heap.units && bb in heap.next
    {
      forall bb | bb in bigblocks ensures bb in heap.live && bb in heap.units && bb in heap.next {
        assert IsRecord(bb, heap.live, heap.units, heap.next);
      }
    }

    /** `bb` is a block that was not live, and now records 2^order pages at `p`. */
    ghost predicate IsNewRecord(bb: int, order: nat, p: int, live: map<int, int>)
      reads heap
    {
      && bb !in live && heap.live == live[bb := 2]
      && bb in heap.units && heap.units[bb] == order && bb in heap.next && heap.next[bb] == p
    }

    /** The small half of `__kmalloc`. */
    method AllocSmall(size: nat, slobPage: Option<int>) returns (r: Outcome, grew: bool)
      requires Valid() && size < PAGE_SIZE - SLOB_UNIT
      requires slobPage.Some? ==> Fresh(slobPage.value, PAGE_UNITS)
      modifies heap
      ensures Valid() <==> !(size == 0 && old(heap.SentinelNext(1)))
      ensures !Valid() ==> r == Pointer(heap.arena + 1)
      ensures r.Panic? <==> size >= PAGE_SIZE - 2 * SLOB_UNIT
      ensures !r.Pointer? ==> heap.live == old(heap.live) && heap.FreeUnits() == old(heap.FreeUnits())
      ensures !r.Panic? ==> (r.Null? <==> slobPage.None? && NoneFits(old(heap.free), old(heap.units), BlockUnits(size)))
      ensures !r.Panic? ==> (grew <==> slobPage.Some? && NoneFits(old(heap.free), old(heap.units), BlockUnits(size)))
      ensures grew ==> r.Pointer?
      ensures Valid() && r.Pointer? ==> PlacedAt(r.p - 1, BlockUnits(size), grew, slobPage)
      ensures Valid() ==> heap.pages == old(heap.pages) + Added(grew, slobPage)
      ensures Valid() ==> Untouched(old(heap.live).Keys, old(heap.units), heap.units)
      ensures Valid() ==> Untouched(old(heap.live).Keys, old(heap.next), heap.next)
      ensures Valid() && r.Pointer? ==>
        var n := UnitsFor(size + SLOB_UNIT);
        && IsSmall(r.p) && r.p - 1 !in old(heap.live) && heap.live == old(heap.live)[r.p - 1 := n]
        && Extent(r.p - 1, n) <= old(heap.FreeUnits()) + Added(grew, slobPage)
        && heap.FreeUnits() == old(heap.FreeUnits()) + Added(grew, slobPage) - Extent(r.p - 1, n)
    {
      hide Heap.Valid, Heap.FreeUnits, Records, Headers, Gap, FirstFit, NoneFits, FitsOnceGrown, Untouched, UnitsOf;
      AsBefore(heap.live.Keys, heap.units);
      AsBefore(heap.live.Keys, heap.next);
      grew := false;
      if size + 2 * SLOB_UNIT >= PAGE_SIZE {
        return Panic, false;
      }
      ghost var live, units, next, pages := heap.live, heap.units, heap.next, heap.pages;
      assert 1 <= UnitsFor(size + SLOB_UNIT) <= PAGE_UNITS && (UnitsFor(size + SLOB_UNIT) == 1 <==> size == 0);
      LiveOfValid();
      ghost var sentinel := heap.SentinelNext(UnitsFor(size + SLOB_UNIT));
      var m;
      m, grew := heap.Alloc(UnitsFor(size + SLOB_UNIT), slobPage);
      r := if m.Some? then Pointer(m.value + 1) else Null;
      ghost var added := Added(grew, slobPage);
      if !sentinel {
        RecordsKept(bigblocks, live, heap.live, units, heap.units, next, heap.next, pages, added);
      }
    }

    /** The large half of `__kmalloc`. `bigPages` is what the page source would answer for 2^order
        pages. */
    method AllocBig(size: nat, slobPage: Option<int>, bigPages: Option<int>) returns (r: Outcome, grew: bool)
      requires Valid() && size >= PAGE_SIZE - SLOB_UNIT
      requires Offered(size, slobPage, bigPages)
      modifies this, heap
      ensures Valid() && !r.Panic?
      ensures grew <==> slobPage.Some? && NoneFits(old(heap.free), old(heap.units), 2)
      ensures heap.pages == old(heap.pages) + Added(grew, slobPage)
      ensures Untouched(old(heap.live).Keys, old(heap.units), heap.units)
      ensures Untouched(old(heap.live).Keys, old(heap.next), heap.next)
      ensures r.Null? <==> (slobPage.None? && NoneFits(old(heap.free), old(heap.units), 2)) || bigPages.None?
      ensures r.Pointer? ==> bigblocks != [] && PlacedAt(bigblocks[0], 2, grew, slobPage)
      ensures r.Null? ==> bigblocks == old(bigblocks) && heap.live == old(heap.live)
      ensures r.Null? ==> heap.FreeUnits() == old(heap.FreeUnits()) + Added(grew, slobPage)
      ensures r.Pointer? ==> bigPages == Some(r.p) && bigblocks != [] && bigblocks[1..] == old(bigblocks)
      ensures r.Pointer? ==> IsNewRecord(bigblocks[0], FindOrder(size), r.p, old(heap.live))
      ensures r.Pointer? ==> Extent(bigblocks[0], 2) <= old(heap.FreeUnits()) + Added(grew, slobPage)
      ensures r.Pointer? ==>
        heap.FreeUnits() == old(heap.FreeUnits()) + Added(grew, slobPage) - Extent(bigblocks[0], 2)
    {
      hide Heap.Valid, Heap.FreeUnits, Records, Headers, Extent, FindOrder, Pow2, Gap, FirstFit, NoneFits, FitsOnceGrown;
      ghost var live, units, next, pages := heap.live, heap.units, heap.next, heap.pages;
      LiveOfValid();
      var m;
      m, grew := heap.Alloc(UnitsFor(BIGBLOCK_SIZE), slobPage);
      ghost var added := Added(grew, slobPage);
      RecordsKept(bigblocks, live, heap.live, units, heap.units, next, heap.next, pages, added);
      if m.None? {
        return Null, grew;
      }
      var bb, order := m.value, FindOrder(size);
      ghost var u, nx := heap.units, heap.next;
      heap.Overwrite(bb, order, if bigPages.Some? then bigPages.value else 0);
      if bigPages.Some? {
        assert bb !in bigblocks by { LiveOfRecords(bigblocks, live, units, next, pages); }
        StillUnowned(bigPages.value, PAGE_UNITS * Pow2(order), bigblocks, live, units, next, u, nx, pages, added,
                     heap.arena);
        RecordAdded(bigblocks, heap.live, u, nx, heap.pages, bb, order, bigPages.value);
        bigblocks := [bb] + bigblocks;
        return Pointer(bigPages.value), grew;
      }
      GivenBack(old(heap.FreeUnits()), added, Extent(bb, 2), heap.FreeUnits());
      heap.Free(bb, BIGBLOCK_SIZE);
      assert heap.live == live;
      RecordsKept(bigblocks, live, heap.live, units, heap.units, next, heap.next, pages, added);
      return Null, grew;
    }

    /** A client got `p` from a large `kmalloc`. */
    ghost predicate IsBig(p: int)
      reads this, heap
    {
      exists bb :: bb in bigblocks && bb in heap.next && heap.next[bb] == p
    }

    /** ... with 2^`order` pages. */
    ghost predicate IsRun(p: int, order: int)
      reads this, heap
    {
      exists bb :: bb in bigblocks && bb in heap.next && heap.next[bb] == p && bb in heap.units && heap.units[bb] == order
    }

    /** `__kmalloc`: a new block that is large enough, unless it is the sentinel of a request for no
        bytes; what was handed out before stays in place. */
    method Kmalloc(size: nat, slobPage: Option<int>, bigPages: Option<int>) returns (r: Outcome, grew: bool)
      requires Valid() && Offered(size, slobPage, bigPages)
      modifies this, heap
      ensures Valid() <==> !(size == 0 && old(heap.SentinelNext(1)))
      ensures !Valid() ==> r == Pointer(heap.arena + 1)
      ensures r.Panic? <==> PAGE_SIZE - 2 * SLOB_UNIT <= size < PAGE_SIZE - SLOB_UNIT
      ensures !r.Panic? ==>
        var full := NoneFits(old(heap.free), old(heap.units), BlockUnits(size));
        && (grew <==> slobPage.Some? && full)
        && (r.Null? <==> (slobPage.None? && full) || (Large(size) && bigPages.None?))
      ensures Valid() && r.Pointer? && !Large(size) ==> PlacedAt(r.p - 1, BlockUnits(size), grew, slobPage)
      ensures r.Pointer? && Large(size) ==> bigblocks != [] && PlacedAt(bigblocks[0], 2, grew, slobPage)
      ensures Valid() ==> heap.pages == old(heap.pages) + Added(grew, slobPage)
      ensures !r.Pointer? ==> bigblocks == old(bigblocks) && heap.live == old(heap.live)
      ensures Valid() && r.Pointer? && size < PAGE_SIZE - SLOB_UNIT ==>
        var n := UnitsFor(size + SLOB_UNIT);
        && !old(IsSmall(r.p)) && IsBlock(r.p, n) && size <= SLOB_UNIT * (n - 1)
        && size + 16 <= 16 * n < size + 32
        && bigblocks == old(bigblocks) && heap.live == old(heap.live)[r.p - 1 := n]
      ensures r.Pointer? && size >= PAGE_SIZE - SLOB_UNIT ==>
        && bigPages == Some(r.p) && bigblocks != [] && bigblocks[1..] == old(bigblocks)
        && IsNewRecord(bigblocks[0], FindOrder(size), r.p, old(heap.live))
      ensures Valid() ==> Untouched(old(heap.live).Keys, old(heap.units), heap.units)
      ensures Valid() ==> Untouched(old(heap.live).Keys, old(heap.next), heap.next)
      ensures Valid() ==> forall q, n :: old(IsBlock(q, n)) ==> IsBlock(q, n)
      ensures Valid() ==> forall q, o :: old(IsRun(q, o)) ==> IsRun(q, o)
    {
      hide Heap.Valid, Heap.FreeUnits, Records, Headers, Extent, FindOrder, Pow2, Gap, FirstFit, NoneFits, FitsOnceGrown;
      LiveOfValid();
      UnitsTight(size + SLOB_UNIT);
      if size < PAGE_SIZE - SLOB_UNIT {
        r, grew := AllocSmall(size, slobPage);
      } else {
        r, grew := AllocBig(size, slobPage, bigPages);
      }
    }

    lemma SmallIsNotBig(p: int)
      requires Valid() && IsSmall(p) && heap.live[p - 1] >= 2
      ensures !IsBig(p) && p - 1 in heap.units && heap.units[p - 1] == heap.live[p - 1]
    {
      hide Heap.Valid, Records, Headers, Extent;
      heap.LiveInPages(p - 1);
      HeaderOf(bigblocks, heap.live, heap.units, p - 1);
      SmallBlock(heap.live, heap.pages, p - 1);
      if IsBig(p) {
        var bb :| bb in bigblocks && bb in heap.next && heap.next[bb] == p;
        RecordOf(bigblocks, heap.live, heap.units, heap.next, heap.pages, bb);
      }
    }

    /** `kfree`. A pointer to pages of their own is taken for that, whoever else was given it; `back` is the
        order with which whole pages return to the page source. */
    method Kfree(block: Option<int>) returns (back: Option<int>)
      requires Valid() && (block.Some? ==> IsSmall(block.value) || IsBig(block.value))
      modifies this, heap
      ensures Valid()
      ensures block.None? ==> bigblocks == old(bigblocks) && heap.live == old(heap.live) && back.None?
      ensures block.None? ==> heap.FreeUnits() == old(heap.FreeUnits())
      ensures heap.pages == old(heap.pages)
      ensures Untouched(heap.live.Keys, old(heap.units), heap.units)
      ensures Untouched(heap.live.Keys, old(heap.next), heap.next)
      ensures block.Some? && !old(IsBig(block.value)) ==>
        && bigblocks == old(bigblocks) && back.None? && heap.live == old(heap.live) - {block.value - 1}
        && heap.FreeUnits() == old(heap.FreeUnits()) + Extent(block.value - 1, old(heap.live)[block.value - 1])
      ensures block.Some? && old(IsBig(block.value)) ==>
        exists i: nat ::
          && Unlinked(old(bigblocks), bigblocks, i, block.value, old(heap.units), old(heap.next), back)
          && heap.live == old(heap.live) - {old(bigblocks)[i]}
          && heap.FreeUnits() == old(heap.FreeUnits()) + Extent(old(bigblocks)[i], 2)
    {
      hide Heap.Valid, Heap.FreeUnits, Records, Headers, Extent, Gap;
      back := None;
      if block.None? {
        return;
      }
      var p := block.value;
      ghost var bigs, live, units, next, pages := bigblocks, heap.live, heap.units, heap.next, heap.pages;
      if p % PAGE_UNITS == 0 {
        var i := 0;
        while i < |bigblocks|
          invariant 0 <= i <= |bigblocks| && bigblocks == bigs && Valid() && back.None?
          invariant heap.live == live && heap.units == units && heap.next == next && heap.pages == pages
          invariant heap.FreeUnits() == old(heap.FreeUnits())
          invariant forall j :: 0 <= j < i ==> bigs[j] in next && next[bigs[j]] != p
        {
          var bb := bigblocks[i];
          RecordOf(bigs, live, units, next, pages, bb);
          if heap.next[bb] == p {
            RecordRemoved(bigs, live, units, next, pages, i);
            bigblocks := bigblocks[..i] + bigblocks[i + 1..];
            back := Some(heap.units[bb]);
            heap.Free(bb, BIGBLOCK_SIZE);
            RecordsKept(bigblocks, live - {bb}, heap.live, units, heap.units, next, heap.next, pages, {});
            assert heap.pages == pages + {};
            assert Unlinked(bigs, bigblocks, i, p, units, next, back);
            return;
          }
          i := i + 1;
        }
      }
      if IsBig(p) { AlignedRecords(p); }
      HeaderOf(bigblocks, live, units, p - 1);
      RecordsWithout(bigblocks, live, units, next, pages, p - 1);
      heap.Free(p - 1, 0);
      RecordsKept(bigblocks, live - {p - 1}, heap.live, units, heap.units, next, heap.next, pages, {});
      assert heap.pages == pages + {};
    }

    lemma AlignedRecords(p: int)
      requires Valid() && IsBig(p)
      ensures p % PAGE_UNITS == 0
    {
      hide Heap.Valid, Headers, Extent;
      var bb :| bb in bigblocks && bb in heap.next && heap.next[bb] == p;
      RecordOf(bigblocks, heap.live, heap.units, heap.next, heap.pages, bb);
    }

    /** No two records are of the same pages. */
    lemma OneRecord(p: int, i: int, j: int)
      requires Valid() && 0 <= i < |bigblocks| && 0 <= j < |bigblocks|
      requires bigblocks[i] in heap.next && heap.next[bigblocks[i]] == p
      requires bigblocks[j] in heap.next && heap.next[bigblocks[j]] == p
      ensures i == j
    {
      hide Heap.Valid, Headers;
      RecordOf(bigblocks, heap.live, heap.units, heap.next, heap.pages, bigblocks[i]);
      RecordOf(bigblocks, heap.live, heap.units, heap.next, heap.pages, bigblocks[j]);
    }

    /** What `kmalloc` hands out, `kfree` takes back: afterwards the heap has the blocks it had, and the
        free units it had together with the page it may have grown by. Only a pointer to no bytes may be
        the sentinel's, or another client's pages, which it then takes back instead. */
    method RoundTrip(size: nat, slobPage: Option<int>, bigPages: Option<int>)
      returns (r: Outcome, grew: bool, back: Option<int>)
      requires Valid() && Offered(size, slobPage, bigPages)
      modifies this, heap
      ensures Valid() <==> !(size == 0 && old(heap.SentinelNext(1)))
      ensures size > 0 || !r.Pointer? || (Valid() && !old(IsBig(r.p))) ==>
        && bigblocks == old(bigblocks) && heap.live == old(heap.live)
        && heap.FreeUnits() == old(heap.FreeUnits()) + Added(grew, slobPage)
        && (r.Pointer? ==> back == if size < PAGE_SIZE - SLOB_UNIT then None else Some(FindOrder(size)))
      ensures Valid() && size == 0 && r.Pointer? && old(IsBig(r.p)) ==> |bigblocks| == |old(bigblocks)| - 1
    {
      hide Heap.Valid, Heap.FreeUnits, Records, Headers, Extent, FindOrder, Pow2, Gap, FirstFit, NoneFits, FitsOnceGrown;
      back := None;
      ghost var free := heap.FreeUnits();
      if size < PAGE_SIZE - SLOB_UNIT {
        var sentinel := size == 0 && heap.SentinelNext(1);
        LiveOfValid();
        r, grew := AllocSmall(size, slobPage);
        if r.Pointer? && !sentinel {
          GivenBack(free, Added(grew, slobPage), Extent(r.p - 1, heap.live[r.p - 1]), heap.FreeUnits());
          if size > 0 {
            SmallIsNotBig(r.p);
          } else if IsBig(r.p) {
            ghost var bb :| bb in bigblocks && bb in heap.next && heap.next[bb] == r.p;
            assert old(heap.next)[bb] == r.p;
          }
          back := Kfree(Some(r.p));
          assert heap.live == old(heap.live) || |bigblocks| < |old(bigblocks)|;
        } else {
          assert free + {} == free;
        }
      } else {
        r, grew := AllocBig(size, slobPage, bigPages);
        if r.Pointer? {
          ghost var bb, bigs, nx := bigblocks[0], bigblocks, heap.next;
          GivenBack(free, Added(grew, slobPage), Extent(bb, 2), heap.FreeUnits());
          assert bb in bigblocks;
          forall i | 0 <= i < |bigblocks| && bigblocks[i] in heap.next && heap.next[bigblocks[i]] == r.p ensures i == 0 {
            OneRecord(r.p, i, 0);
          }
          back := Kfree(Some(r.p));
          assert heap.live == old(heap.live);
        }
      }
    }
  }
}
