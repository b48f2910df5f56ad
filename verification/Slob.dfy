/** The SLOB allocator of Lab5/kern/mm/kmalloc.c: `slob_alloc` and `slob_free` over the headers of
    the blocks. Addresses and sizes count allocation units of 16 bytes, 256 to a page. */
module Slob {
  import opened FreeRing
  import opened Options
  import opened Seqs

  const SLOB_UNIT: nat := 16
  const PAGE_SIZE: nat := 4096
  const PAGE_UNITS: nat := 256

  /** SLOB_UNITS */
  function UnitsFor(bytes: nat): nat {
    (bytes + SLOB_UNIT - 1) / SLOB_UNIT
  }

  /** The units hold the bytes, with less than one unit to spare. */
  lemma UnitsTight(bytes: nat)
    ensures bytes <= 16 * UnitsFor(bytes) < bytes + 16
  {
    assert bytes + 15 == 16 * UnitsFor(bytes) + (bytes + 15) % 16;
  }

  /** The free list is circular, ordered and coalesced, with `slobfree` and the sentinel on it. */
  ghost predicate OnRing(free: set<int>, units: map<int, int>, next: map<int, int>, slobfree: int, arena: int) {
    && Circular(free, next) && Apart(free, units)
    && slobfree in free && arena in free && units[arena] == 1
  }

  /** Free and live blocks partition the units of the pages obtained, and the sentinel; no page
      touches the sentinel. */
  ghost predicate Partition(freeUnits: set<int>, live: map<int, int>, pages: set<int>, arena: int) {
    && (forall b :: b in live ==> live[b] >= 1)
    && (forall a, b :: a in live && b in live && a < b ==> a + live[a] <= b)
    && freeUnits !! UnitsOf(live.Keys, live) && freeUnits + UnitsOf(live.Keys, live) == pages + {arena}
    && arena in freeUnits && arena - 1 !in pages && arena !in pages && arena + 1 !in pages
  }

  lemma PartitionFreed(freeUnits: set<int>, live: map<int, int>, pages: set<int>, arena: int, b: int)
    requires Partition(freeUnits, live, pages, arena) && b in live
    ensures Partition(freeUnits + Extent(b, live[b]), live - {b}, pages, arena)
  {
    var lu := UnitsOf(live.Keys, live);
    assert UnitsOf((live - {b}).Keys, live - {b}) == lu - Extent(b, live[b]) && Extent(b, live[b]) <= lu by {
      UnitsRemove(live.Keys, live, b);
      UnitsSame((live - {b}).Keys, live - {b}, live);
      assert (live - {b}).Keys == live.Keys - {b};
    }
  }

  lemma LiveUnits(live: map<int, int>)
    requires forall b :: b in live ==> live[b] >= 1
    ensures live.Keys <= UnitsOf(live.Keys, live)
  {
    forall b | b in live ensures b in UnitsOf(live.Keys, live) {
      assert b in Extent(b, live[b]);
    }
  }

  lemma ExtentOfLive(live: map<int, int>, a: int)
    requires a in live
    ensures Extent(a, live[a]) <= UnitsOf(live.Keys, live)
  {
    forall x | x in Extent(a, live[a]) ensures x in UnitsOf(live.Keys, live) {
    }
  }

  /** Units outside all live blocks lie in front of or behind each of them. */
  lemma OutsideLive(live: map<int, int>, p: int, n: int)
    requires (forall b :: b in live ==> live[b] >= 1) && n >= 1
    requires Extent(p, n) !! UnitsOf(live.Keys, live)
    ensures p !in live && forall a :: a in live ==> (a < p ==> a + live[a] <= p) && (p < a ==> p + n <= a)
  {
    assert p in Extent(p, n);
    forall a | a in live ensures a != p && (a < p ==> a + live[a] <= p) && (p < a ==> p + n <= a) {
      ExtentOfLive(live, a);
      assert a in Extent(a, live[a]);
      assert p !in Extent(a, live[a]) && a !in Extent(p, n);
    }
  }

  lemma PartitionTaken(freeUnits: set<int>, live: map<int, int>, pages: set<int>, arena: int, b: int, n: int)
    requires Partition(freeUnits, live, pages, arena) && n >= 1
    requires Extent(b, n) <= freeUnits && arena !in Extent(b, n)
    ensures b !in live && Partition(freeUnits - Extent(b, n), live[b := n], pages, arena)
  {
    hide UnitsOf;
    OutsideLive(live, b, n);
    assert live[b := n].Keys == live.Keys + {b};
    UnitsAdd(live.Keys, live, b, n);
  }

  lemma PartitionGrown(freeUnits: set<int>, live: map<int, int>, pages: set<int>, arena: int, p: int, n: int)
    requires Partition(freeUnits, live, pages, arena) && n >= 1
    requires Extent(p, n) !! pages && arena !in Extent(p - 1, n + 2)
    ensures p !in live && Partition(freeUnits, live[p := n], pages + Extent(p, n), arena)
  {
    hide UnitsOf;
    assert arena - 1 !in Extent(p, n) && arena !in Extent(p, n) && arena + 1 !in Extent(p, n);
    OutsideLive(live, p, n);
    assert live[p := n].Keys == live.Keys + {p};
    UnitsAdd(live.Keys, live, p, n);
  }

  /** A live block fits between the free ones, and does not touch the sentinel. */
  lemma LiveFits(free: set<int>, units: map<int, int>, live: map<int, int>, pages: set<int>, arena: int, b: int)
    requires Apart(free, units) && Partition(UnitsOf(free, units), live, pages, arena) && b in live
    ensures b !in free && live[b] >= 1 && Fits(free, units, b, live[b])
    ensures b + live[b] != arena && b != arena + 1 && b != arena
  {
    hide UnitsOf, Apart, Fits;
    var n := live[b];
    UnitsRemove(live.Keys, live, b);
    FitsOutside(free, units, b, n);
    assert b in Extent(b, n) && b + n - 1 in Extent(b, n);
  }

  lemma RingIsApart(free: set<int>, units: map<int, int>, next: map<int, int>, slobfree: int, arena: int)
    requires OnRing(free, units, next, slobfree, arena)
    ensures Apart(free, units) && free <= units.Keys
  {
  }

  lemma AllLiveOff(free: set<int>, units: map<int, int>, live: map<int, int>, pages: set<int>, arena: int)
    requires Apart(free, units) && Partition(UnitsOf(free, units), live, pages, arena)
    ensures live.Keys !! free
  {
    forall b | b in live ensures b !in free { LiveFits(free, units, live, pages, arena, b); }
  }

  /** The header of a block that is not free may be written. */
  lemma HeaderOfLive(free: set<int>, units: map<int, int>, next: map<int, int>, slobfree: int, arena: int, b: int, n: int)
    requires OnRing(free, units, next, slobfree, arena) && b !in free
    ensures OnRing(free, units[b := n], next, slobfree, arena)
    ensures UnitsOf(free, units[b := n]) == UnitsOf(free, units)
    ensures forall m :: Fits(free, units, b, m) ==> Fits(free, units[b := n], b, m)
  {
    hide UnitsOf, Circular, Follows;
    UnitsSame(free, units, units[b := n]);
  }

  lemma LinkOfLive(free: set<int>, units: map<int, int>, next: map<int, int>, slobfree: int, arena: int, b: int, n: int)
    requires OnRing(free, units, next, slobfree, arena) && b !in free
    ensures OnRing(free, units, next[b := n], slobfree, arena)
  {
    hide Apart, Follows, Circular;
    RingFacts(free, units, next, slobfree, arena);
    CircularElsewhere(free, next[b := n], next);
  }

  lemma GrowReady(free: set<int>, units: map<int, int>, next: map<int, int>, slobfree: int,
                  live: map<int, int>, pages: set<int>, arena: int, page: int)
    requires OnRing(free, units, next, slobfree, arena) && Partition(UnitsOf(free, units), live, pages, arena)
    requires Extent(page, PAGE_UNITS) !! pages && arena !in Extent(page - 1, PAGE_UNITS + 2)
    ensures page !in live && page !in free
    ensures OnRing(free, units[page := PAGE_UNITS], next, slobfree, arena)
    ensures UnitsOf(free, units[page := PAGE_UNITS]) == UnitsOf(free, units)
    ensures Partition(UnitsOf(free, units), live[page := PAGE_UNITS], pages + Extent(page, PAGE_UNITS), arena)
  {
    hide OnRing, Partition;
    RingIsApart(free, units, next, slobfree, arena);
    PartitionGrown(UnitsOf(free, units), live, pages, arena, page, PAGE_UNITS);
    NotFree(free, units, next, slobfree, live, pages, arena, page);
    HeaderOfLive(free, units, next, slobfree, arena, page, PAGE_UNITS);
  }

  lemma FreeInUnits(free: set<int>, units: map<int, int>, b: int)
    requires Apart(free, units) && b in free
    ensures b in UnitsOf(free, units)
  {
    assert b in Extent(b, units[b]);
  }

  lemma NotFree(free: set<int>, units: map<int, int>, next: map<int, int>, slobfree: int,
                live: map<int, int>, pages: set<int>, arena: int, page: int)
    requires OnRing(free, units, next, slobfree, arena) && Partition(UnitsOf(free, units), live, pages, arena)
    requires Extent(page, PAGE_UNITS) !! pages && arena !in Extent(page - 1, PAGE_UNITS + 2)
    ensures page !in free
  {
    hide OnRing, UnitsOf, Circular, Follows;
    RingIsApart(free, units, next, slobfree, arena);
    assert page in Extent(page, PAGE_UNITS) && page in Extent(page - 1, PAGE_UNITS + 2);
    if page in free {
      FreeInUnits(free, units, page);
    }
  }

  /** What `slob_alloc` knows when it has found a block that is large enough. */
  lemma TakeReady(free: set<int>, units: map<int, int>, next: map<int, int>, slobfree: int,
                  live: map<int, int>, pages: set<int>, arena: int, prev: int, cur: int, n: int)
    requires OnRing(free, units, next, slobfree, arena) && Partition(UnitsOf(free, units), live, pages, arena)
    requires prev in free && cur == next[prev] && cur != arena && 1 <= n <= units[cur]
    ensures cur in free && cur in next && cur != prev && live.Keys !! free
    ensures Extent(cur, n) <= UnitsOf(free, units) && arena !in Extent(cur, n)
    ensures n < units[cur] ==> cur + n !in live
  {
    hide UnitsOf, Partition, Apart, Extent;
    assert Follows(free, prev, cur);
    RingIsApart(free, units, next, slobfree, arena);
    AllLiveOff(free, units, live, pages, arena);
    CutOffArena(free, units, arena, cur, n);
    if n < units[cur] {
      CutOffLive(free, units, live, pages, arena, cur, n);
    }
  }

  lemma CutOffArena(free: set<int>, units: map<int, int>, arena: int, cur: int, n: int)
    requires Apart(free, units) && arena in free && cur in free && cur != arena && 1 <= n <= units[cur]
    ensures Extent(cur, n) <= UnitsOf(free, units) && arena !in Extent(cur, n)
  {
    UnitsRemove(free, units, cur);
    assert Extent(cur, n) <= Extent(cur, units[cur]);
  }

  lemma CutOffLive(free: set<int>, units: map<int, int>, live: map<int, int>, pages: set<int>, arena: int,
                   cur: int, n: int)
    requires Apart(free, units) && Partition(UnitsOf(free, units), live, pages, arena)
    requires cur in free && 1 <= n < units[cur]
    ensures cur + n !in live
  {
    LiveUnits(live);
    UnitsRemove(free, units, cur);
    assert cur + n in Extent(cur, units[cur]);
  }

  lemma RingFacts(free: set<int>, units: map<int, int>, next: map<int, int>, slobfree: int, arena: int)
    requires OnRing(free, units, next, slobfree, arena)
    ensures free <= units.Keys && free <= next.Keys && slobfree in free && arena in free && units[arena] == 1
    ensures forall b :: b in free ==> units[b] >= 1
    ensures forall b {:trigger next[b]} :: b in free ==> next[b] in free && Follows(free, b, next[b])
  {
  }

  lemma SentinelNeeded(free: set<int>, units: map<int, int>, next: map<int, int>, slobfree: int, arena: int)
    requires arena !in free
    ensures !OnRing(free, units, next, slobfree, arena)
  {
  }

  lemma ApartUnits(free: set<int>, units: map<int, int>, cur: int)
    requires Apart(free, units) && cur in free
    ensures UnitsOf(free - {cur}, units) == UnitsOf(free, units) - Extent(cur, units[cur])
  {
    UnitsRemove(free, units, cur);
  }

  lemma TakeWhole(free: set<int>, units: map<int, int>, next: map<int, int>, slobfree: int, arena: int,
                  prev: int, cur: int)
    requires OnRing(free, units, next, slobfree, arena)
    requires prev in free && cur == next[prev] && cur != prev && cur != arena && cur in free
    ensures OnRing(free - {cur}, units, next[prev := next[cur]], prev, arena)
    ensures UnitsOf(free - {cur}, units) == UnitsOf(free, units) - Extent(cur, units[cur])
  {
    hide Circular, Apart, UnitsOf, Extent, Follows;
    RingFacts(free, units, next, slobfree, arena);
    LinkOut(free, next, prev, cur);
    ApartSubset(free, units, cur);
    ApartUnits(free, units, cur);
  }

  lemma TakePart(free: set<int>, units: map<int, int>, next: map<int, int>, slobfree: int, arena: int,
                 prev: int, cur: int, n: int)
    requires OnRing(free, units, next, slobfree, arena)
    requires prev in free && cur == next[prev] && cur != prev && cur != arena && cur in free
    requires 1 <= n < units[cur]
    ensures OnRing(free - {cur} + {cur + n}, units[cur + n := units[cur] - n][cur := n],
                   next[prev := cur + n][cur + n := next[cur]], prev, arena)
    ensures UnitsOf(free - {cur} + {cur + n}, units[cur + n := units[cur] - n][cur := n])
         == UnitsOf(free, units) - Extent(cur, n)
  {
    hide Circular, Apart, UnitsOf, Extent, Follows, Gap;
    RingFacts(free, units, next, slobfree, arena);
    CutGap(free, units, cur, n);
    CutCircular(free, next, prev, cur, cur + n);
    CutApart(free, units, cur, n);
    CutUnits(free, units, cur, n);
  }

  /** `r` is the first block after `start`, walking round the ring, that has room for `n` units. */
  ghost predicate FirstFit(free: set<int>, units: map<int, int>, start: int, r: int, n: int) {
    free <= units.Keys && r in free && units[r] >= n && forall x :: x in Arc(free, start, r) && x != r ==> units[x] < n
  }

  /** All free blocks in between, by address or round the end of the list, are too small. */
  lemma FirstFitMeans(free: set<int>, units: map<int, int>, start: int, r: int, n: int)
    requires free <= units.Keys && start in free
    ensures FirstFit(free, units, start, r, n) <==>
      && r in free && units[r] >= n
      && forall x :: x in free && (if start < r then start < x < r else x > start || x < r) ==> units[x] < n
  {
    assert forall x :: x in Arc(free, start, r) && x != r <==>
      x in free && (if start < r then start < x < r else x > start || x < r);
  }

  /** The first fit on the ring that the page at `page` has joined: the free units are `left`, and the
      walk starts from the block behind which the page belongs. */
  ghost predicate FitsOnceGrown(free: set<int>, left: set<int>, arena: int, page: int, r: int, n: int) {
    exists f, units, next, start ::
      && OnRing(f, units, next, start, arena) && UnitsOf(f, units) == left
      && Gap(free, start, page) && FirstFit(f, units, start, r, n)
  }

  lemma FitsNow(free: set<int>, left: set<int>, arena: int, page: int, r: int, n: int,
                f: set<int>, units: map<int, int>, next: map<int, int>, start: int)
    requires OnRing(f, units, next, start, arena) && UnitsOf(f, units) == left
    requires Gap(free, start, page) && FirstFit(f, units, start, r, n)
    ensures FitsOnceGrown(free, left, arena, page, r, n)
  {
  }

  /** No free block has room for `n` units. */
  ghost predicate NoneFits(free: set<int>, units: map<int, int>, n: int) {
    free <= units.Keys && forall b :: b in free ==> units[b] < n
  }

  /** Where `slob_alloc` finds `n` units: the first fit on the list as it was or, when nothing on it fits,
      once a page has joined it. Afterwards `slobfree` is the block in front. */
  ghost predicate Placed(b: int, n: int, grew: bool, page: Option<int>, free: set<int>, units: map<int, int>,
                         slobfree: int, freeUnits: set<int>, arena: int, free': set<int>, slobfree': int)
  {
    && (!grew ==> FirstFit(free, units, slobfree, b, n))
    && (grew ==> page.Some? && NoneFits(free, units, n)
                 && FitsOnceGrown(free, freeUnits + Extent(page.value, PAGE_UNITS), arena, page.value, b, n))
    && Gap(free', slobfree', b)
  }

  lemma FirstFitFits(free: set<int>, units: map<int, int>, start: int, r: int, n: int)
    requires FirstFit(free, units, start, r, n)
    ensures !NoneFits(free, units, n)
  {
  }

  /** Words of the blocks in `s` are as they were. */
  ghost predicate Untouched(s: set<int>, m: map<int, int>, m': map<int, int>) {
    forall x :: x in s && x in m ==> x in m' && m'[x] == m[x]
  }

  /** The `n` units at `b` were free and are now a live block, its header and link in place. */
  ghost predicate Served(b: int, n: int, live: map<int, int>, live': map<int, int>, freeUnits: set<int>,
                         freeUnits': set<int>, units': map<int, int>, next': map<int, int>)
  {
    && b !in live && live' == live[b := n]
    && Extent(b, n) <= freeUnits && freeUnits' == freeUnits - Extent(b, n)
    && b in units' && units'[b] == n && b in next'
  }

  // The words once the first `n` units of `cur`, the block after `prev`, have been handed out.

  ghost function TakenBlocks(free: set<int>, units: map<int, int>, cur: int, n: int): set<int>
    requires cur in units
  {
    if units[cur] == n then free - {cur} else free - {cur} + {cur + n}
  }

  ghost function TakenUnits(units: map<int, int>, cur: int, n: int): map<int, int>
    requires cur in units
  {
    if units[cur] == n then units else units[cur + n := units[cur] - n][cur := n]
  }

  ghost function TakenNext(units: map<int, int>, next: map<int, int>, prev: int, cur: int, n: int): map<int, int>
    requires cur in units && cur in next
  {
    if units[cur] == n then next[prev := next[cur]] else next[prev := cur + n][cur + n := next[cur]]
  }

  lemma TakenRing(free: set<int>, units: map<int, int>, next: map<int, int>, slobfree: int, arena: int,
                  prev: int, cur: int, n: int)
    requires OnRing(free, units, next, slobfree, arena) && prev in free && prev in next && cur == next[prev]
    requires cur != prev && cur != arena && cur in free && cur in units && cur in next && 1 <= n <= units[cur]
    ensures var f, u := TakenBlocks(free, units, cur, n), TakenUnits(units, cur, n);
      && OnRing(f, u, TakenNext(units, next, prev, cur, n), prev, arena) && f <= u.Keys
      && UnitsOf(f, u) == UnitsOf(free, units) - Extent(cur, n) && Gap(f, prev, cur)
  {
    hide OnRing, UnitsOf, Extent, Apart, Circular, Gap, Follows;
    RingIsApart(free, units, next, slobfree, arena);
    FollowsHere(free, units, next, slobfree, arena, prev);
    GapLeft(free, units, prev, cur, n);
    if units[cur] == n {
      TakeWhole(free, units, next, slobfree, arena, prev, cur);
    } else {
      TakePart(free, units, next, slobfree, arena, prev, cur, n);
    }
    RingIsApart(TakenBlocks(free, units, cur, n), TakenUnits(units, cur, n), TakenNext(units, next, prev, cur, n),
                prev, arena);
  }

  lemma FollowsHere(free: set<int>, units: map<int, int>, next: map<int, int>, slobfree: int, arena: int, b: int)
    requires OnRing(free, units, next, slobfree, arena) && b in free
    ensures b in next && b in units && next[b] in free && next[b] in next && next[b] in units
    ensures Follows(free, b, next[b])
  {
  }

  /** The units of the page by which the heap grew, if it did. */
  function Added(grew: bool, page: Option<int>): set<int> {
    if grew && page.Some? then Extent(page.value, PAGE_UNITS) else {}
  }

  class Heap {
    const arena: int
    var units: map<int, int>
    var next: map<int, int>
    var slobfree: int
    ghost var free: set<int>        // the blocks on the ring
    ghost var live: map<int, int>   // the blocks handed out, with their sizes
    ghost var pages: set<int>       // the units of all pages obtained

    constructor (arena: int)
      ensures Valid() && this.arena == arena && free == {arena} && live == map[] && pages == {}
    {
      this.arena, slobfree := arena, arena;
      units, next := map[arena := 1], map[arena := arena];
      free, live, pages := {arena}, map[], {};
      new;
      UnitsAdd({}, map[], arena, 1);
    }

    ghost function FreeUnits(): set<int>
      reads this
    {
      if free <= units.Keys then UnitsOf(free, units) else {}
    }

    ghost predicate Shape()
      reads this
    {
      OnRing(free, units, next, slobfree, arena)
    }

    ghost predicate Valid()
      reads this
    {
      Shape() && Partition(FreeUnits(), live, pages, arena) && live.Keys <= units.Keys
    }

    /** The search loop of `slob_free`. */
    method FindGap(b: int) returns (cur: int)
      requires Shape() && b !in free
      ensures Gap(free, cur, b) && cur in free
    {
      hide Follows, Arc, Gap, Apart, UnitsOf, Extent;
      ghost var g := GapExists(free, arena, b);
      cur := slobfree;
      NextOnRing(cur);
      while !(b > cur && b < next[cur])
        invariant cur in free && Follows(free, cur, next[cur])
        decreases if cur == g then {} else Arc(free, cur, g)
      {
        GapTest(free, g, b, cur, next[cur]);
        NextOnRing(cur);
        if cur >= next[cur] && (b > cur || b < next[cur]) {
          break;
        }
        if next[cur] != g {
          ArcShrinks(free, cur, next[cur], g);
        } else {
          ArcEnd(free, cur, g);
        }
        cur := next[cur];
        NextOnRing(cur);
      }
      GapTest(free, g, b, cur, next[cur]);
    }

    lemma NextOnRing(b: int)
      requires Shape() && b in free
      ensures b in next && b in units && next[b] in free && next[b] in next && next[b] in units
      ensures Follows(free, b, next[b]) && arena in units
    {
    }

    /** The merging half of `slob_free`: the block goes in behind `cur`, joined with the neighbours
        it touches. */
    method Merge(b: int, cur: int)
      requires cur in next && cur in units && b in units && b != cur && next[cur] in next && next[cur] in units
      requires next[cur] != b && (b + units[b] == next[cur] ==> next[cur] != cur)
      modifies this`units, this`next, this`slobfree
      ensures var c := old(next)[cur];
        var right, left := b + old(units)[b] == c, cur + old(units)[cur] == b;
        && units == EndUnits(old(units), cur, c, b, right, left)
        && next == EndNext(old(next), cur, c, b, right, left)
      ensures slobfree == cur
    {
      if b + units[b] == next[cur] {
        units := units[b := units[b] + units[next[cur]]];
        next := next[b := next[next[cur]]];
      } else {
        next := next[b := next[cur]];
      }
      if cur + units[cur] == b {
        units := units[cur := units[cur] + units[b]];
        next := next[cur := next[b]];
      } else {
        next := next[cur := b];
      }
      slobfree := cur;
    }

    /** `slob_free`, the header being written: the block goes back on the ring, merged with the
        neighbours it touches. */
    method Return(b: int)
      requires Shape() && b in units && b !in free && units[b] >= 1 && Fits(free, units, b, units[b])
      requires b + units[b] != arena && b != arena + 1
      modifies this`units, this`next, this`slobfree, this`free
      ensures Shape() && FreeUnits() == old(FreeUnits()) + Extent(b, old(units)[b])
      ensures Gap(old(free), slobfree, b)
      ensures units.Keys == old(units.Keys)
      ensures forall x :: x in units && x !in old(free) && x != b ==> units[x] == old(units)[x]
      ensures forall x :: x in old(next) && x !in old(free) && x != b ==> x in next && next[x] == old(next)[x]
    {
      hide Circular, Apart, Gap, Fits, Follows, UnitsOf, EndBlocks, EndUnits, EndNext;
      ghost var f, u, nx := free, units, next;
      RingIsApart(f, u, nx, slobfree, arena);
      var cur := FindGap(b);
      NextOnRing(cur);
      ghost var c := next[cur];
      Touching(f, u, cur, c, b, u[b]);
      Merge(b, cur);
      ghost var right, left := b + u[b] == c, cur + u[cur] == b;
      free := EndBlocks(f, c, b, right, left);
      EndCircular(f, nx, cur, c, b, right, left);
      EndApart(f, u, cur, c, b);
      EndUnitsOf(f, u, cur, c, b, right, left);
      EndKeeps(f, u, cur, c, b, arena);
      RingIsApart(free, units, next, slobfree, arena);
      EndNextKeeps(nx, cur, c, b, right, left);
    }

    /** `slob_free`: the units of the block join the free ones. A size of zero says that the header
        holds the size. */
    method Free(b: int, size: nat)
      requires Valid() && b in live && live[b] == if size != 0 then UnitsFor(size) else units[b]
      modifies this
      ensures Valid() && live == old(live) - {b} && pages == old(pages)
      ensures FreeUnits() == old(FreeUnits()) + Extent(b, old(live)[b]) && Gap(old(free), slobfree, b)
      ensures units.Keys == old(units.Keys)
      ensures Untouched(live.Keys, old(units), units) && Untouched(live.Keys, old(next), next)
    {
      hide OnRing, Partition, Fits, Apart, Circular, UnitsOf, Extent, Gap;
      RingIsApart(free, units, next, slobfree, arena);
      LiveFits(free, units, live, pages, arena, b);
      if size != 0 {
        HeaderOfLive(free, units, next, slobfree, arena, b, UnitsFor(size));
        units := units[b := UnitsFor(size)];
      }
      PartitionFreed(FreeUnits(), live, pages, arena, b);
      ghost var others := live - {b};
      AllLiveOff(free, units, live, pages, arena);
      Return(b);
      live := others;
    }

    /** The writes of `slob_alloc` when it has found the block `cur`. */
    method Cut(prev: int, cur: int, n: int)
      requires prev in next && cur == next[prev] && cur in units && cur in next && n <= units[cur]
      requires n < units[cur] ==> cur != prev
      modifies this`units, this`next, this`slobfree, this`free
      ensures units == TakenUnits(old(units), cur, n) && next == TakenNext(old(units), old(next), prev, cur, n)
      ensures free == TakenBlocks(old(free), old(units), cur, n)
      ensures slobfree == prev
    {
      if units[cur] == n {
        next := next[prev := next[cur]];
        free := free - {cur};
      } else {
        next := next[prev := cur + n];
        units := units[cur + n := units[cur] - n];
        next := next[cur + n := next[cur]];
        units := units[cur := n];
        free := free - {cur} + {cur + n};
      }
      slobfree := prev;
    }

    /** The unlinking half of `slob_alloc`: the first `n` units of `cur` are handed out. */
    method Take(prev: int, cur: int, n: int)
      requires Valid() && prev in free && prev in next && cur == next[prev]
      requires cur in units && 1 <= n <= units[cur]
      modifies this
      ensures pages == old(pages) && live == old(live)[cur := n]
      ensures cur == arena ==> arena !in free
      ensures cur != arena ==>
        && Valid() && Served(cur, n, old(live), live, old(FreeUnits()), FreeUnits(), units, next)
        && Untouched(old(live).Keys, old(units), units) && Untouched(old(live).Keys, old(next), next)
        && Gap(free, slobfree, cur)
    {
      hide OnRing, Partition, Apart, Circular, UnitsOf, Extent, Follows, Gap;
      ghost var f, u, nx, sf := free, units, next, slobfree;
      RingIsApart(f, u, nx, sf, arena);
      FollowsHere(f, u, nx, sf, arena, prev);
      if cur != arena {
        TakeReady(f, u, nx, sf, live, pages, arena, prev, cur, n);
        PartitionTaken(FreeUnits(), live, pages, arena, cur, n);
        TakenRing(f, u, nx, sf, arena, prev, cur, n);
      } else {
        ArenaWhole(f, u, nx, sf, arena);
      }
      Cut(prev, cur, n);
      live := live[cur := n];
    }

    /** The sentinel is one unit long. */
    static lemma ArenaWhole(f: set<int>, u: map<int, int>, nx: map<int, int>, sf: int, a: int)
      requires OnRing(f, u, nx, sf, a)
      ensures a in f && a in u && u[a] == 1
    {
    }

    /** The page just obtained joins the free list; some free block is now a page long. */
    method Grow(page: int) returns (ghost w: int)
      requires Valid()
      requires Extent(page, PAGE_UNITS) !! pages && arena !in Extent(page - 1, PAGE_UNITS + 2)
      modifies this
      ensures Valid() && live == old(live) && pages == old(pages) + Extent(page, PAGE_UNITS)
      ensures FreeUnits() == old(FreeUnits()) + Extent(page, PAGE_UNITS) && Gap(old(free), slobfree, page)
      ensures w in free && w in units && units[w] >= PAGE_UNITS
      ensures Untouched(live.Keys, old(units), units) && Untouched(live.Keys, old(next), next)
    {
      hide OnRing, Partition, Apart, Circular, UnitsOf, Extent, Gap;
      RingIsApart(free, units, next, slobfree, arena);
      GrowReady(free, units, next, slobfree, live, pages, arena, page);
      live := live[page := PAGE_UNITS];
      pages := pages + Extent(page, PAGE_UNITS);
      units := units[page := PAGE_UNITS];
      Free(page, PAGE_SIZE);
      RingIsApart(free, units, next, slobfree, arena);
      w := OneBlock(free, units, page, PAGE_UNITS);
    }

    /** Whether `slob_alloc` is about to hand out the sentinel: a request for one unit takes the block
        after `slobfree`, whatever it is. */
    predicate SentinelNext(n: int)
      reads this
    {
      n == 1 && slobfree in next && next[slobfree] == arena
    }

    /** The search of `slob_alloc`, once round the list from the block after `slobfree`. With a fresh
        page on the list it starts over. */
    method Search(n: int) returns (prev: int, cur: int, found: bool)
      requires Shape() && n >= 1
      ensures prev in free && prev in next && cur == next[prev] && cur in units
      ensures found ==> units[cur] >= n && FirstFit(free, units, slobfree, cur, n)
      ensures !found ==> NoneFits(free, units, n)
      ensures n == 1 ==> found && prev == slobfree
    {
      hide OnRing, Apart, Circular, Arc, Follows;
      RingFacts(free, units, next, slobfree, arena);
      prev, cur, found := slobfree, next[slobfree], false;
      while units[cur] < n
        invariant prev in free && prev in next && cur == next[prev] && cur in free && cur in units
        invariant n == 1 ==> prev == slobfree
        invariant forall x :: x in Passed(free, slobfree, prev) ==> x in free && units[x] < n
        decreases Arc(free, prev, slobfree)
      {
        PassedGrows(free, slobfree, prev, cur);
        if cur == slobfree {
          FullWalk(free, slobfree, prev);
          return;
        }
        ArcShrinks(free, prev, cur, slobfree);
        prev, cur := cur, next[cur];
      }
      PassedGrows(free, slobfree, prev, cur);
      found := true;
    }

    /** The page joins the list and the search starts over; now it finds a block. */
    method Refill(page: int, n: int) returns (prev: int, cur: int)
      requires Valid() && 1 <= n <= PAGE_UNITS
      requires Extent(page, PAGE_UNITS) !! pages && arena !in Extent(page - 1, PAGE_UNITS + 2)
      modifies this
      ensures Valid() && live == old(live) && pages == old(pages) + Extent(page, PAGE_UNITS)
      ensures FreeUnits() == old(FreeUnits()) + Extent(page, PAGE_UNITS)
      ensures prev in free && prev in next && cur == next[prev] && cur in units && units[cur] >= n
      ensures FitsOnceGrown(old(free), FreeUnits(), arena, page, cur, n)
      ensures Untouched(live.Keys, old(units), units) && Untouched(live.Keys, old(next), next)
    {
      hide OnRing, Partition, Apart, Circular, UnitsOf, Extent, Arc, Follows, FirstFit, Gap, FitsOnceGrown, Untouched;
      ghost var w := Grow(page);
      var found;
      prev, cur, found := Search(n);
      assert found;
      RingIsApart(free, units, next, slobfree, arena);
      FitsNow(old(free), FreeUnits(), arena, page, cur, n, free, units, next, slobfree);
    }

    /** `slob_alloc` for `n` units; `page` is what the page source would answer. `grew` says whether
        the page was taken. */
    method Alloc(n: int, page: Option<int>) returns (r: Option<int>, grew: bool)
      requires Valid() && 1 <= n <= PAGE_UNITS
      requires page.Some? ==>
        Extent(page.value, PAGE_UNITS) !! pages && arena !in Extent(page.value - 1, PAGE_UNITS + 2)
      modifies this
      ensures Valid() <==> !old(SentinelNext(n))
      ensures old(SentinelNext(n)) ==> r == Some(arena)
      ensures r.None? <==> page.None? && NoneFits(old(free), old(units), n)
      ensures grew <==> page.Some? && NoneFits(old(free), old(units), n)
      ensures r.None? ==> live == old(live) && pages == old(pages) && FreeUnits() == old(FreeUnits())
      ensures r.None? ==> units == old(units) && next == old(next) && free == old(free) && slobfree == old(slobfree)
      ensures r.Some? && !grew ==> FirstFit(old(free), old(units), old(slobfree), r.value, n)
      ensures r.Some? && !old(SentinelNext(n)) ==>
        && Placed(r.value, n, grew, page, old(free), old(units), old(slobfree), old(FreeUnits()), arena, free, slobfree)
        && Served(r.value, n, old(live), live, old(FreeUnits()) + Added(grew, page), FreeUnits(), units, next)
        && pages == old(pages) + Added(grew, page)
        && Untouched(old(live).Keys, old(units), units) && Untouched(old(live).Keys, old(next), next)
    {
      hide OnRing, Partition, Apart, Circular, UnitsOf, Extent, Arc, Follows, FirstFit, NoneFits, Gap, FitsOnceGrown;
      grew := false;
      var prev, cur, found := Search(n);
      if found {
        FirstFitFits(free, units, slobfree, cur, n);
      } else {
        if page.None? {
          return None, false;
        }
        prev, cur := Refill(page.value, n);
        grew := true;
      }
      RingFacts(free, units, next, slobfree, arena);
      Take(prev, cur, n);
      if cur == arena {
        SentinelNeeded(free, units, next, slobfree, arena);
      }
      return Some(cur), grew;
    }

    /** Live blocks lie in the pages obtained. */
    lemma LiveInPages(b: int)
      requires Valid() && b in live
      ensures live[b] >= 1 && Extent(b, live[b]) <= pages
    {
      hide Circular, Apart;
      ExtentOfLive(live, b);
    }

    /** The owner of a live block writes to its first words. */
    method Overwrite(b: int, word: int, link: int)
      requires Valid() && b in live
      modifies this`units, this`next
      ensures Valid() && FreeUnits() == old(FreeUnits())
      ensures units == old(units)[b := word] && next == old(next)[b := link]
    {
      hide OnRing, Partition, Apart, Circular, UnitsOf, Extent;
      RingIsApart(free, units, next, slobfree, arena);
      AllLiveOff(free, units, live, pages, arena);
      HeaderOfLive(free, units, next, slobfree, arena, b, word);
      LinkOfLive(free, units[b := word], next, slobfree, arena, b, link);
      units := units[b := word];
      next := next[b := link];
      RingIsApart(free, units, next, slobfree, arena);
    }
  }

  // ---------- whole runs ----------

  /** A request for `n` units, with what the page source would answer, or the release of the `k`-th of
      the blocks that are in use. */
  datatype Request = Allocate(n: int, page: Option<int>) | Release(k: nat)

  datatype Block = Block(address: int, units: int)

  /** The blocks in use are the live ones. */
  ghost predicate InUse(blocks: seq<Block>, live: map<int, int>) {
    && (forall k :: 0 <= k < |blocks| ==> blocks[k].address in live && live[blocks[k].address] == blocks[k].units)
    && (forall j, k :: 0 <= j < k < |blocks| ==> blocks[j].address != blocks[k].address)
    && forall b :: b in live ==> exists k :: 0 <= k < |blocks| && blocks[k].address == b
  }

  lemma OneMoreInUse(blocks: seq<Block>, live: map<int, int>, b: int, n: int)
    requires InUse(blocks, live) && b !in live
    ensures InUse(blocks + [Block(b, n)], live[b := n])
  {
    var all, live' := blocks + [Block(b, n)], live[b := n];
    forall a | a in live' ensures exists k :: 0 <= k < |all| && all[k].address == a {
      if a == b {
        assert all[|blocks|].address == a;
      } else {
        var k :| 0 <= k < |blocks| && blocks[k].address == a;
        assert all[k].address == a;
      }
    }
  }

  lemma OneLessInUse(blocks: seq<Block>, live: map<int, int>, i: nat)
    requires InUse(blocks, live) && i < |blocks|
    ensures InUse(Without(blocks, i), live - {blocks[i].address})
  {
    var rest := Without(blocks, i);
    assert forall k :: 0 <= k < |rest| ==> rest[k] == blocks[if k < i then k else k + 1];
    forall a | a in live - {blocks[i].address} ensures exists k :: 0 <= k < |rest| && rest[k].address == a {
      var k :| 0 <= k < |blocks| && blocks[k].address == a;
      assert rest[if k < i then k else k - 1].address == a;
    }
  }

  /** What a request asks of its surroundings: a page that is the page source's to give. */
  ghost predicate Answerable(r: Request, pages: set<int>, arena: int) {
    && (r.Allocate? ==> 2 <= r.n <= PAGE_UNITS)
    && (r.Allocate? && r.page.Some?
        ==> Extent(r.page.value, PAGE_UNITS) !! pages && arena !in Extent(r.page.value - 1, PAGE_UNITS + 2))
  }

  /** Different answers of the page source are different pages. */
  ghost predicate Different(a: Request, b: Request) {
    a.Allocate? && a.page.Some? && b.Allocate? && b.page.Some? ==>
      Extent(a.page.value, PAGE_UNITS) !! Extent(b.page.value, PAGE_UNITS)
  }

  /** The blocks in use once the requests have been answered, a `None` meaning that there was no memory. */
  function Serve(requests: seq<Request>, answers: seq<Option<int>>): seq<Block>
    requires |requests| == |answers|
  {
    if requests == [] then []
    else
      var n := |requests| - 1;
      var blocks := Serve(requests[..n], answers[..n]);
      match requests[n]
      case Allocate(u, _) => if answers[n].Some? then blocks + [Block(answers[n].value, u)] else blocks
      case Release(k) => if k < |blocks| then Without(blocks, k) else blocks
  }

  lemma NothingInUse(requests: seq<Request>)
    ensures InUse([], map[]) && Serve(requests[..0], []) == []
  {
  }

  lemma BlockLive(blocks: seq<Block>, live: map<int, int>, k: nat)
    requires InUse(blocks, live) && k < |blocks|
    ensures blocks[k].address in live && live[blocks[k].address] == blocks[k].units
  {
  }

  lemma ServeMore(requests: seq<Request>, i: nat, answers: seq<Option<int>>, answer: Option<int>)
    requires i < |requests| && |answers| == i
    ensures var blocks := Serve(requests[..i], answers);
      Serve(requests[..i + 1], answers + [answer])
      == match requests[i]
         case Allocate(u, _) => if answer.Some? then blocks + [Block(answer.value, u)] else blocks
         case Release(k) => if k < |blocks| then Without(blocks, k) else blocks
  {
    assert requests[..i + 1][..i] == requests[..i] && (answers + [answer])[..i] == answers;
  }

  /** Over any run, free blocks and blocks in use partition exactly the units of the pages obtained, and
      no block is handed out while it is in use. */
  method Run(h: Heap, requests: seq<Request>) returns (blocks: seq<Block>, answers: seq<Option<int>>)
    requires h.Valid() && h.live == map[]
    requires forall i :: 0 <= i < |requests| ==> Answerable(requests[i], h.pages, h.arena)
    requires forall i, j :: 0 <= i < j < |requests| ==> Different(requests[i], requests[j])
    modifies h
    ensures |answers| == |requests| && blocks == Serve(requests, answers)
    ensures forall i :: 0 <= i < |requests| && requests[i].Allocate? && answers[i].None? ==> requests[i].page.None?
    ensures h.Valid() && InUse(blocks, h.live) && old(h.pages) <= h.pages
    ensures h.FreeUnits() !! UnitsOf(h.live.Keys, h.live)
    ensures h.FreeUnits() + UnitsOf(h.live.Keys, h.live) == h.pages + {h.arena}
  {
    hide OnRing, UnitsOf, Extent, Untouched, FirstFit, NoneFits, FitsOnceGrown, Gap, Placed, Circular, Apart, InUse,
         Serve;
    blocks, answers := [], [];
    NothingInUse(requests);
    for i := 0 to |requests|
      invariant h.Valid() && InUse(blocks, h.live) && old(h.pages) <= h.pages
      invariant |answers| == i && blocks == Serve(requests[..i], answers)
      invariant forall j :: 0 <= j < i && requests[j].Allocate? && answers[j].None? ==> requests[j].page.None?
      invariant forall j :: i <= j < |requests| ==> Answerable(requests[j], h.pages, h.arena)
    {
      var answer := None;
      match requests[i] {
        case Allocate(n, page) =>
          ghost var live, pages := h.live, h.pages;
          var r, grew := h.Alloc(n, page);
          forall j | i < j < |requests| ensures Answerable(requests[j], h.pages, h.arena) {
            assert Different(requests[i], requests[j]) && Answerable(requests[j], pages, h.arena);
          }
          if r.Some? {
            OneMoreInUse(blocks, live, r.value, n);
            blocks := blocks + [Block(r.value, n)];
          }
          answer := r;
        case Release(k) =>
          if k < |blocks| {
            BlockLive(blocks, h.live, k);
            h.LiveInPages(blocks[k].address);
            SizeInBytes(blocks[k].units);
            OneLessInUse(blocks, h.live, k);
            h.Free(blocks[k].address, blocks[k].units * SLOB_UNIT);
            blocks := Without(blocks, k);
          }
      }
      ServeMore(requests, i, answers, answer);
      answers := answers + [answer];
    }
    assert requests[..|requests|] == requests;
  }

  lemma SizeInBytes(n: int)
    requires n >= 1
    ensures n * SLOB_UNIT > 0 && UnitsFor(n * SLOB_UNIT) == n
  {
  }
}
