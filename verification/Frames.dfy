/** Physical frames under the page tables of lab3: the pages that name each frame and its reference
    count, the swap entries of pages that were evicted, and the contents that pages have. */
module Frames {
  import opened Sv39
  import opened PageTables

  // ---------- reference counts ----------

  /** `names` lists, for each frame, the pages whose valid entries name it. */
  ghost predicate Named(pte: map<int, int>, names: map<int, set<int>>) {
    && (forall v :: v in pte && Present(pte[v]) ==> FrameOf(pte[v]) in names && v in names[FrameOf(pte[v])])
    && (forall f, v :: f in names && v in names[f] ==> v in pte && Present(pte[v]) && FrameOf(pte[v]) == f)
  }

  /** A frame's count is the number of valid entries that name it; free frames have none; a table
      below the root counts one. Frames that hold tables are named by no page. */
  ghost predicate Counted(frames: set<int>, t: Tables, names: map<int, set<int>>, ref: map<int, int>, free: set<int>) {
    && names.Keys == frames - t.role.Keys && frames <= ref.Keys && free <= names.Keys
    && Named(t.pte, names)
    && (forall f :: f in frames ==> f >= 0)
    && (forall f :: f in names ==> ref[f] == |names[f]|)
    && (forall f :: f in t.role && f in frames && f != t.root ==> ref[f] == 1)
    && (forall f :: f in free ==> names[f] == {})
  }

  lemma FrameTaken(frames: set<int>, t: Tables, names: map<int, set<int>>, ref: map<int, int>, free: set<int>, f: int)
    requires Counted(frames, t, names, ref, free)
    ensures Counted(frames, t, names, ref, free - {f})
  {
  }

  /** free_pages resets the count. */
  lemma FrameFreed(frames: set<int>, t: Tables, names: map<int, set<int>>, ref: map<int, int>, free: set<int>, f: int)
    requires Counted(frames, t, names, ref, free) && f in names && names[f] == {}
    ensures Counted(frames, t, names, ref[f := 0], free + {f})
  {
  }

  /** A frame becomes a table: set_page_ref(page, 1). */
  lemma DirectoryCounted(frames: set<int>, t: Tables, names: map<int, set<int>>, ref: map<int, int>, free: set<int>,
                         i: int, f: int)
    requires Counted(frames, t, names, ref, free) && f in names && names[f] == {} && f !in free
    ensures Counted(frames, WithDirectory(t, i, f), names - {f}, ref[f := 1], free)
  {
  }

  lemma LeavesCounted(frames: set<int>, t: Tables, names: map<int, set<int>>, ref: map<int, int>, free: set<int>,
                      k: int, f: int)
    requires Counted(frames, t, names, ref, free) && f in names && names[f] == {} && f !in free
    requires k !in t.leaves && forall v :: v in t.pte ==> v / 512 in t.leaves
    ensures Counted(frames, WithLeaves(t, k, f), names - {f}, ref[f := 1], free)
  {
    hide FrameOf, WithLeaves, Named;
    LeavesEntries(t, k, f);
    LeavesNamed(t.pte, WithLeaves(t, k, f).pte, names, f);
  }

  lemma LeavesNamed(pte: map<int, int>, pte': map<int, int>, names: map<int, set<int>>, f: int)
    requires Named(pte, names) && (f in names ==> names[f] == {})
    requires forall v :: v in pte ==> v in pte' && pte'[v] == pte[v]
    requires forall v :: v in pte' ==> v in pte || pte'[v] == 0
    ensures Named(pte', names - {f})
  {
    hide FrameOf;
  }

  /** page_ref_inc and a new entry for the frame. */
  lemma PageMapped(frames: set<int>, t: Tables, names: map<int, set<int>>, ref: map<int, int>, free: set<int>,
                   v: int, f: int, kind: int)
    requires Counted(frames, t, names, ref, free) && f in names && f !in free
    requires v in t.pte && !Present(t.pte[v]) && 0 <= kind < 1024
    ensures Counted(frames, t.(pte := t.pte[v := PteCreate(f, kind)]), names[f := names[f] + {v}],
                    ref[f := ref[f] + 1], free)
  {
    hide FrameOf, PteCreate;
    PteRoundTrip(f, kind);
    assert v !in names[f];
  }

  /** Another entry for the same frame. */
  lemma PageRemapped(frames: set<int>, t: Tables, names: map<int, set<int>>, ref: map<int, int>, free: set<int>,
                     v: int, kind: int)
    requires Counted(frames, t, names, ref, free) && v in t.pte && Present(t.pte[v]) && 0 <= kind < 1024
    ensures Counted(frames, t.(pte := t.pte[v := PteCreate(FrameOf(t.pte[v]), kind)]), names, ref, free)
  {
    hide FrameOf, PteCreate;
    PteRoundTrip(FrameOf(t.pte[v]), kind);
  }

  /** An entry that was valid is no more: page_ref_dec. */
  lemma PageUnmapped(frames: set<int>, t: Tables, names: map<int, set<int>>, ref: map<int, int>, free: set<int>,
                     v: int, w: int)
    requires Counted(frames, t, names, ref, free) && v in t.pte && Present(t.pte[v]) && !Present(w)
    ensures var f := FrameOf(t.pte[v]);
      && f in names && v in names[f] && f in ref && f !in t.role && f !in free
      && Counted(frames, t.(pte := t.pte[v := w]), names[f := names[f] - {v}], ref[f := ref[f] - 1], free)
      && (ref[f] == 1 <==> names[f] == {v})
  {
    hide FrameOf;
    var f := FrameOf(t.pte[v]);
    assert v in names[f];
    assert |names[f] - {v}| == |names[f]| - 1;
    if ref[f] == 1 {
      assert names[f] - {v} == {};
    }
  }

  // ---------- swapping ----------

  /** Pages on the clock list belong to one entry each; other entries that are not valid are empty or
      the swap entry of their page. */
  ghost predicate Backed(pte: map<int, int>, names: map<int, set<int>>, free: set<int>, disk: map<int, seq<int>>,
                         ring: set<int>, vaddr: map<int, int>, maxSwapOffset: int)
  {
    && (forall f :: f in ring ==> Swappable(f, names, free, vaddr, maxSwapOffset))
    && (forall v :: v in pte && !Present(pte[v]) && pte[v] != 0 ==> InSlot(v, pte[v], disk, maxSwapOffset))
    && (forall s :: s in disk ==> |disk[s]| == ENTRIES)
  }

  ghost predicate Swappable(f: int, names: map<int, set<int>>, free: set<int>, vaddr: map<int, int>, maxSwapOffset: int) {
    && f in names && f !in free && f in vaddr && vaddr[f] >= 0 && PgOff(vaddr[f]) == 0
    && Vpn(vaddr[f]) + 1 < maxSwapOffset && names[f] == {Vpn(vaddr[f])}
  }

  ghost predicate InSlot(v: int, entry: int, disk: map<int, seq<int>>, maxSwapOffset: int) {
    entry == SwapEntry(v * PAGE_SIZE) && v + 1 in disk && v + 1 < maxSwapOffset
  }

  // ---------- contents ----------

  /** What page `v` holds: the frame of its valid entry, or the slot of its swap entry. */
  function Content(v: int, entry: int, mem: map<int, seq<int>>, disk: map<int, seq<int>>): seq<int> {
    if Present(entry) then (if FrameOf(entry) in mem then mem[FrameOf(entry)] else [])
    else if SwapOffset(entry) in disk then disk[SwapOffset(entry)] else []
  }

  /** The flat memory: the contents of the pages that were touched. */
  ghost predicate Shown(pte: map<int, int>, mem: map<int, seq<int>>, disk: map<int, seq<int>>, flat: map<int, seq<int>>) {
    && (forall v :: v in flat <==> v in pte && pte[v] != 0)
    && (forall v :: v in flat ==> flat[v] == Content(v, pte[v], mem, disk))
  }

  /** Pages that no valid entry names may change. */
  lemma UnnamedWritten(pte: map<int, int>, mem: map<int, seq<int>>, disk: map<int, seq<int>>, flat: map<int, seq<int>>,
                       names: map<int, set<int>>, f: int, page: seq<int>)
    requires Shown(pte, mem, disk, flat) && Named(pte, names) && (f in names ==> names[f] == {})
    ensures Shown(pte, mem[f := page], disk, flat)
  {
    hide FrameOf;
    forall v | v in flat ensures flat[v] == Content(v, pte[v], mem[f := page], disk) {
      assert Present(pte[v]) ==> FrameOf(pte[v]) in names && v in names[FrameOf(pte[v])];
    }
  }

  /** A new third-level table shows nothing new. */
  lemma LeavesShown(t: Tables, mem: map<int, seq<int>>, disk: map<int, seq<int>>, flat: map<int, seq<int>>,
                    k: int, f: int)
    requires Shown(t.pte, mem, disk, flat) && k !in t.leaves && forall v :: v in t.pte ==> v / 512 in t.leaves
    ensures Shown(WithLeaves(t, k, f).pte, mem, disk, flat)
  {
    hide FrameOf, Content, WithLeaves;
    LeavesEntries(t, k, f);
  }

  lemma LeavesBacked(t: Tables, names: map<int, set<int>>, free: set<int>, disk: map<int, seq<int>>, ring: set<int>,
                     vaddr: map<int, int>, maxSwapOffset: int, k: int, f: int)
    requires Backed(t.pte, names, free, disk, ring, vaddr, maxSwapOffset) && f in names && names[f] == {}
    requires k !in t.leaves && forall v :: v in t.pte ==> v / 512 in t.leaves
    ensures Backed(WithLeaves(t, k, f).pte, names - {f}, free, disk, ring, vaddr, maxSwapOffset)
    ensures Backed(t.pte, names - {f}, free, disk, ring, vaddr, maxSwapOffset)
  {
    hide Vpn, SwapEntry, PgOff, WithLeaves;
    LeavesEntries(t, k, f);
    forall x | x in ring ensures Swappable(x, names - {f}, free, vaddr, maxSwapOffset) {
      assert Swappable(x, names, free, vaddr, maxSwapOffset);
    }
  }

  // ---------- eviction ----------

  /** The page a frame on the clock list belongs to is valid and names it. */
  lemma VictimMapped(frames: set<int>, t: Tables, names: map<int, set<int>>, ref: map<int, int>, free: set<int>,
                     vaddr: map<int, int>, maxSwapOffset: int, f: int)
    requires Counted(frames, t, names, ref, free) && Swappable(f, names, free, vaddr, maxSwapOffset)
    ensures var v := Vpn(vaddr[f]);
      v in t.pte && Present(t.pte[v]) && FrameOf(t.pte[v]) == f && vaddr[f] == v * PAGE_SIZE && f !in t.role
  {
    hide FrameOf;
    assert Vpn(vaddr[f]) in names[f];
  }

  lemma EvictedCounted(frames: set<int>, t: Tables, names: map<int, set<int>>, ref: map<int, int>, free: set<int>,
                       vaddr: map<int, int>, maxSwapOffset: int, f: int, w: int)
    requires Counted(frames, t, names, ref, free) && Swappable(f, names, free, vaddr, maxSwapOffset) && !Present(w)
    ensures Counted(frames, t.(pte := t.pte[Vpn(vaddr[f]) := w]), names[f := {}], ref[f := 0], free + {f})
  {
    hide FrameOf, Counted, Vpn;
    VictimMapped(frames, t, names, ref, free, vaddr, maxSwapOffset, f);
    var v := Vpn(vaddr[f]);
    PageUnmapped(frames, t, names, ref, free, v, w);
    var t', names', ref' := t.(pte := t.pte[v := w]), names[f := names[f] - {v}], ref[f := ref[f] - 1];
    FrameFreed(frames, t', names', ref', free, f);
    assert names' == names[f := {}] && ref'[f := 0] == ref[f := 0];
  }

  lemma EvictedBacked(pte: map<int, int>, names: map<int, set<int>>, free: set<int>, disk: map<int, seq<int>>,
                      ring: set<int>, vaddr: map<int, int>, maxSwapOffset: int, f: int, page: seq<int>)
    requires Backed(pte, names, free, disk, ring, vaddr, maxSwapOffset) && f in ring && |page| == ENTRIES
    ensures var v := Vpn(vaddr[f]);
      Backed(pte[v := SwapEntry(vaddr[f])], names[f := {}], free + {f}, disk[v + 1 := page], ring - {f}, vaddr,
             maxSwapOffset)
  {
    hide SwapEntry;
    assert Swappable(f, names, free, vaddr, maxSwapOffset);
    var v := Vpn(vaddr[f]);
    assert vaddr[f] == v * PAGE_SIZE;
    forall x | x in ring - {f} ensures Swappable(x, names[f := {}], free + {f}, vaddr, maxSwapOffset) {
      assert Swappable(x, names, free, vaddr, maxSwapOffset);
    }
    var pte', disk' := pte[v := SwapEntry(vaddr[f])], disk[v + 1 := page];
    forall x | x in pte' && !Present(pte'[x]) && pte'[x] != 0 ensures InSlot(x, pte'[x], disk', maxSwapOffset) {
      if x != v { assert InSlot(x, pte[x], disk, maxSwapOffset); }
    }
  }

  lemma EvictedShown(pte: map<int, int>, names: map<int, set<int>>, free: set<int>, mem: map<int, seq<int>>,
                     disk: map<int, seq<int>>, flat: map<int, seq<int>>, ring: set<int>, vaddr: map<int, int>,
                     maxSwapOffset: int, f: int)
    requires Backed(pte, names, free, disk, ring, vaddr, maxSwapOffset) && Shown(pte, mem, disk, flat) && f in ring
    requires f in mem && Vpn(vaddr[f]) in pte && Present(pte[Vpn(vaddr[f])]) && FrameOf(pte[Vpn(vaddr[f])]) == f
    requires maxSwapOffset <= MAX_SWAP_OFFSET_LIMIT
    ensures var v := Vpn(vaddr[f]);
      Shown(pte[v := SwapEntry(vaddr[f])], mem, disk[v + 1 := mem[f]], flat)
  {
    hide SwapEntry, FrameOf, SwapOffset, Vpn, PgOff;
    assert Swappable(f, names, free, vaddr, maxSwapOffset);
    var v := Vpn(vaddr[f]);
    SwapEntryRoundTrip(vaddr[f], maxSwapOffset);
    var pte', disk' := pte[v := SwapEntry(vaddr[f])], disk[v + 1 := mem[f]];
    assert pte[v] != 0;
    forall x | x in flat ensures flat[x] == Content(x, pte'[x], mem, disk') {
      if x != v && !Present(pte[x]) {
        assert InSlot(x, pte[x], disk, maxSwapOffset);
        SlotOfPage(x, maxSwapOffset);
      }
    }
  }

  lemma SlotOfPage(v: int, maxSwapOffset: int)
    requires maxSwapOffset <= MAX_SWAP_OFFSET_LIMIT
    ensures SwapOffset(SwapEntry(v * PAGE_SIZE)) == v + 1 && Vpn(v * PAGE_SIZE) == v
    ensures v >= 0 && v + 1 < maxSwapOffset ==> ValidOffset(SwapEntry(v * PAGE_SIZE), maxSwapOffset)
  {
  }

  // ---------- mapping ----------

  /** A frame off the clock list is named anew, a page gets a valid or empty entry. */
  lemma BackedElsewhere(pte: map<int, int>, names: map<int, set<int>>, free: set<int>, disk: map<int, seq<int>>,
                        ring: set<int>, vaddr: map<int, int>, maxSwapOffset: int, v: int, w: int, p: int, s: set<int>)
    requires Backed(pte, names, free, disk, ring, vaddr, maxSwapOffset) && p !in ring && (Present(w) || w == 0)
    ensures Backed(pte[v := w], names[p := s], free, disk, ring, vaddr, maxSwapOffset)
    ensures Backed(pte[v := w], names, free, disk, ring, vaddr, maxSwapOffset)
    ensures Backed(pte[v := w], names[p := s], free + {p}, disk, ring, vaddr, maxSwapOffset)
  {
    hide SwapEntry, Vpn, PgOff;
    forall x | x in ring
      ensures Swappable(x, names[p := s], free + {p}, vaddr, maxSwapOffset)
        && Swappable(x, names[p := s], free, vaddr, maxSwapOffset)
    {
      assert Swappable(x, names, free, vaddr, maxSwapOffset);
    }
    var pte' := pte[v := w];
    forall x | x in pte' && !Present(pte'[x]) && pte'[x] != 0 ensures InSlot(x, pte'[x], disk, maxSwapOffset) {
      assert InSlot(x, pte[x], disk, maxSwapOffset);
    }
  }

  /** A page's new entry shows what it leads to, and nothing else changes. */
  lemma EntryShown(pte: map<int, int>, mem: map<int, seq<int>>, disk: map<int, seq<int>>, flat: map<int, seq<int>>,
                   v: int, w: int)
    requires Shown(pte, mem, disk, flat) && v in pte
    ensures w != 0 ==> Shown(pte[v := w], mem, disk, flat[v := Content(v, w, mem, disk)])
    ensures w == 0 ==> Shown(pte[v := w], mem, disk, flat - {v})
  {
    hide Content;
  }

  /** A page joins the clock list. */
  lemma RingJoined(pte: map<int, int>, names: map<int, set<int>>, free: set<int>, disk: map<int, seq<int>>,
                   ring: set<int>, vaddr: map<int, int>, maxSwapOffset: int, f: int, v: int)
    requires Backed(pte, names, free, disk, ring, vaddr, maxSwapOffset) && f !in ring
    requires f in names && names[f] == {v} && f !in free && 0 <= v && v + 1 < maxSwapOffset
    ensures Backed(pte, names, free, disk, ring + {f}, vaddr[f := v * PAGE_SIZE], maxSwapOffset)
  {
    forall x | x in ring ensures Swappable(x, names, free, vaddr[f := v * PAGE_SIZE], maxSwapOffset) {
      assert Swappable(x, names, free, vaddr, maxSwapOffset);
    }
  }

  /** A store to a page that has its frame for itself. */
  lemma Stored(pte: map<int, int>, mem: map<int, seq<int>>, disk: map<int, seq<int>>, flat: map<int, seq<int>>,
               names: map<int, set<int>>, v: int, page: seq<int>)
    requires Shown(pte, mem, disk, flat) && Named(pte, names) && v in pte && Present(pte[v]) && pte[v] != 0
    requires names[FrameOf(pte[v])] == {v} && FrameOf(pte[v]) in mem
    ensures Shown(pte, mem[FrameOf(pte[v]) := page], disk, flat[v := page])
  {
    hide FrameOf;
    var f := FrameOf(pte[v]);
    forall x | x in flat && x != v ensures flat[x] == Content(x, pte[x], mem[f := page], disk) {
      assert Present(pte[x]) ==> FrameOf(pte[x]) in names && x in names[FrameOf(pte[x])];
    }
  }
}
