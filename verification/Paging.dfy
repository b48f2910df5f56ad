/** Demand paging (lab3/kern/mm: pmm.c, swap.c, vmm.c) for one address space. The source of frames
    is a set of free ones, the swap disk a map from slots to pages. */
module Paging {
  import opened Options
  import opened Seqs
  import opened Sv39
  import opened PageTables
  import opened Frames
  import opened Vma
  import opened Sets
  import C = Clock

  /** A pointer to a word of a table. */
  datatype Slot = Slot(frame: int, index: int)

  /** The state that contracts compare: tables, names of frames, memory, free frames, the pages on the
      clock list, and the flat memory. */
  datatype Snapshot = Snapshot(t: Tables, names: map<int, set<int>>, mem: map<int, seq<int>>, free: set<int>,
                               ring: set<int>, flat: map<int, seq<int>>)

  /** The entry of a page is as it was, its frame still on the clock list if it was; or the page was
      evicted. */
  ghost predicate EntryKept(s: Snapshot, s': Snapshot, v: int) {
    var e, e' := Entry(s.t, v), Entry(s'.t, v);
    || (e' == e && (Present(e) && FrameOf(e) in s.ring ==> FrameOf(e) in s'.ring))
    || (Present(e) && e' == SwapEntry(v * PAGE_SIZE))
  }

  /** A frame that is neither free nor on the clock list nor a table: somebody holds it. */
  ghost predicate Holding(s: Snapshot, f: int) {
    f in s.names && f !in s.free && f !in s.ring
  }

  /** Tables are created and never removed. */
  ghost predicate MoreTables(t: Tables, t': Tables) {
    (forall i :: i in t.dirs ==> i in t'.dirs) && (forall k :: k in t.leaves ==> k in t'.leaves)
  }

  /** Whether the tables on the way to the entry of page `v` are there. */
  ghost predicate HasTables(t: Tables, v: int) {
    v / 512 / 512 in t.dirs && v / 512 in t.leaves
  }

  /** What allocating frames may do: pages are evicted, but every page still shows the same; frames
      that somebody holds, `but` excepted, are left alone. */
  ghost predicate KeptBut(s: Snapshot, s': Snapshot, but: Option<int>) {
    && s'.flat == s.flat && s'.t.root == s.t.root && s'.mem.Keys == s.mem.Keys
    && (forall v :: v in s.t.pte ==> v in s'.t.pte) && (forall v :: EntryKept(s, s', v))
    && MoreTables(s.t, s'.t)
    && s'.ring <= s.ring
    && forall f :: Holding(s, f) && f in s.mem && but != Some(f) ==> Same(s, s', f)
  }

  ghost predicate Same(s: Snapshot, s': Snapshot, f: int) {
    Holding(s', f) && f in s.names && s'.names[f] == s.names[f] && f in s.mem && f in s'.mem && s'.mem[f] == s.mem[f]
  }

  ghost predicate Kept(s: Snapshot, s': Snapshot) {
    KeptBut(s, s', None)
  }

  /** Nobody holds a frame that was not held before, `but` excepted. */
  ghost predicate NoneHeld(s: Snapshot, s': Snapshot, but: Option<int>) {
    forall f :: Holding(s', f) && but != Some(f) ==> Holding(s, f)
  }

  lemma NoneHeldRefl(s: Snapshot)
    ensures NoneHeld(s, s, None)
  {
  }

  lemma NoneHeldAfter(a: Snapshot, b: Snapshot, c: Snapshot, but: Option<int>)
    requires NoneHeld(a, b, None) && NoneHeld(b, c, but)
    ensures NoneHeld(a, c, but)
  {
  }

  /** The one frame that was newly held has become a table. */
  lemma NoneHeldNow(a: Snapshot, b: Snapshot, c: Snapshot, f: int)
    requires NoneHeld(a, b, Some(f)) && c.names == b.names - {f} && c.free == b.free && c.ring == b.ring
    ensures NoneHeld(a, c, None)
  {
  }

  lemma KeptTransitive(a: Snapshot, b: Snapshot, c: Snapshot)
    requires Kept(a, b) && Kept(b, c)
    ensures Kept(a, c)
  {
    KeptAfter(a, b, c, None);
  }

  lemma KeptAfter(a: Snapshot, b: Snapshot, c: Snapshot, but: Option<int>)
    requires Kept(a, b) && KeptBut(b, c, but) && (but.Some? ==> !Holding(a, but.value))
    ensures Kept(a, c)
  {
    hide SwapEntry;
    forall v ensures EntryKept(a, c, v) {
      assert EntryKept(a, b, v) && EntryKept(b, c, v);
    }
    forall f | Holding(a, f) && f in a.mem ensures Same(a, c, f) {
      assert Same(a, b, f);
      assert Same(b, c, f);
    }
  }

  lemma KeptRefl(s: Snapshot)
    ensures Kept(s, s)
  {
  }

  ghost predicate Paged(mem: map<int, seq<int>>) {
    forall f :: f in mem ==> |mem[f]| == ENTRIES
  }

  /** The pointer leads to the word with the entry of page `v`. */
  ghost predicate Points(slot: Slot, t: Tables, mem: map<int, seq<int>>, v: int) {
    && v in t.pte && v / 512 in t.leaves && slot == Slot(t.leaves[v / 512], v % 512)
    && slot.frame in mem && |mem[slot.frame]| == ENTRIES && mem[slot.frame][slot.index] == t.pte[v]
  }

  /** Everything that holds between operations, on values. */
  ghost predicate Sound(s: Snapshot, ref: map<int, int>, vaddr: map<int, int>, disk: map<int, seq<int>>, max: int) {
    && max < MAX_SWAP_OFFSET_LIMIT && Tabled(s.mem, s.t) && Counted(s.mem.Keys, s.t, s.names, ref, s.free)
    && Backed(s.t.pte, s.names, s.free, disk, s.ring, vaddr, max) && Shown(s.t.pte, s.mem, disk, s.flat) && Paged(s.mem)
  }

  lemma VictimReady(s: Snapshot, ref: map<int, int>, vaddr: map<int, int>, disk: map<int, seq<int>>, max: int, f: int)
    requires Sound(s, ref, vaddr, disk, max) && f in s.ring
    ensures f in vaddr && f in s.mem && f !in s.free && f !in s.t.role && |s.mem[f]| == ENTRIES
    ensures 0 <= vaddr[f] < LOWER_HALF && Vpn(vaddr[f]) in s.t.pte && Present(s.t.pte[Vpn(vaddr[f])])
    ensures vaddr[f] == Vpn(vaddr[f]) * PAGE_SIZE
    ensures SwapOffset(SwapEntry(vaddr[f])) == Vpn(vaddr[f]) + 1 && ValidOffset(SwapEntry(vaddr[f]), max)
  {
    hide FrameOf, Tabled, Shown, Named;
    assert Swappable(f, s.names, s.free, vaddr, max);
    VictimMapped(s.mem.Keys, s.t, s.names, ref, s.free, vaddr, max, f);
    SwapEntryRoundTrip(vaddr[f], max);
  }

  lemma SoundTables(s: Snapshot, ref: map<int, int>, vaddr: map<int, int>, disk: map<int, seq<int>>, max: int)
    requires Sound(s, ref, vaddr, disk, max)
    ensures Tabled(s.mem, s.t) && s.free <= s.names.Keys && s.names.Keys <= s.mem.Keys && Paged(s.mem)
    ensures s.t.role.Keys !! s.names.Keys && s.mem.Keys <= ref.Keys
    ensures forall f :: f in s.ring ==> f in s.names && f !in s.free
  {
    hide Tabled, Shown, Named;
    forall f | f in s.ring ensures f in s.names && f !in s.free {
      BackedMember(s, disk, vaddr, max, f);
    }
  }

  lemma BackedMember(s: Snapshot, disk: map<int, seq<int>>, vaddr: map<int, int>, max: int, f: int)
    requires Backed(s.t.pte, s.names, s.free, disk, s.ring, vaddr, max) && f in s.ring
    ensures Swappable(f, s.names, s.free, vaddr, max)
  {
  }

  lemma CountedFacts(frames: set<int>, t: Tables, names: map<int, set<int>>, ref: map<int, int>, free: set<int>)
    requires Counted(frames, t, names, ref, free)
    ensures Named(t.pte, names) && names.Keys == frames - t.role.Keys && free <= names.Keys
    ensures frames <= ref.Keys && forall f :: f in free ==> names[f] == {}
  {
  }

  /** The state after the eviction of `f`. */
  ghost function AfterEviction(s: Snapshot, va: int, f: int): Snapshot {
    var v := Vpn(va);
    Snapshot(s.t.(pte := s.t.pte[v := SwapEntry(va)]), s.names[f := {}], WithWord(s, v, SwapEntry(va)),
             s.free + {f}, s.ring - {f}, s.flat)
  }

  lemma Evicted(s: Snapshot, ref: map<int, int>, vaddr: map<int, int>, disk: map<int, seq<int>>, max: int, f: int)
    requires Sound(s, ref, vaddr, disk, max) && f in s.ring && f in vaddr && f in s.mem
    requires Vpn(vaddr[f]) in s.t.pte && Vpn(vaddr[f]) / 512 in s.t.leaves
    requires s.t.leaves[Vpn(vaddr[f]) / 512] in s.mem && |s.mem[s.t.leaves[Vpn(vaddr[f]) / 512]]| == ENTRIES
    ensures Sound(AfterEviction(s, vaddr[f], f), ref[f := 0], vaddr, disk[Vpn(vaddr[f]) + 1 := s.mem[f]], max)
    ensures Kept(s, AfterEviction(s, vaddr[f], f))
  {
    hide FrameOf, Tabled, Shown, Named, Backed, SwapEntry, Counted, Vpn;
    var v, l := Vpn(vaddr[f]), s.t.leaves[Vpn(vaddr[f]) / 512];
    VictimReady(s, ref, vaddr, disk, max, f);
    SwapEntryRoundTrip(vaddr[f], max);
    assert Swappable(f, s.names, s.free, vaddr, max) by { BackedMember(s, disk, vaddr, max, f); }
    VictimMapped(s.mem.Keys, s.t, s.names, ref, s.free, vaddr, max, f);
    EntryWritten(s.mem, s.t, v, SwapEntry(vaddr[f]));
    EvictedCounted(s.mem.Keys, s.t, s.names, ref, s.free, vaddr, max, f, SwapEntry(vaddr[f]));
    EvictedBacked(s.t.pte, s.names, s.free, disk, s.ring, vaddr, max, f, s.mem[f]);
    EvictedShown(s.t.pte, s.names, s.free, s.mem, disk, s.flat, s.ring, vaddr, max, f);
    var s' := AfterEviction(s, vaddr[f], f);
    assert s'.mem.Keys == s.mem.Keys;
    CountedFacts(s.mem.Keys, s'.t, s'.names, ref[f := 0], s'.free);
    UnnamedWritten(s'.t.pte, s.mem, disk[v + 1 := s.mem[f]], s.flat, s'.names, l, s'.mem[l]);
  }

  lemma EvictedHeld(s: Snapshot, va: int, f: int)
    requires f in s.names
    ensures NoneHeld(s, AfterEviction(s, va, f), None)
  {
  }

  // ---------- taking frames ----------

  lemma Taken(s: Snapshot, ref: map<int, int>, vaddr: map<int, int>, disk: map<int, seq<int>>, max: int, f: int)
    requires Sound(s, ref, vaddr, disk, max) && f in s.free
    ensures Sound(s.(free := s.free - {f}), ref, vaddr, disk, max) && Kept(s, s.(free := s.free - {f}))
    ensures Holding(s.(free := s.free - {f}), f) && s.names[f] == {} && f in s.mem && !Holding(s, f)
  {
    hide Tabled, Shown, Named, Vpn;
    FrameTaken(s.mem.Keys, s.t, s.names, ref, s.free, f);
    SoundTables(s, ref, vaddr, disk, max);
    forall x | x in s.ring ensures Swappable(x, s.names, s.free - {f}, vaddr, max) {
      BackedMember(s, disk, vaddr, max, x);
    }
  }

  lemma TakenHeld(s: Snapshot, f: int)
    ensures NoneHeld(s, s.(free := s.free - {f}), Some(f))
  {
  }

  ghost function AfterDirectory(s: Snapshot, i: int, f: int): Snapshot
    requires s.t.root in s.mem && |s.mem[s.t.root]| == ENTRIES && 0 <= i < 256
  {
    Snapshot(WithDirectory(s.t, i, f), s.names - {f},
             s.mem[f := Zeros(ENTRIES)][s.t.root := s.mem[s.t.root][i := Pointer(f)]], s.free, s.ring, s.flat)
  }

  lemma DirectorySound(s: Snapshot, ref: map<int, int>, vaddr: map<int, int>, disk: map<int, seq<int>>, max: int,
                       i: int, f: int)
    requires Sound(s, ref, vaddr, disk, max) && 0 <= i < 256 && i !in s.t.dirs
    requires Holding(s, f) && s.names[f] == {} && s.t.root in s.mem && |s.mem[s.t.root]| == ENTRIES
    ensures Sound(AfterDirectory(s, i, f), ref[f := 1], vaddr, disk, max)
    ensures KeptBut(s, AfterDirectory(s, i, f), Some(f))
  {
    hide Tabled, Shown, Named, Vpn, Pointer, Zeros;
    var s' := AfterDirectory(s, i, f);
    SoundTables(s, ref, vaddr, disk, max);
    RootIsTable(s.mem, s.t);
    assert f >= 0;
    DirectoryAdded(s.mem, s.t, i, f);
    DirectoryCounted(s.mem.Keys, s.t, s.names, ref, s.free, i, f);
    assert s'.mem.Keys == s.mem.Keys;
    forall x | x in s.ring ensures Swappable(x, s'.names, s.free, vaddr, max) {
      BackedMember(s, disk, vaddr, max, x);
    }
    UnnamedWritten(s.t.pte, s.mem, disk, s.flat, s.names, f, Zeros(ENTRIES));
    UnnamedWritten(s.t.pte, s.mem[f := Zeros(ENTRIES)], disk, s.flat, s.names, s.t.root, s'.mem[s.t.root]);
    ZerosPage();
  }

  lemma ZerosPage()
    ensures |Zeros(ENTRIES)| == ENTRIES
  {
  }

  lemma RootIsTable(mem: map<int, seq<int>>, t: Tables)
    requires Tabled(mem, t)
    ensures t.root in t.role && t.root in mem && |mem[t.root]| == ENTRIES
    ensures forall k :: k in t.dirs ==> t.dirs[k] in t.role && t.dirs[k] in mem && |mem[t.dirs[k]]| == ENTRIES
    ensures forall v :: v in t.pte ==> v / 512 in t.leaves
  {
    forall k | k in t.dirs ensures |mem[t.dirs[k]]| == ENTRIES {
      assert DirectoryHolds(mem[t.dirs[k]], k, t.leaves);
    }
  }

  ghost function AfterLeaves(s: Snapshot, k: int, f: int): Snapshot
    requires k / 512 in s.t.dirs && s.t.dirs[k / 512] in s.mem && |s.mem[s.t.dirs[k / 512]]| == ENTRIES
  {
    var d := s.t.dirs[k / 512];
    Snapshot(WithLeaves(s.t, k, f), s.names - {f}, s.mem[f := Zeros(ENTRIES)][d := s.mem[d][k % 512 := Pointer(f)]],
             s.free, s.ring, s.flat)
  }

  lemma LeavesSound(s: Snapshot, ref: map<int, int>, vaddr: map<int, int>, disk: map<int, seq<int>>, max: int,
                    k: int, f: int)
    requires Sound(s, ref, vaddr, disk, max) && 0 <= k && k !in s.t.leaves && Holding(s, f) && s.names[f] == {}
    requires k / 512 in s.t.dirs && s.t.dirs[k / 512] in s.mem && |s.mem[s.t.dirs[k / 512]]| == ENTRIES
    ensures Sound(AfterLeaves(s, k, f), ref[f := 1], vaddr, disk, max)
    ensures KeptBut(s, AfterLeaves(s, k, f), Some(f))
  {
    hide Tabled, Shown, Named, Vpn, Pointer, Zeros, Backed, WithLeaves;
    var s', d := AfterLeaves(s, k, f), s.t.dirs[k / 512];
    SoundTables(s, ref, vaddr, disk, max);
    RootIsTable(s.mem, s.t);
    assert f >= 0;
    LeavesAdded(s.mem, s.t, k, f);
    LeavesCounted(s.mem.Keys, s.t, s.names, ref, s.free, k, f);
    assert s'.mem.Keys == s.mem.Keys;
    LeavesBacked(s.t, s.names, s.free, disk, s.ring, vaddr, max, k, f);
    UnnamedWritten(s.t.pte, s.mem, disk, s.flat, s.names, f, Zeros(ENTRIES));
    UnnamedWritten(s.t.pte, s.mem[f := Zeros(ENTRIES)], disk, s.flat, s.names, d, s'.mem[d]);
    LeavesShown(s.t, s'.mem, disk, s.flat, k, f);
    ZerosPage();
    LeavesEntries(s.t, k, f);
    CreationIsLazy(s.t, 0, k, f);
  }

  // ---------- mapping and unmapping ----------

  /** Memory with the word for page `v` overwritten. */
  ghost function WithWord(s: Snapshot, v: int, w: int): map<int, seq<int>> {
    if v / 512 in s.t.leaves && s.t.leaves[v / 512] in s.mem && |s.mem[s.t.leaves[v / 512]]| == ENTRIES
    then s.mem[s.t.leaves[v / 512] := s.mem[s.t.leaves[v / 512]][v % 512 := w]] else s.mem
  }

  /** The word of page `v` changes: the tables still are in memory, and no other frame is touched. */
  lemma WordWritten(s: Snapshot, ref: map<int, int>, vaddr: map<int, int>, disk: map<int, seq<int>>, max: int,
                    v: int, w: int)
    requires Sound(s, ref, vaddr, disk, max) && v in s.t.pte
    ensures Tabled(WithWord(s, v, w), s.t.(pte := s.t.pte[v := w])) && WithWord(s, v, w).Keys == s.mem.Keys
    ensures v / 512 in s.t.leaves && s.t.leaves[v / 512] in s.mem && |s.mem[s.t.leaves[v / 512]]| == ENTRIES
    ensures forall f :: f in s.names ==> f in s.mem && WithWord(s, v, w)[f] == s.mem[f]
    ensures Paged(WithWord(s, v, w)) && Shown(s.t.pte, WithWord(s, v, w), disk, s.flat)
  {
    hide Tabled, Shown, Named, Backed, FrameOf;
    EntryWritten(s.mem, s.t, v, w);
    RootIsTable(s.mem, s.t);
    var l := s.t.leaves[v / 512];
    assert l !in s.names;
    UnnamedWritten(s.t.pte, s.mem, disk, s.flat, s.names, l, s.mem[l][v % 512 := w]);
  }

  /** The names when page `v` names the frame `f` as well. */
  ghost function Renamed(names: map<int, set<int>>, f: int, v: int): map<int, set<int>> {
    names[f := (if f in names then names[f] else {}) + {v}]
  }

  ghost function AfterMap(s: Snapshot, v: int, f: int, kind: int): Snapshot
    requires f in s.mem && v in s.t.pte
  {
    var w := PteCreate(f, kind);
    Snapshot(s.t.(pte := s.t.pte[v := w]), Renamed(s.names, f, v), WithWord(s, v, w), s.free, s.ring,
             s.flat[v := s.mem[f]])
  }

  lemma MapSound(s: Snapshot, ref: map<int, int>, vaddr: map<int, int>, disk: map<int, seq<int>>, max: int,
                 v: int, f: int, kind: int)
    requires Sound(s, ref, vaddr, disk, max) && v in s.t.pte && !Present(s.t.pte[v]) && 0 <= kind < 1024
    requires Holding(s, f) && f in s.mem && f in ref
    ensures Sound(AfterMap(s, v, f, kind), ref[f := ref[f] + 1], vaddr, disk, max)
  {
    hide Tabled, Shown, Named, Backed, FrameOf, PteCreate, WithWord, Counted;
    var w, s' := PteCreate(f, kind), AfterMap(s, v, f, kind);
    SoundTables(s, ref, vaddr, disk, max);
    NotNegative(s, ref, f);
    PteRoundTrip(f, kind);
    WordWritten(s, ref, vaddr, disk, max, v, w);
    PageMapped(s.mem.Keys, s.t, s.names, ref, s.free, v, f, kind);
    BackedElsewhere(s.t.pte, s.names, s.free, disk, s.ring, vaddr, max, v, w, f, s.names[f] + {v});
    EntryShown(s.t.pte, s'.mem, disk, s.flat, v, w);
  }

  lemma NotNegative(s: Snapshot, ref: map<int, int>, f: int)
    requires Counted(s.mem.Keys, s.t, s.names, ref, s.free) && f in s.mem
    ensures f >= 0
  {
  }

  ghost function AfterRemap(s: Snapshot, v: int, kind: int): Snapshot
    requires v in s.t.pte
  {
    var w := PteCreate(FrameOf(s.t.pte[v]), kind);
    s.(t := s.t.(pte := s.t.pte[v := w]), mem := WithWord(s, v, w))
  }

  lemma RemapSound(s: Snapshot, ref: map<int, int>, vaddr: map<int, int>, disk: map<int, seq<int>>, max: int,
                   v: int, kind: int)
    requires Sound(s, ref, vaddr, disk, max) && v in s.t.pte && Present(s.t.pte[v]) && 0 <= kind < 1024
    ensures Sound(AfterRemap(s, v, kind), ref, vaddr, disk, max)
    ensures v in s.flat && FrameOf(s.t.pte[v]) in s.names && FrameOf(s.t.pte[v]) in s.mem
    ensures s.flat[v] == s.mem[FrameOf(s.t.pte[v])]
  {
    hide Tabled, Shown, Named, Backed, FrameOf, PteCreate, WithWord, Counted;
    var f, s' := FrameOf(s.t.pte[v]), AfterRemap(s, v, kind);
    var w := PteCreate(f, kind);
    NamedFrame(s, ref, disk, v);
    NotNegative(s, ref, f);
    PteRoundTrip(f, kind);
    WordWritten(s, ref, vaddr, disk, max, v, w);
    PageRemapped(s.mem.Keys, s.t, s.names, ref, s.free, v, kind);
    RemapBacked(s, vaddr, disk, max, v, w);
    EntryShown(s.t.pte, s'.mem, disk, s.flat, v, w);
    assert s.flat[v := Content(v, w, s'.mem, disk)] == s.flat;
  }

  lemma RemapBacked(s: Snapshot, vaddr: map<int, int>, disk: map<int, seq<int>>, max: int, v: int, w: int)
    requires Backed(s.t.pte, s.names, s.free, disk, s.ring, vaddr, max) && Present(w)
    ensures Backed(s.t.pte[v := w], s.names, s.free, disk, s.ring, vaddr, max)
  {
  }

  lemma NamedFrame(s: Snapshot, ref: map<int, int>, disk: map<int, seq<int>>, v: int)
    requires Counted(s.mem.Keys, s.t, s.names, ref, s.free) && Shown(s.t.pte, s.mem, disk, s.flat)
    requires v in s.t.pte && Present(s.t.pte[v])
    ensures FrameOf(s.t.pte[v]) in s.names && FrameOf(s.t.pte[v]) in s.mem && v in s.names[FrameOf(s.t.pte[v])]
    ensures v in s.flat && s.flat[v] == s.mem[FrameOf(s.t.pte[v])] && FrameOf(s.t.pte[v]) !in s.free
    ensures FrameOf(s.t.pte[v]) in ref && ref[FrameOf(s.t.pte[v])] == |s.names[FrameOf(s.t.pte[v])]|
  {
    hide FrameOf;
  }

  /** The entry of `v` is cleared; its frame is freed when no other entry names it. */
  ghost function AfterUnmap(s: Snapshot, v: int): Snapshot
    requires v in s.t.pte && FrameOf(s.t.pte[v]) in s.names
  {
    var f := FrameOf(s.t.pte[v]);
    Snapshot(s.t.(pte := s.t.pte[v := 0]), s.names[f := s.names[f] - {v}], WithWord(s, v, 0),
             if s.names[f] == {v} then s.free + {f} else s.free, s.ring, s.flat - {v})
  }

  lemma UnmapSound(s: Snapshot, ref: map<int, int>, vaddr: map<int, int>, disk: map<int, seq<int>>, max: int, v: int)
    requires Sound(s, ref, vaddr, disk, max) && v in s.t.pte && Present(s.t.pte[v]) && FrameOf(s.t.pte[v]) !in s.ring
    ensures var f := FrameOf(s.t.pte[v]);
      && f in s.names && v in s.names[f] && f in ref && (ref[f] == 1 <==> s.names[f] == {v})
      && Sound(AfterUnmap(s, v), if ref[f] == 1 then ref[f := 0] else ref[f := ref[f] - 1], vaddr, disk, max)
  {
    hide Tabled, Shown, Named, Backed, FrameOf, WithWord, Counted;
    var f := FrameOf(s.t.pte[v]);
    NamedFrame(s, ref, disk, v);
    WordWritten(s, ref, vaddr, disk, max, v, 0);
    PageUnmapped(s.mem.Keys, s.t, s.names, ref, s.free, v, 0);
    BackedElsewhere(s.t.pte, s.names, s.free, disk, s.ring, vaddr, max, v, 0, f, s.names[f] - {v});
    EntryShown(s.t.pte, WithWord(s, v, 0), disk, s.flat, v, 0);
    if ref[f] == 1 {
      var t', names' := s.t.(pte := s.t.pte[v := 0]), s.names[f := s.names[f] - {v}];
      FrameFreed(s.mem.Keys, t', names', ref[f := ref[f] - 1], s.free, f);
      assert ref[f := ref[f] - 1][f := 0] == ref[f := 0];
    }
  }

  /** A frame on the clock list may not lose its page: it would be free and still on the list. */
  lemma UnmapListed(s: Snapshot, ref: map<int, int>, vaddr: map<int, int>, disk: map<int, seq<int>>, max: int, v: int)
    requires Sound(s, ref, vaddr, disk, max) && v in s.t.pte && Present(s.t.pte[v]) && FrameOf(s.t.pte[v]) in s.ring
    ensures var f := FrameOf(s.t.pte[v]);
      && f in s.names && s.names[f] == {v} && f in ref && ref[f] == 1
      && forall ref' :: !Sound(AfterUnmap(s, v), ref', vaddr, disk, max)
  {
    hide Tabled, Shown, Named, FrameOf, WithWord, Counted;
    var f := FrameOf(s.t.pte[v]);
    NamedFrame(s, ref, disk, v);
    BackedMember(s, disk, vaddr, max, f);
    assert |{v}| == 1;
    if ref' :| Sound(AfterUnmap(s, v), ref', vaddr, disk, max) {
      BackedMember(AfterUnmap(s, v), disk, vaddr, max, f);
    }
  }

  /** What page_remove_pte does to an entry that is valid. */
  lemma Unmapped(s: Snapshot, ref: map<int, int>, vaddr: map<int, int>, disk: map<int, seq<int>>, max: int, v: int)
    requires Sound(s, ref, vaddr, disk, max) && v in s.t.pte && Present(s.t.pte[v])
    ensures var f := FrameOf(s.t.pte[v]);
      && f in s.names && v in s.names[f] && f in ref && (ref[f] == 1 <==> s.names[f] == {v})
      && (Sound(AfterUnmap(s, v), DropRef(ref, f), vaddr, disk, max) <==> f !in s.ring)
  {
    hide Sound, FrameOf, AfterUnmap;
    if FrameOf(s.t.pte[v]) in s.ring {
      UnmapListed(s, ref, vaddr, disk, max, v);
    } else {
      UnmapSound(s, ref, vaddr, disk, max, v);
    }
  }

  /** The counts after page_remove_pte. */
  function DropRef(ref: map<int, int>, f: int): map<int, int> {
    if f !in ref then ref else if ref[f] == 1 then ref[f := 0] else ref[f := ref[f] - 1]
  }

  lemma DropOther(ref: map<int, int>, p: int, f: int)
    requires p != f && p in ref && f in ref
    ensures DropRef(ref[f := ref[f] + 1], p) == DropRef(ref, p)[f := ref[f] + 1]
  {
  }

  /** What page_insert does once the tables are there. */
  ghost function AfterInsert(s: Snapshot, v: int, f: int, kind: int): Snapshot
    requires f in s.mem && v in s.t.pte
    requires Present(s.t.pte[v]) ==> FrameOf(s.t.pte[v]) in s.names
  {
    if !Present(s.t.pte[v]) then AfterMap(s, v, f, kind)
    else if FrameOf(s.t.pte[v]) == f then AfterRemap(s, v, kind)
    else AfterMap(AfterCleared(s, v), v, f, kind)
  }

  ghost function AfterCleared(s: Snapshot, v: int): (r: Snapshot)
    requires v in s.t.pte && FrameOf(s.t.pte[v]) in s.names
    ensures r.names.Keys == s.names.Keys && r.mem.Keys == s.mem.Keys && v in r.t.pte
  {
    AfterUnmap(s, v)
  }

  /** Whether `page_insert` may enter the frame `f` for page `v`: it is there already, or somebody holds it and the
      frame it replaces is not on the clock list. */
  ghost predicate Fits(s: Snapshot, v: int, f: int) {
    var e := Entry(s.t, v);
    (Present(e) && FrameOf(e) == f) || (Holding(s, f) && (Present(e) ==> FrameOf(e) !in s.ring))
  }

  /** The counts after page_insert. */
  function InsertRef(e: int, ref: map<int, int>, f: int): map<int, int>
    requires f in ref
  {
    if Present(e) && FrameOf(e) == f then ref
    else if Present(e) then DropRef(ref, FrameOf(e))[f := ref[f] + 1]
    else ref[f := ref[f] + 1]
  }

  lemma InsertSound(s: Snapshot, ref: map<int, int>, vaddr: map<int, int>, disk: map<int, seq<int>>, max: int,
                    v: int, f: int, kind: int)
    requires Sound(s, ref, vaddr, disk, max) && v in s.t.pte && f in s.mem && f in ref && 0 <= kind < 1024
    requires Fits(s, v, f)
    ensures Present(s.t.pte[v]) ==> FrameOf(s.t.pte[v]) in s.names
    ensures Sound(AfterInsert(s, v, f, kind), InsertRef(s.t.pte[v], ref, f), vaddr, disk, max)
  {
    hide Sound, FrameOf, AfterMap, AfterRemap, AfterUnmap;
    if !Present(s.t.pte[v]) {
      MapSound(s, ref, vaddr, disk, max, v, f, kind);
    } else if FrameOf(s.t.pte[v]) == f {
      RemapSound(s, ref, vaddr, disk, max, v, kind);
    } else {
      UnmapSound(s, ref, vaddr, disk, max, v);
      ClearedHolding(s, v, f);
      MapSound(AfterCleared(s, v), DropRef(ref, FrameOf(s.t.pte[v])), vaddr, disk, max, v, f, kind);
    }
  }

  /** The names after page_insert of another frame than the page has. */
  lemma InsertNames(s: Snapshot, v: int, f: int, kind: int)
    requires v in s.t.pte && f in s.mem && (Present(s.t.pte[v]) ==> FrameOf(s.t.pte[v]) in s.names)
    requires !(Present(s.t.pte[v]) && FrameOf(s.t.pte[v]) == f)
    ensures var s', e := AfterInsert(s, v, f, kind), s.t.pte[v];
      && s'.mem.Keys == s.mem.Keys && s'.t.role == s.t.role && s'.ring == s.ring && s.free <= s'.free
      && f in s'.names && s'.names[f] == (if f in s.names then s.names[f] else {}) + {v}
      && (Present(e) ==> FrameOf(e) in s'.names && s'.names[FrameOf(e)] == s.names[FrameOf(e)] - {v})
  {
    hide FrameOf, PteCreate;
  }

  /** Otherwise nothing would be in order, whatever the counts: a table or a free frame is named, or a frame
      on the clock list by two pages or none. */
  lemma InsertUnsound(s: Snapshot, ref: map<int, int>, vaddr: map<int, int>, disk: map<int, seq<int>>, max: int,
                      v: int, f: int, kind: int, ref': map<int, int>)
    requires Sound(s, ref, vaddr, disk, max) && v in s.t.pte && f in s.mem && !Fits(s, v, f)
    ensures Present(s.t.pte[v]) ==> FrameOf(s.t.pte[v]) in s.names
    ensures !Sound(AfterInsert(s, v, f, kind), ref', vaddr, disk, max)
  {
    hide Tabled, Shown, Named, FrameOf, AfterInsert;
    if Present(s.t.pte[v]) {
      NamedFrame(s, ref, disk, v);
    }
    var s' := AfterInsert(s, v, f, kind);
    InsertNames(s, v, f, kind);
    if Sound(s', ref', vaddr, disk, max) {
      CountedFacts(s.mem.Keys, s'.t, s'.names, ref', s'.free);
      CountedFacts(s.mem.Keys, s.t, s.names, ref, s.free);
      if f in s.ring {
        BackedMember(s, disk, vaddr, max, f);
        VictimMapped(s.mem.Keys, s.t, s.names, ref, s.free, vaddr, max, f);
        BackedMember(s', disk, vaddr, max, f);
        assert false;
      } else if Holding(s, f) {
        var p := FrameOf(s.t.pte[v]);
        BackedMember(s, disk, vaddr, max, p);
        BackedMember(s', disk, vaddr, max, p);
        assert false;
      } else {
        assert false;
      }
    }
  }

  lemma FrameInserted(s: Snapshot, ref: map<int, int>, vaddr: map<int, int>, disk: map<int, seq<int>>, max: int,
                 v: int, f: int, kind: int)
    requires Sound(s, ref, vaddr, disk, max) && v in s.t.pte && f in s.mem && f in ref && 0 <= kind < 1024
    ensures Present(s.t.pte[v]) ==> FrameOf(s.t.pte[v]) in s.names && FrameOf(s.t.pte[v]) in ref
    ensures Sound(AfterInsert(s, v, f, kind), InsertRef(s.t.pte[v], ref, f), vaddr, disk, max) <==> Fits(s, v, f)
    ensures !Fits(s, v, f) ==> forall ref' {:trigger Sound(AfterInsert(s, v, f, kind), ref', vaddr, disk, max)} ::
      !Sound(AfterInsert(s, v, f, kind), ref', vaddr, disk, max)
  {
    hide Sound, FrameOf, AfterInsert, InsertRef, Fits;
    if Present(s.t.pte[v]) {
      Unmapped(s, ref, vaddr, disk, max, v);
    }
    if Fits(s, v, f) {
      InsertSound(s, ref, vaddr, disk, max, v, f, kind);
    } else {
      forall ref' ensures !Sound(AfterInsert(s, v, f, kind), ref', vaddr, disk, max) {
        InsertUnsound(s, ref, vaddr, disk, max, v, f, kind, ref');
      }
    }
  }

  /** While frames for tables are found, nothing changes about whether a frame fits. */
  lemma FitsStill(s: Snapshot, s': Snapshot, v: int, f: int)
    requires Kept(s, s') && NoneHeld(s, s', None) && f in s.mem
    requires Present(Entry(s.t, v)) ==> Entry(s'.t, v) == Entry(s.t, v)
    ensures Fits(s', v, f) <==> Fits(s, v, f)
  {
    hide FrameOf, SwapEntry;
    assert EntryKept(s, s', v);
    SwapEntryAbsent(v);
    if Holding(s, f) {
      assert Same(s, s', f);
    }
  }

  lemma InsertEntries(s: Snapshot, v: int, f: int, kind: int)
    requires f in s.mem && v in s.t.pte && (Present(s.t.pte[v]) ==> FrameOf(s.t.pte[v]) in s.names)
    ensures Entry(AfterInsert(s, v, f, kind).t, v) == PteCreate(f, kind)
    ensures forall x :: x != v ==> Entry(AfterInsert(s, v, f, kind).t, x) == Entry(s.t, x)
  {
    hide FrameOf, PteCreate;
  }

  lemma KeptHolding(s: Snapshot, s': Snapshot, f: int)
    requires Kept(s, s') && Holding(s, f) && f in s.mem
    ensures Holding(s', f) && f in s'.mem && s'.mem[f] == s.mem[f] && s'.names[f] == s.names[f]
  {
    assert Same(s, s', f);
  }

  lemma SwapEntryAbsent(v: int)
    ensures !Present(SwapEntry(v * PAGE_SIZE))
  {
  }

  lemma KeptFrames(s: Snapshot, s': Snapshot)
    requires Kept(s, s')
    ensures s'.mem.Keys == s.mem.Keys
  {
  }

  /** A frame that no page names has the count zero. */
  lemma NoNames(s: Snapshot, ref: map<int, int>, vaddr: map<int, int>, disk: map<int, seq<int>>, max: int, f: int)
    requires Sound(s, ref, vaddr, disk, max) && f in s.names && s.names[f] == {}
    ensures f in ref && ref[f] == 0 && f in s.mem && f >= 0
  {
    hide Tabled, Shown, Named, Backed;
  }

  /** The tables on the way to a valid entry are there. */
  lemma PresentThere(s: Snapshot, ref: map<int, int>, vaddr: map<int, int>, disk: map<int, seq<int>>, max: int, v: int)
    requires Sound(s, ref, vaddr, disk, max) && Present(Entry(s.t, v))
    ensures v / 512 in s.t.leaves && v / 512 / 512 in s.t.dirs
  {
    hide Shown, Backed, Counted;
    TableThere(s.mem, s.t, v);
  }

  lemma KeptEntries(s: Snapshot, s': Snapshot, v: int)
    requires Kept(s, s')
    ensures s'.flat == s.flat && (v in s.t.pte ==> v in s'.t.pte)
    ensures !Present(Entry(s.t, v)) ==> Entry(s'.t, v) == Entry(s.t, v)
  {
    assert EntryKept(s, s', v);
  }

  lemma ClearedHolding(s: Snapshot, v: int, f: int)
    requires Holding(s, f) && f in s.mem && v in s.t.pte && FrameOf(s.t.pte[v]) in s.names && FrameOf(s.t.pte[v]) != f
    ensures Holding(AfterCleared(s, v), f) && f in AfterCleared(s, v).mem && v in AfterCleared(s, v).t.pte
    ensures AfterCleared(s, v).t.pte[v] == 0
  {
    hide FrameOf;
  }

  lemma RemapStep(s: Snapshot, v: int, kind: int)
    requires v in s.t.pte
    ensures var w := PteCreate(FrameOf(s.t.pte[v]), kind);
      AfterRemap(s, v, kind)
      == Snapshot(s.t.(pte := s.t.pte[v := w]), s.names, WithWord(s, v, w), s.free, s.ring, s.flat)
  {
  }

  lemma MapStep(s: Snapshot, v: int, f: int, kind: int)
    requires f in s.mem && v in s.t.pte
    ensures AfterMap(s, v, f, kind)
         == Snapshot(s.t.(pte := s.t.pte[v := PteCreate(f, kind)]), Renamed(s.names, f, v),
                     WithWord(s, v, PteCreate(f, kind)), s.free, s.ring, s.flat[v := s.mem[f]])
  {
  }

  /** Page `v` got an entry for the frame `f`, which no other entry names. */
  ghost predicate Entered(s: Snapshot, s': Snapshot, v: int, f: int, kind: int) {
    && v in s.t.pte && f in s.mem && f in s'.mem && s'.mem[f] == s.mem[f]
    && Holding(s', f) && s'.names[f] == {v} && s'.ring == s.ring && s'.t.root == s.t.root
    && s'.t.pte == s.t.pte[v := PteCreate(f, kind)] && s'.flat == s.flat[v := s.mem[f]]
    && s'.t.dirs == s.t.dirs && s'.t.leaves == s.t.leaves && (!Present(s.t.pte[v]) ==> s'.free == s.free)
  }

  lemma EnteredFacts(s: Snapshot, s': Snapshot, v: int, f: int, kind: int)
    requires Entered(s, s', v, f, kind)
    ensures f in s'.mem && Holding(s', f) && s'.names[f] == {v} && s'.ring == s.ring
    ensures forall ring :: s'.(ring := ring).(ring := s.ring) == s'
  {
  }

  /** A frame nobody names fits for any page but one whose frame is on the clock list. */
  lemma Unentered(s: Snapshot, ref: map<int, int>, vaddr: map<int, int>, disk: map<int, seq<int>>, max: int,
                  v: int, f: int)
    requires Sound(s, ref, vaddr, disk, max) && Holding(s, f) && s.names[f] == {}
    ensures Fits(s, v, f) <==> !Present(Entry(s.t, v)) || FrameOf(Entry(s.t, v)) !in s.ring
  {
    hide Tabled, Backed, FrameOf;
    if Present(Entry(s.t, v)) {
      NamedFrame(s, ref, disk, v);
    }
  }

  /** A frame nobody names is entered for page `v` once. */
  lemma InsertedOnce(s: Snapshot, ref: map<int, int>, vaddr: map<int, int>, disk: map<int, seq<int>>, max: int,
                     v: int, f: int, kind: int)
    requires Sound(s, ref, vaddr, disk, max) && Holding(s, f) && f in s.mem && s.names[f] == {} && v in s.t.pte
    ensures Present(s.t.pte[v]) ==> FrameOf(s.t.pte[v]) in s.names && FrameOf(s.t.pte[v]) != f
    ensures Entered(s, AfterInsert(s, v, f, kind), v, f, kind)
  {
    hide Tabled, Backed, FrameOf, PteCreate;
    LeavesApart(s, ref, v, f);
    if Present(s.t.pte[v]) {
      NamedFrame(s, ref, disk, v);
      ClearedHolding(s, v, f);
      assert s.t.pte[v := 0][v := PteCreate(f, kind)] == s.t.pte[v := PteCreate(f, kind)];
      assert (s.flat - {v})[v := s.mem[f]] == s.flat[v := s.mem[f]];
    }
  }

  lemma LeavesApart(s: Snapshot, ref: map<int, int>, v: int, f: int)
    requires Tabled(s.mem, s.t) && Counted(s.mem.Keys, s.t, s.names, ref, s.free) && v in s.t.pte && f in s.names
    ensures v / 512 in s.t.leaves && s.t.leaves[v / 512] != f
  {
    RootIsTable(s.mem, s.t);
  }

  lemma JoinedSound(s: Snapshot, ref: map<int, int>, vaddr: map<int, int>, disk: map<int, seq<int>>, max: int,
                    f: int, la: int)
    requires Sound(s, ref, vaddr, disk, max) && Holding(s, f) && f in s.mem && s.names[f] == {Vpn(la)}
    requires 0 <= la && PgOff(la) == 0 && Vpn(la) + 1 < max
    ensures f >= 0 && Sound(s.(ring := s.ring + {f}), ref, vaddr[f := la], disk, max)
  {
    hide Tabled, Shown, Named, Backed;
    NotNegative(s, ref, f);
    RingJoined(s.t.pte, s.names, s.free, disk, s.ring, vaddr, max, f, Vpn(la));
  }

  /** If all is in order when a frame has joined the clock list, it was before. */
  lemma JoinedWas(s: Snapshot, ref: map<int, int>, vaddr: map<int, int>, disk: map<int, seq<int>>, max: int,
                  f: int, la: int)
    requires Sound(s.(ring := s.ring + {f}), ref, vaddr[f := la], disk, max) && f !in s.ring
    ensures Sound(s, ref, vaddr, disk, max)
  {
    hide Tabled, Shown, Named, Counted;
    forall x | x in s.ring ensures Swappable(x, s.names, s.free, vaddr, max) {
      BackedMember(s.(ring := s.ring + {f}), disk, vaddr[f := la], max, x);
    }
  }

  /** The slot of a page that was evicted holds what the page shows. */
  lemma SlotShown(s: Snapshot, ref: map<int, int>, vaddr: map<int, int>, disk: map<int, seq<int>>, max: int, v: int)
    requires Sound(s, ref, vaddr, disk, max) && v in s.t.pte && !Present(s.t.pte[v]) && s.t.pte[v] != 0
    ensures v in s.flat && SwapOffset(s.t.pte[v]) in disk && disk[SwapOffset(s.t.pte[v])] == s.flat[v]
    ensures |s.flat[v]| == ENTRIES && ValidOffset(s.t.pte[v], max) && s.t.pte[v] == SwapEntry(v * PAGE_SIZE)
  {
    hide Tabled, Named, Counted, SwapEntry;
    assert InSlot(v, s.t.pte[v], disk, max);
    SlotOfPage(v, max);
    SlotIsPage(s, v);
  }

  lemma SlotIsPage(s: Snapshot, v: int)
    requires Tabled(s.mem, s.t) && v in s.t.pte
    ensures v >= 0
  {
  }

  /** A frame that somebody holds and no page names is filled. */
  lemma HeldWritten(s: Snapshot, ref: map<int, int>, vaddr: map<int, int>, disk: map<int, seq<int>>, max: int,
                    f: int, page: seq<int>)
    requires Sound(s, ref, vaddr, disk, max) && Holding(s, f) && f in s.mem && s.names[f] == {} && |page| == ENTRIES
    ensures Sound(s.(mem := s.mem[f := page]), ref, vaddr, disk, max)
    ensures KeptBut(s, s.(mem := s.mem[f := page]), Some(f))
  {
    hide Tabled, Shown, Named, Backed;
    SoundTables(s, ref, vaddr, disk, max);
    DataWritten(s.mem, s.t, f, page);
    UnnamedWritten(s.t.pte, s.mem, disk, s.flat, s.names, f, page);
    assert s.mem[f := page].Keys == s.mem.Keys;
  }

  /** Freeing a frame that was held and not named. */
  lemma Released(s: Snapshot, ref: map<int, int>, vaddr: map<int, int>, disk: map<int, seq<int>>, max: int, f: int)
    requires Sound(s, ref, vaddr, disk, max) && Holding(s, f) && s.names[f] == {}
    ensures Sound(s.(free := s.free + {f}), ref[f := 0], vaddr, disk, max)
    ensures KeptBut(s, s.(free := s.free + {f}), Some(f))
  {
    hide Tabled, Shown, Named;
    FrameFreed(s.mem.Keys, s.t, s.names, ref, s.free, f);
    forall x | x in s.ring ensures Swappable(x, s.names, s.free + {f}, vaddr, max) {
      BackedMember(s, disk, vaddr, max, x);
    }
  }

  /** What `do_pgfault` returns: 0, -E_INVAL, -E_NO_MEM; or it reads through a null pointer, because
      there was no frame for a table. */
  datatype Fault = Handled | InvalidAddress | NoMemory | NullEntry

  /** The permissions for a page of the area. */
  function Permissions(a: Area): int {
    if a.Writable() then PTE_U + PTE_R + PTE_W else PTE_U
  }

  /** The entry that the handler makes is one of user mode, not executable, and may be read and written exactly
      if the area has VM_WRITE. */
  lemma PermissionBits(f: int, a: Area)
    requires f >= 0
    ensures var e := PteCreate(f, Permissions(a));
      && Present(e) && FrameOf(e) == f && UserBit(e) && !ExecuteBit(e)
      && (ReadBit(e) <==> a.flags / 2 % 2 == 1) && (WriteBit(e) <==> a.flags / 2 % 2 == 1)
  {
    PteRoundTrip(f, Permissions(a));
  }

  lemma ServedBits(s: Snapshot, s': Snapshot, ref: map<int, int>, vaddr: map<int, int>, disk: map<int, seq<int>>,
                   max: int, v: int, f: int, a: Area)
    requires Sound(s', ref, vaddr, disk, max) && PageServed(s, s', v, f, Permissions(a))
    ensures var e := Entry(s'.t, v);
      && Present(e) && FrameOf(e) == f && UserBit(e) && !ExecuteBit(e)
      && (ReadBit(e) <==> a.flags / 2 % 2 == 1) && (WriteBit(e) <==> a.flags / 2 % 2 == 1)
  {
    hide Tabled, Shown, Named, Backed, PteCreate, FrameOf, Permissions, UserBit, ExecuteBit, ReadBit, WriteBit, EntryKept;
    NotNegative(s', ref, f);
    PermissionBits(f, a);
  }

  /** All areas lie where their pages have slots on the disk. */
  ghost predicate InRange(list: seq<Area>, max: int) {
    forall a :: a in list ==> 0 <= a.start && a.end <= (max - 1) * PAGE_SIZE
  }

  /** All areas lie in the lower half of the addresses; without swapping no more is asked. */
  ghost predicate InLowerHalf(list: seq<Area>) {
    forall a :: a in list ==> 0 <= a.start && a.end <= LOWER_HALF
  }

  lemma FaultInRange(list: seq<Area>, a: Area, addr: int, max: int, swapping: bool)
    requires if swapping then InRange(list, max) else InLowerHalf(list)
    requires a in list && a.Contains(addr) && max < MAX_SWAP_OFFSET_LIMIT
    ensures 0 <= RoundDown(addr) < LOWER_HALF && PgOff(RoundDown(addr)) == 0 && Vpn(RoundDown(addr)) == Vpn(addr)
    ensures 0 <= Vpn(addr) && (swapping ==> Vpn(addr) + 1 < max)
  {
    AddressFields(addr);
  }

  /** Page `v` has a valid entry for the frame `f`, and shows what it showed if it was touched before;
      other pages are as they were, or evicted. */
  ghost predicate PageServed(s: Snapshot, s': Snapshot, v: int, f: int, kind: int) {
    && Entry(s'.t, v) == PteCreate(f, kind) && Holding(s'.(ring := s'.ring - {f}), f) && s'.names[f] == {v}
    && v in s'.flat && f in s'.mem && s'.flat[v] == s'.mem[f]
    && s'.flat == (if v in s.flat then s.flat else s.flat[v := s'.flat[v]])
    && (forall x :: x != v ==> EntryKept(s, s', x))
    && s'.ring <= s.ring + {f} && MoreTables(s.t, s'.t) && HasTables(s'.t, v)
  }

  lemma ServedLast(s: Snapshot, mid: Snapshot, s': Snapshot, v: int, f: int, kind: int)
    requires Kept(s, mid) && Entered(mid, s'.(ring := mid.ring), v, f, kind)
    requires s'.ring == mid.ring || s'.ring == mid.ring + {f}
    requires v in s.flat ==> mid.mem[f] == s.flat[v]
    requires HasTables(s.t, v)
    ensures PageServed(s, s', v, f, kind)
  {
    hide PteCreate, SwapEntry;
    forall x | x != v ensures EntryKept(s, s', x) {
      assert EntryKept(s, mid, x);
    }
  }

  lemma NotTouched(s: Snapshot, ref: map<int, int>, vaddr: map<int, int>, disk: map<int, seq<int>>, max: int, v: int)
    requires Sound(s, ref, vaddr, disk, max)
    ensures v in s.flat <==> Entry(s.t, v) != 0
  {
    hide Tabled, Counted, Backed;
  }

  lemma TableThere(mem: map<int, seq<int>>, t: Tables, v: int)
    requires Tabled(mem, t) && v in t.pte
    ensures v / 512 in t.leaves && v / 512 / 512 in t.dirs && 0 <= v < PAGES
  {
  }

  lemma ServedAfter(s: Snapshot, mid: Snapshot, s': Snapshot, v: int, f: int, kind: int)
    requires Kept(s, mid) && PageServed(mid, s', v, f, kind)
    ensures PageServed(s, s', v, f, kind)
  {
    hide PteCreate, SwapEntry;
    forall x | x != v ensures EntryKept(s, s', x) {
      assert EntryKept(s, mid, x);
      assert EntryKept(mid, s', x);
    }
  }

  ghost function FirstNames(mem: map<int, seq<int>>, pgdir: int): map<int, set<int>> {
    map f | f in mem && f != pgdir :: {}
  }

  function FirstCounts(mem: map<int, seq<int>>): map<int, int> {
    map f | f in mem :: 0
  }

  lemma FirstSound(mem: map<int, seq<int>>, pgdir: int, max: int)
    requires pgdir in mem && max < MAX_SWAP_OFFSET_LIMIT && forall f :: f in mem ==> f >= 0 && |mem[f]| == ENTRIES
    requires forall i :: 0 <= i < 256 ==> !Present(mem[pgdir][i])
    ensures var t := Tables(pgdir, map[], map[], map[pgdir := Root], map[]);
      Sound(Snapshot(t, FirstNames(mem, pgdir), mem, mem.Keys - {pgdir}, {}, map[]), FirstCounts(mem), map[], map[], max)
  {
  }

  class AddressSpace {
    const pgdir: int
    const maxSwapOffset: int
    const clock: C.Clock
    const areas: Areas
    var swapOk: bool
    var mem: map<int, seq<int>>     // the words of every frame
    var ref: map<int, int>
    var vaddr: map<int, int>        // pra_vaddr
    var free: set<int>
    var disk: map<int, seq<int>>
    ghost var t: Tables
    ghost var names: map<int, set<int>>
    ghost var flat: map<int, seq<int>>

    /** Every frame but the root of the tables is free, and the root's lower half is empty. */
    constructor (mem: map<int, seq<int>>, pgdir: int, maxSwapOffset: int)
      requires pgdir in mem && 7 <= maxSwapOffset < MAX_SWAP_OFFSET_LIMIT
      requires forall f :: f in mem ==> f >= 0 && |mem[f]| == ENTRIES
      requires forall i :: 0 <= i < 256 ==> !Present(mem[pgdir][i])
      ensures Valid() && flat == map[] && free == mem.Keys - {pgdir} && clock.ring == [] && areas.list == []
      ensures fresh(clock) && fresh(areas) && !swapOk && t.pte == map[]
    {
      hide Sound, C.Linked;
      this.mem, this.pgdir, this.maxSwapOffset := mem, pgdir, maxSwapOffset;
      clock := new C.Clock();
      areas := new Areas();
      swapOk, ref, vaddr, disk := false, FirstCounts(mem), map[], map[];
      free, names := mem.Keys - {pgdir}, FirstNames(mem, pgdir);
      t := Tables(pgdir, map[], map[], map[pgdir := Root], map[]);
      flat := map[];
      new;
      FirstSound(mem, pgdir, maxSwapOffset);
    }

    ghost predicate Valid()
      reads this, clock, areas
    {
      Parts() && Sound(Now(), ref, vaddr, disk, maxSwapOffset)
    }

    /** The clock list and the areas are in order by themselves. */
    ghost predicate Parts()
      reads this, clock, areas
    {
      && clock.Valid() && areas.Valid() && 7 <= maxSwapOffset < MAX_SWAP_OFFSET_LIMIT && t.root == pgdir
    }

    ghost function Now(): Snapshot
      reads this, clock
    {
      Snapshot(t, names, mem, free, clock.members, flat)
    }

    /** The frames that are free or can be freed by swapping. */
    ghost function Supply(): nat
      reads this, clock
    {
      |free| + |clock.members|
    }

    /** `get_pte` without creating tables. */
    method FindPte(la: int) returns (slot: Option<Slot>)
      requires Tabled(mem, t) && t.root == pgdir && 0 <= la < LOWER_HALF
      ensures slot.Some? <==> Vpn(la) in t.pte
      ensures slot.Some? ==> Points(slot.value, t, mem, Vpn(la))
    {
      hide Tabled, PteCreate, FrameOf, Pointer;
      AddressFields(la);
      WalkDown(mem, t, Vpn(la));
      var pdep1 := mem[pgdir][Pdx1(la)];
      if !Present(pdep1) {
        return None;
      }
      PointerLeads(t.dirs[Pdx1(la)]);
      var pdep0 := mem[FrameOf(pdep1)][Pdx0(la)];
      if !Present(pdep0) {
        return None;
      }
      PointerLeads(t.leaves[Vpn(la) / 512]);
      return Some(Slot(FrameOf(pdep0), Ptx(la)));
    }

    /** What paging needs to know of the clock's choice. */
    method Victim() returns (page: int)
      requires clock.Valid() && clock.ring != []
      modifies clock
      ensures clock.Valid() && page in old(clock.members) && clock.members == old(clock.members) - {page}
      ensures |clock.ring| == |old(clock.ring)| - 1
      ensures C.Victim(old(clock.ring), old(clock.visited), old(clock.after), page)
    {
      hide C.Clock.Valid, C.Swept, C.Cleared, C.Round, C.First, C.Victim;
      ghost var k;
      page, k := clock.SwapOutVictim();
    }

    /** One round of `swap_out`: the victim's page goes to its slot on the disk. */
    method EvictOne() returns (page: int)
      requires Valid() && clock.ring != []
      modifies this, clock
      ensures Valid() && Kept(old(Now()), Now()) && NoneHeld(old(Now()), Now(), None) && swapOk == old(swapOk)
      ensures page in old(clock.members) && clock.members == old(clock.members) - {page}
      ensures C.Victim(old(clock.ring), old(clock.visited), old(clock.after), page)
      ensures |clock.ring| == |old(clock.ring)| - 1
      ensures free == old(free) + {page} && page !in old(free) && page in old(vaddr)
      ensures var v := Vpn(old(vaddr)[page]);
        && v in old(t).pte && t == old(t).(pte := old(t.pte)[v := SwapEntry(v * PAGE_SIZE)])
        && page in old(mem) && disk == old(disk)[v + 1 := old(mem)[page]]
    {
      hide C.Clock.Valid, C.Victim, Areas.Valid, Sound, SwapEntry, Kept, Vpn;
      ghost var s := Now();
      page := Victim();
      assert clock.members + {page} == s.ring;
      assert Now().(ring := clock.members + {page}) == s;
      SoundTables(s, ref, vaddr, disk, maxSwapOffset);
      WriteOut(page);
    }

    /** The rest of the round, when the victim is off the list. */
    method WriteOut(page: int)
      requires areas.Valid() && clock.Valid() && 7 <= maxSwapOffset < MAX_SWAP_OFFSET_LIMIT && t.root == pgdir
      requires page !in clock.members
      requires Sound(Now().(ring := clock.members + {page}), ref, vaddr, disk, maxSwapOffset)
      modifies this
      ensures Valid() && Kept(old(Now().(ring := clock.members + {page})), Now()) && swapOk == old(swapOk)
      ensures NoneHeld(old(Now().(ring := clock.members + {page})), Now(), None)
      ensures free == old(free) + {page} && page in old(vaddr)
      ensures var v := Vpn(old(vaddr)[page]);
        && v in old(t).pte && t == old(t).(pte := old(t.pte)[v := SwapEntry(v * PAGE_SIZE)])
        && page in old(mem) && disk == old(disk)[v + 1 := old(mem)[page]]
    {
      hide C.Clock.Valid, Areas.Valid, Sound, SwapEntry, Kept, Vpn, SwapOffset, Tabled, FrameOf;
      ghost var s := Now().(ring := clock.members + {page});
      VictimReady(s, ref, vaddr, disk, maxSwapOffset, page);
      SoundTables(s, ref, vaddr, disk, maxSwapOffset);
      var va := vaddr[page];
      ghost var v := Vpn(va);
      var slot := FindPte(va);
      assert Present(mem[slot.value.frame][slot.value.index]);
      Evicted(s, ref, vaddr, disk, maxSwapOffset, page);
      disk := disk[SwapOffset(SwapEntry(va)) := mem[page]];
      WriteEntry(slot.value, v, SwapEntry(va), names[page := {}], flat);
      ref, free := ref[page := 0], free + {page};
      assert clock.members == s.ring - {page};
      assert Now() == AfterEviction(s, va, page);
      EvictedHeld(s, va, page);
    }

    /** `swap_out`, for which there are enough pages on the clock list. */
    method SwapOut(n: nat)
      requires Valid() && |clock.ring| >= n
      modifies this, clock
      ensures Valid() && Kept(old(Now()), Now()) && NoneHeld(old(Now()), Now(), None) && swapOk == old(swapOk)
      ensures Supply() == old(Supply()) && |free| == |old(free)| + n && old(free) <= free
      ensures clock.members <= old(clock.members) && free <= old(free) + old(clock.members)
      ensures t.dirs == old(t.dirs) && t.leaves == old(t.leaves)
    {
      hide C.Clock.Valid, Areas.Valid, Sound, Kept, SwapEntry, NoneHeld;
      ghost var s := Now();
      KeptRefl(s);
      NoneHeldRefl(s);
      for i := 0 to n
        invariant Valid() && Kept(s, Now()) && swapOk == old(swapOk) && |clock.ring| >= n - i
        invariant Supply() == old(Supply()) && |free| == |old(free)| + i && old(free) <= free
        invariant clock.members <= old(clock.members) && free <= old(free) + old(clock.members)
        invariant t.dirs == old(t.dirs) && t.leaves == old(t.leaves) && NoneHeld(s, Now(), None)
      {
        ghost var s1 := Now();
        var page := EvictOne();
        KeptTransitive(s, s1, Now());
        NoneHeldAfter(s, s1, Now(), None);
        assert |free| == |s1.free| + 1 && |clock.members| == |s1.ring| - 1;
      }
    }

    /** `alloc_pages(1)` */
    method AllocPage() returns (r: Option<int>)
      requires Valid() && (swapOk ==> Supply() >= 1)
      modifies this, clock
      ensures Valid() && Kept(old(Now()), Now()) && swapOk == old(swapOk)
      ensures r.None? <==> !swapOk && old(free) == {}
      ensures r.None? ==> Now() == old(Now())
      ensures r.Some? ==> Holding(Now(), r.value) && names[r.value] == {} && r.value in mem
      ensures r.Some? ==> !Holding(old(Now()), r.value)
      ensures r.Some? ==> Supply() == old(Supply()) - 1
      ensures NoneHeld(old(Now()), Now(), r)
      ensures t.dirs == old(t.dirs) && t.leaves == old(t.leaves)
      ensures old(free) != {} ==> t == old(t) && clock.members == old(clock.members) && |free| == |old(free)| - 1
    {
      hide C.Clock.Valid, Areas.Valid, Sound, Kept, SwapEntry, NoneHeld;
      ghost var s := Now();
      KeptRefl(s);
      NoneHeldRefl(s);
      while free == {}
        invariant Valid() && Kept(s, Now()) && swapOk == old(swapOk) && Supply() == old(Supply())
        invariant old(free) != {} || !swapOk ==> Now() == s
        invariant clock.members <= old(clock.members) && free <= old(free) + old(clock.members)
        invariant t.dirs == old(t.dirs) && t.leaves == old(t.leaves) && NoneHeld(s, Now(), None)
        decreases if free == {} then 1 else 0
      {
        if !swapOk {
          return None;
        }
        ghost var s1 := Now();
        RingNotEmpty();
        SwapOut(1);
        assert |free| == 1;
        KeptTransitive(s, s1, Now());
        NoneHeldAfter(s, s1, Now(), None);
      }
      Inhabited(free);
      var page :| page in free;
      ghost var s1 := Now();
      Taken(s1, ref, vaddr, disk, maxSwapOffset, page);
      free := free - {page};
      KeptTransitive(s, s1, Now());
      TakenHeld(s1, page);
      NoneHeldAfter(s, s1, Now(), Some(page));
      return Some(page);
    }

    /** Some page is on the clock list when its set of members is not empty. */
    lemma RingNotEmpty()
      requires Valid() && |clock.members| >= 1
      ensures clock.ring != []
    {
      hide Sound, C.Linked;
      Inhabited(clock.members);
      var x :| x in clock.members;
      assert x in clock.ring;
    }

    /** The tables that are missing on the way to the entry of page `v`. */
    ghost function Missing(v: int): nat
      reads this
    {
      (if v / 512 / 512 in t.dirs then 0 else 1) + (if v / 512 in t.leaves then 0 else 1)
    }

    /** The part of `get_pte` that creates a second-level table. */
    method NewDirectory(i: int) returns (ok: bool)
      requires Valid() && (swapOk ==> Supply() >= 1) && 0 <= i < 256 && i !in t.dirs
      modifies this, clock
      ensures Valid() && Kept(old(Now()), Now()) && NoneHeld(old(Now()), Now(), None) && swapOk == old(swapOk)
      ensures ok <==> swapOk || old(free) != {}
      ensures !ok ==> Now() == old(Now())
      ensures ok ==> t.dirs.Keys == old(t.dirs.Keys) + {i} && t.leaves == old(t.leaves) && Supply() == old(Supply()) - 1
      ensures ok && old(free) != {} ==> t.pte == old(t.pte) && |free| == |old(free)| - 1
    {
      hide C.Clock.Valid, Areas.Valid, Sound, Kept, KeptBut, AfterDirectory, NoneHeld;
      var page := AllocPage();
      if page.None? {
        return false;
      }
      ghost var s1 := Now();
      InstallDirectory(i, page.value);
      NoneHeldNow(old(Now()), s1, Now(), page.value);
      KeptAfter(old(Now()), s1, Now(), page);
      return true;
    }

    method InstallDirectory(i: int, page: int)
      requires Valid() && 0 <= i < 256 && i !in t.dirs && Holding(Now(), page) && names[page] == {}
      modifies this
      ensures Valid() && KeptBut(old(Now()), Now(), Some(page)) && swapOk == old(swapOk) && free == old(free)
      ensures t == WithDirectory(old(t), i, page) && names == old(names) - {page}
    {
      hide C.Clock.Valid, Areas.Valid, Sound, KeptBut, Tabled, Pointer, Zeros;
      ghost var s := Now();
      SoundTables(s, ref, vaddr, disk, maxSwapOffset);
      RootIsTable(mem, t);
      DirectorySound(s, ref, vaddr, disk, maxSwapOffset, i, page);
      ref := ref[page := 1];
      mem := mem[page := Zeros(ENTRIES)];
      mem := mem[pgdir := mem[pgdir][i := Pointer(page)]];
      t, names := WithDirectory(t, i, page), names - {page};
      assert Now() == AfterDirectory(s, i, page);
    }

    /** The part of `get_pte` that creates a third-level table. */
    method NewLeaves(k: int, dir: int) returns (ok: bool)
      requires Valid() && (swapOk ==> Supply() >= 1) && 0 <= k && k / 512 in t.dirs && k !in t.leaves
      requires dir == t.dirs[k / 512]
      modifies this, clock
      ensures Valid() && Kept(old(Now()), Now()) && NoneHeld(old(Now()), Now(), None) && swapOk == old(swapOk)
      ensures ok <==> swapOk || old(free) != {}
      ensures !ok ==> Now() == old(Now())
      ensures ok ==> t.leaves.Keys == old(t.leaves.Keys) + {k} && t.dirs == old(t.dirs) && Supply() == old(Supply()) - 1
      ensures ok && old(free) != {} ==> (forall v :: Entry(t, v) == Entry(old(t), v)) && |free| == |old(free)| - 1
    {
      hide C.Clock.Valid, Areas.Valid, Sound, Kept, KeptBut, WithLeaves, NoneHeld;
      var page := AllocPage();
      if page.None? {
        return false;
      }
      ghost var s1 := Now();
      InstallLeaves(k, dir, page.value);
      NoneHeldNow(old(Now()), s1, Now(), page.value);
      KeptAfter(old(Now()), s1, Now(), page);
      return true;
    }

    method InstallLeaves(k: int, dir: int, page: int)
      requires Valid() && 0 <= k && k / 512 in t.dirs && k !in t.leaves && dir == t.dirs[k / 512]
      requires Holding(Now(), page) && names[page] == {}
      modifies this
      ensures Valid() && KeptBut(old(Now()), Now(), Some(page)) && swapOk == old(swapOk) && free == old(free)
      ensures t.leaves == old(t.leaves)[k := page] && t.dirs == old(t.dirs) && names == old(names) - {page}
      ensures forall v :: Entry(t, v) == Entry(old(t), v)
    {
      hide C.Clock.Valid, Areas.Valid, Sound, KeptBut, Tabled, Pointer, Zeros, WithLeaves, Entry;
      ghost var s := Now();
      SoundTables(s, ref, vaddr, disk, maxSwapOffset);
      RootIsTable(mem, t);
      LeavesEntries(t, k, page);
      LeavesSound(s, ref, vaddr, disk, maxSwapOffset, k, page);
      CreationIsLazy(t, 0, k, page);
      ref := ref[page := 1];
      mem := mem[page := Zeros(ENTRIES)];
      mem := mem[dir := mem[dir][k % 512 := Pointer(page)]];
      t, names := WithLeaves(t, k, page), names - {page};
      assert Now() == AfterLeaves(s, k, page);
    }

    /** `get_pte` with creation of the tables that are missing. */
    method GetPte(la: int) returns (slot: Option<Slot>)
      requires Valid() && 0 <= la < LOWER_HALF && (swapOk ==> Supply() >= Missing(Vpn(la)))
      modifies this, clock
      ensures Valid() && Kept(old(Now()), Now()) && NoneHeld(old(Now()), Now(), None) && swapOk == old(swapOk)
      ensures slot.Some? <==> swapOk || |old(free)| >= old(Missing(Vpn(la)))
      ensures slot.Some? ==> Points(slot.value, t, mem, Vpn(la)) && Supply() == old(Supply()) - old(Missing(Vpn(la)))
      ensures |old(free)| >= old(Missing(Vpn(la))) ==>
        (forall v :: Entry(t, v) == Entry(old(t), v)) && |free| == |old(free)| - old(Missing(Vpn(la)))
    {
      hide C.Clock.Valid, Areas.Valid, Sound, Kept, Tabled, PteCreate, FrameOf, Pointer, NoneHeld;
      ghost var s := Now();
      KeptRefl(s);
      NoneHeldRefl(s);
      AddressFields(la);
      WalkHere(la);
      if !Present(mem[pgdir][Pdx1(la)]) {
        var ok := NewDirectory(Pdx1(la));
        if !ok {
          return None;
        }
        WalkHere(la);
      }
      ghost var s1 := Now();
      var dir := FrameOf(mem[pgdir][Pdx1(la)]);
      if !Present(mem[dir][Pdx0(la)]) {
        var ok := NewLeaves(Vpn(la) / 512, dir);
        if !ok {
          return None;
        }
        WalkHere(la);
        KeptTransitive(s, s1, Now());
        NoneHeldAfter(s, s1, Now(), None);
      }
      return Some(Slot(FrameOf(mem[dir][Pdx0(la)]), Ptx(la)));
    }

    /** What the words on the way down say. */
    lemma WalkHere(la: int)
      requires Valid() && 0 <= la < LOWER_HALF
      ensures pgdir in mem && |mem[pgdir]| == ENTRIES && (Present(mem[pgdir][Pdx1(la)]) <==> Pdx1(la) in t.dirs)
      ensures Pdx1(la) in t.dirs ==>
        && FrameOf(mem[pgdir][Pdx1(la)]) == t.dirs[Pdx1(la)] && t.dirs[Pdx1(la)] in mem
        && |mem[t.dirs[Pdx1(la)]]| == ENTRIES && (Present(mem[t.dirs[Pdx1(la)]][Pdx0(la)]) <==> Vpn(la) / 512 in t.leaves)
      ensures Vpn(la) / 512 in t.leaves ==>
        && Pdx1(la) in t.dirs && FrameOf(mem[t.dirs[Pdx1(la)]][Pdx0(la)]) == t.leaves[Vpn(la) / 512]
        && Points(Slot(t.leaves[Vpn(la) / 512], Ptx(la)), t, mem, Vpn(la))
    {
      hide C.Clock.Valid, Areas.Valid, Sound, Tabled, PteCreate, FrameOf, Pointer;
      SoundTables(Now(), ref, vaddr, disk, maxSwapOffset);
      AddressFields(la);
      WalkDown(mem, t, Vpn(la));
      if Pdx1(la) in t.dirs {
        PointerLeads(t.dirs[Pdx1(la)]);
      }
      if Vpn(la) / 512 in t.leaves {
        PointerLeads(t.leaves[Vpn(la) / 512]);
      }
    }

    /** page_remove_pte, for the pointer to the entry of page `v`. The counts are those of `counts`, but
        perhaps for another frame. All is in order afterwards exactly if the frame is not on the clock
        list. */
    method PageRemovePte(slot: Slot, ghost v: int, ghost counts: map<int, int>)
      requires Sound(Now(), counts, vaddr, disk, maxSwapOffset) && Points(slot, t, mem, v)
      requires Present(t.pte[v]) ==> FrameOf(t.pte[v]) in ref && FrameOf(t.pte[v]) in counts
      requires Present(t.pte[v]) ==> ref[FrameOf(t.pte[v])] == counts[FrameOf(t.pte[v])]
      modifies this
      ensures !Present(old(t).pte[v]) ==> Now() == old(Now()) && ref == old(ref)
      ensures Present(old(t).pte[v]) ==>
        var f := FrameOf(old(t).pte[v]);
        && f in old(names) && Now() == AfterUnmap(old(Now()), v) && ref == DropRef(old(ref), f)
        && (Sound(Now(), DropRef(counts, f), vaddr, disk, maxSwapOffset) <==> f !in clock.members)
      ensures vaddr == old(vaddr) && disk == old(disk) && swapOk == old(swapOk) && Points(slot, t, mem, v)
      ensures t.root == old(t.root)
    {
      hide Sound, FrameOf, PteCreate;
      var pte := mem[slot.frame][slot.index];
      if Present(pte) {
        var p := FrameOf(pte);
        ghost var s := Now();
        Unmapped(s, counts, vaddr, disk, maxSwapOffset, v);
        ref := ref[p := ref[p] - 1];
        if ref[p] == 0 {
          free, ref := free + {p}, ref[p := 0];
        }
        mem := mem[slot.frame := mem[slot.frame][slot.index := 0]];
        t, names, flat := t.(pte := t.pte[v := 0]), names[p := names[p] - {v}], flat - {v};
        assert ref == DropRef(old(ref), p);
        assert Now() == AfterUnmap(s, v);
      }
    }

    /** `page_remove`: all is in order afterwards exactly if the page is not on the clock list. */
    method PageRemove(la: int)
      requires Valid() && 0 <= la < LOWER_HALF
      modifies this
      ensures swapOk == old(swapOk)
      ensures Valid() <==> !(Present(old(Entry(t, Vpn(la)))) && FrameOf(old(Entry(t, Vpn(la)))) in clock.members)
      ensures !Present(old(Entry(t, Vpn(la)))) ==> Now() == old(Now())
      ensures Present(old(Entry(t, Vpn(la)))) ==>
        && Vpn(la) in old(t).pte && FrameOf(old(t).pte[Vpn(la)]) in old(names)
        && Now() == AfterUnmap(old(Now()), Vpn(la))
    {
      hide C.Clock.Valid, Areas.Valid, Sound, FrameOf, Tabled;
      SoundTables(Now(), ref, vaddr, disk, maxSwapOffset);
      var slot := FindPte(la);
      if slot.Some? {
        ghost var v, s := Vpn(la), Now();
        if Present(t.pte[v]) {
          Unmapped(s, ref, vaddr, disk, maxSwapOffset, v);
        }
        PageRemovePte(slot.value, v, ref);
      }
    }

    /** `page_insert`, of any frame: all is in order afterwards exactly if the frame fits. `mid` is the state when
        frames for missing tables have been found. */
    method PageInsert(page: int, la: int, perm: int) returns (ok: bool, ghost mid: Snapshot)
      requires Valid() && 0 <= la < LOWER_HALF && 0 <= perm < 1024 && (swapOk ==> Supply() >= Missing(Vpn(la)))
      requires page in mem
      modifies this, clock
      ensures Parts() && Kept(old(Now()), mid) && swapOk == old(swapOk)
      ensures Valid() <==> !ok || Fits(old(Now()), Vpn(la), page)
      ensures ok <==> swapOk || |old(free)| >= old(Missing(Vpn(la)))
      ensures |old(free)| >= old(Missing(Vpn(la))) ==> forall v :: Entry(mid.t, v) == Entry(old(t), v)
      ensures !ok ==> Now() == mid
      ensures ok ==>
        && page in mid.mem && Vpn(la) in mid.t.pte
        && (Present(mid.t.pte[Vpn(la)]) ==> FrameOf(mid.t.pte[Vpn(la)]) in mid.names)
        && Now() == AfterInsert(mid, Vpn(la), page, perm)
      ensures ok ==> Entry(t, Vpn(la)) == PteCreate(page, perm)
      ensures ok ==> forall v :: v != Vpn(la) ==> Entry(t, v) == Entry(mid.t, v)
      ensures ok && Holding(old(Now()), page) && old(names)[page] == {} ==>
        Entered(mid, Now(), Vpn(la), page, perm) && page in ref && ref[page] == 1
      ensures ok ==> |mid.free| + |mid.ring| == old(Supply()) - old(Missing(Vpn(la)))
    {
      hide C.Clock.Valid, Areas.Valid, Sound, FrameOf, PteCreate, Tabled, Kept, AfterInsert, Fits;
      ghost var s := Now();
      if Present(Entry(t, Vpn(la))) {
        PresentThere(s, ref, vaddr, disk, maxSwapOffset, Vpn(la));
      }
      var ptep := GetPte(la);
      mid := Now();
      if ptep.None? {
        return false, mid;
      }
      if Holding(s, page) {
        KeptHolding(s, mid, page);
      }
      KeptFrames(s, mid);
      FitsStill(s, mid, Vpn(la), page);
      SoundTables(mid, ref, vaddr, disk, maxSwapOffset);
      Replace(ptep.value, Vpn(la), page, perm);
      InsertEntries(mid, Vpn(la), page, perm);
      return true, mid;
    }

    /** The rest of `page_insert`, with the pointer to the entry of page `v`. */
    method Replace(slot: Slot, ghost v: int, page: int, perm: int)
      requires Valid() && Points(slot, t, mem, v) && page in mem && page in ref && 0 <= perm < 1024
      modifies this
      ensures Parts() && swapOk == old(swapOk) && (Present(old(t).pte[v]) ==> FrameOf(old(t).pte[v]) in old(names))
      ensures Now() == AfterInsert(old(Now()), v, page, perm) && (Valid() <==> Fits(old(Now()), v, page))
      ensures Holding(old(Now()), page) && old(names)[page] == {} ==>
        Entered(old(Now()), Now(), v, page, perm) && page in ref && ref[page] == 1
    {
      hide C.Clock.Valid, Areas.Valid, Sound, FrameOf, PteCreate, Tabled, AfterInsert, Fits;
      ghost var s, counts := Now(), ref;
      FrameInserted(s, ref, vaddr, disk, maxSwapOffset, v, page, perm);
      if Holding(s, page) && names[page] == {} {
        InsertedOnce(s, ref, vaddr, disk, maxSwapOffset, v, page, perm);
        NoNames(s, ref, vaddr, disk, maxSwapOffset, page);
      }
      SetEntry(slot, v, page, perm);
    }

    method SetEntry(slot: Slot, ghost v: int, page: int, perm: int)
      requires Sound(Now(), ref, vaddr, disk, maxSwapOffset) && Points(slot, t, mem, v) && page in mem && page in ref
      requires Present(t.pte[v]) ==> FrameOf(t.pte[v]) in names && FrameOf(t.pte[v]) in ref
      modifies this
      ensures Now() == AfterInsert(old(Now()), v, page, perm) && ref == InsertRef(old(t).pte[v], old(ref), page)
      ensures vaddr == old(vaddr) && disk == old(disk) && swapOk == old(swapOk) && t.root == old(t.root)
    {
      hide Sound, FrameOf, PteCreate, AfterMap, AfterRemap, AfterUnmap, DropRef;
      ghost var s, counts := Now(), ref;
      var pte := mem[slot.frame][slot.index];
      ref := ref[page := ref[page] + 1];
      if Present(pte) {
        var p := FrameOf(pte);
        if p == page {
          ref := ref[page := ref[page] - 1];
          assert ref == counts;
          RemapStep(s, v, perm);
          WriteEntry(slot, v, PteCreate(page, perm), names, flat);
          return;
        }
        PageRemovePte(slot, v, counts);
        assert Now() == AfterCleared(s, v);
        DropOther(counts, p, page);
      }
      MapStep(Now(), v, page, perm);
      WriteEntry(slot, v, PteCreate(page, perm), Renamed(names, page, v), flat[v := mem[page]]);
    }

    /** `*ptep = w`, with what that means for names and contents. */
    method WriteEntry(slot: Slot, ghost v: int, w: int, ghost names': map<int, set<int>>, ghost flat': map<int, seq<int>>)
      requires Points(slot, t, mem, v)
      modifies this`mem, this`t, this`names, this`flat
      ensures Now() == Snapshot(old(t).(pte := old(t).pte[v := w]), names', WithWord(old(Now()), v, w), free,
                                clock.members, flat')
    {
      mem := mem[slot.frame := mem[slot.frame][slot.index := w]];
      t, names, flat := t.(pte := t.pte[v := w]), names', flat';
    }

    /** swap_map_swappable, and the address of the page noted in `pra_vaddr`. */
    method MakeSwappable(page: int, la: int)
      requires Parts() && Holding(Now(), page) && page in mem && page >= 0 && names[page] == {Vpn(la)}
      requires 0 <= la && PgOff(la) == 0 && Vpn(la) + 1 < maxSwapOffset
      modifies this, clock
      ensures Parts() && (Valid() <==> old(Valid())) && swapOk == old(swapOk)
      ensures Now() == old(Now()).(ring := old(clock.members) + {page})
      ensures vaddr == old(vaddr)[page := la] && ref == old(ref)
      ensures clock.ring == old(clock.ring) + [page] && clock.visited == old(clock.visited)[page := true]
    {
      hide C.Clock.Valid, Areas.Valid, Sound, Vpn, PgOff;
      if Sound(Now(), ref, vaddr, disk, maxSwapOffset) {
        JoinedSound(Now(), ref, vaddr, disk, maxSwapOffset, page, la);
      } else if Sound(Now().(ring := clock.members + {page}), ref, vaddr[page := la], disk, maxSwapOffset) {
        JoinedWas(Now(), ref, vaddr, disk, maxSwapOffset, page, la);
      }
      clock.MapSwappable(page);
      vaddr := vaddr[page := la];
    }

    /** `pgdir_alloc_page`: all is in order afterwards exactly if the page's own frame, if it still has one, is not on
        the clock list. `first` is the state when the frame has been allocated, `mid` when those for missing
        tables have been. */
    method PgdirAllocPage(la: int, perm: int) returns (r: Option<int>, ghost first: Snapshot, ghost mid: Snapshot)
      requires Valid() && 0 <= la < LOWER_HALF && PgOff(la) == 0 && 0 <= perm < 1024
      requires swapOk ==> Supply() >= Missing(Vpn(la)) + 1 && Vpn(la) + 1 < maxSwapOffset
      modifies this, clock
      ensures Parts() && swapOk == old(swapOk) && Kept(old(Now()), first) && Kept(old(Now()), mid)
      ensures Valid() <==> r.None? || !Present(Entry(first.t, Vpn(la))) || FrameOf(Entry(first.t, Vpn(la))) !in first.ring
      ensures old(free) != {} ==> Entry(first.t, Vpn(la)) == Entry(old(t), Vpn(la)) && first.ring == old(clock.members)
      ensures r.None? <==> !swapOk && |old(free)| <= old(Missing(Vpn(la)))
      ensures r.None? ==> Now() == mid
      ensures r.Some? ==> !Holding(old(Now()), r.value) && Entered(mid, Now().(ring := mid.ring), Vpn(la), r.value, perm)
      ensures r.Some? ==> r.value in ref && ref[r.value] == 1
      ensures r.Some? ==> clock.members == mid.ring + if swapOk then {r.value} else {}
      ensures r.Some? ==> |mid.free| + |mid.ring| == old(Supply()) - old(Missing(Vpn(la))) - 1
    {
      hide C.Clock.Valid, Areas.Valid, Sound, Vpn, PgOff, FrameOf, PteCreate, Kept, AfterInsert, KeptBut, Entered;
      ghost var s := Now();
      r := AllocPage();
      first, mid := Now(), Now();
      KeptRefl(first);
      if r.None? {
        return;
      }
      NoNames(first, ref, vaddr, disk, maxSwapOffset, r.value);
      Unentered(first, ref, vaddr, disk, maxSwapOffset, Vpn(la), r.value);
      var ok;
      ok, mid := PageInsert(r.value, la, perm);
      KeptTransitive(s, first, mid);
      if !ok {
        KeptHolding(first, mid, r.value);
        FreePage(r.value);
        KeptAfter(s, mid, Now(), r);
        return None, first, Now();
      }
      EnteredFacts(mid, Now(), Vpn(la), r.value, perm);
      if swapOk {
        MakeSwappable(r.value, la);
      }
    }

    /** free_page of a frame that no page names. */
    method FreePage(page: int)
      requires Valid() && Holding(Now(), page) && names[page] == {}
      modifies this
      ensures Valid() && KeptBut(old(Now()), Now(), Some(page)) && swapOk == old(swapOk)
    {
      hide C.Clock.Valid, Areas.Valid, Sound, KeptBut;
      Released(Now(), ref, vaddr, disk, maxSwapOffset, page);
      ref, free := ref[page := 0], free + {page};
    }

    /** `swap_in` of a page that was evicted: a frame filled from the page's slot. */
    method SwapIn(addr: int) returns (page: int)
      requires Valid() && swapOk && Supply() >= 1 && 0 <= addr < LOWER_HALF && Vpn(addr) in t.pte
      requires !Present(t.pte[Vpn(addr)]) && t.pte[Vpn(addr)] != 0
      modifies this, clock
      ensures Valid() && Kept(old(Now()), Now()) && swapOk && Supply() == old(Supply()) - 1
      ensures Holding(Now(), page) && !Holding(old(Now()), page) && names[page] == {} && page in mem
      ensures Vpn(addr) in old(flat) && mem[page] == old(flat)[Vpn(addr)]
      ensures t.leaves == old(t.leaves) && t.dirs == old(t.dirs)
    {
      hide C.Clock.Valid, Areas.Valid, Sound, Vpn, SwapEntry, SwapOffset, Kept, KeptBut, Tabled;
      ghost var s, v := Now(), Vpn(addr);
      var result := AllocPage();
      page := result.value;
      ghost var s1 := Now();
      KeptEntries(s, s1, v);
      SoundTables(s1, ref, vaddr, disk, maxSwapOffset);
      var ptep := FindPte(addr);
      var entry := mem[ptep.value.frame][ptep.value.index];
      SlotShown(s1, ref, vaddr, disk, maxSwapOffset, v);
      HeldWritten(s1, ref, vaddr, disk, maxSwapOffset, page, disk[SwapOffset(entry)]);
      mem := mem[page := disk[SwapOffset(entry)]];
      assert Now() == s1.(mem := s1.mem[page := disk[SwapOffset(entry)]]);
      KeptAfter(s, s1, Now(), Some(page));
    }

    lemma NothingMissing(la: int)
      requires Valid() && Vpn(la) in t.pte
      ensures Missing(Vpn(la)) == 0 && 0 <= Vpn(la) < PAGES
    {
      hide C.Clock.Valid, Areas.Valid, Sound, Vpn, Tabled;
      SoundTables(Now(), ref, vaddr, disk, maxSwapOffset);
      TableThere(mem, t, Vpn(la));
    }

    /** The page was never touched: it gets a frame, with whatever is in it. */
    method FirstTouch(la: int, perm: int) returns (r: Fault, ghost f: int)
      requires Valid() && 0 <= la < LOWER_HALF && PgOff(la) == 0 && 0 <= perm < 1024 && Missing(Vpn(la)) == 0
      requires (swapOk ==> Supply() >= 1 && Vpn(la) + 1 < maxSwapOffset) && Entry(t, Vpn(la)) == 0
      modifies this, clock
      ensures Valid() && swapOk == old(swapOk)
      ensures r == if old(swapOk) || old(free) != {} then Handled else NoMemory
      ensures r.NoMemory? ==> Kept(old(Now()), Now())
      ensures r.Handled? ==> PageServed(old(Now()), Now(), Vpn(la), f, perm) && (old(swapOk) ==> f in clock.members)
      ensures r.Handled? && old(swapOk) ==> Supply() == old(Supply())
    {
      hide C.Clock.Valid, Areas.Valid, Sound, Vpn, SwapEntry, Kept, PteCreate, FrameOf, PgOff, PageServed;
      ghost var s := Now();
      NotTouched(s, ref, vaddr, disk, maxSwapOffset, Vpn(la));
      var page, first, mid := PgdirAllocPage(la, perm);
      KeptEntries(s, first, Vpn(la));
      if page.None? {
        return NoMemory, 0;
      }
      KeptEntries(s, mid, Vpn(la));
      ServedLast(s, mid, Now(), Vpn(la), page.value, perm);
      return Handled, page.value;
    }

    /** The page was evicted: it comes back from its slot. */
    method Reload(la: int, perm: int) returns (page: int)
      requires Valid() && 0 <= la < LOWER_HALF && PgOff(la) == 0 && 0 <= perm < 1024 && Missing(Vpn(la)) == 0
      requires swapOk && Supply() >= 1 && Vpn(la) + 1 < maxSwapOffset
      requires Vpn(la) in t.pte && !Present(t.pte[Vpn(la)]) && t.pte[Vpn(la)] != 0
      modifies this, clock
      ensures Valid() && swapOk && Supply() == old(Supply())
      ensures PageServed(old(Now()), Now(), Vpn(la), page, perm) && page in clock.members
    {
      hide C.Clock.Valid, Areas.Valid, Sound, Vpn, SwapEntry, Kept, PteCreate, FrameOf, PgOff, PageServed, AfterInsert;
      ghost var s := Now();
      page := SwapIn(la);
      ghost var s1 := Now();
      NoNames(s1, ref, vaddr, disk, maxSwapOffset, page);
      KeptEntries(s, s1, Vpn(la));
      var ok, mid := PageInsert(page, la, perm);
      KeptTransitive(s, s1, mid);
      KeptHolding(s1, mid, page);
      KeptEntries(s1, mid, Vpn(la));
      MakeSwappable(page, la);
      ServedLast(s, mid, Now(), Vpn(la), page, perm);
    }

    /** `do_pgfault`, for a page whose entry is not valid. */
    method DoPgfault(addr: int) returns (r: Fault, ghost f: int, ghost area: Area)
      requires Valid() && 0 <= addr && !Present(Entry(t, Vpn(addr)))
      requires if swapOk then InRange(areas.list, maxSwapOffset) else InLowerHalf(areas.list)
      requires swapOk ==> Supply() >= Missing(Vpn(addr)) + 1
      modifies this, clock, areas`cache
      ensures Valid() && swapOk == old(swapOk)
      ensures r.InvalidAddress? <==> !exists a :: a in areas.list && a.Contains(addr)
      ensures r.InvalidAddress? ==> Now() == old(Now())
      ensures !r.InvalidAddress? && old(swapOk) ==> r.Handled?
      ensures r.NullEntry? <==> !r.InvalidAddress? && !old(swapOk) && |old(free)| < old(Missing(Vpn(addr)))
      ensures r.NoMemory? <==>
        && !r.InvalidAddress? && !old(swapOk) && |old(free)| >= old(Missing(Vpn(addr)))
        && (old(Entry(t, Vpn(addr))) != 0 || |old(free)| == old(Missing(Vpn(addr))))
      ensures r.NoMemory? || r.NullEntry? ==> Kept(old(Now()), Now())
      ensures r.Handled? ==> area in areas.list && area.Contains(addr) && (old(swapOk) ==> f in clock.members)
      ensures r.Handled? ==> PageServed(old(Now()), Now(), Vpn(addr), f, Permissions(area))
      ensures r.Handled? ==>
        var e := Entry(t, Vpn(addr));
        && Present(e) && FrameOf(e) == f && UserBit(e) && !ExecuteBit(e)
        && (ReadBit(e) <==> area.flags / 2 % 2 == 1) && (WriteBit(e) <==> area.flags / 2 % 2 == 1)
      ensures r.Handled? && old(swapOk) ==> Supply() == old(Supply()) - old(Missing(Vpn(addr)))
    {
      hide C.Clock.Valid, Areas.Valid, Sound, Vpn, SwapEntry, Kept, KeptBut, Tabled, PteCreate, FrameOf, AfterInsert,
           PgOff, RoundDown, PageServed, UserBit, ExecuteBit, ReadBit, WriteBit;
      ghost var s, v := Now(), Vpn(addr);
      f, area := 0, Area(0, 0, 0);
      var vma := areas.Find(addr);
      if vma.None? || vma.value.start > addr {
        return InvalidAddress, f, area;
      }
      area := vma.value;
      FaultInRange(areas.list, vma.value, addr, maxSwapOffset, swapOk);
      var perm := Permissions(vma.value);
      var la := RoundDown(addr);
      var ptep := GetPte(la);
      ghost var s1 := Now();
      KeptEntries(s, s1, v);
      if ptep.None? {
        return NullEntry, f, area;
      }
      NothingMissing(la);
      if mem[ptep.value.frame][ptep.value.index] == 0 {
        r, f := FirstTouch(la, perm);
      } else if swapOk {
        f := Reload(la, perm);
        r := Handled;
      } else {
        KeptRefl(s1);
        r := NoMemory;
      }
      if r.Handled? {
        ServedAfter(s, s1, Now(), v, f, perm);
        ServedBits(s, Now(), ref, vaddr, disk, maxSwapOffset, v, f, area);
      } else {
        KeptTransitive(s, s1, Now());
      }
    }
  }

  /** A frame's reference count is the number of pages whose valid entries name it; a free frame is
      named by none. */
  lemma RefCounts(m: AddressSpace, f: int)
    requires m.Valid() && f in m.mem && f !in m.t.role
    ensures f in m.names && f in m.ref && m.ref[f] == |m.names[f]| && (f in m.free ==> m.ref[f] == 0)
    ensures forall v :: v in m.names[f] <==> v in m.t.pte && Present(m.t.pte[v]) && FrameOf(m.t.pte[v]) == f
  {
    hide C.Clock.Valid, Areas.Valid, Tabled, Backed, Shown, FrameOf;
  }

  /** Removing a mapping frees the frame exactly when no other entry names it, and changes no other
      entry. */
  lemma FreedAtZero(s: Snapshot, ref: map<int, int>, vaddr: map<int, int>, disk: map<int, seq<int>>, max: int, v: int)
    requires Sound(s, ref, vaddr, disk, max) && v in s.t.pte && Present(s.t.pte[v]) && FrameOf(s.t.pte[v]) !in s.ring
    ensures var f := FrameOf(s.t.pte[v]);
      && f in s.names && (f in AfterUnmap(s, v).free <==> AfterUnmap(s, v).names[f] == {})
      && (forall x :: x != v ==> Entry(AfterUnmap(s, v).t, x) == Entry(s.t, x)) && Entry(AfterUnmap(s, v).t, v) == 0
      && forall g :: g != f ==> (g in AfterUnmap(s, v).free <==> g in s.free)
  {
    hide FrameOf, Tabled, Backed;
    NamedFrame(s, ref, disk, v);
  }
}
