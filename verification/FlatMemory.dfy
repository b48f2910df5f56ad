/** Swapping is transparent: any run of loads, stores and evictions, with the page faults they take,
    behaves like a flat memory. Memory is accessed in words of eight bytes. */
module FlatMemory {
  import opened Sv39
  import opened PageTables
  import opened Frames
  import opened Vma
  import opened Sets
  import opened Paging
  import C = Clock

  datatype Event = Load(la: int) | Store(la: int, w: int) | Evict

  datatype Outcome = Loaded(w: int) | Done | Failed

  function WordOf(la: int): int { PgOff(la) / 8 }

  /** Two addresses are of the same word of the same page exactly if they lie in the same eight bytes. */
  lemma SameWord(a: int, b: int)
    ensures Vpn(a) == Vpn(b) && WordOf(a) == WordOf(b) <==> a / 8 == b / 8
  {
    assert a / 8 == Vpn(a) * 512 + WordOf(a);
    assert b / 8 == Vpn(b) * 512 + WordOf(b);
  }

  /** A page handed out by the fault handler can be used exactly if its area is writable; only then
      does its entry say that it may be read. */
  lemma UsableIfWritable(f: int, a: Area)
    requires f >= 0
    ensures LeafEntry(PteCreate(f, Permissions(a))) <==> a.flags / 2 % 2 == 1
    ensures WriteBit(PteCreate(f, Permissions(a))) <==> a.flags / 2 % 2 == 1
    ensures UserBit(PteCreate(f, Permissions(a)))
    ensures Present(PteCreate(f, Permissions(a))) && FrameOf(PteCreate(f, Permissions(a))) == f
  {
    PermissionBits(f, a);
  }

  /** Areas made of whole pages. */
  ghost predicate PageAligned(list: seq<Area>) {
    forall a :: a in list ==> a.start % PAGE_SIZE == 0 && a.end % PAGE_SIZE == 0
  }

  /** The address lies in an area that may be written. */
  ghost predicate MayAccess(list: seq<Area>, la: int) {
    exists a :: a in list && a.Contains(la) && a.Writable()
  }

  /** The valid entry of page `v` is the one that the fault handler makes for an area holding the page. */
  ghost predicate FromArea(e: int, v: int, list: seq<Area>) {
    exists a :: a in list && a.Contains(v * PAGE_SIZE) && e == PteCreate(FrameOf(e), Permissions(a))
  }

  /** All valid entries belong to pages that came by faults. */
  ghost predicate Faulted(s: Snapshot, list: seq<Area>) {
    forall v :: v in s.t.pte && Present(s.t.pte[v]) ==>
      FrameOf(s.t.pte[v]) in s.ring && FromArea(s.t.pte[v], v, list)
  }

  lemma KeptFaulted(s: Snapshot, s': Snapshot, list: seq<Area>)
    requires Kept(s, s') && Faulted(s, list)
    ensures Faulted(s', list)
  {
    hide FrameOf, SwapEntry, FromArea;
    forall v | v in s'.t.pte && Present(s'.t.pte[v])
      ensures FrameOf(s'.t.pte[v]) in s'.ring && FromArea(s'.t.pte[v], v, list)
    {
      assert EntryKept(s, s', v);
      SwapEntryAbsent(v);
    }
  }

  /** In page-aligned areas, an address and its page are in the same areas. */
  lemma PageInArea(list: seq<Area>, a: Area, la: int)
    requires PageAligned(list) && a in list
    ensures a.Contains(la) <==> a.Contains(Vpn(la) * PAGE_SIZE)
  {
  }

  lemma ServedFaulted(s: Snapshot, s': Snapshot, la: int, f: int, a: Area, list: seq<Area>)
    requires PageServed(s, s', Vpn(la), f, Permissions(a)) && Faulted(s, list) && f in s'.ring && f >= 0
    requires PageAligned(list) && a in list && a.Contains(la)
    ensures Faulted(s', list)
  {
    hide FrameOf, SwapEntry, PteCreate, PageAligned, Vpn;
    PteRoundTrip(f, Permissions(a));
    PageInArea(list, a, la);
    forall x | x in s'.t.pte && Present(s'.t.pte[x])
      ensures FrameOf(s'.t.pte[x]) in s'.ring && FromArea(s'.t.pte[x], x, list)
    {
      if x != Vpn(la) {
        assert EntryKept(s, s', x);
        SwapEntryAbsent(x);
      }
    }
  }

  lemma WritableArea(list: seq<Area>, area: Area, la: int)
    requires Ascending(list) && area in list && area.Contains(la)
    ensures area.Writable() <==> MayAccess(list, la)
  {
    if a :| a in list && a.Contains(la) && a.Writable() {
      OneArea(list, a, area, la);
    }
  }

  /** A valid entry can be used exactly if the address may be accessed. */
  lemma ValidUsable(e: int, la: int, list: seq<Area>)
    requires FromArea(e, Vpn(la), list) && PageAligned(list) && Ascending(list) && FrameOf(e) >= 0
    ensures LeafEntry(e) <==> MayAccess(list, la)
    ensures LeafEntry(e) ==> WriteBit(e)
  {
    hide FrameOf, PteCreate, PageAligned, Vpn, LeafEntry, Permissions, Ascending;
    var a :| a in list && a.Contains(Vpn(la) * PAGE_SIZE) && e == PteCreate(FrameOf(e), Permissions(a));
    PageInArea(list, a, la);
    WritableArea(list, a, la);
    UsableIfWritable(FrameOf(e), a);
  }

  /** At most page `v` was touched for the first time. */
  ghost predicate Grown(flat: map<int, seq<int>>, flat': map<int, seq<int>>, v: int) {
    flat' == flat || (v in flat' && flat' == flat[v := flat'[v]] && (v in flat ==> flat'[v] == flat[v]))
  }

  /** One event on a flat memory: pages that were never touched hold anything, and exactly the addresses
      in the writable ones of the areas can be accessed. */
  ghost predicate FlatStep(flat: map<int, seq<int>>, list: seq<Area>, e: Event, o: Outcome, flat': map<int, seq<int>>) {
    match e
    case Load(la) =>
      && Grown(flat, flat', Vpn(la)) && (if MayAccess(list, la) then o.Loaded? else o.Failed?)
      && (o.Loaded? ==> Vpn(la) in flat' && WordOf(la) < |flat'[Vpn(la)]| && o.w == flat'[Vpn(la)][WordOf(la)])
    case Store(la, w) =>
      && (if MayAccess(list, la) then o.Done? else o.Failed?)
      && (o.Failed? ==> Grown(flat, flat', Vpn(la)))
      && (o.Done? ==> exists base :: StoredIn(flat, flat', Vpn(la), WordOf(la), w, base))
    case Evict => o.Done? && flat' == flat
  }

  ghost predicate StoredIn(flat: map<int, seq<int>>, flat': map<int, seq<int>>, v: int, i: int, w: int, base: seq<int>) {
    && |base| == ENTRIES && 0 <= i < ENTRIES && (v in flat ==> base == flat[v])
    && flat' == flat[v := base[i := w]]
  }

  /** A run on a flat memory, state by state. */
  ghost predicate FlatRun(flats: seq<map<int, seq<int>>>, list: seq<Area>, events: seq<Event>, outcomes: seq<Outcome>)
  {
    && |outcomes| <= |events| && |flats| == |outcomes| + 1
    && forall k :: 0 <= k < |outcomes| ==> StepAt(flats, list, events, outcomes, k)
  }

  ghost predicate StepAt(flats: seq<map<int, seq<int>>>, list: seq<Area>, events: seq<Event>, outcomes: seq<Outcome>,
                         k: int)
    requires 0 <= k < |outcomes| <= |events| && |flats| == |outcomes| + 1
  {
    FlatStep(flats[k], list, events[k], outcomes[k], flats[k + 1])
  }

  lemma RunExtended(flats: seq<map<int, seq<int>>>, list: seq<Area>, events: seq<Event>,
                    outcomes: seq<Outcome>, o: Outcome, flat: map<int, seq<int>>)
    requires FlatRun(flats, list, events, outcomes) && |outcomes| < |events|
    requires FlatStep(flats[|outcomes|], list, events[|outcomes|], o, flat)
    ensures FlatRun(flats + [flat], list, events, outcomes + [o])
  {
    hide FlatStep;
    var f, os := flats + [flat], outcomes + [o];
    forall k | 0 <= k < |os| ensures StepAt(f, list, events, os, k) {
      assert k < |outcomes| ==> StepAt(flats, list, events, outcomes, k);
    }
  }

  /** Whether the `k`-th event stored to word `i` of page `v`. */
  ghost predicate StoresTo(events: seq<Event>, outcomes: seq<Outcome>, k: int, v: int, i: int)
    requires 0 <= k < |outcomes| <= |events|
  {
    events[k].Store? && outcomes[k].Done? && Vpn(events[k].la) == v && WordOf(events[k].la) == i
  }

  lemma {:induction false} WordKept(flats: seq<map<int, seq<int>>>, list: seq<Area>, events: seq<Event>,
                                    outcomes: seq<Outcome>, v: int, i: int, j: int, k: int)
    requires FlatRun(flats, list, events, outcomes) && 0 <= j <= k <= |outcomes|
    requires v in flats[j] && 0 <= i < |flats[j][v]|
    requires forall n :: j <= n < k ==> !StoresTo(events, outcomes, n, v, i)
    ensures v in flats[k] && i < |flats[k][v]| && flats[k][v][i] == flats[j][v][i]
    decreases k
  {
    if j < k {
      WordKept(flats, list, events, outcomes, v, i, j, k - 1);
      assert StepAt(flats, list, events, outcomes, k - 1);
      assert !StoresTo(events, outcomes, k - 1, v, i);
    }
  }

  /** Nothing was stored to the eight bytes of number `w` by the events after `j` and before `k`. */
  ghost predicate NotStored(events: seq<Event>, outcomes: seq<Outcome>, w: int, j: int, k: int)
    requires -1 <= j && k <= |outcomes| <= |events|
  {
    forall n :: j < n < k && events[n].Store? && events[n].la / 8 == w ==> !outcomes[n].Done?
  }

  lemma NotStoredTo(events: seq<Event>, outcomes: seq<Outcome>, la: int, j: int, k: int)
    requires -1 <= j && k <= |outcomes| <= |events| && NotStored(events, outcomes, la / 8, j, k)
    ensures forall n :: j < n < k ==> !StoresTo(events, outcomes, n, Vpn(la), WordOf(la))
  {
    hide Vpn, WordOf;
    forall n | j < n < k ensures !StoresTo(events, outcomes, n, Vpn(la), WordOf(la)) {
      if events[n].Store? { SameWord(events[n].la, la); }
    }
  }

  /** A load gives the value last stored to the eight bytes of its address. */
  lemma LastStoreIsRead(flats: seq<map<int, seq<int>>>, list: seq<Area>, events: seq<Event>, outcomes: seq<Outcome>,
                        j: int, k: int)
    requires FlatRun(flats, list, events, outcomes) && 0 <= j < k < |outcomes|
    requires events[k].Load? && outcomes[k].Loaded? && events[j].Store? && outcomes[j].Done?
    requires events[j].la / 8 == events[k].la / 8 && NotStored(events, outcomes, events[k].la / 8, j, k)
    ensures outcomes[k].w == events[j].w
  {
    var v, i := Vpn(events[k].la), WordOf(events[k].la);
    SameWord(events[j].la, events[k].la);
    NotStoredTo(events, outcomes, events[k].la, j, k);
    assert StepAt(flats, list, events, outcomes, j) && StepAt(flats, list, events, outcomes, k);
    WordKept(flats, list, events, outcomes, v, i, j + 1, k);
  }

  /** Two loads of a word agree when nothing was stored to it in between. */
  lemma LoadsAgree(flats: seq<map<int, seq<int>>>, list: seq<Area>, events: seq<Event>, outcomes: seq<Outcome>,
                   j: int, k: int)
    requires FlatRun(flats, list, events, outcomes) && 0 <= j < k < |outcomes|
    requires events[j].Load? && outcomes[j].Loaded? && events[k].Load? && outcomes[k].Loaded?
    requires events[j].la / 8 == events[k].la / 8 && NotStored(events, outcomes, events[k].la / 8, j, k)
    ensures outcomes[k].w == outcomes[j].w
  {
    var v, i := Vpn(events[k].la), WordOf(events[k].la);
    SameWord(events[j].la, events[k].la);
    NotStoredTo(events, outcomes, events[k].la, j, k);
    assert StepAt(flats, list, events, outcomes, j) && StepAt(flats, list, events, outcomes, k);
    assert 0 <= i;
    WordKept(flats, list, events, outcomes, v, i, j + 1, k);
  }

  /** Exactly the accesses of addresses in areas with VM_WRITE succeed. */
  lemma AccessesFail(flats: seq<map<int, seq<int>>>, list: seq<Area>, events: seq<Event>, outcomes: seq<Outcome>,
                     k: int)
    requires FlatRun(flats, list, events, outcomes) && 0 <= k < |outcomes| && !events[k].Evict?
    ensures outcomes[k].Failed? <==>
      !exists a :: a in list && a.start <= events[k].la < a.end && a.flags / 2 % 2 == 1
    ensures !outcomes[k].Failed? ==> if events[k].Load? then outcomes[k].Loaded? else outcomes[k].Done?
  {
    hide Grown;
    assert StepAt(flats, list, events, outcomes, k);
    if a :| a in list && a.start <= events[k].la < a.end && a.flags / 2 % 2 == 1 {
      assert a.Contains(events[k].la) && a.Writable();
    }
  }

  /** What is known of a valid entry. */
  lemma ValidEntry(m: AddressSpace, v: int)
    requires m.Valid() && v in m.t.pte && Present(m.t.pte[v])
    ensures FrameOf(m.t.pte[v]) in m.mem && FrameOf(m.t.pte[v]) in m.names
    ensures v in m.flat && m.flat[v] == m.mem[FrameOf(m.t.pte[v])] && |m.flat[v]| == ENTRIES
  {
    hide C.Clock.Valid, Areas.Valid, Tabled, Counted, Backed, Shown, FrameOf;
    NamedFrame(m.Now(), m.ref, m.disk, v);
  }

  lemma MemberFrame(m: AddressSpace, f: int)
    requires m.Valid() && f in m.clock.members
    ensures f >= 0 && f in m.mem
  {
    hide C.Clock.Valid, Areas.Valid, Tabled, Shown;
    BackedMember(m.Now(), m.disk, m.vaddr, m.maxSwapOffset, f);
    NotNegative(m.Now(), m.ref, f);
  }

  lemma Walked(m: AddressSpace, la: int)
    requires m.Valid() && 0 <= la < LOWER_HALF
    ensures Tabled(m.mem, m.t) && m.t.root == m.pgdir
    ensures var e := Entry(m.t, Vpn(la));
      HardwareWalk(m.mem, m.pgdir, la, 2) == (if LeafEntry(e) then e else 0) && (LeafEntry(e) ==> e != 0)
  {
    hide C.Clock.Valid, Areas.Valid, Tabled, Counted, Backed, Shown;
    HardwareRefinesMap(m.mem, m.t, la);
  }

  /** Frames were spent on tables for page `v` alone. */
  ghost predicate Accounted(t: Tables, t': Tables, supply: nat, supply': nat, v: int) {
    || supply' == supply
    || (HasTables(t', v)
        && supply' == supply - (if v / 512 / 512 in t.dirs then 0 else 1) - (if v / 512 in t.leaves then 0 else 1))
  }

  lemma ServedFacts(s: Snapshot, s': Snapshot, v: int, f: int, kind: int)
    requires PageServed(s, s', v, f, kind)
    ensures Grown(s.flat, s'.flat, v) && Entry(s'.t, v) == PteCreate(f, kind)
    ensures MoreTables(s.t, s'.t) && HasTables(s'.t, v)
  {
  }

  lemma FaultedEntry(m: AddressSpace, v: int)
    requires m.Valid() && Faulted(m.Now(), m.areas.list) && Present(Entry(m.t, v))
    ensures v in m.t.pte && FrameOf(m.t.pte[v]) in m.clock.members && FrameOf(m.t.pte[v]) in m.mem
    ensures FromArea(m.t.pte[v], v, m.areas.list)
  {
    hide AddressSpace.Valid, FrameOf, FromArea;
    ValidEntry(m, v);
  }

  lemma AreasValid(m: AddressSpace)
    requires m.Valid()
    ensures Ascending(m.areas.list)
  {
    hide C.Clock.Valid, Sound;
  }

  /** The hardware finds the frame for an access, taking a page fault when it does not; a fault on an
      entry that is valid is not resolved. */
  method Access(m: AddressSpace, la: int, write: bool) returns (ok: bool, frame: int)
    requires m.Valid() && m.swapOk && InRange(m.areas.list, m.maxSwapOffset) && PageAligned(m.areas.list)
    requires Faulted(m.Now(), m.areas.list)
    requires 0 <= la < LOWER_HALF
    requires !Present(Entry(m.t, Vpn(la))) ==> m.Supply() >= m.Missing(Vpn(la)) + 1
    modifies m, m.clock, m.areas`cache
    ensures m.Valid() && m.swapOk && Faulted(m.Now(), m.areas.list) && Grown(old(m.flat), m.flat, Vpn(la))
    ensures MoreTables(old(m.t), m.t) && Accounted(old(m.t), m.t, old(m.Supply()), m.Supply(), Vpn(la))
    ensures ok ==>
      && Vpn(la) in m.t.pte && Present(m.t.pte[Vpn(la)]) && frame == FrameOf(m.t.pte[Vpn(la)])
      && frame in m.clock.members && frame in m.mem
    ensures ok <==> MayAccess(m.areas.list, la)
    ensures Present(old(Entry(m.t, Vpn(la)))) ==> m.Now() == old(m.Now())
  {
    hide AddressSpace.Valid, FrameOf, PteCreate, Vpn, Tabled, PageServed, Faulted, InRange, Kept, KeptBut,
         SwapEntry, Ascending, PageAligned, LeafEntry, MayAccess;
    frame := 0;
    Walked(m, la);
    if Present(Entry(m.t, Vpn(la))) { EntryUsable(m, la); }
    var pte := HardwareWalk(m.mem, m.pgdir, la, 2);
    if pte == 0 || (write && !WriteBit(pte)) {
      var slot := m.FindPte(la);
      if slot.Some? && Present(m.mem[slot.value.frame][slot.value.index]) {
        return false, 0;
      }
      ghost var s := m.Now();
      var r, f, area := m.DoPgfault(la);
      if !r.Handled? {
        NotInArea(m.areas.list, la);
        return false, 0;
      }
      MemberFrame(m, f);
      ServedFacts(s, m.Now(), Vpn(la), f, Permissions(area));
      ServedFaulted(s, m.Now(), la, f, area, m.areas.list);
      UsableIfWritable(f, area);
      EntryUsable(m, la);
      Walked(m, la);
      pte := HardwareWalk(m.mem, m.pgdir, la, 2);
      if pte == 0 || (write && !WriteBit(pte)) {
        return false, 0;
      }
    }
    FaultedEntry(m, Vpn(la));
    frame := FrameOf(pte);
    ok := true;
  }

  /** A page that is mapped can be used exactly if it may be accessed. */
  lemma EntryUsable(m: AddressSpace, la: int)
    requires m.Valid() && Faulted(m.Now(), m.areas.list) && PageAligned(m.areas.list) && Present(Entry(m.t, Vpn(la)))
    ensures LeafEntry(Entry(m.t, Vpn(la))) <==> MayAccess(m.areas.list, la)
    ensures LeafEntry(Entry(m.t, Vpn(la))) ==> WriteBit(Entry(m.t, Vpn(la)))
  {
    hide AddressSpace.Valid, FrameOf, FromArea, PageAligned, Ascending, LeafEntry, MayAccess, Vpn, Faulted;
    FaultedEntry(m, Vpn(la));
    MemberFrame(m, FrameOf(m.t.pte[Vpn(la)]));
    AreasValid(m);
    ValidUsable(m.t.pte[Vpn(la)], la, m.areas.list);
  }

  lemma NotInArea(list: seq<Area>, la: int)
    requires !exists a :: a in list && a.Contains(la)
    ensures !MayAccess(list, la)
  {
  }

  /** A store to a page that came by a fault changes that page alone. */
  lemma StoreSound(s: Snapshot, ref: map<int, int>, vaddr: map<int, int>, disk: map<int, seq<int>>, max: int,
                   v: int, i: int, w: int)
    requires Sound(s, ref, vaddr, disk, max) && v in s.t.pte && Present(s.t.pte[v]) && 0 <= i < ENTRIES
    requires FrameOf(s.t.pte[v]) in s.ring && FrameOf(s.t.pte[v]) in s.mem
    ensures v in s.flat && |s.flat[v]| == ENTRIES && s.flat[v] == s.mem[FrameOf(s.t.pte[v])]
    ensures var f := FrameOf(s.t.pte[v]);
      Sound(s.(mem := s.mem[f := s.mem[f][i := w]], flat := s.flat[v := s.flat[v][i := w]]), ref, vaddr, disk, max)
  {
    hide FrameOf, Tabled, Shown, Named, Backed, Vpn;
    var f := FrameOf(s.t.pte[v]);
    NamedFrame(s, ref, disk, v);
    BackedMember(s, disk, vaddr, max, f);
    SoundTables(s, ref, vaddr, disk, max);
    DataWritten(s.mem, s.t, f, s.mem[f][i := w]);
    assert s.t.pte[v] != 0;
    Stored(s.t.pte, s.mem, disk, s.flat, s.names, v, s.mem[f][i := w]);
    assert s.mem[f := s.mem[f][i := w]].Keys == s.mem.Keys;
  }

  method LoadWord(m: AddressSpace, la: int) returns (o: Outcome)
    requires m.Valid() && m.swapOk && InRange(m.areas.list, m.maxSwapOffset) && PageAligned(m.areas.list)
    requires Faulted(m.Now(), m.areas.list)
    requires 0 <= la < LOWER_HALF
    requires !Present(Entry(m.t, Vpn(la))) ==> m.Supply() >= m.Missing(Vpn(la)) + 1
    modifies m, m.clock, m.areas`cache
    ensures m.Valid() && m.swapOk && Faulted(m.Now(), m.areas.list)
    ensures FlatStep(old(m.flat), m.areas.list, Load(la), o, m.flat)
    ensures MoreTables(old(m.t), m.t) && Accounted(old(m.t), m.t, old(m.Supply()), m.Supply(), Vpn(la))
  {
    hide AddressSpace.Valid, FrameOf, Vpn, Faulted, InRange;
    var ok, frame := Access(m, la, false);
    if !ok {
      return Failed;
    }
    ValidEntry(m, Vpn(la));
    return Loaded(m.mem[frame][WordOf(la)]);
  }

  method StoreWord(m: AddressSpace, la: int, w: int) returns (o: Outcome)
    requires m.Valid() && m.swapOk && InRange(m.areas.list, m.maxSwapOffset) && PageAligned(m.areas.list)
    requires Faulted(m.Now(), m.areas.list)
    requires 0 <= la < LOWER_HALF
    requires !Present(Entry(m.t, Vpn(la))) ==> m.Supply() >= m.Missing(Vpn(la)) + 1
    modifies m, m.clock, m.areas`cache
    ensures m.Valid() && m.swapOk && Faulted(m.Now(), m.areas.list)
    ensures FlatStep(old(m.flat), m.areas.list, Store(la, w), o, m.flat)
    ensures MoreTables(old(m.t), m.t) && Accounted(old(m.t), m.t, old(m.Supply()), m.Supply(), Vpn(la))
  {
    hide AddressSpace.Valid, FrameOf, Vpn, Grown, InRange, Sound, Faulted;
    var ok, frame := Access(m, la, true);
    if !ok {
      return Failed;
    }
    ghost var s, v := m.Now(), Vpn(la);
    ValidEntry(m, v);
    WriteWord(m, v, frame, WordOf(la), w);
    GrownThenStored(old(m.flat), s.flat, v, WordOf(la), w);
    return Done;
  }

  method WriteWord(m: AddressSpace, ghost v: int, frame: int, i: int, w: int)
    requires m.Valid() && Faulted(m.Now(), m.areas.list) && 0 <= i < ENTRIES && v in m.t.pte && Present(m.t.pte[v])
    requires frame == FrameOf(m.t.pte[v]) && frame in m.clock.members && frame in m.mem
    modifies m`mem, m`flat
    ensures m.Valid() && Faulted(m.Now(), m.areas.list)
    ensures v in old(m.flat) && |old(m.flat)[v]| == ENTRIES && m.flat == old(m.flat)[v := old(m.flat)[v][i := w]]
  {
    hide C.Clock.Valid, Areas.Valid, FrameOf, Sound;
    StoreSound(m.Now(), m.ref, m.vaddr, m.disk, m.maxSwapOffset, v, i, w);
    SoundTables(m.Now(), m.ref, m.vaddr, m.disk, m.maxSwapOffset);
    ghost var s := m.Now();
    m.mem := m.mem[frame := m.mem[frame][i := w]];
    m.flat := m.flat[v := m.flat[v][i := w]];
    assert m.Now() == s.(mem := m.mem, flat := m.flat);
  }

  lemma GrownThenStored(flat: map<int, seq<int>>, mid: map<int, seq<int>>, v: int, i: int, w: int)
    requires Grown(flat, mid, v) && v in mid && |mid[v]| == ENTRIES && 0 <= i < ENTRIES
    ensures StoredIn(flat, mid[v := mid[v][i := w]], v, i, w, mid[v])
  {
    assert mid[v := mid[v][i := w]] == flat[v := mid[v][i := w]];
  }

  /** An eviction, if some page is on the clock list. */
  method EvictIfAny(m: AddressSpace)
    requires m.Valid() && m.swapOk && Faulted(m.Now(), m.areas.list)
    modifies m, m.clock
    ensures m.Valid() && m.swapOk && Faulted(m.Now(), m.areas.list)
    ensures m.flat == old(m.flat) && m.Supply() == old(m.Supply())
    ensures |m.free| == |old(m.free)| + if old(m.clock.ring) == [] then 0 else 1
    ensures MoreTables(old(m.t), m.t)
  {
    hide AddressSpace.Valid, FrameOf, Faulted, EntryKept;
    NonEmptyRing(m);
    if m.clock.next[C.HEAD] != C.HEAD {
      ghost var s := m.Now();
      m.SwapOut(1);
      KeptFaulted(s, m.Now(), m.areas.list);
    }
  }

  lemma NonEmptyRing(m: AddressSpace)
    requires m.Valid()
    ensures C.HEAD in m.clock.next && (m.clock.next[C.HEAD] != C.HEAD <==> m.clock.ring != [])
  {
    hide Areas.Valid, Sound;
    assert C.Joined(m.clock.ring, m.clock.next, m.clock.prev, 0);
  }

  /** The pages that the events touch have their upper parts in `dirs` and `leaves`. */
  ghost predicate Touches(events: seq<Event>, dirs: set<int>, leaves: set<int>) {
    forall e :: e in events && !e.Evict? ==>
      0 <= e.la < LOWER_HALF && Vpn(e.la) / 512 / 512 in dirs && Vpn(e.la) / 512 in leaves
  }

  /** There are frames for all tables that may still be needed, and one more. */
  ghost predicate Enough(t: Tables, supply: nat, dirs: set<int>, leaves: set<int>) {
    supply >= |dirs - t.dirs.Keys| + |leaves - t.leaves.Keys| + 1
  }

  lemma MoreKeys(t: Tables, t': Tables)
    requires MoreTables(t, t')
    ensures t.dirs.Keys <= t'.dirs.Keys && t.leaves.Keys <= t'.leaves.Keys
  {
    forall i | i in t.dirs.Keys ensures i in t'.dirs.Keys {
      assert i in t.dirs;
    }
    forall k | k in t.leaves.Keys ensures k in t'.leaves.Keys {
      assert k in t.leaves;
    }
  }

  lemma EnoughForOne(t: Tables, supply: nat, dirs: set<int>, leaves: set<int>, v: int)
    requires Enough(t, supply, dirs, leaves) && v / 512 / 512 in dirs && v / 512 in leaves
    ensures supply >= (if v / 512 / 512 in t.dirs then 0 else 1) + (if v / 512 in t.leaves then 0 else 1) + 1
  {
    if v / 512 / 512 !in t.dirs { assert v / 512 / 512 in dirs - t.dirs.Keys; }
    if v / 512 !in t.leaves { assert v / 512 in leaves - t.leaves.Keys; }
  }

  lemma EnoughLeft(t: Tables, t': Tables, supply: nat, supply': nat, dirs: set<int>, leaves: set<int>, v: int)
    requires Enough(t, supply, dirs, leaves) && v / 512 / 512 in dirs && v / 512 in leaves
    requires MoreTables(t, t') && Accounted(t, t', supply, supply', v)
    ensures Enough(t', supply', dirs, leaves)
  {
    hide MoreTables;
    MoreKeys(t, t');
    Fewer(dirs, t.dirs.Keys, t'.dirs.Keys, v / 512 / 512);
    Fewer(leaves, t.leaves.Keys, t'.leaves.Keys, v / 512);
  }

  lemma Fewer(a: set<int>, k: set<int>, k': set<int>, x: int)
    requires k <= k' && x in a
    ensures |a - k'| <= |a - k|
    ensures x in k' && x !in k ==> |a - k'| <= |a - k| - 1
  {
    SubsetSize(a - k', a - k);
    if x in k' && x !in k {
      SubsetSize(a - k', a - k - {x});
    }
  }

  method Step(m: AddressSpace, e: Event) returns (o: Outcome)
    requires m.Valid() && m.swapOk && InRange(m.areas.list, m.maxSwapOffset) && PageAligned(m.areas.list)
    requires Faulted(m.Now(), m.areas.list)
    requires !e.Evict? ==> 0 <= e.la < LOWER_HALF && m.Supply() >= m.Missing(Vpn(e.la)) + 1
    modifies m, m.clock, m.areas`cache
    ensures m.Valid() && m.swapOk && Faulted(m.Now(), m.areas.list) && FlatStep(old(m.flat), m.areas.list, e, o, m.flat)
    ensures MoreTables(old(m.t), m.t)
    ensures e.Evict? ==> m.Supply() == old(m.Supply())
    ensures e.Evict? ==> |m.free| == |old(m.free)| + if old(m.clock.ring) == [] then 0 else 1
    ensures !e.Evict? ==> Accounted(old(m.t), m.t, old(m.Supply()), m.Supply(), Vpn(e.la))
  {
    hide AddressSpace.Valid, FrameOf, Vpn, Grown, InRange, Sound, Faulted, StoredIn, MoreTables, Accounted;
    match e {
      case Load(la) => o := LoadWord(m, la);
      case Store(la, w) => o := StoreWord(m, la, w);
      case Evict =>
        EvictIfAny(m);
        o := Done;
    }
  }

  /** Any run refines the flat memory, whatever is evicted in between, as long as there are frames for
      the tables it needs and one page. */
  method Run(m: AddressSpace, events: seq<Event>, ghost dirs: set<int>, ghost leaves: set<int>)
    returns (outcomes: seq<Outcome>, ghost flats: seq<map<int, seq<int>>>)
    requires m.Valid() && m.swapOk && InRange(m.areas.list, m.maxSwapOffset) && PageAligned(m.areas.list)
    requires Faulted(m.Now(), m.areas.list)
    requires Touches(events, dirs, leaves) && Enough(m.t, m.Supply(), dirs, leaves)
    modifies m, m.clock, m.areas`cache
    ensures m.Valid() && |outcomes| == |events|
    ensures FlatRun(flats, m.areas.list, events, outcomes) && flats[0] == old(m.flat) && flats[|events|] == m.flat
  {
    hide AddressSpace.Valid, FrameOf, Vpn, InRange, Sound, Faulted, FlatStep, Enough, MoreTables, Accounted, StepAt;
    outcomes, flats := [], [m.flat];
    for i := 0 to |events|
      invariant m.Valid() && m.swapOk && InRange(m.areas.list, m.maxSwapOffset) && Faulted(m.Now(), m.areas.list)
      invariant Enough(m.t, m.Supply(), dirs, leaves)
      invariant |outcomes| == i && FlatRun(flats, m.areas.list, events, outcomes)
      invariant flats[0] == old(m.flat) && flats[i] == m.flat
    {
      ghost var t, supply, v := m.t, m.Supply(), if events[i].Evict? then 0 else Vpn(events[i].la);
      if !events[i].Evict? { EnoughForOne(t, supply, dirs, leaves, v); }
      var o := Step(m, events[i]);
      if events[i].Evict? {
        EnoughKept(t, m.t, m.Supply(), dirs, leaves);
      } else {
        EnoughLeft(t, m.t, supply, m.Supply(), dirs, leaves, v);
      }
      RunExtended(flats, m.areas.list, events, outcomes, o, m.flat);
      outcomes, flats := outcomes + [o], flats + [m.flat];
    }
  }

  lemma EnoughKept(t: Tables, t': Tables, supply: nat, dirs: set<int>, leaves: set<int>)
    requires Enough(t, supply, dirs, leaves) && MoreTables(t, t')
    ensures Enough(t', supply, dirs, leaves)
  {
    hide MoreTables;
    MoreKeys(t, t');
    SubsetSize(dirs - t'.dirs.Keys, dirs - t.dirs.Keys);
    SubsetSize(leaves - t'.leaves.Keys, leaves - t.leaves.Keys);
  }
}
