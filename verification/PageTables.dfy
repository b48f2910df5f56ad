/** The three-level page tables of lab3/kern/mm/pmm.c as they lie in memory, and the finite map from
    pages to entries that they stand for. Memory is a map from frame numbers to pages of 512 words. */
module PageTables {
  import opened Seqs
  import opened Sv39

  /** What a frame is used for when it holds a table. */
  datatype Role = Root | Directory(i: int) | Leaves(k: int)

  /** The tables: `dirs` leads from the upper nine bits of a page number to the second level, `leaves`
      from the upper eighteen to the third; `pte` holds the entries of all third-level tables. */
  datatype Tables = Tables(root: int, dirs: map<int, int>, leaves: map<int, int>, role: map<int, Role>,
                           pte: map<int, int>)

  /** The word that the tables hold for page `v`; zero while there is no table for it. */
  function Entry(t: Tables, v: int): int {
    if v in t.pte then t.pte[v] else 0
  }

  /** An entry that leads to the next level. */
  function Pointer(frame: int): int { PteCreate(frame, PTE_U + PTE_V) }

  /** No frame serves as two tables. */
  ghost predicate Roles(t: Tables) {
    && t.root in t.role && t.role[t.root] == Root
    && (forall i :: i in t.dirs ==> 0 <= i < 256 && t.dirs[i] in t.role && t.role[t.dirs[i]] == Directory(i))
    && (forall k :: k in t.leaves ==>
          0 <= k && k / 512 in t.dirs && t.leaves[k] in t.role && t.role[t.leaves[k]] == Leaves(k))
    && forall f :: f in t.role ==>
         match t.role[f]
         case Root => f == t.root
         case Directory(i) => i in t.dirs && t.dirs[i] == f
         case Leaves(k) => k in t.leaves && t.leaves[k] == f
  }

  /** A word of a directory is valid exactly when there is a table below, and then points to it. */
  ghost predicate LeadsTo(word: int, i: int, below: map<int, int>) {
    && (Present(word) <==> i in below)
    && (i in below ==> word == Pointer(below[i]))
  }

  ghost predicate Holds(word: int, v: int, pte: map<int, int>) {
    v in pte && pte[v] == word
  }

  ghost predicate RootHolds(page: seq<int>, dirs: map<int, int>) {
    |page| == ENTRIES && forall i :: 0 <= i < 256 ==> LeadsTo(page[i], i, dirs)
  }

  ghost predicate DirectoryHolds(page: seq<int>, i: int, leaves: map<int, int>) {
    |page| == ENTRIES && forall j :: 0 <= j < ENTRIES ==> LeadsTo(page[j], i * 512 + j, leaves)
  }

  ghost predicate LeafHolds(page: seq<int>, k: int, pte: map<int, int>) {
    |page| == ENTRIES && forall j :: 0 <= j < ENTRIES ==> Holds(page[j], k * 512 + j, pte)
  }

  /** Memory holds the tables. */
  ghost predicate Tabled(mem: map<int, seq<int>>, t: Tables) {
    && Roles(t) && t.role.Keys <= mem.Keys && (forall f :: f in t.role ==> f >= 0)
    && RootHolds(mem[t.root], t.dirs)
    && (forall i :: i in t.dirs ==> DirectoryHolds(mem[t.dirs[i]], i, t.leaves))
    && (forall k :: k in t.leaves ==> LeafHolds(mem[t.leaves[k]], k, t.pte))
    && (forall v :: v in t.pte ==> 0 <= v < PAGES && v / 512 in t.leaves)
  }

  // ---------- reading the tables ----------

  /** The walk down the tables for page `v`. */
  lemma WalkDown(mem: map<int, seq<int>>, t: Tables, v: int)
    requires Tabled(mem, t) && 0 <= v < PAGES
    ensures t.root in mem && |mem[t.root]| == ENTRIES && LeadsTo(mem[t.root][v / 512 / 512], v / 512 / 512, t.dirs)
    ensures v / 512 / 512 in t.dirs ==>
      && t.dirs[v / 512 / 512] in mem && t.dirs[v / 512 / 512] >= 0 && |mem[t.dirs[v / 512 / 512]]| == ENTRIES
      && LeadsTo(mem[t.dirs[v / 512 / 512]][v / 512 % 512], v / 512, t.leaves)
    ensures v / 512 in t.leaves ==>
      && v / 512 / 512 in t.dirs && t.leaves[v / 512] in mem && t.leaves[v / 512] >= 0
      && |mem[t.leaves[v / 512]]| == ENTRIES && v in t.pte && t.pte[v] == mem[t.leaves[v / 512]][v % 512]
    ensures v in t.pte <==> v / 512 in t.leaves
  {
    var k := v / 512;
    assert k / 512 * 512 + k % 512 == k && k * 512 + v % 512 == v;
    if k / 512 in t.dirs {
      assert DirectoryHolds(mem[t.dirs[k / 512]], k / 512, t.leaves);
    }
    if k in t.leaves {
      assert LeafHolds(mem[t.leaves[k]], k, t.pte);
      assert Holds(mem[t.leaves[k]][v % 512], k * 512 + v % 512, t.pte);
    }
  }

  lemma PointerLeads(frame: int)
    requires frame >= 0
    ensures Present(Pointer(frame)) && FrameOf(Pointer(frame)) == frame
    ensures !ReadBit(Pointer(frame)) && !ExecuteBit(Pointer(frame)) && !WriteBit(Pointer(frame))
    ensures UserBit(Pointer(frame))
  {
    PteRoundTrip(frame, PTE_U + PTE_V);
  }

  /** The address translation algorithm of Sv39 (section 4.3.2 of the RISC-V Privileged Architecture
      manual, version 1.11): the leaf entry it ends with, or a page fault. `la` is in the lower half. */
  function HardwareWalk(mem: map<int, seq<int>>, table: int, la: int, level: int): (leaf: int)
    decreases level
  {
    var index := if level == 2 then Pdx1(la) else if level == 1 then Pdx0(la) else Ptx(la);
    if table !in mem || |mem[table]| != ENTRIES then 0
    else
      var pte := mem[table][index];
      if !Present(pte) || (!ReadBit(pte) && WriteBit(pte)) then 0
      else if ReadBit(pte) || ExecuteBit(pte) then pte
      else if level <= 0 then 0
      else HardwareWalk(mem, FrameOf(pte), la, level - 1)
  }

  /** Whether hardware accepts a third-level entry: valid, readable or executable, and not writable
      without being readable. */
  predicate LeafEntry(pte: int) {
    Present(pte) && (ReadBit(pte) || !WriteBit(pte)) && (ReadBit(pte) || ExecuteBit(pte))
  }

  /** The hardware finds exactly the entry that the map holds for the page, when it is a leaf. */
  lemma HardwareRefinesMap(mem: map<int, seq<int>>, t: Tables, la: int)
    requires Tabled(mem, t) && 0 <= la < LOWER_HALF
    ensures HardwareWalk(mem, t.root, la, 2) == (if LeafEntry(Entry(t, Vpn(la))) then Entry(t, Vpn(la)) else 0)
  {
    hide Tabled, PteCreate, FrameOf, Pointer;
    AddressFields(la);
    var v := Vpn(la);
    WalkDown(mem, t, v);
    if v / 512 / 512 in t.dirs {
      PointerLeads(t.dirs[v / 512 / 512]);
    }
    if v / 512 in t.leaves {
      PointerLeads(t.leaves[v / 512]);
    }
  }

  // ---------- changing them ----------

  /** Frames that are no tables do not matter. */
  lemma DataWritten(mem: map<int, seq<int>>, t: Tables, f: int, page: seq<int>)
    requires Tabled(mem, t) && f !in t.role
    ensures Tabled(mem[f := page], t)
  {
    assert forall i :: i in t.dirs ==> t.dirs[i] != f;
    assert forall k :: k in t.leaves ==> t.leaves[k] != f;
  }

  /** The frame of a third-level table serves as nothing else. */
  lemma LeafApart(t: Tables, k: int)
    requires Roles(t) && k in t.leaves
    ensures t.leaves[k] in t.role && t.leaves[k] != t.root && t.root in t.role
    ensures forall i :: i in t.dirs ==> t.dirs[i] in t.role && t.dirs[i] != t.leaves[k]
    ensures forall j :: j in t.leaves ==> t.leaves[j] in t.role && (j != k ==> t.leaves[j] != t.leaves[k])
  {
  }

  lemma PageWritten(page: seq<int>, k: int, pte: map<int, int>, v: int, w: int)
    requires LeafHolds(page, k, pte)
    ensures v / 512 == k ==> LeafHolds(page[v % 512 := w], k, pte[v := w])
    ensures v / 512 != k ==> LeafHolds(page, k, pte[v := w])
  {
    forall j | 0 <= j < ENTRIES
      ensures v / 512 == k ==> Holds(page[v % 512 := w][j], k * 512 + j, pte[v := w])
      ensures v / 512 != k ==> Holds(page[j], k * 512 + j, pte[v := w])
    {
      Digits(k, j);
      assert Holds(page[j], k * 512 + j, pte);
    }
  }

  /** `*ptep = w` for page `v` changes the entry of `v` alone. */
  lemma EntryWritten(mem: map<int, seq<int>>, t: Tables, v: int, w: int)
    requires Tabled(mem, t) && v in t.pte
    ensures var f := t.leaves[v / 512];
      && f in mem && |mem[f]| == ENTRIES && f in t.role
      && Tabled(mem[f := mem[f][v % 512 := w]], t.(pte := t.pte[v := w]))
  {
    hide LeadsTo, PteCreate, LeafHolds, RootHolds, DirectoryHolds;
    WalkDown(mem, t, v);
    LeafApart(t, v / 512);
    forall k | k in t.leaves
      ensures LeafHolds(mem[t.leaves[v / 512] := mem[t.leaves[v / 512]][v % 512 := w]][t.leaves[k]], k, t.pte[v := w])
    {
      PageWritten(mem[t.leaves[k]], k, t.pte, v, w);
    }
  }

  lemma Digits(k: int, j: int)
    requires 0 <= j < 512
    ensures (k * 512 + j) / 512 == k && (k * 512 + j) % 512 == j
  {
  }

  /** The tables with a fresh second-level table in frame `f`. */
  function WithDirectory(t: Tables, i: int, f: int): Tables {
    t.(dirs := t.dirs[i := f], role := t.role[f := Directory(i)])
  }

  function ZeroEntries(v: int, n: int): (m: map<int, int>)
    ensures forall x :: x in m <==> v <= x < v + n
    ensures forall x :: x in m ==> m[x] == 0
    decreases n
  {
    if n <= 0 then map[] else ZeroEntries(v, n - 1)[v + n - 1 := 0]
  }

  /** The tables with a fresh third-level table in frame `f`: 512 more entries, all zero. */
  function WithLeaves(t: Tables, k: int, f: int): Tables {
    t.(leaves := t.leaves[k := f], role := t.role[f := Leaves(k)],
       pte := t.pte + ZeroEntries(k * 512, ENTRIES))
  }

  lemma LazyAt(t: Tables, k: int, f: int, v: int)
    requires v in t.pte ==> v / 512 in t.leaves
    requires k !in t.leaves
    ensures Entry(WithLeaves(t, k, f), v) == Entry(t, v)
  {
    if k * 512 <= v < k * 512 + 512 {
      Digits(k, v - k * 512);
      assert v !in t.pte;
    }
  }

  /** A new table changes no entry. */
  lemma CreationIsLazy(t: Tables, i: int, k: int, f: int)
    requires forall v :: v in t.pte ==> v / 512 in t.leaves
    requires k !in t.leaves
    ensures forall v :: Entry(WithDirectory(t, i, f), v) == Entry(t, v)
    ensures forall v :: Entry(WithLeaves(t, k, f), v) == Entry(t, v)
  {
    hide WithLeaves;
    forall v ensures Entry(WithLeaves(t, k, f), v) == Entry(t, v) {
      LazyAt(t, k, f, v);
    }
  }

  lemma LeavesEntries(t: Tables, k: int, f: int)
    requires k !in t.leaves && forall v :: v in t.pte ==> v / 512 in t.leaves
    ensures WithLeaves(t, k, f).role == t.role[f := Leaves(k)] && WithLeaves(t, k, f).root == t.root
    ensures WithLeaves(t, k, f).dirs == t.dirs && WithLeaves(t, k, f).leaves == t.leaves[k := f]
    ensures forall v :: v in t.pte ==> v in WithLeaves(t, k, f).pte && WithLeaves(t, k, f).pte[v] == t.pte[v]
    ensures forall v :: v in WithLeaves(t, k, f).pte ==> v in t.pte || WithLeaves(t, k, f).pte[v] == 0
  {
    var t' := WithLeaves(t, k, f);
    CreationIsLazy(t, 0, k, f);
    forall v | v in t.pte ensures t'.pte[v] == t.pte[v] {
      assert Entry(t', v) == Entry(t, v);
    }
    forall v | v in t'.pte && v !in t.pte ensures t'.pte[v] == 0 {
      assert Entry(t', v) == Entry(t, v);
    }
  }

  /** A page of zeros is a directory without tables below. */
  lemma EmptyDirectory(i: int, leaves: map<int, int>)
    requires forall k :: k in leaves ==> k / 512 != i
    ensures DirectoryHolds(Zeros(ENTRIES), i, leaves)
  {
    forall j | 0 <= j < ENTRIES ensures LeadsTo(Zeros(ENTRIES)[j], i * 512 + j, leaves) {
      Digits(i, j);
    }
  }

  lemma RootExtended(page: seq<int>, dirs: map<int, int>, i: int, f: int)
    requires RootHolds(page, dirs) && 0 <= i < 256 && f >= 0
    ensures RootHolds(page[i := Pointer(f)], dirs[i := f])
  {
    hide Pointer;
    PointerLeads(f);
    var page' := page[i := Pointer(f)];
    forall j | 0 <= j < 256 ensures LeadsTo(page'[j], j, dirs[i := f]) {
      assert LeadsTo(page[j], j, dirs);
    }
  }

  lemma DirectoryRoles(t: Tables, i: int, f: int)
    requires Roles(t) && 0 <= i < 256 && i !in t.dirs && f !in t.role
    ensures Roles(WithDirectory(t, i, f)) && f != t.root
    ensures forall n :: n in t.dirs ==> t.dirs[n] != f && t.dirs[n] != t.root
    ensures forall k :: k in t.leaves ==> t.leaves[k] != f && t.leaves[k] != t.root && k / 512 != i
  {
  }

  lemma DirectoryAdded(mem: map<int, seq<int>>, t: Tables, i: int, f: int)
    requires Tabled(mem, t) && 0 <= i < 256 && i !in t.dirs && f in mem && f >= 0 && f !in t.role
    ensures t.root in mem && |mem[t.root]| == ENTRIES
    ensures Tabled(mem[f := Zeros(ENTRIES)][t.root := mem[t.root][i := Pointer(f)]], WithDirectory(t, i, f))
  {
    hide PteCreate, Pointer, RootHolds, DirectoryHolds, LeafHolds, Roles, Zeros;
    TablesInRole(t);
    RootSize(mem[t.root], t.dirs);
    DirectoryRoles(t, i, f);
    RootExtended(mem[t.root], t.dirs, i, f);
    EmptyDirectory(i, t.leaves);
    TablesInRole(WithDirectory(t, i, f));
  }

  lemma RootSize(page: seq<int>, dirs: map<int, int>)
    requires RootHolds(page, dirs)
    ensures |page| == ENTRIES
  {
  }

  lemma LeavesAdded(mem: map<int, seq<int>>, t: Tables, k: int, f: int)
    requires Tabled(mem, t) && 0 <= k && k / 512 in t.dirs && k !in t.leaves && f in mem && f >= 0 && f !in t.role
    ensures var d := t.dirs[k / 512];
      && d in mem && |mem[d]| == ENTRIES
      && Tabled(mem[f := Zeros(ENTRIES)][d := mem[d][k % 512 := Pointer(f)]], WithLeaves(t, k, f))
  {
    hide PteCreate, Pointer, RootHolds, LeafHolds, LeadsTo, Roles;
    assert t.dirs[k / 512] in t.role by { LeavesRoles(t, k, f); }
    assert DirectoryHolds(mem[t.dirs[k / 512]], k / 512, t.leaves);
    LeavesInDirectory(mem, t, k, f);
    LeavesMirrored(mem, t, k, f);
    LeavesRoles(t, k, f);
    TablesInRole(t);
    LeavesRange(t, k, f);
    TablesInRole(WithLeaves(t, k, f));
  }

  lemma TablesInRole(t: Tables)
    requires Roles(t)
    ensures t.root in t.role
    ensures forall i :: i in t.dirs ==> 0 <= i < 256 && t.dirs[i] in t.role
    ensures forall k :: k in t.leaves ==> t.leaves[k] in t.role
  {
  }

  lemma LeavesRoles(t: Tables, k: int, f: int)
    requires Roles(t) && 0 <= k && k / 512 in t.dirs && k !in t.leaves && f !in t.role
    requires forall v :: v in t.pte ==> v / 512 in t.leaves
    ensures Roles(WithLeaves(t, k, f)) && t.dirs[k / 512] in t.role && t.dirs[k / 512] != t.root
  {
    hide WithLeaves;
    LeavesEntries(t, k, f);
  }

  lemma LeavesRange(t: Tables, k: int, f: int)
    requires 0 <= k < PAGES / 512 && forall v :: v in t.pte ==> 0 <= v < PAGES && v / 512 in t.leaves
    ensures forall v :: v in WithLeaves(t, k, f).pte ==> 0 <= v < PAGES && v / 512 in WithLeaves(t, k, f).leaves
  {
    forall v | v in WithLeaves(t, k, f).pte
      ensures 0 <= v < PAGES && v / 512 in WithLeaves(t, k, f).leaves
    {
      if v !in t.pte { Digits(k, v - k * 512); }
    }
  }

  lemma LeavesInDirectory(mem: map<int, seq<int>>, t: Tables, k: int, f: int)
    requires Tabled(mem, t) && 0 <= k && k / 512 in t.dirs && k !in t.leaves && f in mem && f >= 0 && f !in t.role
    requires |mem[t.dirs[k / 512]]| == ENTRIES
    ensures forall n :: n in t.dirs ==>
      var d := t.dirs[k / 512];
      DirectoryHolds(mem[f := Zeros(ENTRIES)][d := mem[d][k % 512 := Pointer(f)]][t.dirs[n]], n, t.leaves[k := f])
  {
    hide PteCreate, Pointer, RootHolds, LeafHolds;
    PointerLeads(f);
    var d := t.dirs[k / 512];
    var mem' := mem[f := Zeros(ENTRIES)][d := mem[d][k % 512 := Pointer(f)]];
    forall n | n in t.dirs ensures DirectoryHolds(mem'[t.dirs[n]], n, t.leaves[k := f]) {
      assert DirectoryHolds(mem[t.dirs[n]], n, t.leaves);
      forall j | 0 <= j < ENTRIES ensures LeadsTo(mem'[t.dirs[n]][j], n * 512 + j, t.leaves[k := f]) {
        assert LeadsTo(mem[t.dirs[n]][j], n * 512 + j, t.leaves);
        Digits(n, j);
      }
    }
  }

  lemma LeafKept(page: seq<int>, n: int, t: Tables, k: int, f: int)
    requires LeafHolds(page, n, t.pte) && n != k
    ensures LeafHolds(page, n, WithLeaves(t, k, f).pte)
  {
    forall j | 0 <= j < ENTRIES ensures Holds(page[j], n * 512 + j, WithLeaves(t, k, f).pte) {
      Digits(n, j);
      assert Holds(page[j], n * 512 + j, t.pte);
    }
  }

  lemma LeafFresh(t: Tables, k: int, f: int)
    ensures LeafHolds(Zeros(ENTRIES), k, WithLeaves(t, k, f).pte)
  {
    forall j | 0 <= j < ENTRIES ensures Holds(Zeros(ENTRIES)[j], k * 512 + j, WithLeaves(t, k, f).pte) {
      Digits(k, j);
    }
  }

  lemma LeavesMirrored(mem: map<int, seq<int>>, t: Tables, k: int, f: int)
    requires Tabled(mem, t) && 0 <= k && k / 512 in t.dirs && k !in t.leaves && f in mem && f >= 0 && f !in t.role
    requires |mem[t.dirs[k / 512]]| == ENTRIES
    ensures var t' := WithLeaves(t, k, f);
      var d := t.dirs[k / 512];
      forall n :: n in t'.leaves ==>
        LeafHolds(mem[f := Zeros(ENTRIES)][d := mem[d][k % 512 := Pointer(f)]][t'.leaves[n]], n, t'.pte)
  {
    hide PteCreate, Pointer, RootHolds, DirectoryHolds, LeafHolds;
    var t', d := WithLeaves(t, k, f), t.dirs[k / 512];
    var mem' := mem[f := Zeros(ENTRIES)][d := mem[d][k % 512 := Pointer(f)]];
    forall n | n in t'.leaves ensures LeafHolds(mem'[t'.leaves[n]], n, t'.pte) {
      if n == k {
        LeafFresh(t, k, f);
      } else {
        LeafKept(mem[t.leaves[n]], n, t, k, f);
      }
    }
  }
}
