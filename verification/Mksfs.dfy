/** The image builder (lab8/tools/mksfs.c): the block allocator, appending blocks to a file through
    direct, indirect and double-indirect slots, and the bitmap of free blocks. */
module Mksfs {
  import opened Options
  import opened Seqs
  import opened Words

  const NDIRECT: int := 12
  const NENTRY: int := 1024
  const L1_NBLKS: int := 1036      // direct and indirect
  const LN_NBLKS: int := 32768     // 128 MB
  const BLKBITS: int := 32768
  const FREEMAP: int := 2
  const MAX_NBLKS: int := 524288

  /** The blocks that hold block numbers, by their own number; 0 is no block. */
  type Index = map<int, seq<int>>

  /** A cached inode. `l1` and `l2` remember the index blocks in use. */
  datatype Inode = Inode(nblks: nat, size: nat, direct: seq<int>, indirect: int, dbIndirect: int,
                         l1: Option<int>, l2: Option<int>)

  /** Block `k` of the file as a reader of the image finds it; 0 when the way to it breaks off. */
  function Resolve(f: Inode, index: Index, k: nat): int {
    if k < NDIRECT then (if k < |f.direct| then f.direct[k] else 0)
    else if k < L1_NBLKS then Slot(index, f.indirect, k - NDIRECT)
    else Slot(index, Slot(index, f.dbIndirect, (k - L1_NBLKS) / NENTRY), (k - L1_NBLKS) % NENTRY)
  }

  function Slot(index: Index, block: int, i: int): int {
    if block in index && 0 <= i < |index[block]| then index[block][i] else 0
  }

  /** The table of the double-indirect block that block number `n` counts into; -1 for none. */
  function LastTable(n: int): int {
    if n <= L1_NBLKS then -1 else (n - L1_NBLKS - 1) / NENTRY
  }

  /** Index blocks that the file has: which ones, and that they differ. */
  ghost predicate Shaped(f: Inode, index: Index, own: set<int>) {
    && |f.direct| == NDIRECT && f.nblks <= LN_NBLKS
    && (forall b :: b in own ==> b in index && |index[b]| == NENTRY && b > 0)
    && (f.nblks <= NDIRECT ==> f.indirect == 0 && f.l1 == None && own == {})
    && (f.nblks > NDIRECT ==> f.indirect in own)
    && (NDIRECT < f.nblks <= L1_NBLKS ==> f.l1 == Some(f.indirect))
    && (f.nblks <= L1_NBLKS ==> f.dbIndirect == 0 && f.l2 == None)
    && (f.nblks > L1_NBLKS ==> Doubled(f, index, own))
  }

  /** The double-indirect block leads to the tables in use, each its own block. */
  ghost predicate Doubled(f: Inode, index: Index, own: set<int>) {
    && f.dbIndirect in own && f.dbIndirect != f.indirect && f.l2 == Some(f.dbIndirect)
    && f.dbIndirect in index && |index[f.dbIndirect]| == NENTRY
    && (forall q :: 0 <= q <= LastTable(f.nblks) < NENTRY ==> Table(f, index, own, q))
    && (forall q :: LastTable(f.nblks) < q < NENTRY ==> index[f.dbIndirect][q] == 0)
    && (forall p, q :: 0 <= p < q <= LastTable(f.nblks) < NENTRY ==> index[f.dbIndirect][p] != index[f.dbIndirect][q])
    && 0 <= LastTable(f.nblks) < NENTRY && f.l1 == Some(index[f.dbIndirect][LastTable(f.nblks)])
  }

  ghost predicate Table(f: Inode, index: Index, own: set<int>, q: int)
    requires f.dbIndirect in index && 0 <= q < |index[f.dbIndirect]|
  {
    var b := index[f.dbIndirect][q];
    b in own && b != f.indirect && b != f.dbIndirect
  }

  /** The file reads as before, and has one more block. */
  ghost predicate Extended(f: Inode, index: Index, f': Inode, index': Index, ino: int) {
    && f'.nblks == f.nblks + 1 && Resolve(f', index', f.nblks) == ino
    && forall k: nat :: k < f.nblks ==> Resolve(f', index', k) == Resolve(f, index, k)
  }

  lemma AppendedDirect(f: Inode, index: Index, own: set<int>, ino: int)
    requires Shaped(f, index, own) && f.nblks < NDIRECT
    ensures var f' := f.(nblks := f.nblks + 1, direct := f.direct[f.nblks := ino]);
      Shaped(f', index, own) && Extended(f, index, f', index, ino)
  {
  }

  /** The single-indirect block, new for the first block behind the direct ones. */
  ghost predicate IndirectBlock(f: Inode, index: Index, b: int) {
    if f.nblks == NDIRECT then b !in index && b > 0 else b == f.indirect
  }

  /** What a block of block numbers holds: nothing yet, if it is new. */
  function Page(index: Index, b: int): (page: seq<int>) {
    if b in index then index[b] else Zeros(NENTRY)
  }

  lemma AppendedIndirect(f: Inode, index: Index, own: set<int>, b: int, ino: int)
    requires Shaped(f, index, own) && NDIRECT <= f.nblks < L1_NBLKS && IndirectBlock(f, index, b)
    ensures |Page(index, b)| == NENTRY
    ensures var f', i' := f.(nblks := f.nblks + 1, indirect := b, l1 := Some(b)),
                          index[b := Page(index, b)[f.nblks - NDIRECT := ino]];
      Shaped(f', i', own + {b}) && Extended(f, index, f', i', ino)
  {
  }

  /** The double-indirect block and the table that block number `f.nblks` goes to. */
  ghost predicate DoubleBlocks(f: Inode, index: Index, own: set<int>, d: int, b: int) {
    && (if f.nblks == L1_NBLKS then d !in index && d > 0 else d == f.dbIndirect)
    && (if (f.nblks - L1_NBLKS) % NENTRY == 0 then b !in index && b > 0 && b != d else f.l1 == Some(b))
  }

  lemma LastTables(n: nat)
    ensures LastTable(L1_NBLKS + n + 1) == n / NENTRY
    ensures LastTable(L1_NBLKS + n) == (if n % NENTRY == 0 then n / NENTRY - 1 else n / NENTRY)
    ensures n < LN_NBLKS - L1_NBLKS ==> n / NENTRY < NENTRY
  {
  }

  /** The index after the append. */
  function WithBlock(index: Index, d: int, b: int, n: nat, ino: int): Index
    requires |Page(index, d)| == NENTRY && |Page(index, b)| == NENTRY && n / NENTRY < NENTRY
  {
    index[d := Page(index, d)[n / NENTRY := b]][b := Page(index, b)[n % NENTRY := ino]]
  }

  function WithLinks(f: Inode, d: int, b: int): Inode {
    f.(nblks := f.nblks + 1, dbIndirect := d, l1 := Some(b), l2 := Some(d))
  }

  lemma TablesReady(f: Inode, index: Index, own: set<int>, d: int, b: int)
    requires Shaped(f, index, own) && L1_NBLKS <= f.nblks < LN_NBLKS && DoubleBlocks(f, index, own, d, b)
    ensures var n := f.nblks - L1_NBLKS;
      && |Page(index, d)| == NENTRY && |Page(index, b)| == NENTRY && d != b && d > 0 && b > 0
      && d != f.indirect && b != f.indirect && f.indirect in own && n / NENTRY < NENTRY
      && (n % NENTRY != 0 ==> Page(index, d)[n / NENTRY] == b)
      && (n % NENTRY == 0 ==> Page(index, d)[n / NENTRY] == 0)
      && (forall p :: 0 <= p < n / NENTRY ==> Page(index, d)[p] in own && Page(index, d)[p] !in {f.indirect, d, b})
      && (forall q :: n / NENTRY < q < NENTRY ==> Page(index, d)[q] == 0)
      && (forall p, q :: 0 <= p < q < n / NENTRY ==> Page(index, d)[p] != Page(index, d)[q])
  {
    var n := f.nblks - L1_NBLKS;
    LastTables(n);
    if n > 0 {
      assert Table(f, index, own, LastTable(f.nblks));
      forall p | 0 <= p < n / NENTRY
        ensures Page(index, d)[p] in own && Page(index, d)[p] !in {f.indirect, d, b}
      {
        assert Table(f, index, own, p);
      }
    }
  }

  lemma DoubledShape(f: Inode, index: Index, own: set<int>, d: int, b: int, ino: int)
    requires Shaped(f, index, own) && L1_NBLKS <= f.nblks < LN_NBLKS && DoubleBlocks(f, index, own, d, b)
    requires |Page(index, d)| == NENTRY && |Page(index, b)| == NENTRY && (f.nblks - L1_NBLKS) / NENTRY < NENTRY
    ensures Shaped(WithLinks(f, d, b), WithBlock(index, d, b, f.nblks - L1_NBLKS, ino), own + {d, b})
  {
    var n := f.nblks - L1_NBLKS;
    LastTables(n);
    TablesReady(f, index, own, d, b);
  }

  lemma AppendedDouble(f: Inode, index: Index, own: set<int>, d: int, b: int, ino: int)
    requires Shaped(f, index, own) && L1_NBLKS <= f.nblks < LN_NBLKS && DoubleBlocks(f, index, own, d, b)
    ensures |Page(index, d)| == NENTRY && |Page(index, b)| == NENTRY && (f.nblks - L1_NBLKS) / NENTRY < NENTRY
    ensures var f', i' := WithLinks(f, d, b), WithBlock(index, d, b, f.nblks - L1_NBLKS, ino);
      Shaped(f', i', own + {d, b}) && Extended(f, index, f', i', ino)
  {
    var n := f.nblks - L1_NBLKS;
    LastTables(n);
    TablesReady(f, index, own, d, b);
    DoubledShape(f, index, own, d, b, ino);
    DoubledReads(f, index, own, d, b, ino);
  }

  lemma DoubledReads(f: Inode, index: Index, own: set<int>, d: int, b: int, ino: int)
    requires Shaped(f, index, own) && L1_NBLKS <= f.nblks < LN_NBLKS && DoubleBlocks(f, index, own, d, b)
    requires |Page(index, d)| == NENTRY && |Page(index, b)| == NENTRY && (f.nblks - L1_NBLKS) / NENTRY < NENTRY
    ensures Extended(f, index, WithLinks(f, d, b), WithBlock(index, d, b, f.nblks - L1_NBLKS, ino), ino)
  {
    var n := f.nblks - L1_NBLKS;
    TablesReady(f, index, own, d, b);
    var f', i' := WithLinks(f, d, b), WithBlock(index, d, b, n, ino);
    forall k: nat | L1_NBLKS <= k < f.nblks ensures Resolve(f', i', k) == Resolve(f, index, k) {
      EarlierTable(k - L1_NBLKS, n);
    }
  }

  lemma EarlierTable(m: nat, n: nat)
    requires m < n
    ensures m / NENTRY < n / NENTRY || (m / NENTRY == n / NENTRY && m % NENTRY < n % NENTRY)
  {
  }

  /** Index blocks of other files do not matter. */
  lemma OtherBlocks(f: Inode, index: Index, index': Index, own: set<int>)
    requires Shaped(f, index, own) && forall b :: b in own ==> b in index' && index'[b] == index[b]
    ensures Shaped(f, index', own)
    ensures forall k: nat :: k < f.nblks ==> Resolve(f, index', k) == Resolve(f, index, k)
  {
    if f.nblks > L1_NBLKS {
      forall q | 0 <= q <= LastTable(f.nblks) ensures Table(f, index', own, q) {
        assert Table(f, index, own, q);
      }
      forall k: nat | L1_NBLKS <= k < f.nblks ensures Resolve(f, index', k) == Resolve(f, index, k) {
        assert Table(f, index, own, (k - L1_NBLKS) / NENTRY);
      }
    }
  }

  /** Where the number of the last block of the file is written. */
  lemma LastWritten(f: Inode, index: Index, own: set<int>)
    requires Shaped(f, index, own) && f.nblks > 0
    ensures var n, ino := f.nblks - 1, Resolve(f, index, f.nblks - 1);
      if n < 12 then |f.direct| == 12 && f.direct[n] == ino
      else if n < 1036 then f.indirect in index && |index[f.indirect]| == 1024 && index[f.indirect][n - 12] == ino
      else
        && f.dbIndirect in index && |index[f.dbIndirect]| == 1024 && (n - 1036) / 1024 < 1024
        && var table := index[f.dbIndirect][(n - 1036) / 1024];
           table in index && |index[table]| == 1024 && index[table][(n - 1036) % 1024] == ino
  {
    if f.nblks > L1_NBLKS {
      LastTables(f.nblks - 1 - L1_NBLKS);
      assert Table(f, index, own, LastTable(f.nblks));
    }
  }

  /** What `append_block` relies on to find the cached index blocks at hand. */
  lemma ShapeFacts(f: Inode, index: Index, own: set<int>)
    requires Shaped(f, index, own)
    ensures |f.direct| == NDIRECT
    ensures f.indirect != 0 && f.nblks <= L1_NBLKS ==> f.l1 == Some(f.indirect)
    ensures f.nblks == NDIRECT ==> f.indirect == 0
    ensures NDIRECT < f.nblks <= L1_NBLKS ==> f.indirect != 0 && f.indirect in index && |index[f.indirect]| == NENTRY
    ensures f.nblks <= L1_NBLKS ==> f.dbIndirect == 0
    ensures f.nblks > NDIRECT ==> f.indirect in own
  {
  }

  /** The size of the file does not matter for its links. */
  lemma SizeIgnored(f: Inode, g: Inode, index: Index, own: set<int>)
    requires Shaped(f, index, own) && g == f.(size := g.size)
    ensures Shaped(g, index, own) && forall k: nat :: Resolve(g, index, k) == Resolve(f, index, k)
  {
    if f.nblks > L1_NBLKS {
      forall q | 0 <= q <= LastTable(f.nblks) < NENTRY ensures Table(g, index, own, q) {
        assert Table(f, index, own, q);
      }
    }
  }

  lemma DoubleOwn(f: Inode, index: Index, own: set<int>, d: int, b: int)
    requires Shaped(f, index, own) && L1_NBLKS <= f.nblks < LN_NBLKS && DoubleBlocks(f, index, own, d, b)
    ensures (d in own || d !in index) && (b in own || b !in index)
  {
    LastTables(f.nblks - L1_NBLKS);
    if f.nblks > L1_NBLKS {
      assert Table(f, index, own, LastTable(f.nblks));
    }
  }

  lemma DoubleFacts(f: Inode, index: Index, own: set<int>)
    requires Shaped(f, index, own) && L1_NBLKS <= f.nblks < LN_NBLKS
    ensures var n := f.nblks - L1_NBLKS;
      && n / NENTRY < NENTRY
      && (n == 0 ==> f.dbIndirect == 0)
      && (n > 0 ==> f.dbIndirect > 0 && f.dbIndirect in index && |index[f.dbIndirect]| == NENTRY
                    && f.l2 == Some(f.dbIndirect))
      && (n > 0 && n % NENTRY == 0 ==> index[f.dbIndirect][n / NENTRY] == 0)
      && (n % NENTRY != 0 ==> f.l1 == Some(index[f.dbIndirect][n / NENTRY]) && index[f.dbIndirect][n / NENTRY] > 0
                              && index[f.dbIndirect][n / NENTRY] in index)
  {
    LastTables(f.nblks - L1_NBLKS);
    if f.nblks > L1_NBLKS {
      assert Table(f, index, own, LastTable(f.nblks));
    }
  }

  lemma BlocksFound(f: Inode, index: Index, own: set<int>, d: int, b: int)
    requires if f.nblks == L1_NBLKS then d !in index && d > 0 else d == f.dbIndirect
    requires if (f.nblks - L1_NBLKS) % NENTRY == 0 then b !in index && b > 0 && b != d else f.l1 == Some(b)
    ensures DoubleBlocks(f, index, own, d, b)
  {
  }

  /** The index blocks that the next append needs. */
  function Needed(nblks: nat): nat {
    if nblks == NDIRECT then 1
    else if nblks == L1_NBLKS then 2
    else if nblks > L1_NBLKS && (nblks - L1_NBLKS) % NENTRY == 0 then 1
    else 0
  }

  /** The index blocks of a file of `n` blocks. */
  function IndexBlocks(n: nat): nat {
    if n <= NDIRECT then 0 else if n <= L1_NBLKS then 1 else 3 + (n - L1_NBLKS - 1) / NENTRY
  }

  /** An append takes the index blocks by which the longer file has more. */
  lemma NeededCounts(n: nat)
    ensures Needed(n) == IndexBlocks(n + 1) - IndexBlocks(n)
  {
    if n > L1_NBLKS {
      LastTables(n - L1_NBLKS);
    }
  }

  lemma IndexBlocksGrow(n: nat, m: nat)
    requires n <= m
    ensures IndexBlocks(n) <= IndexBlocks(m)
  {
  }

  /** Only the file's own index blocks have changed; those it gained are new. */
  ghost predicate OwnBlocksOnly(index: Index, index': Index, own: set<int>, own': set<int>) {
    && own <= own' && (forall b :: b in own' && b !in own ==> b !in index)
    && forall b :: b in index && b !in own ==> b in index' && index'[b] == index[b]
  }

  /** The blocks handed out between `from` and `to` are the new index blocks. */
  ghost predicate NewBlocks(index: Index, index': Index, from: nat, to: nat) {
    forall b :: b in index' <==> b in index || from <= b < to
  }

  datatype Append = Appended | TooBig | NoSpace

  // ---------- whole files ----------

  const BLKSIZE: nat := 4096

  /** What becomes of a file: it is stored, or the program ends. */
  datatype Opened = Stored | Full(why: Append) | ShortRead

  function Total(chunks: seq<nat>): nat {
    if chunks == [] then 0 else Total(chunks[..|chunks| - 1]) + chunks[|chunks| - 1]
  }

  /** A file that is read whole has full blocks and what is left. */
  lemma {:induction false} TotalWhole(chunks: seq<nat>)
    requires chunks != [] && forall i :: 0 <= i < |chunks| - 1 ==> chunks[i] == 4096
    ensures Total(chunks) == 4096 * (|chunks| - 1) + chunks[|chunks| - 1]
  {
    if |chunks| > 1 {
      TotalWhole(chunks[..|chunks| - 1]);
    } else {
      assert Total(chunks[..0]) == 0;
    }
  }

  /** The blocks handed out between `from` and `to` are data blocks `inos` or new index blocks, and none is
      both or twice a data block. */
  ghost predicate Parted(index: Index, index': Index, inos: seq<int>, from: nat, to: nat) {
    && NoDuplicates(inos) && (forall b :: b in inos ==> b !in index')
    && forall b :: from <= b < to <==> b in inos || (b in index' && b !in index)
  }

  lemma NothingParted(index: Index, n: nat)
    ensures Parted(index, index, [], n, n)
  {
  }

  lemma NothingRead(chunks: seq<nat>)
    ensures Total(chunks[..0]) == 0
  {
  }

  lemma TotalMore(chunks: seq<nat>, i: nat)
    requires i < |chunks|
    ensures Total(chunks[..i + 1]) == Total(chunks[..i]) + chunks[i]
  {
    assert chunks[..i + 1][..i] == chunks[..i];
  }

  lemma PartedMore(index: Index, mid: Index, index': Index, inos: seq<int>, from: nat, n: nat, to: nat)
    requires Parted(index, mid, inos, from, n) && NewBlocks(mid, index', n + 1, to) && from <= n < to
    requires (forall b :: b in index ==> b < from) && forall b :: b in mid ==> b < n
    requires forall b :: b in index ==> b in mid
    ensures Parted(index, index', inos + [n], from, to) && forall b :: b in index ==> b in index'
  {
    forall b ensures from <= b < to <==> b in inos + [n] || (b in index' && b !in index) {
      assert from <= b < n <==> b in inos || (b in mid && b !in index);
    }
    forall i | 0 <= i < |inos| ensures inos[i] < n {
      var b := inos[i];
      assert from <= b < n <==> b in inos || (b in mid && b !in index);
    }
  }

  class CacheInode {
    var nblks: nat
    var size: nat
    var blocks: nat
    var direct: seq<int>
    var indirect: int
    var dbIndirect: int
    var l1: Option<int>
    var l2: Option<int>
    ghost var own: set<int>         // the file's index blocks
    ghost var appended: seq<int>    // the blocks appended so far

    /** `alloc_cache_inode` */
    constructor ()
      ensures nblks == 0 && size == 0 && blocks == 0 && appended == [] && own == {}
      ensures Shaped(View(), map[], {})
    {
      nblks, size, blocks, indirect, dbIndirect, l1, l2 := 0, 0, 0, 0, 0, None, None;
      direct, own, appended := seq(NDIRECT, i => 0), {}, [];
    }

    ghost function View(): Inode
      reads this
    {
      Inode(nblks, size, direct, indirect, dbIndirect, l1, l2)
    }

    /** Every block that was appended is found again. */
    ghost predicate Complete(index: Index)
      reads this
    {
      && Shaped(View(), index, own) && nblks == |appended| == blocks
      && forall k: nat :: k < nblks ==> Resolve(View(), index, k) == appended[k]
    }
  }

  /** The blocks that the bitmap for `n` blocks takes. */
  function BitmapSize(n: nat): nat { (n + BLKBITS - 1) / BLKBITS }

  /** They have a bit for each block, and the last of them is needed. */
  lemma BitmapTight(n: nat)
    ensures 32768 * (BitmapSize(n) - 1) < n <= 32768 * BitmapSize(n)
  {
  }

  class Image {
    var ninos: nat
    var nextIno: nat
    var unused: int
    var index: Index

    ghost predicate Valid()
      reads this
    {
      && FREEMAP < nextIno <= ninos <= MAX_NBLKS && unused == ninos - nextIno
      && forall b :: b in index ==> 0 < b < nextIno
    }

    /** An image of `ninos` blocks of which the first ones hold the super block, the root and the bitmap. */
    constructor (ninos: nat)
      requires FREEMAP + BitmapSize(ninos) < ninos <= MAX_NBLKS
      ensures Valid() && index == map[] && this.ninos == ninos && nextIno == FREEMAP + BitmapSize(ninos)
    {
      this.ninos, nextIno, index := ninos, FREEMAP + BitmapSize(ninos), map[];
      unused := ninos - (FREEMAP + BitmapSize(ninos));
    }

    /** `sfs_alloc_ino`; without space the program ends. */
    method AllocIno() returns (r: Option<int>)
      requires Valid()
      modifies this`nextIno, this`unused
      ensures Valid()
      ensures r.None? <==> old(nextIno) >= ninos
      ensures r.None? ==> nextIno == old(nextIno)
      ensures r.Some? ==> r.value == old(nextIno) && nextIno == old(nextIno) + 1 && r.value !in index && r.value > 0
    {
      if nextIno < ninos {
        unused := unused - 1;
        nextIno := nextIno + 1;
        return Some(nextIno - 1);
      }
      return None;
    }

    /** `update_cache`: the cached block `cb` for the number `ino`, made anew when there is none. The
        search for a block that is not at hand is never needed. */
    method UpdateCache(cb: Option<int>, ino: int) returns (r: Option<int>)
      requires Valid() && (ino != 0 ==> cb == Some(ino))
      modifies this
      ensures Valid() && ninos == old(ninos)
      ensures ino != 0 ==> r == Some(ino) && index == old(index) && nextIno == old(nextIno)
      ensures ino == 0 ==> (r.None? <==> old(nextIno) >= ninos)
      ensures ino == 0 && r.Some? ==>
        && r.value == old(nextIno) && r.value !in old(index) && r.value > 0
        && index == old(index)[r.value := Zeros(NENTRY)] && nextIno == old(nextIno) + 1
    {
      if ino == 0 {
        r := AllocIno();
        if r.Some? {
          index := index[r.value := Zeros(NENTRY)];
        }
        return;
      } else if cb.None? || cb.value != ino {
        assert false;
      }
      return Some(ino);
    }

    /** `append_block` of block `ino`, with `size` bytes of the file in it. */
    method AppendBlock(file: CacheInode, size: nat, ino: int) returns (r: Append)
      requires Valid() && file.Complete(index)
      modifies this, file
      ensures r.TooBig? <==> old(file.nblks) >= LN_NBLKS
      ensures r.NoSpace? <==> old(file.nblks) < LN_NBLKS && old(nextIno) + Needed(old(file.nblks)) > ninos
      ensures Valid() && ninos == old(ninos)
      ensures r.Appended? ==> file.Complete(index) && file.appended == old(file.appended) + [ino]
      ensures r.Appended? ==> file.size == old(file.size) + size && nextIno == old(nextIno) + Needed(old(file.nblks))
      ensures r.Appended? ==>
        var n, f := old(file.nblks), file;
        if n < 12 then |f.direct| == 12 && f.direct[n] == ino
        else if n < 1036 then f.indirect in index && |index[f.indirect]| == 1024 && index[f.indirect][n - 12] == ino
        else
          && f.dbIndirect in index && |index[f.dbIndirect]| == 1024 && (n - 1036) / 1024 < 1024
          && var table := index[f.dbIndirect][(n - 1036) / 1024];
             table in index && |index[table]| == 1024 && index[table][(n - 1036) % 1024] == ino
      ensures r.Appended? ==> OwnBlocksOnly(old(index), index, old(file.own), file.own)
      ensures r.Appended? ==> NewBlocks(old(index), index, old(nextIno), nextIno)
    {
      hide Shaped, Resolve, OwnBlocksOnly, Needed;
      if file.nblks >= LN_NBLKS {
        return TooBig;
      }
      ghost var f, i := file.View(), index;
      var ok;
      ghost var f';
      ok, f' := Link(file, ino);
      if !ok {
        return NoSpace;
      }
      file.nblks := file.nblks + 1;
      file.size := file.size + size;
      file.blocks := file.blocks + 1;
      file.appended := file.appended + [ino];
      SizeIgnored(f', file.View(), index, file.own);
      LastWritten(file.View(), index, file.own);
      return Appended;
    }

    /** The part of `append_block` that enters the block number; `g` is the file with one block more. */
    method Link(file: CacheInode, ino: int) returns (ok: bool, ghost g: Inode)
      requires Valid() && Shaped(file.View(), index, file.own) && file.nblks < LN_NBLKS
      modifies this, file`direct, file`indirect, file`dbIndirect, file`l1, file`l2, file`own
      ensures Valid() && ninos == old(ninos) && (ok <==> old(nextIno) + Needed(file.nblks) <= ninos)
      ensures ok ==> nextIno == old(nextIno) + Needed(file.nblks) && g == file.View().(nblks := file.nblks + 1)
      ensures ok ==> Shaped(g, index, file.own) && Extended(old(file.View()), old(index), g, index, ino)
      ensures ok ==> OwnBlocksOnly(old(index), index, old(file.own), file.own)
      ensures ok ==> NewBlocks(old(index), index, old(nextIno), nextIno)
    {
      hide Shaped, Resolve, Extended;
      ghost var f, i := file.View(), index;
      g := f;
      ShapeFacts(f, i, file.own);
      if file.nblks < NDIRECT {
        AppendedDirect(f, i, file.own, ino);
        file.direct := file.direct[file.nblks := ino];
        g := f.(nblks := f.nblks + 1, direct := file.direct);
        return true, g;
      } else if file.nblks < L1_NBLKS {
        ghost var own := file.own;
        ghost var b;
        ok, b := AppendSingle(file, ino);
        if !ok {
          return false, g;
        }
        AppendedIndirect(f, i, own, b, ino);
        file.own := own + {b};
        return true, f.(nblks := f.nblks + 1, indirect := b, l1 := Some(b));
      } else {
        ghost var own := file.own;
        ghost var d, b;
        ok, d, b := AppendDouble(file, ino);
        if !ok {
          return false, g;
        }
        AppendedDouble(f, i, own, d, b, ino);
        DoubleOwn(f, i, own, d, b);
        file.own := own + {d, b};
        return true, WithLinks(f, d, b);
      }
    }

    /** The branch of `append_block` for the indirect slots. */
    method AppendSingle(file: CacheInode, ino: int) returns (ok: bool, ghost b: int)
      requires Valid() && Shaped(file.View(), index, file.own) && NDIRECT <= file.nblks < L1_NBLKS
      modifies this, file`indirect, file`l1
      ensures Valid() && ninos == old(ninos) && (ok <==> old(nextIno) + Needed(file.nblks) <= ninos)
      ensures ok ==> nextIno == old(nextIno) + Needed(file.nblks)
      ensures ok ==>
        && IndirectBlock(old(file.View()), old(index), b) && (b in file.own || b !in old(index))
        && file.View() == old(file.View()).(indirect := b, l1 := Some(b)) && |Page(old(index), b)| == NENTRY
        && index == old(index)[b := Page(old(index), b)[file.nblks - NDIRECT := ino]]
        && NewBlocks(old(index), index, old(nextIno), nextIno)
    {
      hide Shaped, Zeros;
      ghost var f, i := file.View(), index;
      ShapeFacts(f, i, file.own);
      b := 0;
      var cb := UpdateCache(file.l1, file.indirect);
      if cb.None? {
        return false, b;
      }
      b := cb.value;
      file.l1, file.indirect := cb, cb.value;
      assert index == i[b := Page(i, b)] && |Page(i, b)| == NENTRY;
      index := index[cb.value := index[cb.value][file.nblks - NDIRECT := ino]];
      assert index == i[b := Page(i, b)[f.nblks - NDIRECT := ino]];
      return true, b;
    }

    /** The branch of `append_block` for the double-indirect slots. */
    method AppendDouble(file: CacheInode, ino: int) returns (ok: bool, ghost d: int, ghost b: int)
      requires Valid() && Shaped(file.View(), index, file.own) && L1_NBLKS <= file.nblks < LN_NBLKS
      modifies this, file`dbIndirect, file`l1, file`l2
      ensures Valid() && ninos == old(ninos) && (ok <==> old(nextIno) + Needed(file.nblks) <= ninos)
      ensures ok ==> nextIno == old(nextIno) + Needed(file.nblks)
      ensures ok ==>
        && DoubleBlocks(old(file.View()), old(index), file.own, d, b)
        && file.View() == old(file.View()).(dbIndirect := d, l1 := Some(b), l2 := Some(d))
        && |Page(old(index), d)| == NENTRY && |Page(old(index), b)| == NENTRY && (file.nblks - L1_NBLKS) / NENTRY < NENTRY
        && index == WithBlock(old(index), d, b, file.nblks - L1_NBLKS, ino)
        && NewBlocks(old(index), index, old(nextIno), nextIno)
    {
      hide Shaped, Zeros, LastTable, DoubleBlocks;
      ghost var f, i, own := file.View(), index, file.own;
      var n := file.nblks - L1_NBLKS;
      DoubleFacts(f, i, own);
      d, b := 0, 0;
      var db := UpdateCache(file.l2, file.dbIndirect);
      if db.None? {
        return false, d, b;
      }
      d := db.value;
      file.l2, file.dbIndirect := db, db.value;
      assert index == i[d := Page(i, d)] && |Page(i, d)| == NENTRY;
      var table := UpdateCache(file.l1, index[db.value][n / NENTRY]);
      if table.None? {
        return false, d, b;
      }
      b := table.value;
      assert DoubleBlocks(f, i, own, d, b) by { BlocksFound(f, i, own, d, b); }
      TablesReady(f, i, own, d, b);
      file.l1 := table;
      assert index == i[d := Page(i, d)][b := Page(i, b)];
      EnterBlock(db.value, table.value, n, ino, i);
      return true, d, b;
    }

    /** The numbers are written into the two index blocks. */
    method EnterBlock(d: int, b: int, n: nat, ino: int, ghost i: Index)
      requires Valid() && |Page(i, d)| == NENTRY && |Page(i, b)| == NENTRY && n / NENTRY < NENTRY && d != b
      requires index == i[d := Page(i, d)][b := Page(i, b)]
      modifies this`index
      ensures Valid() && index == WithBlock(i, d, b, n, ino)
    {
      index := index[d := index[d][n / NENTRY := b]];
      index := index[b := index[b][n % NENTRY := ino]];
      assert index == WithBlock(i, d, b, n, ino);
    }

    /** Appends of blocks handed out elsewhere, one after the other, to a file of any size. */
    method AppendAll(file: CacheInode, inos: seq<int>) returns (r: Append)
      requires Valid() && file.Complete(index)
      modifies this, file
      ensures r.Appended? <==>
        && old(file.nblks) + |inos| <= 32768
        && old(nextIno) + IndexBlocks(old(file.nblks) + |inos|) - IndexBlocks(old(file.nblks)) <= ninos
      ensures r.Appended? ==> Valid() && file.Complete(index) && file.appended == old(file.appended) + inos
    {
      hide CacheInode.Complete, OwnBlocksOnly, Needed, IndexBlocks;
      BlockCount(file);
      for i := 0 to |inos|
        invariant Valid() && file.Complete(index) && file.nblks == old(file.nblks) + i && ninos == old(ninos)
        invariant file.appended == old(file.appended) + inos[..i] && file.nblks <= LN_NBLKS
        invariant nextIno == old(nextIno) + IndexBlocks(file.nblks) - IndexBlocks(old(file.nblks))
      {
        NeededCounts(file.nblks);
        var r1 := AppendBlock(file, 0, inos[i]);
        if !r1.Appended? {
          IndexBlocksGrow(old(file.nblks) + i + 1, old(file.nblks) + |inos|);
          return r1;
        }
        BlockCount(file);
        assert inos[..i + 1] == inos[..i] + [inos[i]];
      }
      assert inos[..|inos|] == inos;
      return Appended;
    }

    /** `open_file`: the pieces that are read go to blocks handed out by the same allocator as the index blocks
        that they need. */
    method OpenFile(file: CacheInode, chunks: seq<nat>) returns (r: Opened, ghost inos: seq<int>)
      requires Valid() && file.Complete(index) && forall c :: c in chunks ==> 1 <= c <= BLKSIZE
      modifies this, file
      ensures r.Stored? <==>
        && (forall i :: 0 <= i < |chunks| - 1 ==> chunks[i] == 4096)
        && old(file.nblks) + |chunks| <= 32768
        && old(nextIno) + |chunks| + IndexBlocks(old(file.nblks) + |chunks|) - IndexBlocks(old(file.nblks)) <= ninos
      ensures r.Stored? ==>
        && Valid() && file.Complete(index) && |inos| == |chunks|
        && file.appended == old(file.appended) + inos && file.size == old(file.size) + Total(chunks)
        && nextIno == old(nextIno) + |chunks| + IndexBlocks(file.nblks) - IndexBlocks(old(file.nblks))
        && Parted(old(index), index, inos, old(nextIno), nextIno)
    {
      hide CacheInode.Complete, OwnBlocksOnly, Needed, IndexBlocks, NewBlocks, Parted, Total;
      inos := [];
      BlockCount(file);
      NothingParted(index, nextIno);
      NothingRead(chunks);
      var i, last := 0, BLKSIZE;
      while i < |chunks|
        invariant 0 <= i <= |chunks| && |inos| == i && Valid() && file.Complete(index) && ninos == old(ninos)
        invariant file.nblks == old(file.nblks) + i <= LN_NBLKS
        invariant file.appended == old(file.appended) + inos && file.size == old(file.size) + Total(chunks[..i])
        invariant nextIno == old(nextIno) + i + IndexBlocks(file.nblks) - IndexBlocks(old(file.nblks))
        invariant Parted(old(index), index, inos, old(nextIno), nextIno) && forall b :: b in old(index) ==> b in index
        invariant last == if i == 0 then BLKSIZE else chunks[i - 1]
        invariant forall j :: 0 <= j < i - 1 ==> chunks[j] == BLKSIZE
      {
        IndexBlocksGrow(old(file.nblks) + i, old(file.nblks) + |chunks|);
        IndexBlocksGrow(old(file.nblks) + i + 1, old(file.nblks) + |chunks|);
        IndexBlocksGrow(old(file.nblks), old(file.nblks) + i);
        NeededCounts(file.nblks);
        if last != BLKSIZE {
          return ShortRead, inos;
        }
        ghost var mid, n := index, nextIno;
        var ino := AllocIno();
        if ino.None? {
          return Full(NoSpace), inos;
        }
        var r1 := AppendBlock(file, chunks[i], ino.value);
        if !r1.Appended? {
          return Full(r1), inos;
        }
        BlockCount(file);
        PartedMore(old(index), mid, index, inos, old(nextIno), n, nextIno);
        TotalMore(chunks, i);
        inos := inos + [ino.value];
        last, i := chunks[i], i + 1;
      }
      assert chunks[..|chunks|] == chunks;
      return Stored, inos;
    }

    lemma BlockCount(file: CacheInode)
      requires file.Complete(index)
      ensures file.nblks == |file.appended| <= LN_NBLKS
    {
    }
  }

  /** The blocks that are used of an image file of `blocks` blocks: the count is cut to 32 bits before it is
      compared. */
  function UsedBlocks(blocks: nat): nat {
    var n := Wrap(blocks);
    if n > MAX_NBLKS then MAX_NBLKS else n
  }

  /** `create_sfs` for an image file of `blocks` blocks; null when the program gives up because the
      file is too small. Larger files are used in part. */
  method CreateImage(blocks: nat) returns (r: Image?)
    ensures r == null <==> blocks % 0x1_0000_0000 <= 3
    ensures r != null ==>
      && fresh(r) && r.Valid() && r.index == map[]
      && r.ninos == (if blocks % 0x1_0000_0000 < 524288 then blocks % 0x1_0000_0000 else 524288)
      && 32768 * (r.nextIno - 3) < r.ninos <= 32768 * (r.nextIno - 2)
  {
    TooSmall(blocks);
    var ninos := Wrap(blocks) as nat;
    if ninos > MAX_NBLKS {
      ninos := MAX_NBLKS;
    }
    if FREEMAP + BitmapSize(ninos) >= ninos {
      return null;
    }
    BitmapTight(ninos);
    r := new Image(ninos);
  }

  /** An image file is refused exactly if it has at most three blocks more than a multiple of 2^32: an image of
      16 TB and a bit is too small. */
  lemma TooSmall(blocks: nat)
    ensures var n := UsedBlocks(blocks); FREEMAP + BitmapSize(n) >= n <==> blocks % 0x1_0000_0000 <= 3
  {
  }

  // ---------- the bitmap of free blocks ----------

  const BITS: int := 32

  /** A block of the bitmap: words of 32 bits, lowest bit first. */
  ghost predicate BitBlock(data: seq<seq<bool>>) {
    |data| == NENTRY && forall w :: 0 <= w < NENTRY ==> |data[w]| == BITS
  }

  ghost predicate BitAt(data: seq<seq<bool>>, j: int)
    requires BitBlock(data) && 0 <= j < BLKBITS
  {
    data[j / BITS][j % BITS]
  }

  function NoBits(): (data: seq<seq<bool>>)
    ensures BitBlock(data) && forall j :: 0 <= j < BLKBITS ==> !BitAt(data, j)
  {
    seq(NENTRY, w => seq(BITS, b => false))
  }

  /** One block of the bitmap, for the blocks from `i` on. */
  method BitmapBlock(i: nat, ninos: nat, nextIno: nat) returns (data: seq<seq<bool>>)
    requires i < ninos && nextIno <= ninos
    ensures |data| == 1024 && forall w :: 0 <= w < 1024 ==> |data[w]| == 32
    ensures forall j :: 0 <= j < 32768 ==> (data[j / 32][j % 32] <==> nextIno <= i + j < ninos)
  {
    data := NoBits();
    if i + BLKBITS > nextIno {
      var start, end := 0, BLKBITS;
      if i < nextIno {
        start := nextIno - i;
      }
      if i + BLKBITS > ninos {
        end := ninos - i;
      }
      for j := start to end
        invariant BitBlock(data)
        invariant forall k :: 0 <= k < BLKBITS ==> (BitAt(data, k) <==> start <= k < j)
      {
        ghost var before := data;
        data := data[j / BITS := data[j / BITS][j % BITS := true]];
        forall k | 0 <= k < BLKBITS ensures BitAt(data, k) <==> start <= k < j + 1 {
          assert BitAt(before, k) <==> start <= k < j;
          assert k == k / BITS * BITS + k % BITS && j == j / BITS * BITS + j % BITS;
        }
      }
    }
    forall j | 0 <= j < BLKBITS ensures data[j / 32][j % 32] <==> nextIno <= i + j < ninos {
      assert BitAt(data, j) <==> nextIno <= i + j < ninos;
    }
  }

  lemma BitsMarked(data: seq<seq<bool>>, i: nat, nextIno: nat, ninos: nat)
    requires BitBlock(data) && forall j :: 0 <= j < 32768 ==> (data[j / 32][j % 32] <==> nextIno <= i + j < ninos)
    ensures forall j :: 0 <= j < BLKBITS ==> (BitAt(data, j) <==> nextIno <= i + j < ninos)
  {
  }

  lemma BitPlace(t: nat, w: nat, b: nat)
    requires w < 1024 && b < 32
    ensures var n := 32768 * t + 32 * w + b;
      n / 32768 == t && n % 32768 == 32 * w + b && n % 32768 / 32 == w && n % 32768 % 32 == b
  {
  }

  /** Whether the bitmap, block after block, marks block `n` of the image as free. */
  ghost predicate Marked(bitmap: seq<seq<seq<bool>>>, n: int)
    requires 0 <= n < |bitmap| * BLKBITS && forall t :: 0 <= t < |bitmap| ==> BitBlock(bitmap[t])
  {
    BitAt(bitmap[n / BLKBITS], n % BLKBITS)
  }

  /** The loop of `close_sfs`: the blocks written from FREEMAP on. Exactly the blocks not handed out
      are marked, none beyond the image, and the bitmap has the size set aside for it. */
  method Bitmap(ninos: nat, nextIno: nat) returns (bitmap: seq<seq<seq<bool>>>)
    requires nextIno <= ninos
    ensures |bitmap| == BitmapSize(ninos) && forall t :: 0 <= t < |bitmap| ==> BitBlock(bitmap[t])
    ensures forall t, w, b :: 0 <= t < |bitmap| && 0 <= w < |bitmap[t]| && 0 <= b < |bitmap[t][w]| ==>
      (bitmap[t][w][b] <==> nextIno <= 32768 * t + 32 * w + b < ninos)
  {
    bitmap := [];
    var i := 0;
    while i < ninos
      invariant i == |bitmap| * BLKBITS && |bitmap| <= (ninos + BLKBITS - 1) / BLKBITS
      invariant forall t :: 0 <= t < |bitmap| ==> BitBlock(bitmap[t])
      invariant forall n :: 0 <= n < |bitmap| * BLKBITS ==> (Marked(bitmap, n) <==> nextIno <= n < ninos)
    {
      var data := BitmapBlock(i, ninos, nextIno);
      BitsMarked(data, i, nextIno, ninos);
      ghost var before := bitmap;
      bitmap := bitmap + [data];
      forall n | 0 <= n < |bitmap| * BLKBITS ensures Marked(bitmap, n) <==> nextIno <= n < ninos {
        if n < |before| * BLKBITS {
          assert Marked(before, n) <==> nextIno <= n < ninos;
          assert bitmap[n / BLKBITS] == before[n / BLKBITS];
        } else {
          assert n / BLKBITS == |before| && n % BLKBITS == n - i;
        }
      }
      i := i + BLKBITS;
    }
    forall t, w, b | 0 <= t < |bitmap| && 0 <= w < |bitmap[t]| && 0 <= b < |bitmap[t][w]|
      ensures bitmap[t][w][b] <==> nextIno <= 32768 * t + 32 * w + b < ninos
    {
      BitPlace(t, w, b);
      assert Marked(bitmap, 32768 * t + 32 * w + b) <==> nextIno <= 32768 * t + 32 * w + b < ninos;
    }
  }
}
