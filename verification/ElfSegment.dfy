/** Loading one segment of a program (the loops of `load_icode`, Lab5/kern/process/proc.c). Pages of
    the address space are keyed by page number; the page source gives frames with anything in them. */
module ElfSegment {
  import opened Seqs

  const PGSIZE: int := 4096

  /** A program header, and the file it describes. */
  datatype Segment = Segment(file: seq<int>, offset: nat, va: nat, filesz: nat, memsz: nat) {
    ghost predicate InFile() { offset + filesz <= |file| }

    /** The byte that belongs at address `a`: from the file, and zero behind that. */
    ghost function ByteAt(a: int): int
      requires InFile() && va <= a < va + memsz
    {
      if a < va + filesz then file[offset + (a - va)] else 0
    }

    /** The pages that the segment touches: `Pages()` of them from `First()`. */
    function First(): nat { va / PGSIZE }

    function Pages(): nat { if memsz == 0 then 0 else (va + memsz - 1) / PGSIZE - va / PGSIZE + 1 }
  }

  datatype Result = Loaded(pages: map<int, seq<int>>) | NoMemory | BadElf

  /** Byte `a` once everything below `start` is in place: the segment's there, elsewhere what was in
      the frame. */
  ghost function Want(s: Segment, frames: seq<seq<int>>, n: int, o: int, start: int): int
    requires s.InFile() && s.First() <= n < s.First() + |frames| && 0 <= o < |frames[n - s.First()]|
    requires start <= s.va + s.memsz
  {
    if s.va <= n * PGSIZE + o < start then s.ByteAt(n * PGSIZE + o) else frames[n - s.First()][o]
  }

  ghost predicate PageDone(s: Segment, frames: seq<seq<int>>, page: seq<int>, n: int, start: int)
    requires s.InFile() && s.First() <= n < s.First() + |frames| && |frames[n - s.First()]| == PGSIZE
    requires start <= s.va + s.memsz
  {
    |page| == PGSIZE && forall o :: 0 <= o < PGSIZE ==> page[o] == Want(s, frames, n, o, start)
  }

  /** The pages from the first up to `next` are mapped, and hold the segment below `start`. */
  ghost predicate Progress(s: Segment, frames: seq<seq<int>>, pages: map<int, seq<int>>, next: int, start: int) {
    && s.InFile() && start <= s.va + s.memsz && s.First() <= next <= s.First() + |frames|
    && (forall f :: f in frames ==> |f| == PGSIZE)
    && (forall n :: n in pages <==> s.First() <= n < next)
    && forall n :: s.First() <= n < next ==> PageDone(s, frames, pages[n], n, start)
  }

  /** memcpy and memset, into one page. */
  function Put(page: seq<int>, off: nat, data: seq<int>): (r: seq<int>)
    requires off + |data| <= |page|
    ensures |r| == |page|
    ensures forall o :: 0 <= o < |page| ==> r[o] == if off <= o < off + |data| then data[o - off] else page[o]
  {
    page[..off] + data + page[off + |data|..]
  }

  /** The data are the bytes of the segment from `start` on. */
  ghost predicate Matches(s: Segment, start: int, data: seq<int>) {
    && s.InFile() && s.va <= start && start + |data| <= s.va + s.memsz
    && forall i :: 0 <= i < |data| ==> data[i] == s.ByteAt(start + i)
  }

  /** A page is mapped where none was, and filled from `off` on; the others are done already. */
  lemma NewPage(s: Segment, frames: seq<seq<int>>, pages: map<int, seq<int>>, next: int, start: int, data: seq<int>)
    requires Progress(s, frames, pages, next, start) && next < s.First() + |frames|
    requires next * PGSIZE <= start < (next + 1) * PGSIZE && s.va <= start
    requires start + |data| <= (next + 1) * PGSIZE && start + |data| <= s.va + s.memsz
    requires next == s.First() ==> start == s.va
    requires next > s.First() ==> start == next * PGSIZE
    requires Matches(s, start, data)
    ensures next !in pages
    ensures Progress(s, frames, pages[next := Put(frames[next - s.First()], start - next * PGSIZE, data)], next + 1,
                     start + |data|)
  {
    var page := Put(frames[next - s.First()], start - next * PGSIZE, data);
    assert frames[next - s.First()] in frames;
    forall o | 0 <= o < PGSIZE ensures page[o] == Want(s, frames, next, o, start + |data|) {
    }
    forall n | s.First() <= n < next ensures PageDone(s, frames, pages[n], n, start + |data|) {
      assert PageDone(s, frames, pages[n], n, start);
      assert frames[n - s.First()] in frames;
      assert (n + 1) * PGSIZE <= next * PGSIZE;
      forall o | 0 <= o < PGSIZE ensures pages[n][o] == Want(s, frames, n, o, start + |data|) {
        assert pages[n][o] == Want(s, frames, n, o, start);
      }
    }
  }

  /** More of the last page is filled. */
  lemma LastPage(s: Segment, frames: seq<seq<int>>, pages: map<int, seq<int>>, next: int, start: int, data: seq<int>)
    requires Progress(s, frames, pages, next, start) && next > s.First() && s.va <= start
    requires (next - 1) * PGSIZE <= start && start + |data| <= next * PGSIZE && start + |data| <= s.va + s.memsz
    requires Matches(s, start, data)
    ensures next - 1 in pages && |pages[next - 1]| == PGSIZE
    ensures Progress(s, frames, pages[next - 1 := Put(pages[next - 1], start - (next - 1) * PGSIZE, data)], next,
                     start + |data|)
  {
    assert PageDone(s, frames, pages[next - 1], next - 1, start);
    var pages' := pages[next - 1 := Put(pages[next - 1], start - (next - 1) * PGSIZE, data)];
    forall n | s.First() <= n < next ensures PageDone(s, frames, pages'[n], n, start + |data|) {
      assert PageDone(s, frames, pages[n], n, start);
      assert frames[n - s.First()] in frames;
      assert n < next - 1 ==> (n + 1) * PGSIZE <= (next - 1) * PGSIZE;
      forall o | 0 <= o < PGSIZE ensures pages'[n][o] == Want(s, frames, n, o, start + |data|) {
        assert pages[n][o] == Want(s, frames, n, o, start);
      }
    }
  }

  lemma Nothing(s: Segment, frames: seq<seq<int>>)
    requires s.InFile() && forall f :: f in frames ==> |f| == PGSIZE
    ensures Progress(s, frames, map[], s.First(), s.va) && s.First() * PGSIZE == s.va - s.va % PGSIZE
    ensures s.va < (s.First() + 1) * PGSIZE
  {
  }

  lemma FileBytes(s: Segment, start: int, from: int, size: nat)
    requires s.InFile() && s.va <= start && start + size <= s.va + s.filesz && s.filesz <= s.memsz
    requires from == s.offset + (start - s.va)
    ensures Matches(s, start, s.file[from..from + size])
  {
  }

  lemma ZeroBytes(s: Segment, start: int, size: nat)
    requires s.InFile() && s.va + s.filesz <= start && start + size <= s.va + s.memsz
    ensures Matches(s, start, Zeros(size))
  {
  }

  /** How far the pages reach that are mapped so far. */
  lemma PagesNeeded(s: Segment, next: int, start: int)
    requires s.First() <= next && s.va <= start <= s.va + s.memsz
    requires if next == s.First() then start == s.va else start > s.va && (next - 1) * PGSIZE < start <= next * PGSIZE
    ensures start == s.va + s.memsz ==> next == s.First() + s.Pages()
    ensures start < s.va + s.memsz && (next == s.First() || start == next * PGSIZE) ==> next < s.First() + s.Pages()
  {
  }

  /** What has been loaded when `used` frames are: the bytes below `start`, with all pages below `la`. */
  ghost predicate Reached(s: Segment, frames: seq<seq<int>>, pages: map<int, seq<int>>, start: int, la: int, used: nat) {
    && used <= |frames| && la == (s.First() + used) * PGSIZE && Progress(s, frames, pages, s.First() + used, start)
    && if used == 0 then start == s.va else start > s.va && la - PGSIZE < start <= la
  }

  /** The first loop: the bytes of the file. */
  method CopyFile(s: Segment, frames: seq<seq<int>>)
    returns (ok: bool, pages: map<int, seq<int>>, start: int, la: int, used: nat)
    requires s.InFile() && s.filesz <= s.memsz && forall f :: f in frames ==> |f| == PGSIZE
    ensures s.va <= start <= s.va + s.filesz && Reached(s, frames, pages, start, la, used)
    ensures ok ==> start == s.va + s.filesz
    ensures !ok ==> used == |frames| && start < s.va + s.filesz && (used == 0 || start == la)
  {
    hide Progress, Matches, Segment.Pages, Segment.First, Segment.ByteAt, Put;
    Nothing(s, frames);
    ok, pages, used := true, map[], 0;
    var from, end := s.offset, s.va + s.filesz;
    start, la := s.va, s.va - s.va % PGSIZE;
    while start < end
      invariant s.va <= start <= end && from == s.offset + (start - s.va)
      invariant Reached(s, frames, pages, start, la, used)
      invariant used == 0 || start == la || start == end
      decreases end - start
    {
      if used == |frames| {
        ok := false;
        return;
      }
      assert frames[used] in frames;
      var page := frames[used];
      used := used + 1;
      var off := start - la;
      var size := PGSIZE - off;
      la := la + PGSIZE;
      if end < la {
        size := size - (la - end);
      }
      FileBytes(s, start, from, size);
      NewPage(s, frames, pages, s.First() + used - 1, start, s.file[from..from + size]);
      pages := pages[(la - PGSIZE) / PGSIZE := Put(page, off, s.file[from..from + size])];
      start, from := start + size, from + size;
    }
  }

  /** The second loop: zeros behind them, from a page boundary on. */
  method ClearRest(s: Segment, frames: seq<seq<int>>, pages0: map<int, seq<int>>, start0: int, la0: int, used0: nat)
    returns (ok: bool, pages: map<int, seq<int>>, start: int, used: nat, ghost la: int)
    requires s.InFile() && forall f :: f in frames ==> |f| == PGSIZE
    requires s.va + s.filesz <= start0 <= s.va + s.memsz && Reached(s, frames, pages0, start0, la0, used0)
    requires used0 == 0 || start0 == la0 || start0 == s.va + s.memsz
    ensures start <= s.va + s.memsz && Reached(s, frames, pages, start, la, used)
    ensures ok ==> start == s.va + s.memsz
    ensures !ok ==> used == |frames| && start < s.va + s.memsz && (used == 0 || start == la)
  {
    hide Progress, Matches, Segment.Pages, Segment.First, Segment.ByteAt, Put, Zeros;
    Nothing(s, frames);
    var end, cur := s.va + s.memsz, la0;
    ok, pages, start, used, la := true, pages0, start0, used0, la0;
    while start < end
      invariant s.va + s.filesz <= start <= end && Reached(s, frames, pages, start, cur, used) && la == cur
      invariant used == 0 || start == cur || start == end
      decreases end - start
    {
      if used == |frames| {
        ok := false;
        return;
      }
      assert frames[used] in frames;
      var page := frames[used];
      used := used + 1;
      var off := start - cur;
      var size := PGSIZE - off;
      cur := cur + PGSIZE;
      if end < cur {
        size := size - (cur - end);
      }
      ZeroBytes(s, start, size);
      NewPage(s, frames, pages, s.First() + used - 1, start, Zeros(size));
      pages := pages[(cur - PGSIZE) / PGSIZE := Put(page, off, Zeros(size))];
      start, la := start + size, cur;
    }
  }

  /** The loops for one segment, with the rest of the last page of the file between them; `frames` are the
      frames that the page source would give, in order. */
  method LoadSegment(s: Segment, frames: seq<seq<int>>) returns (r: Result, used: nat)
    requires s.InFile() && forall f :: f in frames ==> |f| == PGSIZE
    ensures r.BadElf? <==> s.filesz > s.memsz
    ensures r.NoMemory? <==> s.filesz <= s.memsz && |frames| < s.Pages()
    ensures r.Loaded? ==> used == s.Pages() <= |frames|
    ensures r.Loaded? ==> Progress(s, frames, r.pages, s.First() + s.Pages(), s.va + s.memsz)
  {
    hide Progress, Matches, Segment.Pages, Segment.First, Segment.ByteAt, Put, Zeros;
    Nothing(s, frames);
    used := 0;
    if s.filesz > s.memsz {
      return BadElf, used;
    }
    var ok, pages, start, la;
    ok, pages, start, la, used := CopyFile(s, frames);
    PagesNeeded(s, s.First() + used, start);
    if !ok {
      return NoMemory, used;
    }
    var end := s.va + s.memsz;
    if start < la {
      if start == end {
        return Loaded(pages), used;
      }
      var off := start + PGSIZE - la;
      var size := PGSIZE - off;
      if end < la {
        size := size - (la - end);
      }
      ZeroBytes(s, start, size);
      LastPage(s, frames, pages, s.First() + used, start, Zeros(size));
      pages := pages[la / PGSIZE - 1 := Put(pages[la / PGSIZE - 1], off, Zeros(size))];
      start := start + size;
      assert (end < la && start == end) || (end >= la && start == la);
    }
    ghost var upTo;
    ok, pages, start, used, upTo := ClearRest(s, frames, pages, start, la, used);
    PagesNeeded(s, s.First() + used, start);
    r := if ok then Loaded(pages) else NoMemory;
  }

  /** The pages mapped are those with an address of the segment in them, and no other. */
  lemma PagesTouched(s: Segment, n: int)
    ensures s.First() <= n < s.First() + s.Pages() <==> exists a :: s.va <= a < s.va + s.memsz && a / 4096 == n
  {
    if s.First() <= n < s.First() + s.Pages() {
      var a := if n == s.First() then s.va else n * 4096;
      assert s.va <= a < s.va + s.memsz && a / 4096 == n;
    }
  }

  /** Byte for byte: what memory holds after the segment was loaded, at its own addresses and beside
      them in the pages it touches. */
  lemma SegmentInMemory(s: Segment, frames: seq<seq<int>>, pages: map<int, seq<int>>, a: int)
    requires Progress(s, frames, pages, s.First() + s.Pages(), s.va + s.memsz)
    ensures a / PGSIZE in pages <==> s.First() <= a / PGSIZE < s.First() + s.Pages()
    ensures s.va <= a < s.va + s.memsz ==> a / PGSIZE in pages && |pages[a / PGSIZE]| == PGSIZE
    ensures s.va <= a < s.va + s.memsz && a < s.va + s.filesz ==>
      s.offset + s.filesz <= |s.file| && pages[a / PGSIZE][a % PGSIZE] == s.file[s.offset + (a - s.va)]
    ensures s.va + s.filesz <= a < s.va + s.memsz ==> pages[a / PGSIZE][a % PGSIZE] == 0
    ensures a / PGSIZE in pages && !(s.va <= a < s.va + s.memsz) ==>
      |pages[a / PGSIZE]| == PGSIZE && a / PGSIZE - s.First() < |frames| && |frames[a / PGSIZE - s.First()]| == PGSIZE
      && pages[a / PGSIZE][a % PGSIZE] == frames[a / PGSIZE - s.First()][a % PGSIZE]
  {
    var n, o := a / PGSIZE, a % PGSIZE;
    if s.First() <= n < s.First() + s.Pages() {
      assert PageDone(s, frames, pages[n], n, s.va + s.memsz);
      assert frames[n - s.First()] in frames;
      assert pages[n][o] == Want(s, frames, n, o, s.va + s.memsz);
    }
  }
}
