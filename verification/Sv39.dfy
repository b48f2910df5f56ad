/** Addresses and page table entries of lab3/kern/mm/mmu.h and pmm.h as numbers: a shift is a
    multiplication or division by a power of two, and fields that do not overlap are added. */
module Sv39 {

  const PAGE_SIZE: int := 4096
  const ENTRIES: int := 512

  /** Pages of the lower half of the 39-bit address space. */
  const PAGES: int := 0x400_0000
  const LOWER_HALF: int := 0x40_0000_0000

  const PTE_V: int := 1
  const PTE_R: int := 2
  const PTE_W: int := 4
  const PTE_U: int := 16

  function Pdx1(la: int): int { la / 0x4000_0000 % 512 }

  function Pdx0(la: int): int { la / 0x20_0000 % 512 }

  function Ptx(la: int): int { la / 4096 % 512 }

  function PgOff(la: int): int { la % 4096 }

  /** PPN(la), the page number. */
  function Vpn(la: int): int { la / 4096 }

  function RoundDown(la: int): int { la - la % 4096 }

  /** PGADDR: the fields do not overlap. */
  function PgAddr(d1: int, d0: int, t: int, o: int): int {
    d1 * 0x4000_0000 + d0 * 0x20_0000 + t * 4096 + o
  }

  /** The four fields of an address determine it, and are determined by page number and offset. */
  lemma AddressFields(la: int)
    requires 0 <= la < LOWER_HALF
    ensures 0 <= Pdx1(la) < 256 && 0 <= Pdx0(la) < 512 && 0 <= Ptx(la) < 512
    ensures PgAddr(Pdx1(la), Pdx0(la), Ptx(la), PgOff(la)) == la
    ensures Pdx1(la) == Vpn(la) / 512 / 512 && Pdx0(la) == Vpn(la) / 512 % 512 && Ptx(la) == Vpn(la) % 512
    ensures Vpn(la) < PAGES && Vpn(RoundDown(la)) == Vpn(la) && PgOff(RoundDown(la)) == 0
  {
    assert la / 0x4000_0000 == la / 4096 / 512 / 512;
    assert la / 0x20_0000 == la / 4096 / 512;
  }

  /** pte_create: the type is or-ed with the valid bit, the lowest one. */
  function PteCreate(ppn: int, kind: int): int {
    ppn * 1024 + if kind % 2 == 0 then kind + PTE_V else kind
  }

  predicate Present(pte: int) { pte % 2 == 1 }

  predicate ReadBit(pte: int) { pte / 2 % 2 == 1 }

  predicate WriteBit(pte: int) { pte / 4 % 2 == 1 }

  predicate ExecuteBit(pte: int) { pte / 8 % 2 == 1 }

  predicate UserBit(pte: int) { pte / 16 % 2 == 1 }

  /** PTE_ADDR: the low ten bits go, the rest moves up by two. */
  function PteAddr(pte: int): int { pte / 1024 * 4096 }

  /** The frame a valid entry names: pte2page, as a page number. */
  function FrameOf(pte: int): int { Vpn(PteAddr(pte)) }

  lemma PteRoundTrip(ppn: int, kind: int)
    requires 0 <= ppn && 0 <= kind < 1024
    ensures Present(PteCreate(ppn, kind)) && FrameOf(PteCreate(ppn, kind)) == ppn && PteCreate(ppn, kind) > 0
    ensures ReadBit(PteCreate(ppn, kind)) == ReadBit(kind) && WriteBit(PteCreate(ppn, kind)) == WriteBit(kind)
    ensures ExecuteBit(PteCreate(ppn, kind)) == ExecuteBit(kind) && UserBit(PteCreate(ppn, kind)) == UserBit(kind)
  {
    var low := if kind % 2 == 0 then kind + 1 else kind;
    assert low / 2 == kind / 2 && low % 2 == 1;
    HighAndLow(ppn, low);
    assert kind / 4 == kind / 2 / 2 && kind / 8 == kind / 2 / 4 && kind / 16 == kind / 2 / 8;
    assert low / 4 == low / 2 / 2 && low / 8 == low / 2 / 4 && low / 16 == low / 2 / 8;
  }

  lemma HighAndLow(high: int, low: int)
    requires 0 <= low < 1024
    ensures (high * 1024 + low) / 1024 == high && (high * 1024 + low) % 2 == low % 2
    ensures (high * 1024 + low) / 2 % 2 == low / 2 % 2 && (high * 1024 + low) / 4 % 2 == low / 4 % 2
    ensures (high * 1024 + low) / 8 % 2 == low / 8 % 2 && (high * 1024 + low) / 16 % 2 == low / 16 % 2
  {
    var w := high * 1024 + low;
    Halved(high * 512, low);
    Halved(high * 256, low / 2);
    Halved(high * 128, low / 2 / 2);
    Halved(high * 64, low / 2 / 2 / 2);
    Halved(high * 32, low / 2 / 2 / 2 / 2);
    Quarters(w);
    Quarters(low);
  }

  lemma Halved(m: int, y: int)
    ensures (2 * m + y) / 2 == m + y / 2 && (2 * m + y) % 2 == y % 2
  {
  }

  lemma Quarters(x: int)
    ensures x / 4 == x / 2 / 2 && x / 8 == x / 2 / 2 / 2 && x / 16 == x / 2 / 2 / 2 / 2
  {
  }

  /** The entry that `swap_out` leaves for the page: its slot on the disk, shifted by eight. */
  function SwapEntry(va: int): int { (va / PAGE_SIZE + 1) * 256 }

  const MAX_SWAP_OFFSET_LIMIT: int := 0x100_0000

  /** swap_offset, which panics unless the offset is in range. */
  function SwapOffset(entry: int): int { entry / 256 }

  predicate ValidOffset(entry: int, maxSwapOffset: int) { 0 < SwapOffset(entry) < maxSwapOffset }

  /** A swap entry is neither empty nor valid, fits its 32 bits, and leads back to the slot; no two
      pages share one. */
  lemma SwapEntryRoundTrip(va: int, maxSwapOffset: int)
    requires 0 <= va && maxSwapOffset <= MAX_SWAP_OFFSET_LIMIT
    ensures !Present(SwapEntry(va)) && SwapEntry(va) != 0 && SwapOffset(SwapEntry(va)) == Vpn(va) + 1
    ensures ValidOffset(SwapEntry(va), maxSwapOffset) <==> Vpn(va) + 1 < maxSwapOffset
    ensures ValidOffset(SwapEntry(va), maxSwapOffset) ==> SwapEntry(va) < 0x1_0000_0000
    ensures forall vb :: SwapOffset(SwapEntry(vb)) == SwapOffset(SwapEntry(va)) <==> Vpn(vb) == Vpn(va)
  {
    forall vb ensures SwapOffset(SwapEntry(vb)) == Vpn(vb) + 1 {
      assert (vb / PAGE_SIZE + 1) * 256 / 256 == vb / PAGE_SIZE + 1;
    }
  }
}
