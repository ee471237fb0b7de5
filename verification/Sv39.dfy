/**
  Bit-level page arithmetic on 64-bit words, in the format of Sv39: section 4.4 of the RISC-V
  Privileged Specification (version 20211203).
*/
module Sv39 {

  const PGSIZE: bv64 := 4096
  const MAXVA: bv64 := 0x40_0000_0000     // 1 << (9 + 9 + 9 + 12 - 1)

  const LASTPAGE: bv64 := 0xFFFF_FFFF_FFFF_F000

  const PTE_V: bv64 := 1
  const PTE_R: bv64 := 2
  const PTE_W: bv64 := 4
  const PTE_X: bv64 := 8
  const PTE_U: bv64 := 16
  const PTE_COW: bv64 := 256
  const FLAGS: bv64 := 0x3FF

  function PgRoundUp(size: bv64): bv64 {
    (size + PGSIZE - 1) & !(PGSIZE - 1)
  }

  function PgRoundDown(addr: bv64): bv64 {
    addr & !(PGSIZE - 1)
  }

  function PaToPte(pa: bv64): bv64 {
    (pa >> 12) << 10
  }

  function PteToPa(pte: bv64): bv64 {
    (pte >> 10) << 12
  }

  function PteFlags(pte: bv64): bv64 {
    pte & FLAGS
  }

  /** Index into the page table of the given level, 0 to 2. */
  function Px(level: nat, va: bv64): bv64
    requires level <= 2
  {
    (if level == 0 then va >> 12 else if level == 1 then va >> 21 else va >> 30) & 0x1FF
  }

  predicate Aligned(a: bv64) {
    a & (PGSIZE - 1) == 0
  }

  /** An entry gives back the page and the flags it was made from. */
  lemma PteRoundTrip(pa: bv64, flags: bv64)
    requires Aligned(pa) && flags & !FLAGS == 0
    ensures PteToPa(PaToPte(pa) | flags) == pa
    ensures PteFlags(PaToPte(pa) | flags) == flags
  {
  }

  /** Replacing the flags of an entry leaves its page alone, as copy and vmfault rely on. */
  lemma ReflagKeepsPage(pte: bv64)
    ensures PteToPa((pte & !PTE_W) | PTE_COW) == PteToPa(pte)
    ensures PteToPa(PaToPte(PteToPa(pte)) | ((PteFlags(pte) & !PTE_COW) | PTE_W)) == PteToPa(pte)
    ensures ((PteFlags(pte) & !PTE_COW) | PTE_W) & PTE_COW == 0
    ensures ((pte & !PTE_W) | PTE_COW) & PTE_V == pte & PTE_V
  {
  }

  /** The offset within the page plays no part in the indices. */
  lemma IndicesIgnoreOffset(va: bv64)
    ensures Px(0, va) == Px(0, PgRoundDown(va))
    ensures Px(1, va) == Px(1, PgRoundDown(va))
    ensures Px(2, va) == Px(2, PgRoundDown(va))
  {
  }

  /** Below MAXVA the indices give the page back. */
  lemma IndicesRebuildPage(va: bv64)
    requires va < MAXVA
    ensures PgRoundDown(va) == (Px(0, va) << 12) | (Px(1, va) << 21) | (Px(2, va) << 30)
  {
  }

  /** Two addresses below MAXVA reach the same entry of every level exactly when they share a page. */
  lemma SameEntrySamePage(va: bv64, vb: bv64)
    requires va < MAXVA && vb < MAXVA
    ensures (Px(2, va) == Px(2, vb) && Px(1, va) == Px(1, vb) && Px(0, va) == Px(0, vb))
            <==> PgRoundDown(va) == PgRoundDown(vb)
  {
    hide Px, PgRoundDown;
    IndicesRebuildPage(va);
    IndicesRebuildPage(vb);
    IndicesIgnoreOffset(va);
    IndicesIgnoreOffset(vb);
  }

  /** Below MAXVA only the first half of the root table is used. */
  lemma RootHalf(va: bv64)
    requires va < MAXVA
    ensures Px(2, va) < 256 && Px(1, va) < 512 && Px(0, va) < 512
  {
  }

  /** Rounding down gives the nearest multiple of the page size below. */
  lemma RoundingDown(a: bv64)
    ensures Aligned(PgRoundDown(a)) && PgRoundDown(a) <= a
    ensures a - PgRoundDown(a) < PGSIZE
  {
    assert a - PgRoundDown(a) == a & 0xFFF;
  }

  /** Rounding up gives the nearest multiple above, as long as the sum does not wrap around. */
  lemma RoundingUp(a: bv64)
    requires a <= LASTPAGE
    ensures a <= PgRoundUp(a) <= a + (PGSIZE - 1)
  {
  }

  lemma RoundingUpAligns(a: bv64)
    ensures Aligned(PgRoundUp(a))
  {
  }

  /** Beyond the last page the sum wraps around, and rounding up gives zero. */
  lemma RoundingUpWraps(a: bv64)
    requires a > LASTPAGE
    ensures PgRoundUp(a) == 0
  {
  }
}
