/**
 The bit layout of addresses and page-table entries (include/mm64.h,
 src/mm64.c:261-375): 5-level paging as in section 4.5 of volume 3A of the
 Intel 64 manual, with the program's own swapped bit and swap fields.
 */
module Bits {

  type Addr = bv64

  // ----- address fields -----

  function OffsetMask(): bv64 { 0x0000_0000_0000_0FFF }
  function PtMask(): bv64 { 0x0000_0000_001F_F000 }
  function PmdMask(): bv64 { 0x0000_0000_3FE0_0000 }
  function PudMask(): bv64 { 0x0000_007F_C000_0000 }
  function P4dMask(): bv64 { 0x0000_FF80_0000_0000 }
  function PgdMask(): bv64 { 0x01FF_0000_0000_0000 }

  /** The five table indices of an address. */
  datatype Path = Path(pgd: bv64, p4d: bv64, pud: bv64, pmd: bv64, pt: bv64)

  /** get_pd_from_address, the extraction. */
  function PathOf(a: Addr): (p: Path)
    ensures p.pgd < 512 && p.p4d < 512 && p.pud < 512 && p.pmd < 512 && p.pt < 512
  {
    Path((a & PgdMask()) >> 48, (a & P4dMask()) >> 39, (a & PudMask()) >> 30, (a & PmdMask()) >> 21, (a & PtMask()) >> 12)
  }

  /** get_pd_from_address, the check: bits 63-57 repeat bit 56. */
  predicate Canonical(a: Addr) {
    if (a >> 56) & 1 == 0 then a >> 57 == 0 else a >> 57 == 0x7F
  }

  /** is_kernel_address. */
  predicate KernelSide(a: Addr) { (a >> 56) & 1 != 0 }

  /** The canonical address with these indices and this offset. */
  function AddrOf(p: Path, off: bv64): (a: Addr) {
    (if p.pgd & 0x100 != 0 then 0xFE00_0000_0000_0000 else 0) |
    (p.pgd << 48) | (p.p4d << 39) | (p.pud << 30) | (p.pmd << 21) | (p.pt << 12) | off
  }

  /** A canonical address is recovered from its five indices and its offset. */
  lemma AddressRoundTrip(a: Addr)
    requires Canonical(a)
    ensures AddrOf(PathOf(a), a & OffsetMask()) == a
  {
  }

  predicate InBounds(p: Path) {
    p.pgd < 512 && p.p4d < 512 && p.pud < 512 && p.pmd < 512 && p.pt < 512
  }

  lemma UpperFields(p: Path, off: bv64)
    requires InBounds(p) && off < 4096
    ensures (AddrOf(p, off) & PgdMask()) >> 48 == p.pgd
    ensures (AddrOf(p, off) & P4dMask()) >> 39 == p.p4d
    ensures (AddrOf(p, off) & PudMask()) >> 30 == p.pud
  {
  }

  lemma LowerFields(p: Path, off: bv64)
    requires InBounds(p) && off < 4096
    ensures (AddrOf(p, off) & PmdMask()) >> 21 == p.pmd
    ensures (AddrOf(p, off) & PtMask()) >> 12 == p.pt
    ensures AddrOf(p, off) & OffsetMask() == off
  {
  }

  lemma AddrCanonical(p: Path, off: bv64)
    requires InBounds(p) && off < 4096
    ensures Canonical(AddrOf(p, off))
  {
  }

  /** Any indices and offset come back from the canonical address they form. */
  lemma PathRoundTrip(p: Path, off: bv64)
    requires InBounds(p) && off < 4096
    ensures Canonical(AddrOf(p, off))
    ensures PathOf(AddrOf(p, off)) == p && AddrOf(p, off) & OffsetMask() == off
  {
    hide AddrOf;
    UpperFields(p, off);
    LowerFields(p, off);
    AddrCanonical(p, off);
  }

  /** The indices determine the page, and the first one also the address space. */
  lemma PathDeterminesPage(a: Addr, b: Addr)
    requires Canonical(a) && Canonical(b) && PathOf(a) == PathOf(b)
    ensures a >> 12 == b >> 12
    ensures KernelSide(a) == KernelSide(b)
  {
  }

  /** Kernel addresses use the upper half of the root table, user addresses the lower. */
  lemma RootHalves(a: Addr)
    ensures KernelSide(a) <==> PathOf(a).pgd >= 256
  {
  }

  // ----- page-table entries -----

  function FieldMask(): bv64 { 0x000F_FFFF_FFFF_F000 }
  function SwapTypeMask(): bv64 { 0xF8 }

  predicate IsPresent(pte: bv64) { pte & 1 != 0 }
  predicate IsSwapped(pte: bv64) { pte & 2 != 0 }

  /** PAGING64_PTE_FPN and PAGING64_PTE_SWP read the same field. */
  function Field(pte: bv64): bv64 { (pte & FieldMask()) >> 12 }
  function SwapType(pte: bv64): bv64 { (pte & SwapTypeMask()) >> 3 }

  function WithField(pte: bv64, f: bv64): bv64 { (pte & !FieldMask()) | ((f << 12) & FieldMask()) }
  function WithSwapType(pte: bv64, t: bv64): bv64 { (pte & !SwapTypeMask()) | ((t << 3) & SwapTypeMask()) }

  /** The value written by pte_set_fpn. */
  function PresentPte(fpn: bv64): bv64 { WithField((0 | 1) & !2, fpn) }

  /** The value written by pte_set_swap. */
  function SwappedPte(kind: bv64, slot: bv64): bv64 {
    WithField(WithSwapType((0 & !1) | 2, kind), slot)
  }

  /** What a page-table entry says to the paging code. */
  datatype Meaning = Nothing | Resident(fpn: bv64) | OnSwap(slot: bv64)

  function Decode(pte: bv64): (m: Meaning) {
    if IsPresent(pte) then Resident(Field(pte))
    else if IsSwapped(pte) then OnSwap(Field(pte))
    else Nothing
  }

  lemma PresentRoundTrip(f: bv64)
    ensures IsPresent(PresentPte(f)) && !IsSwapped(PresentPte(f))
    ensures Field(PresentPte(f)) == f <==> f < 0x100_0000_0000
  {
  }

  lemma SwappedRoundTrip(kind: bv64, f: bv64)
    ensures IsSwapped(SwappedPte(kind, f)) && !IsPresent(SwappedPte(kind, f))
    ensures Field(SwappedPte(kind, f)) == f <==> f < 0x100_0000_0000
  {
  }

  lemma SwapTypeRoundTrip(kind: bv64, f: bv64)
    requires kind < 32
    ensures SwapType(SwappedPte(kind, f)) == kind
  {
  }

  /** Frame and slot numbers decode to what was stored exactly when they are
      below 2^40, with exactly one of the present and swapped bits set. */
  lemma PteRoundTrip(f: bv64, kind: bv64)
    ensures Decode(PresentPte(f)) == Resident(f) <==> f < 0x100_0000_0000
    ensures Decode(SwappedPte(kind, f)) == OnSwap(f) <==> f < 0x100_0000_0000
    ensures IsPresent(PresentPte(f)) && !IsSwapped(PresentPte(f))
    ensures IsSwapped(SwappedPte(kind, f)) && !IsPresent(SwappedPte(kind, f))
  {
    hide PresentPte;
    hide SwappedPte;
    hide Field;
    hide IsPresent;
    hide IsSwapped;
    PresentRoundTrip(f);
    SwappedRoundTrip(kind, f);
  }

  // ----- kernel addresses -----

  const KMEM_VADDR_BASE: bv64 := 0xffff_8000_0000_0000

  /** kernel_vaddr_from_fpn. */
  function KernelAddr(fpn: bv64): Addr { KMEM_VADDR_BASE + (fpn << 12) }

  /** kernel_fpn_from_vaddr. */
  function KernelFrame(a: Addr): bv64 { (a - KMEM_VADDR_BASE) >> 12 }

  /** kernel_translate_vaddr with a present entry. */
  function Translate(pte: bv64, a: Addr): bv64 { (Field(pte) << 12) + (a & OffsetMask()) }

  lemma PhysicalBits(fpn: bv64, off: bv64)
    requires fpn < 0x8_0000_0000 && off < 4096
    ensures (fpn << 12) + off == (fpn << 12) | off
    ensures ((fpn << 12) | off) >> 12 == fpn
    ensures (fpn << 12) | off < 0x8000_0000_0000
  {
  }

  /** Among the frames an entry can name, exactly those below 2^35 have kernel
      addresses, ... */
  lemma KernelAddrExact(fpn: bv64, off: bv64)
    requires fpn < 0x100_0000_0000 && off < 4096
    ensures Canonical(KernelAddr(fpn) + off) && KernelSide(KernelAddr(fpn) + off) <==> fpn < 0x8_0000_0000
  {
  }

  lemma KernelOffset(fpn: bv64, off: bv64)
    requires off < 4096
    ensures (KernelAddr(fpn) + off) & OffsetMask() == off
  {
  }

  lemma Distance(fpn: bv64, off: bv64)
    ensures KernelAddr(fpn) + off - KMEM_VADDR_BASE == (fpn << 12) + off
  {
  }

  /** ... that map back to them, ... */
  lemma KernelFrameBack(fpn: bv64, off: bv64)
    requires fpn < 0x8_0000_0000 && off < 4096
    ensures KernelFrame(KernelAddr(fpn) + off) == fpn
  {
    hide KernelAddr;
    Distance(fpn, off);
    PhysicalBits(fpn, off);
  }

  /** ... and the entry stored for such an address translates it to its
      distance from the kernel base. */
  lemma KernelTranslation(fpn: bv64, off: bv64)
    requires fpn < 0x8_0000_0000 && off < 4096
    ensures var a := KernelAddr(fpn) + off;
            Translate(PresentPte(fpn), a) == a - KMEM_VADDR_BASE
  {
    hide PresentPte;
    hide Field;
    hide KernelAddr;
    hide OffsetMask;
    Distance(fpn, off);
    KernelOffset(fpn, off);
    PresentRoundTrip(fpn);
  }

  // ----- kernel pages, bit by bit -----

  lemma KernelByteBits(fpn: bv64, off: bv64)
    ensures fpn < 0x8_0000_0000 && off < 4096 ==>
              var a := KernelAddr(fpn) + off;
              a >> 56 == 0xff && a >> 47 == 0x1ffff && (a & 0x7fff_ffff_ffff) >> 12 == fpn
  {
  }

  lemma TopBitsKernel(a: Addr)
    ensures a >> 56 == 0xff ==> Canonical(a) && KernelSide(a)
  {
  }

  lemma KernelPageForth(fpn: bv64, b: Addr)
    ensures fpn < 0x8_0000_0000 && KernelAddr(fpn) >> 12 == b >> 12 ==>
              b >> 47 == 0x1ffff && (b & 0x7fff_ffff_ffff) >> 12 == fpn
  {
  }

  lemma KernelPageBack(b: Addr)
    ensures b >> 47 == 0x1ffff ==> KernelAddr((b & 0x7fff_ffff_ffff) >> 12) >> 12 == b >> 12
  {
  }
}
