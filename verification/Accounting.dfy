/**
 Who overlaps whom. Free nodes and symbol regions of an area share no byte, the
 non-empty free nodes ascend, every byte below the break has a page, and no
 kernel frame belongs to two kernel symbols. A step keeps this exactly when an
 ALLOC that needs growth can be mapped and FREE does not target a kernel region;
 it does not matter whether ALLOC overwrites a symbol.
 */
module Accounting {
  import opened Basics
  import opened Devices
  import opened Paging
  import opened Ownership
  import opened Transparency
  import opened KernelFrames
  import opened KernelMemory
  import opened Regions
  import opened System
  import opened Bytes
  import opened Runs

  // ----- one area -----

  /** Free nodes are ordered, and free nodes and symbol regions are pairwise
      disjoint inside [0, sbrk); kernel regions lie above all of it. */
  ghost predicate Laid(a: Area) {
    && a.sbrk <= USER_TOP
    && Ordered(a.free)
    && (forall i :: 0 <= i < |a.sym| && a.sym[i] != NOREGION ==>
                      a.sym[i].start < a.sym[i].end && (a.sym[i].end <= a.sbrk || a.sym[i].start >= KBASE))
    && (forall i, j, x: nat :: 0 <= i < |a.sym| && 0 <= j < |a.sym| && In(a.sym[i], x) && In(a.sym[j], x) ==> i == j)
    && (forall i, x: nat :: 0 <= i < |a.sym| && In(a.sym[i], x) ==> !Covers(a.free, x))
    && (forall x: nat :: Covers(a.free, x) ==> x < a.sbrk)
  }

  /** Recording a region cut off a free node keeps everything apart, whatever
      the symbol held before. */
  lemma AssignLaid(a: Area, rg: nat, i: nat, size: nat)
    requires Laid(a) && rg < |a.sym|
    requires i < |a.free| && size > 0 && Fits(a.free[i], size)
    ensures Laid(Assign(a, rg, i, size))
    ensures !IsKernel(Assign(a, rg, i, size).sym[rg])
  {
    var a' := Assign(a, rg, i, size);
    var taken := a'.sym[rg];
    CutOrdered(a.free, i, size);
    forall x: nat ensures Covers(a'.free, x) <==> Covers(a.free, x) && !In(taken, x) {
      CutCovers(a.free, i, size, x);
    }
    forall x | In(taken, x) ensures Covers(a.free, x) {
      assert In(a.free[i], x);
    }
    assert Covers(a.free, taken.end - 1) by { assert In(taken, taken.end - 1); }
  }

  lemma GrowLaid(a: Area, end: nat)
    requires Laid(a) && a.sbrk < end <= USER_TOP
    ensures Laid(Area(end, Enlist(a.free, Region(a.sbrk, end)), a.sym))
  {
    hide Enlist;
    hide Covers;
    var rg := Region(a.sbrk, end);
    DisjointApart(a.free, rg);
    EnlistOrdered(a.free, rg);
    forall x: nat ensures Covers(Enlist(a.free, rg), x) <==> Covers(a.free, x) || In(rg, x) {
      EnlistCovers(a.free, rg, x);
    }
    hide Ordered;
  }

  lemma FreeLaid(a: Area, rg: nat)
    requires Laid(a) && rg < |a.sym| && a.sym[rg] != NOREGION && !IsKernel(a.sym[rg])
    ensures Laid(Area(a.sbrk, Enlist(a.free, a.sym[rg]), a.sym[rg := NOREGION]))
  {
    hide Enlist;
    hide Covers;
    var given := a.sym[rg];
    DisjointApart(a.free, given);
    EnlistOrdered(a.free, given);
    forall x: nat ensures Covers(Enlist(a.free, given), x) <==> Covers(a.free, x) || In(given, x) {
      EnlistCovers(a.free, given, x);
    }
    hide Ordered;
  }

  // ----- kernel regions -----

  function FirstFrame(rg: Region): (f: nat)
    requires rg.start >= KBASE
  {
    (rg.start - KBASE) / PAGESZ
  }

  /** Frame f backs kernel region rg. */
  ghost predicate Backs(rg: Region, f: nat) {
    IsKernel(rg) && InRun(f, FirstFrame(rg), PagesFor(rg.end - rg.start))
  }

  ghost predicate HasSymbol(area: map<nat, Area>, p: nat, i: nat) {
    p in area && i < |area[p].sym|
  }

  /** Kernel symbols start at page boundaries, hold used frames only, and share
      no frame. */
  ghost predicate KernelApart(used: seq<nat>, area: map<nat, Area>) {
    && (forall p: nat, i: nat :: HasSymbol(area, p, i) && IsKernel(area[p].sym[i]) ==>
                                   (area[p].sym[i].start - KBASE) % PAGESZ == 0)
    && (forall p: nat, i: nat, f: nat :: HasSymbol(area, p, i) && Backs(area[p].sym[i], f) ==> f in used)
    && (forall p: nat, i: nat, q: nat, j: nat, f: nat ::
          HasSymbol(area, p, i) && HasSymbol(area, q, j) && Backs(area[p].sym[i], f) && Backs(area[q].sym[j], f) ==>
            p == q && i == j)
  }

  ghost predicate SameTables(area: map<nat, Area>, area': map<nat, Area>) {
    area'.Keys == area.Keys && forall p :: p in area ==> |area'[p].sym| == |area[p].sym|
  }

  /** Symbols that are dropped or hold user regions do not matter. */
  lemma ApartSymbols(used: seq<nat>, area: map<nat, Area>, area': map<nat, Area>)
    requires KernelApart(used, area) && SameTables(area, area')
    requires forall p: nat, i: nat :: HasSymbol(area, p, i) ==>
                                        area'[p].sym[i] == area[p].sym[i] || !IsKernel(area'[p].sym[i])
    ensures KernelApart(used, area')
  {
    assert forall p: nat, i: nat :: HasSymbol(area', p, i) <==> HasSymbol(area, p, i);
    assert forall p: nat, i: nat, f: nat :: HasSymbol(area, p, i) && Backs(area'[p].sym[i], f) ==> Backs(area[p].sym[i], f);
  }

  // ----- the whole -----

  ghost predicate Backed(s: Sys) {
    forall p: nat, g: nat :: p in s.area && g * PAGESZ < s.area[p].sbrk ==> Vpn(p, g) in s.mem.pt
  }

  ghost predicate AllLaid(area: map<nat, Area>) {
    forall p :: p in area ==> Laid(area[p])
  }

  ghost predicate ApartInv(s: Sys) {
    && BaseInv(s)
    && AllLaid(s.area)
    && Backed(s)
    && KernelApart(s.mem.ram.used, s.area)
  }

  // ----- ALLOC -----

  /** The growth that ALLOC would need can be mapped. */
  ghost predicate CanGrow(s: Sys, p: nat, size: nat)
    requires p in s.area
  {
    PagesFor(size) <= Supply(s.mem, p) && Mappable(s.area[p].sbrk, PagesFor(size))
  }

  ghost predicate Serves(s: Sys, p: nat, size: nat)
    requires p in s.area
  {
    FirstFit(s.area[p].free, size).Some? || CanGrow(s, p, size)
  }

  lemma GrowSucceeds(s: Sys, p: nat, size: nat)
    requires BaseInv(s) && p in s.area
    ensures CanGrow(s, p, size) <==>
            AllocPages(s.mem, p, PagesFor(size), []).0.Some? && Mappable(s.area[p].sbrk, PagesFor(size))
  {
    hide MemInv;
    var none: seq<nat> := [];
    assert multiset(none) == multiset{};
    AllocPagesExact(s.mem, p, PagesFor(size), []);
  }

  lemma GrowUsed(s: Sys, p: nat, size: nat, junk: Region)
    requires BaseInv(s) && p in s.area
    ensures Grow(s, p, size, junk).mem.ram.used == s.mem.ram.used
    ensures SameSizes(s.mem, Grow(s, p, size, junk).mem)
  {
    hide MemInv;
    var n := PagesFor(size);
    var (fs, m) := AllocPages(s.mem, p, n, []);
    var none: seq<nat> := [];
    assert multiset(none) == multiset{};
    AllocUsed(s.mem, p, n, []);
    AllocPagesKeeps(s.mem, p, n, []);
    if fs.Some? {
      MapFramesFifo(m, p, s.area[p].sbrk / PAGESZ, fs.value);
      assert multiset{} + multiset(fs.value) == multiset(fs.value);
      ReleaseKeeps(m, multiset{}, fs.value);
    }
  }

  lemma {:induction false} AllocUsed(m: Mem, p: nat, n: nat, got: seq<nat>)
    requires MemInv(m, multiset(got))
    ensures AllocPages(m, p, n, got).1.ram.used == m.ram.used
    ensures SameSizes(m, AllocPages(m, p, n, got).1)
    decreases n
  {
    hide MemInv;
    if n > 0 {
      SwapOutShape(m, multiset(got), p);
      TakeFrameKeeps(m, multiset(got), p);
      var (f, m1) := TakeFrame(m, p);
      if f.Some? {
        assert multiset(got + [f.value]) == multiset(got) + multiset{f.value};
        AllocUsed(m1, p, n - 1, got + [f.value]);
      } else {
        assert multiset{} + multiset(got) == multiset(got);
        ReleaseKeeps(m1, multiset{}, got);
      }
    }
  }

  lemma GrowBacked(s: Sys, p: nat, size: nat, junk: Region)
    requires BaseInv(s) && Backed(s) && p in s.area && CanGrow(s, p, size)
    ensures Backed(Grow(s, p, size, junk))
  {
    hide MemInv;
    hide Supply;
    hide UserView;
    hide KernelView;
    hide AreasOk;
    var s' := Grow(s, p, size, junk);
    var a := s.area[p];
    var n := PagesFor(size);
    GrowSucceeds(s, p, size);
    GrowMapped(s, p, size, junk);
    assert a.sbrk % PAGESZ == 0 by { PageAligned(s, p); }
    PagesAddUp(a.sbrk, n);
    forall q: nat, g: nat | q in s'.area && g * PAGESZ < s'.area[q].sbrk ensures Vpn(q, g) in s'.mem.pt {
      if Vpn(q, g) !in s.mem.pt {
        assert Vpn(q, g) in PageRange(p, a.sbrk / PAGESZ, n);
      }
    }
  }

  lemma PageAligned(s: Sys, p: nat)
    requires BaseInv(s) && p in s.area
    ensures s.area[p].sbrk % PAGESZ == 0 && Formed(s.area[p].free) && |s.area[p].sym| == SYMBOLS
  {
    hide MemInv;
  }

  lemma GrowShape(s: Sys, p: nat, size: nat, junk: Region)
    requires BaseInv(s) && p in s.area && size > 0 && CanGrow(s, p, size)
    ensures var end := s.area[p].sbrk + PagesFor(size) * PAGESZ;
            && end <= USER_TOP
            && Grow(s, p, size, junk).area ==
               s.area[p := Area(end, Enlist(s.area[p].free, Region(s.area[p].sbrk, end)), s.area[p].sym)]
  {
    hide MemInv;
    hide Supply;
    hide Enlist;
    GrowSucceeds(s, p, size);
    PagesAddUp(s.area[p].sbrk, PagesFor(size));
  }

  /** After a growth that can be mapped one free node has room for `size`, so
      the second lookup of ALLOC cannot fail, in any reachable state. */
  lemma GrowFinds(s: Sys, p: nat, size: nat, junk: Region)
    requires BaseInv(s) && p in s.area && size > 0 && CanGrow(s, p, size)
    ensures var s' := Grow(s, p, size, junk);
            && s'.area == s.area[p := s'.area[p]] && s'.area[p].sym == s.area[p].sym
            && FirstFit(s'.area[p].free, size).Some?
  {
    hide BaseInv;
    hide CanGrow;
    hide Grow;
    hide Enlist;
    var a := s.area[p];
    var end := a.sbrk + PagesFor(size) * PAGESZ;
    PageAligned(s, p);
    GrowShape(s, p, size, junk);
    var i := EnlistSpans(a.free, Region(a.sbrk, end));
    assert Fits(Enlist(a.free, Region(a.sbrk, end))[i], size);
  }

  /** A growth that can be mapped keeps everything apart and backed. */
  lemma GrowApart(s: Sys, p: nat, size: nat, junk: Region)
    requires ApartInv(s) && p in s.area && size > 0 && CanGrow(s, p, size)
    ensures ApartInv(Grow(s, p, size, junk))
  {
    hide BaseInv;
    hide CanGrow;
    hide Laid;
    hide KernelApart;
    hide Backed;
    hide Grow;
    hide Enlist;
    var s' := Grow(s, p, size, junk);
    GrowKeeps(s, p, size, junk);
    GrowUsed(s, p, size, junk);
    GrowBacked(s, p, size, junk);
    GrowShape(s, p, size, junk);
    GrowLaid(s.area[p], s.area[p].sbrk + PagesFor(size) * PAGESZ);
    ApartSymbols(s.mem.ram.used, s.area, s'.area);
  }

  lemma AssignApart(s: Sys, p: nat, rg: nat, i: nat, size: nat)
    requires ApartInv(s) && p in s.area && rg < |s.area[p].sym|
    requires i < |s.area[p].free| && 0 < size < 0x1_0000_0000 && Fits(s.area[p].free[i], size)
    ensures ApartInv(s.(area := s.area[p := Assign(s.area[p], rg, i, size)]))
  {
    hide BaseInv;
    hide Cut;
    hide KernelApart;
    hide Laid;
    var a' := Assign(s.area[p], rg, i, size);
    AssignKeeps(s, p, rg, i, size);
    AssignLaid(s.area[p], rg, i, size);
    ApartSymbols(s.mem.ram.used, s.area, s.area[p := a']);
  }

  /** An ALLOC that can be served succeeds, in any reachable state, at the first
      node that fits, of the list as it is or as the growth leaves it. */
  lemma AllocServed(s: Sys, p: nat, rg: nat, size: nat, junk: Region)
    requires BaseInv(s) && p in s.area && rg < |s.area[p].sym| && size > 0 && Serves(s, p, size)
    ensures var s1 := if FirstFit(s.area[p].free, size).Some? then s else Grow(s, p, size, junk);
            && p in s1.area && s1.area[p].sym == s.area[p].sym
            && FirstFit(s1.area[p].free, size).Some?
            && DoAlloc(s, p, rg, size, junk) ==
               (s1.(area := s1.area[p := Assign(s1.area[p], rg, FirstFit(s1.area[p].free, size).value, size)]), true)
  {
    hide BaseInv;
    hide CanGrow;
    hide Grow;
    hide Assign;
    if FirstFit(s.area[p].free, size).None? {
      GrowFinds(s, p, size, junk);
    }
  }

  /** ALLOC, when it can be served: it succeeds, also into a symbol that still
      holds a region; everything stays apart, and every byte of the new region
      is backed by a page. */
  lemma AllocApart(s: Sys, p: nat, rg: nat, size: nat, junk: Region)
    requires ApartInv(s) && p in s.area && rg < |s.area[p].sym| && 0 < size < 0x1_0000_0000
    requires Serves(s, p, size)
    ensures var (s', ok) := DoAlloc(s, p, rg, size, junk);
            && ok && ApartInv(s') && p in s'.area && rg < |s'.area[p].sym|
            && s'.area[p].sym[rg].end == s'.area[p].sym[rg].start + size
            && (forall x: nat :: In(s'.area[p].sym[rg], x) ==> Vpn(p, x / PAGESZ) in s'.mem.pt)
  {
    hide BaseInv;
    hide Laid;
    hide KernelApart;
    hide Backed;
    hide CanGrow;
    hide Grow;
    hide DoAlloc;
    hide Cut;
    var s1 := if FirstFit(s.area[p].free, size).Some? then s else Grow(s, p, size, junk);
    AllocServed(s, p, rg, size, junk);
    if FirstFit(s.area[p].free, size).None? {
      GrowApart(s, p, size, junk);
    }
    var i := FirstFit(s1.area[p].free, size).value;
    AssignApart(s1, p, rg, i, size);
    AssignLaid(s1.area[p], rg, i, size);
    var s' := DoAlloc(s, p, rg, size, junk).0;
    forall x: nat | In(s'.area[p].sym[rg], x) ensures Vpn(p, x / PAGESZ) in s'.mem.pt {
      RegionBacked(s', p, rg, x);
    }
  }

  lemma RegionBacked(s: Sys, p: nat, rg: nat, x: nat)
    requires ApartInv(s) && p in s.area && rg < |s.area[p].sym| && In(s.area[p].sym[rg], x) && !IsKernel(s.area[p].sym[rg])
    ensures Vpn(p, x / PAGESZ) in s.mem.pt
  {
    hide BaseInv;
    hide KernelApart;
    assert x < s.area[p].sbrk;
    assert x / PAGESZ * PAGESZ <= x;
  }

  /** A growth that cannot be mapped raises the break over pages that do not exist. */
  lemma UnmappedGrowthBreaks(s: Sys, p: nat, size: nat, junk: Region)
    requires BaseInv(s) && p in s.area && size > 0 && !CanGrow(s, p, size)
    ensures !Backed(Grow(s, p, size, junk))
  {
    hide MemInv;
    hide UserView;
    hide KernelView;
    hide Enlist;
    GrowSucceeds(s, p, size);
    GrowUnmapped(s, p, size, junk);
    var g := s.area[p].sbrk / PAGESZ;
    PagesAddUp(s.area[p].sbrk, PagesFor(size));
    assert Vpn(p, g) !in s.mem.pt;
    var s' := Grow(s, p, size, junk);
    assert g * PAGESZ < s'.area[p].sbrk;
  }

  /** An ALLOC that cannot be served leaves bytes below the break unbacked. */
  lemma AllocUnserved(s: Sys, p: nat, rg: nat, size: nat, junk: Region)
    requires BaseInv(s) && p in s.area && rg < |s.area[p].sym| && size > 0 && !Serves(s, p, size)
    ensures !Backed(DoAlloc(s, p, rg, size, junk).0)
  {
    hide BaseInv;
    hide Cut;
    hide CanGrow;
    UnmappedGrowthBreaks(s, p, size, junk);
    var s1 := Grow(s, p, size, junk);
    GrowSymbols(s, p, size, junk);
    hide Grow;
    var q: nat, g: nat :| q in s1.area && g * PAGESZ < s1.area[q].sbrk && Vpn(q, g) !in s1.mem.pt;
    var s' := DoAlloc(s, p, rg, size, junk).0;
    assert q in s'.area && g * PAGESZ < s'.area[q].sbrk && Vpn(q, g) !in s'.mem.pt;
  }

  // ----- FREE -----

  lemma FreeApart(s: Sys, p: nat, rg: nat)
    requires ApartInv(s) && p in s.area && (rg < |s.area[p].sym| ==> !IsKernel(s.area[p].sym[rg]))
    ensures ApartInv(DoFree(s, p, rg).0)
  {
    hide BaseInv;
    hide Laid;
    hide KernelApart;
    hide Enlist;
    var a := s.area[p];
    FreeStep(s, p, rg);
    if rg < |a.sym| && a.sym[rg] != NOREGION {
      FreeLaid(a, rg);
      ApartSymbols(s.mem.ram.used, s.area, DoFree(s, p, rg).0.area);
    }
  }

  /** Freeing a kernel region puts kernel addresses on the user free list. */
  lemma FreeKernelBreaks(s: Sys, p: nat, rg: nat)
    requires ApartInv(s) && p in s.area && rg < |s.area[p].sym| && IsKernel(s.area[p].sym[rg])
    ensures !ApartInv(DoFree(s, p, rg).0)
  {
    hide BaseInv;
    hide KernelApart;
    hide Backed;
    var a := s.area[p];
    EnlistCovers(a.free, a.sym[rg], a.sym[rg].start);
    var s' := DoFree(s, p, rg).0;
    assert p in s'.area && !Laid(s'.area[p]);
  }

  // ----- KMALLOC -----

  lemma KernelByteBacked(rg: Region, x: nat)
    requires IsKernel(rg) && (rg.start - KBASE) % PAGESZ == 0 && In(rg, x)
    ensures Backs(rg, (x - KBASE) / PAGESZ)
  {
  }

  /** A block of frames that are not in use meets no kernel symbol. */
  lemma BlockApart(used: seq<nat>, area: map<nat, Area>, p: nat, i: nat, block: Region, x: nat)
    requires KernelApart(used, area) && HasSymbol(area, p, i) && IsKernel(area[p].sym[i]) && In(area[p].sym[i], x)
    requires IsKernel(block) && (block.start - KBASE) % PAGESZ == 0
    requires forall g: nat :: Backs(block, g) ==> g !in used
    ensures !In(block, x)
  {
    KernelByteBacked(area[p].sym[i], x);
    if In(block, x) {
      KernelByteBacked(block, x);
    }
  }

  lemma BlockLaid(a: Area, rg: nat, block: Region)
    requires Laid(a) && rg < |a.sym| && a.sym[rg] == NOREGION && IsKernel(block)
    requires forall i, x: nat :: 0 <= i < |a.sym| && i != rg && In(a.sym[i], x) ==> !In(block, x)
    ensures Laid(a.(sym := a.sym[rg := block]))
  {
    hide Covers;
    hide Ordered;
  }

  lemma HighRegionIsKernel(a: Area, i: nat, x: nat)
    requires Laid(a) && i < |a.sym| && In(a.sym[i], x) && x >= KBASE
    ensures IsKernel(a.sym[i])
  {
  }

  lemma KmallocLaid(s: Sys, p: nat, rg: nat, block: Region)
    requires ApartInv(s) && p in s.area && rg < |s.area[p].sym| && s.area[p].sym[rg] == NOREGION
    requires IsKernel(block) && (block.start - KBASE) % PAGESZ == 0
    requires forall g: nat :: Backs(block, g) ==> g !in s.mem.ram.used
    ensures Laid(s.area[p].(sym := s.area[p].sym[rg := block]))
  {
    hide BaseInv;
    hide Backed;
    hide Laid;
    hide KernelApart;
    hide Backs;
    var a := s.area[p];
    forall i, x: nat | 0 <= i < |a.sym| && i != rg && In(a.sym[i], x) ensures !In(block, x) {
      if x >= KBASE {
        HighRegionIsKernel(a, i, x);
        BlockApart(s.mem.ram.used, s.area, p, i, block, x);
      }
    }
    BlockLaid(a, rg, block);
  }

  lemma KmallocBacks(f: nat, size: nat)
    requires size > 0
    ensures var block := Region(KBASE + f * PAGESZ, KBASE + f * PAGESZ + size);
            && IsKernel(block) && (block.start - KBASE) % PAGESZ == 0
            && forall g: nat :: Backs(block, g) <==> InRun(g, f, PagesFor(size))
  {
    var base := KBASE + f * PAGESZ;
    assert (base - KBASE) / PAGESZ == f;
  }

  lemma KmallocKernelApart(used: seq<nat>, used': seq<nat>, area: map<nat, Area>, p: nat, rg: nat, block: Region)
    requires KernelApart(used, area)
    requires p in area && rg < |area[p].sym|
    requires IsKernel(block) && (block.start - KBASE) % PAGESZ == 0
    requires forall g: nat :: Backs(block, g) ==> g !in used
    requires forall g: nat :: g in used' <==> g in used || Backs(block, g)
    ensures KernelApart(used', area[p := area[p].(sym := area[p].sym[rg := block])])
  {
    hide Backs;
    var area' := area[p := area[p].(sym := area[p].sym[rg := block])];
    assert forall q: nat, j: nat :: HasSymbol(area', q, j) <==> HasSymbol(area, q, j);
    assert forall q: nat, j: nat :: HasSymbol(area, q, j) && (q != p || j != rg) ==> area'[q].sym[j] == area[q].sym[j];
    assert area'[p].sym[rg] == block;
  }

  lemma KmallocTakes(s: Sys, n: nat, f: nat)
    requires BaseInv(s) && n > 0 && KernelStart(s.mem.ram.free, n) == Some(f)
    ensures forall g: nat :: InRun(g, f, n) ==> g !in s.mem.ram.used
    ensures forall g: nat :: g in KTake(s.mem, f, n).ram.used <==> g in s.mem.ram.used || InRun(g, f, n)
    ensures KTake(s.mem, f, n).pt == s.mem.pt
  {
    hide MemInv;
    ListsDistinct(s.mem, multiset{});
    KernelStartLowest(s.mem.ram.free, n);
    KTakeKeeps(s.mem, f, n);
    assert forall g: nat :: InRun(g, f, n) ==> g in s.mem.ram.free;
  }

  /** What a KMALLOC that is not refused does to the symbols and the used list. */
  lemma KmallocShape(s: Sys, p: nat, rg: nat, size: nat)
    requires BaseInv(s) && p in s.area && rg < |s.area[p].sym| && size > 0 && s.area[p].sym[rg] == NOREGION
    requires KernelStart(s.mem.ram.free, PagesFor(size)).Some?
    ensures var s' := DoKmalloc(s, p, rg, size).0;
            var f := KernelStart(s.mem.ram.free, PagesFor(size)).value;
            var block := Region(KBASE + f * PAGESZ, KBASE + f * PAGESZ + size);
            && IsKernel(block) && (block.start - KBASE) % PAGESZ == 0
            && s'.area == s.area[p := s.area[p].(sym := s.area[p].sym[rg := block])]
            && s'.mem.pt == s.mem.pt
            && (forall g: nat :: Backs(block, g) ==> g !in s.mem.ram.used)
            && (forall g: nat :: g in s'.mem.ram.used <==> g in s.mem.ram.used || Backs(block, g))
  {
    hide BaseInv;
    hide KTake;
    hide KernelStart;
    hide Backs;
    var f := KernelStart(s.mem.ram.free, PagesFor(size)).value;
    KmallocTakes(s, PagesFor(size), f);
    KmallocBacks(f, size);
  }

  lemma KmallocApart(s: Sys, p: nat, rg: nat, size: nat)
    requires ApartInv(s) && p in s.area && size < 0x1_0000_0000
    ensures ApartInv(DoKmalloc(s, p, rg, size).0)
  {
    hide BaseInv;
    hide Laid;
    hide KernelApart;
    hide KernelStart;
    hide Backs;
    var a := s.area[p];
    KmallocStep(s, p, rg, size);
    if rg < |a.sym| && size > 0 && a.sym[rg] == NOREGION {
      var f := KernelStart(s.mem.ram.free, PagesFor(size));
      if f.Some? {
        KmallocShape(s, p, rg, size);
        var block := Region(KBASE + f.value * PAGESZ, KBASE + f.value * PAGESZ + size);
        var s' := DoKmalloc(s, p, rg, size).0;
        hide DoKmalloc;
        KmallocLaid(s, p, rg, block);
        KmallocKernelApart(s.mem.ram.used, s'.mem.ram.used, s.area, p, rg, block);
      }
    }
  }

  // ----- process exit -----

  lemma ReleaseCountIsPages(size: nat)
    requires 0 < size < 0x1_0000_0000
    ensures ReleaseCount(size) == PagesFor(size) > 0
  {
  }

  ghost predicate BackedBy(sym: seq<Region>, f: nat) {
    exists i :: 0 <= i < |sym| && Backs(sym[i], f)
  }

  /** Exit releases exactly the frames of the kernel symbols. */
  lemma {:induction false} ReleaseSymbolsFrees(m: Mem, sym: seq<Region>)
    requires MemInv(m, multiset{}) && Short(sym)
    ensures forall f: nat :: f in ReleaseSymbols(m, sym).ram.used <==> f in m.ram.used && !BackedBy(sym, f)
    decreases |sym|
  {
    hide MemInv;
    if sym != [] {
      var rg := sym[0];
      var m1 := ReleaseSymbol(m, rg);
      if IsKernel(rg) {
        ReleaseCountIsPages(rg.end - rg.start);
        KReleaseKeeps(m, FirstFrame(rg), PagesFor(rg.end - rg.start));
      }
      assert forall f: nat :: f in m1.ram.used <==> f in m.ram.used && !Backs(rg, f);
      ReleaseSymbolsFrees(m1, sym[1..]);
      hide Backs;
      forall f: nat ensures BackedBy(sym, f) <==> Backs(rg, f) || BackedBy(sym[1..], f) {
        BackedBySplit(sym, f);
      }
    }
  }

  lemma BackedBySplit(sym: seq<Region>, f: nat)
    requires sym != []
    ensures BackedBy(sym, f) <==> Backs(sym[0], f) || BackedBy(sym[1..], f)
  {
    hide Backs;
    if BackedBy(sym, f) {
      var i :| 0 <= i < |sym| && Backs(sym[i], f);
      assert i > 0 ==> Backs(sym[1..][i - 1], f);
    }
    if BackedBy(sym[1..], f) {
      var i :| 0 <= i < |sym[1..]| && Backs(sym[1..][i], f);
      assert Backs(sym[i + 1], f);
    }
  }

  lemma ReapKernelApart(used: seq<nat>, used': seq<nat>, area: map<nat, Area>, p: nat)
    requires KernelApart(used, area) && p in area
    requires forall f: nat :: f in used' <==> f in used && !BackedBy(area[p].sym, f)
    ensures KernelApart(used', area - {p})
  {
    hide Backs;
    var area' := area - {p};
    assert forall q: nat, j: nat :: HasSymbol(area', q, j) <==> HasSymbol(area, q, j) && q != p;
    forall q: nat, j: nat, f: nat | HasSymbol(area', q, j) && Backs(area'[q].sym[j], f) ensures f in used' {
      forall i | 0 <= i < |area[p].sym| ensures !Backs(area[p].sym[i], f) {
        assert HasSymbol(area, p, i) && HasSymbol(area, q, j);
      }
    }
  }

  /** What exit does to pages, used frames and areas, in any reachable state. */
  lemma ReapShape(s: Sys, p: nat, order: seq<nat>)
    requires BaseInv(s) && p in s.area && p !in s.mem.running && Enumerates(s.mem, p, order)
    ensures var s' := Step(s, Reap(p, order)).0;
            && BaseInv(s') && SameSizes(s.mem, s'.mem)
            && s'.area == s.area - {p}
            && s'.mem.pt == (map k | k in s.mem.pt && k.pid != p :: s.mem.pt[k])
            && (forall f: nat :: f in s'.mem.ram.used <==> f in s.mem.ram.used && !BackedBy(s.area[p].sym, f))
  {
    hide MemInv;
    hide BackedBy;
    var sym := s.area[p].sym;
    var m := ReleaseSymbols(s.mem, sym);
    ReapStep(s, p, order);
    ReleaseSizes(s.mem, sym);
    ReleaseSymbolsKeeps(s.mem, sym);
    ReleaseSymbolsFrees(s.mem, sym);
    SamePages(s.mem, m, p, order);
    hide Enumerates;
    ReapUserKeeps(m, p, order);
  }

  lemma SamePages(m: Mem, m': Mem, p: nat, order: seq<nat>)
    requires m'.pt == m.pt && Enumerates(m, p, order)
    ensures Enumerates(m', p, order)
  {
  }

  lemma {:induction false} ReleaseSizes(m: Mem, sym: seq<Region>)
    requires MemInv(m, multiset{})
    ensures SameSizes(m, ReleaseSymbols(m, sym))
    decreases |sym|
  {
    hide MemInv;
    if sym != [] {
      var rg := sym[0];
      if IsKernel(rg) && ReleaseCount(rg.end - rg.start) > 0 {
        ListsDistinct(m, multiset{});
        ReleaseRunMoves(m.ram, (rg.start - KBASE) / PAGESZ, ReleaseCount(rg.end - rg.start));
        KReleaseKeeps(m, (rg.start - KBASE) / PAGESZ, ReleaseCount(rg.end - rg.start));
      }
      ReleaseSizes(ReleaseSymbol(m, rg), sym[1..]);
    }
  }

  lemma ReapApart(s: Sys, p: nat, order: seq<nat>)
    requires ApartInv(s) && p in s.area && p !in s.mem.running && Enumerates(s.mem, p, order)
    ensures ApartInv(Step(s, Reap(p, order)).0)
  {
    hide BaseInv;
    hide Laid;
    hide BackedBy;
    hide KernelApart;
    hide Enumerates;
    hide Step;
    ReapShape(s, p, order);
    ReapKernelApart(s.mem.ram.used, Step(s, Reap(p, order)).0.mem.ram.used, s.area, p);
  }

  // ----- the other steps -----

  lemma CopyShape(s: Sys, p: nat, src: nat, dst: nat, off: nat, n: nat)
    requires BaseInv(s) && p in s.area
    ensures SameShape(s.mem, CopyFrom(s.mem, s.area[p], p, src, dst, off, n).1)
    ensures SameShape(s.mem, CopyTo(s.mem, s.area[p], p, src, dst, off, n).1)
  {
    hide MemInv;
    CopyFromMoves(s.mem, s.area[p], p, src, dst, off, n);
    CopyToMoves(s.mem, s.area[p], p, src, dst, off, n);
  }

  lemma AccessShape(s: Sys, p: nat, va: Option<nat>, b: Byte)
    requires BaseInv(s) && p in s.area
    ensures SameShape(s.mem, ReadAt(s.mem, p, va).1)
    ensures SameShape(s.mem, WriteAt(s.mem, p, va, b).1)
  {
    hide MemInv;
    if va.Some? {
      ReadBytes(s.mem, p, va.value);
      WriteBytes(s.mem, p, va.value, b);
    }
  }

  /** Reads, writes and copies change neither areas nor any list but the free ones. */
  lemma InstructionShape(s: Sys, op: Op)
    requires BaseInv(s) && op.pid in s.area && IsInstruction(op) && !op.Alloc? && !op.Free? && !op.Kmalloc?
    ensures Instruction(s, op).0.area == s.area
    ensures SameShape(s.mem, Instruction(s, op).0.mem)
  {
    hide BaseInv;
    hide ReadAt;
    hide WriteAt;
    hide CopyFrom;
    hide CopyTo;
    hide SameShape;
    var a := s.area[op.pid];
    match op
    case Read(p, rg, off) => AccessShape(s, p, UserAddr(a, rg, off), 0);
    case Write(p, rg, off, v) => AccessShape(s, p, UserAddr(a, rg, off), v);
    case IoRead(p, va) => AccessShape(s, p, if va < a.sbrk then Some(va) else None, 0);
    case IoWrite(p, va, v) => AccessShape(s, p, if va < a.sbrk then Some(va) else None, v);
    case CopyFromUser(p, src, dst, off, size) => CopyShape(s, p, src, dst, off, size);
    case CopyToUser(p, src, dst, off, size) => CopyShape(s, p, src, dst, off, size);
  }

  lemma AccessApart(s: Sys, op: Op)
    requires ApartInv(s) && op.pid in s.area && IsInstruction(op) && !op.Alloc? && !op.Free? && !op.Kmalloc?
    ensures ApartInv(Instruction(s, op).0)
  {
    hide BaseInv;
    hide Laid;
    hide KernelApart;
    hide Instruction;
    InstructionKeeps(s, op);
    InstructionShape(s, op);
  }

  lemma EmptyLaid()
    ensures Laid(Area(0, [], seq(SYMBOLS, _ => NOREGION)))
  {
  }

  lemma SpawnKernelApart(used: seq<nat>, area: map<nat, Area>, p: nat, a: Area)
    requires KernelApart(used, area) && p !in area
    requires forall i :: 0 <= i < |a.sym| ==> !IsKernel(a.sym[i])
    ensures KernelApart(used, area[p := a])
  {
    var area' := area[p := a];
    assert forall q: nat, i: nat :: HasSymbol(area', q, i) && q != p <==> HasSymbol(area, q, i);
  }

  lemma SpawnApart(s: Sys, p: nat)
    requires ApartInv(s)
    ensures ApartInv(Step(s, Spawn(p)).0)
  {
    hide BaseInv;
    hide KernelApart;
    hide Laid;
    SpawnStep(s, p);
    EmptyLaid();
    if p !in s.area {
      SpawnKernelApart(s.mem.ram.used, s.area, p, Area(0, [], seq(SYMBOLS, _ => NOREGION)));
    }
  }

  lemma FinishApart(s: Sys, p: nat)
    requires ApartInv(s)
    ensures ApartInv(Step(s, Finish(p)).0)
  {
    hide BaseInv;
    hide Laid;
    hide KernelApart;
    FinishStep(s, p);
  }

  // ----- every step, exactly -----

  /** ALLOC is asked only for what can be served, and FREE for user regions; both
      can be checked before the call. */
  ghost predicate Orderly(s: Sys, op: Op) {
    op.pid in s.area && op.pid in s.mem.running ==>
      var a := s.area[op.pid];
      match op
      case Alloc(p, rg, size, _) => rg >= |a.sym| || size == 0 || Serves(s, p, size)
      case Free(_, rg) => rg >= |a.sym| || !IsKernel(a.sym[rg])
      case _ => true
  }

  lemma AllocOrderly(s: Sys, p: nat, rg: nat, size: AllocSize, junk: Region)
    requires ApartInv(s) && p in s.area && p in s.mem.running
    ensures ApartInv(DoAlloc(s, p, rg, size, junk).0) <==> Orderly(s, Alloc(p, rg, size, junk))
  {
    hide BaseInv;
    hide AllLaid;
    hide KernelApart;
    hide Backed;
    hide Serves;
    if rg < |s.area[p].sym| && size > 0 {
      if Serves(s, p, size) {
        AllocApart(s, p, rg, size, junk);
      } else {
        AllocUnserved(s, p, rg, size, junk);
      }
    }
  }

  /** A step keeps regions, free nodes and kernel frames apart, and every byte
      below the break backed, if and only if it is orderly. */
  lemma StepApart(s: Sys, op: Op)
    requires ApartInv(s)
    ensures ApartInv(Step(s, op).0) <==> Orderly(s, op)
  {
    hide ApartInv;
    hide Serves;
    match op
    case Spawn(p) => SpawnApart(s, p);
    case Finish(p) => FinishApart(s, p);
    case Reap(p, order) =>
      if p in s.area && p !in s.mem.running && Enumerates(s.mem, p, order) {
        ReapApart(s, p, order);
      }
    case Alloc(p, rg, size, junk) =>
      if p in s.area && p in s.mem.running {
        AllocOrderly(s, p, rg, size, junk);
      }
    case Free(p, rg) =>
      if p in s.area && p in s.mem.running {
        if rg < |s.area[p].sym| && IsKernel(s.area[p].sym[rg]) {
          FreeKernelBreaks(s, p, rg);
        } else {
          FreeApart(s, p, rg);
        }
      }
    case Kmalloc(p, rg, size) =>
      if p in s.area && p in s.mem.running {
        KmallocApart(s, p, rg, size);
      }
    case _ =>
      if op.pid in s.area && op.pid in s.mem.running {
        AccessApart(s, op);
      }
  }

  // ----- whole runs -----

  ghost predicate OrderlyRun(s: Sys, ops: seq<Op>)
    decreases |ops|
  {
    ops != [] ==> Orderly(s, ops[0]) && OrderlyRun(Step(s, ops[0]).0, ops[1..])
  }

  /** Over every orderly run, whatever symbols ALLOC overwrites, user regions and
      free nodes stay pairwise disjoint below the break, and the non-empty free
      nodes stay ascending. */
  lemma {:induction false} RunApart(s: Sys, ops: seq<Op>)
    requires ApartInv(s) && OrderlyRun(s, ops)
    ensures ApartInv(Run(s, ops))
    decreases |ops|
  {
    hide ApartInv;
    hide Orderly;
    if ops != [] {
      StepApart(s, ops[0]);
      RunApart(Step(s, ops[0]).0, ops[1..]);
    }
  }

  /** The same from boot. */
  lemma RunApartFromBoot(ram: seq<seq<Byte>>, swp: seq<seq<Byte>>, ops: seq<Op>)
    requires WholePages(ram) && WholePages(swp) && OrderlyRun(Boot(ram, swp), ops)
    ensures ApartInv(Run(Boot(ram, swp), ops))
  {
    BootApart(ram, swp);
    RunApart(Boot(ram, swp), ops);
  }

  lemma BootApart(ram: seq<seq<Byte>>, swp: seq<seq<Byte>>)
    requires WholePages(ram) && WholePages(swp)
    ensures ApartInv(Boot(ram, swp))
  {
    BootInv(ram, swp);
    hide BaseInv;
  }
}
