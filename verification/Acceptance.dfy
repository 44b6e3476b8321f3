/**
 What each instruction accepts and what it then does, said on the fields of the
 state before the call: exactly when READ, WRITE, FREE, the copies and the
 life-cycle steps succeed, and when ALLOC must.
 */
module Acceptance {
  import opened Basics
  import opened Devices
  import opened Paging
  import opened Ownership
  import opened Transparency
  import opened KernelFrames
  import opened KernelMemory
  import opened Regions
  import opened System
  import opened Bytes
  import opened Runs
  import opened Accounting
  import opened Coverage
  import opened Leaks
  import opened Refinement
  import Queues

  // ----- READ and WRITE -----

  /** READ succeeds exactly on the bytes of a user symbol whose page can be made
      resident, and returns the byte the process has there. */
  lemma ReadAccepts(s: Sys, p: nat, rg: nat, off: nat)
    requires BaseInv(s) && p in s.area && p in s.mem.running
    ensures var a, r := s.area[p], Step(s, Read(p, rg, off)).1;
            && (r.Got? <==>
                && rg < |a.sym| && off < a.sym[rg].end - a.sym[rg].start && a.sym[rg].end <= USER_TOP
                && Reachable(s.mem, p, (a.sym[rg].start + off) / PAGESZ))
            && (r.Got? ==> UByte(s.mem, p, a.sym[rg].start + off) == Some(r.val))
            && (!r.Got? ==> r == Failed)
  {
    hide MemInv;
    hide UByte;
    hide Reachable;
    hide ReadByte;
    var a := s.area[p];
    var va := UserAddr(a, rg, off);
    UserAddrIs(a, rg, off);
    if va.Some? {
      ReadBytes(s.mem, p, va.value);
    }
    assert Step(s, Read(p, rg, off)) == Instruction(s, Read(p, rg, off));
    assert Step(s, Read(p, rg, off)).1 == Byteval(ReadAt(s.mem, p, va).0);
  }

  /** WRITE succeeds exactly there, and the byte is then the one written. */
  lemma WriteAccepts(s: Sys, p: nat, rg: nat, off: nat, v: Byte)
    requires BaseInv(s) && p in s.area && p in s.mem.running
    ensures var a, (s', r) := s.area[p], Step(s, Write(p, rg, off, v));
            && (r == Done <==>
                && rg < |a.sym| && off < a.sym[rg].end - a.sym[rg].start && a.sym[rg].end <= USER_TOP
                && Reachable(s.mem, p, (a.sym[rg].start + off) / PAGESZ))
            && (r == Done ==> UByte(s'.mem, p, a.sym[rg].start + off) == Some(v))
            && (r != Done ==> r == Failed && s' == s)
  {
    hide MemInv;
    hide UByte;
    hide Reachable;
    hide WriteByte;
    var a := s.area[p];
    var va := UserAddr(a, rg, off);
    UserAddrIs(a, rg, off);
    if va.Some? {
      WriteBytes(s.mem, p, va.value, v);
    }
    assert Step(s, Write(p, rg, off, v)) == Instruction(s, Write(p, rg, off, v));
  }

  /** Access by address succeeds exactly below the break, on pages that can be made
      resident. */
  lemma IoAccepts(s: Sys, p: nat, va: nat, v: Byte)
    requires BaseInv(s) && p in s.area && p in s.mem.running
    ensures var r := Step(s, IoRead(p, va)).1;
            && (r.Got? <==> va < s.area[p].sbrk && Reachable(s.mem, p, va / PAGESZ))
            && (r.Got? ==> UByte(s.mem, p, va) == Some(r.val))
    ensures var (s', r) := Step(s, IoWrite(p, va, v));
            && (r == Done <==> va < s.area[p].sbrk && Reachable(s.mem, p, va / PAGESZ))
            && (r == Done ==> UByte(s'.mem, p, va) == Some(v))
            && (r != Done ==> s' == s)
  {
    hide MemInv;
    hide UByte;
    hide Reachable;
    hide ReadByte;
    hide WriteByte;
    ReadBytes(s.mem, p, va);
    WriteBytes(s.mem, p, va, v);
    assert Step(s, IoRead(p, va)) == Instruction(s, IoRead(p, va));
    assert Step(s, IoRead(p, va)).1 == Byteval(ReadAt(s.mem, p, if va < s.area[p].sbrk then Some(va) else None).0);
    assert Step(s, IoWrite(p, va, v)) == Instruction(s, IoWrite(p, va, v));
  }

  // ----- ALLOC and FREE -----

  /** Growth needs enough frames, and room below the top of user space. */
  lemma CanGrowMeans(s: Sys, p: nat, size: nat)
    requires BaseInv(s) && p in s.area && size > 0
    ensures CanGrow(s, p, size) <==>
            PagesFor(size) <= Supply(s.mem, p) && s.area[p].sbrk + PagesFor(size) * PAGESZ <= USER_TOP
  {
    hide BaseInv;
    hide Supply;
    PageAligned(s, p);
    RoomBelow(s.area[p].sbrk, PagesFor(size));
  }

  lemma RoomBelow(addr: nat, n: nat)
    requires addr % PAGESZ == 0 && n > 0
    ensures Mappable(addr, n) <==> addr + n * PAGESZ <= USER_TOP
  {
    assert n * PAGESZ == (n - 1) * PAGESZ + PAGESZ;
    assert (addr + (n - 1) * PAGESZ) % PAGESZ == 0 by { PagesAddUp(addr, n - 1); }
  }

  /** A free node has room, or enough frames and addresses are left to grow. */
  ghost predicate HasRoom(s: Sys, p: nat, size: nat)
    requires p in s.area
  {
    || (exists i :: 0 <= i < |s.area[p].free| && s.area[p].free[i].start + size <= s.area[p].free[i].end)
    || (PagesFor(size) <= Supply(s.mem, p) && s.area[p].sbrk + PagesFor(size) * PAGESZ <= USER_TOP)
  }

  lemma RoomServes(s: Sys, p: nat, size: nat)
    requires BaseInv(s) && p in s.area && size > 0
    ensures HasRoom(s, p, size) <==> Serves(s, p, size)
  {
    hide BaseInv;
    hide CanGrow;
    hide Supply;
    CanGrowMeans(s, p, size);
    if FirstFit(s.area[p].free, size).None? {
      assert forall i :: 0 <= i < |s.area[p].free| ==> !Fits(s.area[p].free[i], size);
    }
  }

  /** ALLOC with a valid symbol and size succeeds whenever there is room, and hands
      out a region of that size; where regions are disjoint and backed, every byte
      of it exists. A bad symbol or no bytes are refused without any effect. */
  lemma AllocAccepts(s: Sys, p: nat, rg: nat, size: AllocSize, junk: Region)
    requires BaseInv(s) && p in s.area && p in s.mem.running
    ensures var a, (s', r) := s.area[p], Step(s, Alloc(p, rg, size, junk));
            && (rg >= |a.sym| || size == 0 ==> r == Failed && s' == s)
            && (rg < |a.sym| && size > 0 && HasRoom(s, p, size) ==>
                  && r == Done && p in s'.area && rg < |s'.area[p].sym|
                  && s'.area[p].sym[rg].end == s'.area[p].sym[rg].start + size
                  && (ApartInv(s) ==> forall x: nat :: In(s'.area[p].sym[rg], x) ==> UByte(s'.mem, p, x).Some?))
  {
    hide BaseInv;
    hide ApartInv;
    hide HasRoom;
    hide Serves;
    hide DoAlloc;
    hide UByte;
    var a := s.area[p];
    assert Step(s, Alloc(p, rg, size, junk)) == Instruction(s, Alloc(p, rg, size, junk));
    if rg >= |a.sym| || size == 0 {
      AllocRefuses(s, p, rg, size, junk);
    } else {
      RoomServes(s, p, size);
      if HasRoom(s, p, size) {
        AllocLength(s, p, rg, size, junk);
        if ApartInv(s) {
          AllocGivesBytes(s, p, rg, size, junk);
        }
      }
    }
  }

  /** A growth that cannot be mapped still raises the limit, adds no page, and puts
      the bytes of the unset region node on the free list. */
  lemma FailedGrowthEffect(s: Sys, p: nat, size: nat, junk: Region)
    requires BaseInv(s) && p in s.area && size > 0 && !CanGrow(s, p, size)
    ensures var s' := Grow(s, p, size, junk);
            && s'.area == s.area[p := s'.area[p]] && s'.area[p].sym == s.area[p].sym
            && s'.area[p].sbrk == s.area[p].sbrk + PagesFor(size) * PAGESZ
            && (forall x: nat :: Covers(s'.area[p].free, x) <==> Covers(s.area[p].free, x) || In(junk, x))
            && s'.mem.pt.Keys == s.mem.pt.Keys && SameView(s.mem, s'.mem)
  {
    hide BaseInv;
    hide CanGrow;
    hide Enlist;
    hide Covers;
    hide UserView;
    hide KernelView;
    PageAligned(s, p);
    GrowSucceeds(s, p, size);
    GrowUnmapped(s, p, size, junk);
    forall x: nat ensures Covers(Enlist(s.area[p].free, junk), x) <==> Covers(s.area[p].free, x) || In(junk, x) {
      EnlistCovers(s.area[p].free, junk, x);
    }
  }

  lemma AllocRefuses(s: Sys, p: nat, rg: nat, size: nat, junk: Region)
    requires p in s.area && (rg >= |s.area[p].sym| || size == 0)
    ensures DoAlloc(s, p, rg, size, junk) == (s, false)
  {
  }

  lemma AllocLength(s: Sys, p: nat, rg: nat, size: nat, junk: Region)
    requires BaseInv(s) && p in s.area && rg < |s.area[p].sym| && size > 0 && Serves(s, p, size)
    ensures var (s', ok) := DoAlloc(s, p, rg, size, junk);
            && ok && p in s'.area && rg < |s'.area[p].sym|
            && s'.area[p].sym[rg].end == s'.area[p].sym[rg].start + size
  {
    hide BaseInv;
    hide Serves;
    hide Grow;
    hide DoAlloc;
    hide Cut;
    AllocServed(s, p, rg, size, junk);
  }

  lemma AllocGivesBytes(s: Sys, p: nat, rg: nat, size: nat, junk: Region)
    requires ApartInv(s) && p in s.area && rg < |s.area[p].sym| && 0 < size < 0x1_0000_0000 && Serves(s, p, size)
    ensures var (s', ok) := DoAlloc(s, p, rg, size, junk);
            && ok && p in s'.area && rg < |s'.area[p].sym|
            && (forall x: nat :: In(s'.area[p].sym[rg], x) ==> UByte(s'.mem, p, x).Some?)
  {
    hide BaseInv;
    hide Laid;
    hide KernelApart;
    hide Backed;
    hide Serves;
    hide DoAlloc;
    hide UByte;
    AllocApart(s, p, rg, size, junk);
    var s' := DoAlloc(s, p, rg, size, junk).0;
    forall x: nat | In(s'.area[p].sym[rg], x) ensures UByte(s'.mem, p, x).Some? {
      MemoryHolds(s');
      ByteExists(s'.mem, p, x);
    }
  }

  lemma MemoryHolds(s: Sys)
    requires BaseInv(s)
    ensures MemInv(s.mem, multiset{}) && s.area.Keys == s.mem.fifo.Keys
  {
    hide MemInv;
  }

  /** FREE succeeds exactly on a symbol that is not empty; then exactly the bytes of
      its region become free, the symbol is empty and nothing else changes. */
  lemma FreeAccepts(s: Sys, p: nat, rg: nat)
    requires BaseInv(s) && p in s.area && p in s.mem.running
    ensures var a, (s', r) := s.area[p], Step(s, Free(p, rg));
            && (r == Done <==> rg < |a.sym| && (a.sym[rg].start != 0 || a.sym[rg].end != 0))
            && (r != Done ==> s' == s)
            && (r == Done ==>
                  && s'.mem == s.mem && s'.area == s.area[p := s'.area[p]]
                  && s'.area[p].sbrk == a.sbrk && s'.area[p].sym == a.sym[rg := Region(0, 0)]
                  && forall x: nat :: Covers(s'.area[p].free, x) <==> Covers(a.free, x) || In(a.sym[rg], x))
  {
    hide BaseInv;
    hide Enlist;
    hide Covers;
    PageAligned(s, p);
    var a := s.area[p];
    assert Step(s, Free(p, rg)) == Instruction(s, Free(p, rg));
    if rg < |a.sym| {
      forall x: nat ensures Covers(Enlist(a.free, a.sym[rg]), x) <==> Covers(a.free, x) || In(a.sym[rg], x) {
        EnlistCovers(a.free, a.sym[rg], x);
      }
    }
  }

  /** KMALLOC succeeds exactly on an empty symbol when enough consecutive frames are
      free; the symbol then covers the lowest of them, and every byte exists. */
  lemma KmallocAccepts(s: Sys, p: nat, rg: nat, size: Word32)
    requires BaseInv(s) && p in s.area && p in s.mem.running
    ensures var a, (s', r) := s.area[p], Step(s, Kmalloc(p, rg, size));
            && (r == Done <==>
                && rg < |a.sym| && size > 0 && a.sym[rg] == Region(0, 0)
                && exists f: nat :: RunFree(s.mem.ram.free, f, PagesFor(size)))
            && (r != Done ==> s' == s)
            && (r == Done ==> exists f: nat ::
                    && LowestRun(s.mem.ram.free, PagesFor(size), Some(f))
                    && p in s'.area && rg < |s'.area[p].sym|
                    && s'.area[p].sym[rg] == Region(KBASE + f * PAGESZ, KBASE + f * PAGESZ + size)
                    && forall x: nat :: In(s'.area[p].sym[rg], x) ==> KByte(s'.mem, x).Some?)
  {
    hide BaseInv;
    hide KByte;
    hide LowestRun;
    assert Step(s, Kmalloc(p, rg, size)) == Instruction(s, Kmalloc(p, rg, size));
    if rg < |s.area[p].sym| && size > 0 {
      KmallocExact(s, p, rg, size);
      hide DoKmalloc;
    }
  }

  // ----- the copies -----

  /** Bringing a page in changes nobody's chances of bringing in another. */
  lemma GetPageReach(m: Mem, p: nat, x: nat, g: nat)
    requires MemInv(m, multiset{}) && p in m.fifo
    ensures Reachable(GetPage(m, p, x).1, p, g) <==> Reachable(m, p, g)
  {
    hide Partition;
    hide FifoExact;
    hide FifoAged;
    GetPageKeeps(m, p, x);
    var k := Vpn(p, x);
    if k in m.pt && m.pt[k].Swapped? && SwapOut(m, p).0.Some? {
      SwapOutSpec(m, multiset{}, p);
      EvictCounts(m, multiset{}, p);
      var m' := GetPage(m, p, x).1;
      assert m'.swp.free != [] && p in m'.fifo && m'.fifo[p] != [];
    }
  }

  /** Reachability looks at tables and lists, not at bytes. */
  lemma SameReach(m: Mem, m': Mem, p: nat, g: nat)
    requires m'.pt == m.pt && m'.fifo == m.fifo && m'.running == m.running && m'.swp.free == m.swp.free
    ensures Reachable(m', p, g) <==> Reachable(m, p, g)
  {
    SameCounts(m, m', p, 0);
  }

  /** The next byte can be copied exactly as before. */
  ghost predicate SameAccess(m: Mem, m': Mem, p: nat) {
    && (forall g: nat :: Reachable(m', p, g) <==> Reachable(m, p, g))
    && (forall x: nat :: KByte(m', x).Some? <==> KByte(m, x).Some?)
  }

  lemma ReadAccess(m: Mem, p: nat, va: nat)
    requires MemInv(m, multiset{}) && p in m.fifo
    ensures SameAccess(m, ReadByte(m, p, va).1, p)
  {
    hide MemInv;
    hide Reachable;
    hide KByte;
    hide GetPage;
    ReadBytes(m, p, va);
    forall g: nat ensures Reachable(ReadByte(m, p, va).1, p, g) <==> Reachable(m, p, g) {
      GetPageReach(m, p, va / PAGESZ, g);
    }
  }

  lemma WriteAccess(m: Mem, p: nat, va: nat, b: Byte)
    requires MemInv(m, multiset{}) && p in m.fifo
    ensures SameAccess(m, WriteByte(m, p, va, b).1, p)
  {
    hide MemInv;
    hide Reachable;
    hide KByte;
    hide GetPage;
    WriteBytes(m, p, va, b);
    var m1, m' := GetPage(m, p, va / PAGESZ).1, WriteByte(m, p, va, b).1;
    forall g: nat ensures Reachable(m', p, g) <==> Reachable(m, p, g) {
      GetPageReach(m, p, va / PAGESZ, g);
      SameReach(m1, m', p, g);
    }
  }

  lemma KWriteAccess(m: Mem, p: nat, va: nat, b: Byte)
    requires MemInv(m, multiset{})
    ensures SameAccess(m, KWriteByte(m, va, b).1, p)
  {
    hide MemInv;
    hide Reachable;
    hide KByte;
    KWriteBytes(m, va, b);
    var m' := KWriteByte(m, va, b).1;
    forall g: nat ensures Reachable(m', p, g) <==> Reachable(m, p, g) {
      SameReach(m, m', p, g);
    }
  }

  /** Offsets off, ..., off+n-1 lie inside both symbols, the user symbol below the
      top of user space, on user pages that can be made resident and kernel bytes
      that exist. */
  ghost predicate CanCopy(m: Mem, a: Area, p: nat, user: nat, kern: nat, off: nat, n: nat) {
    && user < |a.sym| && kern < |a.sym|
    && (n > 0 ==>
          && off + n <= a.sym[user].end - a.sym[user].start && a.sym[user].end <= USER_TOP
          && off + n <= a.sym[kern].end - a.sym[kern].start)
    && forall i :: off <= i < off + n ==>
                     Reachable(m, p, Addr(a, user, i) / PAGESZ) && KByte(m, Addr(a, kern, i)).Some?
  }

  /** The same for one byte. */
  ghost predicate CanCopyOne(m: Mem, a: Area, p: nat, user: nat, kern: nat, off: nat) {
    && user < |a.sym| && kern < |a.sym|
    && a.sym[user].start + off < a.sym[user].end <= USER_TOP && a.sym[kern].start + off < a.sym[kern].end
    && Reachable(m, p, Addr(a, user, off) / PAGESZ) && KByte(m, Addr(a, kern, off)).Some?
  }

  lemma CanCopyStep(m: Mem, m': Mem, a: Area, p: nat, user: nat, kern: nat, off: nat, n: nat)
    requires n > 0 && SameAccess(m, m', p)
    ensures CanCopy(m, a, p, user, kern, off, n) <==>
            CanCopyOne(m, a, p, user, kern, off) && CanCopy(m', a, p, user, kern, off + 1, n - 1)
  {
    hide Reachable;
    hide KByte;
    if CanCopyOne(m, a, p, user, kern, off) && CanCopy(m', a, p, user, kern, off + 1, n - 1) {
      forall i | off <= i < off + n
        ensures Reachable(m, p, Addr(a, user, i) / PAGESZ) && KByte(m, Addr(a, kern, i)).Some?
      {
        if i > off {
          assert Reachable(m', p, Addr(a, user, i) / PAGESZ) && KByte(m', Addr(a, kern, i)).Some?;
        }
      }
    }
    if CanCopy(m, a, p, user, kern, off, n) {
      assert Reachable(m, p, Addr(a, user, off) / PAGESZ) && KByte(m, Addr(a, kern, off)).Some?;
    }
  }

  lemma AccessTransitive(m: Mem, m1: Mem, m2: Mem, p: nat)
    requires SameAccess(m, m1, p) && SameAccess(m1, m2, p)
    ensures SameAccess(m, m2, p)
  {
    hide Reachable;
    hide KByte;
  }

  lemma KernelAddrIs(a: Area, rg: nat, off: nat)
    ensures KernelAddr(a, rg, off) ==
            if rg < |a.sym| && a.sym[rg].start + off < a.sym[rg].end then Some(a.sym[rg].start + off) else None
  {
  }

  /** copy_from_user succeeds exactly when every byte of the range can be copied,
      across page boundaries and however many swap-ins it takes. */
  lemma {:induction false} CopyFromExact(m: Mem, a: Area, p: nat, src: nat, dst: nat, off: nat, n: nat)
    requires MemInv(m, multiset{}) && p in m.fifo
    ensures CopyFrom(m, a, p, src, dst, off, n).0 <==> CanCopy(m, a, p, src, dst, off, n)
    decreases n
  {
    hide MemInv;
    hide UByte;
    hide KByte;
    hide Reachable;
    hide ReadByte;
    hide KWriteByte;
    if n > 0 && src < |a.sym| && dst < |a.sym| {
      var ua, va := UserAddr(a, src, off), KernelAddr(a, dst, off);
      UserAddrIs(a, src, off);
      KernelAddrIs(a, dst, off);
      hide UserAddr;
      hide KernelAddr;
      FirstByte(m, a, p, src, dst, off, n);
      if ua.Some? && va.Some? {
        ReadBytes(m, p, ua.value);
        ReadAccess(m, p, ua.value);
        var (b, m1) := ReadByte(m, p, ua.value);
        if b.Some? {
          KWriteBytes(m1, va.value, b.value);
          KWriteAccess(m1, p, va.value, b.value);
          var (ok, m2) := KWriteByte(m1, va.value, b.value);
          if ok {
            AccessTransitive(m, m1, m2, p);
            CanCopyStep(m, m2, a, p, src, dst, off, n);
            hide CanCopy;
            CopyFromExact(m2, a, p, src, dst, off + 1, n - 1);
          }
        }
      }
    }
  }

  lemma FirstByte(m: Mem, a: Area, p: nat, user: nat, kern: nat, off: nat, n: nat)
    requires n > 0
    ensures CanCopy(m, a, p, user, kern, off, n) ==> CanCopyOne(m, a, p, user, kern, off)
  {
    hide Reachable;
    hide KByte;
    if CanCopy(m, a, p, user, kern, off, n) {
      assert Reachable(m, p, Addr(a, user, off) / PAGESZ) && KByte(m, Addr(a, kern, off)).Some?;
    }
  }

  /** copy_to_user succeeds exactly then, too. */
  lemma {:induction false} CopyToExact(m: Mem, a: Area, p: nat, src: nat, dst: nat, off: nat, n: nat)
    requires MemInv(m, multiset{}) && p in m.fifo
    ensures CopyTo(m, a, p, src, dst, off, n).0 <==> CanCopy(m, a, p, dst, src, off, n)
    decreases n
  {
    hide MemInv;
    hide UByte;
    hide KByte;
    hide Reachable;
    hide WriteByte;
    hide KReadByte;
    if n > 0 && src < |a.sym| && dst < |a.sym| {
      var va, ua := KernelAddr(a, src, off), UserAddr(a, dst, off);
      UserAddrIs(a, dst, off);
      KernelAddrIs(a, src, off);
      hide UserAddr;
      hide KernelAddr;
      FirstByte(m, a, p, dst, src, off, n);
      if va.Some? {
        KReadBytes(m, va.value);
        var b := KReadByte(m, va.value);
        if b.Some? && ua.Some? {
          WriteBytes(m, p, ua.value, b.value);
          WriteAccess(m, p, ua.value, b.value);
          var (ok, m1) := WriteByte(m, p, ua.value, b.value);
          if ok {
            CanCopyStep(m, m1, a, p, dst, src, off, n);
            hide CanCopy;
            CopyToExact(m1, a, p, src, dst, off + 1, n - 1);
          }
        }
      }
    }
  }

  /** Both copy instructions: exactly when they succeed, and that they then move
      every byte of the range. */
  lemma CopyAccepts(s: Sys, p: nat, src: nat, dst: nat, off: nat, n: nat)
    requires BaseInv(s) && p in s.area && p in s.mem.running
    ensures var a, (s', r) := s.area[p], Step(s, CopyFromUser(p, src, dst, off, n));
            && (r == Done <==> CanCopy(s.mem, a, p, src, dst, off, n))
            && (r == Done ==> forall i :: off <= i < off + n ==>
                                            KByte(s'.mem, Addr(a, dst, i)) == UByte(s.mem, p, Addr(a, src, i)))
    ensures var a, (s', r) := s.area[p], Step(s, CopyToUser(p, src, dst, off, n));
            && (r == Done <==> CanCopy(s.mem, a, p, dst, src, off, n))
            && (r == Done ==> forall i :: off <= i < off + n ==>
                                            UByte(s'.mem, p, Addr(a, dst, i)) == KByte(s.mem, Addr(a, src, i)))
  {
    hide BaseInv;
    hide UByte;
    hide KByte;
    hide Reachable;
    hide CopyFrom;
    hide CopyTo;
    MemoryHolds(s);
    CopyFromExact(s.mem, s.area[p], p, src, dst, off, n);
    CopyFromMoves(s.mem, s.area[p], p, src, dst, off, n);
    CopyToExact(s.mem, s.area[p], p, src, dst, off, n);
    CopyToMoves(s.mem, s.area[p], p, src, dst, off, n);
    assert Step(s, CopyFromUser(p, src, dst, off, n)) == Instruction(s, CopyFromUser(p, src, dst, off, n));
    assert Step(s, CopyToUser(p, src, dst, off, n)) == Instruction(s, CopyToUser(p, src, dst, off, n));
  }

  // ----- the life of a process -----

  /** A process that is not on the running list executes nothing. */
  lemma StoppedDoesNothing(s: Sys, op: Op)
    requires IsInstruction(op) && op.pid !in s.mem.running
    ensures Step(s, op) == (s, Failed)
  {
  }

  /** A process can start exactly when its pid is unused and the running list has
      room; it starts with an empty area, empty symbols and no byte, at the end of
      the running list, and nothing else changes. */
  lemma SpawnEffect(s: Sys, p: nat)
    requires BaseInv(s)
    ensures var (s', r) := Step(s, Spawn(p));
            && (r == Done <==> p !in s.area && |s.mem.running| < Queues.MAX_QUEUE_SIZE)
            && (r != Done ==> s' == s)
            && (r == Done ==>
                  && s'.mem == s.mem.(running := s.mem.running + [p], fifo := s'.mem.fifo)
                  && s'.mem.fifo == s.mem.fifo[p := []]
                  && s'.area == s.area[p := s'.area[p]]
                  && s'.area[p].sbrk == 0 && s'.area[p].free == [] && |s'.area[p].sym| == SYMBOLS
                  && (forall i :: 0 <= i < SYMBOLS ==> s'.area[p].sym[i] == Region(0, 0))
                  && (forall va: nat :: UByte(s'.mem, p, va).None?))
  {
    hide MemInv;
    if p !in s.area {
      forall va: nat ensures UByte(s.mem, p, va).None? {
        assert Vpn(p, va / PAGESZ) !in s.mem.pt;
      }
    }
  }

  /** A process can finish exactly while it is on the running list; it leaves the
      list, the others keep their order, and nothing else changes until it exits. */
  lemma FinishEffect(s: Sys, p: nat)
    requires BaseInv(s)
    ensures var (s', r) := Step(s, Finish(p));
            && (r == Done <==> p in s.mem.running)
            && (r != Done ==> s' == s)
            && (r == Done ==>
                  && p !in s'.mem.running && s' == s.(mem := s.mem.(running := s'.mem.running))
                  && exists i :: 0 <= i < |s.mem.running| && s.mem.running[i] == p
                                 && s'.mem.running == s.mem.running[..i] + s.mem.running[i + 1..])
  {
    hide MemInv;
    RunningDistinct(s);
    UnlinkMembers(s.mem.running, p);
    if p in s.mem.running {
      var i := UnlinkAt(s.mem.running, p);
    }
  }

  lemma RunningDistinct(s: Sys)
    requires BaseInv(s)
    ensures Distinct(s.mem.running)
  {
    hide Partition;
    hide FifoExact;
    hide FifoAged;
  }

  lemma {:induction false} UnlinkAt(list: seq<nat>, f: nat) returns (i: nat)
    requires f in list
    ensures i < |list| && list[i] == f && Unlink(list, f) == list[..i] + list[i + 1..]
  {
    if list[0] == f {
      i := 0;
    } else {
      assert list == [list[0]] + list[1..];
      var j := UnlinkAt(list[1..], f);
      i := j + 1;
      assert list[..i] == [list[0]] + list[1..][..j] && list[i + 1..] == list[1..][j + 1..];
    }
  }
}
