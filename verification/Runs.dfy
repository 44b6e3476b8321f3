/**
 Whole runs. For every sequence of instructions of any number of processes,
 including failing ones, the ownership invariant holds in every state and each
 process has one plain byte map: a byte changes only when its own process
 writes it, and a read returns the last byte written.
 */
module Runs {
  import opened Basics
  import opened Devices
  import opened Paging
  import opened Ownership
  import opened Transparency
  import opened KernelFrames
  import opened KernelMemory
  import opened Regions
  import opened System
  import opened Bytes

  /** Every mapped page lies below its process's break. */
  ghost predicate PagesBelow(pt: map<Vpn, Pte>, area: map<nat, Area>) {
    forall k :: k in pt ==> k.pid in area && k.pgn * PAGESZ < area[k.pid].sbrk
  }

  /** Every symbol region is shorter than 2^32 bytes. */
  ghost predicate Short(sym: seq<Region>) {
    forall i :: 0 <= i < |sym| ==> sym[i].end < sym[i].start + 0x1_0000_0000
  }

  ghost predicate AreasOk(area: map<nat, Area>) {
    forall p :: p in area ==>
                  && |area[p].sym| == SYMBOLS && area[p].sbrk % PAGESZ == 0
                  && Formed(area[p].free) && Short(area[p].sym)
  }

  /** What holds in every reachable state, whatever the programs do. */
  ghost predicate BaseInv(s: Sys) {
    && MemInv(s.mem, multiset{})
    && s.area.Keys == s.mem.fifo.Keys
    && AreasOk(s.area)
    && PagesBelow(s.mem.pt, s.area)
  }

  /** Offsets into a symbol stay below 2^32, so the 32-bit offsets of the copy
      loops are refused before they could wrap around. */
  lemma OffsetsFit(s: Sys, p: nat, rg: nat, off: nat)
    requires BaseInv(s) && p in s.area
    ensures UserAddr(s.area[p], rg, off).Some? || KernelAddr(s.area[p], rg, off).Some? ==> off < 0x1_0000_0000
  {
    hide MemInv;
  }

  // ----- boot -----

  ghost predicate WholePages(pages: seq<seq<Byte>>) {
    forall f :: 0 <= f < |pages| ==> |pages[f]| == PAGESZ
  }

  lemma {:induction false} CountUpto(n: nat)
    ensures var s := seq(n, i => i);
            forall f: nat :: multiset(s)[f] == if f < n then 1 else 0
  {
    var s := seq(n, i => i);
    if n > 0 {
      CountUpto(n - 1);
      assert s == seq(n - 1, i => i) + [n - 1];
    }
  }

  lemma BootInv(ram: seq<seq<Byte>>, swp: seq<seq<Byte>>)
    requires WholePages(ram) && WholePages(swp)
    ensures BaseInv(Boot(ram, swp))
  {
    var m := Boot(ram, swp).mem;
    CountUpto(|ram|);
    CountUpto(|swp|);
    assert forall f: nat :: (multiset(m.ram.free) + multiset(m.ram.used) + multiset{})[f] == multiset(m.ram.free)[f];
    assert Partition(|ram|, multiset(m.ram.free) + multiset(m.ram.used) + multiset{}, m.pt, true);
    assert Partition(|swp|, multiset(m.swp.free), m.pt, false);
  }

  // ----- growth of an area -----

  lemma GrowMapped(s: Sys, p: nat, size: nat, junk: Region)
    requires BaseInv(s) && p in s.area
    requires var (fs, m) := AllocPages(s.mem, p, PagesFor(size), []);
             fs.Some? && Mappable(s.area[p].sbrk, PagesFor(size))
    ensures var s' := Grow(s, p, size, junk);
            && MemInv(s'.mem, multiset{})
            && Extends(UserView(s.mem), UserView(s'.mem))
            && KernelView(s'.mem) == KernelView(s.mem)
            && s'.mem.pt.Keys == s.mem.pt.Keys + PageRange(p, s.area[p].sbrk / PAGESZ, PagesFor(size))
            && s'.mem.fifo.Keys == s.mem.fifo.Keys && s'.mem.running == s.mem.running
  {
    hide MemInv;
    var n := PagesFor(size);
    var (fs, m) := AllocPages(s.mem, p, n, []);
    var none: seq<nat> := [];
    assert multiset(none) == multiset{};
    AllocPagesKeeps(s.mem, p, n, []);
    var g := s.area[p].sbrk / PAGESZ;
    assert Fresh(m, p, g, n) by {
      forall h | g <= h < g + n ensures Vpn(p, h) !in m.pt {
        assert Vpn(p, h) !in s.mem.pt;
      }
    }
    MapFramesInv(m, p, g, fs.value);
    MapFramesMaps(m, p, g, fs.value);
    MapFramesView(m, p, g, fs.value);
  }

  lemma GrowUnmapped(s: Sys, p: nat, size: nat, junk: Region)
    requires BaseInv(s) && p in s.area
    requires var (fs, m) := AllocPages(s.mem, p, PagesFor(size), []);
             fs.None? || !Mappable(s.area[p].sbrk, PagesFor(size))
    ensures var s' := Grow(s, p, size, junk);
            && MemInv(s'.mem, multiset{}) && SameView(s.mem, s'.mem)
            && s'.mem.pt.Keys == s.mem.pt.Keys
            && s'.mem.fifo.Keys == s.mem.fifo.Keys && s'.mem.running == s.mem.running
  {
    hide MemInv;
    var (fs, m) := AllocPages(s.mem, p, PagesFor(size), []);
    var none: seq<nat> := [];
    assert multiset(none) == multiset{};
    AllocPagesKeeps(s.mem, p, PagesFor(size), []);
    if fs.Some? {
      assert multiset{} + multiset(fs.value) == multiset(fs.value);
      ReleaseKeeps(m, multiset{}, fs.value);
    }
  }

  lemma PagesAddUp(sbrk: nat, n: nat)
    requires sbrk % PAGESZ == 0
    ensures (sbrk + n * PAGESZ) % PAGESZ == 0 && (sbrk + n * PAGESZ) / PAGESZ == sbrk / PAGESZ + n
    ensures sbrk / PAGESZ * PAGESZ == sbrk
  {
  }

  /** Growing an area, successfully or not, keeps every existing byte. */
  lemma GrowKeeps(s: Sys, p: nat, size: nat, junk: Region)
    requires BaseInv(s) && p in s.area
    ensures var s' := Grow(s, p, size, junk);
            && BaseInv(s')
            && Extends(UserView(s.mem), UserView(s'.mem))
            && KernelView(s'.mem) == KernelView(s.mem)
            && s'.mem.running == s.mem.running
            && s'.area == s.area[p := s'.area[p]]
  {
    hide MemInv;
    hide UserView;
    hide KernelView;
    hide AllocPages;
    hide MapFrames;
    hide ReleaseFrames;
    hide Enlist;
    hide Formed;
    var n := PagesFor(size);
    var s' := Grow(s, p, size, junk);
    EnlistFormed(s.area[p].free, junk);
    EnlistFormed(s.area[p].free, Region(s.area[p].sbrk, s.area[p].sbrk + n * PAGESZ));
    PagesAddUp(s.area[p].sbrk, n);
    if AllocPages(s.mem, p, n, []).0.Some? && Mappable(s.area[p].sbrk, n) {
      GrowMapped(s, p, size, junk);
      forall k | k in s'.mem.pt ensures k.pid in s'.area && k.pgn * PAGESZ < s'.area[k.pid].sbrk {
        if k !in s.mem.pt {
          assert k in PageRange(p, s.area[p].sbrk / PAGESZ, n);
        }
      }
    } else {
      GrowUnmapped(s, p, size, junk);
    }
  }

  // ----- one step -----

  /** The address `off` bytes into a user symbol, if that byte belongs to it. */
  function SymbolByte(a: Area, rg: nat, off: nat): (va: Option<nat>) {
    if rg < |a.sym| && a.sym[rg].start + off < a.sym[rg].end <= USER_TOP then Some(a.sym[rg].start + off) else None
  }

  /** The checks of READ and WRITE let through exactly the bytes of the symbol. */
  lemma UserAddrIs(a: Area, rg: nat, off: nat)
    ensures UserAddr(a, rg, off) == SymbolByte(a, rg, off)
  {
  }

  /** The steps that may change byte va of process p. */
  ghost predicate Touches(s: Sys, op: Op, p: nat, va: nat) {
    op.pid == p && p in s.area &&
    match op
    case Write(_, rg, off, _) => SymbolByte(s.area[p], rg, off) == Some(va)
    case IoWrite(_, x, _) => x == va
    case CopyToUser(_, _, dst, off, size) => InSpan(s.area[p], dst, off, size, va)
    case Reap(_, _) => true
    case _ => false
  }

  /** No existing byte changes unless the step touches it. */
  ghost predicate Framed(s: Sys, op: Op, s': Sys) {
    forall p: nat, va: nat :: UByte(s.mem, p, va).Some? && !Touches(s, op, p, va) ==>
                                UByte(s'.mem, p, va) == UByte(s.mem, p, va)
  }

  lemma ExtendsBytes(m: Mem, m': Mem)
    requires Extends(UserView(m), UserView(m'))
    ensures forall p: nat, va: nat :: UByte(m, p, va).Some? ==> UByte(m', p, va) == UByte(m, p, va)
  {
  }

  lemma AllocStep(s: Sys, p: nat, rg: nat, size: nat, junk: Region)
    requires BaseInv(s) && p in s.area && size < 0x1_0000_0000
    ensures var s' := DoAlloc(s, p, rg, size, junk).0;
            && BaseInv(s')
            && Extends(UserView(s.mem), UserView(s'.mem))
            && KernelView(s'.mem) == KernelView(s.mem)
            && s'.mem.running == s.mem.running
  {
    hide BaseInv;
    hide Assign;
    hide Grow;
    hide UserView;
    hide KernelView;
    GrowKeeps(s, p, size, junk);
    var a := s.area[p];
    if rg < |a.sym| && size > 0 {
      var s1 := if FirstFit(a.free, size).Some? then s else Grow(s, p, size, junk);
      if FirstFit(s1.area[p].free, size).Some? {
        GrowSymbols(s, p, size, junk);
        AssignKeeps(s1, p, rg, FirstFit(s1.area[p].free, size).value, size);
      }
    }
  }

  lemma AssignKeeps(s: Sys, p: nat, rg: nat, i: nat, size: nat)
    requires BaseInv(s) && p in s.area && rg < |s.area[p].sym| && i < |s.area[p].free| && size < 0x1_0000_0000
    ensures BaseInv(s.(area := s.area[p := Assign(s.area[p], rg, i, size)]))
  {
    hide MemInv;
    CutFormed(s.area[p].free, i, size);
    hide Cut;
    hide Formed;
  }

  lemma GrowSymbols(s: Sys, p: nat, size: nat, junk: Region)
    requires p in s.area
    ensures var s' := Grow(s, p, size, junk);
            p in s'.area && s'.area == s.area[p := s'.area[p]] && s'.area[p].sym == s.area[p].sym
  {
  }

  lemma ShapeKeeps(s: Sys, m': Mem)
    requires BaseInv(s) && MemInv(m', multiset{}) && SameShape(s.mem, m')
    ensures BaseInv(s.(mem := m'))
  {
    hide MemInv;
  }

  lemma ReadStep(s: Sys, p: nat, va: Option<nat>)
    requires BaseInv(s) && p in s.area
    ensures var (b, m') := ReadAt(s.mem, p, va);
            && BaseInv(s.(mem := m')) && SameUser(s.mem, m') && SameKernel(s.mem, m')
            && (b.Some? ==> va.Some? && b == UByte(s.mem, p, va.value))
  {
    if va.Some? {
      ReadBytes(s.mem, p, va.value);
      ShapeKeeps(s, ReadByte(s.mem, p, va.value).1);
    }
  }

  lemma WriteStep(s: Sys, p: nat, va: Option<nat>, b: Byte)
    requires BaseInv(s) && p in s.area
    ensures var (ok, m') := WriteAt(s.mem, p, va, b);
            && BaseInv(s.(mem := m')) && SameKernel(s.mem, m')
            && (ok ==> va.Some? && UByte(m', p, va.value) == Some(b))
            && (!ok ==> m' == s.mem)
            && (forall q: nat, x: nat :: q != p || va != Some(x) ==> UByte(m', q, x) == UByte(s.mem, q, x))
  {
    if va.Some? {
      WriteBytes(s.mem, p, va.value, b);
      ShapeKeeps(s, WriteByte(s.mem, p, va.value, b).1);
    }
  }

  lemma KmallocStep(s: Sys, p: nat, rg: nat, size: nat)
    requires BaseInv(s) && p in s.area && size < 0x1_0000_0000
    ensures var s' := DoKmalloc(s, p, rg, size).0;
            && BaseInv(s')
            && UserView(s'.mem) == UserView(s.mem)
            && (forall f :: f in KernelView(s.mem) ==> f in KernelView(s'.mem) && KernelView(s'.mem)[f] == KernelView(s.mem)[f])
            && s'.mem.running == s.mem.running
  {
    hide MemInv;
    hide KernelStart;
    hide UserView;
    hide Formed;
    hide TakeRun;
    var a := s.area[p];
    if rg < |a.sym| && size > 0 && a.sym[rg] == NOREGION {
      ListsDistinct(s.mem, multiset{});
      KernelStartLowest(s.mem.ram.free, PagesFor(size));
      var f := KernelStart(s.mem.ram.free, PagesFor(size));
      if f.Some? {
        KTakeKeeps(s.mem, f.value, PagesFor(size));
      }
    }
  }

  lemma {:induction false} ReleaseSymbolsKeeps(m: Mem, sym: seq<Region>)
    requires MemInv(m, multiset{})
    ensures var m' := ReleaseSymbols(m, sym);
            && MemInv(m', multiset{})
            && UserView(m') == UserView(m)
            && m' == m.(ram := m'.ram, kpt := m'.kpt)
    decreases |sym|
  {
    hide MemInv;
    if sym != [] {
      var rg := sym[0];
      if IsKernel(rg) && ReleaseCount(rg.end - rg.start) > 0 {
        KReleaseKeeps(m, (rg.start - KBASE) / PAGESZ, ReleaseCount(rg.end - rg.start));
      }
      ReleaseSymbolsKeeps(ReleaseSymbol(m, rg), sym[1..]);
    }
  }

  lemma ReapStep(s: Sys, p: nat, order: seq<nat>)
    requires BaseInv(s) && p in s.area && p !in s.mem.running && Enumerates(s.mem, p, order)
    ensures var s' := Sys(ReapUser(ReleaseSymbols(s.mem, s.area[p].sym), p, order), s.area - {p});
            && BaseInv(s')
            && UserView(s'.mem) == (map k | k in UserView(s.mem) && k.pid != p :: UserView(s.mem)[k])
            && s'.mem.pt == (map k | k in s.mem.pt && k.pid != p :: s.mem.pt[k])
            && s'.mem.running == s.mem.running
  {
    hide MemInv;
    ReleaseSymbolsKeeps(s.mem, s.area[p].sym);
    var m := ReleaseSymbols(s.mem, s.area[p].sym);
    ReapUserKeeps(m, p, order);
  }

  lemma SpawnMem(s: Sys, p: nat)
    requires BaseInv(s) && p !in s.area
    ensures var m' := s.mem.(fifo := s.mem.fifo[p := []], running := s.mem.running + [p]);
            MemInv(m', multiset{})
  {
    hide Partition;
    var m' := s.mem.(fifo := s.mem.fifo[p := []], running := s.mem.running + [p]);
    assert p !in s.mem.running;
    forall q, g | q in m'.fifo ensures g in m'.fifo[q] <==> Resident(m'.pt, Vpn(q, g)) {
      if q == p {
        assert Vpn(p, g) !in s.mem.pt;
      } else {
        assert g in s.mem.fifo[q] <==> Resident(s.mem.pt, Vpn(q, g));
      }
    }
    assert FifoExact(m'.pt, m'.fifo);
    assert FifoAged(m'.fifo, m'.since, m'.clock);
  }

  lemma SpawnStep(s: Sys, p: nat)
    requires BaseInv(s)
    ensures BaseInv(Step(s, Spawn(p)).0)
    ensures UserView(Step(s, Spawn(p)).0.mem) == UserView(s.mem)
  {
    hide MemInv;
    if p !in s.area {
      SpawnMem(s, p);
    }
  }

  lemma FinishMem(m: Mem, p: nat)
    requires MemInv(m, multiset{})
    ensures MemInv(m.(running := Unlink(m.running, p)), multiset{})
  {
    hide Partition;
    hide FifoExact;
    hide FifoAged;
    UnlinkMembers(m.running, p);
  }

  lemma FinishStep(s: Sys, p: nat)
    requires BaseInv(s)
    ensures BaseInv(Step(s, Finish(p)).0)
    ensures UserView(Step(s, Finish(p)).0.mem) == UserView(s.mem)
  {
    hide MemInv;
    FinishMem(s.mem, p);
  }

  lemma ReapFramed(s: Sys, p: nat, order: seq<nat>)
    requires BaseInv(s)
    ensures BaseInv(Step(s, Reap(p, order)).0)
    ensures Framed(s, Reap(p, order), Step(s, Reap(p, order)).0)
  {
    hide MemInv;
    if p in s.area && p !in s.mem.running && Enumerates(s.mem, p, order) {
      ReapStep(s, p, order);
      hide Enumerates;
      var s' := Step(s, Reap(p, order)).0;
      forall q: nat, va: nat | UByte(s.mem, q, va).Some? && q != p ensures UByte(s'.mem, q, va) == UByte(s.mem, q, va) {
        assert Vpn(q, va / PAGESZ) in UserView(s.mem);
      }
    }
  }

  /** Every step keeps the invariant and changes only the bytes it touches. */
  lemma StepKeeps(s: Sys, op: Op)
    requires BaseInv(s)
    ensures BaseInv(Step(s, op).0)
    ensures Framed(s, op, Step(s, op).0)
  {
    hide BaseInv;
    match op
    case Spawn(p) =>
      SpawnStep(s, p);
    case Finish(p) =>
      FinishStep(s, p);
    case Reap(p, order) =>
      ReapFramed(s, p, order);
    case _ =>
      if op.pid in s.area && op.pid in s.mem.running {
        InstructionKeeps(s, op);
      }
  }

  lemma InstructionKeeps(s: Sys, op: Op)
    requires BaseInv(s) && op.pid in s.area && IsInstruction(op)
    ensures BaseInv(Instruction(s, op).0)
    ensures Framed(s, op, Instruction(s, op).0)
  {
    hide BaseInv;
    hide UByte;
    var a := s.area[op.pid];
    match op
    case Alloc(p, rg, size, junk) =>
      AllocStep(s, p, rg, size, junk);
      ExtendsBytes(s.mem, DoAlloc(s, p, rg, size, junk).0.mem);
    case Free(p, rg) =>
      FreeStep(s, p, rg);
    case Read(p, rg, off) =>
      ReadStep(s, p, UserAddr(a, rg, off));
    case Write(p, rg, off, v) =>
      UserAddrIs(a, rg, off);
      WriteStep(s, p, UserAddr(a, rg, off), v);
    case IoRead(p, va) =>
      ReadStep(s, p, if va < a.sbrk then Some(va) else None);
    case IoWrite(p, va, v) =>
      WriteStep(s, p, if va < a.sbrk then Some(va) else None, v);
    case Kmalloc(p, rg, size) =>
      KmallocStep(s, p, rg, size);
      ExtendsBytes(s.mem, DoKmalloc(s, p, rg, size).0.mem);
    case CopyFromUser(p, src, dst, off, size) =>
      CopyFromStep(s, p, src, dst, off, size);
    case CopyToUser(p, src, dst, off, size) =>
      CopyToStep(s, p, src, dst, off, size);
  }

  lemma FreeStep(s: Sys, p: nat, rg: nat)
    requires BaseInv(s) && p in s.area
    ensures BaseInv(DoFree(s, p, rg).0) && DoFree(s, p, rg).0.mem == s.mem
  {
    hide MemInv;
    if rg < |s.area[p].sym| {
      EnlistFormed(s.area[p].free, s.area[p].sym[rg]);
    }
    hide Enlist;
    hide Formed;
  }

  lemma CopyFromStep(s: Sys, p: nat, src: nat, dst: nat, off: nat, size: nat)
    requires BaseInv(s) && p in s.area
    ensures var m' := CopyFrom(s.mem, s.area[p], p, src, dst, off, size).1;
            BaseInv(s.(mem := m')) && SameUser(s.mem, m')
  {
    CopyFromMoves(s.mem, s.area[p], p, src, dst, off, size);
    ShapeKeeps(s, CopyFrom(s.mem, s.area[p], p, src, dst, off, size).1);
  }

  lemma CopyToStep(s: Sys, p: nat, src: nat, dst: nat, off: nat, size: nat)
    requires BaseInv(s) && p in s.area
    ensures var m' := CopyTo(s.mem, s.area[p], p, src, dst, off, size).1;
            && BaseInv(s.(mem := m')) && SameKernel(s.mem, m')
            && (forall q: nat, x: nat :: q != p || !InSpan(s.area[p], dst, off, size, x) ==> UByte(m', q, x) == UByte(s.mem, q, x))
  {
    CopyToMoves(s.mem, s.area[p], p, src, dst, off, size);
    ShapeKeeps(s, CopyTo(s.mem, s.area[p], p, src, dst, off, size).1);
  }

  // ----- runs -----

  /** Every reachable state satisfies the invariant. */
  lemma {:induction false} RunKeeps(s: Sys, ops: seq<Op>)
    requires BaseInv(s)
    ensures BaseInv(Run(s, ops))
    decreases |ops|
  {
    hide BaseInv;
    if ops != [] {
      StepKeeps(s, ops[0]);
      RunKeeps(Step(s, ops[0]).0, ops[1..]);
    }
  }

  /** No step of the run touches byte va of process p. */
  ghost predicate Untouched(s: Sys, ops: seq<Op>, p: nat, va: nat)
    decreases |ops|
  {
    ops != [] ==> !Touches(s, ops[0], p, va) && Untouched(Step(s, ops[0]).0, ops[1..], p, va)
  }

  lemma {:induction false} UntouchedByteStays(s: Sys, ops: seq<Op>, p: nat, va: nat)
    requires BaseInv(s) && UByte(s.mem, p, va).Some? && Untouched(s, ops, p, va)
    ensures UByte(Run(s, ops).mem, p, va) == UByte(s.mem, p, va)
    decreases |ops|
  {
    hide BaseInv;
    hide UByte;
    hide Touches;
    if ops != [] {
      StepKeeps(s, ops[0]);
      UntouchedByteStays(Step(s, ops[0]).0, ops[1..], p, va);
    }
  }

  /** The address a read or write instruction reaches. */
  ghost function Target(s: Sys, op: Op): (va: Option<nat>) {
    if op.pid !in s.area then None
    else
      match op
      case Read(p, rg, off) => SymbolByte(s.area[p], rg, off)
      case Write(p, rg, off, _) => SymbolByte(s.area[p], rg, off)
      case IoRead(_, va) => Some(va)
      case IoWrite(_, va, _) => Some(va)
      case _ => None
  }

  /** A read returns the last byte written: if a write of v to address va of
      process p succeeds, the run that follows, of any length and by any
      processes, with any evictions, swap-ins, allocations and failures, does
      not touch that byte, and a read of the same address then succeeds, it
      returns v. */
  lemma ReadReturnsLastWrite(s: Sys, w: Op, mid: seq<Op>, r: Op, p: nat, va: nat)
    requires BaseInv(s)
    requires (w.Write? || w.IoWrite?) && w.pid == p && Target(s, w) == Some(va) && Step(s, w).1 == Done
    requires Untouched(Step(s, w).0, mid, p, va)
    requires var s2 := Run(Step(s, w).0, mid);
             && (r.Read? || r.IoRead?) && r.pid == p && Target(s2, r) == Some(va) && Step(s2, r).1.Got?
    ensures Step(Run(Step(s, w).0, mid), r).1 == Got(w.val)
  {
    hide MemInv;
    hide UByte;
    var s1 := Step(s, w).0;
    if w.Write? {
      UserAddrIs(s.area[p], w.rg, w.off);
    }
    WriteStep(s, p, if w.IoWrite? && va >= s.area[p].sbrk then None else Some(va), w.val);
    assert UByte(s1.mem, p, va) == Some(w.val);
    StepKeeps(s, w);
    UntouchedByteStays(s1, mid, p, va);
    RunKeeps(s1, mid);
    var s2 := Run(s1, mid);
    if r.Read? {
      UserAddrIs(s2.area[p], r.rg, r.off);
    }
    ReadStep(s2, p, if r.IoRead? && va >= s2.area[p].sbrk then None else Some(va));
  }
}
