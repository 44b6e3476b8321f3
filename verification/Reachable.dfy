/**
 Every reachable state, read off the invariants: how many owners a frame or a
 swap slot has, and what can change a kernel byte. Both hold for all programs,
 also for those that break the region accounting.
 */
module ReachableStates {
  import opened Basics
  import opened Devices
  import opened Paging
  import opened Ownership
  import opened Transparency
  import opened KernelFrames
  import opened KernelMemory
  import opened Regions
  import opened System
  import opened Bytes
  import opened Runs
  import opened Accounting
  import opened Leaks

  // ----- single ownership -----

  /** The pages whose entry is e. */
  ghost function Owners(pt: map<Vpn, Pte>, e: Pte): (r: set<Vpn>) {
    set k | k in pt && pt[k] == e
  }

  lemma OwnersCount(n: nat, loose: multiset<nat>, pt: map<Vpn, Pte>, resident: bool, f: nat)
    requires Partition(n, loose, pt, resident) && f < n
    ensures loose[f] + |Owners(pt, Entry(resident, f))| == 1
  {
    var e := Entry(resident, f);
    if Mapped(pt, e) {
      var k :| k in pt && pt[k] == e;
      assert Owners(pt, e) == {k};
      assert f !in loose;
    } else {
      assert Owners(pt, e) == {};
      assert f in loose;
    }
  }

  /** Each frame has one owner among the free list, the kernel's used list, the
      frames in flight and the user pages; each slot has one owner among the
      free list and the user pages. */
  lemma OneOwner(m: Mem, held: multiset<nat>, f: nat)
    requires MemInv(m, held)
    ensures f < |m.ram.pages| ==>
              multiset(m.ram.free)[f] + multiset(m.ram.used)[f] + held[f] + |Owners(m.pt, Present(f))| == 1
    ensures f < |m.swp.pages| ==> multiset(m.swp.free)[f] + |Owners(m.pt, Swapped(f))| == 1
  {
    hide Partition;
    hide FifoExact;
    hide FifoAged;
    if f < |m.ram.pages| {
      OwnersCount(|m.ram.pages|, multiset(m.ram.free) + multiset(m.ram.used) + held, m.pt, true, f);
    }
    if f < |m.swp.pages| {
      OwnersCount(|m.swp.pages|, multiset(m.swp.free), m.pt, false, f);
    }
  }

  /** Single ownership after every run from boot, in which the devices keep
      their sizes. */
  lemma ReachableOwnership(ram: seq<seq<Byte>>, swp: seq<seq<Byte>>, ops: seq<Op>, f: nat)
    requires WholePages(ram) && WholePages(swp)
    ensures var m := Run(Boot(ram, swp), ops).mem;
            && (f < |ram| ==> multiset(m.ram.free)[f] + multiset(m.ram.used)[f] + |Owners(m.pt, Present(f))| == 1)
            && (f < |swp| ==> multiset(m.swp.free)[f] + |Owners(m.pt, Swapped(f))| == 1)
  {
    hide MemInv;
    BootInv(ram, swp);
    RunKeeps(Boot(ram, swp), ops);
    RunSizes(Boot(ram, swp), ops);
    OneOwner(Run(Boot(ram, swp), ops).mem, multiset{}, f);
  }

  // ----- what process exit returns -----

  /** The free lists hold exactly what nobody owns. */
  lemma FreeIff(m: Mem, f: nat)
    requires MemInv(m, multiset{})
    ensures f in m.ram.free <==> f < |m.ram.pages| && f !in m.ram.used && !Mapped(m.pt, Present(f))
    ensures f in m.swp.free <==> f < |m.swp.pages| && !Mapped(m.pt, Swapped(f))
  {
    ListsDistinct(m, multiset{});
    var loose := multiset(m.ram.free) + multiset(m.ram.used) + multiset{};
    assert f in loose <==> f in multiset(m.ram.free) || f in multiset(m.ram.used);
    assert f in m.ram.free <==> f in multiset(m.ram.free);
    assert f in m.swp.free <==> f in multiset(m.swp.free);
    assert Entry(true, f) == Present(f) && Entry(false, f) == Swapped(f);
  }

  /** Entry e belongs to a page of process p. */
  ghost predicate MappedBy(pt: map<Vpn, Pte>, p: nat, e: Pte) {
    exists g: nat :: Vpn(p, g) in pt && pt[Vpn(p, g)] == e
  }

  lemma MappedSplit(pt: map<Vpn, Pte>, p: nat, e: Pte)
    ensures Mapped(pt, e) <==> MappedBy(pt, p, e) || Mapped(map k | k in pt && k.pid != p :: pt[k], e)
  {
    var rest := map k | k in pt && k.pid != p :: pt[k];
    if k :| k in pt && pt[k] == e {
      assert k.pid != p ==> k in rest && rest[k] == e;
      assert k.pid == p ==> Vpn(p, k.pgn) == k;
    }
    if k :| k in rest && rest[k] == e {
      assert k in pt && pt[k] == e;
    }
  }

  lemma MappedOnce(m: Mem, p: nat, e: Pte)
    requires MemInv(m, multiset{}) && MappedBy(m.pt, p, e)
    ensures !Mapped(map k | k in m.pt && k.pid != p :: m.pt[k], e)
  {
    var g: nat :| Vpn(p, g) in m.pt && m.pt[Vpn(p, g)] == e;
  }

  /** Exit adds to the free lists exactly the frames of the process's present
      pages, the used frames of its kernel symbols and the slots of its swapped
      pages; both lists stay free of repeats. This holds in every reachable
      state, whatever the region accounting is like. */
  lemma ReapReturns(s: Sys, p: nat, order: seq<nat>, f: nat)
    requires BaseInv(s) && p in s.area && p !in s.mem.running && Enumerates(s.mem, p, order)
    ensures var m, m' := s.mem, Step(s, Reap(p, order)).0.mem;
            && (f in m'.ram.free <==>
                f in m.ram.free || MappedBy(m.pt, p, Present(f)) || (f in m.ram.used && BackedBy(s.area[p].sym, f)))
            && (f in m'.swp.free <==> f in m.swp.free || MappedBy(m.pt, p, Swapped(f)))
            && Distinct(m'.ram.free) && Distinct(m'.swp.free)
  {
    hide MemInv;
    hide Mapped;
    hide MappedBy;
    hide BackedBy;
    hide Step;
    var m, m' := s.mem, Step(s, Reap(p, order)).0.mem;
    ReapShape(s, p, order);
    ListsDistinct(m', multiset{});
    FreeIff(m, f);
    FreeIff(m', f);
    MappedSplit(m.pt, p, Present(f));
    MappedSplit(m.pt, p, Swapped(f));
    InRange(m, f);
    if MappedBy(m.pt, p, Present(f)) {
      MappedOnce(m, p, Present(f));
    }
    if MappedBy(m.pt, p, Swapped(f)) {
      MappedOnce(m, p, Swapped(f));
    }
  }

  /** Whatever is owned is a frame or slot of the device, and a mapped frame is
      not a kernel frame. */
  lemma InRange(m: Mem, f: nat)
    requires MemInv(m, multiset{})
    ensures Mapped(m.pt, Present(f)) ==> f < |m.ram.pages| && f !in m.ram.used
    ensures Mapped(m.pt, Swapped(f)) ==> f < |m.swp.pages|
    ensures f in m.ram.used ==> f < |m.ram.pages|
  {
    assert f in m.ram.used ==> f in multiset(m.ram.used);
    var loose := multiset(m.ram.free) + multiset(m.ram.used) + multiset{};
    assert f in multiset(m.ram.used) ==> f in loose;
  }

  /** In every reachable state the FIFO of a process holds its resident pages,
      each once, in the order in which they became resident, newest first. */
  lemma ReachableFifo(ram: seq<seq<Byte>>, swp: seq<seq<Byte>>, ops: seq<Op>, p: nat)
    requires WholePages(ram) && WholePages(swp)
    ensures var m := Run(Boot(ram, swp), ops).mem;
            p in m.fifo ==>
              && Distinct(m.fifo[p])
              && (forall g :: g in m.fifo[p] <==> Resident(m.pt, Vpn(p, g)))
              && (forall g :: g in m.fifo[p] ==> Vpn(p, g) in m.since)
              && (forall i, j :: 0 <= i < j < |m.fifo[p]| ==>
                                   m.since[Vpn(p, m.fifo[p][i])] > m.since[Vpn(p, m.fifo[p][j])])
  {
    hide Partition;
    hide Run;
    BootInv(ram, swp);
    RunKeeps(Boot(ram, swp), ops);
  }

  // ----- kernel memory -----

  /** Process exit would release kernel frame f through one of these symbols. */
  ghost predicate Releases(sym: seq<Region>, f: nat) {
    exists i :: 0 <= i < |sym| && ReleasesBy(sym[i], f)
  }

  ghost predicate ReleasesBy(rg: Region, f: nat) {
    IsKernel(rg) && ReleaseCount(rg.end - rg.start) > 0 && InRun(f, (rg.start - KBASE) / PAGESZ, ReleaseCount(rg.end - rg.start))
  }

  /** The steps that may change the byte at kernel address va. */
  ghost predicate KTouches(s: Sys, op: Op, va: nat) {
    op.pid in s.area && va >= KBASE &&
    match op
    case CopyFromUser(p, _, dst, off, n) => InSpan(s.area[p], dst, off, n, va)
    case Reap(p, _) => Releases(s.area[p].sym, (va - KBASE) / PAGESZ)
    case _ => false
  }

  ghost predicate KFramed(s: Sys, op: Op, s': Sys) {
    forall va: nat :: KByte(s.mem, va).Some? && !KTouches(s, op, va) ==> KByte(s'.mem, va) == KByte(s.mem, va)
  }

  lemma {:induction false} ReleaseKernelView(m: Mem, sym: seq<Region>, f: nat)
    requires MemInv(m, multiset{}) && f in KernelView(m) && !Releases(sym, f)
    ensures var v := KernelView(ReleaseSymbols(m, sym));
            f in v && v[f] == KernelView(m)[f]
    decreases |sym|
  {
    hide MemInv;
    hide ReleaseCount;
    if sym != [] {
      var rg := sym[0];
      assert !ReleasesBy(sym[0], f);
      if IsKernel(rg) && ReleaseCount(rg.end - rg.start) > 0 {
        KReleaseKeeps(m, (rg.start - KBASE) / PAGESZ, ReleaseCount(rg.end - rg.start));
      }
      forall i | 0 <= i < |sym[1..]| ensures !ReleasesBy(sym[1..][i], f) {
        assert sym[1..][i] == sym[i + 1];
      }
      ReleaseKernelView(ReleaseSymbol(m, rg), sym[1..], f);
    }
  }

  lemma KernelPagesExtend(m: Mem, m': Mem)
    requires forall f :: f in KernelView(m) ==> f in KernelView(m') && KernelView(m')[f] == KernelView(m)[f]
    ensures forall va: nat :: KByte(m, va).Some? ==> KByte(m', va) == KByte(m, va)
  {
  }

  lemma ReapKernel(s: Sys, p: nat, order: seq<nat>)
    requires BaseInv(s) && p in s.area && p !in s.mem.running && Enumerates(s.mem, p, order)
    ensures KFramed(s, Reap(p, order), Step(s, Reap(p, order)).0)
  {
    hide MemInv;
    hide KernelView;
    hide Releases;
    var sym := s.area[p].sym;
    var m := ReleaseSymbols(s.mem, sym);
    ReleaseSymbolsKeeps(s.mem, sym);
    ReapUserKeeps(m, p, order);
    hide Enumerates;
    var s' := Step(s, Reap(p, order)).0;
    forall va: nat | KByte(s.mem, va).Some? && !KTouches(s, Reap(p, order), va) ensures KByte(s'.mem, va) == KByte(s.mem, va) {
      ReleaseKernelView(s.mem, sym, (va - KBASE) / PAGESZ);
    }
  }

  lemma InstructionKernel(s: Sys, op: Op)
    requires BaseInv(s) && op.pid in s.area && IsInstruction(op)
    ensures KFramed(s, op, Instruction(s, op).0)
  {
    hide BaseInv;
    hide KByte;
    hide UByte;
    var a := s.area[op.pid];
    match op
    case Alloc(p, rg, size, junk) =>
      AllocStep(s, p, rg, size, junk);
      KernelPagesExtend(s.mem, DoAlloc(s, p, rg, size, junk).0.mem);
    case Free(p, rg) =>
      FreeStep(s, p, rg);
    case Read(p, rg, off) =>
      ReadStep(s, p, UserAddr(a, rg, off));
    case Write(p, rg, off, v) =>
      WriteStep(s, p, UserAddr(a, rg, off), v);
    case IoRead(p, va) =>
      ReadStep(s, p, if va < a.sbrk then Some(va) else None);
    case IoWrite(p, va, v) =>
      WriteStep(s, p, if va < a.sbrk then Some(va) else None, v);
    case Kmalloc(p, rg, size) =>
      KmallocStep(s, p, rg, size);
      KernelPagesExtend(s.mem, DoKmalloc(s, p, rg, size).0.mem);
    case CopyFromUser(p, src, dst, off, n) =>
      CopyFromKernel(s, p, src, dst, off, n);
    case CopyToUser(p, src, dst, off, n) =>
      CopyToStep(s, p, src, dst, off, n);
  }

  lemma CopyFromKernel(s: Sys, p: nat, src: nat, dst: nat, off: nat, n: nat)
    requires BaseInv(s) && p in s.area
    ensures var m' := CopyFrom(s.mem, s.area[p], p, src, dst, off, n).1;
            forall va: nat :: KByte(s.mem, va).Some? && !(va >= KBASE && InSpan(s.area[p], dst, off, n, va)) ==> KByte(m', va) == KByte(s.mem, va)
  {
    hide MemInv;
    CopyFromMoves(s.mem, s.area[p], p, src, dst, off, n);
  }

  lemma LifeCycleKernel(s: Sys, op: Op)
    requires BaseInv(s) && (op.Spawn? || op.Finish?)
    ensures KernelView(Step(s, op).0.mem) == KernelView(s.mem)
  {
    hide MemInv;
  }

  /** A step changes a kernel byte only if it copies user bytes over it or is
      the exit of a process whose symbols cover it. */
  lemma StepKernel(s: Sys, op: Op)
    requires BaseInv(s)
    ensures KFramed(s, op, Step(s, op).0)
  {
    hide BaseInv;
    hide KTouches;
    hide KByte;
    match op
    case Spawn(p) =>
      LifeCycleKernel(s, op);
      KernelPagesExtend(s.mem, Step(s, op).0.mem);
    case Finish(p) =>
      LifeCycleKernel(s, op);
      KernelPagesExtend(s.mem, Step(s, op).0.mem);
    case Reap(p, order) =>
      if p in s.area && p !in s.mem.running && Enumerates(s.mem, p, order) {
        ReapKernel(s, p, order);
      }
    case _ =>
      if op.pid in s.area && op.pid in s.mem.running {
        InstructionKernel(s, op);
      }
  }

  ghost predicate KUntouched(s: Sys, ops: seq<Op>, va: nat)
    decreases |ops|
  {
    ops != [] ==> !KTouches(s, ops[0], va) && KUntouched(Step(s, ops[0]).0, ops[1..], va)
  }

  /** Kernel memory keeps its bytes over whole runs. */
  lemma {:induction false} UntouchedKernelByteStays(s: Sys, ops: seq<Op>, va: nat)
    requires BaseInv(s) && KByte(s.mem, va).Some? && KUntouched(s, ops, va)
    ensures KByte(Run(s, ops).mem, va) == KByte(s.mem, va)
    decreases |ops|
  {
    hide BaseInv;
    hide KByte;
    hide KTouches;
    if ops != [] {
      StepKeeps(s, ops[0]);
      StepKernel(s, ops[0]);
      UntouchedKernelByteStays(Step(s, ops[0]).0, ops[1..], va);
    }
  }
}
