/**
 What is lost for good. User frames and swap slots always come back; a kernel
 frame is lost exactly when ALLOC or FREE drops the kernel symbol it belongs to.
 A run of any length without such a step leaks nothing, whatever else its
 programs do: allocations may fail, symbols that hold user regions may be
 overwritten, and the region accounting may be broken.
 */
module Leaks {
  import opened Basics
  import opened Devices
  import opened Paging
  import opened Ownership
  import opened Transparency
  import opened KernelFrames
  import opened KernelMemory
  import opened Regions
  import opened System
  import opened Bytes
  import opened Runs
  import opened Accounting
  import opened Coverage

  // ----- which step drops a kernel frame -----

  /** The region that ALLOC would hand out, if any. */
  function Given(s: Sys, p: nat, size: nat, junk: Region): (rg: Option<Region>)
    requires p in s.area
  {
    var a := s.area[p];
    match FirstFit(a.free, size)
    case Some(i) => Some(Region(a.free[i].start, a.free[i].start + size))
    case None =>
      var a1 := Grow(s, p, size, junk).area[p];
      match FirstFit(a1.free, size)
      case Some(i) => Some(Region(a1.free[i].start, a1.free[i].start + size))
      case None => None
  }

  lemma AllocGives(s: Sys, p: nat, rg: nat, size: nat, junk: Region)
    requires BaseInv(s) && p in s.area && rg < |s.area[p].sym| && size > 0
    ensures var (s', ok) := DoAlloc(s, p, rg, size, junk);
            var given := Given(s, p, size, junk);
            && (ok <==> given.Some?)
            && s'.area.Keys == s.area.Keys
            && (forall q :: q in s.area && q != p ==> s'.area[q] == s.area[q])
            && s'.area[p].sym == (if ok then s.area[p].sym[rg := given.value] else s.area[p].sym)
            && s'.mem.ram.used == s.mem.ram.used
  {
    hide BaseInv;
    hide Cut;
    hide Grow;
    GrowUsed(s, p, size, junk);
    GrowSymbols(s, p, size, junk);
  }

  /** The step drops a frame of the kernel symbol it targets: ALLOC replaces the
      symbol by a region without that frame, or FREE clears it. */
  ghost predicate Loses(s: Sys, op: Op) {
    op.pid in s.area && op.pid in s.mem.running &&
    var a := s.area[op.pid];
    match op
    case Alloc(p, rg, size, junk) =>
      && rg < |a.sym| && size > 0 && Given(s, p, size, junk).Some?
      && exists f: nat :: Backs(a.sym[rg], f) && !Backs(Given(s, p, size, junk).value, f)
    case Free(_, rg) => rg < |a.sym| && IsKernel(a.sym[rg])
    case _ => false
  }

  /** A program that never targets a kernel symbol with ALLOC or FREE loses
      nothing. */
  lemma UserTargetsLoseNothing(s: Sys, op: Op)
    requires op.pid in s.area
    requires op.Alloc? || op.Free? ==> op.rg >= |s.area[op.pid].sym| || !IsKernel(s.area[op.pid].sym[op.rg])
    ensures !Loses(s, op)
  {
  }

  /** Where everything is laid out apart, a served ALLOC loses a frame exactly
      when it overwrites a kernel symbol. */
  lemma OverwriteLoses(s: Sys, p: nat, rg: nat, size: AllocSize, junk: Region)
    requires ApartInv(s) && p in s.area && p in s.mem.running && rg < |s.area[p].sym| && size > 0 && Serves(s, p, size)
    ensures Loses(s, Alloc(p, rg, size, junk)) <==> IsKernel(s.area[p].sym[rg])
  {
    hide BaseInv;
    hide CanGrow;
    hide Backed;
    hide KernelApart;
    hide Grow;
    hide Laid;
    ServedHandsOutUser(s, p, rg, size, junk);
    hide Given;
    if IsKernel(s.area[p].sym[rg]) {
      assert Backs(s.area[p].sym[rg], FirstFrame(s.area[p].sym[rg]));
    }
  }

  // ----- every step -----

  lemma AllocKeepsBacked(s: Sys, p: nat, rg: nat, size: AllocSize, junk: Region)
    requires BaseInv(s) && AllBacked(s.mem.ram.used, s.area) && p in s.area && p in s.mem.running
    requires !Loses(s, Alloc(p, rg, size, junk))
    ensures AllBacked(DoAlloc(s, p, rg, size, junk).0.mem.ram.used, DoAlloc(s, p, rg, size, junk).0.area)
  {
    hide BaseInv;
    hide AllBacked;
    hide Backs;
    if rg < |s.area[p].sym| && size > 0 {
      AllocGives(s, p, rg, size, junk);
      hide Given;
      var s' := DoAlloc(s, p, rg, size, junk).0;
      hide DoAlloc;
      KeepBacked(s.mem.ram.used, s.area, s'.area);
    }
  }

  lemma FreeKeepsBacked(s: Sys, p: nat, rg: nat)
    requires AllBacked(s.mem.ram.used, s.area) && p in s.area
    requires rg < |s.area[p].sym| ==> !IsKernel(s.area[p].sym[rg])
    ensures AllBacked(DoFree(s, p, rg).0.mem.ram.used, DoFree(s, p, rg).0.area)
  {
    hide AllBacked;
    hide Enlist;
    KeepBacked(s.mem.ram.used, s.area, DoFree(s, p, rg).0.area);
  }

  lemma KmallocKeepsBacked(s: Sys, p: nat, rg: nat, size: nat)
    requires BaseInv(s) && AllBacked(s.mem.ram.used, s.area) && p in s.area
    ensures AllBacked(DoKmalloc(s, p, rg, size).0.mem.ram.used, DoKmalloc(s, p, rg, size).0.area)
  {
    hide BaseInv;
    hide AllBacked;
    hide KernelStart;
    hide Backs;
    var a := s.area[p];
    if rg < |a.sym| && size > 0 && a.sym[rg] == NOREGION {
      var f := KernelStart(s.mem.ram.free, PagesFor(size));
      if f.Some? {
        KmallocShape(s, p, rg, size);
        var block := Region(KBASE + f.value * PAGESZ, KBASE + f.value * PAGESZ + size);
        var s' := DoKmalloc(s, p, rg, size).0;
        hide DoKmalloc;
        KmallocBacked(s.mem.ram.used, s'.mem.ram.used, s.area, p, rg, block);
      }
    }
  }

  /** A step that drops no kernel symbol keeps every used frame reachable for
      release, in any reachable state. */
  lemma StepKeepsBacked(s: Sys, op: Op)
    requires BaseInv(s) && AllBacked(s.mem.ram.used, s.area) && !Loses(s, op)
    ensures AllBacked(Step(s, op).0.mem.ram.used, Step(s, op).0.area)
  {
    hide BaseInv;
    hide AllBacked;
    match op
    case Spawn(p) =>
      if p !in s.area {
        SpawnBacked(s.mem.ram.used, s.area, p, Area(0, [], seq(SYMBOLS, _ => NOREGION)));
      }
    case Finish(p) =>
    case Reap(p, order) =>
      if p in s.area && p !in s.mem.running && Enumerates(s.mem, p, order) {
        ReapShape(s, p, order);
        ReapBacked(s.mem.ram.used, Step(s, op).0.mem.ram.used, s.area, p);
      }
    case Alloc(p, rg, size, junk) =>
      if p in s.area && p in s.mem.running {
        AllocKeepsBacked(s, p, rg, size, junk);
      }
    case Free(p, rg) =>
      if p in s.area && p in s.mem.running {
        FreeKeepsBacked(s, p, rg);
      }
    case Kmalloc(p, rg, size) =>
      if p in s.area && p in s.mem.running {
        KmallocKeepsBacked(s, p, rg, size);
      }
    case _ =>
      if op.pid in s.area && op.pid in s.mem.running {
        InstructionShape(s, op);
      }
  }

  /** A used frame that no symbol backs any more. */
  ghost predicate Lost(s: Sys, f: nat) {
    f in s.mem.ram.used && !BackedBySome(s.area, f)
  }

  lemma LosingAlloc(s: Sys, p: nat, rg: nat, size: AllocSize, junk: Region) returns (f: nat)
    requires BaseInv(s) && KernelApart(s.mem.ram.used, s.area) && Loses(s, Alloc(p, rg, size, junk))
    ensures Lost(DoAlloc(s, p, rg, size, junk).0, f)
  {
    hide BaseInv;
    hide KernelApart;
    hide Backs;
    AllocGives(s, p, rg, size, junk);
    f :| Backs(s.area[p].sym[rg], f) && !Backs(Given(s, p, size, junk).value, f);
    hide Given;
    LostFrame(s.mem.ram.used, s.area, DoAlloc(s, p, rg, size, junk).0.area, p, rg, f);
  }

  lemma LosingFree(s: Sys, p: nat, rg: nat) returns (f: nat)
    requires KernelApart(s.mem.ram.used, s.area) && p in s.area && rg < |s.area[p].sym| && IsKernel(s.area[p].sym[rg])
    ensures Lost(DoFree(s, p, rg).0, f)
  {
    hide KernelApart;
    hide Enlist;
    f := FirstFrame(s.area[p].sym[rg]);
    LostFrame(s.mem.ram.used, s.area, DoFree(s, p, rg).0.area, p, rg, f);
  }

  /** Where kernel symbols own the used frames, each frame of one symbol, a step
      loses a frame if and only if it overwrites or frees a kernel symbol. */
  lemma StepLeaks(s: Sys, op: Op)
    requires BaseInv(s) && KernelApart(s.mem.ram.used, s.area) && AllBacked(s.mem.ram.used, s.area)
    ensures (exists f: nat :: Lost(Step(s, op).0, f)) <==> Loses(s, op)
  {
    if Loses(s, op) {
      var f := LosingStep(s, op);
      assert Lost(Step(s, op).0, f);
    } else {
      StepKeepsBacked(s, op);
    }
  }

  lemma LosingStep(s: Sys, op: Op) returns (f: nat)
    requires BaseInv(s) && KernelApart(s.mem.ram.used, s.area) && Loses(s, op)
    ensures Lost(Step(s, op).0, f)
  {
    hide BaseInv;
    hide KernelApart;
    if op.Alloc? {
      f := LosingAlloc(s, op.pid, op.rg, op.size, op.junk);
    } else {
      f := LosingFree(s, op.pid, op.rg);
    }
  }

  // ----- KMALLOC -----

  /** KMALLOC into an empty symbol succeeds exactly when enough consecutive
      frames are free; the block starts at the lowest such frame, has the
      requested size, and every byte of it exists. */
  lemma KmallocExact(s: Sys, p: nat, rg: nat, size: nat)
    requires BaseInv(s) && p in s.area && rg < |s.area[p].sym| && size > 0
    ensures var (s', ok) := DoKmalloc(s, p, rg, size);
            var free := s.mem.ram.free;
            && (ok <==> s.area[p].sym[rg] == NOREGION && exists f: nat :: RunFree(free, f, PagesFor(size)))
            && (!ok ==> s' == s)
            && (ok ==> exists f: nat ::
                    && LowestRun(free, PagesFor(size), Some(f))
                    && s'.area == s.area[p := s.area[p].(sym := s.area[p].sym[rg := Region(KBASE + f * PAGESZ, KBASE + f * PAGESZ + size)])]
                    && forall x: nat :: KBASE + f * PAGESZ <= x < KBASE + f * PAGESZ + size ==> KByte(s'.mem, x).Some?)
  {
    hide MemInv;
    hide KTake;
    hide KernelStart;
    hide KByte;
    var n := PagesFor(size);
    var f := KernelStart(s.mem.ram.free, n);
    ListsDistinct(s.mem, multiset{});
    KernelStartLowest(s.mem.ram.free, n);
    if s.area[p].sym[rg] == NOREGION && f.Some? {
      assert RunFree(s.mem.ram.free, f.value, n);
      BlockExists(s.mem, f.value, size);
    }
  }

  lemma BlockExists(m: Mem, f: nat, size: nat)
    requires MemInv(m, multiset{}) && RunFree(m.ram.free, f, PagesFor(size))
    ensures forall x: nat :: KBASE + f * PAGESZ <= x < KBASE + f * PAGESZ + size ==>
                               KByte(KTake(m, f, PagesFor(size)), x).Some?
  {
    hide MemInv;
    hide KTake;
    var m' := KTake(m, f, PagesFor(size));
    KTakeKeeps(m, f, PagesFor(size));
    forall x: nat | KBASE + f * PAGESZ <= x < KBASE + f * PAGESZ + size ensures KByte(m', x).Some? {
      assert InRun((x - KBASE) / PAGESZ, f, PagesFor(size));
      KFrameIdentity(m', x);
      KReadMeans(m', x);
      KReadBytes(m', x);
    }
  }

  // ----- the devices keep their sizes -----

  lemma KmallocSizes(s: Sys, p: nat, rg: nat, size: nat)
    requires BaseInv(s) && p in s.area
    ensures SameSizes(s.mem, DoKmalloc(s, p, rg, size).0.mem)
  {
    hide MemInv;
    hide KernelStart;
    if size > 0 {
      ListsDistinct(s.mem, multiset{});
      KernelStartLowest(s.mem.ram.free, PagesFor(size));
      var f := KernelStart(s.mem.ram.free, PagesFor(size));
      if f.Some? {
        TakeRunMoves(s.mem.ram, f.value, PagesFor(size));
      }
    }
  }

  lemma AllocSizes(s: Sys, p: nat, rg: nat, size: nat, junk: Region)
    requires BaseInv(s) && p in s.area
    ensures SameSizes(s.mem, DoAlloc(s, p, rg, size, junk).0.mem)
  {
    hide BaseInv;
    GrowUsed(s, p, size, junk);
  }

  lemma StepSizes(s: Sys, op: Op)
    requires BaseInv(s)
    ensures SameSizes(s.mem, Step(s, op).0.mem)
  {
    hide BaseInv;
    match op
    case Spawn(p) =>
    case Finish(p) =>
    case Reap(p, order) =>
      if p in s.area && p !in s.mem.running && Enumerates(s.mem, p, order) {
        ReapShape(s, p, order);
      }
    case Free(p, rg) =>
    case Alloc(p, rg, size, junk) =>
      if p in s.area && p in s.mem.running {
        AllocSizes(s, p, rg, size, junk);
      }
    case Kmalloc(p, rg, size) =>
      if p in s.area && p in s.mem.running {
        KmallocSizes(s, p, rg, size);
      }
    case _ =>
      if op.pid in s.area && op.pid in s.mem.running {
        InstructionShape(s, op);
      }
  }

  lemma {:induction false} RunSizes(s: Sys, ops: seq<Op>)
    requires BaseInv(s)
    ensures SameSizes(s.mem, Run(s, ops).mem)
    decreases |ops|
  {
    hide BaseInv;
    if ops != [] {
      StepKeeps(s, ops[0]);
      StepSizes(s, ops[0]);
      RunSizes(Step(s, ops[0]).0, ops[1..]);
    }
  }

  // ----- whole runs -----

  /** No step of the run drops a frame of a kernel symbol. */
  ghost predicate Lossless(s: Sys, ops: seq<Op>)
    decreases |ops|
  {
    ops != [] ==> !Loses(s, ops[0]) && Lossless(Step(s, ops[0]).0, ops[1..])
  }

  lemma {:induction false} LosslessBacked(s: Sys, ops: seq<Op>)
    requires BaseInv(s) && AllBacked(s.mem.ram.used, s.area) && Lossless(s, ops)
    ensures AllBacked(Run(s, ops).mem.ram.used, Run(s, ops).area)
    decreases |ops|
  {
    hide BaseInv;
    hide AllBacked;
    hide Loses;
    if ops != [] {
      StepKeeps(s, ops[0]);
      StepKeepsBacked(s, ops[0]);
      LosslessBacked(Step(s, ops[0]).0, ops[1..]);
    }
  }

  /** With no process left, every swap slot is free, and every RAM frame is
      free or on the kernel's used list, whatever the programs did. */
  lemma AllExited(s: Sys)
    requires BaseInv(s) && s.area == map[]
    ensures s.mem.pt == map[]
    ensures forall f: nat :: f < |s.mem.swp.pages| <==> f in s.mem.swp.free
    ensures forall f: nat :: f < |s.mem.ram.pages| <==> f in s.mem.ram.free || f in s.mem.ram.used
    ensures Distinct(s.mem.ram.free) && Distinct(s.mem.swp.free)
  {
    var m := s.mem;
    ListsDistinct(m, multiset{});
    assert m.pt.Keys == {};
    forall f: nat ensures f < |m.swp.pages| <==> f in m.swp.free {
      assert f in m.swp.free <==> f in multiset(m.swp.free);
      assert f < |m.swp.pages| ==> f in multiset(m.swp.free) || Mapped(m.pt, Entry(false, f));
    }
    forall f: nat ensures f < |m.ram.pages| <==> f in m.ram.free || f in m.ram.used {
      var loose := multiset(m.ram.free) + multiset(m.ram.used) + multiset{};
      assert f in loose <==> f in multiset(m.ram.free) || f in multiset(m.ram.used);
      assert f < |m.ram.pages| ==> f in loose || Mapped(m.pt, Entry(true, f));
    }
  }

  lemma NothingUsed(s: Sys)
    requires AllBacked(s.mem.ram.used, s.area) && s.area == map[]
    ensures s.mem.ram.used == []
  {
    if s.mem.ram.used != [] {
      SomeIn(s.mem.ram.used);
    }
  }

  /** No leak: after a run of any length that drops no kernel symbol and in which
      every process has exited, RAM and swap are entirely free again. */
  lemma NoLeak(ram: seq<seq<Byte>>, swp: seq<seq<Byte>>, ops: seq<Op>)
    requires WholePages(ram) && WholePages(swp)
    requires Lossless(Boot(ram, swp), ops)
    requires Run(Boot(ram, swp), ops).area == map[]
    ensures var m := Run(Boot(ram, swp), ops).mem;
            && m.ram.used == [] && m.pt == map[]
            && (forall f: nat :: f < |ram| <==> f in m.ram.free)
            && (forall f: nat :: f < |swp| <==> f in m.swp.free)
            && Distinct(m.ram.free) && Distinct(m.swp.free)
  {
    hide BaseInv;
    hide Lossless;
    BootInv(ram, swp);
    RunKeeps(Boot(ram, swp), ops);
    RunSizes(Boot(ram, swp), ops);
    LosslessBacked(Boot(ram, swp), ops);
    var s := Run(Boot(ram, swp), ops);
    NothingUsed(s);
    AllExited(s);
  }

  // ----- and exactly then -----

  /** ALLOC never hands out kernel addresses. It could only take them from a
      kernel region that FREE put on the free list, or from an unset node. */
  ghost predicate HandsOutUser(s: Sys, op: Op) {
    && op.Alloc? && op.pid in s.area && op.pid in s.mem.running && op.rg < |s.area[op.pid].sym| && op.size > 0
    && Given(s, op.pid, op.size, op.junk).Some? ==>
      !IsKernel(Given(s, op.pid, op.size, op.junk).value)
  }

  lemma AllocKeepsKernel(s: Sys, p: nat, rg: nat, size: AllocSize, junk: Region)
    requires BaseInv(s) && p in s.area && p in s.mem.running && HandsOutUser(s, Alloc(p, rg, size, junk))
    ensures var s' := DoAlloc(s, p, rg, size, junk).0;
            && s'.mem.ram.used == s.mem.ram.used && SameTables(s.area, s'.area)
            && (forall q: nat, j: nat :: HasSymbol(s.area, q, j) ==>
                                           s'.area[q].sym[j] == s.area[q].sym[j] || !IsKernel(s'.area[q].sym[j]))
  {
    hide BaseInv;
    if rg < |s.area[p].sym| && size > 0 {
      AllocGives(s, p, rg, size, junk);
      hide Given;
    }
  }

  /** What a step can do to kernel symbols: keep or drop them, add one of unused
      frames, or release those of a process together with their frames. */
  lemma StepKeepsKernelApart(s: Sys, op: Op)
    requires BaseInv(s) && KernelApart(s.mem.ram.used, s.area) && HandsOutUser(s, op)
    ensures KernelApart(Step(s, op).0.mem.ram.used, Step(s, op).0.area)
  {
    hide BaseInv;
    hide KernelApart;
    match op
    case Spawn(p) =>
      if p !in s.area {
        SpawnKernelApart(s.mem.ram.used, s.area, p, Area(0, [], seq(SYMBOLS, _ => NOREGION)));
      }
    case Finish(p) =>
    case Reap(p, order) =>
      if p in s.area && p !in s.mem.running && Enumerates(s.mem, p, order) {
        ReapShape(s, p, order);
        ReapKernelApart(s.mem.ram.used, Step(s, op).0.mem.ram.used, s.area, p);
      }
    case Alloc(p, rg, size, junk) =>
      if p in s.area && p in s.mem.running {
        AllocKeepsKernel(s, p, rg, size, junk);
        ApartSymbols(s.mem.ram.used, s.area, DoAlloc(s, p, rg, size, junk).0.area);
      }
    case Free(p, rg) =>
      if p in s.area && p in s.mem.running {
        ApartSymbols(s.mem.ram.used, s.area, DoFree(s, p, rg).0.area);
      }
    case Kmalloc(p, rg, size) =>
      if p in s.area && p in s.mem.running {
        KmallocKeepsApart(s, p, rg, size);
      }
    case _ =>
      if op.pid in s.area && op.pid in s.mem.running {
        InstructionShape(s, op);
      }
  }

  lemma KmallocKeepsApart(s: Sys, p: nat, rg: nat, size: nat)
    requires BaseInv(s) && KernelApart(s.mem.ram.used, s.area) && p in s.area
    ensures KernelApart(DoKmalloc(s, p, rg, size).0.mem.ram.used, DoKmalloc(s, p, rg, size).0.area)
  {
    hide BaseInv;
    hide KernelApart;
    hide KernelStart;
    hide Backs;
    var a := s.area[p];
    if rg < |a.sym| && size > 0 && a.sym[rg] == NOREGION {
      var f := KernelStart(s.mem.ram.free, PagesFor(size));
      if f.Some? {
        KmallocShape(s, p, rg, size);
        var block := Region(KBASE + f.value * PAGESZ, KBASE + f.value * PAGESZ + size);
        var s' := DoKmalloc(s, p, rg, size).0;
        hide DoKmalloc;
        KmallocKernelApart(s.mem.ram.used, s'.mem.ram.used, s.area, p, rg, block);
      }
    }
  }

  /** Dropping symbols, or giving them user regions, backs no new frame. */
  lemma StaysUnbacked(area: map<nat, Area>, area': map<nat, Area>, f: nat)
    requires !BackedBySome(area, f) && SameTables(area, area')
    requires forall q: nat, j: nat :: HasSymbol(area, q, j) ==> area'[q].sym[j] == area[q].sym[j] || !Backs(area'[q].sym[j], f)
    ensures !BackedBySome(area', f)
  {
    hide Backs;
    forall q: nat, j: nat | HasSymbol(area', q, j) ensures !Backs(area'[q].sym[j], f) {
      assert HasSymbol(area, q, j);
    }
  }

  lemma KmallocStaysLost(s: Sys, p: nat, rg: nat, size: nat, f: nat)
    requires BaseInv(s) && p in s.area && Lost(s, f)
    ensures Lost(DoKmalloc(s, p, rg, size).0, f)
  {
    hide BaseInv;
    hide KernelStart;
    hide Backs;
    hide BackedBySome;
    var a := s.area[p];
    if rg < |a.sym| && size > 0 && a.sym[rg] == NOREGION {
      var start := KernelStart(s.mem.ram.free, PagesFor(size));
      if start.Some? {
        KmallocShape(s, p, rg, size);
        var s' := DoKmalloc(s, p, rg, size).0;
        hide DoKmalloc;
        StaysUnbacked(s.area, s'.area, f);
      }
    }
  }

  lemma ReapStaysLost(s: Sys, p: nat, order: seq<nat>, f: nat)
    requires BaseInv(s) && p in s.area && p !in s.mem.running && Enumerates(s.mem, p, order) && Lost(s, f)
    ensures Lost(Step(s, Reap(p, order)).0, f)
  {
    hide BaseInv;
    hide Backs;
    ReapShape(s, p, order);
    var s' := Step(s, Reap(p, order)).0;
    hide Step;
    hide Enumerates;
    forall q: nat, j: nat | HasSymbol(s'.area, q, j) ensures !Backs(s'.area[q].sym[j], f) {
      assert HasSymbol(s.area, q, j);
    }
    forall i | 0 <= i < |s.area[p].sym| ensures !Backs(s.area[p].sym[i], f) {
      assert HasSymbol(s.area, p, i);
    }
  }

  /** A lost frame stays lost. */
  lemma StaysLost(s: Sys, op: Op, f: nat)
    requires BaseInv(s) && Lost(s, f) && HandsOutUser(s, op)
    ensures Lost(Step(s, op).0, f)
  {
    hide BaseInv;
    hide BackedBySome;
    match op
    case Spawn(p) =>
      if p !in s.area {
        SpawnStaysLost(s.area, p, Area(0, [], seq(SYMBOLS, _ => NOREGION)), f);
      }
    case Finish(p) =>
    case Reap(p, order) =>
      if p in s.area && p !in s.mem.running && Enumerates(s.mem, p, order) {
        ReapStaysLost(s, p, order, f);
      }
    case Alloc(p, rg, size, junk) =>
      if p in s.area && p in s.mem.running {
        AllocKeepsKernel(s, p, rg, size, junk);
        StaysUnbacked(s.area, DoAlloc(s, p, rg, size, junk).0.area, f);
      }
    case Free(p, rg) =>
      if p in s.area && p in s.mem.running {
        StaysUnbacked(s.area, DoFree(s, p, rg).0.area, f);
      }
    case Kmalloc(p, rg, size) =>
      if p in s.area && p in s.mem.running {
        KmallocStaysLost(s, p, rg, size, f);
      }
    case _ =>
      if op.pid in s.area && op.pid in s.mem.running {
        InstructionShape(s, op);
      }
  }

  lemma SpawnStaysLost(area: map<nat, Area>, p: nat, a: Area, f: nat)
    requires !BackedBySome(area, f) && p !in area
    requires forall i :: 0 <= i < |a.sym| ==> !IsKernel(a.sym[i])
    ensures !BackedBySome(area[p := a], f)
  {
    var area' := area[p := a];
    forall q: nat, j: nat | HasSymbol(area', q, j) ensures !Backs(area'[q].sym[j], f) {
      assert q != p ==> HasSymbol(area, q, j);
    }
  }

  ghost predicate HandsOutUserAlways(s: Sys, ops: seq<Op>)
    decreases |ops|
  {
    ops != [] ==> HandsOutUser(s, ops[0]) && HandsOutUserAlways(Step(s, ops[0]).0, ops[1..])
  }

  lemma {:induction false} LostForGood(s: Sys, ops: seq<Op>, f: nat)
    requires BaseInv(s) && Lost(s, f) && HandsOutUserAlways(s, ops)
    ensures Lost(Run(s, ops), f)
    decreases |ops|
  {
    hide BaseInv;
    hide Lost;
    hide HandsOutUser;
    if ops != [] {
      StepKeeps(s, ops[0]);
      StaysLost(s, ops[0], f);
      LostForGood(Step(s, ops[0]).0, ops[1..], f);
    }
  }

  lemma {:induction false} LossyRunLoses(s: Sys, ops: seq<Op>) returns (f: nat)
    requires BaseInv(s) && KernelApart(s.mem.ram.used, s.area)
    requires HandsOutUserAlways(s, ops) && !Lossless(s, ops)
    ensures Lost(Run(s, ops), f)
    decreases |ops|
  {
    hide BaseInv;
    hide Lost;
    hide HandsOutUser;
    hide Loses;
    hide KernelApart;
    var s1 := Step(s, ops[0]).0;
    StepKeeps(s, ops[0]);
    if Loses(s, ops[0]) {
      f := LosingStep(s, ops[0]);
      LostForGood(s1, ops[1..], f);
    } else {
      StepKeepsKernelApart(s, ops[0]);
      f := LossyRunLoses(s1, ops[1..]);
    }
  }

  /** As long as ALLOC hands out user addresses only, a run in which every process
      has exited leaves RAM entirely free if and only if it dropped no kernel
      symbol. */
  lemma LeaksExactly(ram: seq<seq<Byte>>, swp: seq<seq<Byte>>, ops: seq<Op>)
    requires WholePages(ram) && WholePages(swp)
    requires HandsOutUserAlways(Boot(ram, swp), ops)
    requires Run(Boot(ram, swp), ops).area == map[]
    ensures Run(Boot(ram, swp), ops).mem.ram.used == [] <==> Lossless(Boot(ram, swp), ops)
  {
    hide Lossless;
    hide HandsOutUserAlways;
    hide Run;
    if Lossless(Boot(ram, swp), ops) {
      NoLeak(ram, swp, ops);
    } else {
      BootApart(ram, swp);
      var f := LossyRunLoses(Boot(ram, swp), ops);
    }
  }

  // ----- orderly runs -----

  /** The step is an ALLOC into a symbol that holds a kernel region. */
  ghost predicate TargetsKernel(s: Sys, op: Op) {
    && op.Alloc? && op.pid in s.area && op.pid in s.mem.running
    && op.rg < |s.area[op.pid].sym| && op.size > 0 && IsKernel(s.area[op.pid].sym[op.rg])
  }

  ghost predicate NeverTargetsKernel(s: Sys, ops: seq<Op>)
    decreases |ops|
  {
    ops != [] ==> !TargetsKernel(s, ops[0]) && NeverTargetsKernel(Step(s, ops[0]).0, ops[1..])
  }

  /** Where everything is laid out apart, a served ALLOC hands out user addresses. */
  lemma ServedHandsOutUser(s: Sys, p: nat, rg: nat, size: AllocSize, junk: Region)
    requires ApartInv(s) && p in s.area && rg < |s.area[p].sym| && size > 0 && Serves(s, p, size)
    ensures Given(s, p, size, junk).Some? && !IsKernel(Given(s, p, size, junk).value)
  {
    hide BaseInv;
    hide CanGrow;
    hide Backed;
    hide KernelApart;
    hide Grow;
    hide Laid;
    AllocServed(s, p, rg, size, junk);
    var s1 := if FirstFit(s.area[p].free, size).Some? then s else Grow(s, p, size, junk);
    if FirstFit(s.area[p].free, size).None? {
      GrowApart(s, p, size, junk);
    }
    AssignLaid(s1.area[p], rg, FirstFit(s1.area[p].free, size).value, size);
  }

  lemma OrderlyLoses(s: Sys, op: Op)
    requires ApartInv(s) && Orderly(s, op)
    ensures HandsOutUser(s, op) && (Loses(s, op) <==> TargetsKernel(s, op))
  {
    hide ApartInv;
    hide Serves;
    hide Given;
    hide Backs;
    match op
    case Alloc(p, rg, size, junk) =>
      if p in s.area && p in s.mem.running && rg < |s.area[p].sym| && size > 0 {
        ServedHandsOutUser(s, p, rg, size, junk);
        OverwriteLoses(s, p, rg, size, junk);
      }
    case _ =>
  }

  lemma {:induction false} OrderlyRunLoses(s: Sys, ops: seq<Op>)
    requires ApartInv(s) && OrderlyRun(s, ops)
    ensures HandsOutUserAlways(s, ops) && (Lossless(s, ops) <==> NeverTargetsKernel(s, ops))
    decreases |ops|
  {
    hide ApartInv;
    hide Orderly;
    hide HandsOutUser;
    hide Loses;
    hide TargetsKernel;
    if ops != [] {
      OrderlyLoses(s, ops[0]);
      StepApart(s, ops[0]);
      OrderlyRunLoses(Step(s, ops[0]).0, ops[1..]);
    }
  }

  /** After an orderly run in which every process has exited, RAM is entirely free
      if and only if no ALLOC targeted a kernel symbol. */
  lemma OrderlyLeaksExactly(ram: seq<seq<Byte>>, swp: seq<seq<Byte>>, ops: seq<Op>)
    requires WholePages(ram) && WholePages(swp)
    requires OrderlyRun(Boot(ram, swp), ops)
    requires Run(Boot(ram, swp), ops).area == map[]
    ensures Run(Boot(ram, swp), ops).mem.ram.used == [] <==> NeverTargetsKernel(Boot(ram, swp), ops)
  {
    BootApart(ram, swp);
    OrderlyRunLoses(Boot(ram, swp), ops);
    LeaksExactly(ram, swp, ops);
    hide *;
  }
}
