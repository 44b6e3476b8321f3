/**
 Concrete runs for the conditions of Leaks and Accounting: FREE and ALLOC accept
 a kernel symbol and lose its frame, so the no-leak theorem needs its condition;
 and an ALLOC whose growth cannot be mapped reports success for bytes that do
 not exist, which loses nothing but breaks the region accounting.
 */
module Witnesses {
  import opened Basics
  import opened Devices
  import opened Paging
  import opened KernelFrames
  import opened KernelMemory
  import opened Regions
  import opened System
  import opened Transparency

  function ZeroPage(): (r: seq<Byte>)
    ensures |r| == PAGESZ
  {
    seq(PAGESZ, _ => 0)
  }

  function Symbols(rg: Region): (r: seq<Region>)
    ensures |r| == SYMBOLS
  {
    seq(SYMBOLS, _ => NOREGION)[0 := rg]
  }

  /** One process that owns nothing, on n RAM frames and no swap. */
  function Started(n: nat): (s: Sys) {
    Sys(Mem(Device(seq(n, _ => ZeroPage()), seq(n, i => i), []), Device([], [], []),
            map[], map[], map[1 := []], [1], map[], 0),
        map[1 := Area(0, [], seq(SYMBOLS, _ => NOREGION))])
  }

  lemma Starts(n: nat)
    ensures Step(Boot(seq(n, _ => ZeroPage()), []), Spawn(1)).0 == Started(n)
  {
    var s := Boot(seq(n, _ => ZeroPage()), []);
    assert s.mem.swp.free == [];
    assert s.mem.fifo[1 := []] == map[1 := []];
    assert s.mem.running + [1] == [1];
  }

  lemma RunOne(s: Sys, op: Op, rest: seq<Op>)
    ensures Run(s, [op] + rest) == Run(Step(s, op).0, rest)
  {
  }

  const KERNEL_BYTE: Region := Region(KBASE, KBASE + 1)

  /** Two frames of RAM, the first a kernel block of process 1 in symbol 0. */
  function Kernelled(): (s: Sys) {
    var s := Started(2);
    Sys(s.mem.(ram := Device(s.mem.ram.pages, [1], [0]), kpt := map[0 := 0]),
        map[1 := Area(0, [], Symbols(KERNEL_BYTE))])
  }

  lemma KernelBlock()
    ensures Step(Started(2), Kmalloc(1, 0, 1)).0 == Kernelled()
  {
    var s := Started(2);
    var free := s.mem.ram.free;
    assert free == [0, 1];
    assert Sort(free[1..][1..]) == [] && Sort(free[1..]) == [1];
    assert Sort(free) == [0, 1];
    assert RunAt([0, 1], 0, 1);
    assert KernelStart(free, 1) == Some(0);
    assert Unlink([0, 1], 0) == [1];
    var d := TakeOne(s.mem.ram, 0);
    assert TakeRun(s.mem.ram, 0, 1) == TakeRun(d, 1, 0) == d;
    assert FrameRange(0, 1) == {0};
    assert s.area[1].sym[0 := KERNEL_BYTE] == Symbols(KERNEL_BYTE);
  }

  /** A run on a machine with two frames of RAM in which process 1 takes a
      kernel block, executes `op` and exits; `order` are its pages. */
  function Life(op: Op, order: seq<nat>): (ops: seq<Op>) {
    [Spawn(1)] + ([Kmalloc(1, 0, 1)] + ([op] + ([Finish(1)] + ([Reap(1, order)] + []))))
  }

  lemma LifeRuns(op: Op, order: seq<nat>)
    ensures Run(Boot(seq(2, _ => ZeroPage()), []), Life(op, order)) ==
            Step(Step(Step(Kernelled(), op).0, Finish(1)).0, Reap(1, order)).0
  {
    hide Step;
    Starts(2);
    KernelBlock();
    var s0 := Boot(seq(2, _ => ZeroPage()), []);
    var s3 := Step(Kernelled(), op).0;
    RunOne(s0, Spawn(1), [Kmalloc(1, 0, 1)] + ([op] + ([Finish(1)] + ([Reap(1, order)] + []))));
    RunOne(Started(2), Kmalloc(1, 0, 1), [op] + ([Finish(1)] + ([Reap(1, order)] + [])));
    RunOne(Kernelled(), op, [Finish(1)] + ([Reap(1, order)] + []));
    RunOne(s3, Finish(1), [Reap(1, order)] + []);
    RunOne(Step(s3, Finish(1)).0, Reap(1, order), []);
  }

  lemma {:induction false} NothingToRelease(m: Mem, sym: seq<Region>)
    requires forall i :: 0 <= i < |sym| ==> !IsKernel(sym[i])
    ensures ReleaseSymbols(m, sym) == m
    decreases |sym|
  {
    if sym != [] {
      NothingToRelease(m, sym[1..]);
    }
  }

  /** The exit of a single process that holds no kernel symbol. */
  lemma Exits(s: Sys, order: seq<nat>)
    requires s.area.Keys == {1} && s.mem.running == [1] && 1 in s.mem.fifo
    requires forall i :: 0 <= i < |s.area[1].sym| ==> !IsKernel(s.area[1].sym[i])
    requires Enumerates(s.mem.(running := []), 1, order)
    ensures Step(Step(s, Finish(1)).0, Reap(1, order)).0 == Sys(ReapUser(s.mem.(running := []), 1, order), map[])
  {
    hide Enumerates;
    assert Unlink([1], 1) == [];
    NothingToRelease(s.mem.(running := []), s.area[1].sym);
    assert s.area - {1} == map[];
  }

  /** FREE accepts a kernel block: after the process has exited nobody is left,
      and frame 0 is still on the used list. */
  lemma FreedKernelBlockLeaks()
    ensures var s := Run(Boot(seq(2, _ => ZeroPage()), []), Life(Free(1, 0), []));
            Step(Kernelled(), Free(1, 0)).1 == Done && s.area == map[] && s.mem.ram.used == [0]
  {
    LifeRuns(Free(1, 0), []);
    var s0 := Kernelled();
    var s1 := Step(s0, Free(1, 0)).0;
    assert s1 == Sys(s0.mem, s1.area) && s1.area.Keys == {1} && s1.area[1].sym == Symbols(KERNEL_BYTE)[0 := NOREGION];
    assert Enumerates(s1.mem.(running := []), 1, []);
    Exits(s1, []);
  }

  lemma GrowByOne()
    ensures var s := Grow(Kernelled(), 1, 1, NOREGION);
            && s.area == map[1 := Area(PAGESZ, [Region(0, PAGESZ)], Symbols(KERNEL_BYTE))]
            && s.mem == MapOne(Kernelled().mem.(ram := Pop(Kernelled().mem.ram)), 1, 0, 1)
  {
    var s := Kernelled();
    var m := s.mem.(ram := Pop(s.mem.ram));
    assert PagesFor(1) == 1;
    assert TakeFrame(s.mem, 1) == (Some(1), m);
    assert [] + [1] == [1];
    assert AllocPages(s.mem, 1, 1, []) == AllocPages(m, 1, 0, [1]);
    assert MapFrames(m, 1, 0, [1]) == MapFrames(MapOne(m, 1, 0, 1), 1, 1, []);
    assert Enlist([], Region(0, PAGESZ)) == [Region(0, PAGESZ)];
  }

  /** The state after ALLOC has overwritten the symbol of the kernel block. */
  function Overwritten(): (s: Sys) {
    var m := Kernelled().mem;
    Sys(MapOne(m.(ram := Pop(m.ram)), 1, 0, 1),
        map[1 := Area(PAGESZ, [Region(1, PAGESZ)], Symbols(Region(0, 1)))])
  }

  lemma Overwrites()
    ensures Step(Kernelled(), Alloc(1, 0, 1, NOREGION)) == (Overwritten(), Done)
  {
    hide Grow;
    GrowByOne();
    assert FirstFit([Region(0, PAGESZ)], 1) == Some(0);
    assert Cut([Region(0, PAGESZ)], 0, 1) == [Region(1, PAGESZ)];
    assert Symbols(KERNEL_BYTE)[0 := Region(0, 1)] == Symbols(Region(0, 1));
    var s := Grow(Kernelled(), 1, 1, NOREGION);
    assert Assign(s.area[1], 0, 0, 1) == Overwritten().area[1];
    assert s.area[1 := Overwritten().area[1]] == Overwritten().area;
    assert DoAlloc(Kernelled(), 1, 0, 1, NOREGION) == (Overwritten(), true);
  }

  lemma ExitCollects()
    ensures var m := Overwritten().mem.(running := []);
            && Enumerates(m, 1, [0])
            && Collect(m, 1, [0]).ram.used == [0] && Collect(m, 1, [0]).ram.free == [1]
  {
    var m := Overwritten().mem.(running := []);
    assert m.pt == map[Vpn(1, 0) := Present(1)];
    var m1 := m.(ram := Push(m.ram, 1), pt := m.pt - {Vpn(1, 0)});
    assert Collect(m, 1, [0]) == Collect(m1, 1, []);
  }

  /** ALLOC accepts a symbol that holds a kernel block and overwrites it: frame
      0 is lost in the same way, while the user page comes back. */
  lemma OverwrittenKernelBlockLeaks()
    ensures var s := Run(Boot(seq(2, _ => ZeroPage()), []), Life(Alloc(1, 0, 1, NOREGION), [0]));
            && Step(Kernelled(), Alloc(1, 0, 1, NOREGION)).1 == Done
            && s.area == map[] && s.mem.ram.used == [0] && s.mem.ram.free == [1]
  {
    hide Step;
    hide Collect;
    hide Enumerates;
    LifeRuns(Alloc(1, 0, 1, NOREGION), [0]);
    Overwrites();
    ExitCollects();
    Exits(Overwritten(), [0]);
  }

  /** One frame of RAM, mapped to page 0 of process 1, whose symbol 0 is its first
      byte; the rest of the page is free. */
  function Occupied(): (s: Sys) {
    var m := Started(1).mem;
    Sys(MapOne(m.(ram := Pop(m.ram)), 1, 0, 0),
        map[1 := Area(PAGESZ, [Region(1, PAGESZ)], Symbols(Region(0, 1)))])
  }

  lemma FirstAlloc()
    ensures Step(Started(1), Alloc(1, 0, 1, NOREGION)) == (Occupied(), Done)
  {
    var s := Started(1);
    var m := s.mem.(ram := Pop(s.mem.ram));
    assert s.mem.ram.free == [0];
    assert PagesFor(1) == 1;
    assert TakeFrame(s.mem, 1) == (Some(0), m);
    assert [] + [0] == [0];
    assert AllocPages(s.mem, 1, 1, []) == AllocPages(m, 1, 0, [0]);
    assert MapFrames(m, 1, 0, [0]) == MapFrames(MapOne(m, 1, 0, 0), 1, 1, []);
    assert Enlist([], Region(0, PAGESZ)) == [Region(0, PAGESZ)];
    var a := Area(PAGESZ, [Region(0, PAGESZ)], s.area[1].sym);
    assert Grow(s, 1, 1, NOREGION) == Sys(MapOne(m, 1, 0, 0), s.area[1 := a]);
    assert FirstFit([Region(0, PAGESZ)], 1) == Some(0);
    assert Cut([Region(0, PAGESZ)], 0, 1) == [Region(1, PAGESZ)];
    assert Assign(a, 0, 0, 1) == Occupied().area[1];
    assert s.area[1 := a][1 := Occupied().area[1]] == Occupied().area;
  }

  /** The unset region node, if it happens to look like the page the failed growth
      was for. */
  const JUNK: Region := Region(PAGESZ, 2 * PAGESZ)

  lemma FailedGrowth()
    ensures var s := Grow(Occupied(), 1, PAGESZ, JUNK);
            && s.mem == Occupied().mem
            && s.area == map[1 := Area(2 * PAGESZ, [Region(1, 2 * PAGESZ)], Symbols(Region(0, 1)))]
  {
    var s := Occupied();
    assert s.mem.ram.free == [];
    assert PagesFor(PAGESZ) == 1;
    assert SwapOut(s.mem, 1) == (None, s.mem);
    assert AllocPages(s.mem, 1, 1, []) == (None, s.mem);
    assert Position([Region(1, PAGESZ)][1..], PAGESZ) == 0;
    assert Position([Region(1, PAGESZ)], PAGESZ) == 1;
    assert Enlist([Region(1, PAGESZ)], JUNK) == [Region(1, 2 * PAGESZ)];
  }

  /** RAM is full, there is no swap, and a second ALLOC needs another page: the
      mapping fails, the limit is raised all the same, and the instruction reports
      success for a region whose last byte does not exist. */
  lemma UnbackedAllocSucceeds()
    ensures var s0 := Run(Boot(seq(1, _ => ZeroPage()), []), [Spawn(1)] + ([Alloc(1, 0, 1, NOREGION)] + []));
            var s := Step(s0, Alloc(1, 1, PAGESZ, JUNK));
            && s.1 == Done && s.0.area[1].sym[1] == Region(1, 1 + PAGESZ)
            && Step(s.0, Read(1, 1, PAGESZ - 1)).1 == Failed
  {
    Starts(1);
    FirstAlloc();
    RunOne(Boot(seq(1, _ => ZeroPage()), []), Spawn(1), [Alloc(1, 0, 1, NOREGION)] + []);
    RunOne(Started(1), Alloc(1, 0, 1, NOREGION), []);
    SecondAlloc();
  }

  lemma SecondAlloc()
    ensures var s := Step(Occupied(), Alloc(1, 1, PAGESZ, JUNK));
            && s.1 == Done && 1 in s.0.area && |s.0.area[1].sym| == SYMBOLS && s.0.area[1].sym[1] == Region(1, 1 + PAGESZ)
            && Step(s.0, Read(1, 1, PAGESZ - 1)).1 == Failed
  {
    FailedGrowth();
    var g := Grow(Occupied(), 1, PAGESZ, JUNK);
    hide Grow;
    assert FirstFit([Region(1, PAGESZ)], PAGESZ) == None;
    assert FirstFit([Region(1, 2 * PAGESZ)], PAGESZ) == Some(0);
    var s1 := Step(Occupied(), Alloc(1, 1, PAGESZ, JUNK)).0;
    assert s1.mem == Occupied().mem && s1.area[1].sym[1] == Region(1, 1 + PAGESZ);
    assert UserAddr(s1.area[1], 1, PAGESZ - 1) == Some(PAGESZ);
    assert Vpn(1, 1) !in s1.mem.pt;
    assert ReadByte(s1.mem, 1, PAGESZ).0 == None;
  }
}
