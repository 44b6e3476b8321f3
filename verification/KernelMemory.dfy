/**
 Kernel pages over the paging core (src/libmem.c:1132-1262): contiguous frames
 mapped one to one above KMEM_VADDR_BASE, byte access through that mapping, and
 release. No kernel operation changes a user byte and no user operation
 changes a kernel byte.
 */
module KernelMemory {
  import opened Basics
  import opened Devices
  import opened Paging
  import opened Ownership
  import opened Transparency
  import opened KernelFrames

  const KBASE: nat := 0xffff_8000_0000_0000

  function FrameRange(start: nat, n: nat): (r: set<nat>) {
    set f | start <= f < start + n && InRun(f, start, n)
  }

  /** kernel_alloc_contiguous_region once the start frame is chosen. */
  function KTake(m: Mem, start: nat, n: nat): (r: Mem) {
    m.(ram := TakeRun(m.ram, start, n),
    kpt := m.kpt + map f | f in FrameRange(start, n) :: f)
  }

  /** kernel_release_contiguous_region. */
  function KRelease(m: Mem, start: nat, n: nat): (r: Mem) {
    m.(ram := ReleaseRun(m.ram, start, n),
    kpt := m.kpt - FrameRange(start, n))
  }

  /** kernel_translate_vaddr: the frame behind a kernel address. */
  function KFrame(m: Mem, va: nat): (r: Option<nat>) {
    if va >= KBASE && (va - KBASE) / PAGESZ in m.kpt then Some(m.kpt[(va - KBASE) / PAGESZ]) else None
  }

  function KReadByte(m: Mem, va: nat): (r: Option<Byte>) {
    match KFrame(m, va)
    case None => None
    case Some(f) => ByteAt(m.ram, f, va % PAGESZ)
  }

  function KWriteByte(m: Mem, va: nat, b: Byte): (r: (bool, Mem)) {
    match KFrame(m, va)
    case None => (false, m)
    case Some(f) =>
      if f < |m.ram.pages| then (true, m.(ram := SetByte(m.ram, f, va % PAGESZ, b))) else (false, m)
  }

  /** The frame lists have no repeats and share no frame. */
  lemma ListsDistinct(m: Mem, held: multiset<nat>)
    requires MemInv(m, held)
    ensures Distinct(m.ram.free) && Distinct(m.ram.used) && Distinct(m.swp.free)
    ensures forall f :: f in m.ram.free ==> f !in m.ram.used
  {
    var loose := multiset(m.ram.free) + multiset(m.ram.used) + held;
    assert forall f :: f in loose ==> loose[f] == 1;
    assert forall f :: f in multiset(m.swp.free) ==> multiset(m.swp.free)[f] == 1;
    forall f | f in multiset(m.ram.free) ensures multiset(m.ram.free)[f] == 1 && f !in multiset(m.ram.used) {
      assert f in loose;
    }
    forall f | f in multiset(m.ram.used) ensures multiset(m.ram.used)[f] == 1 {
      assert f in loose;
    }
    CountDistinct(m.ram.free);
    CountDistinct(m.ram.used);
    CountDistinct(m.swp.free);
    forall f | f in m.ram.free ensures f !in m.ram.used {
      assert f in multiset(m.ram.free);
      assert f !in multiset(m.ram.used);
    }
  }

  lemma SameLoose(m: Mem, m': Mem, held: multiset<nat>)
    requires MemInv(m, held)
    requires m' == m.(ram := m'.ram, kpt := m'.kpt) && m'.ram.pages == m.ram.pages
    requires multiset(m'.ram.free) + multiset(m'.ram.used) == multiset(m.ram.free) + multiset(m.ram.used)
    requires KernelIdentity(m')
    ensures MemInv(m', held)
    ensures UserView(m') == UserView(m)
  {
    hide Partition;
    hide FifoExact;
    hide FifoAged;
  }

  /** A kernel allocation takes free frames only: the invariant holds, no user
      byte changes and the existing kernel pages keep theirs. */
  lemma KTakeKeeps(m: Mem, start: nat, n: nat)
    requires MemInv(m, multiset{}) && RunFree(m.ram.free, start, n)
    ensures var m' := KTake(m, start, n);
            && MemInv(m', multiset{}) && UserView(m') == UserView(m)
            && (forall f :: f in m'.ram.used <==> f in m.ram.used || InRun(f, start, n))
            && m'.kpt.Keys == m.kpt.Keys + FrameRange(start, n)
            && (forall f :: f in KernelView(m) ==> KernelView(m')[f] == KernelView(m)[f])
  {
    var m' := KTake(m, start, n);
    ListsDistinct(m, multiset{});
    TakeRunMoves(m.ram, start, n);
    assert KernelIdentity(m');
    SameLoose(m, m', multiset{});
  }

  /** Releasing kernel frames moves used frames of the range to the free list
      and forgets their pages; nothing else changes. */
  lemma KReleaseKeeps(m: Mem, start: nat, n: nat)
    requires MemInv(m, multiset{})
    ensures var m' := KRelease(m, start, n);
            && MemInv(m', multiset{}) && UserView(m') == UserView(m)
            && (forall f :: f in m'.ram.used <==> f in m.ram.used && !InRun(f, start, n))
            && KernelView(m') == KernelView(m) - FrameRange(start, n)
  {
    var m' := KRelease(m, start, n);
    ListsDistinct(m, multiset{});
    ReleaseRunMoves(m.ram, start, n);
    assert KernelIdentity(m');
    SameLoose(m, m', multiset{});
    assert KernelView(m') == KernelView(m) - FrameRange(start, n);
  }

  /** A kernel address is backed exactly by the frame at its own distance from
      the kernel base. */
  lemma KFrameIdentity(m: Mem, va: nat)
    requires MemInv(m, multiset{})
    ensures KFrame(m, va).Some? <==> va >= KBASE && (va - KBASE) / PAGESZ in m.ram.used
    ensures KFrame(m, va).Some? ==>
              && KFrame(m, va).value < |m.ram.pages|
              && KFrame(m, va).value * PAGESZ + va % PAGESZ == va - KBASE
  {
    assert KBASE % PAGESZ == 0;
    if KFrame(m, va).Some? {
      var f := KFrame(m, va).value;
      assert f in multiset(m.ram.used);
      assert f in multiset(m.ram.free) + multiset(m.ram.used) + multiset{};
      assert (va - KBASE) % PAGESZ == va % PAGESZ;
    }
  }

  /** A kernel write changes one byte of one kernel page and no user byte. */
  lemma KWriteKeeps(m: Mem, va: nat, b: Byte)
    requires MemInv(m, multiset{})
    ensures var (ok, m') := KWriteByte(m, va, b);
            && (ok <==> KFrame(m, va).Some?)
            && MemInv(m', multiset{}) && UserView(m') == UserView(m)
            && m' == m.(ram := m'.ram) && m'.ram.free == m.ram.free && m'.ram.used == m.ram.used
            && (ok ==> var f := (va - KBASE) / PAGESZ;
                       f in KernelView(m) && KernelView(m') == KernelView(m)[f := PutByte(KernelView(m)[f], va % PAGESZ, b)])
            && (!ok ==> m' == m)
  {
    KFrameIdentity(m, va);
    if KFrame(m, va).Some? {
      var f := KFrame(m, va).value;
      SetByteInv(m, multiset{}, f, va % PAGESZ, b);
      KernelFrameAlone(m, f);
      KSetView(m, f, va % PAGESZ, b);
    }
  }

  lemma KernelFrameAlone(m: Mem, f: nat)
    requires MemInv(m, multiset{}) && f in m.kpt
    ensures forall k :: k in m.pt && m.pt[k].Present? ==> m.pt[k].num != f
    ensures f < |m.ram.pages| && |m.ram.pages[f]| == PAGESZ
  {
    assert f in multiset(m.ram.used);
    assert f in multiset(m.ram.free) + multiset(m.ram.used) + multiset{};
  }

  lemma KSetView(m: Mem, f: nat, off: nat, b: Byte)
    requires KernelIdentity(m) && f in m.kpt && off < PAGESZ
    requires f < |m.ram.pages| && |m.ram.pages[f]| == PAGESZ
    requires forall k :: k in m.pt && m.pt[k].Present? ==> m.pt[k].num != f
    ensures var m' := m.(ram := SetByte(m.ram, f, off, b));
            && UserView(m') == UserView(m)
            && KernelView(m') == KernelView(m)[f := PutByte(KernelView(m)[f], off, b)]
  {
    var m' := m.(ram := SetByte(m.ram, f, off, b));
    assert PutByte(m.ram.pages[f], off, b) == m'.ram.pages[f];
    assert UserView(m') == UserView(m);
    assert KernelView(m') == KernelView(m)[f := PutByte(KernelView(m)[f], off, b)];
  }

  /** A kernel read returns the byte of the kernel view. */
  lemma KReadMeans(m: Mem, va: nat)
    requires MemInv(m, multiset{})
    ensures KReadByte(m, va).Some? <==> KFrame(m, va).Some?
    ensures KReadByte(m, va).Some? ==>
              var f := (va - KBASE) / PAGESZ;
              f in KernelView(m) && |KernelView(m)[f]| == PAGESZ && KReadByte(m, va).value == KernelView(m)[f][va % PAGESZ]
  {
    KFrameIdentity(m, va);
    if KFrame(m, va).Some? {
      KernelFrameAlone(m, KFrame(m, va).value);
    }
  }

  // ----- process exit, user half -----

  /** pcb_memph_collect_recursive: each present frame goes to the RAM free
      list, each swapped slot to the swap free list, in the given page order. */
  function Collect(m: Mem, p: nat, order: seq<nat>): (r: Mem)
    decreases |order|
  {
    if order == [] then m
    else
      var k := Vpn(p, order[0]);
      if k !in m.pt then Collect(m, p, order[1..])
      else if m.pt[k].Present? then
        Collect(m.(ram := Push(m.ram, m.pt[k].num), pt := m.pt - {k}), p, order[1..])
      else
        Collect(m.(swp := Push(m.swp, m.pt[k].num), pt := m.pt - {k}), p, order[1..])
  }

  /** free_pcb_memph, user half: collect every page, drop the FIFO. */
  function ReapUser(m: Mem, p: nat, order: seq<nat>): (r: Mem) {
    var m1 := Collect(m, p, order);
    m1.(fifo := m1.fifo - {p})
  }

  /** `order` visits each page of process p once. */
  ghost predicate Enumerates(m: Mem, p: nat, order: seq<nat>) {
    && Distinct(order)
    && (forall g :: g in order <==> Vpn(p, g) in m.pt)
  }

  ghost predicate BothPartitions(m: Mem) {
    && Partition(|m.ram.pages|, multiset(m.ram.free) + multiset(m.ram.used), m.pt, true)
    && Partition(|m.swp.pages|, multiset(m.swp.free), m.pt, false)
  }

  lemma CollectOnePresent(m: Mem, k: Vpn)
    requires BothPartitions(m) && Resident(m.pt, k)
    ensures BothPartitions(m.(ram := Push(m.ram, m.pt[k].num), pt := m.pt - {k}))
  {
    var f := m.pt[k].num;
    UnmapLoose(|m.ram.pages|, multiset(m.ram.free) + multiset(m.ram.used), m.pt, m.pt - {k}, true, k);
    OtherKind(|m.swp.pages|, multiset(m.swp.free), m.pt, m.pt - {k}, false);
    assert multiset([f] + m.ram.free) + multiset(m.ram.used) == multiset(m.ram.free) + multiset(m.ram.used) + multiset{f};
  }

  lemma CollectOneSwapped(m: Mem, k: Vpn)
    requires BothPartitions(m) && k in m.pt && m.pt[k].Swapped?
    ensures BothPartitions(m.(swp := Push(m.swp, m.pt[k].num), pt := m.pt - {k}))
  {
    var f := m.pt[k].num;
    UnmapLoose(|m.swp.pages|, multiset(m.swp.free), m.pt, m.pt - {k}, false, k);
    OtherKind(|m.ram.pages|, multiset(m.ram.free) + multiset(m.ram.used), m.pt, m.pt - {k}, true);
    assert multiset([f] + m.swp.free) == multiset(m.swp.free) + multiset{f};
  }

  lemma {:induction false} CollectPartitions(m: Mem, p: nat, order: seq<nat>)
    requires BothPartitions(m)
    ensures BothPartitions(Collect(m, p, order))
    decreases |order|
  {
    hide BothPartitions;
    if order != [] {
      var k := Vpn(p, order[0]);
      if k !in m.pt {
        CollectPartitions(m, p, order[1..]);
      } else if m.pt[k].Present? {
        CollectOnePresent(m, k);
        CollectPartitions(m.(ram := Push(m.ram, m.pt[k].num), pt := m.pt - {k}), p, order[1..]);
      } else {
        CollectOneSwapped(m, k);
        CollectPartitions(m.(swp := Push(m.swp, m.pt[k].num), pt := m.pt - {k}), p, order[1..]);
      }
    }
  }

  lemma {:induction false} CollectShape(m: Mem, p: nat, order: seq<nat>)
    ensures var m' := Collect(m, p, order);
            && m' == m.(ram := m'.ram, swp := m'.swp, pt := m'.pt)
            && m'.ram.pages == m.ram.pages && m'.ram.used == m.ram.used
            && m'.swp.pages == m.swp.pages && m'.swp.used == m.swp.used
            && m'.pt == m.pt - (set g | g in order :: Vpn(p, g))
    decreases |order|
  {
    if order == [] {
      assert m.pt - (set g | g in order :: Vpn(p, g)) == m.pt;
    } else {
      var k := Vpn(p, order[0]);
      var m1 := if k !in m.pt then m
      else if m.pt[k].Present? then m.(ram := Push(m.ram, m.pt[k].num), pt := m.pt - {k})
      else m.(swp := Push(m.swp, m.pt[k].num), pt := m.pt - {k});
      CollectShape(m1, p, order[1..]);
      assert order == [order[0]] + order[1..];
      assert (set g | g in order :: Vpn(p, g)) == {k} + (set g | g in order[1..] :: Vpn(p, g));
      assert m.pt - (set g | g in order :: Vpn(p, g)) == m1.pt - (set g | g in order[1..] :: Vpn(p, g));
    }
  }

  lemma ReapPages(m: Mem, p: nat, order: seq<nat>)
    requires Enumerates(m, p, order)
    ensures Collect(m, p, order).pt == (map k | k in m.pt && k.pid != p :: m.pt[k])
  {
    CollectShape(m, p, order);
    forall k | k in m.pt ensures k in (set g | g in order :: Vpn(p, g)) <==> k.pid == p {
      if k.pid == p {
        assert k == Vpn(p, k.pgn);
        assert k.pgn in order;
      }
    }
  }

  lemma ReapPartitions(m: Mem, p: nat, order: seq<nat>)
    requires MemInv(m, multiset{})
    ensures var m' := ReapUser(m, p, order);
            && Partition(|m'.ram.pages|, multiset(m'.ram.free) + multiset(m'.ram.used) + multiset{}, m'.pt, true)
            && Partition(|m'.swp.pages|, multiset(m'.swp.free), m'.pt, false)
  {
    hide Partition;
    assert multiset(m.ram.free) + multiset(m.ram.used) + multiset{} == multiset(m.ram.free) + multiset(m.ram.used);
    CollectPartitions(m, p, order);
    var m' := ReapUser(m, p, order);
    assert multiset(m'.ram.free) + multiset(m'.ram.used) + multiset{} == multiset(m'.ram.free) + multiset(m'.ram.used);
  }

  lemma ReapInv(m: Mem, p: nat, order: seq<nat>)
    requires MemInv(m, multiset{}) && p in m.fifo && p !in m.running && Enumerates(m, p, order)
    ensures MemInv(ReapUser(m, p, order), multiset{})
  {
    hide Partition;
    hide FifoExact;
    hide FifoAged;
    hide Enumerates;
    ReapPartitions(m, p, order);
    CollectShape(m, p, order);
    ReapPages(m, p, order);
    ReapFifo(m, ReapUser(m, p, order), p);
  }

  /** Process exit returns exactly the frames and slots of its own pages: the
      invariant holds without them, and every other page keeps its bytes. */
  lemma ReapUserKeeps(m: Mem, p: nat, order: seq<nat>)
    requires MemInv(m, multiset{}) && p in m.fifo && p !in m.running && Enumerates(m, p, order)
    ensures var m' := ReapUser(m, p, order);
            && MemInv(m', multiset{})
            && m'.fifo.Keys == m.fifo.Keys - {p} && m'.running == m.running
            && m'.pt == (map k | k in m.pt && k.pid != p :: m.pt[k])
            && UserView(m') == (map k | k in UserView(m) && k.pid != p :: UserView(m)[k])
            && KernelView(m') == KernelView(m)
            && m'.ram.used == m.ram.used
            && |m'.ram.pages| == |m.ram.pages| && |m'.swp.pages| == |m.swp.pages|
  {
    hide MemInv;
    hide Enumerates;
    ReapInv(m, p, order);
    CollectShape(m, p, order);
    ReapPages(m, p, order);
  }

  lemma ReapFifo(m: Mem, m': Mem, p: nat)
    requires FifoExact(m.pt, m.fifo) && FifoAged(m.fifo, m.since, m.clock)
    requires m'.pt == (map k | k in m.pt && k.pid != p :: m.pt[k])
    requires m'.fifo == m.fifo - {p} && m'.since == m.since && m'.clock == m.clock
    ensures FifoExact(m'.pt, m'.fifo) && FifoAged(m'.fifo, m'.since, m'.clock)
  {
  }
}
