/**
 Swap transparency, step by step: evictions, swap-ins, frame allocation and
 mapping keep the ownership invariant and change no byte that any process or
 the kernel can see.
 */
module Transparency {
  import opened Basics
  import opened Devices
  import opened Paging
  import opened Ownership

  /** No page that exists in `m` changes its bytes in `m'`, user or kernel. */
  ghost predicate SameView(m: Mem, m': Mem) {
    UserView(m') == UserView(m) && KernelView(m') == KernelView(m)
  }

  // ----- eviction -----

  /** The page that swap_out_victim_page evicts from process q. */
  function Oldest(m: Mem, q: nat): (k: Vpn)
    requires q in m.fifo && m.fifo[q] != []
  {
    Vpn(q, Last(m.fifo[q]))
  }

  /** The state after evicting the oldest page of q into the first free slot. */
  function Evict(m: Mem, q: nat): (r: Mem)
    requires q in m.fifo && m.fifo[q] != []
    requires Resident(m.pt, Oldest(m, q))
    requires m.swp.free != []
  {
    var k := Oldest(m, q);
    var slot := m.swp.free[0];
    DropOldest(m, q).(
    swp := SetPage(Pop(m.swp), slot, PageAt(m.ram, m.pt[k].num)),
    pt := m.pt[k := Swapped(slot)])
  }

  lemma OldestResident(m: Mem, q: nat)
    requires FifoExact(m.pt, m.fifo)
    requires q in m.fifo && m.fifo[q] != []
    ensures Resident(m.pt, Oldest(m, q))
  {
  }

  lemma EvictFifo(m: Mem, q: nat)
    requires FifoExact(m.pt, m.fifo)
    requires q in m.fifo && m.fifo[q] != []
    requires Resident(m.pt, Oldest(m, q))
    requires m.swp.free != []
    ensures FifoExact(Evict(m, q).pt, Evict(m, q).fifo)
  {
    var m' := Evict(m, q);
    var was := m.fifo[q];
    assert was == m'.fifo[q] + [Last(was)];
    forall p, g | p in m'.fifo
      ensures g in m'.fifo[p] <==> Resident(m'.pt, Vpn(p, g))
    {
      if p == q {
        assert g in was <==> g in m'.fifo[q] || g == Last(was);
        assert g in was <==> Resident(m.pt, Vpn(p, g));
      } else {
        assert g in m.fifo[p] <==> Resident(m.pt, Vpn(p, g));
      }
    }
  }

  lemma EvictAged(m: Mem, q: nat)
    requires FifoAged(m.fifo, m.since, m.clock)
    requires q in m.fifo && m.fifo[q] != []
    requires Resident(m.pt, Oldest(m, q))
    requires m.swp.free != []
    ensures FifoAged(Evict(m, q).fifo, Evict(m, q).since, Evict(m, q).clock)
  {
  }

  lemma EvictRam(m: Mem, held: multiset<nat>, q: nat)
    requires MemInv(m, held)
    requires q in m.fifo && m.fifo[q] != []
    requires Resident(m.pt, Oldest(m, q))
    requires m.swp.free != []
    ensures Partition(|m.ram.pages|,
                      multiset(m.ram.free) + multiset(m.ram.used) + (held + multiset{m.pt[Oldest(m, q)].num}),
                      Evict(m, q).pt, true)
  {
    var k := Oldest(m, q);
    var loose := multiset(m.ram.free) + multiset(m.ram.used) + held;
    UnmapLoose(|m.ram.pages|, loose, m.pt, Evict(m, q).pt, true, k);
    assert loose + multiset{m.pt[k].num}
        == multiset(m.ram.free) + multiset(m.ram.used) + (held + multiset{m.pt[k].num});
  }

  lemma EvictSwap(m: Mem, held: multiset<nat>, q: nat)
    requires MemInv(m, held)
    requires q in m.fifo && m.fifo[q] != []
    requires Resident(m.pt, Oldest(m, q))
    requires m.swp.free != []
    ensures Partition(|m.swp.pages|, multiset(Evict(m, q).swp.free), Evict(m, q).pt, false)
  {
    HeadTail(m.swp.free);
    MapLoose(|m.swp.pages|, multiset(m.swp.free), m.pt, false, Oldest(m, q), m.swp.free[0]);
    assert multiset(m.swp.free) - multiset{m.swp.free[0]} == multiset(m.swp.free[1..]);
  }

  lemma EvictInv(m: Mem, held: multiset<nat>, q: nat)
    requires MemInv(m, held)
    requires q in m.fifo && m.fifo[q] != []
    requires Resident(m.pt, Oldest(m, q))
    requires m.swp.free != []
    ensures MemInv(Evict(m, q), held + multiset{m.pt[Oldest(m, q)].num})
  {
    hide Partition;
    hide FifoExact;
    EvictAged(m, q);
    hide FifoAged;
    FrameAlone(m, held, Oldest(m, q));
    EvictFifo(m, q);
    EvictRam(m, held, q);
    EvictSwap(m, held, q);
  }

  /** The slot an eviction will use is in range and holds no page. */
  lemma SlotAlone(m: Mem, held: multiset<nat>)
    requires MemInv(m, held) && m.swp.free != []
    ensures m.swp.free[0] < |m.swp.pages|
    ensures forall l :: l in m.pt && m.pt[l].Swapped? ==> m.pt[l].num != m.swp.free[0]
  {
    assert m.swp.free[0] in multiset(m.swp.free);
  }

  /** Page k moves from its frame to a slot that holds nothing. */
  lemma StoredPage(m: Mem, m': Mem, k: Vpn, slot: nat)
    requires Resident(m.pt, k) && slot < |m.swp.pages|
    requires forall l :: l in m.pt && m.pt[l].Swapped? ==> m.pt[l].num != slot
    requires m'.pt == m.pt[k := Swapped(slot)] && m'.kpt == m.kpt && m'.ram == m.ram
    requires m'.swp.pages == m.swp.pages[slot := PageAt(m.ram, m.pt[k].num)]
    ensures SameView(m, m')
  {
    hide UserView;
    hide KernelView;
    SameViewFrom(m, m');
  }

  lemma EvictView(m: Mem, held: multiset<nat>, q: nat)
    requires MemInv(m, held)
    requires q in m.fifo && m.fifo[q] != []
    requires Resident(m.pt, Oldest(m, q))
    requires m.swp.free != []
    ensures SameView(m, Evict(m, q))
  {
    SlotAlone(m, held);
    hide MemInv;
    hide UserView;
    hide KernelView;
    StoredPage(m, Evict(m, q), Oldest(m, q), m.swp.free[0]);
  }

  /** swap_out_victim_page succeeds exactly when a swap slot is free and some
      page of the caller or of the running list is resident; then it evicts
      the oldest page of the victim process, and otherwise changes nothing. */
  lemma SwapOutSpec(m: Mem, held: multiset<nat>, caller: nat)
    requires MemInv(m, held)
    ensures var v := VictimProc(m, caller);
            if m.swp.free == [] || v.None? then SwapOut(m, caller) == (None, m)
            else
              && Resident(m.pt, Oldest(m, v.value))
              && SwapOut(m, caller) == (Some(m.pt[Oldest(m, v.value)].num), Evict(m, v.value))
  {
    if m.swp.free != [] {
      HeadTail(m.swp.free);
      var m0 := m.(swp := Pop(m.swp));
      FindGlobalSpec(m0, caller);
      SameVictim(m, m0, caller, 0);
      var v := VictimProc(m, caller);
      if v.Some? {
        OldestResident(m, v.value);
      }
    }
  }

  lemma SameVictim(m: Mem, m0: Mem, caller: nat, i: nat)
    requires m0.fifo == m.fifo && m0.running == m.running && i <= |m.running|
    ensures FirstResident(m, caller, i) == FirstResident(m0, caller, i)
    decreases |m.running| - i
  {
  }

  /** An eviction keeps the invariant, the freed frame being in flight, and
      changes no visible byte. */
  lemma SwapOutKeeps(m: Mem, held: multiset<nat>, caller: nat)
    requires MemInv(m, held)
    ensures var (f, m') := SwapOut(m, caller);
            && MemInv(m', if f.Some? then held + multiset{f.value} else held)
            && SameView(m, m')
            && m'.running == m.running && m'.fifo.Keys == m.fifo.Keys && m'.pt.Keys == m.pt.Keys
  {
    hide MemInv;
    hide UserView;
    hide KernelView;
    SwapOutSpec(m, held, caller);
    var v := VictimProc(m, caller);
    if m.swp.free != [] && v.Some? {
      EvictInv(m, held, v.value);
      EvictView(m, held, v.value);
    }
  }

  // ----- frame supply -----

  /** The invariant sees a frame list only through the frames on it. */
  lemma Relist(m: Mem, held: multiset<nat>, free': seq<nat>, held': multiset<nat>)
    requires MemInv(m, held)
    requires multiset(free') + held' == multiset(m.ram.free) + held
    ensures var m' := m.(ram := m.ram.(free := free'));
            MemInv(m', held') && SameView(m, m')
  {
    hide Partition;
    hide FifoExact;
    hide FifoAged;
    var used := multiset(m.ram.used);
    assert multiset(free') + used + held' == (multiset(free') + held') + used;
    assert multiset(m.ram.free) + used + held == (multiset(m.ram.free) + held) + used;
  }

  lemma TakeFrameKeeps(m: Mem, held: multiset<nat>, caller: nat)
    requires MemInv(m, held)
    ensures var (f, m') := TakeFrame(m, caller);
            && MemInv(m', if f.Some? then held + multiset{f.value} else held)
            && SameView(m, m')
            && m'.running == m.running && m'.fifo.Keys == m.fifo.Keys && m'.pt.Keys == m.pt.Keys
  {
    if m.ram.free != [] {
      HeadTail(m.ram.free);
      var f := m.ram.free[0];
      Relist(m, held, m.ram.free[1..], held + multiset{f});
    } else {
      SwapOutKeeps(m, held, caller);
    }
  }

  lemma {:induction false} ReleaseKeeps(m: Mem, held: multiset<nat>, fs: seq<nat>)
    requires MemInv(m, held + multiset(fs))
    ensures var m' := ReleaseFrames(m, fs);
            && MemInv(m', held) && SameView(m, m')
            && m' == m.(ram := m'.ram)
            && multiset(m'.ram.free) == multiset(m.ram.free) + multiset(fs)
            && m'.ram.used == m.ram.used && m'.ram.pages == m.ram.pages
    decreases |fs|
  {
    if fs != [] {
      HeadTail(fs);
      var m1 := m.(ram := Push(m.ram, fs[0]));
      Relist(m, held + multiset(fs), [fs[0]] + m.ram.free, held + multiset(fs[1..]));
      ReleaseKeeps(m1, held, fs[1..]);
    } else {
      assert held + multiset(fs) == held;
    }
  }

  /** alloc_pages_range either hands out n frames, now in flight, or puts every
      frame back; in both cases nobody's bytes change. */
  lemma {:induction false} AllocPagesKeeps(m: Mem, caller: nat, n: nat, got: seq<nat>)
    requires MemInv(m, multiset(got))
    ensures var (fs, m') := AllocPages(m, caller, n, got);
            && MemInv(m', if fs.Some? then multiset(fs.value) else multiset{})
            && (fs.Some? ==> |fs.value| == |got| + n && got <= fs.value)
            && SameView(m, m')
            && m'.running == m.running && m'.fifo.Keys == m.fifo.Keys && m'.pt.Keys == m.pt.Keys
    decreases n
  {
    hide MemInv;
    hide UserView;
    hide KernelView;
    if n > 0 {
      TakeFrameKeeps(m, multiset(got), caller);
      var (f, m1) := TakeFrame(m, caller);
      if f.Some? {
        assert multiset(got + [f.value]) == multiset(got) + multiset{f.value};
        AllocPagesKeeps(m1, caller, n - 1, got + [f.value]);
      } else {
        assert multiset{} + multiset(got) == multiset(got);
        ReleaseKeeps(m1, multiset{}, got);
      }
    }
  }

  function Backwards(fs: seq<nat>): (r: seq<nat>)
    ensures |r| == |fs| && forall i :: 0 <= i < |fs| ==> r[i] == fs[|fs| - 1 - i]
  {
    if fs == [] then [] else Backwards(fs[1..]) + [fs[0]]
  }

  /** Released frames come to the head of the free list, the last one first. */
  lemma {:induction false} ReleaseOrder(m: Mem, fs: seq<nat>)
    ensures ReleaseFrames(m, fs).ram.free == Backwards(fs) + m.ram.free
    decreases |fs|
  {
    if fs != [] {
      ReleaseOrder(m.(ram := Push(m.ram, fs[0])), fs[1..]);
      var back := Backwards(fs[1..]);
      assert back + ([fs[0]] + m.ram.free) == (back + [fs[0]]) + m.ram.free;
    }
  }

  /** As long as free frames last, they are handed out from the head of the list. */
  lemma {:induction false} AllocFromFree(m: Mem, caller: nat, n: nat, got: seq<nat>)
    requires n <= |m.ram.free|
    ensures AllocPages(m, caller, n, got) ==
            (Some(got + m.ram.free[..n]), m.(ram := m.ram.(free := m.ram.free[n..])))
    decreases n
  {
    if n > 0 {
      AllocFromFree(m.(ram := Pop(m.ram)), caller, n - 1, got + [m.ram.free[0]]);
      assert got + [m.ram.free[0]] + m.ram.free[1..][..n - 1] == got + m.ram.free[..n];
      assert m.ram.free[1..][n - 1..] == m.ram.free[n..];
    } else {
      assert got + m.ram.free[..0] == got;
    }
  }

  // ----- exactly when frames can be found -----

  /** Resident pages of the processes running[i..], the caller excepted. */
  function OthersResident(m: Mem, caller: nat, i: nat): (r: nat)
    requires i <= |m.running|
    decreases |m.running| - i
  {
    if i == |m.running| then 0
    else
      var q := m.running[i];
      (if q != caller && q in m.fifo then |m.fifo[q]| else 0) + OthersResident(m, caller, i + 1)
  }

  /** All pages that an eviction on behalf of the caller may choose from. */
  function Evictable(m: Mem, caller: nat): (r: nat) {
    (if caller in m.fifo then |m.fifo[caller]| else 0) + OthersResident(m, caller, 0)
  }

  function Min(a: nat, b: nat): nat { if a < b then a else b }

  /** How many frames alloc_pages_range can collect for the caller. */
  function Supply(m: Mem, caller: nat): (r: nat) {
    |m.ram.free| + Min(|m.swp.free|, Evictable(m, caller))
  }

  lemma {:induction false} NoneResident(m: Mem, caller: nat, i: nat)
    requires i <= |m.running|
    ensures FirstResident(m, caller, i).None? <==> OthersResident(m, caller, i) == 0
    ensures FirstResident(m, caller, i).Some? ==>
              && FirstResident(m, caller, i).value != caller
              && FirstResident(m, caller, i).value in m.running[i..]
    decreases |m.running| - i
  {
    if i < |m.running| {
      NoneResident(m, caller, i + 1);
      assert m.running[i..] == [m.running[i]] + m.running[i + 1..];
    }
  }

  lemma {:induction false} DropCounts(m: Mem, m': Mem, caller: nat, q: nat, i: nat)
    requires i <= |m.running| && m'.running == m.running && Distinct(m.running)
    requires q in m.fifo && m.fifo[q] != []
    requires m'.fifo == m.fifo[q := DropLast(m.fifo[q])]
    ensures OthersResident(m', caller, i) ==
            OthersResident(m, caller, i) - (if q != caller && q in m.running[i..] then 1 else 0)
    decreases |m.running| - i
  {
    if i < |m.running| {
      DropCounts(m, m', caller, q, i + 1);
      assert m.running[i..] == [m.running[i]] + m.running[i + 1..];
      if q in m.running[i + 1..] {
        var j :| 0 <= j < |m.running[i + 1..]| && m.running[i + 1..][j] == q;
        assert m.running[i + 1 + j] == q;
      }
    }
  }

  /** Each eviction uses up one candidate. */
  lemma EvictCounts(m: Mem, held: multiset<nat>, caller: nat)
    requires MemInv(m, held)
    requires m.swp.free != []
    ensures VictimProc(m, caller).None? <==> Evictable(m, caller) == 0
    ensures var v := VictimProc(m, caller);
            v.Some? ==>
              && Resident(m.pt, Oldest(m, v.value))
              && Evictable(Evict(m, v.value), caller) == Evictable(m, caller) - 1
  {
    NoneResident(m, caller, 0);
    assert m.running[0..] == m.running;
    var v := VictimProc(m, caller);
    if v.Some? {
      OldestResident(m, v.value);
      DropCounts(m, Evict(m, v.value), caller, v.value, 0);
    }
  }

  /** One frame can be taken exactly when the supply is not empty, and taking
      it lowers the supply by one. */
  lemma TakeFrameSupply(m: Mem, held: multiset<nat>, caller: nat)
    requires MemInv(m, held)
    ensures var (f, m') := TakeFrame(m, caller);
            && (f.Some? <==> Supply(m, caller) > 0)
            && (f.Some? ==> Supply(m', caller) == Supply(m, caller) - 1)
  {
    hide Partition;
    hide FifoExact;
    if m.ram.free == [] {
      SwapOutSpec(m, held, caller);
      if m.swp.free != [] {
        EvictCounts(m, held, caller);
      }
    } else {
      SameCounts(m, TakeFrame(m, caller).1, caller, 0);
    }
  }

  /** alloc_pages_range succeeds exactly when the free frames, together with
      the evictions that swap space and resident pages allow, suffice. */
  lemma {:induction false} AllocPagesExact(m: Mem, caller: nat, n: nat, got: seq<nat>)
    requires MemInv(m, multiset(got))
    ensures AllocPages(m, caller, n, got).0.Some? <==> n <= Supply(m, caller)
    decreases n
  {
    hide MemInv;
    hide Supply;
    if n > 0 {
      var (f, m1) := TakeFrame(m, caller);
      TakeFrameKeeps(m, multiset(got), caller);
      TakeFrameSupply(m, multiset(got), caller);
      if f.Some? {
        assert multiset(got + [f.value]) == multiset(got) + multiset{f.value};
        AllocPagesExact(m1, caller, n - 1, got + [f.value]);
      }
    }
  }

  lemma SameCounts(m: Mem, m': Mem, caller: nat, i: nat)
    requires m'.running == m.running && m'.fifo == m.fifo && i <= |m.running|
    ensures OthersResident(m', caller, i) == OthersResident(m, caller, i)
    decreases |m.running| - i
  {
  }

  // ----- mapping fresh pages -----

  /** Every page of v is still there with the same bytes. */
  ghost predicate Extends(v: map<Vpn, seq<Byte>>, v': map<Vpn, seq<Byte>>) {
    forall k :: k in v ==> k in v' && v'[k] == v[k]
  }

  lemma MapOneExact(m: Mem, p: nat, pgn: nat, f: nat)
    requires FifoExact(m.pt, m.fifo) && p in m.fifo && !Resident(m.pt, Vpn(p, pgn))
    ensures var m' := MapOne(m, p, pgn, f);
            FifoExact(m'.pt, m'.fifo)
  {
  }

  lemma MapOneAged(m: Mem, p: nat, pgn: nat, f: nat)
    requires FifoAged(m.fifo, m.since, m.clock) && p in m.fifo && pgn !in m.fifo[p]
    ensures var m' := MapOne(m, p, pgn, f);
            FifoAged(m'.fifo, m'.since, m'.clock)
  {
    var m' := MapOne(m, p, pgn, f);
    forall q, i | q in m'.fifo && 0 <= i < |m'.fifo[q]|
      ensures Vpn(q, m'.fifo[q][i]) in m'.since && m'.since[Vpn(q, m'.fifo[q][i])] < m'.clock
    {
      if q == p && i > 0 {
        assert m'.fifo[q][i] == m.fifo[p][i - 1];
      }
    }
    forall q, i, j | q in m'.fifo && 0 <= i < j < |m'.fifo[q]|
      ensures m'.since[Vpn(q, m'.fifo[q][i])] > m'.since[Vpn(q, m'.fifo[q][j])]
    {
      if q == p {
        assert m'.fifo[q][j] == m.fifo[p][j - 1];
        if i > 0 {
          assert m'.fifo[q][i] == m.fifo[p][i - 1];
        }
      }
    }
  }

  lemma MapOneFifo(m: Mem, p: nat, pgn: nat, f: nat)
    requires FifoExact(m.pt, m.fifo) && p in m.fifo && !Resident(m.pt, Vpn(p, pgn))
    requires FifoAged(m.fifo, m.since, m.clock)
    ensures var m' := MapOne(m, p, pgn, f);
            FifoExact(m'.pt, m'.fifo) && FifoAged(m'.fifo, m'.since, m'.clock)
  {
    hide FifoAged;
    MapOneExact(m, p, pgn, f);
    MapOneAged(m, p, pgn, f);
  }

  lemma MapOneInv(m: Mem, held: multiset<nat>, p: nat, pgn: nat, f: nat)
    requires MemInv(m, held + multiset{f})
    requires p in m.fifo && Vpn(p, pgn) !in m.pt
    ensures MemInv(MapOne(m, p, pgn, f), held)
  {
    hide Partition;
    var m' := MapOne(m, p, pgn, f);
    var loose := multiset(m.ram.free) + multiset(m.ram.used) + (held + multiset{f});
    MapOneFifo(m, p, pgn, f);
    MapLoose(|m.ram.pages|, loose, m.pt, true, Vpn(p, pgn), f);
    assert loose - multiset{f} == multiset(m.ram.free) + multiset(m.ram.used) + held;
    OtherKind(|m.swp.pages|, multiset(m.swp.free), m.pt, m'.pt, false);
  }

  ghost predicate Fresh(m: Mem, p: nat, pgn: nat, n: nat) {
    forall g :: pgn <= g < pgn + n ==> Vpn(p, g) !in m.pt
  }

  function PageRange(p: nat, pgn: nat, n: nat): (r: set<Vpn>) {
    set g | pgn <= g < pgn + n :: Vpn(p, g)
  }

  /** The page numbers pgn+n-1, ..., pgn: newest first. */
  function Descending(pgn: nat, n: nat): (r: seq<nat>)
    ensures |r| == n && forall i :: 0 <= i < n ==> r[i] == pgn + n - 1 - i
  {
    if n == 0 then [] else [pgn + n - 1] + Descending(pgn, n - 1)
  }

  lemma {:induction false} MapFramesInv(m: Mem, p: nat, pgn: nat, fs: seq<nat>)
    requires MemInv(m, multiset(fs))
    requires p in m.fifo && Fresh(m, p, pgn, |fs|)
    ensures MemInv(MapFrames(m, p, pgn, fs), multiset{})
    decreases |fs|
  {
    hide MemInv;
    if fs == [] {
      assert multiset(fs) == multiset{};
    } else {
      HeadTail(fs);
      assert multiset(fs) == multiset(fs[1..]) + multiset{fs[0]};
      MapOneInv(m, multiset(fs[1..]), p, pgn, fs[0]);
      MapFramesInv(MapOne(m, p, pgn, fs[0]), p, pgn + 1, fs[1..]);
    }
  }

  lemma {:induction false} MapFramesFifo(m: Mem, p: nat, pgn: nat, fs: seq<nat>)
    requires p in m.fifo
    ensures var m' := MapFrames(m, p, pgn, fs);
            m' == m.(pt := m'.pt, fifo := m.fifo[p := Descending(pgn, |fs|) + m.fifo[p]],
            since := m'.since, clock := m.clock + |fs|)
    decreases |fs|
  {
    if fs == [] {
      assert Descending(pgn, 0) + m.fifo[p] == m.fifo[p];
      assert m.fifo == m.fifo[p := m.fifo[p]];
    } else {
      var m1 := MapOne(m, p, pgn, fs[0]);
      MapFramesFifo(m1, p, pgn + 1, fs[1..]);
      assert Descending(pgn + 1, |fs| - 1) + ([pgn] + m.fifo[p]) == Descending(pgn, |fs|) + m.fifo[p];
    }
  }

  /** pt' is pt with the n pages from pgn on mapped to fs, in order. */
  ghost predicate MapsTo(pt: map<Vpn, Pte>, pt': map<Vpn, Pte>, p: nat, pgn: nat, fs: seq<nat>) {
    && pt'.Keys == pt.Keys + PageRange(p, pgn, |fs|)
    && (forall g :: pgn <= g < pgn + |fs| ==> pt'[Vpn(p, g)] == Present(fs[g - pgn]))
    && (forall k :: k in pt && k !in PageRange(p, pgn, |fs|) ==> pt'[k] == pt[k])
  }

  lemma MapsOneMore(pt: map<Vpn, Pte>, pt': map<Vpn, Pte>, p: nat, pgn: nat, fs: seq<nat>)
    requires fs != [] && MapsTo(pt[Vpn(p, pgn) := Present(fs[0])], pt', p, pgn + 1, fs[1..])
    ensures MapsTo(pt, pt', p, pgn, fs)
  {
    assert PageRange(p, pgn, |fs|) == {Vpn(p, pgn)} + PageRange(p, pgn + 1, |fs| - 1);
  }

  lemma {:induction false} MapFramesEntries(m: Mem, p: nat, pgn: nat, fs: seq<nat>)
    ensures MapsTo(m.pt, MapFrames(m, p, pgn, fs).pt, p, pgn, fs)
    decreases |fs|
  {
    if fs != [] {
      var m1 := MapOne(m, p, pgn, fs[0]);
      MapFramesEntries(m1, p, pgn + 1, fs[1..]);
      MapsOneMore(m.pt, MapFrames(m, p, pgn, fs).pt, p, pgn, fs);
    }
  }

  /** The entries and the FIFO after the mapping loop of vmap_page_range: the n
      pages name the n frames in order and sit at the young end of the FIFO. */
  lemma MapFramesMaps(m: Mem, p: nat, pgn: nat, fs: seq<nat>)
    requires p in m.fifo
    ensures var m' := MapFrames(m, p, pgn, fs);
            && MapsTo(m.pt, m'.pt, p, pgn, fs)
            && m' == m.(pt := m'.pt, fifo := m.fifo[p := Descending(pgn, |fs|) + m.fifo[p]],
                     since := m'.since, clock := m.clock + |fs|)
  {
    MapFramesFifo(m, p, pgn, fs);
    MapFramesEntries(m, p, pgn, fs);
  }

  /** Mapping fresh pages touches no existing page. */
  lemma MapFramesView(m: Mem, p: nat, pgn: nat, fs: seq<nat>)
    requires p in m.fifo && Fresh(m, p, pgn, |fs|)
    ensures var m' := MapFrames(m, p, pgn, fs);
            && Extends(UserView(m), UserView(m'))
            && KernelView(m') == KernelView(m)
  {
    MapFramesMaps(m, p, pgn, fs);
  }

  // ----- access -----

  lemma SwapInFifo(m: Mem, k: Vpn, f: nat)
    requires FifoExact(m.pt, m.fifo)
    requires FifoAged(m.fifo, m.since, m.clock)
    requires k in m.pt && m.pt[k].Swapped? && k.pid in m.fifo
    ensures var m' := SwapIn(m, k, m.pt[k].num, f);
            FifoExact(m'.pt, m'.fifo) && FifoAged(m'.fifo, m'.since, m'.clock)
  {
    MapOneFifo(m, k.pid, k.pgn, f);
  }

  /** An in-flight frame backs no user page and no kernel page. */
  lemma HeldAlone(m: Mem, held: multiset<nat>, f: nat)
    requires MemInv(m, held + multiset{f})
    ensures f < |m.ram.pages|
    ensures forall l :: l in m.pt && m.pt[l].Present? ==> m.pt[l].num != f
    ensures f !in m.kpt
    ensures forall g :: g in m.kpt ==> m.kpt[g] != f
  {
    var loose := multiset(m.ram.free) + multiset(m.ram.used) + (held + multiset{f});
    assert f in loose;
    assert f !in multiset(m.ram.used);
  }

  lemma SwapInRam(m: Mem, held: multiset<nat>, k: Vpn, f: nat)
    requires MemInv(m, held + multiset{f})
    requires k in m.pt && m.pt[k].Swapped? && k.pid in m.fifo
    ensures Partition(|m.ram.pages|, multiset(m.ram.free) + multiset(m.ram.used) + held, m.pt[k := Present(f)], true)
  {
    hide Partition;
    var loose := multiset(m.ram.free) + multiset(m.ram.used) + (held + multiset{f});
    assert f in loose;
    MapLoose(|m.ram.pages|, loose, m.pt, true, k, f);
    assert loose - multiset{f} == multiset(m.ram.free) + multiset(m.ram.used) + held;
  }

  lemma SwapInSwap(m: Mem, held: multiset<nat>, k: Vpn, f: nat)
    requires MemInv(m, held + multiset{f})
    requires k in m.pt && m.pt[k].Swapped? && k.pid in m.fifo
    ensures m.pt[k].num < |m.swp.pages|
    ensures Partition(|m.swp.pages|, multiset([m.pt[k].num] + m.swp.free), m.pt[k := Present(f)], false)
  {
    UnmapLoose(|m.swp.pages|, multiset(m.swp.free), m.pt, m.pt[k := Present(f)], false, k);
    assert multiset([m.pt[k].num] + m.swp.free) == multiset(m.swp.free) + multiset{m.pt[k].num};
  }

  lemma SwapInInv(m: Mem, held: multiset<nat>, k: Vpn, f: nat)
    requires MemInv(m, held + multiset{f})
    requires k in m.pt && m.pt[k].Swapped? && k.pid in m.fifo
    ensures MemInv(SwapIn(m, k, m.pt[k].num, f), held)
  {
    hide Partition;
    hide FifoExact;
    SwapInFifo(m, k, f);
    SwapInRam(m, held, k, f);
    SwapInSwap(m, held, k, f);
  }

  lemma SwapInView(m: Mem, held: multiset<nat>, k: Vpn, f: nat)
    requires MemInv(m, held + multiset{f})
    requires k in m.pt && m.pt[k].Swapped? && k.pid in m.fifo
    ensures SameView(m, SwapIn(m, k, m.pt[k].num, f))
  {
    HeldAlone(m, held, f);
    hide MemInv;
    var m' := SwapIn(m, k, m.pt[k].num, f);
    MovedPage(m, m', k, f);
    hide UserView;
    hide KernelView;
  }

  /** Page k moves from its slot to a frame that backs nothing. */
  lemma MovedPage(m: Mem, m': Mem, k: Vpn, f: nat)
    requires k in m.pt && m.pt[k].Swapped? && f < |m.ram.pages|
    requires forall l :: l in m.pt && m.pt[l].Present? ==> m.pt[l].num != f
    requires forall g :: g in m.kpt ==> m.kpt[g] != f
    requires m'.pt == m.pt[k := Present(f)] && m'.kpt == m.kpt && m'.swp.pages == m.swp.pages
    requires m'.ram.pages == m.ram.pages[f := PageAt(m.swp, m.pt[k].num)]
    ensures SameView(m, m')
  {
    hide UserView;
    hide KernelView;
    SameViewFrom(m, m');
  }

  lemma SameViewFrom(m: Mem, m': Mem)
    requires m'.pt.Keys == m.pt.Keys && m'.kpt == m.kpt
    requires forall l :: l in m.pt ==> PageOf(m', m'.pt[l]) == PageOf(m, m.pt[l])
    requires forall f :: f in m.kpt ==> PageAt(m'.ram, m.kpt[f]) == PageAt(m.ram, m.kpt[f])
    ensures SameView(m, m')
  {
  }

  /** When pg_getpage can make the page resident. */
  ghost predicate Reachable(m: Mem, p: nat, pgn: nat) {
    var k := Vpn(p, pgn);
    k in m.pt && (m.pt[k].Swapped? ==> m.swp.free != [] && Evictable(m, p) > 0)
  }

  /** pg_getpage: it succeeds exactly on reachable pages, returns the frame
      that now backs the page, and changes no visible byte. */
  lemma GetPageKeeps(m: Mem, p: nat, pgn: nat)
    requires MemInv(m, multiset{}) && p in m.fifo
    ensures var (f, m') := GetPage(m, p, pgn);
            && MemInv(m', multiset{}) && SameView(m, m')
            && m'.running == m.running && m'.fifo.Keys == m.fifo.Keys && m'.pt.Keys == m.pt.Keys
            && (f.Some? <==> Reachable(m, p, pgn))
            && (f.Some? ==> Vpn(p, pgn) in m'.pt && m'.pt[Vpn(p, pgn)] == Present(f.value))
            && (f.None? ==> m' == m)
  {
    hide Partition;
    hide FifoExact;
    var k := Vpn(p, pgn);
    if k in m.pt && m.pt[k].Swapped? {
      var (f, m1) := SwapOut(m, p);
      SwapOutKeeps(m, multiset{}, p);
      SwapOutSpec(m, multiset{}, p);
      if m.swp.free != [] {
        EvictCounts(m, multiset{}, p);
      }
      if f.Some? {
        var v := VictimProc(m, p).value;
        assert m1 == Evict(m, v);
        assert m1.pt[k] == m.pt[k];
        assert GetPage(m, p, pgn) == (Some(f.value), SwapIn(m1, k, m1.pt[k].num, f.value));
        SwapInInv(m1, multiset{}, k, f.value);
        SwapInView(m1, multiset{}, k, f.value);
      }
    }
  }

  /** The victim of an eviction has been resident at least as long as every
      other resident page of its process. */
  lemma VictimIsOldest(m: Mem, held: multiset<nat>, q: nat, g: nat)
    requires MemInv(m, held)
    requires q in m.fifo && m.fifo[q] != [] && Resident(m.pt, Vpn(q, g))
    ensures Vpn(q, g) in m.since && Oldest(m, q) in m.since
    ensures m.since[Oldest(m, q)] <= m.since[Vpn(q, g)]
    ensures Resident(m.pt, Oldest(m, q)) && m.pt[Oldest(m, q)].num !in m.ram.used
  {
    OldestResident(m, q);
    assert g in m.fifo[q];
    var i :| 0 <= i < |m.fifo[q]| && m.fifo[q][i] == g;
    assert m.pt[Oldest(m, q)].num !in multiset(m.ram.used);
  }

  /** pg_getval: a read succeeds exactly on reachable pages and returns the
      byte of the process's own view; nothing visible changes. */
  lemma ReadByteKeeps(m: Mem, p: nat, va: nat)
    requires MemInv(m, multiset{}) && p in m.fifo
    ensures var (b, m') := ReadByte(m, p, va);
            var k := Vpn(p, va / PAGESZ);
            && MemInv(m', multiset{}) && SameView(m, m')
            && m'.running == m.running && m'.fifo.Keys == m.fifo.Keys && m'.pt.Keys == m.pt.Keys
            && (b.Some? <==> Reachable(m, p, va / PAGESZ))
            && (b.Some? ==> k in UserView(m) && |UserView(m)[k]| == PAGESZ && b.value == UserView(m)[k][va % PAGESZ])
  {
    hide MemInv;
    hide GetPage;
    hide Reachable;
    GetPageKeeps(m, p, va / PAGESZ);
    var (f, m1) := GetPage(m, p, va / PAGESZ);
    if f.Some? {
      FrameBacks(m1, p, va / PAGESZ, f.value);
    }
  }

  lemma FrameBacks(m: Mem, p: nat, pgn: nat, f: nat)
    requires MemInv(m, multiset{})
    requires Vpn(p, pgn) in m.pt && m.pt[Vpn(p, pgn)] == Present(f)
    ensures f < |m.ram.pages| && |m.ram.pages[f]| == PAGESZ
    ensures Vpn(p, pgn) in UserView(m) && UserView(m)[Vpn(p, pgn)] == m.ram.pages[f]
  {
  }

  function PutByte(page: seq<Byte>, off: nat, b: Byte): (r: seq<Byte>) {
    if off < |page| then page[..off] + [b] + page[off + 1..] else page
  }

  lemma SetByteInv(m: Mem, held: multiset<nat>, f: nat, off: nat, b: Byte)
    requires MemInv(m, held)
    ensures MemInv(m.(ram := SetByte(m.ram, f, off, b)), held)
  {
    hide Partition;
    hide FifoExact;
    hide FifoAged;
  }

  /** The frame of a resident page backs nothing else. */
  lemma FrameAlone(m: Mem, held: multiset<nat>, k: Vpn)
    requires MemInv(m, held) && Resident(m.pt, k)
    ensures m.pt[k].num < |m.ram.pages| && |m.ram.pages[m.pt[k].num]| == PAGESZ
    ensures forall l :: l in m.pt && m.pt[l] == m.pt[k] ==> l == k
    ensures forall g :: g in m.kpt ==> m.kpt[g] != m.pt[k].num
  {
  }

  lemma SetPageView(m: Mem, k: Vpn, page: seq<Byte>)
    requires Resident(m.pt, k) && m.pt[k].num < |m.ram.pages|
    requires forall l :: l in m.pt && m.pt[l] == m.pt[k] ==> l == k
    requires forall g :: g in m.kpt ==> m.kpt[g] != m.pt[k].num
    ensures var m' := m.(ram := SetPage(m.ram, m.pt[k].num, page));
            UserView(m') == UserView(m)[k := page] && KernelView(m') == KernelView(m)
  {
  }

  /** Writing one byte of the frame of page k changes that page and no other. */
  lemma SetByteView(m: Mem, k: Vpn, off: nat, b: Byte)
    requires MemInv(m, multiset{})
    requires Resident(m.pt, k) && off < PAGESZ
    ensures var m' := m.(ram := SetByte(m.ram, m.pt[k].num, off, b));
            && UserView(m') == UserView(m)[k := PutByte(UserView(m)[k], off, b)]
            && KernelView(m') == KernelView(m)
  {
    hide MemInv;
    FrameAlone(m, multiset{}, k);
    var page := m.ram.pages[m.pt[k].num];
    SetPageView(m, k, PutByte(page, off, b));
    assert PutByte(page, off, b) == page[off := b];
  }

  /** pg_setval: a write succeeds exactly on reachable pages and changes that
      one byte of that process; a failed write changes nothing. */
  lemma WriteByteKeeps(m: Mem, p: nat, va: nat, b: Byte)
    requires MemInv(m, multiset{}) && p in m.fifo
    ensures var (ok, m') := WriteByte(m, p, va, b);
            var k := Vpn(p, va / PAGESZ);
            && MemInv(m', multiset{})
            && m'.running == m.running && m'.fifo.Keys == m.fifo.Keys && m'.pt.Keys == m.pt.Keys
            && (ok <==> Reachable(m, p, va / PAGESZ))
            && KernelView(m') == KernelView(m)
            && (ok ==> k in UserView(m) && UserView(m') == UserView(m)[k := PutByte(UserView(m)[k], va % PAGESZ, b)])
            && (!ok ==> m' == m)
  {
    hide MemInv;
    hide GetPage;
    hide Reachable;
    GetPageKeeps(m, p, va / PAGESZ);
    var (f, m1) := GetPage(m, p, va / PAGESZ);
    if f.Some? {
      FrameBacks(m1, p, va / PAGESZ, f.value);
      SetByteInv(m1, multiset{}, f.value, va % PAGESZ, b);
      SetByteView(m1, Vpn(p, va / PAGESZ), va % PAGESZ, b);
    }
  }
}
