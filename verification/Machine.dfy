/**
 The paging core as it runs: two memory devices and the page tables and FIFO
 lists of all processes, updated in place. Every method is proved against the
 function of module Paging that specifies it, so what Transparency and Runs
 prove about those functions holds of this code.
 */
module Machines {
  import opened Basics
  import opened Devices
  import opened Paging
  import opened Ownership
  import opened Transparency
  import opened KernelFrames
  import opened KernelMemory
  import opened MemPhys

  /** Where pg_getpage and swap_out_victim_page copy: both frames exist, so the
      page copies cannot fail. */
  lemma VictimFrames(m: Mem, held: multiset<nat>, caller: nat)
    requires MemInv(m, held) && m.swp.free != []
    ensures m.swp.free[0] < |m.swp.pages|
    ensures var (v, m1) := FindGlobal(m.(swp := Pop(m.swp)), caller);
            && m1.ram == m.ram && m1.swp == Pop(m.swp) && m1.pt == m.pt
            && (v.Some? ==> m1.pt[v.value].num < |m.ram.pages|)
  {
    hide FifoAged;
    FindGlobalSpec(m.(swp := Pop(m.swp)), caller);
    assert m.swp.free[0] in multiset(m.swp.free);
  }

  lemma SwapInFrames(m: Mem, p: nat, k: Vpn)
    requires MemInv(m, multiset{}) && k in m.pt && m.pt[k].Swapped?
    ensures var (f, m1) := SwapOut(m, p);
            f.Some? ==> f.value < |m1.ram.pages| && m.pt[k].num < |m1.swp.pages|
  {
    SwapOutKeeps(m, multiset{}, p);
    SwapOutSpec(m, multiset{}, p);
    var (f, m1) := SwapOut(m, p);
    if f.Some? {
      HeldAlone(m1, multiset{}, f.value);
    }
  }

  /** The frame pg_getpage returns is a whole frame of RAM. */
  lemma PageFrame(m: Mem, p: nat, pgn: nat)
    requires MemInv(m, multiset{}) && p in m.fifo
    ensures var (f, m1) := GetPage(m, p, pgn);
            f.Some? ==> f.value < |m1.ram.pages|
  {
    hide MemInv;
    GetPageKeeps(m, p, pgn);
    var (f, m1) := GetPage(m, p, pgn);
    if f.Some? {
      FrameBacks(m1, p, pgn, f.value);
    }
  }

  /** A physical address and its frame and offset. */
  lemma PhysicalAddress(f: nat, off: nat)
    requires off < PAGESZ
    ensures (f * PAGESZ + off) / PAGESZ == f && (f * PAGESZ + off) % PAGESZ == off
  {
  }

  class Machine {
    const ram: MemPhy
    const swp: MemPhy
    var pt: map<Vpn, Pte>
    var kpt: map<nat, nat>
    var fifo: map<nat, seq<nat>>
    var running: seq<nat>
    ghost var since: map<Vpn, nat>
    ghost var clock: nat

    ghost predicate Apart() {
      ram != swp && ram.storage != swp.storage
    }

    ghost function View(): (m: Mem)
      reads this, ram, ram.storage, swp, swp.storage
    {
      Mem(ram.View(), swp.View(), pt, kpt, fifo, running, since, clock)
    }

    /** Two formatted devices and no process. */
    constructor (ramsz: nat, swpsz: nat)
      ensures fresh(ram) && fresh(ram.storage) && fresh(swp) && fresh(swp.storage)
      ensures Apart()
      ensures View() == Mem(View().ram, View().swp, map[], map[], map[], [], map[], 0)
      ensures View().ram.free == Upto(ramsz / PAGESZ) && View().ram.used == []
      ensures View().swp.free == Upto(swpsz / PAGESZ) && View().swp.used == []
      ensures |View().ram.pages| == ramsz / PAGESZ && |View().swp.pages| == swpsz / PAGESZ
    {
      ram := new MemPhy(ramsz);
      swp := new MemPhy(swpsz);
      pt, kpt, fifo, running := map[], map[], map[], [];
      since, clock := map[], 0;
    }

    // ----- victim selection -----

    /** find_victim_page: detach the tail of the FIFO list of process p. */
    method FindVictimPage(p: nat) returns (pgn: Option<nat>)
      modifies this`fifo
      ensures if p !in old(fifo) || old(fifo[p]) == [] then pgn.None? && fifo == old(fifo)
              else pgn == Some(Last(old(fifo[p]))) && fifo == old(fifo)[p := DropLast(old(fifo[p]))]
    {
      if p !in fifo || fifo[p] == [] {
        return None;
      }
      pgn := Some(Last(fifo[p]));
      fifo := fifo[p := DropLast(fifo[p])];
    }

    /** find_present_victim_in_proc. */
    method FindPresentVictimInProc(p: nat) returns (v: Option<Vpn>)
      modifies this`fifo
      ensures (v, View()) == FindInProc(old(View()), p)
    {
      while true
        invariant FindInProc(View(), p) == FindInProc(old(View()), p)
        decreases if p in fifo then |fifo[p]| else 0
      {
        var pgn := FindVictimPage(p);
        if pgn.None? {
          return None;
        }
        var k := Vpn(p, pgn.value);
        if k in pt && pt[k].Present? {
          return Some(k);
        }
      }
    }

    /** find_global_victim. */
    method FindGlobalVictim(caller: nat) returns (v: Option<Vpn>)
      modifies this`fifo
      ensures (v, View()) == FindGlobal(old(View()), caller)
    {
      v := FindPresentVictimInProc(caller);
      if v.Some? {
        return;
      }
      var idx := 0;
      while idx < |running|
        invariant idx <= |running|
        invariant ScanRunning(View(), caller, idx) == FindGlobal(old(View()), caller)
      {
        if running[idx] != caller {
          v := FindPresentVictimInProc(running[idx]);
          if v.Some? {
            return;
          }
        }
        idx := idx + 1;
      }
      return None;
    }

    // ----- eviction and frame supply -----

    /** swap_out_victim_page. */
    method SwapOutVictimPage(caller: nat, ghost held: multiset<nat>) returns (f: Option<nat>)
      requires Apart() && MemInv(View(), held)
      modifies this`pt, this`fifo, swp`freeFp, swp.storage
      ensures (f, View()) == SwapOut(old(View()), caller)
    {
      ghost var m := View();
      var slot := swp.GetFreeFp();
      if slot.None? {
        return None;
      }
      VictimFrames(m, held, caller);
      hide MemInv;
      var v := FindGlobalVictim(caller);
      if v.None? {
        swp.PutFreeFp(slot.value);
        return None;
      }
      var fpn := pt[v.value].num;
      var ok := SwapCpPage(ram, fpn, swp, slot.value);
      assert ok;
      pt := pt[v.value := Swapped(slot.value)];
      f := Some(fpn);
    }

    /** release_frame_list. */
    method ReleaseFrameList(fs: seq<nat>)
      requires Apart()
      modifies ram`freeFp
      ensures View() == ReleaseFrames(old(View()), fs)
    {
      hide Pages;
      for i := 0 to |fs|
        invariant ReleaseFrames(View(), fs[i..]) == ReleaseFrames(old(View()), fs)
      {
        assert fs[i..][1..] == fs[i + 1..];
        ram.PutFreeFp(fs[i]);
      }
    }

    /** alloc_pages_range. */
    method AllocPagesRange(caller: nat, n: nat) returns (frames: Option<seq<nat>>)
      requires Apart() && MemInv(View(), multiset{})
      modifies this`pt, this`fifo, ram`freeFp, swp`freeFp, swp.storage
      ensures (frames, View()) == AllocPages(old(View()), caller, n, [])
    {
      hide MemInv;
      hide Pages;
      var list: seq<nat> := [];
      assert multiset(list) == multiset{};
      for pgit := 0 to n
        invariant MemInv(View(), multiset(list))
        invariant AllocPages(View(), caller, n - pgit, list) == AllocPages(old(View()), caller, n, [])
      {
        ghost var m := View();
        TakeFrameKeeps(m, multiset(list), caller);
        var f := ram.GetFreeFp();
        if f.None? {
          f := SwapOutVictimPage(caller, multiset(list));
        }
        assert (f, View()) == TakeFrame(m, caller);
        if f.None? {
          ReleaseFrameList(list);
          return None;
        }
        assert multiset(list + [f.value]) == multiset(list) + multiset{f.value};
        list := list + [f.value];
      }
      frames := Some(list);
    }

    /** pte_set_fpn and enlist_pgn_node. */
    method MakeResident(p: nat, pgn: nat, f: nat)
      modifies this`pt, this`fifo, this`since, this`clock
      ensures View() == MapOne(old(View()), p, pgn, f)
    {
      since, clock := since[Vpn(p, pgn) := clock], clock + 1;
      pt := pt[Vpn(p, pgn) := Present(f)];
      fifo := fifo[p := [pgn] + if p in fifo then fifo[p] else []];
    }

    /** The mapping loop of vmap_page_range. */
    method MapRange(p: nat, pgn: nat, fs: seq<nat>)
      modifies this`pt, this`fifo, this`since, this`clock
      ensures View() == MapFrames(old(View()), p, pgn, fs)
    {
      hide Pages;
      hide MapOne;
      for pgit := 0 to |fs|
        invariant MapFrames(View(), p, pgn + pgit, fs[pgit..]) == MapFrames(old(View()), p, pgn, fs)
      {
        assert fs[pgit..][1..] == fs[pgit + 1..];
        MakeResident(p, pgn + pgit, fs[pgit]);
      }
    }

    // ----- access -----

    /** pg_getpage. */
    method PgGetPage(p: nat, pgn: nat) returns (f: Option<nat>)
      requires Apart() && MemInv(View(), multiset{})
      modifies this`pt, this`fifo, this`since, this`clock, ram.storage, swp`freeFp, swp.storage
      ensures (f, View()) == GetPage(old(View()), p, pgn)
    {
      hide Pages;
      var k := Vpn(p, pgn);
      if k !in pt {
        return None;
      }
      if pt[k].Swapped? {
        var slot := pt[k].num;
        SwapInFrames(View(), p, k);
        hide MemInv;
        var tgt := SwapOutVictimPage(p, multiset{});
        if tgt.None? {
          return None;
        }
        var ok := SwapCpPage(swp, slot, ram, tgt.value);
        assert ok;
        swp.PutFreeFp(slot);
        MakeResident(p, pgn, tgt.value);
      }
      f := Some(pt[k].num);
    }

    /** pg_getval. */
    method PgGetVal(p: nat, va: nat) returns (b: Option<Byte>)
      requires Apart() && MemInv(View(), multiset{}) && p in fifo
      modifies this`pt, this`fifo, this`since, this`clock, ram.storage, swp`freeFp, swp.storage
      ensures (b, View()) == ReadByte(old(View()), p, va)
    {
      hide MemInv;
      hide Pages;
      hide GetPage;
      PageFrame(View(), p, va / PAGESZ);
      var f := PgGetPage(p, va / PAGESZ);
      if f.None? {
        return None;
      }
      PhysicalAddress(f.value, va % PAGESZ);
      b := ram.Read(f.value * PAGESZ + va % PAGESZ);
    }

    /** pg_setval. */
    method PgSetVal(p: nat, va: nat, b: Byte) returns (ok: bool)
      requires Apart() && MemInv(View(), multiset{}) && p in fifo
      modifies this`pt, this`fifo, this`since, this`clock, ram.storage, swp`freeFp, swp.storage
      ensures (ok, View()) == WriteByte(old(View()), p, va, b)
    {
      hide MemInv;
      hide Pages;
      hide GetPage;
      PageFrame(View(), p, va / PAGESZ);
      var f := PgGetPage(p, va / PAGESZ);
      if f.None? {
        return false;
      }
      PhysicalAddress(f.value, va % PAGESZ);
      ok := ram.Write(f.value * PAGESZ + va % PAGESZ, b);
    }

    // ----- kernel memory -----

    /** kernel_alloc_contiguous_region. */
    method KernelAllocContiguous(n: nat) returns (start: Option<nat>)
      requires Apart() && MemInv(View(), multiset{}) && n > 0
      modifies this`kpt, ram`freeFp, ram`usedFp
      ensures start == KernelStart(old(View()).ram.free, n)
      ensures View() == if start.None? then old(View()) else KTake(old(View()), start.value, n)
    {
      hide MemInv;
      hide Pages;
      hide LowestRun;
      hide KernelStart;
      ghost var free := ram.freeFp;
      ListsDistinct(View(), multiset{});
      KernelStartLowest(free, n);
      start := ram.AllocateContiguous(n);
      LowestRunUnique(free, n, start, KernelStart(free, n));
      if start.Some? {
        KernelMapPages(start.value, n);
      }
    }

    /** The kernel_map_page loop. */
    method KernelMapPages(s: nat, n: nat)
      modifies this`kpt
      ensures kpt == old(kpt) + map f | f in FrameRange(s, n) :: f
    {
      for i := 0 to n
        invariant kpt == old(kpt) + map f | f in FrameRange(s, i) :: f
      {
        kpt := kpt[s + i := s + i];
      }
    }

    /** kernel_release_contiguous_region. */
    method KernelRelease(s: nat, n: int)
      requires Apart()
      modifies this`kpt, ram`freeFp, ram`usedFp
      ensures View() == if n <= 0 then old(View()) else KRelease(old(View()), s, n)
    {
      hide Pages;
      if n <= 0 {
        return;
      }
      for i := 0 to n
        modifies this`kpt
        invariant kpt == old(kpt) - FrameRange(s, i)
      {
        kpt := kpt - {s + i};
      }
      ram.ReleaseContiguous(s, n);
    }

    /** The byte access of __read_kernel_mem: translate the address and read the byte behind it. */
    method KernelRead(va: nat) returns (b: Option<Byte>)
      requires Apart() && MemInv(View(), multiset{})
      ensures b == KReadByte(View(), va)
    {
      KFrameIdentity(View(), va);
      hide MemInv;
      hide Pages;
      if va < KBASE || (va - KBASE) / PAGESZ !in kpt {
        return None;
      }
      var f := kpt[(va - KBASE) / PAGESZ];
      PhysicalAddress(f, va % PAGESZ);
      b := ram.Read(f * PAGESZ + va % PAGESZ);
    }

    /** The byte access of __write_kernel_mem. */
    method KernelWrite(va: nat, b: Byte) returns (ok: bool)
      requires Apart() && MemInv(View(), multiset{})
      modifies ram.storage
      ensures (ok, View()) == KWriteByte(old(View()), va, b)
    {
      KFrameIdentity(View(), va);
      hide MemInv;
      hide Pages;
      if va < KBASE || (va - KBASE) / PAGESZ !in kpt {
        return false;
      }
      var f := kpt[(va - KBASE) / PAGESZ];
      PhysicalAddress(f, va % PAGESZ);
      ok := ram.Write(f * PAGESZ + va % PAGESZ, b);
    }

    /** The collecting half of free_pcb_memph, over the pages in walk order. */
    method CollectPages(p: nat, order: seq<nat>)
      requires Apart()
      modifies this`pt, this`fifo, ram`freeFp, swp`freeFp
      ensures View() == ReapUser(old(View()), p, order)
    {
      hide Pages;
      for i := 0 to |order|
        invariant fifo == old(fifo)
        invariant Collect(View(), p, order[i..]) == Collect(old(View()), p, order)
      {
        assert order[i..][1..] == order[i + 1..];
        var k := Vpn(p, order[i]);
        if k in pt {
          if pt[k].Present? {
            ram.PutFreeFp(pt[k].num);
          } else {
            swp.PutFreeFp(pt[k].num);
          }
          pt := pt - {k};
        }
      }
      fifo := fifo - {p};
    }
  }
}
