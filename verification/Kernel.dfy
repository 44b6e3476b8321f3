/**
 The memory instructions as they run: region lists, symbol tables and area
 limits updated in place on top of the paging machine. Every method is proved
 against the function of module System that specifies it; Execute and FreePcbMemph
 tie the whole to the step relation of the run theorems.
 */
module Kernels {
  import opened Basics
  import opened Devices
  import opened Paging
  import opened Ownership
  import opened Transparency
  import opened KernelFrames
  import opened KernelMemory
  import opened MemPhys
  import opened Machines
  import opened Regions
  import opened System
  import opened Bytes
  import opened Runs
  import SlabCache

  // ----- the free region list -----

  /** enlist_vm_rg_node: sorted insert that merges with both neighbours. */
  method EnlistVmRgNode(list: seq<Region>, rg: Region) returns (r: seq<Region>)
    ensures r == Enlist(list, rg)
  {
    if rg.start >= rg.end {
      return list;
    }
    var pos := 0;
    while pos < |list| && list[pos].start < rg.start
      invariant pos <= |list|
      invariant forall i :: 0 <= i < pos ==> list[i].start < rg.start
    {
      pos := pos + 1;
    }
    assert pos == Position(list, rg.start);
    var prev, node, next := list[..pos], rg, list[pos..];
    if next != [] && node.end == next[0].start {
      node, next := Region(node.start, next[0].end), next[1..];
    }
    if prev != [] && Last(prev).end == node.start {
      node, prev := Region(Last(prev).start, node.end), DropLast(prev);
    }
    r := prev + [node] + next;
  }

  /** get_free_vmrg_area: the region cut off the first node with room. */
  method GetFreeVmrgArea(list: seq<Region>, size: nat) returns (rg: Option<Region>, r: seq<Region>)
    ensures match FirstFit(list, size)
            case None => rg == None && r == list
            case Some(i) => rg == Some(Region(list[i].start, list[i].start + size)) && r == Cut(list, i, size)
  {
    for i := 0 to |list|
      invariant forall j :: 0 <= j < i ==> !Fits(list[j], size)
    {
      var it := list[i];
      if it.start + size <= it.end {
        rg := Some(Region(it.start, it.start + size));
        if it.start + size < it.end {
          r := list[i := Region(it.start + size, it.end)];
        } else if i + 1 < |list| {
          r := list[..i] + list[i + 1..];
        } else {
          r := list[i := Region(it.end, it.end)];
        }
        return;
      }
    }
    return None, list;
  }

  class Kernel {
    const mach: Machine
    var area: map<nat, Area>

    ghost function View(): (s: Sys)
      reads this, mach, mach.ram, mach.ram.storage, mach.swp, mach.swp.storage
    {
      Sys(mach.View(), area)
    }

    /** A machine just started: every frame free, no process. */
    constructor (ramsz: nat, swpsz: nat)
      ensures fresh(mach) && mach.Apart()
      ensures BaseInv(View())
      ensures var m := View().mem;
              View() == Boot(m.ram.pages, m.swp.pages) && |m.ram.pages| == ramsz / PAGESZ && |m.swp.pages| == swpsz / PAGESZ
    {
      mach := new Machine(ramsz, swpsz);
      area := map[];
      new;
      var m := mach.View();
      assert m.ram.free == seq(|m.ram.pages|, i => i);
      assert m.swp.free == seq(|m.swp.pages|, i => i);
      BootInv(m.ram.pages, m.swp.pages);
    }

    // ----- ALLOC and FREE -----

    /** inc_vma_limit, with `junk` the content of the region node that a failed
        mapping leaves unset. */
    method IncVmaLimit(p: nat, size: nat, junk: Region)
      requires mach.Apart() && BaseInv(View()) && p in area
      modifies this, mach, mach.ram, mach.swp, mach.swp.storage
      ensures View() == Grow(old(View()), p, size, junk)
    {
      hide BaseInv;
      hide Pages;
      hide Enlist;
      hide AllocPages;
      hide MapFrames;
      hide ReleaseFrames;
      var a := area[p];
      var n := PagesFor(size);
      var end := a.sbrk + n * PAGESZ;
      var frames := mach.AllocPagesRange(p, n) by { Based(View()); }
      var node := junk;
      if frames.Some? {
        if Mappable(a.sbrk, n) {
          mach.MapRange(p, a.sbrk / PAGESZ, frames.value);
          node := Region(a.sbrk, end);
        } else {
          mach.ReleaseFrameList(frames.value);
        }
      }
      var list := EnlistVmRgNode(a.free, node);
      area := area[p := Area(end, list, a.sym)];
    }

    /** One lookup of __alloc: cut the region off the free list and record it. */
    method Place(p: nat, rg: nat, size: nat) returns (ok: bool)
      requires p in area && rg < |area[p].sym|
      modifies this`area
      ensures match FirstFit(old(area[p].free), size)
              case None => !ok && area == old(area)
              case Some(i) => ok && area == old(area)[p := Assign(old(area[p]), rg, i, size)]
    {
      var node, list := GetFreeVmrgArea(area[p].free, size);
      if node.None? {
        return false;
      }
      area := area[p := Area(area[p].sbrk, list, area[p].sym[rg := node.value])];
      ok := true;
    }

    /** __alloc. */
    method Alloc(p: nat, rg: nat, size: nat, junk: Region) returns (ok: bool)
      requires mach.Apart() && BaseInv(View()) && p in area
      modifies this, mach, mach.ram, mach.swp, mach.swp.storage
      ensures (View(), ok) == DoAlloc(old(View()), p, rg, size, junk)
    {
      hide BaseInv;
      hide Pages;
      hide Assign;
      hide Grow;
      if rg >= |area[p].sym| || size == 0 {
        return false;
      }
      ok := Place(p, rg, size);
      if !ok {
        GrowSymbols(View(), p, size, junk);
        IncVmaLimit(p, size, junk);
        ok := Place(p, rg, size);
      }
    }

    /** __free. */
    method Free(p: nat, rg: nat) returns (ok: bool)
      requires p in area
      modifies this
      ensures (View(), ok) == DoFree(old(View()), p, rg)
    {
      var a := area[p];
      if rg >= |a.sym| || a.sym[rg] == NOREGION {
        return false;
      }
      var list := EnlistVmRgNode(a.free, a.sym[rg]);
      area := area[p := Area(a.sbrk, list, a.sym[rg := NOREGION])];
      ok := true;
    }

    // ----- byte access -----

    method ReadAddr(p: nat, va: Option<nat>) returns (b: Option<Byte>)
      requires mach.Apart() && BaseInv(View()) && p in area
      modifies mach, mach.ram.storage, mach.swp, mach.swp.storage
      ensures (b, mach.View()) == ReadAt(old(mach.View()), p, va)
      ensures BaseInv(View())
    {
      hide MemInv;
      hide Pages;
      if va.None? {
        return None;
      }
      ReadStep(View(), p, va);
      b := mach.PgGetVal(p, va.value);
    }

    method WriteAddr(p: nat, va: Option<nat>, b: Byte) returns (ok: bool)
      requires mach.Apart() && BaseInv(View()) && p in area
      modifies mach, mach.ram.storage, mach.swp, mach.swp.storage
      ensures (ok, mach.View()) == WriteAt(old(mach.View()), p, va, b)
      ensures BaseInv(View())
    {
      hide MemInv;
      hide Pages;
      if va.None? {
        return false;
      }
      WriteStep(View(), p, va, b);
      ok := mach.PgSetVal(p, va.value, b);
    }

    // ----- kernel memory -----

    /** __kmalloc. */
    method Kmalloc(p: nat, rg: nat, size: nat) returns (ok: bool)
      requires mach.Apart() && BaseInv(View()) && p in area
      modifies this, mach, mach.ram
      ensures (View(), ok) == DoKmalloc(old(View()), p, rg, size)
    {
      hide MemInv;
      hide Pages;
      hide KTake;
      hide KernelStart;
      var a := area[p];
      if rg >= |a.sym| || size == 0 || a.sym[rg] != NOREGION {
        return false;
      }
      var f := mach.KernelAllocContiguous(PagesFor(size));
      if f.None? {
        return false;
      }
      var base := KBASE + f.value * PAGESZ;
      area := area[p := a.(sym := a.sym[rg := Region(base, base + size)])];
      ok := true;
    }

    /** libkmem_cache_pool_create; `occupied` says whether the pool id is taken. It
        fails, and changes nothing, exactly when the arguments leave room for no
        slot, the id is taken, or no run of free frames is long enough; otherwise
        the pool lies in the lowest such run, which it takes. */
    method CachePoolCreate(size: nat, align: nat, occupied: bool) returns (p: SlabCache.Pool?)
      requires mach.Apart() && BaseInv(View())
      modifies mach, mach.ram
      ensures BaseInv(View()) && area == old(area)
      ensures p == null <==> align == 0 || size < align || occupied || KernelStart(old(View()).mem.ram.free, PagesFor(size)).None?
      ensures p == null ==> View() == old(View())
      ensures p != null ==>
                var f := KernelStart(old(View()).mem.ram.free, PagesFor(size)).value;
                && View().mem == KTake(old(View()).mem, f, PagesFor(size))
                && p.storage == KBASE + f * PAGESZ && p.storage + p.size <= KBASE + (f + PagesFor(size)) * PAGESZ
      ensures p != null ==> p.Valid() && p.Taken() == 0 && fresh(p) && fresh(p.slab)
      ensures p != null ==> p.align == align && p.size <= size < p.size + align
    {
      hide BaseInv;
      hide Pages;
      hide KTake;
      hide KernelStart;
      if size == 0 || align == 0 {
        return null;
      }
      SlabCache.UsableSize(size, align);
      if size / align * align == 0 || occupied {
        return null;
      }
      PoolFrames(View(), PagesFor(size));
      var f := mach.KernelAllocContiguous(PagesFor(size));
      if f.None? {
        return null;
      }
      label taken:
      p := SlabCache.CreatePool(size, align, KBASE + f.value * PAGESZ);
      assert View() == old@taken(View());
    }

    /** libkmem_copy_from_user. */
    method CopyFromUser(p: nat, src: nat, dst: nat, off: nat, n: nat) returns (ok: bool)
      requires mach.Apart() && BaseInv(View()) && p in area
      modifies mach, mach.ram.storage, mach.swp, mach.swp.storage
      ensures (ok, mach.View()) == CopyFrom(old(mach.View()), area[p], p, src, dst, off, n)
      ensures BaseInv(View())
    {
      hide BaseInv;
      hide Pages;
      hide ReadAt;
      hide KWriteByte;
      if src >= |area[p].sym| || dst >= |area[p].sym| {
        return false;
      }
      for i := 0 to n
        invariant BaseInv(View())
        invariant CopyFrom(mach.View(), area[p], p, src, dst, off + i, n - i) ==
                  CopyFrom(old(mach.View()), area[p], p, src, dst, off, n)
      {
        var b := ReadAddr(p, UserAddr(area[p], src, off + i));
        if b.None? {
          return false;
        }
        var va := KernelAddr(area[p], dst, off + i);
        if va.None? {
          return false;
        }
        KernelStep(View(), va.value, b.value);
        var done := mach.KernelWrite(va.value, b.value);
        if !done {
          return false;
        }
      }
      ok := true;
    }

    /** libkmem_copy_to_user. */
    method CopyToUser(p: nat, src: nat, dst: nat, off: nat, n: nat) returns (ok: bool)
      requires mach.Apart() && BaseInv(View()) && p in area
      modifies mach, mach.ram.storage, mach.swp, mach.swp.storage
      ensures (ok, mach.View()) == CopyTo(old(mach.View()), area[p], p, src, dst, off, n)
      ensures BaseInv(View())
    {
      hide BaseInv;
      hide Pages;
      hide WriteAt;
      hide KReadByte;
      if src >= |area[p].sym| || dst >= |area[p].sym| {
        return false;
      }
      for i := 0 to n
        invariant BaseInv(View())
        invariant CopyTo(mach.View(), area[p], p, src, dst, off + i, n - i) ==
                  CopyTo(old(mach.View()), area[p], p, src, dst, off, n)
      {
        var va := KernelAddr(area[p], src, off + i);
        if va.None? {
          return false;
        }
        Based(View());
        var b := mach.KernelRead(va.value);
        if b.None? {
          return false;
        }
        var done := WriteAddr(p, UserAddr(area[p], dst, off + i), b.value);
        if !done {
          return false;
        }
      }
      ok := true;
    }

    // ----- processes -----

    /** One step of a process other than its exit. */
    method Execute(op: Op) returns (r: Result)
      requires mach.Apart() && BaseInv(View()) && !op.Reap?
      modifies this, mach, mach.ram, mach.ram.storage, mach.swp, mach.swp.storage
      ensures (View(), r) == Step(old(View()), op)
      ensures BaseInv(View())
    {
      hide BaseInv;
      hide Pages;
      StepKeeps(View(), op);
      var p := op.pid;
      if op.Spawn? {
        if p in area || p in mach.fifo || |mach.running| >= MAX_LIVE {
          return Failed;
        }
        mach.fifo, mach.running := mach.fifo[p := []], mach.running + [p];
        area := area[p := Area(0, [], seq(SYMBOLS, _ => NOREGION))];
        r := Done;
      } else if op.Finish? {
        if p !in mach.running {
          return Failed;
        }
        mach.running := Unlink(mach.running, p);
        r := Done;
      } else {
        if p !in area || p !in mach.running {
          return Failed;
        }
        r := ExecuteInstruction(op);
      }
    }

    /** The instruction dispatch. */
    method ExecuteInstruction(op: Op) returns (r: Result)
      requires mach.Apart() && BaseInv(View()) && op.pid in area && IsInstruction(op)
      modifies this, mach, mach.ram, mach.ram.storage, mach.swp, mach.swp.storage
      ensures (View(), r) == Instruction(old(View()), op)
    {
      hide BaseInv;
      hide Pages;
      var a := area[op.pid];
      var ok, b;
      match op
      case Alloc(p, rg, size, junk) =>
        ok := Alloc(p, rg, size, junk);
        r := Flag(ok);
      case Free(p, rg) =>
        ok := Free(p, rg);
        r := Flag(ok);
      case Read(p, rg, off) =>
        b := ReadAddr(p, UserAddr(a, rg, off));
        r := Byteval(b);
      case Write(p, rg, off, v) =>
        ok := WriteAddr(p, UserAddr(a, rg, off), v);
        r := Flag(ok);
      case IoRead(p, va) =>
        b := ReadAddr(p, if va < a.sbrk then Some(va) else None);
        r := Byteval(b);
      case IoWrite(p, va, v) =>
        ok := WriteAddr(p, if va < a.sbrk then Some(va) else None, v);
        r := Flag(ok);
      case Kmalloc(p, rg, size) =>
        ok := Kmalloc(p, rg, size);
        r := Flag(ok);
      case CopyFromUser(p, src, dst, off, n) =>
        ok := CopyFromUser(p, src, dst, off, n);
        r := Flag(ok);
      case CopyToUser(p, src, dst, off, n) =>
        ok := CopyToUser(p, src, dst, off, n);
        r := Flag(ok);
    }

    /** release_kernel_symrg_allocations. */
    method ReleaseKernelSymbols(sym: seq<Region>)
      requires mach.Apart()
      modifies mach, mach.ram
      ensures mach.View() == ReleaseSymbols(old(mach.View()), sym)
    {
      hide Pages;
      hide KRelease;
      for i := 0 to |sym|
        invariant ReleaseSymbols(mach.View(), sym[i..]) == ReleaseSymbols(old(mach.View()), sym)
      {
        assert sym[i..][1..] == sym[i + 1..];
        var rg := sym[i];
        if IsKernel(rg) {
          mach.KernelRelease((rg.start - KBASE) / PAGESZ, ReleaseCount(rg.end - rg.start));
        }
      }
    }

    /** free_pcb_memph: kernel regions first, then the user pages. */
    method FreePcbMemph(p: nat, order: seq<nat>)
      requires mach.Apart() && BaseInv(View())
      requires p in area && p !in mach.running && Enumerates(mach.View(), p, order)
      modifies this, mach, mach.ram, mach.ram.storage, mach.swp, mach.swp.storage
      ensures (View(), Done) == Step(old(View()), Reap(p, order))
      ensures BaseInv(View())
    {
      assert p in mach.fifo;
      hide BaseInv;
      hide Pages;
      hide Enumerates;
      StepKeeps(View(), Reap(p, order));
      ReleaseKernelSymbols(area[p].sym);
      mach.CollectPages(p, order);
      area := area - {p};
    }
  }

  lemma Based(s: Sys)
    requires BaseInv(s)
    ensures MemInv(s.mem, multiset{})
  {
  }

  lemma KernelStep(s: Sys, va: nat, b: Byte)
    requires BaseInv(s)
    ensures MemInv(s.mem, multiset{})
    ensures BaseInv(s.(mem := KWriteByte(s.mem, va, b).1))
  {
    hide MemInv;
    KWriteBytes(s.mem, va, b);
    ShapeKeeps(s, KWriteByte(s.mem, va, b).1);
  }

  /** Taking free frames for the kernel keeps the invariant. */
  lemma PoolFrames(s: Sys, n: nat)
    requires BaseInv(s) && n > 0
    ensures MemInv(s.mem, multiset{})
    ensures var f := KernelStart(s.mem.ram.free, n);
            f.Some? ==> BaseInv(s.(mem := KTake(s.mem, f.value, n)))
  {
    hide MemInv;
    hide KernelStart;
    ListsDistinct(s.mem, multiset{});
    KernelStartLowest(s.mem.ram.free, n);
    var f := KernelStart(s.mem.ram.free, n);
    if f.Some? {
      KTakeKeeps(s.mem, f.value, n);
    }
  }
}
