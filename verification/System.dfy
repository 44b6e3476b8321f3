/**
 The memory instructions of all processes as one step function
 (src/libmem.c, src/mm-vm.c, src/sys_mem.c, src/os.c): each instruction is one
 atomic step, and the instructions of different processes interleave freely.
 */
module System {
  import opened Basics
  import opened Devices
  import opened Paging
  import opened Ownership
  import opened Transparency
  import opened KernelFrames
  import opened KernelMemory
  import opened Regions
  import Queues

  /** First address above canonical user space. */
  const USER_TOP: nat := 0x100_0000_0000_0000
  /** PAGING_MAX_SYMTBL_SZ. */
  const SYMBOLS: nat := 30
  /** The capacity of the running list, which is a queue. */
  const MAX_LIVE: nat := Queues.MAX_QUEUE_SIZE

  /** A 32-bit unsigned argument. */
  type Word32 = n: nat | n < 0x1_0000_0000

  /** Sizes whose page count times the page size still fits a C int. */
  type AllocSize = n: nat | n <= 0x7fff_f000

  const NOREGION: Region := Region(0, 0)

  /** The virtual memory area of one process and its symbol table. */
  datatype Area = Area(sbrk: nat, free: seq<Region>, sym: seq<Region>)

  datatype Sys = Sys(mem: Mem, area: map<nat, Area>)

  function PagesFor(size: nat): (n: nat)
    ensures size <= n * PAGESZ < size + PAGESZ
  {
    (size + PAGESZ - 1) / PAGESZ
  }

  // ----- ALLOC and FREE -----

  /** validate_page_range for n pages from a page-aligned user address. */
  predicate Mappable(addr: nat, n: nat) {
    n > 0 ==> addr + (n - 1) * PAGESZ < USER_TOP
  }

  /** inc_vma_limit. The unsigned result of vm_map_ram is never below zero, so
      the rollback is dead code: when the mapping fails the limit stays raised
      and `junk`, the uninitialised region node, is enlisted. */
  function Grow(s: Sys, p: nat, size: nat, junk: Region): (r: Sys)
    requires p in s.area
  {
    var a := s.area[p];
    var n := PagesFor(size);
    var end := a.sbrk + n * PAGESZ;
    var (fs, m) := AllocPages(s.mem, p, n, []);
    if fs.Some? && Mappable(a.sbrk, n) then
      Sys(MapFrames(m, p, a.sbrk / PAGESZ, fs.value),
          s.area[p := Area(end, Enlist(a.free, Region(a.sbrk, end)), a.sym)])
    else
      Sys(if fs.Some? then ReleaseFrames(m, fs.value) else m,
          s.area[p := Area(end, Enlist(a.free, junk), a.sym)])
  }

  /** Record the region cut off free node i in symbol rg. */
  function Assign(a: Area, rg: nat, i: nat, size: nat): (r: Area)
    requires rg < |a.sym| && i < |a.free|
  {
    Area(a.sbrk, Cut(a.free, i, size), a.sym[rg := Region(a.free[i].start, a.free[i].start + size)])
  }

  /** __alloc: first fit, else grow the area and look again. */
  function DoAlloc(s: Sys, p: nat, rg: nat, size: nat, junk: Region): (r: (Sys, bool))
    requires p in s.area
  {
    var a := s.area[p];
    if rg >= |a.sym| || size == 0 then (s, false)
    else
      match FirstFit(a.free, size)
      case Some(i) => (s.(area := s.area[p := Assign(a, rg, i, size)]), true)
      case None =>
        var s1 := Grow(s, p, size, junk);
        var a1 := s1.area[p];
        match FirstFit(a1.free, size)
        case Some(i) => (s1.(area := s1.area[p := Assign(a1, rg, i, size)]), true)
        case None => (s1, false)
  }

  /** __free. */
  function DoFree(s: Sys, p: nat, rg: nat): (r: (Sys, bool))
    requires p in s.area
  {
    var a := s.area[p];
    if rg >= |a.sym| || a.sym[rg] == NOREGION then (s, false)
    else (s.(area := s.area[p := Area(a.sbrk, Enlist(a.free, a.sym[rg]), a.sym[rg := NOREGION])]), true)
  }

  // ----- byte access -----

  /** The checks of __read, __write and the user copy helpers. */
  function UserAddr(a: Area, rg: nat, off: nat): (va: Option<nat>)
    ensures va.Some? ==> rg < |a.sym| && In(a.sym[rg], va.value) && va.value == a.sym[rg].start + off && va.value < USER_TOP
  {
    if rg < |a.sym| && a.sym[rg].start < a.sym[rg].end && off < a.sym[rg].end - a.sym[rg].start
       && a.sym[rg].end <= USER_TOP
    then Some(a.sym[rg].start + off) else None
  }

  /** kernel_region_valid for one byte. */
  function KernelAddr(a: Area, rg: nat, off: nat): (va: Option<nat>)
    ensures va.Some? ==> rg < |a.sym| && In(a.sym[rg], va.value) && va.value == a.sym[rg].start + off
  {
    if rg < |a.sym| && a.sym[rg].start < a.sym[rg].end && off < a.sym[rg].end - a.sym[rg].start
    then Some(a.sym[rg].start + off) else None
  }

  function ReadAt(m: Mem, p: nat, va: Option<nat>): (r: (Option<Byte>, Mem)) {
    match va
    case None => (None, m)
    case Some(va) => ReadByte(m, p, va)
  }

  function WriteAt(m: Mem, p: nat, va: Option<nat>, b: Byte): (r: (bool, Mem)) {
    match va
    case None => (false, m)
    case Some(va) => WriteByte(m, p, va, b)
  }

  // ----- kernel memory -----

  /** __kmalloc. */
  function DoKmalloc(s: Sys, p: nat, rg: nat, size: nat): (r: (Sys, bool))
    requires p in s.area
  {
    var a := s.area[p];
    if rg >= |a.sym| || size == 0 || a.sym[rg] != NOREGION then (s, false)
    else
      match KernelStart(s.mem.ram.free, PagesFor(size))
      case None => (s, false)
      case Some(f) =>
        var base := KBASE + f * PAGESZ;
        (Sys(KTake(s.mem, f, PagesFor(size)),
         s.area[p := a.(sym := a.sym[rg := Region(base, base + size)])]), true)
  }

  /** libkmem_copy_from_user: n bytes from user symbol src to kernel symbol dst,
      both from offset `off`; a symbol out of range is refused even when there is
      nothing to copy, and the loop stops at the first byte that fails. */
  function CopyFrom(m: Mem, a: Area, p: nat, src: nat, dst: nat, off: nat, n: nat): (r: (bool, Mem))
    decreases n
  {
    if src >= |a.sym| || dst >= |a.sym| then (false, m)
    else if n == 0 then (true, m)
    else
      var (b, m1) := ReadAt(m, p, UserAddr(a, src, off));
      if b.None? then (false, m1)
      else
        var va := KernelAddr(a, dst, off);
        if va.None? then (false, m1)
        else
          var (ok, m2) := KWriteByte(m1, va.value, b.value);
          if !ok then (false, m2) else CopyFrom(m2, a, p, src, dst, off + 1, n - 1)
  }

  /** libkmem_copy_to_user. */
  function CopyTo(m: Mem, a: Area, p: nat, src: nat, dst: nat, off: nat, n: nat): (r: (bool, Mem))
    decreases n
  {
    if src >= |a.sym| || dst >= |a.sym| then (false, m)
    else if n == 0 then (true, m)
    else
      var va := KernelAddr(a, src, off);
      if va.None? then (false, m)
      else
        var b := KReadByte(m, va.value);
        if b.None? then (false, m)
        else
          var (ok, m1) := WriteAt(m, p, UserAddr(a, dst, off), b.value);
          if !ok then (false, m1) else CopyTo(m1, a, p, src, dst, off + 1, n - 1)
  }

  // ----- process exit -----

  /** The page count of release_kernel_symrg_allocations: a 64-bit round-up
      truncated to a 32-bit int. */
  function ReleaseCount(size: nat): (n: int) {
    var pages := ((size + PAGESZ - 1) % 0x1_0000_0000_0000_0000) / PAGESZ % 0x1_0000_0000;
    if pages < 0x8000_0000 then pages else pages - 0x1_0000_0000
  }

  predicate IsKernel(rg: Region) { KBASE <= rg.start < rg.end }

  /** The body of the loop of release_kernel_symrg_allocations. */
  function ReleaseSymbol(m: Mem, rg: Region): (r: Mem) {
    if IsKernel(rg) && ReleaseCount(rg.end - rg.start) > 0 then
      KRelease(m, (rg.start - KBASE) / PAGESZ, ReleaseCount(rg.end - rg.start))
    else m
  }

  /** release_kernel_symrg_allocations over the remaining symbols. */
  function ReleaseSymbols(m: Mem, sym: seq<Region>): (r: Mem)
    decreases |sym|
  {
    if sym == [] then m
    else
      ReleaseSymbols(ReleaseSymbol(m, sym[0]), sym[1..])
  }

  // ----- steps -----

  datatype Op =
    | Spawn(pid: nat)
    | Alloc(pid: nat, rg: nat, size: AllocSize, junk: Region)
    | Free(pid: nat, rg: nat)
    | Read(pid: nat, rg: nat, off: nat)
    | Write(pid: nat, rg: nat, off: nat, val: Byte)
    | IoRead(pid: nat, va: nat)
    | IoWrite(pid: nat, va: nat, val: Byte)
    | Kmalloc(pid: nat, rg: nat, ksize: Word32)
    | CopyFromUser(pid: nat, src: nat, dst: nat, off: nat, count: nat)
    | CopyToUser(pid: nat, src: nat, dst: nat, off: nat, count: nat)
    | Finish(pid: nat)
    | Reap(pid: nat, order: seq<nat>)

  datatype Result = Failed | Done | Got(val: Byte)

  function Flag(ok: bool): Result { if ok then Done else Failed }

  function Byteval(b: Option<Byte>): Result {
    match b
    case None => Failed
    case Some(v) => Got(v)
  }

  /** One process instruction, or one life-cycle step of a process. `order` is
      the order in which the page-table walk of process exit meets the pages;
      an order that is not an enumeration of them is no step. */
  ghost function Step(s: Sys, op: Op): (r: (Sys, Result)) {
    var p := op.pid;
    match op
    case Spawn(p) =>
      if p in s.area || p in s.mem.fifo || |s.mem.running| >= MAX_LIVE then (s, Failed)
      else (Sys(s.mem.(fifo := s.mem.fifo[p := []], running := s.mem.running + [p]),
            s.area[p := Area(0, [], seq(SYMBOLS, _ => NOREGION))]), Done)
    case Finish(p) =>
      if p !in s.mem.running then (s, Failed)
      else (s.(mem := s.mem.(running := Unlink(s.mem.running, p))), Done)
    case Reap(p, order) =>
      if p !in s.area || p !in s.mem.fifo || p in s.mem.running || !Enumerates(s.mem, p, order) then (s, Failed)
      else (Sys(ReapUser(ReleaseSymbols(s.mem, s.area[p].sym), p, order), s.area - {p}), Done)
    case _ =>
      if p !in s.area || p !in s.mem.running then (s, Failed)
      else Instruction(s, op)
  }

  ghost predicate IsInstruction(op: Op) {
    !op.Spawn? && !op.Finish? && !op.Reap?
  }

  ghost function Instruction(s: Sys, op: Op): (r: (Sys, Result))
    requires op.pid in s.area && IsInstruction(op)
  {
    var a := s.area[op.pid];
    match op
    case Alloc(p, rg, size, junk) =>
      var (s1, ok) := DoAlloc(s, p, rg, size, junk);
      (s1, Flag(ok))
    case Free(p, rg) =>
      var (s1, ok) := DoFree(s, p, rg);
      (s1, Flag(ok))
    case Read(p, rg, off) =>
      var (b, m) := ReadAt(s.mem, p, UserAddr(a, rg, off));
      (s.(mem := m), Byteval(b))
    case Write(p, rg, off, v) =>
      var (ok, m) := WriteAt(s.mem, p, UserAddr(a, rg, off), v);
      (s.(mem := m), Flag(ok))
    case IoRead(p, va) =>
      var (b, m) := ReadAt(s.mem, p, if va < a.sbrk then Some(va) else None);
      (s.(mem := m), Byteval(b))
    case IoWrite(p, va, v) =>
      var (ok, m) := WriteAt(s.mem, p, if va < a.sbrk then Some(va) else None, v);
      (s.(mem := m), Flag(ok))
    case Kmalloc(p, rg, size) =>
      var (s1, ok) := DoKmalloc(s, p, rg, size);
      (s1, Flag(ok))
    case CopyFromUser(p, src, dst, off, size) =>
      var (ok, m) := CopyFrom(s.mem, a, p, src, dst, off, size);
      (s.(mem := m), Flag(ok))
    case CopyToUser(p, src, dst, off, size) =>
      var (ok, m) := CopyTo(s.mem, a, p, src, dst, off, size);
      (s.(mem := m), Flag(ok))
  }

  /** A machine just formatted, with no process. */
  function Boot(ram: seq<seq<Byte>>, swp: seq<seq<Byte>>): (s: Sys) {
    Sys(Mem(Device(ram, seq(|ram|, i => i), []), Device(swp, seq(|swp|, i => i), []),
            map[], map[], map[], [], map[], 0), map[])
  }

  ghost function Run(s: Sys, ops: seq<Op>): (r: Sys)
    decreases |ops|
  {
    if ops == [] then s else Run(Step(s, ops[0]).0, ops[1..])
  }
}
