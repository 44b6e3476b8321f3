/**
 Demand paging with swap (src/mm64.c, src/libmem.c): page-table entries, the
 per-process FIFO of resident pages, victim selection, eviction and swap-in,
 as functions on one memory state.
 */
module Paging {
  import opened Basics
  import opened Devices

  /** A page-table entry that is not zero: a RAM frame or a swap slot. */
  datatype Pte = Present(num: nat) | Swapped(num: nat)

  /** One page of one process. */
  datatype Vpn = Vpn(pid: nat, pgn: nat)

  /** `pt` gathers the user page tables of all processes; `kpt` is the shared
      kernel page table, by page index above KMEM_VADDR_BASE; `fifo` holds the
      resident pages of each live process, newest first. `since` and `clock`
      are not in the program: they record when each page last became resident,
      so that the order of the FIFO lists can be stated. */
  datatype Mem = Mem(
    ram: Device,
    swp: Device,
    pt: map<Vpn, Pte>,
    kpt: map<nat, nat>,
    fifo: map<nat, seq<nat>>,
    running: seq<nat>,
    since: map<Vpn, nat>,
    clock: nat)

  function Fifo(m: Mem, p: nat): (r: seq<nat>) {
    if p in m.fifo then m.fifo[p] else []
  }

  // ----- victim selection -----

  /** find_present_victim_in_proc: pop the oldest FIFO entry until one is present. */
  function FindInProc(m: Mem, p: nat): (r: (Option<Vpn>, Mem))
    ensures r.0.Some? ==> r.0.value in r.1.pt && r.1.pt[r.0.value].Present?
    decreases if p in m.fifo then |m.fifo[p]| else 0
  {
    if p !in m.fifo || m.fifo[p] == [] then (None, m)
    else
      var k := Vpn(p, Last(m.fifo[p]));
      var m1 := m.(fifo := m.fifo[p := DropLast(m.fifo[p])]);
      if k in m1.pt && m1.pt[k].Present? then (Some(k), m1) else FindInProc(m1, p)
  }

  /** The running-list part of find_global_victim, from index `i` on. */
  function ScanRunning(m: Mem, caller: nat, i: nat): (r: (Option<Vpn>, Mem))
    requires i <= |m.running|
    ensures r.0.Some? ==> r.0.value in r.1.pt && r.1.pt[r.0.value].Present?
    decreases |m.running| - i
  {
    if i == |m.running| then (None, m)
    else if m.running[i] == caller then ScanRunning(m, caller, i + 1)
    else
      var (v, m1) := FindInProc(m, m.running[i]);
      FindInProcFrame(m, m.running[i]);
      if v.Some? then (v, m1) else ScanRunning(m1, caller, i + 1)
  }

  lemma FindInProcFrame(m: Mem, p: nat)
    ensures var m1 := FindInProc(m, p).1;
            m1 == m.(fifo := m1.fifo)
    decreases if p in m.fifo then |m.fifo[p]| else 0
  {
  }

  /** find_global_victim: the caller's own pages first, then the running list. */
  function FindGlobal(m: Mem, caller: nat): (r: (Option<Vpn>, Mem))
    ensures r.0.Some? ==> r.0.value in r.1.pt && r.1.pt[r.0.value].Present?
  {
    var (v, m1) := FindInProc(m, caller);
    if v.Some? then (v, m1) else ScanRunning(m1, caller, 0)
  }

  // ----- eviction and frame supply -----

  /** swap_out_victim_page: reserve a swap slot, pick a victim, copy it out.
      Some(f) hands frame f to the caller. */
  function SwapOut(m: Mem, caller: nat): (r: (Option<nat>, Mem))
  {
    if m.swp.free == [] then (None, m)
    else
      var slot := m.swp.free[0];
      var m0 := m.(swp := Pop(m.swp));
      var (v, m1) := FindGlobal(m0, caller);
      match v
      case None => (None, m1.(swp := Push(m1.swp, slot)))
      case Some(k) =>
        var f := m1.pt[k].num;
        (Some(f), m1.(swp := SetPage(m1.swp, slot, PageAt(m1.ram, f)),
         pt := m1.pt[k := Swapped(slot)]))
  }

  /** One round of alloc_pages_range: a free frame, or else an evicted one. */
  function TakeFrame(m: Mem, caller: nat): (r: (Option<nat>, Mem))
  {
    if m.ram.free != [] then (Some(m.ram.free[0]), m.(ram := Pop(m.ram)))
    else SwapOut(m, caller)
  }

  /** release_frame_list: every frame goes back to the head of the free list. */
  function ReleaseFrames(m: Mem, fs: seq<nat>): (r: Mem)
    decreases |fs|
  {
    if fs == [] then m
    else ReleaseFrames(m.(ram := Push(m.ram, fs[0])), fs[1..])
  }

  /** alloc_pages_range, `got` being the frames collected so far. */
  function AllocPages(m: Mem, caller: nat, n: nat, got: seq<nat>): (r: (Option<seq<nat>>, Mem))
    decreases n
  {
    if n == 0 then (Some(got), m)
    else
      var (f, m1) := TakeFrame(m, caller);
      match f
      case None => (None, ReleaseFrames(m1, got))
      case Some(f) => AllocPages(m1, caller, n - 1, got + [f])
  }

  /** pte_set_fpn and enlist_pgn_node: page `pgn` of p becomes resident in frame f. */
  function MapOne(m: Mem, p: nat, pgn: nat, f: nat): (r: Mem) {
    m.(pt := m.pt[Vpn(p, pgn) := Present(f)],
    fifo := m.fifo[p := [pgn] + Fifo(m, p)],
    since := m.since[Vpn(p, pgn) := m.clock],
    clock := m.clock + 1)
  }

  /** The mapping loop of vmap_page_range: consecutive pages to the given frames. */
  function MapFrames(m: Mem, p: nat, pgn: nat, fs: seq<nat>): (r: Mem)
    decreases |fs|
  {
    if fs == [] then m
    else
      MapFrames(MapOne(m, p, pgn, fs[0]), p, pgn + 1, fs[1..])
  }

  // ----- access -----

  /** The swap-in half of pg_getpage: page k moves from `slot` into frame f. */
  function SwapIn(m: Mem, k: Vpn, slot: nat, f: nat): (r: Mem) {
    MapOne(m.(ram := SetPage(m.ram, f, PageAt(m.swp, slot)), swp := Push(m.swp, slot)), k.pid, k.pgn, f)
  }

  /** pg_getpage: make the page resident and return its frame. */
  function GetPage(m: Mem, p: nat, pgn: nat): (r: (Option<nat>, Mem))
  {
    var k := Vpn(p, pgn);
    if k !in m.pt then (None, m)
    else if m.pt[k].Present? then (Some(m.pt[k].num), m)
    else
      var slot := m.pt[k].num;
      var (f, m1) := SwapOut(m, p);
      match f
      case None => (None, m1)
      case Some(f) =>
        (Some(f), SwapIn(m1, k, slot, f))
  }

  /** pg_getval at virtual address `va`. */
  function ReadByte(m: Mem, p: nat, va: nat): (r: (Option<Byte>, Mem))
  {
    var (f, m1) := GetPage(m, p, va / PAGESZ);
    match f
    case None => (None, m1)
    case Some(f) => (ByteAt(m1.ram, f, va % PAGESZ), m1)
  }

  /** pg_setval at virtual address `va`; the flag is the success of the call. */
  function WriteByte(m: Mem, p: nat, va: nat, b: Byte): (r: (bool, Mem))
  {
    var (f, m1) := GetPage(m, p, va / PAGESZ);
    match f
    case None => (false, m1)
    case Some(f) =>
      if f < |m1.ram.pages| then (true, m1.(ram := SetByte(m1.ram, f, va % PAGESZ, b)))
      else (false, m1)
  }
}
