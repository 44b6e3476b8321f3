/**
 One plain byte map per process. For every step, whether it succeeds or fails,
 this says what byte every process has at every address afterwards: what the
 step stored, what exit removed, what growth added, and the old byte everywhere
 else.
 */
module Refinement {
  import opened Basics
  import opened Devices
  import opened Paging
  import opened Ownership
  import opened Transparency
  import opened KernelMemory
  import opened Regions
  import opened System
  import opened Bytes
  import opened Runs
  import opened Accounting

  // ----- a copy that breaks off -----

  /** How many bytes copy_to_user moves before it ends or breaks off. */
  function Copied(m: Mem, a: Area, p: nat, src: nat, dst: nat, off: nat, n: nat): (c: nat)
    ensures c <= n
    decreases n
  {
    if src >= |a.sym| || dst >= |a.sym| || n == 0 then 0
    else
      var va := KernelAddr(a, src, off);
      if va.None? || KReadByte(m, va.value).None? then 0
      else
        var (ok, m1) := WriteAt(m, p, UserAddr(a, dst, off), KReadByte(m, va.value).value);
        if !ok then 0 else 1 + Copied(m1, a, p, src, dst, off + 1, n - 1)
  }

  /** A copy that breaks off is a complete copy of the bytes before. */
  lemma {:induction false} CopyToPrefix(m: Mem, a: Area, p: nat, src: nat, dst: nat, off: nat, n: nat)
    requires MemInv(m, multiset{}) && p in m.fifo && src < |a.sym| && dst < |a.sym|
    ensures var c := Copied(m, a, p, src, dst, off, n);
            && CopyTo(m, a, p, src, dst, off, c) == (true, CopyTo(m, a, p, src, dst, off, n).1)
            && (CopyTo(m, a, p, src, dst, off, n).0 <==> c == n)
    decreases n
  {
    hide MemInv;
    hide KReadByte;
    hide WriteByte;
    hide Reachable;
    if n > 0 {
      var va, ua := KernelAddr(a, src, off), UserAddr(a, dst, off);
      if va.Some? && ua.Some? && KReadByte(m, va.value).Some? {
        var b := KReadByte(m, va.value).value;
        WriteBytes(m, p, ua.value, b);
        var (ok, m1) := WriteByte(m, p, ua.value, b);
        if ok {
          CopyToPrefix(m1, a, p, src, dst, off + 1, n - 1);
        }
      }
    }
  }

  // ----- what a step does to one byte -----

  /** The byte that the step stores at address va of process p. */
  ghost function Stored(s: Sys, op: Op, p: nat, va: nat): (b: Option<Byte>) {
    if op.pid != p || p !in s.area || p !in s.mem.running then None
    else
      var a := s.area[p];
      match op
      case Write(_, rg, off, v) =>
        if SymbolByte(a, rg, off) == Some(va) && Reachable(s.mem, p, va / PAGESZ) then Some(v) else None
      case IoWrite(_, x, v) =>
        if x == va && va < a.sbrk && Reachable(s.mem, p, va / PAGESZ) then Some(v) else None
      case CopyToUser(_, src, dst, off, n) =>
        if src < |a.sym| && InSpan(a, dst, off, Copied(s.mem, a, p, src, dst, off, n), va)
        then KByte(s.mem, Addr(a, src, va - a.sym[dst].start)) else None
      case _ => None
  }

  /** The step is the exit of process p. */
  ghost predicate Gone(s: Sys, op: Op, p: nat) {
    op.Reap? && op.pid == p && p in s.area && p !in s.mem.running && Enumerates(s.mem, p, op.order)
  }

  /** The step is an ALLOC that grows the area of process p over address va. */
  ghost predicate Added(s: Sys, op: Op, p: nat, va: nat) {
    && op.Alloc? && op.pid == p && p in s.area && p in s.mem.running
    && op.rg < |s.area[p].sym| && op.size > 0
    && FirstFit(s.area[p].free, op.size).None? && CanGrow(s, p, op.size)
    && s.area[p].sbrk <= va < s.area[p].sbrk + PagesFor(op.size) * PAGESZ
  }

  /** The byte after the step; the content of added bytes is left open. */
  ghost predicate NewByte(s: Sys, op: Op, m': Mem, p: nat, va: nat) {
    var was, now := UByte(s.mem, p, va), UByte(m', p, va);
    if Gone(s, op, p) then now.None?
    else if Stored(s, op, p, va).Some? then now == Stored(s, op, p, va)
    else if was.Some? then now == was
    else now.Some? <==> Added(s, op, p, va)
  }

  lemma ByteExists(m: Mem, p: nat, va: nat)
    requires MemInv(m, multiset{})
    ensures UByte(m, p, va).Some? <==> Vpn(p, va / PAGESZ) in m.pt
  {
    if Vpn(p, va / PAGESZ) in m.pt {
      PageLength(m, Vpn(p, va / PAGESZ));
    }
    hide MemInv;
  }

  // ----- the operations -----

  lemma WriteExact(s: Sys, op: Op, q: nat, va: nat)
    requires BaseInv(s) && (op.Write? || op.IoWrite?) && op.pid in s.area && op.pid in s.mem.running
    ensures NewByte(s, op, Instruction(s, op).0.mem, q, va)
  {
    hide MemInv;
    hide UByte;
    hide Reachable;
    hide WriteByte;
    var p, a := op.pid, s.area[op.pid];
    var ua := if op.Write? then UserAddr(a, op.rg, op.off) else if op.va < a.sbrk then Some(op.va) else None;
    if op.Write? {
      UserAddrIs(a, op.rg, op.off);
    }
    if ua.Some? {
      WriteBytes(s.mem, p, ua.value, op.val);
    }
  }

  lemma CopyExact(s: Sys, p: nat, src: nat, dst: nat, off: nat, n: nat, q: nat, va: nat)
    requires BaseInv(s) && p in s.area && p in s.mem.running
    ensures NewByte(s, CopyToUser(p, src, dst, off, n), CopyTo(s.mem, s.area[p], p, src, dst, off, n).1, q, va)
  {
    hide MemInv;
    hide UByte;
    hide KByte;
    hide CopyTo;
    hide CopiedTo;
    hide Copied;
    hide SameShape;
    hide SameKernel;
    var a := s.area[p];
    if src < |a.sym| && dst < |a.sym| {
      var c := Copied(s.mem, a, p, src, dst, off, n);
      CopyToPrefix(s.mem, a, p, src, dst, off, n);
      CopyToMoves(s.mem, a, p, src, dst, off, c);
      CopiedBytes(s.mem, CopyTo(s.mem, a, p, src, dst, off, c), a, p, src, dst, off, c, q, va);
    } else {
      Refused(s.mem, a, p, src, dst, off, n);
    }
  }

  lemma Refused(m: Mem, a: Area, p: nat, src: nat, dst: nat, off: nat, n: nat)
    requires src >= |a.sym| || dst >= |a.sym|
    ensures CopyTo(m, a, p, src, dst, off, n) == (false, m)
  {
  }

  lemma CopiedBytes(m: Mem, r: (bool, Mem), a: Area, p: nat, src: nat, dst: nat, off: nat, c: nat, q: nat, va: nat)
    requires r.0 && CopiedTo(m, r, a, p, src, dst, off, c)
    ensures src < |a.sym| && dst < |a.sym|
    ensures if q == p && InSpan(a, dst, off, c, va)
            then UByte(r.1, q, va) == KByte(m, Addr(a, src, va - a.sym[dst].start)) && UByte(r.1, q, va).Some?
            else UByte(r.1, q, va) == UByte(m, q, va)
  {
    hide UByte;
    hide KByte;
    if q == p && InSpan(a, dst, off, c, va) {
      var i := va - a.sym[dst].start;
      assert va == Addr(a, dst, i) && off <= i < off + c;
    }
  }

  lemma GrownPages(sbrk: nat, p: nat, n: nat, va: nat)
    requires sbrk % PAGESZ == 0
    ensures Vpn(p, va / PAGESZ) in PageRange(p, sbrk / PAGESZ, n) <==> sbrk <= va < sbrk + n * PAGESZ
  {
    PagesAddUp(sbrk, n);
    var g := va / PAGESZ;
    assert g * PAGESZ <= va < g * PAGESZ + PAGESZ;
    assert sbrk / PAGESZ * PAGESZ == sbrk;
    if sbrk / PAGESZ <= g < sbrk / PAGESZ + n {
      assert g + 1 <= sbrk / PAGESZ + n;
      assert (g + 1) * PAGESZ <= (sbrk / PAGESZ + n) * PAGESZ;
    }
  }

  lemma GrowKeys(s: Sys, p: nat, size: nat, junk: Region, q: nat, va: nat)
    requires BaseInv(s) && p in s.area && size > 0
    ensures Vpn(q, va / PAGESZ) in Grow(s, p, size, junk).mem.pt <==>
            || Vpn(q, va / PAGESZ) in s.mem.pt
            || (q == p && CanGrow(s, p, size) && s.area[p].sbrk <= va < s.area[p].sbrk + PagesFor(size) * PAGESZ)
  {
    hide BaseInv;
    hide CanGrow;
    hide UserView;
    hide KernelView;
    PageAligned(s, p);
    GrowSucceeds(s, p, size);
    GrownPages(s.area[p].sbrk, p, PagesFor(size), va);
    if CanGrow(s, p, size) {
      GrowMapped(s, p, size, junk);
      if q != p {
        assert Vpn(q, va / PAGESZ) !in PageRange(p, s.area[p].sbrk / PAGESZ, PagesFor(size));
      }
    } else {
      GrowUnmapped(s, p, size, junk);
    }
  }

  lemma AllocExact(s: Sys, p: nat, rg: nat, size: AllocSize, junk: Region, q: nat, va: nat)
    requires BaseInv(s) && p in s.area && p in s.mem.running
    ensures NewByte(s, Alloc(p, rg, size, junk), DoAlloc(s, p, rg, size, junk).0.mem, q, va)
  {
    hide MemInv;
    hide UByte;
    hide CanGrow;
    hide Assign;
    hide UserView;
    hide KernelView;
    AllocStep(s, p, rg, size, junk);
    var s' := DoAlloc(s, p, rg, size, junk).0;
    ExtendsBytes(s.mem, s'.mem);
    ByteExists(s.mem, q, va);
    ByteExists(s'.mem, q, va);
    if size > 0 {
      GrowKeys(s, p, size, junk, q, va);
    }
    GrowSymbols(s, p, size, junk);
    hide Grow;
  }

  lemma ReapExact(s: Sys, p: nat, order: seq<nat>, q: nat, va: nat)
    requires BaseInv(s)
    ensures NewByte(s, Reap(p, order), Step(s, Reap(p, order)).0.mem, q, va)
  {
    hide MemInv;
    hide UserView;
    if p in s.area && p !in s.mem.running && Enumerates(s.mem, p, order) {
      ReapStep(s, p, order);
    }
    hide Enumerates;
  }

  lemma QuietExact(s: Sys, op: Op, q: nat, va: nat)
    requires BaseInv(s) && op.pid in s.area && op.pid in s.mem.running && IsInstruction(op)
    requires !op.Alloc? && !op.Write? && !op.IoWrite? && !op.CopyToUser?
    ensures NewByte(s, op, Instruction(s, op).0.mem, q, va)
  {
    hide BaseInv;
    hide UByte;
    var a := s.area[op.pid];
    match op
    case Free(p, rg) =>
      FreeStep(s, p, rg);
    case Read(p, rg, off) =>
      ReadStep(s, p, UserAddr(a, rg, off));
    case IoRead(p, x) =>
      ReadStep(s, p, if x < a.sbrk then Some(x) else None);
    case Kmalloc(p, rg, size) =>
      KmallocStep(s, p, rg, size);
      SameBytes(s.mem, DoKmalloc(s, p, rg, size).0.mem, q, va);
    case CopyFromUser(p, src, dst, off, n) =>
      CopyFromStep(s, p, src, dst, off, n);
  }

  lemma SameBytes(m: Mem, m': Mem, p: nat, va: nat)
    requires UserView(m') == UserView(m)
    ensures UByte(m', p, va) == UByte(m, p, va)
  {
  }

  /** After any step, of any process, in any reachable state, every address of every
      process holds what the step stored there, what it held before, nothing if
      its process exited, and something new exactly where the step added a page. */
  lemma StepRefines(s: Sys, op: Op, p: nat, va: nat)
    requires BaseInv(s)
    ensures NewByte(s, op, Step(s, op).0.mem, p, va)
  {
    hide BaseInv;
    hide UByte;
    match op
    case Spawn(q) =>
      SpawnStep(s, q);
      SameBytes(s.mem, Step(s, op).0.mem, p, va);
    case Finish(q) =>
      FinishStep(s, q);
      SameBytes(s.mem, Step(s, op).0.mem, p, va);
    case Reap(q, order) =>
      ReapExact(s, q, order, p, va);
    case Alloc(q, rg, size, junk) =>
      if q in s.area && q in s.mem.running {
        AllocExact(s, q, rg, size, junk, p, va);
      }
    case Write(q, _, _, _) =>
      if q in s.area && q in s.mem.running {
        WriteExact(s, op, p, va);
      }
    case IoWrite(q, _, _) =>
      if q in s.area && q in s.mem.running {
        WriteExact(s, op, p, va);
      }
    case CopyToUser(q, src, dst, off, n) =>
      if q in s.area && q in s.mem.running {
        CopyExact(s, q, src, dst, off, n, p, va);
      }
    case _ =>
      if op.pid in s.area && op.pid in s.mem.running {
        QuietExact(s, op, p, va);
      }
  }

  /** A read returns the last byte stored, whether WRITE, a write by address or a
      copy from the kernel stored it, complete or broken off. */
  lemma ReadReturnsLastStored(s: Sys, w: Op, mid: seq<Op>, r: Op, p: nat, va: nat)
    requires BaseInv(s) && Stored(s, w, p, va).Some?
    requires Untouched(Step(s, w).0, mid, p, va)
    requires var s2 := Run(Step(s, w).0, mid);
             && (r.Read? || r.IoRead?) && r.pid == p && Target(s2, r) == Some(va) && Step(s2, r).1.Got?
    ensures Step(Run(Step(s, w).0, mid), r).1 == Got(Stored(s, w, p, va).value)
  {
    hide BaseInv;
    hide UByte;
    hide Stored;
    hide Step;
    hide Target;
    hide Untouched;
    hide Run;
    var s1 := Step(s, w).0;
    StoredIsThere(s, w, p, va);
    StepKeeps(s, w);
    UntouchedByteStays(s1, mid, p, va);
    RunKeeps(s1, mid);
    ReadGets(Run(s1, mid), r, p, va);
  }

  lemma StoredIsThere(s: Sys, w: Op, p: nat, va: nat)
    requires BaseInv(s) && Stored(s, w, p, va).Some?
    ensures UByte(Step(s, w).0.mem, p, va) == Stored(s, w, p, va)
  {
    hide BaseInv;
    hide Step;
    StepRefines(s, w, p, va);
    assert !Gone(s, w, p);
    hide Stored;
  }

  lemma ReadGets(s: Sys, r: Op, p: nat, va: nat)
    requires BaseInv(s) && (r.Read? || r.IoRead?) && r.pid == p && Target(s, r) == Some(va) && Step(s, r).1.Got?
    ensures UByte(s.mem, p, va) == Some(Step(s, r).1.val)
  {
    hide BaseInv;
    hide UByte;
    hide ReadByte;
    var a := s.area[p];
    var ua := if r.Read? then UserAddr(a, r.rg, r.off) else if r.va < a.sbrk then Some(r.va) else None;
    if r.Read? {
      UserAddrIs(a, r.rg, r.off);
    }
    ReadStep(s, p, ua);
    assert Step(s, r) == Instruction(s, r);
    assert Step(s, r).1 == Byteval(ReadAt(s.mem, p, ua).0);
  }
}
