/**
 Nothing missing. On top of Accounting: free nodes and symbol regions cover every
 byte of an area, and every used kernel frame belongs to a kernel symbol. A step
 keeps the exact partition if and only if it is orderly and ALLOC targets an
 empty symbol.
 */
module Coverage {
  import opened Basics
  import opened Devices
  import opened KernelFrames
  import opened KernelMemory
  import opened Regions
  import opened System
  import opened Bytes
  import opened Runs
  import opened Accounting

  ghost predicate InSome(sym: seq<Region>, x: nat) {
    exists i :: 0 <= i < |sym| && In(sym[i], x)
  }

  /** Every byte below the break is free or belongs to a symbol. */
  ghost predicate Whole(a: Area) {
    forall x: nat :: x < a.sbrk ==> Covers(a.free, x) || InSome(a.sym, x)
  }

  ghost predicate BackedBySome(area: map<nat, Area>, f: nat) {
    exists p: nat, i: nat :: HasSymbol(area, p, i) && Backs(area[p].sym[i], f)
  }

  /** Every used frame belongs to some kernel symbol. */
  ghost predicate AllBacked(used: seq<nat>, area: map<nat, Area>) {
    forall f :: f in used ==> BackedBySome(area, f)
  }

  ghost predicate AllWhole(area: map<nat, Area>) {
    forall p :: p in area ==> Whole(area[p])
  }

  /** Regions and free nodes partition each area exactly, and kernel symbols
      partition the used frames. */
  ghost predicate RegInv(s: Sys) {
    ApartInv(s) && AllWhole(s.area) && AllBacked(s.mem.ram.used, s.area)
  }

  // ----- one area -----

  lemma AssignWhole(a: Area, rg: nat, i: nat, size: nat)
    requires Laid(a) && Whole(a) && rg < |a.sym| && a.sym[rg] == NOREGION
    requires i < |a.free| && size > 0 && Fits(a.free[i], size)
    ensures Whole(Assign(a, rg, i, size))
  {
    hide Covers;
    hide Cut;
    var a' := Assign(a, rg, i, size);
    forall x: nat | x < a'.sbrk ensures Covers(a'.free, x) || InSome(a'.sym, x) {
      CutCovers(a.free, i, size, x);
      if InSome(a.sym, x) {
        var j :| 0 <= j < |a.sym| && In(a.sym[j], x);
        assert In(a'.sym[j], x);
      } else {
        assert In(a'.sym[rg], x) || Covers(a'.free, x);
      }
    }
  }

  lemma GrowWhole(a: Area, end: nat)
    requires Laid(a) && Whole(a) && a.sbrk < end
    ensures Whole(Area(end, Enlist(a.free, Region(a.sbrk, end)), a.sym))
  {
    hide Enlist;
    hide Covers;
    forall x: nat ensures Covers(Enlist(a.free, Region(a.sbrk, end)), x) <==> Covers(a.free, x) || In(Region(a.sbrk, end), x) {
      EnlistCovers(a.free, Region(a.sbrk, end), x);
    }
  }

  lemma FreeWhole(a: Area, rg: nat)
    requires Laid(a) && Whole(a) && rg < |a.sym|
    ensures Whole(Area(a.sbrk, Enlist(a.free, a.sym[rg]), a.sym[rg := NOREGION]))
  {
    hide Enlist;
    hide Covers;
    var a' := Area(a.sbrk, Enlist(a.free, a.sym[rg]), a.sym[rg := NOREGION]);
    forall x: nat | x < a'.sbrk ensures Covers(a'.free, x) || InSome(a'.sym, x) {
      EnlistCovers(a.free, a.sym[rg], x);
      if InSome(a.sym, x) {
        var j :| 0 <= j < |a.sym| && In(a.sym[j], x);
        assert j != rg ==> In(a'.sym[j], x);
      }
    }
  }

  lemma BlockWhole(a: Area, rg: nat, block: Region)
    requires Whole(a) && rg < |a.sym| && a.sym[rg] == NOREGION
    ensures Whole(a.(sym := a.sym[rg := block]))
  {
    hide Covers;
    var a' := a.(sym := a.sym[rg := block]);
    forall x: nat | x < a'.sbrk && InSome(a.sym, x) ensures InSome(a'.sym, x) {
      var j :| 0 <= j < |a.sym| && In(a.sym[j], x);
      assert In(a'.sym[j], x);
    }
  }

  // ----- used frames -----

  /** Used frames stay backed when no kernel symbol is dropped. */
  lemma KeepBacked(used: seq<nat>, area: map<nat, Area>, area': map<nat, Area>)
    requires AllBacked(used, area) && SameTables(area, area')
    requires forall p: nat, i: nat, f: nat :: HasSymbol(area, p, i) && f in used && Backs(area[p].sym[i], f) ==> Backs(area'[p].sym[i], f)
    ensures AllBacked(used, area')
  {
    hide Backs;
    forall f | f in used ensures BackedBySome(area', f) {
      var p: nat, i: nat :| HasSymbol(area, p, i) && Backs(area[p].sym[i], f);
      assert HasSymbol(area', p, i) && Backs(area'[p].sym[i], f);
    }
  }

  lemma KmallocBacked(used: seq<nat>, used': seq<nat>, area: map<nat, Area>, p: nat, rg: nat, block: Region)
    requires AllBacked(used, area)
    requires p in area && rg < |area[p].sym| && area[p].sym[rg] == NOREGION
    requires forall g: nat :: g in used' <==> g in used || Backs(block, g)
    ensures AllBacked(used', area[p := area[p].(sym := area[p].sym[rg := block])])
  {
    var area' := area[p := area[p].(sym := area[p].sym[rg := block])];
    KeepBacked(used, area, area');
    hide Backs;
    assert HasSymbol(area', p, rg) && area'[p].sym[rg] == block;
  }

  lemma ReapBacked(used: seq<nat>, used': seq<nat>, area: map<nat, Area>, p: nat)
    requires AllBacked(used, area) && p in area
    requires forall f: nat :: f in used' <==> f in used && !BackedBy(area[p].sym, f)
    ensures AllBacked(used', area - {p})
  {
    hide Backs;
    forall f | f in used' ensures BackedBySome(area - {p}, f) {
      var q: nat, j: nat :| HasSymbol(area, q, j) && Backs(area[q].sym[j], f);
      assert q != p;
      assert HasSymbol(area - {p}, q, j) && Backs((area - {p})[q].sym[j], f);
    }
  }

  lemma SpawnBacked(used: seq<nat>, area: map<nat, Area>, p: nat, a: Area)
    requires AllBacked(used, area) && p !in area
    ensures AllBacked(used, area[p := a])
  {
    hide Backs;
    forall f | f in used ensures BackedBySome(area[p := a], f) {
      var q: nat, j: nat :| HasSymbol(area, q, j) && Backs(area[q].sym[j], f);
      assert HasSymbol(area[p := a], q, j) && Backs(area[p := a][q].sym[j], f);
    }
  }

  // ----- ALLOC -----

  lemma GrowComplete(s: Sys, p: nat, size: nat, junk: Region)
    requires RegInv(s) && p in s.area && size > 0 && CanGrow(s, p, size)
    ensures RegInv(Grow(s, p, size, junk))
  {
    hide BaseInv;
    hide Laid;
    hide Whole;
    hide KernelApart;
    hide CanGrow;
    hide Backed;
    hide Enlist;
    hide Grow;
    GrowApart(s, p, size, junk);
    GrowUsed(s, p, size, junk);
    GrowShape(s, p, size, junk);
    GrowWhole(s.area[p], s.area[p].sbrk + PagesFor(size) * PAGESZ);
    KeepBacked(s.mem.ram.used, s.area, Grow(s, p, size, junk).area);
  }

  lemma AssignComplete(s: Sys, p: nat, rg: nat, i: nat, size: nat)
    requires RegInv(s) && p in s.area && rg < |s.area[p].sym| && s.area[p].sym[rg] == NOREGION
    requires i < |s.area[p].free| && 0 < size < 0x1_0000_0000 && Fits(s.area[p].free[i], size)
    ensures RegInv(s.(area := s.area[p := Assign(s.area[p], rg, i, size)]))
  {
    hide BaseInv;
    hide Laid;
    hide Whole;
    hide KernelApart;
    hide Backed;
    hide Cut;
    AssignApart(s, p, rg, i, size);
    AssignWhole(s.area[p], rg, i, size);
    KeepBacked(s.mem.ram.used, s.area, s.area[p := Assign(s.area[p], rg, i, size)]);
  }

  /** Overwriting a symbol that still holds a region loses that region. */
  lemma OverwriteBreaks(s: Sys, p: nat, rg: nat, i: nat, size: nat)
    requires RegInv(s) && p in s.area && rg < |s.area[p].sym| && s.area[p].sym[rg] != NOREGION
    requires i < |s.area[p].free| && size > 0 && Fits(s.area[p].free[i], size)
    ensures !RegInv(s.(area := s.area[p := Assign(s.area[p], rg, i, size)]))
  {
    hide BaseInv;
    hide Backed;
    hide Cut;
    var a := s.area[p];
    var a' := Assign(a, rg, i, size);
    var s' := s.(area := s.area[p := a']);
    AssignLaid(a, rg, i, size);
    if IsKernel(a.sym[rg]) {
      hide Laid;
      LostFrame(s.mem.ram.used, s.area, s'.area, p, rg, FirstFrame(a.sym[rg]));
    } else {
      LostByte(a, rg, i, size);
      assert s'.area[p] == a';
    }
  }

  lemma LostByte(a: Area, rg: nat, i: nat, size: nat)
    requires Laid(a) && rg < |a.sym| && a.sym[rg] != NOREGION && !IsKernel(a.sym[rg])
    requires i < |a.free| && size > 0 && Fits(a.free[i], size)
    ensures !Whole(Assign(a, rg, i, size))
  {
    var a' := Assign(a, rg, i, size);
    var x := a.sym[rg].start;
    assert In(a.sym[rg], x) && x < a.sbrk;
    CutCovers(a.free, i, size, x);
    assert !Covers(a.free, x) && !In(a.free[i], x);
    assert !InSome(a'.sym, x);
  }

  /** A frame of a kernel symbol that changes to one without the frame is lost. */
  lemma LostFrame(used: seq<nat>, area: map<nat, Area>, area': map<nat, Area>, p: nat, rg: nat, f: nat)
    requires KernelApart(used, area) && HasSymbol(area, p, rg) && Backs(area[p].sym[rg], f)
    requires SameTables(area, area') && !Backs(area'[p].sym[rg], f)
    requires forall q: nat, j: nat :: HasSymbol(area, q, j) && (q != p || j != rg) ==> area'[q].sym[j] == area[q].sym[j]
    ensures f in used && !BackedBySome(area', f)
  {
    hide Backs;
    forall q: nat, j: nat | HasSymbol(area', q, j) ensures !Backs(area'[q].sym[j], f) {
      assert HasSymbol(area, q, j);
    }
  }

  /** A served ALLOC keeps the partition exactly when its symbol is empty. */
  lemma AllocPartition(s: Sys, p: nat, rg: nat, size: nat, junk: Region)
    requires RegInv(s) && p in s.area && rg < |s.area[p].sym| && 0 < size < 0x1_0000_0000 && Serves(s, p, size)
    ensures RegInv(DoAlloc(s, p, rg, size, junk).0) <==> s.area[p].sym[rg] == NOREGION
  {
    hide RegInv;
    hide CanGrow;
    hide Grow;
    hide DoAlloc;
    hide Assign;
    var s1 := if FirstFit(s.area[p].free, size).Some? then s else Grow(s, p, size, junk);
    assert BaseInv(s) by { Parts(s); }
    AllocServed(s, p, rg, size, junk);
    if FirstFit(s.area[p].free, size).None? {
      GrowComplete(s, p, size, junk);
    }
    var i := FirstFit(s1.area[p].free, size).value;
    if s.area[p].sym[rg] == NOREGION {
      AssignComplete(s1, p, rg, i, size);
    } else {
      OverwriteBreaks(s1, p, rg, i, size);
    }
  }

  lemma Parts(s: Sys)
    requires RegInv(s)
    ensures BaseInv(s) && ApartInv(s)
  {
  }

  // ----- the other steps -----

  lemma FreeComplete(s: Sys, p: nat, rg: nat)
    requires RegInv(s) && p in s.area && (rg < |s.area[p].sym| ==> !IsKernel(s.area[p].sym[rg]))
    ensures RegInv(DoFree(s, p, rg).0)
  {
    hide BaseInv;
    hide Laid;
    hide Whole;
    hide KernelApart;
    hide Enlist;
    FreeApart(s, p, rg);
    if rg < |s.area[p].sym| && s.area[p].sym[rg] != NOREGION {
      FreeWhole(s.area[p], rg);
      KeepBacked(s.mem.ram.used, s.area, DoFree(s, p, rg).0.area);
    }
  }

  /** FREE undoes the ALLOC before it: the same bytes are free and the symbol
      table is as it was. The very same free list comes back if it was coalesced
      and had no zero-length node; otherwise it may be split differently. */
  lemma FreeUndoesAlloc(a: Area, rg: nat, i: nat, size: nat)
    requires Laid(a) && rg < |a.sym| && a.sym[rg] == NOREGION
    requires i < |a.free| && size > 0 && Fits(a.free[i], size)
    ensures var b := Assign(a, rg, i, size);
            var c := Area(b.sbrk, Enlist(b.free, b.sym[rg]), b.sym[rg := NOREGION]);
            && Laid(c) && c.sbrk == a.sbrk && c.sym == a.sym
            && (forall x: nat :: Covers(c.free, x) <==> Covers(a.free, x))
            && (Solid(a.free) && Coalesced(a.free) ==> c.free == a.free)
  {
    hide Enlist;
    hide Cut;
    hide Covers;
    hide Ordered;
    hide Solid;
    hide Coalesced;
    assert Ordered(a.free);
    hide Laid;
    var b := Assign(a, rg, i, size);
    AssignLaid(a, rg, i, size);
    FreeLaid(b, rg);
    FreeReturnsBytes(a, rg, i, size);
    if Solid(a.free) && Coalesced(a.free) {
      EnlistUndoesCut(a.free, i, size);
    }
  }

  lemma FreeReturnsBytes(a: Area, rg: nat, i: nat, size: nat)
    requires Laid(a) && rg < |a.sym| && i < |a.free| && size > 0 && Fits(a.free[i], size)
    ensures var b := Assign(a, rg, i, size);
            forall x: nat :: Covers(Enlist(b.free, b.sym[rg]), x) <==> Covers(a.free, x)
  {
    var b := Assign(a, rg, i, size);
    AssignLaid(a, rg, i, size);
    forall x: nat ensures Covers(Enlist(b.free, b.sym[rg]), x) <==> Covers(a.free, x) {
      EnlistCovers(b.free, b.sym[rg], x);
      CutCovers(a.free, i, size, x);
      assert In(b.sym[rg], x) ==> In(a.free[i], x);
    }
  }

  lemma KmallocComplete(s: Sys, p: nat, rg: nat, size: nat)
    requires RegInv(s) && p in s.area && size < 0x1_0000_0000
    ensures RegInv(DoKmalloc(s, p, rg, size).0)
  {
    hide BaseInv;
    hide Laid;
    hide Whole;
    hide KernelApart;
    hide AllBacked;
    hide KernelStart;
    hide Backs;
    var a := s.area[p];
    KmallocApart(s, p, rg, size);
    if rg < |a.sym| && size > 0 && a.sym[rg] == NOREGION {
      var f := KernelStart(s.mem.ram.free, PagesFor(size));
      if f.Some? {
        KmallocShape(s, p, rg, size);
        var block := Region(KBASE + f.value * PAGESZ, KBASE + f.value * PAGESZ + size);
        var s' := DoKmalloc(s, p, rg, size).0;
        hide DoKmalloc;
        BlockWhole(a, rg, block);
        KmallocBacked(s.mem.ram.used, s'.mem.ram.used, s.area, p, rg, block);
      }
    }
  }

  lemma ReapComplete(s: Sys, p: nat, order: seq<nat>)
    requires RegInv(s) && p in s.area && p !in s.mem.running && Enumerates(s.mem, p, order)
    ensures RegInv(Step(s, Reap(p, order)).0)
  {
    hide BaseInv;
    hide Laid;
    hide Whole;
    hide BackedBy;
    hide KernelApart;
    hide AllBacked;
    hide Enumerates;
    hide Step;
    ReapShape(s, p, order);
    ReapApart(s, p, order);
    ReapBacked(s.mem.ram.used, Step(s, Reap(p, order)).0.mem.ram.used, s.area, p);
  }

  lemma SpawnComplete(s: Sys, p: nat)
    requires RegInv(s)
    ensures RegInv(Step(s, Spawn(p)).0)
  {
    hide BaseInv;
    hide Laid;
    hide KernelApart;
    hide AllBacked;
    SpawnApart(s, p);
    if p !in s.area {
      SpawnBacked(s.mem.ram.used, s.area, p, Area(0, [], seq(SYMBOLS, _ => NOREGION)));
    }
  }

  lemma FinishComplete(s: Sys, p: nat)
    requires RegInv(s)
    ensures RegInv(Step(s, Finish(p)).0)
  {
    hide BaseInv;
    hide Laid;
    hide Whole;
    hide KernelApart;
    hide AllBacked;
    FinishApart(s, p);
  }

  lemma AccessComplete(s: Sys, op: Op)
    requires RegInv(s) && op.pid in s.area && IsInstruction(op) && !op.Alloc? && !op.Free? && !op.Kmalloc?
    ensures RegInv(Instruction(s, op).0)
  {
    hide BaseInv;
    hide Laid;
    hide Whole;
    hide KernelApart;
    hide AllBacked;
    hide Instruction;
    AccessApart(s, op);
    InstructionShape(s, op);
  }

  // ----- every step, exactly -----

  /** Orderly, and ALLOC targets an empty symbol. */
  ghost predicate Sound(s: Sys, op: Op) {
    && Orderly(s, op)
    && (op.Alloc? && op.pid in s.area && op.pid in s.mem.running && op.rg < |s.area[op.pid].sym| && op.size > 0 ==>
          s.area[op.pid].sym[op.rg] == NOREGION)
  }

  /** A step keeps the exact partition if and only if it is sound. */
  lemma StepExact(s: Sys, op: Op)
    requires RegInv(s)
    ensures RegInv(Step(s, op).0) <==> Sound(s, op)
  {
    Parts(s);
    StepApart(s, op);
    if Orderly(s, op) {
      OrderlyExact(s, op);
    } else if RegInv(Step(s, op).0) {
      hide RegInv;
      hide ApartInv;
      Parts(Step(s, op).0);
      assert false;
    }
  }

  lemma OrderlyExact(s: Sys, op: Op)
    requires RegInv(s) && Orderly(s, op)
    ensures RegInv(Step(s, op).0) <==> Sound(s, op)
  {
    hide RegInv;
    hide Serves;
    match op
    case Spawn(p) => SpawnComplete(s, p);
    case Finish(p) => FinishComplete(s, p);
    case Reap(p, order) =>
      if p in s.area && p !in s.mem.running && Enumerates(s.mem, p, order) {
        ReapComplete(s, p, order);
      }
    case Alloc(p, rg, size, junk) =>
      if p in s.area && p in s.mem.running && rg < |s.area[p].sym| && size > 0 {
        AllocPartition(s, p, rg, size, junk);
      }
    case Free(p, rg) =>
      if p in s.area && p in s.mem.running {
        FreeComplete(s, p, rg);
      }
    case Kmalloc(p, rg, size) =>
      if p in s.area && p in s.mem.running {
        KmallocComplete(s, p, rg, size);
      }
    case _ =>
      if op.pid in s.area && op.pid in s.mem.running {
        AccessComplete(s, op);
      }
  }

  ghost predicate SoundRun(s: Sys, ops: seq<Op>)
    decreases |ops|
  {
    ops != [] ==> Sound(s, ops[0]) && SoundRun(Step(s, ops[0]).0, ops[1..])
  }

  /** The exact partition holds after every run of sound steps. */
  lemma {:induction false} SoundRunAccounts(s: Sys, ops: seq<Op>)
    requires RegInv(s) && SoundRun(s, ops)
    ensures RegInv(Run(s, ops))
    decreases |ops|
  {
    hide RegInv;
    hide Sound;
    if ops != [] {
      StepExact(s, ops[0]);
      SoundRunAccounts(Step(s, ops[0]).0, ops[1..]);
    }
  }

  /** The exact partition after every sound run from boot. */
  lemma SoundRunFromBoot(ram: seq<seq<Byte>>, swp: seq<seq<Byte>>, ops: seq<Op>)
    requires WholePages(ram) && WholePages(swp) && SoundRun(Boot(ram, swp), ops)
    ensures RegInv(Run(Boot(ram, swp), ops))
  {
    BootAccounts(ram, swp);
    SoundRunAccounts(Boot(ram, swp), ops);
  }

  lemma BootAccounts(ram: seq<seq<Byte>>, swp: seq<seq<Byte>>)
    requires WholePages(ram) && WholePages(swp)
    ensures RegInv(Boot(ram, swp))
  {
    BootApart(ram, swp);
    hide ApartInv;
  }
}
