/**
 The paging core works on a flat map from page to entry; the program keeps that
 map in the 5-level trees of PageTables, as 64-bit words. This module relates
 the two, for the user trees and for the kernel tree: what a tree represents,
 how each entry write, each new table and the end of a process change it, and
 that the traversal of process exit visits exactly the pages of the flat map.
 */
module PageMap {
  import opened Basics
  import opened Bits
  import opened PageTables
  import opened PageWalk
  import opened Paging
  import PageCollect
  import KernelMemory
  import Devices
  import System

  /** The value of a word. */
  function Num(x: bv64): (n: nat) { x as nat }

  function PageNo(a: Addr): (g: nat) { Num(a >> 12) }

  lemma NumberBack(x: bv64)
    ensures (x as nat) as bv64 == x
  {
  }

  lemma SameNumber(x: bv64, y: bv64)
    requires Num(x) == Num(y)
    ensures x == y
  {
    NumberBack(x);
    NumberBack(y);
  }

  lemma SamePageNo(a: Addr, b: Addr)
    ensures PageNo(a) == PageNo(b) <==> a >> 12 == b >> 12
  {
    if PageNo(a) == PageNo(b) {
      SameNumber(a >> 12, b >> 12);
    }
  }

  predicate UserSide(a: Addr) { Canonical(a) && !KernelSide(a) }

  /** What a table word means to the paging core. */
  function Means(pte: bv64): (e: Option<Pte>) {
    match Decode(pte)
    case Nothing => None
    case Resident(f) => Some(Present(Num(f)))
    case OnSwap(f) => Some(Swapped(Num(f)))
  }

  function At(pt: map<Vpn, Pte>, k: Vpn): (e: Option<Pte>) {
    if k in pt then Some(pt[k]) else None
  }

  ghost predicate Addressable(g: nat) {
    exists a: Addr :: UserSide(a) && PageNo(a) == g
  }

  /** The user trees of `h` hold exactly the entries of `pt`. */
  ghost predicate Represents(h: Heap, pt: map<Vpn, Pte>) {
    && (forall p: nat, a: Addr :: UserSide(a) ==> Means(Entry(h, p, a)) == At(pt, Vpn(p, PageNo(a))))
    && (forall k :: k in pt ==> Addressable(k.pgn))
  }

  function Put(pt: map<Vpn, Pte>, k: Vpn, e: Option<Pte>): (r: map<Vpn, Pte>) {
    match e
    case None => pt - {k}
    case Some(e) => pt[k := e]
  }

  lemma UserPages(p: nat, a: Addr, q: nat, b: Addr)
    requires UserSide(a) && UserSide(b)
    ensures SamePage(p, a, q, b) <==> Vpn(p, PageNo(a)) == Vpn(q, PageNo(b))
  {
    SamePageNo(a, b);
  }

  /** A write that changes one page of the trees changes that one key of the
      map they represent. */
  lemma WriteRepresents(h: Heap, h': Heap, pt: map<Vpn, Pte>, p: nat, a: Addr, v: bv64)
    requires Represents(h, pt) && UserSide(a)
    requires forall q: nat, b: Addr :: Entry(h', q, b) == if SamePage(p, a, q, b) then v else Entry(h, q, b)
    ensures Represents(h', Put(pt, Vpn(p, PageNo(a)), Means(v)))
  {
    hide Entry;
    hide Means;
    hide UserSide;
    hide SamePage;
    hide PageNo;
    var k := Vpn(p, PageNo(a));
    var pt' := Put(pt, k, Means(v));
    forall q: nat, b: Addr | UserSide(b) ensures Means(Entry(h', q, b)) == At(pt', Vpn(q, PageNo(b))) {
      UserPages(p, a, q, b);
    }
    assert Addressable(PageNo(a));
  }

  lemma StoredMeaning(f: bv64, kind: bv64)
    requires f < 0x100_0000_0000
    ensures Means(PresentPte(f)) == Some(Present(Num(f)))
    ensures Means(SwappedPte(kind, f)) == Some(Swapped(Num(f)))
  {
  }

  // ----- the kernel tree -----

  /** The kernel page table of the paging core at a kernel address: nothing lies
      below KMEM_VADDR_BASE. */
  function KernelAt(kpt: map<nat, nat>, a: Addr): (e: Option<Pte>) {
    if TopBits(a) && KernelIndex(a) in kpt then Some(Present(kpt[KernelIndex(a)])) else None
  }

  /** The address is KMEM_VADDR_BASE or above, and the index of its page there. */
  predicate TopBits(a: Addr) { a >> 47 == 0x1ffff }
  function KernelIndex(a: Addr): (g: nat) { Num((a & 0x7fff_ffff_ffff) >> 12) }

  ghost predicate KernelAddressable(f: nat) {
    exists fpn: bv64 :: fpn < 0x8_0000_0000 && Num(fpn) == f
  }

  /** The kernel tree of `h` holds exactly the entries of `kpt`, for every process. */
  ghost predicate KernelRepresents(h: Heap, kpt: map<nat, nat>) {
    && (forall p: nat, a: Addr :: Canonical(a) && KernelSide(a) ==> Means(Entry(h, p, a)) == KernelAt(kpt, a))
    && (forall f :: f in kpt ==> KernelAddressable(f))
  }

  function PutKernel(kpt: map<nat, nat>, f: nat, e: Option<Pte>): (r: map<nat, nat>) {
    match e
    case None => kpt - {f}
    case Some(e) => kpt[f := e.num]
  }

  /** (p, b) lies on the kernel page of frame fpn. */
  predicate OnKernelPage(fpn: bv64, p: nat, b: Addr) { SamePage(0, KernelAddr(fpn), p, b) }

  lemma OnPageForth(fpn: bv64, p: nat, b: Addr)
    ensures fpn < 0x8_0000_0000 && OnKernelPage(fpn, p, b) ==> TopBits(b) && KernelIndex(b) == Num(fpn)
  {
    hide KernelAddr;
    hide SpaceOf;
    hide Num;
    KernelPageForth(fpn, b);
  }

  lemma OnOwnPage(p: nat, b: Addr)
    requires KernelSide(b) && TopBits(b)
    ensures OnKernelPage((b & 0x7fff_ffff_ffff) >> 12, p, b)
  {
    KernelPageBack(b);
    OwnFrame(b);
    var fpn := (b & 0x7fff_ffff_ffff) >> 12;
    KernelStart(fpn);
    hide KernelAddr;
    hide KernelSide;
  }

  lemma OwnFrame(b: Addr)
    ensures (b & 0x7fff_ffff_ffff) >> 12 < 0x8_0000_0000
  {
  }

  lemma OnPageBack(fpn: bv64, p: nat, b: Addr)
    requires KernelSide(b) && TopBits(b) && KernelIndex(b) == Num(fpn)
    ensures OnKernelPage(fpn, p, b)
  {
    SameNumber((b & 0x7fff_ffff_ffff) >> 12, fpn);
    hide *;
    OnOwnPage(p, b);
  }

  lemma KernelPages(fpn: bv64, p: nat, b: Addr)
    requires fpn < 0x8_0000_0000 && KernelSide(b)
    ensures OnKernelPage(fpn, p, b) <==> TopBits(b) && KernelIndex(b) == Num(fpn)
  {
    hide *;
    OnPageForth(fpn, p, b);
    if TopBits(b) && KernelIndex(b) == Num(fpn) {
      OnPageBack(fpn, p, b);
    }
  }

  /** A write to the kernel page of a frame changes that one key. */
  lemma KernelWriteRepresents(h: Heap, h': Heap, kpt: map<nat, nat>, fpn: bv64, v: bv64)
    requires KernelRepresents(h, kpt) && fpn < 0x8_0000_0000
    requires forall q: nat, b: Addr :: Entry(h', q, b) == if OnKernelPage(fpn, q, b) then v else Entry(h, q, b)
    requires Means(v).None? || Means(v).value.Present?
    ensures KernelRepresents(h', PutKernel(kpt, Num(fpn), Means(v)))
  {
    hide Entry;
    hide Means;
    hide Canonical;
    hide KernelSide;
    hide OnKernelPage;
    hide TopBits;
    hide KernelIndex;
    var kpt' := PutKernel(kpt, Num(fpn), Means(v));
    forall q: nat, b: Addr | Canonical(b) && KernelSide(b) ensures Means(Entry(h', q, b)) == KernelAt(kpt', b) {
      KernelPages(fpn, q, b);
    }
    assert KernelAddressable(Num(fpn));
  }

  /** User and kernel pages never share an entry. */
  lemma SidesApart(p: nat, a: Addr, q: nat, b: Addr)
    requires KernelSide(a) != KernelSide(b)
    ensures !SamePage(p, a, q, b)
  {
  }

  lemma KernelPageNotUser(fpn: bv64, q: nat, b: Addr)
    requires fpn < 0x8_0000_0000 && UserSide(b)
    ensures !OnKernelPage(fpn, q, b)
  {
    KernelStart(fpn);
    SidesApart(0, KernelAddr(fpn), q, b);
  }

  // ----- both together -----

  /** The trees of `h` hold the page tables of `m`, user and kernel. */
  ghost predicate TreesOf(h: Heap, m: Mem) {
    Represents(h, m.pt) && KernelRepresents(h, m.kpt)
  }

  /** Tables just set up hold the page tables of a machine just started. */
  method BootTables(memory: seq<Ptr>, ghost ram: seq<seq<Devices.Byte>>, ghost swp: seq<seq<Devices.Byte>>) returns (t: Tables)
    requires forall i, j :: 0 <= i < j < |memory| && memory[i] != NULL ==> memory[i] != memory[j]
    ensures fresh(t) && t.Valid() && t.supply == memory
    ensures TreesOf(t.heap, System.Boot(ram, swp).mem)
  {
    t := new Tables(memory);
    NoEntryNoPage(t.heap, System.Boot(ram, swp).mem);
  }

  lemma NoEntryNoPage(h: Heap, m: Mem)
    requires m.pt == map[] && m.kpt == map[]
    requires forall q: nat, b: Addr :: Entry(h, q, b) == 0
    ensures TreesOf(h, m)
  {
    ZeroMeansNothing();
    hide Means;
    hide Entry;
  }

  /** Trees in which every page has the same entry, such as after a walk that
      created levels, hold the same tables. */
  lemma TreesSurvive(h: Heap, h': Heap, m: Mem)
    requires TreesOf(h, m) && SameEntries(h, h')
    ensures TreesOf(h', m)
  {
    hide Entry;
    hide Means;
  }

  lemma UserWriteTrees(h: Heap, h': Heap, m: Mem, p: nat, a: Addr, v: bv64)
    requires TreesOf(h, m) && UserSide(a)
    requires forall q: nat, b: Addr :: Entry(h', q, b) == if SamePage(p, a, q, b) then v else Entry(h, q, b)
    ensures TreesOf(h', m.(pt := Put(m.pt, Vpn(p, PageNo(a)), Means(v))))
  {
    WriteRepresents(h, h', m.pt, p, a, v);
    hide Represents;
    hide Entry;
    hide Means;
    hide SamePage;
    forall q: nat, b: Addr | Canonical(b) && KernelSide(b) ensures Means(Entry(h', q, b)) == KernelAt(m.kpt, b) {
      SidesApart(p, a, q, b);
    }
  }

  lemma KernelWriteTrees(h: Heap, h': Heap, m: Mem, fpn: bv64, v: bv64)
    requires TreesOf(h, m) && fpn < 0x8_0000_0000
    requires forall q: nat, b: Addr :: Entry(h', q, b) == if OnKernelPage(fpn, q, b) then v else Entry(h, q, b)
    requires Means(v).None? || Means(v).value.Present?
    ensures TreesOf(h', m.(kpt := PutKernel(m.kpt, Num(fpn), Means(v))))
  {
    KernelWriteRepresents(h, h', m.kpt, fpn, v);
    KernelStart(fpn);
    hide KernelRepresents;
    hide Entry;
    hide Means;
    hide OnKernelPage;
    forall q: nat, b: Addr | UserSide(b) ensures Means(Entry(h', q, b)) == At(m.pt, Vpn(q, PageNo(b))) {
      KernelPageNotUser(fpn, q, b);
    }
  }

  lemma ZeroMeansNothing()
    ensures Means(0) == None
  {
  }

  /** pte_set_fpn is the update of the paging core that makes a page resident. */
  method SetResident(t: Tables, p: nat, a: Addr, f: bv64, ghost m: Mem) returns (ok: bool)
    requires t.Valid() && TreesOf(t.heap, m) && UserSide(a) && f < 0x100_0000_0000
    modifies t
    ensures t.Valid()
    ensures TreesOf(t.heap, if ok then m.(pt := m.pt[Vpn(p, PageNo(a)) := Present(Num(f))]) else m)
    ensures old(t.Enough(5)) ==> ok
  {
    assert Canonical(a);
    hide *;
    ok := t.SetFpn(p, a, f);
    StoredMeaning(f, 0);
    if ok {
      UserWriteTrees(old(t.heap), t.heap, m, p, a, PresentPte(f));
      PutSome(m.pt, Vpn(p, PageNo(a)), Present(Num(f)));
    } else {
      TreesSurvive(old(t.heap), t.heap, m);
    }
  }

  /** pte_set_swap is the update of the paging core that evicts a page. */
  method SetSwappedOut(t: Tables, p: nat, a: Addr, kind: bv64, slot: bv64, ghost m: Mem) returns (ok: bool)
    requires t.Valid() && TreesOf(t.heap, m) && UserSide(a) && slot < 0x100_0000_0000
    modifies t
    ensures t.Valid()
    ensures TreesOf(t.heap, if ok then m.(pt := m.pt[Vpn(p, PageNo(a)) := Swapped(Num(slot))]) else m)
    ensures old(t.Enough(5)) ==> ok
  {
    assert Canonical(a);
    hide *;
    ok := t.SetSwap(p, a, kind, slot);
    StoredMeaning(slot, kind);
    if ok {
      UserWriteTrees(old(t.heap), t.heap, m, p, a, SwappedPte(kind, slot));
      PutSome(m.pt, Vpn(p, PageNo(a)), Swapped(Num(slot)));
    } else {
      TreesSurvive(old(t.heap), t.heap, m);
    }
  }

  lemma PutSome(pt: map<Vpn, Pte>, k: Vpn, e: Pte)
    ensures Put(pt, k, Some(e)) == pt[k := e]
  {
  }

  lemma PutKernelCases(kpt: map<nat, nat>, f: nat)
    ensures PutKernel(kpt, f, Some(Present(f))) == kpt[f := f]
    ensures PutKernel(kpt, f, None) == kpt - {f}
  {
  }

  /** The frames start, start+1, ... as the words that the tables store. */
  ghost predicate FrameWords(frames: seq<Word>, start: nat) {
    forall i :: 0 <= i < |frames| ==> frames[i].bits < 0x8_0000_0000 && Num(frames[i].bits) == start + i
  }

  /** Frames start, ..., start+n-1, each mapped to itself. */
  function Identity(start: nat, n: nat): (r: map<nat, nat>) {
    map f | f in KernelMemory.FrameRange(start, n) :: f
  }

  /** The mapping loop of kernel_alloc_contiguous_region; when a table cannot be
      allocated, what was mapped is cleared again. */
  method KernelMapRange(t: Tables, frames: seq<Word>, ghost m: Mem, ghost start: nat) returns (ok: bool)
    requires t.Valid() && TreesOf(t.heap, m) && FrameWords(frames, start)
    modifies t
    ensures t.Valid()
    ensures ok ==> TreesOf(t.heap, m.(kpt := KernelMemory.KTake(m, start, |frames|).kpt))
    ensures !ok ==> TreesOf(t.heap, m.(kpt := m.kpt - KernelMemory.FrameRange(start, |frames|)))
  {
    NothingMapped(m, start);
    TakeMaps(m, start, |frames|);
    hide Partly;
    hide TreesOf;
    hide KernelMemory.KTake;
    hide KernelMemory.FrameRange;
    hide Identity;
    for i := 0 to |frames|
      invariant t.Valid() && TreesOf(t.heap, Partly(m, start, i))
    {
      var done := MapNext(t, frames, i, m, start);
      if !done {
        KernelClearRange(t, frames, Partly(m, start, i), start);
        ClearsPartly(m, start, i, |frames|);
        return false;
      }
    }
    ok := true;
  }

  /** The memory after the first i frames have been mapped. */
  function Partly(m: Mem, start: nat, i: nat): (r: Mem) { m.(kpt := m.kpt + Identity(start, i)) }

  method MapNext(t: Tables, frames: seq<Word>, i: nat, ghost m: Mem, ghost start: nat) returns (ok: bool)
    requires t.Valid() && i < |frames| && TreesOf(t.heap, Partly(m, start, i)) && FrameWords(frames, start)
    modifies t
    ensures t.Valid() && TreesOf(t.heap, Partly(m, start, if ok then i + 1 else i))
  {
    hide TreesOf;
    hide Identity;
    ok := MapFrame(t, frames[i].bits, Partly(m, start, i));
    MapOneMore(m.kpt, start, i);
  }

  lemma NothingMapped(m: Mem, start: nat)
    ensures Partly(m, start, 0) == m
  {
    assert m.kpt + Identity(start, 0) == m.kpt;
  }

  lemma TakeMaps(m: Mem, start: nat, n: nat)
    ensures m.(kpt := KernelMemory.KTake(m, start, n).kpt) == Partly(m, start, n)
  {
  }

  lemma MapOneMore(kpt: map<nat, nat>, start: nat, i: nat)
    ensures (kpt + Identity(start, i))[start + i := start + i] == kpt + Identity(start, i + 1)
  {
  }

  lemma ClearsPartly(m: Mem, start: nat, i: nat, n: nat)
    requires i <= n
    ensures var range := KernelMemory.FrameRange(start, n);
            Partly(m, start, i).(kpt := Partly(m, start, i).kpt - range) == m.(kpt := m.kpt - range)
  {
    assert m.kpt + Identity(start, i) - KernelMemory.FrameRange(start, n) == m.kpt - KernelMemory.FrameRange(start, n);
  }

  method MapFrame(t: Tables, fpn: bv64, ghost m: Mem) returns (ok: bool)
    requires t.Valid() && TreesOf(t.heap, m) && fpn < 0x8_0000_0000
    modifies t
    ensures t.Valid()
    ensures TreesOf(t.heap, if ok then m.(kpt := m.kpt[Num(fpn) := Num(fpn)]) else m)
  {
    SmallFrame(fpn);
    hide *;
    ok := t.KernelMapPage(fpn);
    StoredMeaning(fpn, 0);
    if ok {
      KernelWriteTrees(old(t.heap), t.heap, m, fpn, PresentPte(fpn));
      PutKernelCases(m.kpt, Num(fpn));
    } else {
      TreesSurvive(old(t.heap), t.heap, m);
    }
  }

  lemma SmallFrame(fpn: bv64)
    requires fpn < 0x8_0000_0000
    ensures fpn < 0x100_0000_0000
  {
  }

  /** The clearing loop of kernel_release_contiguous_region. */
  method KernelClearRange(t: Tables, frames: seq<Word>, ghost m: Mem, ghost start: nat)
    requires t.Valid() && TreesOf(t.heap, m) && FrameWords(frames, start)
    modifies t
    ensures t.Valid() && TreesOf(t.heap, m.(kpt := m.kpt - KernelMemory.FrameRange(start, |frames|)))
  {
    hide TreesOf;
    hide Represents;
    ghost var kpt := m.kpt;
    for i := 0 to |frames|
      invariant t.Valid() && TreesOf(t.heap, m.(kpt := kpt))
      invariant kpt == m.kpt - KernelMemory.FrameRange(start, i)
    {
      ClearFrame(t, frames[i].bits, m.(kpt := kpt));
      ClearOneMore(m.kpt, kpt, start, i);
      kpt := kpt - {start + i};
    }
  }

  lemma ClearOneMore(kpt0: map<nat, nat>, kpt: map<nat, nat>, start: nat, i: nat)
    requires kpt == kpt0 - KernelMemory.FrameRange(start, i)
    ensures kpt - {start + i} == kpt0 - KernelMemory.FrameRange(start, i + 1)
  {
  }

  method ClearFrame(t: Tables, fpn: bv64, ghost m: Mem)
    requires t.Valid() && TreesOf(t.heap, m) && fpn < 0x8_0000_0000
    modifies t
    ensures t.Valid() && TreesOf(t.heap, m.(kpt := m.kpt - {Num(fpn)}))
  {
    assert forall q: nat, b: Addr :: OnKernelPage(fpn, q, b) == SamePage(0, KernelAddr(fpn), q, b);
    ZeroMeansNothing();
    hide *;
    t.KernelClearPage(fpn);
    KernelWriteTrees(old(t.heap), t.heap, m, fpn, 0);
    PutKernelCases(m.kpt, Num(fpn));
  }

  /** kernel_translate_vaddr on the tree: the frame behind the kernel address with
      page fpn and offset `off` is the one the paging core computes for the same
      address. */
  lemma TranslationAgrees(h: Heap, m: Mem, p: nat, fpn: bv64, off: bv64)
    requires KernelRepresents(h, m.kpt) && fpn < 0x8_0000_0000 && off < 4096
    ensures var pte := Entry(h, p, KernelAddr(fpn) + off);
            var va := KernelMemory.KBASE + Num(fpn) * Devices.PAGESZ + Num(off);
            KernelMemory.KFrame(m, va) == if IsPresent(pte) then Some(Num(Field(pte))) else None
  {
    hide *;
    KernelByte(fpn, off);
    SmallOffset(off);
    KernelValue(Num(fpn), Num(off));
    FrameOfEntry(h, m, p, KernelAddr(fpn) + off, Num(fpn), Num(off));
  }

  lemma SmallOffset(off: bv64)
    requires off < 4096
    ensures Num(off) < 4096
  {
  }

  lemma FrameOfEntry(h: Heap, m: Mem, p: nat, a: Addr, g: nat, off: nat)
    requires KernelRepresents(h, m.kpt) && Canonical(a) && KernelSide(a) && TopBits(a) && KernelIndex(a) == g
    requires (KernelMemory.KBASE + g * Devices.PAGESZ + off - KernelMemory.KBASE) / Devices.PAGESZ == g
    ensures var pte := Entry(h, p, a);
            KernelMemory.KFrame(m, KernelMemory.KBASE + g * Devices.PAGESZ + off) ==
            if IsPresent(pte) then Some(Num(Field(pte))) else None
  {
    hide Canonical;
    hide KernelSide;
    hide TopBits;
    hide KernelIndex;
    assert Means(Entry(h, p, a)) == KernelAt(m.kpt, a);
    hide Entry;
    hide IsPresent;
    hide IsSwapped;
    hide Field;
  }

  lemma KernelByte(fpn: bv64, off: bv64)
    requires fpn < 0x8_0000_0000 && off < 4096
    ensures var a := KernelAddr(fpn) + off;
            Canonical(a) && KernelSide(a) && TopBits(a) && KernelIndex(a) == Num(fpn)
  {
    hide KernelAddr;
    hide Canonical;
    hide KernelSide;
    hide Num;
    KernelByteBits(fpn, off);
    TopBitsKernel(KernelAddr(fpn) + off);
  }

  lemma KernelValue(f: nat, off: nat)
    requires off < 4096
    ensures (KernelMemory.KBASE + f * Devices.PAGESZ + off - KernelMemory.KBASE) / Devices.PAGESZ == f
  {
  }

  lemma DropHalves(h: Heap, sp: Space)
    requires Inv(h) && Halves(h)
    ensures Halves(DropSpace(h, sp))
  {
    hide OwnHalf;
    var h' := DropSpace(h, sp);
    forall sp': Space, i: Word | Root(h', sp') != NULL && Get(TableAt(h', Root(h', sp')), i) != NULL ensures OwnHalf(sp', i) {
      assert Get(TableAt(h, Root(h, sp')), i) != NULL;
    }
  }

  lemma DroppedEntry(h: Heap, p: nat, q: nat, b: Addr)
    requires Inv(h)
    ensures Entry(DropSpace(h, User(p)), q, b) == if SpaceOf(q, b) == User(p) then 0 else Entry(h, q, b)
  {
    hide Canonical;
    hide SpaceOf;
    hide FullPath;
    DropChangesOneSpace(h, User(p), SpaceOf(q, b), FullPath(b));
  }

  /** Freeing the tables of an exited process leaves well-formed trees, of the
      memory without its pages. */
  lemma ExitTrees(h: Heap, m: Mem, p: nat)
    requires Inv(h) && Halves(h) && TreesOf(h, m)
    ensures Inv(DropSpace(h, User(p))) && Halves(DropSpace(h, User(p)))
    ensures TreesOf(DropSpace(h, User(p)), m.(pt := map k | k in m.pt && k.pid != p :: m.pt[k]))
  {
    hide *;
    DropInv(h, User(p));
    DropHalves(h, User(p));
    DropTrees(h, m, p);
  }

  lemma DropTrees(h: Heap, m: Mem, p: nat)
    requires Inv(h) && TreesOf(h, m)
    ensures TreesOf(DropSpace(h, User(p)), m.(pt := map k | k in m.pt && k.pid != p :: m.pt[k]))
  {
    hide Means;
    hide Entry;
    hide Canonical;
    hide KernelSide;
    hide DropSpace;
    hide PageNo;
    hide Inv;
    ZeroMeansNothing();
    var h' := DropSpace(h, User(p));
    var pt' := map k | k in m.pt && k.pid != p :: m.pt[k];
    forall q: nat, a: Addr | UserSide(a) ensures Means(Entry(h', q, a)) == At(pt', Vpn(q, PageNo(a))) {
      DroppedEntry(h, p, q, a);
      assert SpaceOf(q, a) == User(q);
    }
    forall q: nat, a: Addr | Canonical(a) && KernelSide(a) ensures Means(Entry(h', q, a)) == KernelAt(m.kpt, a) {
      DroppedEntry(h, p, q, a);
      assert SpaceOf(q, a) == Kernel;
    }
  }

  // ----- ranges -----

  /** The paging core lets an area grow over exactly the ranges that
      validate_page_range accepts on the user side. */
  lemma MappableIsValidated(addr: nat, n: nat)
    requires addr % 4096 == 0
    ensures System.Mappable(addr, n) <==> RangeOk(addr, n) && (n > 0 ==> !KernelNum(addr))
  {
  }

  // ----- the traversal of process exit -----

  function PathAddr(path: seq<Word>): (a: Addr)
    requires |path| == 5
  {
    AddrOf(Path(path[0].bits, path[1].bits, path[2].bits, path[3].bits, path[4].bits), 0)
  }

  /** The pages whose frame or slot the traversal gives back, in order. */
  function Visited(r: seq<PageCollect.Found>): (s: seq<nat>)
  {
    if r == [] then []
    else if |r[0].path| != 5 || Means(r[0].entry.bits).None? then Visited(r[1..])
    else [PageNo(PathAddr(r[0].path))] + Visited(r[1..])
  }

  ghost predicate Counts(x: PageCollect.Found, g: nat) {
    |x.path| == 5 && Means(x.entry.bits).Some? && PageNo(PathAddr(x.path)) == g
  }

  lemma {:induction false} VisitedMembers(r: seq<PageCollect.Found>, g: nat)
    ensures g in Visited(r) <==> exists x :: x in r && Counts(x, g)
  {
    hide Means;
    hide PathAddr;
    hide PageNo;
    if r != [] {
      assert r == [r[0]] + r[1..];
      VisitedMembers(r[1..], g);
      assert g in Visited(r) <==> Counts(r[0], g) || g in Visited(r[1..]);
    }
  }

  /** A path of proper indices is the path of the user or kernel page it spells. */
  lemma PathIsFull(path: seq<Word>)
    requires |path| == 5 && PageCollect.Indices(path)
    ensures Canonical(PathAddr(path)) && FullPath(PathAddr(path)) == path
  {
    assert forall k :: 0 <= k < 5 ==> PageCollect.Index(path[k]);
    var p := Path(path[0].bits, path[1].bits, path[2].bits, path[3].bits, path[4].bits);
    hide AddrOf;
    hide Canonical;
    PathRoundTrip(p, 0);
    hide PathOf;
  }

  lemma FullIsPath(a: Addr)
    requires Canonical(a)
    ensures PageCollect.Indices(FullPath(a)) && PageNo(PathAddr(FullPath(a))) == PageNo(a)
  {
    assert PageCollect.Indices(FullPath(a));
    var b := PathAddr(FullPath(a));
    PathIsFull(FullPath(a));
    PathEquality(a, b);
    PathDeterminesPage(a, b);
    SamePageNo(a, b);
  }

  lemma UserPath(h: Heap, p: nat, path: seq<Word>)
    requires Halves(h) && |path| == 5 && PageCollect.Indices(path) && Lookup(h, User(p), path) != NULL
    ensures UserSide(PathAddr(path)) && Entry(h, p, PathAddr(path)) == Lookup(h, User(p), path).bits
  {
    hide PathAddr;
    hide PathOf;
    hide Canonical;
    hide KernelSide;
    PathIsFull(path);
    var a := PathAddr(path);
    RootHalves(a);
    assert path[0] == Word(PathOf(a).pgd);
    assert LookupFrom(h, NULL, path[1..]) == NULL;
    assert Get(TableAt(h, Root(h, User(p))), path[0]) != NULL;
  }

  lemma {:induction false} VisitedDistinct(r: seq<PageCollect.Found>)
    requires PageCollect.DistinctPaths(r)
    requires forall x :: x in r ==> |x.path| == 5 && PageCollect.Indices(x.path)
    ensures Distinct(Visited(r))
  {
    hide Means;
    hide PathAddr;
    hide PageNo;
    hide PageCollect.Indices;
    if r != [] {
      assert r == [r[0]] + r[1..];
      VisitedDistinct(r[1..]);
      if Means(r[0].entry.bits).Some? {
        var g := PageNo(PathAddr(r[0].path));
        VisitedMembers(r[1..], g);
        if g in Visited(r[1..]) {
          var x :| x in r[1..] && Counts(x, g);
          SameNumberSamePath(r[0].path, x.path);
          assert false;
        }
      }
    }
  }

  lemma SamePagePath(x: Addr, y: Addr)
    requires PageNo(x) == PageNo(y)
    ensures FullPath(x) == FullPath(y)
  {
    hide *;
    SamePageNo(x, y);
    PageDeterminesPath(x, y);
    PathEquality(x, y);
  }

  lemma SameNumberSamePath(a: seq<Word>, b: seq<Word>)
    requires |a| == 5 && |b| == 5 && PageCollect.Indices(a) && PageCollect.Indices(b)
    requires PageNo(PathAddr(a)) == PageNo(PathAddr(b))
    ensures a == b
  {
    hide *;
    PathIsFull(a);
    PathIsFull(b);
    SamePagePath(PathAddr(a), PathAddr(b));
  }

  /** The traversal gives back each page of the process exactly once. */
  lemma WalkEnumerates(h: Heap, m: Mem, p: nat)
    requires Represents(h, m.pt) && Halves(h) && Root(h, User(p)) != NULL
    ensures KernelMemory.Enumerates(m, p, Visited(PageCollect.Collect(h, Root(h, User(p)), 4, 0)))
  {
    var r := PageCollect.Collect(h, Root(h, User(p)), 4, 0);
    hide PageCollect.Collect;
    hide Halves;
    PageCollect.CollectIsExact(h, User(p));
    forall x | x in r ensures |x.path| == 5 && PageCollect.Indices(x.path) {
      assert x == PageCollect.Found(x.path, x.entry);
    }
    VisitedDistinct(r);
    forall g: nat ensures g in Visited(r) <==> Vpn(p, g) in m.pt {
      if g in Visited(r) {
        VisitedHasPage(h, m.pt, p, r, g);
      }
      if Vpn(p, g) in m.pt {
        PageIsVisited(h, m.pt, p, r, g);
      }
    }
  }

  ghost predicate ExactFor(h: Heap, p: nat, r: seq<PageCollect.Found>) {
    forall path: seq<Word>, e: Word :: PageCollect.Found(path, e) in r <==>
                                       |path| == 5 && PageCollect.Indices(path) && e != NULL && Lookup(h, User(p), path) == e
  }

  lemma VisitedHasPage(h: Heap, pt: map<Vpn, Pte>, p: nat, r: seq<PageCollect.Found>, g: nat)
    requires Represents(h, pt) && Halves(h) && ExactFor(h, p, r) && g in Visited(r)
    ensures Vpn(p, g) in pt
  {
    hide Halves;
    hide PathAddr;
    hide Means;
    VisitedMembers(r, g);
    var x :| x in r && Counts(x, g);
    assert x == PageCollect.Found(x.path, x.entry);
    UserPath(h, p, x.path);
  }

  lemma PageIsVisited(h: Heap, pt: map<Vpn, Pte>, p: nat, r: seq<PageCollect.Found>, g: nat)
    requires Represents(h, pt) && ExactFor(h, p, r) && Vpn(p, g) in pt
    ensures g in Visited(r)
  {
    hide PathAddr;
    hide FullPath;
    hide PageCollect.Indices;
    var a: Addr :| UserSide(a) && PageNo(a) == g;
    hide Canonical;
    assert Means(Entry(h, p, a)).Some?;
    assert Means(0).None?;
    var x := PageCollect.Found(FullPath(a), Word(Entry(h, p, a)));
    hide Means;
    FullIsPath(a);
    hide PageNo;
    assert x in r && Counts(x, g);
    VisitedMembers(r, g);
  }

  /** A process that has no root has no page. */
  lemma NoRootNoPage(h: Heap, m: Mem, p: nat)
    requires Represents(h, m.pt) && Root(h, User(p)) == NULL
    ensures KernelMemory.Enumerates(m, p, [])
  {
  }
}
