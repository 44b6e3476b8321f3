/**
 The memory seen byte by byte. Every access of the paging core is restated as
 an operation on one flat byte map per process and one for the kernel; the copy
 loops between user and kernel space follow from that.
 */
module Bytes {
  import opened Basics
  import opened Devices
  import opened Paging
  import opened Ownership
  import opened Transparency
  import opened KernelFrames
  import opened KernelMemory
  import opened Regions
  import opened System

  /** The byte process p has at virtual address va, if the page exists. */
  function UByte(m: Mem, p: nat, va: nat): (r: Option<Byte>) {
    var k := Vpn(p, va / PAGESZ);
    if k in UserView(m) && va % PAGESZ < |UserView(m)[k]| then Some(UserView(m)[k][va % PAGESZ]) else None
  }

  /** The byte at kernel address va, if the page exists. */
  function KByte(m: Mem, va: nat): (r: Option<Byte>) {
    if va < KBASE then None
    else
      var f := (va - KBASE) / PAGESZ;
      if f in KernelView(m) && va % PAGESZ < |KernelView(m)[f]| then Some(KernelView(m)[f][va % PAGESZ]) else None
  }

  ghost predicate SameUser(m: Mem, m': Mem) {
    forall q: nat, x: nat :: UByte(m', q, x) == UByte(m, q, x)
  }

  ghost predicate SameKernel(m: Mem, m': Mem) {
    forall x: nat :: KByte(m', x) == KByte(m, x)
  }

  ghost predicate SameSizes(m: Mem, m': Mem) {
    |m'.ram.pages| == |m.ram.pages| && |m'.swp.pages| == |m.swp.pages|
  }

  /** What no access to memory changes. */
  ghost predicate SameShape(m: Mem, m': Mem) {
    && m'.running == m.running && m'.fifo.Keys == m.fifo.Keys && m'.pt.Keys == m.pt.Keys
    && m'.kpt == m.kpt && m'.ram.used == m.ram.used
    && SameSizes(m, m')
  }

  lemma SwapOutShape(m: Mem, held: multiset<nat>, p: nat)
    requires MemInv(m, held)
    ensures SameShape(m, SwapOut(m, p).1)
  {
    hide MemInv;
    SwapOutSpec(m, held, p);
    SwapOutKeeps(m, held, p);
  }

  lemma GetPageShape(m: Mem, p: nat, pgn: nat)
    requires MemInv(m, multiset{}) && p in m.fifo
    ensures SameShape(m, GetPage(m, p, pgn).1)
  {
    hide MemInv;
    SwapOutShape(m, multiset{}, p);
    GetPageKeeps(m, p, pgn);
  }

  /** pg_getval reads the process's own byte and changes no byte of anyone. */
  lemma ReadBytes(m: Mem, p: nat, va: nat)
    requires MemInv(m, multiset{}) && p in m.fifo
    ensures var (b, m') := ReadByte(m, p, va);
            && MemInv(m', multiset{}) && SameShape(m, m') && SameUser(m, m') && SameKernel(m, m')
            && (b.Some? <==> Reachable(m, p, va / PAGESZ))
            && (b.Some? ==> b == UByte(m, p, va))
  {
    hide MemInv;
    hide Reachable;
    ReadByteKeeps(m, p, va);
    GetPageShape(m, p, va / PAGESZ);
  }

  /** pg_setval changes exactly the addressed byte of that process. */
  lemma WriteBytes(m: Mem, p: nat, va: nat, b: Byte)
    requires MemInv(m, multiset{}) && p in m.fifo
    ensures var (ok, m') := WriteByte(m, p, va, b);
            && MemInv(m', multiset{}) && SameShape(m, m') && SameKernel(m, m')
            && (ok <==> Reachable(m, p, va / PAGESZ))
            && (!ok ==> m' == m)
            && (ok ==> UByte(m', p, va) == Some(b))
            && (forall q: nat, x: nat :: q != p || x != va ==> UByte(m', q, x) == UByte(m, q, x))
  {
    hide MemInv;
    hide Reachable;
    WriteByteKeeps(m, p, va, b);
    GetPageShape(m, p, va / PAGESZ);
    var (ok, m') := WriteByte(m, p, va, b);
    if ok {
      PageLength(m, Vpn(p, va / PAGESZ));
      PutBytes(UserView(m), UserView(m'), m, m', Vpn(p, va / PAGESZ), va % PAGESZ, b);
      forall q: nat, x: nat | q != p || x != va ensures UByte(m', q, x) == UByte(m, q, x) {
        assert q != p || x / PAGESZ != va / PAGESZ || x % PAGESZ != va % PAGESZ;
      }
    }
  }

  lemma PageLength(m: Mem, k: Vpn)
    requires MemInv(m, multiset{}) && k in m.pt
    ensures |UserView(m)[k]| == PAGESZ
  {
  }

  lemma PutBytes(v: map<Vpn, seq<Byte>>, v': map<Vpn, seq<Byte>>, m: Mem, m': Mem, k: Vpn, off: nat, b: Byte)
    requires v == UserView(m) && v' == UserView(m') && k in v && off < |v[k]| == PAGESZ
    requires v' == v[k := PutByte(v[k], off, b)]
    ensures UByte(m', k.pid, k.pgn * PAGESZ + off) == Some(b)
    ensures forall q: nat, x: nat :: q != k.pid || x / PAGESZ != k.pgn || x % PAGESZ != off ==> UByte(m', q, x) == UByte(m, q, x)
  {
  }

  lemma KReadBytes(m: Mem, va: nat)
    requires MemInv(m, multiset{})
    ensures KReadByte(m, va) == KByte(m, va)
  {
    hide MemInv;
    KReadMeans(m, va);
  }

  /** A kernel write changes exactly the addressed kernel byte. */
  lemma KWriteBytes(m: Mem, va: nat, b: Byte)
    requires MemInv(m, multiset{})
    ensures var (ok, m') := KWriteByte(m, va, b);
            && MemInv(m', multiset{}) && SameShape(m, m') && SameUser(m, m')
            && (ok <==> KByte(m, va).Some?)
            && (!ok ==> m' == m)
            && (ok ==> KByte(m', va) == Some(b))
            && (forall x: nat :: x != va ==> KByte(m', x) == KByte(m, x))
  {
    hide MemInv;
    KWriteKeeps(m, va, b);
    KReadMeans(m, va);
    KReadBytes(m, va);
    var (ok, m') := KWriteByte(m, va, b);
    if ok {
      KPutBytes(m, m', va, b);
    }
  }

  lemma KPutBytes(m: Mem, m': Mem, va: nat, b: Byte)
    requires va >= KBASE && (va - KBASE) / PAGESZ in KernelView(m) && |KernelView(m)[(va - KBASE) / PAGESZ]| == PAGESZ
    requires var f := (va - KBASE) / PAGESZ;
             KernelView(m') == KernelView(m)[f := PutByte(KernelView(m)[f], va % PAGESZ, b)]
    ensures KByte(m', va) == Some(b)
    ensures forall x: nat :: x != va ==> KByte(m', x) == KByte(m, x)
  {
    hide KernelView;
    forall x: nat | x != va ensures KByte(m', x) == KByte(m, x) {
      if x >= KBASE && (x - KBASE) / PAGESZ == (va - KBASE) / PAGESZ {
        OtherOffset(x, va);
      }
    }
  }

  lemma OtherOffset(x: nat, va: nat)
    requires x >= KBASE && va >= KBASE && x != va && (x - KBASE) / PAGESZ == (va - KBASE) / PAGESZ
    ensures x % PAGESZ != va % PAGESZ
  {
    assert (x - KBASE) % PAGESZ == x % PAGESZ && (va - KBASE) % PAGESZ == va % PAGESZ;
  }

  // ----- copying between user and kernel space -----

  /** Address `off` bytes into symbol rg. */
  function Addr(a: Area, rg: nat, off: nat): (va: nat)
    requires rg < |a.sym|
  {
    a.sym[rg].start + off
  }

  /** va is one of the n bytes from offset `off` of symbol rg. */
  predicate InSpan(a: Area, rg: nat, off: nat, n: nat, va: nat) {
    rg < |a.sym| && Addr(a, rg, off) <= va < Addr(a, rg, off) + n
  }

  /** What copy_from_user does to the kernel bytes: they change only in the
      addressed range, and on success that range holds the user bytes. */
  ghost predicate CopiedFrom(m: Mem, r: (bool, Mem), a: Area, p: nat, src: nat, dst: nat, off: nat, n: nat) {
    && (forall x: nat :: !InSpan(a, dst, off, n, x) ==> KByte(r.1, x) == KByte(m, x))
    && (r.0 ==> src < |a.sym| && dst < |a.sym|)
    && (r.0 ==> forall i :: off <= i < off + n ==>
                              && UByte(m, p, Addr(a, src, i)).Some?
                              && KByte(r.1, Addr(a, dst, i)) == UByte(m, p, Addr(a, src, i)))
  }

  /** One byte read, one byte written, then the rest. */
  lemma CopyFromOne(m: Mem, m1: Mem, m2: Mem, r: (bool, Mem), a: Area, p: nat, src: nat, dst: nat, off: nat, n: nat)
    requires n > 0 && src < |a.sym| && dst < |a.sym|
    requires SameUser(m, m1) && SameUser(m1, m2) && SameKernel(m, m1)
    requires UByte(m, p, Addr(a, src, off)).Some? && KByte(m2, Addr(a, dst, off)) == UByte(m, p, Addr(a, src, off))
    requires forall x: nat :: x != Addr(a, dst, off) ==> KByte(m2, x) == KByte(m1, x)
    requires CopiedFrom(m2, r, a, p, src, dst, off + 1, n - 1)
    ensures CopiedFrom(m, r, a, p, src, dst, off, n)
  {
    hide UByte;
    hide KByte;
  }

  /** The copy broke off before anything was written. */
  lemma NothingCopiedFrom(m: Mem, m1: Mem, a: Area, p: nat, src: nat, dst: nat, off: nat, n: nat)
    requires SameKernel(m, m1)
    ensures CopiedFrom(m, (false, m1), a, p, src, dst, off, n)
    ensures src < |a.sym| && dst < |a.sym| ==> CopiedFrom(m, (true, m1), a, p, src, dst, off, 0)
  {
  }

  lemma SameAgain(m: Mem, m1: Mem, m2: Mem)
    ensures SameShape(m, m1) && SameShape(m1, m2) ==> SameShape(m, m2)
    ensures SameUser(m, m1) && SameUser(m1, m2) ==> SameUser(m, m2)
    ensures SameKernel(m, m1) && SameKernel(m1, m2) ==> SameKernel(m, m2)
  {
    hide UByte;
    hide KByte;
  }

  lemma SameSelf(m: Mem)
    ensures SameShape(m, m) && SameUser(m, m) && SameKernel(m, m)
  {
  }

  /** copy_from_user: user memory is untouched, kernel memory changes only in
      the addressed range, and on success that range holds the user bytes. */
  lemma {:induction false} CopyFromMoves(m: Mem, a: Area, p: nat, src: nat, dst: nat, off: nat, n: nat)
    requires MemInv(m, multiset{}) && p in m.fifo
    ensures var r := CopyFrom(m, a, p, src, dst, off, n);
            && MemInv(r.1, multiset{}) && SameShape(m, r.1) && SameUser(m, r.1)
            && CopiedFrom(m, r, a, p, src, dst, off, n)
    decreases n
  {
    hide MemInv;
    hide SameUser;
    hide SameKernel;
    hide CopiedFrom;
    hide UByte;
    hide KByte;
    hide ReadByte;
    hide KWriteByte;
    hide Reachable;
    var r := CopyFrom(m, a, p, src, dst, off, n);
    SameSelf(m);
    NothingCopiedFrom(m, m, a, p, src, dst, off, n);
    var ua, va := UserAddr(a, src, off), KernelAddr(a, dst, off);
    if n > 0 && src < |a.sym| && dst < |a.sym| && ua.Some? {
      ReadBytes(m, p, ua.value);
      var (b, m1) := ReadByte(m, p, ua.value);
      NothingCopiedFrom(m, m1, a, p, src, dst, off, n);
      if b.Some? && va.Some? {
        KWriteBytes(m1, va.value, b.value);
        var (ok, m2) := KWriteByte(m1, va.value, b.value);
        if ok {
          CopyFromMoves(m2, a, p, src, dst, off + 1, n - 1);
          SameAgain(m, m1, m2);
          SameAgain(m, m2, r.1);
          CopyFromOne(m, m1, m2, r, a, p, src, dst, off, n);
        }
      }
    }
  }

  /** What copy_to_user does to the user bytes. */
  ghost predicate CopiedTo(m: Mem, r: (bool, Mem), a: Area, p: nat, src: nat, dst: nat, off: nat, n: nat) {
    && (forall q: nat, x: nat :: q != p || !InSpan(a, dst, off, n, x) ==> UByte(r.1, q, x) == UByte(m, q, x))
    && (r.0 ==> src < |a.sym| && dst < |a.sym|)
    && (r.0 ==> forall i :: off <= i < off + n ==>
                              && KByte(m, Addr(a, src, i)).Some?
                              && UByte(r.1, p, Addr(a, dst, i)) == KByte(m, Addr(a, src, i)))
  }

  lemma CopyToOne(m: Mem, m1: Mem, r: (bool, Mem), a: Area, p: nat, src: nat, dst: nat, off: nat, n: nat)
    requires n > 0 && src < |a.sym| && dst < |a.sym| && SameKernel(m, m1)
    requires KByte(m, Addr(a, src, off)).Some? && UByte(m1, p, Addr(a, dst, off)) == KByte(m, Addr(a, src, off))
    requires forall q: nat, x: nat :: q != p || x != Addr(a, dst, off) ==> UByte(m1, q, x) == UByte(m, q, x)
    requires CopiedTo(m1, r, a, p, src, dst, off + 1, n - 1)
    ensures CopiedTo(m, r, a, p, src, dst, off, n)
  {
    hide UByte;
    hide KByte;
  }

  lemma NothingCopiedTo(m: Mem, a: Area, p: nat, src: nat, dst: nat, off: nat, n: nat)
    ensures CopiedTo(m, (false, m), a, p, src, dst, off, n)
    ensures src < |a.sym| && dst < |a.sym| ==> CopiedTo(m, (true, m), a, p, src, dst, off, 0)
  {
  }

  /** copy_to_user: kernel memory is untouched, user memory changes only in the
      addressed range of this process, and on success that range holds the
      kernel bytes. */
  lemma {:induction false} CopyToMoves(m: Mem, a: Area, p: nat, src: nat, dst: nat, off: nat, n: nat)
    requires MemInv(m, multiset{}) && p in m.fifo
    ensures var r := CopyTo(m, a, p, src, dst, off, n);
            && MemInv(r.1, multiset{}) && SameShape(m, r.1) && SameKernel(m, r.1)
            && CopiedTo(m, r, a, p, src, dst, off, n)
    decreases n
  {
    hide MemInv;
    hide SameKernel;
    hide CopiedTo;
    hide UByte;
    hide KByte;
    hide WriteByte;
    hide KReadByte;
    hide Reachable;
    var r := CopyTo(m, a, p, src, dst, off, n);
    SameSelf(m);
    NothingCopiedTo(m, a, p, src, dst, off, n);
    var va, ua := KernelAddr(a, src, off), UserAddr(a, dst, off);
    if n > 0 && src < |a.sym| && dst < |a.sym| && va.Some? {
      KReadBytes(m, va.value);
      var b := KReadByte(m, va.value);
      if b.Some? && ua.Some? {
        WriteBytes(m, p, ua.value, b.value);
        var (ok, m1) := WriteByte(m, p, ua.value, b.value);
        if ok {
          CopyToMoves(m1, a, p, src, dst, off + 1, n - 1);
          SameAgain(m, m1, r.1);
          CopyToOne(m, m1, r, a, p, src, dst, off, n);
        }
      }
    }
  }

  /** Out to the kernel and back: the target range of the second copy holds
      the bytes the source range had before the first; copying back into the
      same symbol leaves the memory of every process as it was. */
  lemma CopyRoundTrip(m: Mem, a: Area, p: nat, src: nat, buf: nat, dst: nat, off: nat, n: nat)
    requires MemInv(m, multiset{}) && p in m.fifo
    requires CopyFrom(m, a, p, src, buf, off, n).0
    requires CopyTo(CopyFrom(m, a, p, src, buf, off, n).1, a, p, buf, dst, off, n).0
    ensures var m2 := CopyTo(CopyFrom(m, a, p, src, buf, off, n).1, a, p, buf, dst, off, n).1;
            && src < |a.sym| && dst < |a.sym|
            && (forall i :: off <= i < off + n ==> UByte(m2, p, Addr(a, dst, i)) == UByte(m, p, Addr(a, src, i)))
            && (dst == src ==> SameUser(m, m2))
  {
    hide MemInv;
    hide UByte;
    hide KByte;
    var m1 := CopyFrom(m, a, p, src, buf, off, n).1;
    CopyFromMoves(m, a, p, src, buf, off, n);
    CopyToMoves(m1, a, p, buf, dst, off, n);
    var m2 := CopyTo(m1, a, p, buf, dst, off, n).1;
    if dst == src {
      forall q: nat, x: nat ensures UByte(m2, q, x) == UByte(m, q, x) {
        if q == p && InSpan(a, dst, off, n, x) {
          var i := x - a.sym[dst].start;
          assert x == Addr(a, dst, i);
        }
      }
    }
  }

  /** A region of user addresses in the kernel role is always rejected, and
      the rejected copy leaves every byte as it was. */
  lemma UserRegionRejected(m: Mem, a: Area, p: nat, src: nat, dst: nat, off: nat, n: nat)
    requires MemInv(m, multiset{}) && p in m.fifo && n > 0
    requires dst < |a.sym| && a.sym[dst].end <= KBASE
    ensures var (ok, m') := CopyFrom(m, a, p, src, dst, off, n);
            !ok && SameUser(m, m') && SameKernel(m, m')
    ensures var (ok, m') := CopyTo(m, a, p, dst, src, off, n);
            !ok && m' == m
  {
    hide MemInv;
    var (b, m1) := ReadAt(m, p, UserAddr(a, src, off));
    if UserAddr(a, src, off).Some? {
      ReadBytes(m, p, UserAddr(a, src, off).value);
    }
    var va := KernelAddr(a, dst, off);
    if va.Some? {
      assert KFrame(m1, va.value).None? && KFrame(m, va.value).None?;
    }
  }
}
