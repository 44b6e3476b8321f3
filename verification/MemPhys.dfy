/**
 The memory device object (src/mm-memphy.c and the frame lists of
 src/libmem.c): a flat byte array and two frame lists, updated in place. Every
 method is specified on the page-wise view of the device.
 */
module MemPhys {
  import opened Basics
  import opened Devices
  import opened KernelFrames

  /** A flat store cut into whole pages; a partial last page is not a frame. */
  function Pages(st: seq<Byte>): (r: seq<seq<Byte>>)
    ensures |r| == |st| / PAGESZ
    ensures forall f :: 0 <= f < |r| ==> |r[f]| == PAGESZ
  {
    seq(|st| / PAGESZ, f requires 0 <= f < |st| / PAGESZ => st[f * PAGESZ..f * PAGESZ + PAGESZ])
  }

  /** Frames 0, ..., n-1 in order. */
  function Upto(n: nat): (r: seq<nat>)
    ensures |r| == n && forall i :: 0 <= i < n ==> r[i] == i
  {
    seq(n, i => i)
  }

  lemma StoreByte(st: seq<Byte>, f: nat, off: nat, b: Byte)
    requires f < |st| / PAGESZ && off < PAGESZ
    ensures var st': seq<Byte> := st[f * PAGESZ + off := b];
            var page: seq<Byte> := Pages(st)[f][off := b];
            Pages(st') == Pages(st)[f := page]
  {
  }

  /** The bytes after the last whole page belong to no frame. */
  lemma TailByte(st: seq<Byte>, a: nat, b: Byte)
    requires a < |st| && a / PAGESZ >= |st| / PAGESZ
    ensures var st': seq<Byte> := st[a := b];
            Pages(st') == Pages(st)
  {
    var st': seq<Byte> := st[a := b];
    forall f | 0 <= f < |st| / PAGESZ ensures Pages(st')[f] == Pages(st)[f] {
      assert f * PAGESZ + PAGESZ <= a;
    }
  }

  class MemPhy {
    const storage: array<Byte>
    var freeFp: seq<nat>
    var usedFp: seq<nat>

    ghost function View(): (d: Device)
      reads this, storage
      ensures Paged(d)
    {
      Device(Pages(storage[..]), freeFp, usedFp)
    }

    /** init_memphy and MEMPHY_format: zeroed bytes, every whole frame free. */
    constructor (maxsz: nat)
      ensures fresh(storage) && storage.Length == maxsz
      ensures View().free == Upto(maxsz / PAGESZ) && View().used == []
      ensures |View().pages| == maxsz / PAGESZ
      ensures forall a :: 0 <= a < maxsz ==> storage[a] == 0
    {
      storage := new Byte[maxsz](_ => 0);
      freeFp, usedFp := [], [];
      new;
      var numfp := maxsz / PAGESZ;
      for iter := 0 to numfp
        modifies this`freeFp
        invariant freeFp == Upto(iter)
      {
        freeFp := freeFp + [iter];
      }
    }

    /** MEMPHY_read, random access. */
    method Read(addr: nat) returns (b: Option<Byte>)
      ensures b == if addr < storage.Length then Some(storage[addr]) else None
      ensures addr / PAGESZ < |View().pages| ==> b == ByteAt(View(), addr / PAGESZ, addr % PAGESZ)
    {
      if addr >= storage.Length {
        return None;
      }
      b := Some(storage[addr]);
    }

    /** MEMPHY_write, random access. */
    method Write(addr: nat, b: Byte) returns (ok: bool)
      modifies storage
      ensures ok <==> addr < storage.Length
      ensures View() == SetByte(old(View()), addr / PAGESZ, addr % PAGESZ, b)
      ensures ok ==> storage[..] == old(storage[..])[..addr] + [b] + old(storage[..])[addr + 1..]
      ensures !ok ==> storage[..] == old(storage[..])
    {
      if addr >= storage.Length {
        assert storage[..] == old(storage[..]);
        return false;
      }
      storage[addr] := b;
      assert storage[..] == old(storage[..])[addr := b];
      var f, off := addr / PAGESZ, addr % PAGESZ;
      if f < storage.Length / PAGESZ {
        StoreByte(old(storage[..]), f, off, b);
        assert f * PAGESZ + off == addr;
      } else {
        TailByte(old(storage[..]), addr, b);
      }
      return true;
    }

    /** MEMPHY_get_freefp. */
    method GetFreeFp() returns (f: Option<nat>)
      modifies this`freeFp
      ensures if old(freeFp) == [] then f == None && View() == old(View())
              else f == Some(old(freeFp)[0]) && View() == Pop(old(View()))
      ensures f.Some? ==> old(freeFp) == [f.value] + freeFp
    {
      if freeFp == [] {
        return None;
      }
      f := Some(freeFp[0]);
      freeFp := freeFp[1..];
    }

    /** MEMPHY_put_freefp. */
    method PutFreeFp(f: nat)
      modifies this`freeFp
      ensures View() == Push(old(View()), f) && freeFp == [f] + old(freeFp)
    {
      freeFp := [f] + freeFp;
    }

    /** kernel_allocate_contiguous_frames: the lowest run of n consecutive free
        frames moves to the used list; None if there is no such run. */
    method AllocateContiguous(n: int) returns (start: Option<nat>)
      requires Distinct(freeFp)
      modifies this`freeFp, this`usedFp
      ensures n <= 0 ==> start.None?
      ensures n > 0 ==> LowestRun(old(freeFp), n, start)
      ensures View() == if start.None? then old(View()) else TakeRun(old(View()), start.value, n)
    {
      if n <= 0 {
        return None;
      }
      if |freeFp| < n {
        TooFewFrames(freeFp, n);
        return None;
      }
      SortKeeps(freeFp);
      var list := Sort(freeFp);
      var sel := ScanRuns(list, n);
      FirstRunIsLowest(freeFp, n, sel);
      if sel.None? {
        return None;
      }
      var s := list[sel.value];
      MoveToUsed(s, n);
      start := Some(s);
    }

    /** The list surgery of kernel_allocate_contiguous_frames. */
    method MoveToUsed(s: nat, n: nat)
      modifies this`freeFp, this`usedFp
      ensures View() == TakeRun(old(View()), s, n)
    {
      ghost var d := View();
      for i := 0 to n
        invariant View() == d
        invariant TakeRun(d, s + i, n - i) == TakeRun(old(View()), s, n)
      {
        hide Pages;
        hide Unlink;
        d := TakeOne(d, s + i);
        freeFp, usedFp := Unlink(freeFp, s + i), [s + i] + usedFp;
      }
    }

    /** The frame half of kernel_release_contiguous_region. */
    method ReleaseContiguous(s: nat, n: int)
      modifies this`freeFp, this`usedFp
      ensures View() == if n <= 0 then old(View()) else ReleaseRun(old(View()), s, n)
    {
      if n <= 0 {
        return;
      }
      for i := 0 to n
        invariant ReleaseRun(View(), s + i, n - i) == ReleaseRun(old(View()), s, n)
      {
        if s + i in usedFp {
          freeFp, usedFp := [s + i] + freeFp, Unlink(usedFp, s + i);
        }
      }
    }
  }

  /** __swap_cp_page: copy frame sf of `src` over frame df of `dst`, byte by
      byte; it fails exactly when one of the frames is not whole. */
  method SwapCpPage(src: MemPhy, sf: nat, dst: MemPhy, df: nat) returns (ok: bool)
    requires src.storage != dst.storage
    modifies dst.storage
    ensures ok <==> sf < |src.View().pages| && df < |old(dst.View()).pages|
    ensures ok ==> dst.View() == SetPage(old(dst.View()), df, PageAt(src.View(), sf))
  {
    var a, b := sf * PAGESZ, df * PAGESZ;
    for cell := 0 to PAGESZ
      invariant cell > 0 ==> a + cell <= src.storage.Length && b + cell <= dst.storage.Length
      invariant forall c :: b <= c < b + cell ==> dst.storage[c] == src.storage[a + (c - b)]
      invariant forall c :: 0 <= c < dst.storage.Length && !(b <= c < b + cell) ==> dst.storage[c] == old(dst.storage[c])
    {
      if a + cell >= src.storage.Length || b + cell >= dst.storage.Length {
        return false;
      }
      dst.storage[b + cell] := src.storage[a + cell];
    }
    ok := true;
    CopiedPage(old(dst.storage[..]), dst.storage[..], df, src.storage[..], sf);
  }

  lemma CopiedPage(was: seq<Byte>, now: seq<Byte>, df: nat, src: seq<Byte>, sf: nat)
    requires |was| == |now| && df < |was| / PAGESZ && sf < |src| / PAGESZ
    requires forall c :: df * PAGESZ <= c < df * PAGESZ + PAGESZ ==> now[c] == src[sf * PAGESZ + (c - df * PAGESZ)]
    requires forall c :: 0 <= c < |was| && !(df * PAGESZ <= c < df * PAGESZ + PAGESZ) ==> now[c] == was[c]
    ensures Pages(now) == Pages(was)[df := Pages(src)[sf]]
  {
    assert Pages(now)[df] == Pages(src)[sf];
    forall g | 0 <= g < |was| / PAGESZ && g != df ensures Pages(now)[g] == Pages(was)[g] {
      assert g * PAGESZ + PAGESZ <= df * PAGESZ || df * PAGESZ + PAGESZ <= g * PAGESZ;
    }
  }
}
