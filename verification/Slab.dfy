/**
 The slab cache (src/libmem.c:1354-1606): a pool hands out fixed-size slots of
 one slab, which moves between the empty, partial and full lists.
 */
module SlabCache {
  import opened Basics
  import opened Regions

  /** The slots of a slab in address order. */
  function Slots(base: nat, size: nat, count: nat): (r: seq<nat>)
    ensures |r| == count && forall i :: 0 <= i < count ==> r[i] == base + i * size
  {
    seq(count, i requires 0 <= i < count => base + i * size)
  }

  class Slab {
    const start: nat
    const slotSize: nat
    const slotCount: nat
    var freeCount: int
    var freeList: seq<nat>

    /** create_cache_slab builds the free list slot by slot. */
    constructor (base: nat, size: nat, count: nat)
      ensures start == base && slotSize == size && slotCount == count
      ensures freeCount == count && freeList == Slots(base, size, count)
    {
      start, slotSize, slotCount := base, size, count;
      freeCount, freeList := count, [];
      new;
      for idx := 0 to count
        modifies this`freeList
        invariant freeList == Slots(base, size, idx)
      {
        freeList := freeList + [base + idx * size];
      }
    }
  }

  /** cache_list_remove_slab. */
  method RemoveSlab(list: seq<Slab>, s: Slab) returns (r: seq<Slab>)
    ensures s !in list ==> r == list
    ensures s in list ==> exists i :: 0 <= i < |list| && list[i] == s && s !in list[..i] && r == list[..i] + list[i + 1..]
  {
    for i := 0 to |list|
      invariant s !in list[..i]
    {
      if list[i] == s {
        return list[..i] + list[i + 1..];
      }
    }
    r := list;
  }

  class Pool {
    const size: nat
    const align: nat
    const storage: nat
    const slotCount: nat
    var empty: seq<Slab>
    var partial: seq<Slab>
    var full: seq<Slab>
    /** The one slab of the pool, whichever list it is on. */
    ghost const slab: Slab

    /** How many slots have been handed out. */
    ghost function Taken(): (n: int)
      reads slab
    {
      slotCount - |slab.freeList|
    }

    /** The free list holds the slots not handed out, in address order; the free
        count is its length; and the slab is on the one list its count dictates. */
    ghost predicate Valid()
      reads this, slab
    {
      && align > 0 && slotCount > 0 && size == slotCount * align
      && 0 <= Taken()
      && slab.freeList == Slots(storage, align, slotCount)[Taken()..]
      && slab.freeCount == |slab.freeList|
      && empty == (if Taken() == 0 then [slab] else [])
      && partial == (if 0 < Taken() < slotCount then [slab] else [])
      && full == (if Taken() == slotCount then [slab] else [])
    }

    constructor (count: nat, align: nat, storage: nat)
      requires align > 0 && count > 0
      ensures Valid() && Taken() == 0 && fresh(slab)
      ensures this.align == align && this.storage == storage && slotCount == count
    {
      this.size, this.align, this.storage, this.slotCount := count * align, align, storage, count;
      var s := new Slab(storage, align, count);
      slab := s;
      empty, partial, full := [s], [], [];
    }

    /** __kmem_cache_alloc into a symbol that holds `sym`: the first free slot
        of the partial slab, else of the empty one, becomes the start of the
        symbol's region, and the slab moves to the list of its new count. */
    method Alloc(sym: Region) returns (rg: Option<Region>)
      requires Valid()
      modifies this, slab
      ensures Valid()
      ensures rg.Some? <==> sym == Region(0, 0) && old(Taken()) < slotCount
      ensures rg.Some? ==> Taken() == old(Taken()) + 1
      ensures rg.Some? ==> rg.value.start == storage + old(Taken()) * align && rg.value.end == rg.value.start + size
      ensures rg.None? ==> unchanged(this, slab)
    {
      if sym != Region(0, 0) || (partial == [] && empty == []) {
        return None;
      }
      ghost var taken := Taken();
      var s := if partial != [] then partial[0] else empty[0];
      assert s == slab;
      var slot := s.freeList[0];
      s.freeList := s.freeList[1..];
      s.freeCount := s.freeCount - 1;
      assert s.freeList == Slots(storage, align, slotCount)[taken + 1..];
      if s.freeCount == 0 {
        empty := RemoveSlab(empty, s);
        partial := RemoveSlab(partial, s);
        full := [s] + full;
      } else if empty != [] && empty[0] == s {
        empty := RemoveSlab(empty, s);
        partial := [s] + partial;
      }
      rg := Some(Region(slot, slot + size));
    }
  }

  /** The whole slots that `size` bytes hold. */
  lemma UsableSize(size: nat, align: nat)
    requires align > 0
    ensures size / align * align <= size < size / align * align + align
    ensures size / align * align == 0 <==> size < align
    ensures size / align == 0 <==> size < align
  {
  }

  /** The metadata of a new pool at `storage`: its slab is on the empty list. */
  method CreatePool(size: nat, align: nat, storage: nat) returns (p: Pool)
    requires 0 < align <= size
    ensures p.Valid() && p.Taken() == 0 && fresh(p) && fresh(p.slab)
    ensures p.storage == storage && p.align == align && p.size <= size < p.size + align
  {
    UsableSize(size, align);
    p := new Pool(size / align, align, storage);
  }

  lemma Scale(a: nat, b: nat, k: nat)
    requires a <= b
    ensures a * k <= b * k
  {
  }

  /** Slots do not overlap and lie inside the storage of the pool. */
  lemma SlotsDisjoint(storage: nat, align: nat, count: nat, i: nat, j: nat)
    requires i < j < count
    ensures Slots(storage, align, count)[i] + align <= Slots(storage, align, count)[j]
    ensures storage <= Slots(storage, align, count)[i]
    ensures Slots(storage, align, count)[j] + align <= storage + count * align
  {
    Scale(i + 1, j, align);
    Scale(j + 1, count, align);
    Scale(0, i, align);
  }

  /** The region recorded for a slot is as long as the whole pool, so it stays
      inside the pool's storage for the first slot only, and it covers the
      start of every later slot. */
  lemma SymbolRegionOverruns(storage: nat, align: nat, count: nat, i: nat)
    requires align > 0 && i < count
    ensures var rg := Region(Slots(storage, align, count)[i], Slots(storage, align, count)[i] + count * align);
            && (rg.end <= storage + count * align <==> i == 0)
            && forall j :: i <= j < count ==> In(rg, Slots(storage, align, count)[j])
  {
    if i > 0 {
      Scale(1, i, align);
    }
    forall j | i <= j < count ensures i * align <= j * align < i * align + count * align {
      Scale(i, j, align);
      Scale(j + 1, count, align);
      Scale(0, i, align);
    }
  }
}
