/**
 The page-table object (src/mm64.c walk_pte, pte_set_fpn, pte_set_swap,
 pte_get_entry, pte_set_entry, vmap_page_range; src/libmem.c kernel_walk_pte):
 the walks that create missing levels as they go, and may run out of memory at
 any of them.
 */
module PageWalk {
  import opened Bits
  import opened PageTables

  // ----- addresses as keys -----

  /** The four links to the leaf table of an address. */
  function Links(a: Addr): (r: seq<Word>)
    ensures |r| == 4
  {
    var p := PathOf(a);
    [Word(p.pgd), Word(p.p4d), Word(p.pud), Word(p.pmd)]
  }

  function Slot(a: Addr): (r: Word) { Word(PathOf(a).pt) }

  function FullPath(a: Addr): (r: seq<Word>)
    ensures |r| == 5
  {
    Links(a) + [Slot(a)]
  }

  /** The root a walk starts from: shared above, private below. */
  function SpaceOf(pid: nat, a: Addr): (sp: Space) {
    if KernelSide(a) then Kernel else User(pid)
  }

  /** pte_get_entry: 0 for a page without an entry and for an address that is
      not canonical. */
  function Entry(h: Heap, pid: nat, a: Addr): (pte: bv64) {
    if Canonical(a) then Lookup(h, SpaceOf(pid, a), FullPath(a)).bits else 0
  }

  /** The same page of the same address space. */
  predicate SamePage(pid: nat, a: Addr, q: nat, b: Addr) {
    SpaceOf(pid, a) == SpaceOf(q, b) && a >> 12 == b >> 12
  }

  lemma PageDeterminesPath(a: Addr, b: Addr)
    requires a >> 12 == b >> 12
    ensures PathOf(a) == PathOf(b) && Canonical(a) == Canonical(b) && KernelSide(a) == KernelSide(b)
  {
  }

  lemma PathEquality(a: Addr, b: Addr)
    ensures FullPath(a) == FullPath(b) <==> PathOf(a) == PathOf(b)
  {
    hide PathOf;
    if FullPath(a) == FullPath(b) {
      assert FullPath(a)[0] == FullPath(b)[0] && FullPath(a)[1] == FullPath(b)[1] && FullPath(a)[2] == FullPath(b)[2];
      assert FullPath(a)[3] == FullPath(b)[3] && FullPath(a)[4] == FullPath(b)[4];
    }
  }

  /** Canonical addresses lead to the same entry exactly when they share the page. */
  lemma SameKey(pid: nat, a: Addr, q: nat, b: Addr)
    requires Canonical(a) && Canonical(b)
    ensures SpaceOf(pid, a) == SpaceOf(q, b) && FullPath(a) == FullPath(b) <==> SamePage(pid, a, q, b)
  {
    PathEquality(a, b);
    if PathOf(a) == PathOf(b) {
      PathDeterminesPage(a, b);
    }
    if a >> 12 == b >> 12 {
      PageDeterminesPath(a, b);
    }
  }

  ghost predicate SameEntries(h: Heap, h': Heap) {
    forall q: nat, b: Addr :: Entry(h', q, b) == Entry(h, q, b)
  }

  lemma SameEntriesFrom(h: Heap, h': Heap)
    requires SameLookups(h, h')
    ensures SameEntries(h, h')
  {
  }

  /** Setting the entry of one page changes exactly that page: not another page,
      not another process, and not the other half of the address space. */
  lemma SetChangesOnePage(h: Heap, pid: nat, a: Addr, v: bv64)
    requires Inv(h) && Canonical(a) && Descend(h, Root(h, SpaceOf(pid, a)), Links(a)) != NULL
    ensures var leaf := Descend(h, Root(h, SpaceOf(pid, a)), Links(a));
            && leaf in h.store && |h.pos[leaf].prefix| == 4
            && forall q: nat, b: Addr :: Entry(Store(h, leaf, Slot(a), Word(v)), q, b) ==
                                         if SamePage(pid, a, q, b) then v else Entry(h, q, b)
  {
    hide PathOf;
    hide Canonical;
    hide KernelSide;
    var sp := SpaceOf(pid, a);
    var leaf := Descend(h, Root(h, sp), Links(a));
    StoreLookup(h, sp, Links(a), Slot(a), Word(v));
    var h' := Store(h, leaf, Slot(a), Word(v));
    forall q: nat, b: Addr ensures Entry(h', q, b) == if SamePage(pid, a, q, b) then v else Entry(h, q, b) {
      if Canonical(b) {
        SameKey(pid, a, q, b);
      } else if SamePage(pid, a, q, b) {
        PageDeterminesPath(a, b);
        assert false;
      }
    }
  }

  /** Root index i belongs to the half of the root that space sp uses. */
  predicate OwnHalf(sp: Space, i: Word) { sp == Kernel <==> i.bits >= 256 }

  /** The kernel root has entries in its upper half only, user roots in the lower. */
  ghost predicate Halves(h: Heap) {
    forall sp: Space, i: Word :: Root(h, sp) != NULL && Get(TableAt(h, Root(h, sp)), i) != NULL ==> OwnHalf(sp, i)
  }

  /** kernel_walk_pte on a user address finds nothing. */
  lemma UserAddressNotInKernel(h: Heap, a: Addr)
    requires Halves(h) && !KernelSide(a)
    ensures Descend(h, Root(h, Kernel), Links(a)) == NULL
  {
    RootHalves(a);
    assert Links(a)[0] == Word(PathOf(a).pgd);
  }

  lemma LinkHalf(h: Heap, t: Ptr, i: Word, q: Ptr)
    requires Linkable(h, t, i, q) && Halves(h)
    requires h.pos[t].prefix == [] ==> OwnHalf(h.pos[t].space, i)
    ensures Halves(Link(h, t, i, q))
  {
  }

  lemma LinkRootHalf(h: Heap, sp: Space, q: Ptr)
    requires Inv(h) && Halves(h) && Root(h, sp) == NULL && q != NULL && q !in h.store
    ensures Halves(LinkRoot(h, sp, q))
  {
  }

  lemma StoreHalf(h: Heap, t: Ptr, i: Word, v: Word)
    requires Inv(h) && Halves(h) && t in h.store && |h.pos[t].prefix| == 4
    ensures Halves(Store(h, t, i, v))
  {
  }

  /** Every walk that arrived still arrives at the same table. */
  ghost predicate Grows(h: Heap, h': Heap) {
    forall sp: Space, idx: seq<Word> :: |idx| <= 4 && Descend(h, Root(h, sp), idx) != NULL ==>
                                          Descend(h', Root(h', sp), idx) == Descend(h, Root(h, sp), idx)
  }

  lemma LinkGrows(h: Heap, t: Ptr, i: Word, q: Ptr)
    requires Linkable(h, t, i, q)
    ensures Grows(h, Link(h, t, i, q))
  {
    forall sp: Space, idx: seq<Word> | |idx| <= 4 && Descend(h, Root(h, sp), idx) != NULL
      ensures Descend(Link(h, t, i, q), Root(h, sp), idx) == Descend(h, Root(h, sp), idx)
    {
      LinkDescend(h, t, i, q, Root(h, sp), idx);
    }
  }

  lemma LinkRootGrows(h: Heap, sp: Space, q: Ptr)
    requires Inv(h) && Root(h, sp) == NULL && q != NULL && q !in h.store
    ensures Grows(h, LinkRoot(h, sp, q))
  {
    var h' := LinkRoot(h, sp, q);
    forall sp': Space, idx: seq<Word> | |idx| <= 4 && Descend(h, Root(h, sp'), idx) != NULL
      ensures Descend(h', Root(h', sp'), idx) == Descend(h, Root(h, sp'), idx)
    {
      assert sp' != sp;
      FreshTableDescend(h, h', q, Root(h, sp'), idx);
    }
  }

  lemma {:induction false} FreshTableDescend(h: Heap, h': Heap, q: Ptr, x: Ptr, idx: seq<Word>)
    requires Inv(h) && q !in h.store && h'.store == h.store[q := map[]]
    requires x == NULL || (x in h.store && |h.pos[x].prefix| + |idx| <= 4)
    ensures Descend(h', x, idx) == Descend(h, x, idx)
    decreases |idx|
  {
    if x != NULL && idx != [] {
      FreshTableDescend(h, h', q, Get(h.store[x], idx[0]), idx[1..]);
    }
  }

  lemma StoreGrows(h: Heap, t: Ptr, i: Word, v: Word)
    requires Inv(h) && t in h.store && |h.pos[t].prefix| == 4
    ensures Grows(h, Store(h, t, i, v))
  {
    forall sp: Space, idx: seq<Word> | |idx| <= 4 && Descend(h, Root(h, sp), idx) != NULL
      ensures Descend(Store(h, t, i, v), Root(h, sp), idx) == Descend(h, Root(h, sp), idx)
    {
      StoreDescend(h, t, i, v, Root(h, sp), idx);
    }
  }

  /** The table behind an entry sits one level further down. */
  lemma EntryTable(h: Heap, sp: Space, prefix: seq<Word>, t: Ptr, i: Word)
    requires Inv(h) && t in h.store && |prefix| < 4 && h.pos[t] == Pos(sp, prefix)
    requires Descend(h, Root(h, sp), prefix) == t
    ensures t != NULL && t in h.pos && |h.pos[t].prefix| < 4
    ensures var e := Get(h.store[t], i);
            && Descend(h, Root(h, sp), prefix + [i]) == e
            && (e != NULL ==> e in h.store && e in h.pos && h.pos[e] == Pos(sp, prefix + [i]))
  {
    DescendStep(h, Root(h, sp), prefix, i);
  }

  /** A table linked in at an empty entry. */
  lemma LinkTable(h: Heap, sp: Space, prefix: seq<Word>, t: Ptr, i: Word, q: Ptr)
    requires Inv(h) && t in h.store && |prefix| < 4 && h.pos[t] == Pos(sp, prefix)
    requires Descend(h, Root(h, sp), prefix) == t && Get(h.store[t], i) == NULL
    requires q != NULL && q !in h.store
    ensures var h' := Link(h, t, i, q);
            && Inv(h') && SameLookups(h, h') && Grows(h, h')
            && q in h'.store && q in h'.pos && h'.pos[q] == Pos(sp, prefix + [i])
            && Descend(h', Root(h', sp), prefix + [i]) == q
            && (Halves(h) && (prefix == [] ==> OwnHalf(sp, i)) ==> Halves(h'))
  {
    hide OwnHalf;
    hide Halves;
    LinkInv(h, t, i, q);
    LinkSame(h, t, i, q);
    LinkGrows(h, t, i, q);
    if Halves(h) && (prefix == [] ==> OwnHalf(sp, i)) {
      LinkHalf(h, t, i, q);
    }
    LinkDescend(h, t, i, q, Root(h, sp), prefix);
    DescendStep(Link(h, t, i, q), Root(h, sp), prefix, i);
    hide Inv;
    hide SameLookups;
    hide Grows;
  }

  // ----- what a walk does -----

  /** One level: the table behind entry i of t, or a fresh one from `mem`. */
  function FollowSpec(h: Heap, mem: seq<Ptr>, t: Ptr, i: Word, create: bool): (r: (Ptr, Heap, seq<Ptr>)) {
    var e := Get(TableAt(h, t), i);
    if e != NULL || !create || mem == [] then (e, h, mem)
    else if mem[0] == NULL || t !in h.store || t !in h.pos then (NULL, h, mem[1..])
    else (mem[0], Link(h, t, i, mem[0]), mem[1..])
  }

  function RootSpec(h: Heap, mem: seq<Ptr>, sp: Space, create: bool): (r: (Ptr, Heap, seq<Ptr>)) {
    if Root(h, sp) != NULL || !create || mem == [] then (Root(h, sp), h, mem)
    else if mem[0] == NULL then (NULL, h, mem[1..])
    else (mem[0], LinkRoot(h, sp, mem[0]), mem[1..])
  }

  /** Level by level along `links`, as long as there is a table. */
  function DescendSpec(h: Heap, mem: seq<Ptr>, t: Ptr, links: seq<Word>, create: bool): (r: (Ptr, Heap, seq<Ptr>))
    decreases |links|
  {
    if t == NULL || links == [] then (t, h, mem)
    else
      var (next, h1, mem1) := FollowSpec(h, mem, t, links[0], create);
      DescendSpec(h1, mem1, next, links[1..], create)
  }

  /** A whole walk in space sp: the leaf table, the tables and the memory left. */
  function WalkSpec(h: Heap, mem: seq<Ptr>, sp: Space, a: Addr, create: bool): (r: (Ptr, Heap, seq<Ptr>)) {
    if !Canonical(a) then (NULL, h, mem)
    else
      var (root, h1, mem1) := RootSpec(h, mem, sp, create);
      DescendSpec(h1, mem1, root, Links(a), create)
  }

  /** At a kernel address the walk that walk_pte makes for any process is the walk
      that kernel_walk_pte makes: same leaf, same new tables. */
  lemma WalksAgree(h: Heap, mem: seq<Ptr>, pid: nat, a: Addr, create: bool)
    ensures KernelSide(a) ==> WalkSpec(h, mem, SpaceOf(pid, a), a, create) == WalkSpec(h, mem, Kernel, a, create)
  {
  }

  // ----- the object -----

  class Tables {
    /** All tables of all processes, and the results of the coming table
        allocations: NULL where one fails, NULL again once the list ends. */
    var heap: Heap
    var supply: seq<Ptr>

    ghost predicate Valid()
      reads this
    {
      Sound() && Halves(heap)
    }

    ghost predicate Sound()
      reads this
    {
      && Inv(heap)
      && (forall i :: 0 <= i < |supply| && supply[i] != NULL ==> supply[i] !in heap.store)
      && (forall i, j :: 0 <= i < j < |supply| && supply[i] != NULL ==> supply[i] != supply[j])
    }

    constructor (memory: seq<Ptr>)
      requires forall i, j :: 0 <= i < j < |memory| && memory[i] != NULL ==> memory[i] != memory[j]
      ensures Valid() && supply == memory
      ensures forall q: nat, b: Addr :: Entry(heap, q, b) == 0
    {
      heap := Heap(map[], map[], map[]);
      supply := memory;
    }

    /** alloc_page_table. */
    method AllocTable() returns (p: Ptr)
      requires Sound()
      modifies this`supply
      ensures Sound()
      ensures p != NULL ==> p !in heap.store && p !in supply
      ensures old(supply) == [] ==> p == NULL && supply == []
      ensures old(supply) != [] ==> p == old(supply)[0] && supply == old(supply)[1..]
    {
      if supply == [] {
        return NULL;
      }
      p := supply[0];
      supply := supply[1..];
    }

    /** The first n allocations to come succeed. */
    ghost predicate Enough(n: nat)
      reads this
    {
      |supply| >= n && forall i :: 0 <= i < n ==> supply[i] != NULL
    }

    /** The root of a space, created on demand. */
    method OpenRoot(sp: Space, create: bool) returns (root: Ptr)
      requires Sound()
      modifies this
      ensures Sound() && SameLookups(old(heap), heap) && (old(Halves(heap)) ==> Halves(heap))
      ensures root == Root(heap, sp) && Grows(old(heap), heap)
      ensures (root, heap, supply) == RootSpec(old(heap), old(supply), sp, create)
      ensures !create || old(Root(heap, sp)) != NULL ==> heap == old(heap) && supply == old(supply)
      ensures create && old(Enough(5)) ==> root != NULL && Enough(4)
    {
      hide Halves;
      root := Root(heap, sp);
      if root == NULL && create {
        var p := AllocTable();
        if p != NULL {
          LinkRootKeeps(heap, sp, p);
          LinkRootGrows(heap, sp, p);
          if Halves(heap) {
            LinkRootHalf(heap, sp, p);
          }
          heap := LinkRoot(heap, sp, p);
          root := p;
        }
      }
    }

    /** One level of a walk: the table behind entry i of `t`, created on demand. */
    method Follow(sp: Space, t: Ptr, i: Word, create: bool, ghost prefix: seq<Word>, ghost left: nat) returns (next: Ptr)
      requires Sound() && t in heap.store && |prefix| < 4 && heap.pos[t] == Pos(sp, prefix)
      requires Descend(heap, Root(heap, sp), prefix) == t
      modifies this
      ensures Sound() && SameLookups(old(heap), heap) && Root(heap, sp) == old(Root(heap, sp))
      ensures old(Halves(heap)) && (create && prefix == [] ==> OwnHalf(sp, i)) ==> Halves(heap)
      ensures Grows(old(heap), heap)
      ensures (next, heap, supply) == FollowSpec(old(heap), old(supply), t, i, create)
      ensures next != NULL ==> next in heap.store && next in heap.pos && heap.pos[next] == Pos(sp, prefix + [i])
      ensures next == Descend(heap, Root(heap, sp), prefix + [i])
      ensures !create || old(Get(heap.store[t], i)) != NULL ==> heap == old(heap) && supply == old(supply)
      ensures create && old(Enough(left + 1)) ==> next != NULL && Enough(left)
      ensures old(Get(heap.store[t], i)) != NULL ==> next != NULL
    {
      hide OwnHalf;
      hide Halves;
      hide Inv;
      hide SameLookups;
      hide Grows;
      hide Descend;
      SameSelf(heap);
      EntryTable(heap, sp, prefix, t, i);
      next := Get(heap.store[t], i);
      if next == NULL && create {
        var p := AllocTable();
        if p != NULL {
          LinkTable(heap, sp, prefix, t, i, p);
          heap := Link(heap, t, i, p);
          next := p;
        }
      }
    }

    /** The walk has come k levels down from the root of sp, to table t. */
    ghost predicate Reached(h0: Heap, sp: Space, links: seq<Word>, k: nat, t: Ptr)
      reads this
    {
      && k <= |links|
      && Sound() && SameLookups(h0, heap) && Grows(h0, heap)
      && t != NULL && t in heap.store && t in heap.pos && heap.pos[t] == Pos(sp, links[..k])
      && Descend(heap, Root(heap, sp), links[..k]) == t
    }

    /** The next level of a walk along `links`. */
    method NextLevel(sp: Space, t: Ptr, links: seq<Word>, k: nat, create: bool, ghost h0: Heap) returns (next: Ptr)
      requires |links| == 4 && k < 4 && Reached(h0, sp, links, k, t)
      modifies this
      ensures Sound() && SameLookups(h0, heap) && Grows(h0, heap)
      ensures old(Halves(heap)) && (create && k == 0 ==> OwnHalf(sp, links[0])) ==> Halves(heap)
      ensures (next, heap, supply) == FollowSpec(old(heap), old(supply), t, links[k], create)
      ensures DescendSpec(heap, supply, next, links[k + 1..], create) ==
              DescendSpec(old(heap), old(supply), t, links[k..], create)
      ensures next == NULL || k == 3 ==> (next, heap, supply) == DescendSpec(old(heap), old(supply), t, links[k..], create)
      ensures if next == NULL then Descend(heap, Root(heap, sp), links) == NULL
              else Reached(h0, sp, links, k + 1, next)
      ensures create && old(Enough(4 - k)) ==> next != NULL && Enough(3 - k)
      ensures !create || old(Descend(heap, Root(heap, sp), links)) != NULL ==> heap == old(heap) && supply == old(supply)
    {
      hide Inv;
      hide Halves;
      hide OwnHalf;
      hide SameLookups;
      hide Grows;
      hide FollowSpec;
      assert links[..k + 1] == links[..k] + [links[k]];
      assert links[k..][0] == links[k] && links[k..][1..] == links[k + 1..];
      DescendStep(heap, Root(heap, sp), links[..k], links[k]);
      if Get(heap.store[t], links[k]) == NULL {
        MissingLink(heap, Root(heap, sp), links, k);
      }
      assert 4 - k == (3 - k) + 1;
      next := Follow(sp, t, links[k], create, links[..k], 3 - k);
      SameTransitive(h0, old(heap), heap);
      if next == NULL {
        MissingLink(heap, Root(heap, sp), links, k);
      }
    }

    /** walk_pte: choose the root by the side of the address, then follow the
        levels down. The result is the leaf table of the address, or NULL. Levels
        that are missing are created if asked for; no entry changes either way,
        and with memory at hand the walk always arrives. */
    method Walk(pid: nat, a: Addr, create: bool) returns (leaf: Ptr)
      requires Valid()
      modifies this
      ensures Valid() && SameLookups(old(heap), heap) && Grows(old(heap), heap)
      ensures (leaf, heap, supply) == WalkSpec(old(heap), old(supply), SpaceOf(pid, a), a, create)
      ensures !Canonical(a) ==> leaf == NULL && heap == old(heap)
      ensures Canonical(a) ==> leaf == Descend(heap, Root(heap, SpaceOf(pid, a)), Links(a))
      ensures !create ==> heap == old(heap)
      ensures Canonical(a) && create && old(Enough(5)) ==> leaf != NULL
      ensures Canonical(a) && old(Descend(heap, Root(heap, SpaceOf(pid, a)), Links(a))) != NULL ==> heap == old(heap)
    {
      hide Inv;
      hide Canonical;
      hide Links;
      hide KernelSide;
      hide Halves;
      hide OwnHalf;
      hide SameLookups;
      hide Grows;
      hide FollowSpec;
      SameSelf(heap);
      if !Canonical(a) {
        return NULL;
      }
      var sp, links := SpaceOf(pid, a), Links(a);
      hide SpaceOf;
      RootSlot(pid, a);
      ghost var whole := Descend(heap, Root(heap, sp), links);
      var root := OpenRoot(sp, create);
      if root == NULL {
        return NULL;
      }
      RootPos(heap, sp);
      leaf := root;
      ghost var h1, mem1 := heap, supply;
      assert links[..0] == [] && links[0..] == links;
      for k := 0 to 4
        invariant Reached(old(heap), sp, links, k, leaf) && Halves(heap)
        invariant DescendSpec(heap, supply, leaf, links[k..], create) == DescendSpec(h1, mem1, root, links, create)
        invariant !create || whole != NULL ==> heap == old(heap)
        invariant create && old(Enough(5)) ==> Enough(4 - k)
      {
        leaf := NextLevel(sp, leaf, links, k, create, old(heap));
        if leaf == NULL {
          return NULL;
        }
      }
      assert links[..4] == links && links[4..] == [];
    }

    /** kernel_walk_pte: the same tables from the kernel root, level after level.
        It finds and creates exactly what walk_pte does at a kernel address; at a
        user address, which no caller passes, it would build tables under the
        kernel root. */
    method KernelWalk(a: Addr, create: bool) returns (leaf: Ptr)
      requires Sound()
      modifies this
      ensures Sound() && SameLookups(old(heap), heap) && Grows(old(heap), heap)
      ensures old(Halves(heap)) && (create ==> KernelSide(a)) ==> Halves(heap)
      ensures (leaf, heap, supply) == WalkSpec(old(heap), old(supply), Kernel, a, create)
      ensures Canonical(a) ==> leaf == Descend(heap, Root(heap, Kernel), Links(a))
      ensures Canonical(a) && create && old(Enough(5)) ==> leaf != NULL
      ensures !create ==> heap == old(heap)
    {
      hide Inv;
      hide Canonical;
      hide Links;
      hide KernelSide;
      hide Halves;
      hide OwnHalf;
      hide SameLookups;
      hide Grows;
      hide FollowSpec;
      SameSelf(heap);
      if !Canonical(a) {
        return NULL;
      }
      var links := Links(a);
      RootSlot(0, a);
      if Root(heap, Kernel) == NULL && !create {
        return NULL;
      }
      var root := OpenRoot(Kernel, create);
      if root == NULL {
        return NULL;
      }
      RootPos(heap, Kernel);
      assert links[..0] == [];
      leaf := KernelLevels(root, links, create, old(heap));
    }

    /** The four levels of kernel_walk_pte below its root. */
    method KernelLevels(root: Ptr, links: seq<Word>, create: bool, ghost h0: Heap) returns (leaf: Ptr)
      requires |links| == 4 && Reached(h0, Kernel, links, 0, root)
      modifies this
      ensures Sound() && SameLookups(h0, heap) && Grows(h0, heap)
      ensures old(Halves(heap)) && (create ==> OwnHalf(Kernel, links[0])) ==> Halves(heap)
      ensures (leaf, heap, supply) == DescendSpec(old(heap), old(supply), root, links, create)
      ensures leaf == Descend(heap, Root(heap, Kernel), links)
      ensures create && old(Enough(4)) ==> leaf != NULL
      ensures !create ==> heap == old(heap)
    {
      hide Inv;
      hide Halves;
      hide OwnHalf;
      hide SameLookups;
      hide Grows;
      hide FollowSpec;
      hide Descend;
      hide DescendSpec;
      assert links[0..] == links && links[..4] == links && links[4..] == [];
      leaf := NextLevel(Kernel, root, links, 0, create, h0);
      if leaf != NULL {
        leaf := NextLevel(Kernel, leaf, links, 1, create, h0);
      }
      if leaf != NULL {
        leaf := NextLevel(Kernel, leaf, links, 2, create, h0);
        if leaf != NULL {
          leaf := NextLevel(Kernel, leaf, links, 3, create, h0);
        }
      }
    }

    /** pte_set_entry. */
    method SetEntry(pid: nat, a: Addr, v: bv64) returns (ok: bool)
      requires Valid()
      modifies this
      ensures Valid()
      ensures ok ==> forall q: nat, b: Addr :: Entry(heap, q, b) == if SamePage(pid, a, q, b) then v else old(Entry(heap, q, b))
      ensures !ok ==> SameEntries(old(heap), heap)
      ensures Canonical(a) && old(Enough(5)) ==> ok
      ensures !Canonical(a) ==> !ok
      ensures Grows(old(heap), heap)
      ensures Canonical(a) && old(Descend(heap, Root(heap, SpaceOf(pid, a)), Links(a))) != NULL ==> ok
    {
      hide Canonical;
      hide Links;
      hide SpaceOf;
      hide SamePage;
      hide Entry;
      hide Inv;
      hide Halves;
      hide SameLookups;
      hide Descend;
      hide KernelSide;
      var leaf := Walk(pid, a, true);
      SameEntriesFrom(old(heap), heap);
      if leaf == NULL {
        return false;
      }
      PutAt(pid, a, leaf, v);
      return true;
    }

    /** pte_set_fpn. */
    method SetFpn(pid: nat, a: Addr, fpn: bv64) returns (ok: bool)
      requires Valid()
      modifies this
      ensures Valid()
      ensures ok ==> forall q: nat, b: Addr :: Entry(heap, q, b) ==
                                               if SamePage(pid, a, q, b) then PresentPte(fpn) else old(Entry(heap, q, b))
      ensures ok && fpn < 0x100_0000_0000 ==> Decode(Entry(heap, pid, a)) == Resident(fpn)
      ensures !ok ==> SameEntries(old(heap), heap)
      ensures Canonical(a) && old(Enough(5)) ==> ok
      ensures Grows(old(heap), heap)
      ensures Canonical(a) && old(Descend(heap, Root(heap, SpaceOf(pid, a)), Links(a))) != NULL ==> ok
    {
      hide *;
      ok := SetEntry(pid, a, PresentPte(fpn));
      PteRoundTrip(fpn, 0);
      OwnPage(pid, a);
    }

    /** pte_set_swap. */
    method SetSwap(pid: nat, a: Addr, kind: bv64, slot: bv64) returns (ok: bool)
      requires Valid()
      modifies this
      ensures Valid()
      ensures ok ==> forall q: nat, b: Addr :: Entry(heap, q, b) ==
                                               if SamePage(pid, a, q, b) then SwappedPte(kind, slot) else old(Entry(heap, q, b))
      ensures ok && slot < 0x100_0000_0000 ==> Decode(Entry(heap, pid, a)) == OnSwap(slot)
      ensures !ok ==> SameEntries(old(heap), heap)
      ensures Canonical(a) && old(Enough(5)) ==> ok
      ensures Grows(old(heap), heap)
      ensures Canonical(a) && old(Descend(heap, Root(heap, SpaceOf(pid, a)), Links(a))) != NULL ==> ok
    {
      hide *;
      ok := SetEntry(pid, a, SwappedPte(kind, slot));
      PteRoundTrip(slot, kind);
      OwnPage(pid, a);
    }

    /** Write the entry of an address whose leaf table a walk has found. */
    method PutAt(pid: nat, a: Addr, leaf: Ptr, v: bv64)
      requires Valid() && Canonical(a) && leaf != NULL && leaf == Descend(heap, Root(heap, SpaceOf(pid, a)), Links(a))
      modifies this`heap
      ensures Valid() && Grows(old(heap), heap)
      ensures forall q: nat, b: Addr :: Entry(heap, q, b) == if SamePage(pid, a, q, b) then v else old(Entry(heap, q, b))
    {
      hide Canonical;
      hide Links;
      hide SpaceOf;
      hide SamePage;
      hide Entry;
      hide Inv;
      hide Halves;
      hide Grows;
      hide Descend;
      hide Store;
      StoreKeeps(heap, pid, a, leaf, v);
      heap := Store(heap, leaf, Slot(a), Word(v));
    }

    /** kernel_map_page: the kernel page of a frame gets the frame's entry. */
    method KernelMapPage(fpn: bv64) returns (ok: bool)
      requires Valid() && fpn < 0x8_0000_0000
      modifies this
      ensures Valid()
      ensures ok ==> forall q: nat, b: Addr :: Entry(heap, q, b) ==
                                               if SamePage(0, KernelAddr(fpn), q, b) then PresentPte(fpn) else old(Entry(heap, q, b))
      ensures !ok ==> SameEntries(old(heap), heap)
      ensures old(Enough(5)) ==> ok
    {
      var a := KernelAddr(fpn);
      KernelStart(fpn);
      KernelSpace(0, a);
      Halved();
      hide *;
      var leaf := KernelWalk(a, true);
      SameEntriesFrom(old(heap), heap);
      SameEntriesMeans(old(heap), heap);
      if leaf == NULL {
        return false;
      }
      Whole();
      PutAt(0, a, leaf, PresentPte(fpn));
      ok := true;
    }

    /** One round of the clearing loop of kernel_release_contiguous_region: the
        entry of the kernel page becomes zero, if there is one. */
    method KernelClearPage(fpn: bv64)
      requires Valid() && fpn < 0x8_0000_0000
      modifies this
      ensures Valid()
      ensures forall q: nat, b: Addr :: Entry(heap, q, b) ==
                                        if SamePage(0, KernelAddr(fpn), q, b) then 0 else old(Entry(heap, q, b))
    {
      var a := KernelAddr(fpn);
      KernelStart(fpn);
      KernelSpace(0, a);
      Halved();
      hide *;
      var leaf := KernelWalk(a, false);
      Whole();
      if leaf == NULL {
        NoLeafNoEntry(heap, 0, a);
      } else {
        PutAt(0, a, leaf, 0);
      }
    }

    lemma Halved()
      ensures Valid() ==> Sound() && Halves(heap)
    {
    }

    lemma Whole()
      ensures Sound() && Halves(heap) ==> Valid()
    {
    }

    /** The first n pages of a range have their leaf tables. */
    ghost predicate Walked(pid: nat, pages: seq<Word>, n: nat)
      requires n <= |pages|
      reads this
    {
      forall i :: 0 <= i < n ==> HasLeaf(heap, pid, pages[i].bits)
    }

    /** vmap_page_range of the pages from `addr` on, one for each frame: check the
        range, then walk every page, creating what is missing; only if all walks
        arrive are the pages mapped, in order, to the frames and put on the FIFO
        list. A bad range or a failed walk gives every frame back to the free
        list and changes no entry of any process. */
    method VmapPageRange(pid: nat, addr: nat, pages: seq<Word>, frames: seq<Word>, free: seq<Word>, fifo: seq<Word>)
      returns (ok: bool, free': seq<Word>, fifo': seq<Word>)
      requires Valid() && |pages| == |frames| && PagesAt(addr, pages)
      modifies this
      ensures Valid()
      ensures !RangeOk(addr, |pages|) ==> !ok && heap == old(heap)
      ensures !ok ==> SameEntries(old(heap), heap) && free' == Released(frames, free) && fifo' == fifo
      ensures ok ==> free' == free && fifo' == Newest(pages) + fifo
      ensures ok ==> forall i :: 0 <= i < |pages| ==> Entry(heap, pid, pages[i].bits) == PresentPte(frames[i].bits)
      ensures ok ==> forall q: nat, b: Addr :: !InPages(pid, pages, |pages|, q, b) ==> Entry(heap, q, b) == old(Entry(heap, q, b))
    {
      hide *;
      if !RangeOk(addr, |pages|) {
        SameSelf(heap);
        SameEntriesFrom(heap, heap);
        return false, Released(frames, free), fifo;
      }
      RangeGivesPages(addr, pages);
      ok := WalkAll(pid, pages);
      if !ok {
        return false, Released(frames, free), fifo;
      }
      label walked:
      fifo' := MapAll(pid, pages, frames, fifo);
      free' := free;
      SameEntriesMeans(old(heap), old@walked(heap));
    }

    /** The first loop: walk every page and create what is missing. */
    method WalkAll(pid: nat, pages: seq<Word>) returns (ok: bool)
      requires Valid() && PageList(pages)
      modifies this
      ensures Valid() && SameEntries(old(heap), heap)
      ensures ok ==> Walked(pid, pages, |pages|)
    {
      hide Canonical;
      hide Links;
      hide SpaceOf;
      hide Inv;
      hide Halves;
      hide SameLookups;
      hide Grows;
      hide Descend;
      hide WalkSpec;
      SameSelf(heap);
      for i := 0 to |pages|
        invariant Valid() && SameLookups(old(heap), heap) && Walked(pid, pages, i)
      {
        label before:
        var leaf := Walk(pid, pages[i].bits, true);
        SameAgain(old(heap), old@before(heap), heap);
        if leaf == NULL {
          SameEntriesFrom(old(heap), heap);
          return false;
        }
        LeavesStay(old@before(heap), heap, pid, pages, i);
      }
      SameEntriesFrom(old(heap), heap);
      ok := true;
    }

    /** The second loop: map the pages, whose leaf tables exist, in order. */
    method MapAll(pid: nat, pages: seq<Word>, frames: seq<Word>, fifo: seq<Word>) returns (fifo': seq<Word>)
      requires Valid() && |pages| == |frames| && PageList(pages) && Walked(pid, pages, |pages|)
      modifies this
      ensures Valid() && fifo' == Newest(pages) + fifo
      ensures forall i :: 0 <= i < |pages| ==> Entry(heap, pid, pages[i].bits) == PresentPte(frames[i].bits)
      ensures forall q: nat, b: Addr :: !InPages(pid, pages, |pages|, q, b) ==> Entry(heap, q, b) == old(Entry(heap, q, b))
    {
      hide Canonical;
      hide Links;
      hide SpaceOf;
      hide SamePage;
      hide PresentPte;
      hide Inv;
      hide Halves;
      hide Grows;
      hide Entry;
      hide Descend;
      fifo' := fifo;
      assert pages[..0] == [] && Newest([]) == [];
      hide Newest;
      for i := 0 to |pages|
        invariant Valid() && Walked(pid, pages, |pages|) && MappedSoFar(old(heap), heap, pid, pages, frames, i)
        invariant fifo' == Newest(pages[..i]) + fifo
      {
        label before:
        assert HasLeaf(heap, pid, pages[i].bits);
        var done := SetFpn(pid, pages[i].bits, frames[i].bits);
        MapNext(old(heap), old@before(heap), heap, pid, pages, frames, i);
        LeavesStay(old@before(heap), heap, pid, pages, |pages|);
        NewestStep(pages, i);
        fifo' := [pages[i]] + fifo';
      }
      assert pages[..|pages|] == pages;
    }

    /** pte_get_entry reads without creating anything. */
    method GetEntry(pid: nat, a: Addr) returns (pte: bv64)
      requires Valid()
      modifies this
      ensures Valid() && heap == old(heap) && pte == Entry(heap, pid, a)
    {
      var leaf := Walk(pid, a, false);
      pte := 0;
      if Canonical(a) {
        LookupIsDescend(heap, Root(heap, SpaceOf(pid, a)), Links(a), Slot(a));
        if leaf != NULL {
          pte := Get(TableAt(heap, leaf), Slot(a)).bits;
        }
      }
    }
  }

  /** Writing one entry keeps the trees in shape and changes one page. */
  lemma StoreKeeps(h: Heap, pid: nat, a: Addr, leaf: Ptr, v: bv64)
    requires Inv(h) && Halves(h) && Canonical(a)
    requires leaf != NULL && leaf == Descend(h, Root(h, SpaceOf(pid, a)), Links(a))
    ensures leaf in h.store
    ensures var h' := Store(h, leaf, Slot(a), Word(v));
            && Inv(h') && Halves(h') && Grows(h, h') && h'.store.Keys == h.store.Keys
            && forall q: nat, b: Addr :: Entry(h', q, b) == if SamePage(pid, a, q, b) then v else Entry(h, q, b)
  {
    hide Canonical;
    hide Links;
    hide SpaceOf;
    hide SamePage;
    hide Entry;
    hide Inv;
    hide Halves;
    hide Grows;
    hide Descend;
    SetChangesOnePage(h, pid, a, v);
    StoreInv(h, leaf, Slot(a), Word(v));
    StoreGrows(h, leaf, Slot(a), Word(v));
    StoreHalf(h, leaf, Slot(a), Word(v));
  }

  lemma SameEntriesMeans(h: Heap, h': Heap)
    requires SameEntries(h, h')
    ensures forall q: nat, b: Addr :: Entry(h', q, b) == Entry(h, q, b)
  {
  }

  lemma KernelStart(fpn: bv64)
    requires fpn < 0x8_0000_0000
    ensures Canonical(KernelAddr(fpn)) && KernelSide(KernelAddr(fpn))
  {
  }

  /** Pages under a missing leaf table have no entry. */
  lemma NoLeafNoEntry(h: Heap, pid: nat, a: Addr)
    requires Canonical(a) && Descend(h, Root(h, SpaceOf(pid, a)), Links(a)) == NULL
    ensures forall q: nat, b: Addr :: SamePage(pid, a, q, b) ==> Entry(h, q, b) == 0
  {
    hide PathOf;
    hide Canonical;
    hide KernelSide;
    LookupIsDescend(h, Root(h, SpaceOf(pid, a)), Links(a), Slot(a));
    forall q: nat, b: Addr | SamePage(pid, a, q, b) ensures Entry(h, q, b) == 0 {
      PageDeterminesPath(a, b);
      PathEquality(a, b);
    }
  }

  // ----- mapping a range -----

  ghost predicate HasLeaf(h: Heap, pid: nat, a: Addr) {
    Descend(h, Root(h, SpaceOf(pid, a)), Links(a)) != NULL
  }

  /** Canonical addresses and their side, by value. */
  predicate CanonicalNum(x: nat) { x < 0x100_0000_0000_0000 || KernelNum(x) }
  predicate KernelNum(x: nat) { x >= 0xff00_0000_0000_0000 }

  lemma CanonicalWords(a: Addr)
    ensures Canonical(a) <==> a < 0x100_0000_0000_0000 || a >= 0xff00_0000_0000_0000
    ensures Canonical(a) ==> (KernelSide(a) <==> a >= 0xff00_0000_0000_0000)
  {
  }

  lemma CanonicalByValue(a: Addr)
    ensures Canonical(a) <==> CanonicalNum(a as nat)
    ensures Canonical(a) ==> (KernelSide(a) <==> KernelNum(a as nat))
  {
    hide Canonical;
    hide KernelSide;
    CanonicalWords(a);
  }

  /** validate_page_range: an aligned start, no wrap-around, both ends canonical
      and on the same side. */
  predicate RangeOk(addr: nat, n: nat) {
    && addr % 4096 == 0
    && (n > 0 ==>
          var last := addr + (n - 1) * 4096;
          && last < 0x1_0000_0000_0000_0000
          && CanonicalNum(addr) && CanonicalNum(last) && KernelNum(addr) == KernelNum(last))
  }

  /** The words of the page addresses addr, addr + 4096, ...: shifted page
      numbers, which wrap around at 2^64. */
  ghost predicate PagesAt(addr: nat, pages: seq<Word>) {
    forall i :: 0 <= i < |pages| ==>
                  && pages[i].bits & 0xfff == 0
                  && (addr % 4096 == 0 ==> pages[i].bits as nat == (addr + i * 4096) % 0x1_0000_0000_0000_0000)
  }

  lemma AlignedWords(a: Addr, b: Addr)
    requires a >> 12 == b >> 12 && a & 0xfff == 0 && b & 0xfff == 0
    ensures a == b
  {
  }

  lemma PageValue(addr: nat, pages: seq<Word>, i: nat)
    requires RangeOk(addr, |pages|) && PagesAt(addr, pages) && i < |pages|
    ensures pages[i].bits as nat == addr + i * 4096
    ensures CanonicalNum(pages[i].bits as nat)
  {
    RangeValue(addr, |pages|, i, pages[i].bits as nat);
    hide RangeOk;
    hide CanonicalNum;
  }

  lemma RangeValue(addr: nat, n: nat, i: nat, v: nat)
    requires RangeOk(addr, n) && i < n
    ensures v == (addr + i * 4096) % 0x1_0000_0000_0000_0000 ==> v == addr + i * 4096 && CanonicalNum(v)
  {
    assert i * 4096 <= (n - 1) * 4096;
    assert addr + i * 4096 < 0x1_0000_0000_0000_0000;
  }

  lemma RangeGivesPages(addr: nat, pages: seq<Word>)
    requires RangeOk(addr, |pages|) && PagesAt(addr, pages)
    ensures PageList(pages)
  {
    hide Canonical;
    hide KernelSide;
    hide RangeOk;
    forall i | 0 <= i < |pages| ensures Canonical(pages[i].bits) && pages[i].bits as nat == addr + i * 4096 {
      PageValue(addr, pages, i);
      CanonicalByValue(pages[i].bits);
    }
    forall i, j | 0 <= i < j < |pages| ensures pages[i].bits >> 12 != pages[j].bits >> 12 {
      if pages[i].bits >> 12 == pages[j].bits >> 12 {
        AlignedWords(pages[i].bits, pages[j].bits);
      }
    }
  }

  /** The pages, newest first. */
  function Newest(pages: seq<Word>): (r: seq<Word>) {
    if pages == [] then [] else [pages[|pages| - 1]] + Newest(pages[..|pages| - 1])
  }

  lemma NewestStep(pages: seq<Word>, i: nat)
    requires i < |pages|
    ensures Newest(pages[..i + 1]) == [pages[i]] + Newest(pages[..i])
    ensures Newest([]) == []
  {
    assert pages[..i + 1][..i] == pages[..i];
  }

  /** Canonical addresses of different pages, as validate_page_range ensures. */
  ghost predicate PageList(pages: seq<Word>) {
    && (forall i :: 0 <= i < |pages| ==> Canonical(pages[i].bits))
    && (forall i, j :: 0 <= i < j < |pages| ==> pages[i].bits >> 12 != pages[j].bits >> 12)
  }

  /** (q, b) is one of the first n pages. */
  ghost predicate InPages(pid: nat, pages: seq<Word>, n: nat, q: nat, b: Addr)
    requires n <= |pages|
  {
    exists i :: 0 <= i < n && SamePage(pid, pages[i].bits, q, b)
  }

  /** release_frame_list. */
  function Released(frames: seq<Word>, free: seq<Word>): (r: seq<Word>)
    ensures multiset(r) == multiset(frames) + multiset(free)
    decreases |frames|
  {
    if frames == [] then free
    else
      assert frames == [frames[0]] + frames[1..];
      Released(frames[1..], [frames[0]] + free)
  }

  ghost predicate MappedSoFar(h0: Heap, h: Heap, pid: nat, pages: seq<Word>, frames: seq<Word>, n: nat) {
    && n <= |pages| == |frames|
    && (forall i :: 0 <= i < n ==> Entry(h, pid, pages[i].bits) == PresentPte(frames[i].bits))
    && (forall q: nat, b: Addr :: !InPages(pid, pages, n, q, b) ==> Entry(h, q, b) == Entry(h0, q, b))
  }

  lemma SameSelf(h: Heap)
    ensures SameLookups(h, h) && Grows(h, h)
  {
  }

  lemma SameAgain(a: Heap, b: Heap, c: Heap)
    requires SameLookups(a, b) && SameLookups(b, c)
    ensures SameLookups(a, c)
  {
  }

  lemma LeavesStay(h: Heap, h': Heap, pid: nat, pages: seq<Word>, n: nat)
    requires Grows(h, h') && n <= |pages| && forall i :: 0 <= i < n ==> HasLeaf(h, pid, pages[i].bits)
    ensures forall i :: 0 <= i < n ==> HasLeaf(h', pid, pages[i].bits)
  {
    hide Links;
    hide SpaceOf;
  }

  lemma MapNext(h0: Heap, h: Heap, h': Heap, pid: nat, pages: seq<Word>, frames: seq<Word>, n: nat)
    requires PageList(pages) && n < |pages| && MappedSoFar(h0, h, pid, pages, frames, n)
    requires forall q: nat, b: Addr :: Entry(h', q, b) ==
                                       if SamePage(pid, pages[n].bits, q, b) then PresentPte(frames[n].bits) else Entry(h, q, b)
    ensures MappedSoFar(h0, h', pid, pages, frames, n + 1)
  {
    hide Entry;
    hide PresentPte;
    hide Canonical;
    forall i | 0 <= i < n + 1 ensures Entry(h', pid, pages[i].bits) == PresentPte(frames[i].bits) {
      OwnPage(pid, pages[i].bits);
      assert i < n ==> !SamePage(pid, pages[n].bits, pid, pages[i].bits);
    }
    forall q: nat, b: Addr | !InPages(pid, pages, n + 1, q, b) ensures Entry(h', q, b) == Entry(h0, q, b) {
      assert !SamePage(pid, pages[n].bits, q, b);
      assert !InPages(pid, pages, n, q, b);
    }
  }

  lemma KernelSpace(pid: nat, a: Addr)
    ensures SpaceOf(pid, a) == Kernel <==> KernelSide(a)
  {
  }

  lemma OwnPage(pid: nat, a: Addr)
    ensures SamePage(pid, a, pid, a)
  {
  }

  lemma SameTransitive(a: Heap, b: Heap, c: Heap)
    requires SameLookups(a, b) && SameLookups(b, c) && Grows(a, b) && Grows(b, c)
    ensures SameLookups(a, c) && Grows(a, c)
  {
  }

  lemma RootSlot(pid: nat, a: Addr)
    ensures OwnHalf(SpaceOf(pid, a), Links(a)[0])
  {
  }

  lemma RootPos(h: Heap, sp: Space)
    requires Inv(h) && Root(h, sp) != NULL
    ensures Root(h, sp) in h.store && Root(h, sp) in h.pos && h.pos[Root(h, sp)] == Pos(sp, [])
  {
  }

  lemma {:induction false} MissingLink(h: Heap, t: Ptr, links: seq<Word>, k: nat)
    requires k < |links| && Descend(h, t, links[..k + 1]) == NULL
    ensures Descend(h, t, links) == NULL
    decreases |links|
  {
    if t != NULL && k > 0 {
      assert links[..k + 1][1..] == links[1..][..k];
      MissingLink(h, Get(TableAt(h, t), links[0]), links[1..], k - 1);
    } else if t != NULL {
      assert links[..1][1..] == [];
    }
  }
}
