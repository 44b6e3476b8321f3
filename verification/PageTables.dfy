/**
 The lazily built 5-level page tables (src/mm64.c:110-525,
 src/libmem.c:1044-1107): tables are 512-entry blocks in one heap, linked by
 raw addresses, created on demand. Through all that linking they behave like
 one flat map from address space and page to page-table entry.
 */
module PageTables {

  /** A 64-bit word in a table: an index, the address of a table, or an entry. */
  datatype Word = Word(bits: bv64)

  const NULL: Word := Word(0)

  type Ptr = Word

  /** A table by index; an absent index is a zero entry. */
  type Table = map<Word, Word>

  /** Each process has its own user root; the kernel root is shared. */
  datatype Space = User(pid: nat) | Kernel

  /** Where a table sits: its address space and the indices that lead to it. */
  datatype Pos = Pos(space: Space, prefix: seq<Word>)

  /** `pos` is not in the program; it records where each table was linked. */
  datatype Heap = Heap(store: map<Ptr, Table>, roots: map<Space, Ptr>, pos: map<Ptr, Pos>)

  function Get(t: Table, i: Word): (e: Word) { if i in t then t[i] else NULL }

  function TableAt(h: Heap, p: Ptr): (t: Table) { if p in h.store then h.store[p] else map[] }

  function Root(h: Heap, sp: Space): (p: Ptr) { if sp in h.roots then h.roots[sp] else NULL }

  /** Follow the links idx from table t; NULL if one is missing. */
  function Descend(h: Heap, t: Ptr, idx: seq<Word>): (p: Ptr)
    decreases |idx|
  {
    if t == NULL || idx == [] then t
    else Descend(h, Get(TableAt(h, t), idx[0]), idx[1..])
  }

  /** The entry found by following `path` from table t. */
  function LookupFrom(h: Heap, t: Ptr, path: seq<Word>): (e: Word)
    requires path != []
    decreases |path|
  {
    if t == NULL then NULL
    else if |path| == 1 then Get(TableAt(h, t), path[0])
    else LookupFrom(h, Get(TableAt(h, t), path[0]), path[1..])
  }

  function Lookup(h: Heap, sp: Space, path: seq<Word>): (e: Word)
    requires |path| == 5
  {
    LookupFrom(h, Root(h, sp), path)
  }

  /** Every link leads to the table of its own position: the tables of all
      address spaces form separate trees of depth at most five. */
  ghost predicate Inv(h: Heap) {
    && NULL !in h.store
    && (forall p :: p in h.store ==> p in h.pos && |h.pos[p].prefix| <= 4)
    && (forall sp :: sp in h.roots && h.roots[sp] != NULL ==> h.roots[sp] in h.store && h.pos[h.roots[sp]] == Pos(sp, []))
    && (forall p, i {:trigger Get(h.store[p], i)} :: p in h.store && |h.pos[p].prefix| < 4 && Get(h.store[p], i) != NULL ==>
                                                       && Get(h.store[p], i) in h.store
                                                       && h.pos[Get(h.store[p], i)] == Pos(h.pos[p].space, h.pos[p].prefix + [i]))
  }

  ghost predicate SameLookups(h: Heap, h': Heap) {
    forall sp: Space, path: seq<Word> :: |path| == 5 ==> Lookup(h', sp, path) == Lookup(h, sp, path)
  }

  /** A walk ends at the table of the position it spells out. */
  lemma {:induction false} DescendPos(h: Heap, t: Ptr, idx: seq<Word>)
    requires Inv(h) && t in h.store && |h.pos[t].prefix| + |idx| <= 4
    ensures var p := Descend(h, t, idx);
            p != NULL ==> p in h.store && h.pos[p] == Pos(h.pos[t].space, h.pos[t].prefix + idx)
    decreases |idx|
  {
    if idx == [] {
      assert h.pos[t].prefix + idx == h.pos[t].prefix;
    } else {
      var q := Get(h.store[t], idx[0]);
      if q != NULL {
        assert h.pos[q].prefix + idx[1..] == h.pos[t].prefix + idx;
        DescendPos(h, q, idx[1..]);
      }
    }
  }

  lemma {:induction false} LookupIsDescend(h: Heap, t: Ptr, idx: seq<Word>, last: Word)
    ensures var leaf := Descend(h, t, idx);
            LookupFrom(h, t, idx + [last]) == if leaf == NULL then NULL else Get(TableAt(h, leaf), last)
    decreases |idx|
  {
    var path := idx + [last];
    if t != NULL && idx != [] {
      assert path[1..] == idx[1..] + [last];
      LookupIsDescend(h, Get(TableAt(h, t), idx[0]), idx[1..], last);
    }
  }

  lemma {:induction false} DescendStep(h: Heap, t: Ptr, idx: seq<Word>, i: Word)
    ensures Descend(h, t, idx + [i]) ==
            if Descend(h, t, idx) == NULL then NULL else Get(TableAt(h, Descend(h, t, idx)), i)
    decreases |idx|
  {
    if t != NULL && idx != [] {
      assert (idx + [i])[1..] == idx[1..] + [i];
      DescendStep(h, Get(TableAt(h, t), idx[0]), idx[1..], i);
    } else if idx == [] {
      assert (idx + [i])[1..] == [];
    }
  }

  // ----- linking a new table -----

  /** A fresh zero table becomes entry i of table t. */
  function Link(h: Heap, t: Ptr, i: Word, q: Ptr): (r: Heap)
    requires t in h.store && t in h.pos
  {
    Heap(h.store[q := map[]][t := h.store[t][i := q]], h.roots,
         h.pos[q := Pos(h.pos[t].space, h.pos[t].prefix + [i])])
  }

  ghost predicate Linkable(h: Heap, t: Ptr, i: Word, q: Ptr) {
    && Inv(h) && t in h.store && |h.pos[t].prefix| < 4 && Get(h.store[t], i) == NULL
    && q != NULL && q !in h.store
  }

  lemma LinkInv(h: Heap, t: Ptr, i: Word, q: Ptr)
    requires Linkable(h, t, i, q)
    ensures Inv(Link(h, t, i, q))
  {
    var h' := Link(h, t, i, q);
    forall p, j | p in h'.store && |h'.pos[p].prefix| < 4 && Get(h'.store[p], j) != NULL
      ensures Get(h'.store[p], j) in h'.store
      ensures h'.pos[Get(h'.store[p], j)] == Pos(h'.pos[p].space, h'.pos[p].prefix + [j])
    {
      if p != q && !(p == t && j == i) {
        assert Get(h'.store[p], j) == Get(h.store[p], j);
      }
    }
  }

  /** Creating a missing level changes no lookup. */
  lemma {:induction false} LinkLookup(h: Heap, t: Ptr, i: Word, q: Ptr, x: Ptr, path: seq<Word>)
    requires Linkable(h, t, i, q)
    requires x == NULL || (x in h.store && |h.pos[x].prefix| + |path| == 5)
    requires path != []
    ensures LookupFrom(Link(h, t, i, q), x, path) == LookupFrom(h, x, path)
    decreases |path|
  {
    var h' := Link(h, t, i, q);
    if x != NULL && |path| > 1 {
      if x == t && path[0] == i {
        assert Get(h'.store[x], i) == q;
        if |path| > 2 {
          assert LookupFrom(h', q, path[1..]) == LookupFrom(h', NULL, path[2..]);
        }
      } else {
        var y := Get(h.store[x], path[0]);
        assert Get(h'.store[x], path[0]) == y;
        LinkLookup(h, t, i, q, y, path[1..]);
      }
    }
  }

  lemma {:induction false} LinkDescend(h: Heap, t: Ptr, i: Word, q: Ptr, x: Ptr, idx: seq<Word>)
    requires Linkable(h, t, i, q)
    requires x == NULL || (x in h.store && |h.pos[x].prefix| + |idx| <= 4)
    requires Descend(h, x, idx) != NULL
    ensures Descend(Link(h, t, i, q), x, idx) == Descend(h, x, idx)
    decreases |idx|
  {
    if idx != [] {
      var y := Get(h.store[x], idx[0]);
      assert Get(Link(h, t, i, q).store[x], idx[0]) == y;
      LinkDescend(h, t, i, q, y, idx[1..]);
    }
  }

  lemma LinkSame(h: Heap, t: Ptr, i: Word, q: Ptr)
    requires Linkable(h, t, i, q)
    ensures SameLookups(h, Link(h, t, i, q))
  {
    forall sp: Space, path: seq<Word> | |path| == 5
      ensures Lookup(Link(h, t, i, q), sp, path) == Lookup(h, sp, path)
    {
      LinkLookup(h, t, i, q, Root(h, sp), path);
    }
  }

  /** A fresh zero table becomes the root of a space that had none. */
  function LinkRoot(h: Heap, sp: Space, q: Ptr): (r: Heap) {
    Heap(h.store[q := map[]], h.roots[sp := q], h.pos[q := Pos(sp, [])])
  }

  lemma LinkRootKeeps(h: Heap, sp: Space, q: Ptr)
    requires Inv(h) && Root(h, sp) == NULL && q != NULL && q !in h.store
    ensures Inv(LinkRoot(h, sp, q)) && SameLookups(h, LinkRoot(h, sp, q))
  {
    var h' := LinkRoot(h, sp, q);
    forall p, j | p in h'.store && |h'.pos[p].prefix| < 4 && Get(h'.store[p], j) != NULL
      ensures Get(h'.store[p], j) in h'.store
      ensures h'.pos[Get(h'.store[p], j)] == Pos(h'.pos[p].space, h'.pos[p].prefix + [j])
    {
      assert p != q && Get(h'.store[p], j) == Get(h.store[p], j);
    }
    forall sp': Space, path: seq<Word> | |path| == 5 ensures Lookup(h', sp', path) == Lookup(h, sp', path) {
      if sp' == sp {
        assert LookupFrom(h', q, path) == LookupFrom(h', NULL, path[1..]);
      } else {
        FreshTableLookup(h, h', q, Root(h, sp'), path);
      }
    }
  }

  lemma {:induction false} FreshTableLookup(h: Heap, h': Heap, q: Ptr, x: Ptr, path: seq<Word>)
    requires Inv(h) && q !in h.store && h'.store == h.store[q := map[]]
    requires x == NULL || (x in h.store && |h.pos[x].prefix| + |path| == 5)
    requires path != []
    ensures LookupFrom(h', x, path) == LookupFrom(h, x, path)
    decreases |path|
  {
    if x != NULL && |path| > 1 {
      FreshTableLookup(h, h', q, Get(h.store[x], path[0]), path[1..]);
    }
  }

  // ----- writing an entry -----

  function Store(h: Heap, t: Ptr, i: Word, v: Word): (r: Heap)
    requires t in h.store
  {
    h.(store := h.store[t := h.store[t][i := v]])
  }

  lemma StoreInv(h: Heap, t: Ptr, i: Word, v: Word)
    requires Inv(h) && t in h.store && |h.pos[t].prefix| == 4
    ensures Inv(Store(h, t, i, v))
  {
  }

  /** A write to a leaf table leaves every walk where it was. */
  lemma {:induction false} StoreDescend(h: Heap, t: Ptr, i: Word, v: Word, x: Ptr, idx: seq<Word>)
    requires Inv(h) && t in h.store && |h.pos[t].prefix| == 4
    requires x == NULL || (x in h.store && |h.pos[x].prefix| + |idx| <= 4)
    ensures Descend(Store(h, t, i, v), x, idx) == Descend(h, x, idx)
    decreases |idx|
  {
    if x != NULL && idx != [] {
      assert Get(Store(h, t, i, v).store[x], idx[0]) == Get(h.store[x], idx[0]);
      StoreDescend(h, t, i, v, Get(h.store[x], idx[0]), idx[1..]);
    }
  }

  /** Writing the entry that a walk reaches changes that one key of the flat
      map, in that one address space, and no other. */
  lemma StoreLookup(h: Heap, sp: Space, idx: seq<Word>, last: Word, v: Word)
    requires Inv(h) && |idx| == 4 && Descend(h, Root(h, sp), idx) != NULL
    ensures var leaf := Descend(h, Root(h, sp), idx);
            && leaf in h.store && |h.pos[leaf].prefix| == 4
            && Lookup(Store(h, leaf, last, v), sp, idx + [last]) == v
            && forall sp': Space, path: seq<Word> :: |path| == 5 && (sp' != sp || path != idx + [last]) ==>
                                                       Lookup(Store(h, leaf, last, v), sp', path) == Lookup(h, sp', path)
  {
    assert Root(h, sp) != NULL;
    DescendPos(h, Root(h, sp), idx);
    var leaf := Descend(h, Root(h, sp), idx);
    assert [] + idx == idx;
    var h' := Store(h, leaf, last, v);
    StoreDescend(h, leaf, last, v, Root(h, sp), idx);
    LookupIsDescend(h', Root(h, sp), idx, last);
    forall sp': Space, path: seq<Word> | |path| == 5 && (sp' != sp || path != idx + [last])
      ensures Lookup(h', sp', path) == Lookup(h, sp', path)
    {
      OtherKey(h, sp, idx, last, v, sp', path);
    }
  }

  lemma OtherKey(h: Heap, sp: Space, idx: seq<Word>, last: Word, v: Word, sp': Space, path: seq<Word>)
    requires Inv(h) && |idx| == 4 && Descend(h, Root(h, sp), idx) != NULL
    requires |path| == 5 && (sp' != sp || path != idx + [last])
    requires var leaf := Descend(h, Root(h, sp), idx);
             leaf in h.store && h.pos[leaf] == Pos(sp, idx)
    ensures Lookup(Store(h, Descend(h, Root(h, sp), idx), last, v), sp', path) == Lookup(h, sp', path)
  {
    var leaf := Descend(h, Root(h, sp), idx);
    var h' := Store(h, leaf, last, v);
    var idx', last' := path[..4], path[4];
    var x := Root(h, sp');
    assert path == idx' + [last'];
    StoreDescend(h, leaf, last, v, x, idx');
    LookupIsDescend(h', x, idx', last');
    LookupIsDescend(h, x, idx', last');
    if x != NULL {
      DescendPos(h, x, idx');
      assert [] + idx' == idx';
    }
  }

  // ----- freeing an address space -----

  /** All tables of one address space are freed and its root forgotten. */
  function DropSpace(h: Heap, sp: Space): (r: Heap) {
    Heap(map p | p in h.store && !(p in h.pos && h.pos[p].space == sp) :: h.store[p], h.roots - {sp}, h.pos)
  }

  lemma DropInv(h: Heap, sp: Space)
    requires Inv(h)
    ensures Inv(DropSpace(h, sp))
  {
    var h' := DropSpace(h, sp);
    forall p, j | p in h'.store && |h'.pos[p].prefix| < 4 && Get(h'.store[p], j) != NULL
      ensures Get(h'.store[p], j) in h'.store
      ensures h'.pos[Get(h'.store[p], j)] == Pos(h'.pos[p].space, h'.pos[p].prefix + [j])
    {
      assert Get(h'.store[p], j) == Get(h.store[p], j);
    }
  }

  lemma {:induction false} DropLookup(h: Heap, sp: Space, x: Ptr, path: seq<Word>)
    requires Inv(h) && path != []
    requires x == NULL || (x in h.store && h.pos[x].space != sp && |h.pos[x].prefix| + |path| == 5)
    ensures LookupFrom(DropSpace(h, sp), x, path) == LookupFrom(h, x, path)
    decreases |path|
  {
    if x != NULL && |path| > 1 {
      DropLookup(h, sp, Get(h.store[x], path[0]), path[1..]);
    }
  }

  /** Every page of the freed space loses its entry; no other space is touched. */
  lemma DropChangesOneSpace(h: Heap, sp: Space, sp': Space, path: seq<Word>)
    requires Inv(h) && |path| == 5
    ensures Lookup(DropSpace(h, sp), sp', path) == if sp' == sp then NULL else Lookup(h, sp', path)
  {
    if sp' != sp {
      DropLookup(h, sp, Root(h, sp'), path);
    }
  }
}
