/**
 The page-table traversal of process exit (src/libmem.c:1931-1960
 pcb_memph_collect_recursive): it meets every entry of the address space
 exactly once, so no frame or slot is returned twice and none is missed.
 */
module PageCollect {
  import opened PageTables

  /** An entry together with the indices that lead to it. */
  datatype Found = Found(path: seq<Word>, entry: Word)

  /** The traversal of table t, `depth` levels above the leaves, from index i on. */
  function Collect(h: Heap, t: Ptr, depth: nat, i: bv64): (r: seq<Found>)
    decreases depth, 512 - i
  {
    if i >= 512 then []
    else Branch(h, t, depth, i) + Collect(h, t, depth, i + 1)
  }

  /** What one index contributes: the entry at a leaf, a subtree above. */
  function Branch(h: Heap, t: Ptr, depth: nat, i: bv64): (r: seq<Found>)
    requires i < 512
    decreases depth, 512 - i, 0
  {
    var e := Get(TableAt(h, t), Word(i));
    if e == NULL then []
    else if depth == 0 then [Found([Word(i)], e)]
    else Under(Word(i), Collect(h, e, depth - 1, 0))
  }

  /** The same entries, seen from one level up. */
  function Under(w: Word, r: seq<Found>): (q: seq<Found>)
    ensures |q| == |r| && forall k :: 0 <= k < |r| ==> q[k] == Found([w] + r[k].path, r[k].entry)
  {
    seq(|r|, k requires 0 <= k < |r| => Found([w] + r[k].path, r[k].entry))
  }

  predicate Index(w: Word) { w.bits < 512 }

  predicate FromIndex(i: bv64, w: Word) { i <= w.bits < 512 }

  predicate Indices(path: seq<Word>) {
    forall k :: 0 <= k < |path| ==> Index(path[k])
  }

  /** x is an entry below table t. */
  ghost predicate Below(h: Heap, t: Ptr, depth: nat, x: Found) {
    && |x.path| == depth + 1 && Indices(x.path)
    && x.entry != NULL && LookupFrom(h, t, x.path) == x.entry
  }

  lemma {:induction false} CollectSound(h: Heap, t: Ptr, depth: nat, i: bv64, x: Found)
    requires t != NULL && x in Collect(h, t, depth, i)
    ensures Below(h, t, depth, x) && FromIndex(i, x.path[0])
    decreases depth, 512 - i
  {
    if x in Branch(h, t, depth, i) {
      BranchSound(h, t, depth, i, x);
    } else {
      CollectSound(h, t, depth, i + 1, x);
    }
  }

  lemma {:induction false} BranchSound(h: Heap, t: Ptr, depth: nat, i: bv64, x: Found)
    requires t != NULL && i < 512 && x in Branch(h, t, depth, i)
    ensures Below(h, t, depth, x) && x.path[0] == Word(i)
    decreases depth, 512 - i, 0
  {
    var e := Get(TableAt(h, t), Word(i));
    if depth > 0 {
      var sub := Collect(h, e, depth - 1, 0);
      var k :| 0 <= k < |sub| && x == Under(Word(i), sub)[k];
      CollectSound(h, e, depth - 1, 0, sub[k]);
      assert x.path[1..] == sub[k].path;
    }
  }

  lemma {:induction false} CollectComplete(h: Heap, t: Ptr, depth: nat, i: bv64, x: Found)
    requires t != NULL && Below(h, t, depth, x) && FromIndex(i, x.path[0])
    ensures x in Collect(h, t, depth, i)
    decreases depth, 512 - i
  {
    if x.path[0] == Word(i) {
      BranchComplete(h, t, depth, i, x);
    } else {
      assert FromIndex(i + 1, x.path[0]);
      CollectComplete(h, t, depth, i + 1, x);
    }
  }

  lemma {:induction false} BranchComplete(h: Heap, t: Ptr, depth: nat, i: bv64, x: Found)
    requires t != NULL && i < 512 && Below(h, t, depth, x) && x.path[0] == Word(i)
    ensures x in Branch(h, t, depth, i)
    decreases depth, 512 - i, 0
  {
    var e := Get(TableAt(h, t), Word(i));
    if depth == 0 {
      assert x.path == [Word(i)];
    } else {
      var y := Found(x.path[1..], x.entry);
      assert Index(x.path[1]) && y.path[0] == x.path[1];
      assert LookupFrom(h, t, x.path) == LookupFrom(h, e, y.path);
      CollectComplete(h, e, depth - 1, 0, y);
      var sub := Collect(h, e, depth - 1, 0);
      var k :| 0 <= k < |sub| && sub[k] == y;
      assert x.path == [Word(i)] + y.path;
      assert Under(Word(i), sub)[k] == x;
    }
  }

  /** No entry is met twice. */
  ghost predicate DistinctPaths(r: seq<Found>) {
    forall a, b :: 0 <= a < b < |r| ==> r[a].path != r[b].path
  }

  lemma UnderDistinct(w: Word, r: seq<Found>)
    requires DistinctPaths(r)
    ensures DistinctPaths(Under(w, r))
  {
    forall a, b | 0 <= a < b < |r| ensures Under(w, r)[a].path != Under(w, r)[b].path {
      assert ([w] + r[a].path)[1..] == r[a].path && ([w] + r[b].path)[1..] == r[b].path;
    }
  }

  lemma JoinDistinct(r: seq<Found>, q: seq<Found>)
    requires DistinctPaths(r) && DistinctPaths(q)
    requires forall a, b :: 0 <= a < |r| && 0 <= b < |q| ==> r[a].path != q[b].path
    ensures DistinctPaths(r + q)
  {
  }

  lemma OtherBranch(h: Heap, t: Ptr, depth: nat, i: bv64, x: Found, y: Found)
    requires t != NULL && i < 512 && x in Branch(h, t, depth, i) && y in Collect(h, t, depth, i + 1)
    ensures x.path != y.path
  {
    hide Branch;
    hide Collect;
    BranchSound(h, t, depth, i, x);
    CollectSound(h, t, depth, i + 1, y);
    assert x.path[0] != y.path[0];
  }

  lemma {:induction false} CollectDistinct(h: Heap, t: Ptr, depth: nat, i: bv64)
    requires t != NULL
    ensures DistinctPaths(Collect(h, t, depth, i))
    decreases depth, 512 - i
  {
    hide Branch;
    hide DistinctPaths;
    if i < 512 {
      var here, later := Branch(h, t, depth, i), Collect(h, t, depth, i + 1);
      BranchDistinct(h, t, depth, i);
      CollectDistinct(h, t, depth, i + 1);
      forall a, b | 0 <= a < |here| && 0 <= b < |later| ensures here[a].path != later[b].path {
        OtherBranch(h, t, depth, i, here[a], later[b]);
      }
      JoinDistinct(here, later);
    } else {
      NoneDistinct();
    }
  }

  lemma NoneDistinct()
    ensures DistinctPaths([])
  {
  }

  lemma {:induction false} BranchDistinct(h: Heap, t: Ptr, depth: nat, i: bv64)
    requires t != NULL && i < 512
    ensures DistinctPaths(Branch(h, t, depth, i))
    decreases depth, 512 - i, 0
  {
    var e := Get(TableAt(h, t), Word(i));
    if e != NULL && depth > 0 {
      CollectDistinct(h, e, depth - 1, 0);
      UnderDistinct(Word(i), Collect(h, e, depth - 1, 0));
    }
  }

  /** The traversal from the root of a space finds exactly the pages that have
      an entry, with their entries, each once. */
  lemma CollectIsExact(h: Heap, sp: Space)
    requires Root(h, sp) != NULL
    ensures var r := Collect(h, Root(h, sp), 4, 0);
            && DistinctPaths(r)
            && forall path: seq<Word>, e: Word :: Found(path, e) in r <==>
                                                  |path| == 5 && Indices(path) && e != NULL && Lookup(h, sp, path) == e
  {
    var t := Root(h, sp);
    var r := Collect(h, t, 4, 0);
    CollectDistinct(h, t, 4, 0);
    forall path: seq<Word>, e: Word
      ensures Found(path, e) in r <==> |path| == 5 && Indices(path) && e != NULL && Lookup(h, sp, path) == e
    {
      var x := Found(path, e);
      if x in r {
        CollectSound(h, t, 4, 0, x);
      }
      if |path| == 5 && Indices(path) && e != NULL && Lookup(h, sp, path) == e {
        assert Index(path[0]);
        CollectComplete(h, t, 4, 0, x);
      }
    }
  }
}
