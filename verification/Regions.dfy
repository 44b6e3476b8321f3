/**
 Virtual regions (src/libmem.c get_free_vmrg_area, src/mm64.c
 enlist_vm_rg_node): a first-fit free list with a coalescing, sorted insert.
 Using up the last node leaves a zero-length node behind, so the raw list is
 neither strictly sorted nor fully coalesced; its non-empty nodes are.
 */
module Regions {
  import opened Basics

  datatype Region = Region(start: nat, end: nat)

  predicate In(rg: Region, a: nat) { rg.start <= a < rg.end }

  ghost predicate Covers(list: seq<Region>, a: nat) {
    exists i :: 0 <= i < |list| && In(list[i], a)
  }

  /** No node ends before it starts. */
  ghost predicate Formed(list: seq<Region>) {
    forall i :: 0 <= i < |list| ==> list[i].start <= list[i].end
  }

  /** Non-empty nodes are ascending and disjoint, and zero-length nodes never
      lie above a non-empty node that follows them. */
  ghost predicate Ordered(list: seq<Region>) {
    && Formed(list)
    && (forall i, j :: 0 <= i < j < |list| && list[j].start < list[j].end ==> list[i].end <= list[j].start)
  }

  // ----- enlist_vm_rg_node -----

  /** The index of the first node that does not start below s. */
  function Position(list: seq<Region>, s: nat): (pos: nat)
    ensures pos <= |list|
    ensures forall i :: 0 <= i < pos ==> list[i].start < s
    ensures pos < |list| ==> list[pos].start >= s
  {
    if list == [] || list[0].start >= s then 0 else 1 + Position(list[1..], s)
  }

  /** Absorb the following node if it starts where rg ends. */
  function MergeNext(rg: Region, rest: seq<Region>): (r: seq<Region>) {
    if rest != [] && rg.end == rest[0].start then [Region(rg.start, rest[0].end)] + rest[1..]
    else [rg] + rest
  }

  /** Let the preceding node absorb the first of `tail` if it ends where that starts. */
  function MergePrev(front: seq<Region>, tail: seq<Region>): (r: seq<Region>)
    requires tail != []
  {
    if front != [] && Last(front).end == tail[0].start then
      DropLast(front) + [Region(Last(front).start, tail[0].end)] + tail[1..]
    else front + tail
  }

  function Enlist(list: seq<Region>, rg: Region): (r: seq<Region>) {
    if rg.start >= rg.end then list
    else
      var pos := Position(list, rg.start);
      MergePrev(list[..pos], MergeNext(rg, list[pos..]))
  }

  lemma SplitCovers(a: seq<Region>, b: seq<Region>, x: nat)
    ensures Covers(a + b, x) <==> Covers(a, x) || Covers(b, x)
  {
    if Covers(a, x) {
      var i :| 0 <= i < |a| && In(a[i], x);
      assert In((a + b)[i], x);
    }
    if Covers(b, x) {
      var i :| 0 <= i < |b| && In(b[i], x);
      assert In((a + b)[|a| + i], x);
    }
    if Covers(a + b, x) {
      var i :| 0 <= i < |a + b| && In((a + b)[i], x);
      assert if i < |a| then In(a[i], x) else In(b[i - |a|], x);
    }
  }

  lemma OneCovers(rg: Region, x: nat)
    ensures Covers([rg], x) <==> In(rg, x)
  {
    assert In([rg][0], x) <==> In(rg, x);
  }

  lemma MergeNextCovers(rg: Region, rest: seq<Region>, x: nat)
    requires rg.start <= rg.end && (rest != [] ==> rest[0].start <= rest[0].end)
    ensures Covers(MergeNext(rg, rest), x) <==> In(rg, x) || Covers(rest, x)
  {
    if rest != [] && rg.end == rest[0].start {
      var m := Region(rg.start, rest[0].end);
      SplitCovers([m], rest[1..], x);
      SplitCovers([rest[0]], rest[1..], x);
      assert rest == [rest[0]] + rest[1..];
      OneCovers(m, x);
      OneCovers(rest[0], x);
    } else {
      SplitCovers([rg], rest, x);
      OneCovers(rg, x);
    }
  }

  lemma MergePrevCovers(front: seq<Region>, tail: seq<Region>, x: nat)
    requires tail != [] && tail[0].start <= tail[0].end
    requires front != [] ==> Last(front).start <= Last(front).end
    ensures Covers(MergePrev(front, tail), x) <==> Covers(front, x) || Covers(tail, x)
  {
    hide Covers;
    SplitCovers(front, tail, x);
    if front != [] && Last(front).end == tail[0].start {
      var m := Region(Last(front).start, tail[0].end);
      SplitCovers(DropLast(front) + [m], tail[1..], x);
      SplitCovers(DropLast(front), [m], x);
      SplitCovers(DropLast(front), [Last(front)], x);
      SplitCovers([tail[0]], tail[1..], x);
      assert tail == [tail[0]] + tail[1..];
      OneCovers(m, x);
      OneCovers(Last(front), x);
      OneCovers(tail[0], x);
    }
  }

  /** Splitting the list at pos and merging rg in between. */
  lemma InsertCovers(front: seq<Region>, rg: Region, rest: seq<Region>, x: nat)
    requires Formed(front) && Formed(rest) && rg.start < rg.end
    ensures Covers(MergePrev(front, MergeNext(rg, rest)), x) <==> Covers(front + rest, x) || In(rg, x)
  {
    hide Covers;
    MergeNextCovers(rg, rest, x);
    var tail := MergeNext(rg, rest);
    assert tail[0].start <= tail[0].end;
    hide MergeNext;
    MergePrevCovers(front, tail, x);
    hide MergePrev;
    SplitCovers(front, rest, x);
  }

  /** The insert adds exactly the bytes of rg to the bytes of the list. */
  lemma EnlistCovers(list: seq<Region>, rg: Region, x: nat)
    requires Formed(list)
    ensures Covers(Enlist(list, rg), x) <==> Covers(list, x) || In(rg, x)
  {
    hide Covers;
    hide MergeNext;
    hide MergePrev;
    hide Position;
    if rg.start < rg.end {
      var pos := Position(list, rg.start);
      assert list == list[..pos] + list[pos..];
      InsertCovers(list[..pos], rg, list[pos..], x);
    }
  }

  lemma MergeNextFormed(rg: Region, rest: seq<Region>)
    requires Formed(rest) && rg.start <= rg.end
    ensures Formed(MergeNext(rg, rest))
  {
  }

  lemma MergePrevFormed(front: seq<Region>, tail: seq<Region>)
    requires Formed(front) && Formed(tail) && tail != []
    ensures Formed(MergePrev(front, tail))
  {
  }

  lemma EnlistFormed(list: seq<Region>, rg: Region)
    requires Formed(list)
    ensures Formed(Enlist(list, rg))
  {
    if rg.start < rg.end {
      var pos := Position(list, rg.start);
      MergeNextFormed(rg, list[pos..]);
      MergePrevFormed(list[..pos], MergeNext(rg, list[pos..]));
    }
    hide MergeNext;
    hide MergePrev;
    hide Position;
  }

  ghost predicate Apart(list: seq<Region>, rg: Region) {
    forall i :: 0 <= i < |list| && list[i].start < list[i].end ==> list[i].end <= rg.start || rg.end <= list[i].start
  }

  /** Sharing no byte means lying apart, node by node. */
  lemma DisjointApart(list: seq<Region>, rg: Region)
    requires Ordered(list) && rg.start < rg.end
    requires forall x: nat :: In(rg, x) ==> !Covers(list, x)
    ensures Apart(list, rg)
  {
    forall i | 0 <= i < |list| && list[i].start < list[i].end
      ensures list[i].end <= rg.start || rg.end <= list[i].start
    {
      var x := if list[i].start <= rg.start then rg.start else list[i].start;
      if In(rg, x) {
        assert !Covers(list, x);
        assert !In(list[i], x);
      }
    }
  }

  lemma MergeNextOrdered(rg: Region, rest: seq<Region>)
    requires Ordered(rest) && rg.start < rg.end
    requires forall j :: 0 <= j < |rest| && rest[j].start < rest[j].end ==> rg.end <= rest[j].start
    ensures var tail := MergeNext(rg, rest);
            tail != [] && tail[0].start == rg.start < tail[0].end && Ordered(tail)
  {
  }

  lemma OrderedJoin(a: seq<Region>, b: seq<Region>)
    requires Ordered(a) && Ordered(b)
    requires forall i, j :: 0 <= i < |a| && 0 <= j < |b| && b[j].start < b[j].end ==> a[i].end <= b[j].start
    ensures Ordered(a + b)
  {
  }

  /** Lowering the start of the first node disturbs no order behind it. */
  lemma OrderedFirst(tail: seq<Region>, start: nat)
    requires Ordered(tail) && tail != [] && start <= tail[0].start
    ensures Ordered([Region(start, tail[0].end)] + tail[1..])
  {
  }

  lemma MergePrevOrdered(front: seq<Region>, tail: seq<Region>)
    requires Ordered(front) && Ordered(tail) && tail != [] && tail[0].start < tail[0].end
    requires forall i :: 0 <= i < |front| ==> front[i].end <= tail[0].start
    ensures Ordered(MergePrev(front, tail))
  {
    if front != [] && Last(front).end == tail[0].start {
      var merged := [Region(Last(front).start, tail[0].end)] + tail[1..];
      OrderedFirst(tail, Last(front).start);
      var rest := DropLast(front);
      assert forall i :: 0 <= i < |rest| ==> rest[i] == front[i] && rest[i].end <= Last(front).start;
      assert forall j :: 0 < j < |merged| ==> merged[j] == tail[j];
      assert forall j :: 0 < j < |tail| && tail[j].start < tail[j].end ==> tail[0].end <= tail[j].start;
      hide Ordered;
      OrderedJoin(rest, merged);
      assert MergePrev(front, tail) == rest + merged;
    } else {
      assert forall j :: 0 < j < |tail| && tail[j].start < tail[j].end ==> tail[0].end <= tail[j].start;
      OrderedJoin(front, tail);
    }
  }

  /** Inserting a region apart from all nodes keeps the list ordered. */
  lemma EnlistOrdered(list: seq<Region>, rg: Region)
    requires Ordered(list) && rg.start < rg.end && Apart(list, rg)
    ensures Ordered(Enlist(list, rg))
  {
    var pos := Position(list, rg.start);
    var front, rest := list[..pos], list[pos..];
    MergeNextOrdered(rg, rest);
    MergePrevOrdered(front, MergeNext(rg, rest));
  }

  lemma MergePrevSpans(front: seq<Region>, tail: seq<Region>) returns (i: nat)
    requires Formed(front) && tail != []
    ensures i < |MergePrev(front, tail)|
    ensures MergePrev(front, tail)[i].start <= tail[0].start && MergePrev(front, tail)[i].end == tail[0].end
  {
    i := if front != [] && Last(front).end == tail[0].start then |front| - 1 else |front|;
  }

  /** After the insert one node spans all of rg. */
  lemma EnlistSpans(list: seq<Region>, rg: Region) returns (i: nat)
    requires Formed(list) && rg.start < rg.end
    ensures i < |Enlist(list, rg)|
    ensures Enlist(list, rg)[i].start <= rg.start && rg.end <= Enlist(list, rg)[i].end
  {
    var pos := Position(list, rg.start);
    var tail := MergeNext(rg, list[pos..]);
    assert tail[0].start == rg.start && rg.end <= tail[0].end;
    i := MergePrevSpans(list[..pos], tail);
    hide MergeNext;
    hide MergePrev;
  }

  // ----- coalescing -----

  /** Where rg goes: behind exactly the leading nodes that start below it. */
  ghost predicate GoesAt(list: seq<Region>, rg: Region, pos: nat) {
    && pos <= |list|
    && (forall i :: 0 <= i < pos ==> list[i].start < rg.start)
    && (pos < |list| ==> list[pos].start >= rg.start)
  }

  /** The node before, or behind, the place of rg touches it. */
  predicate TouchesPrev(list: seq<Region>, rg: Region, pos: nat) {
    0 < pos <= |list| && list[pos - 1].end == rg.start
  }

  predicate TouchesNext(list: seq<Region>, rg: Region, pos: nat) {
    pos < |list| && list[pos].start == rg.end
  }

  /** The insert replaces rg and those of its two neighbours in the list that touch
      it by one node that spans them, and keeps all other nodes as they are. */
  lemma EnlistJoins(list: seq<Region>, rg: Region, pos: nat)
    requires rg.start < rg.end && GoesAt(list, rg, pos)
    ensures var lo := if TouchesPrev(list, rg, pos) then pos - 1 else pos;
            var hi := if TouchesNext(list, rg, pos) then pos + 1 else pos;
            var start := if lo < pos then list[lo].start else rg.start;
            var end := if pos < hi then list[pos].end else rg.end;
            Enlist(list, rg) == list[..lo] + [Region(start, end)] + list[hi..]
  {
    assert Position(list, rg.start) == pos;
    var front, rest := list[..pos], list[pos..];
    var tail := MergeNext(rg, rest);
    assert rest != [] ==> rest[0] == list[pos] && rest[1..] == list[pos + 1..];
    assert front != [] ==> Last(front) == list[pos - 1] && DropLast(front) == list[..pos - 1];
    assert tail == [tail[0]] + tail[1..];
  }

  /** No zero-length node. */
  ghost predicate Solid(list: seq<Region>) {
    forall i :: 0 <= i < |list| ==> list[i].start < list[i].end
  }

  /** No node ends where the next one starts. */
  ghost predicate Coalesced(list: seq<Region>) {
    forall i :: 0 <= i < |list| - 1 ==> list[i].end != list[i + 1].start
  }

  lemma CoalescedParts(front: seq<Region>, node: Region, back: seq<Region>)
    requires Solid(front) && Coalesced(front) && Solid(back) && Coalesced(back) && node.start < node.end
    requires front != [] ==> Last(front).end != node.start
    requires back != [] ==> node.end != back[0].start
    ensures Solid(front + [node] + back) && Coalesced(front + [node] + back)
  {
    var r := front + [node] + back;
    forall i | 0 <= i < |r| - 1 ensures r[i].end != r[i + 1].start {
      if i + 1 < |front| {
        assert front[i].end != front[i + 1].start;
      } else if i > |front| {
        assert back[i - |front| - 1].end != back[i - |front| - 1 + 1].start;
      }
    }
  }

  lemma CoalescedSlices(list: seq<Region>, lo: nat, hi: nat)
    requires Solid(list) && Coalesced(list) && lo <= |list| && hi <= |list|
    ensures Solid(list[..lo]) && Coalesced(list[..lo]) && Solid(list[hi..]) && Coalesced(list[hi..])
  {
    forall i | 0 <= i < |list[hi..]| - 1 ensures list[hi..][i].end != list[hi..][i + 1].start {
      assert list[hi + i].end != list[hi + i + 1].start;
    }
  }

  /** Without zero-length nodes the free list stays fully coalesced. */
  lemma EnlistCoalesces(list: seq<Region>, rg: Region)
    requires Ordered(list) && Solid(list) && Coalesced(list)
    requires rg.start < rg.end && Apart(list, rg)
    ensures Ordered(Enlist(list, rg)) && Solid(Enlist(list, rg)) && Coalesced(Enlist(list, rg))
  {
    EnlistOrdered(list, rg);
    var pos := Position(list, rg.start);
    EnlistJoins(list, rg, pos);
    var lo := if TouchesPrev(list, rg, pos) then pos - 1 else pos;
    var hi := if TouchesNext(list, rg, pos) then pos + 1 else pos;
    var node := Region(if lo < pos then list[lo].start else rg.start, if pos < hi then list[pos].end else rg.end);
    CoalescedSlices(list, lo, hi);
    NeighboursApart(list, rg, pos, lo, hi);
    hide Enlist;
    hide Ordered;
    hide Coalesced;
    CoalescedParts(list[..lo], node, list[hi..]);
  }

  lemma NeighboursApart(list: seq<Region>, rg: Region, pos: nat, lo: nat, hi: nat)
    requires Ordered(list) && Solid(list) && Coalesced(list) && Apart(list, rg) && GoesAt(list, rg, pos)
    requires lo == if TouchesPrev(list, rg, pos) then pos - 1 else pos
    requires hi == if TouchesNext(list, rg, pos) then pos + 1 else pos
    ensures lo > 0 ==> list[lo - 1].end != if lo < pos then list[lo].start else rg.start
    ensures hi < |list| ==> list[hi].start != if pos < hi then list[pos].end else rg.end
  {
    if 0 < lo < pos {
      assert list[lo - 1].end != list[lo - 1 + 1].start;
    }
    if pos < hi < |list| {
      assert list[pos].end != list[pos + 1].start;
    }
  }

  /** One node spans both regions. */
  predicate Spans(node: Region, a: Region, b: Region) { node.start <= a.start && b.end <= node.end }

  ghost predicate SpansBoth(list: seq<Region>, a: Region, b: Region) {
    exists i :: 0 <= i < |list| && Spans(list[i], a, b)
  }

  lemma SpansParts(front: seq<Region>, node: Region, back: seq<Region>, a: Region, b: Region)
    ensures SpansBoth(front + [node] + back, a, b) <==> SpansBoth(front, a, b) || Spans(node, a, b) || SpansBoth(back, a, b)
  {
    var r := front + [node] + back;
    assert r[|front|] == node;
    assert forall i :: 0 <= i < |front| ==> r[i] == front[i];
    assert forall i :: 0 <= i < |back| ==> r[|front| + 1 + i] == back[i];
    if SpansBoth(back, a, b) {
      var i :| 0 <= i < |back| && Spans(back[i], a, b);
      assert Spans(r[|front| + 1 + i], a, b);
    }
    if SpansBoth(front, a, b) {
      var i :| 0 <= i < |front| && Spans(front[i], a, b);
      assert Spans(r[i], a, b);
    }
    if SpansBoth(r, a, b) {
      var i :| 0 <= i < |r| && Spans(r[i], a, b);
      assert i > |front| ==> r[i] == back[i - |front| - 1];
    }
  }

  /** A node apart from rg does not span it. */
  lemma NoneSpans(list: seq<Region>, rg: Region, a: Region, b: Region)
    requires Apart(list, rg) && rg.start < rg.end && a.start <= rg.start && rg.end <= b.end
    ensures !SpansBoth(list, a, b)
  {
  }

  lemma ApartSlices(list: seq<Region>, rg: Region, lo: nat, hi: nat)
    requires Apart(list, rg) && lo <= |list| && hi <= |list|
    ensures Apart(list[..lo], rg) && Apart(list[hi..], rg)
  {
  }

  lemma SpannedBy(list: seq<Region>, rg: Region, pos: nat, a: Region, b: Region)
    requires Formed(list) && rg.start < rg.end && Apart(list, rg) && GoesAt(list, rg, pos)
    requires a.start <= rg.start && rg.end <= b.end
    ensures SpansBoth(Enlist(list, rg), a, b) <==>
            && (a.start == rg.start || (TouchesPrev(list, rg, pos) && list[pos - 1].start <= a.start))
            && (b.end == rg.end || (TouchesNext(list, rg, pos) && b.end <= list[pos].end))
  {
    EnlistJoins(list, rg, pos);
    var lo := if TouchesPrev(list, rg, pos) then pos - 1 else pos;
    var hi := if TouchesNext(list, rg, pos) then pos + 1 else pos;
    var node := Region(if lo < pos then list[lo].start else rg.start, if pos < hi then list[pos].end else rg.end);
    hide Enlist;
    hide SpansBoth;
    ApartSlices(list, rg, lo, hi);
    SpansParts(list[..lo], node, list[hi..], a, b);
    NoneSpans(list[..lo], rg, a, b);
    NoneSpans(list[hi..], rg, a, b);
  }

  /** A free node that starts where rg ends is merged with it if and only if no
      zero-length node stands before it at or above the start of rg. */
  lemma NextMerges(list: seq<Region>, rg: Region, j: nat)
    requires Ordered(list) && rg.start < rg.end && Apart(list, rg)
    requires j < |list| && list[j].start == rg.end && list[j].start < list[j].end
    ensures SpansBoth(Enlist(list, rg), rg, list[j]) <==> forall k :: 0 <= k < j ==> list[k].start < rg.start
  {
    var pos := Position(list, rg.start);
    SpannedBy(list, rg, pos, rg, list[j]);
    hide Enlist;
    if pos < j {
      assert list[pos].end <= list[j].start;
    }
  }

  /** A free node that ends where rg starts is merged with it if and only if no
      zero-length node stands behind it below the start of rg. */
  lemma PrevMerges(list: seq<Region>, rg: Region, j: nat)
    requires Ordered(list) && rg.start < rg.end && Apart(list, rg)
    requires j < |list| && list[j].end == rg.start && list[j].start < list[j].end
    ensures SpansBoth(Enlist(list, rg), list[j], rg) <==> j + 1 == |list| || list[j + 1].start >= rg.start
  {
    var pos := Position(list, rg.start);
    assert forall i :: 0 <= i <= j ==> list[i].start < rg.start;
    assert j < pos;
    SpannedBy(list, rg, pos, list[j], rg);
    hide Enlist;
    if pos > j + 1 {
      assert list[j].end <= list[pos - 1].start || list[pos - 1].start == list[pos - 1].end;
    }
  }

  /** The zero-length node that a used-up list leaves behind can keep two free nodes
      apart that touch. */
  lemma ZeroLengthKeepsApart()
    ensures var list := [Region(4096, 8192), Region(4096, 4096)];
            var rg := Region(8192, 16384);
            && Ordered(list) && Apart(list, rg)
            && Enlist(list, rg) == [Region(4096, 8192), Region(4096, 4096), Region(8192, 16384)]
  {
    var list := [Region(4096, 8192), Region(4096, 4096)];
    EnlistJoins(list, Region(8192, 16384), 2);
  }

  // ----- get_free_vmrg_area -----

  predicate Fits(rg: Region, size: nat) { rg.start + size <= rg.end }

  /** The first node with room for `size` bytes. */
  function FirstFit(list: seq<Region>, size: nat): (r: Option<nat>)
    ensures r.Some? ==> r.value < |list| && Fits(list[r.value], size)
    ensures r.Some? ==> forall i :: 0 <= i < r.value ==> !Fits(list[i], size)
    ensures r.None? ==> forall i :: 0 <= i < |list| ==> !Fits(list[i], size)
  {
    if list == [] then None
    else if Fits(list[0], size) then Some(0)
    else
      match FirstFit(list[1..], size)
      case None => None
      case Some(i) => Some(i + 1)
  }

  /** The list after `size` bytes are cut off node i. */
  function Cut(list: seq<Region>, i: nat, size: nat): (r: seq<Region>)
    requires i < |list|
  {
    var rg := list[i];
    if rg.start + size < rg.end then list[i := Region(rg.start + size, rg.end)]
    else if i + 1 < |list| then list[..i] + list[i + 1..]
    else list[i := Region(rg.end, rg.end)]
  }

  /** Cutting removes exactly the bytes handed out. */
  lemma CutCovers(list: seq<Region>, i: nat, size: nat, x: nat)
    requires Ordered(list) && size > 0 && i < |list| && Fits(list[i], size)
    ensures Covers(Cut(list, i, size), x) <==>
            Covers(list, x) && !In(Region(list[i].start, list[i].start + size), x)
  {
    var rg := list[i];
    var front, back := list[..i], list[i + 1..];
    assert list == front + [rg] + back;
    SplitCovers(front + [rg], back, x);
    SplitCovers(front, [rg], x);
    OneCovers(rg, x);
    assert In(rg, x) ==> !Covers(front, x) && !Covers(back, x);
    var rg' := if rg.start + size < rg.end then Region(rg.start + size, rg.end) else Region(rg.end, rg.end);
    if rg.start + size < rg.end || i + 1 == |list| {
      assert Cut(list, i, size) == front + [rg'] + back;
      SplitCovers(front + [rg'], back, x);
      SplitCovers(front, [rg'], x);
      OneCovers(rg', x);
    } else {
      SplitCovers(front, back, x);
    }
  }

  lemma CutOrdered(list: seq<Region>, i: nat, size: nat)
    requires Ordered(list) && size > 0 && i < |list| && Fits(list[i], size)
    ensures Ordered(Cut(list, i, size))
  {
  }

  lemma CutFormed(list: seq<Region>, i: nat, size: nat)
    requires Formed(list) && i < |list|
    ensures Formed(Cut(list, i, size))
  {
  }

  /** On a coalesced list without zero-length nodes, giving back what was cut off
      restores the very same list. */
  lemma EnlistUndoesCut(list: seq<Region>, i: nat, size: nat)
    requires Ordered(list) && Solid(list) && Coalesced(list)
    requires size > 0 && i < |list| && Fits(list[i], size)
    ensures Enlist(Cut(list, i, size), Region(list[i].start, list[i].start + size)) == list
  {
    var rg := Region(list[i].start, list[i].start + size);
    var cut := Cut(list, i, size);
    CutPlace(list, i, size);
    CutSlices(list, i, size);
    hide *;
    if rg.end < list[i].end || i + 1 == |list| {
      JoinsNext(cut, rg, i);
      Rebuilt(list, i, cut[..i], Region(rg.start, cut[i].end), cut[i + 1..]);
    } else {
      JoinsNone(cut, rg, i);
      Rebuilt(list, i, cut[..i], rg, cut[i..]);
    }
  }

  lemma Rebuilt(list: seq<Region>, i: nat, front: seq<Region>, node: Region, back: seq<Region>)
    requires i < |list| && front == list[..i] && node == list[i] && back == list[i + 1..]
    ensures front + [node] + back == list
  {
  }

  lemma CutSlices(list: seq<Region>, i: nat, size: nat)
    requires size > 0 && i < |list| && Fits(list[i], size)
    ensures var cut := Cut(list, i, size);
            && i <= |cut| && cut[..i] == list[..i]
            && if list[i].start + size < list[i].end || i + 1 == |list|
               then i < |cut| && cut[i].end == list[i].end && cut[i + 1..] == list[i + 1..]
               else list[i].start + size == list[i].end && cut[i..] == list[i + 1..]
  {
  }

  lemma JoinsNext(list: seq<Region>, rg: Region, pos: nat)
    requires rg.start < rg.end && GoesAt(list, rg, pos) && !TouchesPrev(list, rg, pos) && TouchesNext(list, rg, pos)
    ensures Enlist(list, rg) == list[..pos] + [Region(rg.start, list[pos].end)] + list[pos + 1..]
  {
    EnlistJoins(list, rg, pos);
  }

  lemma JoinsNone(list: seq<Region>, rg: Region, pos: nat)
    requires rg.start < rg.end && GoesAt(list, rg, pos) && !TouchesPrev(list, rg, pos) && !TouchesNext(list, rg, pos)
    ensures Enlist(list, rg) == list[..pos] + [rg] + list[pos..]
  {
    EnlistJoins(list, rg, pos);
  }

  lemma CutPlace(list: seq<Region>, i: nat, size: nat)
    requires Ordered(list) && Solid(list) && Coalesced(list)
    requires size > 0 && i < |list| && Fits(list[i], size)
    ensures var rg := Region(list[i].start, list[i].start + size);
            var cut := Cut(list, i, size);
            && GoesAt(cut, rg, i) && !TouchesPrev(cut, rg, i)
            && (TouchesNext(cut, rg, i) <==> rg.end < list[i].end || i + 1 == |list|)
  {
    assert forall k :: 0 <= k < i ==> list[k].start < list[k].end <= list[i].start;
    assert i > 0 ==> list[i - 1].end != list[i - 1 + 1].start;
    assert i + 1 < |list| ==> list[i].end <= list[i + 1].start && list[i].end != list[i + 1].start;
    var cut := Cut(list, i, size);
    assert forall k :: 0 <= k < i ==> cut[k] == list[k];
    assert i < |cut| ==> cut[i] == if list[i].start + size < list[i].end then Region(list[i].start + size, list[i].end)
                                   else if i + 1 < |list| then list[i + 1] else Region(list[i].end, list[i].end);
  }
}
