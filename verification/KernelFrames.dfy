/**
 Contiguous physical frames for kernel memory (src/libmem.c:880-1036 and
 1167-1229): sort the free list, find the first run of consecutive frame
 numbers, and move it from the free list to the used list.
 */
module KernelFrames {
  import opened Basics
  import opened Devices

  // ----- what the allocator promises -----

  /** start, ..., start+n-1 are all free. */
  ghost predicate RunFree(free: seq<nat>, start: nat, n: nat) {
    forall f :: start <= f < start + n ==> f in free
  }

  /** `r` is the lowest start of n consecutive free frames, None if there is none. */
  ghost predicate LowestRun(free: seq<nat>, n: nat, r: Option<nat>) {
    match r
    case None => forall s: nat :: !RunFree(free, s, n)
    case Some(s) => RunFree(free, s, n) && forall t: nat :: t < s ==> !RunFree(free, t, n)
  }

  lemma LowestRunUnique(free: seq<nat>, n: nat, r: Option<nat>, r': Option<nat>)
    requires LowestRun(free, n, r) && LowestRun(free, n, r')
    ensures r == r'
  {
  }

  // ----- sorting the free list -----

  ghost predicate Sorted(s: seq<nat>) {
    forall i, j :: 0 <= i < j < |s| ==> s[i] <= s[j]
  }

  function Insert(x: nat, s: seq<nat>): (r: seq<nat>) {
    if s == [] then [x]
    else if x <= s[0] then [x] + s
    else [s[0]] + Insert(x, s[1..])
  }

  lemma {:induction false} InsertAdds(x: nat, s: seq<nat>)
    ensures multiset(Insert(x, s)) == multiset{x} + multiset(s)
  {
    if s != [] && x > s[0] {
      InsertAdds(x, s[1..]);
      HeadTail(s);
    }
  }

  lemma {:induction false} InsertSorts(x: nat, s: seq<nat>)
    requires Sorted(s)
    ensures Sorted(Insert(x, s))
  {
    if s != [] && x > s[0] {
      InsertSorts(x, s[1..]);
      InsertAdds(x, s[1..]);
      var t := Insert(x, s[1..]);
      forall j | 0 <= j < |t| ensures s[0] <= t[j] {
        assert t[j] in multiset(t);
      }
    }
  }

  /** The library sort of the free list by frame number. */
  function Sort(s: seq<nat>): (r: seq<nat>) {
    if s == [] then [] else Insert(s[0], Sort(s[1..]))
  }

  lemma {:induction false} SortSorts(s: seq<nat>)
    ensures multiset(Sort(s)) == multiset(s) && Sorted(Sort(s))
  {
    if s != [] {
      HeadTail(s);
      SortSorts(s[1..]);
      InsertSorts(s[0], Sort(s[1..]));
      InsertAdds(s[0], Sort(s[1..]));
    }
  }

  /** s[i..i+n] are n consecutive numbers. */
  predicate RunAt(s: seq<nat>, i: nat, n: nat) {
    i + n <= |s| && forall k :: i <= k < i + n ==> s[k] == s[i] + (k - i)
  }

  lemma SortKeeps(free: seq<nat>)
    requires Distinct(free)
    ensures Distinct(Sort(free)) && Sorted(Sort(free))
    ensures forall x :: x in free <==> x in Sort(free)
    ensures |Sort(free)| == |free|
  {
    DistinctByCount(free);
    SortSorts(free);
    var s := Sort(free);
    forall x ensures x in free <==> x in s {
      assert x in multiset(free) <==> x in multiset(s);
    }
    forall i, j | 0 <= i < j < |s| ensures s[i] != s[j] {
      if s[i] == s[j] {
        CountTwice(s, i, j);
      }
    }
    assert |multiset(s)| == |multiset(free)|;
  }

  lemma {:induction false} DistinctByCount(s: seq<nat>)
    requires Distinct(s)
    ensures forall x :: multiset(s)[x] <= 1
    decreases |s|
  {
    if s != [] {
      HeadTail(s);
      DistinctByCount(s[1..]);
      assert s[0] !in s[1..];
    }
  }

  lemma CountTwice(s: seq<nat>, i: nat, j: nat)
    requires i < j < |s| && s[i] == s[j]
    ensures multiset(s)[s[i]] >= 2
  {
    assert s == s[..i] + [s[i]] + s[i + 1..j] + [s[j]] + s[j + 1..];
  }

  /** In a sorted list without repeats, a run of consecutive numbers sits at
      consecutive positions. */
  lemma {:induction false} RunIsContiguous(s: seq<nat>, i: nat, n: nat)
    requires Sorted(s) && Distinct(s) && i < |s| && n > 0
    requires forall f :: s[i] <= f < s[i] + n ==> f in s
    ensures RunAt(s, i, n)
    decreases n
  {
    if n > 1 {
      RunIsContiguous(s, i, n - 1);
      var last := i + n - 2;
      assert s[last] + 1 == s[i] + (n - 1);
      assert s[last] + 1 in s;
      var j :| 0 <= j < |s| && s[j] == s[last] + 1;
      assert last < j && s[last] < s[last + 1];
    }
  }

  /** A run that ends at idx needs each step to be by one. */
  lemma NoRunAcross(s: seq<nat>, i: nat, n: nat, k: nat)
    requires i < k < i + n <= |s| && s[k] != s[k - 1] + 1
    ensures !RunAt(s, i, n)
  {
  }

  /** The scan of the sorted frame list for req_pgnum consecutive frames. */
  method ScanRuns(list: seq<nat>, n: nat) returns (sel: Option<nat>)
    requires 0 < n <= |list|
    ensures sel.Some? ==> RunAt(list, sel.value, n) && forall i: nat :: i < sel.value ==> !RunAt(list, i, n)
    ensures sel.None? ==> forall i: nat :: !RunAt(list, i, n)
  {
    if n == 1 {
      return Some(0);
    }
    var run := 1;
    var idx := 1;
    while idx < |list|
      invariant 1 <= idx <= |list|
      invariant 1 <= run < n && run <= idx
      invariant RunAt(list, idx - run, run)
      invariant idx > run ==> list[idx - run] != list[idx - run - 1] + 1
      invariant forall i: nat :: i + n <= idx ==> !RunAt(list, i, n)
    {
      if list[idx] == list[idx - 1] + 1 {
        run := run + 1;
      } else {
        run := 1;
      }
      if run == n {
        return Some(idx - n + 1);
      }
      ghost var k: nat := idx + 1 - run;
      if idx + 1 >= n {
        NoRunAcross(list, idx + 1 - n, n, k);
      }
      idx := idx + 1;
    }
    return None;
  }

  lemma RunFreeIsRunAt(free: seq<nat>, n: nat, s: nat) returns (i: nat)
    requires Distinct(free) && n > 0 && RunFree(free, s, n)
    ensures i < |Sort(free)| && Sort(free)[i] == s && RunAt(Sort(free), i, n)
  {
    SortKeeps(free);
    var list := Sort(free);
    assert s in free && s in list;
    i :| 0 <= i < |list| && list[i] == s;
    RunIsContiguous(list, i, n);
  }

  lemma RunAtIsRunFree(free: seq<nat>, n: nat, i: nat)
    requires Distinct(free) && RunAt(Sort(free), i, n) && n > 0
    ensures RunFree(free, Sort(free)[i], n)
  {
    SortKeeps(free);
    var list := Sort(free);
    forall f | list[i] <= f < list[i] + n ensures f in free {
      assert list[i + (f - list[i])] == f;
    }
  }

  /** The first run found in the sorted list is the lowest run of free frames. */
  lemma FirstRunIsLowest(free: seq<nat>, n: nat, sel: Option<nat>)
    requires Distinct(free) && n > 0
    requires sel.Some? ==> RunAt(Sort(free), sel.value, n) && forall i: nat :: i < sel.value ==> !RunAt(Sort(free), i, n)
    requires sel.None? ==> forall i: nat :: !RunAt(Sort(free), i, n)
    ensures LowestRun(free, n, if sel.Some? then Some(Sort(free)[sel.value]) else None)
  {
    SortKeeps(free);
    if sel.Some? {
      RunAtIsRunFree(free, n, sel.value);
    }
    forall s: nat | RunFree(free, s, n)
      ensures sel.Some? && Sort(free)[sel.value] <= s
    {
      var i := RunFreeIsRunAt(free, n, s);
    }
  }

  // ----- moving frames between the lists -----

  /** Unlink the first node with frame number f. */
  function Unlink(s: seq<nat>, f: nat): (r: seq<nat>) {
    if s == [] then []
    else if s[0] == f then s[1..]
    else [s[0]] + Unlink(s[1..], f)
  }

  lemma {:induction false} UnlinkCounts(s: seq<nat>, f: nat)
    requires f in s
    ensures multiset(s) == multiset(Unlink(s, f)) + multiset{f}
  {
    HeadTail(s);
    if s[0] != f {
      UnlinkCounts(s[1..], f);
    }
  }

  function TakeOne(d: Device, f: nat): (r: Device) {
    d.(free := Unlink(d.free, f), used := [f] + d.used)
  }

  /** The frames start, ..., start+n-1 leave the free list for the used list. */
  function TakeRun(d: Device, start: nat, n: nat): (r: Device)
    decreases n
  {
    if n == 0 then d
    else
      TakeRun(TakeOne(d, start), start + 1, n - 1)
  }

  function ReleaseOne(d: Device, f: nat): (r: Device) {
    if f in d.used then d.(free := [f] + d.free, used := Unlink(d.used, f)) else d
  }

  /** kernel_release_contiguous_region: frames of the range that are on the
      used list go back to the head of the free list. */
  function ReleaseRun(d: Device, start: nat, n: nat): (r: Device)
    decreases n
  {
    if n == 0 then d
    else ReleaseRun(ReleaseOne(d, start), start + 1, n - 1)
  }

  predicate InRun(f: nat, start: nat, n: nat) { start <= f < start + n }

  lemma {:induction false} TakeRunCounts(d: Device, start: nat, n: nat)
    requires RunFree(d.free, start, n) && Distinct(d.free)
    ensures var r := TakeRun(d, start, n);
            r.pages == d.pages && multiset(r.free) + multiset(r.used) == multiset(d.free) + multiset(d.used)
    decreases n
  {
    if n > 0 {
      assert start in d.free;
      TakeOneMoves(d, start);
      assert RunFree(TakeOne(d, start).free, start + 1, n - 1);
      TakeRunCounts(TakeOne(d, start), start + 1, n - 1);
    }
  }

  lemma TakeOneMoves(d: Device, f: nat)
    requires f in d.free && Distinct(d.free)
    ensures var r := TakeOne(d, f);
            && r.pages == d.pages
            && multiset(r.free) + multiset(r.used) == multiset(d.free) + multiset(d.used)
            && (forall g :: g in r.free <==> g in d.free && g != f)
            && (forall g :: g in r.used <==> g in d.used || g == f)
            && Distinct(r.free)
  {
    UnlinkMembers(d.free, f);
    UnlinkCounts(d.free, f);
  }

  /** Exactly the n frames of the run move, and no frame is lost. */
  lemma {:induction false} TakeRunMoves(d: Device, start: nat, n: nat)
    requires RunFree(d.free, start, n) && Distinct(d.free)
    ensures var r := TakeRun(d, start, n);
            && r.pages == d.pages
            && multiset(r.free) + multiset(r.used) == multiset(d.free) + multiset(d.used)
            && (forall f :: f in r.free <==> f in d.free && !InRun(f, start, n))
            && (forall f :: f in r.used <==> f in d.used || InRun(f, start, n))
            && Distinct(r.free)
    decreases n
  {
    TakeRunCounts(d, start, n);
    hide TakeOne;
    if n > 0 {
      assert start in d.free;
      TakeOneMoves(d, start);
      assert RunFree(TakeOne(d, start).free, start + 1, n - 1);
      TakeRunMoves(TakeOne(d, start), start + 1, n - 1);
    }
  }

  lemma {:induction false} UnlinkMembers(s: seq<nat>, f: nat)
    requires Distinct(s)
    ensures forall g :: g in Unlink(s, f) <==> g in s && g != f
    ensures Distinct(Unlink(s, f))
  {
    if s != [] && s[0] != f {
      assert s == [s[0]] + s[1..];
      UnlinkMembers(s[1..], f);
      assert s[0] !in s[1..];
    } else if s != [] {
      assert s == [s[0]] + s[1..];
    }
  }

  /** Exactly the used frames of the range go back, and no frame is lost. */
  lemma {:induction false} ReleaseRunMoves(d: Device, start: nat, n: nat)
    requires Distinct(d.used)
    ensures var r := ReleaseRun(d, start, n);
            && r.pages == d.pages
            && multiset(r.free) + multiset(r.used) == multiset(d.free) + multiset(d.used)
            && (forall f :: f in r.used <==> f in d.used && !InRun(f, start, n))
            && (forall f :: f in r.free <==> f in d.free || (f in d.used && InRun(f, start, n)))
            && Distinct(r.used)
    decreases n
  {
    hide ReleaseOne;
    if n > 0 {
      ReleaseOneMoves(d, start);
      ReleaseRunMoves(ReleaseOne(d, start), start + 1, n - 1);
    }
  }

  lemma ReleaseOneMoves(d: Device, f: nat)
    requires Distinct(d.used)
    ensures var r := ReleaseOne(d, f);
            && r.pages == d.pages
            && multiset(r.free) + multiset(r.used) == multiset(d.free) + multiset(d.used)
            && (forall g :: g in r.used <==> g in d.used && g != f)
            && (forall g :: g in r.free <==> g in d.free || (g in d.used && g == f))
            && Distinct(r.used)
  {
    UnlinkMembers(d.used, f);
    if f in d.used {
      UnlinkCounts(d.used, f);
      var free := [f] + d.free;
      assert multiset(free) + multiset(Unlink(d.used, f)) == multiset(d.free) + multiset(d.used);
    }
  }

  /** Releasing what was just allocated gives back the same free frames and
      the same used frames. */
  lemma ReleaseUndoesTake(d: Device, start: nat, n: nat)
    requires RunFree(d.free, start, n) && Distinct(d.free + d.used)
    ensures var r := ReleaseRun(TakeRun(d, start, n), start, n);
            && r.pages == d.pages
            && (forall f :: f in r.free <==> f in d.free)
            && (forall f :: f in r.used <==> f in d.used)
            && multiset(r.free) + multiset(r.used) == multiset(d.free) + multiset(d.used)
  {
    SplitDistinct(d.free, d.used);
    TakeRunMoves(d, start, n);
    TakeRunDistinct(d, start, n);
    ReleaseRunMoves(TakeRun(d, start, n), start, n);
    forall f | InRun(f, start, n) ensures f in d.free && f !in d.used {
    }
  }

  lemma SplitDistinct(a: seq<nat>, b: seq<nat>)
    requires Distinct(a + b)
    ensures Distinct(a) && Distinct(b)
    ensures forall f :: f in a ==> f !in b
  {
    forall i, j | 0 <= i < j < |b| ensures b[i] != b[j] {
      assert (a + b)[|a| + i] != (a + b)[|a| + j];
    }
    forall i, j | 0 <= i < |a| && 0 <= j < |b| ensures a[i] != b[j] {
      assert (a + b)[i] != (a + b)[|a| + j];
    }
    assert forall i :: 0 <= i < |a| ==> (a + b)[i] == a[i];
  }

  lemma {:induction false} TakeRunDistinct(d: Device, start: nat, n: nat)
    requires RunFree(d.free, start, n) && Distinct(d.free) && Distinct(d.used)
    requires forall f :: f in d.free ==> f !in d.used
    ensures Distinct(TakeRun(d, start, n).used)
    decreases n
  {
    if n > 0 {
      var d1 := TakeOne(d, start);
      UnlinkMembers(d.free, start);
      assert start in d.free;
      forall f | start + 1 <= f < start + n ensures f in d1.free {
        assert f in d.free;
      }
      TakeRunDistinct(d1, start + 1, n - 1);
    }
  }

  lemma CountDistinct(s: seq<nat>)
    requires forall x :: x in multiset(s) ==> multiset(s)[x] == 1
    ensures Distinct(s)
  {
    forall i, j | 0 <= i < j < |s| ensures s[i] != s[j] {
      if s[i] == s[j] {
        CountTwice(s, i, j);
        assert false;
      }
    }
  }

  /** The first run of n consecutive numbers at or after position i. */
  function FirstRun(list: seq<nat>, n: nat, i: nat): (r: Option<nat>)
    requires n > 0
    ensures r.Some? ==> i <= r.value && RunAt(list, r.value, n) && forall j: nat :: i <= j < r.value ==> !RunAt(list, j, n)
    ensures r.None? ==> forall j: nat :: i <= j ==> !RunAt(list, j, n)
    decreases |list| - i
  {
    if i + n > |list| then None
    else if RunAt(list, i, n) then Some(i)
    else FirstRun(list, n, i + 1)
  }

  /** The start chosen for n contiguous frames. */
  function KernelStart(free: seq<nat>, n: nat): (r: Option<nat>)
    requires n > 0
  {
    match FirstRun(Sort(free), n, 0)
    case None => None
    case Some(i) => Some(Sort(free)[i])
  }

  lemma KernelStartLowest(free: seq<nat>, n: nat)
    requires Distinct(free) && n > 0
    ensures LowestRun(free, n, KernelStart(free, n))
  {
    FirstRunIsLowest(free, n, FirstRun(Sort(free), n, 0));
  }

  /** Fewer than n free frames hold no run of n. */
  lemma TooFewFrames(free: seq<nat>, n: nat)
    requires Distinct(free) && |free| < n
    ensures LowestRun(free, n, None)
  {
    forall s: nat ensures !RunFree(free, s, n) {
      if RunFree(free, s, n) {
        var i := RunFreeIsRunAt(free, n, s);
        SortKeeps(free);
        assert false;
      }
    }
  }
}
