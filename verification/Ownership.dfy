/**
 The ownership invariant of the paging core and what every memory step keeps:
 each RAM frame and each swap slot has exactly one owner, the FIFO lists hold
 exactly the resident pages, and the bytes a process sees never depend on
 where its pages currently live.
 */
module Ownership {
  import opened Basics
  import opened Devices
  import opened Paging

  // ----- one owner per frame -----

  function Entry(resident: bool, f: nat): (e: Pte) {
    if resident then Present(f) else Swapped(f)
  }

  ghost predicate Mapped(pt: map<Vpn, Pte>, e: Pte) {
    exists k :: k in pt && pt[k] == e
  }

  /** The `n` frames of a device are split between `loose` (on some list, or in
      flight) and the page-table entries of the given kind: every frame is
      loose once, or named by exactly one entry, and never both. */
  ghost predicate Partition(n: nat, loose: multiset<nat>, pt: map<Vpn, Pte>, resident: bool) {
    && (forall f :: f in loose ==> loose[f] == 1 && f < n)
    && (forall k :: k in pt && pt[k].Present? == resident ==> pt[k].num < n && pt[k].num !in loose)
    && (forall k, l :: k in pt && l in pt && pt[k].Present? == resident && pt[k] == pt[l] ==> k == l)
    && (forall f: nat :: f < n ==> f in loose || Mapped(pt, Entry(resident, f)))
  }

  /** A loose frame becomes the frame of page k. */
  lemma MapLoose(n: nat, loose: multiset<nat>, pt: map<Vpn, Pte>, resident: bool, k: Vpn, f: nat)
    requires Partition(n, loose, pt, resident)
    requires f in loose
    requires k in pt ==> pt[k].Present? != resident
    ensures Partition(n, loose - multiset{f}, pt[k := Entry(resident, f)], resident)
  {
    var pt' := pt[k := Entry(resident, f)];
    forall g: nat | g < n
      ensures g in loose - multiset{f} || Mapped(pt', Entry(resident, g))
    {
      if g == f {
        assert pt'[k] == Entry(resident, f);
      } else if g !in loose {
        var l :| l in pt && pt[l] == Entry(resident, g);
        assert l in pt' && pt'[l] == Entry(resident, g);
      }
    }
  }

  /** Page k gives its frame back; k may keep an entry of the other kind. */
  lemma UnmapLoose(n: nat, loose: multiset<nat>, pt: map<Vpn, Pte>, pt': map<Vpn, Pte>, resident: bool, k: Vpn)
    requires Partition(n, loose, pt, resident)
    requires k in pt && pt[k].Present? == resident
    requires k in pt' ==> pt'[k].Present? != resident
    requires forall l :: l != k ==> (l in pt <==> l in pt')
    requires forall l :: l != k && l in pt ==> pt'[l] == pt[l]
    ensures Partition(n, loose + multiset{pt[k].num}, pt', resident)
  {
    forall g: nat | g < n
      ensures g in loose + multiset{pt[k].num} || Mapped(pt', Entry(resident, g))
    {
      if g !in loose {
        var l :| l in pt && pt[l] == Entry(resident, g);
        if l != k {
          assert l in pt' && pt'[l] == Entry(resident, g);
        }
      }
    }
  }

  /** Entries of the other kind do not matter. */
  lemma OtherKind(n: nat, loose: multiset<nat>, pt: map<Vpn, Pte>, pt': map<Vpn, Pte>, resident: bool)
    requires Partition(n, loose, pt, resident)
    requires forall k :: k in pt && pt[k].Present? == resident ==> k in pt' && pt'[k] == pt[k]
    requires forall k :: k in pt' && pt'[k].Present? == resident ==> k in pt && pt'[k] == pt[k]
    ensures Partition(n, loose, pt', resident)
  {
  }

  // ----- the FIFO lists -----

  ghost predicate Resident(pt: map<Vpn, Pte>, k: Vpn) {
    k in pt && pt[k].Present?
  }

  /** Each FIFO holds exactly the resident pages of its process, once each. */
  ghost predicate FifoExact(pt: map<Vpn, Pte>, fifo: map<nat, seq<nat>>) {
    && (forall k :: k in pt ==> k.pid in fifo)
    && (forall p :: p in fifo ==> Distinct(fifo[p]))
    && (forall p, g :: p in fifo ==> (g in fifo[p] <==> Resident(pt, Vpn(p, g))))
  }

  /** Each FIFO is ordered by the moment its pages became resident, newest first. */
  ghost predicate FifoAged(fifo: map<nat, seq<nat>>, since: map<Vpn, nat>, clock: nat) {
    && (forall p, i :: p in fifo && 0 <= i < |fifo[p]| ==>
                         Vpn(p, fifo[p][i]) in since && since[Vpn(p, fifo[p][i])] < clock)
    && (forall p, i, j :: p in fifo && 0 <= i < j < |fifo[p]| ==>
                            since[Vpn(p, fifo[p][i])] > since[Vpn(p, fifo[p][j])])
  }

  // ----- the whole invariant -----

  /** Kernel pages are mapped one to one onto the used frames. */
  ghost predicate KernelIdentity(m: Mem) {
    && (forall f :: f in m.kpt <==> f in m.ram.used)
    && (forall f :: f in m.kpt ==> m.kpt[f] == f)
  }

  /** `held` are the RAM frames in flight between allocation and mapping. */
  ghost predicate MemInv(m: Mem, held: multiset<nat>) {
    && Paged(m.ram) && Paged(m.swp)
    && m.swp.used == []
    && Partition(|m.ram.pages|, multiset(m.ram.free) + multiset(m.ram.used) + held, m.pt, true)
    && Partition(|m.swp.pages|, multiset(m.swp.free), m.pt, false)
    && FifoExact(m.pt, m.fifo)
    && FifoAged(m.fifo, m.since, m.clock)
    && KernelIdentity(m)
    && Distinct(m.running)
    && (forall p :: p in m.running ==> p in m.fifo)
  }

  // ----- what a process sees -----

  function PageOf(m: Mem, e: Pte): (r: seq<Byte>) {
    if e.Present? then PageAt(m.ram, e.num) else PageAt(m.swp, e.num)
  }

  /** The bytes of every user page, wherever they are stored. */
  function UserView(m: Mem): (r: map<Vpn, seq<Byte>>) {
    map k | k in m.pt :: PageOf(m, m.pt[k])
  }

  /** The bytes of every kernel page. */
  function KernelView(m: Mem): (r: map<nat, seq<Byte>>) {
    map f | f in m.kpt :: PageAt(m.ram, m.kpt[f])
  }

  // ----- victim selection under the invariant -----

  /** The process that loses a page: the caller if it has one resident, else the
      first process of the running list that does. */
  function FirstResident(m: Mem, caller: nat, i: nat): (r: Option<nat>)
    requires i <= |m.running|
    ensures r.Some? ==> r.value in m.fifo && m.fifo[r.value] != []
    decreases |m.running| - i
  {
    if i == |m.running| then None
    else if m.running[i] != caller && m.running[i] in m.fifo && m.fifo[m.running[i]] != [] then Some(m.running[i])
    else FirstResident(m, caller, i + 1)
  }

  function VictimProc(m: Mem, caller: nat): (r: Option<nat>)
    ensures r.Some? ==> r.value in m.fifo && m.fifo[r.value] != []
  {
    if caller in m.fifo && m.fifo[caller] != [] then Some(caller)
    else FirstResident(m, caller, 0)
  }

  ghost predicate HasResident(m: Mem, p: nat) {
    p in m.fifo && m.fifo[p] != []
  }

  lemma {:induction false} FirstInList(m: Mem, caller: nat, i: nat)
    requires i <= |m.running|
    ensures match FirstResident(m, caller, i)
            case None => forall k :: i <= k < |m.running| && m.running[k] != caller ==> !HasResident(m, m.running[k])
            case Some(q) =>
              exists j :: i <= j < |m.running| && m.running[j] == q && q != caller && HasResident(m, q)
                          && forall k :: i <= k < j && m.running[k] != caller ==> !HasResident(m, m.running[k])
    decreases |m.running| - i
  {
    if i < |m.running| {
      FirstInList(m, caller, i + 1);
    }
  }

  /** The victim process is the caller if it has a resident page, and otherwise the
      first process of the running list that has one; there is none exactly when
      neither has. */
  lemma VictimIsFirst(m: Mem, caller: nat)
    ensures HasResident(m, caller) ==> VictimProc(m, caller) == Some(caller)
    ensures !HasResident(m, caller) ==>
              match VictimProc(m, caller)
              case None => forall k :: 0 <= k < |m.running| ==> !HasResident(m, m.running[k])
              case Some(q) =>
                exists j :: 0 <= j < |m.running| && m.running[j] == q && HasResident(m, q)
                            && forall k :: 0 <= k < j ==> !HasResident(m, m.running[k])
  {
    FirstInList(m, caller, 0);
  }

  function DropOldest(m: Mem, p: nat): (r: Mem)
    requires p in m.fifo && m.fifo[p] != []
  {
    m.(fifo := m.fifo[p := DropLast(m.fifo[p])])
  }

  lemma {:induction false} ScanRunningSpec(m: Mem, caller: nat, i: nat)
    requires FifoExact(m.pt, m.fifo) && i <= |m.running|
    ensures var r := FirstResident(m, caller, i);
            ScanRunning(m, caller, i) ==
            if r.None? then (None, m)
            else (Some(Vpn(r.value, Last(m.fifo[r.value]))), DropOldest(m, r.value))
    decreases |m.running| - i
  {
    if i < |m.running| {
      FindInProcSpec(m, m.running[i]);
      ScanRunningSpec(m, caller, i + 1);
    }
  }

  lemma FindInProcSpec(m: Mem, p: nat)
    requires FifoExact(m.pt, m.fifo)
    ensures FindInProc(m, p) ==
            if p !in m.fifo || m.fifo[p] == [] then (None, m)
            else (Some(Vpn(p, Last(m.fifo[p]))), DropOldest(m, p))
  {
  }

  /** The victim is the longest-resident page of the victim process; nothing
      else changes, and nothing changes at all when no page is resident. */
  lemma FindGlobalSpec(m: Mem, caller: nat)
    requires FifoExact(m.pt, m.fifo)
    ensures var r := VictimProc(m, caller);
            FindGlobal(m, caller) ==
            if r.None? then (None, m)
            else (Some(Vpn(r.value, Last(m.fifo[r.value]))), DropOldest(m, r.value))
  {
    FindInProcSpec(m, caller);
    ScanRunningSpec(m, caller, 0);
  }
}
