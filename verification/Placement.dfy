/**
 Where a process is (src/sched.c, src/os.c:131-157): loader and CPUs as atomic
 steps over the ready queues, the running list and the process each CPU holds.
 In every reachable state a tracked process is in exactly one place.
 */
module Placement {
  import opened Basics
  import opened Mlq
  import opened Queues
  import opened Scheduler

  /** Halted is the error exit of the program. */
  datatype World = World(sched: Sched<Pcb>, running: seq<Pcb>, cpu: seq<Option<Pcb>>) | Halted

  datatype Action =
    | Load(proc: Pcb)     // the loader adds a new process
    | Fetch(c: nat)       // an idle CPU asks the dispatcher
    | Requeue(c: nat)     // a CPU gives up its process at the end of its slice
    | Retire(c: nat)      // a CPU finishes its process

  /** All queued processes, with multiplicity. */
  function Queued(queues: seq<seq<Pcb>>): (r: multiset<Pcb>) {
    if queues == [] then multiset{} else multiset(queues[0]) + Queued(queues[1..])
  }

  function Held(cpu: seq<Option<Pcb>>): (r: multiset<Pcb>) {
    if cpu == [] then multiset{}
    else One(cpu[0]) + Held(cpu[1..])
  }

  /** enqueue into a ready queue of bounded size. */
  function Enqueue(w: World, x: Pcb): (r: Option<Sched<Pcb>>)
    requires w.World? && |w.sched.slot| == |w.sched.queues|
  {
    if x.prio >= |w.sched.queues| || |w.sched.queues[x.prio]| >= MAX_QUEUE_SIZE then None
    else Some(Next(w.sched, Arrive(x.prio, x)))
  }

  ghost function Act(w: World, a: Action): (r: World)
    requires w.World? ==> |w.sched.slot| == |w.sched.queues|
  {
    if w.Halted? then w
    else
      match a
      case Load(x) =>
        if exists y :: y in w.running && y.pid == x.pid then w  // the loader numbers processes afresh
        else
          var q := Enqueue(w, x);
          if q.None? || |w.running| >= MAX_QUEUE_SIZE then Halted
          else World(q.value, w.running + [x], w.cpu)
      case Fetch(c) =>
        if c >= |w.cpu| || w.cpu[c].Some? then w
        else
          var (x, s) := Dispatch(w.sched);
          World(s, w.running, w.cpu[c := x])
      case Requeue(c) =>
        if c >= |w.cpu| || w.cpu[c].None? then w
        else
          var q := Enqueue(w, w.cpu[c].value);
          if q.None? then Halted else World(q.value, w.running, w.cpu[c := None])
      case Retire(c) =>
        if c >= |w.cpu| || w.cpu[c].None? then w
        else World(w.sched, Without(w.running, w.cpu[c].value), w.cpu[c := None])
  }

  /** Every tracked process is in one place: queues and CPUs together hold the
      running list, each process once; queued processes are in the queue of
      their own priority; no two tracked processes share a pid. */
  ghost predicate Placed(w: World) {
    w.World? ==>
      && Valid(w.sched) && |w.sched.slot| == MAX_PRIO
      && |w.running| <= MAX_QUEUE_SIZE
      && (forall i, j :: 0 <= i < j < |w.running| ==> w.running[i].pid != w.running[j].pid)
      && Queued(w.sched.queues) + Held(w.cpu) == multiset(w.running)
      && (forall p, x :: 0 <= p < |w.sched.queues| && x in w.sched.queues[p] ==> x.prio == p)
  }

  // ----- counting -----

  lemma Cancel(a: multiset<Pcb>, b: multiset<Pcb>, c: multiset<Pcb>)
    requires a + c == b + c
    ensures a == b
  {
    forall x ensures a[x] == b[x] {
      assert (a + c)[x] == (b + c)[x];
    }
  }

  lemma {:induction false} QueuedUpdate(queues: seq<seq<Pcb>>, p: nat, q: seq<Pcb>)
    requires p < |queues|
    ensures Queued(queues[p := q]) + multiset(queues[p]) == Queued(queues) + multiset(q)
  {
    var head, rest := multiset(queues[0]), Queued(queues[1..]);
    if p > 0 {
      assert queues[p := q][1..] == queues[1..][p - 1 := q];
      QueuedUpdate(queues[1..], p - 1, q);
      var rest' := Queued(queues[1..][p - 1 := q]);
      Shuffle(head, rest', multiset(queues[p]), rest, multiset(q));
    } else {
      assert queues[p := q][1..] == queues[1..];
    }
  }

  function One(x: Option<Pcb>): (r: multiset<Pcb>) {
    if x.Some? then multiset{x.value} else multiset{}
  }

  lemma {:induction false} HeldUpdate(cpu: seq<Option<Pcb>>, c: nat, x: Option<Pcb>)
    requires c < |cpu|
    ensures Held(cpu[c := x]) + One(cpu[c]) == Held(cpu) + One(x)
  {
    hide One;
    var rest := Held(cpu[1..]);
    var first, mine, yours := One(cpu[0]), One(cpu[c]), One(x);
    if c > 0 {
      assert cpu[c := x][1..] == cpu[1..][c - 1 := x];
      HeldUpdate(cpu[1..], c - 1, x);
      Shuffle(first, Held(cpu[1..][c - 1 := x]), mine, rest, yours);
    } else {
      assert cpu[c := x][1..] == cpu[1..];
      assert (yours + rest) + first == (first + rest) + yours;
    }
  }

  lemma Shuffle(a: multiset<Pcb>, b': multiset<Pcb>, c: multiset<Pcb>, b: multiset<Pcb>, d: multiset<Pcb>)
    requires b' + c == b + d
    ensures (a + b') + c == (a + b) + d
  {
    assert (a + b') + c == a + (b' + c);
    assert (a + b) + d == a + (b + d);
  }

  lemma {:induction false} QueueWithin(queues: seq<seq<Pcb>>, p: nat)
    requires p < |queues|
    ensures multiset(queues[p]) <= Queued(queues)
  {
    if p > 0 {
      QueueWithin(queues[1..], p - 1);
    }
  }

  lemma {:induction false} CpuWithin(cpu: seq<Option<Pcb>>, c: nat)
    requires c < |cpu| && cpu[c].Some?
    ensures cpu[c].value in Held(cpu)
  {
    if c > 0 {
      CpuWithin(cpu[1..], c - 1);
    }
  }

  lemma SmallerMultiset(a: multiset<Pcb>, b: multiset<Pcb>)
    requires a <= b
    ensures |a| <= |b|
  {
    assert b == a + (b - a);
  }

  /** A queue is never longer than the running list, and shorter when some
      CPU holds a process. */
  lemma QueueRoom(w: World, p: nat)
    requires Placed(w) && w.World? && p < MAX_PRIO
    ensures |w.sched.queues[p]| <= |w.running|
    ensures (exists c :: 0 <= c < |w.cpu| && w.cpu[c].Some?) ==> |w.sched.queues[p]| < |w.running|
  {
    var q := multiset(w.sched.queues[p]);
    QueueWithin(w.sched.queues, p);
    assert q <= multiset(w.running);
    SmallerMultiset(q, multiset(w.running));
    if c :| 0 <= c < |w.cpu| && w.cpu[c].Some? {
      CpuWithin(w.cpu, c);
      var x := w.cpu[c].value;
      assert q + multiset{x} <= multiset(w.running);
      SmallerMultiset(q + multiset{x}, multiset(w.running));
    }
  }

  // ----- steps -----

  lemma ArrivePlaces(s: Sched<Pcb>, x: Pcb)
    requires Valid(s) && x.prio < |s.queues|
    ensures Queued(Next(s, Arrive(x.prio, x)).queues) == Queued(s.queues) + multiset{x}
  {
    var q := s.queues[x.prio];
    QueuedUpdate(s.queues, x.prio, q + [x]);
    assert multiset(q + [x]) == multiset(q) + multiset{x};
    assert Queued(s.queues) + (multiset(q) + multiset{x}) == (Queued(s.queues) + multiset{x}) + multiset(q);
    Cancel(Queued(Next(s, Arrive(x.prio, x)).queues), Queued(s.queues) + multiset{x}, multiset(q));
  }

  lemma DispatchPlaces(s: Sched<Pcb>)
    requires Valid(s)
    ensures Queued(Dispatch(s).1.queues) + One(Dispatch(s).0) == Queued(s.queues)
  {
    hide Dispatch;
    DispatchChoice(s);
    if Level(s).Some? {
      var p := Level(s).value;
      var q := s.queues[p];
      var after := Queued(s.queues[p := q[1..]]);
      QueuedUpdate(s.queues, p, q[1..]);
      HeadTail(q);
      assert (after + multiset{q[0]}) + multiset(q[1..]) == after + multiset(q);
      Cancel(after + multiset{q[0]}, Queued(s.queues), multiset(q[1..]));
    } else {
      NothingToRun(s);
    }
  }

  lemma NothingToRun(s: Sched<Pcb>)
    requires Valid(s) && Level(s).None?
    ensures Dispatch(s).0.None? && Dispatch(s).1.queues == s.queues
  {
  }

  lemma LoadPlaced(w: World, x: Pcb)
    requires Placed(w) && w.World?
    ensures Placed(Act(w, Load(x)))
  {
    hide Queued;
    hide Held;
    var w' := Act(w, Load(x));
    if w'.World? && w' != w {
      ArrivePlaces(w.sched, x);
      assert multiset(w.running + [x]) == multiset(w.running) + multiset{x};
      forall i | 0 <= i < |w.running| ensures w.running[i].pid != x.pid {
        assert w.running[i] in w.running;
      }
    }
  }

  /** Moving x between the queues and one CPU keeps the total. */
  lemma FetchTotal(w: World, c: nat)
    requires Placed(w) && w.World? && c < |w.cpu| && w.cpu[c].None?
    ensures var (x, s) := Dispatch(w.sched);
            Queued(s.queues) + Held(w.cpu[c := x]) == Queued(w.sched.queues) + Held(w.cpu)
  {
    hide Dispatch;
    var (x, s) := Dispatch(w.sched);
    DispatchPlaces(w.sched);
    HeldUpdate(w.cpu, c, x);
    assert Held(w.cpu[c := x]) + One(None) == Held(w.cpu[c := x]);
    assert Queued(s.queues) + (Held(w.cpu) + One(x)) == (Queued(s.queues) + One(x)) + Held(w.cpu);
  }

  lemma FetchPlaced(w: World, c: nat)
    requires Placed(w) && w.World?
    ensures Placed(Act(w, Fetch(c)))
  {
    hide Dispatch;
    hide Queued;
    hide Held;
    if c < |w.cpu| && w.cpu[c].None? {
      FetchTotal(w, c);
      DispatchValid(w.sched);
      DispatchKeepsLevels(w.sched);
    }
  }

  lemma DispatchKeepsLevels(s: Sched<Pcb>)
    requires Valid(s)
    requires forall p, x :: 0 <= p < |s.queues| && x in s.queues[p] ==> x.prio == p
    ensures var s' := Dispatch(s).1;
            forall p, x :: 0 <= p < |s'.queues| && x in s'.queues[p] ==> x.prio == p
  {
  }

  lemma RequeueTotal(w: World, c: nat)
    requires Placed(w) && w.World? && c < |w.cpu| && w.cpu[c].Some? && w.cpu[c].value.prio < MAX_PRIO
    ensures var x := w.cpu[c].value;
            Queued(Next(w.sched, Arrive(x.prio, x)).queues) + Held(w.cpu[c := None]) == Queued(w.sched.queues) + Held(w.cpu)
  {
    var x := w.cpu[c].value;
    hide Next;
    ArrivePlaces(w.sched, x);
    HeldUpdate(w.cpu, c, None);
    assert Held(w.cpu) + One(None) == Held(w.cpu);
    assert (Queued(w.sched.queues) + multiset{x}) + Held(w.cpu[c := None])
        == Queued(w.sched.queues) + (Held(w.cpu[c := None]) + multiset{x});
  }

  lemma RequeuePlaced(w: World, c: nat)
    requires Placed(w) && w.World?
    ensures Placed(Act(w, Requeue(c)))
  {
    hide Queued;
    hide Held;
    if c < |w.cpu| && w.cpu[c].Some? {
      if Enqueue(w, w.cpu[c].value).Some? {
        RequeueTotal(w, c);
      }
    }
  }

  lemma {:induction false} WithoutPlaces(s: seq<Pcb>, x: Pcb)
    requires x in s
    ensures multiset(s) == multiset(Without(s, x)) + multiset{x}
    ensures |Without(s, x)| == |s| - 1
  {
    HeadTail(s);
    if s[0] != x {
      WithoutPlaces(s[1..], x);
    }
  }

  lemma {:induction false} WithoutPids(s: seq<Pcb>, x: Pcb)
    requires forall i, j :: 0 <= i < j < |s| ==> s[i].pid != s[j].pid
    ensures var r := Without(s, x);
            && (forall y :: y in r ==> y in s)
            && forall i, j :: 0 <= i < j < |r| ==> r[i].pid != r[j].pid
  {
    if s != [] {
      WithoutPids(s[1..], x);
      if s[0] != x {
        var r := Without(s[1..], x);
        forall j | 0 <= j < |r| ensures r[j].pid != s[0].pid {
          assert r[j] in s[1..];
        }
      }
    }
  }

  lemma RetireTotal(w: World, c: nat)
    requires Placed(w) && w.World? && c < |w.cpu| && w.cpu[c].Some?
    ensures var x := w.cpu[c].value;
            && x in w.running
            && Queued(w.sched.queues) + Held(w.cpu[c := None]) == multiset(Without(w.running, x))
  {
    var x := w.cpu[c].value;
    CpuWithin(w.cpu, c);
    assert x in multiset(w.running);
    WithoutPlaces(w.running, x);
    HeldUpdate(w.cpu, c, None);
    assert Held(w.cpu) + One(None) == Held(w.cpu);
    assert (Queued(w.sched.queues) + Held(w.cpu[c := None])) + multiset{x}
        == Queued(w.sched.queues) + (Held(w.cpu[c := None]) + multiset{x});
    Cancel(Queued(w.sched.queues) + Held(w.cpu[c := None]), multiset(Without(w.running, x)), multiset{x});
  }

  lemma RetirePlaced(w: World, c: nat)
    requires Placed(w) && w.World?
    ensures Placed(Act(w, Retire(c)))
  {
    hide Queued;
    hide Held;
    if c < |w.cpu| && w.cpu[c].Some? {
      var x := w.cpu[c].value;
      RetireTotal(w, c);
      WithoutPlaces(w.running, x);
      WithoutPids(w.running, x);
    }
  }

  // ----- what the steps do -----

  /** Nothing else changes at any other CPU. */
  ghost predicate OtherCpusSame(w: World, w': World, c: nat)
    requires w.World? && w'.World?
  {
    |w'.cpu| == |w.cpu| && forall d :: 0 <= d < |w.cpu| && d != c ==> w'.cpu[d] == w.cpu[d]
  }

  lemma {:induction false} WithoutOne(s: seq<Pcb>, x: Pcb) returns (i: nat)
    requires x in s
    ensures i < |s| && s[i] == x && Without(s, x) == s[..i] + s[i + 1..]
  {
    if s[0] == x {
      i := 0;
    } else {
      assert s == [s[0]] + s[1..];
      var j := WithoutOne(s[1..], x);
      i := j + 1;
      assert s[..i] == [s[0]] + s[1..][..j] && s[i + 1..] == s[1..][j + 1..];
    }
  }

  /** Finishing: the CPU is idle, the process is at no place any more and off the
      running list, the others keep their order, and queues, budgets and the other
      CPUs are as they were. */
  lemma RetireEffect(w: World, c: nat, x: Pcb)
    requires Placed(w) && w.World? && c < |w.cpu| && w.cpu[c] == Some(x)
    ensures var w' := Act(w, Retire(c));
            && w'.World? && w'.sched == w.sched && OtherCpusSame(w, w', c) && w'.cpu[c].None?
            && (forall l :: !At(w', x, l))
            && multiset(w'.running) == multiset(w.running) - multiset{x}
            && exists i :: 0 <= i < |w.running| && w.running[i] == x && w'.running == w.running[..i] + w.running[i + 1..]
  {
    hide Placed;
    hide Without;
    hide At;
    LevelsMatch(w);
    RetireTotal(w, c);
    RetirePlaced(w, c);
    RetireGone(w, x);
    var i := WithoutOne(w.running, x);
    Nowhere(Act(w, Retire(c)), x);
  }

  lemma LevelsMatch(w: World)
    requires Placed(w) && w.World?
    ensures |w.sched.slot| == |w.sched.queues|
  {
    hide Queued;
    hide Held;
  }

  lemma Nowhere(w: World, x: Pcb)
    requires Placed(w) && w.World? && x !in w.running
    ensures forall l :: !At(w, x, l)
  {
    hide Placed;
    hide At;
    ExactlyOnePlace(w, x);
  }

  lemma RetireGone(w: World, x: Pcb)
    requires Placed(w) && w.World? && x in w.running
    ensures multiset(Without(w.running, x)) == multiset(w.running) - multiset{x}
    ensures x !in Without(w.running, x)
  {
    hide Queued;
    hide Held;
    WithoutPlaces(w.running, x);
    RunningOnce(w, x);
    hide Placed;
    var rest := Without(w.running, x);
    assert multiset(rest)[x] == 0;
    assert x in rest <==> x in multiset(rest);
  }

  /** Putting back: the CPU is idle and the process is last in the queue of its
      priority; every other queue, the budgets, the running list and the other CPUs
      are as they were. */
  lemma RequeueEffect(w: World, c: nat, x: Pcb)
    requires Placed(w) && ValidPrios(w) && w.World? && c < |w.cpu| && w.cpu[c] == Some(x)
    ensures var w' := Act(w, Requeue(c));
            && w'.World? && w'.running == w.running && OtherCpusSame(w, w', c) && w'.cpu[c].None?
            && x.prio < MAX_PRIO && w'.sched.slot == w.sched.slot
            && w'.sched.queues == w.sched.queues[x.prio := w.sched.queues[x.prio] + [x]]
  {
    CpuWithin(w.cpu, c);
    assert x in multiset(w.running);
    assert x in w.running;
    OnlyLoadHalts(w, Requeue(c));
    hide Queued;
    hide Held;
  }

  /** Loading: the process is last in the queue of its priority and on the running
      list; everything else is as it was. */
  lemma LoadEffect(w: World, x: Pcb)
    requires Placed(w) && ValidPrios(w) && w.World? && x.prio < MAX_PRIO && |w.running| < MAX_QUEUE_SIZE
    requires forall y :: y in w.running ==> y.pid != x.pid
    ensures var w' := Act(w, Load(x));
            && w'.World? && w'.running == w.running + [x] && w'.cpu == w.cpu && w'.sched.slot == w.sched.slot
            && w'.sched.queues == w.sched.queues[x.prio := w.sched.queues[x.prio] + [x]]
  {
    OnlyLoadHalts(w, Load(x));
    hide Queued;
    hide Held;
  }

  /** Fetching: an idle CPU gets a process exactly when one is queued; it is the
      head of its queue, which loses it; the other queues, the running list and the
      other CPUs are as they were. */
  lemma FetchEffect(w: World, c: nat)
    requires Placed(w) && w.World? && c < |w.cpu| && w.cpu[c].None?
    ensures var w' := Act(w, Fetch(c));
            && w'.World? && w'.running == w.running && OtherCpusSame(w, w', c)
            && (w'.cpu[c].None? <==> forall p :: 0 <= p < MAX_PRIO ==> w.sched.queues[p] == [])
            && (w'.cpu[c].Some? ==>
                  exists p :: 0 <= p < MAX_PRIO && w.sched.queues[p] != [] && w'.cpu[c] == Some(w.sched.queues[p][0])
                              && w'.sched.queues == w.sched.queues[p := w.sched.queues[p][1..]])
  {
    hide Queued;
    hide Held;
    DispatchChoice(w.sched);
    hide Dispatch;
    if Level(w.sched).Some? {
      var p := Level(w.sched).value;
      assert w.sched.queues[p] != [];
    }
  }

  /** Exclusive placement is kept by every step of loader and CPUs. */
  lemma ActPlaced(w: World, a: Action)
    requires Placed(w)
    ensures Placed(Act(w, a))
  {
    if w.World? {
      match a
      case Load(x) => LoadPlaced(w, x);
      case Fetch(c) => FetchPlaced(w, c);
      case Requeue(c) => RequeuePlaced(w, c);
      case Retire(c) => RetirePlaced(w, c);
    }
  }

  ghost function Acts(w: World, acts: seq<Action>): (r: World)
    requires Placed(w)
    ensures Placed(r)
    decreases |acts|
  {
    if acts == [] then w else (ActPlaced(w, acts[0]); Acts(Act(w, acts[0]), acts[1..]))
  }

  // ----- consequences -----

  /** Every tracked process has a valid priority. */
  ghost predicate ValidPrios(w: World) {
    w.World? ==> forall x :: x in w.running ==> x.prio < MAX_PRIO
  }

  lemma PriosStay(w: World, a: Action)
    requires Placed(w) && ValidPrios(w)
    ensures ValidPrios(Act(w, a))
  {
    if w.World? && a.Retire? && a.c < |w.cpu| && w.cpu[a.c].Some? {
      WithoutPids(w.running, w.cpu[a.c].value);
    }
  }

  /** put_proc never meets a full queue: only loading can end in the error
      exit, and it does so exactly when 50 processes are alive or the
      priority is out of range. */
  lemma OnlyLoadHalts(w: World, a: Action)
    requires Placed(w) && ValidPrios(w) && w.World?
    ensures Act(w, a).Halted? <==>
            && a.Load? && (forall y :: y in w.running ==> y.pid != a.proc.pid)
            && (a.proc.prio >= MAX_PRIO || |w.running| == MAX_QUEUE_SIZE)
  {
    hide Queued;
    hide Held;
    hide Dispatch;
    match a
    case Load(x) =>
      if x.prio < MAX_PRIO {
        QueueRoom(w, x.prio);
      }
    case Requeue(c) =>
      if c < |w.cpu| && w.cpu[c].Some? {
        var x := w.cpu[c].value;
        CpuWithin(w.cpu, c);
        assert x in multiset(w.running);
        assert x in w.running;
        QueueRoom(w, x.prio);
      }
    case _ =>
  }

  /** A process is queued at one position of one queue, or held by one CPU. */
  datatype Place = InQueue(p: nat, i: nat) | OnCpu(c: nat)

  ghost predicate At(w: World, x: Pcb, l: Place)
    requires w.World?
  {
    match l
    case InQueue(p, i) => p < |w.sched.queues| && i < |w.sched.queues[p]| && w.sched.queues[p][i] == x
    case OnCpu(c) => c < |w.cpu| && w.cpu[c] == Some(x)
  }

  lemma RunningOnce(w: World, x: Pcb)
    requires Placed(w) && w.World?
    ensures multiset(w.running)[x] <= 1
  {
    if multiset(w.running)[x] >= 2 {
      Twice(w.running, x);
    }
  }

  lemma {:induction false} Twice(s: seq<Pcb>, x: Pcb)
    requires multiset(s)[x] >= 2
    ensures exists i, j :: 0 <= i < j < |s| && s[i] == x && s[j] == x
  {
    HeadTail(s);
    if s[0] == x {
      assert x in multiset(s[1..]);
      var j :| 0 <= j < |s[1..]| && s[1..][j] == x;
      assert s[0] == x && s[j + 1] == x;
    } else {
      Twice(s[1..], x);
      var i, j :| 0 <= i < j < |s[1..]| && s[1..][i] == x && s[1..][j] == x;
      assert s[i + 1] == x && s[j + 1] == x;
    }
  }

  lemma {:induction false} QueuedSomewhere(queues: seq<seq<Pcb>>, x: Pcb) returns (p: nat)
    requires x in Queued(queues)
    ensures p < |queues| && x in queues[p]
  {
    if x in multiset(queues[0]) {
      p := 0;
    } else {
      p := QueuedSomewhere(queues[1..], x);
      p := p + 1;
    }
  }

  lemma {:induction false} HeldSomewhere(cpu: seq<Option<Pcb>>, x: Pcb) returns (c: nat)
    requires x in Held(cpu)
    ensures c < |cpu| && cpu[c] == Some(x)
  {
    if cpu[0] == Some(x) {
      c := 0;
    } else {
      c := HeldSomewhere(cpu[1..], x);
      c := c + 1;
    }
  }

  /** Two places of the same process would count it twice. */
  lemma {:induction false} TwoCpus(cpu: seq<Option<Pcb>>, x: Pcb, c: nat, d: nat)
    requires c < d < |cpu| && cpu[c] == Some(x) && cpu[d] == Some(x)
    ensures Held(cpu)[x] >= 2
  {
    if c > 0 {
      TwoCpus(cpu[1..], x, c - 1, d - 1);
    } else {
      CpuWithin(cpu[1..], d - 1);
    }
  }

  lemma {:induction false} TwoQueues(queues: seq<seq<Pcb>>, x: Pcb, p: nat, q: nat)
    requires p < q < |queues| && x in queues[p] && x in queues[q]
    ensures Queued(queues)[x] >= 2
  {
    if p > 0 {
      TwoQueues(queues[1..], x, p - 1, q - 1);
    } else {
      QueueWithin(queues[1..], q - 1);
      assert x in multiset(queues[1..][q - 1]);
    }
  }

  lemma TwoPositions(queues: seq<seq<Pcb>>, p: nat, i: nat, j: nat)
    requires p < |queues| && i < j < |queues[p]| && queues[p][i] == queues[p][j]
    ensures Queued(queues)[queues[p][i]] >= 2
  {
    QueueWithin(queues, p);
    var s := queues[p];
    assert s == s[..i] + [s[i]] + s[i + 1..j] + [s[j]] + s[j + 1..];
    assert multiset(s)[s[i]] >= 2;
  }

  /** In every reachable state a tracked process is in exactly one place, and
      nothing else is anywhere. */
  lemma ExactlyOnePlace(w: World, x: Pcb)
    requires Placed(w) && w.World?
    ensures x in w.running <==> exists l :: At(w, x, l)
    ensures forall l, k :: At(w, x, l) && At(w, x, k) ==> l == k
  {
    RunningOnce(w, x);
    var all := Queued(w.sched.queues) + Held(w.cpu);
    if x in w.running {
      assert x in multiset(w.running);
      if x in Queued(w.sched.queues) {
        var p := QueuedSomewhere(w.sched.queues, x);
        var i :| 0 <= i < |w.sched.queues[p]| && w.sched.queues[p][i] == x;
        assert At(w, x, InQueue(p, i));
      } else {
        var c := HeldSomewhere(w.cpu, x);
        assert At(w, x, OnCpu(c));
      }
    }
    forall l | At(w, x, l) ensures x in w.running {
      PlaceCounts(w, x, l);
      assert x in multiset(w.running);
    }
    forall l, k | At(w, x, l) && At(w, x, k) ensures l == k {
      SamePlace(w, x, l, k);
    }
  }

  lemma PlaceCounts(w: World, x: Pcb, l: Place)
    requires w.World? && At(w, x, l)
    ensures l.InQueue? ==> x in Queued(w.sched.queues)
    ensures l.OnCpu? ==> x in Held(w.cpu)
  {
    match l
    case InQueue(p, i) =>
      QueueWithin(w.sched.queues, p);
      assert x in multiset(w.sched.queues[p]);
    case OnCpu(c) => CpuWithin(w.cpu, c);
  }

  lemma SamePlace(w: World, x: Pcb, l: Place, k: Place)
    requires w.World? && At(w, x, l) && At(w, x, k)
    requires (Queued(w.sched.queues) + Held(w.cpu))[x] <= 1
    ensures l == k
  {
    PlaceCounts(w, x, l);
    PlaceCounts(w, x, k);
    if l.OnCpu? && k.OnCpu? {
      if l.c < k.c { TwoCpus(w.cpu, x, l.c, k.c); }
      if k.c < l.c { TwoCpus(w.cpu, x, k.c, l.c); }
    } else if l.InQueue? && k.InQueue? {
      if l.p < k.p { TwoQueues(w.sched.queues, x, l.p, k.p); }
      if k.p < l.p { TwoQueues(w.sched.queues, x, k.p, l.p); }
      if l.p == k.p && l.i < k.i { TwoPositions(w.sched.queues, l.p, l.i, k.i); }
      if l.p == k.p && k.i < l.i { TwoPositions(w.sched.queues, l.p, k.i, l.i); }
    }
  }

  /** The scan of find_proc over the running list, started by a process that some
      CPU holds, finds that process. */
  lemma FindFindsCaller(w: World, c: nat, x: Pcb)
    requires Placed(w) && w.World? && c < |w.cpu| && w.cpu[c] == Some(x)
    ensures FirstWith(w.running, x.pid) == Some(x)
  {
    ExactlyOnePlace(w, x);
    assert At(w, x, OnCpu(c));
    var i :| 0 <= i < |w.running| && w.running[i] == x;
    FirstWithAt(w.running, x.pid, i);
  }

  /** An empty scheduler and idle CPUs. */
  function Start(cpus: nat): (w: World) {
    World(Sched(NoneReady(), Full(MAX_PRIO)), [], seq(cpus, _ => None))
  }

  lemma StartPlaced(cpus: nat)
    ensures Placed(Start(cpus)) && ValidPrios(Start(cpus))
  {
    NoneQueued(MAX_PRIO);
    NoneHeld(cpus);
  }

  lemma {:induction false} ActsPrios(w: World, acts: seq<Action>)
    requires Placed(w) && ValidPrios(w)
    ensures ValidPrios(Acts(w, acts))
    decreases |acts|
  {
    hide ValidPrios;
    hide Act;
    hide Queued;
    if acts != [] {
      ActPlaced(w, acts[0]);
      PriosStay(w, acts[0]);
      ActsPrios(Act(w, acts[0]), acts[1..]);
    }
  }

  /** Exclusive placement and no full queue for every run of loader and CPUs:
      a tracked process is in exactly one place, and the next step leads to the
      error exit only if it loads a 51st process or a bad priority. */
  lemma EveryRunPlaced(cpus: nat, acts: seq<Action>, x: Pcb, next: Action)
    ensures Placed(Start(cpus))
    ensures var w := Acts(Start(cpus), acts);
            w.World? ==>
              && (x in w.running <==> exists l :: At(w, x, l))
              && (forall l, k :: At(w, x, l) && At(w, x, k) ==> l == k)
              && (Act(w, next).Halted? ==> next.Load? && (next.proc.prio >= MAX_PRIO || |w.running| == MAX_QUEUE_SIZE))
  {
    hide Placed;
    hide ValidPrios;
    hide Act;
    StartPlaced(cpus);
    ActsPrios(Start(cpus), acts);
    var w := Acts(Start(cpus), acts);
    if w.World? {
      ExactlyOnePlace(w, x);
      OnlyLoadHalts(w, next);
    }
  }

  lemma {:induction false} NoneQueued(n: nat)
    ensures var e: seq<seq<Pcb>> := seq(n, _ => []);
            Queued(e) == multiset{}
  {
    var e: seq<seq<Pcb>> := seq(n, _ => []);
    if n > 0 {
      var e1: seq<seq<Pcb>> := seq(n - 1, _ => []);
      assert e[1..] == e1;
      NoneQueued(n - 1);
    }
  }

  lemma {:induction false} NoneHeld(n: nat)
    ensures var e: seq<Option<Pcb>> := seq(n, _ => None);
            Held(e) == multiset{}
  {
    var e: seq<Option<Pcb>> := seq(n, _ => None);
    if n > 0 {
      var e1: seq<Option<Pcb>> := seq(n - 1, _ => None);
      assert e[1..] == e1;
      NoneHeld(n - 1);
    }
  }

  // ----- bounded waiting of the whole -----

  /** What one step is to the dispatcher. */
  ghost function Events(w: World, a: Action): (r: seq<Event<Pcb>>)
    requires w.World? && |w.sched.slot| == |w.sched.queues|
  {
    match a
    case Load(x) =>
      if (exists y :: y in w.running && y.pid == x.pid) || Act(w, a).Halted? then [] else [Arrive(x.prio, x)]
    case Fetch(c) => if c < |w.cpu| && w.cpu[c].None? then [Get] else []
    case Requeue(c) =>
      if c >= |w.cpu| || w.cpu[c].None? || Act(w, a).Halted? then []
      else [Arrive(w.cpu[c].value.prio, w.cpu[c].value)]
    case Retire(c) => []
  }

  /** The dispatcher's part of a run; nothing follows the error exit. */
  ghost function Trace(w: World, acts: seq<Action>): (r: seq<Event<Pcb>>)
    requires Placed(w)
    decreases |acts|
  {
    if w.Halted? || acts == [] then []
    else (ActPlaced(w, acts[0]); Events(w, acts[0]) + Trace(Act(w, acts[0]), acts[1..]))
  }

  /** How often idle CPUs ask the dispatcher. */
  ghost function Fetches(w: World, acts: seq<Action>): (r: nat)
    requires Placed(w)
    decreases |acts|
  {
    if w.Halted? || acts == [] then 0
    else (ActPlaced(w, acts[0]); (if Events(w, acts[0]) == [Get] then 1 else 0) + Fetches(Act(w, acts[0]), acts[1..]))
  }

  /** At some point of the run a CPU gets x. */
  ghost predicate Runs(w: World, acts: seq<Action>, x: Pcb)
    requires Placed(w)
    decreases |acts|
  {
    && w.World? && acts != []
    && (|| (acts[0].Fetch? && OnCpuAfter(w, acts[0], x))
        || (ActPlaced(w, acts[0]); Runs(Act(w, acts[0]), acts[1..], x)))
  }

  ghost predicate OnCpuAfter(w: World, a: Action, x: Pcb)
    requires Placed(w) && w.World? && a.Fetch?
  {
    a.c < |w.cpu| && w.cpu[a.c].None? && Act(w, a).World? && Act(w, a).cpu == w.cpu[a.c := Some(x)]
  }

  lemma OneStep(w: World, a: Action)
    requires Placed(w) && w.World?
    ensures |Events(w, a)| <= 1
    ensures Act(w, a).World? ==> Act(w, a).sched == if Events(w, a) == [] then w.sched else Next(w.sched, Events(w, a)[0])
    ensures Act(w, a).Halted? ==> Events(w, a) == []
    ensures Events(w, a) == [Get] ==> a.Fetch? && (Dispatch(w.sched).0.Some? ==> OnCpuAfter(w, a, Dispatch(w.sched).0.value))
  {
    hide Queued;
    hide Held;
    hide Dispatch;
  }

  lemma {:induction false} FetchesAreGets(w: World, acts: seq<Action>)
    requires Placed(w)
    ensures Gets(Trace(w, acts)) == Fetches(w, acts)
    decreases |acts|
  {
    hide Queued;
    hide Held;
    hide Act;
    hide Events;
    if w.World? && acts != [] {
      ActPlaced(w, acts[0]);
      OneStep(w, acts[0]);
      FetchesAreGets(Act(w, acts[0]), acts[1..]);
      var e, rest := Events(w, acts[0]), Trace(Act(w, acts[0]), acts[1..]);
      if e != [] {
        assert e == [e[0]];
        assert (e + rest)[0] == e[0] && (e + rest)[1..] == rest;
      } else {
        assert e + rest == rest;
      }
    }
  }

  lemma {:induction false} DispatchedRuns(w: World, acts: seq<Action>, x: Pcb)
    requires Placed(w) && w.World? && Valid(w.sched) && Dispatched(w.sched, Trace(w, acts), x)
    ensures Runs(w, acts, x)
    decreases |acts|
  {
    if acts != [] {
      ActPlaced(w, acts[0]);
      OneStep(w, acts[0]);
      var w' := Act(w, acts[0]);
      var e, rest := Events(w, acts[0]), Trace(w', acts[1..]);
      hide Act;
      hide Events;
      hide Next;
      hide Dispatch;
      hide Queued;
      hide Held;
      if e == [] {
        assert e + rest == rest;
      } else {
        assert e == [e[0]];
        assert (e + rest)[0] == e[0] && (e + rest)[1..] == rest;
        NextValid(w.sched, e[0]);
      }
      if !(acts[0].Fetch? && OnCpuAfter(w, acts[0], x)) {
        assert w'.World? && Dispatched(w'.sched, rest, x);
        DispatchedRuns(w', acts[1..], x);
      }
    }
  }

  /** Whatever loader and CPUs do, a process at position k of its queue is given
      to a CPU by the time idle CPUs have asked (k + 1) * 140 * 141 times. */
  lemma EveryProcessRuns(w: World, acts: seq<Action>, p: nat, k: nat)
    requires Placed(w) && w.World? && p < MAX_PRIO && k < |w.sched.queues[p]|
    requires Fetches(w, acts) >= (k + 1) * (MAX_PRIO * (MAX_PRIO + 1))
    ensures Runs(w, acts, w.sched.queues[p][k])
  {
    FetchesAreGets(w, acts);
    BoundedWaiting(w.sched, Trace(w, acts), p, k);
    DispatchedRuns(w, acts, w.sched.queues[p][k]);
  }
}
