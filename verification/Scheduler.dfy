/**
 The scheduler object (src/sched.c): 140 ready queues, the budgets and the
 running list, updated in place. Each method is proved against the dispatcher
 function of module Mlq.
 */
module Scheduler {
  import opened Basics
  import opened Mlq
  import opened Queues

  const MAX_PRIO: nat := 140

  function NoneReady(): (r: seq<seq<Pcb>>)
    ensures |r| == MAX_PRIO && forall p :: 0 <= p < MAX_PRIO ==> r[p] == []
  {
    seq(MAX_PRIO, _ => [])
  }

  /** Taking a process back undoes its arrival, unless it was queued before. */
  lemma Undone(s: Sched<Pcb>, x: Pcb)
    requires |s.slot| == |s.queues| && x.prio < |s.queues|
    ensures var s' := Next(s, Arrive(x.prio, x));
            && |s'.queues| == |s.queues|
            && (x !in s.queues[x.prio] ==> s'.(queues := s'.queues[x.prio := Without(s'.queues[x.prio], x)]) == s)
  {
    var q := s.queues[x.prio];
    if x !in q {
      assert (q + [x])[..|q|] == q && (q + [x])[|q|] == x && (q + [x])[|q| + 1..] == [];
      WithoutAt(q + [x], |q|);
      assert Without(q + [x], x) == q;
      assert Next(s, Arrive(x.prio, x)).queues[x.prio := q] == s.queues;
    }
  }

  class Mlqs {
    const ready: seq<Queue>
    const slot: array<nat>
    const running: Queue

    /** The static arrays of the program: all queues are different objects. */
    ghost predicate Valid()
      reads this, ready, running
    {
      && |ready| == slot.Length == MAX_PRIO
      && (forall i :: 0 <= i < |ready| ==> ready[i].Valid() && ready[i] != running && ready[i].proc != running.proc)
      && (forall i, j :: 0 <= i < j < |ready| ==> ready[i] != ready[j] && ready[i].proc != ready[j].proc)
      && running.Valid()
    }

    ghost function Arrays(): (r: set<object>) {
      set i | 0 <= i < |ready| :: ready[i].proc
    }

    ghost function State(): (s: Sched<Pcb>)
      requires Valid()
      reads this, ready, running, slot, Arrays()
      ensures |s.queues| == |s.slot| == MAX_PRIO
    {
      Sched(seq(|ready|, i requires 0 <= i < |ready| reads this, ready, running, Arrays() requires Valid() => ready[i].Contents()),
            slot[..])
    }

    /** init_scheduler: empty queues, a full round of budgets. */
    constructor ()
      ensures Valid()
      ensures State() == Sched(NoneReady(), Full(MAX_PRIO))
      ensures running.Contents() == []
    {
      var run := new Queue();
      var budgets := new nat[MAX_PRIO](p requires 0 <= p < MAX_PRIO => MAX_PRIO - p);
      var qs: seq<Queue> := [];
      for p := 0 to MAX_PRIO
        invariant |qs| == p && run.Valid() && run.Contents() == [] && budgets[..] == Full(MAX_PRIO)
        invariant forall i :: 0 <= i < p ==> fresh(qs[i]) && fresh(qs[i].proc) && qs[i].Valid() && qs[i].Contents() == []
        invariant forall i :: 0 <= i < p ==> qs[i] != run && qs[i].proc != run.proc
        invariant forall i, j :: 0 <= i < j < p ==> qs[i] != qs[j] && qs[i].proc != qs[j].proc
      {
        var q := new Queue();
        qs := qs + [q];
      }
      ready, slot, running := qs, budgets, run;
      new;
      assert slot[..] == Full(MAX_PRIO);
      assert State().queues == NoneReady();
    }

    /** The scan of one pass: the first level with a process and budget. */
    method Scan() returns (r: Option<nat>)
      requires Valid()
      ensures r == Pick(State(), 0)
    {
      var prio := 0;
      while prio < MAX_PRIO
        invariant prio <= MAX_PRIO && Pick(State(), prio) == Pick(State(), 0)
      {
        if ready[prio].size != 0 && slot[prio] > 0 {
          return Some(prio);
        }
        prio := prio + 1;
      }
      return None;
    }

    /** Dequeue the head of a level and charge its budget. */
    method Take(p: nat) returns (x: Pcb)
      requires Valid() && p < MAX_PRIO && State().queues[p] != [] && State().slot[p] > 0
      modifies slot, ready, Arrays()
      ensures Valid()
      ensures x == old(State()).queues[p][0] && State() == Serve(old(State()), p)
      ensures running.Contents() == old(running.Contents())
    {
      var y := ready[p].Dequeue();
      x := y.value;
      slot[p] := slot[p] - 1;
      assert State().queues == old(State()).queues[p := old(State()).queues[p][1..]];
    }

    method ResetSlots()
      requires Valid()
      modifies slot
      ensures Valid() && State() == Refill(old(State()))
    {
      for prio := 0 to MAX_PRIO
        invariant forall q :: 0 <= q < prio ==> slot[q] == MAX_PRIO - q
      {
        slot[prio] := MAX_PRIO - prio;
      }
      assert slot[..] == Full(MAX_PRIO);
    }

    method Housekeep()
      requires Valid()
      modifies slot
      ensures Valid() && State() == Settle(old(State()))
    {
      var allZero := true;
      var prio := 0;
      while prio < MAX_PRIO && allZero
        invariant prio <= MAX_PRIO
        invariant allZero ==> forall q :: 0 <= q < prio ==> slot[q] == 0
        invariant !allZero ==> exists q :: 0 <= q < MAX_PRIO && slot[q] > 0
      {
        if slot[prio] > 0 {
          allZero := false;
        }
        prio := prio + 1;
      }
      if allZero {
        assert AllZero(State().slot);
        ResetSlots();
      } else {
        assert !AllZero(State().slot);
      }
    }

    /** get_mlq_proc. */
    method GetProc() returns (x: Option<Pcb>)
      requires Valid()
      modifies slot, ready, Arrays()
      ensures Valid()
      ensures (x, State()) == Dispatch(old(State()))
      ensures running.Contents() == old(running.Contents())
    {
      hide Pick;
      hide Serve;
      hide Full;
      x := None;
      ghost var s := State();
      var p := Scan();
      if p.None? {
        ResetSlots();
        p := Scan();
      }
      assert State() == Ready(s) && p == Level(s);
      if p.Some? {
        var y := Take(p.value);
        x := Some(y);
        assert State() == Serve(Ready(s), p.value);
      }
      Housekeep();
    }

    /** put_mlq_proc; false is the error exit of the program. */
    method PutProc(x: Pcb) returns (ok: bool)
      requires Valid()
      modifies ready, Arrays()
      ensures Valid()
      ensures ok <==> x.prio < MAX_PRIO && |old(State()).queues[x.prio]| < MAX_QUEUE_SIZE
      ensures ok ==> State() == Next(old(State()), Arrive(x.prio, x))
      ensures !ok ==> State() == old(State())
      ensures running.Contents() == old(running.Contents())
    {
      if x.prio >= MAX_PRIO {
        return false;
      }
      ok := ready[x.prio].Enqueue(x);
      if ok {
        assert State().queues == old(State()).queues[x.prio := old(State()).queues[x.prio] + [x]];
      } else {
        assert State().queues == old(State()).queues;
      }
    }

    /** add_mlq_proc; false is the error exit of the program. */
    method AddProc(x: Pcb) returns (ok: bool)
      requires Valid()
      modifies ready, Arrays(), running, running.proc
      ensures Valid()
      ensures ok <==>
              && x.prio < MAX_PRIO && |old(State()).queues[x.prio]| < MAX_QUEUE_SIZE
              && |old(running.Contents())| < MAX_QUEUE_SIZE
      ensures ok ==> State() == Next(old(State()), Arrive(x.prio, x))
      ensures ok ==> running.Contents() == old(running.Contents()) + [x]
      ensures !ok ==> running.Contents() == old(running.Contents())
      ensures !ok && (x.prio < MAX_PRIO ==> x !in old(State()).queues[x.prio]) ==> State() == old(State())
    {
      hide *;
      ghost var s := State();
      ok := PutProc(x);
      if ok {
        ok := Track(x);
        if !ok {
          TakeBack(x);
          Undone(s, x);
        }
      }
    }

    /** Enter x in the running list. */
    method Track(x: Pcb) returns (ok: bool)
      requires Valid()
      modifies running, running.proc
      ensures Valid() && State() == old(State())
      ensures ok <==> |old(running.Contents())| < MAX_QUEUE_SIZE
      ensures running.Contents() == if ok then old(running.Contents()) + [x] else old(running.Contents())
    {
      ok := running.Enqueue(x);
      assert State().queues == old(State()).queues;
    }

    /** Remove x from its ready queue. */
    method TakeBack(x: Pcb)
      requires Valid() && x.prio < MAX_PRIO
      modifies ready, Arrays()
      ensures Valid() && running.Contents() == old(running.Contents())
      ensures State() == old(State()).(queues := old(State()).queues[x.prio := Without(old(State()).queues[x.prio], x)])
    {
      var _ := ready[x.prio].Purge(x);
      assert State().queues == old(State()).queues[x.prio := Without(old(State()).queues[x.prio], x)];
    }

    /** finish_proc. */
    method FinishProc(x: Pcb)
      requires Valid()
      modifies running, running.proc
      ensures Valid()
      ensures running.Contents() == Without(old(running.Contents()), x)
      ensures State() == old(State())
    {
      var _ := running.Purge(x);
      assert State().queues == old(State()).queues;
    }
  }
}
