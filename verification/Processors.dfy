/**
 Loader and CPUs as they run (src/os.c:125-239): the scheduler object and the
 process each CPU holds. Every method is proved to be one step of Placement, so
 what holds over all its runs holds of this code.
 */
module Processors {
  import opened Basics
  import opened Mlq
  import opened Queues
  import opened Scheduler
  import opened Placement

  class Cpus {
    const sched: Mlqs
    var held: seq<Option<Pcb>>

    ghost predicate Valid()
      reads this, sched, sched.ready, sched.running
    {
      sched.Valid()
    }

    ghost function Now(): (w: World)
      requires Valid()
      reads this, sched, sched.ready, sched.running, sched.slot, sched.Arrays(), sched.running.proc
      ensures w.World? && |w.sched.slot| == |w.sched.queues| == MAX_PRIO
    {
      World(sched.State(), sched.running.Contents(), held)
    }

    /** Empty queues and n idle CPUs. */
    constructor (n: nat)
      ensures Valid() && Now() == Start(n)
    {
      sched := new Mlqs();
      held := seq(n, _ => None);
    }

    /** One process arrives from ld_routine; false is the error exit. */
    method Load(x: Pcb) returns (ok: bool)
      requires Valid()
      modifies sched.ready, sched.Arrays(), sched.running, sched.running.proc
      ensures Valid()
      ensures if ok then Now() == Act(old(Now()), Action.Load(x)) else Act(old(Now()), Action.Load(x)) == Halted
    {
      var known := sched.running.Find(x.pid);
      if known.Some? {
        return true;
      }
      ok := sched.AddProc(x);
    }

    /** An idle CPU takes the next process. */
    method Fetch(c: nat)
      requires Valid()
      modifies this`held, sched.slot, sched.ready, sched.Arrays()
      ensures Valid() && Now() == Act(old(Now()), Action.Fetch(c))
    {
      hide Dispatch;
      if c < |held| && held[c].None? {
        var x := sched.GetProc();
        held := held[c := x];
      }
    }

    /** A CPU puts its process back at the end of the slice; false is the error exit. */
    method Requeue(c: nat) returns (ok: bool)
      requires Valid()
      modifies this`held, sched.ready, sched.Arrays()
      ensures Valid()
      ensures if ok then Now() == Act(old(Now()), Action.Requeue(c)) else Act(old(Now()), Action.Requeue(c)) == Halted
    {
      if c >= |held| || held[c].None? {
        return true;
      }
      ok := sched.PutProc(held[c].value);
      held := held[c := None];
    }

    /** A CPU has finished its process. */
    method Retire(c: nat)
      requires Valid()
      modifies this`held, sched.running, sched.running.proc
      ensures Valid() && Now() == Act(old(Now()), Action.Retire(c))
    {
      if c < |held| && held[c].Some? {
        sched.FinishProc(held[c].value);
        held := held[c := None];
      }
    }

    /** find_proc, called for the process a CPU holds. */
    method FindCaller(c: nat) returns (x: Option<Pcb>)
      requires Valid() && Placed(Now()) && c < |held| && held[c].Some?
      ensures x == held[c]
    {
      FindFindsCaller(Now(), c, held[c].value);
      x := sched.running.Find(held[c].value.pid);
    }
  }
}
