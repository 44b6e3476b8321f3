/** Bounded FIFO queues of processes (src/queue.c): a fixed array and a size. */
module Queues {
  import opened Basics

  /** A process as the scheduler sees it. */
  datatype Pcb = Pcb(pid: nat, prio: nat)

  const MAX_QUEUE_SIZE: nat := 50

  /** The list without the first occurrence of x. */
  function Without(s: seq<Pcb>, x: Pcb): (r: seq<Pcb>) {
    if s == [] then []
    else if s[0] == x then s[1..]
    else [s[0]] + Without(s[1..], x)
  }

  lemma {:induction false} WithoutAt(s: seq<Pcb>, i: nat)
    requires i < |s| && s[i] !in s[..i]
    ensures Without(s, s[i]) == s[..i] + s[i + 1..]
  {
    if i > 0 {
      assert s[1..][i - 1] == s[i] && s[1..][..i - 1] == s[..i][1..];
      WithoutAt(s[1..], i - 1);
      assert s[0] in s[..i];
      assert s[..i] == [s[0]] + s[1..][..i - 1];
    }
  }

  lemma {:induction false} WithoutMissing(s: seq<Pcb>, x: Pcb)
    requires x !in s
    ensures Without(s, x) == s
  {
    if s != [] {
      assert s == [s[0]] + s[1..];
      WithoutMissing(s[1..], x);
    }
  }

  /** The first process with this pid. */
  function FirstWith(s: seq<Pcb>, pid: nat): (r: Option<Pcb>)
    ensures r.Some? ==> r.value in s && r.value.pid == pid
    ensures r.None? ==> forall y :: y in s ==> y.pid != pid
  {
    if s == [] then None
    else if s[0].pid == pid then Some(s[0])
    else
      assert s == [s[0]] + s[1..];
      FirstWith(s[1..], pid)
  }

  lemma {:induction false} FirstWithAt(s: seq<Pcb>, pid: nat, i: nat)
    requires i < |s| && s[i].pid == pid && forall k :: 0 <= k < i ==> s[k].pid != pid
    ensures FirstWith(s, pid) == Some(s[i])
  {
    if i > 0 {
      FirstWithAt(s[1..], pid, i - 1);
    }
  }

  class Queue {
    const proc: array<Pcb>
    var size: nat

    ghost predicate Valid()
      reads this
    {
      proc.Length == MAX_QUEUE_SIZE && size <= MAX_QUEUE_SIZE
    }

    ghost function Contents(): (r: seq<Pcb>)
      requires Valid()
      reads this, proc
    {
      proc[..size]
    }

    constructor ()
      ensures Valid() && Contents() == [] && fresh(proc)
    {
      proc := new Pcb[MAX_QUEUE_SIZE];
      size := 0;
    }

    method Enqueue(x: Pcb) returns (ok: bool)
      requires Valid()
      modifies this, proc
      ensures Valid()
      ensures ok <==> |old(Contents())| < MAX_QUEUE_SIZE
      ensures Contents() == if ok then old(Contents()) + [x] else old(Contents())
    {
      if size >= MAX_QUEUE_SIZE {
        return false;
      }
      proc[size] := x;
      size := size + 1;
      return true;
    }

    /** Close the gap at position i by shifting the rest one to the left. */
    method ShiftLeft(i: nat)
      requires Valid() && i < size
      modifies this, proc
      ensures Valid()
      ensures Contents() == old(Contents())[..i] + old(Contents())[i + 1..]
    {
      ghost var was := proc[..size];
      var j := i;
      while j < size - 1
        invariant i <= j <= size - 1 && size == old(size)
        invariant forall k :: 0 <= k < i ==> proc[k] == was[k]
        invariant forall k :: i <= k < j ==> proc[k] == was[k + 1]
        invariant forall k :: j <= k < size ==> proc[k] == was[k]
      {
        proc[j] := proc[j + 1];
        j := j + 1;
      }
      size := size - 1;
      assert proc[..size] == was[..i] + was[i + 1..];
    }

    method Dequeue() returns (x: Option<Pcb>)
      requires Valid()
      modifies this, proc
      ensures Valid()
      ensures if old(Contents()) == [] then x == None && Contents() == []
              else x == Some(old(Contents())[0]) && Contents() == old(Contents())[1..]
    {
      if size == 0 {
        return None;
      }
      x := Some(proc[0]);
      ShiftLeft(0);
    }

    method Purge(x: Pcb) returns (found: bool)
      requires Valid()
      modifies this, proc
      ensures Valid()
      ensures found <==> x in old(Contents())
      ensures Contents() == Without(old(Contents()), x)
    {
      ghost var was := Contents();
      for i := 0 to size
        invariant size == old(size) && Contents() == was && x !in was[..i]
      {
        if proc[i] == x {
          assert was[i] == x;
          WithoutAt(was, i);
          ShiftLeft(i);
          return true;
        }
      }
      assert was[..size] == was;
      WithoutMissing(was, x);
      return false;
    }

    /** The scan of find_proc. */
    method Find(pid: nat) returns (x: Option<Pcb>)
      requires Valid()
      ensures x == FirstWith(Contents(), pid)
    {
      for i := 0 to size
        invariant forall k :: 0 <= k < i ==> proc[k].pid != pid
      {
        if proc[i].pid == pid {
          FirstWithAt(Contents(), pid, i);
          return Some(proc[i]);
        }
      }
      return None;
    }
  }
}
