/**
 The multi-level queue dispatcher (src/sched.c:118-177) as a function on the
 ready queues and the per-round budgets, for any number of priority levels:
 who is served, exact quotas per round, and a bound on waiting.
 */
module Mlq {
  import opened Basics

  /** Ready queues and remaining budget, one of each per priority level. */
  datatype Sched<T> = Sched(queues: seq<seq<T>>, slot: seq<nat>)

  /** The budget of every level at the start of a round. */
  function Full(n: nat): (r: seq<nat>)
    ensures |r| == n && forall p :: 0 <= p < n ==> r[p] == n - p
  {
    seq(n, p requires 0 <= p < n => n - p)
  }

  ghost predicate Valid<T>(s: Sched<T>) {
    && |s.slot| == |s.queues| > 0
    && (forall p :: 0 <= p < |s.slot| ==> s.slot[p] <= |s.slot| - p)
  }

  /** The first level from i on that has both a process and budget. */
  function Pick<T>(s: Sched<T>, i: nat): (r: Option<nat>)
    requires |s.slot| == |s.queues| && i <= |s.slot|
    ensures r.Some? ==> i <= r.value < |s.slot| && s.queues[r.value] != [] && s.slot[r.value] > 0
    ensures r.Some? ==> forall p :: i <= p < r.value ==> s.queues[p] == [] || s.slot[p] == 0
    ensures r.None? ==> forall p :: i <= p < |s.slot| ==> s.queues[p] == [] || s.slot[p] == 0
    decreases |s.slot| - i
  {
    if i == |s.slot| then None
    else if s.queues[i] != [] && s.slot[i] > 0 then Some(i)
    else Pick(s, i + 1)
  }

  function Refill<T>(s: Sched<T>): (r: Sched<T>) {
    s.(slot := Full(|s.slot|))
  }

  /** Dequeue the head of level p and charge its budget. */
  function Serve<T>(s: Sched<T>, p: nat): (r: Sched<T>)
    requires p < |s.slot| == |s.queues| && s.queues[p] != [] && s.slot[p] > 0
  {
    Sched(s.queues[p := s.queues[p][1..]], s.slot[p := s.slot[p] - 1])
  }

  predicate AllZero(slot: seq<nat>) {
    forall p :: 0 <= p < |slot| ==> slot[p] == 0
  }

  /** End-of-round housekeeping. */
  function Settle<T>(s: Sched<T>): (r: Sched<T>) {
    if AllZero(s.slot) then Refill(s) else s
  }

  /** The state the dispatcher picks from: a new round if no level qualifies. */
  function Ready<T>(s: Sched<T>): (r: Sched<T>)
    requires |s.slot| == |s.queues|
  {
    if Pick(s, 0).Some? then s else Refill(s)
  }

  /** The level served by the next call, None if there is nothing to run. */
  function Level<T>(s: Sched<T>): (r: Option<nat>)
    requires |s.slot| == |s.queues|
  {
    Pick(Ready(s), 0)
  }

  /** get_mlq_proc. */
  function Dispatch<T>(s: Sched<T>): (r: (Option<T>, Sched<T>))
    requires |s.slot| == |s.queues|
  {
    match Level(s)
    case None => (None, Settle(Ready(s)))
    case Some(p) => (Some(Ready(s).queues[p][0]), Settle(Serve(Ready(s), p)))
  }

  lemma DispatchValid<T>(s: Sched<T>)
    requires Valid(s)
    ensures Valid(Dispatch(s).1) && |Dispatch(s).1.slot| == |s.slot|
  {
  }

  /** The dispatcher returns nothing exactly when every queue is empty, and
      otherwise the head of the highest-priority queue that has budget, or of
      the highest-priority queue if none has. */
  lemma DispatchChoice<T>(s: Sched<T>)
    requires Valid(s)
    ensures Dispatch(s).0.None? <==> forall p :: 0 <= p < |s.queues| ==> s.queues[p] == []
    ensures Level(s).Some? ==>
              && s.queues[Level(s).value] != []
              && Dispatch(s).0 == Some(s.queues[Level(s).value][0])
              && Dispatch(s).1.queues == s.queues[Level(s).value := s.queues[Level(s).value][1..]]
              && (Ready(s) == s ==> forall p :: 0 <= p < Level(s).value ==> s.queues[p] == [] || s.slot[p] == 0)
              && (Ready(s) != s ==> forall p :: 0 <= p < Level(s).value ==> s.queues[p] == [])
  {
  }

  // ----- budgets -----

  function Sum(s: seq<nat>): (r: nat) {
    if s == [] then 0 else s[0] + Sum(s[1..])
  }

  lemma {:induction false} SumSplit(a: seq<nat>, b: seq<nat>)
    ensures Sum(a + b) == Sum(a) + Sum(b)
  {
    if a == [] {
      assert a + b == b;
    } else {
      SumSplit(a[1..], b);
      assert (a + b)[1..] == a[1..] + b;
    }
  }

  /** Spending one unit of level r lowers every sum that includes r by one. */
  lemma SumSpend(slot: seq<nat>, r: nat, p: nat)
    requires r < |slot| && slot[r] > 0 && p <= |slot|
    ensures var slot' := slot[r := slot[r] - 1];
            && Sum(slot') == Sum(slot) - 1
            && Sum(slot'[..p]) == Sum(slot[..p]) - (if r < p then 1 else 0)
  {
    var slot' := slot[r := slot[r] - 1];
    SpendAt(slot, r);
    if r < p {
      assert slot'[..p] == slot[..p][r := slot[..p][r] - 1];
      SpendAt(slot[..p], r);
    } else {
      assert slot'[..p] == slot[..p];
    }
  }

  lemma SpendAt(slot: seq<nat>, r: nat)
    requires r < |slot| && slot[r] > 0
    ensures Sum(slot[r := slot[r] - 1]) == Sum(slot) - 1
  {
    var slot' := slot[r := slot[r] - 1];
    assert slot == slot[..r] + ([slot[r]] + slot[r + 1..]);
    assert slot' == slot[..r] + ([slot[r] - 1] + slot[r + 1..]);
    SumSplit(slot[..r], [slot[r]] + slot[r + 1..]);
    SumSplit(slot[..r], [slot[r] - 1] + slot[r + 1..]);
    SumSplit([slot[r]], slot[r + 1..]);
    SumSplit([slot[r] - 1], slot[r + 1..]);
  }

  lemma {:induction false} SumZero(slot: seq<nat>)
    ensures AllZero(slot) <==> Sum(slot) == 0
  {
    if slot != [] {
      SumZero(slot[1..]);
      assert slot == [slot[0]] + slot[1..];
    }
  }

  lemma {:induction false} SumBelow(a: seq<nat>, b: seq<nat>)
    requires |a| == |b| && forall i :: 0 <= i < |a| ==> a[i] <= b[i]
    ensures Sum(a) <= Sum(b)
  {
    if a != [] {
      SumBelow(a[1..], b[1..]);
    }
  }

  /** A full round holds n(n+1)/2 dispatches. */
  lemma {:induction false} RoundTotal(n: nat)
    ensures 2 * Sum(Full(n)) == n * (n + 1)
  {
    if n > 0 {
      RoundTotal(n - 1);
      assert Full(n)[1..] == Full(n - 1);
    }
  }

  // ----- runs -----

  /** A scheduler run: dispatches, and arrivals at some level (put or add). */
  datatype Event<T> = Get | Arrive(level: nat, proc: T)

  function Next<T>(s: Sched<T>, e: Event<T>): (r: Sched<T>)
    requires |s.slot| == |s.queues|
  {
    match e
    case Get => Dispatch(s).1
    case Arrive(p, x) => if p < |s.queues| then s.(queues := s.queues[p := s.queues[p] + [x]]) else s
  }

  lemma NextValid<T>(s: Sched<T>, e: Event<T>)
    requires Valid(s)
    ensures Valid(Next(s, e)) && |Next(s, e).slot| == |s.slot|
  {
  }

  function Gets<T>(es: seq<Event<T>>): (r: nat) {
    if es == [] then 0 else (if es[0].Get? then 1 else 0) + Gets(es[1..])
  }

  /** Some dispatch of the run returns x. */
  ghost predicate Dispatched<T>(s: Sched<T>, es: seq<Event<T>>, x: T)
    requires Valid(s)
    decreases |es|
  {
    && es != []
    && (|| (es[0].Get? && Dispatch(s).0 == Some(x))
        || (NextValid(s, es[0]); Dispatched(Next(s, es[0]), es[1..], x)))
  }

  // ----- bounded waiting -----

  /** The most dispatches that can pass before level p is served, if it stays
      non-empty: the budget still above it in this round, or, when its own
      budget is spent, the rest of this round and what a new round puts above it. */
  function Wait<T>(s: Sched<T>, p: nat): (r: nat)
    requires p < |s.slot|
  {
    if s.slot[p] > 0 then Sum(s.slot[..p]) + 1
    else Sum(s.slot) + Sum(Full(|s.slot|)[..p]) + 1
  }

  lemma WaitBound<T>(s: Sched<T>, p: nat)
    requires Valid(s) && p < |s.slot|
    ensures Wait(s, p) <= |s.slot| * (|s.slot| + 1)
  {
    var n := |s.slot|;
    var full := Full(n);
    RoundTotal(n);
    SumBelow(s.slot, full);
    SumBelow(s.slot[..p], full[..p]);
    assert full == full[..p] + full[p..];
    SumSplit(full[..p], full[p..]);
    assert full[p..][0] == n - p;
    assert Sum(full[p..]) >= 1;
  }

  /** Every dispatch serves level p or brings it one step closer. */
  lemma WaitShrinks<T>(s: Sched<T>, p: nat)
    requires Valid(s) && p < |s.slot| && s.queues[p] != []
    ensures Level(s).Some?
    ensures Level(s).value != p ==> Wait(Dispatch(s).1, p) < Wait(s, p)
  {
    var s1 := Ready(s);
    var r := Level(s).value;
    if r != p {
      var s2 := Serve(s1, r);
      SumSpend(s1.slot, r, p);
      SumZero(s2.slot);
      var full := Full(|s.slot|);
      if s1 != s {
        assert r < p;
        assert s2.slot[p] == s1.slot[p] > 0;
      } else if s.slot[p] > 0 {
        assert r < p;
        assert s2.slot[p] == s.slot[p] && !AllZero(s2.slot);
        assert Dispatch(s).1 == s2;
      } else if AllZero(s2.slot) {
        assert Sum(s.slot) == 1;
      }
    }
  }

  lemma ArriveKeeps<T>(s: Sched<T>, e: Event<T>, p: nat, k: nat)
    requires Valid(s) && e.Arrive? && p < |s.slot| && k < |s.queues[p]|
    ensures var s' := Next(s, e);
            && |s'.slot| == |s.slot| == |s'.queues|
            && k < |s'.queues[p]| && s'.queues[p][k] == s.queues[p][k]
            && Wait(s', p) == Wait(s, p)
  {
  }

  lemma GetMoves<T>(s: Sched<T>, p: nat, k: nat)
    requires Valid(s) && p < |s.slot| && k < |s.queues[p]|
    ensures var (x, s') := Dispatch(s);
            && Valid(s') && |s'.slot| == |s.slot|
            && if Level(s) == Some(p) then
                 && (k == 0 ==> x == Some(s.queues[p][k]))
                 && (k > 0 ==> k - 1 < |s'.queues[p]| && s'.queues[p][k - 1] == s.queues[p][k])
               else
                 && k < |s'.queues[p]| && s'.queues[p][k] == s.queues[p][k]
                 && Wait(s', p) < Wait(s, p)
  {
    hide Wait;
    DispatchValid(s);
    DispatchChoice(s);
    WaitShrinks(s, p);
  }

  /** Bounded waiting: a process at position k of level p is dispatched within
      Wait(s, p) + k * n(n+1) dispatches, whatever arrives in between. */
  lemma {:induction false} WaitsAtMost<T>(s: Sched<T>, es: seq<Event<T>>, p: nat, k: nat, round: nat)
    requires Valid(s) && p < |s.slot| && k < |s.queues[p]|
    requires round == |s.slot| * (|s.slot| + 1)
    requires Gets(es) >= Wait(s, p) + k * round
    ensures Dispatched(s, es, s.queues[p][k])
    decreases |es|
  {
    assert es != [] by { assert Wait(s, p) >= 1; }
    NextValid(s, es[0]);
    hide Wait;
    hide Valid;
    hide Dispatch;
    hide Level;
    var s' := Next(s, es[0]);
    if es[0].Arrive? {
      ArriveKeeps(s, es[0], p, k);
      WaitsAtMost(s', es[1..], p, k, round);
    } else {
      GetMoves(s, p, k);
      if Level(s) != Some(p) {
        WaitsAtMost(s', es[1..], p, k, round);
      } else if k > 0 {
        WaitBound(s', p);
        assert k * round == (k - 1) * round + round;
        WaitsAtMost(s', es[1..], p, k - 1, round);
      }
    }
  }

  /** The bound without the state: (k + 1) * n * (n + 1) dispatches suffice. */
  lemma BoundedWaiting<T>(s: Sched<T>, es: seq<Event<T>>, p: nat, k: nat)
    requires Valid(s) && p < |s.slot| && k < |s.queues[p]|
    requires Gets(es) >= (k + 1) * (|s.slot| * (|s.slot| + 1))
    ensures Dispatched(s, es, s.queues[p][k])
  {
    var round := |s.slot| * (|s.slot| + 1);
    WaitBound(s, p);
    assert (k + 1) * round == k * round + round;
    WaitsAtMost(s, es, p, k, round);
  }

  // ----- quotas -----

  /** Pass 2: the call finds no level with a process and budget, so it resets the
      budgets before it serves. */
  predicate ResetsFirst<T>(s: Sched<T>)
    requires |s.slot| == |s.queues|
  {
    Pick(s, 0).None?
  }

  /** Housekeeping: the call spends the last unit, so it resets the budgets after
      it has served. */
  predicate ResetsLast<T>(s: Sched<T>)
    requires |s.slot| == |s.queues|
  {
    Level(s).Some? && AllZero(Serve(Ready(s), Level(s).value).slot)
  }

  ghost function After<T>(s: Sched<T>, es: seq<Event<T>>): (r: Sched<T>)
    requires Valid(s)
    ensures Valid(r) && |r.slot| == |s.slot|
    decreases |es|
  {
    if es == [] then s else (NextValid(s, es[0]); After(Next(s, es[0]), es[1..]))
  }

  /** How often the run dispatches from level p. */
  ghost function Turns<T>(s: Sched<T>, es: seq<Event<T>>, p: nat): (r: nat)
    requires Valid(s)
    decreases |es|
  {
    if es == [] then 0
    else
      NextValid(s, es[0]);
      (if es[0].Get? && Level(s) == Some(p) then 1 else 0) + Turns(Next(s, es[0]), es[1..], p)
  }

  lemma {:induction false} RunSplit<T>(s: Sched<T>, a: seq<Event<T>>, b: seq<Event<T>>, p: nat)
    requires Valid(s)
    ensures After(s, a + b) == After(After(s, a), b)
    ensures Turns(s, a + b, p) == Turns(s, a, p) + Turns(After(s, a), b, p)
    decreases |a|
  {
    hide Next;
    hide Level;
    if a == [] {
      assert a + b == b;
    } else {
      assert (a + b)[1..] == a[1..] + b && (a + b)[0] == a[0];
      NextValid(s, a[0]);
      hide Valid;
      RunSplit(Next(s, a[0]), a[1..], b, p);
    }
  }

  /** No dispatch of the run resets. */
  ghost predicate WithinRound<T>(s: Sched<T>, es: seq<Event<T>>)
    requires Valid(s)
    decreases |es|
  {
    es != [] ==>
      && (es[0].Get? ==> !ResetsFirst(s) && !ResetsLast(s))
      && (NextValid(s, es[0]); WithinRound(Next(s, es[0]), es[1..]))
  }

  /** Within a round each dispatch of level p costs it one unit of budget. */
  lemma {:induction false} TurnsCost<T>(s: Sched<T>, es: seq<Event<T>>, p: nat)
    requires Valid(s) && p < |s.slot| && WithinRound(s, es)
    ensures After(s, es).slot[p] + Turns(s, es, p) == s.slot[p]
    decreases |es|
  {
    if es != [] {
      NextValid(s, es[0]);
      TurnsCost(Next(s, es[0]), es[1..], p);
    }
  }

  /** Call number i of the run resets before, or after, it serves. */
  ghost predicate FirstAt<T>(s: Sched<T>, es: seq<Event<T>>, i: nat)
    requires Valid(s) && i < |es|
  {
    es[i].Get? && ResetsFirst(After(s, es[..i]))
  }

  ghost predicate LastAt<T>(s: Sched<T>, es: seq<Event<T>>, i: nat)
    requires Valid(s) && i < |es|
  {
    es[i].Get? && ResetsLast(After(s, es[..i]))
  }

  lemma {:induction false} QuietIndices<T>(s: Sched<T>, es: seq<Event<T>>)
    requires Valid(s)
    requires forall i :: 0 <= i < |es| ==> !FirstAt(s, es, i) && !LastAt(s, es, i)
    ensures WithinRound(s, es)
    decreases |es|
  {
    if es != [] {
      assert es[..0] == [];
      assert !FirstAt(s, es, 0) && !LastAt(s, es, 0);
      NextValid(s, es[0]);
      var s1 := Next(s, es[0]);
      hide Next;
      hide ResetsFirst;
      hide ResetsLast;
      forall i | 0 <= i < |es[1..]| ensures !FirstAt(s1, es[1..], i) && !LastAt(s1, es[1..], i) {
        assert es[..i + 1][1..] == es[1..][..i] && es[..i + 1][0] == es[0];
        assert !FirstAt(s, es, i + 1) && !LastAt(s, es, i + 1);
      }
      QuietIndices(s1, es[1..]);
    }
  }

  /** A call that resets first does what it would do on full budgets. */
  lemma PassTwo<T>(s: Sched<T>)
    requires Valid(s) && ResetsFirst(s)
    ensures Valid(Refill(s))
    ensures Dispatch(s) == Dispatch(Refill(s)) && Level(s) == Level(Refill(s))
    ensures ResetsLast(s) == ResetsLast(Refill(s))
    ensures ResetsFirst(Refill(s)) <==> forall p :: 0 <= p < |s.queues| ==> s.queues[p] == []
    ensures ResetsFirst(Refill(s)) ==> Level(s).None? && Dispatch(s).1 == Refill(s)
  {
    assert Refill(Refill(s)) == Refill(s);
    assert Full(|s.slot|)[0] > 0;
  }

  /** A call that resets last leaves full budgets. */
  lemma LastLeavesFull<T>(s: Sched<T>)
    requires Valid(s) && ResetsLast(s)
    ensures Dispatch(s).1.slot == Full(|s.slot|)
  {
  }

  /** The part of a round after its opening reset, from full budgets: all calls
      of es but the last reset neither way, and the last does not reset first. */
  lemma RoundFromFull<T>(s: Sched<T>, es: seq<Event<T>>, p: nat)
    requires Valid(s) && p < |s.slot| && s.slot == Full(|s.slot|)
    requires forall i :: 0 <= i < |es| ==> !FirstAt(s, es, i)
    requires forall i :: 0 <= i < |es| - 1 ==> !LastAt(s, es, i)
    ensures Turns(s, es, p) <= |s.slot| - p
    ensures es != [] && LastAt(s, es, |es| - 1) ==> Turns(s, es, p) == |s.slot| - p
    ensures ResetsFirst(After(s, es)) && After(s, es).queues[p] != [] ==> Turns(s, es, p) == |s.slot| - p
  {
    if es != [] && LastAt(s, es, |es| - 1) {
      RoundEndsLast(s, es, p);
    } else {
      QuietPrefix(s, es, |es|);
      assert es[..|es|] == es;
      RoundOpen(s, es, p);
    }
  }

  lemma RoundOpen<T>(s: Sched<T>, es: seq<Event<T>>, p: nat)
    requires Valid(s) && p < |s.slot| && s.slot == Full(|s.slot|) && WithinRound(s, es)
    ensures Turns(s, es, p) <= |s.slot| - p
    ensures ResetsFirst(After(s, es)) && After(s, es).queues[p] != [] ==> Turns(s, es, p) == |s.slot| - p
  {
    TurnsCost(s, es, p);
    hide WithinRound;
    hide Turns;
    hide After;
  }

  lemma RoundEndsLast<T>(s: Sched<T>, es: seq<Event<T>>, p: nat)
    requires Valid(s) && p < |s.slot| && s.slot == Full(|s.slot|)
    requires es != [] && LastAt(s, es, |es| - 1) && !FirstAt(s, es, |es| - 1)
    requires forall i :: 0 <= i < |es| - 1 ==> !FirstAt(s, es, i) && !LastAt(s, es, i)
    ensures Turns(s, es, p) == |s.slot| - p
  {
    hide ResetsFirst;
    hide ResetsLast;
    hide Turns;
    hide After;
    hide WithinRound;
    var body, last := es[..|es| - 1], [es[|es| - 1]];
    assert es == body + last;
    QuietPrefix(s, es, |es| - 1);
    RunSplit(s, body, last, p);
    TurnsCost(s, body, p);
    LastSpends(After(s, body), last[0], p);
  }

  lemma QuietPrefix<T>(s: Sched<T>, es: seq<Event<T>>, n: nat)
    requires Valid(s) && n <= |es|
    requires forall i :: 0 <= i < n ==> !FirstAt(s, es, i) && !LastAt(s, es, i)
    ensures WithinRound(s, es[..n])
  {
    hide ResetsFirst;
    hide ResetsLast;
    forall i | 0 <= i < n ensures !FirstAt(s, es[..n], i) && !LastAt(s, es[..n], i) {
      assert es[..n][..i] == es[..i];
      assert !FirstAt(s, es, i) && !LastAt(s, es, i);
    }
    QuietIndices(s, es[..n]);
  }

  /** The call that resets last serves the one level that had one unit left. */
  lemma LastSpends<T>(s: Sched<T>, e: Event<T>, p: nat)
    requires Valid(s) && p < |s.slot| && e.Get? && ResetsLast(s) && !ResetsFirst(s)
    ensures Turns(s, [e], p) == s.slot[p]
  {
    var q := Level(s).value;
    assert Serve(s, q).slot[p] == 0;
    NextValid(s, e);
    assert Turns(Next(s, e), [e][1..], p) == 0;
  }

  /** The same for a segment that opens with a call that resets first. */
  lemma RoundFromPassTwo<T>(s: Sched<T>, es: seq<Event<T>>, p: nat)
    requires Valid(s) && p < |s.slot| && es != [] && FirstAt(s, es, 0)
    requires forall i :: 0 < i < |es| ==> !FirstAt(s, es, i)
    requires forall i :: 0 <= i < |es| - 1 ==> !LastAt(s, es, i)
    ensures Turns(s, es, p) <= |s.slot| - p
    ensures LastAt(s, es, |es| - 1) ==> Turns(s, es, p) == |s.slot| - p
    ensures ResetsFirst(After(s, es)) && After(s, es).queues[p] != [] ==> Turns(s, es, p) == |s.slot| - p
  {
    assert es[..0] == [];
    PassTwo(s);
    var t := Refill(s);
    if ResetsFirst(t) {
      EmptyRound(s, es, p);
    } else {
      SameRun(s, t, es, p);
      forall i | 0 <= i < |es| ensures FirstAt(t, es, i) ==> i > 0 && FirstAt(s, es, i)
        ensures LastAt(t, es, i) == LastAt(s, es, i)
      {
        if i > 0 {
          SameRun(s, t, es[..i], p);
        }
      }
      RoundFromFull(t, es, p);
    }
  }

  lemma SameRun<T>(s: Sched<T>, t: Sched<T>, es: seq<Event<T>>, p: nat)
    requires Valid(s) && Valid(t) && es != [] && es[0].Get?
    requires Dispatch(s) == Dispatch(t) && Level(s) == Level(t)
    ensures After(s, es) == After(t, es) && Turns(s, es, p) == Turns(t, es, p)
  {
    NextValid(s, es[0]);
  }

  /** With nothing to run, the opening call only resets. */
  lemma EmptyRound<T>(s: Sched<T>, es: seq<Event<T>>, p: nat)
    requires Valid(s) && p < |s.slot| && es != [] && FirstAt(s, es, 0)
    requires Valid(Refill(s)) && ResetsFirst(Refill(s)) && Level(s).None? && Dispatch(s).1 == Refill(s)
    requires forall i :: 0 < i < |es| ==> !FirstAt(s, es, i)
    requires forall i :: 0 <= i < |es| - 1 ==> !LastAt(s, es, i)
    ensures Turns(s, es, p) <= |s.slot| - p
    ensures LastAt(s, es, |es| - 1) ==> Turns(s, es, p) == |s.slot| - p
    ensures ResetsFirst(After(s, es)) && After(s, es).queues[p] != [] ==> Turns(s, es, p) == |s.slot| - p
  {
    var t, rest := Refill(s), es[1..];
    NextValid(s, es[0]);
    assert After(s, es) == After(t, rest) && Turns(s, es, p) == Turns(t, rest, p);
    assert es[..0] == [];
    forall i | 0 <= i < |rest| ensures FirstAt(t, rest, i) == FirstAt(s, es, i + 1) && LastAt(t, rest, i) == LastAt(s, es, i + 1) {
      assert es[..i + 1][1..] == rest[..i] && es[..i + 1][0] == es[0];
      assert After(s, es[..i + 1]) == After(t, rest[..i]);
    }
    RoundFromFull(t, rest, p);
  }

  lemma Slices<T>(es: seq<Event<T>>, lo: nat, hi: nat, i: nat)
    requires lo + i < hi <= |es|
    ensures es[..lo] + es[lo..hi][..i] == es[..lo + i] && es[lo..hi][i] == es[lo + i]
  {
  }

  lemma ShiftIndices<T>(s: Sched<T>, es: seq<Event<T>>, lo: nat, hi: nat, i: nat)
    requires Valid(s) && lo + i < hi <= |es|
    ensures FirstAt(After(s, es[..lo]), es[lo..hi], i) == FirstAt(s, es, lo + i)
    ensures LastAt(After(s, es[..lo]), es[lo..hi], i) == LastAt(s, es, lo + i)
  {
    hide ResetsFirst;
    hide ResetsLast;
    hide After;
    hide Turns;
    hide Valid;
    Slices(es, lo, hi, i);
    RunSplit(s, es[..lo], es[lo..hi][..i], 0);
  }

  /** A reset happens right before the calls lo, ..., hi-1 of the run: call lo
      resets first, call lo-1 resets last, or the run starts with full budgets. */
  ghost predicate OpensAt<T>(s: Sched<T>, es: seq<Event<T>>, lo: nat)
    requires Valid(s) && lo < |es|
  {
    || FirstAt(s, es, lo)
    || (lo > 0 && LastAt(s, es, lo - 1))
    || (lo == 0 && s.slot == Full(|s.slot|))
  }

  /** Exact quota over any run. Let resets of either kind happen right before the
      events lo, ..., hi-1 and right after them, and none in between. Then every
      level p is dispatched at most n - p times by these events; exactly n - p
      times if the closing reset is housekeeping; and exactly n - p times if the
      closing reset is pass 2 and the level still has a process, as a level that
      was never empty does. */
  lemma ExactQuota<T>(s: Sched<T>, es: seq<Event<T>>, lo: nat, hi: nat, p: nat)
    requires Valid(s) && p < |s.slot| && lo < hi <= |es| && OpensAt(s, es, lo)
    requires forall i :: lo < i < hi ==> !FirstAt(s, es, i)
    requires forall i :: lo <= i < hi - 1 ==> !LastAt(s, es, i)
    ensures var turns := Turns(After(s, es[..lo]), es[lo..hi], p);
            && turns <= |s.slot| - p
            && (LastAt(s, es, hi - 1) ==> turns == |s.slot| - p)
            && (hi < |es| && FirstAt(s, es, hi) && After(s, es[..hi]).queues[p] != [] ==> turns == |s.slot| - p)
  {
    hide ResetsLast;
    hide ResetsFirst;
    hide Turns;
    var t, seg := After(s, es[..lo]), es[lo..hi];
    forall i | 0 <= i < |seg|
      ensures FirstAt(t, seg, i) == FirstAt(s, es, lo + i) && LastAt(t, seg, i) == LastAt(s, es, lo + i)
    {
      ShiftIndices(s, es, lo, hi, i);
    }
    assert es[..lo] + seg == es[..hi];
    RunSplit(s, es[..lo], seg, p);
    if FirstAt(s, es, lo) {
      RoundFromPassTwo(t, seg, p);
    } else {
      OpensFull(s, es, lo);
      RoundFromFull(t, seg, p);
    }
  }

  lemma OpensFull<T>(s: Sched<T>, es: seq<Event<T>>, lo: nat)
    requires Valid(s) && lo < |es| && OpensAt(s, es, lo) && !FirstAt(s, es, lo)
    ensures After(s, es[..lo]).slot == Full(|s.slot|)
  {
    hide ResetsLast;
    hide ResetsFirst;
    hide Dispatch;
    assert After(s, []) == s;
    hide After;
    if lo > 0 && LastAt(s, es, lo - 1) {
      var before := After(s, es[..lo - 1]);
      assert es[..lo] == es[..lo - 1] + [es[lo - 1]];
      RunSplit(s, es[..lo - 1], [es[lo - 1]], 0);
      AfterOne(before, es[lo - 1]);
      LastLeavesFull(before);
    } else {
      assert es[..lo] == [];
    }
  }

  lemma AfterOne<T>(s: Sched<T>, e: Event<T>)
    requires Valid(s)
    ensures After(s, [e]) == Next(s, e)
  {
    NextValid(s, e);
    hide Next;
    assert After(Next(s, e), [e][1..]) == Next(s, e);
  }
}
