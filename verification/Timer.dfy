/**
 The slot timer (src/timer.c): one timer thread and n devices in lock-step.
 Every lock acquisition, flag write, signal, wait and wake-up is one atomic
 step, and the steps of all threads interleave freely, spurious wake-ups
 included.
 */
module Timer {

  /** Who holds a mutex. */
  datatype Owner = Nobody | ByTimer | ByDevice

  /** Where a device thread is: working in its slot, inside next_slot (first
      the event half, then the timer half), or inside detach_event. */
  datatype DevicePc =
    | Work
    | EventHeld | EventSet | EventSignalled
    | TimerWant | TimerHeld | TimerAsleep | TimerAwake
    | DetachHeld | DetachSet | DetachSignalled | Gone

  /** `slots` counts completed next_slot calls; it is not in the program. */
  datatype Device = Device(pc: DevicePc, done: bool, fsh: bool, event: Owner, timer: Owner, slots: nat)

  /** Where the timer thread is: waiting for device i, or releasing device i. */
  datatype TimerPc =
    | Scan(i: nat) | Check(i: nat) | Asleep(i: nat) | Awake(i: nat)
    | Release(i: nat) | Clear(i: nat) | Signal(i: nat) | Unlock(i: nat)
    | Stopped

  /** `fsh` is the timer's count of finished devices in this round. */
  datatype Clock = Clock(time: nat, pc: TimerPc, fsh: nat, stop: bool, devs: seq<Device>)

  // ----- steps -----

  datatype Action =
    | Tick                  // the timer thread's next step
    | Go(j: nat)            // device j's next step inside next_slot or detach_event
    | CallNextSlot(j: nat)  // a working device calls next_slot
    | CallDetach(j: nat)    // a working device calls detach_event
    | Spurious(j: nat)      // device j wakes without a signal
    | SpuriousTimer         // the timer wakes without a signal
    | StopTimer             // main, after joining every device

  function Set(s: Clock, j: nat, d: Device): (r: Clock)
    requires j < |s.devs|
  {
    s.(devs := s.devs[j := d])
  }

  predicate AllGone(s: Clock) {
    forall j :: 0 <= j < |s.devs| ==> s.devs[j].pc == Gone
  }

  /** timer_routine. The result is `s` itself when the thread is blocked. */
  function TimerStep(s: Clock): (r: Clock) {
    var n := |s.devs|;
    match s.pc
    case Scan(i) =>
      if i >= n then s.(time := s.time + 1, pc := Release(0))
      else if s.devs[i].event != Nobody then s
      else Set(s, i, s.devs[i].(event := ByTimer)).(pc := Check(i))
    case Check(i) =>
      if i >= n then s
      else if !s.devs[i].done && !s.devs[i].fsh then
        Set(s, i, s.devs[i].(event := Nobody)).(pc := Asleep(i))
      else
        Set(s, i, s.devs[i].(event := Nobody)).(pc := Scan(i + 1), fsh := s.fsh + if s.devs[i].fsh then 1 else 0)
    case Asleep(_) => s
    case Awake(i) =>
      if i >= n || s.devs[i].event != Nobody then s
      else Set(s, i, s.devs[i].(event := ByTimer)).(pc := Check(i))
    case Release(i) =>
      if i >= n then
        (if s.fsh == n || s.stop then s.(pc := Stopped) else s.(pc := Scan(0), fsh := 0))
      else if s.devs[i].timer != Nobody then s
      else Set(s, i, s.devs[i].(timer := ByTimer)).(pc := Clear(i))
    case Clear(i) => if i >= n then s else Set(s, i, s.devs[i].(done := false)).(pc := Signal(i))
    case Signal(i) =>
      if i >= n then s
      else if s.devs[i].pc == TimerAsleep then Set(s, i, s.devs[i].(pc := TimerAwake)).(pc := Unlock(i))
      else s.(pc := Unlock(i))
    case Unlock(i) => if i >= n then s else Set(s, i, s.devs[i].(timer := Nobody)).(pc := Release(i + 1))
    case Stopped => s
  }

  /** A signal on the event condition of device j wakes the timer if it sleeps there. */
  function WakeTimer(s: Clock, j: nat): (r: Clock) {
    if s.pc == Asleep(j) then s.(pc := Awake(j)) else s
  }

  /** One step of device j inside next_slot or detach_event. */
  function DeviceStep(s: Clock, j: nat): (r: Clock)
    requires j < |s.devs|
  {
    var d := s.devs[j];
    match d.pc
    case Work => s
    case EventHeld => Set(s, j, d.(pc := EventSet, done := true))
    case EventSet => WakeTimer(Set(s, j, d.(pc := EventSignalled)), j)
    case EventSignalled => Set(s, j, d.(pc := TimerWant, event := Nobody))
    case TimerWant => if d.timer != Nobody then s else Set(s, j, d.(pc := TimerHeld, timer := ByDevice))
    case TimerHeld =>
      if d.done then Set(s, j, d.(pc := TimerAsleep, timer := Nobody))
      else Set(s, j, d.(pc := Work, timer := Nobody, slots := d.slots + 1))
    case TimerAsleep => s
    case TimerAwake => if d.timer != Nobody then s else Set(s, j, d.(pc := TimerHeld, timer := ByDevice))
    case DetachHeld => Set(s, j, d.(pc := DetachSet, fsh := true))
    case DetachSet => WakeTimer(Set(s, j, d.(pc := DetachSignalled)), j)
    case DetachSignalled => Set(s, j, d.(pc := Gone, event := Nobody))
    case Gone => s
  }

  function Step(s: Clock, a: Action): (r: Clock) {
    match a
    case Tick => TimerStep(s)
    case Go(j) => if j < |s.devs| then DeviceStep(s, j) else s
    case CallNextSlot(j) =>
      if j < |s.devs| && s.devs[j].pc == Work && s.devs[j].event == Nobody
      then Set(s, j, s.devs[j].(pc := EventHeld, event := ByDevice)) else s
    case CallDetach(j) =>
      if j < |s.devs| && s.devs[j].pc == Work && s.devs[j].event == Nobody
      then Set(s, j, s.devs[j].(pc := DetachHeld, event := ByDevice)) else s
    case Spurious(j) =>
      if j < |s.devs| && s.devs[j].pc == TimerAsleep then Set(s, j, s.devs[j].(pc := TimerAwake)) else s
    case SpuriousTimer => if s.pc.Asleep? then s.(pc := Awake(s.pc.i)) else s
    case StopTimer => if AllGone(s) then s.(stop := true) else s
  }

  // ----- the invariant -----

  predicate Waiting(pc: DevicePc) {
    pc.TimerWant? || pc.TimerHeld? || pc.TimerAsleep? || pc.TimerAwake?
  }

  predicate InEvent(pc: DevicePc) {
    pc.EventHeld? || pc.EventSet? || pc.EventSignalled? || pc.DetachHeld? || pc.DetachSet? || pc.DetachSignalled?
  }

  /** The time has advanced but device j has not been told yet. */
  predicate Lagging(pc: TimerPc, j: nat) {
    match pc
    case Release(i) => j >= i
    case Clear(i) => j >= i
    case Signal(i) => j > i
    case Unlock(i) => j > i
    case _ => false
  }

  /** The timer has seen device j finish its slot, and has not released it yet. */
  predicate Seen(pc: TimerPc, j: nat) {
    match pc
    case Scan(i) => j < i
    case Check(i) => j < i
    case Asleep(i) => j < i
    case Awake(i) => j < i
    case _ => Lagging(pc, j)
  }

  predicate LocksAgree(pc: TimerPc, j: nat, d: Device) {
    && (d.event == ByDevice <==> InEvent(d.pc))
    && (d.event == ByTimer <==> pc == Check(j))
    && (d.timer == ByDevice <==> d.pc.TimerHeld?)
    && (d.timer == ByTimer <==> pc == Clear(j) || pc == Signal(j) || pc == Unlock(j))
  }

  /** No signal is lost: whoever sleeps has reason to, or is about to be signalled. */
  predicate NoLostWakeup(pc: TimerPc, j: nat, d: Device) {
    && (d.pc.TimerAsleep? ==> d.done || pc == Signal(j))
    && (pc == Asleep(j) ==> (!d.done && !d.fsh) || d.pc.EventSet? || d.pc.DetachSet?)
  }

  predicate Flags(pc: TimerPc, j: nat, d: Device) {
    && (d.done ==> Waiting(d.pc) || d.pc.EventSet? || d.pc.EventSignalled?)
    && (d.pc.EventSet? || d.pc.EventSignalled? ==> d.done)
    && (d.fsh <==> d.pc.DetachSet? || d.pc.DetachSignalled? || d.pc.Gone?)
    && (Seen(pc, j) ==> d.fsh || (d.done && Waiting(d.pc)))
    && (pc == Signal(j) || pc == Unlock(j) ==> !d.done && (d.fsh || Waiting(d.pc)))
  }

  /** An attached device has returned from next_slot once for every tick it
      has been told about. */
  predicate InStep(time: nat, pc: TimerPc, j: nat, d: Device) {
    !d.fsh ==> d.slots + (if Waiting(d.pc) && !d.done then 1 else 0) + (if Lagging(pc, j) then 1 else 0) == time
  }

  predicate DeviceInv(time: nat, pc: TimerPc, j: nat, d: Device) {
    LocksAgree(pc, j, d) && NoLostWakeup(pc, j, d) && Flags(pc, j, d) && InStep(time, pc, j, d)
  }

  /** The device the timer is busy with. */
  predicate InRange(s: Clock) {
    match s.pc
    case Scan(i) => i <= |s.devs|
    case Release(i) => i <= |s.devs|
    case Stopped => true
    case Check(i) => i < |s.devs|
    case Asleep(i) => i < |s.devs|
    case Awake(i) => i < |s.devs|
    case Clear(i) => i < |s.devs|
    case Signal(i) => i < |s.devs|
    case Unlock(i) => i < |s.devs|
  }

  /** How many of the first i devices have finished. */
  function Finished(devs: seq<Device>, i: nat): (r: nat)
    requires i <= |devs|
    ensures r <= i
  {
    if i == 0 then 0 else Finished(devs, i - 1) + if devs[i - 1].fsh then 1 else 0
  }

  predicate InScan(pc: TimerPc) { pc.Scan? || pc.Check? || pc.Asleep? || pc.Awake? }

  /** The timer's count: exact while scanning, a lower bound afterwards. */
  predicate Counted(s: Clock)
    requires InRange(s)
  {
    if InScan(s.pc) then s.fsh == Finished(s.devs, s.pc.i)
    else if s.pc.Stopped? then s.stop || Finished(s.devs, |s.devs|) == |s.devs|
    else s.fsh <= Finished(s.devs, |s.devs|)
  }

  ghost predicate Inv(s: Clock) {
    && InRange(s)
    && (forall j :: 0 <= j < |s.devs| ==> DeviceInv(s.time, s.pc, j, s.devs[j]))
    && Counted(s)
    && (s.stop ==> AllGone(s))
  }

  /** n attached devices, all working; the timer about to scan. */
  function Init(n: nat): (s: Clock) {
    Clock(0, Scan(0), 0, false, seq(n, _ => Device(Work, false, false, Nobody, Nobody, 0)))
  }

  lemma InitInv(n: nat)
    ensures Inv(Init(n))
  {
  }

  // ----- preservation -----

  lemma {:induction false} FinishedSame(devs: seq<Device>, devs': seq<Device>, i: nat)
    requires i <= |devs| == |devs'|
    requires forall j :: 0 <= j < i ==> devs'[j].fsh == devs[j].fsh
    ensures Finished(devs', i) == Finished(devs, i)
  {
    if i > 0 {
      FinishedSame(devs, devs', i - 1);
    }
  }

  lemma {:induction false} FinishedGrows(devs: seq<Device>, devs': seq<Device>, i: nat)
    requires i <= |devs| == |devs'|
    requires forall j :: 0 <= j < i && devs[j].fsh ==> devs'[j].fsh
    ensures Finished(devs', i) >= Finished(devs, i)
  {
    if i > 0 {
      FinishedGrows(devs, devs', i - 1);
    }
  }

  lemma {:induction false} AllFinished(devs: seq<Device>, i: nat)
    requires i <= |devs|
    ensures Finished(devs, i) == i <==> forall j :: 0 <= j < i ==> devs[j].fsh
  {
    if i > 0 {
      AllFinished(devs, i - 1);
    }
  }

  /** A step that changes only device j and not the flag counted by the timer. */
  lemma CountedKept(s: Clock, s': Clock)
    requires InRange(s) && Counted(s) && InRange(s') && |s'.devs| == |s.devs|
    requires s'.fsh == s.fsh && (s.stop ==> s'.stop)
    requires s'.pc == s.pc || (InScan(s.pc) && InScan(s'.pc) && s'.pc.i == s.pc.i)
    requires forall k :: 0 <= k < |s.devs| && s.devs[k].fsh ==> s'.devs[k].fsh
    requires InScan(s.pc) ==> forall k :: 0 <= k < s.pc.i ==> s'.devs[k].fsh == s.devs[k].fsh
    ensures Counted(s')
  {
    if InScan(s.pc) {
      FinishedSame(s.devs, s'.devs, s.pc.i);
    } else {
      FinishedGrows(s.devs, s'.devs, |s.devs|);
      AllFinished(s.devs, |s.devs|);
      AllFinished(s'.devs, |s.devs|);
    }
  }

  lemma DeviceLocks(s: Clock, j: nat)
    requires j < |s.devs| && DeviceInv(s.time, s.pc, j, s.devs[j])
    ensures var s' := DeviceStep(s, j);
            LocksAgree(s'.pc, j, s'.devs[j]) && NoLostWakeup(s'.pc, j, s'.devs[j])
  {
  }

  lemma DeviceFlags(s: Clock, j: nat)
    requires j < |s.devs| && DeviceInv(s.time, s.pc, j, s.devs[j])
    ensures var s' := DeviceStep(s, j);
            Flags(s'.pc, j, s'.devs[j]) && InStep(s'.time, s'.pc, j, s'.devs[j])
  {
  }

  lemma DeviceSelf(s: Clock, j: nat)
    requires j < |s.devs| && DeviceInv(s.time, s.pc, j, s.devs[j])
    ensures var s' := DeviceStep(s, j);
            |s'.devs| == |s.devs| && DeviceInv(s'.time, s'.pc, j, s'.devs[j])
  {
    DeviceLocks(s, j);
    DeviceFlags(s, j);
  }

  lemma DeviceOthers(s: Clock, j: nat, k: nat)
    requires j < |s.devs| && k < |s.devs| && k != j && DeviceInv(s.time, s.pc, k, s.devs[k])
    ensures var s' := DeviceStep(s, j);
            s'.devs[k] == s.devs[k] && DeviceInv(s'.time, s'.pc, k, s'.devs[k])
  {
  }

  lemma DeviceShape(s: Clock, j: nat)
    requires InRange(s) && j < |s.devs| && DeviceInv(s.time, s.pc, j, s.devs[j])
    ensures var s' := DeviceStep(s, j);
            && InRange(s') && |s'.devs| == |s.devs| && s'.fsh == s.fsh && s'.stop == s.stop
            && (s'.pc == s.pc || (InScan(s.pc) && InScan(s'.pc) && s'.pc.i == s.pc.i))
            && (s.devs[j].fsh ==> s'.devs[j].fsh)
            && (InScan(s.pc) && j < s.pc.i ==> s'.devs[j].fsh == s.devs[j].fsh)
            && (s.devs[j].pc == Gone ==> s' == s)
  {
  }

  lemma DeviceStepInv(s: Clock, j: nat)
    requires Inv(s) && j < |s.devs|
    ensures Inv(DeviceStep(s, j))
  {
    hide DeviceStep;
    hide DeviceInv;
    hide InRange;
    hide Counted;
    var s' := DeviceStep(s, j);
    DeviceSelf(s, j);
    DeviceShape(s, j);
    forall k | 0 <= k < |s.devs| && k != j
      ensures s'.devs[k] == s.devs[k] && DeviceInv(s'.time, s'.pc, k, s'.devs[k])
    {
      DeviceOthers(s, j, k);
    }
    CountedKept(s, s');
  }

  lemma CallInv(s: Clock, a: Action)
    requires Inv(s) && !a.Tick? && !a.Go?
    ensures Inv(Step(s, a))
  {
    hide Counted;
    var s' := Step(s, a);
    forall k | 0 <= k < |s.devs| ensures DeviceInv(s'.time, s'.pc, k, s'.devs[k]) {
      assert DeviceInv(s.time, s.pc, k, s.devs[k]);
    }
    CountedKept(s, s');
  }

  lemma TimerLocks(s: Clock, k: nat)
    requires InRange(s) && k < |s.devs| && DeviceInv(s.time, s.pc, k, s.devs[k])
    ensures var s' := TimerStep(s);
            |s'.devs| == |s.devs| && LocksAgree(s'.pc, k, s'.devs[k])
  {
  }

  lemma TimerWakeups(s: Clock, k: nat)
    requires InRange(s) && k < |s.devs| && DeviceInv(s.time, s.pc, k, s.devs[k])
    ensures var s' := TimerStep(s);
            |s'.devs| == |s.devs| && NoLostWakeup(s'.pc, k, s'.devs[k])
  {
  }

  lemma TimerFlags(s: Clock, k: nat)
    requires InRange(s) && k < |s.devs| && DeviceInv(s.time, s.pc, k, s.devs[k])
    ensures var s' := TimerStep(s);
            |s'.devs| == |s.devs| && Flags(s'.pc, k, s'.devs[k])
  {
  }

  lemma TimerInStep(s: Clock, k: nat)
    requires InRange(s) && k < |s.devs| && DeviceInv(s.time, s.pc, k, s.devs[k])
    ensures var s' := TimerStep(s);
            |s'.devs| == |s.devs| && InStep(s'.time, s'.pc, k, s'.devs[k])
  {
  }

  lemma TimerDevice(s: Clock, k: nat)
    requires InRange(s) && k < |s.devs| && DeviceInv(s.time, s.pc, k, s.devs[k])
    ensures var s' := TimerStep(s);
            |s'.devs| == |s.devs| && DeviceInv(s'.time, s'.pc, k, s'.devs[k])
  {
    TimerLocks(s, k);
    TimerWakeups(s, k);
    TimerFlags(s, k);
    TimerInStep(s, k);
    hide TimerStep;
  }

  lemma TimerKeeps(s: Clock, k: nat)
    requires k < |s.devs|
    ensures var s' := TimerStep(s);
            && |s'.devs| == |s.devs| && s'.stop == s.stop && s'.devs[k].fsh == s.devs[k].fsh
            && (s.devs[k].pc == Gone ==> s'.devs[k].pc == Gone)
  {
  }

  lemma TimerScanCounts(s: Clock)
    requires InRange(s) && Counted(s) && InScan(s.pc)
    requires |TimerStep(s).devs| == |s.devs| && forall k :: 0 <= k < |s.devs| ==> TimerStep(s).devs[k].fsh == s.devs[k].fsh
    ensures InRange(TimerStep(s)) && Counted(TimerStep(s))
  {
    var s' := TimerStep(s);
    FinishedSame(s.devs, s'.devs, s.pc.i);
  }

  lemma TimerReleaseCounts(s: Clock)
    requires InRange(s) && Counted(s) && !InScan(s.pc)
    requires |TimerStep(s).devs| == |s.devs| && forall k :: 0 <= k < |s.devs| ==> TimerStep(s).devs[k].fsh == s.devs[k].fsh
    ensures InRange(TimerStep(s)) && Counted(TimerStep(s))
  {
    FinishedSame(s.devs, TimerStep(s).devs, |s.devs|);
  }

  lemma TimerStepInv(s: Clock)
    requires Inv(s)
    ensures Inv(TimerStep(s))
  {
    hide TimerStep;
    hide DeviceInv;
    hide Counted;
    hide InRange;
    var s' := TimerStep(s);
    TimerStop(s);
    forall k | 0 <= k < |s.devs|
      ensures s'.devs[k].fsh == s.devs[k].fsh && (s.devs[k].pc == Gone ==> s'.devs[k].pc == Gone)
      ensures DeviceInv(s'.time, s'.pc, k, s'.devs[k])
    {
      TimerDevice(s, k);
      TimerKeeps(s, k);
    }
    if InScan(s.pc) {
      TimerScanCounts(s);
    } else {
      TimerReleaseCounts(s);
    }
  }

  lemma TimerStop(s: Clock)
    ensures TimerStep(s).stop == s.stop && |TimerStep(s).devs| == |s.devs|
  {
  }

  /** Every step of every thread keeps the invariant. */
  lemma StepInv(s: Clock, a: Action)
    requires Inv(s)
    ensures Inv(Step(s, a))
  {
    match a
    case Tick => TimerStepInv(s);
    case Go(j) => if j < |s.devs| { DeviceStepInv(s, j); }
    case _ => CallInv(s, a);
  }

  function Run(s: Clock, acts: seq<Action>): (r: Clock)
    decreases |acts|
  {
    if acts == [] then s else Run(Step(s, acts[0]), acts[1..])
  }

  lemma {:induction false} RunInv(s: Clock, acts: seq<Action>)
    requires Inv(s)
    ensures Inv(Run(s, acts))
    decreases |acts|
  {
    if acts != [] {
      StepInv(s, acts[0]);
      RunInv(Step(s, acts[0]), acts[1..]);
    }
  }

  // ----- what it means -----

  /** Barrier safety: time advances by one, and only when every device has
      finished or waits in next_slot with its slot done. */
  lemma TimeAdvancesSafely(s: Clock, a: Action)
    requires Inv(s) && Step(s, a).time != s.time
    ensures Step(s, a).time == s.time + 1
    ensures forall j :: 0 <= j < |s.devs| ==> s.devs[j].fsh || (s.devs[j].done && Waiting(s.devs[j].pc))
  {
    forall j | 0 <= j < |s.devs| ensures s.devs[j].fsh || (s.devs[j].done && Waiting(s.devs[j].pc)) {
      assert DeviceInv(s.time, s.pc, j, s.devs[j]);
    }
  }

  /** Lock-step: a working device has returned from next_slot exactly once per
      tick, so the time it reads is the number of its own slot. */
  lemma WorkingDeviceOnTime(s: Clock, j: nat)
    requires Inv(s) && j < |s.devs| && s.devs[j].pc == Work
    ensures s.devs[j].slots == s.time
  {
    assert DeviceInv(s.time, s.pc, j, s.devs[j]);
  }

  /** Whether a thread's next step is not blocked. */
  predicate CanTick(s: Clock) { s.pc != Stopped && TimerStep(s) != s }

  predicate CanGo(s: Clock, j: nat) { j < |s.devs| && DeviceStep(s, j) != s }

  /** No deadlock: while the timer runs, some thread can step or some device
      is working; once it has stopped, no device waits for it. */
  lemma NoDeadlock(s: Clock)
    requires Inv(s)
    ensures !s.pc.Stopped? ==> CanTick(s) || exists j :: 0 <= j < |s.devs| && (s.devs[j].pc == Work || CanGo(s, j))
    ensures s.pc.Stopped? ==> forall j :: 0 <= j < |s.devs| ==> s.devs[j].pc == Gone || CanGo(s, j)
  {
    if s.pc.Stopped? {
      AllFinished(s.devs, |s.devs|);
      forall j | 0 <= j < |s.devs| ensures s.devs[j].pc == Gone || CanGo(s, j) {
        assert DeviceInv(s.time, s.pc, j, s.devs[j]);
        assert s.devs[j].fsh;
      }
    } else if !CanTick(s) {
      var i := s.pc.i;
      assert DeviceInv(s.time, s.pc, i, s.devs[i]);
      assert s.devs[i].pc == Work || CanGo(s, i);
    }
  }

  // ----- progress: no livelock -----

  predicate Leaving(d: Device) {
    d.pc.DetachHeld? || d.pc.DetachSet? || d.pc.DetachSignalled? || d.pc.Gone?
  }

  /** The device has asked for the next slot and has not been released. */
  predicate Requested(d: Device) {
    d.pc.EventHeld? || d.pc.EventSet? || d.pc.EventSignalled? || (Waiting(d.pc) && d.done)
  }

  predicate AllLeaving(devs: seq<Device>) {
    forall j :: 0 <= j < |devs| ==> Leaving(devs[j])
  }

  /** The scan can get past every device without a further call. */
  predicate CanPass(pc: TimerPc, devs: seq<Device>) {
    forall j :: 0 <= j < |devs| ==> Leaving(devs[j]) || (!Lagging(pc, j) && Requested(devs[j]))
  }

  function Bit(b: bool): nat { if b then 1 else 0 }

  /** How many new rounds the timer can still start if no device makes a call. */
  function Rounds(s: Clock): (r: nat) {
    if s.pc.Stopped? then 0
    else if InScan(s.pc) then Bit(!AllLeaving(s.devs) && CanPass(s.pc, s.devs))
    else if s.fsh == |s.devs| then 0
    else 1 + Bit(!AllLeaving(s.devs) && CanPass(s.pc, s.devs))
  }

  predicate ReadyAt(s: Clock, i: nat) { i < |s.devs| && (s.devs[i].done || s.devs[i].fsh) }

  /** Steps left in the timer's current round. */
  function Position(s: Clock): (r: int) {
    var n := |s.devs|;
    match s.pc
    case Scan(i) => 6 * (n - i) + 4 * n + 3
    case Awake(i) => 6 * (n - i) + 4 * n + 3 - (if ReadyAt(s, i) then 4 else 1)
    case Check(i) => 6 * (n - i) + 4 * n + 3 - (if ReadyAt(s, i) then 5 else 2)
    case Asleep(i) => 6 * (n - i) + 4 * n + 3 - 3
    case Release(i) => 4 * (n - i) + 1
    case Clear(i) => 4 * (n - i)
    case Signal(i) => 4 * (n - i) - 1
    case Unlock(i) => 4 * (n - i) - 2
    case Stopped => 0
  }

  /** Steps left in a device's current call. */
  function CallRank(d: Device): (r: nat) {
    match d.pc
    case Work => 0
    case EventHeld => 9
    case EventSet => 8
    case EventSignalled => 7
    case TimerWant => 6
    case TimerHeld => if d.done then 5 else 2
    case TimerAsleep => 4
    case TimerAwake => if d.done then 6 else 3
    case DetachHeld => 3
    case DetachSet => 2
    case DetachSignalled => 1
    case Gone => 0
  }

  function Calls(devs: seq<Device>): (r: nat) {
    if devs == [] then 0 else CallRank(devs[0]) + Calls(devs[1..])
  }

  function Rank(s: Clock): (r: int) {
    (10 * |s.devs| + 10) * Rounds(s) + Position(s) + Calls(s.devs)
  }

  lemma {:induction false} CallsUpdate(devs: seq<Device>, j: nat, d: Device)
    requires j < |devs|
    ensures Calls(devs[j := d]) == Calls(devs) - CallRank(devs[j]) + CallRank(d)
  {
    if j == 0 {
      assert devs[j := d][1..] == devs[1..];
    } else {
      assert devs[j := d][1..] == devs[1..][j - 1 := d];
      CallsUpdate(devs[1..], j - 1, d);
    }
  }

  lemma PositionNonneg(s: Clock)
    requires InRange(s)
    ensures 0 <= Position(s) <= 10 * |s.devs| + 3
  {
  }

  /** A device step inside a call changes neither who is leaving nor who has asked. */
  lemma GoKeepsRequests(s: Clock, j: nat)
    requires j < |s.devs| && DeviceInv(s.time, s.pc, j, s.devs[j])
    ensures var d, d' := s.devs[j], DeviceStep(s, j).devs[j];
            && Leaving(d') == Leaving(d) && Requested(d') == Requested(d)
            && DeviceStep(s, j).devs == s.devs[j := d']
            && (DeviceStep(s, j) != s ==> CallRank(d') < CallRank(d))
  {
  }

  lemma GoPosition(s: Clock, j: nat)
    requires InRange(s) && j < |s.devs| && DeviceInv(s.time, s.pc, j, s.devs[j])
    ensures Position(DeviceStep(s, j)) <= Position(s)
  {
  }

  lemma GoRounds(s: Clock, j: nat)
    requires Inv(s) && j < |s.devs|
    ensures Rounds(DeviceStep(s, j)) == Rounds(s)
  {
    hide DeviceStep;
    hide DeviceInv;
    hide Counted;
    var s' := DeviceStep(s, j);
    GoKeepsRequests(s, j);
    GoPhase(s, j);
    DeviceShape(s, j);
    SameRequests(s.pc, s.devs, s'.pc, s'.devs);
  }

  lemma GoPhase(s: Clock, j: nat)
    requires j < |s.devs|
    ensures var s' := DeviceStep(s, j);
            && s'.fsh == s.fsh && InScan(s'.pc) == InScan(s.pc) && s'.pc.Stopped? == s.pc.Stopped?
            && forall k: nat :: Lagging(s'.pc, k) == Lagging(s.pc, k)
  {
  }

  lemma GoDescends(s: Clock, j: nat)
    requires Inv(s) && j < |s.devs| && DeviceStep(s, j) != s
    ensures Rank(DeviceStep(s, j)) < Rank(s)
  {
    GoRounds(s, j);
    GoKeepsRequests(s, j);
    GoPosition(s, j);
    CallsUpdate(s.devs, j, DeviceStep(s, j).devs[j]);
    hide DeviceStep;
    hide Rounds;
    hide Position;
  }

  /** Timer steps other than the two phase changes. */
  lemma TickKeepsRequests(s: Clock, k: nat)
    requires InRange(s) && k < |s.devs| && DeviceInv(s.time, s.pc, k, s.devs[k])
    ensures var s' := TimerStep(s);
            var d, d' := s.devs[k], s'.devs[k];
            && Leaving(d') == Leaving(d)
            && CallRank(d') <= CallRank(d)
            && ((Leaving(d') || (!Lagging(s'.pc, k) && Requested(d'))) ==
                (Leaving(d) || (!Lagging(s.pc, k) && Requested(d))) || s.pc == Scan(|s.devs|) || s.pc == Release(|s.devs|))
  {
  }

  lemma TickPosition(s: Clock)
    requires InRange(s) && TimerStep(s) != s && s.pc != Release(|s.devs|)
    ensures Position(TimerStep(s)) < Position(s)
  {
  }

  lemma TickPhase(s: Clock)
    requires InRange(s) && s.pc != Scan(|s.devs|) && s.pc != Release(|s.devs|)
    ensures InScan(TimerStep(s).pc) == InScan(s.pc) && TimerStep(s).pc.Stopped? == s.pc.Stopped?
    ensures !InScan(s.pc) ==> TimerStep(s).fsh == s.fsh
  {
  }

  lemma {:induction false} CallsBelow(a: seq<Device>, b: seq<Device>)
    requires |a| == |b| && forall k :: 0 <= k < |a| ==> CallRank(a[k]) <= CallRank(b[k])
    ensures Calls(a) <= Calls(b)
  {
    if a != [] {
      CallsBelow(a[1..], b[1..]);
    }
  }

  lemma TickRounds(s: Clock)
    requires Inv(s) && s.pc != Scan(|s.devs|) && s.pc != Release(|s.devs|)
    ensures Rounds(TimerStep(s)) == Rounds(s)
  {
    hide TimerStep;
    hide DeviceInv;
    hide Counted;
    var s' := TimerStep(s);
    TimerStop(s);
    TickPhase(s);
    forall k | 0 <= k < |s.devs|
      ensures Leaving(s'.devs[k]) == Leaving(s.devs[k])
      ensures (Leaving(s'.devs[k]) || (!Lagging(s'.pc, k) && Requested(s'.devs[k]))) ==
              (Leaving(s.devs[k]) || (!Lagging(s.pc, k) && Requested(s.devs[k])))
    {
      TickKeepsRequests(s, k);
    }
    SameRequests(s.pc, s.devs, s'.pc, s'.devs);
  }

  lemma SameRequests(pc: TimerPc, devs: seq<Device>, pc': TimerPc, devs': seq<Device>)
    requires |devs'| == |devs|
    requires forall k :: 0 <= k < |devs| ==> Leaving(devs'[k]) == Leaving(devs[k])
    requires forall k :: 0 <= k < |devs| ==>
                           (Leaving(devs'[k]) || (!Lagging(pc', k) && Requested(devs'[k]))) ==
                           (Leaving(devs[k]) || (!Lagging(pc, k) && Requested(devs[k])))
    ensures AllLeaving(devs') == AllLeaving(devs)
    ensures CanPass(pc', devs') == CanPass(pc, devs)
  {
  }

  /** Passing the last device of the scan does not add a round. */
  lemma TurnRounds(s: Clock)
    requires Inv(s) && s.pc == Scan(|s.devs|)
    ensures Rounds(TimerStep(s)) <= Rounds(s)
  {
    var s' := TimerStep(s);
    AllFinished(s.devs, |s.devs|);
    forall j | 0 <= j < |s.devs| ensures Leaving(s.devs[j]) || Requested(s.devs[j]) {
      assert DeviceInv(s.time, s.pc, j, s.devs[j]);
    }
    assert CanPass(s.pc, s.devs);
    if AllLeaving(s.devs) {
      forall j | 0 <= j < |s.devs| ensures s.devs[j].fsh {
        assert DeviceInv(s.time, s.pc, j, s.devs[j]);
      }
    } else {
      assert !CanPass(s'.pc, s'.devs);
    }
  }

  lemma TickDescends(s: Clock)
    requires Inv(s) && TimerStep(s) != s
    ensures Rank(TimerStep(s)) < Rank(s)
  {
    var s' := TimerStep(s);
    if s.pc == Release(|s.devs|) {
      WrapDescends(s);
    } else {
      hide TimerStep;
      TimerStop(s);
      TickPosition(s);
      forall k | 0 <= k < |s.devs| ensures CallRank(s'.devs[k]) <= CallRank(s.devs[k]) {
        TickKeepsRequests(s, k);
      }
      CallsBelow(s'.devs, s.devs);
      if s.pc == Scan(|s.devs|) {
        TurnRounds(s);
      } else {
        TickRounds(s);
      }
      hide Rounds;
      hide Position;
      RoundsCost(|s.devs|, Rounds(s'), Rounds(s));
    }
  }

  lemma RoundsCost(n: nat, a: nat, b: nat)
    requires a <= b
    ensures (10 * n + 10) * a <= (10 * n + 10) * b
  {
  }

  /** Starting a new round uses up one of the rounds that were left. */
  lemma WrapDescends(s: Clock)
    requires Inv(s) && s.pc == Release(|s.devs|)
    ensures Rank(TimerStep(s)) < Rank(s)
  {
    var s' := TimerStep(s);
    var n := |s.devs|;
    if s'.pc.Scan? {
      assert CanPass(s'.pc, s'.devs) == CanPass(s.pc, s.devs);
      assert Rounds(s) == Rounds(s') + 1;
      assert (10 * n + 10) * Rounds(s) == (10 * n + 10) * Rounds(s') + (10 * n + 10);
    } else {
      RoundsCost(n, 0, Rounds(s));
    }
  }

  predicate Internal(a: Action) { a.Tick? || a.Go? }

  /** Every effective step of the timer or of a device inside a call brings
      the system closer to rest. */
  lemma InternalDescends(s: Clock, a: Action)
    requires Inv(s) && Internal(a) && Step(s, a) != s
    ensures Rank(Step(s, a)) < Rank(s)
  {
    if a.Tick? {
      TickDescends(s);
    } else {
      GoDescends(s, a.j);
    }
  }

  ghost predicate Effective(s: Clock, acts: seq<Action>)
    decreases |acts|
  {
    acts != [] ==> Internal(acts[0]) && Step(s, acts[0]) != s && Effective(Step(s, acts[0]), acts[1..])
  }

  lemma RankNonneg(s: Clock)
    requires Inv(s)
    ensures Rank(s) >= 0
  {
    PositionNonneg(s);
    RoundsCost(|s.devs|, 0, Rounds(s));
  }

  /** No livelock: without a new call, the timer and the devices can take at
      most Rank(s) steps. */
  lemma {:induction false} InternalRunsEnd(s: Clock, acts: seq<Action>)
    requires Inv(s) && Effective(s, acts)
    ensures |acts| <= Rank(s)
    decreases |acts|
  {
    RankNonneg(s);
    if acts != [] {
      StepInv(s, acts[0]);
      InternalDescends(s, acts[0]);
      InternalRunsEnd(Step(s, acts[0]), acts[1..]);
    }
  }

  /** At rest, with no step possible, every device is working or has left, or
      waits for one that is still working; a stopped timer has no device left. */
  lemma AtRest(s: Clock)
    requires Inv(s) && !CanTick(s) && forall j :: 0 <= j < |s.devs| ==> !CanGo(s, j)
    ensures s.pc.Stopped? ==> AllGone(s)
    ensures !s.pc.Stopped? ==> exists j :: 0 <= j < |s.devs| && s.devs[j].pc == Work
    ensures forall j :: 0 <= j < |s.devs| ==>
                          s.devs[j].pc == Work || s.devs[j].pc == Gone || (s.devs[j].pc == TimerAsleep && s.devs[j].done)
  {
    NoDeadlock(s);
    forall j | 0 <= j < |s.devs|
      ensures s.devs[j].pc == Work || s.devs[j].pc == Gone || (s.devs[j].pc == TimerAsleep && s.devs[j].done)
    {
      assert DeviceInv(s.time, s.pc, j, s.devs[j]);
      assert !CanGo(s, j);
    }
  }

  /** At the end of a round the timer stops exactly when stop_timer has asked for it
      or every device had finished when it was scanned; otherwise it scans again. */
  lemma RoundEnds(s: Clock)
    requires Inv(s) && s.pc == Release(|s.devs|)
    ensures TimerStep(s).pc == if s.stop || s.fsh == |s.devs| then Stopped else Scan(0)
    ensures TimerStep(s).pc.Stopped? ==> forall j :: 0 <= j < |s.devs| ==> s.devs[j].fsh
  {
    AllFinished(s.devs, |s.devs|);
    forall j | 0 <= j < |s.devs| && s.stop ensures s.devs[j].fsh {
      assert DeviceInv(s.time, s.pc, j, s.devs[j]);
    }
  }

  /** Once stop_timer has asked for it, the timer can come to rest only by stopping. */
  lemma StopIsHeeded(s: Clock)
    requires Inv(s) && s.stop && !CanTick(s) && forall j :: 0 <= j < |s.devs| ==> !CanGo(s, j)
    ensures s.pc.Stopped?
  {
    AtRest(s);
  }

  /** A working device can always start a call: at once if its event lock is free,
      and otherwise the timer holds the lock and can go on to release it. Starting a
      call concerns no one else. */
  lemma CallsStart(s: Clock, j: nat)
    requires Inv(s) && j < |s.devs| && s.devs[j].pc == Work
    ensures s.devs[j].event == Nobody ==>
              && Step(s, CallNextSlot(j)) == s.(devs := s.devs[j := s.devs[j].(pc := EventHeld, event := ByDevice)])
              && Step(s, CallDetach(j)) == s.(devs := s.devs[j := s.devs[j].(pc := DetachHeld, event := ByDevice)])
    ensures s.devs[j].event != Nobody ==> s.pc == Check(j) && CanTick(s) && TimerStep(s).devs[j].event == Nobody
  {
    assert DeviceInv(s.time, s.pc, j, s.devs[j]);
  }

  /** stop_timer is heard exactly after every device has left. */
  lemma StopIsAsked(s: Clock)
    ensures Step(s, StopTimer) == s.(stop := s.stop || forall j :: 0 <= j < |s.devs| ==> s.devs[j].pc == Gone)
  {
  }
}
