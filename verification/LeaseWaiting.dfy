/** Threads that wait in acquire for an idle slot (src/sqli_pool.c:249-312 and 320-352), over the system of module
    Lease: no wakeup is lost, except to a thread that times out just when it is signalled. */
module LeaseWaiting {
  import opened Lease
  import opened LeaseSafety

  /** How many threads sleep on the condition variable, and how many were woken and wait for the mutex. */
  datatype Waiting = Waiting(core: State, asleep: nat, woken: nat)

  /** i is a slot. A step of the core is one of a thread that does not wait. */
  datatype WaitStep =
    | CoreStep(step: Step)
    | Sleep
    | WakeAcquire(i: nat)
    | WakeSleep
    | WakeLeave
    | Spurious
    | TimeOut
    | TimeOutSignalled

  predicate AllInUse(s: State) {
    forall i :: 0 <= i < |s.slots| ==> s.slots[i].inUse
  }

  /** Who finds no idle slot goes to sleep; who is woken takes the mutex and looks again, or leaves because it
      has timed out or the pool shuts down. */
  predicate CanStep(w: Waiting, step: WaitStep) {
    match step
    case CoreStep(s) => Enabled(w.core, s)
    case Sleep => w.core.pool.Free? && !w.core.shuttingDown && AllInUse(w.core)
    case WakeAcquire(i) => w.woken > 0 && Enabled(w.core, AcquireLock(i))
    case WakeSleep => w.woken > 0 && w.core.pool.Free? && !w.core.shuttingDown && AllInUse(w.core)
    case WakeLeave => w.woken > 0 && w.core.pool.Free? && w.core.shuttingDown
    case Spurious => w.asleep > 0
    case TimeOut => w.asleep > 0 && w.core.pool.Free?
    case TimeOutSignalled => w.woken > 0 && w.core.pool.Free?
  }

  /** Giving a slot back signals one sleeper; shutting down wakes them all. */
  predicate Signals(s: State, step: Step) {
    || step.ReleaseDoneStep?
    || (step.ReconnectLock? && !s.shuttingDown && step.i < |s.slots| && s.slots[step.i].work.Failed?)
  }

  function AfterStep(w: Waiting, step: WaitStep): Waiting
    requires CanStep(w, step)
  {
    match step
    case CoreStep(s) =>
      var t := Next(w.core, s);
      if Signals(w.core, s) && w.asleep > 0 then Waiting(t, w.asleep - 1, w.woken + 1)
      else if s.DestroyLock? && t.shuttingDown then Waiting(t, 0, w.woken + w.asleep)
      else w.(core := t)
    case Sleep => w.(asleep := w.asleep + 1)
    case WakeAcquire(i) => Waiting(Next(w.core, AcquireLock(i)), w.asleep, w.woken - 1)
    case WakeSleep => Waiting(w.core, w.asleep + 1, w.woken - 1)
    case WakeLeave => w.(woken := w.woken - 1)
    case Spurious => Waiting(w.core, w.asleep - 1, w.woken + 1)
    case TimeOut => w.(asleep := w.asleep - 1)
    case TimeOutSignalled => w.(woken := w.woken - 1)
  }

  // ---- Idle slots ---------------------------------------------------------------------------

  function IdleSlots(slots: seq<Slot>): nat {
    if slots == [] then 0 else IdleSlots(slots[..|slots| - 1]) + if slots[|slots| - 1].inUse then 0 else 1
  }

  lemma {:induction false} SameIdle(a: seq<Slot>, b: seq<Slot>)
    requires |a| == |b| && forall i :: 0 <= i < |a| ==> a[i].inUse == b[i].inUse
    ensures IdleSlots(a) == IdleSlots(b)
  {
    if a != [] { SameIdle(a[..|a| - 1], b[..|b| - 1]); }
  }

  lemma {:induction false} IdleChange(a: seq<Slot>, b: seq<Slot>, i: nat)
    requires |a| == |b| && i < |a| && forall j :: 0 <= j < |a| && j != i ==> a[j].inUse == b[j].inUse
    ensures IdleSlots(b) == IdleSlots(a) + (if a[i].inUse then 0 else -1) + (if b[i].inUse then 0 else 1)
  {
    var n := |a| - 1;
    if i == n { SameIdle(a[..n], b[..n]); } else { IdleChange(a[..n], b[..n], i); }
  }

  lemma {:induction false} SomeIdle(slots: seq<Slot>)
    ensures IdleSlots(slots) == 0 <==> forall i :: 0 <= i < |slots| ==> slots[i].inUse
  {
    if slots != [] { SomeIdle(slots[..|slots| - 1]); }
  }

  /** What a step of the core does to the number of idle slots, as long as the pool is open: acquiring takes one,
      releasing and giving up on a connection give one back, and those two are the steps that signal. */
  lemma StepIdle(s: State, step: Step)
    requires Inv(s) && Enabled(s, step) && !Next(s, step).shuttingDown
    ensures !s.shuttingDown
    ensures IdleSlots(Next(s, step).slots)
            == IdleSlots(s.slots) + if step.AcquireLock? then -1 else if Signals(s, step) then 1 else 0
  {
    if IsOpStep(step) {
      OpStepEffect(s, step);
    } else if Acquires(step) {
      AcquireIdle(s, step);
    } else if Releases(step) {
      ReleaseIdle(s, step);
    } else {
      OtherIdle(s, step);
    }
  }

  lemma AcquireIdle(s: State, step: Step)
    requires Inv(s) && Enabled(s, step) && Acquires(step) && !Next(s, step).shuttingDown
    ensures !s.shuttingDown
    ensures IdleSlots(Next(s, step).slots)
            == IdleSlots(s.slots) + if step.AcquireLock? then -1 else if Signals(s, step) then 1 else 0
  {
    if step.AcquireLock? || step.ReconnectLock? { TakenOrGiven(s, step); } else { SlotKept(s, step); }
  }

  lemma TakenOrGiven(s: State, step: Step)
    requires Inv(s) && Enabled(s, step) && (step.AcquireLock? || step.ReconnectLock?) && !Next(s, step).shuttingDown
    ensures !s.shuttingDown
    ensures IdleSlots(Next(s, step).slots)
            == IdleSlots(s.slots) + if step.AcquireLock? then -1 else if Signals(s, step) then 1 else 0
  {
    assert SlotOk(s, step.i);
    IdleChange(s.slots, Next(s, step).slots, step.i);
  }

  lemma SlotKept(s: State, step: Step)
    requires Inv(s) && Enabled(s, step) && Acquires(step) && !step.AcquireLock? && !step.ReconnectLock?
    ensures Next(s, step).shuttingDown == s.shuttingDown && IdleSlots(Next(s, step).slots) == IdleSlots(s.slots)
  {
    var i := if step.ReconnectStep? || step.OpenStep? then step.i else s.pool.slot;
    assert SlotOk(s, i);
    IdleChange(s.slots, AcquireAfter(s, step).slots, i);
  }

  lemma ReleaseIdle(s: State, step: Step)
    requires Inv(s) && Enabled(s, step) && Releases(step) && !Next(s, step).shuttingDown
    ensures !s.shuttingDown
    ensures IdleSlots(Next(s, step).slots) == IdleSlots(s.slots) + if step.ReleaseDoneStep? then 1 else 0
  {
    if step.ReleaseDoneStep? {
      assert PcOk(s) && LeaseOk(s, s.pool.lease);
      IdleChange(s.slots, Next(s, step).slots, s.pool.slot);
    }
  }

  lemma OtherIdle(s: State, step: Step)
    requires Inv(s) && Enabled(s, step) && !IsOpStep(step) && !Acquires(step) && !Releases(step)
    requires !Next(s, step).shuttingDown
    ensures !s.shuttingDown && IdleSlots(Next(s, step).slots) == IdleSlots(s.slots)
  {
  }

  // ---- No wakeup is lost --------------------------------------------------------------------

  /** As long as a thread sleeps, every idle slot has a woken thread on its way to it; nobody sleeps in a pool that
      shuts down. */
  predicate NoneLost(w: Waiting) {
    w.asleep > 0 ==> !w.core.shuttingDown && IdleSlots(w.core.slots) <= w.woken
  }

  lemma StepLosesNone(w: Waiting, step: WaitStep)
    requires Inv(w.core) && NoneLost(w) && CanStep(w, step) && step != TimeOutSignalled
    ensures Inv(AfterStep(w, step).core) && NoneLost(AfterStep(w, step))
  {
    match step {
      case CoreStep(s) => CoreLosesNone(w, s);
      case Sleep => SomeIdle(w.core.slots);
      case WakeAcquire(i) =>
        StepKeepsInv(w.core, AcquireLock(i));
        if !w.core.shuttingDown { StepIdle(w.core, AcquireLock(i)); }
      case WakeSleep => SomeIdle(w.core.slots);
      case _ =>
    }
  }

  lemma CoreLosesNone(w: Waiting, s: Step)
    requires Inv(w.core) && NoneLost(w) && Enabled(w.core, s)
    ensures Inv(AfterStep(w, CoreStep(s)).core) && NoneLost(AfterStep(w, CoreStep(s)))
  {
    StepKeepsInv(w.core, s);
    if Next(w.core, s).shuttingDown { OnlyDestroyShuts(w.core, s); } else { StepIdle(w.core, s); }
  }

  lemma OnlyDestroyShuts(s: State, step: Step)
    requires Inv(s) && Enabled(s, step) && Next(s, step).shuttingDown
    ensures s.shuttingDown || step.DestroyLock?
  {
    if IsOpStep(step) {
      OpStepEffect(s, step);
    } else if Acquires(step) {
      AcquireShutsNone(s, step);
    } else if Releases(step) {
      ReleaseShutsNone(s, step);
    }
  }

  lemma AcquireShutsNone(s: State, step: Step)
    requires Enabled(s, step) && Acquires(step)
    ensures AcquireAfter(s, step).shuttingDown == s.shuttingDown
  {
  }

  lemma ReleaseShutsNone(s: State, step: Step)
    requires Enabled(s, step) && Releases(step)
    ensures ReleaseAfter(s, step).shuttingDown == s.shuttingDown
  {
  }

  /** A thread that returns because its time is up, though it was signalled, loses the wakeup exactly if another
      thread sleeps and there are as many idle slots as woken threads. */
  lemma LostExactly(w: Waiting)
    requires Inv(w.core) && NoneLost(w) && CanStep(w, TimeOutSignalled)
    ensures NoneLost(AfterStep(w, TimeOutSignalled)) <==> w.asleep == 0 || IdleSlots(w.core.slots) < w.woken
  {
  }

  ghost predicate WaitRun(states: seq<Waiting>, steps: seq<WaitStep>) {
    && |states| == |steps| + 1 && Init(states[0].core) && states[0].asleep == 0 && states[0].woken == 0
    && forall k :: 0 <= k < |steps| ==> WaitStepAt(states, steps, k)
  }

  ghost predicate WaitStepAt(states: seq<Waiting>, steps: seq<WaitStep>, k: nat)
    requires k < |steps| < |states|
  {
    CanStep(states[k], steps[k]) && states[k + 1] == AfterStep(states[k], steps[k])
  }

  /** Without such a time-out, no interleaving ever loses a wakeup: while a thread sleeps, idle slots are no more
      than the woken threads, however often slots are given back, taken by others or given up. */
  lemma {:induction false} NoLostWakeup(states: seq<Waiting>, steps: seq<WaitStep>, k: nat)
    requires WaitRun(states, steps) && k < |states| && TimeOutSignalled !in steps[..k]
    ensures Inv(states[k].core) && NoneLost(states[k])
  {
    if k == 0 {
      InitInv(states[0].core);
    } else {
      assert steps[..k][k - 1] == steps[k - 1] && forall x :: x in steps[..k - 1] ==> x in steps[..k];
      NoLostWakeup(states, steps, k - 1);
      assert WaitStepAt(states, steps, k - 1);
      StepLosesNone(states[k - 1], steps[k - 1]);
    }
  }

  /** So whenever a thread sleeps though a slot is idle, a woken one can take a slot as soon as the mutex is free. */
  lemma SleeperIsServed(states: seq<Waiting>, steps: seq<WaitStep>, k: nat)
    requires WaitRun(states, steps) && k < |states| && TimeOutSignalled !in steps[..k]
    requires states[k].asleep > 0 && states[k].core.pool.Free? && !AllInUse(states[k].core)
    ensures exists i :: CanStep(states[k], WakeAcquire(i))
  {
    NoLostWakeup(states, steps, k);
    var s := states[k].core;
    SomeIdle(s.slots);
    var i := FirstIdle(s.slots, 0);
    assert CanStep(states[k], WakeAcquire(i));
  }

  lemma FirstIdle(slots: seq<Slot>, from: nat) returns (i: nat)
    requires from <= |slots| && !(forall j :: from <= j < |slots| ==> slots[j].inUse)
    ensures from <= i < |slots| && !slots[i].inUse && forall j :: from <= j < i ==> slots[j].inUse
    decreases |slots| - from
  {
    if slots[from].inUse { i := FirstIdle(slots, from + 1); } else { i := from; }
  }

  // ---- A lost wakeup ------------------------------------------------------------------------

  function LossStep(k: nat): WaitStep {
    match k
    case 0 => CoreStep(AcquireLock(0))
    case 1 => CoreStep(AcquireCheckStep(true))
    case 2 => CoreStep(AcquireClaimStep)
    case 3 => Sleep
    case 4 => Sleep
    case 5 => CoreStep(ReleaseLock(0, Some(0)))
    case 6 => CoreStep(ReleaseLoadStep)
    case 7 => CoreStep(ReleaseCasStep)
    case 8 => CoreStep(ReleaseDoneStep)
    case _ => TimeOutSignalled
  }

  /** The one slot idle again, its connection released, and no lease left. */
  function Released(): State {
    State(map[0 := Conn(RELEASED, true)], map[], [Slot(Some(0), false, NoWork)], false, Free, map[], {0}, 1, 1)
  }

  function LossState(k: nat): Waiting {
    match k
    case 0 => Waiting(RunState(0), 0, 0)
    case 1 => Waiting(RunState(1), 0, 0)
    case 2 => Waiting(RunState(2), 0, 0)
    case 3 => Waiting(RunState(3), 0, 0)
    case 4 => Waiting(RunState(3), 1, 0)
    case 5 => Waiting(RunState(3), 2, 0)
    case 6 => Waiting(RunState(3).(pool := ReleaseLoad(0, Some(0))), 2, 0)
    case 7 => Waiting(RunState(3).(pool := ReleaseCas(0, Some(0), CLEAR)), 2, 0)
    case 8 => Waiting(SetWord(RunState(3), 0, RELEASED).(pool := ReleaseDone(0, 0)), 2, 0)
    case 9 => Waiting(Released(), 1, 1)
    case _ => Waiting(Released(), 1, 0)
  }

  lemma AcquiredAndAsleep(k: nat)
    requires k < 5
    ensures CanStep(LossState(k), LossStep(k)) && LossState(k + 1) == AfterStep(LossState(k), LossStep(k))
  {
    assert k in {0, 1, 2, 3, 4};
    if k < 3 { AcquireFollows(k); }
  }

  lemma Releasing(k: nat)
    requires 5 <= k < 7
    ensures CanStep(LossState(k), LossStep(k)) && LossState(k + 1) == AfterStep(LossState(k), LossStep(k))
  {
    assert k in {5, 6};
  }

  lemma Marked()
    ensures CanStep(LossState(7), LossStep(7)) && LossState(8) == AfterStep(LossState(7), LossStep(7))
  {
  }

  lemma Signalled(k: nat)
    requires 8 <= k < 10
    ensures CanStep(LossState(k), LossStep(k)) && LossState(k + 1) == AfterStep(LossState(k), LossStep(k))
  {
    assert k in {8, 9};
  }

  /** A pool with one slot, leased; two threads wait, one of them with a time limit. The lease is given back and
      the signal goes to the thread whose time is just up. It returns, and the other sleeps on: the slot is
      idle, no thread is on its way to it, and there is no lease left whose release would signal again. */
  lemma LostWakeup() returns (states: seq<Waiting>, steps: seq<WaitStep>)
    ensures WaitRun(states, steps) && |steps| == 10
    ensures var w := states[10];
            && w.asleep == 1 && w.woken == 0 && w.core.pool.Free? && !w.core.shuttingDown
            && w.core.leases == map[] && IdleSlots(w.core.slots) == 1 && !NoneLost(w)
  {
    states := seq(11, k requires 0 <= k < 11 => LossState(k));
    steps := seq(10, k requires 0 <= k < 10 => LossStep(k));
    forall k | 0 <= k < 10 ensures WaitStepAt(states, steps, k) {
      if k < 5 {
        AcquiredAndAsleep(k);
      } else if k < 7 {
        Releasing(k);
      } else if k == 7 {
        Marked();
      } else {
        Signalled(k);
      }
    }
  }
}
