/** That no thread of the system of module Lease is stuck: whoever holds a mutex can always go on, gives it back
    after a few steps of its own, and a request to an armed operation does interrupt it. */
module LeaseProgress {
  import opened Lease
  import opened LeaseSafety

  // ---- The pool mutex -----------------------------------------------------------------------

  /** The next step of the thread that holds the pool mutex; the outcome is what it finds or is told. */
  function HolderStep(pc: PoolPc, outcome: bool): Step
    requires !pc.Free?
  {
    match pc
    case AcquireCheck(_) => AcquireCheckStep(outcome)
    case AcquireClaim(_) => AcquireClaimStep
    case AcquireDestroy(_) => AcquireDestroyStep
    case ReleaseLoad(_, _) => ReleaseLoadStep
    case ReleaseCas(_, _, _) => ReleaseCasStep
    case ReleaseDiscard(_, _) => ReleaseDiscardStep(outcome)
    case ReleaseUndo(_, _) => ReleaseUndoStep
    case ReleaseDone(_, _) => ReleaseDoneStep
  }

  /** Most steps the holder still takes. */
  function HolderRank(pc: PoolPc): nat {
    match pc
    case Free => 0
    case AcquireCheck(_) => 2
    case AcquireClaim(_) => 1
    case AcquireDestroy(_) => 1
    case ReleaseLoad(_, _) => 4
    case ReleaseCas(_, _, _) => 3
    case ReleaseDiscard(_, _) => 2
    case ReleaseUndo(_, _) => 1
    case ReleaseDone(_, _) => 1
  }

  predicate IsHolderStep(step: Step) {
    step.AcquireCheckStep? || step.AcquireClaimStep? || step.AcquireDestroyStep?
    || (Releases(step) && !step.ReleaseLock?)
  }

  /** Whatever has happened, the holder of the pool mutex can take its next step, with either outcome. */
  lemma HolderProceeds(states: seq<State>, steps: seq<Step>, k: nat, outcome: bool)
    requires Run(states, steps) && k < |states| && !states[k].pool.Free?
    ensures Enabled(states[k], HolderStep(states[k].pool, outcome))
  {
    RunKeepsInv(states, steps, k);
    var s := states[k];
    assert PcOk(s) && SlotOk(s, s.pool.slot);
    if s.pool.ReleaseDiscard? || s.pool.ReleaseUndo? || s.pool.ReleaseDone? { assert LeaseOk(s, s.pool.lease); }
  }

  /** A step of the holder brings it nearer to giving the mutex back; no other step moves it. */
  lemma HolderMoves(s: State, step: Step)
    requires Enabled(s, step) && !s.pool.Free?
    ensures if IsHolderStep(step) then HolderRank(Next(s, step).pool) < HolderRank(s.pool)
            else Next(s, step).pool == s.pool
  {
    if IsOpStep(step) {
      OperationsWait(s, step);
    } else if Acquires(step) {
      AcquirerMoves(s, step);
    } else if Releases(step) {
      ReleaserMoves(s, step);
    } else {
      OthersWait(s, step);
    }
  }

  lemma OperationsWait(s: State, step: Step)
    requires Enabled(s, step) && IsOpStep(step)
    ensures SetOp(ConnsAfter(s, step), step.o, OpAfter(s, step)).pool == s.pool && !IsHolderStep(step)
  {
  }

  lemma AcquirerMoves(s: State, step: Step)
    requires Enabled(s, step) && Acquires(step) && !s.pool.Free?
    ensures if IsHolderStep(step) then HolderRank(AcquireAfter(s, step).pool) < HolderRank(s.pool)
            else AcquireAfter(s, step).pool == s.pool
  {
  }

  lemma ReleaserMoves(s: State, step: Step)
    requires Enabled(s, step) && Releases(step) && !s.pool.Free?
    ensures HolderRank(ReleaseAfter(s, step).pool) < HolderRank(s.pool) && IsHolderStep(step)
  {
  }

  lemma OthersWait(s: State, step: Step)
    requires Enabled(s, step) && !IsOpStep(step) && !Acquires(step) && !Releases(step)
    ensures OtherAfter(s, step).pool == s.pool
  {
  }

  /** Number of steps the holder takes between two states. */
  function HolderSteps(steps: seq<Step>, from: nat, to: nat): nat
    requires from <= to <= |steps|
  {
    if from == to then 0 else HolderSteps(steps, from, to - 1) + if IsHolderStep(steps[to - 1]) then 1 else 0
  }

  /** As long as the pool mutex is held, its holder takes at most four steps, in whatever order threads run. */
  lemma {:induction false} HeldBriefly(states: seq<State>, steps: seq<Step>, from: nat, to: nat)
    requires Run(states, steps) && from <= to < |states|
    requires forall k :: from <= k < to ==> !states[k].pool.Free?
    ensures HolderSteps(steps, from, to) + HolderRank(states[to].pool) <= HolderRank(states[from].pool) <= 4
  {
    if from < to {
      HeldBriefly(states, steps, from, to - 1);
      assert StepAt(states, steps, to - 1);
      HolderMoves(states[to - 1], steps[to - 1]);
    }
  }

  // ---- The mutex of an operation ------------------------------------------------------------

  /** The next step of the thread that holds an operation's mutex. */
  function OwnerStep(o: nat, pc: OpPc, outcome: bool): Step
    requires !pc.Unlocked?
  {
    match pc
    case RegisterPin(_, _) => RegisterPinStep(o)
    case RegisterCheck(_, _) => RegisterCheckStep(o, outcome)
    case RegisterUnpin(_) => RegisterUnpinStep(o)
    case InterruptDiscard => InterruptDiscardStep(o)
    case InterruptSend => InterruptSendStep(o)
    case FinishUnknown => FinishUnknownStep(o)
    case FinishLoad => FinishLoadStep(o)
    case FinishDiscard => FinishDiscardStep(o)
    case FinishClear => FinishClearStep(o)
    case FinishUnpin(_) => FinishUnpinStep(o)
  }

  function OwnerRank(pc: OpPc): nat {
    match pc
    case Unlocked => 0
    case RegisterPin(_, _) => 3
    case RegisterCheck(_, _) => 2
    case RegisterUnpin(_) => 1
    case InterruptDiscard => 2
    case InterruptSend => 1
    case FinishUnknown => 5
    case FinishLoad => 4
    case FinishDiscard => 3
    case FinishClear => 2
    case FinishUnpin(_) => 1
  }

  /** Whatever has happened, the holder of an operation's mutex can take its next step; only for pinning must
      its caller see to it that the connection still exists. */
  lemma OwnerProceeds(states: seq<State>, steps: seq<Step>, k: nat, o: nat, outcome: bool)
    requires Run(states, steps) && k < |states| && o in states[k].ops && !states[k].ops[o].pc.Unlocked?
    requires var pc := states[k].ops[o].pc; pc.RegisterPin? ==> pc.conn in states[k].conns
    ensures Enabled(states[k], OwnerStep(o, states[k].ops[o].pc, outcome))
  {
    RunKeepsInv(states, steps, k);
    assert OpOk(states[k].ops[o]) && PinOk(states[k], o);
  }

  predicate IsOwnerStep(step: Step, o: nat) {
    IsOpStep(step) && step.o == o && !step.WriteExecute? && !step.LeaveResponse? && !step.ExecutorDiscard?
  }

  /** A step of the holder brings it nearer to giving the mutex back; no other step moves it. */
  lemma OwnerMoves(s: State, step: Step, o: nat)
    requires Inv(s) && Enabled(s, step) && o in s.ops && !s.ops[o].pc.Unlocked?
    ensures var t := Next(s, step);
            && o in t.ops
            && if IsOwnerStep(step, o) then OwnerRank(t.ops[o].pc) < OwnerRank(s.ops[o].pc)
               else t.ops[o].pc == s.ops[o].pc
  {
    if IsPoolStep(step) {
      PoolStepEffect(s, step);
    } else if IsOpStep(step) {
      OneOp(s, step);
      if step.o == o { OwnMove(s, step); }
    }
  }

  lemma OwnMove(s: State, step: Step)
    requires Enabled(s, step) && IsOpStep(step) && !s.ops[step.o].pc.Unlocked?
    ensures if IsOwnerStep(step, step.o) then OwnerRank(OpAfter(s, step).pc) < OwnerRank(s.ops[step.o].pc)
            else OpAfter(s, step).pc == s.ops[step.o].pc
  {
  }

  function OwnerSteps(steps: seq<Step>, o: nat, from: nat, to: nat): nat
    requires from <= to <= |steps|
  {
    if from == to then 0 else OwnerSteps(steps, o, from, to - 1) + if IsOwnerStep(steps[to - 1], o) then 1 else 0
  }

  /** As long as an operation's mutex is held, its holder takes at most five steps. */
  lemma {:induction false} OwnedBriefly(states: seq<State>, steps: seq<Step>, o: nat, from: nat, to: nat)
    requires Run(states, steps) && from <= to < |states|
    requires forall k :: from <= k < to ==> o in states[k].ops && !states[k].ops[o].pc.Unlocked?
    requires o in states[from].ops
    ensures o in states[to].ops
    ensures OwnerSteps(steps, o, from, to) + OwnerRank(states[to].ops[o].pc) <= OwnerRank(states[from].ops[o].pc) <= 5
  {
    if from < to {
      OwnedBriefly(states, steps, o, from, to - 1);
      RunKeepsInv(states, steps, to - 1);
      assert StepAt(states, steps, to - 1);
      OwnerMoves(states[to - 1], steps[to - 1], o);
    }
  }

  // ---- Work outside the mutexes -------------------------------------------------------------

  /** A thread reconnecting a slot can go on, and when done needs only the pool mutex. */
  lemma WorkProceeds(states: seq<State>, steps: seq<Step>, k: nat, i: nat, connected: bool)
    requires Run(states, steps) && k < |states| && i < |states[k].slots|
    ensures var s, work := states[k], states[k].slots[i].work;
            && (work.Reconnecting? ==> Enabled(s, ReconnectStep(i)))
            && (work.Opening? ==> Enabled(s, OpenStep(i, connected)))
            && ((work.Connected? || work.Failed?) && s.pool.Free? ==> Enabled(s, ReconnectLock(i)))
  {
    RunKeepsInv(states, steps, k);
    assert SlotOk(states[k], i);
  }

  /** Whenever an operation is active and armed, has not been requested to stop and its mutex is free, a request
      can be made, and it discards the connection and sends the interrupt. */
  lemma RequestInterrupts(states: seq<State>, steps: seq<Step>, k: nat, o: nat)
    requires Run(states, steps) && k < |states| && o in states[k].ops
    requires var op := states[k].ops[o]; op.phase.Active? && op.armed && !op.requested && op.pc.Unlocked?
    ensures states[k].ops[o].conn.Some?
    ensures var s, c := states[k], states[k].ops[o].conn.value;
            && s.ops[o].sends == 0
            && Enabled(s, RequestLock(o))
            && var t := Next(s, RequestLock(o));
            && Enabled(t, InterruptDiscardStep(o))
            && var u := Next(t, InterruptDiscardStep(o));
            && IsDiscarded(u, c) && IsPinned(u, c) && Enabled(u, InterruptSendStep(o))
            && var v := Next(u, InterruptSendStep(o));
            && v.ops[o].sends == 1 && v.ops[o].pc.Unlocked? && v.ops[o].phase.Active?
  {
    RunKeepsInv(states, steps, k);
    assert OpOk(states[k].ops[o]) && PinOk(states[k], o);
  }
}
