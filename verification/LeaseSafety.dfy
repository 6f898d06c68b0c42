/** What holds in every reachable state of the system of module Lease, and what no run ever does. */
module LeaseSafety {
  import opened Lease

  // ---- The invariant ------------------------------------------------------------------------

  predicate Interrupting(pc: OpPc) {
    pc.InterruptDiscard? || pc.InterruptSend?
  }

  predicate Finishing(pc: OpPc) {
    pc.FinishUnknown? || pc.FinishLoad? || pc.FinishDiscard? || pc.FinishClear?
  }

  predicate Registering(pc: OpPc) {
    pc.RegisterPin? || pc.RegisterCheck? || pc.RegisterUnpin?
  }

  /** Facts about an operation's own fields. */
  predicate OpOk(op: Op) {
    && (op.phase.Active? <==> op.conn.Some?)
    && (op.phase.Fresh? ==> !op.armed && (op.pc.Unlocked? || Registering(op.pc)))
    && (op.pc.RegisterPin? || op.pc.RegisterCheck? ==> op.phase.Fresh?)
    && (op.pc.RegisterUnpin? ==> !op.phase.Active?)
    && (Interrupting(op.pc) ==> op.phase.Active? && op.armed && op.requested && !op.attempted)
    && (Finishing(op.pc) ==> op.phase.Active?)
    && (op.pc.FinishUnpin? ==> op.phase.Terminal?)
    && op.sends == (if op.attempted then 1 else 0)
    && (!Interrupting(op.pc) ==> (op.attempted <==> op.requested && op.armed))
    && (op.armed && op.byPrepare ==> op.written)
    && ExecutorOk(op)
  }

  /** Where the executing thread can be: it writes and arms unarmed, active operations only. */
  predicate ExecutorOk(op: Op) {
    match op.executor
    case Idle => !op.phase.Active?
    case Writing => op.phase.Active? && !Finishing(op.pc) && !op.armed && op.byPrepare
    case Written => op.phase.Active? && !Finishing(op.pc) && !op.armed && op.byPrepare && op.written
    case Responding => op.phase.Active? && !Finishing(op.pc)
    case Leaving => op.phase.Active? && !Finishing(op.pc)
    case Finished => op.phase.Active? ==> Finishing(op.pc)
  }

  predicate IsPinned(s: State, c: nat) {
    c in s.conns && s.conns[c].word.pinned
  }

  predicate IsDiscarded(s: State, c: nat) {
    c in s.conns && s.conns[c].word.discarded
  }

  predicate IsReleased(s: State, c: nat) {
    c in s.conns && s.conns[c].word.released
  }

  /** The connection an operation works on is pinned, was handed out, and is discarded before any send. */
  predicate PinOk(s: State, o: nat)
    requires o in s.ops
  {
    var op := s.ops[o];
    && (PinOf(op).Some? ==> IsPinned(s, PinOf(op).value) && PinOf(op).value in s.published)
    && (op.pc.RegisterPin? ==> op.pc.conn in s.published)
    && (op.phase.Active? && op.conn.Some? && (op.pc.InterruptSend? || op.attempted) ==> IsDiscarded(s, op.conn.value))
  }

  ghost predicate OpsInv(s: State) {
    && (forall o :: o in s.ops ==> OpOk(s.ops[o]) && PinOk(s, o))
    && (forall o, p :: o in s.ops && p in s.ops && o != p && PinOf(s.ops[o]).Some? ==>
          PinOf(s.ops[o]) != PinOf(s.ops[p]))
  }

  ghost predicate ConnsInv(s: State) {
    && (forall c :: c in s.conns ==> c < s.nextConn && !(s.conns[c].word.pinned && s.conns[c].word.released))
    && (forall c :: c in s.published ==> c < s.nextConn)
    && (forall c: nat :: IsPinned(s, c) ==> exists o :: o in s.ops && PinOf(s.ops[o]) == Some(c))
  }

  /** Facts about one slot. */
  predicate SlotOk(s: State, i: nat)
    requires i < |s.slots|
  {
    var slot := s.slots[i];
    && SlotConn(s, i)
    && (!slot.inUse ==> slot.work.NoWork? && (slot.conn.Some? ==> IsReleased(s, slot.conn.value)))
    && (slot.work.Reconnecting? ==>
          slot.inUse && (slot.conn.Some? ==> IsReleased(s, slot.conn.value) && !Usable(s, i)))
    && (slot.work.Opening? || slot.work.Failed? ==> slot.inUse && slot.conn.None?)
    && (slot.work.Connected? ==>
          slot.inUse && slot.conn.Some? && s.conns[slot.conn.value].word == CLEAR && slot.conn.value !in s.published)
  }

  predicate InRelease(pc: PoolPc, l: nat) {
    (pc.ReleaseDiscard? || pc.ReleaseUndo? || pc.ReleaseDone?) && pc.lease == l
  }

  /** Facts about one lease. */
  predicate LeaseOk(s: State, l: nat)
    requires l in s.leases
  {
    var lease := s.leases[l];
    && l < s.nextLease && lease.slot < |s.slots| && lease.conn in s.published
    && s.slots[lease.slot].inUse && s.slots[lease.slot].work.NoWork? && s.slots[lease.slot].conn == Some(lease.conn)
    && (IsReleased(s, lease.conn) ==> InRelease(s.pool, l))
  }

  ghost predicate Unleased(s: State, i: nat) {
    forall l :: l in s.leases ==> s.leases[l].slot != i
  }

  /** A slot taken by the thread that holds the pool mutex. */
  ghost predicate Taken(s: State, i: nat) {
    && i < |s.slots| && s.slots[i].inUse && s.slots[i].work.NoWork? && Unleased(s, i)
    && (s.slots[i].conn.Some? ==> IsReleased(s, s.slots[i].conn.value))
  }

  ghost predicate Leased(s: State, i: nat, l: nat) {
    l in s.leases && s.leases[l].slot == i
  }

  ghost predicate PcOk(s: State) {
    match s.pool
    case Free => true
    case AcquireCheck(i) => Taken(s, i)
    case AcquireClaim(i) => Taken(s, i) && s.slots[i].conn.Some? && Usable(s, i)
    case AcquireDestroy(i) => Taken(s, i) && s.slots[i].conn.Some?
    case ReleaseLoad(i, holder) => ReleaseOk(s, i, holder)
    case ReleaseCas(i, holder, _) => ReleaseOk(s, i, holder)
    case ReleaseDiscard(i, l) => Leased(s, i, l) && IsReleased(s, s.leases[l].conn)
    case ReleaseUndo(i, l) => Leased(s, i, l) && IsReleased(s, s.leases[l].conn)
    case ReleaseDone(i, l) => Leased(s, i, l) && IsReleased(s, s.leases[l].conn)
  }

  ghost predicate ReleaseOk(s: State, i: nat, holder: Option<nat>) {
    && i < |s.slots| && s.slots[i].conn.Some?
    && if holder.Some? then Leased(s, i, holder.value) else !s.slots[i].inUse && !s.shuttingDown
  }

  ghost predicate SlotsInv(s: State) {
    && (forall i :: 0 <= i < |s.slots| ==> SlotOk(s, i))
    && (forall i, j :: 0 <= i < j < |s.slots| && s.slots[i].conn.Some? ==> s.slots[i].conn != s.slots[j].conn)
    && (s.shuttingDown ==> forall i :: 0 <= i < |s.slots| ==> !s.slots[i].inUse)
  }

  ghost predicate LeasesInv(s: State) {
    && (forall l :: l in s.leases ==> LeaseOk(s, l))
    && (forall l, m :: l in s.leases && m in s.leases && l != m ==> s.leases[l].slot != s.leases[m].slot)
  }

  ghost predicate PoolInv(s: State) {
    SlotsInv(s) && LeasesInv(s) && PcOk(s)
  }

  ghost predicate Inv(s: State) {
    OpsInv(s) && ConnsInv(s) && PoolInv(s)
  }

  lemma InitInv(s: State)
    requires Init(s)
    ensures Inv(s)
  {
  }

  // ---- Steps of operations ------------------------------------------------------------------

  lemma OpOkKept(s: State, step: Step)
    requires Enabled(s, step) && IsOpStep(step) && OpOk(s.ops[step.o])
    ensures OpOk(OpAfter(s, step))
  {
    if RegistersOrFinishes(step) { EndsOk(s, step); } else { ExecutionOk(s, step); }
  }

  predicate RegistersOrFinishes(step: Step) {
    step.RegisterLock? || step.RegisterPinStep? || step.RegisterCheckStep? || step.RegisterUnpinStep?
    || step.FinishLock? || step.FinishUnknownStep? || step.FinishLoadStep? || step.FinishDiscardStep?
    || step.FinishClearStep? || step.FinishUnpinStep?
  }

  lemma EndsOk(s: State, step: Step)
    requires RegistersOrFinishes(step) && Enabled(s, step) && OpOk(s.ops[step.o])
    ensures OpOk(OpAfter(s, step))
  {
    if step.RegisterCheckStep? { CheckOk(s, step); }
  }

  lemma CheckOk(s: State, step: Step)
    requires step.RegisterCheckStep? && Enabled(s, step) && OpOk(s.ops[step.o])
    ensures OpOk(OpAfter(s, step))
  {
  }

  lemma ExecutionOk(s: State, step: Step)
    requires IsOpStep(step) && !RegistersOrFinishes(step) && Enabled(s, step) && OpOk(s.ops[step.o])
    ensures OpOk(OpAfter(s, step))
  {
  }

  /** All that a step of an operation does to connections: the pool's view of released or unpublished
      connections stays. */
  ghost predicate OpEffect(s: State, t: State) {
    && t.slots == s.slots && t.leases == s.leases && t.pool == s.pool && t.shuttingDown == s.shuttingDown
    && t.published == s.published && t.nextConn == s.nextConn && t.nextLease == s.nextLease
    && t.conns.Keys == s.conns.Keys
    && forall c :: c in s.conns ==>
         t.conns[c] == s.conns[c] || (c in s.published && !s.conns[c].word.released && !t.conns[c].word.released)
  }

  lemma OpStepEffect(s: State, step: Step)
    requires Inv(s) && Enabled(s, step) && IsOpStep(step)
    ensures OpEffect(s, Next(s, step))
  {
    if TouchesWord(step) {
      assert PinOk(s, step.o) && OpOk(s.ops[step.o]);
      WordStepEffect(s, step);
    }
  }

  /** The steps of operations that access a lifecycle word: three change the pin, four discard. */
  predicate TouchesWord(step: Step) {
    ChangesPin(step) || Discards(step)
  }

  predicate ChangesPin(step: Step) {
    step.RegisterPinStep? || step.RegisterUnpinStep? || step.FinishUnpinStep?
  }

  predicate Discards(step: Step) {
    step.InterruptDiscardStep? || step.ExecutorDiscard? || step.FinishUnknownStep? || step.FinishDiscardStep?
  }

  lemma WordStepEffect(s: State, step: Step)
    requires ConnsInv(s) && Enabled(s, step) && IsOpStep(step) && TouchesWord(step)
    requires PinOk(s, step.o) && OpOk(s.ops[step.o])
    ensures OpEffect(s, Next(s, step))
  {
    if ChangesPin(step) { PinEffect(s, step); } else { DiscardEffect(s, step); }
  }

  lemma PinEffect(s: State, step: Step)
    requires ConnsInv(s) && ChangesPin(step) && Enabled(s, step) && PinOk(s, step.o) && OpOk(s.ops[step.o])
    ensures OpEffect(s, Next(s, step))
  {
  }

  lemma DiscardEffect(s: State, step: Step)
    requires ConnsInv(s) && Discards(step) && Enabled(s, step) && PinOk(s, step.o) && OpOk(s.ops[step.o])
    ensures OpEffect(s, Next(s, step))
  {
  }

  lemma PoolUnaffected(s: State, t: State)
    requires PoolInv(s) && OpEffect(s, t)
    ensures PoolInv(t)
  {
    forall i | 0 <= i < |t.slots| ensures SlotOk(t, i) { assert SlotOk(s, i); }
    forall l | l in t.leases ensures LeaseOk(t, l) { assert LeaseOk(s, l); }
  }

  /** What becomes of the one connection an operation's step may touch. */
  ghost predicate PinStep(s: State, t: State, o: nat)
    requires o in s.ops && o in t.ops
  {
    var before, after := PinOf(s.ops[o]), PinOf(t.ops[o]);
    && t.ops.Keys == s.ops.Keys && (forall p :: p in s.ops && p != o ==> t.ops[p] == s.ops[p])
    && (forall c :: c in s.conns && c in t.conns && Some(c) != before && Some(c) != after ==> t.conns[c] == s.conns[c])
    && (before.Some? && after.Some? ==> before == after)
    && (before.Some? ==> IsPinned(t, before.value) == after.Some?)
    && (after.Some? ==> IsPinned(t, after.value) && (before.None? ==> !IsPinned(s, after.value)))
    && (forall c :: c in s.conns && c in t.conns && s.conns[c].word.discarded ==> t.conns[c].word.discarded)
  }

  lemma PinMoves(s: State, step: Step)
    requires Inv(s) && Enabled(s, step) && IsOpStep(step)
    ensures step.o in Next(s, step).ops && PinStep(s, Next(s, step), step.o)
  {
    assert PinOk(s, step.o) && OpOk(s.ops[step.o]);
    if !TouchesWord(step) {
      OwnStep(s, step);
    } else if ChangesPin(step) {
      PinChange(s, step);
    } else {
      DiscardChange(s, step);
    }
  }

  lemma OwnStep(s: State, step: Step)
    requires Enabled(s, step) && IsOpStep(step) && !TouchesWord(step) && PinOk(s, step.o) && OpOk(s.ops[step.o])
    ensures step.o in Next(s, step).ops && PinStep(s, Next(s, step), step.o)
  {
    PinUnmoved(s, step);
    assert ConnsAfter(s, step) == s;
  }

  lemma PinUnmoved(s: State, step: Step)
    requires Enabled(s, step) && IsOpStep(step) && !TouchesWord(step) && OpOk(s.ops[step.o])
    ensures PinOf(OpAfter(s, step)) == PinOf(s.ops[step.o])
  {
  }

  lemma PinChange(s: State, step: Step)
    requires ChangesPin(step) && Enabled(s, step) && PinOk(s, step.o) && OpOk(s.ops[step.o])
    ensures step.o in Next(s, step).ops && PinStep(s, Next(s, step), step.o)
  {
    if step.RegisterPinStep? { PinSet(s, step); } else { PinCleared(s, step); }
  }

  lemma PinSet(s: State, step: Step)
    requires step.RegisterPinStep? && Enabled(s, step) && PinOk(s, step.o) && OpOk(s.ops[step.o])
    ensures step.o in Next(s, step).ops && PinStep(s, Next(s, step), step.o)
  {
    PinTaken(s, step);
  }

  lemma PinTaken(s: State, step: Step)
    requires step.RegisterPinStep? && Enabled(s, step) && OpOk(s.ops[step.o])
    ensures PinOf(s.ops[step.o]).None?
    ensures PinOf(OpAfter(s, step))
            == if s.conns[s.ops[step.o].pc.conn].word == CLEAR then Some(s.ops[step.o].pc.conn) else None
  {
  }

  lemma PinCleared(s: State, step: Step)
    requires step.RegisterUnpinStep? || step.FinishUnpinStep?
    requires Enabled(s, step) && PinOk(s, step.o) && OpOk(s.ops[step.o])
    ensures step.o in Next(s, step).ops && PinStep(s, Next(s, step), step.o)
  {
  }

  lemma DiscardChange(s: State, step: Step)
    requires Discards(step) && Enabled(s, step) && PinOk(s, step.o) && OpOk(s.ops[step.o])
    ensures step.o in Next(s, step).ops && PinStep(s, Next(s, step), step.o)
  {
    DiscardKeepsPin(s, step);
  }

  lemma DiscardKeepsPin(s: State, step: Step)
    requires Discards(step) && Enabled(s, step) && OpOk(s.ops[step.o])
    ensures PinOf(OpAfter(s, step)) == PinOf(s.ops[step.o]) == s.ops[step.o].conn
  {
  }

  lemma OpsKept(s: State, step: Step)
    requires Inv(s) && Enabled(s, step) && IsOpStep(step)
    ensures OpsInv(Next(s, step))
  {
    var t := Next(s, step);
    PinMoves(s, step);
    OpStepEffect(s, step);
    OpOkKept(s, step);
    assert PinOk(s, step.o) && OpOk(s.ops[step.o]);
    OwnPinKept(s, step);
    forall o | o in t.ops ensures OpOk(t.ops[o]) && PinOk(t, o) {
      if o != step.o { OtherPinKept(s, t, step.o, o); }
    }
    PinsStayApart(s, t, step.o);
  }

  lemma PinsStayApart(s: State, t: State, o: nat)
    requires OpsInv(s) && o in s.ops && o in t.ops && PinStep(s, t, o)
    ensures forall p, q :: p in t.ops && q in t.ops && p != q && PinOf(t.ops[p]).Some? ==>
              PinOf(t.ops[p]) != PinOf(t.ops[q])
  {
    forall p, q | p in t.ops && q in t.ops && p != q && PinOf(t.ops[p]).Some?
      ensures PinOf(t.ops[p]) != PinOf(t.ops[q])
    {
      assert PinOk(s, p) && PinOk(s, q);
    }
  }

  lemma OwnPinKept(s: State, step: Step)
    requires Enabled(s, step) && IsOpStep(step) && PinOk(s, step.o) && OpOk(s.ops[step.o])
    ensures step.o in Next(s, step).ops && PinOk(Next(s, step), step.o)
  {
    if !TouchesWord(step) {
      QuietPinKept(s, step);
    } else if ChangesPin(step) {
      ChangedPinKept(s, step);
    } else {
      DiscardedPinKept(s, step);
    }
  }

  lemma QuietPinKept(s: State, step: Step)
    requires Enabled(s, step) && IsOpStep(step) && !TouchesWord(step) && PinOk(s, step.o) && OpOk(s.ops[step.o])
    ensures step.o in Next(s, step).ops && PinOk(Next(s, step), step.o)
  {
    if RegistersOrFinishes(step) { QuietEndKept(s, step); } else { QuietExecutionKept(s, step); }
  }

  lemma QuietEndKept(s: State, step: Step)
    requires RegistersOrFinishes(step) && !TouchesWord(step)
    requires Enabled(s, step) && PinOk(s, step.o) && OpOk(s.ops[step.o])
    ensures step.o in Next(s, step).ops && PinOk(Next(s, step), step.o)
  {
  }

  lemma QuietExecutionKept(s: State, step: Step)
    requires IsOpStep(step) && !RegistersOrFinishes(step) && !TouchesWord(step)
    requires Enabled(s, step) && PinOk(s, step.o) && OpOk(s.ops[step.o])
    ensures step.o in Next(s, step).ops && PinOk(Next(s, step), step.o)
  {
  }

  lemma ChangedPinKept(s: State, step: Step)
    requires ChangesPin(step) && Enabled(s, step) && PinOk(s, step.o) && OpOk(s.ops[step.o])
    ensures step.o in Next(s, step).ops && PinOk(Next(s, step), step.o)
  {
  }

  lemma DiscardedPinKept(s: State, step: Step)
    requires Discards(step) && Enabled(s, step) && PinOk(s, step.o) && OpOk(s.ops[step.o])
    ensures step.o in Next(s, step).ops && PinOk(Next(s, step), step.o)
  {
  }

  lemma OtherPinKept(s: State, t: State, o: nat, p: nat)
    requires OpsInv(s) && o in s.ops && o in t.ops && p in s.ops && p != o
    requires PinStep(s, t, o) && OpEffect(s, t)
    ensures p in t.ops && OpOk(t.ops[p]) && PinOk(t, p)
  {
    assert PinOk(s, p) && OpOk(s.ops[p]);
  }

  lemma PinnedKept(s: State, step: Step)
    requires Inv(s) && Enabled(s, step) && IsOpStep(step)
    ensures ConnsInv(Next(s, step))
  {
    PinMoves(s, step);
    OpStepEffect(s, step);
    assert PinOk(s, step.o);
    PinsOwned(s, Next(s, step), step.o);
    NeverBoth(s, Next(s, step));
  }

  lemma PinsOwned(s: State, t: State, o: nat)
    requires ConnsInv(s) && o in s.ops && o in t.ops && PinStep(s, t, o) && OpEffect(s, t)
    ensures forall c: nat :: IsPinned(t, c) ==> exists p :: p in t.ops && PinOf(t.ops[p]) == Some(c)
  {
    forall c: nat | IsPinned(t, c) ensures exists p :: p in t.ops && PinOf(t.ops[p]) == Some(c) {
      if PinOf(t.ops[o]) != Some(c) {
        assert IsPinned(s, c);
        var p :| p in s.ops && PinOf(s.ops[p]) == Some(c);
        assert p in t.ops && PinOf(t.ops[p]) == Some(c);
      }
    }
  }

  lemma NeverBoth(s: State, t: State)
    requires ConnsInv(s) && OpEffect(s, t)
    ensures forall c :: c in t.conns ==> !(t.conns[c].word.pinned && t.conns[c].word.released)
  {
    forall c | c in t.conns ensures !(t.conns[c].word.pinned && t.conns[c].word.released) {
      assert !(s.conns[c].word.pinned && s.conns[c].word.released);
    }
  }

  // ---- Steps of the pool, of lessees and of the application ------------------------------------

  predicate IsPoolStep(step: Step) {
    !IsOpStep(step) && !step.CreateOp?
  }

  /** All that such a step does to connections: pins stay, discarded stays, no pinned connection goes. */
  ghost predicate PoolEffect(s: State, t: State) {
    && t.ops == s.ops && s.published <= t.published && s.nextConn <= t.nextConn
    && (forall c :: c in s.conns && c !in t.conns ==> !s.conns[c].word.pinned)
    && (forall c :: c in s.conns && c in t.conns ==>
          && t.conns[c].word.pinned == s.conns[c].word.pinned
          && (s.conns[c].word.discarded ==> t.conns[c].word.discarded)
          && (t.conns[c].word.released ==> !t.conns[c].word.pinned))
    && (forall c :: c in t.conns && c !in s.conns ==> c == s.nextConn < t.nextConn && t.conns[c].word == CLEAR)
    && (forall c :: c in t.published && c !in s.published ==> c < t.nextConn)
  }

  lemma OpsUnaffected(s: State, t: State)
    requires OpsInv(s) && ConnsInv(s) && PoolEffect(s, t)
    ensures OpsInv(t) && ConnsInv(t)
  {
    forall o | o in t.ops ensures OpOk(t.ops[o]) && PinOk(t, o) { assert OpOk(s.ops[o]) && PinOk(s, o); }
    forall c: nat | IsPinned(t, c) ensures exists o :: o in t.ops && PinOf(t.ops[o]) == Some(c) {
      assert IsPinned(s, c);
    }
  }

  lemma PoolStepEffect(s: State, step: Step)
    requires Inv(s) && Enabled(s, step) && IsPoolStep(step)
    ensures PoolEffect(s, Next(s, step))
  {
    if Acquires(step) {
      AcquireStepEffect(s, step);
    } else if Releases(step) {
      ReleaseStepEffect(s, step);
    } else {
      OtherStepEffect(s, step);
    }
  }

  lemma AcquireStepEffect(s: State, step: Step)
    requires ConnsInv(s) && Enabled(s, step) && Acquires(step)
    ensures PoolEffect(s, Next(s, step))
  {
    match step {
      case AcquireLock(_) => AcquireUnmoved(s, step);
      case AcquireCheckStep(_) => AcquireUnmoved(s, step);
      case AcquireClaimStep => ClaimEffect(s, step);
      case AcquireDestroyStep => AcquireDestroyEffect(s, step);
      case ReconnectStep(_) => ReconnectEffect(s, step);
      case OpenStep(_, _) => OpenEffect(s, step);
      case ReconnectLock(_) => ReconnectLockEffect(s, step);
    }
  }

  lemma ReleaseStepEffect(s: State, step: Step)
    requires ConnsInv(s) && Enabled(s, step) && Releases(step)
    ensures PoolEffect(s, Next(s, step))
  {
    match step {
      case ReleaseLock(_, _) => ReleaseUnmoved(s, step);
      case ReleaseLoadStep => ReleaseUnmoved(s, step);
      case ReleaseCasStep => ReleaseCasEffect(s, step);
      case ReleaseDiscardStep(_) => ReleaseEffect(s, step);
      case ReleaseUndoStep => ReleaseEffect(s, step);
      case ReleaseDoneStep => ReleaseUnmoved(s, step);
    }
  }

  lemma OtherStepEffect(s: State, step: Step)
    requires ConnsInv(s) && Enabled(s, step) && IsPoolStep(step) && !Acquires(step) && !Releases(step)
    ensures PoolEffect(s, Next(s, step))
  {
    match step {
      case DestroyLock => DestroyUnmoved(s, step);
      case TearDiscard(_) => TearEffect(s, step);
      case TearDestroy(_) => TearEffect(s, step);
      case LesseeDiscard(_) => LesseeEffect(s, step);
      case LesseeTransport(_, _) => LesseeEffect(s, step);
      case OpenStandalone => OpenEffect(s, step);
      case DestroyStandalone(_) => DestroyStandaloneEffect(s, step);
    }
  }

  /** Steps that only move threads and slots leave connections alone. */
  lemma AcquireUnmoved(s: State, step: Step)
    requires ConnsInv(s) && Enabled(s, step) && (step.AcquireLock? || step.AcquireCheckStep?)
    ensures PoolEffect(s, Next(s, step))
  {
    assert Next(s, step).conns == s.conns;
  }

  lemma ReleaseUnmoved(s: State, step: Step)
    requires ConnsInv(s) && Enabled(s, step)
    requires step.ReleaseLock? || step.ReleaseLoadStep? || step.ReleaseDoneStep?
    ensures PoolEffect(s, Next(s, step))
  {
    assert Next(s, step).conns == s.conns;
  }

  lemma DestroyUnmoved(s: State, step: Step)
    requires ConnsInv(s) && Enabled(s, step) && step.DestroyLock?
    ensures PoolEffect(s, Next(s, step))
  {
    assert Next(s, step).conns == s.conns;
  }

  lemma AcquireDestroyEffect(s: State, step: Step)
    requires ConnsInv(s) && Enabled(s, step) && step.AcquireDestroyStep?
    ensures PoolEffect(s, Next(s, step))
  {
  }

  lemma ReconnectEffect(s: State, step: Step)
    requires ConnsInv(s) && Enabled(s, step) && step.ReconnectStep?
    ensures PoolEffect(s, Next(s, step))
  {
  }

  lemma TearEffect(s: State, step: Step)
    requires ConnsInv(s) && Enabled(s, step) && (step.TearDiscard? || step.TearDestroy?)
    ensures PoolEffect(s, Next(s, step))
  {
  }

  lemma ClaimEffect(s: State, step: Step)
    requires ConnsInv(s) && Enabled(s, step) && step.AcquireClaimStep?
    ensures PoolEffect(s, Next(s, step))
  {
  }

  lemma ReconnectLockEffect(s: State, step: Step)
    requires ConnsInv(s) && Enabled(s, step) && step.ReconnectLock?
    ensures PoolEffect(s, Next(s, step))
  {
  }

  lemma ReleaseEffect(s: State, step: Step)
    requires ConnsInv(s) && Enabled(s, step) && (step.ReleaseDiscardStep? || step.ReleaseUndoStep?)
    ensures PoolEffect(s, Next(s, step))
  {
  }

  lemma ReleaseCasEffect(s: State, step: Step)
    requires ConnsInv(s) && Enabled(s, step) && step.ReleaseCasStep?
    ensures PoolEffect(s, Next(s, step))
  {
  }

  lemma LesseeEffect(s: State, step: Step)
    requires ConnsInv(s) && Enabled(s, step) && (step.LesseeDiscard? || step.LesseeTransport?)
    ensures PoolEffect(s, Next(s, step))
  {
  }

  lemma OpenEffect(s: State, step: Step)
    requires ConnsInv(s) && Enabled(s, step) && (step.OpenStep? || step.OpenStandalone?)
    ensures PoolEffect(s, Next(s, step))
  {
  }

  lemma DestroyStandaloneEffect(s: State, step: Step)
    requires ConnsInv(s) && Enabled(s, step) && step.DestroyStandalone?
    ensures PoolEffect(s, Next(s, step))
  {
  }

  /** The step works on one slot and its connection; whatever it hands out is that slot's connection. */
  ghost predicate OnlySlot(s: State, t: State, i: nat) {
    && |t.slots| == |s.slots| && i < |s.slots|
    && (forall j :: 0 <= j < |s.slots| && j != i ==> t.slots[j] == s.slots[j])
    && (t.slots[i].conn == s.slots[i].conn || t.slots[i].conn.None? || t.slots[i].conn == Some(s.nextConn))
    && (forall c :: c in s.conns && Some(c) != s.slots[i].conn ==> c in t.conns && t.conns[c] == s.conns[c])
    && (forall c :: c in t.published && c !in s.published ==> Some(c) == t.slots[i].conn)
    && t.shuttingDown == s.shuttingDown
  }

  lemma OtherSlots(s: State, t: State, i: nat)
    requires SlotsInv(s) && ConnsInv(s) && OnlySlot(s, t, i) && SlotOk(t, i)
    requires t.shuttingDown ==> !t.slots[i].inUse
    ensures SlotsInv(t)
  {
    forall j | 0 <= j < |t.slots| ensures SlotOk(t, j) {
      if j != i { OtherSlot(s, t, i, j); }
    }
    forall j, k | 0 <= j < k < |t.slots| && t.slots[j].conn.Some? ensures t.slots[j].conn != t.slots[k].conn {
      assert SlotOk(s, j) && SlotOk(s, k);
    }
  }

  lemma OtherSlot(s: State, t: State, i: nat, j: nat)
    requires SlotsInv(s) && ConnsInv(s) && OnlySlot(s, t, i) && j < |s.slots| && j != i
    ensures SlotOk(t, j)
  {
    assert SlotOk(s, j);
    assert s.slots[j].conn.Some? ==> s.slots[j].conn != s.slots[i].conn;
  }

  /** Leases of other slots are untouched; the slot itself has none, before or after. */
  lemma OtherLeases(s: State, t: State, i: nat)
    requires SlotsInv(s) && LeasesInv(s) && OnlySlot(s, t, i) && Unleased(s, i)
    requires t.leases == s.leases && t.nextLease == s.nextLease && s.published <= t.published
    requires forall l :: InRelease(s.pool, l) ==> InRelease(t.pool, l)
    ensures LeasesInv(t)
  {
    forall l | l in t.leases ensures LeaseOk(t, l) {
      assert LeaseOk(s, l) && SlotOk(s, s.leases[l].slot);
      assert s.slots[s.leases[l].slot].conn != s.slots[i].conn;
    }
  }

  lemma AcquireLockKeeps(s: State, step: Step)
    requires Inv(s) && Enabled(s, step) && step.AcquireLock?
    ensures PoolInv(Next(s, step))
  {
    var t, i := Next(s, step), step.i;
    assert SlotOk(s, i);
    forall l | l in s.leases ensures s.leases[l].slot != i { assert LeaseOk(s, l); }
    OtherSlots(s, t, i);
    OtherLeases(s, t, i);
  }

  lemma AcquireCheckKeeps(s: State, step: Step)
    requires Inv(s) && Enabled(s, step) && step.AcquireCheckStep?
    ensures PoolInv(Next(s, step))
  {
    var t, i := Next(s, step), s.pool.slot;
    assert SlotOk(s, i);
    OtherSlots(s, t, i);
    OtherLeases(s, t, i);
  }

  lemma AcquireDestroyKeeps(s: State, step: Step)
    requires Inv(s) && Enabled(s, step) && step.AcquireDestroyStep?
    ensures PoolInv(Next(s, step))
  {
    var t, i := Next(s, step), s.pool.slot;
    assert SlotOk(s, i);
    OtherSlots(s, t, i);
    OtherLeases(s, t, i);
  }

  /** A slot a thread works on outside the mutex is not leased, nor held by whoever has the mutex. */
  lemma WorkedOn(s: State, i: nat)
    requires PoolInv(s) && i < |s.slots| && !s.slots[i].work.NoWork?
    ensures s.slots[i].inUse && !s.shuttingDown && Unleased(s, i) && (!s.pool.Free? ==> s.pool.slot != i)
  {
    assert SlotOk(s, i);
    forall l | l in s.leases ensures s.leases[l].slot != i { assert LeaseOk(s, l); }
  }

  /** What the holder of the mutex relies on is not disturbed by work on another slot. */
  lemma OtherPc(s: State, t: State, i: nat)
    requires PoolInv(s) && OnlySlot(s, t, i) && (!s.pool.Free? ==> s.pool.slot != i)
    requires t.leases == s.leases && t.pool == s.pool
    ensures PcOk(t)
  {
    if !s.pool.Free? {
      assert s.pool.slot < |s.slots| by { forall l | l in s.leases ensures LeaseOk(s, l) {} }
      assert SlotOk(s, s.pool.slot);
      assert s.slots[s.pool.slot].conn.Some? ==> s.slots[s.pool.slot].conn != s.slots[i].conn;
      forall l | l in s.leases ensures LeaseOk(s, l) {}
    }
  }

  lemma ReconnectKeeps(s: State, step: Step)
    requires Inv(s) && Enabled(s, step) && step.ReconnectStep?
    ensures PoolInv(Next(s, step))
  {
    assert SlotOk(s, step.i);
    WorkKeeps(s, Next(s, step), step.i);
  }

  lemma OpenKeeps(s: State, step: Step)
    requires Inv(s) && Enabled(s, step) && step.OpenStep?
    ensures PoolInv(Next(s, step))
  {
    assert SlotOk(s, step.i);
    WorkKeeps(s, Next(s, step), step.i);
  }

  /** Work on a slot outside the mutex concerns nobody else. */
  lemma WorkKeeps(s: State, t: State, i: nat)
    requires PoolInv(s) && ConnsInv(s) && OnlySlot(s, t, i) && SlotOk(t, i) && !s.slots[i].work.NoWork?
    requires t.leases == s.leases && t.pool == s.pool && t.nextLease == s.nextLease && s.published <= t.published
    ensures PoolInv(t)
  {
    WorkedOn(s, i);
    OtherSlots(s, t, i);
    OtherLeases(s, t, i);
    OtherPc(s, t, i);
  }

  /** A slot handed out: one more lease, on a connection with a clear word. */
  lemma GrantKeeps(s: State, t: State, i: nat, c: nat)
    requires SlotsInv(s) && LeasesInv(s) && ConnsInv(s) && OnlySlot(s, t, i) && Unleased(s, i)
    requires t.slots[i] == Slot(Some(c), true, NoWork) && c in t.conns && !t.conns[c].word.released
    requires s.slots[i].conn == Some(c) && !s.shuttingDown
    requires t.leases == s.leases[s.nextLease := Lease(c, i)] && t.nextLease == s.nextLease + 1
    requires t.published == s.published + {c} && t.pool == Free && forall l :: !InRelease(s.pool, l)
    ensures PoolInv(t)
  {
    OtherSlots(s, t, i);
    forall l | l in t.leases ensures LeaseOk(t, l) {
      if l in s.leases && l != s.nextLease {
        assert LeaseOk(s, l) && SlotOk(s, s.leases[l].slot);
        assert s.slots[s.leases[l].slot].conn != s.slots[i].conn;
      }
    }
    forall l, m | l in t.leases && m in t.leases && l != m ensures t.leases[l].slot != t.leases[m].slot {
      if l in s.leases { assert LeaseOk(s, l); }
      if m in s.leases { assert LeaseOk(s, m); }
    }
  }

  lemma AcquireClaimKeeps(s: State, step: Step)
    requires Inv(s) && Enabled(s, step) && step.AcquireClaimStep?
    ensures PoolInv(Next(s, step))
  {
    var i := s.pool.slot;
    assert SlotOk(s, i);
    GrantKeeps(s, Next(s, step), i, s.slots[i].conn.value);
  }

  lemma ReconnectLockKeeps(s: State, step: Step)
    requires Inv(s) && Enabled(s, step) && step.ReconnectLock?
    ensures PoolInv(Next(s, step))
  {
    var t, i := Next(s, step), step.i;
    assert SlotOk(s, i);
    WorkedOn(s, i);
    if s.slots[i].work.Connected? {
      GrantKeeps(s, t, i, s.slots[i].conn.value);
    } else {
      OtherSlots(s, t, i);
      OtherLeases(s, t, i);
    }
  }

  /** A leased slot is in use and nobody else works on it. */
  lemma LeasedSlot(s: State, i: nat, l: nat)
    requires PoolInv(s) && Leased(s, i, l)
    ensures i < |s.slots| && s.slots[i] == Slot(Some(s.leases[l].conn), true, NoWork) && SlotOk(s, i) && LeaseOk(s, l)
    ensures !s.shuttingDown
  {
    assert LeaseOk(s, l);
    assert SlotOk(s, s.leases[l].slot);
  }

  /** Slots and leases do not notice the position of the mutex holder, unless a lease is being released. */
  lemma OnlyPc(s: State, t: State)
    requires PoolInv(s) && t == s.(pool := t.pool) && PcOk(t)
    requires forall l :: InRelease(s.pool, l) ==> InRelease(t.pool, l)
    ensures PoolInv(t)
  {
    forall i | 0 <= i < |t.slots| ensures SlotOk(t, i) { assert SlotOk(s, i); }
    forall l | l in t.leases ensures LeaseOk(t, l) { assert LeaseOk(s, l); }
  }

  lemma ReleaseStartKeeps(s: State, step: Step)
    requires Inv(s) && Enabled(s, step) && (step.ReleaseLock? || step.ReleaseLoadStep?)
    ensures PoolInv(Next(s, step))
  {
    OnlyPc(s, Next(s, step));
  }

  /** A step on the connection of a leased slot. */
  lemma LeasedConn(s: State, t: State, i: nat, l: nat)
    requires PoolInv(s) && ConnsInv(s) && Leased(s, i, l) && OnlySlot(s, t, i) && t.slots == s.slots
    requires t.leases == s.leases && t.nextLease == s.nextLease && s.published == t.published
    requires s.leases[l].conn in t.conns && (IsReleased(t, s.leases[l].conn) ==> InRelease(t.pool, l))
    requires forall m :: InRelease(s.pool, m) ==> m == l || InRelease(t.pool, m)
    ensures SlotsInv(t) && LeasesInv(t)
  {
    LeasedSlot(s, i, l);
    OtherSlots(s, t, i);
    forall m | m in t.leases ensures LeaseOk(t, m) {
      assert LeaseOk(s, m) && SlotOk(s, s.leases[m].slot);
      if m != l { assert s.slots[s.leases[m].slot].conn != s.slots[i].conn; }
    }
  }

  lemma ReleaseCasKeeps(s: State, step: Step)
    requires Inv(s) && Enabled(s, step) && step.ReleaseCasStep?
    ensures PoolInv(Next(s, step))
  {
    var t, i := Next(s, step), s.pool.slot;
    if t.pool.Free? {
      OnlyPc(s, t);
    } else {
      LeasedSlot(s, i, s.pool.holder.value);
      LeasedConn(s, t, i, s.pool.holder.value);
    }
  }

  lemma ReleaseDiscardKeeps(s: State, step: Step)
    requires Inv(s) && Enabled(s, step) && (step.ReleaseDiscardStep? || step.ReleaseUndoStep?)
    ensures PoolInv(Next(s, step))
  {
    LeasedSlot(s, s.pool.slot, s.pool.lease);
    LeasedConn(s, Next(s, step), s.pool.slot, s.pool.lease);
  }

  lemma ReleaseDoneKeeps(s: State, step: Step)
    requires Inv(s) && Enabled(s, step) && step.ReleaseDoneStep?
    ensures PoolInv(Next(s, step))
  {
    var t, i, l := Next(s, step), s.pool.slot, s.pool.lease;
    LeasedSlot(s, i, l);
    OtherSlots(s, t, i);
    forall m | m in t.leases ensures LeaseOk(t, m) { assert LeaseOk(s, m); }
  }

  lemma DestroyLockKeeps(s: State, step: Step)
    requires Inv(s) && Enabled(s, step) && step.DestroyLock?
    ensures PoolInv(Next(s, step))
  {
    var t := Next(s, step);
    forall i | 0 <= i < |t.slots| ensures SlotOk(t, i) { assert SlotOk(s, i); }
    forall l | l in t.leases ensures LeaseOk(t, l) { assert LeaseOk(s, l); }
  }

  lemma NoLease(s: State, l: nat)
    requires PoolInv(s) && s.shuttingDown
    ensures l !in s.leases
  {
    if l in s.leases { LeasedSlot(s, s.leases[l].slot, l); }
  }

  /** Once the pool shuts down, no slot is leased, worked on or held. */
  lemma ShutDown(s: State, i: nat)
    requires PoolInv(s) && s.shuttingDown && i < |s.slots|
    ensures s.leases == map[] && s.pool.Free? && s.slots[i].work.NoWork? && !s.slots[i].inUse
  {
    assert SlotOk(s, i);
    forall l ensures l !in s.leases { NoLease(s, l); }
  }

  lemma TearKeeps(s: State, step: Step)
    requires Inv(s) && Enabled(s, step) && (step.TearDiscard? || step.TearDestroy?)
    ensures PoolInv(Next(s, step))
  {
    ShutDown(s, step.i);
    assert SlotOk(s, step.i);
    OtherSlots(s, Next(s, step), step.i);
  }

  lemma LesseeKeeps(s: State, step: Step)
    requires Inv(s) && Enabled(s, step) && (step.LesseeDiscard? || step.LesseeTransport?)
    ensures PoolInv(Next(s, step))
  {
    var t, i, l := Next(s, step), s.leases[step.l].slot, step.l;
    LeasedSlot(s, i, l);
    LeasedConn(s, t, i, l);
    if !s.pool.Free? && s.pool.slot == i { HeldByLessee(s, i, l); } else { OtherPc(s, t, i); }
  }

  lemma HeldByLessee(s: State, i: nat, l: nat)
    requires PoolInv(s) && Leased(s, i, l) && !s.pool.Free? && s.pool.slot == i
    ensures s.pool.ReleaseLoad? || s.pool.ReleaseCas? || InRelease(s.pool, l)
  {
    LeasedSlot(s, i, l);
  }

  /** The step concerns connections outside the pool only. */
  ghost predicate Elsewhere(s: State, t: State) {
    && t.slots == s.slots && t.leases == s.leases && t.pool == s.pool && t.shuttingDown == s.shuttingDown
    && t.nextLease == s.nextLease && s.published <= t.published
    && (forall i :: 0 <= i < |s.slots| && s.slots[i].conn.Some? ==>
          var c := s.slots[i].conn.value;
          c in s.conns && c in t.conns && t.conns[c] == s.conns[c] && (c in t.published ==> c in s.published))
  }

  lemma PoolElsewhere(s: State, t: State)
    requires PoolInv(s) && Elsewhere(s, t)
    ensures PoolInv(t)
  {
    forall i | 0 <= i < |t.slots| ensures SlotOk(t, i) { assert SlotOk(s, i); }
    forall l | l in t.leases ensures LeaseOk(t, l) { assert LeaseOk(s, l); }
  }

  lemma OpenStandaloneKeeps(s: State, step: Step)
    requires PoolInv(s) && ConnsInv(s) && Enabled(s, step) && step.OpenStandalone?
    ensures PoolInv(Next(s, step))
  {
    var t := Next(s, step);
    forall i | 0 <= i < |s.slots| && s.slots[i].conn.Some?
      ensures var c := s.slots[i].conn.value; c in s.conns && c in t.conns && t.conns[c] == s.conns[c]
    {
      assert SlotOk(s, i);
    }
    PoolElsewhere(s, t);
  }

  lemma DestroyStandaloneKeeps(s: State, step: Step)
    requires PoolInv(s) && ConnsInv(s) && Enabled(s, step) && step.DestroyStandalone?
    ensures PoolInv(Next(s, step))
  {
    var t := Next(s, step);
    forall i | 0 <= i < |s.slots| && s.slots[i].conn.Some?
      ensures var c := s.slots[i].conn.value; c in s.conns && c in t.conns && t.conns[c] == s.conns[c]
    {
      assert SlotOk(s, i);
    }
    PoolElsewhere(s, t);
  }

  lemma PoolKept(s: State, step: Step)
    requires Inv(s) && Enabled(s, step) && IsPoolStep(step)
    ensures PoolInv(Next(s, step))
  {
    if Acquires(step) {
      AcquireKeeps(s, step);
    } else if Releases(step) {
      ReleaseKeeps(s, step);
    } else {
      OtherKeeps(s, step);
    }
  }

  lemma AcquireKeeps(s: State, step: Step)
    requires Inv(s) && Enabled(s, step) && Acquires(step)
    ensures PoolInv(Next(s, step))
  {
    if step.ReconnectStep? || step.OpenStep? || step.ReconnectLock? {
      ReopenKeeps(s, step);
    } else {
      match step {
        case AcquireLock(_) => AcquireLockKeeps(s, step);
        case AcquireCheckStep(_) => AcquireCheckKeeps(s, step);
        case AcquireClaimStep => AcquireClaimKeeps(s, step);
        case AcquireDestroyStep => AcquireDestroyKeeps(s, step);
      }
    }
  }

  lemma ReopenKeeps(s: State, step: Step)
    requires Inv(s) && Enabled(s, step) && (step.ReconnectStep? || step.OpenStep? || step.ReconnectLock?)
    ensures PoolInv(Next(s, step))
  {
    match step {
      case ReconnectStep(_) => ReconnectKeeps(s, step);
      case OpenStep(_, _) => OpenKeeps(s, step);
      case ReconnectLock(_) => ReconnectLockKeeps(s, step);
    }
  }

  lemma ReleaseKeeps(s: State, step: Step)
    requires Inv(s) && Enabled(s, step) && Releases(step)
    ensures PoolInv(Next(s, step))
  {
    if step.ReleaseLock? || step.ReleaseLoadStep? {
      ReleaseStartKeeps(s, step);
    } else if step.ReleaseCasStep? {
      ReleaseCasKeeps(s, step);
    } else if step.ReleaseDoneStep? {
      ReleaseDoneKeeps(s, step);
    } else {
      ReleaseDiscardKeeps(s, step);
    }
  }

  lemma OtherKeeps(s: State, step: Step)
    requires Inv(s) && Enabled(s, step) && IsPoolStep(step) && !Acquires(step) && !Releases(step)
    ensures PoolInv(Next(s, step))
  {
    match step {
      case DestroyLock => DestroyLockKeeps(s, step);
      case TearDiscard(_) => TearKeeps(s, step);
      case TearDestroy(_) => TearKeeps(s, step);
      case LesseeDiscard(_) => LesseeKeeps(s, step);
      case LesseeTransport(_, _) => LesseeKeeps(s, step);
      case OpenStandalone => OpenStandaloneKeeps(s, step);
      case DestroyStandalone(_) => DestroyStandaloneKeeps(s, step);
    }
  }

  lemma CreateKeeps(s: State, o: nat)
    requires Inv(s) && o !in s.ops
    ensures Inv(SetOp(s, o, NEW_OP))
  {
    var t := SetOp(s, o, NEW_OP);
    forall p | p in t.ops ensures OpOk(t.ops[p]) && PinOk(t, p) {
      if p != o { assert OpOk(s.ops[p]) && PinOk(s, p); }
    }
    OwnersStay(s, o);
    PoolUnaffected(s, t);
  }

  lemma OwnersStay(s: State, o: nat)
    requires ConnsInv(s) && o !in s.ops
    ensures ConnsInv(SetOp(s, o, NEW_OP))
  {
    var t := SetOp(s, o, NEW_OP);
    forall c: nat | IsPinned(t, c) ensures exists p :: p in t.ops && PinOf(t.ops[p]) == Some(c) {
      assert IsPinned(s, c);
      var p :| p in s.ops && PinOf(s.ops[p]) == Some(c);
      assert p in t.ops && PinOf(t.ops[p]) == Some(c);
    }
  }

  lemma StepKeepsInv(s: State, step: Step)
    requires Inv(s) && Enabled(s, step)
    ensures Inv(Next(s, step))
  {
    if step.CreateOp? {
      CreateKeeps(s, step.o);
    } else if IsOpStep(step) {
      OpsKept(s, step);
      PinnedKept(s, step);
      OpStepEffect(s, step);
      PoolUnaffected(s, Next(s, step));
    } else {
      PoolStepEffect(s, step);
      OpsUnaffected(s, Next(s, step));
      PoolKept(s, step);
    }
  }

  // ---- Runs ---------------------------------------------------------------------------------

  /** A run of the system: any interleaving of enabled steps from a freshly created pool. */
  ghost predicate Run(states: seq<State>, steps: seq<Step>) {
    |states| == |steps| + 1 && Init(states[0]) && forall k :: 0 <= k < |steps| ==> StepAt(states, steps, k)
  }

  ghost predicate StepAt(states: seq<State>, steps: seq<Step>, k: nat)
    requires k < |steps| < |states|
  {
    Enabled(states[k], steps[k]) && states[k + 1] == Next(states[k], steps[k])
  }

  lemma {:induction false} RunKeepsInv(states: seq<State>, steps: seq<Step>, k: nat)
    requires Run(states, steps) && k < |states|
    ensures Inv(states[k])
  {
    if k == 0 {
      InitInv(states[0]);
    } else {
      RunKeepsInv(states, steps, k - 1);
      assert StepAt(states, steps, k - 1);
      StepKeepsInv(states[k - 1], steps[k - 1]);
    }
  }

  /** In every reachable state a connection is never pinned and released at once, has at most one active
      operation, which can rely on it to exist and be pinned, and at most one lessee. */
  lemma Exclusion(states: seq<State>, steps: seq<Step>, k: nat)
    requires Run(states, steps) && k < |states|
    ensures var s := states[k];
            && (forall c: nat :: !(IsPinned(s, c) && IsReleased(s, c)))
            && (forall o :: o in s.ops && s.ops[o].phase.Active? ==> ConnOf(s, o) && IsPinned(s, s.ops[o].conn.value))
            && (forall o, p ::
                  o in s.ops && p in s.ops && o != p && s.ops[o].phase.Active? && s.ops[p].phase.Active? ==>
                  s.ops[o].conn != s.ops[p].conn)
            && (forall l, m :: l in s.leases && m in s.leases && l != m ==> s.leases[l].conn != s.leases[m].conn)
            && (forall c: nat :: IsPinned(s, c) ==> exists o :: o in s.ops && PinOf(s.ops[o]) == Some(c))
  {
    var s := states[k];
    RunKeepsInv(states, steps, k);
    forall o | o in s.ops && s.ops[o].phase.Active? ensures ConnOf(s, o) && IsPinned(s, s.ops[o].conn.value) {
      assert OpOk(s.ops[o]) && PinOk(s, o);
    }
    forall l, m | l in s.leases && m in s.leases && l != m ensures s.leases[l].conn != s.leases[m].conn {
      assert LeaseOk(s, l) && LeaseOk(s, m);
    }
  }

  /** In every reachable state the connection of an idle slot exists, is marked released and is not pinned,
      every connection a thread inside the pool works on exists, and after shutdown no slot is in use: no
      reconnecting thread finds the pool shut down. */
  lemma IdleAndShutdown(states: seq<State>, steps: seq<Step>, k: nat)
    requires Run(states, steps) && k < |states|
    ensures var s := states[k];
            && (forall i :: 0 <= i < |s.slots| ==> SlotConn(s, i))
            && (forall i :: 0 <= i < |s.slots| && !s.slots[i].inUse && s.slots[i].conn.Some? ==>
                  IsReleased(s, s.slots[i].conn.value) && !IsPinned(s, s.slots[i].conn.value))
            && (s.shuttingDown ==> forall i :: 0 <= i < |s.slots| ==> !s.slots[i].inUse && s.slots[i].work.NoWork?)
            && (s.shuttingDown ==> forall i :: !Enabled(s, ReconnectLock(i)))
  {
    var s := states[k];
    RunKeepsInv(states, steps, k);
    forall i | 0 <= i < |s.slots| ensures SlotConn(s, i) { assert SlotOk(s, i); }
    forall i | 0 <= i < |s.slots| && !s.slots[i].inUse && s.slots[i].conn.Some?
      ensures IsReleased(s, s.slots[i].conn.value) && !IsPinned(s, s.slots[i].conn.value)
    {
      assert SlotOk(s, i);
    }
    if s.shuttingDown {
      forall i | 0 <= i < |s.slots| ensures !s.slots[i].inUse && s.slots[i].work.NoWork? { ShutDown(s, i); }
    }
  }

  /** The step destroys the connection of this slot. */
  predicate Destroys(s: State, step: Step, i: nat) {
    || (step.AcquireDestroyStep? && s.pool.AcquireDestroy? && s.pool.slot == i)
    || (step == ReconnectStep(i)) || (step == TearDestroy(i))
  }

  /** Wherever the pool closes and destroys a connection, the guard against pinned connections is never
      hit, so the connection does go; and a thread that left the mutex to reconnect never finds its old
      connection fit for use after all. */
  lemma DestructionSucceeds(states: seq<State>, steps: seq<Step>, k: nat, i: nat)
    requires Run(states, steps) && k < |steps| && Destroys(states[k], steps[k], i) && i < |states[k].slots|
    requires states[k].slots[i].conn.Some?
    ensures states[k].slots[i].conn.value !in states[k + 1].conns
    ensures i < |states[k + 1].slots| && states[k + 1].slots[i].conn.None?
  {
    RunKeepsInv(states, steps, k);
    assert StepAt(states, steps, k);
    UnpinnedIsDestroyed(states[k], steps[k], i);
  }

  lemma UnpinnedIsDestroyed(s: State, step: Step, i: nat)
    requires Inv(s) && Enabled(s, step) && Destroys(s, step, i) && i < |s.slots| && s.slots[i].conn.Some?
    ensures s.slots[i].conn.value !in Next(s, step).conns && Next(s, step).slots[i].conn.None?
  {
    NotPinned(s, step, i);
    assert SlotOk(s, i);
  }

  lemma NotPinned(s: State, step: Step, i: nat)
    requires Inv(s) && Enabled(s, step) && Destroys(s, step, i) && i < |s.slots| && s.slots[i].conn.Some?
    ensures s.slots[i].conn.value in s.conns && !IsPinned(s, s.slots[i].conn.value)
  {
    assert SlotOk(s, i);
    if s.shuttingDown { ShutDown(s, i); }
  }

  // ---- Discarded connections ----------------------------------------------------------------

  lemma DiscardedStays(s: State, step: Step, c: nat)
    requires Inv(s) && Enabled(s, step) && c < s.nextConn && (c in s.conns ==> s.conns[c].word.discarded)
    ensures var t := Next(s, step); c < t.nextConn && (c in t.conns ==> t.conns[c].word.discarded)
  {
    if IsOpStep(step) {
      PinMoves(s, step);
      OpStepEffect(s, step);
    } else if IsPoolStep(step) {
      PoolStepEffect(s, step);
    }
  }

  /** Once discarded, a connection stays discarded for as long as it exists, and its identity is not reused. */
  lemma {:induction false} DiscardedForever(states: seq<State>, steps: seq<Step>, j: nat, k: nat, c: nat)
    requires Run(states, steps) && j <= k < |states| && IsDiscarded(states[j], c)
    ensures c < states[k].nextConn && (c in states[k].conns ==> states[k].conns[c].word.discarded)
  {
    RunKeepsInv(states, steps, j);
    if j < k {
      DiscardedForever(states, steps, j, k - 1, c);
      RunKeepsInv(states, steps, k - 1);
      assert StepAt(states, steps, k - 1);
      DiscardedStays(states[k - 1], steps[k - 1], c);
    }
  }

  /** Acquire hands out a connection whose lifecycle word is clear: neither released, pinned nor discarded. */
  lemma GrantIsClear(s: State, step: Step, l: nat)
    requires Inv(s) && Enabled(s, step) && l !in s.leases && l in Next(s, step).leases
    ensures var t := Next(s, step); t.leases[l].conn in t.conns && t.conns[t.leases[l].conn].word == CLEAR
  {
    OnlyGrantsLease(s, step, l);
    if step.AcquireClaimStep? { ClaimIsClear(s, step, l); } else { ReconnectIsClear(s, step, l); }
  }

  lemma OnlyGrantsLease(s: State, step: Step, l: nat)
    requires Inv(s) && Enabled(s, step) && l !in s.leases && l in Next(s, step).leases
    ensures step.AcquireClaimStep? || step.ReconnectLock?
  {
    if IsOpStep(step) {
      OpStepEffect(s, step);
    } else if Acquires(step) {
      AcquireGrants(s, step, l);
    } else if Releases(step) {
      ReleaseGrantsNone(s, step, l);
    }
  }

  lemma AcquireGrants(s: State, step: Step, l: nat)
    requires Enabled(s, step) && Acquires(step) && l !in s.leases && l in AcquireAfter(s, step).leases
    ensures step.AcquireClaimStep? || step.ReconnectLock?
  {
  }

  lemma ReleaseGrantsNone(s: State, step: Step, l: nat)
    requires Enabled(s, step) && Releases(step) && l !in s.leases
    ensures l !in ReleaseAfter(s, step).leases
  {
  }

  lemma ClaimIsClear(s: State, step: Step, l: nat)
    requires Inv(s) && Enabled(s, step) && step.AcquireClaimStep? && l !in s.leases && l in Next(s, step).leases
    ensures var t := Next(s, step); t.leases[l].conn in t.conns && t.conns[t.leases[l].conn].word == CLEAR
  {
    assert SlotOk(s, s.pool.slot);
  }

  lemma ReconnectIsClear(s: State, step: Step, l: nat)
    requires Inv(s) && Enabled(s, step) && step.ReconnectLock? && l !in s.leases && l in Next(s, step).leases
    ensures var t := Next(s, step); t.leases[l].conn in t.conns && t.conns[t.leases[l].conn].word == CLEAR
  {
    assert SlotOk(s, step.i);
  }

  /** A discarded connection is never leased again, and no operation is accepted on it. */
  lemma NeverReused(states: seq<State>, steps: seq<Step>, j: nat, k: nat, c: nat)
    requires Run(states, steps) && j <= k < |steps| && IsDiscarded(states[j], c)
    ensures StepAt(states, steps, k)
    ensures forall l :: l in states[k + 1].leases && l !in states[k].leases ==> states[k + 1].leases[l].conn != c
    ensures forall o :: steps[k] == RegisterPinStep(o) && states[k].ops[o].pc.conn == c ==>
              states[k + 1].ops[o] == states[k].ops[o].(pc := Unlocked) && states[k + 1].conns == states[k].conns
  {
    RunKeepsInv(states, steps, k);
    assert StepAt(states, steps, k);
    DiscardedForever(states, steps, j, k, c);
    DiscardedForever(states, steps, j, k + 1, c);
    forall l | l in states[k + 1].leases && l !in states[k].leases ensures states[k + 1].leases[l].conn != c {
      GrantIsClear(states[k], steps[k], l);
    }
  }

  // ---- Interrupts ---------------------------------------------------------------------------

  /** The order of the executing thread: it arms and finishes active operations only, so neither call is
      ever refused, and it arms a prepared operation after EXECUTE was written and not before. */
  lemma ExecutorOrder(states: seq<State>, steps: seq<Step>, k: nat, o: nat)
    requires Run(states, steps) && k < |states| && o in states[k].ops
    ensures var op := states[k].ops[o];
            && (op.executor.Written? ==> op.phase.Active? && !op.armed && op.written)
            && (op.executor.Leaving? ==> op.phase.Active?)
            && (op.byPrepare && op.armed ==> op.written)
  {
    RunKeepsInv(states, steps, k);
    assert OpOk(states[k].ops[o]);
  }

  /** An operation sends at most one interrupt, and whenever its mutex is free it has done so exactly if
      it was both requested and armed. */
  lemma InterruptOnce(states: seq<State>, steps: seq<Step>, k: nat, o: nat)
    requires Run(states, steps) && k < |states| && o in states[k].ops
    ensures var op := states[k].ops[o];
            && op.sends <= 1 && (op.attempted <==> op.sends == 1)
            && (op.pc.Unlocked? ==> (op.attempted <==> op.requested && op.armed))
  {
    RunKeepsInv(states, steps, k);
    assert OpOk(states[k].ops[o]);
  }

  /** An interrupt is sent only while the operation is active and its connection pinned, with the
      connection already discarded, and on the prepare path only after EXECUTE has been written. */
  lemma InterruptWhilePinned(states: seq<State>, steps: seq<Step>, k: nat, o: nat)
    requires Run(states, steps) && k < |steps| && o in states[k].ops && o in states[k + 1].ops
    requires states[k + 1].ops[o].sends != states[k].ops[o].sends
    ensures var s, op := states[k], states[k].ops[o];
            && op.phase.Active? && ConnOf(s, o) && IsPinned(s, op.conn.value) && IsDiscarded(s, op.conn.value)
            && op.sends == 0 && (op.byPrepare ==> op.written)
  {
    RunKeepsInv(states, steps, k);
    assert OpOk(states[k].ops[o]) && PinOk(states[k], o);
    assert StepAt(states, steps, k);
    OnlySendCounts(states[k], steps[k], o);
  }

  lemma OnlySendCounts(s: State, step: Step, o: nat)
    requires Inv(s) && Enabled(s, step) && o in s.ops && o in Next(s, step).ops
    requires Next(s, step).ops[o].sends != s.ops[o].sends
    ensures step == InterruptSendStep(o)
  {
    if IsPoolStep(step) { PoolStepEffect(s, step); }
    if IsOpStep(step) {
      OneOp(s, step);
      SendsCounted(s, step);
    }
  }

  /** An operation's step changes no other operation. */
  lemma OneOp(s: State, step: Step)
    requires Enabled(s, step) && IsOpStep(step)
    ensures Next(s, step).ops == s.ops[step.o := OpAfter(s, step)]
  {
    assert ConnsAfter(s, step).ops == s.ops;
  }

  lemma SendsCounted(s: State, step: Step)
    requires Enabled(s, step) && IsOpStep(step)
    ensures OpAfter(s, step).sends == s.ops[step.o].sends + if step.InterruptSendStep? then 1 else 0
  {
    if RegistersOrFinishes(step) { EndsSendNothing(s, step); } else { ExecutionSends(s, step); }
  }

  lemma EndsSendNothing(s: State, step: Step)
    requires RegistersOrFinishes(step) && Enabled(s, step)
    ensures OpAfter(s, step).sends == s.ops[step.o].sends
  {
    match step {
      case RegisterLock(_, _, _) =>
      case RegisterPinStep(_) =>
      case RegisterCheckStep(_, _) =>
      case RegisterUnpinStep(_) =>
      case FinishLock(_, _) =>
      case FinishUnknownStep(_) =>
      case FinishLoadStep(_) =>
      case FinishDiscardStep(_) =>
      case FinishClearStep(_) =>
      case FinishUnpinStep(_) =>
    }
  }

  lemma ExecutionSends(s: State, step: Step)
    requires IsOpStep(step) && !RegistersOrFinishes(step) && Enabled(s, step)
    ensures OpAfter(s, step).sends == s.ops[step.o].sends + if step.InterruptSendStep? then 1 else 0
  {
  }

  // ---- A run that leases, executes and interrupts -----------------------------------------------

  /** A pool of one slot, whose connection 0 is leased once the given pool position is Free again. */
  function OneSlot(word: Word, inUse: bool, pool: PoolPc, ops: map<nat, Op>, leased: bool): State {
    State(map[0 := Conn(word, true)], ops, [Slot(Some(0), inUse, NoWork)], false, pool,
          if leased then map[0 := Lease(0, 0)] else map[], if leased then {0} else {}, 1, if leased then 1 else 0)
  }

  function Working(phase: Phase, armed: bool, requested: bool, attempted: bool, written: bool, pc: OpPc): Op {
    Op(phase, if phase.Active? then Some(0) else None, armed, requested, attempted, if attempted then 1 else 0,
       phase.Active?, written,
       if phase.Fresh? then Idle else if armed then Responding else if written then Written else Writing, pc)
  }

  function Leased1(word: Word, op: Op): State {
    OneSlot(word, true, Free, map[0 := op], true)
  }

  const PINNED: Word := Word(true, false, false)
  const RELEASED: Word := Word(false, false, true)

  function RunState(k: nat): State {
    match k
    case 0 => OneSlot(RELEASED, false, Free, map[], false)
    case 1 => OneSlot(RELEASED, true, AcquireCheck(0), map[], false)
    case 2 => OneSlot(RELEASED, true, AcquireClaim(0), map[], false)
    case 3 => OneSlot(CLEAR, true, Free, map[], true)
    case 4 => Leased1(CLEAR, Working(Fresh, false, false, false, false, Unlocked))
    case 5 => Leased1(CLEAR, Working(Fresh, false, false, false, false, RegisterPin(0, false)))
    case 6 => Leased1(PINNED, Working(Fresh, false, false, false, false, RegisterCheck(0, false)))
    case 7 => Leased1(PINNED, Working(Active, false, false, false, false, Unlocked))
    case 8 => Leased1(PINNED, Working(Active, false, false, false, true, Unlocked))
    case 9 => Leased1(PINNED, Working(Active, true, false, false, true, Unlocked))
    case 10 => Leased1(PINNED, Working(Active, true, true, false, true, InterruptDiscard))
    case 11 => Leased1(Word(true, true, false), Working(Active, true, true, false, true, InterruptSend))
    case _ => Leased1(Word(true, true, false), Working(Active, true, true, true, true, Unlocked))
  }

  function RunStep(k: nat): Step {
    match k
    case 0 => AcquireLock(0)
    case 1 => AcquireCheckStep(true)
    case 2 => AcquireClaimStep
    case 3 => CreateOp(0)
    case 4 => RegisterLock(0, 0, false)
    case 5 => RegisterPinStep(0)
    case 6 => RegisterCheckStep(0, true)
    case 7 => WriteExecute(0, true)
    case 8 => ArmLock(0)
    case 9 => RequestLock(0)
    case 10 => InterruptDiscardStep(0)
    case _ => InterruptSendStep(0)
  }

  lemma AcquireFollows(k: nat)
    requires k < 4
    ensures Enabled(RunState(k), RunStep(k)) && RunState(k + 1) == Next(RunState(k), RunStep(k))
  {
    assert k in {0, 1, 2, 3};
  }

  lemma RegisterFollows(k: nat)
    requires 4 <= k < 8
    ensures Enabled(RunState(k), RunStep(k)) && RunState(k + 1) == Next(RunState(k), RunStep(k))
  {
    assert k in {4, 5, 6, 7};
  }

  lemma ArmingFollows(k: nat)
    requires 8 <= k < 10
    ensures Enabled(RunState(k), RunStep(k)) && RunState(k + 1) == Next(RunState(k), RunStep(k))
  {
    assert k in {8, 9};
  }

  lemma InterruptFollows(k: nat)
    requires 10 <= k < 12
    ensures Enabled(RunState(k), RunStep(k)) && RunState(k + 1) == Next(RunState(k), RunStep(k))
  {
    assert k in {10, 11};
  }

  /** Acquire, prepare, write, arm, request: the run ends with one interrupt sent on the leased connection,
      which is then pinned and discarded. */
  lemma InterruptHappens() returns (states: seq<State>, steps: seq<Step>)
    ensures Run(states, steps) && |steps| == 12
    ensures var s := states[12];
            && s.leases == map[0 := Lease(0, 0)] && 0 in s.ops && s.ops[0].sends == 1 && s.ops[0].phase.Active?
            && IsPinned(s, 0) && IsDiscarded(s, 0)
  {
    states := seq(13, k requires 0 <= k < 13 => RunState(k));
    steps := seq(12, k requires 0 <= k < 12 => RunStep(k));
    forall k | 0 <= k < 12 ensures StepAt(states, steps, k) {
      if k < 4 {
        AcquireFollows(k);
      } else if k < 8 {
        RegisterFollows(k);
      } else if k < 10 {
        ArmingFollows(k);
      } else {
        InterruptFollows(k);
      }
    }
  }
}
