/** Connection pool and cancelable operations as one system of interleaved atomic steps
    (src/sqli_pool.c, src/sqli_cancel_posix.c, src/sqli_conn.c:411-431, src/sqli_prepare.c:1332-1348 and
    1477-1522). Any number of threads take part: every critical section keeps its own position, each access
    to a connection's lifecycle word is a step of its own, and whatever a step's outcome depends on outside
    the system (sockets, transports, servers) is a parameter of the step. */
module Lease {

  datatype Option<+T> = None | Some(value: T)

  /** The atomic lifecycle word. */
  datatype Word = Word(pinned: bool, discarded: bool, released: bool)

  const CLEAR: Word := Word(false, false, false)

  /** ready stands for a usable transport: state READY and an open socket. */
  datatype Conn = Conn(word: Word, ready: bool)

  // ---- Operations ---------------------------------------------------------------------------

  datatype Phase = Fresh | Active | Terminal

  /** Where the holder of an operation's mutex stands; Unlocked if nobody holds it. */
  datatype OpPc =
    | Unlocked
    | RegisterPin(conn: nat, arm: bool)
    | RegisterCheck(conn: nat, arm: bool)
    | RegisterUnpin(conn: nat)
    | InterruptDiscard
    | InterruptSend
    | FinishUnknown
    | FinishLoad
    | FinishDiscard
    | FinishClear
    | FinishUnpin(conn: nat)

  /** Where the executing thread stands: writing the request, with the whole EXECUTE group written, reading
      the response, or on its way to finish. */
  datatype Executor = Idle | Writing | Written | Responding | Leaving | Finished

  /** sends counts urgent sends; byPrepare tells the two ways to register apart, and written records
      whether the whole EXECUTE group has been sent. */
  datatype Op = Op(phase: Phase, conn: Option<nat>, armed: bool, requested: bool, attempted: bool,
                   sends: nat, byPrepare: bool, written: bool, executor: Executor, pc: OpPc)

  const NEW_OP: Op := Op(Fresh, None, false, false, false, 0, false, false, Idle, Unlocked)

  /** The connection this operation keeps pinned. */
  function PinOf(op: Op): Option<nat> {
    if op.phase.Active? then op.conn
    else match op.pc
      case RegisterCheck(c, _) => Some(c)
      case RegisterUnpin(c) => Some(c)
      case FinishUnpin(c) => Some(c)
      case _ => None
  }

  // ---- Pool ---------------------------------------------------------------------------------

  /** What an acquiring thread does with its slot while it does not hold the pool mutex. */
  datatype Work = NoWork | Reconnecting | Opening | Connected | Failed

  datatype Slot = Slot(conn: Option<nat>, inUse: bool, work: Work)

  /** Where the holder of the pool mutex stands. */
  datatype PoolPc =
    | Free
    | AcquireCheck(slot: nat)
    | AcquireClaim(slot: nat)
    | AcquireDestroy(slot: nat)
    | ReleaseLoad(slot: nat, holder: Option<nat>)
    | ReleaseCas(slot: nat, holder: Option<nat>, expected: Word)
    | ReleaseDiscard(slot: nat, lease: nat)
    | ReleaseUndo(slot: nat, lease: nat)
    | ReleaseDone(slot: nat, lease: nat)

  /** A lease is one successful acquire that has not been released. */
  datatype Lease = Lease(conn: nat, slot: nat)

  datatype State = State(
    conns: map<nat, Conn>,
    ops: map<nat, Op>,
    slots: seq<Slot>,
    shuttingDown: bool,
    pool: PoolPc,
    leases: map<nat, Lease>,
    published: set<nat>,
    nextConn: nat,
    nextLease: nat)

  /** A pool as it is created: every slot idle, with a connection of its own marked as released. */
  ghost predicate Init(s: State) {
    && s.ops == map[] && !s.shuttingDown && s.pool == Free && s.leases == map[] && s.published == {}
    && (forall c :: c in s.conns ==> c < s.nextConn && s.conns[c] == Conn(Word(false, false, true), true))
    && (forall i :: 0 <= i < |s.slots| ==>
          s.slots[i].conn.Some? && !s.slots[i].inUse && s.slots[i].work.NoWork? && s.slots[i].conn.value in s.conns)
    && (forall i, j :: 0 <= i < j < |s.slots| ==> s.slots[i].conn != s.slots[j].conn)
  }

  // ---- Steps --------------------------------------------------------------------------------

  /** o is an operation, c a connection, i a slot, l a lease. */
  datatype Step =
    | CreateOp(o: nat)
    | RegisterLock(o: nat, c: nat, arm: bool)
    | RegisterPinStep(o: nat)
    | RegisterCheckStep(o: nat, tcp: bool)
    | RegisterUnpinStep(o: nat)
    | WriteExecute(o: nat, sent: bool)
    | ArmLock(o: nat)
    | LeaveResponse(o: nat)
    | RequestLock(o: nat)
    | InterruptDiscardStep(o: nat)
    | InterruptSendStep(o: nat)
    | ExecutorDiscard(o: nat)
    | FinishLock(o: nat, unknown: bool)
    | FinishUnknownStep(o: nat)
    | FinishLoadStep(o: nat)
    | FinishDiscardStep(o: nat)
    | FinishClearStep(o: nat)
    | FinishUnpinStep(o: nat)
    | AcquireLock(i: nat)
    | AcquireCheckStep(alive: bool)
    | AcquireClaimStep
    | AcquireDestroyStep
    | ReconnectStep(i: nat)
    | OpenStep(i: nat, connected: bool)
    | ReconnectLock(i: nat)
    | ReleaseLock(i: nat, holder: Option<nat>)
    | ReleaseLoadStep
    | ReleaseCasStep
    | ReleaseDiscardStep(ok: bool)
    | ReleaseUndoStep
    | ReleaseDoneStep
    | DestroyLock
    | TearDiscard(i: nat)
    | TearDestroy(i: nat)
    | LesseeDiscard(l: nat)
    | LesseeTransport(l: nat, ready: bool)
    | OpenStandalone
    | DestroyStandalone(c: nat)

  predicate HasSlot(s: State, i: nat) {
    i < |s.slots|
  }

  predicate InSlot(s: State, c: nat) {
    exists i :: 0 <= i < |s.slots| && s.slots[i].conn == Some(c)
  }

  /** Steps of operations and their executing threads. */
  predicate IsOpStep(step: Step) {
    step.RegisterLock? || step.RegisterPinStep? || step.RegisterCheckStep? || step.RegisterUnpinStep?
    || step.WriteExecute? || step.ArmLock? || step.LeaveResponse? || step.RequestLock? || step.InterruptDiscardStep?
    || step.InterruptSendStep? || step.ExecutorDiscard? || step.FinishLock? || step.FinishUnknownStep?
    || step.FinishLoadStep? || step.FinishDiscardStep? || step.FinishClearStep? || step.FinishUnpinStep?
  }

  /** Steps by which a thread comes to a lease. */
  predicate Acquires(step: Step) {
    step.AcquireLock? || step.AcquireCheckStep? || step.AcquireClaimStep? || step.AcquireDestroyStep?
    || step.ReconnectStep? || step.OpenStep? || step.ReconnectLock?
  }

  /** Steps by which a lease is given back. */
  predicate Releases(step: Step) {
    step.ReleaseLock? || step.ReleaseLoadStep? || step.ReleaseCasStep? || step.ReleaseDiscardStep?
    || step.ReleaseUndoStep? || step.ReleaseDoneStep?
  }

  /** When a step can be taken. Registering demands a connection that was handed out and still exists;
      releasing demands the lease, or else a connection whose slot is idle. */
  predicate Enabled(s: State, step: Step) {
    if IsOpStep(step) then OpEnabled(s, step)
    else if Acquires(step) then AcquireEnabled(s, step)
    else if Releases(step) then ReleaseEnabled(s, step)
    else OtherEnabled(s, step)
  }

  predicate OpEnabled(s: State, step: Step) {
    match step
    case RegisterLock(o, c, arm) => o in s.ops && s.ops[o].pc.Unlocked? && s.ops[o].phase.Fresh? && c in s.published
    case RegisterPinStep(o) => o in s.ops && s.ops[o].pc.RegisterPin? && s.ops[o].pc.conn in s.conns
    case RegisterCheckStep(o, tcp) => o in s.ops && s.ops[o].pc.RegisterCheck?
    case RegisterUnpinStep(o) => o in s.ops && s.ops[o].pc.RegisterUnpin? && s.ops[o].pc.conn in s.conns
    case WriteExecute(o, sent) => o in s.ops && s.ops[o].executor.Writing?
    case ArmLock(o) => o in s.ops && s.ops[o].executor.Written? && s.ops[o].pc.Unlocked?
    case LeaveResponse(o) => o in s.ops && s.ops[o].executor.Responding?
    case RequestLock(o) => o in s.ops && s.ops[o].pc.Unlocked?
    case InterruptDiscardStep(o) => o in s.ops && s.ops[o].pc.InterruptDiscard? && ConnOf(s, o)
    case InterruptSendStep(o) => o in s.ops && s.ops[o].pc.InterruptSend?
    case ExecutorDiscard(o) => o in s.ops && s.ops[o].executor.Leaving? && ConnOf(s, o)
    case FinishLock(o, unknown) => o in s.ops && s.ops[o].executor.Leaving? && s.ops[o].pc.Unlocked?
    case FinishUnknownStep(o) => o in s.ops && s.ops[o].pc.FinishUnknown? && ConnOf(s, o)
    case FinishLoadStep(o) => o in s.ops && s.ops[o].pc.FinishLoad? && ConnOf(s, o)
    case FinishDiscardStep(o) => o in s.ops && s.ops[o].pc.FinishDiscard? && ConnOf(s, o)
    case FinishClearStep(o) => o in s.ops && s.ops[o].pc.FinishClear? && s.ops[o].conn.Some?
    case FinishUnpinStep(o) => o in s.ops && s.ops[o].pc.FinishUnpin? && s.ops[o].pc.conn in s.conns
    case _ => false
  }

  predicate AcquireEnabled(s: State, step: Step) {
    match step
    case AcquireLock(i) => s.pool.Free? && !s.shuttingDown && HasSlot(s, i) && !s.slots[i].inUse
                           && forall j :: 0 <= j < i ==> s.slots[j].inUse
    case AcquireCheckStep(alive) => s.pool.AcquireCheck? && SlotConn(s, s.pool.slot)
    case AcquireClaimStep => s.pool.AcquireClaim? && SlotConn(s, s.pool.slot) && s.slots[s.pool.slot].conn.Some?
    case AcquireDestroyStep => s.pool.AcquireDestroy? && SlotConn(s, s.pool.slot) && s.slots[s.pool.slot].conn.Some?
    case ReconnectStep(i) => SlotConn(s, i) && s.slots[i].work.Reconnecting?
    case OpenStep(i, connected) => SlotConn(s, i) && s.slots[i].work.Opening?
    case ReconnectLock(i) =>
      && s.pool.Free? && SlotConn(s, i)
      && (s.slots[i].work.Failed? || (s.slots[i].work.Connected? && s.slots[i].conn.Some?))
    case _ => false
  }

  predicate ReleaseEnabled(s: State, step: Step) {
    match step
    case ReleaseLock(i, holder) => s.pool.Free? && SlotConn(s, i) && s.slots[i].conn.Some?
                              && if holder.Some? then holder.value in s.leases && s.leases[holder.value].slot == i
                                 else !s.slots[i].inUse && !s.shuttingDown
    case ReleaseLoadStep => s.pool.ReleaseLoad? && SlotConn(s, s.pool.slot) && s.slots[s.pool.slot].conn.Some?
    case ReleaseCasStep => s.pool.ReleaseCas? && SlotConn(s, s.pool.slot) && s.slots[s.pool.slot].conn.Some?
    case ReleaseDiscardStep(ok) => s.pool.ReleaseDiscard? && SlotConn(s, s.pool.slot) && s.slots[s.pool.slot].conn.Some?
    case ReleaseUndoStep => s.pool.ReleaseUndo? && SlotConn(s, s.pool.slot) && s.slots[s.pool.slot].conn.Some?
    case ReleaseDoneStep => s.pool.ReleaseDone? && SlotConn(s, s.pool.slot)
    case _ => false
  }

  predicate OtherEnabled(s: State, step: Step) {
    match step
    case CreateOp(o) => o !in s.ops
    case DestroyLock => s.pool.Free?
    case TearDiscard(i) => s.shuttingDown && SlotConn(s, i) && s.slots[i].conn.Some?
    case TearDestroy(i) => s.shuttingDown && SlotConn(s, i) && s.slots[i].conn.Some?
    case LesseeDiscard(l) => l in s.leases && s.leases[l].conn in s.conns
    case LesseeTransport(l, ready) => l in s.leases && s.leases[l].conn in s.conns
    case OpenStandalone => true
    case DestroyStandalone(c) => c in s.published && c in s.conns && !InSlot(s, c)
    case _ => false
  }

  /** The operation's connection exists. */
  predicate ConnOf(s: State, o: nat)
    requires o in s.ops
  {
    s.ops[o].conn.Some? && s.ops[o].conn.value in s.conns
  }

  /** The slot exists, and so does its connection if it has one. */
  predicate SlotConn(s: State, i: nat) {
    i < |s.slots| && (s.slots[i].conn.Some? ==> s.slots[i].conn.value in s.conns)
  }

  // ---- Effects ------------------------------------------------------------------------------

  function SetWord(s: State, c: nat, w: Word): State
    requires c in s.conns
  {
    s.(conns := s.conns[c := s.conns[c].(word := w)])
  }

  function SetOp(s: State, o: nat, op: Op): State {
    s.(ops := s.ops[o := op])
  }

  function SetSlot(s: State, i: nat, slot: Slot): State
    requires i < |s.slots|
  {
    s.(slots := s.slots[i := slot])
  }

  /** Sets the discarded bit, whatever else the word holds. */
  function Discarded(s: State, c: nat): State
    requires c in s.conns
  {
    SetWord(s, c, s.conns[c].word.(discarded := true))
  }

  /** Discards the connection and gives up its transport. */
  function Abandoned(s: State, c: nat): State
    requires c in s.conns
  {
    s.(conns := s.conns[c := Conn(s.conns[c].word.(discarded := true), false)])
  }

  /** Closing and destroying refuse a pinned connection. */
  function Destroyed(s: State, c: nat): State
    requires c in s.conns
  {
    if s.conns[c].word.pinned then s else s.(conns := s.conns - {c})
  }

  /** Whether the slot's connection can be handed out: not discarded and ready. */
  predicate Usable(s: State, i: nat)
    requires SlotConn(s, i)
  {
    s.slots[i].conn.Some? && var c := s.conns[s.slots[i].conn.value]; !c.word.discarded && c.ready
  }

  function Granted(s: State, i: nat, c: nat): State {
    s.(leases := s.leases[s.nextLease := Lease(c, i)], nextLease := s.nextLease + 1, published := s.published + {c})
  }

  function Opened(s: State): State {
    s.(conns := s.conns[s.nextConn := Conn(CLEAR, true)], nextConn := s.nextConn + 1)
  }

  /** What an operation's own fields become. */
  function OpAfter(s: State, step: Step): Op
    requires Enabled(s, step) && IsOpStep(step)
  {
    var op := s.ops[step.o];
    match step
    case RegisterLock(_, c, arm) => op.(pc := RegisterPin(c, arm))
    case RegisterPinStep(_) =>
      if s.conns[op.pc.conn].word == CLEAR then op.(pc := RegisterCheck(op.pc.conn, op.pc.arm)) else op.(pc := Unlocked)
    case RegisterCheckStep(_, tcp) =>
      if !tcp then op.(pc := RegisterUnpin(op.pc.conn))
      else if op.requested then op.(phase := Terminal, pc := RegisterUnpin(op.pc.conn))
      else op.(phase := Active, armed := op.pc.arm, byPrepare := !op.pc.arm, conn := Some(op.pc.conn),
               executor := if op.pc.arm then Responding else Writing, pc := Unlocked)
    case RegisterUnpinStep(_) => op.(pc := Unlocked)
    case WriteExecute(_, sent) => if sent then op.(written := true, executor := Written) else op.(executor := Leaving)
    case ArmLock(_) =>
      if !op.phase.Active? || op.armed then op.(executor := Leaving)
      else op.(armed := true, executor := Responding, pc := if op.requested then InterruptDiscard else Unlocked)
    case LeaveResponse(_) => op.(executor := Leaving)
    case RequestLock(_) =>
      if op.phase.Terminal? || op.requested then op
      else op.(requested := true, pc := if op.phase.Fresh? || !op.armed then Unlocked else InterruptDiscard)
    case InterruptDiscardStep(_) => op.(pc := InterruptSend)
    case InterruptSendStep(_) => op.(attempted := true, sends := op.sends + 1, pc := Unlocked)
    case ExecutorDiscard(_) => op
    case FinishLock(_, unknown) =>
      if !op.phase.Active? then op.(executor := Finished)
      else op.(executor := Finished, pc := if unknown && op.armed then FinishUnknown else FinishLoad)
    case FinishUnknownStep(_) => op.(pc := FinishLoad)
    case FinishLoadStep(_) =>
      op.(pc := if s.conns[op.conn.value].word.discarded then FinishDiscard else FinishClear)
    case FinishDiscardStep(_) => op.(pc := FinishClear)
    case FinishClearStep(_) => op.(conn := None, phase := Terminal, pc := FinishUnpin(op.conn.value))
    case FinishUnpinStep(_) => op.(pc := Unlocked)
  }

  /** What the step does to the connection, if it touches one. */
  function ConnsAfter(s: State, step: Step): State
    requires Enabled(s, step) && IsOpStep(step)
  {
    var op := s.ops[step.o];
    match step
    case RegisterPinStep(_) =>
      if s.conns[op.pc.conn].word == CLEAR then SetWord(s, op.pc.conn, CLEAR.(pinned := true)) else s
    case RegisterUnpinStep(_) => SetWord(s, op.pc.conn, s.conns[op.pc.conn].word.(pinned := false))
    case InterruptDiscardStep(_) => Discarded(s, op.conn.value)
    case ExecutorDiscard(_) => Discarded(s, op.conn.value)
    case FinishUnknownStep(_) => Discarded(s, op.conn.value)
    case FinishDiscardStep(_) => Abandoned(s, op.conn.value)
    case FinishUnpinStep(_) => SetWord(s, op.pc.conn, s.conns[op.pc.conn].word.(pinned := false))
    case _ => s
  }

  function AcquireAfter(s: State, step: Step): State
    requires Enabled(s, step) && Acquires(step)
  {
    match step
    case AcquireLock(i) => SetSlot(s, i, s.slots[i].(inUse := true)).(pool := AcquireCheck(i))
    case AcquireCheckStep(alive) =>
      var i := s.pool.slot;
      if !Usable(s, i) then SetSlot(s, i, s.slots[i].(work := Reconnecting)).(pool := Free)
      else if alive then s.(pool := AcquireClaim(i))
      else s.(pool := AcquireDestroy(i))
    case AcquireClaimStep =>
      var c := s.slots[s.pool.slot].conn.value;
      Granted(SetWord(s, c, s.conns[c].word.(released := false)), s.pool.slot, c).(pool := Free)
    case AcquireDestroyStep =>
      var i := s.pool.slot;
      SetSlot(Destroyed(s, s.slots[i].conn.value), i, Slot(None, s.slots[i].inUse, Reconnecting)).(pool := Free)
    case ReconnectStep(i) =>
      if Usable(s, i) then SetSlot(s, i, s.slots[i].(work := Connected))
      else if s.slots[i].conn.None? then SetSlot(s, i, s.slots[i].(work := Opening))
      else SetSlot(Destroyed(s, s.slots[i].conn.value), i, Slot(None, s.slots[i].inUse, Opening))
    case OpenStep(i, connected) =>
      if connected then SetSlot(Opened(s), i, s.slots[i].(conn := Some(s.nextConn), work := Connected))
      else SetSlot(s, i, s.slots[i].(work := Failed))
    case ReconnectLock(i) =>
      if s.shuttingDown then
        if s.slots[i].work.Connected? then SetSlot(Destroyed(s, s.slots[i].conn.value), i, Slot(None, false, NoWork))
        else SetSlot(s, i, s.slots[i].(inUse := false, work := NoWork))
      else if s.slots[i].work.Connected? then
        Granted(SetSlot(s, i, s.slots[i].(work := NoWork)), i, s.slots[i].conn.value)
      else SetSlot(s, i, s.slots[i].(inUse := false, work := NoWork))
  }

  function ReleaseAfter(s: State, step: Step): State
    requires Enabled(s, step) && Releases(step)
  {
    match step
    case ReleaseLock(i, holder) => s.(pool := ReleaseLoad(i, holder))
    case ReleaseLoadStep =>
      s.(pool := ReleaseCas(s.pool.slot, s.pool.holder, s.conns[s.slots[s.pool.slot].conn.value].word))
    case ReleaseCasStep =>
      var i, c, expected := s.pool.slot, s.slots[s.pool.slot].conn.value, s.pool.expected;
      if !s.slots[i].inUse || expected.pinned || s.conns[c].word != expected || s.pool.holder.None?
      then s.(pool := Free)
      else SetWord(s, c, expected.(released := true)).(pool :=
             if expected.discarded then ReleaseDiscard(i, s.pool.holder.value) else ReleaseDone(i, s.pool.holder.value))
    case ReleaseDiscardStep(ok) =>
      Abandoned(s, s.slots[s.pool.slot].conn.value).(pool :=
        if ok then ReleaseDone(s.pool.slot, s.pool.lease) else ReleaseUndo(s.pool.slot, s.pool.lease))
    case ReleaseUndoStep =>
      var c := s.slots[s.pool.slot].conn.value;
      SetWord(s, c, s.conns[c].word.(released := false)).(pool := Free)
    case ReleaseDoneStep =>
      SetSlot(s, s.pool.slot, s.slots[s.pool.slot].(inUse := false)).(leases := s.leases - {s.pool.lease}, pool := Free)
  }

  function OtherAfter(s: State, step: Step): State
    requires Enabled(s, step) && !IsOpStep(step) && !Acquires(step) && !Releases(step)
  {
    match step
    case CreateOp(o) => SetOp(s, o, NEW_OP)
    case DestroyLock =>
      if exists i :: 0 <= i < |s.slots| && s.slots[i].inUse then s else s.(shuttingDown := true)
    case TearDiscard(i) => Abandoned(s, s.slots[i].conn.value)
    case TearDestroy(i) => SetSlot(Destroyed(s, s.slots[i].conn.value), i, Slot(None, false, s.slots[i].work))
    case LesseeDiscard(l) => Discarded(s, s.leases[l].conn)
    case LesseeTransport(l, ready) =>
      s.(conns := s.conns[s.leases[l].conn := s.conns[s.leases[l].conn].(ready := ready)])
    case OpenStandalone => Opened(s).(published := s.published + {s.nextConn})
    case DestroyStandalone(c) => Destroyed(s, c)
  }

  function Next(s: State, step: Step): State
    requires Enabled(s, step)
  {
    if IsOpStep(step) then SetOp(ConnsAfter(s, step), step.o, OpAfter(s, step))
    else if Acquires(step) then AcquireAfter(s, step)
    else if Releases(step) then ReleaseAfter(s, step)
    else OtherAfter(s, step)
  }
}
