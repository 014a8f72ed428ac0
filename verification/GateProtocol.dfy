/**
 The maintenance gate as an interleaving transition system.

 Every atomic load, store or read-modify-write of the gate is one step of one
 thread, and the `transition` mutex is explicit. `Next` is total: an event that is
 not enabled (a thread that waits for the mutex, a call by a busy thread) leaves the
 state alone, so a schedule is any sequence of events and a theorem about all
 schedules is a theorem about all interleavings.
 */
module GateProtocol {
  import opened Prelude

  type ThreadId = nat
  type LeaseId = nat
  type GuardId = nat

  /** try_start, after its first mode check. */
  datatype StartPc = AddOps(write: bool) | AddWrites | Recheck(write: bool) | BackWrites | BackOps

  /** set, after the mutex is taken. */
  datatype SetPc = LoadActive(m: Mode) | StoreMode(m: Mode) | ClearActive

  /** try_begin_mode, after the mutex is taken. */
  datatype BeginPc =
    | CasActive(target: Mode)
    | LoadMode(target: Mode)
    | CasMode(target: Mode, previous: Mode)
    | Issue(target: Mode, previous: Mode)
    | Abort

  /** restore_to (on an unreleased lease) or the lease's drop, after the mutex is taken. */
  datatype ClosePc = ReopenMode(m: Mode) | GiveUp | KillToken

  /** restore_to on a lease that was restored before. */
  datatype StalePc = StaleMode(m: Mode) | StaleClear

  /** MaintenancePermitToken::is_valid, after its token load. */
  datatype ValidPc = CheckMode | CheckOps | CheckWrites | SaidValid

  /** A call that waits for the transition mutex. */
  datatype Waiting =
    | ToSet(m: Mode)
    | ToBegin(target: Mode)
    | ToRestore(l: LeaseId, m: Mode)
    | ToDrop(l: LeaseId)
    | ToRestoreAgain(m: Mode)

  /** Where a thread stands inside one of the gate's methods. */
  datatype Pc =
    | Idle
    | Starting(start: StartPc)
    | Entering(call: Waiting)
    | Setting(setPc: SetPc)
    | Beginning(begin: BeginPc)
    | Closing(l: LeaseId, close: ClosePc)
    | Restoring(stale: StalePc)
    | Validating(l: LeaseId, valid: ValidPc)
    | Unlocking

  /** A guard is live until its drop begins; dropping a write guard takes two steps. */
  datatype Guard = Live(write: bool) | HalfDropped

  /**
   Held: issued. Leaving: its restore or drop was called. Reopened: `restore_to` has
   stored the mode but not yet cleared `maintenance_active`. Released: cleared.
   */
  datatype Phase = Held | Leaving | Reopened | Released

  datatype Lease = Lease(target: Mode, previous: Mode, phase: Phase, tokenActive: bool) {
    /** The lease still accounts for `maintenance_active`. */
    predicate Owns() { !phase.Released? }

    /** The lease still dictates the mode. */
    predicate Protects() { phase.Held? || phase.Leaving? }
  }

  datatype State = State(
    mode: Mode,
    active: bool,
    lock: Option<ThreadId>,
    ops: int,
    writes: int,
    threads: map<ThreadId, Pc>,
    guards: map<GuardId, Guard>,
    nextGuard: GuardId,
    leases: map<LeaseId, Lease>,
    nextLease: LeaseId)
  {
    function At(t: ThreadId): Pc { if t in threads then threads[t] else Idle }

    function Move(t: ThreadId, pc: Pc): State { this.(threads := threads[t := pc]) }

    function Phase(l: LeaseId, phase: Phase): State
      requires l in leases
    {
      this.(leases := leases[l := leases[l].(phase := phase)])
    }

    predicate Protecting(l: LeaseId) { l in leases && leases[l].Protects() }
  }

  datatype Event =
    | CallStart(t: ThreadId, write: bool)
    | CallSet(t: ThreadId, m: Mode)
    | CallBegin(t: ThreadId, readOnly: bool)
    | CallRestore(t: ThreadId, l: LeaseId, m: Mode)
    | CallDropLease(t: ThreadId, l: LeaseId)
    | CallStaleRestore(t: ThreadId, l: LeaseId, m: Mode)
    | CallIsValid(t: ThreadId, l: LeaseId)
    | Step(t: ThreadId)
    | DropGuard(g: GuardId)

  const Initial := State(Normal, false, None, 0, 0, map[], map[], 0, map[], 0)

  predicate Allowed(mode: Mode, write: bool) {
    if write then mode.AllowsWrite() else mode.AllowsRead()
  }

  /** One scheduled event. */
  function Next(s: State, e: Event): State {
    match e
    case Step(t) => StepThread(s, t)
    case DropGuard(g) => if g in s.guards then StepDropGuard(s, g) else s
    case _ => if s.At(e.t).Idle? then Call(s, e) else s
  }

  /** An idle thread calls one of the gate's methods. */
  function Call(s: State, e: Event): State
    requires !e.Step? && !e.DropGuard?
  {
    match e
    case CallStart(t, write) => if Allowed(s.mode, write) then s.Move(t, Starting(AddOps(write))) else s
    case CallSet(t, m) => s.Move(t, Entering(ToSet(m)))
    case CallBegin(t, readOnly) => s.Move(t, Entering(ToBegin(if readOnly then ReadOnly else Offline)))
    case CallRestore(t, l, m) =>
      if l in s.leases && s.leases[l].phase.Held? then s.Phase(l, Leaving).Move(t, Entering(ToRestore(l, m))) else s
    case CallDropLease(t, l) =>
      if l in s.leases && s.leases[l].phase.Held? then s.Phase(l, Leaving).Move(t, Entering(ToDrop(l))) else s
    case CallStaleRestore(t, l, m) =>
      if l in s.leases && s.leases[l].phase.Released? then s.Move(t, Entering(ToRestoreAgain(m))) else s
    case CallIsValid(t, l) =>
      if l in s.leases && s.leases[l].tokenActive then s.Move(t, Validating(l, CheckMode)) else s
  }

  /** One step of a guard's drop: a write guard gives back `active_writes` first. */
  function StepDropGuard(s: State, g: GuardId): State
    requires g in s.guards
  {
    if s.guards[g] == Live(true) then
      s.(writes := s.writes - 1, guards := s.guards[g := HalfDropped])
    else
      s.(ops := s.ops - 1, guards := s.guards - {g})
  }

  /** The atomic action at the thread's program counter. */
  function StepThread(s: State, t: ThreadId): State {
    match s.At(t)
    case Idle => s
    case Starting(pc) => StepStart(s, t, pc)
    case Entering(call) => if s.lock.None? then s.(lock := Some(t)).Move(t, Entered(call)) else s
    case Setting(pc) => StepSet(s, t, pc)
    case Beginning(pc) => StepBegin(s, t, pc)
    case Closing(l, pc) => if l in s.leases then StepClose(s, t, l, pc) else s
    case Restoring(StaleMode(m)) => s.(mode := m).Move(t, Restoring(StaleClear))
    case Restoring(StaleClear) => s.(active := false).Move(t, Unlocking)
    case Validating(l, pc) => StepValid(s, t, l, pc)
    case Unlocking => s.(lock := None).Move(t, Idle)
  }

  function Entered(call: Waiting): Pc {
    match call
    case ToSet(m) => Setting(LoadActive(m))
    case ToBegin(target) => Beginning(CasActive(target))
    case ToRestore(l, m) => Closing(l, ReopenMode(m))
    case ToDrop(l) => Closing(l, GiveUp)
    case ToRestoreAgain(m) => Restoring(StaleMode(m))
  }

  function StepStart(s: State, t: ThreadId, pc: StartPc): State {
    match pc
    case AddOps(write) =>
      s.(ops := s.ops + 1).Move(t, Starting(if write then AddWrites else Recheck(false)))
    case AddWrites => s.(writes := s.writes + 1).Move(t, Starting(Recheck(true)))
    case Recheck(write) =>
      if Allowed(s.mode, write) then
        s.(guards := s.guards[s.nextGuard := Live(write)], nextGuard := s.nextGuard + 1).Move(t, Idle)
      else s.Move(t, Starting(if write then BackWrites else BackOps))
    case BackWrites => s.(writes := s.writes - 1).Move(t, Starting(BackOps))
    case BackOps => s.(ops := s.ops - 1).Move(t, Idle)
  }

  function StepSet(s: State, t: ThreadId, pc: SetPc): State {
    match pc
    case LoadActive(m) => s.Move(t, if s.active && !m.Offline? then Unlocking else Setting(StoreMode(m)))
    case StoreMode(m) => s.(mode := m).Move(t, if m.Offline? then Unlocking else Setting(ClearActive))
    case ClearActive => s.(active := false).Move(t, Unlocking)
  }

  function StepBegin(s: State, t: ThreadId, pc: BeginPc): State {
    match pc
    case CasActive(target) =>
      if s.active then s.Move(t, Unlocking) else s.(active := true).Move(t, Beginning(LoadMode(target)))
    case LoadMode(target) =>
      s.Move(t, Beginning(if s.mode.Offline? && !target.Offline? then Abort
                          else if s.mode != target then CasMode(target, s.mode)
                          else Issue(target, s.mode)))
    case CasMode(target, previous) =>
      if s.mode == previous then s.(mode := target).Move(t, Beginning(Issue(target, previous)))
      else s.Move(t, Beginning(Abort))
    case Issue(target, previous) =>
      s.(leases := s.leases[s.nextLease := Lease(target, previous, Held, true)], nextLease := s.nextLease + 1)
      .Move(t, Unlocking)
    case Abort => s.(active := false).Move(t, Unlocking)
  }

  /** `restore_to` stores the mode and then does what the drop of an unreleased lease does. */
  function StepClose(s: State, t: ThreadId, l: LeaseId, pc: ClosePc): State
    requires l in s.leases
  {
    match pc
    case ReopenMode(m) => s.Phase(l, Reopened).(mode := m).Move(t, Closing(l, GiveUp))
    case GiveUp => s.Phase(l, Released).(active := false).Move(t, Closing(l, KillToken))
    case KillToken => s.(leases := s.leases[l := s.leases[l].(tokenActive := false)]).Move(t, Unlocking)
  }

  function StepValid(s: State, t: ThreadId, l: LeaseId, pc: ValidPc): State {
    match pc
    case CheckMode => s.Move(t, if s.mode.Offline? then Validating(l, CheckOps) else Idle)
    case CheckOps => s.Move(t, if s.ops == 0 then Validating(l, CheckWrites) else Idle)
    case CheckWrites => s.Move(t, if s.writes == 0 then Validating(l, SaidValid) else Idle)
    case SaidValid => s.Move(t, Idle)
  }

  /** The state after a schedule. */
  function Run(s: State, schedule: seq<Event>): State
    decreases |schedule|
  {
    if schedule == [] then s else Run(Next(s, schedule[0]), schedule[1..])
  }

  /** If the step lets a second restore of a lease into the mutex, nobody owns the gate at that moment. */
  predicate Careful(s: State, e: Event) {
    e.Step? && s.lock.None? && s.At(e.t).Entering? && s.At(e.t).call.ToRestoreAgain? ==> !s.active
  }

  predicate CarefulRun(s: State, schedule: seq<Event>)
    decreases |schedule|
  {
    schedule != [] ==> Careful(s, schedule[0]) && CarefulRun(Next(s, schedule[0]), schedule[1..])
  }

  /** No lease is restored a second time. */
  predicate RestoredOnce(schedule: seq<Event>) {
    forall i :: 0 <= i < |schedule| ==> !schedule[i].CallStaleRestore?
  }
}
