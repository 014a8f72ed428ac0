/**
 The control plane of backup and restore: which mode and readiness every exit of `create`,
 `restore` and `recover_maintenance` leaves. Outcomes of the calls in between are parameters,
 and so is what another thread sets the mode to before and during the lease.
 */
module RestoreExits {
  import opened Prelude
  import opened GateSequential

  datatype Exit =
    /** before any lease was taken */
    | Refused
    /** the lease's own `restore` */
    | Returned
    /** Offline is kept */
    | StayedClosed
    /** `restore_to` with the mode read at the start */
    | Reopened

  /**
   The calls of `restore` before the roots are touched. `between` is a `set` by another thread
   after the mode was read and before the lease was taken, `during` one while it is held.
   */
  datatype RestoreScript = RestoreScript(
    validated: bool,
    between: Option<Mode>,
    drained: bool,
    markedRestoring: bool,
    queued: bool,
    markedRunning: bool,
    artifact: bool,
    completed: bool,
    during: Option<Mode>)
  {
    /** Up to the admission of the safety backup. */
    predicate Admitted() { drained && markedRestoring && queued }

    /** The safety backup itself. */
    predicate Saved() { artifact && completed }
  }

  /** The roots were replaced; the catalogue was updated; or else the live state passed verification. */
  datatype Ending = Ending(applied: bool, recorded: bool, verified: bool) {
    predicate Reopens() { if applied then recorded else verified }
  }

  datatype RecoverScript = RecoverScript(drained: bool, initialized: bool, verified: bool)

  datatype CreateScript = CreateScript(
    resumable: bool,
    between: Option<Mode>,
    drained: bool,
    artifact: bool,
    during: Option<Mode>,
    recorded: bool)

  datatype Operation =
    | Create(create: CreateScript)
    | Restore(restore: RestoreScript, ending: Ending)
    | Recover(recover: RecoverScript)

  datatype Status = Status(mode: Mode, leased: bool, ready: bool) {
    /** The service is ready exactly when it is not closed. */
    predicate Consistent() { ready <==> !mode.Offline? }

    /** The mode once another thread's `set` is done; a held lease lets only Offline through. */
    function After(between: Option<Mode>): Mode {
      if between.Some? && (between.value.Offline? || !leased) then between.value else mode
    }
  }

  /** `restore` reaches the roots. */
  predicate Reaches(s: RestoreScript, was: Status) {
    s.validated && !was.leased && s.Admitted() && s.markedRunning && s.Saved()
  }

  /** Every exit of `restore`: when it is taken, and the status it leaves. */
  predicate ExitLeaves(s: RestoreScript, ending: Ending, was: Status, now: Status, exit: Exit) {
    && now.leased == was.leased
    && (exit.Refused? <==> !s.validated || was.leased)
    && (exit.Reopened? <==> Reaches(s, was) && ending.Reopens())
    && (exit.StayedClosed? <==> && s.validated && !was.leased && s.Admitted()
                                && (!s.markedRunning || (s.Saved() && !ending.Reopens())))
    && (exit.Refused? || exit.Returned? ==> now.ready == was.ready && now.mode == if s.validated then was.After(s.between) else was.mode)
    && (exit.StayedClosed? ==> now.mode.Offline? && !now.ready)
    && (exit.Reopened? ==> now.mode == was.mode && now.ready)
  }

  /** recover_maintenance: success opens the service, a failure closes it and leaves the readiness flag. */
  predicate RecoverLeaves(s: RecoverScript, was: Status, now: Status, ok: bool) {
    && now.leased == was.leased
    && (ok <==> was.mode.Normal? || (!was.leased && s.drained && s.initialized && s.verified))
    && (ok ==> now.mode.Normal? && now.ready)
    && (!ok ==> now.ready == was.ready && now.mode == if was.leased then was.mode else Offline)
  }

  /** create: the entry mode comes back, unless another thread set one before the lease and no artifact was begun. */
  predicate CreateLeaves(s: CreateScript, was: Status, now: Status, ok: bool) {
    && now.leased == was.leased && now.ready == was.ready
    && (ok <==> s.resumable && !was.leased && !was.After(s.between).Offline? && s.drained && s.artifact && s.recorded)
    && now.mode == if !s.resumable then was.mode
                   else if was.leased || was.After(s.between).Offline? || !s.drained then was.After(s.between)
                   else was.mode
  }

  /** One operation of a list leads from one status to the next. */
  ghost predicate Leads(was: Status, op: Operation, now: Status) {
    match op
    case Create(s) => exists ok :: CreateLeaves(s, was, now, ok)
    case Recover(s) => exists ok :: RecoverLeaves(s, was, now, ok)
    case Restore(s, ending) => exists exit :: ExitLeaves(s, ending, was, now, exit)
  }

  class BackupService {
    const gate: MaintenanceCells
    var ready: bool
    var operationActive: bool

    constructor ()
      ensures fresh(gate) && Current() == Status(Normal, false, true) && !operationActive
    {
      gate := new MaintenanceCells();
      ready, operationActive := true, false;
    }

    function Current(): Status
      reads this, gate
    {
      Status(gate.mode, gate.maintenanceActive, ready)
    }

    /** Another thread's `set`, if there is one. */
    method Disturb(m: Option<Mode>)
      modifies gate
      ensures gate.mode == old(Current()).After(m) && gate.maintenanceActive == old(gate.maintenanceActive)
    {
      if m.Some? { gate.Set(m.value); }
    }

    /** `restore` up to the safety backup; `Ok` holds the mode read at the start, with the lease held. */
    method EnterRestore(s: RestoreScript) returns (r: Result<Mode, Exit>)
      modifies this`ready, gate
      ensures r.Ok? <==> Reaches(s, old(Current()))
      ensures r.Ok? ==> r.value == old(gate.mode) && Current() == Status(Offline, true, false)
      ensures r.Err? ==> !r.error.Reopened? && forall ending :: ExitLeaves(s, ending, old(Current()), Current(), r.error)
    {
      if !s.validated { return Err(Refused); }
      var previous := gate.mode;
      Disturb(s.between);
      var lease := gate.TryBeginMode(false);
      if lease.None? { return Err(Refused); }
      if !s.drained || !s.markedRestoring || !s.queued {
        gate.RestoreTo(lease.value);
        return Err(Returned);
      }
      if !s.markedRunning {
        ready := false;
        gate.DropUnreleasedLease();
        return Err(StayedClosed);
      }
      if !s.artifact || !s.completed {
        gate.RestoreTo(lease.value);
        return Err(Returned);
      }
      ready := false;
      Disturb(s.during);
      r := Ok(previous);
    }

    /** `restore` from the outcome of apply_restore on. */
    method FinishRestore(previous: Mode, ending: Ending) returns (exit: Exit)
      requires Current() == Status(Offline, true, false)
      modifies this`ready, gate
      ensures exit == if ending.Reopens() then Reopened else StayedClosed
      ensures Current() == if ending.Reopens() then Status(previous, false, true)
                          else Status(Offline, false, false)
    {
      if ending.applied {
        if !ending.recorded {
          gate.DropUnreleasedLease();
          return StayedClosed;
        }
        ready := true;
      }
      var canReopen := ending.applied || ending.verified;
      if canReopen { gate.RestoreTo(previous); } else { gate.DropUnreleasedLease(); }
      ready := canReopen;
      exit := if canReopen then Reopened else StayedClosed;
    }

    /**
     restore. Every exit releases the lease. Entered consistent and with nobody setting the mode
     just before the lease, it ends consistent if and only if it does not reopen a service that
     was Offline.
     */
    method Restore(s: RestoreScript, ending: Ending) returns (exit: Exit)
      requires !operationActive
      modifies this, gate
      ensures !operationActive && ExitLeaves(s, ending, old(Current()), Current(), exit)
      ensures s.between.None? && old(Current()).Consistent() ==>
                (Current().Consistent() <==> !(old(gate.mode).Offline? && exit.Reopened?))
    {
      operationActive := true;
      var entered := EnterRestore(s);
      if entered.Ok? {
        exit := FinishRestore(entered.value, ending);
      } else {
        exit := entered.error;
        assert ExitLeaves(s, ending, old(Current()), Current(), exit);
      }
      operationActive := false;
    }

    /**
     recover_maintenance. Success opens the service. A failure closes it but leaves the
     readiness flag, so entering in ReadOnly mode is the one case that ends inconsistent.
     */
    method RecoverMaintenance(s: RecoverScript) returns (ok: bool)
      requires !operationActive
      modifies this, gate
      ensures !operationActive && RecoverLeaves(s, old(Current()), Current(), ok)
      ensures old(Current()).Consistent() ==>
                (Current().Consistent() <==> ok || old(gate.maintenanceActive) || !old(gate.mode).ReadOnly?)
    {
      operationActive := true;
      if gate.mode.Normal? {
        ready := true;
        ok := true;
      } else {
        var lease := gate.TryBeginMode(false);
        ok := lease.Some? && s.drained && s.initialized && s.verified;
        if ok {
          gate.RestoreTo(Normal);
          ready := true;
        } else if lease.Some? {
          gate.DropUnreleasedLease();
        }
      }
      operationActive := false;
    }

    /**
     create. Whatever is set while the lease is held, every exit leaves the readiness, and the
     entry mode unless another thread set one just before the lease and the backup did not get
     as far as its artifact.
     */
    method CreateBackup(s: CreateScript) returns (ok: bool)
      requires !operationActive
      modifies this, gate
      ensures !operationActive && CreateLeaves(s, old(Current()), Current(), ok)
    {
      if !s.resumable { return false; }
      operationActive := true;
      var previous := gate.mode;
      Disturb(s.between);
      var lease := gate.TryBeginMode(true);
      ok := lease.Some? && s.drained && s.artifact && s.recorded;
      if lease.Some? {
        Disturb(s.during);
        gate.RestoreTo(if s.drained then previous else lease.value);
      }
      operationActive := false;
    }

    /**
     Operations one after another, with no `set` just before a lease, up to the first restore of a
     closed service; `trace` has the status between any two.
     */
    method Operate(ops: seq<Operation>) returns (n: nat, ghost trace: seq<Status>)
      requires !operationActive && Current().Consistent() && !gate.mode.ReadOnly?
      requires forall i :: 0 <= i < |ops| ==> Undisturbed(ops[i])
      modifies this, gate
      ensures !operationActive && gate.maintenanceActive == old(gate.maintenanceActive)
      ensures Current().Consistent() && !gate.mode.ReadOnly? && n <= |ops|
      ensures n < |ops| ==> ops[n].Restore? && gate.mode.Offline?
      ensures |trace| == n + 1 && trace[0] == old(Current()) && trace[n] == Current()
      ensures forall i :: 0 <= i < n ==> Leads(trace[i], ops[i], trace[i + 1]) && trace[i].Consistent()
    {
      hide ExitLeaves, CreateLeaves, RecoverLeaves;
      n, trace := 0, [Current()];
      while n < |ops|
        invariant !operationActive && gate.maintenanceActive == old(gate.maintenanceActive)
        invariant n <= |ops| && Current().Consistent() && !gate.mode.ReadOnly?
        invariant |trace| == n + 1 && trace[0] == old(Current()) && trace[n] == Current()
        invariant forall i :: 0 <= i < n ==> Leads(trace[i], ops[i], trace[i + 1]) && trace[i].Consistent()
      {
        assert Undisturbed(ops[n]);
        ghost var before := Current();
        match ops[n] {
          case Create(s) =>
            var ok := CreateBackup(s);
            CreateStays(s, before, Current(), ok);
          case Recover(s) =>
            var ok := RecoverMaintenance(s);
            RecoverStays(s, before, Current(), ok);
          case Restore(s, ending) =>
            if gate.mode.Offline? { return; }
            var exit := Restore(s, ending);
            RestoreStays(s, ending, before, Current(), exit);
        }
        assert Leads(before, ops[n], Current());
        n, trace := n + 1, trace + [Current()];
      }
    }
  }

  lemma {:induction false} CreateStays(s: CreateScript, was: Status, now: Status, ok: bool)
    requires CreateLeaves(s, was, now, ok) && s.between.None?
    ensures now == was
  {
  }

  lemma {:induction false} RecoverStays(s: RecoverScript, was: Status, now: Status, ok: bool)
    requires RecoverLeaves(s, was, now, ok) && was.Consistent() && !was.mode.ReadOnly?
    ensures now.leased == was.leased && !now.mode.ReadOnly?
  {
  }

  lemma {:induction false} RestoreStays(s: RestoreScript, ending: Ending, was: Status, now: Status, exit: Exit)
    requires ExitLeaves(s, ending, was, now, exit) && s.between.None? && !was.mode.ReadOnly?
    ensures now.leased == was.leased && !now.mode.ReadOnly?
  {
  }

  predicate Undisturbed(op: Operation) {
    (op.Create? ==> op.create.between.None?) && (op.Restore? ==> op.restore.between.None?)
  }

  const Smoothly: RestoreScript := RestoreScript(true, None, true, true, true, true, true, true, None)

  /** A restore that fails for good, then one that works: the service is Offline and says it is ready. */
  method RestoringTwiceEndsOfflineAndReady() returns (service: BackupService)
    ensures service.gate.mode.Offline? && service.ready
  {
    service := new BackupService();
    var first := service.Restore(Smoothly, Ending(false, true, false));
    var second := service.Restore(Smoothly, Ending(true, true, true));
  }

  /** Another thread closes the service just before the lease; a restore that works reopens it all the same. */
  method RestoreOverridesAClosing() returns (service: BackupService)
    ensures service.gate.mode.Normal? && service.ready
  {
    service := new BackupService();
    var exit := service.Restore(Smoothly.(between := Some(Offline)), Ending(true, true, true));
  }

  /** A ready service that was set to ReadOnly, as any holder of the gate may do, fails to recover: it ends Offline and ready. */
  method FailedRecoveryEndsOfflineAndReady() returns (service: BackupService)
    ensures service.gate.mode.Offline? && service.ready
  {
    service := new BackupService();
    service.gate.Set(ReadOnly);
    var ok := service.RecoverMaintenance(RecoverScript(true, true, false));
  }
}
