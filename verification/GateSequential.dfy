/**
 The gate's methods as they are written, and the proof that each of them, run without
 interference, is one run of the protocol's atomic steps.
 */
module GateSequential {
  import opened Prelude
  import opened GateProtocol
  import opened GateCounters
  import opened GateSafety

  /** The thread makes a call and takes `n` steps; steps of an idle thread do nothing. */
  function Solo(call: Event, t: ThreadId, n: nat): seq<Event> { [call] + seq(n, i => Step(t)) }

  function Advance(s: State, t: ThreadId, n: nat): State
    decreases n
  {
    if n == 0 then s else Advance(StepThread(s, t), t, n - 1)
  }

  lemma {:induction false} RunIsAdvance(s: State, t: ThreadId, n: nat)
    ensures Run(s, seq(n, i => Step(t))) == Advance(s, t, n)
    decreases n
  {
    if n > 0 {
      var steps := seq(n, i => Step(t));
      assert steps[1..] == seq(n - 1, i => Step(t));
      RunIsAdvance(StepThread(s, t), t, n - 1);
    }
  }

  lemma SoloIsAdvance(s: State, call: Event, t: ThreadId, n: nat)
    ensures Run(s, Solo(call, t, n)) == Advance(Next(s, call), t, n)
  {
    assert Solo(call, t, n)[1..] == seq(n, i => Step(t));
    RunIsAdvance(Next(s, call), t, n);
  }

  /** One step of an advance. */
  lemma Step1(s: State, t: ThreadId, n: nat) returns (s': State)
    requires n > 0
    ensures s' == StepThread(s, t) && Advance(s, t, n) == Advance(s', t, n - 1)
  {
    s' := StepThread(s, t);
  }

  lemma {:induction false} IdleStays(s: State, t: ThreadId, n: nat)
    requires s.At(t).Idle?
    ensures Advance(s, t, n) == s
    decreases n
  {
    if n > 0 { IdleStays(s, t, n - 1); }
  }

  /** The thread is idle again and no other thread has moved. */
  ghost predicate Settled(s: State, t: ThreadId, s': State) {
    && s'.At(t).Idle?
    && (s'.threads == s.threads || s'.threads == s.threads[t := Idle])
    && s'.lock == s.lock
  }

  lemma SoloStart(s: State, t: ThreadId, write: bool, n: nat)
    requires n >= 6 && s.At(t).Idle?
    ensures var s' := Run(s, Solo(CallStart(t, write), t, n));
            && Settled(s, t, s')
            && s'.mode == s.mode && s'.active == s.active && s'.leases == s.leases
            && s'.nextGuard == s.nextGuard + One(if write then s.mode == Normal else s.mode != Offline)
            && if if write then s.mode == Normal else s.mode != Offline
               then && s'.ops == s.ops + 1 && s'.writes == s.writes + One(write)
                    && s'.guards == s.guards[s.nextGuard := Live(write)]
               else && s'.ops == s.ops && s'.writes == s.writes && s'.guards == s.guards
  {
    SoloIsAdvance(s, CallStart(t, write), t, n);
    var p := Next(s, CallStart(t, write));
    if Allowed(s.mode, write) {
      AdmittedTail(p, t, write, n);
    } else {
      IdleStays(s, t, n);
    }
  }

  /** With the mode unchanged, the re-check passes and the guard is issued. */
  lemma AdmittedTail(p: State, t: ThreadId, write: bool, n: nat)
    requires n >= 3 && p.At(t) == Starting(AddOps(write)) && Allowed(p.mode, write)
    ensures Advance(p, t, n)
         == p.(ops := p.ops + 1, writes := p.writes + One(write), threads := p.threads[t := Idle],
               guards := p.guards[p.nextGuard := Live(write)], nextGuard := p.nextGuard + 1)
  {
    var a := Step1(p, t, n);
    var b := Step1(a, t, n - 1);
    if write {
      var c := Step1(b, t, n - 2);
      assert c.threads == p.threads[t := Idle];
      IdleStays(c, t, n - 3);
    } else {
      assert b.threads == p.threads[t := Idle];
      IdleStays(b, t, n - 2);
    }
  }

  lemma SoloSet(s: State, t: ThreadId, m: Mode, n: nat)
    requires n >= 6 && s.At(t).Idle? && s.lock.None?
    ensures var s' := Run(s, Solo(CallSet(t, m), t, n));
            && Settled(s, t, s')
            && s'.ops == s.ops && s'.writes == s.writes && s'.guards == s.guards && s'.leases == s.leases
            && if s.active && !m.Offline?
               then s'.mode == s.mode && s'.active
               else s'.mode == m && s'.active == (s.active && m.Offline?)
  {
    hide StepStart, StepClose, StepBegin, StepValid;
    SoloIsAdvance(s, CallSet(t, m), t, n);
    var a := Step1(Next(s, CallSet(t, m)), t, n);
    assert a == s.(lock := Some(t), threads := a.threads) && a.At(t) == Setting(LoadActive(m));
    SetCritical(a, t, m, n - 1);
  }

  /** The critical section of `set`. */
  lemma SetCritical(a: State, t: ThreadId, m: Mode, n: nat)
    requires n >= 5 && a.At(t) == Setting(LoadActive(m)) && a.lock == Some(t)
    ensures Advance(a, t, n) == if a.active && !m.Offline? then a.(lock := None, threads := a.threads[t := Idle])
                                else a.(mode := m, active := a.active && m.Offline?, lock := None, threads := a.threads[t := Idle])
  {
    hide StepStart, StepClose, StepBegin, StepValid;
    var b := Step1(a, t, n);
    if a.active && !m.Offline? {
      var c := Step1(b, t, n - 1);
      assert c.threads == a.threads[t := Idle];
      IdleStays(c, t, n - 2);
    } else {
      assert b == a.(threads := b.threads) && b.At(t) == Setting(StoreMode(m));
      SetTail(b, t, m, n - 1);
      assert b.threads[t := Idle] == a.threads[t := Idle];
    }
  }

  lemma SetTail(b: State, t: ThreadId, m: Mode, n: nat)
    requires n >= 3 && b.At(t) == Setting(StoreMode(m)) && b.lock == Some(t)
    ensures Advance(b, t, n)
         == b.(mode := m, active := b.active && m.Offline?, lock := None, threads := b.threads[t := Idle])
  {
    var c := Step1(b, t, n);
    var d := Step1(c, t, n - 1);
    if m.Offline? {
      assert d.threads == b.threads[t := Idle];
      IdleStays(d, t, n - 2);
    } else {
      var e := Step1(d, t, n - 2);
      assert e.threads == b.threads[t := Idle];
      IdleStays(e, t, n - 3);
    }
  }

  /** Outcome of `try_begin_mode` on a free gate: refused while owned, and ReadOnly is refused while Offline. */
  predicate Grants(mode: Mode, active: bool, target: Mode) {
    !active && (target.Offline? || !mode.Offline?)
  }

  /** From the mode load on: swap the mode if it differs, and issue the lease. */
  lemma BeginTail(b: State, t: ThreadId, target: Mode, n: nat)
    requires n >= 4 && b.At(t) == Beginning(LoadMode(target)) && b.lock == Some(t)
    requires target.Offline? || !b.mode.Offline?
    ensures Advance(b, t, n)
         == b.(mode := target, lock := None, threads := b.threads[t := Idle],
               leases := b.leases[b.nextLease := Lease(target, b.mode, Held, true)], nextLease := b.nextLease + 1)
  {
    var c := Step1(b, t, n);
    if b.mode == target {
      assert c == b.(threads := c.threads) && c.At(t) == Beginning(Issue(target, b.mode));
      IssueTail(c, t, target, b.mode, n - 1);
      assert c.threads[t := Idle] == b.threads[t := Idle];
    } else {
      assert c == b.(threads := c.threads) && c.At(t) == Beginning(CasMode(target, b.mode));
      var d := Step1(c, t, n - 1);
      assert d == b.(mode := target, threads := d.threads) && d.At(t) == Beginning(Issue(target, b.mode));
      IssueTail(d, t, target, b.mode, n - 2);
      assert d.threads[t := Idle] == b.threads[t := Idle];
    }
  }

  lemma IssueTail(c: State, t: ThreadId, target: Mode, previous: Mode, n: nat)
    requires n >= 2 && c.At(t) == Beginning(Issue(target, previous)) && c.lock == Some(t)
    ensures Advance(c, t, n)
         == c.(lock := None, threads := c.threads[t := Idle],
               leases := c.leases[c.nextLease := Lease(target, previous, Held, true)], nextLease := c.nextLease + 1)
  {
    var d := Step1(c, t, n);
    var e := Step1(d, t, n - 1);
    assert e.threads == c.threads[t := Idle];
    IdleStays(e, t, n - 2);
  }

  lemma SoloBegin(s: State, t: ThreadId, readOnly: bool, n: nat)
    requires n >= 6 && s.At(t).Idle? && s.lock.None?
    ensures var s', target := Run(s, Solo(CallBegin(t, readOnly), t, n)), if readOnly then ReadOnly else Offline;
            && Settled(s, t, s')
            && s'.ops == s.ops && s'.writes == s.writes && s'.guards == s.guards
            && if Grants(s.mode, s.active, target)
               then && s'.mode == target && s'.active
                    && s'.leases == s.leases[s.nextLease := Lease(target, s.mode, Held, true)]
                    && s'.nextLease == s.nextLease + 1
               else && s'.mode == s.mode && s'.active == s.active && s'.leases == s.leases
  {
    hide StepStart, StepClose, StepSet, StepValid;
    SoloIsAdvance(s, CallBegin(t, readOnly), t, n);
    var target := if readOnly then ReadOnly else Offline;
    var a := Step1(Next(s, CallBegin(t, readOnly)), t, n);
    assert a == s.(lock := Some(t), threads := a.threads) && a.At(t) == Beginning(CasActive(target));
    ClaimTail(a, t, target, n - 1);
  }

  /** The whole critical section of `try_begin_mode`. */
  lemma ClaimTail(a: State, t: ThreadId, target: Mode, n: nat)
    requires n >= 5 && a.At(t) == Beginning(CasActive(target)) && a.lock == Some(t)
    ensures Advance(a, t, n)
         == if Grants(a.mode, a.active, target)
            then a.(mode := target, active := true, lock := None, threads := a.threads[t := Idle],
                    leases := a.leases[a.nextLease := Lease(target, a.mode, Held, true)], nextLease := a.nextLease + 1)
            else a.(lock := None, threads := a.threads[t := Idle])
  {
    var b := Step1(a, t, n);
    if a.active {
      var c := Step1(b, t, n - 1);
      assert c.threads == a.threads[t := Idle];
      IdleStays(c, t, n - 2);
    } else {
      assert b == a.(active := true, threads := b.threads) && b.At(t) == Beginning(LoadMode(target));
      assert b.threads[t := Idle] == a.threads[t := Idle];
      if a.mode.Offline? && !target.Offline? {
        RefusedTail(b, t, target, n - 1);
      } else {
        BeginTail(b, t, target, n - 1);
      }
    }
  }

  /** ReadOnly is refused while Offline, and the claim is given back. */
  lemma RefusedTail(b: State, t: ThreadId, target: Mode, n: nat)
    requires n >= 3 && b.At(t) == Beginning(LoadMode(target)) && b.lock == Some(t)
    requires b.mode.Offline? && !target.Offline?
    ensures Advance(b, t, n) == b.(active := false, lock := None, threads := b.threads[t := Idle])
  {
    var c := Step1(b, t, n);
    var d := Step1(c, t, n - 1);
    var e := Step1(d, t, n - 2);
    assert e.threads == b.threads[t := Idle];
    IdleStays(e, t, n - 3);
  }

  /** Giving up `maintenance_active`, killing the token and releasing the mutex. */
  lemma GiveUpTail(b: State, t: ThreadId, l: LeaseId, n: nat)
    requires b.At(t) == Closing(l, GiveUp) && b.lock == Some(t) && l in b.leases && n >= 3
    ensures Advance(b, t, n)
         == b.(active := false, lock := None, threads := b.threads[t := Idle],
               leases := b.leases[l := b.leases[l].(phase := Released, tokenActive := false)])
  {
    var c := Step1(b, t, n);
    var d := Step1(c, t, n - 1);
    var e := Step1(d, t, n - 2);
    assert e.threads == b.threads[t := Idle];
    IdleStays(e, t, n - 3);
  }

  lemma SoloRestore(s: State, t: ThreadId, l: LeaseId, m: Mode, n: nat)
    requires n >= 6 && s.At(t).Idle? && s.lock.None? && l in s.leases && s.leases[l].phase.Held?
    ensures var s' := Run(s, Solo(CallRestore(t, l, m), t, n));
            && Settled(s, t, s')
            && s'.ops == s.ops && s'.writes == s.writes && s'.guards == s.guards
            && s'.mode == m && !s'.active
            && s'.leases == s.leases[l := s.leases[l].(phase := Released, tokenActive := false)]
            && s'.nextLease == s.nextLease
  {
    hide StepStart, StepSet, StepBegin, StepValid;
    SoloIsAdvance(s, CallRestore(t, l, m), t, n);
    var a := Step1(Next(s, CallRestore(t, l, m)), t, n);
    assert a == s.(lock := Some(t), threads := a.threads, leases := a.leases);
    assert a.leases == s.leases[l := s.leases[l].(phase := Leaving)] && a.At(t) == Closing(l, ReopenMode(m));
    ReopenTail(a, t, l, m, n - 1);
  }

  /** Storing the mode, and then as when giving up. */
  lemma ReopenTail(a: State, t: ThreadId, l: LeaseId, m: Mode, n: nat)
    requires a.At(t) == Closing(l, ReopenMode(m)) && a.lock == Some(t) && l in a.leases && n >= 4
    ensures Advance(a, t, n)
         == a.(mode := m, active := false, lock := None, threads := a.threads[t := Idle],
               leases := a.leases[l := a.leases[l].(phase := Released, tokenActive := false)])
  {
    var b := Step1(a, t, n);
    assert b == a.(mode := m, threads := b.threads, leases := a.leases[l := a.leases[l].(phase := Reopened)]);
    GiveUpTail(b, t, l, n - 1);
    assert b.threads[t := Idle] == a.threads[t := Idle];
  }

  lemma SoloDropLease(s: State, t: ThreadId, l: LeaseId, n: nat)
    requires n >= 6 && s.At(t).Idle? && s.lock.None? && l in s.leases && s.leases[l].phase.Held?
    ensures var s' := Run(s, Solo(CallDropLease(t, l), t, n));
            && Settled(s, t, s')
            && s'.ops == s.ops && s'.writes == s.writes && s'.guards == s.guards
            && s'.mode == s.mode && !s'.active
            && s'.leases == s.leases[l := s.leases[l].(phase := Released, tokenActive := false)]
  {
    hide StepStart, StepSet, StepBegin, StepValid;
    SoloIsAdvance(s, CallDropLease(t, l), t, n);
    var a := Step1(Next(s, CallDropLease(t, l)), t, n);
    assert a == s.(lock := Some(t), threads := a.threads, leases := a.leases);
    assert a.leases == s.leases[l := s.leases[l].(phase := Leaving)];
    GiveUpTail(a, t, l, n - 1);
  }

  // ----- Restoring one lease twice -----

  lemma SoloStaleRestore(s: State, t: ThreadId, l: LeaseId, m: Mode, n: nat)
    requires n >= 6 && s.At(t).Idle? && s.lock.None? && l in s.leases && s.leases[l].phase.Released?
    ensures var s' := Run(s, Solo(CallStaleRestore(t, l, m), t, n));
            Settled(s, t, s') && s'.mode == m && !s'.active && s'.leases == s.leases
  {
    SoloIsAdvance(s, CallStaleRestore(t, l, m), t, n);
    var a := Step1(Next(s, CallStaleRestore(t, l, m)), t, n);
    assert a == s.(lock := Some(t), threads := a.threads) && a.At(t) == Restoring(StaleMode(m));
    StaleTail(a, t, m, n - 1);
  }

  lemma StaleTail(a: State, t: ThreadId, m: Mode, n: nat)
    requires n >= 3 && a.At(t) == Restoring(StaleMode(m))
    ensures Advance(a, t, n) == a.(mode := m, active := false, lock := None, threads := a.threads[t := Idle])
  {
    var b := Step1(a, t, n);
    var c := Step1(b, t, n - 1);
    var d := Step1(c, t, n - 2);
    assert d.threads == a.threads[t := Idle];
    IdleStays(d, t, n - 3);
  }

  /** With the mutex free, `maintenance_active` says exactly whether a lease is unreleased. */
  ghost predicate Exclusive(s: State) { s.active <==> exists l :: Owning(s, l) }

  /** A second `restore_to` of the same lease keeps the gate exclusive exactly when nobody owns the gate at that moment. */
  lemma StaleRestoreIsSafeIff(s: State, t: ThreadId, l: LeaseId, m: Mode, n: nat)
    requires n >= 6 && s.At(t).Idle? && s.lock.None? && l in s.leases && s.leases[l].phase.Released?
    requires Exclusive(s)
    ensures Exclusive(Run(s, Solo(CallStaleRestore(t, l, m), t, n))) <==> !s.active
  {
    SoloStaleRestore(s, t, l, m, n);
    var s' := Run(s, Solo(CallStaleRestore(t, l, m), t, n));
    assert forall k :: Owning(s', k) == Owning(s, k);
  }

  /** Begin, restore, begin again, restore the first lease again: the second lease is alive in Normal mode. */
  function StaleSchedule(n: nat): seq<Event> {
    Solo(CallBegin(0, false), 0, n) + Solo(CallRestore(0, 0, Normal), 0, n)
    + Solo(CallBegin(0, false), 0, n) + Solo(CallStaleRestore(0, 0, Normal), 0, n)
  }

  lemma StaleRestoreBreaksALease(n: nat)
    requires n >= 6
    ensures var s := Run(Initial, StaleSchedule(n));
            Owning(s, 1) && s.leases[1].target.Offline? && s.mode.Normal? && !s.active
  {
    var p, q, r, z := Solo(CallBegin(0, false), 0, n), Solo(CallRestore(0, 0, Normal), 0, n),
                      Solo(CallBegin(0, false), 0, n), Solo(CallStaleRestore(0, 0, Normal), 0, n);
    RunAppend(Initial, p + q + r, z);
    RunAppend(Initial, p + q, r);
    RunAppend(Initial, p, q);
    SoloBegin(Initial, 0, false, n);
    var s1 := Run(Initial, p);
    SoloRestore(s1, 0, 0, Normal, n);
    var s2 := Run(s1, q);
    SoloBegin(s2, 0, false, n);
    var s3 := Run(s2, r);
    SoloStaleRestore(s3, 0, 0, Normal, n);
  }

  // ----- The methods as written -----

  /** The four atomic cells of `MaintenanceState`. The mutex only matters between threads. */
  class MaintenanceCells {
    var mode: Mode
    var maintenanceActive: bool
    var activeOperations: int
    var activeWrites: int

    constructor ()
      ensures Shows(Initial) && mode.Normal? && !maintenanceActive
    {
      mode := Normal;
      maintenanceActive := false;
      activeOperations := 0;
      activeWrites := 0;
    }

    /** The cells read what the protocol state holds, and the mutex is free. */
    ghost predicate Shows(s: State)
      reads this
    {
      && mode == s.mode && maintenanceActive == s.active
      && activeOperations == s.ops && activeWrites == s.writes
      && s.lock.None?
    }

    method TryStart(write: bool) returns (admitted: bool)
      modifies this
      ensures mode == old(mode) && maintenanceActive == old(maintenanceActive)
      ensures admitted <==> if write then mode == Normal else mode != Offline
      ensures activeOperations == old(activeOperations) + One(admitted)
      ensures activeWrites == old(activeWrites) + One(admitted && write)
      ensures forall s: State, t: ThreadId, n: nat :: n >= 6 && s.At(t).Idle? && old(Shows(s)) ==>
                                                var s' := Run(s, Solo(CallStart(t, write), t, n));
                                                Shows(s') && (admitted <==> s'.nextGuard == s.nextGuard + 1)
    {
      admitted := false;
      if Allowed(mode, write) {
        activeOperations := activeOperations + 1;
        if write { activeWrites := activeWrites + 1; }
        admitted := Allowed(mode, write);
        if write { activeWrites := if admitted then activeWrites else activeWrites - 1; }
        activeOperations := if admitted then activeOperations else activeOperations - 1;
      }
      forall s: State, t: ThreadId, n: nat | n >= 6 && s.At(t).Idle? && old(Shows(s))
        ensures var s' := Run(s, Solo(CallStart(t, write), t, n));
                Shows(s') && (admitted <==> s'.nextGuard == s.nextGuard + 1)
      {
        SoloStart(s, t, write, n);
      }
    }

    method Set(m: Mode)
      modifies this
      ensures mode == (if old(maintenanceActive) && !m.Offline? then old(mode) else m)
      ensures maintenanceActive == old(maintenanceActive)
      ensures forall s: State, t: ThreadId, n: nat :: n >= 6 && s.At(t).Idle? && old(Shows(s)) ==>
                                                Shows(Run(s, Solo(CallSet(t, m), t, n)))
    {
      if !(maintenanceActive && !m.Offline?) {
        mode := m;
        if !m.Offline? { maintenanceActive := false; }
      }
      forall s: State, t: ThreadId, n: nat | n >= 6 && s.At(t).Idle? && old(Shows(s))
        ensures Shows(Run(s, Solo(CallSet(t, m), t, n)))
      {
        SoloSet(s, t, m, n);
      }
    }

    /** Returns the previous mode when the lease is granted. */
    method TryBeginMode(readOnly: bool) returns (previous: Option<Mode>)
      modifies this
      ensures previous == (if old(maintenanceActive) || (old(mode).Offline? && readOnly) then None else Some(old(mode)))
      ensures previous.Some? ==> maintenanceActive && mode == (if readOnly then ReadOnly else Offline)
      ensures previous.None? ==> maintenanceActive == old(maintenanceActive) && mode == old(mode)
      ensures forall s: State, t: ThreadId, n: nat :: n >= 6 && s.At(t).Idle? && old(Shows(s)) ==>
                                                var s' := Run(s, Solo(CallBegin(t, readOnly), t, n));
                                                && Shows(s')
                                                && match previous
                                                   case None => s'.leases == s.leases
                                                   case Some(p) => Owning(s', s.nextLease) && s'.leases[s.nextLease].previous == p
    {
      var target := if readOnly then ReadOnly else Offline;
      previous := None;
      if !maintenanceActive {
        maintenanceActive := true;
        var seen := mode;
        if seen.Offline? && !target.Offline? {
          maintenanceActive := false;
        } else {
          if seen != target { mode := target; }
          previous := Some(seen);
        }
      }
      forall s: State, t: ThreadId, n: nat | n >= 6 && s.At(t).Idle? && old(Shows(s))
        ensures var s' := Run(s, Solo(CallBegin(t, readOnly), t, n));
                && Shows(s')
                && match previous
                   case None => s'.leases == s.leases
                   case Some(p) => Owning(s', s.nextLease) && s'.leases[s.nextLease].previous == p
      {
        SoloBegin(s, t, readOnly, n);
      }
    }

    method RestoreTo(m: Mode)
      modifies this
      ensures mode == m && !maintenanceActive
      ensures forall s: State, t: ThreadId, l, n: nat ::
                n >= 6 && s.At(t).Idle? && old(Shows(s)) && l in s.leases && s.leases[l].phase.Held? ==>
                  Shows(Run(s, Solo(CallRestore(t, l, m), t, n)))
    {
      mode := m;
      maintenanceActive := false;
      forall s: State, t: ThreadId, l, n: nat | n >= 6 && s.At(t).Idle? && old(Shows(s)) && l in s.leases && s.leases[l].phase.Held?
        ensures Shows(Run(s, Solo(CallRestore(t, l, m), t, n)))
      {
        SoloRestore(s, t, l, m, n);
      }
    }

    method DropUnreleasedLease()
      modifies this
      ensures mode == old(mode) && !maintenanceActive
      ensures forall s: State, t: ThreadId, l, n: nat ::
                n >= 6 && s.At(t).Idle? && old(Shows(s)) && l in s.leases && s.leases[l].phase.Held? ==>
                  Shows(Run(s, Solo(CallDropLease(t, l), t, n)))
    {
      maintenanceActive := false;
      forall s: State, t: ThreadId, l, n: nat | n >= 6 && s.At(t).Idle? && old(Shows(s)) && l in s.leases && s.leases[l].phase.Held?
        ensures Shows(Run(s, Solo(CallDropLease(t, l), t, n)))
      {
        SoloDropLease(s, t, l, n);
      }
    }
  }
}
