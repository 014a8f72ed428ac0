/**
 Safety of the gate over every schedule in which no lease is restored a second time while
 somebody owns the gate: exclusive leases, a protected mode, and a drain that stays drained.
 */
module GateSafety {
  import opened Prelude
  import opened GateProtocol
  import opened GateCounters

  // ----- The inductive invariant -----

  /** The thread is between taking and releasing the transition mutex. */
  predicate Critical(pc: Pc) {
    pc.Setting? || pc.Beginning? || pc.Closing? || pc.Restoring? || pc.Unlocking?
  }

  /** The thread has won `maintenance_active` and has no lease yet. */
  predicate Claims(pc: Pc) { pc.Beginning? && !pc.begin.CasActive? }

  ghost predicate MutexHeld(s: State) {
    forall t: ThreadId :: Critical(s.At(t)) <==> s.lock == Some(t)
  }

  ghost predicate Owning(s: State, l: LeaseId) { l in s.leases && s.leases[l].Owns() }

  ghost predicate Claimed(s: State) { s.lock.Some? && Claims(s.At(s.lock.value)) }

  /** `maintenance_active` is owned by one lease or by one thread about to issue one. */
  ghost predicate OneOwner(s: State) {
    && (forall l, k :: Owning(s, l) && Owning(s, k) ==> l == k)
    && (Claimed(s) ==> forall l :: !Owning(s, l))
    && (s.active <==> Claimed(s) || exists l :: Owning(s, l))
  }

  /** A protecting lease dictates the mode. */
  ghost predicate ModeKept(s: State) {
    forall l :: l in s.leases ==>
                  && l < s.nextLease
                  && !s.leases[l].target.Normal?
                  && (s.Protecting(l) ==> !s.mode.Normal? && (s.leases[l].target.Offline? ==> s.mode.Offline?))
  }

  /** What the holder of the mutex may rely on. */
  ghost predicate HolderFacts(s: State, pc: Pc) {
    match pc
    case Setting(StoreMode(m)) => m.Offline? || !s.active
    case Setting(ClearActive) => !s.active
    case Beginning(CasActive(target)) => !target.Normal?
    case Beginning(LoadMode(target)) => !target.Normal?
    case Beginning(CasMode(target, previous)) => s.mode == previous && !target.Normal?
    case Beginning(Issue(target, previous)) => s.mode == target && !target.Normal?
    case Closing(l, ReopenMode(m)) => l in s.leases && s.leases[l].phase.Leaving?
    case Closing(l, GiveUp) => l in s.leases && (s.leases[l].phase.Leaving? || s.leases[l].phase.Reopened?)
    case Closing(l, KillToken) => l in s.leases && s.leases[l].phase.Released?
    case Restoring(_) => !s.active
    case _ => true
  }

  /** What a thread that waits for the mutex may rely on. */
  ghost predicate WaiterFacts(s: State, pc: Pc) {
    match pc
    case Entering(ToBegin(target)) => !target.Normal?
    case Entering(ToRestore(l, m)) => l in s.leases && s.leases[l].phase.Leaving?
    case Entering(ToDrop(l)) => l in s.leases && s.leases[l].phase.Leaving?
    case _ => true
  }

  ghost predicate Promises(s: State) {
    && (forall t: ThreadId :: WaiterFacts(s, s.At(t)))
    && (s.lock.Some? ==> HolderFacts(s, s.At(s.lock.value)))
  }

  /** The lease a thread is closing. */
  function ClosedBy(pc: Pc): Option<LeaseId> {
    match pc
    case Entering(ToRestore(l, m)) => Some(l)
    case Entering(ToDrop(l)) => Some(l)
    case Closing(l, _) => Some(l)
    case _ => None
  }

  ghost predicate OneCloser(s: State) {
    forall t: ThreadId, u: ThreadId ::
      ClosedBy(s.At(t)).Some? && ClosedBy(s.At(t)) == ClosedBy(s.At(u)) ==> t == u
  }

  /** A released lease's token is dead, or the mutex holder is about to kill it. */
  ghost predicate TokensDie(s: State) {
    forall l :: l in s.leases && s.leases[l].phase.Released? && s.leases[l].tokenActive ==>
                  s.lock.Some? && s.At(s.lock.value) == Closing(l, KillToken)
  }

  /** What a running `is_valid` has established about a lease that still protects the mode. */
  ghost predicate ValidFacts(s: State, pc: Pc) {
    pc.Validating? ==>
      && pc.l in s.leases
      && (s.Protecting(pc.l) && !pc.valid.CheckMode? ==>
            s.mode.Offline? && (pc.valid.CheckOps? || s.guards == map[]))
  }

  ghost predicate Validations(s: State) {
    forall t: ThreadId :: ValidFacts(s, s.At(t))
  }

  ghost predicate Inv(s: State) {
    && Conserved(s)
    && MutexHeld(s)
    && OneOwner(s)
    && ModeKept(s)
    && Promises(s)
    && OneCloser(s)
    && TokensDie(s)
    && Validations(s)
  }

  // ----- Preservation, one family of steps at a time -----

  /** A thread outside the mutex moves on without touching mode, ownership or leases. */
  ghost predicate Quiet(s: State, t: ThreadId, s': State) {
    && s'.threads == s.threads[t := s'.At(t)]
    && s'.mode == s.mode && s'.active == s.active && s'.lock == s.lock
    && s'.leases == s.leases && s'.nextLease == s.nextLease
    && !Critical(s.At(t)) && !Critical(s'.At(t))
  }

  lemma QuietKeepsOwnership(s: State, t: ThreadId, s': State)
    requires MutexHeld(s) && OneOwner(s) && ModeKept(s) && Quiet(s, t, s')
    ensures MutexHeld(s') && OneOwner(s') && ModeKept(s')
  {
    assert forall u: ThreadId :: u != t ==> s'.At(u) == s.At(u);
    assert Claimed(s') == Claimed(s);
    assert forall l :: Owning(s', l) == Owning(s, l);
  }

  lemma QuietKeepsPromises(s: State, t: ThreadId, s': State)
    requires MutexHeld(s) && Promises(s) && OneCloser(s) && TokensDie(s) && Quiet(s, t, s')
    requires WaiterFacts(s', s'.At(t)) && ClosedBy(s'.At(t)).None?
    ensures Promises(s') && OneCloser(s') && TokensDie(s')
  {
    assert forall u: ThreadId :: u != t ==> s'.At(u) == s.At(u);
  }

  lemma QuietKeepsValidations(s: State, t: ThreadId, s': State)
    requires Validations(s) && Quiet(s, t, s') && ValidFacts(s', s'.At(t))
    requires s'.guards == s.guards || !s.mode.Offline?
    ensures Validations(s')
  {
    assert forall u: ThreadId :: u != t ==> s'.At(u) == s.At(u);
  }

  lemma QuietKeeps(s: State, t: ThreadId, s': State)
    requires Inv(s) && Quiet(s, t, s') && Conserved(s')
    requires WaiterFacts(s', s'.At(t)) && ClosedBy(s'.At(t)).None? && ValidFacts(s', s'.At(t))
    requires s'.guards == s.guards || !s.mode.Offline?
    ensures Inv(s')
  {
    QuietKeepsOwnership(s, t, s');
    QuietKeepsPromises(s, t, s');
    QuietKeepsValidations(s, t, s');
  }

  lemma StartIsQuiet(s: State, t: ThreadId)
    requires s.At(t).Starting?
    ensures var s' := StepThread(s, t);
            && Quiet(s, t, s')
            && (s'.At(t).Starting? || s'.At(t).Idle?)
            && (s'.guards == s.guards || !s.mode.Offline?)
  {
    hide StepClose, StepSet, StepBegin, StepValid;
  }

  lemma StartKeeps(s: State, t: ThreadId)
    requires Inv(s) && s.At(t).Starting?
    ensures Inv(StepThread(s, t))
  {
    ThreadStepConserves(s, t);
    StartIsQuiet(s, t);
    QuietKeeps(s, t, StepThread(s, t));
  }

  lemma DrainedMeansNoGuards(s: State)
    requires Conserved(s) && s.ops == 0
    ensures s.guards == map[]
  {
  }

  lemma ValidStepFacts(s: State, t: ThreadId)
    requires s.At(t).Validating? && ValidFacts(s, s.At(t)) && Conserved(s)
    ensures var s' := StepThread(s, t);
            && Quiet(s, t, s')
            && (s'.At(t).Validating? || s'.At(t).Idle?)
            && s'.guards == s.guards
            && ValidFacts(s', s'.At(t))
  {
  }

  lemma ValidKeeps(s: State, t: ThreadId)
    requires Inv(s) && s.At(t).Validating?
    ensures Inv(StepThread(s, t))
  {
    ThreadStepConserves(s, t);
    ValidStepFacts(s, t);
    QuietKeeps(s, t, StepThread(s, t));
  }

  lemma QuietCallKeeps(s: State, e: Event)
    requires Inv(s) && (e.CallStart? || e.CallSet? || e.CallBegin? || e.CallIsValid? || e.CallStaleRestore?)
    ensures Inv(Next(s, e))
  {
    hide Conserved, StepThread;
    EventConserves(s, e);
    if Next(s, e) != s { QuietKeeps(s, e.t, Next(s, e)); }
  }

  lemma DropGuardKeeps(s: State, g: GuardId)
    requires Inv(s) && g in s.guards
    ensures Inv(StepDropGuard(s, g))
  {
    hide Conserved;
    var s' := StepDropGuard(s, g);
    GuardStepConserves(s, g);
    assert forall u: ThreadId :: s'.At(u) == s.At(u);
    assert Claimed(s') == Claimed(s);
    assert forall l :: Owning(s', l) == Owning(s, l);
  }

  // ----- Steps that hold the mutex -----

  /** The mutex holder moves on, still holding it; threads outside see only mode, active and leases change. */
  ghost predicate Holds(s: State, t: ThreadId, s': State) {
    && s'.threads == s.threads[t := s'.At(t)]
    && s.lock == Some(t) && s'.lock == s.lock
    && s'.guards == s.guards
    && Critical(s.At(t)) && Critical(s'.At(t))
  }

  lemma HoldsKeepsMutex(s: State, t: ThreadId, s': State)
    requires MutexHeld(s) && Holds(s, t, s')
    ensures MutexHeld(s')
  {
  }

  /** The leases are the same, so only the holder's own facts are new. */
  lemma HoldsKeepsPromises(s: State, t: ThreadId, s': State)
    requires MutexHeld(s) && Promises(s) && OneCloser(s) && TokensDie(s) && Holds(s, t, s')
    requires s'.leases == s.leases && !s.At(t).Closing?
    requires HolderFacts(s', s'.At(t)) && !s'.At(t).Closing?
    ensures Promises(s') && OneCloser(s') && TokensDie(s')
  {
    assert forall u: ThreadId :: u != t ==> s'.At(u) == s.At(u);
  }

  lemma HoldsKeepsValidations(s: State, t: ThreadId, s': State)
    requires Validations(s) && Holds(s, t, s')
    requires forall l :: l in s.leases ==> l in s'.leases && (s'.Protecting(l) ==> s.Protecting(l))
    requires s'.mode == s.mode || s'.mode.Offline? || forall l :: l in s.leases ==> !s'.Protecting(l)
    ensures Validations(s')
  {
    forall u: ThreadId
      ensures ValidFacts(s', s'.At(u))
    {
      if u != t { assert s'.At(u) == s.At(u) && ValidFacts(s, s.At(u)); }
    }
  }

  // set

  lemma SetStepFacts(s: State, t: ThreadId)
    requires Inv(s) && s.At(t).Setting?
    ensures var s' := StepThread(s, t);
            && Holds(s, t, s')
            && s'.leases == s.leases && s'.nextLease == s.nextLease
            && s'.active == s.active
            && (s'.mode == s.mode || s'.mode.Offline? || !s.active)
            && (s'.At(t).Setting? || s'.At(t).Unlocking?)
            && HolderFacts(s', s'.At(t))
  {
  }

  lemma NoOwnerWhenInactive(s: State)
    requires OneOwner(s) && !s.active
    ensures forall l :: !Owning(s, l)
    ensures forall l :: !s.Protecting(l)
  {
    forall l ensures !s.Protecting(l) { assert !Owning(s, l); }
  }

  lemma SetKeepsOwnership(s: State, t: ThreadId, s': State)
    requires OneOwner(s) && ModeKept(s) && Holds(s, t, s')
    requires s'.leases == s.leases && s'.nextLease == s.nextLease && s'.active == s.active
    requires s'.mode == s.mode || s'.mode.Offline? || !s.active
    requires !Claims(s.At(t)) && !Claims(s'.At(t))
    ensures OneOwner(s') && ModeKept(s')
  {
    assert !Claimed(s) && !Claimed(s');
    forall l ensures Owning(s', l) == Owning(s, l) && s'.Protecting(l) == s.Protecting(l) { }
    if s.active {
      var l :| Owning(s, l);
      assert Owning(s', l);
    } else {
      NoOwnerWhenInactive(s);
    }
  }

  lemma SetKeeps(s: State, t: ThreadId)
    requires Inv(s) && s.At(t).Setting?
    ensures Inv(StepThread(s, t))
  {
    var s' := StepThread(s, t);
    ThreadStepConserves(s, t);
    SetStepFacts(s, t);
    HoldsKeepsMutex(s, t, s');
    SetKeepsOwnership(s, t, s');
    HoldsKeepsPromises(s, t, s');
    if !s.active { NoOwnerWhenInactive(s); }
    HoldsKeepsValidations(s, t, s');
  }

  // try_begin_mode

  lemma BeginKeepsOwnership(s: State, t: ThreadId)
    requires Inv(s) && s.At(t).Beginning? && !s.At(t).begin.Issue?
    ensures OneOwner(StepThread(s, t)) && ModeKept(StepThread(s, t))
  {
    var s' := StepThread(s, t);
    assert s.lock == Some(t);
    assert s'.leases == s.leases;
    assert forall l :: Owning(s', l) == Owning(s, l);
    if !s.active { NoOwnerWhenInactive(s); }
    assert forall l :: l in s.leases && s.Protecting(l) ==> Owning(s, l);
  }

  lemma IssueKeepsOwnership(s: State, t: ThreadId)
    requires Inv(s) && s.At(t).Beginning? && s.At(t).begin.Issue?
    ensures OneOwner(StepThread(s, t)) && ModeKept(StepThread(s, t))
  {
    var s' := StepThread(s, t);
    assert s.lock == Some(t) && Claimed(s) && HolderFacts(s, s.At(t));
    assert s.nextLease !in s.leases;
    var issued := s.nextLease;
    forall l ensures Owning(s', l) <==> l == issued {
      assert !Owning(s, l);
    }
    assert Owning(s', issued);
  }

  lemma BeginStepFacts(s: State, t: ThreadId)
    requires Inv(s) && s.At(t).Beginning?
    ensures var s' := StepThread(s, t);
            && Holds(s, t, s')
            && (s'.At(t).Beginning? || s'.At(t).Unlocking?)
            && HolderFacts(s', s'.At(t))
            && (s'.mode == s.mode || Claimed(s))
            && (s'.leases == s.leases || (s'.leases == s.leases[s.nextLease := s'.leases[s.nextLease]]))
            && (s'.leases != s.leases ==> s.nextLease in s'.leases && s'.leases[s.nextLease].phase.Held?)
  {
    assert s.lock == Some(t);
    assert HolderFacts(s, s.At(t));
  }

  /** A new lease joins; nothing was promised about it before. */
  lemma IssueKeepsPromises(s: State, t: ThreadId, s': State)
    requires MutexHeld(s) && ModeKept(s) && Promises(s) && OneCloser(s) && TokensDie(s) && Holds(s, t, s')
    requires s.nextLease !in s.leases && s.nextLease in s'.leases && s'.leases[s.nextLease].phase.Held?
    requires s'.leases == s.leases[s.nextLease := s'.leases[s.nextLease]]
    requires s.At(t).Beginning? && s'.At(t).Unlocking?
    ensures Promises(s') && OneCloser(s') && TokensDie(s')
  {
    assert forall u: ThreadId :: u != t ==> s'.At(u) == s.At(u);
  }

  lemma BeginKeepsPromises(s: State, t: ThreadId)
    requires Inv(s) && s.At(t).Beginning?
    ensures Promises(StepThread(s, t)) && OneCloser(StepThread(s, t)) && TokensDie(StepThread(s, t))
  {
    var s' := StepThread(s, t);
    BeginStepFacts(s, t);
    if s.At(t).begin.Issue? {
      IssueKeepsPromises(s, t, s');
    } else {
      HoldsKeepsPromises(s, t, s');
    }
  }

  lemma BeginKeepsValidations(s: State, t: ThreadId)
    requires Inv(s) && s.At(t).Beginning?
    ensures Validations(StepThread(s, t))
  {
    var s' := StepThread(s, t);
    BeginStepFacts(s, t);
    assert s.nextLease !in s.leases;
    forall l | l in s.leases
      ensures l in s'.leases && s'.leases[l] == s.leases[l]
      ensures s'.mode == s.mode || !s'.Protecting(l)
    {
      if Claimed(s) { assert !Owning(s, l); }
    }
    HoldsKeepsValidations(s, t, s');
  }

  lemma BeginKeeps(s: State, t: ThreadId)
    requires Inv(s) && s.At(t).Beginning?
    ensures Inv(StepThread(s, t))
  {
    ThreadStepConserves(s, t);
    BeginStepFacts(s, t);
    HoldsKeepsMutex(s, t, StepThread(s, t));
    if s.At(t).begin.Issue? { IssueKeepsOwnership(s, t); } else { BeginKeepsOwnership(s, t); }
    BeginKeepsPromises(s, t);
    BeginKeepsValidations(s, t);
  }

  // restore_to and the drop of a lease

  lemma CloseKeepsOwnership(s: State, t: ThreadId)
    requires Inv(s) && s.At(t).Closing?
    ensures OneOwner(StepThread(s, t)) && ModeKept(StepThread(s, t))
  {
    var s' := StepThread(s, t);
    var l := s.At(t).l;
    assert s.lock == Some(t) && HolderFacts(s, s.At(t));
    forall k ensures Owning(s', k) ==> Owning(s, k) { }
    if s.At(t).close.KillToken? {
      forall k ensures Owning(s', k) == Owning(s, k) { }
    } else {
      assert Owning(s, l);
      forall k ensures !s'.Protecting(k) { if Owning(s, k) { assert k == l; } }
      assert s.At(t).close.ReopenMode? ==> Owning(s', l);
    }
  }

  lemma CloseStepFacts(s: State, t: ThreadId)
    requires Inv(s) && s.At(t).Closing?
    ensures var s', l := StepThread(s, t), s.At(t).l;
            && Holds(s, t, s')
            && (s'.At(t).Unlocking? || (s'.At(t).Closing? && s'.At(t).l == l))
            && HolderFacts(s', s'.At(t))
            && l in s.leases && l in s'.leases && s'.leases == s.leases[l := s'.leases[l]]
            && (s'.leases[l].Protects() ==> s'.leases[l].phase == s.leases[l].phase)
            && (s'.mode == s.mode || !s'.leases[l].Protects())
            && (s'.leases[l].phase.Released? && s'.leases[l].tokenActive ==> s'.At(t) == Closing(l, KillToken))
  {
    assert s.lock == Some(t);
    assert HolderFacts(s, s.At(t));
  }

  lemma CloseKeepsPromises(s: State, t: ThreadId)
    requires Inv(s) && s.At(t).Closing?
    ensures Promises(StepThread(s, t)) && OneCloser(StepThread(s, t)) && TokensDie(StepThread(s, t))
  {
    var s', l := StepThread(s, t), s.At(t).l;
    CloseStepFacts(s, t);
    assert ClosedBy(s.At(t)) == Some(l);
    forall u: ThreadId | u != t
      ensures s'.At(u) == s.At(u) && WaiterFacts(s', s.At(u))
    {
      assert WaiterFacts(s, s.At(u));
      assert ClosedBy(s.At(u)) != Some(l);
    }
  }

  lemma CloseKeepsValidations(s: State, t: ThreadId)
    requires Inv(s) && s.At(t).Closing?
    ensures Validations(StepThread(s, t))
  {
    var s', l := StepThread(s, t), s.At(t).l;
    CloseStepFacts(s, t);
    CloseKeepsOwnership(s, t);
    forall k | k in s.leases && s'.mode != s.mode
      ensures !s'.Protecting(k)
    {
      if s'.Protecting(k) { assert Owning(s', k) && Owning(s', l); }
    }
    HoldsKeepsValidations(s, t, s');
  }

  lemma CloseKeeps(s: State, t: ThreadId)
    requires Inv(s) && s.At(t).Closing?
    ensures Inv(StepThread(s, t))
  {
    ThreadStepConserves(s, t);
    CloseStepFacts(s, t);
    HoldsKeepsMutex(s, t, StepThread(s, t));
    CloseKeepsOwnership(s, t);
    CloseKeepsPromises(s, t);
    CloseKeepsValidations(s, t);
  }

  // restoring a second time

  lemma AgainStepFacts(s: State, t: ThreadId)
    requires Inv(s) && s.At(t).Restoring?
    ensures var s' := StepThread(s, t);
            && Holds(s, t, s')
            && s'.leases == s.leases && s'.nextLease == s.nextLease
            && !s.active && !s'.active
            && (s'.At(t).Restoring? || s'.At(t).Unlocking?)
            && HolderFacts(s', s'.At(t))
  {
  }

  lemma AgainKeeps(s: State, t: ThreadId)
    requires Inv(s) && s.At(t).Restoring?
    ensures Inv(StepThread(s, t))
  {
    var s' := StepThread(s, t);
    ThreadStepConserves(s, t);
    AgainStepFacts(s, t);
    HoldsKeepsMutex(s, t, s');
    SetKeepsOwnership(s, t, s');
    HoldsKeepsPromises(s, t, s');
    NoOwnerWhenInactive(s);
    HoldsKeepsValidations(s, t, s');
  }

  // taking and releasing the mutex

  lemma EnterFacts(s: State, t: ThreadId)
    requires s.At(t).Entering? && s.lock.None?
    ensures var s' := StepThread(s, t);
            && s' == s.(lock := Some(t), threads := s.threads[t := Entered(s.At(t).call)])
            && ClosedBy(s'.At(t)) == ClosedBy(s.At(t))
            && !Claims(s'.At(t)) && Critical(s'.At(t))
            && (WaiterFacts(s, s.At(t)) && Careful(s, Step(t)) ==> HolderFacts(s', s'.At(t)))
  {
  }

  lemma EnterKeeps(s: State, t: ThreadId)
    requires Inv(s) && s.At(t).Entering? && s.lock.None? && Careful(s, Step(t))
    ensures Inv(StepThread(s, t))
  {
    var s' := StepThread(s, t);
    ThreadStepConserves(s, t);
    EnterFacts(s, t);
    MutexChangeKeeps(s, t, s');
  }

  lemma UnlockKeeps(s: State, t: ThreadId)
    requires Inv(s) && s.At(t).Unlocking?
    ensures Inv(StepThread(s, t))
  {
    var s' := StepThread(s, t);
    ThreadStepConserves(s, t);
    assert s.lock == Some(t);
    MutexChangeKeeps(s, t, s');
  }

  /** Only the mutex and the position of one thread change. */
  lemma MutexChangeKeeps(s: State, t: ThreadId, s': State)
    requires Inv(s) && Conserved(s')
    requires s' == s.(lock := s'.lock, threads := s.threads[t := s'.At(t)])
    requires !Claims(s.At(t)) && !Claims(s'.At(t)) && !s'.At(t).Validating?
    requires !s.At(t).Closing?
    requires || (s.lock.None? && s'.lock == Some(t) && Critical(s'.At(t)) && HolderFacts(s', s'.At(t)))
             || (s.lock == Some(t) && s'.lock.None? && s'.At(t).Idle?)
    requires ClosedBy(s'.At(t)).None? || ClosedBy(s'.At(t)) == ClosedBy(s.At(t))
    requires WaiterFacts(s', s'.At(t))
    ensures Inv(s')
  {
    MutexChangeKeepsMutex(s, t, s');
    assert !Claimed(s);
    assert forall l :: Owning(s', l) == Owning(s, l);
    assert forall u: ThreadId :: u != t ==> s'.At(u) == s.At(u);
  }

  lemma MutexChangeKeepsMutex(s: State, t: ThreadId, s': State)
    requires MutexHeld(s)
    requires s' == s.(lock := s'.lock, threads := s.threads[t := s'.At(t)])
    requires || (s.lock.None? && s'.lock == Some(t) && Critical(s'.At(t)))
             || (s.lock == Some(t) && s'.lock.None? && s'.At(t).Idle?)
    ensures MutexHeld(s')
  {
  }

  // calls that start to close a lease

  lemma CloseCallFacts(s: State, e: Event)
    requires (e.CallRestore? || e.CallDropLease?) && Next(s, e) != s
    ensures var s' := Next(s, e);
            && s.At(e.t).Idle? && e.l in s.leases && s.leases[e.l].phase.Held?
            && s' == s.(threads := s.threads[e.t := s'.At(e.t)], leases := s.leases[e.l := s.leases[e.l].(phase := Leaving)])
            && s'.At(e.t).Entering? && ClosedBy(s'.At(e.t)) == Some(e.l) && WaiterFacts(s', s'.At(e.t))
  {
  }

  lemma CloseCallKeepsOwnership(s: State, e: Event)
    requires Inv(s) && (e.CallRestore? || e.CallDropLease?) && Next(s, e) != s
    ensures var s' := Next(s, e); MutexHeld(s') && OneOwner(s') && ModeKept(s')
  {
    var s' := Next(s, e);
    CloseCallFacts(s, e);
    assert forall u: ThreadId :: u != e.t ==> s'.At(u) == s.At(u);
    assert Claimed(s') == Claimed(s);
    forall l ensures Owning(s', l) == Owning(s, l) && s'.Protecting(l) == s.Protecting(l) { }
  }

  /** A lease that is still Held is being closed by nobody. */
  lemma HeldHasNoCloser(s: State, l: LeaseId, u: ThreadId)
    requires MutexHeld(s) && Promises(s) && l in s.leases && s.leases[l].phase.Held?
    ensures ClosedBy(s.At(u)) != Some(l)
  {
  }

  lemma CloseCallKeepsPromises(s: State, e: Event)
    requires Inv(s) && (e.CallRestore? || e.CallDropLease?) && Next(s, e) != s
    ensures var s' := Next(s, e); Promises(s') && OneCloser(s') && TokensDie(s') && Validations(s')
  {
    var s' := Next(s, e);
    CloseCallFacts(s, e);
    forall u: ThreadId | u != e.t
      ensures s'.At(u) == s.At(u) && ClosedBy(s.At(u)) != Some(e.l)
      ensures WaiterFacts(s', s'.At(u)) && ValidFacts(s', s'.At(u))
    {
      HeldHasNoCloser(s, e.l, u);
      assert WaiterFacts(s, s.At(u)) && ValidFacts(s, s.At(u));
    }
    assert s.lock != Some(e.t);
  }

  lemma CloseCallKeeps(s: State, e: Event)
    requires Inv(s) && (e.CallRestore? || e.CallDropLease?)
    ensures Inv(Next(s, e))
  {
    EventConserves(s, e);
    if Next(s, e) != s {
      CloseCallKeepsOwnership(s, e);
      CloseCallKeepsPromises(s, e);
    }
  }

  lemma EventKeeps(s: State, e: Event)
    requires Inv(s) && Careful(s, e)
    ensures Inv(Next(s, e))
  {
    match e
    case Step(t) => ThreadStepKeeps(s, t);
    case DropGuard(g) => if g in s.guards { DropGuardKeeps(s, g); }
    case CallRestore(_, _, _) => CloseCallKeeps(s, e);
    case CallDropLease(_, _) => CloseCallKeeps(s, e);
    case _ => QuietCallKeeps(s, e);
  }

  lemma ThreadStepKeeps(s: State, t: ThreadId)
    requires Inv(s) && Careful(s, Step(t))
    ensures Inv(StepThread(s, t))
  {
    match s.At(t)
    case Idle =>
    case Starting(_) => StartKeeps(s, t);
    case Entering(_) => if s.lock.None? { EnterKeeps(s, t); }
    case Setting(_) => SetKeeps(s, t);
    case Beginning(_) => BeginKeeps(s, t);
    case Closing(_, _) => CloseKeeps(s, t);
    case Restoring(_) => AgainKeeps(s, t);
    case Validating(_, _) => ValidKeeps(s, t);
    case Unlocking => UnlockKeeps(s, t);
  }

  lemma {:induction false} RunKeeps(s: State, schedule: seq<Event>)
    requires Inv(s) && CarefulRun(s, schedule)
    ensures Inv(Run(s, schedule))
    decreases |schedule|
  {
    if schedule != [] {
      EventKeeps(s, schedule[0]);
      RunKeeps(Next(s, schedule[0]), schedule[1..]);
    }
  }
}
