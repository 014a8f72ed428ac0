/**
 Restoring one lease twice, in every interleaving: it is harmless as long as the second
 restore takes the mutex while nobody owns the gate, and breaks the gate otherwise.
 */
module GateAgain {
  import opened Prelude
  import opened GateProtocol
  import opened GateSafety
  import opened GateCounters
  import opened GateTheorems

  // ----- Schedules without a second restore are careful -----

  ghost predicate NobodyAgain(s: State) {
    forall t: ThreadId :: !(s.At(t).Entering? && s.At(t).call.ToRestoreAgain?)
  }

  /** Only one thread has moved, and not to the mutex's door. */
  ghost predicate Moves(s: State, t: ThreadId, s': State) {
    s'.threads == s.threads || (s'.threads == s.threads[t := s'.At(t)] && !s'.At(t).Entering?)
  }

  lemma BeginMoves(s: State, t: ThreadId)
    requires s.At(t).Beginning?
    ensures Moves(s, t, StepThread(s, t))
  {
  }

  lemma CloseMoves(s: State, t: ThreadId)
    requires s.At(t).Closing?
    ensures Moves(s, t, StepThread(s, t))
  {
  }

  lemma StepMoves(s: State, t: ThreadId)
    ensures Moves(s, t, StepThread(s, t))
  {
    match s.At(t)
    case Starting(pc) => StartIsQuiet(s, t);
    case Beginning(pc) => BeginMoves(s, t);
    case Closing(l, pc) => CloseMoves(s, t);
    case _ =>
  }

  lemma NobodyStays(s: State, e: Event)
    requires NobodyAgain(s) && !e.CallStaleRestore?
    ensures NobodyAgain(Next(s, e))
  {
    var s' := Next(s, e);
    if e.Step? {
      StepMoves(s, e.t);
      forall u: ThreadId
        ensures s'.At(u) == s.At(u) || !s'.At(u).Entering?
      {
      }
    } else if e.DropGuard? {
      assert forall u: ThreadId :: s'.At(u) == s.At(u);
    } else {
      assert forall u: ThreadId :: u != e.t ==> s'.At(u) == s.At(u);
    }
  }

  lemma {:induction false} OnceIsCarefulFrom(s: State, schedule: seq<Event>)
    requires NobodyAgain(s) && RestoredOnce(schedule)
    ensures CarefulRun(s, schedule)
    decreases |schedule|
  {
    if schedule != [] {
      NobodyStays(s, schedule[0]);
      assert forall i :: 0 <= i < |schedule[1..]| ==> schedule[1..][i] == schedule[i + 1];
      OnceIsCarefulFrom(Next(s, schedule[0]), schedule[1..]);
    }
  }

  /** If each lease is restored at most once, the schedule is careful, so every theorem about the gate applies. */
  lemma RestoredOnceIsCareful(schedule: seq<Event>)
    requires RestoredOnce(schedule)
    ensures CarefulRun(Initial, schedule)
  {
    OnceIsCarefulFrom(Initial, schedule);
  }

  // ----- A careless second restore -----

  /** The thread holds the mutex, nobody else is inside, and the lease is unreleased. */
  ghost predicate Inside(s: State, t: ThreadId, l: LeaseId) {
    s.lock == Some(t) && Owning(s, l) && forall u: ThreadId :: u != t ==> !Critical(s.At(u))
  }

  lemma InsideStays(s: State, s': State, u: ThreadId, t: ThreadId, l: LeaseId)
    requires Inside(s, t, l) && s'.lock == s.lock && Owning(s', l)
    requires s'.threads == s.threads || (s'.threads == s.threads[u := s'.At(u)] && (u == t || !Critical(s'.At(u))))
    ensures Inside(s', t, l) && (u != t ==> s'.At(t) == s.At(t))
  {
    forall v: ThreadId | v != t
      ensures !Critical(s'.At(v))
    {
      assert !Critical(s.At(v)) && (v != u ==> s'.At(v) == s.At(v));
    }
  }

  /** What the others do while a thread is inside leaves the mutex, the gate's owner and the thread alone. */
  lemma OthersStayOutside(s: State, e: Event, t: ThreadId, l: LeaseId)
    requires Inside(s, t, l) && e != Step(t) && Critical(s.At(t))
    ensures var s' := Next(s, e); Inside(s', t, l) && s'.At(t) == s.At(t) && s'.active == s.active
  {
    var s' := Next(s, e);
    match e
    case Step(u) => OtherStepStaysOutside(s, u, t, l);
    case DropGuard(g) => InsideStays(s, s', t, t, l);
    case _ =>
      if s' != s {
        CallStaysOutside(s, e, l);
        InsideStays(s, s', e.t, t, l);
      }
  }

  lemma CallStaysOutside(s: State, e: Event, l: LeaseId)
    requires !e.Step? && !e.DropGuard? && Owning(s, l) && Next(s, e) != s
    ensures var s' := Next(s, e);
            && s.At(e.t).Idle? && s'.threads == s.threads[e.t := s'.At(e.t)] && !Critical(s'.At(e.t))
            && s'.lock == s.lock && Owning(s', l) && s'.active == s.active
  {
  }

  lemma OtherStepStaysOutside(s: State, u: ThreadId, t: ThreadId, l: LeaseId)
    requires Inside(s, t, l) && u != t
    ensures var s' := StepThread(s, u); Inside(s', t, l) && s'.At(t) == s.At(t) && s'.active == s.active
  {
    var s' := StepThread(s, u);
    assert !Critical(s.At(u));
    if s.At(u).Starting? { StartIsQuiet(s, u); }
    InsideStays(s, s', u, t, l);
  }

  /** Where the second restore stands after so many of its steps. */
  function AgainPc(m: Mode, done: nat): Pc {
    if done == 0 then Restoring(StaleMode(m)) else if done == 1 then Restoring(StaleClear) else Unlocking
  }

  function StepsOf(schedule: seq<Event>, t: ThreadId): nat
    decreases |schedule|
  {
    if schedule == [] then 0 else (if schedule[0] == Step(t) then 1 else 0) + StepsOf(schedule[1..], t)
  }

  ghost predicate Breaking(s: State, t: ThreadId, l: LeaseId, m: Mode, done: nat) {
    Inside(s, t, l) && s.At(t) == AgainPc(m, done) && (done >= 2 ==> !s.active)
  }

  lemma OwnStepBreaks(s: State, t: ThreadId, l: LeaseId, m: Mode, done: nat)
    requires Breaking(s, t, l, m, done) && done < 2
    ensures Breaking(StepThread(s, t), t, l, m, done + 1)
  {
    InsideStays(s, StepThread(s, t), t, t, l);
  }

  lemma {:induction false} BreakingRuns(s: State, t: ThreadId, l: LeaseId, m: Mode, done: nat, later: seq<Event>)
    requires Breaking(s, t, l, m, done) && done + StepsOf(later, t) <= 2
    ensures Breaking(Run(s, later), t, l, m, done + StepsOf(later, t))
    decreases |later|
  {
    if later != [] {
      if later[0] == Step(t) {
        OwnStepBreaks(s, t, l, m, done);
        BreakingRuns(Next(s, later[0]), t, l, m, done + 1, later[1..]);
      } else {
        OthersStayOutside(s, later[0], t, l);
        BreakingRuns(Next(s, later[0]), t, l, m, done, later[1..]);
      }
    }
  }

  /**
   The bound is exact. After a careful schedule, a second restore that takes the mutex while
   the gate is owned ends, after its next two steps and whatever the others do in between,
   with `maintenance_active` clear while an unreleased lease exists.
   */
  lemma CarelessRestoreBreaks(schedule: seq<Event>, t: ThreadId, later: seq<Event>)
    requires CarefulRun(Initial, schedule) && !Careful(Run(Initial, schedule), Step(t)) && StepsOf(later, t) == 2
    ensures var s := Run(Run(Initial, schedule + [Step(t)]), later); !s.active && exists l :: Owning(s, l)
  {
    Reachable(schedule);
    var s := Run(Initial, schedule);
    RunAppend(Initial, schedule, [Step(t)]);
    assert Run(s, [Step(t)]) == Next(s, Step(t));
    var m := s.At(t).call.m;
    var l :| Owning(s, l);
    var s1 := Next(s, Step(t));
    assert s1 == s.(lock := Some(t), threads := s.threads[t := AgainPc(m, 0)]);
    forall u: ThreadId | u != t
      ensures !Critical(s1.At(u))
    {
      assert !Critical(s.At(u)) && s1.At(u) == s.At(u);
    }
    BreakingRuns(Next(s, Step(t)), t, l, m, 0, later);
    assert Owning(Run(Next(s, Step(t)), later), l);
  }
}
