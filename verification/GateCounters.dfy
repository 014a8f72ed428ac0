/** Conservation of the gate's two counters, over every schedule. */
module GateCounters {
  import opened GateProtocol

  /** The thread has added itself to `active_operations` and not yet backed out. */
  predicate CountsOps(pc: Pc) {
    pc.Starting? && !pc.start.AddOps?
  }

  /** The thread has added itself to `active_writes` and not yet backed out. */
  predicate CountsWrites(pc: Pc) {
    pc == Starting(Recheck(true)) || pc == Starting(BackWrites)
  }

  function OpsThreads(threads: map<ThreadId, Pc>): set<ThreadId> {
    set t | t in threads && CountsOps(threads[t])
  }

  function WriteThreads(threads: map<ThreadId, Pc>): set<ThreadId> {
    set t | t in threads && CountsWrites(threads[t])
  }

  predicate LiveWriter(guard: Guard) {
    guard.Live? && guard.write
  }

  function WriteGuards(guards: map<GuardId, Guard>): set<GuardId> {
    set g | g in guards && LiveWriter(guards[g])
  }

  /** Each counter is the number of guards plus the number of threads in between. */
  predicate Conserved(s: State) {
    && s.ops == |s.guards.Keys| + |OpsThreads(s.threads)|
    && s.writes == |WriteGuards(s.guards)| + |WriteThreads(s.threads)|
    && (forall g :: g in s.guards ==> g < s.nextGuard)
  }

  function One(b: bool): int { if b then 1 else 0 }

  lemma MoveOps(threads: map<ThreadId, Pc>, t: ThreadId, pc: Pc)
    ensures |OpsThreads(threads[t := pc])|
         == |OpsThreads(threads)| - One(t in threads && CountsOps(threads[t])) + One(CountsOps(pc))
  {
    var before, after := OpsThreads(threads), OpsThreads(threads[t := pc]);
    assert after == before - {t} + (if CountsOps(pc) then {t} else {});
  }

  lemma MoveWrites(threads: map<ThreadId, Pc>, t: ThreadId, pc: Pc)
    ensures |WriteThreads(threads[t := pc])|
         == |WriteThreads(threads)| - One(t in threads && CountsWrites(threads[t])) + One(CountsWrites(pc))
  {
    var before, after := WriteThreads(threads), WriteThreads(threads[t := pc]);
    assert after == before - {t} + (if CountsWrites(pc) then {t} else {});
  }

  lemma PutGuard(guards: map<GuardId, Guard>, g: GuardId, v: Guard)
    ensures |guards[g := v].Keys| == |guards.Keys| + One(g !in guards)
  {
  }

  lemma PutWriteGuard(guards: map<GuardId, Guard>, g: GuardId, v: Guard)
    ensures |WriteGuards(guards[g := v])|
         == |WriteGuards(guards)| - One(g in guards && LiveWriter(guards[g])) + One(LiveWriter(v))
  {
    var before, after := WriteGuards(guards), WriteGuards(guards[g := v]);
    assert after == before - {g} + (if LiveWriter(v) then {g} else {});
  }

  lemma RemoveGuard(guards: map<GuardId, Guard>, g: GuardId)
    requires g in guards && !LiveWriter(guards[g])
    ensures |(guards - {g}).Keys| == |guards.Keys| - 1
    ensures WriteGuards(guards - {g}) == WriteGuards(guards)
  {
  }

  /** A thread moves and the counters follow it; the guards stay as they are. */
  lemma MoveConserves(s: State, t: ThreadId, pc: Pc, s': State)
    requires Conserved(s)
    requires s'.threads == s.threads[t := pc] && s'.guards == s.guards && s'.nextGuard == s.nextGuard
    requires s'.ops == s.ops - One(CountsOps(s.At(t))) + One(CountsOps(pc))
    requires s'.writes == s.writes - One(CountsWrites(s.At(t))) + One(CountsWrites(pc))
    ensures Conserved(s')
  {
    MoveOps(s.threads, t, pc);
    MoveWrites(s.threads, t, pc);
  }

  /** The passing re-check turns the thread's own contribution into a guard's. */
  lemma IssueConserves(s: State, t: ThreadId, write: bool)
    requires Conserved(s) && s.At(t) == Starting(Recheck(write))
    ensures Conserved(s.(guards := s.guards[s.nextGuard := Live(write)], nextGuard := s.nextGuard + 1).Move(t, Idle))
  {
    MoveOps(s.threads, t, Idle);
    MoveWrites(s.threads, t, Idle);
    PutGuard(s.guards, s.nextGuard, Live(write));
    PutWriteGuard(s.guards, s.nextGuard, Live(write));
  }

  /** What a thread step does to the counters, the guards and its own position. */
  predicate Balanced(s: State, t: ThreadId, s': State) {
    && s'.threads == s.threads[t := s'.At(t)]
    && s'.guards == s.guards
    && s'.nextGuard == s.nextGuard
    && s'.ops == s.ops - One(CountsOps(s.At(t))) + One(CountsOps(s'.At(t)))
    && s'.writes == s.writes - One(CountsWrites(s.At(t))) + One(CountsWrites(s'.At(t)))
  }

  predicate Issues(s: State, t: ThreadId) {
    s.At(t).Starting? && s.At(t).start.Recheck? && Allowed(s.mode, s.At(t).start.write)
  }

  lemma StartStepBalanced(s: State, t: ThreadId, pc: StartPc)
    requires s.At(t) == Starting(pc) && !Issues(s, t)
    ensures Balanced(s, t, StepStart(s, t, pc))
  {
  }

  lemma SetStepBalanced(s: State, t: ThreadId, pc: SetPc)
    requires s.At(t) == Setting(pc)
    ensures Balanced(s, t, StepSet(s, t, pc))
  {
  }

  lemma BeginStepBalanced(s: State, t: ThreadId, pc: BeginPc)
    requires s.At(t) == Beginning(pc)
    ensures Balanced(s, t, StepBegin(s, t, pc))
  {
  }

  lemma CloseStepBalanced(s: State, t: ThreadId, l: LeaseId, pc: ClosePc)
    requires s.At(t) == Closing(l, pc) && l in s.leases
    ensures Balanced(s, t, StepClose(s, t, l, pc))
  {
  }

  lemma ValidStepBalanced(s: State, t: ThreadId, l: LeaseId, pc: ValidPc)
    requires s.At(t) == Validating(l, pc)
    ensures Balanced(s, t, StepValid(s, t, l, pc))
  {
  }

  lemma OtherStepBalanced(s: State, t: ThreadId)
    requires s.At(t).Entering? || s.At(t).Restoring? || s.At(t).Unlocking?
    ensures StepThread(s, t) == s || Balanced(s, t, StepThread(s, t))
  {
  }

  lemma ThreadStepBalanced(s: State, t: ThreadId)
    requires !Issues(s, t)
    ensures StepThread(s, t) == s || Balanced(s, t, StepThread(s, t))
  {
    match s.At(t)
    case Idle =>
    case Starting(pc) => StartStepBalanced(s, t, pc);
    case Setting(pc) => SetStepBalanced(s, t, pc);
    case Beginning(pc) => BeginStepBalanced(s, t, pc);
    case Closing(l, pc) => if l in s.leases { CloseStepBalanced(s, t, l, pc); }
    case Validating(l, pc) => ValidStepBalanced(s, t, l, pc);
    case _ => OtherStepBalanced(s, t);
  }

  lemma ThreadStepConserves(s: State, t: ThreadId)
    requires Conserved(s)
    ensures Conserved(StepThread(s, t))
  {
    if Issues(s, t) {
      IssueConserves(s, t, s.At(t).start.write);
    } else {
      ThreadStepBalanced(s, t);
      var s' := StepThread(s, t);
      if s' != s { MoveConserves(s, t, s'.At(t), s'); }
    }
  }

  lemma GuardStepConserves(s: State, g: GuardId)
    requires Conserved(s) && g in s.guards
    ensures Conserved(StepDropGuard(s, g))
  {
    if s.guards[g] == Live(true) {
      PutGuard(s.guards, g, HalfDropped);
      PutWriteGuard(s.guards, g, HalfDropped);
    } else {
      RemoveGuard(s.guards, g);
    }
  }

  lemma EventConserves(s: State, e: Event)
    requires Conserved(s)
    ensures Conserved(Next(s, e))
  {
    if e.Step? {
      ThreadStepConserves(s, e.t);
    } else if e.DropGuard? {
      if e.g in s.guards { GuardStepConserves(s, e.g); }
    } else if Next(s, e) != s {
      MoveConserves(s, e.t, Next(s, e).At(e.t), Next(s, e));
    }
  }

  lemma {:induction false} RunConserves(s: State, schedule: seq<Event>)
    requires Conserved(s)
    ensures Conserved(Run(s, schedule))
    decreases |schedule|
  {
    if schedule != [] {
      EventConserves(s, schedule[0]);
      RunConserves(Next(s, schedule[0]), schedule[1..]);
    }
  }

  /**
   In every reachable state, under any schedule whatever, `active_operations` is the
   number of guards plus the threads between their increment and their decrement,
   `active_writes` is the same for writers, and `0 <= active_writes <= active_operations`.
   */
  lemma CountersConserved(schedule: seq<Event>)
    ensures var s := Run(Initial, schedule);
            && s.ops == |s.guards.Keys| + |OpsThreads(s.threads)|
            && s.writes == |WriteGuards(s.guards)| + |WriteThreads(s.threads)|
            && 0 <= s.writes <= s.ops
  {
    assert OpsThreads(Initial.threads) == {} && WriteThreads(Initial.threads) == {};
    assert WriteGuards(Initial.guards) == {};
    RunConserves(Initial, schedule);
    var s := Run(Initial, schedule);
    Subset(WriteGuards(s.guards), s.guards.Keys);
    Subset(WriteThreads(s.threads), OpsThreads(s.threads));
  }

  lemma {:induction false} Subset(a: set<nat>, b: set<nat>)
    requires a <= b
    ensures |a| <= |b|
    decreases a
  {
    if x :| x in a {
      Subset(a - {x}, b - {x});
    }
  }

  /** No `fetch_sub` of the gate ever wraps: the counter is positive when it is reached. */
  lemma NoUnderflow(schedule: seq<Event>, e: Event)
    ensures var s := Run(Initial, schedule);
            && (Next(s, e).ops < s.ops ==> s.ops >= 1 && Next(s, e).ops == s.ops - 1)
            && (Next(s, e).writes < s.writes ==> s.writes >= 1 && Next(s, e).writes == s.writes - 1)
  {
    var s := Run(Initial, schedule);
    assert Run(s, [e]) == Next(s, e);
    RunAppend(Initial, schedule, [e]);
    CountersConserved(schedule + [e]);
    EventByOne(s, e);
  }

  lemma EventByOne(s: State, e: Event)
    ensures Next(s, e).ops >= s.ops - 1 && Next(s, e).writes >= s.writes - 1
  {
    if e.Step? && !Issues(s, e.t) {
      ThreadStepBalanced(s, e.t);
    }
  }

  lemma {:induction false} RunAppend(s: State, a: seq<Event>, b: seq<Event>)
    ensures Run(s, a + b) == Run(Run(s, a), b)
    decreases |a|
  {
    if a == [] {
      assert a + b == b;
    } else {
      assert (a + b)[1..] == a[1..] + b;
      RunAppend(Next(s, a[0]), a[1..], b);
    }
  }
}
