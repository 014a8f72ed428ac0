/**
 What try_start answers in every interleaving: it depends on the mode at its two loads and on
 nothing else, and a refused call leaves no trace of its own.
 */
module GateAdmission {
  import opened Prelude
  import opened GateProtocol

  /** How often the thread itself is scheduled. */
  function OwnSteps(t: ThreadId, schedule: seq<Event>): nat
    decreases |schedule|
  {
    if schedule == [] then 0 else (if schedule[0] == Step(t) then 1 else 0) + OwnSteps(t, schedule[1..])
  }

  /** Writers are admitted in Normal mode only, readers in every mode but Offline. */
  predicate Admits(mode: Mode, write: bool) { if write then mode == Normal else mode == Normal || mode == ReadOnly }

  /** Where a starting thread is before its second load, after some steps of its own. */
  function Climbing(write: bool, k: nat): Pc
    requires k <= if write then 2 else 1
  {
    if k == 0 then Starting(AddOps(write))
    else if write && k == 1 then Starting(AddWrites)
    else Starting(Recheck(write))
  }

  /** Where a refused thread is after its second load, after some steps of its own. */
  function Retreating(write: bool, k: nat): Pc
    requires k <= if write then 2 else 1
  {
    if k == (if write then 2 else 1) then Idle
    else if write && k == 0 then Starting(BackWrites)
    else Starting(BackOps)
  }

  /** Events of others do not move a thread that is inside a call. */
  lemma {:induction false} OthersLeaveIt(s: State, t: ThreadId, e: Event)
    requires !s.At(t).Idle? && e != Step(t)
    ensures Next(s, e).At(t) == s.At(t)
  {
    hide StepThread, Call;
    match e
    case Step(u) => StepMovesOne(s, u, t);
    case DropGuard(g) =>
    case _ =>
      if e.t != t { CallMovesOne(s, e, t); }
  }

  lemma {:induction false} CallMovesOne(s: State, e: Event, t: ThreadId)
    requires !e.Step? && !e.DropGuard? && e.t != t
    ensures Call(s, e).At(t) == s.At(t)
  {
  }

  lemma {:induction false} StepMovesOne(s: State, u: ThreadId, t: ThreadId)
    requires u != t
    ensures StepThread(s, u).At(t) == s.At(t)
  {
    hide Entered, StepStart, StepSet, StepBegin, StepClose, StepValid;
    match s.At(u)
    case Starting(pc) => StartMovesOne(s, u, pc, t);
    case Setting(pc) => SetMovesOne(s, u, pc, t);
    case Beginning(pc) => BeginMovesOne(s, u, pc, t);
    case Closing(l, pc) =>
      if l in s.leases { CloseMovesOne(s, u, l, pc, t); }
    case Validating(l, pc) => ValidMovesOne(s, u, l, pc, t);
    case _ =>
  }

  lemma {:induction false} StartMovesOne(s: State, u: ThreadId, pc: StartPc, t: ThreadId)
    requires u != t
    ensures StepStart(s, u, pc).At(t) == s.At(t)
  {
  }

  lemma {:induction false} SetMovesOne(s: State, u: ThreadId, pc: SetPc, t: ThreadId)
    requires u != t
    ensures StepSet(s, u, pc).At(t) == s.At(t)
  {
  }

  lemma {:induction false} BeginMovesOne(s: State, u: ThreadId, pc: BeginPc, t: ThreadId)
    requires u != t
    ensures StepBegin(s, u, pc).At(t) == s.At(t)
  {
  }

  lemma {:induction false} CloseMovesOne(s: State, u: ThreadId, l: LeaseId, pc: ClosePc, t: ThreadId)
    requires u != t && l in s.leases
    ensures StepClose(s, u, l, pc).At(t) == s.At(t)
  {
  }

  lemma {:induction false} ValidMovesOne(s: State, u: ThreadId, l: LeaseId, pc: ValidPc, t: ThreadId)
    requires u != t
    ensures StepValid(s, u, l, pc).At(t) == s.At(t)
  {
  }

  /** Up to its second load a thread's place depends only on how often it was scheduled. */
  lemma {:induction false} ClimbsByItself(s: State, t: ThreadId, write: bool, k: nat, schedule: seq<Event>)
    requires k + OwnSteps(t, schedule) <= (if write then 2 else 1) && s.At(t) == Climbing(write, k)
    ensures Run(s, schedule).At(t) == Climbing(write, k + OwnSteps(t, schedule))
    decreases |schedule|
  {
    if schedule != [] {
      var e := schedule[0];
      if e == Step(t) {
        ClimbsByItself(Next(s, e), t, write, k + 1, schedule[1..]);
      } else {
        OthersLeaveIt(s, t, e);
        ClimbsByItself(Next(s, e), t, write, k, schedule[1..]);
      }
    }
  }

  /** A refused thread is idle again once it has taken its own steps back. */
  lemma {:induction false} RetreatsByItself(s: State, t: ThreadId, write: bool, k: nat, schedule: seq<Event>)
    requires k < (if write then 2 else 1) == k + OwnSteps(t, schedule) && s.At(t) == Retreating(write, k)
    requires schedule != [] && schedule[|schedule| - 1] == Step(t)
    ensures Run(s, schedule).At(t) == Idle
    decreases |schedule|
  {
    var e, rest := schedule[0], schedule[1..];
    assert rest != [] ==> rest[|rest| - 1] == schedule[|schedule| - 1];
    if rest == [] {
      assert Run(Next(s, e), rest) == Next(s, e);
    } else {
      OwnLast(t, rest);
      if e != Step(t) { OthersLeaveIt(s, t, e); }
      RetreatsByItself(Next(s, e), t, write, if e == Step(t) then k + 1 else k, rest);
    }
  }

  lemma {:induction false} OwnLast(t: ThreadId, schedule: seq<Event>)
    requires schedule != [] && schedule[|schedule| - 1] == Step(t)
    ensures OwnSteps(t, schedule) >= 1
    decreases |schedule|
  {
    if |schedule| > 1 { OwnLast(t, schedule[1..]); }
  }

  /**
   try_start over every interleaving. `before` runs up to the second load. The call is refused at
   once in a mode that does not admit it. Otherwise the mode at the second load decides: a live
   guard of the kind asked for is issued, or none is, and the thread goes back.
   */
  lemma {:induction false} TryStartDecides(s: State, t: ThreadId, write: bool, before: seq<Event>)
    requires s.At(t).Idle? && OwnSteps(t, before) == (if write then 2 else 1)
    ensures !Admits(s.mode, write) ==> Next(s, CallStart(t, write)) == s
    ensures Admits(s.mode, write) ==>
              var u := Run(Next(s, CallStart(t, write)), before);
              var v := Next(u, Step(t));
              if Admits(u.mode, write)
              then v.guards == u.guards[u.nextGuard := Live(write)] && v.At(t).Idle? && v.ops == u.ops && v.writes == u.writes
              else v.guards == u.guards && v.At(t) == Retreating(write, 0) && v.ops == u.ops && v.writes == u.writes
  {
    if Admits(s.mode, write) {
      ClimbsByItself(Next(s, CallStart(t, write)), t, write, 0, before);
    }
  }

  /** What the thread itself adds to the counters on its way: one operation, one write if it writes, taken back on refusal. */
  lemma {:induction false} OwnStepCounts(s: State, t: ThreadId, write: bool, k: nat)
    requires k < if write then 2 else 1
    ensures s.At(t) == Climbing(write, k) ==>
              var v := Next(s, Step(t));
              v.ops == s.ops + (if k == 0 then 1 else 0) && v.writes == s.writes + (if k == 1 then 1 else 0) && v.guards == s.guards
    ensures s.At(t) == Retreating(write, k) ==>
              var v := Next(s, Step(t));
              && v.writes == s.writes - (if write && k == 0 then 1 else 0)
              && v.ops == s.ops - (if write && k == 0 then 0 else 1) && v.guards == s.guards
  {
  }

  // ----- is_valid -----

  lemma {:induction false} WaitsForItself(s: State, t: ThreadId, schedule: seq<Event>)
    requires !s.At(t).Idle? && OwnSteps(t, schedule) == 0
    ensures Run(s, schedule).At(t) == s.At(t)
    decreases |schedule|
  {
    hide Next;
    if schedule != [] {
      OthersLeaveIt(s, t, schedule[0]);
      WaitsForItself(Next(s, schedule[0]), t, schedule[1..]);
    }
  }

  /** The state at a load of the thread, after the others have run for a while. */
  function AtLoad(s: State, others: seq<Event>): State { Run(s, others) }

  /**
   is_valid over every interleaving. `a`, `b` and `c` are what the others do before each of its three
   loads after the token. It says yes exactly when the token is active at the call, the mode is
   Offline at the first load, no operation is counted at the second and no write at the third.
   */
  lemma {:induction false} IsValidDecides(s: State, t: ThreadId, l: LeaseId, a: seq<Event>, b: seq<Event>, c: seq<Event>)
    requires s.At(t).Idle? && OwnSteps(t, a) == 0 && OwnSteps(t, b) == 0 && OwnSteps(t, c) == 0
    ensures var called := Next(s, CallIsValid(t, l));
            var mode := AtLoad(called, a);
            var ops := AtLoad(Next(mode, Step(t)), b);
            var writes := AtLoad(Next(ops, Step(t)), c);
            if !(l in s.leases && s.leases[l].tokenActive) then called == s
            else if mode.mode != Offline then Next(mode, Step(t)).At(t).Idle?
            else if ops.ops != 0 then Next(ops, Step(t)).At(t).Idle?
            else if writes.writes != 0 then Next(writes, Step(t)).At(t).Idle?
            else Next(writes, Step(t)).At(t) == Validating(l, SaidValid)
  {
    var called := Next(s, CallIsValid(t, l));
    if l in s.leases && s.leases[l].tokenActive {
      WaitsForItself(called, t, a);
      var u := AtLoad(called, a);
      if u.mode == Offline {
        WaitsForItself(Next(u, Step(t)), t, b);
        var v := AtLoad(Next(u, Step(t)), b);
        if v.ops == 0 { WaitsForItself(Next(v, Step(t)), t, c); }
      }
    }
  }
}
