/** What the gate promises, as theorems about every schedule. */
module GateTheorems {
  import opened Prelude
  import opened GateProtocol
  import opened GateCounters
  import opened GateSafety

  lemma Reachable(schedule: seq<Event>)
    requires CarefulRun(Initial, schedule)
    ensures Inv(Run(Initial, schedule))
  {
    assert OpsThreads(Initial.threads) == {} && WriteThreads(Initial.threads) == {};
    assert WriteGuards(Initial.guards) == {};
    RunKeeps(Initial, schedule);
  }

  /**
   Lease exclusivity. At most one lease is unreleased; whenever the transition mutex is
   free, `maintenance_active` says exactly whether there is one; and the compare-exchange
   on the mode inside `try_begin_mode` cannot fail.
   */
  lemma LeasesAreExclusive(schedule: seq<Event>)
    requires CarefulRun(Initial, schedule)
    ensures var s := Run(Initial, schedule);
            && (forall l, k :: Owning(s, l) && Owning(s, k) ==> l == k)
            && (s.lock.None? ==> (s.active <==> exists l :: Owning(s, l)))
            && (forall t: ThreadId, target, previous ::
                  s.At(t) == Beginning(CasMode(target, previous)) ==> s.mode == previous)
  {
    Reachable(schedule);
    var s := Run(Initial, schedule);
    forall t: ThreadId, target, previous | s.At(t) == Beginning(CasMode(target, previous))
      ensures s.mode == previous
    {
      assert s.lock == Some(t);
    }
  }

  /** Until a lease reopens the gate, an Offline lease keeps the mode Offline and a ReadOnly lease keeps it off Normal. */
  lemma LeaseKeepsMode(schedule: seq<Event>, l: LeaseId)
    requires CarefulRun(Initial, schedule)
    ensures var s := Run(Initial, schedule);
            s.Protecting(l) ==>
              && s.active
              && !s.mode.Normal?
              && (s.leases[l].target.Offline? ==> s.mode.Offline?)
  {
    Reachable(schedule);
    var s := Run(Initial, schedule);
    if s.Protecting(l) { assert Owning(s, l); }
  }

  // ----- Draining -----

  /** Protection is never regained. */
  lemma ProtectionOnlyEnds(s: State, e: Event, l: LeaseId)
    requires Inv(s) && l in s.leases
    ensures l in Next(s, e).leases
    ensures Next(s, e).Protecting(l) ==> s.Protecting(l)
  {
    if e.Step? {
      match s.At(e.t)
      case Starting(pc) => StartIsQuiet(s, e.t);
      case Setting(pc) => SetStepFacts(s, e.t);
      case Beginning(pc) => assert s.nextLease !in s.leases; BeginStepFacts(s, e.t);
      case Closing(k, pc) => CloseStepFacts(s, e.t);
      case Restoring(pc) => AgainStepFacts(s, e.t);
      case _ =>
    }
  }

  /** While a lease protects the mode, Offline stays Offline. */
  lemma OfflineStays(s: State, e: Event, l: LeaseId)
    requires Inv(s) && s.Protecting(l) && Next(s, e).Protecting(l)
    requires s.mode.Offline?
    ensures Next(s, e).mode.Offline?
  {
    assert Owning(s, l);
    if e.Step? {
      match s.At(e.t)
      case Starting(pc) => StartIsQuiet(s, e.t);
      case Setting(pc) => SetStepFacts(s, e.t);
      case Beginning(pc) => BeginStepFacts(s, e.t);
      case Restoring(pc) => AgainStepFacts(s, e.t);
      case Closing(k, pc) =>
        CloseStepFacts(s, e.t);
        CloseKeepsOwnership(s, e.t);
        if Next(s, e).mode != s.mode { assert Owning(Next(s, e), k) && Owning(Next(s, e), l); }
      case _ =>
    }
  }

  /** A guard appears only through a re-check that the current mode passes. */
  lemma GuardNeedsMode(s: State, e: Event)
    ensures forall g :: g in Next(s, e).guards ==>
                          || (g in s.guards && (Next(s, e).guards[g] == s.guards[g] || Next(s, e).guards[g].HalfDropped?))
                          || (Next(s, e).guards[g].Live? && Allowed(s.mode, Next(s, e).guards[g].write))
  {
  }

  lemma {:induction false} DrainStays(s: State, schedule: seq<Event>, l: LeaseId)
    requires Inv(s) && CarefulRun(s, schedule)
    requires s.Protecting(l) && s.mode.Offline? && s.guards == map[]
    ensures var s' := Run(s, schedule);
            s'.Protecting(l) ==> s'.mode.Offline? && s'.guards == map[]
    decreases |schedule|
  {
    if schedule != [] {
      var n := Next(s, schedule[0]);
      EventKeeps(s, schedule[0]);
      ProtectionOnlyEnds(s, schedule[0], l);
      if n.Protecting(l) {
        OfflineStays(s, schedule[0], l);
        GuardNeedsMode(s, schedule[0]);
        assert n.guards.Keys == {};
        DrainStays(n, schedule[1..], l);
      } else {
        NeverProtectsAgain(n, schedule[1..], l);
      }
    }
  }

  lemma {:induction false} NeverProtectsAgain(s: State, schedule: seq<Event>, l: LeaseId)
    requires Inv(s) && CarefulRun(s, schedule) && l in s.leases && !s.Protecting(l)
    ensures !Run(s, schedule).Protecting(l)
    decreases |schedule|
  {
    if schedule != [] {
      EventKeeps(s, schedule[0]);
      ProtectionOnlyEnds(s, schedule[0], l);
      NeverProtectsAgain(Next(s, schedule[0]), schedule[1..], l);
    }
  }

  lemma {:induction false} SplitCareful(s: State, pre: seq<Event>, post: seq<Event>)
    requires CarefulRun(s, pre + post)
    ensures CarefulRun(s, pre) && CarefulRun(Run(s, pre), post)
    decreases |pre|
  {
    if pre == [] {
      assert pre + post == post;
    } else {
      assert (pre + post)[1..] == pre[1..] + post;
      SplitCareful(Next(s, pre[0]), pre[1..], post);
    }
  }

  /**
   Drain soundness. Once `active_operations` is read as 0 under an Offline lease, no
   operation guard is alive for as long as the lease protects the mode, whatever is
   scheduled in between: a late `try_start` may still bump the counter, but it backs out.
   */
  lemma DrainIsSound(pre: seq<Event>, post: seq<Event>, l: LeaseId)
    requires CarefulRun(Initial, pre + post)
    requires var s := Run(Initial, pre); s.Protecting(l) && s.leases[l].target.Offline? && s.ops == 0
    ensures var s := Run(Initial, pre + post); s.Protecting(l) ==> s.guards == map[] && s.mode.Offline?
  {
    SplitCareful(Initial, pre, post);
    Reachable(pre);
    var s := Run(Initial, pre);
    DrainedMeansNoGuards(s);
    RunAppend(Initial, pre, post);
    DrainStays(s, post, l);
  }

  lemma NoWriterStays(s: State, e: Event, l: LeaseId)
    requires Inv(s) && s.Protecting(l) && WriteGuards(s.guards) == {}
    ensures WriteGuards(Next(s, e).guards) == {}
  {
    GuardNeedsMode(s, e);
    assert !s.mode.Normal?;
    forall g | g in Next(s, e).guards ensures !LiveWriter(Next(s, e).guards[g]) {
      if g in s.guards { assert g !in WriteGuards(s.guards); }
    }
  }

  lemma {:induction false} WriteDrainStays(s: State, schedule: seq<Event>, l: LeaseId)
    requires Inv(s) && CarefulRun(s, schedule) && s.Protecting(l) && WriteGuards(s.guards) == {}
    ensures var s' := Run(s, schedule); s'.Protecting(l) ==> WriteGuards(s'.guards) == {}
    decreases |schedule|
  {
    if schedule != [] {
      var n := Next(s, schedule[0]);
      EventKeeps(s, schedule[0]);
      ProtectionOnlyEnds(s, schedule[0], l);
      NoWriterStays(s, schedule[0], l);
      if n.Protecting(l) {
        WriteDrainStays(n, schedule[1..], l);
      } else {
        NeverProtectsAgain(n, schedule[1..], l);
      }
    }
  }

  /** The same for writers: under any lease, `active_writes` read as 0 means no write guard until the lease reopens. */
  lemma WriteDrainIsSound(pre: seq<Event>, post: seq<Event>, l: LeaseId)
    requires CarefulRun(Initial, pre + post)
    requires var s := Run(Initial, pre); s.Protecting(l) && s.writes == 0
    ensures var s := Run(Initial, pre + post); s.Protecting(l) ==> WriteGuards(s.guards) == {}
  {
    SplitCareful(Initial, pre, post);
    Reachable(pre);
    var s := Run(Initial, pre);
    assert |WriteGuards(s.guards)| == 0;
    RunAppend(Initial, pre, post);
    WriteDrainStays(s, post, l);
  }

  /**
   The permit token. `is_valid` reads four cells one after the other; when it says yes and
   its lease still protects the mode, the process is Offline and no guard is alive.
   */
  lemma ValidTokenMeansDrained(schedule: seq<Event>, t: ThreadId, l: LeaseId)
    requires CarefulRun(Initial, schedule)
    requires Run(Initial, schedule).At(t) == Validating(l, SaidValid)
    ensures var s := Run(Initial, schedule); s.Protecting(l) ==> s.mode.Offline? && s.guards == map[]
  {
    Reachable(schedule);
    assert ValidFacts(Run(Initial, schedule), Run(Initial, schedule).At(t));
  }

  /** A released lease never validates again: its token is dead once the mutex is free, and `is_valid` stops at its first load. */
  lemma ReleasedTokenIsDead(schedule: seq<Event>, t: ThreadId, l: LeaseId)
    requires CarefulRun(Initial, schedule)
    ensures var s := Run(Initial, schedule);
            l in s.leases && !Owning(s, l) && s.lock.None? ==>
              !s.leases[l].tokenActive && Next(s, CallIsValid(t, l)) == s
  {
    Reachable(schedule);
  }

  /**
   Failing closed. A lease that is given up without `restore_to` (its drop finds it
   unreleased) leaves the mode as it is, so a dropped Offline lease leaves the process Offline.
   */
  lemma DropFailsClosed(schedule: seq<Event>, e: Event, l: LeaseId)
    requires CarefulRun(Initial, schedule)
    requires var s := Run(Initial, schedule); s.Protecting(l) && !Owning(Next(s, e), l)
    ensures var s := Run(Initial, schedule);
            && Next(s, e).mode == s.mode
            && (s.leases[l].target.Offline? ==> Next(s, e).mode.Offline?)
            && !Next(s, e).active
  {
    Reachable(schedule);
    var s := Run(Initial, schedule);
    assert Owning(s, l);
    if e.Step? {
      match s.At(e.t)
      case Starting(pc) => StartIsQuiet(s, e.t);
      case Setting(pc) => SetStepFacts(s, e.t);
      case Beginning(pc) => assert s.nextLease !in s.leases; BeginStepFacts(s, e.t);
      case Closing(k, pc) => CloseStepFacts(s, e.t);
      case Restoring(pc) => AgainStepFacts(s, e.t);
      case _ =>
    }
  }
}
