/**
 `restore` from entry to exit: the control plane around apply_restore, and what a service that
 ends ready serves.
 */
module RestoreWhole {
  import opened Prelude
  import opened RootSwap
  import opened RestoreApply
  import opened RestoreAtomic
  import opened RestoreExits

  /** What the restore is given: the registered Vaults, the restored database's, and what the calls do. */
  datatype Given = Given(
    vaults: seq<VaultRoots>,
    relisted: seq<VaultRoots>,
    calls: Calls,
    migrated: Database,
    recover: Recover)

  /** verify_live_state after a failure: the integrity check, and recovery of the Vaults that the live database lists. */
  datatype Verification = Verification(sound: bool, live: seq<VaultRoots>, recover: Recover)

  /** The live state at one moment. */
  datatype Snapshot = Snapshot(nodes: Nodes, db: Database)

  /** The roots and the database are those of before, but for the staging area and strays. */
  ghost predicate AllOld(n: Snapshot, was: Snapshot, away: set<Path>) {
    AgreeOff(n.nodes, was.nodes, away) && n.db == was.db
  }

  /** The restore either succeeded or changed nothing that is live. */
  ghost predicate Whole(applied: Applied, n: Snapshot, was: Snapshot, away: set<Path>) {
    applied.Success? || AllOld(n, was, away)
  }

  /** The early return of swap_roots leaves some roots swapped. */
  ghost predicate HalfDone(g: Given, was: Snapshot, f: Refusals, l: Layout) {
    g.calls.Started() && LeavesSwapped(was.nodes, f, g.vaults, l.roots)
  }

  /** What the recovery that verification runs makes of a state. */
  function Checked(v: Verification, n: Snapshot): Live {
    Recovered(v.recover, v.live, |v.live|, Live(n.nodes, n.db, true))
  }

  predicate Passes(v: Verification, n: Snapshot) { v.sound && Checked(v, n).ok }

  method Verify(state: LiveState, v: Verification) returns (ok: bool)
    modifies state, state.fs
    ensures state.fs.clock == old(state.fs.clock)
    ensures ok <==> Passes(v, old(Snapshot(state.fs.nodes, state.db)))
    ensures ok ==> Live(state.fs.nodes, state.db, true) == Checked(v, old(Snapshot(state.fs.nodes, state.db)))
  {
    ok := false;
    if v.sound { ok := state.RecoverAll(v.live, v.recover); }
  }

  /**
   restore. `mid` is the live state when apply_restore is done. A service that ends ready either
   serves what recovery made of the archive, or what verification made of `mid`. If no call
   fails other than the creation of a staged directory, and the snapshot can be put back, then
   `mid` is all new, or all old but for strays, unless that creation fails for a Vault that
   comes after others that were swapped, and in that case it never is.
   */
  method RestoreAll(service: BackupService, state: LiveState, s: RestoreScript, g: Given, recorded: bool, v: Verification,
                    ghost l: Layout)
    returns (exit: Exit, applied: Option<Applied>, ghost mid: Snapshot)
    requires !service.operationActive && l.Valid() && l.vaults == g.vaults && Listable(g.relisted, l)
    modifies service, service.gate, state, state.fs
    ensures !service.operationActive
    ensures applied.Some? <==> Reaches(s, old(service.Current()))
    ensures ExitLeaves(s, Ending(applied == Some(Success), recorded, Passes(v, mid)), old(service.Current()), service.Current(), exit)
    ensures applied.None? ==> state.fs.nodes == old(state.fs.nodes) && state.db == old(state.db)
    ensures applied == Some(Success) ==>
              && AllNew(state.fs.nodes, state.db, old(state.fs.nodes), g.relisted, g.migrated, g.recover, l)
              && mid == Snapshot(state.fs.nodes, state.db)
              && (ApartTargets(g.relisted) ==>
                    EachRecovered(state.fs.nodes, state.db, old(state.fs.nodes), g.relisted, g.migrated, g.recover, l))
    ensures exit.Reopened? && applied != Some(Success) ==>
              Live(state.fs.nodes, state.db, true) == Checked(v, mid)
    ensures applied.Some? && !state.fs.FaultIn(old(state.fs.clock), state.fs.clock)
            && HalfDone(g, old(Snapshot(state.fs.nodes, state.db)), Refusals(state.fs.refused, old(state.fs.creates)), l) ==>
              applied.value.LeftSwapped? && mid.db == old(state.db)
    ensures applied.Some? && g.calls.putBack && !state.fs.FaultIn(old(state.fs.clock), state.fs.clock) ==>
              (Whole(applied.value, mid, old(Snapshot(state.fs.nodes, state.db)), l.staged + Strays(g.relisted, l))
               <==> !HalfDone(g, old(Snapshot(state.fs.nodes, state.db)), Refusals(state.fs.refused, old(state.fs.creates)), l))
  {
    hide AgreeOff, AllNew, Recovered, Works, StopsAt, Listable, Laid;
    service.operationActive := true;
    mid := Snapshot(state.fs.nodes, state.db);
    var entered := service.EnterRestore(s);
    if entered.Err? {
      exit, applied := entered.error, None;
      assert ExitLeaves(s, Ending(false, recorded, Passes(v, mid)), old(service.Current()), service.Current(), exit);
      service.operationActive := false;
      return;
    }
    var r, _ := state.ApplyRestore(g.vaults, g.relisted, g.calls, g.migrated, g.recover, l);
    applied := Some(r);
    mid := Snapshot(state.fs.nodes, state.db);
    var verified := false;
    if !r.Success? { verified := Verify(state, v); }
    exit := service.FinishRestore(entered.value, Ending(r.Success?, recorded, verified));
    service.operationActive := false;
  }

  /**
   A service that reopens half restored: the operating system refuses to create the missing
   staged directory of the second of two Vaults, no other call fails, and the live state passes
   verification. The first Vault is swapped, the database is the old one, and the service is
   ready.
   */
  method HalfRestoredAndReady(tree: Tree) returns (service: BackupService, before: Nodes, after: Nodes, db: Database)
    ensures service.ready && service.gate.mode.Normal?
    ensures !AgreeOff(after, before, {"s0", "s1", "s2", "s3"}) && db == 0
  {
    hide Laid, StopsAt, AgreeOff;
    var roots := [Named('0'), Named('1'), Named('2'), Named('3')];
    var vaults := [VaultRoots(roots[0], roots[1]), VaultRoots(roots[2], roots[3])];
    ghost var l := Layout(vaults, roots, {"s0", "s1", "s2", "s3"});
    NamedAreLaid('0', '1', '2', '3');
    before := map["s0" := Dir(tree)];
    service := new BackupService();
    var fs := new FileSystem(before, c => false, c => c == 2);
    SecondStops(tree, roots, Refusals(fs.refused, fs.creates));
    var state := new LiveState(fs, 0);
    var recover: Recover := (i, content, history, db) => Recovery(true, content, history, db);
    var exit, applied, mid := RestoreAll(service, state, Smoothly, Given(vaults, [], Calls(true, true, true, true, true, true, 0), 1, recover),
                                         true, Verification(true, [], recover), l);
    after, db := fs.nodes, state.db;
    assert l.staged + Strays([], l) == l.staged;
  }
}
