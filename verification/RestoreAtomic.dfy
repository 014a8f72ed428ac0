/**
 apply_restore as a whole: roots, database, recovery, and the rollback of all three.
 */
module RestoreAtomic {
  import opened Prelude
  import opened RootSwap
  import opened RestoreApply

  /** The contents of the database, up to equality. */
  type Database = nat

  /** What recovery makes of one Vault: whether it needs no review, the roots and the database it leaves. */
  datatype Recovery = Recovery(ok: bool, content: Tree, history: Tree, db: Database)

  /** Outcomes of the database calls; a failed one may leave the database in any state. */
  datatype Calls = Calls(
    extracted: bool,
    snapshotted: bool,
    replaced: bool,
    migrated: bool,
    sound: bool,
    putBack: bool,
    left: Database)
  {
    /** The roots are reached at all. */
    predicate Started() { extracted && snapshotted }

    predicate AllWork() { Started() && replaced && migrated && sound }
  }

  datatype Applied = Success | Failure(undone: bool) | LeftSwapped(vaultsDone: nat)

  type Recover = (nat, Tree, Tree, Database) -> Recovery

  // ----- Recovery as a fold over the Vaults that the restored database lists -----

  /** Roots and database on the way through recovery, and whether it goes on. */
  datatype Live = Live(nodes: Nodes, db: Database, ok: bool)

  function TreeAt(n: Nodes, p: Path): Tree { if p in n && n[p].Dir? then n[p].tree else map[] }

  /** A missing root is created; anything but a directory is refused. */
  predicate Openable(n: Nodes, p: Path) { p in n ==> n[p].Dir? }

  function Write(n: Nodes, vault: VaultRoots, r: Recovery): Nodes {
    n[vault.content.target := Dir(r.content)][vault.history.target := Dir(r.history)]
  }

  /** Recovery of one Vault, handed what is at its roots and the database as it is. */
  function RecoverOne(recover: Recover, i: nat, v: VaultRoots, s: Live): Live {
    if !Openable(s.nodes, v.content.target) || !Openable(s.nodes, v.history.target) then s.(ok := false)
    else
      var r := recover(i, TreeAt(s.nodes, v.content.target), TreeAt(s.nodes, v.history.target), s.db);
      Live(Write(s.nodes, v, r), r.db, r.ok)
  }

  /** Recovery of the first `i` Vaults, up to the first that fails. */
  function Recovered(recover: Recover, vaults: seq<VaultRoots>, i: nat, s: Live): Live
    requires i <= |vaults|
  {
    if i == 0 then s
    else
      var t := Recovered(recover, vaults, i - 1, s);
      if t.ok then RecoverOne(recover, i - 1, vaults[i - 1], t) else t
  }

  function TargetsOf(vaults: seq<VaultRoots>): set<Path> {
    (set i | 0 <= i < |vaults| :: vaults[i].content.target) + (set i | 0 <= i < |vaults| :: vaults[i].history.target)
  }

  /** The same nodes at some paths. */
  ghost predicate AgreeOn(a: Nodes, b: Nodes, paths: set<Path>) { forall p :: p in paths ==> Get(a, p) == Get(b, p) }

  /** Every node is a directory or as it was. */
  ghost predicate OnlyDirsNew(n: Nodes, was: Nodes) { forall p :: p in n ==> n[p].Dir? || (p in was && n[p] == was[p]) }

  // ----- What recovery leaves at each root -----

  /** The database that the recovery of Vault `i` is handed. */
  function DbBefore(recover: Recover, vaults: seq<VaultRoots>, i: nat, n: Nodes, db: Database): Database
    requires i <= |vaults|
    decreases i, 0
  {
    if i == 0 then db else Outcome(recover, vaults, i - 1, n, db).db
  }

  /** What recovery makes of Vault `i`: of its own content and history, and of what the Vaults before left in the database. */
  function Outcome(recover: Recover, vaults: seq<VaultRoots>, i: nat, n: Nodes, db: Database): Recovery
    requires i < |vaults|
    decreases i, 1
  {
    recover(i, TreeAt(n, vaults[i].content.target), TreeAt(n, vaults[i].history.target), DbBefore(recover, vaults, i, n, db))
  }

  /** No two of the listed roots are one place. */
  predicate ApartTargets(vaults: seq<VaultRoots>) {
    && (forall i :: 0 <= i < |vaults| ==> vaults[i].content.target != vaults[i].history.target)
    && forall i, j :: 0 <= i < j < |vaults| ==>
                        && vaults[i].content.target != vaults[j].content.target && vaults[i].content.target != vaults[j].history.target
                        && vaults[i].history.target != vaults[j].content.target && vaults[i].history.target != vaults[j].history.target
  }

  /** Vault `i` is recovered: its content root holds the content, its history root the history. */
  predicate RecoveredAt(after: Nodes, vault: VaultRoots, r: Recovery) {
    Get(after, vault.content.target) == Some(Dir(r.content)) && Get(after, vault.history.target) == Some(Dir(r.history))
  }

  /** Vault `i` can be opened and recovery finds nothing to review. */
  predicate Recoverable(recover: Recover, vaults: seq<VaultRoots>, i: nat, n: Nodes, db: Database)
    requires i < |vaults|
  {
    && (vaults[i].content.target in n ==> n[vaults[i].content.target].Dir?)
    && (vaults[i].history.target in n ==> n[vaults[i].history.target].Dir?)
    && Outcome(recover, vaults, i, n, db).ok
  }

  /** The first `i` Vaults are recovered and the others untouched. */
  ghost predicate RecoveredUpTo(recover: Recover, vaults: seq<VaultRoots>, i: nat, s: Live, t: Live)
    requires i <= |vaults|
  {
    && t.db == DbBefore(recover, vaults, i, s.nodes, s.db)
    && (forall k :: 0 <= k < i ==> RecoveredAt(t.nodes, vaults[k], Outcome(recover, vaults, k, s.nodes, s.db)))
    && (forall k :: i <= k < |vaults| ==>
                      && Get(t.nodes, vaults[k].content.target) == Get(s.nodes, vaults[k].content.target)
                      && Get(t.nodes, vaults[k].history.target) == Get(s.nodes, vaults[k].history.target))
  }

  lemma {:induction false} RecoverOneStep(recover: Recover, vaults: seq<VaultRoots>, i: nat, s: Live, t: Live)
    requires ApartTargets(vaults) && i < |vaults| && t.ok && RecoveredUpTo(recover, vaults, i, s, t)
    ensures var u := RecoverOne(recover, i, vaults[i], t);
            && (u.ok <==> Recoverable(recover, vaults, i, s.nodes, s.db))
            && (u.ok ==> RecoveredUpTo(recover, vaults, i + 1, s, u))
  {
    var u, v := RecoverOne(recover, i, vaults[i], t), vaults[i];
    assert Get(t.nodes, v.content.target) == Get(s.nodes, v.content.target);
    assert Get(t.nodes, v.history.target) == Get(s.nodes, v.history.target);
    if u.ok {
      forall k | 0 <= k < i
        ensures RecoveredAt(u.nodes, vaults[k], Outcome(recover, vaults, k, s.nodes, s.db))
      {
        assert RecoveredAt(t.nodes, vaults[k], Outcome(recover, vaults, k, s.nodes, s.db));
      }
    }
  }

  /**
   Recovery of distinct roots, Vault by Vault: it goes through exactly when every Vault is
   recoverable, and then each content root holds the content that recovery made of that root's own
   tree, each history root the history, and the database has been handed from Vault to Vault.
   */
  lemma {:induction false} RecoveryByVault(recover: Recover, vaults: seq<VaultRoots>, i: nat, s: Live)
    requires ApartTargets(vaults) && i <= |vaults| && s.ok
    ensures var t := Recovered(recover, vaults, i, s);
            && (t.ok <==> forall k :: 0 <= k < i ==> Recoverable(recover, vaults, k, s.nodes, s.db))
            && (t.ok ==> RecoveredUpTo(recover, vaults, i, s, t))
  {
    hide RecoverOne, RecoveredUpTo, Recoverable;
    if i == 0 {
      assert RecoveredUpTo(recover, vaults, 0, s, s) by { NothingRecovered(recover, vaults, s); }
    } else {
      RecoveryByVault(recover, vaults, i - 1, s);
      var t := Recovered(recover, vaults, i - 1, s);
      if t.ok { RecoverOneStep(recover, vaults, i - 1, s, t); }
    }
  }

  lemma {:induction false} NothingRecovered(recover: Recover, vaults: seq<VaultRoots>, s: Live)
    ensures RecoveredUpTo(recover, vaults, 0, s, s)
  {
  }

  /** Recovery that finds nothing to repair. */
  ghost predicate Clean(recover: Recover) {
    forall i: nat, content: Tree, history: Tree, db: Database :: recover(i, content, history, db) == Recovery(true, content, history, db)
  }

  /** Where it finds nothing to repair, recovery leaves every directory and the database alone. */
  lemma {:induction false} CleanRecoveryKeeps(recover: Recover, vaults: seq<VaultRoots>, i: nat, s: Live, p: Path)
    requires Clean(recover) && i <= |vaults|
    ensures var t := Recovered(recover, vaults, i, s);
            t.db == s.db && (p in s.nodes && s.nodes[p].Dir? ==> Get(t.nodes, p) == Get(s.nodes, p))
  {
    if i > 0 { CleanRecoveryKeeps(recover, vaults, i - 1, s, p); }
  }

  lemma RecoverOneLocal(recover: Recover, i: nat, v: VaultRoots, s: Live, paths: set<Path>)
    requires v.content.target in paths && v.history.target in paths
    ensures AgreeOff(RecoverOne(recover, i, v, s).nodes, s.nodes, paths)
    ensures OnlyDirsNew(RecoverOne(recover, i, v, s).nodes, s.nodes)
  {
  }

  /** Recovery works inside the roots of the listed Vaults only, and leaves directories there. */
  lemma {:induction false} RecoveryIsLocal(recover: Recover, vaults: seq<VaultRoots>, i: nat, s: Live)
    requires i <= |vaults|
    ensures AgreeOff(Recovered(recover, vaults, i, s).nodes, s.nodes, TargetsOf(vaults))
    ensures OnlyDirsNew(Recovered(recover, vaults, i, s).nodes, s.nodes)
  {
    if i > 0 {
      RecoveryIsLocal(recover, vaults, i - 1, s);
      var t := Recovered(recover, vaults, i - 1, s);
      assert vaults[i - 1].content.target in TargetsOf(vaults) && vaults[i - 1].history.target in TargetsOf(vaults);
      RecoverOneLocal(recover, i - 1, vaults[i - 1], t, TargetsOf(vaults));
      Chain(Recovered(recover, vaults, i, s).nodes, t.nodes, s.nodes, TargetsOf(vaults));
    }
  }

  lemma Chain(a: Nodes, b: Nodes, c: Nodes, paths: set<Path>)
    requires AgreeOff(a, b, paths) && AgreeOff(b, c, paths) && OnlyDirsNew(a, b) && OnlyDirsNew(b, c)
    ensures AgreeOff(a, c, paths) && OnlyDirsNew(a, c)
  {
  }

  /** Recovery depends only on the database and on what is at the listed roots. */
  lemma {:induction false} RecoveryDependsOnRoots(recover: Recover, vaults: seq<VaultRoots>, i: nat, s: Live, s': Live,
                                                  paths: set<Path>)
    requires i <= |vaults| && TargetsOf(vaults) <= paths
    requires AgreeOn(s.nodes, s'.nodes, paths) && s.db == s'.db && s.ok == s'.ok
    ensures var t, t' := Recovered(recover, vaults, i, s), Recovered(recover, vaults, i, s');
            AgreeOn(t.nodes, t'.nodes, paths) && t.db == t'.db && t.ok == t'.ok
  {
    hide RecoverOne, AgreeOn;
    if i > 0 {
      RecoveryDependsOnRoots(recover, vaults, i - 1, s, s', paths);
      var v := vaults[i - 1];
      assert v.content.target in TargetsOf(vaults) && v.history.target in TargetsOf(vaults);
      RecoverOneDependsOnRoots(recover, i - 1, v, Recovered(recover, vaults, i - 1, s), Recovered(recover, vaults, i - 1, s'), paths);
    }
  }

  lemma RecoverOneDependsOnRoots(recover: Recover, i: nat, v: VaultRoots, s: Live, s': Live, paths: set<Path>)
    requires v.content.target in paths && v.history.target in paths
    requires AgreeOn(s.nodes, s'.nodes, paths) && s.db == s'.db && s.ok == s'.ok
    ensures var t, t' := RecoverOne(recover, i, v, s), RecoverOne(recover, i, v, s');
            AgreeOn(t.nodes, t'.nodes, paths) && t.db == t'.db && t.ok == t'.ok
  {
    assert Get(s.nodes, v.content.target) == Get(s'.nodes, v.content.target);
    assert Get(s.nodes, v.history.target) == Get(s'.nodes, v.history.target);
  }

  // ----- Restored roots -----

  function RootTargets(roots: seq<Root>): set<Path> { set i | 0 <= i < |roots| :: roots[i].target }

  function RootAsides(roots: seq<Root>): set<Path> { set i | 0 <= i < |roots| :: roots[i].aside }

  /** The old file system with every root replaced by its staged tree. */
  function StagedOver(pre: Nodes, roots: seq<Root>): Nodes {
    if roots == [] then pre
    else var last := roots[|roots| - 1];
         StagedOver(pre, roots[..|roots| - 1])[last.target := Dir(StagedTree(pre, last.source))]
  }

  lemma {:induction false} StagedOverAt(pre: Nodes, roots: seq<Root>, p: Path)
    requires forall i, j :: 0 <= i < j < |roots| ==> roots[i].target != roots[j].target
    ensures p !in RootTargets(roots) ==> Get(StagedOver(pre, roots), p) == Get(pre, p)
    ensures forall i :: 0 <= i < |roots| && roots[i].target == p ==> Get(StagedOver(pre, roots), p) == Some(Dir(StagedTree(pre, roots[i].source)))
    decreases |roots|
  {
    if roots != [] {
      var front := roots[..|roots| - 1];
      StagedOverAt(pre, front, p);
      assert forall i :: 0 <= i < |front| ==> front[i] == roots[i];
    }
  }

  lemma {:induction false} UndoFrame(n: Nodes, swaps: seq<Swap>, p: Path)
    requires forall i :: 0 <= i < |swaps| ==> swaps[i].target != p && swaps[i].aside != Some(p)
    ensures Get(Undo(n, swaps), p) == Get(n, p)
    decreases |swaps|
  {
    if swaps != [] { UndoFrame(UndoOne(n, swaps[|swaps| - 1]), swaps[..|swaps| - 1], p); }
  }

  /** Once all roots are swapped, the file system is the old one with the staged trees, but for staging and rollback places. */
  lemma InstalledIsStagedOver(n: Nodes, pre: Nodes, swaps: seq<Swap>, l: Layout, p: Path)
    requires l.Valid() && SwappedVaults(n, pre, swaps, l, |l.vaults|) && p !in l.staged && p !in RootAsides(l.roots)
    ensures Get(n, p) == Get(StagedOver(pre, l.roots), p)
  {
    StagedOverAt(pre, l.roots, p);
    if p !in RootTargets(l.roots) {
      forall i | 0 <= i < |swaps|
        ensures swaps[i].target != p && swaps[i].aside != Some(p)
      {
        assert SwapOf(swaps[i], l.roots[i]);
      }
      UndoFrame(n, swaps, p);
      assert Get(Undo(n, swaps), p) == Get(pre, p);
    }
  }

  /** Undoing goes through whatever happens away from the swaps and inside the roots, as long as the roots stay directories. */
  lemma {:induction false} UndoableInside(a: Nodes, b: Nodes, swaps: seq<Swap>, away: set<Path>)
    requires Apart(swaps, away) && Undoable(a, swaps) && AgreeOff(a, b, away + Targets(swaps))
    requires forall i :: 0 <= i < |swaps| && swaps[i].target in b ==> b[swaps[i].target].Dir?
    ensures Undoable(b, swaps)
    decreases |swaps|
  {
    if swaps != [] {
      var s, rest := swaps[|swaps| - 1], swaps[..|swaps| - 1];
      assert forall i :: 0 <= i < |rest| ==> rest[i] == swaps[i];
      TargetsLast(swaps);
      if s.aside.Some? { assert s.aside.value !in Targets(swaps) && Get(a, s.aside.value) == Get(b, s.aside.value); }
      assert away + Targets(rest) + {s.target} == away + Targets(swaps);
      UndoOneLocal(a, b, s, away + Targets(rest));
      UndoableInside(UndoOne(a, s), UndoOne(b, s), rest, away);
    }
  }

  /** Roots that the restored database lists and that were not swapped. */
  function Strays(relisted: seq<VaultRoots>, l: Layout): set<Path> { TargetsOf(relisted) - RootTargets(l.roots) }

  /** No listed root is in the staging area or a rollback place. */
  predicate Listable(relisted: seq<VaultRoots>, l: Layout) {
    forall p :: p in TargetsOf(relisted) ==> p !in l.staged && p !in RootAsides(l.roots)
  }

  /** After recovery, undoing the swaps still goes through and gives the old live roots back, but for strays. */
  lemma UndoAfterRecovery(n: Nodes, installed: Nodes, pre: Nodes, swaps: seq<Swap>, l: Layout, relisted: seq<VaultRoots>)
    requires l.Valid() && SwappedVaults(installed, pre, swaps, l, |l.vaults|) && Listable(relisted, l)
    requires AgreeOff(n, installed, TargetsOf(relisted)) && OnlyDirsNew(n, installed)
    ensures AgreeOff(Undo(n, swaps), pre, l.staged + Strays(relisted, l)) && Undoable(n, swaps)
  {
    var away := l.staged + Strays(relisted, l);
    SwapsAreApart(swaps, l.roots, l.staged);
    SwapTargets(swaps, l.roots);
    SwapsAvoidStrays(swaps, l, relisted);
    assert AgreeOff(installed, n, away + Targets(swaps));
    UndoLocal(installed, n, swaps, away);
    forall i | 0 <= i < |swaps| && swaps[i].target in n
      ensures n[swaps[i].target].Dir?
    {
      assert SwapOf(swaps[i], l.roots[i]) && Get(installed, l.roots[i].target).Some?;
    }
    UndoableInside(installed, n, swaps, away);
    forall p | p !in away
      ensures Get(Undo(n, swaps), p) == Get(pre, p)
    {
      assert Get(Undo(installed, swaps), p) == Get(Undo(n, swaps), p);
    }
  }

  lemma SwapTargets(swaps: seq<Swap>, roots: seq<Root>)
    requires SwapsOf(swaps, roots) && |swaps| == |roots|
    ensures Targets(swaps) == RootTargets(roots)
  {
    forall i | 0 <= i < |roots|
      ensures roots[i].target in Targets(swaps) && swaps[i].target in RootTargets(roots)
    {
      assert SwapOf(swaps[i], roots[i]);
    }
  }

  lemma SwapsAvoidStrays(swaps: seq<Swap>, l: Layout, relisted: seq<VaultRoots>)
    requires l.Valid() && SwapsOf(swaps, l.roots) && Apart(swaps, l.staged) && Listable(relisted, l)
    ensures Apart(swaps, l.staged + Strays(relisted, l))
  {
    forall i | 0 <= i < |swaps|
      ensures swaps[i].target !in Strays(relisted, l)
      ensures swaps[i].aside.Some? ==> swaps[i].aside.value !in Strays(relisted, l)
    {
      assert SwapOf(swaps[i], l.roots[i]);
      assert l.roots[i].target in RootTargets(l.roots) && l.roots[i].aside in RootAsides(l.roots);
    }
  }

  // ----- The whole -----

  class LiveState {
    const fs: FileSystem
    var db: Database

    constructor (fs: FileSystem, db: Database)
      ensures this.fs == fs && this.db == db
    {
      this.fs, this.db := fs, db;
    }

    /** Recovery of every listed Vault in turn, up to the first that fails or needs review. */
    method RecoverAll(relisted: seq<VaultRoots>, recover: Recover) returns (ok: bool)
      modifies this, fs
      ensures fs.clock == old(fs.clock)
      ensures Live(fs.nodes, db, ok) == Recovered(recover, relisted, |relisted|, Live(old(fs.nodes), old(db), true))
    {
      ok := true;
      var i := 0;
      while i < |relisted| && ok
        invariant 0 <= i <= |relisted| && fs.clock == old(fs.clock)
        invariant ok ==> Live(fs.nodes, db, ok) == Recovered(recover, relisted, i, Live(old(fs.nodes), old(db), true))
        invariant !ok ==> forall j :: i <= j <= |relisted| ==>
                            Live(fs.nodes, db, ok) == Recovered(recover, relisted, j, Live(old(fs.nodes), old(db), true))
        decreases |relisted| - i
      {
        ghost var start := Live(old(fs.nodes), old(db), true);
        var s := RecoverOne(recover, i, relisted[i], Live(fs.nodes, db, true));
        fs.nodes, db, ok := s.nodes, s.db, s.ok;
        i := i + 1;
        assert s == Recovered(recover, relisted, i, start);
        if !ok { FailureStays(recover, relisted, i, start); }
      }
    }

    /** From the database replacement to the end of recovery. */
    method ReplaceAndRecover(relisted: seq<VaultRoots>, c: Calls, migrated: Database, recover: Recover) returns (ok: bool)
      modifies this, fs
      ensures fs.clock == old(fs.clock)
      ensures AgreeOff(fs.nodes, old(fs.nodes), TargetsOf(relisted)) && OnlyDirsNew(fs.nodes, old(fs.nodes))
      ensures var e := Recovered(recover, relisted, |relisted|, Live(old(fs.nodes), migrated, true));
              && (ok <==> c.replaced && c.migrated && c.sound && e.ok)
              && (ok ==> fs.nodes == e.nodes && db == e.db)
    {
      hide AgreeOff, OnlyDirsNew;
      NothingChanges(fs.nodes, TargetsOf(relisted));
      RecoveryIsLocal(recover, relisted, |relisted|, Live(fs.nodes, migrated, true));
      db := if c.replaced && c.migrated then migrated else c.left;
      if !c.replaced || !c.migrated || !c.sound { return false; }
      ok := RecoverAll(relisted, recover);
    }

    /**
     apply_restore. Either every root is what recovery made of the staged trees and the
     database what it made of the migrated snapshot, or every live root and the database are as
     before. Three things break this. An undo step, from `since` on, may fail. A Vault that only
     the restored database lists is recovered in place, and no swap covers it: a stray. And the
     early return of swap_roots keeps the roots swapped before it; when no other call fails, the
     roots that are not strays and the database stay as they were exactly unless a staged
     directory cannot be created and the Vaults before its own, at least one, were swapped.
     */
    method ApplyRestore(vaults: seq<VaultRoots>, relisted: seq<VaultRoots>, c: Calls, migrated: Database, recover: Recover,
                        ghost l: Layout)
      returns (r: Applied, ghost since: nat)
      requires l.Valid() && l.vaults == vaults && Listable(relisted, l)
      modifies this, fs
      ensures old(fs.clock) <= since <= fs.clock
      ensures r.Success? ==> AllNew(fs.nodes, db, old(fs.nodes), relisted, migrated, recover, l)
      ensures r.Success? && ApartTargets(relisted) ==> EachRecovered(fs.nodes, db, old(fs.nodes), relisted, migrated, recover, l)
      ensures r.Success? && Clean(recover) ==>
                && db == migrated
                && forall k :: 0 <= k < |l.roots| ==>
                                 Get(fs.nodes, l.roots[k].target) == Some(Dir(StagedTree(old(fs.nodes), l.roots[k].source)))
      ensures r.Success? && !fs.FaultIn(old(fs.clock), fs.clock) ==> forall k :: 0 <= k < |l.roots| ==> l.roots[k].aside !in fs.nodes
      ensures !(c.extracted && c.snapshotted) ==> r == Failure(true) && fs.nodes == old(fs.nodes) && db == old(db)
      ensures r == Failure(true) ==> AgreeOff(fs.nodes, old(fs.nodes), l.staged + Strays(relisted, l)) && db == old(db)
      ensures r == Failure(false) ==> !c.putBack || fs.FaultIn(since, fs.clock)
      ensures r.Failure? ==> !Works(old(fs.nodes), Refusals(fs.refused, old(fs.creates)), relisted, c, migrated, recover, l)
                             || fs.FaultIn(old(fs.clock), since)
      ensures r.LeftSwapped? ==> && db == old(db) && (r.vaultsDone == 0 ==> AgreeOff(fs.nodes, old(fs.nodes), l.staged))
                                 && (AgreeOff(fs.nodes, old(fs.nodes), l.staged + Strays(relisted, l)) <==> r.vaultsDone == 0)
      ensures fs.FaultIn(old(fs.clock), fs.clock)
              || (r.Success? <==> Works(old(fs.nodes), Refusals(fs.refused, old(fs.creates)), relisted, c, migrated, recover, l))
      ensures fs.FaultIn(old(fs.clock), fs.clock)
              || forall k: nat :: r == LeftSwapped(k)
                                  <==> c.Started() && StopsAt(old(fs.nodes), Refusals(fs.refused, old(fs.creates)), vaults, l.roots, k)
      ensures r.Success? || fs.FaultIn(old(fs.clock), fs.clock) || !c.putBack
              || (AgreeOff(fs.nodes, old(fs.nodes), l.staged + Strays(relisted, l)) && db == old(db)
                  <==> !(c.Started() && LeavesSwapped(old(fs.nodes), Refusals(fs.refused, old(fs.creates)), vaults, l.roots)))
    {
      hide Swapped, Laid, Ready, AgreeOff, StopsAt, Listable, Recovered, OnlyDirsNew, Shown;
      ghost var pre := fs.nodes;
      NothingChanges(pre, l.staged);
      NothingChanges(pre, l.staged + Strays(relisted, l));
      since := fs.clock;
      if !c.extracted || !c.snapshotted { return Failure(true), since; }
      var snapshot, swapped := db, Done([]);
      swapped, since := SwapRoots(fs, vaults, l);
      if !swapped.Done? {
        StraysMayDiffer(fs.nodes, pre, l, relisted);
        if swapped.NotCreated? { ShownBesideStrays(fs.nodes, pre, l, swapped.vaultsDone, relisted); }
        return if swapped.NotCreated? then LeftSwapped(swapped.vaultsDone) else Failure(swapped.undone), since;
      }
      ghost var installed := fs.nodes;
      EndsAlike(installed, pre, swapped.swaps, l, relisted, migrated, recover);
      since := fs.clock;
      var ok := ReplaceAndRecover(relisted, c, migrated, recover);
      if !ok {
        UndoAfterRecovery(fs.nodes, installed, pre, swapped.swaps, l, relisted);
        var rolled := fs.Rollback(swapped.swaps);
        db := if c.putBack then snapshot else c.left;
        return Failure(rolled && c.putBack), since;
      }
      ghost var recovered := fs.nodes;
      AsidesAreDirs(recovered, installed, pre, swapped.swaps, l, relisted);
      var cleaned := fs.Cleanup(swapped.swaps);
      if cleaned && Ready(pre, l.roots, 0, |l.roots|) {
        AsidesAreGone(fs.nodes, recovered, installed, pre, swapped.swaps, l, relisted);
      }
      CleanupKeepsRoots(fs.nodes, recovered, installed, pre, swapped.swaps, l, relisted, migrated, recover, db);
      if ApartTargets(relisted) { NewIsEachRecovered(fs.nodes, db, pre, relisted, migrated, recover, l); }
      if Clean(recover) { NewIsStaged(fs.nodes, db, pre, relisted, migrated, recover, l); }
      r := Success;
    }
  }

  /** What recovery makes of the staged trees and the migrated snapshot. */
  function EndState(pre: Nodes, relisted: seq<VaultRoots>, migrated: Database, recover: Recover, roots: seq<Root>): Live {
    Recovered(recover, relisted, |relisted|, Live(StagedOver(pre, roots), migrated, true))
  }

  /** Every restored and every listed root is as recovery left it, and so is the database. */
  ghost predicate AllNew(n: Nodes, db: Database, pre: Nodes, relisted: seq<VaultRoots>, migrated: Database,
                         recover: Recover, l: Layout)
  {
    var e := EndState(pre, relisted, migrated, recover, l.roots);
    e.ok && db == e.db && AgreeOn(n, e.nodes, RootTargets(l.roots) + TargetsOf(relisted))
  }

  /** Every listed Vault holds what recovery made of its staged content and history, and the database what the last one left. */
  ghost predicate EachRecovered(n: Nodes, db: Database, pre: Nodes, relisted: seq<VaultRoots>, migrated: Database,
                                recover: Recover, l: Layout)
  {
    var over := StagedOver(pre, l.roots);
    && db == DbBefore(recover, relisted, |relisted|, over, migrated)
    && forall i :: 0 <= i < |relisted| ==>
                     Recoverable(recover, relisted, i, over, migrated) && RecoveredAt(n, relisted[i], Outcome(recover, relisted, i, over, migrated))
  }

  lemma {:induction false} NewIsEachRecovered(n: Nodes, db: Database, pre: Nodes, relisted: seq<VaultRoots>, migrated: Database,
                                              recover: Recover, l: Layout)
    requires ApartTargets(relisted) && AllNew(n, db, pre, relisted, migrated, recover, l)
    ensures EachRecovered(n, db, pre, relisted, migrated, recover, l)
  {
    hide Recoverable, ApartTargets, Outcome, DbBefore;
    var start := Live(StagedOver(pre, l.roots), migrated, true);
    RecoveryByVault(recover, relisted, |relisted|, start);
    var e := EndState(pre, relisted, migrated, recover, l.roots);
    forall i | 0 <= i < |relisted|
      ensures RecoveredAt(n, relisted[i], Outcome(recover, relisted, i, start.nodes, migrated))
    {
      assert relisted[i].content.target in TargetsOf(relisted) && relisted[i].history.target in TargetsOf(relisted);
      assert RecoveredAt(e.nodes, relisted[i], Outcome(recover, relisted, i, start.nodes, migrated));
    }
  }

  lemma {:induction false} NewIsStaged(n: Nodes, db: Database, pre: Nodes, relisted: seq<VaultRoots>, migrated: Database,
                                       recover: Recover, l: Layout)
    requires l.Valid() && Clean(recover) && AllNew(n, db, pre, relisted, migrated, recover, l)
    ensures db == migrated
    ensures forall k :: 0 <= k < |l.roots| ==> Get(n, l.roots[k].target) == Some(Dir(StagedTree(pre, l.roots[k].source)))
  {
    hide Clean, Recovered;
    var start := Live(StagedOver(pre, l.roots), migrated, true);
    CleanRecoveryKeeps(recover, relisted, |relisted|, start, []);
    forall k | 0 <= k < |l.roots|
      ensures Get(n, l.roots[k].target) == Some(Dir(StagedTree(pre, l.roots[k].source)))
    {
      var p := l.roots[k].target;
      StagedOverAt(pre, l.roots, p);
      CleanRecoveryKeeps(recover, relisted, |relisted|, start, p);
      assert p in RootTargets(l.roots);
    }
  }

  /** Nothing stands in the way of the restore. */
  predicate Works(pre: Nodes, f: Refusals, relisted: seq<VaultRoots>, c: Calls, migrated: Database, recover: Recover, l: Layout) {
    && Ready(pre, l.roots, 0, |l.roots|) && f.NoneBefore(|l.vaults|)
    && c.AllWork() && EndState(pre, relisted, migrated, recover, l.roots).ok
  }

  lemma NothingChanges(n: Nodes, paths: set<Path>)
    ensures AgreeOff(n, n, paths) && OnlyDirsNew(n, n)
  {
  }

  lemma StraysMayDiffer(n: Nodes, pre: Nodes, l: Layout, relisted: seq<VaultRoots>)
    ensures AgreeOff(n, pre, l.staged) ==> AgreeOff(n, pre, l.staged + Strays(relisted, l))
  {
  }

  /** The trace of the first swap is not a stray. */
  lemma {:induction false} ShownBesideStrays(n: Nodes, pre: Nodes, l: Layout, i: nat, relisted: seq<VaultRoots>)
    requires l.Valid() && Listable(relisted, l) && Shown(n, pre, l, i)
    ensures AgreeOff(n, pre, l.staged + Strays(relisted, l)) <==> i == 0
    ensures i == 0 ==> AgreeOff(n, pre, l.staged)
  {
    if l.roots != [] {
      StagedIsAway(l);
      assert l.roots[0].target in RootTargets(l.roots) && l.roots[0].aside in RootAsides(l.roots);
    }
    ShownIsAChange(n, pre, l, i, l.staged + Strays(relisted, l));
  }

  /** Recovery of the installed roots ends as recovery of the staged trees put over the old file system. */
  lemma EndsAlike(installed: Nodes, pre: Nodes, swaps: seq<Swap>, l: Layout, relisted: seq<VaultRoots>,
                  migrated: Database, recover: Recover)
    requires l.Valid() && SwappedVaults(installed, pre, swaps, l, |l.vaults|) && Listable(relisted, l)
    ensures var t, e := Recovered(recover, relisted, |relisted|, Live(installed, migrated, true)),
                        EndState(pre, relisted, migrated, recover, l.roots);
            t.ok == e.ok && t.db == e.db && AgreeOn(t.nodes, e.nodes, RootTargets(l.roots) + TargetsOf(relisted))
  {
    var paths := RootTargets(l.roots) + TargetsOf(relisted);
    forall p | p in paths
      ensures Get(installed, p) == Get(StagedOver(pre, l.roots), p)
    {
      RootsAreListable(l, p);
      InstalledIsStagedOver(installed, pre, swaps, l, p);
    }
    RecoveryDependsOnRoots(recover, relisted, |relisted|, Live(installed, migrated, true),
                           Live(StagedOver(pre, l.roots), migrated, true), paths);
  }

  lemma RootsAreListable(l: Layout, p: Path)
    requires l.Valid()
    ensures p in RootTargets(l.roots) ==> p !in l.staged && p !in RootAsides(l.roots)
  {
    if p in RootTargets(l.roots) {
      var i :| 0 <= i < |l.roots| && l.roots[i].target == p;
      assert LaidOne(l.roots[i], l.staged);
    }
  }

  lemma CleanupKeepsRoots(n: Nodes, recovered: Nodes, installed: Nodes, pre: Nodes, swaps: seq<Swap>, l: Layout,
                          relisted: seq<VaultRoots>, migrated: Database, recover: Recover, db: Database)
    requires l.Valid() && SwappedVaults(installed, pre, swaps, l, |l.vaults|) && Listable(relisted, l)
    requires AllNew(recovered, db, pre, relisted, migrated, recover, l) && AgreeOff(n, recovered, Asides(swaps))
    ensures AllNew(n, db, pre, relisted, migrated, recover, l)
  {
    forall p | p in RootTargets(l.roots) + TargetsOf(relisted)
      ensures Get(n, p) == Get(recovered, p)
    {
      RootsAreListable(l, p);
      if p in Asides(swaps) { AsidesOfRoots(swaps, l.roots, p); }
    }
  }

  /** Where a swap can be undone, the directory that was moved aside is there. */
  lemma {:induction false} UndoableHasAsides(n: Nodes, swaps: seq<Swap>, staged: set<Path>, p: Path)
    requires Apart(swaps, staged) && Undoable(n, swaps) && p in Asides(swaps)
    ensures p in n && n[p].Dir?
    decreases |swaps|
  {
    var s, rest := swaps[|swaps| - 1], swaps[..|swaps| - 1];
    assert forall i :: 0 <= i < |rest| ==> rest[i] == swaps[i];
    if s.aside != Some(p) {
      var i :| 0 <= i < |swaps| && swaps[i].aside == Some(p);
      assert rest[i].aside == Some(p) && p in Asides(rest);
      UndoableHasAsides(UndoOne(n, s), rest, staged, p);
    }
  }

  /** Recovery does not touch the rollback places, so each of them is still a directory. */
  lemma {:induction false} AsidesAreDirs(recovered: Nodes, installed: Nodes, pre: Nodes, swaps: seq<Swap>, l: Layout, relisted: seq<VaultRoots>)
    requires l.Valid() && SwappedVaults(installed, pre, swaps, l, |l.vaults|) && Listable(relisted, l)
    requires AgreeOff(recovered, installed, TargetsOf(relisted))
    ensures forall p :: p in Asides(swaps) && p in recovered ==> recovered[p].Dir?
  {
    SwapsAreApart(swaps, l.roots, l.staged);
    forall p | p in Asides(swaps)
      ensures p in recovered ==> recovered[p].Dir?
    {
      UndoableHasAsides(installed, swaps, l.staged, p);
      AsidesOfRoots(swaps, l.roots, p);
      assert Get(recovered, p) == Get(installed, p);
    }
  }

  /** After the cleanup no rollback place is left. */
  lemma {:induction false} AsidesAreGone(n: Nodes, recovered: Nodes, installed: Nodes, pre: Nodes, swaps: seq<Swap>, l: Layout,
                                         relisted: seq<VaultRoots>)
    requires l.Valid() && SwappedVaults(installed, pre, swaps, l, |l.vaults|) && Listable(relisted, l) && Ready(pre, l.roots, 0, |l.roots|)
    requires AgreeOff(recovered, installed, TargetsOf(relisted)) && AgreeOff(n, recovered, Asides(swaps))
    requires forall p :: p in Asides(swaps) ==> p !in n
    ensures forall k :: 0 <= k < |l.roots| ==> l.roots[k].aside !in n
  {
    forall k | 0 <= k < |l.roots|
      ensures l.roots[k].aside !in n
    {
      var p := l.roots[k].aside;
      if p !in Asides(swaps) {
        assert LaidOne(l.roots[k], l.staged) && ReadyOne(pre, l.roots[k]) && p in RootAsides(l.roots);
        forall i | 0 <= i < |swaps|
          ensures swaps[i].target != p && swaps[i].aside != Some(p)
        {
          assert SwapOf(swaps[i], l.roots[i]);
        }
        UndoFrame(installed, swaps, p);
        assert Get(Undo(installed, swaps), p) == Get(pre, p);
        assert Get(recovered, p) == Get(installed, p) && Get(n, p) == Get(recovered, p);
      }
    }
  }

  lemma AsidesOfRoots(swaps: seq<Swap>, roots: seq<Root>, p: Path)
    requires SwapsOf(swaps, roots) && p in Asides(swaps)
    ensures p in RootAsides(roots)
  {
    var i :| 0 <= i < |swaps| && swaps[i].aside == Some(p);
    assert SwapOf(swaps[i], roots[i]);
  }

  lemma {:induction false} FailureStays(recover: Recover, relisted: seq<VaultRoots>, i: nat, s: Live)
    requires i <= |relisted| && !Recovered(recover, relisted, i, s).ok
    ensures forall j :: i <= j <= |relisted| ==> Recovered(recover, relisted, j, s) == Recovered(recover, relisted, i, s)
  {
    var j := i;
    while j < |relisted|
      invariant i <= j <= |relisted|
      invariant forall k :: i <= k <= j ==> Recovered(recover, relisted, k, s) == Recovered(recover, relisted, i, s)
    {
      j := j + 1;
    }
  }

  // ----- The early return, concretely -----

  /** A root whose paths start with `s` in the staging area, `l` for the live root and `o` for the rollback place. */
  function Named(c: char): Root { Root(['s', c], ['l', c], ['o', c]) }

  lemma NamedAreLaid(a: char, b: char, c: char, d: char)
    requires a != b && a != c && a != d && b != c && b != d && c != d
    ensures Laid([Named(a), Named(b), Named(c), Named(d)], {['s', a], ['s', b], ['s', c], ['s', d]})
  {
  }

  lemma SecondStops(tree: Tree, roots: seq<Root>, f: Refusals)
    requires roots == [Named('0'), Named('1'), Named('2'), Named('3')]
    requires f.from == 0 && forall c: nat :: f.refused(c) <==> c == 2
    ensures var vaults := [VaultRoots(roots[0], roots[1]), VaultRoots(roots[2], roots[3])];
            StopsAt(map["s0" := Dir(tree)], f, vaults, roots, 1) && RootsOf(roots, vaults)
  {
    assert !f.At(0) && f.At(1);
  }

  /**
   The archive has files for the first of two Vaults only, and the operating system refuses to
   create the missing staged directory of the second. No other call fails, and the restore
   leaves the first Vault swapped.
   */
  method EarlyReturnKeepsSwaps(tree: Tree) returns (before: Nodes, after: Nodes)
    ensures !AgreeOff(after, before, {"s0", "s1", "s2", "s3"})
  {
    hide Laid, StopsAt, AgreeOff;
    var roots := [Named('0'), Named('1'), Named('2'), Named('3')];
    var vaults := [VaultRoots(roots[0], roots[1]), VaultRoots(roots[2], roots[3])];
    ghost var l := Layout(vaults, roots, {"s0", "s1", "s2", "s3"});
    NamedAreLaid('0', '1', '2', '3');
    before := map["s0" := Dir(tree)];
    var fs := new FileSystem(before, c => false, c => c == 2);
    SecondStops(tree, roots, Refusals(fs.refused, fs.creates));
    var state := new LiveState(fs, 0);
    var r, _ := state.ApplyRestore(vaults, [], Calls(true, true, true, true, true, true, 0), 1,
                                   (i, content, history, db) => Recovery(true, content, history, db), l);
    after := fs.nodes;
    assert l.staged + Strays([], l) == l.staged;
  }
}
