/**
 Applying a restore: every Vault's content and history root is swapped for the staged
 one, the database is replaced and migrated, recovery runs, and a failure undoes it all.
 */
module RestoreApply {
  import opened Prelude
  import opened RootSwap

  /** A staged directory, the live root it replaces, and where that root moves aside. */
  datatype Root = Root(source: Path, target: Path, aside: Path)

  datatype VaultRoots = VaultRoots(content: Root, history: Root)

  /**
   The layout that Vault registration gives: distinct roots, distinct staged directories, a
   staging area away from both, and no live root in the place of a rollback directory.
   */
  predicate Laid(roots: seq<Root>, staged: set<Path>) {
    && (forall i :: 0 <= i < |roots| ==> LaidOne(roots[i], staged))
    && (forall i, j :: 0 <= i < |roots| && 0 <= j < |roots| ==> roots[i].target != roots[j].aside)
    && (forall i, j :: 0 <= i < j < |roots| ==> roots[i].target != roots[j].target && roots[i].source != roots[j].source)
  }

  predicate LaidOne(root: Root, staged: set<Path>) {
    root.source in staged && root.target !in staged && root.aside !in staged
  }

  /** What the staging area holds for a root; a missing directory is created empty. */
  function StagedTree(n: Nodes, source: Path): Tree {
    if source in n && n[source].Dir? then n[source].tree else map[]
  }

  predicate SwapOf(s: Swap, root: Root) {
    s.target == root.target && (s.aside.Some? ==> s.aside.value == root.aside)
  }

  predicate SwapsOf(swaps: seq<Swap>, roots: seq<Root>) {
    |swaps| <= |roots| && forall i :: 0 <= i < |swaps| ==> SwapOf(swaps[i], roots[i])
  }

  /** The first root was absent and is there now, or was moved aside to a place that was free. */
  predicate LeavesTrace(n: Nodes, pre: Nodes, s: Swap) {
    var p := if s.aside.Some? then s.aside.value else s.target;
    p in n && p !in pre
  }

  /** The state of the file system after some roots have been swapped. */
  ghost predicate Swapped(n: Nodes, pre: Nodes, swaps: seq<Swap>, roots: seq<Root>, staged: set<Path>) {
    && SwapsOf(swaps, roots)
    && AgreeOff(Undo(n, swaps), pre, staged)
    && Undoable(n, swaps)
    && (swaps != [] ==> LeavesTrace(n, pre, swaps[0]))
    && (forall i :: 0 <= i < |swaps| ==> Get(n, roots[i].target) == Some(Dir(StagedTree(pre, roots[i].source))))
    && (forall i :: |swaps| <= i < |roots| ==> SourceReady(n, pre, roots[i].source))
  }

  /** A staged directory that is still to be used is as extracted, or was created empty. */
  predicate SourceReady(n: Nodes, pre: Nodes, source: Path) {
    Get(n, source) == Get(pre, source) || (source !in pre && Get(n, source) == Some(Dir(map[])))
  }

  lemma {:induction false} SwapsAreApart(swaps: seq<Swap>, roots: seq<Root>, staged: set<Path>)
    requires SwapsOf(swaps, roots) && Laid(roots, staged)
    ensures Apart(swaps, staged)
  {
  }

  /** Whether swaps can be undone does not depend on the staging area. */
  lemma {:induction false} UndoableLocal(a: Nodes, b: Nodes, swaps: seq<Swap>, staged: set<Path>)
    requires Apart(swaps, staged) && AgreeOff(a, b, staged) && Undoable(a, swaps)
    ensures Undoable(b, swaps)
    decreases |swaps|
  {
    if swaps != [] {
      var s, rest := swaps[|swaps| - 1], swaps[..|swaps| - 1];
      assert forall i :: 0 <= i < |rest| ==> rest[i] == swaps[i];
      assert Get(a, s.target) == Get(b, s.target);
      if s.aside.Some? { assert Get(a, s.aside.value) == Get(b, s.aside.value); }
      UndoOneLocal(a, b, s, staged);
      UndoableLocal(UndoOne(a, s), UndoOne(b, s), rest, staged);
    }
  }

  /** A change of the staging area keeps what was swapped. */
  lemma StagingKeepsSwapped(a: Nodes, b: Nodes, pre: Nodes, swaps: seq<Swap>, roots: seq<Root>, staged: set<Path>)
    requires Laid(roots, staged) && Swapped(a, pre, swaps, roots, staged) && AgreeOff(a, b, staged)
    requires forall i :: |swaps| <= i < |roots| ==> SourceReady(b, pre, roots[i].source)
    ensures Swapped(b, pre, swaps, roots, staged)
  {
    SwapsAreApart(swaps, roots, staged);
    assert AgreeOff(a, b, staged + Targets(swaps));
    UndoLocal(a, b, swaps, staged);
    UndoableLocal(a, b, swaps, staged);
    forall p | p !in staged
      ensures Get(Undo(b, swaps), p) == Get(pre, p)
    {
      assert Get(Undo(a, swaps), p) == Get(Undo(b, swaps), p);
    }
    forall i | 0 <= i < |swaps|
      ensures Get(b, roots[i].target) == Some(Dir(StagedTree(pre, roots[i].source)))
    {
      assert LaidOne(roots[i], staged) && Get(a, roots[i].target) == Get(b, roots[i].target);
    }
    if swaps != [] {
      assert SwapOf(swaps[0], roots[0]) && LaidOne(roots[0], staged);
      var p := if swaps[0].aside.Some? then swaps[0].aside.value else swaps[0].target;
      assert Get(a, p) == Get(b, p);
    }
  }

  /** What `FileSystem.Install` reports when it succeeds. */
  predicate InstalledAs(n: Nodes, after: Nodes, root: Root, s: Swap) {
    && root.source in n && n[root.source].Dir? && root.source != root.target
    && (root.target in n ==> n[root.target].Dir? && root.aside !in n)
    && s == Swap(root.target, if root.target in n then Some(root.aside) else None)
    && after == Installed(n, root.source, root.target, root.aside)
  }

  lemma InstallUndoes(n: Nodes, after: Nodes, pre: Nodes, swaps: seq<Swap>, s: Swap, roots: seq<Root>,
                      staged: set<Path>)
    requires Laid(roots, staged) && Swapped(n, pre, swaps, roots, staged) && |swaps| < |roots|
    requires InstalledAs(n, after, roots[|swaps|], s)
    ensures AgreeOff(Undo(after, swaps + [s]), pre, staged) && Undoable(after, swaps + [s])
  {
    var root := roots[|swaps|];
    assert LaidOne(root, staged) && root.target != root.aside;
    assert (swaps + [s])[..|swaps|] == swaps;
    SwapsAreApart(swaps, roots, staged);
    if root.target in n { UndoOneInstalled(n, root.source, root.target, root.aside); }
    assert UndoOne(after, s) == n - {root.source};
    assert AgreeOff(n, n - {root.source}, staged);
    assert AgreeOff(n, n - {root.source}, staged + Targets(swaps));
    UndoLocal(n, n - {root.source}, swaps, staged);
    UndoableLocal(n, n - {root.source}, swaps, staged);
    forall p | p !in staged
      ensures Get(Undo(after, swaps + [s]), p) == Get(pre, p)
    {
      assert Get(Undo(n, swaps), p) == Get(Undo(n - {root.source}, swaps), p);
    }
  }

  lemma InstallExtends(n: Nodes, after: Nodes, pre: Nodes, swaps: seq<Swap>, s: Swap, roots: seq<Root>,
                       staged: set<Path>)
    requires Laid(roots, staged) && Swapped(n, pre, swaps, roots, staged) && |swaps| < |roots|
    requires InstalledAs(n, after, roots[|swaps|], s)
    ensures Swapped(after, pre, swaps + [s], roots, staged)
  {
    hide Undo, Undoable, AgreeOff;
    var k := |swaps|;
    var root := roots[k];
    InstallUndoes(n, after, pre, swaps, s, roots, staged);
    assert LaidOne(root, staged) && root.target != root.aside;
    forall i | 0 <= i < k + 1
      ensures SwapOf((swaps + [s])[i], roots[i])
      ensures Get(after, roots[i].target) == Some(Dir(StagedTree(pre, roots[i].source)))
    {
      assert LaidOne(roots[i], staged);
      if i < k {
        assert SwapOf(swaps[i], roots[i]);
        assert roots[i].target != roots[k].target && roots[i].target != roots[k].aside;
      } else {
        assert SourceReady(n, pre, root.source);
      }
    }
    forall i | k + 1 <= i < |roots|
      ensures SourceReady(after, pre, roots[i].source)
    {
      assert LaidOne(roots[i], staged) && roots[k].source != roots[i].source;
      assert SourceReady(n, pre, roots[i].source);
    }
    InstallTraces(n, after, pre, swaps, s, roots, staged);
  }

  lemma InstallTraces(n: Nodes, after: Nodes, pre: Nodes, swaps: seq<Swap>, s: Swap, roots: seq<Root>,
                      staged: set<Path>)
    requires Laid(roots, staged) && Swapped(n, pre, swaps, roots, staged) && |swaps| < |roots|
    requires InstalledAs(n, after, roots[|swaps|], s)
    ensures LeavesTrace(after, pre, (swaps + [s])[0])
  {
  }

  /** The live root or its rollback place holds what it did not hold before. */
  predicate Traced(n: Nodes, pre: Nodes, root: Root) {
    (root.target in n && root.target !in pre) || (root.aside in n && root.aside !in pre)
  }

  /** Either nothing was swapped, or the first root shows it. */
  ghost predicate Shown(n: Nodes, pre: Nodes, l: Layout, vaultsDone: nat) {
    if vaultsDone == 0 then AgreeOff(n, pre, l.staged) else l.roots != [] && Traced(n, pre, l.roots[0])
  }

  lemma {:induction false} SwappedShows(n: Nodes, pre: Nodes, swaps: seq<Swap>, l: Layout, i: nat)
    requires l.Valid() && i < |l.vaults| && SwappedVaults(n, pre, swaps, l, i)
    ensures Shown(n, pre, l, i)
  {
    if i > 0 { assert SwapOf(swaps[0], l.roots[0]); }
  }

  lemma {:induction false} ShownIsAChange(n: Nodes, pre: Nodes, l: Layout, i: nat, away: set<Path>)
    requires l.Valid() && Shown(n, pre, l, i) && l.staged <= away
    requires l.roots != [] ==> l.roots[0].target !in away && l.roots[0].aside !in away
    ensures AgreeOff(n, pre, away) <==> i == 0
  {
    if i > 0 {
      var root := l.roots[0];
      assert Get(n, root.target) != Get(pre, root.target) || Get(n, root.aside) != Get(pre, root.aside);
    }
  }

  // ----- Which roots can be swapped when no call fails -----

  /** The roots from `lo` on, before `hi`, can be swapped one after the other. */
  predicate Ready(n: Nodes, roots: seq<Root>, lo: nat, hi: nat) {
    && hi <= |roots|
    && (forall i :: lo <= i < hi ==> ReadyOne(n, roots[i]))
    && (forall i, j :: lo <= i < j < hi && roots[i].target in n ==> roots[i].aside != roots[j].aside)
  }

  predicate ReadyOne(n: Nodes, root: Root) {
    && (root.source in n ==> n[root.source].Dir?)
    && (root.target in n ==> n[root.target].Dir?)
    && root.aside !in n
  }

  /** A staged directory of the Vault cannot be created, because something else is there. */
  predicate Blocked(n: Nodes, vault: VaultRoots) {
    Get(n, vault.content.source) == Some(Other) || Get(n, vault.history.source) == Some(Other)
  }

  /** Which of the coming calls that create staged directories are refused; each Vault makes two. */
  datatype Refusals = Refusals(refused: nat -> bool, from: nat) {
    predicate At(k: nat) { refused(from + 2 * k) || refused(from + 2 * k + 1) }

    predicate NoneBefore(k: nat) { forall j :: 0 <= j < k ==> !At(j) }
  }

  /** The Vaults before `k` can be swapped, and a staged directory of Vault `k` cannot be created. */
  predicate StopsAt(n: Nodes, f: Refusals, vaults: seq<VaultRoots>, roots: seq<Root>, k: nat) {
    && k < |vaults| && Ready(n, roots, 0, 2 * k) && f.NoneBefore(k)
    && (f.At(k) || Blocked(n, vaults[k]))
  }

  /** That happens at a Vault that is not the first. */
  ghost predicate LeavesSwapped(n: Nodes, f: Refusals, vaults: seq<VaultRoots>, roots: seq<Root>) {
    exists k: nat :: k > 0 && StopsAt(n, f, vaults, roots, k)
  }

  /** From the two states on, the same further roots can be swapped. */
  ghost predicate Carries(n: Nodes, k: nat, after: Nodes, j: nat, roots: seq<Root>) {
    forall hi: nat :: j <= hi <= |roots| ==> (Ready(n, roots, k, hi) <==> Ready(after, roots, j, hi))
  }

  lemma InstallReady(n: Nodes, after: Nodes, s: Swap, roots: seq<Root>, k: nat, hi: nat, staged: set<Path>)
    requires Laid(roots, staged) && k < hi <= |roots| && InstalledAs(n, after, roots[k], s) && roots[k].aside !in n
    ensures Ready(n, roots, k, hi) <==> Ready(after, roots, k + 1, hi)
  {
    assert LaidOne(roots[k], staged);
    forall i | k + 1 <= i < hi
      ensures roots[i].target in after <==> roots[i].target in n
      ensures ReadyOne(after, roots[i]) <==> ReadyOne(n, roots[i]) && (roots[k].target in n ==> roots[k].aside != roots[i].aside)
    {
      assert LaidOne(roots[i], staged) && roots[k].target != roots[i].target && roots[k].source != roots[i].source;
      assert roots[k].target != roots[i].aside && roots[i].target != roots[k].aside;
    }
    assert ReadyOne(n, roots[k]);
  }

  lemma InstallCarries(n: Nodes, after: Nodes, s: Swap, roots: seq<Root>, k: nat, staged: set<Path>)
    requires Laid(roots, staged) && k < |roots| && InstalledAs(n, after, roots[k], s) && roots[k].aside !in n
    ensures Carries(n, k, after, k + 1, roots)
  {
    forall hi: nat | k + 1 <= hi <= |roots|
      ensures Ready(n, roots, k, hi) <==> Ready(after, roots, k + 1, hi)
    {
      InstallReady(n, after, s, roots, k, hi, staged);
    }
  }

  /** Nothing but one missing directory may have been created. */
  predicate Created(n: Nodes, after: Nodes, source: Path) {
    after == n || (source !in n && after == n[source := Dir(map[])])
  }

  lemma CreatedCarries(n: Nodes, after: Nodes, root: Root, roots: seq<Root>, k: nat, staged: set<Path>)
    requires Laid(roots, staged) && LaidOne(root, staged) && Created(n, after, root.source)
    ensures Carries(n, k, after, k, roots)
  {
    forall i | 0 <= i < |roots|
      ensures ReadyOne(n, roots[i]) <==> ReadyOne(after, roots[i])
      ensures roots[i].target in n <==> roots[i].target in after
    {
      assert LaidOne(roots[i], staged);
    }
  }

  // ----- The calls -----

  /** `NotCreated` is the early return: a staged directory could not be created, after some Vaults were swapped. */
  datatype SwapResult = Done(swaps: seq<Swap>) | Failed(undone: bool) | NotCreated(vaultsDone: nat)

  /** One create_dir_all call on a staged directory. */
  method CreateOne(fs: FileSystem, root: Root, ghost pre: Nodes, ghost swaps: seq<Swap>, ghost roots: seq<Root>,
                   ghost staged: set<Path>)
    returns (ok: bool)
    requires Laid(roots, staged) && Swapped(fs.nodes, pre, swaps, roots, staged) && root in roots
    modifies fs`nodes, fs`creates
    ensures Swapped(fs.nodes, pre, swaps, roots, staged) && fs.creates == old(fs.creates) + 1
    ensures Created(old(fs.nodes), fs.nodes, root.source)
    ensures ok ==> root.source in fs.nodes
    ensures ok <==> !fs.refused(old(fs.creates)) && Get(old(fs.nodes), root.source) != Some(Other)
  {
    ghost var before := fs.nodes;
    ok := fs.CreateDirAll(root.source);
    assert LaidOne(root, staged);
    forall i | |swaps| <= i < |roots|
      ensures SourceReady(fs.nodes, pre, roots[i].source)
    {
      assert SourceReady(before, pre, roots[i].source);
    }
    StagingKeepsSwapped(before, fs.nodes, pre, swaps, roots, staged);
  }

  /**
   Swaps the next root; a failure rolls back every swap so far. The failure has a cause before
   `since`, and `undone` is false only if a call from `since` on failed, when all that is left
   to do is to undo.
   */
  method SwapNext(fs: FileSystem, root: Root, swaps: seq<Swap>, ghost pre: Nodes, ghost roots: seq<Root>,
                  ghost staged: set<Path>)
    returns (r: SwapResult, ghost since: nat)
    requires Laid(roots, staged) && Swapped(fs.nodes, pre, swaps, roots, staged)
    requires |swaps| < |roots| && root == roots[|swaps|]
    modifies fs`nodes, fs`clock
    ensures !r.NotCreated? && old(fs.clock) <= since <= fs.clock
    ensures r.Done? ==> |r.swaps| == |swaps| + 1 && Swapped(fs.nodes, pre, r.swaps, roots, staged)
    ensures r.Done? ==> forall i :: |swaps| < i < |roots| && roots[i].source in old(fs.nodes) ==> roots[i].source in fs.nodes
    ensures r.Done? ==> Carries(old(fs.nodes), |swaps|, fs.nodes, |swaps| + 1, roots) || fs.FaultIn(old(fs.clock), fs.clock)
    ensures r.Failed? ==> && (r.undone ==> AgreeOff(fs.nodes, pre, staged))
                          && (!r.undone ==> fs.FaultIn(since, fs.clock))
    ensures r.Failed? ==> !(ReadyOne(old(fs.nodes), root) && root.source in old(fs.nodes)) || fs.FaultIn(old(fs.clock), since)
  {
    ghost var before := fs.nodes;
    assert LaidOne(root, staged);
    var swap, undone;
    swap, undone, since := fs.Install(root.source, root.target, root.aside);
    if swap.None? {
      var rolled := fs.Rollback(swaps);
      return Failed(undone && rolled), since;
    }
    InstallExtends(before, fs.nodes, pre, swaps, swap.value, roots, staged);
    InstallKeepsSources(before, fs.nodes, swap.value, roots, |swaps|, staged);
    if root.aside !in before { InstallCarries(before, fs.nodes, swap.value, roots, |swaps|, staged); }
    r := Done(swaps + [swap.value]);
  }

  lemma InstallKeepsSources(n: Nodes, after: Nodes, s: Swap, roots: seq<Root>, k: nat, staged: set<Path>)
    requires Laid(roots, staged) && k < |roots| && InstalledAs(n, after, roots[k], s)
    ensures forall i :: k < i < |roots| && roots[i].source in n ==> roots[i].source in after
  {
  }

  /** The two installations of one Vault, once both staged directories exist. */
  method SwapPair(fs: FileSystem, vault: VaultRoots, swaps: seq<Swap>, ghost pre: Nodes, ghost roots: seq<Root>,
                  ghost staged: set<Path>)
    returns (r: SwapResult, ghost since: nat)
    requires Laid(roots, staged) && Swapped(fs.nodes, pre, swaps, roots, staged)
    requires |swaps| + 1 < |roots| && vault == VaultRoots(roots[|swaps|], roots[|swaps| + 1])
    requires vault.content.source in fs.nodes && vault.history.source in fs.nodes
    modifies fs`nodes, fs`clock
    ensures !r.NotCreated? && old(fs.clock) <= since <= fs.clock
    ensures r.Done? ==> && |r.swaps| == |swaps| + 2 && Swapped(fs.nodes, pre, r.swaps, roots, staged)
    ensures r.Done? ==> Carries(old(fs.nodes), |swaps|, fs.nodes, |swaps| + 2, roots) || fs.FaultIn(old(fs.clock), fs.clock)
    ensures r.Failed? ==> && (r.undone ==> AgreeOff(fs.nodes, pre, staged))
                          && (!r.undone ==> fs.FaultIn(since, fs.clock))
    ensures r.Failed? ==> !Ready(old(fs.nodes), roots, |swaps|, |swaps| + 2) || fs.FaultIn(old(fs.clock), since)
  {
    hide Swapped, Laid;
    ghost var k, n0 := |swaps|, fs.nodes;
    r, since := SwapNext(fs, vault.content, swaps, pre, roots, staged);
    if !r.Done? { return; }
    ghost var n1 := fs.nodes;
    r, since := SwapNext(fs, vault.history, r.swaps, pre, roots, staged);
    if r.Done? && Carries(n0, k, n1, k + 1, roots) && Carries(n1, k + 1, fs.nodes, k + 2, roots) {
      CarriesOn(n0, k, n1, k + 1, fs.nodes, k + 2, roots);
    }
  }

  lemma CarriesOn(n0: Nodes, k0: nat, n1: Nodes, k1: nat, n2: Nodes, k2: nat, roots: seq<Root>)
    requires k1 <= k2 && Carries(n0, k0, n1, k1, roots) && Carries(n1, k1, n2, k2, roots)
    ensures Carries(n0, k0, n2, k2, roots)
  {
  }

  /** Both create_dir_all calls of one Vault. */
  method CreateBoth(fs: FileSystem, vault: VaultRoots, ghost pre: Nodes, ghost swaps: seq<Swap>, ghost roots: seq<Root>,
                    ghost staged: set<Path>, ghost k: nat)
    returns (ok: bool)
    requires Laid(roots, staged) && Swapped(fs.nodes, pre, swaps, roots, staged)
    requires k + 1 < |roots| && vault == VaultRoots(roots[k], roots[k + 1])
    modifies fs`nodes, fs`creates
    ensures Swapped(fs.nodes, pre, swaps, roots, staged)
    ensures Carries(old(fs.nodes), k, fs.nodes, k, roots)
    ensures ok ==> vault.content.source in fs.nodes && vault.history.source in fs.nodes && fs.creates == old(fs.creates) + 2
    ensures ok <==> !Refusals(fs.refused, old(fs.creates)).At(0) && !Blocked(old(fs.nodes), vault)
  {
    ghost var n0 := fs.nodes;
    assert LaidOne(roots[k], staged) && LaidOne(roots[k + 1], staged) && roots[k].source != roots[k + 1].source;
    ok := CreateOne(fs, vault.content, pre, swaps, roots, staged);
    ghost var n1 := fs.nodes;
    CreatedCarries(n0, n1, roots[k], roots, k, staged);
    if !ok { return; }
    ok := CreateOne(fs, vault.history, pre, swaps, roots, staged);
    CreatedCarries(n1, fs.nodes, roots[k + 1], roots, k, staged);
    CarriesOn(n0, k, n1, k, fs.nodes, k, roots);
  }

  predicate RootsOf(roots: seq<Root>, vaults: seq<VaultRoots>) {
    |roots| == 2 * |vaults| && forall i :: 0 <= i < |vaults| ==> vaults[i] == VaultRoots(roots[2 * i], roots[2 * i + 1])
  }

  /** The layout of a restore: the roots of the Vaults in the order in which they are swapped. */
  datatype Layout = Layout(vaults: seq<VaultRoots>, roots: seq<Root>, staged: set<Path>) {
    predicate Valid() { RootsOf(roots, vaults) && Laid(roots, staged) }
  }

  /** The first `i` Vaults are swapped. */
  ghost predicate SwappedVaults(n: Nodes, pre: Nodes, swaps: seq<Swap>, l: Layout, i: nat) {
    |swaps| == 2 * i && Swapped(n, pre, swaps, l.roots, l.staged)
  }

  /** One round of the loop of swap_roots. */
  method SwapVault(fs: FileSystem, vault: VaultRoots, i: nat, swaps: seq<Swap>, ghost pre: Nodes, ghost l: Layout)
    returns (r: SwapResult, ghost since: nat)
    requires l.Valid() && i < |l.vaults| && vault == l.vaults[i] && SwappedVaults(fs.nodes, pre, swaps, l, i)
    modifies fs
    ensures old(fs.clock) <= since <= fs.clock
    ensures r.Done? ==> SwappedVaults(fs.nodes, pre, r.swaps, l, i + 1)
    ensures r.Done? ==> Carries(old(fs.nodes), 2 * i, fs.nodes, 2 * i + 2, l.roots) || fs.FaultIn(old(fs.clock), fs.clock)
    ensures r.Failed? ==> && (r.undone ==> AgreeOff(fs.nodes, pre, l.staged))
                          && (!r.undone ==> fs.FaultIn(since, fs.clock))
    ensures r.Failed? ==> !Ready(old(fs.nodes), l.roots, 2 * i, 2 * i + 2) || fs.FaultIn(old(fs.clock), since)
    ensures r.Done? ==> fs.creates == old(fs.creates) + 2
    ensures r.NotCreated? ==> r.vaultsDone == i && Shown(fs.nodes, pre, l, i)
    ensures r.NotCreated? <==> Refusals(fs.refused, old(fs.creates)).At(0) || Blocked(old(fs.nodes), vault)
  {
    hide Swapped, Laid, Ready, AgreeOff, Shown, Blocked;
    ghost var n0 := fs.nodes;
    since := fs.clock;
    var created := CreateBoth(fs, vault, pre, swaps, l.roots, l.staged, 2 * i);
    if !created {
      SwappedShows(fs.nodes, pre, swaps, l, i);
      return NotCreated(i), since;
    }
    ghost var n1 := fs.nodes;
    r, since := SwapPair(fs, vault, swaps, pre, l.roots, l.staged);
    if r.Done? && Carries(n1, 2 * i, fs.nodes, 2 * i + 2, l.roots) {
      CarriesOn(n0, 2 * i, n1, 2 * i, fs.nodes, 2 * i + 2, l.roots);
    }
  }

  /** What is blocked stays blocked, and nothing else becomes so, until its Vault is swapped. */
  lemma StillBlocked(n: Nodes, pre: Nodes, swaps: seq<Swap>, l: Layout, i: nat)
    requires l.Valid() && i < |l.vaults| && SwappedVaults(n, pre, swaps, l, i)
    ensures Blocked(n, l.vaults[i]) <==> Blocked(pre, l.vaults[i])
  {
    assert SourceReady(n, pre, l.roots[2 * i].source) && SourceReady(n, pre, l.roots[2 * i + 1].source);
  }

  /** The roots of a blocked Vault are not ready. */
  lemma BlockedIsNotReady(n: Nodes, l: Layout, k: nat, hi: nat)
    requires l.Valid() && k < |l.vaults| && Blocked(n, l.vaults[k]) && 2 * k + 2 <= hi
    ensures !Ready(n, l.roots, 0, hi)
  {
    assert !ReadyOne(n, l.roots[2 * k]) || !ReadyOne(n, l.roots[2 * k + 1]);
  }

  /** Without faults the first Vault that cannot be swapped decides. */
  lemma {:induction false} FirstDecides(pre: Nodes, f: Refusals, l: Layout, i: nat, k: nat)
    requires l.Valid() && i < |l.vaults| && Ready(pre, l.roots, 0, 2 * i) && f.NoneBefore(i) && StopsAt(pre, f, l.vaults, l.roots, k)
    requires f.At(i) || !Ready(pre, l.roots, 0, 2 * i + 2)
    ensures i == k
  {
    if k < i && Blocked(pre, l.vaults[k]) { BlockedIsNotReady(pre, l, k, 2 * i); }
    if i < k && !Ready(pre, l.roots, 0, 2 * i + 2) { MoreReadyIsReady(pre, l.roots, 0, 2 * i + 2, 2 * k); }
  }

  /** What is known when round `i` fails without a fault: a create call was refused or blocked, or a root was not ready. */
  lemma {:induction false} RoundDecides(n: Nodes, pre: Nodes, f: Refusals, swaps: seq<Swap>, l: Layout, i: nat, k: nat)
    requires l.Valid() && i < |l.vaults| && SwappedVaults(n, pre, swaps, l, i) && Carries(pre, 0, n, 2 * i, l.roots)
    requires f.NoneBefore(i)
    requires f.At(i) || Blocked(n, l.vaults[i]) || !Ready(n, l.roots, 2 * i, 2 * i + 2)
    ensures !(Ready(pre, l.roots, 0, 2 * i + 2) && f.NoneBefore(i + 1))
    ensures StopsAt(pre, f, l.vaults, l.roots, k) <==> k == i && (f.At(i) || Blocked(n, l.vaults[i]))
  {
    hide Blocked;
    StillBlocked(n, pre, swaps, l, i);
    assert Ready(n, l.roots, 2 * i, 2 * i);
    if Blocked(pre, l.vaults[i]) { BlockedIsNotReady(pre, l, i, 2 * i + 2); }
    if StopsAt(pre, f, l.vaults, l.roots, k) { FirstDecides(pre, f, l, i, k); }
  }

  lemma {:induction false} MoreReadyIsReady(n: Nodes, roots: seq<Root>, lo: nat, mid: nat, hi: nat)
    requires mid <= hi && Ready(n, roots, lo, hi)
    ensures Ready(n, roots, lo, mid)
  {
  }

  /** Nothing stops when every root can be swapped and no create call is refused. */
  lemma {:induction false} ReadyStopsNowhere(n: Nodes, f: Refusals, l: Layout, k: nat)
    requires l.Valid() && Ready(n, l.roots, 0, |l.roots|) && f.NoneBefore(|l.vaults|)
    ensures !StopsAt(n, f, l.vaults, l.roots, k)
  {
    if k < |l.vaults| && Blocked(n, l.vaults[k]) { BlockedIsNotReady(n, l, k, |l.roots|); }
  }

  /** The outcome of swap_roots, had no other call failed, is decided by the state before it and the refusals. */
  ghost predicate Decided(r: SwapResult, pre: Nodes, f: Refusals, l: Layout) {
    && (r.Done? <==> Ready(pre, l.roots, 0, |l.roots|) && f.NoneBefore(|l.vaults|))
    && forall k: nat :: r == NotCreated(k) <==> StopsAt(pre, f, l.vaults, l.roots, k)
  }

  lemma {:induction false} RoundSettles(r: SwapResult, n: Nodes, pre: Nodes, f: Refusals, swaps: seq<Swap>, l: Layout, i: nat)
    requires l.Valid() && i < |l.vaults| && SwappedVaults(n, pre, swaps, l, i) && Carries(pre, 0, n, 2 * i, l.roots)
    requires f.NoneBefore(i)
    requires r == NotCreated(i) || (r.Failed? && !Ready(n, l.roots, 2 * i, 2 * i + 2))
    requires r.NotCreated? <==> f.At(i) || Blocked(n, l.vaults[i])
    ensures Decided(r, pre, f, l) && (r.Failed? ==> !Ready(pre, l.roots, 0, |l.roots|))
  {
    hide Blocked, StopsAt, SwappedVaults;
    forall k: nat
      ensures r == NotCreated(k) <==> StopsAt(pre, f, l.vaults, l.roots, k)
    {
      RoundDecides(n, pre, f, swaps, l, i, k);
    }
    RoundDecides(n, pre, f, swaps, l, i, i);
    if Ready(pre, l.roots, 0, |l.roots|) { MoreReadyIsReady(pre, l.roots, 0, 2 * i + 2, |l.roots|); }
  }

  lemma {:induction false} AllSettles(r: SwapResult, n: Nodes, pre: Nodes, f: Refusals, l: Layout)
    requires l.Valid() && Carries(pre, 0, n, |l.roots|, l.roots) && f.NoneBefore(|l.vaults|) && r.Done?
    ensures Decided(r, pre, f, l)
  {
    assert Ready(n, l.roots, |l.roots|, |l.roots|);
    forall k: nat
      ensures !StopsAt(pre, f, l.vaults, l.roots, k)
    {
      ReadyStopsNowhere(pre, f, l, k);
    }
  }

  /**
   swap_roots. Success swaps every root. A failed installation undoes all swaps, and that is
   not `undone` only if an undo call, from `since` on, failed. The early return, when a staged
   directory cannot be created, undoes nothing. When no other call fails, the state before the
   call and the refusals decide: it succeeds exactly when all roots are ready and no create
   call is refused, and the early return is taken exactly at the first Vault that fails, if a
   create call of that one fails; so the live roots change without success exactly if such a
   Vault comes after another one.
   */
  method SwapRoots(fs: FileSystem, vaults: seq<VaultRoots>, ghost l: Layout) returns (r: SwapResult, ghost since: nat)
    requires l.Valid() && l.vaults == vaults
    modifies fs
    ensures old(fs.clock) <= since <= fs.clock
    ensures r.Done? ==> SwappedVaults(fs.nodes, old(fs.nodes), r.swaps, l, |vaults|)
    ensures r.Failed? ==> && (r.undone ==> AgreeOff(fs.nodes, old(fs.nodes), l.staged))
                          && (!r.undone ==> fs.FaultIn(since, fs.clock))
    ensures r.Failed? ==> !Ready(old(fs.nodes), l.roots, 0, |l.roots|) || fs.FaultIn(old(fs.clock), since)
    ensures r.NotCreated? ==> Shown(fs.nodes, old(fs.nodes), l, r.vaultsDone)
    ensures r.NotCreated? ==> (AgreeOff(fs.nodes, old(fs.nodes), l.staged) <==> r.vaultsDone == 0)
    ensures Decided(r, old(fs.nodes), Refusals(fs.refused, old(fs.creates)), l) || fs.FaultIn(old(fs.clock), fs.clock)
    ensures r.Done? || fs.FaultIn(old(fs.clock), fs.clock)
            || (AgreeOff(fs.nodes, old(fs.nodes), l.staged)
                <==> !LeavesSwapped(old(fs.nodes), Refusals(fs.refused, old(fs.creates)), vaults, l.roots))
  {
    hide Swapped, Laid, Ready, AgreeOff, Blocked, StopsAt, Shown;
    ghost var pre, f := fs.nodes, Refusals(fs.refused, fs.creates);
    r, since := Done([]), fs.clock;
    StartSwapping(pre, l);
    var i := 0;
    while i < |vaults|
      invariant 0 <= i <= |vaults| && old(fs.clock) <= since <= fs.clock
      invariant fs.creates == f.from + 2 * i && f.NoneBefore(i)
      invariant r.Done? && SwappedVaults(fs.nodes, pre, r.swaps, l, i)
      invariant Carries(pre, 0, fs.nodes, 2 * i, l.roots) || fs.FaultIn(old(fs.clock), fs.clock)
    {
      ghost var n, swaps := fs.nodes, r.swaps;
      assert Refusals(fs.refused, fs.creates).At(0) <==> f.At(i);
      r, since := SwapVault(fs, vaults[i], i, r.swaps, pre, l);
      if !r.Done? {
        if r.NotCreated? { StagedIsAway(l); ShownIsAChange(fs.nodes, pre, l, i, l.staged); }
        if Carries(pre, 0, n, 2 * i, l.roots) && (r.Failed? ==> !Ready(n, l.roots, 2 * i, 2 * i + 2)) {
          RoundSettles(r, n, pre, f, swaps, l, i);
        }
        return;
      }
      if Carries(pre, 0, n, 2 * i, l.roots) && Carries(n, 2 * i, fs.nodes, 2 * i + 2, l.roots) {
        CarriesOn(pre, 0, n, 2 * i, fs.nodes, 2 * i + 2, l.roots);
      }
      i := i + 1;
    }
    if Carries(pre, 0, fs.nodes, |l.roots|, l.roots) { AllSettles(r, fs.nodes, pre, f, l); }
  }

  lemma StagedIsAway(l: Layout)
    requires l.Valid() && l.roots != []
    ensures l.roots[0].target !in l.staged && l.roots[0].aside !in l.staged
  {
    assert LaidOne(l.roots[0], l.staged);
  }

  lemma StartSwapping(pre: Nodes, l: Layout)
    requires l.Valid()
    ensures SwappedVaults(pre, pre, [], l, 0) && Carries(pre, 0, pre, 0, l.roots)
  {
  }
}
