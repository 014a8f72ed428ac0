/**
 The manifest that create_artifact builds is valid, its artifacts are those staged, and so
 its archive is accepted and extracts to the staging directory.
 */
module CreatedManifest {
  import opened Prelude
  import opened PathText
  import opened ArchiveTree
  import opened ArchiveManifest
  import opened ArchiveValidate
  import opened ArchiveSort
  import opened TreeCopy
  import opened StagingLog
  import opened ArchiveRoundTrip
  import opened BackupSources
  import opened BackupContents

  // ----- What the sources have to satisfy -----

  /** Every name below is proper and has no backslash. */
  predicate Named(f: Forest) {
    f.Cons? ==> Proper(f.name) && BACKSLASH !in f.name && (f.node.Dir? ==> Named(f.node.children)) && Named(f.rest)
  }

  predicate GoodVault(v: VaultSource) {
    && SourceOk(v) && v.slug != [] && v.root != []
    && (v.history.Some? ==> v.history.value.Dir? && Named(v.history.value.children))
  }

  predicate GoodHeader(h: Header) {
    && h.serviceVersion != [] && h.schemaVersion > 0 && h.keyVersions != [] && 0 !in h.keyVersions
    && forall i :: 0 < i < |h.keyVersions| ==> h.keyVersions[i - 1] < h.keyVersions[i]
  }

  ghost predicate HashOk(hash: Hash) { forall b :: HexDigest(hash(b)) }

  // ----- Places -----

  /** Below its root; a file is the snapshot or lies inside `vaults` or `history`. */
  predicate WellPlaced(p: Placement) {
    && p.at != [] && ProperAll(p.at) && AllowedRoot(p.at[0])
    && (p.item.FileItem? ==> p.at == [STATE, SNAPSHOT] || (|p.at| >= 2 && (p.at[0] == VAULTS || p.at[0] == HISTORY)))
  }

  predicate AllWellPlaced(ps: seq<Placement>) { forall i :: 0 <= i < |ps| ==> WellPlaced(ps[i]) }

  lemma {:induction false} ListBelow(f: Forest, at: Location)
    requires Named(f) && ProperAll(at)
    ensures forall i :: 0 <= i < |List(f, at)| ==> ProperAll(List(f, at)[i].at) && at < List(f, at)[i].at
    decreases f
  {
    if f.Cons? {
      var to := at + [f.name];
      assert ProperAll(to);
      if f.node.Dir? { ListBelow(f.node.children, to); }
      ListBelow(f.rest, at);
      forall i | 0 <= i < |ListNode(f.node, to)|
        ensures ProperAll(ListNode(f.node, to)[i].at) && at < ListNode(f.node, to)[i].at
      {
      }
    }
  }

  lemma HistoryPlaced(v: VaultSource)
    requires GoodVault(v)
    ensures AllWellPlaced(HistoryLog(v))
  {
    RootsAreProper(v.id);
    if v.history.Some? {
      var root, below := HistoryRoot(v.id), List(v.history.value.children, HistoryRoot(v.id));
      ListBelow(v.history.value.children, root);
      assert HistoryLog(v) == [Placement(root, DirItem)] + below;
      forall i | 0 <= i < |below|
        ensures WellPlaced(below[i])
      {
        assert below[i].at[0] == root[0];
      }
      assert AllWellPlaced(below);
    }
  }

  lemma {:induction false} ContentPlaced(id: Name, files: seq<SourceFile>)
    requires Proper(id) && BACKSLASH !in id && forall i :: 0 <= i < |files| ==> files[i].path != [] && ProperAll(files[i].path)
    ensures AllWellPlaced(ContentLog(id, files))
    decreases |files|
  {
    if files != [] {
      ContentPlaced(id, files[..|files| - 1]);
      RootsAreProper(id);
    }
  }

  lemma {:induction false} VaultsPlaced(vaults: seq<VaultSource>)
    requires forall i :: 0 <= i < |vaults| ==> GoodVault(vaults[i])
    ensures AllWellPlaced(VaultsLog(vaults))
    decreases |vaults|
  {
    if vaults != [] {
      var v := vaults[|vaults| - 1];
      VaultsPlaced(vaults[..|vaults| - 1]);
      assert GoodVault(v);
      ContentPlaced(v.id, v.content);
      RootsAreProper(v.id);
      HistoryPlaced(v);
      assert AllWellPlaced(RootsLog(v.id));
      assert AllWellPlaced(VaultLog(v));
    }
  }

  lemma FullLogPlaced(vaults: seq<VaultSource>, snapshot: Bytes)
    requires forall i :: 0 <= i < |vaults| ==> GoodVault(vaults[i])
    ensures AllWellPlaced(FullLog(vaults, snapshot)) && GoodLog(FullLog(vaults, snapshot))
  {
    VaultsPlaced(vaults);
    SnapshotIsProper();
    assert AllWellPlaced(StateLog(snapshot));
  }

  // ----- Artifacts -----

  lemma {:induction false} RootsAreNoArtifacts(id: Name, hash: Hash)
    ensures ArtifactsOf(RootsLog(id), hash) == []
  {
    var a, b := Placement(ContentRoot(id), DirItem), Placement(HistoryRoot(id), DirItem);
    ArtifactsSnoc([a], b, hash);
    ArtifactsSnoc([], a, hash);
    assert [a] + [b] == RootsLog(id) && [] + [a] == [a];
  }

  lemma {:induction false} StateIsOneArtifact(snapshot: Bytes, hash: Hash)
    ensures ArtifactsOf(StateLog(snapshot), hash) == [Artifact(STATE_PATH, |snapshot|, hash(snapshot))]
  {
    var a, b := Placement([STATE], DirItem), Placement([STATE, SNAPSHOT], FileItem(snapshot));
    ArtifactsSnoc([a], b, hash);
    ArtifactsSnoc([], a, hash);
    assert [a] + [b] == StateLog(snapshot) && [] + [a] == [a];
    SnapshotIsProper();
  }

  lemma {:induction false} VaultArtifacts(v: VaultSource, hash: Hash)
    ensures multiset(ArtifactsOf(VaultLog(v), hash)) == multiset(PartOf(v, hash).content + PartOf(v, hash).history)
  {
    var a, b, c := ContentLog(v.id, v.content), RootsLog(v.id), HistoryLog(v);
    RootsAreNoArtifacts(v.id, hash);
    ArtifactsAppend(a + b, c, hash);
    ArtifactsAppend(a, b, hash);
    assert ArtifactsOf(a, hash) + [] == ArtifactsOf(a, hash);
  }

  lemma {:induction false} PartsSnoc(parts: seq<VaultPart>, p: VaultPart)
    ensures Parts(parts + [p]) == Parts(parts) + (p.content + p.history)
  {
  }

  /** The manifest lists what was registered, but for the order of each history. */
  lemma {:induction false} PartsAreRegistered(vaults: seq<VaultSource>, hash: Hash)
    ensures multiset(Parts(PartsOf(vaults, hash))) == multiset(ArtifactsOf(VaultsLog(vaults), hash))
    decreases |vaults|
  {
    if vaults != [] {
      var front, v := vaults[..|vaults| - 1], vaults[|vaults| - 1];
      PartsAreRegistered(front, hash);
      ArtifactsAppend(VaultsLog(front), VaultLog(v), hash);
      VaultArtifacts(v, hash);
      PartsSnoc(PartsOf(front, hash), PartOf(v, hash));
    }
  }

  /** The artifacts of the manifest are those staged, and its totals are theirs. */
  lemma {:induction false} AllAreStaged(vaults: seq<VaultSource>, snapshot: Bytes, h: Header, hash: Hash)
    ensures var m := ManifestOf(vaults, snapshot, h, hash);
            && m.state == Artifact(STATE_PATH, |snapshot|, hash(snapshot))
            && multiset(All(m)) == multiset(ArtifactsOf(FullLog(vaults, snapshot), hash))
            && m.fileCount == |All(m)| && m.totalBytes == Sum(All(m))
  {
    var m, items := ManifestOf(vaults, snapshot, h, hash), ArtifactsOf(VaultsLog(vaults), hash);
    SnapshotIsProper();
    PartsAreRegistered(vaults, hash);
    StateIsOneArtifact(snapshot, hash);
    ArtifactsAppend(VaultsLog(vaults), StateLog(snapshot), hash);
    var staged := ArtifactsOf(FullLog(vaults, snapshot), hash);
    assert staged == items + [m.state];
    assert |All(m)| == |multiset(All(m))| == |multiset(staged)| == |staged|;
    SumPermutes(All(m), staged);
  }

  /** An artifact below `vaults` or `history`, or the snapshot, passes the manifest's checks. */
  lemma PlacedIsOk(p: Placement, hash: Hash, limits: Limits)
    requires WellPlaced(p) && p.item.FileItem? && |p.item.bytes| <= limits.maxEntryBytes && HexDigest(hash(p.item.bytes))
    ensures ArtifactOk(Artifact(PathOf(p.at), |p.item.bytes|, hash(p.item.bytes)), limits)
  {
    PathOfLocation(p.at);
    SnapshotIsProper();
    if p.at != [STATE, SNAPSHOT] {
      assert Unsplit(p.at) == p.at[0] + [SLASH] + Unsplit(p.at[1..]);
    }
  }

  lemma {:induction false} AllAreOk(ps: seq<Placement>, hash: Hash, limits: Limits, count: nat, total: nat)
    requires AllWellPlaced(ps) && HashOk(hash) && Fits(ArtifactsOf(ps, hash), limits, count, total)
    ensures forall a :: a in ArtifactsOf(ps, hash) ==> ArtifactOk(a, limits)
  {
    forall a | a in ArtifactsOf(ps, hash)
      ensures ArtifactOk(a, limits)
    {
      InArtifacts(ps, hash, a);
      var i :| 0 <= i < |ps| && ps[i].item.FileItem? && a == Artifact(PathOf(ps[i].at), |ps[i].item.bytes|, hash(ps[i].item.bytes));
      assert HexDigest(hash(ps[i].item.bytes));
      PlacedIsOk(ps[i], hash, limits);
    }
  }

  // ----- Isolation -----

  lemma {:induction false} PathBelow(root: Location, at: Location)
    requires root != [] && root < at
    ensures Unsplit(root) + [SLASH] <= Unsplit(at)
    decreases |root|
  {
    assert at[0] == root[0];
    if |root| == 1 {
      assert Unsplit(at) == root[0] + [SLASH] + Unsplit(at[1..]);
    } else {
      assert root[1..] < at[1..] by {
        assert forall i :: 0 <= i < |root[1..]| ==> root[1..][i] == at[1..][i];
      }
      PathBelow(root[1..], at[1..]);
      assert Unsplit(root) == root[0] + [SLASH] + Unsplit(root[1..]);
      assert Unsplit(at) == root[0] + [SLASH] + Unsplit(at[1..]);
    }
  }

  predicate FilesBelow(ps: seq<Placement>, root: Location) {
    forall i :: 0 <= i < |ps| && ps[i].item.FileItem? ==> root < ps[i].at
  }

  lemma ArtifactsBelow(ps: seq<Placement>, root: Location, hash: Hash)
    requires root != [] && FilesBelow(ps, root)
    ensures AllStartWith(ArtifactsOf(ps, hash), Unsplit(root) + [SLASH])
  {
    var items := ArtifactsOf(ps, hash);
    forall k | 0 <= k < |items|
      ensures Unsplit(root) + [SLASH] <= items[k].path
    {
      InArtifacts(ps, hash, items[k]);
      var i :| 0 <= i < |ps| && ps[i].item.FileItem? && items[k] == Artifact(PathOf(ps[i].at), |ps[i].item.bytes|, hash(ps[i].item.bytes));
      PathBelow(root, ps[i].at);
    }
  }

  lemma {:induction false} ContentBelow(id: Name, files: seq<SourceFile>)
    requires forall i :: 0 <= i < |files| ==> files[i].path != []
    ensures FilesBelow(ContentLog(id, files), ContentRoot(id))
    decreases |files|
  {
    if files != [] { ContentBelow(id, files[..|files| - 1]); }
  }

  lemma RootPrefixes(id: Name)
    ensures Unsplit(ContentRoot(id)) + [SLASH] == ContentPrefix(id)
    ensures Unsplit(HistoryRoot(id)) + [SLASH] == HistoryPrefix(id)
  {
    var c, h := ContentRoot(id), HistoryRoot(id);
    assert c[1..] == [id, CONTENT] && [id, CONTENT][1..] == [CONTENT] && h[1..] == [id];
    assert Unsplit([CONTENT]) == CONTENT && Unsplit([id, CONTENT]) == id + [SLASH] + CONTENT;
    assert Unsplit(c) == VAULTS + [SLASH] + (id + [SLASH] + CONTENT);
  }

  lemma PartIsIsolated(v: VaultSource, hash: Hash)
    requires GoodVault(v)
    ensures Isolated(PartOf(v, hash))
  {
    RootPrefixes(v.id);
    ContentBelow(v.id, v.content);
    ArtifactsBelow(ContentLog(v.id, v.content), ContentRoot(v.id), hash);
    if v.history.Some? {
      RootsAreProper(v.id);
      ListBelow(v.history.value.children, HistoryRoot(v.id));
      assert HistoryLog(v) == [Placement(HistoryRoot(v.id), DirItem)] + List(v.history.value.children, HistoryRoot(v.id));
    }
    ArtifactsBelow(HistoryLog(v), HistoryRoot(v.id), hash);
    SortKeepsPrefix(ArtifactsOf(HistoryLog(v), hash), HistoryPrefix(v.id));
  }

  lemma SortKeepsPrefix(items: seq<Artifact>, prefix: Bytes)
    requires AllStartWith(items, prefix)
    ensures AllStartWith(SortByPath(items), prefix)
  {
    var sorted := SortByPath(items);
    forall i | 0 <= i < |sorted|
      ensures prefix <= sorted[i].path
    {
      assert sorted[i] in multiset(sorted) && sorted[i] in items;
    }
  }

  lemma {:induction false} PartsAreIsolated(vaults: seq<VaultSource>, hash: Hash)
    requires forall i :: 0 <= i < |vaults| ==> GoodVault(vaults[i])
    ensures forall i :: 0 <= i < |PartsOf(vaults, hash)| ==> Isolated(PartsOf(vaults, hash)[i])
    decreases |vaults|
  {
    if vaults != [] {
      PartsAreIsolated(vaults[..|vaults| - 1], hash);
      assert GoodVault(vaults[|vaults| - 1]);
      PartIsIsolated(vaults[|vaults| - 1], hash);
    }
  }

  // ----- The result -----

  lemma CreatedIsSound(vaults: seq<VaultSource>, snapshot: Bytes, h: Header, hash: Hash, limits: Limits)
    requires (forall i :: 0 <= i < |vaults| ==> GoodVault(vaults[i])) && HashOk(hash) && SmallLimits(limits)
    requires Copyable(FullLog(vaults, snapshot), Start(limits, 0, 0, Empty), hash)
    ensures Sound(All(ManifestOf(vaults, snapshot, h, hash)), limits)
  {
    var m, log := ManifestOf(vaults, snapshot, h, hash), FullLog(vaults, snapshot);
    AllAreStaged(vaults, snapshot, h, hash);
    FullLogPlaced(vaults, snapshot);
    LogApart(log);
    assert Locatable(log);
    ArtifactsDistinct(log, hash);
    PermutationKeepsDistinct(ArtifactsOf(log, hash), All(m));
    AllAreOk(log, hash, limits, 0, 0);
    forall i | 0 <= i < |All(m)|
      ensures ArtifactOk(All(m)[i], limits)
    {
      assert All(m)[i] in multiset(All(m));
    }
  }

  /** The validator accepts the manifest that create_artifact builds. */
  lemma CreatedIsValid(vaults: seq<VaultSource>, snapshot: Bytes, h: Header, hash: Hash, limits: Limits)
    requires (forall i :: 0 <= i < |vaults| ==> GoodVault(vaults[i])) && GoodHeader(h) && HashOk(hash) && SmallLimits(limits)
    requires Copyable(FullLog(vaults, snapshot), Start(limits, 0, 0, Empty), hash)
    ensures Valid(ManifestOf(vaults, snapshot, h, hash), limits)
  {
    CreatedIsSound(vaults, snapshot, h, hash, limits);
    AllAreStaged(vaults, snapshot, h, hash);
    PartsAreIsolated(vaults, hash);
  }

  /**
   From sources to extracted files: whenever create_artifact stages the sources and writes
   its manifest, the archive of the staging directory, however it is listed, is accepted, names
   that manifest, and extracts to the staging directory on every host that takes its paths. What
   is extracted is a backup of the sources: every file of every Vault, every history tree, the
   snapshot, the manifest, and nothing else.
   */
  lemma BackupRoundTrips(vaults: seq<VaultSource>, snapshot: Bytes, h: Header, hash: Hash, payload: Bytes,
                         staged: Files,
                         t: Forest, archiveBytes: nat, limits: Limits, decode: Bytes -> Option<Manifest>, host: Host)
    requires (forall i :: 0 <= i < |vaults| ==> GoodVault(vaults[i])) && GoodHeader(h) && HashOk(hash) && SmallLimits(limits)
    requires Copyable(FullLog(vaults, snapshot), Start(limits, 0, 0, Empty), hash)
    requires PutAll(Empty, Log(FullLog(vaults, snapshot), payload)) == Some(staged) && Shows(t, staged)
    requires decode(payload) == Some(ManifestOf(vaults, snapshot, h, hash))
    requires WithinLimits(t, payload, ManifestOf(vaults, snapshot, h, hash), archiveBytes, limits)
    ensures Append(t, []) == Some(List(t, []))
    ensures Accepts(WriteTar(List(t, [])), archiveBytes, limits, decode, hash, ManifestOf(vaults, snapshot, h, hash))
    ensures ExtractAll(host, Empty, WriteTar(List(t, []))) == if Taken(host, List(t, [])) then Some(staged) else None
    ensures Linkless(vaults) && ExtractAll(host, Empty, WriteTar(List(t, []))).Some? ==>
              var out := ExtractAll(host, Empty, WriteTar(List(t, []))).value;
              && (forall q, b :: FileAt(out, q, b) <==> Sourced(vaults, snapshot, q, b) || (q == [MANIFEST] && b == payload))
              && (ApartIds(vaults) ==> BackupOf(out - {[MANIFEST]}, vaults, snapshot))
              && ManifestLists(ManifestOf(vaults, snapshot, h, hash), vaults, snapshot, h, hash)
  {
    hide Accepts, Copyable, WithinLimits, Sourced, BackupOf, ManifestLists, FullLog, ExtractAll, Append, GoodVault, PutAll, ManifestOf, HashOk;
    var m := ManifestOf(vaults, snapshot, h, hash);
    CreatedIsValid(vaults, snapshot, h, hash, limits);
    AllAreStaged(vaults, snapshot, h, hash);
    FullLogPlaced(vaults, snapshot);
    CreatedArchiveRoundTrips(staged, FullLog(vaults, snapshot), payload, m, hash, t, archiveBytes, limits, decode, host);
    if Linkless(vaults) { ExtractedHolds(vaults, snapshot, payload, staged, h, hash); }
  }

  /** The manifest is placed last, where nothing is. */
  lemma {:induction false} ManifestIsAdded(ps: seq<Placement>, payload: Bytes, staged: Files)
    requires PutAll(Empty, Log(ps, payload)) == Some(staged)
    ensures PutAll(Empty, ps).Some?
    ensures var mid := PutAll(Empty, ps).value;
            [MANIFEST] !in mid && staged == mid[[MANIFEST] := FileItem(payload)]
  {
    var last := Placement([MANIFEST], FileItem(payload));
    PutAppend(Empty, ps, [last]);
    var mid := PutAll(Empty, ps).value;
    RootStays(Empty, ps);
    assert [last][1..] == [] && PutAll(mid, [last]) == Put(mid, last);
    var top: Location := [MANIFEST];
    assert top[..|top| - 1] == [];
    assert MakeDirs(mid, []) == Some(mid);
  }

  lemma {:induction false} GoodIsOk(vaults: seq<VaultSource>)
    requires forall i :: 0 <= i < |vaults| ==> GoodVault(vaults[i])
    ensures forall i :: 0 <= i < |vaults| ==> SourceOk(vaults[i])
  {
    hide SourceOk;
    assert forall i :: 0 <= i < |vaults| ==> GoodVault(vaults[i]) ==> SourceOk(vaults[i]);
  }

  lemma {:induction false} ExtractedHolds(vaults: seq<VaultSource>, snapshot: Bytes, payload: Bytes, staged: Files, h: Header, hash: Hash)
    requires PutAll(Empty, Log(FullLog(vaults, snapshot), payload)) == Some(staged) && Linkless(vaults)
    requires forall i :: 0 <= i < |vaults| ==> GoodVault(vaults[i])
    ensures forall q, b :: FileAt(staged, q, b) <==> Sourced(vaults, snapshot, q, b) || (q == [MANIFEST] && b == payload)
    ensures ApartIds(vaults) ==> BackupOf(staged - {[MANIFEST]}, vaults, snapshot)
    ensures ManifestLists(ManifestOf(vaults, snapshot, h, hash), vaults, snapshot, h, hash)
  {
    hide Sourced, BackupOf, ManifestLists, FullLog, PutAll, Log, GoodVault, SourceOk, Linkless, ManifestOf;
    ManifestIsAdded(FullLog(vaults, snapshot), payload, staged);
    var mid := PutAll(Empty, FullLog(vaults, snapshot)).value;
    GoodIsOk(vaults);
    CreatedHolds(vaults, snapshot, mid, h, hash);
    assert staged - {[MANIFEST]} == mid;
    forall q, b
      ensures FileAt(staged, q, b) <==> Sourced(vaults, snapshot, q, b) || (q == [MANIFEST] && b == payload)
    {
      assert FileAt(mid, q, b) <==> Sourced(vaults, snapshot, q, b);
    }
  }
}
