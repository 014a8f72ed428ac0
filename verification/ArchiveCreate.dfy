/**
 create_artifact: Vault contents, history trees and the database snapshot are staged and
 registered, and the manifest is built from what was registered.
 */
module ArchiveCreate {
  import opened Prelude
  import opened PathText
  import opened ArchiveTree
  import opened ArchiveManifest
  import opened ArchiveSort
  import opened TreeCopy
  import opened StagingLog
  import opened BackupSources
  import opened BackupContents

  // ----- Staging in pieces -----

  /** Placing a log leads from one state of the staging directory and totals to another. */
  predicate After(s: Start, ps: seq<Placement>, e: Start, hash: Hash) {
    && e.limits == s.limits
    && PutAll(s.staged, ps) == Some(e.staged)
    && e.count == s.count + |ArtifactsOf(ps, hash)| && e.total == s.total + Sum(ArtifactsOf(ps, hash))
    && Fits(ArtifactsOf(ps, hash), s.limits, s.count, s.total)
  }

  lemma {:induction false} FitsAppend(a: seq<Artifact>, b: seq<Artifact>, limits: Limits, count: nat, total: nat)
    requires Fits(a, limits, count, total)
    ensures Fits(a + b, limits, count, total) <==> Fits(b, limits, count + |a|, total + Sum(a))
  {
    SumAppend(a, b);
    if b == [] { assert a + b == a; }
    if Fits(a + b, limits, count, total) {
      assert forall i :: 0 <= i < |b| ==> (a + b)[|a| + i] == b[i];
    }
  }

  /** A log can be placed exactly when its second half can be placed after its first. */
  lemma {:induction false} CopyableAppend(s: Start, a: seq<Placement>, mid: Start, b: seq<Placement>, hash: Hash)
    requires After(s, a, mid, hash)
    ensures Copyable(a + b, s, hash) <==> Copyable(b, mid, hash)
  {
    assert PutAll(s.staged, a + b) == PutAll(mid.staged, b) by { PutAppend(s.staged, a, b); }
    var x, y := ArtifactsOf(a, hash), ArtifactsOf(b, hash);
    assert ArtifactsOf(a + b, hash) == x + y by { ArtifactsAppend(a, b, hash); }
    FitsAppend(x, y, s.limits, s.count, s.total);
  }

  lemma {:induction false} AfterAppend(s: Start, a: seq<Placement>, mid: Start, b: seq<Placement>, e: Start, hash: Hash)
    requires After(s, a, mid, hash) && After(mid, b, e, hash)
    ensures After(s, a + b, e, hash)
  {
    PutAppend(s.staged, a, b);
    ArtifactsAppend(a, b, hash);
    FitsAppend(ArtifactsOf(a, hash), ArtifactsOf(b, hash), s.limits, s.count, s.total);
    SumAppend(ArtifactsOf(a, hash), ArtifactsOf(b, hash));
  }

  lemma {:induction false} NotCopyablePrefix(s: Start, a: seq<Placement>, b: seq<Placement>, hash: Hash)
    requires !Copyable(a, s, hash)
    ensures !Copyable(a + b, s, hash)
  {
    PutAppend(s.staged, a, b);
    ArtifactsAppend(a, b, hash);
    if Fits(ArtifactsOf(a + b, hash), s.limits, s.count, s.total) {
      FitsPrefix(ArtifactsOf(a, hash), ArtifactsOf(b, hash), s.limits, s.count, s.total);
    }
  }

  lemma {:induction false} OnePlacement(s: Start, p: Placement, hash: Hash)
    ensures PutAll(s.staged, [p]) == Put(s.staged, p) && ArtifactsOf([p], hash) == ArtifactOf(p, hash)
  {
  }

  lemma {:induction false} SumOne(a: Artifact)
    ensures Sum([a]) == a.size
  {
  }

  method PlaceDir(s: Start, at: Location, hash: Hash) returns (r: Option<Start>)
    ensures r.Some? <==> Copyable([Placement(at, DirItem)], s, hash)
    ensures r.Some? ==> After(s, [Placement(at, DirItem)], r.value, hash)
  {
    OnePlacement(s, Placement(at, DirItem), hash);
    var made := MakeDirs(s.staged, at);
    if made.None? { return None; }
    r := Some(s.(staged := made.value));
  }

  /** A file is copied into the staging directory, hashed and registered. */
  method PlaceFile(s: Start, at: Location, bytes: Bytes, hash: Hash) returns (r: Option<Start>, item: Artifact)
    requires SmallLimits(s.limits)
    ensures r.Some? <==> Copyable([Placement(at, FileItem(bytes))], s, hash)
    ensures item == Artifact(PathOf(at), |bytes|, hash(bytes)) && [item] == ArtifactsOf([Placement(at, FileItem(bytes))], hash)
    ensures r.Some? ==> After(s, [Placement(at, FileItem(bytes))], r.value, hash)
  {
    var p := Placement(at, FileItem(bytes));
    OnePlacement(s, p, hash);
    item := Artifact(PathOf(at), |bytes|, hash(bytes));
    SumOne(item);
    var staged := Put(s.staged, p);
    if staged.None? { return None, item; }
    var registered := Register(s.limits, s.count, s.total, item);
    if registered.None? { return None, item; }
    r := Some(s.(count := registered.value.0, total := registered.value.1, staged := staged.value));
  }

  // ----- The loops -----

  lemma ContentStep(id: Name, files: seq<SourceFile>, i: nat)
    requires i < |files|
    ensures ContentLog(id, files[..i + 1]) == ContentLog(id, files[..i]) + [Placement(ContentRoot(id) + files[i].path, FileItem(files[i].bytes))]
  {
    assert files[..i + 1][..i] == files[..i];
  }

  lemma {:induction false} ContentRest(id: Name, files: seq<SourceFile>, i: nat) returns (rest: seq<Placement>)
    requires i <= |files|
    ensures ContentLog(id, files) == ContentLog(id, files[..i]) + rest
    decreases |files| - i
  {
    if i == |files| {
      assert files[..i] == files;
      rest := [];
    } else {
      ContentStep(id, files, i);
      var more := ContentRest(id, files, i + 1);
      rest := [Placement(ContentRoot(id) + files[i].path, FileItem(files[i].bytes))] + more;
    }
  }

  lemma {:induction false} NothingPlaced(s: Start, hash: Hash)
    ensures After(s, [], s, hash)
  {
  }

  /** One Vault file: its archive path is checked, then it is copied and registered. */
  method StageFile(s: Start, v: VaultSource, i: nat, hash: Hash) returns (r: Option<Start>, item: Artifact)
    requires SmallLimits(s.limits) && SourceOk(v) && i < |v.content|
    ensures r.Some? <==> Copyable([Placement(ContentRoot(v.id) + v.content[i].path, FileItem(v.content[i].bytes))], s, hash)
    ensures r.Some? ==> After(s, [Placement(ContentRoot(v.id) + v.content[i].path, FileItem(v.content[i].bytes))], r.value, hash)
    ensures [item] == ArtifactsOf([Placement(ContentRoot(v.id) + v.content[i].path, FileItem(v.content[i].bytes))], hash)
  {
    var at := ContentRoot(v.id) + v.content[i].path;
    RootsAreProper(v.id);
    PathOfLocation(at);
    r, item := PlaceFile(s, at, v.content[i].bytes, hash);
    if !Plain(PathOf(at)) { r := None; }
  }

  /** The copies of one Vault's files. */
  method StageContent(s: Start, v: VaultSource, hash: Hash) returns (r: Option<Start>, items: seq<Artifact>)
    requires SmallLimits(s.limits) && SourceOk(v)
    ensures r.Some? <==> Copyable(ContentLog(v.id, v.content), s, hash)
    ensures r.Some? ==> After(s, ContentLog(v.id, v.content), r.value, hash) && items == ArtifactsOf(ContentLog(v.id, v.content), hash)
  {
    r, items := Some(s), [];
    var i := 0;
    NothingPlaced(s, hash);
    while i < |v.content|
      invariant 0 <= i <= |v.content| && r.Some? && After(s, ContentLog(v.id, v.content[..i]), r.value, hash)
      invariant items == ArtifactsOf(ContentLog(v.id, v.content[..i]), hash)
    {
      ghost var now, placed := r.value, ContentLog(v.id, v.content[..i]);
      ghost var one := [Placement(ContentRoot(v.id) + v.content[i].path, FileItem(v.content[i].bytes))];
      var item;
      r, item := StageFile(r.value, v, i, hash);
      CopyableAppend(s, placed, now, one, hash);
      ContentStep(v.id, v.content, i);
      if r.None? {
        ghost var rest := ContentRest(v.id, v.content, i + 1);
        NotCopyablePrefix(s, placed + one, rest, hash);
        return;
      }
      AfterAppend(s, placed, now, one, r.value, hash);
      ArtifactsAppend(placed, one, hash);
      items := items + [item];
      i := i + 1;
    }
    assert v.content[..i] == v.content;
  }

  /** The two roots of a Vault are created even when they are empty. */
  method StageRoots(s: Start, id: Name, hash: Hash) returns (r: Option<Start>)
    ensures r.Some? <==> Copyable(RootsLog(id), s, hash)
    ensures r.Some? ==> After(s, RootsLog(id), r.value, hash)
  {
    ghost var a, b := [Placement(ContentRoot(id), DirItem)], [Placement(HistoryRoot(id), DirItem)];
    assert a + b == RootsLog(id);
    r := PlaceDir(s, ContentRoot(id), hash);
    if r.None? {
      NotCopyablePrefix(s, a, b, hash);
      return;
    }
    ghost var mid := r.value;
    CopyableAppend(s, a, mid, b, hash);
    r := PlaceDir(r.value, HistoryRoot(id), hash);
    if r.Some? { AfterAppend(s, a, mid, b, r.value, hash); }
  }

  /** The history tree of a Vault, if it has one. */
  method StageHistory(s: Start, v: VaultSource, hash: Hash) returns (r: Option<Start>, items: seq<Artifact>)
    requires SmallLimits(s.limits)
    ensures r.Some? <==> LinklessVault(v) && Copyable(HistoryLog(v), s, hash)
    ensures r.Some? ==> After(s, HistoryLog(v), r.value, hash) && items == SortByPath(ArtifactsOf(HistoryLog(v), hash))
  {
    items := [];
    if v.history.None? {
      NothingPlaced(s, hash);
      return Some(s), items;
    }
    var prefix := HISTORY + [SLASH] + v.id + [SLASH];
    assert HistoryRoot(v.id)[1..] == [v.id];
    var copy := CopyPrivateTree(v.history.value, HistoryRoot(v.id), prefix, s, hash);
    if copy.None? { return None, items; }
    items := copy.value.artifacts;
    r := Some(s.(count := copy.value.count, total := copy.value.total, staged := copy.value.staged));
  }

  /** One Vault: its files, its roots, its history. */
  method StageVault(s: Start, v: VaultSource, hash: Hash) returns (r: Option<Start>, part: VaultPart)
    requires SmallLimits(s.limits) && SourceOk(v)
    ensures r.Some? <==> LinklessVault(v) && Copyable(VaultLog(v), s, hash)
    ensures r.Some? ==> After(s, VaultLog(v), r.value, hash) && part == PartOf(v, hash)
    ensures r.Some? && TreeHistory(v) ==>
              && ListsVault(part, v, hash)
              && forall q, b :: FileAt(r.value.staged, q, b) <==> FileAt(s.staged, q, b) || InContent(v, q, b) || InHistory(v, q, b)
  {
    hide Copyable, SourceOk, ListsVault, InContent, InHistory, LinklessVault;
    ghost var a, b, c := ContentLog(v.id, v.content), RootsLog(v.id), HistoryLog(v);
    assert VaultLog(v) == a + (b + c) && VaultLog(v) == (a + b) + c;
    part := VaultPart(v.id, v.slug, v.root, [], []);
    var content;
    r, content := StageContent(s, v, hash);
    if r.None? {
      NotCopyablePrefix(s, a, b + c, hash);
      return;
    }
    ghost var s1 := r.value;
    CopyableAppend(s, a, s1, b, hash);
    r := StageRoots(r.value, v.id, hash);
    if r.None? {
      NotCopyablePrefix(s, a + b, c, hash);
      return;
    }
    ghost var s2 := r.value;
    AfterAppend(s, a, s1, b, s2, hash);
    CopyableAppend(s, a + b, s2, c, hash);
    var history;
    r, history := StageHistory(r.value, v, hash);
    if r.None? { return; }
    AfterAppend(s, a + b, s2, c, r.value, hash);
    part := VaultPart(v.id, v.slug, v.root, content, history);
    if TreeHistory(v) {
      PartLists(v, hash);
      VaultAddsFiles(v, s.staged, r.value.staged);
    }
  }

  lemma {:induction false} VaultsStep(vaults: seq<VaultSource>, i: nat, hash: Hash)
    requires i < |vaults|
    ensures VaultsLog(vaults[..i + 1]) == VaultsLog(vaults[..i]) + VaultLog(vaults[i])
    ensures PartsOf(vaults[..i + 1], hash) == PartsOf(vaults[..i], hash) + [PartOf(vaults[i], hash)]
  {
    assert vaults[..i + 1][..i] == vaults[..i];
  }

  lemma {:induction false} Regroup(a: seq<Placement>, b: seq<Placement>, c: seq<Placement>)
    ensures a + b + c == a + (b + c)
  {
  }

  lemma {:induction false} VaultsRest(vaults: seq<VaultSource>, i: nat, hash: Hash) returns (rest: seq<Placement>)
    requires i <= |vaults|
    ensures VaultsLog(vaults) == VaultsLog(vaults[..i]) + rest
    decreases |vaults| - i
  {
    if i == |vaults| {
      assert vaults[..i] == vaults;
      return [];
    }
    VaultsStep(vaults, i, hash);
    var more := VaultsRest(vaults, i + 1, hash);
    Regroup(VaultsLog(vaults[..i]), VaultLog(vaults[i]), more);
    rest := VaultLog(vaults[i]) + more;
  }

  /** The first `i` Vaults are staged. */
  predicate StagedUpTo(s: Start, vaults: seq<VaultSource>, i: nat, now: Start, parts: seq<VaultPart>, hash: Hash)
    requires i <= |vaults|
  {
    After(s, VaultsLog(vaults[..i]), now, hash) && parts == PartsOf(vaults[..i], hash) && forall j :: 0 <= j < i ==> LinklessVault(vaults[j])
  }

  lemma {:induction false} StageStep(s: Start, vaults: seq<VaultSource>, i: nat, now: Start, parts: seq<VaultPart>,
                                     next: Start, hash: Hash)
    requires i < |vaults| && StagedUpTo(s, vaults, i, now, parts, hash)
    requires After(now, VaultLog(vaults[i]), next, hash) && LinklessVault(vaults[i])
    ensures StagedUpTo(s, vaults, i + 1, next, parts + [PartOf(vaults[i], hash)], hash)
  {
    VaultsStep(vaults, i, hash);
    AfterAppend(s, VaultsLog(vaults[..i]), now, VaultLog(vaults[i]), next, hash);
  }

  lemma {:induction false} StageFails(s: Start, vaults: seq<VaultSource>, i: nat, now: Start, hash: Hash)
    requires i < |vaults| && After(s, VaultsLog(vaults[..i]), now, hash) && !Copyable(VaultLog(vaults[i]), now, hash)
    ensures !Copyable(VaultsLog(vaults), s, hash)
  {
    VaultsStep(vaults, i, hash);
    CopyableAppend(s, VaultsLog(vaults[..i]), now, VaultLog(vaults[i]), hash);
    var rest := VaultsRest(vaults, i + 1, hash);
    NotCopyablePrefix(s, VaultsLog(vaults[..i + 1]), rest, hash);
  }

  lemma {:induction false} StageStart(s: Start, vaults: seq<VaultSource>, hash: Hash)
    ensures StagedUpTo(s, vaults, 0, s, [], hash)
  {
  }

  lemma {:induction false} StageEnd(s: Start, vaults: seq<VaultSource>, now: Start, parts: seq<VaultPart>, hash: Hash)
    requires StagedUpTo(s, vaults, |vaults|, now, parts, hash)
    ensures After(s, VaultsLog(vaults), now, hash) && parts == PartsOf(vaults, hash)
    ensures Linkless(vaults) && Copyable(VaultsLog(vaults), s, hash)
  {
    assert vaults[..|vaults|] == vaults;
  }

  /** The loop over the Vaults. */
  method StageVaults(s: Start, vaults: seq<VaultSource>, hash: Hash) returns (r: Option<Start>, parts: seq<VaultPart>)
    requires SmallLimits(s.limits) && forall i :: 0 <= i < |vaults| ==> SourceOk(vaults[i])
    ensures r.Some? <==> Linkless(vaults) && Copyable(VaultsLog(vaults), s, hash)
    ensures r.Some? ==> After(s, VaultsLog(vaults), r.value, hash) && parts == PartsOf(vaults, hash)
  {
    r, parts := Some(s), [];
    var i := 0;
    StageStart(s, vaults, hash);
    while i < |vaults|
      invariant 0 <= i <= |vaults| && r.Some? && StagedUpTo(s, vaults, i, r.value, parts, hash)
    {
      ghost var now := r.value;
      var part;
      r, part := StageVault(r.value, vaults[i], hash);
      if r.None? {
        if LinklessVault(vaults[i]) { StageFails(s, vaults, i, now, hash); }
        return;
      }
      StageStep(s, vaults, i, now, parts, r.value, hash);
      parts := parts + [part];
      i := i + 1;
    }
    StageEnd(s, vaults, r.value, parts, hash);
  }

  /** The database snapshot. */
  method StageState(s: Start, snapshot: Bytes, hash: Hash) returns (r: Option<Start>, item: Artifact)
    requires SmallLimits(s.limits)
    ensures r.Some? <==> Copyable(StateLog(snapshot), s, hash)
    ensures r.Some? ==> After(s, StateLog(snapshot), r.value, hash)
    ensures item == Artifact(PathOf([STATE, SNAPSHOT]), |snapshot|, hash(snapshot))
  {
    ghost var a, b := [Placement([STATE], DirItem)], [Placement([STATE, SNAPSHOT], FileItem(snapshot))];
    assert a + b == StateLog(snapshot);
    item := Artifact(PathOf([STATE, SNAPSHOT]), |snapshot|, hash(snapshot));
    r := PlaceDir(s, [STATE], hash);
    if r.None? {
      NotCopyablePrefix(s, a, b, hash);
      return;
    }
    ghost var mid := r.value;
    CopyableAppend(s, a, mid, b, hash);
    r, item := PlaceFile(r.value, [STATE, SNAPSHOT], snapshot, hash);
    if r.Some? { AfterAppend(s, a, mid, b, r.value, hash); }
  }

  /**
   create_artifact up to the manifest file. It goes through exactly when no history tree has a link
   and everything can be staged within the limits. What is staged is then a backup of the sources,
   and the manifest lists them.
   */
  method CreateManifest(limits: Limits, vaults: seq<VaultSource>, snapshot: Bytes, h: Header, hash: Hash)
    returns (r: Option<Manifest>, staged: Files)
    requires SmallLimits(limits) && forall i :: 0 <= i < |vaults| ==> SourceOk(vaults[i])
    ensures r.Some? <==> Linkless(vaults) && Copyable(FullLog(vaults, snapshot), Start(limits, 0, 0, map[[] := DirItem]), hash)
    ensures r.Some? ==> && PutAll(map[[] := DirItem], FullLog(vaults, snapshot)) == Some(staged)
                        && r.value == ManifestOf(vaults, snapshot, h, hash)
    ensures r.Some? ==> ManifestLists(r.value, vaults, snapshot, h, hash)
    ensures r.Some? ==> forall q, b :: FileAt(staged, q, b) <==> Sourced(vaults, snapshot, q, b)
    ensures r.Some? && ApartIds(vaults) ==> BackupOf(staged, vaults, snapshot)
  {
    var s := Start(limits, 0, 0, map[[] := DirItem]);
    staged := s.staged;
    var now, parts := StageVaults(s, vaults, hash);
    if now.None? {
      if Linkless(vaults) { NotCopyablePrefix(s, VaultsLog(vaults), StateLog(snapshot), hash); }
      return None, staged;
    }
    ghost var mid := now.value;
    CopyableAppend(s, VaultsLog(vaults), mid, StateLog(snapshot), hash);
    var state;
    now, state := StageState(now.value, snapshot, hash);
    if now.None? { return None, staged; }
    AfterAppend(s, VaultsLog(vaults), mid, StateLog(snapshot), now.value, hash);
    staged := now.value.staged;
    CreatedHolds(vaults, snapshot, staged, h, hash);
    r := Some(Manifest(FORMAT_VERSION, h.serviceVersion, h.schemaVersion, state, h.keyVersions, parts, now.value.count, now.value.total));
  }
}
