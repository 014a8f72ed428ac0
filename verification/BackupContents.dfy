/**
 The log and the manifest of a backup hold what its sources hold: every file of every Vault, every
 history tree, the snapshot, and nothing else.
 */
module BackupContents {
  import opened Prelude
  import opened PathText
  import opened ArchiveTree
  import opened ArchiveManifest
  import opened ArchiveSort
  import opened ArchiveExtractable
  import opened TreeCopy
  import opened StagingLog
  import opened BackupSources

  // ----- The log holds what the sources hold -----

  lemma {:induction false} ContentIn(id: Name, files: seq<SourceFile>, p: Placement)
    ensures p in ContentLog(id, files)
            <==> exists j :: 0 <= j < |files| && p == Placement(ContentRoot(id) + files[j].path, FileItem(files[j].bytes))
    decreases |files|
  {
    hide ContentRoot;
    if files != [] {
      var n := |files| - 1;
      var front := files[..n];
      ContentIn(id, front, p);
      assert ContentLog(id, files) == ContentLog(id, front) + [Placement(ContentRoot(id) + files[n].path, FileItem(files[n].bytes))];
      assert forall j :: 0 <= j < n ==> front[j] == files[j];
    }
  }

  /** The history is a directory, or there is none. */
  predicate TreeHistory(v: VaultSource) { v.history.Some? ==> v.history.value.Dir? }

  lemma {:induction false} HistoryIn(v: VaultSource, p: Placement)
    requires TreeHistory(v) && LinklessVault(v) && (v.history.Some? ==> NodeDistinct(v.history.value))
    ensures p in HistoryLog(v)
            <==> v.history.Some?
                 && (p == Placement([HISTORY, v.id], DirItem)
                     || ([HISTORY, v.id] < p.at && ItemOf(HistoryAt(v, p.at[2..])) == Some(p.item)))
  {
    if v.history.Some? {
      var root := HistoryRoot(v.id);
      ListExact(v.history.value.children, root, p.at, p.item);
      assert p == Placement(p.at, p.item);
      assert HistoryLog(v) == [Placement(root, DirItem)] + List(v.history.value.children, root);
      assert root < p.at <==> root <= p.at && |root| < |p.at|;
    }
  }

  /** The four kinds of placements of one Vault. */
  predicate OfVault(v: VaultSource, p: Placement) {
    || (exists j :: 0 <= j < |v.content| && p == Placement([VAULTS, v.id, CONTENT] + v.content[j].path, FileItem(v.content[j].bytes)))
    || p == Placement([VAULTS, v.id, CONTENT], DirItem)
    || p == Placement([HISTORY, v.id], DirItem)
    || ([HISTORY, v.id] < p.at && ItemOf(HistoryAt(v, p.at[2..])) == Some(p.item))
  }

  predicate Linklessly(v: VaultSource) { TreeHistory(v) && LinklessVault(v) && SourceOk(v) }

  lemma {:induction false} VaultIn(v: VaultSource, p: Placement)
    requires Linklessly(v)
    ensures p in VaultLog(v) <==> OfVault(v, p)
  {
    hide HistoryLog, ContentLog, HistoryAt;
    ContentIn(v.id, v.content, p);
    HistoryIn(v, p);
    if v.history.None? && [HISTORY, v.id] < p.at { NoHistory(v, p.at[2..]); }
    assert p in VaultLog(v) <==> p in ContentLog(v.id, v.content) || p in RootsLog(v.id) || p in HistoryLog(v);
  }

  lemma {:induction false} NoHistory(v: VaultSource, q: Location)
    requires v.history.None? && q != []
    ensures HistoryAt(v, q).None?
  {
  }

  lemma {:induction false} VaultsIn(vaults: seq<VaultSource>, p: Placement)
    requires forall i :: 0 <= i < |vaults| ==> Linklessly(vaults[i])
    ensures p in VaultsLog(vaults) <==> exists i :: 0 <= i < |vaults| && OfVault(vaults[i], p)
    decreases |vaults|
  {
    hide VaultLog, OfVault, Linklessly;
    if vaults != [] {
      var n := |vaults| - 1;
      var front := vaults[..n];
      assert forall i :: 0 <= i < n ==> front[i] == vaults[i];
      VaultsIn(front, p);
      VaultIn(vaults[n], p);
      if p in VaultsLog(front) {
        var i :| 0 <= i < n && OfVault(front[i], p);
        assert OfVault(vaults[i], p);
      }
      if i :| 0 <= i < |vaults| && OfVault(vaults[i], p) {
        assert i < n ==> OfVault(front[i], p);
      }
    }
  }

  lemma {:induction false} FullIn(vaults: seq<VaultSource>, snapshot: Bytes, p: Placement)
    requires forall i :: 0 <= i < |vaults| ==> Linklessly(vaults[i])
    ensures p in FullLog(vaults, snapshot)
            <==> || p == Placement([STATE], DirItem) || p == Placement([STATE, SNAPSHOT], FileItem(snapshot))
                 || exists i :: 0 <= i < |vaults| && OfVault(vaults[i], p)
  {
    hide OfVault, VaultsLog;
    VaultsIn(vaults, p);
    assert p in FullLog(vaults, snapshot) <==> p in VaultsLog(vaults) || p in StateLog(snapshot);
  }

  lemma {:induction false} FileOfVault(v: VaultSource, q: Location, b: Bytes)
    requires Linklessly(v)
    ensures OfVault(v, Placement(q, FileItem(b))) <==> InContent(v, q, b) || InHistory(v, q, b)
  {
    if |q| > 2 && q[0] == HISTORY && q[1] == v.id { assert [HISTORY, v.id] < q; }
    if [HISTORY, v.id] < q { assert q[0] == HISTORY && q[1] == v.id && |q| > 2; }
  }

  /** The staged files are exactly those of the sources. */
  lemma {:induction false} StagedFiles(vaults: seq<VaultSource>, snapshot: Bytes, staged: Files, q: Location, b: Bytes)
    requires (forall i :: 0 <= i < |vaults| ==> Linklessly(vaults[i])) && PutAll(Fresh, FullLog(vaults, snapshot)) == Some(staged)
    ensures FileAt(staged, q, b) <==> Sourced(vaults, snapshot, q, b)
  {
    hide OfVault, FullLog, InContent, InHistory, Linklessly;
    var p := Placement(q, FileItem(b));
    PutAllFiles(Fresh, FullLog(vaults, snapshot), q, b);
    FullIn(vaults, snapshot, p);
    forall i | 0 <= i < |vaults|
      ensures OfVault(vaults[i], p) <==> InContent(vaults[i], q, b) || InHistory(vaults[i], q, b)
    {
      FileOfVault(vaults[i], q, b);
    }
  }

  /** Staging one Vault adds its files to those that are there, and no other. */
  lemma {:induction false} VaultAddsFiles(v: VaultSource, before: Files, after: Files)
    requires Linklessly(v) && PutAll(before, VaultLog(v)) == Some(after)
    ensures forall q, b :: FileAt(after, q, b) <==> FileAt(before, q, b) || InContent(v, q, b) || InHistory(v, q, b)
  {
    hide OfVault, VaultLog, InContent, InHistory, Linklessly;
    forall q, b
      ensures FileAt(after, q, b) <==> FileAt(before, q, b) || InContent(v, q, b) || InHistory(v, q, b)
    {
      PutAllFiles(before, VaultLog(v), q, b);
      VaultIn(v, Placement(q, FileItem(b)));
      FileOfVault(v, q, b);
    }
  }

  // ----- Directories -----

  lemma {:induction false} OfVaultIsSomewhere(v: VaultSource, p: Placement)
    requires OfVault(v, p)
    ensures p.at != [] && BelongsTo(p.at, v.id)
  {
  }

  /** What is there was placed, or is above something that was. */
  lemma {:induction false} WhyThere(vaults: seq<VaultSource>, snapshot: Bytes, staged: Files, q: Location) returns (p: Placement)
    requires (forall i :: 0 <= i < |vaults| ==> Linklessly(vaults[i])) && PutAll(Fresh, FullLog(vaults, snapshot)) == Some(staged)
    requires q in staged && q != []
    ensures q <= p.at
    ensures p.at <= [STATE, SNAPSHOT] || exists i :: 0 <= i < |vaults| && OfVault(vaults[i], p)
  {
    hide OfVault, FullLog, Sane, Linklessly;
    var log := FullLog(vaults, snapshot);
    LogTracks(vaults, snapshot, staged);
    assert Reached(log, q);
    var j :| 0 <= j < |log| && q <= log[j].at;
    p := log[j];
    FullIn(vaults, snapshot, p);
  }

  lemma {:induction false} LogTracks(vaults: seq<VaultSource>, snapshot: Bytes, staged: Files)
    requires (forall i :: 0 <= i < |vaults| ==> Linklessly(vaults[i])) && PutAll(Fresh, FullLog(vaults, snapshot)) == Some(staged)
    ensures Tracks(staged, FullLog(vaults, snapshot))
  {
    hide OfVault, FullLog, Tracks, Sane, Free, Linklessly;
    var log := FullLog(vaults, snapshot);
    forall j | 0 <= j < |log|
      ensures log[j].at != []
    {
      FullIn(vaults, snapshot, log[j]);
      assert log[j] in log;
      if i :| 0 <= i < |vaults| && OfVault(vaults[i], log[j]) { OfVaultIsSomewhere(vaults[i], log[j]); }
    }
    PutAllExact(log);
  }

  /** What was placed is there. */
  lemma {:induction false} PlacedIsThere(vaults: seq<VaultSource>, snapshot: Bytes, staged: Files, i: nat, p: Placement)
    requires (forall k :: 0 <= k < |vaults| ==> Linklessly(vaults[k])) && PutAll(Fresh, FullLog(vaults, snapshot)) == Some(staged)
    requires i < |vaults| && OfVault(vaults[i], p)
    ensures p.at in staged
  {
    hide OfVault, FullLog, Linklessly;
    LogTracks(vaults, snapshot, staged);
    FullIn(vaults, snapshot, p);
    var log := FullLog(vaults, snapshot);
    var j :| 0 <= j < |log| && log[j] == p;
    assert Reached(log, p.at);
  }

  /** A directory that was placed is a directory unless the sources have a file there. */
  lemma {:induction false} NoFileThere(vaults: seq<VaultSource>, snapshot: Bytes, staged: Files, q: Location)
    requires (forall k :: 0 <= k < |vaults| ==> Linklessly(vaults[k])) && PutAll(Fresh, FullLog(vaults, snapshot)) == Some(staged)
    requires q in staged && forall b :: !Sourced(vaults, snapshot, q, b)
    ensures Get(staged, q) == Some(DirItem)
  {
    hide Sourced, FullLog, Linklessly;
    if staged[q].FileItem? { StagedFiles(vaults, snapshot, staged, q, staged[q].bytes); }
  }

  lemma {:induction false} RootsAreThere(vaults: seq<VaultSource>, snapshot: Bytes, staged: Files, i: nat)
    requires (forall k :: 0 <= k < |vaults| ==> Linklessly(vaults[k])) && PutAll(Fresh, FullLog(vaults, snapshot)) == Some(staged)
    requires i < |vaults|
    ensures Get(staged, [VAULTS, vaults[i].id, CONTENT]) == Some(DirItem) && Get(staged, [HISTORY, vaults[i].id]) == Some(DirItem)
  {
    hide FullLog;
    var content, history := [VAULTS, vaults[i].id, CONTENT], [HISTORY, vaults[i].id];
    PlacedIsThere(vaults, snapshot, staged, i, Placement(content, DirItem));
    PlacedIsThere(vaults, snapshot, staged, i, Placement(history, DirItem));
    RootsAreNoFiles(vaults, snapshot, vaults[i].id);
    NoFileThere(vaults, snapshot, staged, content);
    NoFileThere(vaults, snapshot, staged, history);
  }

  lemma {:induction false} RootsAreNoFiles(vaults: seq<VaultSource>, snapshot: Bytes, id: Name)
    requires forall k :: 0 <= k < |vaults| ==> SourceOk(vaults[k])
    ensures forall b :: !Sourced(vaults, snapshot, [VAULTS, id, CONTENT], b) && !Sourced(vaults, snapshot, [HISTORY, id], b)
  {
    assert VAULTS[0] != HISTORY[0] && VAULTS[0] != STATE[0] && HISTORY[0] != STATE[0];
    forall b, i | 0 <= i < |vaults|
      ensures !InContent(vaults[i], [VAULTS, id, CONTENT], b) && !InContent(vaults[i], [HISTORY, id], b)
      ensures !InHistory(vaults[i], [VAULTS, id, CONTENT], b) && !InHistory(vaults[i], [HISTORY, id], b)
    {
      forall j | 0 <= j < |vaults[i].content|
        ensures [VAULTS, vaults[i].id, CONTENT] + vaults[i].content[j].path != [VAULTS, id, CONTENT]
        ensures [VAULTS, vaults[i].id, CONTENT] + vaults[i].content[j].path != [HISTORY, id]
      {
        assert |[VAULTS, vaults[i].id, CONTENT] + vaults[i].content[j].path| > 3;
      }
    }
  }

  /** Below a Vault's history root is its history tree. */
  lemma {:induction false} HistoryIsThere(vaults: seq<VaultSource>, snapshot: Bytes, staged: Files, i: nat, q: Location)
    requires (forall k :: 0 <= k < |vaults| ==> Linklessly(vaults[k])) && PutAll(Fresh, FullLog(vaults, snapshot)) == Some(staged)
    requires i < |vaults| && ApartIds(vaults) && q != []
    ensures Get(staged, [HISTORY, vaults[i].id] + q) == ItemOf(HistoryAt(vaults[i], q))
  {
    hide FullLog, Sourced, OfVault;
    var v, w := vaults[i], [HISTORY, vaults[i].id] + q;
    assert w[2..] == q;
    HistoryIsItem(v, q);
    var node := HistoryAt(v, q);
    if node.Some? {
      assert OfVault(v, Placement(w, ItemOf(node).value)) by { HistoryOfVault(v, q); }
      PlacedIsThere(vaults, snapshot, staged, i, Placement(w, ItemOf(node).value));
    }
    if w in staged && staged[w].FileItem? {
      StagedFiles(vaults, snapshot, staged, w, staged[w].bytes);
      OnlyItsHistory(vaults, snapshot, i, q, staged[w].bytes);
    } else if w in staged {
      if node.Some? && node.value.File? {
        OnlyItsHistory(vaults, snapshot, i, q, node.value.bytes);
        StagedFiles(vaults, snapshot, staged, w, node.value.bytes);
      }
      var p := WhyThere(vaults, snapshot, staged, w);
      AboveHistory(vaults, i, q, p);
    }
  }

  lemma {:induction false} HistoryIsItem(v: VaultSource, q: Location)
    requires Linklessly(v) && q != []
    ensures HistoryAt(v, q).Some? ==> ItemOf(HistoryAt(v, q)).Some?
  {
    if v.history.Some? { LookupIsItem(v.history.value.children, q); }
  }

  lemma {:induction false} HistoryOfVault(v: VaultSource, q: Location)
    requires q != [] && ItemOf(HistoryAt(v, q)).Some?
    ensures OfVault(v, Placement([HISTORY, v.id] + q, ItemOf(HistoryAt(v, q)).value))
  {
    assert ([HISTORY, v.id] + q)[2..] == q && [HISTORY, v.id] < [HISTORY, v.id] + q;
  }

  lemma {:induction false} OnlyItsHistory(vaults: seq<VaultSource>, snapshot: Bytes, i: nat, q: Location, b: Bytes)
    requires i < |vaults| && ApartIds(vaults) && q != []
    ensures Sourced(vaults, snapshot, [HISTORY, vaults[i].id] + q, b) <==> HistoryAt(vaults[i], q) == Some(File(b))
  {
    hide HistoryAt;
    var w := [HISTORY, vaults[i].id] + q;
    assert w[2..] == q && w[0] == HISTORY && w[1] == vaults[i].id && HISTORY[0] != VAULTS[0] && HISTORY[0] != STATE[0];
    assert InHistory(vaults[i], w, b) <==> HistoryAt(vaults[i], q) == Some(File(b));
    forall k | 0 <= k < |vaults|
      ensures !InContent(vaults[k], w, b) && (InHistory(vaults[k], w, b) ==> k == i)
    {
      assert forall j :: 0 <= j < |vaults[k].content| ==> ([VAULTS, vaults[k].id, CONTENT] + vaults[k].content[j].path)[0] == VAULTS;
    }
  }

  /** What reaches below a history root is of that history, so the tree has something there. */
  lemma {:induction false} AboveHistory(vaults: seq<VaultSource>, i: nat, q: Location, p: Placement)
    requires i < |vaults| && ApartIds(vaults) && q != [] && Linklessly(vaults[i]) && [HISTORY, vaults[i].id] + q <= p.at
    requires p.at <= [STATE, SNAPSHOT] || exists k :: 0 <= k < |vaults| && OfVault(vaults[k], p)
    ensures HistoryAt(vaults[i], q).Some?
  {
    var w := [HISTORY, vaults[i].id] + q;
    assert p.at[0] == w[0] == HISTORY && p.at[1] == w[1] == vaults[i].id && |p.at| >= |w| > 2;
    assert HISTORY[0] != VAULTS[0] && HISTORY[0] != STATE[0];
    var k :| 0 <= k < |vaults| && OfVault(vaults[k], p);
    assert forall j :: 0 <= j < |vaults[k].content| ==> ([VAULTS, vaults[k].id, CONTENT] + vaults[k].content[j].path)[0] == VAULTS;
    assert [HISTORY, vaults[k].id] < p.at && k == i;
    var r := p.at[2..];
    assert q <= r;
    if q != r { LookupAbove(vaults[i].history.value.children, q, r); }
  }

  /** Below a Vault's content root are its files and the directories above them. */
  lemma {:induction false} ContentIsThere(vaults: seq<VaultSource>, snapshot: Bytes, staged: Files, i: nat)
    requires (forall k :: 0 <= k < |vaults| ==> Linklessly(vaults[k])) && PutAll(Fresh, FullLog(vaults, snapshot)) == Some(staged)
    requires i < |vaults| && ApartIds(vaults)
    ensures forall j :: 0 <= j < |vaults[i].content| ==>
                          Get(staged, [VAULTS, vaults[i].id, CONTENT] + vaults[i].content[j].path) == Some(FileItem(vaults[i].content[j].bytes))
    ensures forall q: Location :: q != [] && Get(staged, [VAULTS, vaults[i].id, CONTENT] + q).Some? ==>
                                    exists j :: 0 <= j < |vaults[i].content| && q <= vaults[i].content[j].path
  {
    hide FullLog, Linklessly, InHistory, OfVault;
    var v := vaults[i];
    forall j | 0 <= j < |v.content|
      ensures Get(staged, [VAULTS, v.id, CONTENT] + v.content[j].path) == Some(FileItem(v.content[j].bytes))
    {
      var w := [VAULTS, v.id, CONTENT] + v.content[j].path;
      assert InContent(v, w, v.content[j].bytes);
      StagedFiles(vaults, snapshot, staged, w, v.content[j].bytes);
    }
    forall q: Location | q != [] && Get(staged, [VAULTS, v.id, CONTENT] + q).Some?
      ensures exists j :: 0 <= j < |v.content| && q <= v.content[j].path
    {
      var p := WhyThere(vaults, snapshot, staged, [VAULTS, v.id, CONTENT] + q);
      AboveContent(vaults, i, q, p);
    }
  }

  lemma {:induction false} AboveContent(vaults: seq<VaultSource>, i: nat, q: Location, p: Placement)
    requires i < |vaults| && ApartIds(vaults) && q != [] && [VAULTS, vaults[i].id, CONTENT] + q <= p.at
    requires p.at <= [STATE, SNAPSHOT] || exists k :: 0 <= k < |vaults| && OfVault(vaults[k], p)
    ensures exists j :: 0 <= j < |vaults[i].content| && q <= vaults[i].content[j].path
  {
    hide HistoryAt;
    var w := [VAULTS, vaults[i].id, CONTENT] + q;
    assert p.at[0] == w[0] == VAULTS && p.at[1] == w[1] == vaults[i].id && |p.at| >= |w| > 3;
    assert HISTORY[0] != VAULTS[0] && VAULTS[0] != STATE[0];
    var k :| 0 <= k < |vaults| && OfVault(vaults[k], p);
    var j :| 0 <= j < |vaults[k].content| && p.at == [VAULTS, vaults[k].id, CONTENT] + vaults[k].content[j].path;
    assert k == i && p.at[3..] == vaults[i].content[j].path && w[3..] == q;
    assert q <= p.at[3..];
  }

  /** The staging directory is a backup of the sources. */
  lemma {:induction false} StagedIsBackup(vaults: seq<VaultSource>, snapshot: Bytes, staged: Files)
    requires (forall k :: 0 <= k < |vaults| ==> Linklessly(vaults[k])) && PutAll(Fresh, FullLog(vaults, snapshot)) == Some(staged)
    requires ApartIds(vaults)
    ensures BackupOf(staged, vaults, snapshot)
  {
    hide FullLog, Linklessly, OfVault;
    StagedFiles(vaults, snapshot, staged, [STATE, SNAPSHOT], snapshot);
    forall i | 0 <= i < |vaults|
      ensures HoldsVault(staged, vaults[i])
    {
      RootsAreThere(vaults, snapshot, staged, i);
      ContentIsThere(vaults, snapshot, staged, i);
      forall q: Location | q != []
        ensures Get(staged, [HISTORY, vaults[i].id] + q) == ItemOf(HistoryAt(vaults[i], q))
      {
        HistoryIsThere(vaults, snapshot, staged, i, q);
      }
    }
    forall q: Location | q in staged
      ensures q <= [STATE, SNAPSHOT] || exists i :: 0 <= i < |vaults| && BelongsTo(q, vaults[i].id)
    {
      if q != [] {
        var p := WhyThere(vaults, snapshot, staged, q);
        if i :| 0 <= i < |vaults| && OfVault(vaults[i], p) {
          OfVaultIsSomewhere(vaults[i], p);
          AboveBelongs(q, p.at, vaults[i].id);
          assert BelongsTo(q, vaults[i].id);
        }
      }
    }
  }

  lemma {:induction false} AboveBelongs(q: Location, r: Location, id: Name)
    requires q <= r && BelongsTo(r, id)
    ensures BelongsTo(q, id)
  {
  }

  // ----- A history is a directory -----

  lemma {:induction false} ListIsBelow(f: Forest, at: Location)
    ensures forall i :: 0 <= i < |List(f, at)| ==> at < List(f, at)[i].at
    decreases f
  {
    if f.Cons? {
      var to := at + [f.name];
      if f.node.Dir? { ListIsBelow(f.node.children, to); }
      ListIsBelow(f.rest, at);
      forall i | 0 <= i < |ListNode(f.node, to)|
        ensures at < ListNode(f.node, to)[i].at
      {
      }
    }
  }

  predicate Somewhere(ps: seq<Placement>) { forall i :: 0 <= i < |ps| ==> ps[i].at != [] }

  lemma {:induction false} ContentIsSomewhere(id: Name, files: seq<SourceFile>)
    ensures Somewhere(ContentLog(id, files))
    decreases |files|
  {
    if files != [] { ContentIsSomewhere(id, files[..|files| - 1]); }
  }

  lemma {:induction false} VaultIsSomewhere(v: VaultSource)
    ensures Somewhere(VaultLog(v))
  {
    ContentIsSomewhere(v.id, v.content);
    if v.history.Some? {
      var root := HistoryRoot(v.id);
      if v.history.value.Dir? {
        ListIsBelow(v.history.value.children, root);
        assert Somewhere(List(v.history.value.children, root));
      }
      assert Somewhere(HistoryLog(v));
    }
  }

  lemma {:induction false} VaultsAreSomewhere(vaults: seq<VaultSource>)
    ensures Somewhere(VaultsLog(vaults))
    ensures forall i, p :: 0 <= i < |vaults| && p in VaultLog(vaults[i]) ==> p in VaultsLog(vaults)
    decreases |vaults|
  {
    hide VaultLog;
    if vaults != [] {
      var n := |vaults| - 1;
      VaultsAreSomewhere(vaults[..n]);
      VaultIsSomewhere(vaults[n]);
      forall i, p | 0 <= i < |vaults| && p in VaultLog(vaults[i])
        ensures p in VaultsLog(vaults)
      {
        assert i < n ==> vaults[..n][i] == vaults[i];
      }
    }
  }

  /** A history that is a file cannot be staged: its root was created as a directory before. */
  lemma {:induction false} FileHistoryFails(vaults: seq<VaultSource>, snapshot: Bytes, i: nat)
    requires i < |vaults| && vaults[i].history.Some? && vaults[i].history.value.File?
    ensures PutAll(Fresh, FullLog(vaults, snapshot)).None?
  {
    hide Tracks, Sane, PutAll, VaultsLog;
    var log, v := FullLog(vaults, snapshot), vaults[i];
    VaultsAreSomewhere(vaults);
    var dir, file := Placement(HistoryRoot(v.id), DirItem), Placement(HistoryRoot(v.id), FileItem(v.history.value.bytes));
    assert dir in RootsLog(v.id) && file in HistoryLog(v);
    assert dir in VaultLog(v) && file in VaultLog(v);
    assert dir in log && file in log;
    var a, b :| 0 <= a < |log| && 0 <= b < |log| && log[a] == dir && log[b] == file;
    assert log[b].at <= log[a].at && a != b;
    PutAllExact(log);
  }

  lemma {:induction false} HistoriesAreTrees(vaults: seq<VaultSource>, snapshot: Bytes)
    requires PutAll(Fresh, FullLog(vaults, snapshot)).Some? && Linkless(vaults) && forall i :: 0 <= i < |vaults| ==> SourceOk(vaults[i])
    ensures forall i :: 0 <= i < |vaults| ==> Linklessly(vaults[i])
  {
    hide PutAll, FullLog, SourceOk;
    forall i | 0 <= i < |vaults|
      ensures Linklessly(vaults[i])
    {
      if vaults[i].history.Some? && vaults[i].history.value.File? { FileHistoryFails(vaults, snapshot, i); }
    }
  }

  // ----- The manifest lists what the sources hold -----

  /** A file's artifact: its path in the archive, its size and its hash. */
  function ArtifactAt(prefix: Bytes, path: Location, bytes: Bytes, hash: Hash): Artifact {
    Artifact(prefix + PathOf(path), |bytes|, hash(bytes))
  }

  /** One Vault of the manifest: its identity, its files in their order, and the files of its history in the order of their paths. */
  ghost predicate ListsVault(part: VaultPart, v: VaultSource, hash: Hash) {
    && part.id == v.id && part.slug == v.slug && part.root == v.root
    && |part.content| == |v.content|
    && (forall j :: 0 <= j < |v.content| ==> part.content[j] == ArtifactAt(ContentPrefix(v.id), v.content[j].path, v.content[j].bytes, hash))
    && (forall a :: a in part.history <==> OfHistory(v, hash, a))
    && Ordered(part.history)
  }

  lemma {:induction false} PathBehind(name: Name, q: Location)
    requires q != []
    ensures PathOf([name] + q) == name + [SLASH] + PathOf(q)
  {
    assert ([name] + q)[1..] == q;
  }

  lemma {:induction false} RootPath(id: Name, q: Location)
    requires q != []
    ensures PathOf([VAULTS, id, CONTENT] + q) == ContentPrefix(id) + PathOf(q)
    ensures PathOf([HISTORY, id] + q) == HistoryPrefix(id) + PathOf(q)
  {
    hide PathOf;
    PathBehind(CONTENT, q);
    PathBehind(id, [CONTENT] + q);
    PathBehind(VAULTS, [id] + ([CONTENT] + q));
    assert [VAULTS] + ([id] + ([CONTENT] + q)) == [VAULTS, id, CONTENT] + q;
    PathBehind(id, q);
    PathBehind(HISTORY, [id] + q);
    assert [HISTORY] + ([id] + q) == [HISTORY, id] + q;
  }

  lemma {:induction false} ContentListed(id: Name, files: seq<SourceFile>, hash: Hash)
    requires forall j :: 0 <= j < |files| ==> files[j].path != []
    ensures var items := ArtifactsOf(ContentLog(id, files), hash);
            |items| == |files| && forall j :: 0 <= j < |files| ==> items[j] == ArtifactAt(ContentPrefix(id), files[j].path, files[j].bytes, hash)
    decreases |files|
  {
    hide PathOf, ContentPrefix, ArtifactsOf;
    if files == [] {
      assert ArtifactsOf([], hash) == [] by { NoArtifacts(hash); }
    } else {
      var n := |files| - 1;
      var front := files[..n];
      ContentListed(id, front, hash);
      var p := Placement(ContentRoot(id) + files[n].path, FileItem(files[n].bytes));
      assert ContentLog(id, files) == ContentLog(id, front) + [p];
      ArtifactsSnoc(ContentLog(id, front), p, hash);
      RootPath(id, files[n].path);
      assert forall j :: 0 <= j < n ==> front[j] == files[j];
    }
  }

  lemma {:induction false} NoArtifacts(hash: Hash)
    ensures ArtifactsOf([], hash) == []
  {
  }

  /** The artifact of a file of the history. */
  ghost predicate OfHistory(v: VaultSource, hash: Hash, a: Artifact) {
    exists q: Location, b: Bytes :: q != [] && HistoryAt(v, q) == Some(File(b)) && a == ArtifactAt(HistoryPrefix(v.id), q, b, hash)
  }

  lemma {:induction false} ListedIsOfHistory(v: VaultSource, hash: Hash, a: Artifact)
    requires Linklessly(v) && a in ArtifactsOf(HistoryLog(v), hash)
    ensures OfHistory(v, hash, a)
  {
    hide HistoryAt, Unsplit, HistoryLog, ArtifactsOf;
    var log := HistoryLog(v);
    InArtifacts(log, hash, a);
    var i :| 0 <= i < |log| && log[i].item.FileItem? && a == Artifact(PathOf(log[i].at), |log[i].item.bytes|, hash(log[i].item.bytes));
    HistoryIn(v, log[i]);
    var q := log[i].at[2..];
    assert log[i].at == [HISTORY, v.id] + q;
    RootPath(v.id, q);
    HistoryIsItem(v, q);
    assert HistoryAt(v, q) == Some(File(log[i].item.bytes));
  }

  lemma {:induction false} OfHistoryIsListed(v: VaultSource, hash: Hash, q: Location, b: Bytes)
    requires Linklessly(v) && q != [] && HistoryAt(v, q) == Some(File(b))
    ensures ArtifactAt(HistoryPrefix(v.id), q, b, hash) in ArtifactsOf(HistoryLog(v), hash)
  {
    hide HistoryAt, Unsplit, HistoryLog, ArtifactsOf;
    var log, p := HistoryLog(v), Placement([HISTORY, v.id] + q, FileItem(b));
    assert p.at[2..] == q;
    assert v.history.Some? by { if v.history.None? { NoHistory(v, q); } }
    HistoryIn(v, p);
    var i :| 0 <= i < |log| && log[i] == p;
    FileHasArtifact(log, hash, i);
    RootPath(v.id, q);
  }

  lemma {:induction false} HistoryListed(v: VaultSource, hash: Hash, a: Artifact)
    requires Linklessly(v)
    ensures a in ArtifactsOf(HistoryLog(v), hash) <==> OfHistory(v, hash, a)
  {
    hide HistoryAt, HistoryLog, ArtifactsOf, ArtifactAt, Linklessly;
    if a in ArtifactsOf(HistoryLog(v), hash) { ListedIsOfHistory(v, hash, a); }
    if q: Location, b: Bytes :| q != [] && HistoryAt(v, q) == Some(File(b)) && a == ArtifactAt(HistoryPrefix(v.id), q, b, hash) {
      OfHistoryIsListed(v, hash, q, b);
    }
  }

  lemma {:induction false} PartLists(v: VaultSource, hash: Hash)
    requires Linklessly(v)
    ensures ListsVault(PartOf(v, hash), v, hash)
  {
    hide OfHistory, Unsplit, HistoryLog, ContentLog, ArtifactsOf;
    ContentListed(v.id, v.content, hash);
    var items := ArtifactsOf(HistoryLog(v), hash);
    SortOrders(items);
    forall a
      ensures a in SortByPath(items) <==> a in items
    {
      assert a in multiset(SortByPath(items)) <==> a in multiset(items);
    }
    forall a
      ensures a in items <==> OfHistory(v, hash, a)
    {
      HistoryListed(v, hash, a);
    }
  }

  /** The manifest lists the sources: the header, the snapshot, and every Vault in order. */
  ghost predicate ManifestLists(m: Manifest, vaults: seq<VaultSource>, snapshot: Bytes, h: Header, hash: Hash) {
    && m.formatVersion == 1 && m.serviceVersion == h.serviceVersion && m.schemaVersion == h.schemaVersion && m.keyVersions == h.keyVersions
    && m.state == Artifact(STATE_PATH, |snapshot|, hash(snapshot))
    && |m.vaults| == |vaults| && forall i :: 0 <= i < |vaults| ==> ListsVault(m.vaults[i], vaults[i], hash)
  }

  lemma {:induction false} PartsInOrder(vaults: seq<VaultSource>, hash: Hash)
    ensures |PartsOf(vaults, hash)| == |vaults| && forall i :: 0 <= i < |vaults| ==> PartsOf(vaults, hash)[i] == PartOf(vaults[i], hash)
    decreases |vaults|
  {
    hide PartOf;
    if vaults != [] {
      var n := |vaults| - 1;
      PartsInOrder(vaults[..n], hash);
      assert forall i :: 0 <= i < n ==> vaults[..n][i] == vaults[i];
    }
  }

  /** Creation in whole: what is staged is a backup of the sources, and the manifest lists them. */
  lemma {:induction false} CreatedHolds(vaults: seq<VaultSource>, snapshot: Bytes, staged: Files, h: Header, hash: Hash)
    requires PutAll(Fresh, FullLog(vaults, snapshot)) == Some(staged) && Linkless(vaults)
    requires forall i :: 0 <= i < |vaults| ==> SourceOk(vaults[i])
    ensures ManifestLists(ManifestOf(vaults, snapshot, h, hash), vaults, snapshot, h, hash)
    ensures forall q, b :: FileAt(staged, q, b) <==> Sourced(vaults, snapshot, q, b)
    ensures ApartIds(vaults) ==> BackupOf(staged, vaults, snapshot)
  {
    hide FullLog, PutAll, Sourced, BackupOf, ManifestLists, Linklessly, ManifestOf, SourceOk;
    HistoriesAreTrees(vaults, snapshot);
    ManifestListsSources(vaults, snapshot, h, hash);
    forall q, b
      ensures FileAt(staged, q, b) <==> Sourced(vaults, snapshot, q, b)
    {
      StagedFiles(vaults, snapshot, staged, q, b);
    }
    if ApartIds(vaults) { StagedIsBackup(vaults, snapshot, staged); }
  }

  lemma {:induction false} ManifestListsSources(vaults: seq<VaultSource>, snapshot: Bytes, h: Header, hash: Hash)
    requires forall i :: 0 <= i < |vaults| ==> Linklessly(vaults[i])
    ensures ManifestLists(ManifestOf(vaults, snapshot, h, hash), vaults, snapshot, h, hash)
  {
    hide PartOf, ListsVault, FullLog, ArtifactsOf;
    PartsInOrder(vaults, hash);
    SnapshotIsProper();
    forall i | 0 <= i < |vaults|
      ensures ListsVault(PartsOf(vaults, hash)[i], vaults[i], hash)
    {
      PartLists(vaults[i], hash);
    }
  }
}
