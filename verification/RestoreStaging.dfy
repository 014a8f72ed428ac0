/**
 What the staging area holds when the roots are swapped: after an accepted archive is
 extracted, nothing but the operating system keeps a staged root from being created.
 */
module RestoreStaging {
  import opened Prelude
  import opened PathText
  import opened ArchiveTree
  import opened ArchiveManifest
  import opened ArchiveValidate
  import opened ArchiveExtractable
  import BackupSources
  import RootSwap
  import opened RestoreApply

  // ----- Where the extracted files are -----

  /** Every Vault identity is a single name; it is the text of a UUID. */
  predicate NamedVaults(m: Manifest) { forall i :: 0 <= i < |m.vaults| ==> Proper(m.vaults[i].id) }

  /** The manifest, the snapshot, or something below the content or the history root of a Vault. */
  predicate Settled(q: Location) {
    || q == [MANIFEST] || q == [STATE, SNAPSHOT]
    || (|q| >= 4 && q[0] == VAULTS) || (|q| >= 3 && q[0] == HISTORY)
  }

  lemma {:induction false} CountingAppend(a: seq<Bytes>, b: seq<Bytes>)
    ensures Counting(a + b) == Counting(a) + Counting(b)
    decreases |a|
  {
    if a == [] {
      assert a + b == b;
    } else {
      assert (a + b)[1..] == a[1..] + b;
      CountingAppend(a[1..], b);
    }
  }

  /** A path whose last part is a name has a name after any leading parts. */
  lemma {:induction false} SomethingCounts(parts: seq<Bytes>)
    requires parts != [] && parts[|parts| - 1] != [] && parts[|parts| - 1] != [DOT]
    ensures |Counting(parts)| >= 1
  {
    var front, last := parts[..|parts| - 1], parts[|parts| - 1];
    assert parts == front + [last];
    CountingAppend(front, [last]);
  }

  /** Below proper names, a path that ends in a name has at least one name more. */
  lemma {:induction false} NamesBelow(front: Location, rest: Bytes)
    requires front != [] && forall i :: 0 <= i < |front| ==> Proper(front[i])
    requires EndsInName(Sep(Unsplit(front), rest))
    ensures var names := NamesOf(Sep(Unsplit(front), rest));
            |names| > |front| && names[0] == front[0]
  {
    hide Split, Unsplit, Sep, Counting;
    assert forall i :: 0 <= i < |front| ==> NoSlash(front[i]);
    SplitSep(Unsplit(front), rest);
    SplitUnsplit(front);
    CountingAppend(front, Split(rest));
    CountingProper(front);
    var parts := Split(Sep(Unsplit(front), rest));
    assert parts[|parts| - 1] == Split(rest)[|Split(rest)| - 1];
    SomethingCounts(Split(rest));
  }

  lemma {:induction false} ContentIsSettled(id: Name, path: Bytes)
    requires Proper(id) && ContentPrefix(id) <= path && EndsInName(path)
    ensures Settled(NamesOf(path))
  {
    var front := [VAULTS, id, CONTENT];
    assert front[1..] == [id, CONTENT] && front[1..][1..] == [CONTENT];
    assert Unsplit([CONTENT]) == CONTENT;
    assert Unsplit(front[1..]) == Sep(id, Unsplit(front[1..][1..]));
    assert Unsplit(front) == Sep(VAULTS, Unsplit(front[1..]));
    var rest := path[|ContentPrefix(id)|..];
    assert path == Sep(Unsplit(front), rest);
    assert forall i :: 0 <= i < |CONTENT| ==> CONTENT[i] != SLASH && CONTENT[i] != NUL;
    NamesBelow(front, rest);
  }

  lemma {:induction false} HistoryIsSettled(id: Name, path: Bytes)
    requires Proper(id) && HistoryPrefix(id) <= path && EndsInName(path)
    ensures Settled(NamesOf(path))
  {
    var front := [HISTORY, id];
    assert front[1..] == [id];
    assert Unsplit(front) == Sep(HISTORY, id);
    var rest := path[|HistoryPrefix(id)|..];
    assert path == Sep(Unsplit(front), rest);
    NamesBelow(front, rest);
  }

  lemma {:induction false} FixedAreSettled()
    ensures Settled(NamesOf(MANIFEST)) && Settled(NamesOf(STATE_PATH))
  {
    hide Counting, Split, NamesOf, Proper;
    ManifestIsProper();
    PathOfLocation([MANIFEST]);
    SnapshotIsProper();
    PathOfLocation([STATE, SNAPSHOT]);
  }

  /** What is settled is neither a staged root nor above one. */
  lemma {:induction false} SettledIsElsewhere(q: Location, id: Name)
    requires Settled(q)
    ensures !(q <= BackupSources.ContentRoot(id)) && !(q <= BackupSources.HistoryRoot(id))
  {
    assert VAULTS[0] != HISTORY[0] && VAULTS[0] != STATE[0] && VAULTS[0] != MANIFEST[0];
    assert HISTORY[0] != STATE[0] && HISTORY[0] != MANIFEST[0];
    assert q != [] && q[0] != [];
  }

  /** An artifact of the Vaults belongs to one of them. */
  lemma {:induction false} PartOfVault(vaults: seq<VaultPart>, k: nat) returns (i: nat)
    requires k < |Parts(vaults)|
    ensures i < |vaults| && (Parts(vaults)[k] in vaults[i].content || Parts(vaults)[k] in vaults[i].history)
    decreases |vaults|
  {
    var front, last := vaults[..|vaults| - 1], vaults[|vaults| - 1];
    if k < |Parts(front)| {
      i := PartOfVault(front, k);
    } else {
      i := |vaults| - 1;
    }
  }

  lemma {:induction false} ArtifactIsSettled(m: Manifest, limits: Limits, k: nat)
    requires Valid(m, limits) && NamedVaults(m) && k < |All(m)| && EndsInName(All(m)[k].path)
    ensures Settled(NamesOf(All(m)[k].path))
  {
    hide NamesOf, EndsInName, Settled;
    FixedAreSettled();
    if k > 0 {
      var i := PartOfVault(m.vaults, k - 1);
      var v := m.vaults[i];
      assert Isolated(v);
      if All(m)[k] in v.content {
        ContentIsSettled(v.id, All(m)[k].path);
      } else {
        HistoryIsSettled(v.id, All(m)[k].path);
      }
    }
  }

  /** After an accepted archive is extracted, every file is settled. */
  lemma {:induction false} FilesAreSettled(host: Host, entries: seq<TarEntry>, archiveBytes: nat, limits: Limits,
                                           decode: Bytes -> Option<Manifest>, hash: Hash, m: Manifest, q: Location)
    requires Accepts(entries, archiveBytes, limits, decode, hash, m) && NamedVaults(m)
    requires ExtractAll(host, Fresh, entries).Some? && FileThere(ExtractAll(host, Fresh, entries).value, q)
    ensures Settled(q)
  {
    hide Settled, NamesOf, EndsInName, ArchivePath, ExtractAll, Free, Sane, Valid, Opens;
    forall i | 0 <= i < |entries|
      ensures ArchivePath(entries[i].path)
    {
      assert EntryOk(entries[i], limits);
    }
    ExtractExact(host, entries);
    assert FileAmong(Placements(entries), q);
    var i :| 0 <= i < |entries| && Placements(entries)[i].item.FileItem? && Placements(entries)[i].at == q;
    assert EntryOk(entries[i], limits) && Creatable(host, entries, i);
    FixedAreSettled();
    if entries[i].path != MANIFEST {
      var k :| 0 <= k < |All(m)| && All(m)[k].path == entries[i].path;
      ArtifactIsSettled(m, limits, k);
    }
  }

  /**
   Extraction clears the way: create_dir_all on the staged content and history root of any Vault
   finds no file there or above, so it goes through unless the operating system refuses.
   */
  lemma {:induction false} StagedRootsAreClear(host: Host, entries: seq<TarEntry>, archiveBytes: nat, limits: Limits,
                                               decode: Bytes -> Option<Manifest>, hash: Hash, m: Manifest, id: Name)
    requires Accepts(entries, archiveBytes, limits, decode, hash, m) && NamedVaults(m)
    requires ExtractAll(host, Fresh, entries).Some?
    ensures var fs := ExtractAll(host, Fresh, entries).value;
            && MakeDirs(fs, BackupSources.ContentRoot(id)).Some? && !FileThere(fs, BackupSources.ContentRoot(id))
            && MakeDirs(fs, BackupSources.HistoryRoot(id)).Some? && !FileThere(fs, BackupSources.HistoryRoot(id))
  {
    hide ExtractAll, Accepts, MakeDirs, Tracks, NamesOf, ArchivePath;
    var fs := ExtractAll(host, Fresh, entries).value;
    forall q: Location | FileThere(fs, q)
      ensures !(q <= BackupSources.ContentRoot(id)) && !(q <= BackupSources.HistoryRoot(id))
    {
      FilesAreSettled(host, entries, archiveBytes, limits, decode, hash, m, q);
      SettledIsElsewhere(q, id);
    }
    ExtractedIsSane(host, entries, archiveBytes, limits, decode, hash, m);
    MakeDirsExact(fs, BackupSources.ContentRoot(id));
    MakeDirsExact(fs, BackupSources.HistoryRoot(id));
  }

  lemma {:induction false} ExtractedIsSane(host: Host, entries: seq<TarEntry>, archiveBytes: nat, limits: Limits,
                                           decode: Bytes -> Option<Manifest>, hash: Hash, m: Manifest)
    requires Accepts(entries, archiveBytes, limits, decode, hash, m) && ExtractAll(host, Fresh, entries).Some?
    ensures Sane(ExtractAll(host, Fresh, entries).value)
  {
    hide ExtractAll, ArchivePath, Free, Valid, Exact, Sane, Tracks;
    forall i | 0 <= i < |entries|
      ensures ArchivePath(entries[i].path)
    {
      assert EntryOk(entries[i], limits);
    }
    ExtractExact(host, entries);
  }

  // ----- What swap_roots finds there -----

  /** The node at a staged root is what extraction left there: a directory, a file, or nothing. */
  predicate Holds(node: Option<RootSwap.Node>, fs: Files, at: Location) {
    match Get(fs, at)
    case None => node.None?
    case Some(DirItem) => node.Some? && node.value.Dir?
    case Some(FileItem(_)) => node == Some(RootSwap.Other)
  }

  /** The staged roots of the Vaults are where the archive of Vaults with these identities has them. */
  predicate StagedBy(n: RootSwap.Nodes, fs: Files, vaults: seq<VaultRoots>, ids: seq<Name>) {
    && |ids| == |vaults|
    && forall k :: 0 <= k < |vaults| ==>
                     && Holds(RootSwap.Get(n, vaults[k].content.source), fs, BackupSources.ContentRoot(ids[k]))
                     && Holds(RootSwap.Get(n, vaults[k].history.source), fs, BackupSources.HistoryRoot(ids[k]))
  }

  /**
   After an accepted archive is extracted, no staged root is blocked: swap_roots returns early at a
   Vault only if the operating system refuses one of its two calls.
   */
  lemma {:induction false} OnlyRefusalsStop(host: Host, entries: seq<TarEntry>, archiveBytes: nat, limits: Limits,
                                            decode: Bytes -> Option<Manifest>, hash: Hash, m: Manifest,
                                            n: RootSwap.Nodes, f: Refusals, l: Layout, ids: seq<Name>, k: nat)
    requires Accepts(entries, archiveBytes, limits, decode, hash, m) && NamedVaults(m)
    requires ExtractAll(host, Fresh, entries).Some? && StagedBy(n, ExtractAll(host, Fresh, entries).value, l.vaults, ids)
    ensures StopsAt(n, f, l.vaults, l.roots, k) <==> k < |l.vaults| && Ready(n, l.roots, 0, 2 * k) && f.NoneBefore(k) && f.At(k)
  {
    hide ExtractAll, Accepts, MakeDirs, Ready;
    if k < |l.vaults| { StagedRootsAreClear(host, entries, archiveBytes, limits, decode, hash, m, ids[k]); }
  }
}
