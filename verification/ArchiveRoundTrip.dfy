/**
 A staged backup goes through the archive unchanged: the validator accepts what write_tar
 writes for the staging directory, and extraction gives the staging directory back.
 */
module ArchiveRoundTrip {
  import opened Prelude
  import opened ArchiveTree
  import opened ArchiveManifest
  import opened ArchiveValidate
  import opened TreeCopy
  import opened StagingLog

  const Empty: Files := map[[] := DirItem]

  /** Every placement goes below one of the three archive roots, under proper names without backslashes. */
  predicate GoodLog(ps: seq<Placement>) {
    forall i :: 0 <= i < |ps| ==> ps[i].at != [] && ProperAll(ps[i].at) && AllowedRoot(ps[i].at[0])
  }

  function Log(ps: seq<Placement>, payload: Bytes): seq<Placement> { ps + [Placement([MANIFEST], FileItem(payload))] }

  /** The staging directory after all placements and the manifest file, whose artifacts are those placed. */
  ghost predicate Staged(s: Files, ps: seq<Placement>, payload: Bytes, m: Manifest, hash: Hash) {
    && GoodLog(ps)
    && PutAll(Empty, Log(ps, payload)) == Some(s)
    && multiset(All(m)) == multiset(ArtifactsOf(ps, hash))
  }

  /** The tree that reading the staging directory shows. */
  ghost predicate Shows(t: Forest, s: Files) {
    NoLinks(t) && Distinct(t) && forall q :: q != [] ==> Get(s, q) == ItemOf(Lookup(t, q))
  }

  // ----- Locations in the staging directory -----

  predicate Placeable(at: Location) { ProperAll(at) && Rooted(at) }

  predicate Keyed(s: Files) { forall q :: q in s && q != [] ==> Placeable(q) }

  lemma {:induction false} MakeDirsKeyed(s: Files, at: Location)
    requires Keyed(s) && ProperAll(at) && (at != [] ==> AllowedRoot(at[0])) && MakeDirs(s, at).Some?
    ensures Keyed(MakeDirs(s, at).value)
    decreases |at|
  {
    if at !in s && at != [] { MakeDirsKeyed(s, at[..|at| - 1]); }
  }

  lemma PutKeyed(s: Files, p: Placement)
    requires Keyed(s) && Put(s, p).Some?
    requires p.at != [] && ProperAll(p.at) && (AllowedRoot(p.at[0]) || (p.at == [MANIFEST] && p.item.FileItem?))
    ensures Keyed(Put(s, p).value)
  {
    if p.item.DirItem? {
      MakeDirsKeyed(s, p.at);
    } else {
      MakeDirsKeyed(s, p.at[..|p.at| - 1]);
    }
  }

  lemma {:induction false} PutAllKeyed(s: Files, ps: seq<Placement>)
    requires Keyed(s) && GoodLog(ps) && PutAll(s, ps).Some?
    ensures Keyed(PutAll(s, ps).value)
    decreases |ps|
  {
    if ps != [] {
      PutKeyed(s, ps[0]);
      assert forall i :: 0 <= i < |ps[1..]| ==> ps[1..][i] == ps[i + 1];
      PutAllKeyed(Put(s, ps[0]).value, ps[1..]);
    }
  }

  lemma StagedIsKeyed(s: Files, ps: seq<Placement>, payload: Bytes, m: Manifest, hash: Hash)
    requires Staged(s, ps, payload, m, hash)
    ensures Keyed(s)
  {
    var last := Placement([MANIFEST], FileItem(payload));
    PutAppend(Empty, ps, [last]);
    PutAllKeyed(Empty, ps);
    var mid := PutAll(Empty, ps).value;
    ManifestIsProper();
    assert [last][1..] == [] && PutAll(mid, [last]) == Some(s);
    PutKeyed(mid, last);
  }

  lemma ShownIsArchivable(t: Forest, s: Files)
    requires Shows(t, s) && Keyed(s)
    ensures AllArchivable(List(t, []))
  {
    var ps := List(t, []);
    forall i | 0 <= i < |ps|
      ensures Archivable(ps[i])
    {
      assert ps[i] == Placement(ps[i].at, ps[i].item) && ps[i] in ps;
      ListShown(t, s, ps[i].at, ps[i].item);
    }
  }

  /** The list of the tree holds exactly the items of the staging directory. */
  lemma ListShown(t: Forest, s: Files, q: Location, item: Item)
    requires Shows(t, s)
    ensures Placement(q, item) in List(t, []) <==> q != [] && Get(s, q) == Some(item)
  {
    var top: Location := [];
    ListExact(t, top, q, item);
    assert q[|top|..] == q;
  }

  // ----- Files of the tree and of the log -----

  lemma LogFiles(s: Files, ps: seq<Placement>, payload: Bytes, t: Forest, q: Location, b: Bytes)
    requires GoodLog(ps) && PutAll(Empty, Log(ps, payload)) == Some(s) && Shows(t, s)
    ensures Placement(q, FileItem(b)) in List(t, []) <==> Placement(q, FileItem(b)) in Log(ps, payload)
  {
    PutAllFiles(Empty, Log(ps, payload), q, b);
    ListShown(t, s, q, FileItem(b));
  }

  lemma LogApart(ps: seq<Placement>)
    requires PutAll(Empty, ps).Some?
    ensures FilesApart(ps)
  {
    forall i, j | 0 <= i < j < |ps| && ps[i].item.FileItem? && ps[j].item.FileItem?
      ensures ps[i].at != ps[j].at
    {
      PutAllNew(Empty, ps, j);
    }
  }

  lemma {:induction false} SubArtifacts(a: seq<Placement>, b: seq<Placement>, hash: Hash, x: Artifact)
    requires forall q, c :: Placement(q, FileItem(c)) in a ==> Placement(q, FileItem(c)) in b
    requires x in ArtifactsOf(a, hash)
    ensures x in ArtifactsOf(b, hash)
  {
    InArtifacts(a, hash, x);
    var i :| 0 <= i < |a| && a[i].item.FileItem? && x == Artifact(PathOf(a[i].at), |a[i].item.bytes|, hash(a[i].item.bytes));
    assert a[i] == Placement(a[i].at, FileItem(a[i].item.bytes)) && a[i] in a;
    assert a[i] in b;
    var j :| 0 <= j < |b| && b[j] == a[i];
    FileHasArtifact(b, hash, j);
  }

  /** The tree's files are the log's files, up to order. */
  lemma SameArtifacts(s: Files, ps: seq<Placement>, payload: Bytes, m: Manifest, hash: Hash, t: Forest)
    requires Staged(s, ps, payload, m, hash) && Shows(t, s)
    ensures multiset(ArtifactsOf(List(t, []), hash)) == multiset(ArtifactsOf(Log(ps, payload), hash))
  {
    var log, list := Log(ps, payload), List(t, []);
    StagedIsKeyed(s, ps, payload, m, hash);
    ShownIsArchivable(t, s);
    ListDistinct(t, []);
    ManifestIsProper();
    LogApart(log);
    assert Locatable(log) && Locatable(list) && FilesApart(list);
    ArtifactsDistinct(log, hash);
    ArtifactsDistinct(list, hash);
    forall q, b
      ensures Placement(q, FileItem(b)) in list <==> Placement(q, FileItem(b)) in log
    {
      LogFiles(s, ps, payload, t, q, b);
    }
    forall x
      ensures x in ArtifactsOf(list, hash) <==> x in ArtifactsOf(log, hash)
    {
      if x in ArtifactsOf(list, hash) { SubArtifacts(list, log, hash, x); }
      if x in ArtifactsOf(log, hash) { SubArtifacts(log, list, hash, x); }
    }
    SameMembers(ArtifactsOf(list, hash), ArtifactsOf(log, hash));
  }

  // ----- Acceptance -----

  /** The limits that a created archive has to meet besides those of its manifest. */
  predicate WithinLimits(t: Forest, payload: Bytes, m: Manifest, archiveBytes: nat, limits: Limits) {
    && archiveBytes <= limits.maxArchiveBytes
    && |List(t, [])| <= EntryLimit(limits)
    && |payload| <= MAX_MANIFEST_BYTES && |payload| <= limits.maxEntryBytes
    && m.totalBytes + |payload| <= limits.maxTotalBytes
  }

  lemma {:induction false} LogBytes(ps: seq<Placement>, payload: Bytes, m: Manifest, hash: Hash)
    requires multiset(All(m)) == multiset(ArtifactsOf(ps, hash))
    ensures Sum(ArtifactsOf(Log(ps, payload), hash)) == Sum(All(m)) + |payload|
  {
    var last := Placement([MANIFEST], FileItem(payload));
    ArtifactsSnoc(ps, last, hash);
    SumSnoc(ArtifactsOf(ps, hash), ArtifactOf(last, hash)[0]);
    SumPermutes(All(m), ArtifactsOf(ps, hash));
  }

  /** A file in the tree is the manifest or one of its artifacts. */
  lemma ShownFile(s: Files, ps: seq<Placement>, payload: Bytes, m: Manifest, hash: Hash, t: Forest, q: Location,
                  b: Bytes)
    requires Staged(s, ps, payload, m, hash) && Shows(t, s) && Placement(q, FileItem(b)) in List(t, [])
    ensures (q == [MANIFEST] && b == payload) || Artifact(PathOf(q), |b|, hash(b)) in All(m)
  {
    LogFiles(s, ps, payload, t, q, b);
    var p := Placement(q, FileItem(b));
    if p in ps {
      var i :| 0 <= i < |ps| && ps[i] == p;
      FileHasArtifact(ps, hash, i);
      assert Artifact(PathOf(q), |b|, hash(b)) in multiset(All(m));
    }
  }

  lemma EntryIsOk(s: Files, ps: seq<Placement>, payload: Bytes, m: Manifest, hash: Hash, t: Forest, limits: Limits,
                  i: nat)
    requires Staged(s, ps, payload, m, hash) && Shows(t, s) && Keyed(s) && i < |List(t, [])|
    requires Sound(All(m), limits) && |payload| <= MAX_MANIFEST_BYTES && |payload| <= limits.maxEntryBytes
    ensures EntryOk(Tar(List(t, [])[i]), limits)
  {
    var p := List(t, [])[i];
    ShownIsArchivable(t, s);
    assert Archivable(p);
    PathOfLocation(p.at);
    ManifestIsProper();
    if p.item.FileItem? {
      assert p == Placement(p.at, FileItem(p.item.bytes)) && p in List(t, []);
      ShownFile(s, ps, payload, m, hash, t, p.at, p.item.bytes);
      var a := Artifact(PathOf(p.at), |p.item.bytes|, hash(p.item.bytes));
      if a in All(m) {
        var k :| 0 <= k < |All(m)| && All(m)[k] == a;
        assert ArtifactOk(All(m)[k], limits);
        ManifestIsNoArtifact(All(m), limits);
        assert a.path in PathSet(All(m));
      }
    }
  }

  lemma EntriesDistinct(t: Forest, s: Files, entries: seq<TarEntry>)
    requires Shows(t, s) && Keyed(s) && WrittenAs(entries, List(t, []))
    ensures DistinctEntries(entries)
  {
    var ps := List(t, []);
    ShownIsArchivable(t, s);
    ListDistinct(t, []);
    forall i, j | 0 <= i < j < |entries|
      ensures entries[i].path != entries[j].path
    {
      assert Archivable(ps[i]) && Archivable(ps[j]) && ps[i].at != ps[j].at;
      if PathOf(ps[i].at) == PathOf(ps[j].at) { PathsDetermine(ps[i].at, ps[j].at); }
    }
  }

  lemma CreatedEntriesOk(s: Files, ps: seq<Placement>, payload: Bytes, m: Manifest, hash: Hash, t: Forest,
                         entries: seq<TarEntry>, archiveBytes: nat, limits: Limits)
    requires Staged(s, ps, payload, m, hash) && Shows(t, s) && WrittenAs(entries, List(t, []))
    requires Valid(m, limits) && WithinLimits(t, payload, m, archiveBytes, limits)
    ensures EntriesOk(entries, limits)
  {
    var list := List(t, []);
    StagedIsKeyed(s, ps, payload, m, hash);
    EntriesDistinct(t, s, entries);
    forall i | 0 <= i < |entries|
      ensures EntryOk(entries[i], limits)
    {
      EntryIsOk(s, ps, payload, m, hash, t, limits, i);
    }
    WrittenBytes(entries, list, hash);
    SameArtifacts(s, ps, payload, m, hash, t);
    SumPermutes(ArtifactsOf(list, hash), ArtifactsOf(Log(ps, payload), hash));
    LogBytes(ps, payload, m, hash);
  }

  /** Each artifact of the manifest is in the archive. */
  lemma ArtifactIsWritten(s: Files, ps: seq<Placement>, payload: Bytes, m: Manifest, hash: Hash, t: Forest,
                          entries: seq<TarEntry>, a: Artifact)
    requires Staged(s, ps, payload, m, hash) && Shows(t, s) && WrittenAs(entries, List(t, [])) && a in All(m)
    ensures HasFile(entries, a.path, Digest(a.size, a.sha256), hash)
  {
    assert a in multiset(ArtifactsOf(ps, hash));
    InArtifacts(ps, hash, a);
    var i :| 0 <= i < |ps| && ps[i].item.FileItem? && a == Artifact(PathOf(ps[i].at), |ps[i].item.bytes|, hash(ps[i].item.bytes));
    FileIsWritten(s, ps, payload, t, entries, ps[i].at, ps[i].item.bytes);
    var p := Placement(ps[i].at, FileItem(ps[i].item.bytes));
    assert Log(ps, payload)[i] == p;
    var k :| 0 <= k < |entries| && entries[k] == Tar(p);
    assert entries[k].kind.Regular?;
  }

  lemma FileIsWritten(s: Files, ps: seq<Placement>, payload: Bytes, t: Forest, entries: seq<TarEntry>, q: Location,
                      b: Bytes)
    requires GoodLog(ps) && PutAll(Empty, Log(ps, payload)) == Some(s) && Shows(t, s) && WrittenAs(entries, List(t, []))
    ensures Placement(q, FileItem(b)) in Log(ps, payload) ==> Tar(Placement(q, FileItem(b))) in entries
  {
    LogFiles(s, ps, payload, t, q, b);
    if Placement(q, FileItem(b)) in List(t, []) {
      var k :| 0 <= k < |List(t, [])| && List(t, [])[k] == Placement(q, FileItem(b));
      assert entries[k] == Tar(Placement(q, FileItem(b)));
    }
  }

  lemma CreatedIsExact(s: Files, ps: seq<Placement>, payload: Bytes, m: Manifest, hash: Hash, t: Forest,
                       entries: seq<TarEntry>)
    requires Staged(s, ps, payload, m, hash) && Shows(t, s) && WrittenAs(entries, List(t, []))
    ensures Exact(entries, m, hash) && HasManifest(entries, payload)
  {
    var list := List(t, []);
    ManifestIsProper();
    forall i | 0 <= i < |entries| && entries[i].kind.Regular?
      ensures entries[i].path == MANIFEST || entries[i].path in PathSet(All(m))
    {
      var p := list[i];
      assert p == Placement(p.at, FileItem(p.item.bytes)) && p in list;
      ShownFile(s, ps, payload, m, hash, t, p.at, p.item.bytes);
      if Artifact(PathOf(p.at), |p.item.bytes|, hash(p.item.bytes)) in All(m) {
        var k :| 0 <= k < |All(m)| && All(m)[k] == Artifact(PathOf(p.at), |p.item.bytes|, hash(p.item.bytes));
        assert All(m)[k].path == entries[i].path;
      }
    }
    forall i | 0 <= i < |All(m)|
      ensures HasFile(entries, All(m)[i].path, Digest(All(m)[i].size, All(m)[i].sha256), hash)
    {
      ArtifactIsWritten(s, ps, payload, m, hash, t, entries, All(m)[i]);
    }
    FileIsWritten(s, ps, payload, t, entries, [MANIFEST], payload);
    assert Log(ps, payload)[|ps|] == Placement([MANIFEST], FileItem(payload));
  }

  /**
   The main theorem. However the staging directory is listed, the archive written for it is
   accepted with the manifest that was written, and extracting it gives the directory back on
   every host that takes its paths.
   */
  lemma CreatedArchiveRoundTrips(s: Files, ps: seq<Placement>, payload: Bytes, m: Manifest, hash: Hash, t: Forest,
                                 archiveBytes: nat, limits: Limits, decode: Bytes -> Option<Manifest>, host: Host)
    requires Staged(s, ps, payload, m, hash) && Shows(t, s)
    requires Valid(m, limits) && WithinLimits(t, payload, m, archiveBytes, limits) && decode(payload) == Some(m)
    ensures Append(t, []) == Some(List(t, []))
    ensures Accepts(WriteTar(List(t, [])), archiveBytes, limits, decode, hash, m)
    ensures ExtractAll(host, Empty, WriteTar(List(t, []))) == if Taken(host, List(t, [])) then Some(s) else None
  {
    var entries := WriteTar(List(t, []));
    assert WrittenAs(entries, List(t, []));
    CreatedEntriesOk(s, ps, payload, m, hash, t, entries, archiveBytes, limits);
    CreatedIsExact(s, ps, payload, m, hash, t, entries);
    StagedIsKeyed(s, ps, payload, m, hash);
    ShownIsArchivable(t, s);
    ExtractedIsStaged(host, s, ps, payload, t);
  }

  lemma {:induction false} ExtractedIsStaged(host: Host, s: Files, ps: seq<Placement>, payload: Bytes, t: Forest)
    requires PutAll(Empty, Log(ps, payload)) == Some(s) && Shows(t, s) && AllArchivable(List(t, []))
    ensures Append(t, []) == Some(List(t, []))
    ensures ExtractAll(host, Empty, WriteTar(List(t, []))) == if Taken(host, List(t, [])) then Some(s) else None
  {
    ExtractUndoesAppend(host, t);
    RootStays(Empty, Log(ps, payload));
    var out := ExtractAll(host, Empty, WriteTar(List(t, [])));
    if out.Some? { SameFiles(out.value, s); }
  }

  lemma {:induction false} SameFiles(a: Files, b: Files)
    requires forall q :: Get(a, q) == Get(b, q)
    ensures a == b
  {
    forall q
      ensures (q in a <==> q in b) && (q in a ==> a[q] == b[q])
    {
      assert Get(a, q) == Get(b, q);
    }
  }

  lemma {:induction false} RootStays(fs: Files, ps: seq<Placement>)
    requires Get(fs, []) == Some(DirItem) && PutAll(fs, ps).Some?
    ensures Get(PutAll(fs, ps).value, []) == Some(DirItem)
    decreases |ps|
  {
    if ps != [] {
      var p := ps[0];
      if p.item.DirItem? { DirsStay(fs, p.at); } else { DirsStay(fs, p.at[..|p.at| - 1]); }
      RootStays(Put(fs, p).value, ps[1..]);
    }
  }

  lemma {:induction false} DirsStay(fs: Files, at: Location)
    requires Get(fs, []) == Some(DirItem) && MakeDirs(fs, at).Some?
    ensures Get(MakeDirs(fs, at).value, []) == Some(DirItem)
    decreases |at|
  {
    if at !in fs && at != [] { DirsStay(fs, at[..|at| - 1]); }
  }
}
