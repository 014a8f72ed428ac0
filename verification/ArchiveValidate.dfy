/**
 The archive validator: it accepts an archive exactly when its regular files are the
 manifest and the manifest's artifacts, each once, with the declared size and hash.
 */
module ArchiveValidate {
  import opened Prelude
  import opened ArchiveTree
  import opened ArchiveManifest

  /** Size and hash of a regular file. */
  datatype Digest = Digest(size: nat, sha256: Bytes)

  function EntryLimit(limits: Limits): nat {
    if limits.maxEntries + 1000 > U64_MAX then U64_MAX else limits.maxEntries + 1000
  }

  // ----- What an acceptable list of entries is -----

  predicate EntryOk(e: TarEntry, limits: Limits) {
    && ArchivePath(e.path)
    && (e.kind.Regular? || e.kind.Directory?)
    && (e.kind.Regular? ==> |e.payload| <= limits.maxEntryBytes)
    && (e.kind.Regular? && e.path == MANIFEST ==> |e.payload| <= MAX_MANIFEST_BYTES)
  }

  function RegularBytes(entries: seq<TarEntry>): nat {
    if entries == [] then 0
    else RegularBytes(entries[..|entries| - 1]) + Weight(entries[|entries| - 1])
  }

  function Weight(e: TarEntry): nat { if e.kind.Regular? then |e.payload| else 0 }

  function EntryPaths(entries: seq<TarEntry>): set<Bytes> { set i | 0 <= i < |entries| :: entries[i].path }

  predicate DistinctEntries(entries: seq<TarEntry>) {
    forall i, j :: 0 <= i < j < |entries| ==> entries[i].path != entries[j].path
  }

  predicate EntriesOk(entries: seq<TarEntry>, limits: Limits) {
    && |entries| <= EntryLimit(limits)
    && (forall i :: 0 <= i < |entries| ==> EntryOk(entries[i], limits))
    && DistinctEntries(entries)
    && RegularBytes(entries) <= limits.maxTotalBytes
  }

  /** There is a regular entry with this path, size and hash. */
  predicate HasFile(entries: seq<TarEntry>, path: Bytes, d: Digest, hash: Hash) {
    exists i :: 0 <= i < |entries| && entries[i].kind.Regular? && entries[i].path == path
                && d == Digest(|entries[i].payload|, hash(entries[i].payload))
  }

  /** The regular files are the manifest and its artifacts, with the declared sizes and hashes. */
  ghost predicate Exact(entries: seq<TarEntry>, m: Manifest, hash: Hash) {
    && (forall i :: 0 <= i < |entries| && entries[i].kind.Regular? ==>
                      entries[i].path == MANIFEST || entries[i].path in PathSet(All(m)))
    && (forall i :: 0 <= i < |All(m)| ==> HasFile(entries, All(m)[i].path, Digest(All(m)[i].size, All(m)[i].sha256), hash))
  }

  predicate HasManifest(entries: seq<TarEntry>, payload: Bytes) { TarEntry(MANIFEST, Regular, payload) in entries }

  // ----- Scanning -----

  datatype Scan = Scan(paths: set<Bytes>, files: map<Bytes, Digest>, manifest: Option<Bytes>, total: nat)

  predicate ScannedPaths(s: Scan, entries: seq<TarEntry>) {
    && s.paths == EntryPaths(entries)
    && s.total == RegularBytes(entries)
    && s.files.Keys <= s.paths
  }

  predicate ScannedFiles(files: map<Bytes, Digest>, entries: seq<TarEntry>, hash: Hash) {
    && (forall i :: 0 <= i < |entries| && entries[i].kind.Regular? ==>
                      entries[i].path in files && files[entries[i].path] == Digest(|entries[i].payload|, hash(entries[i].payload)))
    && (forall p :: p in files ==> HasFile(entries, p, files[p], hash))
  }

  predicate ScannedManifest(s: Scan, entries: seq<TarEntry>) {
    && (s.manifest.Some? ==> HasManifest(entries, s.manifest.value))
    && (s.manifest.None? ==> forall i :: 0 <= i < |entries| ==> !(entries[i].kind.Regular? && entries[i].path == MANIFEST))
  }

  predicate Scanned(s: Scan, entries: seq<TarEntry>, hash: Hash) {
    ScannedPaths(s, entries) && ScannedFiles(s.files, entries, hash) && ScannedManifest(s, entries)
  }

  lemma PathsSnoc(s: Scan, next: Scan, entries: seq<TarEntry>, e: TarEntry)
    requires ScannedPaths(s, entries)
    requires next.paths == s.paths + {e.path} && next.total == s.total + Weight(e) && next.files.Keys <= s.files.Keys + {e.path}
    ensures ScannedPaths(next, entries + [e])
  {
    var longer := entries + [e];
    assert longer[..|entries|] == entries && longer[|entries|] == e;
    forall p | p in s.paths
      ensures p in EntryPaths(longer)
    {
      var i :| 0 <= i < |entries| && entries[i].path == p;
      assert longer[i].path == p;
    }
  }

  lemma FilesSnoc(files: map<Bytes, Digest>, entries: seq<TarEntry>, e: TarEntry, hash: Hash)
    requires ScannedFiles(files, entries, hash) && forall i :: 0 <= i < |entries| ==> entries[i].path != e.path
    ensures ScannedFiles(if e.kind.Regular? then files[e.path := Digest(|e.payload|, hash(e.payload))] else files, entries + [e], hash)
  {
    var longer := entries + [e];
    var next := if e.kind.Regular? then files[e.path := Digest(|e.payload|, hash(e.payload))] else files;
    assert longer[|entries|] == e;
    forall p | p in next
      ensures HasFile(longer, p, next[p], hash)
    {
      if p in files && p != e.path {
        var i :| 0 <= i < |entries| && entries[i].kind.Regular? && entries[i].path == p && files[p] == Digest(|entries[i].payload|, hash(entries[i].payload));
        assert longer[i] == entries[i];
      }
    }
  }

  /** The checks that one round makes on an entry. */
  predicate NextOk(entries: seq<TarEntry>, e: TarEntry, limits: Limits) {
    && |entries| + 1 <= EntryLimit(limits) && EntryOk(e, limits) && e.path !in EntryPaths(entries)
    && RegularBytes(entries) + Weight(e) <= limits.maxTotalBytes
  }

  lemma NextIsNecessary(entries: seq<TarEntry>, e: TarEntry, limits: Limits)
    requires EntriesOk(entries + [e], limits)
    ensures NextOk(entries, e, limits)
  {
    var longer := entries + [e];
    assert longer[..|entries|] == entries && longer[|entries|] == e;
    forall i | 0 <= i < |entries|
      ensures entries[i].path != e.path
    {
      assert longer[i].path != longer[|entries|].path;
    }
  }

  lemma NextIsEnough(entries: seq<TarEntry>, e: TarEntry, limits: Limits)
    requires EntriesOk(entries, limits) && NextOk(entries, e, limits)
    ensures EntriesOk(entries + [e], limits)
  {
    var longer := entries + [e];
    assert longer[..|entries|] == entries && longer[|entries|] == e;
    forall i | 0 <= i < |longer|
      ensures EntryOk(longer[i], limits)
    {
      if i < |entries| { assert EntryOk(entries[i], limits); }
    }
    forall i, j | 0 <= i < j < |longer|
      ensures longer[i].path != longer[j].path
    {
      assert longer[i].path in EntryPaths(entries);
    }
  }

  lemma {:induction false} RegularBytesAppend(a: seq<TarEntry>, b: seq<TarEntry>)
    ensures RegularBytes(a + b) == RegularBytes(a) + RegularBytes(b)
    decreases |b|
  {
    if b == [] {
      assert a + b == a;
    } else {
      assert (a + b)[..|a + b| - 1] == a + b[..|b| - 1];
      RegularBytesAppend(a, b[..|b| - 1]);
    }
  }

  lemma EntriesOkPrefix(a: seq<TarEntry>, b: seq<TarEntry>, limits: Limits)
    requires EntriesOk(a + b, limits)
    ensures EntriesOk(a, limits)
  {
    RegularBytesAppend(a, b);
    forall i | 0 <= i < |a|
      ensures EntryOk(a[i], limits)
    {
      assert EntryOk((a + b)[i], limits);
    }
    forall i, j | 0 <= i < j < |a|
      ensures a[i].path != a[j].path
    {
      assert (a + b)[i].path != (a + b)[j].path;
    }
  }

  lemma BadPrefix(entries: seq<TarEntry>, i: nat, limits: Limits)
    requires i <= |entries| && !EntriesOk(entries[..i], limits)
    ensures !EntriesOk(entries, limits)
  {
    assert entries == entries[..i] + entries[i..];
    if EntriesOk(entries, limits) {
      EntriesOkPrefix(entries[..i], entries[i..], limits);
      assert false;
    }
  }

  /** One round of the loop over the tar entries. */
  method ScanOne(s: Scan, e: TarEntry, limits: Limits, hash: Hash, count: nat, ghost entries: seq<TarEntry>)
    returns (r: Option<Scan>)
    requires limits.maxTotalBytes <= U64_MAX && count == |entries|
    requires EntriesOk(entries, limits) && Scanned(s, entries, hash)
    ensures r.Some? <==> EntriesOk(entries + [e], limits)
    ensures r.Some? ==> Scanned(r.value, entries + [e], hash)
  {
    if EntriesOk(entries + [e], limits) { NextIsNecessary(entries, e, limits); }
    if NextOk(entries, e, limits) { NextIsEnough(entries, e, limits); }
    if count + 1 > EntryLimit(limits) || !ArchivePath(e.path) || e.path in s.paths { return None; }
    if e.kind.LinkOrSpecial? { return None; }
    ghost var longer := entries + [e];
    assert longer[|entries|] == e;
    assert forall i :: 0 <= i < |entries| ==> longer[i] == entries[i] && entries[i].path in s.paths;
    FilesSnoc(s.files, entries, e, hash);
    if e.kind.Directory? {
      var next := s.(paths := s.paths + {e.path});
      PathsSnoc(s, next, entries, e);
      return Some(next);
    }
    if !e.kind.Regular? || e.path in s.files || |e.payload| > limits.maxEntryBytes { return None; }
    if s.total + |e.payload| > limits.maxTotalBytes { return None; }
    if e.path == MANIFEST && |e.payload| > MAX_MANIFEST_BYTES { return None; }
    var next := Scan(s.paths + {e.path}, s.files[e.path := Digest(|e.payload|, hash(e.payload))],
                     if e.path == MANIFEST then Some(e.payload) else s.manifest, s.total + |e.payload|);
    PathsSnoc(s, next, entries, e);
    r := Some(next);
  }

  /** The first `i` entries are acceptable and scanned. */
  predicate ScannedUpTo(s: Scan, entries: seq<TarEntry>, i: nat, limits: Limits, hash: Hash)
    requires i <= |entries|
  {
    EntriesOk(entries[..i], limits) && Scanned(s, entries[..i], hash)
  }

  lemma ScanStart(entries: seq<TarEntry>, limits: Limits, hash: Hash)
    ensures ScannedUpTo(Scan({}, map[], None, 0), entries, 0, limits, hash)
  {
  }

  lemma ScanEnd(s: Scan, entries: seq<TarEntry>, limits: Limits, hash: Hash)
    requires ScannedUpTo(s, entries, |entries|, limits, hash)
    ensures EntriesOk(entries, limits) && Scanned(s, entries, hash)
  {
    assert entries[..|entries|] == entries;
  }

  lemma TakeSnoc(entries: seq<TarEntry>, i: nat)
    requires i < |entries|
    ensures entries[..i] + [entries[i]] == entries[..i + 1]
  {
  }

  method ScanNext(s: Scan, entries: seq<TarEntry>, i: nat, limits: Limits, hash: Hash) returns (r: Option<Scan>)
    requires limits.maxTotalBytes <= U64_MAX && i < |entries| && ScannedUpTo(s, entries, i, limits, hash)
    ensures r.Some? ==> ScannedUpTo(r.value, entries, i + 1, limits, hash)
    ensures r.None? ==> !EntriesOk(entries, limits)
  {
    TakeSnoc(entries, i);
    r := ScanOne(s, entries[i], limits, hash, i, entries[..i]);
    if r.None? { BadPrefix(entries, i + 1, limits); }
  }

  /** The loop over the tar entries goes through exactly when they are all acceptable. */
  method ScanAll(entries: seq<TarEntry>, limits: Limits, hash: Hash) returns (r: Option<Scan>)
    requires limits.maxTotalBytes <= U64_MAX
    ensures r.Some? <==> EntriesOk(entries, limits)
    ensures r.Some? ==> Scanned(r.value, entries, hash)
  {
    r := Some(Scan({}, map[], None, 0));
    ScanStart(entries, limits, hash);
    var i := 0;
    while i < |entries|
      invariant 0 <= i <= |entries| && r.Some? && ScannedUpTo(r.value, entries, i, limits, hash)
    {
      r := ScanNext(r.value, entries, i, limits, hash);
      if r.None? { return; }
      i := i + 1;
    }
    ScanEnd(r.value, entries, limits, hash);
  }

  // ----- Comparing with the manifest -----

  function DigestOf(a: Artifact): Digest { Digest(a.size, a.sha256) }

  /** The scanned files are the manifest and the artifacts, with their sizes and hashes. */
  predicate Matches(files: map<Bytes, Digest>, items: seq<Artifact>) {
    && files.Keys == PathSet(items) + {MANIFEST}
    && forall i :: 0 <= i < |items| ==> items[i].path in files && files[items[i].path] == DigestOf(items[i])
  }

  predicate ExpectedOf(expected: map<Bytes, Digest>, items: seq<Artifact>) {
    && expected.Keys == PathSet(items)
    && forall i :: 0 <= i < |items| ==> items[i].path in expected && expected[items[i].path] == DigestOf(items[i])
  }

  /** An artifact's path starts with `s`, `v` or `h`, so it is never the manifest's. */
  lemma ManifestIsNoArtifact(items: seq<Artifact>, limits: Limits)
    requires Sound(items, limits)
    ensures MANIFEST !in PathSet(items)
  {
  }

  lemma SameSize(a: set<Bytes>, b: set<Bytes>)
    requires a <= b && |a| == |b|
    ensures a == b
  {
    assert |b - a| == |b| - |a|;
  }

  method Expect(items: seq<Artifact>) returns (expected: map<Bytes, Digest>)
    requires DistinctPaths(items)
    ensures ExpectedOf(expected, items)
  {
    expected := map[];
    var i := 0;
    while i < |items|
      invariant 0 <= i <= |items| && ExpectedOf(expected, items[..i])
    {
      ExpectStep(expected, items, i);
      expected := expected[items[i].path := DigestOf(items[i])];
      i := i + 1;
    }
    assert items[..i] == items;
  }

  lemma ExpectStep(expected: map<Bytes, Digest>, items: seq<Artifact>, i: nat)
    requires i < |items| && DistinctPaths(items) && ExpectedOf(expected, items[..i])
    ensures items[i].path !in expected
    ensures ExpectedOf(expected[items[i].path := DigestOf(items[i])], items[..i + 1])
  {
  }

  method LookUp(files: map<Bytes, Digest>, expected: map<Bytes, Digest>, items: seq<Artifact>) returns (ok: bool)
    requires ExpectedOf(expected, items)
    ensures ok <==> forall i :: 0 <= i < |items| ==> items[i].path in files && files[items[i].path] == DigestOf(items[i])
  {
    for i := 0 to |items|
      invariant forall j :: 0 <= j < i ==> items[j].path in files && files[items[j].path] == DigestOf(items[j])
    {
      if items[i].path !in files || files[items[i].path] != expected[items[i].path] { return false; }
    }
    ok := true;
  }

  /** The length check and the lookups together say that nothing is missing and nothing is extra. */
  method Compare(files: map<Bytes, Digest>, items: seq<Artifact>) returns (ok: bool)
    requires DistinctPaths(items) && MANIFEST !in PathSet(items)
    ensures ok <==> Matches(files, items)
  {
    var expected := Expect(items);
    ghost var keys := PathSet(items) + {MANIFEST};
    assert |keys| == |expected.Keys| + 1;
    if |files.Keys| != |expected.Keys| + 1 || MANIFEST !in files { return false; }
    ok := LookUp(files, expected, items);
    if ok { SameSize(keys, files.Keys); }
  }

  lemma MatchesIsExact(s: Scan, entries: seq<TarEntry>, m: Manifest, hash: Hash)
    requires Scanned(s, entries, hash) && s.manifest.Some?
    ensures Matches(s.files, All(m)) <==> Exact(entries, m, hash)
  {
  }

  /** A decoded manifest has 64-bit totals. */
  ghost predicate Decoder(decode: Bytes -> Option<Manifest>) {
    forall b :: decode(b).Some? ==> decode(b).value.totalBytes <= U64_MAX
  }

  /** The archive is acceptable, it holds this manifest, and its files are exactly the manifest's. */
  ghost predicate Accepts(entries: seq<TarEntry>, archiveBytes: nat, limits: Limits,
                          decode: Bytes -> Option<Manifest>, hash: Hash, m: Manifest) {
    && archiveBytes <= limits.maxArchiveBytes
    && EntriesOk(entries, limits)
    && (exists payload :: HasManifest(entries, payload) && decode(payload) == Some(m))
    && Valid(m, limits)
    && Exact(entries, m, hash)
  }

  lemma OneManifest(entries: seq<TarEntry>, a: Bytes, b: Bytes)
    requires DistinctEntries(entries) && HasManifest(entries, a) && HasManifest(entries, b)
    ensures a == b
  {
  }

  /** validate_archive_file: the manifest it returns is one that the archive is exact for, and there is one if and only if it accepts. */
  method ValidateArchive(entries: seq<TarEntry>, archiveBytes: nat, limits: Limits, decode: Bytes -> Option<Manifest>,
                         hash: Hash)
    returns (r: Option<Manifest>)
    requires limits.maxTotalBytes <= U64_MAX && Decoder(decode)
    ensures r.Some? ==> Accepts(entries, archiveBytes, limits, decode, hash, r.value)
    ensures r.None? ==> forall m :: !Accepts(entries, archiveBytes, limits, decode, hash, m)
  {
    if archiveBytes > limits.maxArchiveBytes { return None; }
    var scan := ScanAll(entries, limits, hash);
    if scan.None? || scan.value.manifest.None? { return None; }
    var payload := scan.value.manifest.value;
    var m := decode(payload);
    forall other, p | HasManifest(entries, p) && decode(p) == Some(other)
      ensures m == Some(other)
    {
      OneManifest(entries, payload, p);
    }
    if m.None? { return None; }
    var valid := ValidateManifest(m.value, limits);
    if !valid { return None; }
    ManifestIsNoArtifact(All(m.value), limits);
    var same := Compare(scan.value.files, All(m.value));
    MatchesIsExact(scan.value, entries, m.value, hash);
    r := if same then m else None;
  }
}
