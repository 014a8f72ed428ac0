/** Archives that the validator accepts and extraction refuses: which ones, for any list of content paths. */
module ArchiveUnextractable {
  import opened Prelude
  import opened PathText
  import opened ArchiveTree
  import opened ArchiveManifest
  import opened ArchiveValidate
  import opened ArchiveExtractable

  // ----- A Vault of empty files -----

  function EmptyFiles(paths: seq<Bytes>, digest: Bytes): (items: seq<Artifact>)
    ensures |items| == |paths| && forall i :: 0 <= i < |items| ==> items[i] == Artifact(paths[i], 0, digest)
    decreases |paths|
  {
    if paths == [] then [] else [Artifact(paths[0], 0, digest)] + EmptyFiles(paths[1..], digest)
  }

  function EmptyEntries(paths: seq<Bytes>): (entries: seq<TarEntry>)
    ensures |entries| == |paths| && forall i :: 0 <= i < |entries| ==> entries[i] == TarEntry(paths[i], Regular, [])
    decreases |paths|
  {
    if paths == [] then [] else [TarEntry(paths[0], Regular, [])] + EmptyEntries(paths[1..])
  }

  /** The manifest of one Vault whose content is an empty file per path; `digest` is the hash of nothing. */
  function OfPaths(id: Name, paths: seq<Bytes>, digest: Bytes): Manifest {
    Manifest(FORMAT_VERSION, [0x31], 1, Artifact(STATE_PATH, 0, digest), [1],
             [VaultPart(id, id, id, EmptyFiles(paths, digest), [])], |paths| + 1, 0)
  }

  /** Its archive: the snapshot, the files in the order of the paths, and the encoded manifest. */
  function Archived(paths: seq<Bytes>, payload: Bytes): seq<TarEntry> {
    [TarEntry(STATE_PATH, Regular, [])] + EmptyEntries(paths) + [TarEntry(MANIFEST, Regular, payload)]
  }

  /** A path that the manifest of a Vault may list as content and the archive may hold. */
  predicate ContentPath(id: Name, p: Bytes) { ContentPrefix(id) <= p && ArchivePath(p) }

  predicate ContentPaths(id: Name, paths: seq<Bytes>) {
    && (forall i :: 0 <= i < |paths| ==> ContentPath(id, paths[i]))
    && (forall i, j :: 0 <= i < j < |paths| ==> paths[i] != paths[j])
  }

  /** The limits leave room for the paths and for the manifest. */
  predicate Roomy(limits: Limits, paths: seq<Bytes>, payload: Bytes) {
    && |paths| + 1 <= limits.maxEntries && |paths| + 2 <= EntryLimit(limits)
    && |payload| <= MAX_MANIFEST_BYTES && |payload| <= limits.maxEntryBytes && |payload| <= limits.maxTotalBytes
  }

  lemma {:induction false} ContentIsApart(id: Name, p: Bytes)
    requires ContentPath(id, p)
    ensures p != STATE_PATH && p != MANIFEST && STATE_PATH != MANIFEST && VAULTS + [SLASH] <= p && Plain(p)
  {
    assert p[0] == ContentPrefix(id)[0] == VAULTS[0] && STATE_PATH[0] == STATE[0];
  }

  lemma {:induction false} FixedPathsAreAccepted()
    ensures ArchivePath(STATE_PATH) && ArchivePath(MANIFEST) && Plain(STATE_PATH)
  {
    hide Proper;
    ManifestIsProper();
    PathOfLocation([MANIFEST]);
    SnapshotIsProper();
    PathOfLocation([STATE, SNAPSHOT]);
  }

  lemma {:induction false} AllOfPaths(id: Name, paths: seq<Bytes>, digest: Bytes)
    ensures All(OfPaths(id, paths, digest)) == [Artifact(STATE_PATH, 0, digest)] + EmptyFiles(paths, digest)
    ensures Sum(All(OfPaths(id, paths, digest))) == 0
  {
    var parts := OfPaths(id, paths, digest).vaults;
    assert parts[..0] == [];
    assert Parts(parts) == Parts([]) + parts[0].content + parts[0].history;
    NothingSums(All(OfPaths(id, paths, digest)));
  }

  lemma {:induction false} NothingSums(items: seq<Artifact>)
    requires forall i :: 0 <= i < |items| ==> items[i].size == 0
    ensures Sum(items) == 0
    decreases |items|
  {
    if items != [] { NothingSums(items[..|items| - 1]); }
  }

  lemma {:induction false} OfPathsIsValid(id: Name, paths: seq<Bytes>, digest: Bytes, payload: Bytes, limits: Limits)
    requires ContentPaths(id, paths) && id != [] && HexDigest(digest) && Roomy(limits, paths, payload)
    ensures Valid(OfPaths(id, paths, digest), limits)
  {
    hide ArchivePath, Sum, Parts, Plain;
    FixedPathsAreAccepted();
    AllOfPaths(id, paths, digest);
    var m := OfPaths(id, paths, digest);
    var items := All(m);
    forall i | 0 <= i < |items|
      ensures ArtifactOk(items[i], limits) && (0 < i ==> items[i].path == paths[i - 1] && items[i].path != STATE_PATH)
    {
      if i > 0 { ContentIsApart(id, paths[i - 1]); }
    }
    assert DistinctPaths(items);
    assert Isolated(m.vaults[0]);
  }

  lemma {:induction false} NothingWeighs(entries: seq<TarEntry>)
    requires forall i :: 0 <= i < |entries| ==> entries[i].payload == []
    ensures RegularBytes(entries) == 0
    decreases |entries|
  {
    if entries != [] { NothingWeighs(entries[..|entries| - 1]); }
  }

  lemma {:induction false} ArchivedIsOk(id: Name, paths: seq<Bytes>, payload: Bytes, limits: Limits)
    requires ContentPaths(id, paths) && Roomy(limits, paths, payload)
    ensures EntriesOk(Archived(paths, payload), limits)
  {
    hide ArchivePath, Plain;
    FixedPathsAreAccepted();
    var entries := Archived(paths, payload);
    var n := |entries| - 1;
    assert entries[0].path == STATE_PATH && entries[n].path == MANIFEST && STATE_PATH[0] == STATE[0];
    forall i | 0 < i < n
      ensures entries[i] == TarEntry(paths[i - 1], Regular, []) && EntryOk(entries[i], limits)
      ensures entries[i].path != STATE_PATH && entries[i].path != MANIFEST
    {
      ContentIsApart(id, paths[i - 1]);
    }
    assert DistinctEntries(entries);
    assert entries[..n] == [TarEntry(STATE_PATH, Regular, [])] + EmptyEntries(paths);
    NothingWeighs(entries[..n]);
    assert EntryOk(entries[0], limits) && EntryOk(entries[n], limits);
  }

  lemma {:induction false} ArchivedIsExact(id: Name, paths: seq<Bytes>, payload: Bytes, hash: Hash)
    ensures Exact(Archived(paths, payload), OfPaths(id, paths, hash([])), hash)
  {
    hide All, EmptyFiles, EmptyEntries;
    AllOfPaths(id, paths, hash([]));
    var items, entries := All(OfPaths(id, paths, hash([]))), Archived(paths, payload);
    forall i | 0 <= i < |items|
      ensures HasFile(entries, items[i].path, Digest(items[i].size, items[i].sha256), hash)
    {
      assert entries[i].path == items[i].path && entries[i].payload == [];
    }
    forall i | 0 <= i < |entries|
      ensures entries[i].path == MANIFEST || entries[i].path in PathSet(items)
    {
      assert i < |items| ==> entries[i].path == items[i].path;
    }
  }

  // ----- Accepted always, extracted only if -----

  /** The locations of the paths leave each other free, and a file can be created under each path. */
  predicate Workable(host: Host, paths: seq<Bytes>) {
    && (forall i, j :: 0 <= i < |paths| && 0 <= j < |paths| && i != j ==> !(NamesOf(paths[i]) <= NamesOf(paths[j])))
    && (forall i :: 0 <= i < |paths| ==> Opens(host, paths[i]) && EndsInName(paths[i]))
  }

  /**
   Any distinct content paths make an archive that is accepted, with any manifest that encodes
   them and any limits with room; it cannot be extracted unless the paths are workable.
   */
  lemma {:induction false} AcceptedButNotExtractable(host: Host, id: Name, paths: seq<Bytes>, payload: Bytes, archiveBytes: nat, limits: Limits,
                                  decode: Bytes -> Option<Manifest>, hash: Hash)
    requires ContentPaths(id, paths) && id != [] && Roomy(limits, paths, payload) && archiveBytes <= limits.maxArchiveBytes
    requires HexDigest(hash([])) && decode(payload) == Some(OfPaths(id, paths, hash([])))
    ensures Accepts(Archived(paths, payload), archiveBytes, limits, decode, hash, OfPaths(id, paths, hash([])))
    ensures ExtractAll(host, Fresh, Archived(paths, payload)).Some? ==> Workable(host, paths)
  {
    hide ArchivePath, EntriesOk, Valid, Exact, ExtractAll;
    var entries := Archived(paths, payload);
    OfPathsIsValid(id, paths, hash([]), payload, limits);
    ArchivedIsOk(id, paths, payload, limits);
    ArchivedIsExact(id, paths, payload, hash);
    AcceptedExtractsIff(host, entries, limits);
    assert entries[|paths| + 1] == TarEntry(MANIFEST, Regular, payload) && HasManifest(entries, payload);
    if PrefixFree(entries) && AllCreatable(host, entries) { WorkableArchive(host, paths, payload); }
  }

  lemma {:induction false} WorkableArchive(host: Host, paths: seq<Bytes>, payload: Bytes)
    requires PrefixFree(Archived(paths, payload)) && AllCreatable(host, Archived(paths, payload))
    ensures Workable(host, paths)
  {
    var entries := Archived(paths, payload);
    assert forall i :: 0 <= i < |paths| ==> entries[i + 1] == TarEntry(paths[i], Regular, []);
    forall i, j | 0 <= i < |paths| && 0 <= j < |paths| && i != j
      ensures !(NamesOf(paths[i]) <= NamesOf(paths[j]))
    {
      assert !(NamesOf(entries[i + 1].path) <= NamesOf(entries[j + 1].path));
    }
    forall i | 0 <= i < |paths|
      ensures Opens(host, paths[i]) && EndsInName(paths[i])
    {
      assert Creatable(host, entries, i + 1);
    }
  }

  // ----- Paths that are not workable -----

  /** `vaults/i/content/` and then these parts, some of which may be empty. */
  function Below(id: Name, rest: seq<Bytes>): Bytes
    requires rest != []
  {
    ContentPrefix(id) + Unsplit(rest)
  }

  /** What the validator asks of a part: nothing about NUL, an empty part or `.`. */
  predicate PartOk(part: Bytes) { NoSlash(part) && BACKSLASH !in part && part != [DOT, DOT] }

  lemma {:induction false} BelowIsContent(id: Name, rest: seq<Bytes>)
    requires rest != [] && Proper(id) && BACKSLASH !in id && forall i :: 0 <= i < |rest| ==> PartOk(rest[i])
    ensures ContentPath(id, Below(id, rest)) && Split(Below(id, rest)) == [VAULTS, id, CONTENT] + rest
  {
    var l := [VAULTS, id, CONTENT] + rest;
    assert l[1..] == [id, CONTENT] + rest && l[1..][1..] == [CONTENT] + rest && l[1..][1..][1..] == rest;
    assert Unsplit(l[1..][1..]) == CONTENT + [SLASH] + Unsplit(rest);
    assert Unsplit(l[1..]) == id + [SLASH] + (CONTENT + [SLASH] + Unsplit(rest));
    assert Unsplit(l) == Below(id, rest);
    SplitUnsplit(l);
    UnsplitBytes(l, BACKSLASH);
    UnsplitStart(l);
  }

  lemma {:induction false} CountingSkips(a: seq<Bytes>, b: seq<Bytes>)
    ensures Counting(a + [[]] + b) == Counting(a + b)
    decreases |a|
  {
    if a == [] {
      assert (a + [[]] + b)[1..] == b && a + b == b;
    } else {
      assert (a + [[]] + b)[1..] == a[1..] + [[]] + b && (a + b)[1..] == a[1..] + b;
      CountingSkips(a[1..], b);
    }
  }

  /** For example `vaults/i/content/a//b` and `vaults/i/content/a/b`: two content paths, one location. */
  lemma {:induction false} DoubledSlashIsOneLocation(host: Host, id: Name, a: Name, b: Name)
    requires Proper(id) && BACKSLASH !in id && ProperAll([a, b])
    ensures var paths := [Below(id, [a, [], b]), Below(id, [a, b])];
            ContentPaths(id, paths) && !Workable(host, paths)
  {
    hide ArchivePath;
    assert ProperAll([a, b]) && [a, b][0] == a && [a, b][1] == b;
    var front := [VAULTS, id, CONTENT, a];
    BelowIsContent(id, [a, [], b]);
    BelowIsContent(id, [a, b]);
    CountingSkips(front, [b]);
    assert front + [[]] + [b] == [VAULTS, id, CONTENT] + [a, [], b] && front + [b] == [VAULTS, id, CONTENT] + [a, b];
    assert |[VAULTS, id, CONTENT] + [a, [], b]| != |[VAULTS, id, CONTENT] + [a, b]|;
    var paths := [Below(id, [a, [], b]), Below(id, [a, b])];
    assert paths[0] != paths[1] && NamesOf(paths[0]) <= NamesOf(paths[1]);
  }

  /** One file is enough: `vaults/i/content/a/`, `vaults/i/content/a/.`, or a name with a NUL byte. */
  lemma {:induction false} OnePathIsEnough(host: Host, id: Name, a: Name, last: Bytes)
    requires Proper(id) && BACKSLASH !in id && PartOk(a) && PartOk(last)
    requires last == [] || last == [DOT] || NUL in last
    ensures var paths := [Below(id, [a, last])];
            ContentPaths(id, paths) && !Workable(host, paths)
  {
    hide ArchivePath;
    var rest := [a, last];
    assert rest[0] == a && rest[1] == last;
    BelowIsContent(id, rest);
    var path := Below(id, rest);
    assert ([VAULTS, id, CONTENT] + rest)[4] == last;
    if NUL in last { UnsplitKeeps(rest, 1, NUL); }
    assert [path][0] == path;
  }

  lemma {:induction false} UnsplitKeeps(parts: seq<Bytes>, i: nat, b: Byte)
    requires i < |parts| && b in parts[i]
    ensures b in Unsplit(parts)
    decreases |parts|
  {
    if i > 0 { UnsplitKeeps(parts[1..], i - 1, b); }
  }
}
