/**
 What the archive and manifest validators accept, said over the characters of paths instead of
 through the validators' own predicates.
 */
module ArchiveGrammar {
  import opened Prelude
  import opened PathText
  import opened PathSegments
  import opened ArchiveTree
  import opened ArchiveManifest
  import opened ArchiveValidate
  import opened ArchiveExtractable

  /** Some component of the path is `..`. */
  ghost predicate Climbs(path: Bytes) { exists i: nat, j: nat :: SegmentAt(path, i, j) && Text(path[i..j]) == ".." }

  /** The first component of the path is this name. */
  ghost predicate StartsAt(path: Bytes, name: string) { exists j: nat :: SegmentAt(path, 0, j) && Text(path[..j]) == name }

  lemma {:induction false} TextIs(s: Bytes, t: Bytes)
    ensures Text(s) == Text(t) <==> s == t
  {
    if Text(s) == Text(t) {
      assert forall i :: 0 <= i < |s| ==> s[i] as char == Text(s)[i] && t[i] as char == Text(t)[i];
    }
  }

  lemma {:induction false} RootTexts()
    ensures Text(STATE) == "state" && Text(VAULTS) == "vaults" && Text(HISTORY) == "history" && Text(CONTENT) == "content"
    ensures Text([DOT, DOT]) == ".."
  {
    hide Text;
  }

  lemma {:induction false} ManifestText()
    ensures Text(MANIFEST) == "manifest.json"
  {
    hide Text;
  }

  lemma {:induction false} SnapshotText()
    ensures Text(SNAPSHOT) == "mcp-vault.sqlite3"
  {
    hide Text;
  }

  lemma {:induction false} TextAppend(a: Bytes, b: Bytes)
    ensures Text(a + b) == Text(a) + Text(b)
  {
    hide Text;
  }

  lemma {:induction false} FixedTexts()
    ensures Text(STATE) == "state" && Text(VAULTS) == "vaults" && Text(HISTORY) == "history" && Text(CONTENT) == "content"
    ensures Text(MANIFEST) == "manifest.json" && Text(STATE_PATH) == "state/mcp-vault.sqlite3"
    ensures Text([DOT, DOT]) == ".." && Text([SLASH]) == "/"
    ensures Text(VAULTS + [SLASH]) == "vaults/" && Text(HISTORY + [SLASH]) == "history/"
  {
    hide Text;
    RootTexts();
    ManifestText();
    SnapshotText();
    TextAppend(STATE + [SLASH], SNAPSHOT);
    TextAppend(STATE, [SLASH]);
    TextAppend(VAULTS, [SLASH]);
    TextAppend(HISTORY, [SLASH]);
    assert Text([SLASH]) == "/";
    assert "state" + "/" + "mcp-vault.sqlite3" == "state/mcp-vault.sqlite3";
    assert "vaults" + "/" == "vaults/" && "history" + "/" == "history/";
  }

  lemma {:induction false} ClimbingMeans(path: Bytes)
    ensures Climbs(path) <==> [DOT, DOT] in Split(path)
  {
    hide Split, Text;
    FixedTexts();
    if i: nat, j: nat :| SegmentAt(path, i, j) && Text(path[i..j]) == ".." {
      SegmentIsPiece(path, i, j);
      TextIs(path[i..j], [DOT, DOT]);
    }
    if [DOT, DOT] in Split(path) {
      var k :| 0 <= k < |Split(path)| && Split(path)[k] == [DOT, DOT];
      var i, j := PieceIsSegment(path, k);
    }
  }

  lemma {:induction false} StartMeans(path: Bytes, name: Bytes)
    ensures StartsAt(path, Text(name)) <==> Split(path)[0] == name
  {
    hide Split, Text;
    if j: nat :| SegmentAt(path, 0, j) && Text(path[..j]) == Text(name) {
      SegmentIsPiece(path, 0, j);
      assert path[0..j] == path[..j];
      TextIs(path[..j], name);
    }
    if Split(path)[0] == name {
      var i, j := PieceIsSegment(path, 0);
      if i > 0 { LaterSegment(path, 0, i); }
      assert path[..j] == name;
    }
  }

  /** Below one of the three roots or the manifest itself, and nowhere above. */
  ghost predicate Inside(path: Bytes) {
    && !Climbs(path) && '\\' !in Text(path)
    && (Text(path) == "manifest.json" || StartsAt(path, "state") || StartsAt(path, "vaults") || StartsAt(path, "history"))
  }

  /** archive_path_string. */
  lemma {:induction false} ArchivePathMeans(path: Bytes)
    ensures ArchivePath(path) <==> Inside(path)
  {
    hide Split, Text, Climbs, StartsAt;
    FixedTexts();
    ClimbingMeans(path);
    StartMeans(path, STATE);
    StartMeans(path, VAULTS);
    StartMeans(path, HISTORY);
    TextIs(path, MANIFEST);
    BackslashMeans(path);
    FirstPiece(path);
    if path == MANIFEST {
      assert forall i :: 0 <= i < |MANIFEST| ==> MANIFEST[i] != SLASH;
      SplitPlain(MANIFEST);
    }
  }

  lemma {:induction false} BackslashMeans(path: Bytes)
    ensures '\\' in Text(path) <==> BACKSLASH in path
  {
    hide Text;
    if i :| 0 <= i < |path| && path[i] == BACKSLASH { assert Text(path)[i] == '\\'; }
  }

  /** The first piece of an absolute path is empty, and so is that of the empty path. */
  lemma {:induction false} FirstPiece(path: Bytes)
    ensures path == [] || path[0] == SLASH ==> Split(path)[0] == []
  {
  }

  /** The checks on one artifact of the manifest. */
  lemma {:induction false} ArtifactMeans(a: Artifact, limits: Limits)
    ensures ArtifactOk(a, limits)
            <==> && a.size <= limits.maxEntryBytes && IsDigest(a.sha256) && !Climbs(a.path)
                 && (Text(a.path) == "state/mcp-vault.sqlite3" || "vaults/" <= Text(a.path) || "history/" <= Text(a.path))
  {
    hide Split, Text, Climbs;
    FixedTexts();
    ClimbingMeans(a.path);
    DigestMeans(a.sha256);
    TextIs(a.path, STATE_PATH);
    PrefixMeans(VAULTS + [SLASH], a.path);
    PrefixMeans(HISTORY + [SLASH], a.path);
    if a.path == STATE_PATH || VAULTS + [SLASH] <= a.path || HISTORY + [SLASH] <= a.path { RootsStartPlainly(a.path); }
  }

  /** Sixty-four hexadecimal digits. */
  ghost predicate IsDigest(s: Bytes) { |s| == 64 && forall i :: 0 <= i < 64 ==> s[i] as char in "0123456789abcdefABCDEF" }

  lemma {:induction false} DigestMeans(s: Bytes)
    ensures HexDigest(s) <==> IsDigest(s)
  {
    forall i | 0 <= i < |s|
      ensures HexValue(s[i]).Some? <==> s[i] as char in "0123456789abcdefABCDEF"
    {
      DigitMeans(s[i]);
    }
  }

  lemma {:induction false} DigitMeans(b: Byte)
    ensures HexValue(b).Some? <==> b as char in "0123456789abcdefABCDEF"
  {
    var digits := "0123456789abcdefABCDEF";
    if 0x30 <= b <= 0x39 { assert digits[b - 0x30] == b as char; }
    if 0x61 <= b <= 0x66 { assert digits[b - 0x61 + 10] == b as char; }
    if 0x41 <= b <= 0x46 { assert digits[b - 0x41 + 16] == b as char; }
  }

  lemma {:induction false} PrefixMeans(prefix: Bytes, path: Bytes)
    ensures prefix <= path <==> Text(prefix) <= Text(path)
  {
    hide Text;
    if Text(prefix) <= Text(path) {
      assert forall i :: 0 <= i < |prefix| ==> prefix[i] as char == Text(prefix)[i] && path[i] as char == Text(path)[i];
    }
  }

  lemma {:induction false} RootsStartPlainly(path: Bytes)
    requires path == STATE_PATH || VAULTS + [SLASH] <= path || HISTORY + [SLASH] <= path
    ensures path != [] && path[0] != SLASH && Split(path)[0] != [DOT]
  {
    hide Split;
    var root := if path == STATE_PATH then STATE else if VAULTS + [SLASH] <= path then VAULTS else HISTORY;
    assert path == Sep(root, path[|root| + 1..]);
    SplitSep(root, path[|root| + 1..]);
    assert forall i :: 0 <= i < |root| ==> root[i] != SLASH;
    SplitPlain(root);
  }

  /** The prefixes that isolate one Vault's artifacts. */
  lemma {:induction false} PrefixTexts(id: Name)
    ensures Text(ContentPrefix(id)) == "vaults/" + Text(id) + "/content/"
    ensures Text(HistoryPrefix(id)) == "history/" + Text(id) + "/"
  {
    hide Text;
    FixedTexts();
    TextAppend(VAULTS + [SLASH], id);
    TextAppend(VAULTS + [SLASH] + id, [SLASH]);
    TextAppend(VAULTS + [SLASH] + id + [SLASH], CONTENT);
    TextAppend(VAULTS + [SLASH] + id + [SLASH] + CONTENT, [SLASH]);
    TextAppend(HISTORY + [SLASH], id);
    TextAppend(HISTORY + [SLASH] + id, [SLASH]);
    assert "/content/" == "/" + "content" + "/";
  }

  /** Format 1, a version, a schema, and key versions that ascend from above zero. */
  lemma {:induction false} HeaderMeans(m: Manifest)
    ensures HeaderOk(m)
            <==> && m.formatVersion == 1 && |m.serviceVersion| > 0 && m.schemaVersion >= 1
                 && |m.keyVersions| > 0 && m.keyVersions[0] >= 1
                 && forall i, j :: 0 <= i < j < |m.keyVersions| ==> m.keyVersions[i] < m.keyVersions[j]
  {
    if HeaderOk(m) { Ascending(m.keyVersions, |m.keyVersions|); }
  }

  lemma {:induction false} Ascending(v: seq<nat>, n: nat)
    requires n <= |v| && forall i :: 0 < i < |v| ==> v[i - 1] < v[i]
    ensures forall i, j :: 0 <= i < j < n ==> v[i] < v[j]
  {
    if n > 1 {
      Ascending(v, n - 1);
      assert v[n - 2] < v[n - 1];
    }
  }

  // ----- Entries and Vaults -----

  /** The checks on one entry; the manifest has at most four megabytes. */
  lemma {:induction false} EntryMeans(e: TarEntry, limits: Limits)
    ensures EntryOk(e, limits)
            <==> && Inside(e.path) && (e.kind == Regular || e.kind == Directory)
                 && (e.kind == Regular ==> |e.payload| <= limits.maxEntryBytes)
                 && (e.kind == Regular && Text(e.path) == "manifest.json" ==> |e.payload| <= 4_194_304)
  {
    hide ArchivePath, Text, Climbs, StartsAt;
    ArchivePathMeans(e.path);
    FixedTexts();
    TextIs(e.path, MANIFEST);
  }

  /** A thousand entries more than files are allowed, within 64 bits. */
  lemma {:induction false} EntryLimitMeans(limits: Limits)
    ensures EntryLimit(limits) == if limits.maxEntries + 1000 >= 0x1_0000_0000_0000_0000 then 0xffff_ffff_ffff_ffff else limits.maxEntries + 1000
  {
  }

  /** The checks on one Vault of the manifest. */
  lemma {:induction false} VaultMeans(v: VaultPart)
    ensures Isolated(v)
            <==> && |v.slug| > 0 && |v.root| > 0
                 && (forall i :: 0 <= i < |v.content| ==> "vaults/" + Text(v.id) + "/content/" <= Text(v.content[i].path))
                 && (forall i :: 0 <= i < |v.history| ==> "history/" + Text(v.id) + "/" <= Text(v.history[i].path))
  {
    hide Text;
    PrefixTexts(v.id);
    forall a: Artifact
      ensures ContentPrefix(v.id) <= a.path <==> "vaults/" + Text(v.id) + "/content/" <= Text(a.path)
      ensures HistoryPrefix(v.id) <= a.path <==> "history/" + Text(v.id) + "/" <= Text(a.path)
    {
      PrefixMeans(ContentPrefix(v.id), a.path);
      PrefixMeans(HistoryPrefix(v.id), a.path);
    }
  }

  /** No accepted entry and no artifact of an accepted manifest leaves the archive. */
  lemma {:induction false} NothingClimbs(entries: seq<TarEntry>, archiveBytes: nat, limits: Limits,
                                         decode: Bytes -> Option<Manifest>, hash: Hash, m: Manifest)
    requires Accepts(entries, archiveBytes, limits, decode, hash, m)
    ensures forall i :: 0 <= i < |entries| ==> Inside(entries[i].path)
    ensures forall i :: 0 <= i < |All(m)| ==> !Climbs(All(m)[i].path)
  {
    hide EntryOk, ArtifactOk, Climbs, Inside, All, Exact;
    forall i | 0 <= i < |entries|
      ensures Inside(entries[i].path)
    {
      EntryMeans(entries[i], limits);
    }
    forall i | 0 <= i < |All(m)|
      ensures !Climbs(All(m)[i].path)
    {
      ArtifactMeans(All(m)[i], limits);
    }
  }

  lemma {:induction false} CountingMembers(parts: seq<Bytes>)
    ensures forall k :: 0 <= k < |Counting(parts)| ==> Counting(parts)[k] in parts && Counting(parts)[k] != [] && Counting(parts)[k] != [DOT]
    ensures parts != [] && parts[0] != [] && parts[0] != [DOT] ==> Counting(parts) != [] && Counting(parts)[0] == parts[0]
    decreases |parts|
  {
    if parts != [] { CountingMembers(parts[1..]); }
  }

  /** A name that stays in its directory. */
  predicate StaysBelow(name: Name) { name != [] && NoSlash(name) && Text(name) != "." && Text(name) != ".." }

  lemma {:induction false} NamesStayBelow(path: Bytes)
    requires ArchivePath(path)
    ensures forall k :: 0 <= k < |NamesOf(path)| ==> StaysBelow(NamesOf(path)[k])
    ensures NamesOf(path) != [] && Text(NamesOf(path)[0]) in {"state", "vaults", "history", "manifest.json"}
  {
    hide Split, Text;
    CountingMembers(Split(path));
    SplitPieces(path);
    FixedTexts();
    assert Text([DOT]) == ".";
    if path == MANIFEST { SplitPlain(path); }
    forall k | 0 <= k < |NamesOf(path)|
      ensures StaysBelow(NamesOf(path)[k])
    {
      TextIs(NamesOf(path)[k], [DOT]);
      TextIs(NamesOf(path)[k], [DOT, DOT]);
    }
  }

  /** Extraction stays inside its directory: below the four allowed names, and by names only. */
  lemma {:induction false} ExtractionStaysInside(host: Host, entries: seq<TarEntry>, q: Location)
    requires (forall i :: 0 <= i < |entries| ==> ArchivePath(entries[i].path)) && ExtractAll(host, Fresh, entries).Some?
    requires q in ExtractAll(host, Fresh, entries).value && q != []
    ensures Text(q[0]) in {"state", "vaults", "history", "manifest.json"} && forall k :: 0 <= k < |q| ==> StaysBelow(q[k])
  {
    hide ArchivePath, ExtractAll, NamesOf, Text, StaysBelow, Free, Sane;
    ExtractExact(host, entries);
    assert Reached(Placements(entries), q);
    var j :| 0 <= j < |entries| && q <= Placements(entries)[j].at;
    NamesStayBelow(entries[j].path);
    assert forall k :: 0 <= k < |q| ==> q[k] == NamesOf(entries[j].path)[k];
  }

  // ----- How a path ends -----

  /** The last component is this. */
  ghost predicate EndsAt(path: Bytes, name: string) { exists i: nat :: SegmentAt(path, i, |path|) && Text(path[i..]) == name }

  lemma {:induction false} LastPiece(path: Bytes) returns (i: nat)
    ensures SegmentAt(path, i, |path|) && path[i..] == Split(path)[|Split(path)| - 1]
  {
    hide Split;
    var k := |Split(path)| - 1;
    var j;
    i, j := PieceIsSegment(path, k);
    if j < |path| {
      assert path[..j + 1][j] == SLASH;
      LaterSegment(path, i, j + 1);
      PiecesAndSlashes(path);
      assert multiset(path) == multiset(path[..j + 1]) + multiset(path[j + 1..]) by { assert path == path[..j + 1] + path[j + 1..]; }
    }
  }

  lemma {:induction false} OneLast(path: Bytes, i: nat, j: nat)
    requires SegmentAt(path, i, |path|) && SegmentAt(path, j, |path|)
    ensures i == j
  {
  }

  lemma {:induction false} EndMeans(path: Bytes, name: Bytes)
    ensures EndsAt(path, Text(name)) <==> Split(path)[|Split(path)| - 1] == name
  {
    hide Split, Text;
    var last := LastPiece(path);
    TextIs(path[last..], name);
    if i: nat :| SegmentAt(path, i, |path|) && Text(path[i..]) == Text(name) {
      OneLast(path, i, last);
    }
  }

  /** A file can be created under a path exactly when that ends in neither a slash nor a component `.`. */
  lemma {:induction false} FileEndMeans(path: Bytes)
    ensures EndsInName(path) <==> !EndsAt(path, "") && !EndsAt(path, ".")
  {
    hide Split, EndsAt;
    EndMeans(path, []);
    EndMeans(path, [DOT]);
    assert Text([]) == "" && Text([DOT]) == ".";
  }

  /** The operating system takes exactly paths without a NUL character that the host does not find too long. */
  lemma {:induction false} OpensMeans(host: Host, path: Bytes)
    ensures Opens(host, path) <==> '\0' !in Text(path) && host(path)
  {
    hide Text;
    if i :| 0 <= i < |path| && path[i] == NUL { assert Text(path)[i] == '\0'; }
  }

  /** The path without the slashes at its end. */
  function Stripped(path: Bytes): Bytes {
    if path != [] && path[|path| - 1] == SLASH then Stripped(path[..|path| - 1]) else path
  }

  /** A directory is only looked up, not created, exactly when its path without slashes at the end ends in a component `.`. */
  lemma {:induction false} DirectoryEndMeans(path: Bytes)
    ensures EndsInDot(path) <==> EndsAt(Stripped(path), ".")
    decreases |path|
  {
    hide Split, EndsAt;
    if path != [] && path[|path| - 1] == SLASH {
      var front := path[..|path| - 1];
      assert path == Sep(front, []);
      SplitSep(front, []);
      SplitPlain([]);
      assert Split(path)[..|Split(path)| - 1] == Split(front);
      DirectoryEndMeans(front);
    } else {
      EndMeans(path, [DOT]);
      assert Text([DOT]) == ".";
      var i := LastPiece(path);
      if path == [] { SplitPlain([]); }
    }
  }
}
