/**
 What a backup takes from its sources: the log of what is staged and the manifest built from it,
 and what both hold, said of the sources themselves.
 */
module BackupSources {
  import opened Prelude
  import opened PathText
  import opened ArchiveTree
  import opened ArchiveManifest
  import opened ArchiveSort
  import opened TreeCopy

  datatype SourceFile = SourceFile(path: Location, bytes: Bytes)

  /** A Vault to back up; `history` is the node at its history root, if there is one. */
  datatype VaultSource = VaultSource(id: Name, slug: Bytes, root: Bytes, content: seq<SourceFile>, history: Option<Node>)

  // ----- What is staged -----

  function ContentRoot(id: Name): Location { [VAULTS, id, CONTENT] }

  function HistoryRoot(id: Name): Location { [HISTORY, id] }

  function ContentLog(id: Name, files: seq<SourceFile>): seq<Placement> {
    if files == [] then []
    else ContentLog(id, files[..|files| - 1]) + [Placement(ContentRoot(id) + files[|files| - 1].path, FileItem(files[|files| - 1].bytes))]
  }

  function HistoryLog(v: VaultSource): seq<Placement> {
    if v.history.None? then [] else ListNode(v.history.value, HistoryRoot(v.id))
  }

  function RootsLog(id: Name): seq<Placement> {
    [Placement(ContentRoot(id), DirItem), Placement(HistoryRoot(id), DirItem)]
  }

  function VaultLog(v: VaultSource): seq<Placement> { ContentLog(v.id, v.content) + RootsLog(v.id) + HistoryLog(v) }

  function VaultsLog(vaults: seq<VaultSource>): seq<Placement> {
    if vaults == [] then [] else VaultsLog(vaults[..|vaults| - 1]) + VaultLog(vaults[|vaults| - 1])
  }

  function StateLog(snapshot: Bytes): seq<Placement> {
    [Placement([STATE], DirItem), Placement([STATE, SNAPSHOT], FileItem(snapshot))]
  }

  function FullLog(vaults: seq<VaultSource>, snapshot: Bytes): seq<Placement> { VaultsLog(vaults) + StateLog(snapshot) }

  function PartOf(v: VaultSource, hash: Hash): VaultPart {
    VaultPart(v.id, v.slug, v.root, ArtifactsOf(ContentLog(v.id, v.content), hash), SortByPath(ArtifactsOf(HistoryLog(v), hash)))
  }

  function PartsOf(vaults: seq<VaultSource>, hash: Hash): seq<VaultPart> {
    if vaults == [] then [] else PartsOf(vaults[..|vaults| - 1], hash) + [PartOf(vaults[|vaults| - 1], hash)]
  }

  /** No history tree holds a link. */
  predicate Linkless(vaults: seq<VaultSource>) {
    forall i :: 0 <= i < |vaults| ==> LinklessVault(vaults[i])
  }

  predicate LinklessVault(v: VaultSource) { v.history.Some? ==> NodeNoLinks(v.history.value) }

  /** A Vault identity, and the paths of a Vault's files, are proper names without backslashes; a directory has no name twice. */
  predicate SourceOk(v: VaultSource) {
    && Proper(v.id) && BACKSLASH !in v.id
    && (forall i :: 0 <= i < |v.content| ==> v.content[i].path != [] && ProperAll(v.content[i].path))
    && (v.history.Some? ==> NodeDistinct(v.history.value))
  }

  lemma RootsAreProper(id: Name)
    requires Proper(id) && BACKSLASH !in id
    ensures ProperAll(ContentRoot(id)) && ProperAll(HistoryRoot(id)) && Rooted(ContentRoot(id)) && Rooted(HistoryRoot(id))
  {
  }

  datatype Header = Header(serviceVersion: Bytes, schemaVersion: int, keyVersions: seq<nat>)

  /** The manifest of what was staged. */
  function ManifestOf(vaults: seq<VaultSource>, snapshot: Bytes, h: Header, hash: Hash): Manifest {
    var items := ArtifactsOf(FullLog(vaults, snapshot), hash);
    Manifest(FORMAT_VERSION, h.serviceVersion, h.schemaVersion, Artifact(PathOf([STATE, SNAPSHOT]), |snapshot|, hash(snapshot)),
             h.keyVersions, PartsOf(vaults, hash), |items|, Sum(items))
  }

  // ----- What the sources hold -----

  /** The node of a Vault's history tree below its root. */
  function HistoryAt(v: VaultSource, q: Location): Option<Node>
    requires q != []
  {
    if v.history.Some? && v.history.value.Dir? then Lookup(v.history.value.children, q) else None
  }

  /** The Vault has this file as content. */
  predicate InContent(v: VaultSource, q: Location, b: Bytes) {
    exists j :: 0 <= j < |v.content| && q == [VAULTS, v.id, CONTENT] + v.content[j].path && b == v.content[j].bytes
  }

  /** The Vault has this file in its history. */
  predicate InHistory(v: VaultSource, q: Location, b: Bytes) {
    |q| > 2 && q[0] == HISTORY && q[1] == v.id && HistoryAt(v, q[2..]) == Some(File(b))
  }

  /** The sources have this file: the snapshot, or one of a Vault. */
  predicate Sourced(vaults: seq<VaultSource>, snapshot: Bytes, q: Location, b: Bytes) {
    || (q == [STATE, SNAPSHOT] && b == snapshot)
    || exists i :: 0 <= i < |vaults| && (InContent(vaults[i], q, b) || InHistory(vaults[i], q, b))
  }

  /** The location is one of the Vault's two roots, or above or below one. */
  predicate BelongsTo(q: Location, id: Name) {
    q <= [VAULTS, id, CONTENT] || [VAULTS, id, CONTENT] <= q || q <= [HISTORY, id] || [HISTORY, id] <= q
  }

  /** The directory holds the Vault: its files at their paths and its history tree as it is, both below roots that are there. */
  ghost predicate HoldsVault(fs: Files, v: VaultSource) {
    && Get(fs, [VAULTS, v.id, CONTENT]) == Some(DirItem) && Get(fs, [HISTORY, v.id]) == Some(DirItem)
    && (forall j :: 0 <= j < |v.content| ==> Get(fs, [VAULTS, v.id, CONTENT] + v.content[j].path) == Some(FileItem(v.content[j].bytes)))
    && (forall q: Location :: q != [] && Get(fs, [VAULTS, v.id, CONTENT] + q).Some? ==>
                                exists j :: 0 <= j < |v.content| && q <= v.content[j].path)
    && (forall q: Location :: q != [] ==> Get(fs, [HISTORY, v.id] + q) == ItemOf(HistoryAt(v, q)))
  }

  /** The directory is a backup of the sources: every Vault, the snapshot, and nothing else. */
  ghost predicate BackupOf(fs: Files, vaults: seq<VaultSource>, snapshot: Bytes) {
    && Get(fs, [STATE, SNAPSHOT]) == Some(FileItem(snapshot))
    && (forall i :: 0 <= i < |vaults| ==> HoldsVault(fs, vaults[i]))
    && (forall q: Location :: q in fs ==> q <= [STATE, SNAPSHOT] || exists i :: 0 <= i < |vaults| && BelongsTo(q, vaults[i].id))
  }

  predicate ApartIds(vaults: seq<VaultSource>) { forall i, j :: 0 <= i < j < |vaults| ==> vaults[i].id != vaults[j].id }
}
