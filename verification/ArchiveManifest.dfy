/** The manifest of a backup archive and its validation. */
module ArchiveManifest {
  import opened Prelude
  import opened PathText
  import opened ArchiveTree

  type Hash = Bytes -> Bytes

  const FORMAT_VERSION := 1
  const U64_MAX := 0xffff_ffff_ffff_ffff
  const MAX_MANIFEST_BYTES := 4 * 1024 * 1024
  const CONTENT: Name := [0x63, 0x6f, 0x6e, 0x74, 0x65, 0x6e, 0x74]
  const SNAPSHOT: Name := [0x6d, 0x63, 0x70, 0x2d, 0x76, 0x61, 0x75, 0x6c, 0x74, 0x2e, 0x73, 0x71, 0x6c, 0x69, 0x74, 0x65, 0x33]
  const STATE_PATH: Bytes := Sep(STATE, SNAPSHOT)

  datatype Artifact = Artifact(path: Bytes, size: nat, sha256: Bytes)

  datatype Limits = Limits(maxEntryBytes: nat, maxTotalBytes: nat, maxArchiveBytes: nat, maxEntries: nat)

  datatype VaultPart = VaultPart(id: Name, slug: Bytes, root: Bytes, content: seq<Artifact>, history: seq<Artifact>)

  datatype Manifest = Manifest(
    formatVersion: nat,
    serviceVersion: Bytes,
    schemaVersion: int,
    state: Artifact,
    keyVersions: seq<nat>,
    vaults: seq<VaultPart>,
    fileCount: nat,
    totalBytes: nat)

  lemma ManifestIsProper()
    ensures ProperAll([MANIFEST]) && Rooted([MANIFEST]) && PathOf([MANIFEST]) == MANIFEST
  {
  }

  lemma SnapshotIsProper()
    ensures ProperAll([STATE, SNAPSHOT]) && PathOf([STATE, SNAPSHOT]) == STATE_PATH && ProperAll([STATE])
  {
    assert forall i :: 0 <= i < |SNAPSHOT| ==> SNAPSHOT[i] != SLASH && SNAPSHOT[i] != BACKSLASH && SNAPSHOT[i] != NUL;
    var at: Location := [STATE, SNAPSHOT];
    assert at[1..] == [SNAPSHOT];
    assert Unsplit(at[1..]) == SNAPSHOT;
  }

  // ----- What a valid manifest is -----

  /** The artifacts of the Vaults in order. */
  function Parts(vaults: seq<VaultPart>): seq<Artifact> {
    if vaults == [] then []
    else Parts(vaults[..|vaults| - 1]) + vaults[|vaults| - 1].content + vaults[|vaults| - 1].history
  }

  function All(m: Manifest): seq<Artifact> { [m.state] + Parts(m.vaults) }

  function Sum(items: seq<Artifact>): nat {
    if items == [] then 0 else Sum(items[..|items| - 1]) + items[|items| - 1].size
  }

  predicate DistinctPaths(items: seq<Artifact>) {
    forall i, j :: 0 <= i < j < |items| ==> items[i].path != items[j].path
  }

  function ContentPrefix(id: Name): Bytes { VAULTS + [SLASH] + id + [SLASH] + CONTENT + [SLASH] }

  function HistoryPrefix(id: Name): Bytes { HISTORY + [SLASH] + id + [SLASH] }

  predicate HexDigest(s: Bytes) { |s| == 64 && forall i :: 0 <= i < 64 ==> HexValue(s[i]).Some? }

  predicate ArtifactOk(a: Artifact, limits: Limits) {
    && a.size <= limits.maxEntryBytes && HexDigest(a.sha256)
    && (a.path == STATE_PATH || VAULTS + [SLASH] <= a.path || HISTORY + [SLASH] <= a.path)
    && Plain(a.path)
  }

  predicate AllStartWith(items: seq<Artifact>, prefix: Bytes) {
    forall i :: 0 <= i < |items| ==> prefix <= items[i].path
  }

  predicate Isolated(v: VaultPart) {
    v.slug != [] && v.root != [] && AllStartWith(v.content, ContentPrefix(v.id)) && AllStartWith(v.history, HistoryPrefix(v.id))
  }

  predicate HeaderOk(m: Manifest) {
    && m.formatVersion == FORMAT_VERSION && m.serviceVersion != [] && m.schemaVersion > 0
    && m.keyVersions != [] && 0 !in m.keyVersions
    && forall i :: 0 < i < |m.keyVersions| ==> m.keyVersions[i - 1] < m.keyVersions[i]
  }

  /** Every artifact is acceptable, none occurs twice, and their sizes add up within 64 bits. */
  predicate Sound(items: seq<Artifact>, limits: Limits) {
    && (forall i :: 0 <= i < |items| ==> ArtifactOk(items[i], limits))
    && DistinctPaths(items)
    && Sum(items) <= U64_MAX
  }

  /** The declared totals are the counts and sums of what is declared. */
  predicate Valid(m: Manifest, limits: Limits) {
    && HeaderOk(m)
    && m.fileCount <= limits.maxEntries && m.totalBytes <= limits.maxTotalBytes
    && m.state.path == STATE_PATH
    && (forall i :: 0 <= i < |m.vaults| ==> Isolated(m.vaults[i]))
    && Sound(All(m), limits)
    && m.fileCount == |All(m)| && m.totalBytes == Sum(All(m))
  }

  // ----- The validator -----

  /** The variables that the validator's `add` closure captures. */
  datatype Tally = Tally(paths: set<Bytes>, count: nat, total: nat)

  function PathSet(items: seq<Artifact>): set<Bytes> { set i | 0 <= i < |items| :: items[i].path }

  predicate Tallied(t: Tally, items: seq<Artifact>) {
    t.paths == PathSet(items) && t.count == |items| && t.total == Sum(items)
  }

  lemma SumSnoc(items: seq<Artifact>, a: Artifact)
    ensures Sum(items + [a]) == Sum(items) + a.size
  {
  }

  lemma {:induction false} SumAppend(a: seq<Artifact>, b: seq<Artifact>)
    ensures Sum(a + b) == Sum(a) + Sum(b)
    decreases |b|
  {
    if b == [] {
      assert a + b == a;
    } else {
      var rest := b[..|b| - 1];
      assert a + b == (a + rest) + [b[|b| - 1]];
      SumSnoc(a + rest, b[|b| - 1]);
      SumAppend(a, rest);
    }
  }

  lemma SoundPrefix(a: seq<Artifact>, b: seq<Artifact>, limits: Limits)
    requires Sound(a + b, limits)
    ensures Sound(a, limits)
  {
    SumAppend(a, b);
    forall i | 0 <= i < |a|
      ensures ArtifactOk(a[i], limits)
    {
      assert ArtifactOk((a + b)[i], limits);
    }
    forall i, j | 0 <= i < j < |a|
      ensures a[i].path != a[j].path
    {
      assert (a + b)[i].path != (a + b)[j].path;
    }
  }

  /** Adding one artifact to a sound list keeps it sound exactly when its own checks pass. */
  lemma SoundSnoc(items: seq<Artifact>, a: Artifact, limits: Limits)
    requires Sound(items, limits)
    ensures Sound(items + [a], limits) <==> ArtifactOk(a, limits) && a.path !in PathSet(items) && Sum(items) + a.size <= U64_MAX
    ensures PathSet(items + [a]) == PathSet(items) + {a.path}
  {
    SumSnoc(items, a);
    var longer := items + [a];
    assert longer[|items|] == a;
    forall p | p in PathSet(items)
      ensures p in PathSet(longer)
    {
      var i :| 0 <= i < |items| && items[i].path == p;
      assert longer[i].path == p;
    }
  }

  method Add(t: Tally, a: Artifact, limits: Limits, ghost items: seq<Artifact>) returns (r: Option<Tally>)
    requires Tallied(t, items) && Sound(items, limits)
    ensures r.Some? <==> Sound(items + [a], limits)
    ensures r.Some? ==> Tallied(r.value, items + [a])
  {
    SoundSnoc(items, a, limits);
    SumSnoc(items, a);
    if a.path in t.paths || a.size > limits.maxEntryBytes || |a.sha256| != 64 { return None; }
    if a.path != STATE_PATH && !(VAULTS + [SLASH] <= a.path) && !(HISTORY + [SLASH] <= a.path) { return None; }
    if !Plain(a.path) || !HexDigest(a.sha256) { return None; }
    if t.total + a.size > U64_MAX { return None; }
    r := Some(Tally(t.paths + {a.path}, t.count + 1, t.total + a.size));
  }

  /** The inner loops over a Vault's content and over its history. */
  method AddAll(t: Tally, added: seq<Artifact>, prefix: Bytes, limits: Limits, ghost items: seq<Artifact>)
    returns (r: Option<Tally>)
    requires Tallied(t, items) && Sound(items, limits)
    ensures r.Some? <==> AllStartWith(added, prefix) && Sound(items + added, limits)
    ensures r.Some? ==> Tallied(r.value, items + added)
  {
    r := Some(t);
    var i := 0;
    assert items + added[..0] == items;
    while i < |added|
      invariant 0 <= i <= |added| && r.Some?
      invariant AllStartWith(added[..i], prefix) && Tallied(r.value, items + added[..i]) && Sound(items + added[..i], limits)
    {
      assert items + added[..i + 1] == (items + added[..i]) + [added[i]];
      assert items + added == (items + added[..i + 1]) + added[i + 1..];
      if !(prefix <= added[i].path) { return None; }
      r := Add(r.value, added[i], limits, items + added[..i]);
      if r.None? {
        if Sound(items + added, limits) { SoundPrefix(items + added[..i + 1], added[i + 1..], limits); }
        return;
      }
      i := i + 1;
    }
    assert added[..i] == added;
  }

  lemma PartsStep(vaults: seq<VaultPart>, i: nat)
    requires i < |vaults|
    ensures Parts(vaults[..i + 1]) == Parts(vaults[..i]) + vaults[i].content + vaults[i].history
  {
    assert vaults[..i + 1][..i] == vaults[..i];
  }

  lemma {:induction false} PartsPrefix(vaults: seq<VaultPart>, i: nat) returns (rest: seq<Artifact>)
    requires i <= |vaults|
    ensures Parts(vaults) == Parts(vaults[..i]) + rest
    decreases |vaults| - i
  {
    if i == |vaults| {
      assert vaults[..i] == vaults;
      rest := [];
    } else {
      PartsStep(vaults, i);
      var more := PartsPrefix(vaults, i + 1);
      rest := vaults[i].content + vaults[i].history + more;
    }
  }

  /** The state artifact and those of the first Vaults. */
  function Before(m: Manifest, i: nat): seq<Artifact>
    requires i <= |m.vaults|
  {
    [m.state] + Parts(m.vaults[..i])
  }

  lemma BeforeStep(m: Manifest, i: nat)
    requires i < |m.vaults|
    ensures Before(m, i + 1) == Before(m, i) + m.vaults[i].content + m.vaults[i].history
  {
    PartsStep(m.vaults, i);
  }

  lemma BeforeAll(m: Manifest)
    ensures Before(m, |m.vaults|) == All(m)
  {
    assert m.vaults[..|m.vaults|] == m.vaults;
  }

  /** If the first Vaults already fail, so does the manifest. */
  lemma UnsoundPrefix(m: Manifest, i: nat, limits: Limits)
    requires i <= |m.vaults| && !Sound(Before(m, i), limits)
    ensures !Sound(All(m), limits)
  {
    if Sound(All(m), limits) {
      var rest := PartsPrefix(m.vaults, i);
      assert All(m) == Before(m, i) + rest;
      SoundPrefix(Before(m, i), rest, limits);
      assert false;
    }
  }

  /** One Vault of the manifest: its identity, then its content, then its history. */
  method AddVault(t: Tally, v: VaultPart, limits: Limits, ghost items: seq<Artifact>) returns (r: Option<Tally>)
    requires Tallied(t, items) && Sound(items, limits)
    ensures r.Some? <==> Isolated(v) && Sound(items + v.content + v.history, limits)
    ensures r.Some? ==> Tallied(r.value, items + v.content + v.history)
  {
    if v.slug == [] || v.root == [] { return None; }
    r := AddAll(t, v.content, ContentPrefix(v.id), limits, items);
    if r.None? {
      if Sound(items + v.content + v.history, limits) { SoundPrefix(items + v.content, v.history, limits); }
      return;
    }
    r := AddAll(r.value, v.history, HistoryPrefix(v.id), limits, items + v.content);
  }

  method AddState(m: Manifest, limits: Limits) returns (r: Option<Tally>)
    ensures r.Some? <==> Sound(Before(m, 0), limits)
    ensures r.Some? ==> Tallied(r.value, Before(m, 0))
  {
    var none: seq<Artifact> := [];
    assert none + [m.state] == Before(m, 0);
    r := Add(Tally({}, 0, 0), m.state, limits, none);
  }

  /** The loop over the Vaults, after the state artifact. */
  method AddVaults(m: Manifest, t: Tally, limits: Limits) returns (r: Option<Tally>)
    requires Tallied(t, Before(m, 0)) && Sound(Before(m, 0), limits)
    ensures r.Some? <==> (forall i :: 0 <= i < |m.vaults| ==> Isolated(m.vaults[i])) && Sound(All(m), limits)
    ensures r.Some? ==> Tallied(r.value, All(m))
  {
    r := Some(t);
    var i := 0;
    while i < |m.vaults|
      invariant 0 <= i <= |m.vaults| && r.Some?
      invariant forall j :: 0 <= j < i ==> Isolated(m.vaults[j])
      invariant Tallied(r.value, Before(m, i)) && Sound(Before(m, i), limits)
    {
      ghost var done := Before(m, i);
      BeforeStep(m, i);
      r := AddVault(r.value, m.vaults[i], limits, done);
      if r.None? {
        if Isolated(m.vaults[i]) { UnsoundPrefix(m, i + 1, limits); }
        return;
      }
      i := i + 1;
    }
    BeforeAll(m);
  }

  /** validate_manifest accepts exactly the valid manifests. */
  method ValidateManifest(m: Manifest, limits: Limits) returns (ok: bool)
    requires m.totalBytes <= U64_MAX
    ensures ok <==> Valid(m, limits)
  {
    if !HeaderOk(m) || m.fileCount > limits.maxEntries || m.totalBytes > limits.maxTotalBytes { return false; }
    if m.state.path != STATE_PATH { return false; }
    var state := AddState(m, limits);
    if state.None? {
      UnsoundPrefix(m, 0, limits);
      return false;
    }
    var r := AddVaults(m, state.value, limits);
    ok := r.Some? && r.value.count == m.fileCount && r.value.total == m.totalBytes;
  }
}
