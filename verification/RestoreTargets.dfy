/**
 Which archives may be restored onto the registered Vaults.
 */
module RestoreTargets {
  import opened Prelude
  import ArchiveManifest

  /** A Vault as the manifest names it, and as it is registered: identity, slug, content root. */
  datatype Vault = Vault(id: nat, slug: string, root: string)

  datatype Target = Target(formatVersion: nat, keyVersions: seq<nat>, schemaVersion: nat, vaults: seq<Vault>)

  datatype Refusal = UnsupportedFormat | KeyVersionMismatch | StateUnavailable | SchemaTooNew | TargetMismatch

  predicate DistinctIds(vaults: seq<Vault>) {
    forall i, j :: 0 <= i < j < |vaults| ==> vaults[i].id != vaults[j].id
  }

  /** The first Vault of the manifest with this identity. */
  method Find(vaults: seq<Vault>, id: nat) returns (found: Option<Vault>)
    ensures found.Some? ==>
              exists i :: 0 <= i < |vaults| && vaults[i] == found.value && found.value.id == id && (forall j :: 0 <= j < i ==> vaults[j].id != id)
    ensures found.None? ==> forall i :: 0 <= i < |vaults| ==> vaults[i].id != id
  {
    for i := 0 to |vaults|
      invariant forall j :: 0 <= j < i ==> vaults[j].id != id
    {
      if vaults[i].id == id { return Some(vaults[i]); }
    }
    found := None;
  }

  lemma {:induction false} DistinctCountOne(vaults: seq<Vault>, v: Vault)
    requires DistinctIds(vaults)
    ensures multiset(vaults)[v] <= 1
  {
    if vaults != [] {
      var last, rest := vaults[|vaults| - 1], vaults[..|vaults| - 1];
      assert vaults == rest + [last];
      DistinctCountOne(rest, v);
      if v == last { assert v !in rest; }
    }
  }

  /** Distinct Vaults that all occur in a list of the same length are that list, up to order. */
  lemma Pigeonhole(registered: seq<Vault>, manifest: seq<Vault>)
    requires DistinctIds(registered) && |registered| == |manifest|
    requires forall i :: 0 <= i < |registered| ==> registered[i] in manifest
    ensures multiset(registered) == multiset(manifest)
  {
    forall v
      ensures multiset(registered)[v] <= multiset(manifest)[v]
    {
      DistinctCountOne(registered, v);
      if v in registered { assert v in manifest && v in multiset(manifest); }
    }
    assert |multiset(manifest) - multiset(registered)| == 0;
  }

  /** In a list of Vaults with distinct identities, up to order, the first with an identity is the only one. */
  lemma SameIdSameVault(registered: seq<Vault>, manifest: seq<Vault>, v: Vault, w: Vault)
    requires DistinctIds(registered) && multiset(registered) == multiset(manifest)
    requires v in registered && w in manifest && v.id == w.id
    ensures v == w
  {
    assert w in multiset(manifest);
    assert w in registered;
  }

  /** No identity occurs twice in an accepted manifest. */
  lemma {:induction false} PermutationKeepsDistinct(registered: seq<Vault>, manifest: seq<Vault>)
    requires DistinctIds(registered) && multiset(registered) == multiset(manifest)
    ensures DistinctIds(manifest)
  {
    forall i, j | 0 <= i < j < |manifest|
      ensures manifest[i].id != manifest[j].id
    {
      if manifest[i].id == manifest[j].id {
        assert manifest[i] in multiset(manifest) && manifest[i] in registered;
        SameIdSameVault(registered, manifest, manifest[i], manifest[j]);
        TwiceCountsTwo(manifest, i, j);
        DistinctCountOne(registered, manifest[i]);
        assert false;
      }
    }
  }

  lemma TwiceCountsTwo(vaults: seq<Vault>, i: nat, j: nat)
    requires i < j < |vaults| && vaults[i] == vaults[j]
    ensures multiset(vaults)[vaults[i]] >= 2
  {
    assert vaults == vaults[..j] + [vaults[j]] + vaults[j + 1..];
    assert vaults[..j][i] == vaults[i] && vaults[i] in vaults[..j];
  }

  /** The manifest's Vaults are the registered ones, up to order: each once, with equal slug and root. */
  ghost predicate Accepts(target: Target, keys: set<nat>, schema: nat, registered: seq<Vault>) {
    && target.formatVersion == 1
    && (forall k :: k in target.keyVersions ==> k in keys)
    && target.schemaVersion <= schema
    && multiset(target.vaults) == multiset(registered)
  }

  /** validate_targets, with registered Vaults that have distinct identities. */
  method ValidateTargets(target: Target, keys: set<nat>, schema: Option<nat>, registered: Option<seq<Vault>>)
    returns (r: Result<(), Refusal>)
    requires registered.Some? ==> DistinctIds(registered.value)
    ensures r.Ok? <==> schema.Some? && registered.Some? && Accepts(target, keys, schema.value, registered.value)
    ensures r.Ok? ==> DistinctIds(target.vaults)
    ensures r.Err? ==> r.error == if target.formatVersion != 1 then UnsupportedFormat
                                  else if exists k :: k in target.keyVersions && k !in keys then KeyVersionMismatch
                                  else if schema.None? then StateUnavailable
                                  else if target.schemaVersion > schema.value then SchemaTooNew
                                  else if registered.None? then StateUnavailable
                                  else TargetMismatch
  {
    if target.formatVersion != ArchiveManifest.FORMAT_VERSION { return Err(UnsupportedFormat); }
    if exists k :: k in target.keyVersions && k !in keys { return Err(KeyVersionMismatch); }
    if schema.None? { return Err(StateUnavailable); }
    if target.schemaVersion > schema.value { return Err(SchemaTooNew); }
    if registered.None? { return Err(StateUnavailable); }
    var matches := MatchVaults(target.vaults, registered.value);
    if !matches { return Err(TargetMismatch); }
    PermutationKeepsDistinct(registered.value, target.vaults);
    r := Ok(());
  }

  /** The length check and the loop over the registered Vaults. */
  method MatchVaults(manifest: seq<Vault>, registered: seq<Vault>) returns (matches: bool)
    requires DistinctIds(registered)
    ensures matches <==> multiset(manifest) == multiset(registered)
  {
    if |registered| != |manifest| {
      assert |multiset(registered)| != |multiset(manifest)|;
      return false;
    }
    for i := 0 to |registered|
      invariant forall j :: 0 <= j < i ==> registered[j] in manifest
    {
      var found := Find(manifest, registered[i].id);
      if found.None? || found.value.slug != registered[i].slug || found.value.root != registered[i].root {
        NotAPermutation(manifest, registered, registered[i], found);
        return false;
      }
    }
    Pigeonhole(registered, manifest);
    matches := true;
  }

  lemma NotAPermutation(manifest: seq<Vault>, registered: seq<Vault>, v: Vault, found: Option<Vault>)
    requires DistinctIds(registered) && v in registered
    requires found.Some? ==> found.value in manifest && found.value.id == v.id && found.value != v
    requires found.None? ==> forall i :: 0 <= i < |manifest| ==> manifest[i].id != v.id
    ensures multiset(manifest) != multiset(registered)
  {
    if multiset(manifest) == multiset(registered) {
      assert v in multiset(registered) && v in manifest;
      if found.Some? { SameIdSameVault(registered, manifest, v, found.value); }
      assert false;
    }
  }
}
