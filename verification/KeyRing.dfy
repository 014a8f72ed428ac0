/** Versioned master keys and the re-encryption of every stored secret. */
module KeyRing {
  import opened Prelude
  import opened SecretFraming

  const KEY_BYTES := 32
  const NONCE_BYTES := 24

  datatype AuthError = MasterKeyUnavailable | SecretUnavailable | Cryptography | StateUnavailable

  /** MasterKeyRing. */
  datatype Ring = Ring(keys: map<nat, Bytes>, current: nat, persistent: bool) {
    predicate Valid() {
      current in keys && 0 !in keys && forall v :: v in keys ==> |keys[v]| == 32
    }
  }

  /** The later entry wins, as in a map that is filled from left to right. */
  function LastWins(versions: seq<(nat, Bytes)>): map<nat, Bytes>
    decreases |versions|
  {
    if versions == [] then map[]
    else
      var n := |versions| - 1;
      LastWins(versions[..n])[versions[n].0 := versions[n].1]
  }

  predicate Usable(entry: (nat, Bytes)) { entry.0 != 0 && |entry.1| == KEY_BYTES }

  /** MasterKeyRing::from_versions. */
  method FromVersions(current: nat, versions: seq<(nat, Bytes)>) returns (r: Result<Ring, AuthError>)
    ensures r.Ok? <==> current != 0 && (forall i :: 0 <= i < |versions| ==> versions[i].0 != 0 && |versions[i].1| == 32)
                       && exists i :: 0 <= i < |versions| && versions[i].0 == current
    ensures r.Ok? ==> r.value.Valid() && r.value.current == current && r.value.persistent
    ensures r.Ok? ==> forall v :: v in r.value.keys <==> exists i :: 0 <= i < |versions| && versions[i].0 == v
    ensures r.Ok? ==> forall i :: 0 <= i < |versions| && (forall j :: i < j < |versions| ==> versions[j].0 != versions[i].0) ==>
                                    r.value.keys[versions[i].0] == versions[i].1
  {
    if current == 0 { return Err(MasterKeyUnavailable); }
    var keys: map<nat, Bytes> := map[];
    var i := 0;
    while i < |versions|
      invariant 0 <= i <= |versions|
      invariant forall j :: 0 <= j < i ==> Usable(versions[j])
      invariant keys == LastWins(versions[..i])
      invariant 0 !in keys && forall v :: v in keys ==> |keys[v]| == KEY_BYTES
      invariant forall v :: v in keys <==> exists j :: 0 <= j < i && versions[j].0 == v
    {
      if !Usable(versions[i]) { return Err(MasterKeyUnavailable); }
      assert versions[..i + 1][..i] == versions[..i];
      keys := keys[versions[i].0 := versions[i].1];
      i := i + 1;
    }
    assert versions[..i] == versions;
    if current !in keys { return Err(MasterKeyUnavailable); }
    LastWinsMeans(versions);
    r := Ok(Ring(keys, current, true));
  }

  /** An entry that no later one replaces is the one in the map. */
  lemma {:induction false} LastWinsMeans(versions: seq<(nat, Bytes)>)
    ensures forall i :: 0 <= i < |versions| && (forall j :: i < j < |versions| ==> versions[j].0 != versions[i].0) ==>
                          versions[i].0 in LastWins(versions) && LastWins(versions)[versions[i].0] == versions[i].1
    decreases |versions|
  {
    if versions != [] {
      var n := |versions| - 1;
      var front := versions[..n];
      LastWinsMeans(front);
      forall i | 0 <= i < |versions| && (forall j :: i < j < |versions| ==> versions[j].0 != versions[i].0)
        ensures versions[i].0 in LastWins(versions) && LastWins(versions)[versions[i].0] == versions[i].1
      {
        if i < n {
          assert versions[n].0 != versions[i].0 && front[i] == versions[i];
          assert forall j :: i < j < |front| ==> front[j] == versions[j];
        }
      }
    }
  }

  /** MasterKeyRing::with_rotated_key. */
  function WithRotatedKey(ring: Ring, version: nat, key: Bytes): Result<Ring, AuthError> {
    if version <= ring.current || |key| != KEY_BYTES then Err(MasterKeyUnavailable)
    else Ok(Ring(ring.keys[version := key], version, ring.persistent))
  }

  /** Every key of the old ring is still there. */
  predicate Extends(next: Ring, ring: Ring) {
    forall v :: v in ring.keys ==> v in next.keys && next.keys[v] == ring.keys[v]
  }

  /**
   Rotation takes a newer version and a key of 32 bytes. The rotated ring is valid, has the new key as
   its current one and differs from the old ring in that version only, so it keeps every old key
   exactly when that version was not in the ring with another key.
   */
  lemma {:induction false} RotatedRingExtendsIff(ring: Ring, version: nat, key: Bytes)
    requires ring.Valid()
    ensures WithRotatedKey(ring, version, key).Ok? <==> version > ring.current && |key| == 32
    ensures WithRotatedKey(ring, version, key).Ok? ==>
              var next := WithRotatedKey(ring, version, key).value;
              && next.Valid() && next.current == version && next.keys[version] == key && next.persistent == ring.persistent
              && next.keys.Keys == ring.keys.Keys + {version}
              && (forall v :: v in ring.keys && v != version ==> next.keys[v] == ring.keys[v])
              && (Extends(next, ring) <==> version in ring.keys ==> ring.keys[version] == key)
  {
  }

  /** A ring may hold versions above its current one, and rotating onto such a version replaces that key. */
  lemma RotationCanReplaceAKey()
    ensures exists ring: Ring, version: nat, key: Bytes ::
              ring.Valid() && WithRotatedKey(ring, version, key).Ok?
              && !Extends(WithRotatedKey(ring, version, key).value, ring)
  {
    var key, other := seq(KEY_BYTES, i => 1), seq(KEY_BYTES, i => 2);
    var ring := Ring(map[1 := key, 2 := key], 1, true);
    assert ring.Valid();
    assert other[0] != key[0];
    RotatedRingExtendsIff(ring, 2, other);
    assert WithRotatedKey(ring, 2, other).Ok? && 2 in ring.keys;
  }

  // ----- Encryption -----

  /** An authenticated cipher: key, nonce, associated data, text. */
  datatype Cipher = Cipher(
    seal: (Bytes, Bytes, Bytes, Bytes) -> Option<Bytes>,
    open: (Bytes, Bytes, Bytes, Bytes) -> Option<Bytes>)

  /** What was sealed opens to what was sealed. */
  ghost predicate Opens(c: Cipher) {
    forall k, n, a, m :: c.seal(k, n, a, m).Some? ==> c.open(k, n, a, c.seal(k, n, a, m).value) == Some(m)
  }

  datatype Secret = Secret(
    purpose: Bytes, ownerType: Bytes, ownerId: Option<Bytes>, hint: Option<Bytes>,
    version: nat, nonce: Bytes, ciphertext: Bytes)
  {
    function Aad(): Bytes { Frame([purpose, ownerType, OrEmpty(ownerId)]) }

    /** Everything that re-encryption must leave alone. */
    predicate SameIdentity(that: Secret) {
      purpose == that.purpose && ownerType == that.ownerType && ownerId == that.ownerId && hint == that.hint
    }
  }

  /** MasterKeyRing::decrypt of a stored record. */
  function Decrypt(c: Cipher, ring: Ring, s: Secret): Result<Bytes, AuthError> {
    if |s.nonce| != NONCE_BYTES || s.version !in ring.keys then Err(SecretUnavailable)
    else match c.open(ring.keys[s.version], s.nonce, s.Aad(), s.ciphertext)
      case Some(m) => Ok(m)
      case None => Err(SecretUnavailable)
  }

  /** MasterKeyRing::encrypt, as a new version of the record. */
  function Encrypt(c: Cipher, ring: Ring, s: Secret, nonce: Bytes, plain: Bytes): Result<Secret, AuthError> {
    if ring.current !in ring.keys then Err(SecretUnavailable)
    else match c.seal(ring.keys[ring.current], nonce, s.Aad(), plain)
      case Some(ct) => Ok(s.(version := ring.current, nonce := nonce, ciphertext := ct))
      case None => Err(Cryptography)
  }

  /**
   What encryption binds. A record is sealed under the ring's current key, its own nonce and the framed
   purpose, owner type and owner id, and it opens only under what it was sealed with.
   */
  lemma {:induction false} SealedUnderIdentity(c: Cipher, ring: Ring, s: Secret, nonce: Bytes, plain: Bytes)
    ensures Encrypt(c, ring, s, nonce, plain).Ok?
            <==> ring.current in ring.keys
                 && c.seal(ring.keys[ring.current], nonce, Frame([s.purpose, s.ownerType, OrEmpty(s.ownerId)]), plain).Some?
    ensures Encrypt(c, ring, s, nonce, plain).Ok? ==>
              var t := Encrypt(c, ring, s, nonce, plain).value;
              && t == s.(version := ring.current, nonce := nonce, ciphertext := t.ciphertext)
              && c.seal(ring.keys[ring.current], nonce, Frame([s.purpose, s.ownerType, OrEmpty(s.ownerId)]), plain) == Some(t.ciphertext)
    ensures Decrypt(c, ring, s) == Ok(plain)
            <==> && |s.nonce| == 24 && s.version in ring.keys
                 && c.open(ring.keys[s.version], s.nonce, Frame([s.purpose, s.ownerType, OrEmpty(s.ownerId)]), s.ciphertext) == Some(plain)
  {
  }

  /** Records share associated data exactly when they agree on purpose, owner type and owner id. */
  lemma {:induction false} AadBindsIdentity(s: Secret, t: Secret)
    requires Short([s.purpose, s.ownerType, OrEmpty(s.ownerId)]) && Short([t.purpose, t.ownerType, OrEmpty(t.ownerId)])
    ensures s.Aad() == t.Aad() <==> s.purpose == t.purpose && s.ownerType == t.ownerType && OrEmpty(s.ownerId) == OrEmpty(t.ownerId)
  {
    AssociatedDataInjective(s.purpose, s.ownerType, s.ownerId, t.purpose, t.ownerType, t.ownerId);
  }

  /** A record that decrypts under the old ring decrypts to the same text under an extending ring. */
  lemma ExtensionKeepsMeaning(c: Cipher, ring: Ring, next: Ring, s: Secret)
    requires Extends(next, ring) && Decrypt(c, ring, s).Ok?
    ensures Decrypt(c, next, s) == Decrypt(c, ring, s)
  {
  }

  lemma EncryptThenDecrypt(c: Cipher, ring: Ring, s: Secret, nonce: Bytes, plain: Bytes)
    requires Opens(c) && |nonce| == NONCE_BYTES && Encrypt(c, ring, s, nonce, plain).Ok?
    ensures var t := Encrypt(c, ring, s, nonce, plain).value;
            Decrypt(c, ring, t) == Ok(plain) && t.version == ring.current && t.SameIdentity(s)
  {
  }

  // ----- Rotation of every stored secret -----

  /** What an update statement may do: succeed, succeed and then fail to read the row back, or fail. */
  datatype UpdateFault = Applied | AppliedUnread | NotApplied

  type SecretId = nat

  class SecretStore {
    var rows: map<SecretId, Secret>

    constructor (rows: map<SecretId, Secret>)
      ensures this.rows == rows
    {
      this.rows := rows;
    }

    /** update_secret_ciphertext. */
    method Update(id: SecretId, s: Secret, fault: UpdateFault) returns (ok: bool)
      modifies this
      ensures ok <==> id in old(rows) && fault.Applied?
      ensures rows == if id in old(rows) && !fault.NotApplied? then old(rows)[id := s] else old(rows)
    {
      ok := id in rows && fault.Applied?;
      if id in rows && !fault.NotApplied? { rows := rows[id := s]; }
    }
  }

  ghost function Stale(rows: map<SecretId, Secret>, version: nat): set<SecretId> {
    set id | id in rows && rows[id].version != version
  }

  /** `ids` lists every row once, as `SELECT ... ORDER BY id` does. */
  ghost predicate Lists(ids: seq<SecretId>, rows: map<SecretId, Secret>) {
    && (forall i :: 0 <= i < |ids| ==> ids[i] in rows)
    && (forall i, j :: 0 <= i < j < |ids| ==> ids[i] != ids[j])
    && (forall id :: id in rows ==> id in ids)
  }

  /** Nothing is lost between two states of the store: same rows, same identities, same meaning under the next ring. */
  ghost predicate MeaningKept(c: Cipher, next: Ring, before: map<SecretId, Secret>, after: map<SecretId, Secret>) {
    && after.Keys == before.Keys
    && forall id :: id in before ==>
                      && after[id].SameIdentity(before[id])
                      && Decrypt(c, next, after[id]) == Decrypt(c, next, before[id])
                      && (after[id] == before[id] || after[id].version == next.current)
  }

  lemma ReplaceKeepsMeaning(c: Cipher, ring: Ring, next: Ring, before: map<SecretId, Secret>,
                            rows: map<SecretId, Secret>, id: SecretId, nonce: Bytes, plain: Bytes)
    requires Opens(c) && Extends(next, ring) && MeaningKept(c, next, before, rows) && id in rows && |nonce| == NONCE_BYTES
    requires rows[id] == before[id] && Decrypt(c, ring, rows[id]) == Ok(plain)
    requires Encrypt(c, next, rows[id], nonce, plain).Ok?
    ensures MeaningKept(c, next, before, rows[id := Encrypt(c, next, rows[id], nonce, plain).value])
  {
  }

  /** The ring has its current key and sealing never fails. */
  ghost predicate Seals(c: Cipher, ring: Ring) {
    ring.current in ring.keys && forall k, n, a, m :: c.seal(k, n, a, m).Some?
  }

  /** Every stale record decrypts under the old ring. */
  ghost predicate Readable(c: Cipher, ring: Ring, rows: map<SecretId, Secret>, version: nat) {
    forall id :: id in rows && rows[id].version != version ==> Decrypt(c, ring, rows[id]).Ok?
  }

  /** One turn of the rotation loop on a stale record. */
  method RotateOne(store: SecretStore, c: Cipher, ring: Ring, next: Ring, id: SecretId,
                   nonce: Bytes, fault: UpdateFault, ghost before: map<SecretId, Secret>)
    returns (r: Option<AuthError>)
    requires Opens(c) && Extends(next, ring) && |nonce| == NONCE_BYTES
    requires MeaningKept(c, next, before, store.rows) && id in store.rows && store.rows[id] == before[id]
    modifies store
    ensures MeaningKept(c, next, before, store.rows)
    ensures store.rows.Keys == before.Keys
    ensures forall k :: k in before && k != id ==> store.rows[k] == old(store.rows)[k]
    ensures r.None? ==> store.rows[id].version == next.current
    ensures Seals(c, next) && Decrypt(c, ring, before[id]).Ok? && fault.Applied? ==> r.None?
  {
    var record := store.rows[id];
    var plain := Decrypt(c, ring, record);
    if plain.Err? { return Some(plain.error); }
    var renewed := Encrypt(c, next, record, nonce, plain.value);
    if renewed.Err? { return Some(renewed.error); }
    ReplaceKeepsMeaning(c, ring, next, before, store.rows, id, nonce, plain.value);
    var ok := store.Update(id, renewed.value, fault);
    r := if ok then None else Some(StateUnavailable);
  }

  /** The first `i` rows are at the new version, the others as before; `done` are the stale rows among the first. */
  ghost predicate Rotating(ids: seq<SecretId>, before: map<SecretId, Secret>, rows: map<SecretId, Secret>, version: nat,
                           i: nat, done: set<SecretId>)
    requires i <= |ids|
  {
    && rows.Keys == before.Keys && (forall j :: 0 <= j < |ids| ==> ids[j] in rows)
    && (forall j :: i <= j < |ids| ==> rows[ids[j]] == before[ids[j]] && ids[j] !in done)
    && (forall j :: 0 <= j < i ==> rows[ids[j]].version == version && (ids[j] in Stale(before, version) ==> ids[j] in done))
    && done <= Stale(before, version)
    && (Stale(before, version) == {} ==> rows == before)
  }

  lemma RotatingStarts(ids: seq<SecretId>, rows: map<SecretId, Secret>, version: nat, c: Cipher, next: Ring)
    requires Lists(ids, rows)
    ensures Rotating(ids, rows, rows, version, 0, {}) && MeaningKept(c, next, rows, rows)
  {
  }

  /** A fresh row is passed over. */
  lemma RotatingSkips(ids: seq<SecretId>, before: map<SecretId, Secret>, rows: map<SecretId, Secret>, version: nat, i: nat,
                      done: set<SecretId>)
    requires i < |ids| && Rotating(ids, before, rows, version, i, done) && rows[ids[i]].version == version
    ensures Rotating(ids, before, rows, version, i + 1, done)
  {
  }

  /** A stale row was replaced. */
  lemma RotatingReplaces(ids: seq<SecretId>, before: map<SecretId, Secret>, rows: map<SecretId, Secret>,
                         rows': map<SecretId, Secret>, version: nat, i: nat, done: set<SecretId>)
    requires i < |ids| && Lists(ids, before) && Rotating(ids, before, rows, version, i, done)
    requires rows[ids[i]].version != version && rows'.Keys == rows.Keys && rows'[ids[i]].version == version
    requires forall k :: k in rows && k != ids[i] ==> rows'[k] == rows[k]
    ensures ids[i] in Stale(before, version) && ids[i] !in done
    ensures Rotating(ids, before, rows', version, i + 1, done + {ids[i]})
  {
  }

  lemma RotatingEnds(ids: seq<SecretId>, before: map<SecretId, Secret>, rows: map<SecretId, Secret>, version: nat,
                     done: set<SecretId>)
    requires Lists(ids, before) && Rotating(ids, before, rows, version, |ids|, done)
    ensures done == Stale(before, version) && Stale(rows, version) == {}
    ensures done == {} ==> rows == before
  {
    forall id | id in before
      ensures id in ids
    {
    }
  }

  /**
   AuthService::rotate_secrets. On every exit, including every early error and updates
   that were applied but reported as failed, each record still decrypts under the next
   ring to what it decrypted to before. Success leaves every record at the new version and
   counts exactly the stale ones, so a second run rotates none.
   */
  method RotateSecrets(store: SecretStore, c: Cipher, ring: Ring, next: Ring,
                       ids: seq<SecretId>, nonces: nat -> Bytes, faults: nat -> UpdateFault)
    returns (r: Result<nat, AuthError>)
    requires Opens(c) && Extends(next, ring)
    requires Lists(ids, store.rows)
    requires forall i: nat :: |nonces(i)| == NONCE_BYTES
    modifies store
    ensures MeaningKept(c, next, old(store.rows), store.rows)
    ensures r.Ok? ==> r.value == |Stale(old(store.rows), next.current)| && Stale(store.rows, next.current) == {}
    ensures Stale(old(store.rows), next.current) == {} ==> r == Ok(0) && store.rows == old(store.rows)
    ensures Seals(c, next) && Readable(c, ring, old(store.rows), next.current) && (forall i: nat :: faults(i).Applied?) ==> r.Ok?
  {
    hide Decrypt, Opens, Extends, MeaningKept, Rotating, Lists;
    ghost var before, done: set<SecretId> := store.rows, {};
    RotatingStarts(ids, before, next.current, c, next);
    var rotated := 0;
    var i := 0;
    while i < |ids|
      invariant 0 <= i <= |ids| && rotated == |done|
      invariant MeaningKept(c, next, before, store.rows) && Rotating(ids, before, store.rows, next.current, i, done)
    {
      var id := ids[i];
      RotatingMeans(ids, before, store.rows, next.current, i, done);
      if store.rows[id].version != next.current {
        ghost var rows := store.rows;
        var failed := RotateOne(store, c, ring, next, id, nonces(i), faults(i), before);
        if failed.Some? { return Err(failed.value); }
        RotatingReplaces(ids, before, rows, store.rows, next.current, i, done);
        rotated := rotated + 1;
        done := done + {id};
      } else {
        RotatingSkips(ids, before, store.rows, next.current, i, done);
      }
      i := i + 1;
    }
    RotatingEnds(ids, before, store.rows, next.current, done);
    r := Ok(rotated);
  }

  lemma RotatingMeans(ids: seq<SecretId>, before: map<SecretId, Secret>, rows: map<SecretId, Secret>, version: nat, i: nat,
                      done: set<SecretId>)
    requires i < |ids| && Rotating(ids, before, rows, version, i, done)
    ensures ids[i] in rows && rows.Keys == before.Keys && rows[ids[i]] == before[ids[i]]
    ensures Stale(before, version) == {} ==> rows[ids[i]].version == version
  {
    if rows[ids[i]].version != version { assert ids[i] in Stale(before, version); }
  }
}
