# Verification model of mcp-vault

A Dafny model of the parts of mcp-vault whose correctness spans several operations, with
theorems about every input, every run or every interleaving. `dafny verify dfyconfig.toml`
checks the whole project.

- **Maintenance gate** (`GateProtocol`, `GateCounters`, `GateSafety`, `GateTheorems`,
  `GateAdmission`, `GateAgain`, `GateSequential`). Every atomic load, store and read-modify-write is one step of
  one thread; a schedule is any sequence of events, and an event that is not enabled changes
  nothing. The theorems hold after every schedule; those about leases, after every careful one,
  in which no lease is restored a second time while the gate is owned. `GateSequential` has the methods on mutable cells and
  proves each of them a run of the protocol's steps.
- **Backup and restore.** `RootSwap` is a file system whose calls fail by a script;
  `RestoreApply` and `RestoreAtomic` are the root swap and the whole of `apply_restore`;
  `RestoreExits` is the mode and readiness at every exit of the three backup operations, on the
  gate's own cells; `RestoreWhole` is `restore` from entry to exit;
  `RestoreTargets` is the match of a manifest against the registered Vaults;
  `RestoreStaging` is what extraction leaves for the root swap.
- **Archives.** `ArchiveTree` (trees, entries, extraction), `ArchiveManifest` and
  `ArchiveValidate` (the validators, each proved equal to an order-free definition),
  `ArchiveGrammar` (what they accept, over characters),
  `ArchiveExtractable` and `ArchiveUnextractable` (when an accepted archive can be extracted, and
  which cannot), `TreeCopy`, `ArchiveSort`, `StagingLog`, `BackupSources`, `BackupContents` and
  `ArchiveCreate` (creation, and that it takes everything the sources hold),
  `ArchiveRoundTrip`, `StagingTree` and `CreatedManifest` (creation, validation and extraction
  agree).
- **Paths** (`PathText`, `PathSegments`, `PathDecode`, `PathTwice`, `VaultPaths`, `ParseGrammar`,
  `PathAlgebra`, `PathPolicy`).
  Strings are byte sequences; Unicode normalization and lowercasing are parameters with stated laws.
- **Secrets** (`SecretFraming`, `KeyRing`), **login limiter** (`LoginLimiter`), **evaluation
  adapter** (`ExtractionLifecycle`, `BatchFence`).

Calls into SQLite, the file system, providers and the clock are parameters: a script, a
record of outcomes or a function. A statement for all parameters covers every outcome.

## Where the code does not keep a promise

Each of these has a concrete case and the exact condition, in the members named.

- A composition on a key whose last phase was empty forgets a newer running extraction, of a newer
  revision of the source since each revision is generated for once
  (crates/memory/src/semantic/mod.rs:578-604):
  `ExtractionLifecycle.SemanticAdapter.Compose`, `ExtractionLifecycle.LosesAnExtraction`.
- A staged directory that the operating system does not create makes `swap_roots` return without
  undoing the Vaults swapped before: `RestoreApply.SwapRoots`,
  `RestoreAtomic.EarlyReturnKeepsSwaps`. An accepted archive gives no other cause:
  `RestoreStaging.OnlyRefusalsStop`. If the live state then passes verification, the service
  reopens half restored: `RestoreWhole.RestoreAll`, `RestoreWhole.HalfRestoredAndReady`.
- A restore entered while Offline that reopens ends Offline and ready, and a restore reopens
  to the mode it read before its lease: `RestoreExits.BackupService.Restore`,
  `RestoreExits.RestoringTwiceEndsOfflineAndReady`, `RestoreExits.RestoreOverridesAClosing`.
- A failed `recover_maintenance` entered in ReadOnly mode ends Offline and still ready:
  `RestoreExits.BackupService.RecoverMaintenance`,
  `RestoreExits.FailedRecoveryEndsOfflineAndReady`. Outside tests the program itself only sets
  Offline (crates/server/src/lib.rs:317), so ReadOnly without a lease comes from a holder of the
  gate who calls the public `set`.
- An archive can be accepted and yet not be extractable, because the validator compares paths as
  strings and does not ask whether they can be created: `ArchiveExtractable.AcceptedExtractsIff`,
  `ArchiveUnextractable.AcceptedButNotExtractable`,
  `ArchiveUnextractable.DoubledSlashIsOneLocation`, `ArchiveUnextractable.OnePathIsEnough`.
- A Vault path can become a dot in two decodes:
  `PathTwice.SecondDecodeIntroducesNothingIff`, `PathTwice.TwoDecodesCanMakeADot`.
- Rotating onto a version that the ring already holds replaces that key:
  `KeyRing.RotatedRingExtendsIff`, `KeyRing.RotationCanReplaceAKey`.
- A lease restored twice can take the gate from a later lease:
  `GateAgain.CarelessRestoreBreaks`, `GateSequential.StaleRestoreBreaksALease`.
- Framing is injective only below 2^32 bytes: `SecretFraming.FramingCollidesAtTheBound`.

## Model

| member | source | states |
|---|---|---|
| GateCounters.CountersConserved | crates/domain/src/maintenance.rs:258-284 | Under any schedule of atomic steps, `active_operations` is the number of guards plus the threads between increment and decrement, `active_writes` the same for writers, and 0 <= writes <= operations. |
| GateCounters.NoUnderflow | crates/domain/src/maintenance.rs:345-352 | No `fetch_sub` of any schedule meets a zero counter, neither in a guard's drop nor when a late start backs out. |
| GateCounters.EventConserves | crates/domain/src/maintenance.rs:258-352 | The counting law is inductive: every single event of every thread keeps it. |
| GateSafety.RunKeeps | crates/domain/src/maintenance.rs:147-343 | The gate's invariant (mutex, one owner of `maintenance_active`, what each lease does to the mode, what each program counter promises) is kept by every event, so by every careful schedule: one in which no lease is restored a second time while somebody owns the gate. |
| GateTheorems.LeasesAreExclusive | crates/domain/src/maintenance.rs:198-241 | After every careful schedule at most one lease is unreleased, `maintenance_active` says exactly whether there is one when the mutex is free, and the mode compare-exchange cannot fail. |
| GateTheorems.LeaseKeepsMode | crates/domain/src/maintenance.rs:147-163 | Whatever `set` calls are scheduled, the mode stays Offline under an Offline lease and is never Normal under a ReadOnly lease until the lease reopens it. |
| GateTheorems.DrainIsSound | crates/domain/src/maintenance.rs:258-285 | Once `active_operations` is 0 under an Offline lease, no operation guard is alive at any later moment until that lease reopens the gate, in every careful interleaving. |
| GateTheorems.WriteDrainIsSound | crates/domain/src/maintenance.rs:258-285 | The same for write guards and `active_writes` under a ReadOnly or Offline lease. |
| GateTheorems.ValidTokenMeansDrained | crates/domain/src/maintenance.rs:107-114 | When the four separate loads of `is_valid` all pass and the lease still protects the mode, the process is Offline and no guard is alive. |
| GateTheorems.ReleasedTokenIsDead | crates/domain/src/maintenance.rs:307-343 | A released lease's token never validates again once the mutex is free. |
| GateTheorems.DropFailsClosed | crates/domain/src/maintenance.rs:327-343 | A lease given up without `restore_to` leaves the mode as it was and clears ownership: a dropped Offline lease leaves the process Offline. |
| GateSequential.SoloStart | crates/domain/src/maintenance.rs:258-284 | Run alone, `try_start` admits a writer exactly in Normal mode and a reader exactly in Normal or ReadOnly mode, and otherwise leaves both counters as they were. |
| GateAdmission.TryStartDecides | crates/domain/src/maintenance.rs:258-284 | In every interleaving the answer of `try_start` depends only on the mode at its two loads: a writer gets a live guard if and only if both see Normal, a reader if and only if neither sees Offline, whatever the other threads do in between. |
| GateAdmission.RetreatsByItself | crates/domain/src/maintenance.rs:278-283 | A refused call is over after its own one or two further steps, in every interleaving. |
| GateAdmission.OwnStepCounts | crates/domain/src/maintenance.rs:269-282 | Each step of such a call adds one to the counter it names, or takes it back on refusal, and touches no guard. |
| GateAdmission.IsValidDecides | crates/domain/src/maintenance.rs:107-114 | In every interleaving `is_valid` says yes if and only if the token is active, the mode is Offline, no operation and no write is counted, each at its own load. |
| GateSequential.SoloSet | crates/domain/src/maintenance.rs:147-163 | Run alone, `set` changes the mode exactly when no lease is active or the mode is Offline. |
| GateSequential.SoloBegin | crates/domain/src/maintenance.rs:198-241 | Run alone, `try_begin_mode` grants exactly when nobody owns the gate and ReadOnly is not asked of an Offline gate; a refusal changes nothing. |
| GateSequential.SoloRestore | crates/domain/src/maintenance.rs:307-319 | Run alone, `restore_to` sets the mode, gives up ownership and kills the token. |
| GateSequential.SoloDropLease | crates/domain/src/maintenance.rs:327-343 | Run alone, the drop gives up ownership and kills the token, and leaves the mode. |
| GateSequential.StaleRestoreIsSafeIff | crates/domain/src/maintenance.rs:307-319 | Run alone, a second `restore_to` of one lease keeps the gate exclusive if and only if nobody owns the gate at that moment; `GateSafety.RunKeeps` and `GateAgain.CarelessRestoreBreaks` say the same of every interleaving. |
| GateSequential.StaleRestoreBreaksALease | crates/domain/src/maintenance.rs:307-319 | A concrete run: begin, restore, begin again, restore the first lease again; the second lease is then alive in Normal mode. |
| GateAgain.RestoredOnceIsCareful | crates/domain/src/maintenance.rs:307-319 | If each lease is restored at most once, the schedule is careful, so all theorems about the gate apply. |
| GateAgain.CarelessRestoreBreaks | crates/domain/src/maintenance.rs:307-319 | The condition is exact in every interleaving: a second restore that takes the mutex while the gate is owned ends, after its next two steps and whatever the others do, with `maintenance_active` clear while an unreleased lease exists. |
| GateSequential.MaintenanceCells.constructor | crates/domain/src/maintenance.rs:125-135 | The cells start as the protocol's initial state. |
| GateSequential.MaintenanceCells.TryStart | crates/domain/src/maintenance.rs:258-284 | The method on mutable cells admits a writer exactly in Normal mode and a reader exactly outside Offline, counts what it admits, and is a run of the protocol's atomic steps. |
| GateSequential.MaintenanceCells.Set | crates/domain/src/maintenance.rs:147-163 | The method is a run of the protocol's steps for `set`. |
| GateSequential.MaintenanceCells.TryBeginMode | crates/domain/src/maintenance.rs:198-241 | The method is a run of the protocol's steps and returns the previous mode exactly when the run issues a lease. |
| GateSequential.MaintenanceCells.RestoreTo | crates/domain/src/maintenance.rs:307-319 | The method is a run of the protocol's steps for an unreleased lease. |
| GateSequential.MaintenanceCells.DropUnreleasedLease | crates/domain/src/maintenance.rs:327-343 | The method is a run of the protocol's steps for dropping an unreleased lease. |
| PathText.RejectEncodedUnsafeComponents | crates/domain/src/path.rs:503-525 | The scanner accepts exactly the strings with no refused escape at any index, doubly encoded ones included. |
| PathText.ValidatePercentEncoding | crates/domain/src/path.rs:483-501 | The scanner accepts exactly the strings in which every percent sign met from the left starts an escape. |
| PathDecode.DecodeCounts | crates/domain/src/path.rs:103-111 | Decoding adds an unsafe byte exactly once for each escape, met from the left, that stands for it. |
| PathDecode.EveryIndexIsEnough | crates/domain/src/path.rs:503-525 | Looking at every index and decoding from left to right find the same unsafe escapes, because escapes never overlap. |
| PathDecode.DecodeIntroducesNothingIff | crates/domain/src/path.rs:503-525 | A further decode introduces no slash, backslash, dot or NUL if and only if no escape at any index stands for one. |
| PathDecode.DecodeKeepsSegments | crates/domain/src/path.rs:503-525 | Decoding a safe string decodes its segments one by one and moves no segment boundary. |
| PathTwice.SecondDecodeIntroducesNothingIff | crates/domain/src/path.rs:503-525 | What the nested check buys: on a text the scanner accepts, two decodes introduce no slash, backslash, dot or NUL if and only if no unsafe escape is assembled out of digits that are themselves escaped. |
| PathTwice.OnlyAssembled | crates/domain/src/path.rs:503-525 | On such a text an unsafe escape can come out of the first decode only through an escaped digit. |
| PathTwice.SecondDecodeKeepsSegments | crates/domain/src/path.rs:503-525 | Under that condition two decodes also move no segment boundary. |
| PathTwice.TwoDecodesCanMakeADot | crates/domain/src/path.rs:503-525 | The text `%25%32%65` is a Vault path as it stands, decodes to `%2e`, and that to a dot. |
| VaultPaths.ParseAccepts | crates/domain/src/path.rs:59-97 | `parse` accepts exactly the inputs that are clean before normalization and well shaped after it, and returns the normalized text. |
| ParseGrammar.ParseDecides | crates/domain/src/path.rs:59-97 | Said over characters and positions: `parse` accepts a non-empty input if and only if it has none of thirteen faults (a hidden byte spelled behind a percent sign or an escaped one, a leading slash, a backslash, NUL, a control character, more than 4096 bytes, more than 63 slashes, an empty segment, and five faults of a segment), and otherwise reports the first fault in that order, in the first segment that has one. |
| ParseGrammar.SegmentMeans | crates/domain/src/path.rs:429-450 | A segment is accepted if and only if it has 1 to 255 bytes, does not end in a space or a dot, has none of seven characters, and what comes before its first dot is none of the 22 device names in any case. |
| ParseGrammar.SegmentFaults | crates/domain/src/path.rs:429-450 | The validator of segments reports exactly the first fault in its order. |
| ParseGrammar.RefusedMeans | crates/domain/src/path.rs:503-525 | The scanner refuses an index if and only if the digits behind its percent sign, or behind an escaped percent sign, spell NUL, a dot, a slash or a backslash, in either case of the digits. |
| PathSegments.SegmentIsPiece | crates/domain/src/path.rs:83-85 | The segment at a position is the piece of `split` that comes after as many others as there are slashes before it; `PathSegments.PieceIsSegment` is the converse. |
| VaultPaths.ParsedMeans | crates/domain/src/path.rs:59-97 | A path satisfies the path invariant exactly when parsing its own text gives it back. |
| PathAlgebra.ParseIsIdempotent | crates/domain/src/path.rs:59-97 | Every path that `parse` returns satisfies the path invariant, so parsing it again returns it. |
| PathAlgebra.JoinConcatenates | crates/domain/src/path.rs:155-165 | Joining parsed non-root paths succeeds exactly when the glued length is at most 4096 bytes and the depths sum to at most 64; it then concatenates texts and segments. |
| PathAlgebra.JoinSegments | crates/domain/src/path.rs:155-165 | With the root as neutral element, the segments of a join are the segments of its operands, in order. |
| PathAlgebra.JoinIsAssociative | crates/domain/src/path.rs:155-165 | The two ways to join three paths succeed together and give the same path. |
| PathAlgebra.ParentDropsLast | crates/domain/src/path.rs:143-152 | `parent` drops the last segment, and its unparsed result still satisfies the path invariant. |
| PathAlgebra.ParentsUndoJoin | crates/domain/src/path.rs:143-165 | A join is undone by as many `parent` steps as the child is deep. |
| PathAlgebra.SegmentsDetermine | crates/domain/src/path.rs:133-135 | A path is determined by its segments. |
| PathPolicy.StartsWithIsPrefix | crates/domain/src/path.rs:168-175 | String-based `starts_with` is the prefix relation on segment lists, both ways. |
| PathPolicy.StartsWithIsPartialOrder | crates/domain/src/path.rs:168-175 | `starts_with` is reflexive, antisymmetric and transitive. |
| PathPolicy.JoinStartsWithLeft | crates/domain/src/path.rs:155-175 | A join starts with its left operand. |
| PathPolicy.ReservedIsPrefix | crates/domain/src/path.rs:312-321 | A path is reserved exactly when it has every segment of the reserved root in its place, byte for byte under a sensitive policy and up to lowercasing under an insensitive one. |
| PathPolicy.UserAndManagedAreComplements | crates/domain/src/path.rs:324-339 | Every path is accepted by exactly one of the user and the managed validator, by the managed one exactly when it has every segment of the reserved root in its place, up to case if the policy is insensitive; each refusal has its own error. |
| PathPolicy.ReservedClosedUnderJoin | crates/domain/src/path.rs:312-321 | Joining anything below a reserved path stays reserved. |
| PathPolicy.DetectPathCollisions | crates/domain/src/path.rs:244-264 | The loop reports the first path whose text, or lowercased text if the policy is insensitive, repeats an earlier one, together with the path it repeats, and accepts exactly when there is none. |
| PathPolicy.SecondDecodeIsHarmless | crates/domain/src/path.rs:59-97 | One more decode of a parsed path decodes its segments one by one, makes none empty, `.` or `..`, and introduces no slash, backslash or NUL. |
| PathPolicy.DecodeEncode | crates/domain/src/path.rs:103-111 | Decoding undoes percent-encoding, whatever bytes the encoder left alone and whatever case its digits have. |
| PathPolicy.UrlPathDecodesOnce | crates/domain/src/path.rs:103-111 | `from_url_path` of any encoding of a text, with or without the leading slash, is `parse` of that text: exactly one decode. |
| PathPolicy.UrlPathDecides | crates/domain/src/path.rs:103-111 | `from_url_path` takes one leading slash off, refuses exactly when some percent sign does not start an escape or the decoded bytes are no UTF-8, and otherwise parses what one decoding gives. |
| SecretFraming.FrameInjective | crates/auth/src/secret.rs:394-413 | Length-prefixed framing is injective on lists of equally many parts shorter than 2^32 bytes. |
| SecretFraming.AssociatedData | crates/auth/src/secret.rs:394-406 | The bytes built are the framing of purpose, owner type and owner id, a missing id as an empty one. |
| SecretFraming.UpdateAssociatedData | crates/auth/src/secret.rs:408-413 | The digest input is extended by the framing of the parts. |
| SecretFraming.AssociatedDataInjective | crates/auth/src/secret.rs:394-406 | Two identities have equal associated data if and only if purpose, owner type and owner id agree, a missing id counting as empty. |
| SecretFraming.DigestInputInjective | crates/auth/src/secret.rs:268-283 | Two digest inputs are equal if and only if purpose and value are. |
| SecretFraming.FramingCollidesAtTheBound | crates/auth/src/secret.rs:408-413 | At 2^32 bytes the truncated length makes two different lists frame alike: the bound is sharp. |
| KeyRing.FromVersions | crates/auth/src/secret.rs:151-173 | The ring is built exactly when every entry has a version above zero and 32 bytes and the current version is among them; it holds exactly the listed versions, each with its last entry, and is persistent. |
| KeyRing.RotatedRingExtendsIff | crates/auth/src/secret.rs:254-265 | Rotation takes exactly a newer version and a key of 32 bytes; the new ring has that key as its current one and differs from the old ring in that version only, so it keeps every old key if and only if the version was not in the ring with another key. |
| KeyRing.RotationCanReplaceAKey | crates/auth/src/secret.rs:254-265 | A concrete ring holding a version above its current one, which rotation onto that version overwrites. |
| KeyRing.EncryptThenDecrypt | crates/auth/src/secret.rs:286-349 | What a ring encrypts it decrypts to the same text; the record is at the ring's current version and keeps its identity. |
| KeyRing.SealedUnderIdentity | crates/auth/src/secret.rs:286-349 | A record is sealed under the ring's current key, the given nonce and the framed purpose, owner type and owner id, and decrypts exactly if its nonce has 24 bytes and the key of its version opens it under the same three fields. |
| KeyRing.AadBindsIdentity | crates/auth/src/secret.rs:286-349 | Two records share associated data if and only if they agree on purpose, owner type and owner id. |
| KeyRing.ExtensionKeepsMeaning | crates/auth/src/secret.rs:320-349 | A record that decrypts under a ring decrypts to the same text under a ring that extends it. |
| KeyRing.SecretStore.Update | crates/auth/src/service.rs:481-489 | One row is replaced, or replaced and reported as failed, or left; no other row changes. |
| KeyRing.RotateOne | crates/auth/src/service.rs:467-489 | One turn of the loop on a stale record keeps every record's meaning under the next ring, whether it succeeds, fails, or fails after the write. |
| KeyRing.RotateSecrets | crates/auth/src/service.rs:460-493 | With an extending ring, every exit leaves each record decrypting under the next ring to its old plaintext; success leaves all at the new version, the count is the number of stale records, and a second run rotates none; it succeeds when every stale record is readable and no seal or update fails. |
| LoginLimiter.LoginRateLimiter.Check | crates/auth/src/service.rs:1381-1394 | `check` drops the attempts that are 900,000 milliseconds old or older, all of them if more than 4096 are left, and rejects exactly while the key is blocked. |
| LoginLimiter.LoginRateLimiter.Failure | crates/auth/src/service.rs:1396-1412 | A failure counts up to the end of u32 and blocks for 0 seconds below five failures, then 1, 2, 4, 8 and 16, with saturation at the end of i64, and touches no other key. |
| LoginLimiter.LoginRateLimiter.Success | crates/auth/src/service.rs:1414-1418 | A success forgets the key and no other. |
| LoginLimiter.SweepNeverUnblocks | crates/auth/src/service.rs:1381-1394 | Over every run with non-decreasing times every block lasts at most sixteen seconds, so the sweep never changes the answer of `check`; only emptying an overfull map can. |
| LoginLimiter.LimiterRefinesSingleKey | crates/auth/src/service.rs:1380-1419 | Over every run that never empties the map, the map seen at one key is a limiter for that key alone. |
| LoginLimiter.CheckRejectsExactlyDuringBackoff | crates/auth/src/service.rs:1381-1412 | Over such a run `check` rejects a key exactly while the backoff of its current streak has not run out. |
| LoginLimiter.BackoffHolds | crates/auth/src/service.rs:1396-1412 | After the failure that makes a streak n, with no later failure or success of the key, `check` rejects at every time before that failure plus the seconds of n and admits from then on. |
| BatchFence.ResolveFence | crates/eval/src/adapters.rs:1028-1079 | A batch passes exactly when it has one to eighty distinct positive indices that are 80k+1, 80k+2, ... for its batch index k < count, without 64-bit overflow; the catalogue and fence errors are told apart. |
| BatchFence.CheckFence | crates/eval/src/adapters.rs:1050-1077 | On ascending distinct indices the first, last and offset tests with checked arithmetic hold exactly when the indices are consecutive from 80k+1 inside the batch. |
| BatchFence.Insert | crates/eval/src/adapters.rs:1034-1046 | Ordered insertion keeps the list ascending and reports a repeated index. |
| BatchFence.BatchesNeverOverlap | crates/eval/src/adapters.rs:1062-1077 | Two passing batches with different indices share no evidence index. |
| BatchFence.BatchesCoverEachIndexOnce | crates/eval/src/adapters.rs:1062-1077 | Full batches followed by a last one cover 1..N, each index in exactly one batch, the one at (x-1)/80. |
| ExtractionLifecycle.SemanticAdapter.Terminalize | crates/eval/src/adapters.rs:501-521 | Terminalizing succeeds exactly on a readable extraction that is terminal or running and cancellable; it changes no other state. |
| ExtractionLifecycle.SemanticAdapter.Abort | crates/eval/src/adapters.rs:526-543 | The whole state it leaves: the key is gone from all three maps and its extraction is over, exactly when there was none or it could be ended, and otherwise nothing changes. |
| ExtractionLifecycle.SemanticAdapter.Prepare | crates/eval/src/adapters.rs:1633-1678 | The whole state and answer of every exit: a busy key is aborted and refused; a generation whose binding or input fails is ended and leaves the active map exactly if it could be ended; success records the fresh running extraction. Every exit keeps all non-terminal extractions recorded. |
| ExtractionLifecycle.SemanticAdapter.Accept | crates/eval/src/adapters.rs:2070-2145 | The whole state and answer of every exit: a key without a generation is aborted; a proposal that cannot be restored or is not accepted takes the generation out, ends its extraction and takes it out of the active map, exactly if it could be ended; an empty phase completes its extraction. Every exit keeps all non-terminal extractions recorded. |
| ExtractionLifecycle.SemanticAdapter.Compose | crates/eval/src/adapters.rs:2159-2219 | The whole state and answer of every exit; all non-terminal extractions stay recorded if and only if the call does not forget a newer running extraction on a stale empty phase. |
| ExtractionLifecycle.ComposeKeepsIff | crates/eval/src/adapters.rs:2183-2213 | Of any state that the invariant allows, a composition loses a running extraction if and only if the key is stale, its inputs are good and its state can be read. |
| ExtractionLifecycle.SemanticAdapter.Drive | crates/eval/src/adapters.rs:1633-2228 | Over any sequence of prepare, accept, compose and abort calls, each of which leaves what it must, up to the first composition on a stale phase, no extraction is lost. |
| ExtractionLifecycle.LosesAnExtraction | crates/eval/src/adapters.rs:2130-2213 | A concrete run of three successful calls (prepare, accept an empty result, prepare again for a new revision of the source) and a refused composition, after which a running extraction is recorded nowhere. |
| RootSwap.FileSystem.Install | crates/storage-fs/src/lib.rs:109-185 | On success the file system is exactly the old one with the target moved aside and the staged directory moved in. A failure has a cause, an uninstallable root or a failed call; the file system is then unchanged, unless moving the target back failed too, which takes a failed call of its own. |
| RootSwap.FileSystem.Rollback | crates/storage-fs/src/lib.rs:188-224 | On success the file system is the one with every swap undone in reverse order; it fails only on swaps that cannot be undone or when a call of its own failed. |
| RootSwap.FileSystem.Cleanup | crates/storage-fs/src/lib.rs:227-251 | Only rollback directories change, and on success they are all gone; it fails only if one of them is no directory or a call of its own failed. |
| RootSwap.UndoOneInstalled | crates/storage-fs/src/lib.rs:109-224 | Undoing a swap just installed gives the old file system without the staged directory. |
| RootSwap.UndoLocal | crates/storage-fs/src/lib.rs:188-224 | What undoing restores depends neither on the staging area nor on anything done inside the installed roots. |
| RestoreApply.InstallExtends | crates/backup/src/lib.rs:1816-1839 | After one more installed root, undoing all swaps still gives the old live roots, the undo can go through, and each installed root holds its staged tree. |
| RestoreApply.SwapRoots | crates/backup/src/lib.rs:1796-1842 | Success swaps every root for its staged tree, undoably. A failed installation has a cause and undoes everything, unless an undo call itself failed. When no call fails but the creation of a staged directory, the state before and those failures decide: it succeeds if and only if all roots are ready and no creation fails; it returns early at Vault k if and only if the Vaults before k are ready and created and one of the two creations of Vault k fails; and unless it succeeds the live roots are as before if and only if no such k > 0 exists. |
| RestoreApply.InstallReady | crates/backup/src/lib.rs:1816-1839 | Which later roots can be swapped is the same before and after a root is installed, both ways. |
| RestoreApply.RoundDecides | crates/backup/src/lib.rs:1804-1842 | When a round of the loop stops without another failed call, the early return is due at Vault k if and only if k is that round and one of its two staged directories could not be created. |
| RestoreAtomic.LiveState.RecoverAll | crates/backup/src/lib.rs:1054-1084 | The loop is the fold of Vault recovery over the Vaults that the restored database lists, up to the first failure; `RestoreAtomic.RecoveryByVault` says what that fold is. |
| RestoreAtomic.RecoveryByVault | crates/backup/src/lib.rs:1054-1084 | Vault by Vault: recovery of distinct roots goes through if and only if every root can be opened and no Vault needs review, and then each content root holds the content that recovery made of that root's own tree, each history root the history, and the database went from Vault to Vault. |
| RestoreAtomic.CleanRecoveryKeeps | crates/backup/src/lib.rs:1054-1084 | Where recovery finds nothing to repair it leaves every directory and the database alone. |
| RestoreAtomic.RecoveryIsLocal | crates/backup/src/lib.rs:1054-1084 | Recovery changes nothing outside the listed roots and leaves directories there. |
| RestoreAtomic.EndsAlike | crates/backup/src/lib.rs:1043-1084 | Recovery of the swapped roots ends as recovery of the staged trees put over the old file system: same verdict, same database, same roots. |
| RestoreAtomic.UndoAfterRecovery | crates/backup/src/lib.rs:1087-1091 | After recovery has rewritten the installed roots, undoing the swaps still goes through and gives the old live roots. |
| RestoreAtomic.LiveState.ApplyRestore | crates/backup/src/lib.rs:1007-1105 | All or nothing. Success means every root is what recovery made of the staged trees and the database what it made of the migrated snapshot: for each Vault what recovery made of its own staged content and history, and where it finds nothing to repair, the staged trees and the migrated database themselves; without failed calls no rollback directory is left. A failure has a cause, and leaves every swapped root and the database as before unless the snapshot could not be put back or an undo call itself failed. When no call fails but the creation of a staged directory, it succeeds if and only if nothing stands in its way, returns early at Vault k if and only if that creation fails there after the Vaults before k were swapped, and unless it succeeds every root but strays and the database are as before if and only if no such k > 0 exists. |
| RestoreAtomic.EarlyReturnKeepsSwaps | crates/backup/src/lib.rs:1810-1815 | A concrete restore of two Vaults, from a staging area that holds directories only: the creation of the second Vault's missing staged directory fails, no other call does, and the first Vault is left swapped. |
| RestoreStaging.StagedRootsAreClear | crates/backup/src/lib.rs:1751-1815 | After an accepted archive is extracted, no file is at or above the staged content or history root of any Vault, so creating them goes through unless the operating system refuses. |
| RestoreStaging.OnlyRefusalsStop | crates/backup/src/lib.rs:1803-1815 | In a staging area that extraction of an accepted archive left, the early return is taken at Vault k if and only if the Vaults before k are ready and created and the operating system refuses one of the two calls of Vault k. |
| RestoreExits.BackupService.Restore | crates/backup/src/lib.rs:506-687 | Every exit, when it is taken and the mode, lease and readiness it leaves; whatever is set while the lease is held; entered consistent and with no `set` just before the lease, it ends consistent if and only if it did not reopen a service that was Offline. |
| RestoreExits.BackupService.RecoverMaintenance | crates/backup/src/lib.rs:287-326 | Success opens the service; a failure closes it without touching readiness, so entered consistent it ends inconsistent if and only if it was entered in ReadOnly mode and failed under its own lease. |
| RestoreExits.BackupService.CreateBackup | crates/backup/src/lib.rs:428-479 | Every exit leaves the readiness and releases the lease, and leaves the entry mode whatever is set while the lease is held, unless another thread set one just before the lease and the backup was refused or did not drain; it succeeds exactly if admitted, drained, written and recorded. |
| RestoreExits.BackupService.Operate | crates/backup/src/lib.rs:287-687 | Over any sequence of create, restore and recover operations with no `set` just before a lease, each of which leaves what it must, up to the first restore of an Offline service, readiness and mode agree and ReadOnly never remains. |
| RestoreExits.RestoringTwiceEndsOfflineAndReady | crates/backup/src/lib.rs:522-685 | A concrete run: a restore that fails for good and then one that works leave the service Offline and ready. |
| RestoreExits.RestoreOverridesAClosing | crates/backup/src/lib.rs:522-683 | A concrete run: another thread closes the service between the mode read and the lease, and the restore reopens it. |
| RestoreExits.FailedRecoveryEndsOfflineAndReady | crates/backup/src/lib.rs:287-326 | A concrete run: a ready service that was set to ReadOnly fails to recover and ends Offline and ready. |
| RestoreWhole.RestoreAll | crates/backup/src/lib.rs:506-687 | The whole restore: a service that ends ready serves what recovery made of the archive, or what verification made of the state after a failure; when no call fails but the creation of a staged directory, that state is all new, or all old but for strays, if and only if the early return did not leave Vaults swapped. |
| RestoreWhole.HalfRestoredAndReady | crates/backup/src/lib.rs:629-686 | A concrete run: one creation of a staged directory fails and no other call does, the early return leaves the first of two Vaults swapped, verification passes, and the service is ready with the old database. |
| RestoreTargets.ValidateTargets | crates/backup/src/lib.rs:971-1005 | With distinct registered identities, acceptance holds if and only if format, keys and schema fit and the manifest's Vaults are the registered ones up to order, with equal slug and root; then no identity occurs twice in the manifest. Every refusal has the error of the first check that fails. |
| RestoreTargets.MatchVaults | crates/backup/src/lib.rs:988-1003 | The length check and the find loop together accept exactly the permutations of the registered Vaults. |
| RestoreTargets.Find | crates/backup/src/lib.rs:993-997 | The first manifest Vault with the identity, or none has it. |
| RestoreTargets.Pigeonhole | crates/backup/src/lib.rs:988-996 | Distinct Vaults that all occur in a list of equal length are that list, up to order. |
| ArchiveTree.AppendIsList | crates/backup/src/lib.rs:1471-1510 | Appending a tree lists every directory and file once in order, and fails exactly when there is a link or special node. |
| ArchiveTree.ListExact | crates/backup/src/lib.rs:1471-1510 | The list holds an item at a location if and only if the tree has that item there. |
| ArchiveTree.ListDistinct | crates/backup/src/lib.rs:1471-1510 | No location is listed twice. |
| ArchiveTree.PathOfLocation | crates/backup/src/lib.rs:1701-1723 | The path written for a proper location is accepted by the archive path check and leads back to that location. |
| ArchiveTree.Extract | crates/backup/src/lib.rs:1751-1788 | The loop computes the fold that the extraction theorems are about: an entry fails if its path cannot be opened, if a file's path ends in a slash or a dot, if a directory's path ends in a dot and it is not there yet, or if something is in its way. |
| ArchiveTree.PutList | crates/backup/src/lib.rs:1751-1788 | Placing the list of a tree where there is room puts exactly that tree there and changes nothing else. |
| ArchiveTree.ExtractUndoesAppend | crates/backup/src/lib.rs:1471-1788 | Round trip: what was written for a tree can be extracted if and only if the host takes the paths, and then gives that tree and nothing else. |
| ArchiveManifest.ValidateManifest | crates/backup/src/lib.rs:1621-1699 | Acceptance holds if and only if the header is valid, every artifact is acceptable, isolated to its Vault and unique, and the declared totals are the recomputed count and byte sum within the limits. |
| ArchiveManifest.AddVaults | crates/backup/src/lib.rs:1672-1694 | The loops accept exactly when every Vault is isolated and the whole artifact list is sound, and their tally is that list's count and sum. |
| ArchiveManifest.Add | crates/backup/src/lib.rs:1640-1667 | The closure accepts an artifact exactly when the list stays sound, and keeps its path set, count and checked total. |
| ArchiveValidate.ScanAll | crates/backup/src/lib.rs:1524-1585 | The entry loop goes through exactly when there are few enough entries, every path, kind and size is acceptable, no path repeats and the bytes fit; its map then holds exactly the regular files. |
| ArchiveValidate.Compare | crates/backup/src/lib.rs:1589-1612 | The length check and the lookups accept exactly when the regular files are the manifest and the artifacts, each with its size and hash. |
| ArchiveValidate.ManifestIsNoArtifact | crates/backup/src/lib.rs:1647-1652 | An acceptable artifact never has the manifest's path. |
| ArchiveValidate.MatchesIsExact | crates/backup/src/lib.rs:1589-1612 | The scanned map matches the manifest if and only if the archive's entries are exact for it. |
| ArchiveValidate.ValidateArchive | crates/backup/src/lib.rs:1512-1619 | Exactness: the validator returns a manifest if and only if the archive is acceptable, holds that manifest once, and its regular files are exactly `manifest.json` and the manifest's artifacts with equal sizes and hashes. |
| ArchiveGrammar.ArchivePathMeans | crates/backup/src/lib.rs:1701-1723 | Said over characters: an entry path is accepted if and only if no component of it is `..`, it has no backslash, and it is `manifest.json` or its first component is `state`, `vaults` or `history`. |
| ArchiveGrammar.EntryMeans | crates/backup/src/lib.rs:1520-1566 | An entry is accepted if and only if its path is, it is a file or a directory, and a file is within the entry limit, the manifest within four megabytes. |
| ArchiveGrammar.EntryLimitMeans | crates/backup/src/lib.rs:1528-1532 | An archive may have a thousand entries more than the limit of files, within 64 bits. |
| ArchiveGrammar.ArtifactMeans | crates/backup/src/lib.rs:1640-1664 | An artifact is accepted if and only if it is within the entry limit, has 64 hexadecimal digits, no component `..`, and is `state/mcp-vault.sqlite3` or below `vaults/` or `history/`. |
| ArchiveGrammar.VaultMeans | crates/backup/src/lib.rs:1677-1701 | A Vault of the manifest is accepted if and only if slug and root are not empty and all its content is below `vaults/<id>/content/`, all its history below `history/<id>/`. |
| ArchiveGrammar.HeaderMeans | crates/backup/src/lib.rs:1622-1634 | A header is accepted if and only if the format is 1, the versions are there and the key versions ascend from above zero. |
| ArchiveGrammar.NothingClimbs | crates/backup/src/lib.rs:1654-1723 | No accepted entry and no artifact of an accepted manifest has a component `..`. |
| ArchiveGrammar.ExtractionStaysInside | crates/backup/src/lib.rs:1751-1788 | Whatever is extracted from accepted paths lies below one of the four allowed names, by names that are neither empty nor `.` nor `..`. |
| ArchiveGrammar.FileEndMeans | crates/backup/src/lib.rs:1776-1780 | The test on a file's path in extraction, over characters: it ends in neither a slash nor a component `.`. |
| ArchiveGrammar.DirectoryEndMeans | crates/backup/src/lib.rs:1766-1769 | The test on a directory's path: without the slashes at its end it ends in a component `.`. |
| ArchiveGrammar.OpensMeans | crates/backup/src/lib.rs:1766-1780 | A path can be opened if and only if it has no NUL character and the host does not find it too long. |
| ArchiveExtractable.AcceptedExtractsIff | crates/backup/src/lib.rs:1751-1788 | An accepted archive can be extracted if and only if no file lies at or above the location of another entry, no path has a NUL byte or is refused by the host, the path of every file ends in a name, and every directory whose path ends in a dot lies at or above an earlier entry. |
| ArchiveExtractable.PutExact | crates/backup/src/lib.rs:1765-1783 | One file or directory can be created exactly when no file is at or above its location and, for a file, nothing is there; the result is the old directory with it and the missing parents. |
| ArchiveExtractable.PutAllExact | crates/backup/src/lib.rs:1765-1783 | A list of files and directories can be created in a fresh directory, in whatever order it is, exactly when no file is at or above another of them, and the directory then holds exactly them and their parents. |
| ArchiveExtractable.ExtractExact | crates/backup/src/lib.rs:1751-1788 | After an extraction the files are exactly those of the entries, with their bytes, and the directories those of the entries and above them. |
| ArchiveUnextractable.AcceptedButNotExtractable | crates/backup/src/lib.rs:1535-1538 | Any distinct content paths make an archive that is accepted, whatever encodes the manifest and whatever limits leave room; it is not extracted if two paths overlap as locations or one of them cannot be created. |
| ArchiveUnextractable.DoubledSlashIsOneLocation | crates/backup/src/lib.rs:1701-1723 | Such are the two paths `vaults/i/content/a//b` and `vaults/i/content/a/b`. |
| ArchiveUnextractable.OnePathIsEnough | crates/backup/src/lib.rs:1701-1783 | Such is also the one path `vaults/i/content/a/`, or `vaults/i/content/a/.`, or one whose last name has a NUL byte. |
| TreeCopy.Register | crates/backup/src/lib.rs:1214-1236 | Registering succeeds exactly within the three limits and then adds one file and its size. |
| TreeCopy.CopyPrivateTree | crates/backup/src/lib.rs:1335-1419 | The stack loop goes through exactly when the tree has no links, every file can be created and the limits hold; it then registers each file of the tree once under its path, with the right totals, stages exactly the tree's list, and returns the artifacts sorted by path. |
| ArchiveSort.SortOrders | crates/backup/src/lib.rs:1417-1417 | The artifacts come out in byte order of their paths. |
| ArchiveSort.LeqMeans | crates/backup/src/lib.rs:1417 | The order of paths is that of their first differing bytes, with a prefix first. |
| ArchiveSort.SortIgnoresOrder | crates/backup/src/lib.rs:1417-1417 | With distinct paths the sorted artifacts do not depend on the order in which the files were found. |
| StagingLog.PutAllFiles | crates/backup/src/lib.rs:1303-1419 | The files in the staging directory are exactly those that were placed. |
| StagingLog.PutAllNew | crates/backup/src/lib.rs:1318-1324 | No two files are ever placed at one location. |
| StagingLog.ArtifactsDistinct | crates/backup/src/lib.rs:1303-1419 | Files at distinct locations have distinct archive paths. |
| ArchiveCreate.StageContent | crates/backup/src/lib.rs:775-811 | Staging a Vault's files goes through exactly when all can be created within the limits, and yields their artifacts in order. |
| ArchiveCreate.StageVault | crates/backup/src/lib.rs:764-848 | The same for a whole Vault: exactly its files and those of its history tree are added, and its part of the manifest has its identity, its files in order, and its history's files in the order of their paths, each with path, size and hash. |
| ArchiveCreate.StageVaults | crates/backup/src/lib.rs:763-849 | The same for all Vaults. |
| ArchiveCreate.CreateManifest | crates/backup/src/lib.rs:735-877 | Building goes through exactly when no history has a link and everything can be staged within the limits. The staged files are then exactly those of the sources, the staging directory holds every Vault's files and history tree, the snapshot and nothing else, and the manifest lists them. |
| BackupContents.StagedIsBackup | crates/backup/src/lib.rs:763-862 | The staging directory is a backup of the sources: each content file at its path with its bytes, below each history root exactly the history tree, the snapshot, and nothing else. |
| BackupContents.StagedFiles | crates/backup/src/lib.rs:763-862 | The staged files are exactly the snapshot, the content files and the history files of the Vaults. |
| BackupContents.ManifestListsSources | crates/backup/src/lib.rs:838-877 | The manifest has the header, the snapshot's artifact and one part per Vault in order, with exactly that Vault's files. |
| BackupContents.FileHistoryFails | crates/backup/src/lib.rs:815-836 | A history that is a file cannot be staged, because its root was created as a directory before. |
| CreatedManifest.AllAreStaged | crates/backup/src/lib.rs:863-877 | The manifest's artifacts are those registered, up to order, and its totals are their count and sum. |
| CreatedManifest.CreatedIsValid | crates/backup/src/lib.rs:735-877 | The manifest validator accepts every manifest that creation builds from well-named sources. |
| ArchiveRoundTrip.SameArtifacts | crates/backup/src/lib.rs:1447-1510 | However the staging directory is listed, the archived files are the staged ones, up to order. |
| ArchiveRoundTrip.CreatedArchiveRoundTrips | crates/backup/src/lib.rs:1447-1788 | The archive written for a staged backup within the limits is accepted with its manifest, and extracts to the staging directory if and only if the host takes its paths. |
| CreatedManifest.BackupRoundTrips | crates/backup/src/lib.rs:735-940 | From sources to extracted files: whatever creation stages, and however the staging directory is listed, the archive of it is accepted, names the manifest that was written, and on a host that takes its paths extracts to a backup of the sources: every content file at its path with its bytes, every history tree as it is, the snapshot, the manifest, and nothing else. |
| StagingTree.StagedHasTree | crates/backup/src/lib.rs:1447-1510 | Whatever creation stages, there is a tree of distinct names without links that shows it, so the round trip applies to every backup. |

## Left out

- GateTheorems.LeasesAreExclusive: schedules in which a lease is restored a second time while somebody owns the gate are excluded, here and in the other theorems of `GateTheorems`; `GateAgain.CarelessRestoreBreaks` shows that they break the gate.
- GateProtocol: atomics are sequentially consistent and counters unbounded; weaker orderings, `usize` wrap-around, lock poisoning and panics are not modelled.
- PathAlgebra.JoinConcatenates: Unicode normalization is any function with the laws `NfcLaws` (idempotent, separate on both sides of a slash, creates no separator, control or escape); the Unicode tables that have these laws are not part of this model, nor are the tables behind `LowerLaws`.
- PathPolicy: `FilesystemPolicy`, two flags compared with an entry kind, would only add easy members.
- KeyRing.EncryptThenDecrypt: the cipher is any function pair whose opening undoes its sealing; XChaCha20-Poly1305 itself, nonces from randomness, key files and zeroizing are not part of this model.
- KeyRing.RotateSecrets: the next ring extends the current one, as rotation makes it under the condition of `KeyRing.RotatedRingExtendsIff`.
- LoginLimiter.SweepNeverUnblocks: times are non-negative and non-decreasing and a block's end stays below the end of i64.
- ExtractionLifecycle.SemanticAdapter.Prepare: an extraction row that `begin_generation` inserted before it failed is not tracked, since the adapter never learns its identity; the A80 paths, the legacy path and the source bindings are not modelled.
- ExtractionLifecycle.SemanticAdapter.Drive: calls do not overlap, and a terminal extraction is taken never to change again.
- BatchFence.ResolveFence: the JSON schema that receives the indices is not modelled beyond the list put into it.
- RootSwap.FileSystem.Rename: a rename onto an existing empty directory fails here; roots are separate places, so nested roots and the parents that installing creates are not modelled.
- RestoreApply.SwapRoots: Vault roots are distinct, the staging area lies apart from them and no live root has the name of a rollback directory; one script decides which creations of a staged directory fail and another which other calls do, and a failed call changes nothing but what it was about.
- RestoreStaging.StagedRootsAreClear: Vault identities are single names, as the text of a UUID is.
- RestoreAtomic.LiveState.ApplyRestore: what `restore_from_snapshot`, migration, the integrity check and Vault recovery do inside is given by their outcomes, and recovery may fail at any Vault; leftover staging and rollback files are not tracked. A root that only the restored database lists is recovered in place without a swap, so a later failure does not put it back; no such root exists when the archived database lists the Vaults that the manifest does, which the code does not check. Such roots are taken not to be staging or rollback places.
- RestoreExits.BackupService.Restore: the records that the catalogue keeps about a restore are outcomes only, and serializing a manifest is taken not to fail. Another thread's `set` is placed once before and once during the lease.
- ArchiveExtractable.AcceptedExtractsIff: which paths are too long is the host's, whatever else is there; a full disk, a lack of permission, a file system that folds case or normalizes names, and rules for paths other than those of Linux are not modelled.
- ArchiveTree.ExtractUndoesAppend: the tar byte format, entry names longer than a tar header and read errors inside an archive are not modelled.
- ArchiveValidate.ValidateArchive: decoding JSON and hashing are parameters; a payload shorter than its header says cannot be expressed.
- TreeCopy.CopyPrivateTree: the order in which the operating system lists a directory is any order of the tree; a file that changes between its size being read and its copy is not modelled.
- BackupContents.StagedIsBackup: Vault identities are distinct, as primary keys are, and no directory has a name twice.
- CreatedManifest.BackupRoundTrips: names are proper and free of backslashes, a history root is a directory, slugs and roots are not empty, key versions ascend from above zero, the written manifest decodes to itself, and the manifest, entry, total and archive limits hold; the double hashing that detects a file changing under the backup is not modelled.
- Retention, scheduling, the catalogue of backups, permissions, durability, `VaultCore`, search, memory, the MCP and admin servers and the web interface are not part of this model.
