# howy: a verified model

howy authenticates Linux users by their face. This project models the parts of it that carry the most state,
branching and arithmetic, and proves what they are for.

- **Configuration bridge** (`Bridge*.dfy`, `ConfigBridge.dfy`). Across a package upgrade the administrator's
  configuration is stashed, replaced and restored by commands that may be killed between any two file-system
  operations. The model is a disk of named slots (live configuration, packaged source, journal, manifest, marker,
  stashes, stages), a class whose methods change it one durable step at a time, and a record of every disk that was
  ever visible. Safety is proved of every step from every disk; the invariant of every run from clean
  controls; convergence of every schedule of kills; and exactly when each command succeeds and a marker is accepted.
- **Template codec** (`Bytes.dfy`, `StorageTypes.dfy`, `PayloadCodec.dfy`, `RecordCodec.dfy`). Canonical payloads, plain
  and sealed records: encoder and decoder are inverse in both directions, every field is where the format puts it, and
  inspection of a prefix agrees with full decoding.
- **Capture slot** (`LatestSlot.dfy`). The one-message slot between the capture worker and its consumer as a state
  machine over atomic steps.
- **Prompt client** (`PromptClient.dfy`). The client end of the prompt protocol, over any order of calls.
- **Matching and alignment** (`FaceMatch.dfy`, `Alignment.dfy`). Best-match search, and the least-squares similarity
  transform with its inverse.
- **Detection** (`Grid.dfy`, `Preprocess.dfy`, `Scrfd.dfy`, `Nms.dfy`). Letterboxing into three planes, validation and
  decoding of the detector's outputs, suppression, and the memory charged for all of it.
- **Image import** (`Bmp.dfy`, `ImportFormat.dfy`, `Importer.dfy`). The framed stream between the sandboxed importer and
  its parent, and the bitmaps it carries.

`Inv` in `BridgeInvariant.dfy` is the invariant of the bridge, `KeepStep` there is what a single durable step may do,
and `BridgeGoals.dfy` says what it means for an installation, a restore or a stash to be under way.

One expected property is false of the code. Success of a bootstrap does not imply that the marker validator accepts:
the commands compare the restored target logically, the validator by identity, so a restored configuration replaced
by an equal copy is marked and then rejected. `BridgeCounterexample.CopiedConfigRejected` runs a bootstrap to such a
success. `BridgeRuns.Reattest` and `BridgeRuns.Succeed` give the exact condition on the disk before the call, and
`BridgeRuns.RunUntampered` shows that while nobody else touches a restored file only an unsafe owner is ever rejected.

Conventions. A SHA-256 digest is represented by the content it is taken of, so equal digests mean equal content. A
control file is its parsed value plus an amount of padding, with a fixed accounting of its serialised length.
Inodes, clocks and outside edits are arbitrary values. Integers are unbounded except where a width matters, and
there it is written out. Floating point is exact real arithmetic.

## Model

| member | source | states |
|---|---|---|
| `BridgeRuns.PackageTransaction` | crates/howy-config-bridge/src/lib.rs:484-681 | stash, replacement of the configuration by the packager (removed, packaged legacy, or kept), then bootstrap: the administrator's bytes, owner, permissions and modification time, or their absence, are back and marked, older stashes and history are kept, and the marker is accepted exactly when the owner is safe, for every list of killed attempts of either command |
| `BridgeRuns.InstallConverges` | crates/howy-config-bridge/src/lib.rs:484-539 | from any disk of an unfinished installation, any attempts killed at any boundary followed by one that is not end in the bootstrap payload, private and of the expected owner, with an accepted marker |
| `BridgeRuns.RestoreConverges` | crates/howy-config-bridge/src/lib.rs:1343-1385 | the same for a restore: the captured generation is live, marked and still the one aimed at; the marker validator accepts exactly when ownership is safe |
| `BridgeRuns.StashConverges` | crates/howy-config-bridge/src/lib.rs:587-681 | the same for a stash: the configuration is captured and untouched; the manifest is the very one already journaled or in place, or the history found plus exactly the refreshed generation as it was; every older stash is kept |
| `BridgeRuns.PreserveConverges` | crates/howy-config-bridge/src/lib.rs:544-554 | an upgrade without a manifest over a readable configuration of the expected owner, or none: any killed attempts and one that is not report a verified upgrade, change nothing but the marker, and leave it naming the live object and accepted |
| `BridgeRuns.Decide` | crates/howy-config-bridge/src/lib.rs:484-686 | on a sound disk without a journal each of the five commands, killed or not, succeeds only if the disk allows it and refuses only if it does not; not killed it does one of the two, so success is decided by the disk before the call |
| `BridgeRuns.Finish` | crates/howy-config-bridge/src/lib.rs:484-554 | the same for bootstrap and completion, with what is reported; where a generation is to be restored, the disk allows it exactly if the configuration is missing, the packaged legacy or the captured one, and a captured absence is of the same directory |
| `BridgeRuns.Execute` | crates/howy-config-bridge/src/lib.rs:484-686 | every durable step of every command from every disk, sound or not, is a permitted step; from a sound disk every intermediate disk is sound and the history only grows |
| `BridgeRuns.ForeignConfigKept` | crates/howy-config-bridge/src/lib.rs:1125-1341 | from any durable disk of a process to any later one, a configuration that is not the exact packaged legacy stays the same object at its path, and no stash is removed or rewritten |
| `BridgeRuns.OtherConfigKept` | crates/howy-config-bridge/src/lib.rs:2403-2425 | in particular one that is no regular file, has other bytes, another owner or other permissions than the packaged legacy |
| `BridgeRuns.HistoryAlong` | crates/howy-config-bridge/src/lib.rs:2318-2342 | between any two durable disks the manifest is not lost, its history is kept as a prefix, and what is added first is the generation that was active, with its capture and restore |
| `BridgeSteps.ExtendsTransitive` | crates/howy-config-bridge/src/lib.rs:2318-2342 | growing a history twice is growing it |
| `BridgeRuns.RunAll` | crates/howy-config-bridge/src/lib.rs:484-686 | every durable disk of every run from clean controls, with processes dying at any boundary or between any two durable steps and arbitrary edits of the configuration in between, obeys the marker and history rules, and the history is append-only along the run |
| `BridgeRuns.SoundFollowsRules` | crates/howy-config-bridge/src/lib.rs:281-311 | a sound disk never has a marker beside a bootstrap or restore journal, binds the marker to the restored generation and transaction, and has history exactly 1 to active-1, at most 64 |
| `BridgeRuns.FreshInstallBegins` | crates/howy-config-bridge/src/lib.rs:484-539 | a packaged legacy file over clean controls is a disk from which installation converges |
| `BridgeRuns.StashedCanRestore` | crates/howy-config-bridge/src/lib.rs:1343-1385 | after a stash, each replacement the packager may make is a disk from which restore converges |
| `BridgeRuns.CapturedIsOriginal` | crates/howy-config-bridge/src/lib.rs:1427-1443 | what the active generation captured is the configuration that was live at the stash |
| `BridgeRuns.Reattest` | crates/howy-config-bridge/src/lib.rs:544-554 | on a restored generation without a journal a bootstrap or completion succeeds if and only if the generation verifies, changes only the marker, and is accepted if and only if, before the call, the owner is safe and the live file is the restored object |
| `BridgeRuns.Succeed` | crates/howy-config-bridge/src/lib.rs:484-554 | from any sound disk, journaled or not, a success is accepted if and only if the disk before the call was acceptable: nothing to restore, a safely owned capture still to be restored, or an intact and safely owned restored file; a committed restore that no longer verifies is accepted when absence was captured, rejected for an unsafe owner, and otherwise accepted exactly when the republished file has the recorded identity |
| `BridgeGoals.RepublishedVerdict` | crates/howy-config-bridge/src/lib.rs:1049-1123 | the last case: what a recovery that brings a committed restore back once more leaves is accepted exactly so |
| `BridgeRuns.RunUntampered` | crates/howy-config-bridge/src/lib.rs:484-768 | in every run in which only the bridge touches a restored configuration, however commands are ordered and killed and whatever is done to a configuration that is not restored, every success is accepted exactly when the owner is safe |
| `BridgeGoals.MarkedAccepts` | crates/howy-config-bridge/src/lib.rs:697-768 | on a sound, marked disk the marker validator accepts if and only if ownership is safe and, when a generation was restored, the live file is still the restored object |
| `BridgeMarker.AcceptsExactly` | crates/howy-config-bridge/src/lib.rs:697-768 | over every disk, on its fields: the marker is accepted if and only if there is no journal, no stage name of any kind, a private and well-formed marker that names the live configuration of the expected owner or its absence, and either no generation and no manifest, or a generation, restore transaction and exact target that agree with a valid restored manifest and its stash |
| `BridgeMarker.StructureExactly` | crates/howy-config-bridge/src/lib.rs:711-768 | the same without the live configuration, for the structural validator |
| `BridgeMarker.RecordsCompared` | crates/howy-config-bridge/src/lib.rs:2753-2766 | two records are the same object exactly if they differ at most in access time, and match logically exactly if they differ at most in access time and identity |
| `BridgeMarker.StatesCompared` | crates/howy-config-bridge/src/lib.rs:2379-2401 | the same of captured configurations, where absences match exactly if they are of the same directory |
| `BridgeMarker.ManifestExactly` | crates/howy-config-bridge/src/lib.rs:281-311 | a manifest is valid exactly with this release and schema, a captured or restored active generation, and at most 64 well-formed consumed generations, all below it and pairwise increasing |
| `BridgeCounterexample.CopiedConfigRejected` | crates/howy-config-bridge/src/lib.rs:1387-1425 | a bootstrap that runs to success on a sound disk and leaves a marker the validator rejects: the restored file had been replaced by a copy with equal bytes and metadata |
| `BridgeCounterexample.OriginalAccepted` | crates/howy-config-bridge/src/lib.rs:697-768 | before that one edit the same disk is accepted |
| `BridgeGoals.ChronicleFits` | crates/howy-config-bridge/src/lib.rs:2494-2504 | every manifest the bridge can produce serialises below the control-file cap, full history included |
| `BridgeSteps.CleanIsSound` | crates/howy-config-bridge/src/lib.rs:832-921 | absent controls and stages satisfy the invariant |
| `BridgeSteps.ConfigIsFree` | crates/howy-config-bridge/src/lib.rs:1749-1770 | the invariant survives any outside change of the configuration |
| `BridgeSteps.NextIsChronicle` | crates/howy-config-bridge/src/lib.rs:2318-2342 | consuming a restored generation yields a history that is again exactly the lower generations |
| `BridgeSteps.RestoredIsChronicle` | crates/howy-config-bridge/src/lib.rs:1049-1123 | restoring the active generation leaves the history in order |
| `BridgeSteps.ManifestStaged` | crates/howy-config-bridge/src/lib.rs:1531-1665 | staging a successor manifest keeps the invariant |
| `BridgeSteps.ManifestExchanged` | crates/howy-config-bridge/src/lib.rs:1531-1665 | exchanging manifest and stage keeps the invariant |
| `BridgeSteps.ManifestPublished` | crates/howy-config-bridge/src/lib.rs:1531-1665 | publishing the first manifest keeps the invariant |
| `BridgeSteps.StashPublished` | crates/howy-config-bridge/src/lib.rs:1464-1510 | publishing a stash keeps the invariant |
| `BridgeSteps.MarkerPublished` | crates/howy-config-bridge/src/lib.rs:1667-1717 | publishing a marker that fits the manifest keeps the invariant |
| `BridgeSteps.JournalDropped` | crates/howy-config-bridge/src/lib.rs:1829-1835 | removing a finished journal keeps the invariant |
| `BridgeSteps.BootstrapJournaled` | crates/howy-config-bridge/src/lib.rs:484-539 | opening an installation journal keeps the invariant |
| `BridgeSteps.StashJournaled` | crates/howy-config-bridge/src/lib.rs:587-681 | opening a stash journal keeps the invariant |
| `BridgeSteps.RestoreJournaled` | crates/howy-config-bridge/src/lib.rs:1343-1385 | opening a restore journal keeps the invariant |
| `BridgeNames.DecimalRoundTrip` | crates/howy-config-bridge/src/lib.rs:2247-2257 | a printed generation number parses back to itself |
| `BridgeNames.DecimalDigits` | crates/howy-config-bridge/src/lib.rs:2375-2377 | a stash path is the fixed prefix and the generation in decimal, most significant digit first and without a leading zero |
| `BridgeNames.StashPathInjective` | crates/howy-config-bridge/src/lib.rs:2375-2377 | distinct generations have distinct stash paths |
| `BridgeNames.MentionsIsContainment` | crates/howy-config-bridge/src/lib.rs:2043-2062 | the orphan scan finds a transaction id exactly where it occurs in a stage name |
| `BridgeNames.OccursOnlyAsOwn` | crates/howy-config-bridge/src/lib.rs:2043-2062 | a stage name contains a transaction id only as its own |
| `BridgeNames.StageNamesDistinct` | crates/howy-config-bridge/src/lib.rs:2156-2172 | the stage names of one transaction are pairwise distinct |
| `BridgeRules.ValidateManifest` | crates/howy-config-bridge/src/lib.rs:281-311 | the loop accepts exactly the manifests with a valid header, active generation and strictly increasing consumed history below it |
| `BridgeGoals.VerifiedExactly` | crates/howy-config-bridge/src/lib.rs:1387-1425 | verification accepts exactly a live configuration with the captured bytes and metadata, or its captured absence, that logically matches the recorded target |
| `ConfigBridgeModule.ConfigBridge.BootstrapReleaseN` | crates/howy-config-bridge/src/lib.rs:484-539 | a success leaves a marked disk, accepted exactly as the disk before decides, or, for a republished file with a safe owner, as its new identity does; on the way of an installation or restore, and on a restored generation that verifies, it never refuses; without a journal it succeeds only from an intact source over the bootstrap or an unmarked legacy, or by a restore that ends in the capture |
| `ConfigBridgeModule.ConfigBridge.CompleteReleaseN` | crates/howy-config-bridge/src/lib.rs:544-554 | as bootstrap for a restore, with the same verdict; without a journal and a manifest it refuses if and only if the configuration cannot be read, cannot be named or has an unsafe owner, changes only the marker, and otherwise reports a verified upgrade whose marker the validator accepts |
| `ConfigBridgeModule.ConfigBridge.CreateIfAbsent` | crates/howy-config-bridge/src/lib.rs:556-585 | without a journal it refuses if and only if the source is not intact or a restored generation does not verify, and otherwise creates exactly when the path is free; a creation is the last durable step, at a path that was free just before it, and does nothing else; an existing configuration is untouched |
| `ConfigBridgeModule.ConfigBridge.StashReleaseN` | crates/howy-config-bridge/src/lib.rs:587-681 | a success captures the live configuration; without a journal it succeeds only from a readable configuration that is not yet captured, or is exactly so; an unrestored capture is left exactly alone; a full history is refused without any change |
| `ConfigBridgeModule.ConfigBridge.Recover` | crates/howy-config-bridge/src/lib.rs:683-686 | leaves no journal and no stage, and stays on the way of whatever was interrupted |
| `ConfigBridgeModule.ConfigBridge.RecoverLocked` | crates/howy-config-bridge/src/lib.rs:832-921 | with a journal, completes or resumes its operation; without one, revalidates a restored generation on request; a stage name of another transaction is refused before anything is changed |
| `ConfigBridgeModule.ConfigBridge.RecoverIdle` | crates/howy-config-bridge/src/lib.rs:832-921 | changes nothing but the marker, and that only for a restored generation that verifies |
| `ConfigBridgeModule.ConfigBridge.RecoverBootstrap` | crates/howy-config-bridge/src/lib.rs:923-990 | ends with the bootstrap payload live and its stage gone; it succeeds only, and on the way never refuses, from an intact source, a pinned legacy record and one of the four phases of the exchange |
| `ConfigBridgeModule.ConfigBridge.RecoverStash` | crates/howy-config-bridge/src/lib.rs:993-1047 | ends with the journaled manifest committed and no marker, only if the configuration is still the captured one and the marker the recorded one; never refuses on the way |
| `ConfigBridgeModule.ConfigBridge.RecoverRestore` | crates/howy-config-bridge/src/lib.rs:1049-1123 | ends with the captured generation live and committed as restored, only if the manifest is the recorded object or already committed; records a restore once, never refuses on the way, leaves an intact target intact, and decides acceptance no differently unless a committed restore no longer verified |
| `ConfigBridgeModule.ConfigBridge.RestoreConfigState` | crates/howy-config-bridge/src/lib.rs:1125-1341 | ends with exactly the captured bytes and metadata, or exactly the captured absence; only a legacy payload is ever displaced |
| `ConfigBridgeModule.ConfigBridge.RestoreManifest` | crates/howy-config-bridge/src/lib.rs:1343-1385 | restores an unrestored generation or re-marks a restored one |
| `ConfigBridgeModule.ConfigBridge.EnsureStashFile` | crates/howy-config-bridge/src/lib.rs:1464-1510 | ends with a stash of the live bytes, and changes nothing else |
| `ConfigBridgeModule.ConfigBridge.ReplaceManifest` | crates/howy-config-bridge/src/lib.rs:1531-1665 | the manifest is at every moment the old one or exactly the new one |
| `ConfigBridgeModule.ConfigBridge.EnsureMarker` | crates/howy-config-bridge/src/lib.rs:1667-1717 | ends with a marker naming the given state; a marker that already does is left alone, and a new one is exactly of this schema, release, transaction, generation and state |
| `ConfigBridgeModule.ConfigBridge.WriteJournal` | crates/howy-config-bridge/src/lib.rs:1799-1827 | the journal appears whole or not at all, and only when there was none |
| `ConfigBridgeModule.ConfigBridge.DropExact` | crates/howy-config-bridge/src/lib.rs:2628-2651 | unlinks only the recorded object, and refuses only when it is another |
| `ConfigBridgeModule.ConfigBridge.LinkNoReplace` | crates/howy-config-bridge/src/lib.rs:1838-1982 | refuses exactly when the name is taken, and otherwise links there |
| `ConfigBridgeModule.ConfigBridge.CreateStage` | crates/howy-config-bridge/src/lib.rs:2506-2560 | writes a stage the journal owns, or refuses when the name is taken |
| `ConfigBridgeModule.ConfigBridge.ExchangeConfig` | crates/howy-config-bridge/src/lib.rs:923-990 | the live legacy and the stage are exchanged together or not at all |
| `ConfigBridgeModule.ConfigBridge.BackupConfig` | crates/howy-config-bridge/src/lib.rs:1125-1341 | the live legacy moves to a free backup name or stays |
| `ConfigBridgeModule.ConfigBridge.Boundary` | crates/howy-config-bridge/src/lib.rs:2075-2093 | a process is killed exactly when its countdown is at zero, and otherwise the countdown goes down by one |
| `PayloadCodec.PayloadReadsBack` | crates/howy-common/src/storage/codec.rs:100-244 | every valid entry list decodes back from its payload |
| `PayloadCodec.PayloadCanonical` | crates/howy-common/src/storage/codec.rs:149-244 | every accepted payload is the encoding of the valid entries it yields |
| `PayloadCodec.PayloadLength` | crates/howy-common/src/storage/mod.rs:57-66 | valid entries always fit the plaintext cap |
| `PayloadCodec.PayloadLayout` | crates/howy-common/src/storage/codec.rs:126-142 | byte by byte: version, zero field and count at 0, 2 and 4, then each entry with id, creation time, label length, zero field, label and the 512 embedding words at their distances, little-endian, and nothing else |
| `PayloadCodec.PayloadWhole` | crates/howy-common/src/storage/codec.rs:149-244 | no payload is the beginning of another |
| `PayloadCodec.EncodeCanonicalPayload` | crates/howy-common/src/storage/codec.rs:100-144 | the encoder emits the specified bytes within the cap and never refuses valid entries |
| `PayloadCodec.DecodeCanonicalPayload` | crates/howy-common/src/storage/codec.rs:149-244 | the offset-advancing decoder agrees with the specification on every input, errors included |
| `PayloadCodec.ReadEntry` | crates/howy-common/src/storage/codec.rs:153-244 | one entry read through the cursor agrees with the specification, errors included |
| `PayloadCodec.Reader.Take` | crates/howy-common/src/storage/codec.rs:740-753 | the cursor yields exactly the next bytes or fails without moving past the end |
| `RecordCodec.PlainReadsBack` | crates/howy-common/src/storage/codec.rs:246-313 | every valid plain record decodes back to itself |
| `RecordCodec.PlainCanonical` | crates/howy-common/src/storage/codec.rs:269-313 | every accepted plain record re-encodes to the same bytes |
| `RecordCodec.PlainAcceptsExactly` | crates/howy-common/src/storage/codec.rs:246-313 | the accepted plain records are exactly the encodings of valid records with the expected user and model |
| `RecordCodec.PlainLayout` | crates/howy-common/src/storage/codec.rs:257-264 | byte by byte: magic, version, flags, generation, model digest, username length and username at 0, 8, 10, 12, 20, 52 and 54, then the payload |
| `RecordCodec.PlainWhole` | crates/howy-common/src/storage/codec.rs:269-313 | no truncation and no continuation of an accepted plain record is accepted, under whatever bindings |
| `RecordCodec.PlainInspectedExactly` | crates/howy-common/src/storage/codec.rs:321-418 | inspection accepts exactly a valid header with the expected bindings and a payload head with an admitted count, in front of a source of a length that count allows |
| `RecordCodec.PlainInspectionAgrees` | crates/howy-common/src/storage/codec.rs:321-418 | inspecting only a prefix and the length reports what full decoding would |
| `RecordCodec.SealedHeaderReadsBack` | crates/howy-common/src/storage/codec.rs:434-598 | every valid sealed header is recovered whatever follows it |
| `RecordCodec.SealedHeaderParsed` | crates/howy-common/src/storage/codec.rs:498-598 | every accepted header is valid, is exactly the bytes before the body, and fixes the total length |
| `RecordCodec.ContractIsMet` | crates/howy-common/src/storage/codec.rs:434-496 | the contract asked of the cipher can be met |
| `RecordCodec.SealedReadsBack` | crates/howy-common/src/storage/codec.rs:434-723 | every valid record sealed under any key and nonce opens to itself |
| `RecordCodec.SealedCanonical` | crates/howy-common/src/storage/codec.rs:673-723 | every opened record re-seals under its own header to the same bytes |
| `RecordCodec.SealedAcceptsExactly` | crates/howy-common/src/storage/codec.rs:434-723 | exactly the sealings of valid records with the expected bindings, under some nonce, are accepted |
| `RecordCodec.SealedHeaderLayout` | crates/howy-common/src/storage/codec.rs:464-478 | byte by byte: the fields of the public header at their offsets from 0 to 88, little-endian, whatever follows |
| `RecordCodec.SealedLayout` | crates/howy-common/src/storage/codec.rs:480-494 | after the header come a ciphertext of the payload's length and a tag of 16 bytes, which open with the header's own bytes as associated data to the canonical payload |
| `RecordCodec.SealedWhole` | crates/howy-common/src/storage/codec.rs:673-723 | no truncation and no continuation of an accepted sealed record is accepted, under whatever key and bindings |
| `RecordCodec.SealedInspectionAgrees` | crates/howy-common/src/storage/codec.rs:614-667 | inspecting only the header and the length reports what full opening would |
| `RecordCodec.SealedInspectedExactly` | crates/howy-common/src/storage/codec.rs:614-667 | inspection accepts exactly a valid header with the expected bindings and within the configured limits, in front of a source of the announced length |
| `RecordCodec.EncodeHowypln1` | crates/howy-common/src/storage/codec.rs:246-266 | the plain encoder emits the specified bytes |
| `RecordCodec.DecodeHowypln1` | crates/howy-common/src/storage/codec.rs:269-313 | the plain decoder agrees with the specification, errors included |
| `RecordCodec.EncodeHowyenc1WithNonce` | crates/howy-common/src/storage/codec.rs:434-496 | the sealing encoder emits the specified bytes and refuses epoch zero |
| `RecordCodec.InspectHowyenc1HeaderPrefix` | crates/howy-common/src/storage/codec.rs:498-598 | the header reader agrees with the specification, errors included |
| `RecordCodec.DecodeHowyenc1` | crates/howy-common/src/storage/codec.rs:673-723 | the opening decoder agrees with the specification, errors included |
| `Bytes.ReadsBack` | crates/howy-common/src/storage/codec.rs:755-777 | in-range integers survive little-endian encoding |
| `Bytes.WritesBack` | crates/howy-common/src/storage/codec.rs:755-777 | every byte string of a width is the encoding of one in-range integer |
| `Bytes.ByteAt` | crates/howy-common/src/storage/codec.rs:128-138 | byte i of an encoded integer is its digit of weight 256 to the i: least significant first |
| `Bytes.ReadingIsWeighted` | crates/howy-common/src/storage/codec.rs:755-777 | a read integer is the sum of its bytes, byte i weighted by 256 to the i |
| `StorageTypes.Utf8Exactly` | crates/howy-common/src/storage/codec.rs:219-224 | a label passes exactly when it is the UTF-8 form of section 3 of RFC 3629 of some Unicode scalar values |
| `LatestSlot.BehaviourKeeps` | crates/howy-daemon/src/camera.rs:1300-1411 | the slot invariant holds in every state of every interleaving |
| `LatestSlot.NextKeeps` | crates/howy-daemon/src/camera.rs:1588-1631 | each atomic step keeps it |
| `LatestSlot.NoLostWakeup` | crates/howy-daemon/src/camera.rs:1588-1604 | a blocked consumer with a full slot can wake now or after the worker's next step, and is never told the worker is gone |
| `LatestSlot.EnrollmentDeliversAll` | crates/howy-daemon/src/camera.rs:1618-1631 | during enrollment the delivered messages are all published ones, in order, but for the one in the slot |
| `LatestSlot.EnrollmentNeverOverwrites` | crates/howy-daemon/src/camera.rs:1618-1631 | during enrollment a message is stored only into an empty slot |
| `LatestSlot.TakeYieldsNewest` | crates/howy-daemon/src/camera.rs:1606-1616 | a take yields the newest message, and takes never repeat or go back |
| `LatestSlot.AuthenticationNeverWaits` | crates/howy-daemon/src/camera.rs:1349-1360 | outside enrollment the worker never waits on the slot: the loop head leads straight to the next capture unless cancelled, and a captured message can be stored at once |
| `PromptClient.Converse` | crates/howy-common/src/ipc.rs:434-658 | over any calls in any order and the destructor, at most one begin and one conclusion are sent, the conclusion carries the accepted token and the sent nonce, and an accepted transaction is concluded exactly once whenever requests can be sent |
| `PromptClient.PromptAuthClient.BeginAdaptive` | crates/howy-common/src/ipc.rs:508-566 | a valid begin is sent once; the client is armed exactly by a valid prompt that echoes the nonce, prompt-off is reported exactly for its own code, and every other answer finishes the client |
| `PromptClient.PromptAuthClient.TakePending` | crates/howy-common/src/ipc.rs:631-637 | the pending transaction is handed out once |
| `PromptClient.PromptAuthClient.CommitPrompt` | crates/howy-common/src/ipc.rs:568-589 | one commit with the accepted token; only a terminal reply is returned |
| `PromptClient.PromptAuthClient.CancelPrompt` | crates/howy-common/src/ipc.rs:597-623 | one cancel with the accepted token; success means an acknowledgement echoing version and nonce |
| `PromptClient.PromptAuthClient.IntoInner` | crates/howy-common/src/ipc.rs:443-452 | giving the stream back cancels an armed transaction first |
| `PromptClient.PromptAuthClient.Drop` | crates/howy-common/src/ipc.rs:647-658 | the destructor cancels a transaction that is still pending, and only then |
| `PromptClient.ConstantTimeEqual` | crates/howy-common/src/ipc.rs:687-696 | the accumulating comparison is equality |
| `FaceMatch.FindBestMatch` | crates/howy-common/src/face.rs:209-239 | succeeds exactly on well-sized vectors and reports the first best clamped score, with an index exactly when it reaches the threshold |
| `FaceMatch.FindBestMatchFlat` | crates/howy-common/src/face.rs:246-277 | reports the first best score over the rows of the flat buffer |
| `FaceMatch.FlatAgrees` | crates/howy-common/src/face.rs:246-277 | on normalised vectors the flat search returns the same index and score as the checked one |
| `FaceMatch.ClampIsIdentity` | crates/howy-common/src/face.rs:195-205 | normalised vectors have a similarity in [-1, 1] |
| `FaceMatch.ReportsUnique` | crates/howy-common/src/face.rs:209-239 | the reported match is determined by the scores and the threshold |
| `FaceMatch.DotProduct` | crates/howy-common/src/face.rs:188-192 | the accumulation is the inner product |
| `FaceMatch.DotIsLinear` | crates/howy-common/src/face.rs:188-192 | the inner product is symmetric and linear |
| `FaceMatch.DotOfUnit` | crates/howy-common/src/face.rs:188-192 | its product with a unit vector is the component, which with linearity determines it |
| `Alignment.EstimateSimilarityTransform` | crates/howy-daemon/src/inference.rs:1661-1742 | the warp is the two-sided inverse of a transform that no similarity transform beats on the five pairs; it is the identity instead exactly if the summed squared distance of the sources from their mean, or the squared scale of that transform, is below 1e-10 |
| `Alignment.StationaryMinimises` | crates/howy-daemon/src/inference.rs:1654-1742 | a transform with vanishing gradient minimises the residual over all similarity transforms |
| `Alignment.OptimumUnique` | crates/howy-daemon/src/inference.rs:1691-1742 | sources that differ at all have one best transform, so the pairs determine whether the estimate falls back |
| `Alignment.ErrorIsDistance` | crates/howy-daemon/src/inference.rs:1654-1661 | the error of a pair is the squared distance of the target from the mapped source |
| `Alignment.ForwardIsStationary` | crates/howy-daemon/src/inference.rs:1704-1728 | the closed-form estimate has vanishing gradient |
| `Alignment.InverseUndoes` | crates/howy-daemon/src/inference.rs:1730-1741 | the returned coefficients undo the forward transform on both sides |
| `Alignment.ResidualIsQuadratic` | crates/howy-daemon/src/inference.rs:1654-1661 | the summed squared error is a quadratic in the transform with the accumulated sums as coefficients |
| `Alignment.PlainSums` | crates/howy-daemon/src/inference.rs:1669-1692 | the first pass accumulates the plain sums |
| `Alignment.CentredSums` | crates/howy-daemon/src/inference.rs:1704-1723 | the second pass accumulates the centred products |
| `Preprocess.PreprocessDetection` | crates/howy-daemon/src/inference.rs:1281-1401 | whatever the buffer held, every cell of the three planes ends as the reference says, on the identity path and on the scaled path |
| `Preprocess.CellSees` | crates/howy-daemon/src/inference.rs:1366-1400 | a reference cell inside the image is, taken back through the normalisation, the byte of the frame at the written-out index: of the covering pixel, red in plane 0, from a frame that stores blue first; at scale one the pixel of the same coordinates |
| `Preprocess.PaddingSees` | crates/howy-daemon/src/inference.rs:1334-1363 | outside the image it is the value of a black pixel |
| `Preprocess.DetectorSees` | crates/howy-daemon/src/inference.rs:1299-1332 | the planes follow one another in the buffer, each row by row |
| `Preprocess.FitsAndTouches` | crates/howy-daemon/src/inference.rs:1294-1298 | the scaled image fits the detector input and touches its right or bottom edge |
| `Preprocess.SamplesCovering` | crates/howy-daemon/src/inference.rs:1371-1380 | the sampled source pixel is the one whose scaled span holds the detector coordinate, so the clamp never binds |
| `Preprocess.IdentityScale` | crates/howy-daemon/src/inference.rs:1303-1305 | the guard of the identity path holds only at scale one |
| `Preprocess.CopyRow` | crates/howy-daemon/src/inference.rs:1303-1332 | a row of the identity path equals the reference row |
| `Preprocess.RemapRow` | crates/howy-daemon/src/inference.rs:1366-1400 | a row of the scaled path equals the reference row and leaves its padding alone |
| `Preprocess.PadRow` | crates/howy-daemon/src/inference.rs:1334-1363 | padding fills exactly the cells outside the image |
| `Preprocess.AtInjective` | crates/howy-daemon/src/inference.rs:1299-1301 | the three planes do not overlap and no two cells share an element |
| `Scrfd.ValidateOutputs` | crates/howy-daemon/src/inference.rs:745-762 | nine outputs are accepted exactly when each has the shape, length and finite values of its stride and group |
| `Scrfd.ValidateOutput` | crates/howy-daemon/src/inference.rs:698-743 | one output is accepted exactly when it fits |
| `Scrfd.PostprocessScrfd` | crates/howy-daemon/src/inference.rs:1408-1512 | validated outputs never index out of range or overflow the reserved capacity; the reported faces are the greedy selection of the candidates, inside the image, above the threshold, with every dropped candidate covered |
| `Scrfd.CandidatesExact` | crates/howy-daemon/src/inference.rs:1433-1505 | a face is a candidate if and only if it is what the tensors of one of the three strides say of one of the two anchors of one cell, with a score above the threshold: none is missed, none is added |
| `Scrfd.AnchorPlaced` | crates/howy-daemon/src/inference.rs:1459-1472 | anchor 2 (cy w + cx) + k of a feature map w cells wide sits at cx and cy strides, for every cell and k below 2 |
| `Scrfd.DecodedExactly` | crates/howy-daemon/src/inference.rs:1470-1503 | a face is decoded from an anchor if and only if its score is the anchor's, each edge is the clamped pixel that holds the anchor's cell plus or minus the distance in strides, and each landmark, scaled back, is the cell plus the tensor's offset in strides, at the tensor indices written out |
| `Scrfd.PushLevel` | crates/howy-daemon/src/inference.rs:1433-1505 | a stride contributes exactly the candidates above the threshold, in anchor order |
| `Scrfd.CandidatesSound` | crates/howy-daemon/src/inference.rs:1470-1503 | every candidate lies inside the image and scores above the threshold |
| `Scrfd.DecodedIsBoxed` | crates/howy-daemon/src/inference.rs:1470-1487 | distances that are not negative decode to a box with ordered corners |
| `Scrfd.CellInRange` | crates/howy-daemon/src/inference.rs:1459-1466 | the cell guard never skips an anchor of a validated output |
| `Scrfd.MaximumCandidates` | crates/howy-daemon/src/inference.rs:1417-1432 | the reserved capacity is the number of anchors, refused exactly on overflow |
| `Scrfd.CapacityFits` | crates/howy-daemon/src/inference.rs:1417-1432 | after validation that capacity cannot overflow |
| `Scrfd.InferenceScratch` | crates/howy-daemon/src/inference.rs:605-689 | the charge is defined exactly for aligned dimensions whose total fits the machine word, and is then the stated sum |
| `Scrfd.ScratchCovers` | crates/howy-daemon/src/inference.rs:605-689 | inputs, all outputs, candidates, reported faces and suppression bytes of one frame fit the charge, and so does the recognition phase |
| `Scrfd.ScratchTight` | crates/howy-daemon/src/inference.rs:605-689 | an aligned input has 42 anchors to each 32 by 32 block, and the charge is exactly the two inputs and the larger phase when every anchor is a reported face |
| `Nms.Suppressed` | crates/howy-daemon/src/inference.rs:1515-1543 | kept faces descend in score, overlap pairwise by at most the threshold, and every dropped face is covered by a kept one that scores no less; the result is the greedy selection over the sorted faces |
| `Nms.SortSorts` | crates/howy-daemon/src/inference.rs:1516-1520 | sorting permutes, descends and keeps equal scores in order |
| `Nms.Suppress` | crates/howy-daemon/src/inference.rs:1534-1541 | the inner loop suppresses exactly the later faces that overlap |
| `Nms.IouIsOverlap` | crates/howy-daemon/src/inference.rs:1545-1557 | the overlap measure is symmetric and in [0, 1] for ordered boxes |
| `Nms.IouCountsCells` | crates/howy-daemon/src/inference.rs:1545-1557 | for boxes with ordered corners it is the number of unit cells in both over the number in either, or 0 when there is none |
| `Nms.IouOfItself` | crates/howy-daemon/src/inference.rs:1545-1557 | a box that is not empty has overlap 1 with itself |
| `Nms.IouOfDisjoint` | crates/howy-daemon/src/inference.rs:1545-1557 | boxes without a common cell have overlap 0 |
| `ImportFormat.PrintParses` | crates/howy-cli/src/importer.rs:75-113 | every admissible list of frames survives printing and parsing, and anything after it is rejected as trailing |
| `ImportFormat.ParsePrints` | crates/howy-cli/src/importer.rs:390-443 | every accepted stream is the print of the frames it yields, within all limits |
| `ImportFormat.PartialRejected` | crates/howy-cli/src/importer.rs:390-443 | no strict prefix of a whole stream is accepted, and no prefix at all of one that stopped before its last frame |
| `ImportFormat.FrameReadsBack` | crates/howy-cli/src/importer.rs:390-443 | one printed frame parses back whatever follows |
| `ImportFormat.FrameParsed` | crates/howy-cli/src/importer.rs:390-443 | one accepted frame is valid and is exactly the bytes read |
| `ImportFormat.StreamLayout` | crates/howy-cli/src/importer.rs:90-111 | byte by byte: magic, version and count at 0, 8 and 12, then each frame with its number, width, height, length and bitmap, little-endian, and the trailer, and nothing else |
| `Importer.ConsumeFramedStream` | crates/howy-cli/src/importer.rs:390-443 | for every way the pipe splits the bytes, the outcome and the staged files are those of the specification unless the pipe itself fails, and a steady pipe does not |
| `Importer.Pipe.ReadExact` | crates/howy-cli/src/importer.rs:499-532 | short reads and interruptions never change the bytes read |
| `Importer.Pipe.ExpectEof` | crates/howy-cli/src/importer.rs:445-464 | succeeds exactly at the end of the stream |
| `Importer.CopyBody` | crates/howy-cli/src/importer.rs:466-497 | buffered copying reads the same bytes as one read of the whole length |
| `Importer.WriteStagedFrame` | crates/howy-cli/src/importer.rs:466-497 | a frame is listed only when complete, with exactly its bytes |
| `Importer.RunImporter` | crates/howy-cli/src/importer.rs:75-113 | the child prints the whole session, or fails exactly when a limit is exceeded, and then nothing it printed, in part or in full, is acceptable |
| `Importer.ImportDelivers` | crates/howy-cli/src/importer.rs:75-443 | what the child prints the parent accepts, and every staged bitmap unpacks to the pixels of its image |
| `Importer.ImportSession` | crates/howy-cli/src/importer.rs:241-282 | whether the child fails on a limit, dies after any number of bytes or exits badly, success means every image was staged in order; an admitted session read to its end over a steady pipe succeeds |
| `Bmp.NormalizedBmpLen` | crates/howy-cli/src/importer.rs:772-794 | defined exactly for admitted dimensions, and then header plus padded rows |
| `Bmp.WriteNormalizedBmp` | crates/howy-cli/src/importer.rs:796-838 | succeeds exactly for admitted dimensions and a matching pixel count, with the specified bitmap |
| `Bmp.HeaderExact` | crates/howy-cli/src/importer.rs:840-862 | the receiver accepts exactly the header the writer emits |
| `Bmp.HeaderLayout` | crates/howy-cli/src/importer.rs:817-827 | byte by byte: the twelve fields of the header at their offsets, little-endian |
| `Bmp.LengthFits` | crates/howy-cli/src/importer.rs:772-838 | every admitted length and dimension fits the header fields |
| `Bmp.PixelAt` | crates/howy-cli/src/importer.rs:826-836 | channel c of pixel (x, y) is stored bottom-up, reversed, at the stated offset |
| `Bmp.PixelPlace` | crates/howy-cli/src/importer.rs:826-836 | the same on the bytes: rows bottom-up, each as long as the next multiple of four, blue before green before red, taken from the row-major pixels |
| `Bmp.UnpackRecovers` | crates/howy-cli/src/importer.rs:796-838 | unpacking a written bitmap gives back the pixels |
| `Bmp.NormalizedIsBitmap` | crates/howy-cli/src/importer.rs:796-838 | a byte string is a written bitmap if and only if length, header and zero padding are right |

## Left out

- BridgeRuns.InstallConverges, BridgeRuns.RestoreConverges, BridgeRuns.StashConverges, BridgeRuns.PreserveConverges: kills fall on the bridge's named boundaries; a stage torn inside a single write is covered by the safety results but not by convergence.
- ConfigBridgeModule.ConfigBridge.LinkNoReplace: the named-temporary fallback for file systems without unnamed temporaries is not modelled, nor are file and directory syncs.
- BridgeGoals.ChronicleFits: serialised lengths use fixed-width field accounting, not the JSON printer's exact text.
- RecordCodec.SealedReadsBack, RecordCodec.SealedCanonical: AES-256-GCM is any cipher that keeps the contract of sections 7.1 and 7.2 of NIST SP 800-38D (opening undoes sealing, and only sealed text opens); its confidentiality and nonce generation are not modelled.
- RecordCodec.PlainInspectedExactly, RecordCodec.SealedInspectedExactly: the two metadata inspectors are functions, since the property is about their results; their cursor is not repeated.
- FaceMatch.FindBestMatch, FaceMatch.FlatAgrees: exact reals, so the rounding of 32-bit sums and the rejection of non-finite values are not modelled.
- Alignment.EstimateSimilarityTransform: exact reals, so the rounding of 32-bit sums is not modelled.
- Preprocess.PreprocessDetection: exact reals, so a scale that rounds in 32 bits may give an image one pixel smaller or larger than the model's.
- Scrfd.PostprocessScrfd: box arithmetic is exact; truncation and saturation to 32-bit integers are modelled.
- Scrfd.InferenceScratch: the size of a face record is that of a 64-bit target.
- Nms.Suppressed: scores are reals, so the comparison of not-a-number scores (excluded by output validation) does not arise.
- Importer.ConsumeFramedStream: the deadline is the end of a list of poll results; time itself is not modelled. File creation in the staging directory cannot fail in the model.
- Importer.ImportSession: privilege dropping, resource limits and image decoding are not modelled; how the child exits is a parameter.
- PromptClient.Converse: message framing and zeroisation of secrets are not modelled; deadlines are outcomes of an exchange.
- LatestSlot.BehaviourKeeps: backend start-up, format negotiation and frame decoding are one abstract capture step.
- The daemon's server, session and credential cache, and the PAM module.
- Camera format conversion, ffmpeg supervision and device discovery.
- Recognizer output validation and the affine warp of the recognizer input.
- Legacy template formats and their migration, key files and key epochs.
- The command-line interface other than image import.
- Directory layout creation, locking and permission checks of the bridge's parent directories.
