/**
 The data of the release-N configuration bridge: file records, generation
 states, manifests, markers, journals, and the part of the filesystem that the
 bridge reads and writes.

 SHA-256 is idealised as injective: a digest is the content it was taken from.
 A control document is idealised as the value it parses to plus the number of
 extra bytes by which its text exceeds the canonical serialisation.
 */
module BridgeTypes {

  import opened Wrappers

  /** How a bridge call ends: with a value, by refusing, or by being killed at a boundary. */
  datatype Outcome<+T> = Done(value: T) | Refused | Interrupted {
    predicate IsFailure() { !Done? }

    function PropagateFailure<U>(): Outcome<U>
      requires !Done?
    {
      if Refused? then Refused else Interrupted
    }

    function Extract(): T
      requires Done?
    {
      value
    }
  }

  const MAX_CONFIG_BYTES: nat := 1_048_576
  const MAX_CONTROL_BYTES: nat := 262_144
  const MAX_CONSUMED_GENERATIONS: nat := 64
  const LEGACY_SIZE: nat := 3_740
  const BOOTSTRAP_SIZE: nat := 1_381
  const SCHEMA_VERSION: nat := 2
  const MARKER_SCHEMA_VERSION: nat := 1
  const U64_MAX: nat := 0xFFFF_FFFF_FFFF_FFFF

  const MODE_600: nat := 384
  const MODE_644: nat := 420
  const MODE_MASK: nat := 4095

  type TransactionId = string

  datatype Timestamp = Timestamp(seconds: int, nanoseconds: nat)

  datatype FileMetadata = FileMetadata(
    uid: nat, gid: nat, permissions: nat, linkCount: nat, byteLength: nat,
    accessed: Timestamp, modified: Timestamp)

  datatype Digest = Sha256(preimage: Content) | MalformedDigest

  datatype FileRecord = FileRecord(device: nat, inode: nat, sha256: Digest, metadata: FileMetadata)

  datatype AbsenceRecord = AbsenceRecord(parentDevice: nat, parentInode: nat)

  datatype ConfigState = ConfigAbsent(absence: AbsenceRecord) | ConfigPresent(file: FileRecord)

  datatype GenerationState =
    | Absent(absence: AbsenceRecord)
    | PresentStashed(source: FileRecord, stashPath: string, stashSha256: Digest, stashSize: nat)
    | Restored(captured: GenerationState, restoredTarget: ConfigState, restoreTransactionId: TransactionId)
    | ConsumedRefreshable(captured: GenerationState, restoredTarget: ConfigState,
                          restoreTransactionId: TransactionId, consumedByTransactionId: TransactionId)

  datatype GenerationRecord = GenerationRecord(
    generation: nat, stashTransactionId: TransactionId, state: GenerationState)

  datatype StashManifest = StashManifest(
    schemaVersion: nat, releaseId: string, configPath: string,
    active: GenerationRecord, consumed: seq<GenerationRecord>)

  datatype BootstrapMarker = BootstrapMarker(
    schemaVersion: nat, releaseId: string, transactionId: TransactionId,
    generation: Option<nat>, config: ConfigState)

  datatype StageSuffix = BootstrapSuffix | RestoreSuffix | BackupSuffix | ManifestSuffix

  /** A name that the orphan scan considers: one of the bridge's own stages, or any other
      file name that starts with one of the three stage prefixes. */
  datatype StageName =
    | ConfigStage(transactionId: TransactionId, suffix: StageSuffix)
    | ControlStage(transactionId: TransactionId, suffix: StageSuffix)
    | UnknownStage(fileName: string)

  datatype Journal =
    | BootstrapJournal(schemaVersion: nat, transactionId: TransactionId,
                       legacy: FileRecord, configStage: StageName)
    | StashJournal(schemaVersion: nat, transactionId: TransactionId, source: ConfigState,
                   previousManifest: Option<FileRecord>, newManifest: StashManifest,
                   manifestStage: StageName, marker: Option<FileRecord>)
    | RestoreJournal(schemaVersion: nat, transactionId: TransactionId, manifest: FileRecord,
                     generation: nat, configStage: StageName, configBackup: StageName,
                     manifestStage: StageName)

  /** The bytes of a file. */
  datatype Content =
    | LegacyPayload
    | BootstrapPayload
    | Text(bytes: seq<nat>)
    | JournalText(journal: Journal, padding: nat)
    | ManifestText(manifest: StashManifest, padding: nat)
    | MarkerText(marker: BootstrapMarker, padding: nat)

  /** What a directory entry leads to. */
  datatype Node =
    | Regular(device: nat, inode: nat, metadata: FileMetadata, content: Content)
    | Special

  /** The expected owner of every control. */
  datatype Env = Env(uid: nat, gid: nat)

  /** Every name the bridge looks at. The three stage maps are the stage-prefixed names of
      /etc/howy, of the state directory and of /var/lib. */
  datatype Disk = Disk(
    config: Option<Node>,
    source: Option<Node>,
    journal: Option<Node>,
    manifest: Option<Node>,
    marker: Option<Node>,
    stashes: map<string, Node>,
    configStages: map<StageName, Node>,
    controlStages: map<StageName, Node>,
    markerStages: map<StageName, Node>,
    etcHowy: AbsenceRecord)
}
