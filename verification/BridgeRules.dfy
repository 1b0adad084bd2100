/**
 The pure checks of the bridge: file records, identity and logical matching,
 schema validation of every control, and the readers that turn a disk into a
 snapshot or a refusal.
 */
module BridgeRules {
  import opened Wrappers
  import opened BridgeTypes
  import opened BridgeNames

  const RELEASE_ID: string := "release-n"
  const CONFIG_PATH: string := "/etc/howy/config.toml"

  // ----- byte lengths -----

  /** Fixed-width accounting for the JSON text of a generation state: every field at its widest. */
  function StateLength(s: GenerationState): nat {
    match s
    case Absent(_) => 160
    case PresentStashed(_, path, _, _) => 900 + |path|
    case Restored(captured, _, _) => 800 + StateLength(captured)
    case ConsumedRefreshable(captured, _, _, _) => 900 + StateLength(captured)
  }

  function HistoryLength(gs: seq<GenerationRecord>): nat {
    if gs == [] then 0 else HistoryLength(gs[..|gs| - 1]) + 160 + StateLength(gs[|gs| - 1].state)
  }

  function ManifestLength(m: StashManifest): nat {
    416 + StateLength(m.active.state) + HistoryLength(m.consumed)
  }

  function JournalLength(j: Journal): nat {
    match j
    case BootstrapJournal(_, _, _, _) => 1_024
    case StashJournal(_, _, _, _, m, _, _) => 4_096 + ManifestLength(m)
    case RestoreJournal(_, _, _, _, _, _, _) => 2_048
  }

  function Length(c: Content): nat {
    match c
    case LegacyPayload => LEGACY_SIZE
    case BootstrapPayload => BOOTSTRAP_SIZE
    case Text(bytes) => |bytes|
    case JournalText(j, padding) => JournalLength(j) + padding
    case ManifestText(m, padding) => ManifestLength(m) + padding
    case MarkerText(_, padding) => 1_024 + padding
  }

  // ----- records -----

  predicate ValidTimestamp(t: Timestamp) { t.nanoseconds <= 999_999_999 }

  predicate ValidRecord(r: FileRecord) {
    && r.device != 0
    && r.inode != 0
    && r.sha256.Sha256?
    && r.metadata.linkCount == 1
    && r.metadata.permissions <= MODE_MASK
    && r.metadata.byteLength <= MAX_CONFIG_BYTES
    && ValidTimestamp(r.metadata.accessed)
    && ValidTimestamp(r.metadata.modified)
  }

  predicate ValidAbsence(a: AbsenceRecord) { a.parentDevice != 0 && a.parentInode != 0 }

  predicate ValidConfigState(s: ConfigState) {
    match s
    case ConfigAbsent(a) => ValidAbsence(a)
    case ConfigPresent(f) => ValidRecord(f)
  }

  /** Same bytes and metadata; the identity and the access time are free. */
  predicate LogicallyMatches(l: FileRecord, r: FileRecord) {
    && l.sha256 == r.sha256
    && l.metadata.uid == r.metadata.uid
    && l.metadata.gid == r.metadata.gid
    && l.metadata.permissions == r.metadata.permissions
    && l.metadata.linkCount == r.metadata.linkCount
    && l.metadata.byteLength == r.metadata.byteLength
    && l.metadata.modified == r.metadata.modified
  }

  predicate SameObject(l: FileRecord, r: FileRecord) {
    l.device == r.device && l.inode == r.inode && LogicallyMatches(l, r)
  }

  predicate StatesLogicallyMatch(l: ConfigState, r: ConfigState) {
    match (l, r)
    case (ConfigAbsent(a), ConfigAbsent(b)) => a == b
    case (ConfigPresent(f), ConfigPresent(g)) => LogicallyMatches(f, g)
    case _ => false
  }

  predicate StatesExactlyMatch(l: ConfigState, r: ConfigState) {
    match (l, r)
    case (ConfigAbsent(a), ConfigAbsent(b)) => a == b
    case (ConfigPresent(f), ConfigPresent(g)) => SameObject(f, g)
    case _ => false
  }

  // ----- reading files -----

  function RecordOf(n: Node): FileRecord
    requires n.Regular?
  {
    FileRecord(n.device, n.inode, Sha256(n.content), n.metadata)
  }

  predicate Readable(n: Node, maximum: nat) {
    && n.Regular?
    && n.metadata.byteLength <= maximum
    && n.metadata.byteLength == Length(n.content)
    && ValidRecord(RecordOf(n))
  }

  /** Nothing, or a single-link regular file of bounded size whose record is canonical. */
  function ReadRegular(n: Option<Node>, maximum: nat): Outcome<Option<Node>> {
    if n.None? || Readable(n.value, maximum) then Done(n) else Refused
  }

  function At<K, V>(m: map<K, V>, k: K): Option<V> { if k in m then Some(m[k]) else None }

  predicate ControlRecord(e: Env, r: FileRecord) {
    && r.metadata.uid == e.uid
    && r.metadata.gid == e.gid
    && r.metadata.permissions == MODE_600
    && r.metadata.linkCount == 1
  }

  predicate ExactRecord(e: Env, r: FileRecord, mode: nat, size: nat, payload: Content) {
    && r.metadata.uid == e.uid
    && r.metadata.gid == e.gid
    && r.metadata.permissions == mode
    && r.metadata.linkCount == 1
    && r.metadata.byteLength == size
    && r.sha256 == Sha256(payload)
  }

  /** The exact packaged release-N payload. */
  predicate ExactLegacy(e: Env, n: Node)
    requires n.Regular?
  {
    ExactRecord(e, RecordOf(n), MODE_644, LEGACY_SIZE, LegacyPayload)
  }

  /** The exact installed disabled bootstrap. */
  predicate ExactBootstrap(e: Env, n: Node)
    requires n.Regular?
  {
    ExactRecord(e, RecordOf(n), MODE_600, BOOTSTRAP_SIZE, BootstrapPayload)
  }

  predicate PinnedLegacyRecord(e: Env, r: FileRecord) {
    && ValidRecord(r)
    && r.sha256 == Sha256(LegacyPayload)
    && r.metadata.byteLength == LEGACY_SIZE
    && r.metadata.uid == e.uid
    && r.metadata.gid == e.gid
    && r.metadata.permissions == MODE_644
  }

  // ----- schema validation -----

  predicate ValidPresentCapture(source: FileRecord, path: string, sha256: Digest, size: nat) {
    && ValidRecord(source)
    && ValidStashPath(path)
    && sha256 == source.sha256
    && size == source.metadata.byteLength
  }

  predicate ValidCaptured(s: GenerationState) {
    match s
    case Absent(a) => ValidAbsence(a)
    case PresentStashed(source, path, sha256, size) => ValidPresentCapture(source, path, sha256, size)
    case _ => false
  }

  predicate ValidActive(s: GenerationState) {
    match s
    case Absent(_) => ValidCaptured(s)
    case PresentStashed(_, _, _, _) => ValidCaptured(s)
    case Restored(captured, target, t) => ValidCaptured(captured) && ValidConfigState(target) && ValidTransactionId(t)
    case ConsumedRefreshable(_, _, _, _) => false
  }

  predicate ValidConsumed(s: GenerationState) {
    && s.ConsumedRefreshable?
    && ValidCaptured(s.captured)
    && ValidConfigState(s.restoredTarget)
    && ValidTransactionId(s.restoreTransactionId)
    && ValidTransactionId(s.consumedByTransactionId)
  }

  predicate ValidHistoryEntry(g: GenerationRecord) {
    ValidTransactionId(g.stashTransactionId) && ValidConsumed(g.state)
  }

  predicate ValidHeader(m: StashManifest) {
    && m.schemaVersion == SCHEMA_VERSION
    && m.releaseId == RELEASE_ID
    && m.configPath == CONFIG_PATH
    && m.active.generation != 0
    && |m.consumed| <= MAX_CONSUMED_GENERATIONS
  }

  /** Generations of the history are positive, strictly increasing, and below the active one. */
  predicate OrderedBelow(gs: seq<GenerationRecord>, limit: nat) {
    && (forall i :: 0 <= i < |gs| ==> 0 < gs[i].generation < limit)
    && (forall i :: 0 < i < |gs| ==> gs[i - 1].generation < gs[i].generation)
  }

  predicate ValidManifest(m: StashManifest) {
    && ValidHeader(m)
    && ValidTransactionId(m.active.stashTransactionId)
    && ValidActive(m.active.state)
    && OrderedBelow(m.consumed, m.active.generation)
    && forall i :: 0 <= i < |m.consumed| ==> ValidHistoryEntry(m.consumed[i])
  }

  method ValidateManifest(m: StashManifest) returns (valid: bool)
    ensures valid <==> ValidManifest(m)
  {
    hide ValidHeader, ValidTransactionId, ValidActive, ValidHistoryEntry;
    if !ValidHeader(m) || !ValidTransactionId(m.active.stashTransactionId) || !ValidActive(m.active.state) {
      return false;
    }
    var prior := 0;
    for k := 0 to |m.consumed|
      invariant OrderedBelow(m.consumed[..k], m.active.generation)
      invariant forall i :: 0 <= i < k ==> ValidHistoryEntry(m.consumed[i])
      invariant prior == if k == 0 then 0 else m.consumed[k - 1].generation
    {
      var generation := m.consumed[k];
      if generation.generation == 0 || generation.generation >= m.active.generation
         || generation.generation <= prior
      {
        assert m.consumed[k].generation <= prior ==>
          k == 0 || !(m.consumed[k - 1].generation < m.consumed[k].generation);
        return false;
      }
      if !ValidHistoryEntry(generation) {
        return false;
      }
      prior := generation.generation;
    }
    assert m.consumed[..|m.consumed|] == m.consumed;
    return true;
  }

  predicate ValidMarker(m: BootstrapMarker) {
    && m.schemaVersion == MARKER_SCHEMA_VERSION
    && m.releaseId == RELEASE_ID
    && ValidTransactionId(m.transactionId)
    && m.generation != Some(0)
    && ValidConfigState(m.config)
  }

  predicate ValidOptionalRecord(r: Option<FileRecord>) { r.Some? ==> ValidRecord(r.value) }

  predicate ValidJournal(j: Journal) {
    && j.schemaVersion == SCHEMA_VERSION
    && ValidTransactionId(j.transactionId)
    && match j
       case BootstrapJournal(_, t, legacy, stage) =>
         ValidRecord(legacy) && stage == ConfigStage(t, BootstrapSuffix)
       case StashJournal(_, t, source, previous, newManifest, stage, marker) =>
         && ValidConfigState(source)
         && ValidOptionalRecord(previous)
         && ValidManifest(newManifest)
         && stage == ControlStage(t, ManifestSuffix)
         && ValidOptionalRecord(marker)
       case RestoreJournal(_, t, manifest, generation, stage, backup, manifestStage) =>
         && ValidRecord(manifest)
         && generation != 0
         && stage == ConfigStage(t, RestoreSuffix)
         && backup == ConfigStage(t, BackupSuffix)
         && manifestStage == ControlStage(t, ManifestSuffix)
  }

  // ----- readers -----

  datatype ManifestRead = ManifestRead(manifest: StashManifest, record: FileRecord)

  datatype JournalRead = JournalRead(journal: Journal, record: FileRecord)

  /** A control file of the expected owner and mode, or a refusal. */
  function ReadControl(e: Env, n: Option<Node>): Outcome<Option<Node>> {
    if n.None? || (Readable(n.value, MAX_CONTROL_BYTES) && ControlRecord(e, RecordOf(n.value)))
    then Done(n) else Refused
  }

  function ReadJournal(e: Env, n: Option<Node>): Outcome<Option<JournalRead>> {
    match ReadControl(e, n)
    case Done(Some(s)) =>
      if s.content.JournalText? && ValidJournal(s.content.journal)
      then Done(Some(JournalRead(s.content.journal, RecordOf(s)))) else Refused
    case Done(None) => Done(None)
    case _ => Refused
  }

  /** The stash file that a captured generation points to is present, safe and of the recorded digest. */
  predicate StashMatches(e: Env, stashes: map<string, Node>, s: GenerationState)
    requires s.PresentStashed?
  {
    match ReadRegular(At(stashes, s.stashPath), MAX_CONFIG_BYTES)
    case Done(Some(stash)) =>
      && ControlRecord(e, RecordOf(stash))
      && RecordOf(stash).sha256 == s.stashSha256
      && stash.metadata.byteLength == s.stashSize
    case _ => false
  }

  function Capture(s: GenerationState): GenerationState { if s.Restored? then s.captured else s }

  function ReadManifest(e: Env, n: Option<Node>, stashes: map<string, Node>): (r: Outcome<Option<ManifestRead>>)
    ensures !r.Interrupted?
    ensures r.Done? ==> (r.value.Some? <==> n.Some?)
  {
    match ReadControl(e, n)
    case Done(Some(s)) =>
      if s.content.ManifestText? && ValidManifest(s.content.manifest)
      then
        var m := s.content.manifest;
        var captured := Capture(m.active.state);
        if captured.PresentStashed? && !StashMatches(e, stashes, captured) then Refused
        else Done(Some(ManifestRead(m, RecordOf(s))))
      else Refused
    case Done(None) => Done(None)
    case _ => Refused
  }

  function SnapshotConfig(n: Option<Node>, etcHowy: AbsenceRecord): Outcome<ConfigState> {
    match ReadRegular(n, MAX_CONFIG_BYTES)
    case Done(Some(s)) => Done(ConfigPresent(RecordOf(s)))
    case Done(None) => Done(ConfigAbsent(etcHowy))
    case _ => Refused
  }

  predicate SourceIntact(e: Env, n: Option<Node>) {
    && n.Some?
    && Readable(n.value, MAX_CONFIG_BYTES)
    && ExactRecord(e, RecordOf(n.value), MODE_644, BOOTSTRAP_SIZE, BootstrapPayload)
  }

  predicate SafeCompletion(e: Env, s: ConfigState) {
    match s
    case ConfigAbsent(_) => true
    case ConfigPresent(f) =>
      && f.metadata.uid == e.uid
      && f.metadata.gid == e.gid
      && f.metadata.linkCount == 1
      && f.metadata.byteLength <= MAX_CONFIG_BYTES
  }

  predicate StashableState(s: ConfigState) {
    match s
    case ConfigAbsent(_) => true
    case ConfigPresent(f) => f.metadata.linkCount == 1 && f.metadata.byteLength <= MAX_CONFIG_BYTES
  }

  /** No stage-prefixed name that the transaction, if there is one, does not own. */
  predicate NoForeignStages(d: Disk, owner: Option<TransactionId>) {
    forall n | n in d.configStages.Keys + d.controlStages.Keys + d.markerStages.Keys ::
      owner.Some? && Mentions(n, owner.value)
  }

  // ----- generations -----

  function NextGeneration(g: nat): nat { if g >= U64_MAX then U64_MAX else g + 1 }

  function CaptureState(source: ConfigState, generation: nat): GenerationState {
    match source
    case ConfigAbsent(a) => Absent(a)
    case ConfigPresent(f) =>
      PresentStashed(f, StashPath(generation), f.sha256, f.metadata.byteLength)
  }

  function ConsumeRestored(active: GenerationRecord, t: TransactionId): Outcome<GenerationRecord> {
    if active.state.Restored? then
      Done(GenerationRecord(active.generation, active.stashTransactionId,
                            ConsumedRefreshable(active.state.captured, active.state.restoredTarget,
                                                active.state.restoreTransactionId, t)))
    else Refused
  }

  /** The manifest a stash of `source` commits: generation 1, or a refresh of a restored generation. */
  function NextManifest(existing: Option<StashManifest>, t: TransactionId, source: ConfigState)
    : Outcome<StashManifest>
  {
    if existing.None? then
      Done(StashManifest(SCHEMA_VERSION, RELEASE_ID, CONFIG_PATH,
                         GenerationRecord(1, t, CaptureState(source, 1)), []))
    else
      var prior := existing.value;
      var generation := NextGeneration(prior.active.generation);
      var consumed := ConsumeRestored(prior.active, t);
      if consumed.IsFailure() || |prior.consumed| >= MAX_CONSUMED_GENERATIONS then Refused
      else
        Done(StashManifest(SCHEMA_VERSION, RELEASE_ID, CONFIG_PATH,
                           GenerationRecord(generation, t, CaptureState(source, generation)),
                           prior.consumed + [consumed.value]))
  }

  /** The manifest a completed restore commits. */
  function RestoredManifest(m: StashManifest, target: ConfigState, t: TransactionId): StashManifest {
    m.(active := m.active.(state := Restored(m.active.state, target, t)))
  }
}
