/**
 How far a journaled operation has come. Each phase predicate holds at every point
 where a killed process can leave the disk, and is what the next run starts from.
 */
module BridgePhases {
  import opened Wrappers
  import opened BridgeTypes
  import opened BridgeNames
  import opened BridgeRules
  import opened BridgeInvariant
  import opened BridgeSteps

  /** A name that a file can be linked to or unlinked from. */
  datatype Slot =
    | ConfigSlot
    | JournalSlot
    | ManifestSlot
    | MarkerSlot
    | StashSlot(path: string)
    | ConfigStageSlot(name: StageName)
    | ControlStageSlot(name: StageName)

  function Get(d: Disk, s: Slot): Option<Node> {
    match s
    case ConfigSlot => d.config
    case JournalSlot => d.journal
    case ManifestSlot => d.manifest
    case MarkerSlot => d.marker
    case StashSlot(path) => At(d.stashes, path)
    case ConfigStageSlot(n) => At(d.configStages, n)
    case ControlStageSlot(n) => At(d.controlStages, n)
  }

  function Link(d: Disk, s: Slot, n: Node): Disk {
    match s
    case ConfigSlot => d.(config := Some(n))
    case JournalSlot => d.(journal := Some(n))
    case ManifestSlot => d.(manifest := Some(n))
    case MarkerSlot => d.(marker := Some(n))
    case StashSlot(path) => d.(stashes := d.stashes[path := n])
    case ConfigStageSlot(name) => d.(configStages := d.configStages[name := n])
    case ControlStageSlot(name) => d.(controlStages := d.controlStages[name := n])
  }

  function Unlink(d: Disk, s: Slot): Disk {
    match s
    case ConfigSlot => d.(config := None)
    case JournalSlot => d.(journal := None)
    case ManifestSlot => d.(manifest := None)
    case MarkerSlot => d.(marker := None)
    case StashSlot(path) => d.(stashes := d.stashes - {path})
    case ConfigStageSlot(name) => d.(configStages := d.configStages - {name})
    case ControlStageSlot(name) => d.(controlStages := d.controlStages - {name})
  }

  function Exchanged(d: Disk, name: StageName): Disk
    requires d.config.Some? && name in d.configStages
  {
    d.(config := Some(d.configStages[name]), configStages := d.configStages[name := d.config.value])
  }

  function BackedUp(d: Disk, name: StageName): Disk
    requires d.config.Some?
  {
    d.(config := None, configStages := d.configStages[name := d.config.value])
  }

  function ManifestSwapped(d: Disk, name: StageName): Disk
    requires d.manifest.Some? && name in d.controlStages
  {
    d.(manifest := Some(d.controlStages[name]), controlStages := d.controlStages[name := d.manifest.value])
  }

  lemma LinkKeeps(e: Env, d: Disk, s: Slot, n: Node)
    requires Get(d, s).None?
    ensures KeepStep(e, d, Link(d, s, n))
    ensures HistoryKept(d.manifest, Link(d, s, n).manifest)
  {}

  /** Only the exact legacy payload is ever moved away from the configuration path, and only to an owned stage. */
  lemma DisplacementKeeps(e: Env, d: Disk, name: StageName)
    requires LegacyAt(e, d.config) && OwnsStage(e, d.journal, name)
    ensures d.config.Some? && KeepStep(e, d, BackedUp(d, name))
    ensures name in d.configStages ==> KeepStep(e, d, Exchanged(d, name))
  {}

  /** Unlinking is allowed for journal-owned stages, the marker, and a valid journal. */
  predicate MayUnlink(e: Env, d: Disk, s: Slot) {
    match s
    case JournalSlot => ReadJournal(e, d.journal).Done?
    case MarkerSlot => true
    case ConfigStageSlot(n) => OwnsStage(e, d.journal, n)
    case ControlStageSlot(n) => OwnsStage(e, d.journal, n)
    case _ => false
  }

  /** A file just written with the given bytes, owner and mode, and with the given timestamps if any. */
  predicate Written(n: Node, c: Content, uid: nat, gid: nat, mode: nat, times: Option<FileMetadata>) {
    && n.Regular? && n.device != 0 && n.inode != 0 && n.content == c
    && n.metadata.uid == uid && n.metadata.gid == gid && n.metadata.permissions == mode
    && n.metadata.linkCount == 1 && n.metadata.byteLength == Length(c)
    && ValidTimestamp(n.metadata.accessed) && ValidTimestamp(n.metadata.modified)
    && (times.Some? ==> n.metadata.accessed == times.value.accessed && n.metadata.modified == times.value.modified)
  }

  ghost predicate Grew(a: seq<Disk>, b: seq<Disk>) {
    |a| <= |b| && forall i :: 0 <= i < |a| ==> a[i] == b[i]
  }

  ghost predicate KeptAlong(e: Env, s: seq<Disk>) {
    forall i :: 0 < i < |s| ==> KeepStep(e, s[i - 1], s[i])
  }

  ghost predicate SoundAlong(e: Env, s: seq<Disk>) {
    && (forall i :: 0 <= i < |s| ==> Inv(e, s[i]))
    && (forall i :: 0 < i < |s| ==> HistoryKept(s[i - 1].manifest, s[i].manifest))
  }

  /** The last durable step put a configuration at a path that was free, and did nothing else. */
  ghost predicate CreatedLast(s: seq<Disk>) {
    && |s| > 1
    && s[|s| - 2].config.None?
    && s[|s| - 1] == s[|s| - 2].(config := s[|s| - 1].config)
  }

  // ----- phases used by the contracts -----

  predicate ReadsJournal(e: Env, n: Option<Node>, j: Journal) {
    match ReadJournal(e, n)
    case Done(Some(r)) => r.journal == j
    case _ => false
  }

  predicate MarkerReadable(e: Env, n: Option<Node>) {
    match ReadControl(e, n)
    case Done(Some(s)) => s.content.MarkerText? && ValidMarker(s.content.marker)
    case _ => false
  }

  /** The marker names this generation and binds this exact configuration object. */
  predicate MarkerNames(e: Env, n: Option<Node>, generation: Option<nat>, state: ConfigState) {
    && MarkerReadable(e, n)
    && MarkerOn(n).Some?
    && MarkerOn(n).value.generation == generation
    && StatesExactlyMatch(MarkerOn(n).value.config, state)
  }

  /** A marker of this generation and transaction may be published next to the current manifest. */
  predicate MarkerFits(manifest: Option<Node>, t: TransactionId, generation: Option<nat>) {
    match ManifestOn(manifest)
    case None => generation.None?
    case Some(m) =>
      && m.active.state.Restored?
      && generation == Some(m.active.generation)
      && t == m.active.state.restoreTransactionId
  }

  /** Where a journaled bootstrap stands: legacy live, staged, exchanged, or done. */
  predicate BootPhase(e: Env, j: Journal, d: Disk)
    requires j.BootstrapJournal?
  {
    var stage := At(d.configStages, j.configStage);
    || (IsObject(d.config, j.legacy) && (stage.None? || BootstrapAt(e, stage)))
    || (BootstrapAt(e, d.config) && (stage.None? || IsObject(stage, j.legacy)))
  }

  lemma JournalOwnsStages(e: Env, n: Option<Node>, j: Journal)
    requires ReadsJournal(e, n, j)
    ensures ValidJournal(j) && JournalOn(n) == Some(j)
    ensures !j.StashJournal? ==> OwnsStage(e, n, j.configStage)
    ensures j.RestoreJournal? ==> OwnsStage(e, n, j.configBackup)
    ensures !j.BootstrapJournal? ==> OwnsStage(e, n, j.manifestStage)
  {}

  lemma BootstrapStageAllowed(e: Env, d: Disk, j: Journal)
    requires Inv(e, d) && ReadsJournal(e, d.journal, j) && j.BootstrapJournal?
    ensures StagesAllowed(d.journal, d.manifest, d.configStages.Keys + {j.configStage})
  {}

  /** Reading the manifest slot and its stage gives nothing or a bounded regular file. */
  predicate ControlReadable(n: Option<Node>) { ReadRegular(n, MAX_CONTROL_BYTES).Done? }

  /** Where the replacement of the manifest by content `c` stands. */
  predicate ReplacePhase(e: Env, manifest: Option<Node>, staged: Option<Node>, prior: Option<FileRecord>, c: Content) {
    && ControlReadable(manifest)
    && ControlReadable(staged)
    && if prior.None? then manifest.None? || Held(e, manifest, c)
       else
         || (Held(e, manifest, c) && (staged.None? || IsObject(staged, prior.value)))
         || (IsObject(manifest, prior.value) && !Held(e, manifest, c) && (staged.None? || Held(e, staged, c)))
  }

  /** `n` is what the journal is about to make of the manifest, or has made of it already. */
  predicate NewFits(manifest: Option<Node>, j: Journal, n: StashManifest)
    requires !j.BootstrapJournal?
  {
    match ManifestOn(manifest)
    case None => j.StashJournal? && n == j.newManifest
    case Some(m) => if Committed(j, m) then n == m else Successor(j, m, n)
  }

  /** The live configuration is still the object, or the absence, that the stash captured. */
  predicate SourceUnchanged(source: ConfigState, config: Option<Node>, etcHowy: AbsenceRecord) {
    match source
    case ConfigAbsent(a) => config.None? && a == etcHowy
    case ConfigPresent(f) => IsObject(config, f)
  }

  /** The journal binds its new manifest to its transaction and its captured source. */
  predicate StashBinds(j: Journal)
    requires j.StashJournal?
  {
    && j.newManifest.active.stashTransactionId == j.transactionId
    && j.newManifest.active.state == CaptureState(j.source, j.newManifest.active.generation)
    && ManifestLength(j.newManifest) <= MAX_CONTROL_BYTES
  }

  predicate StashFree(e: Env, stashes: map<string, Node>, s: GenerationState) {
    s.PresentStashed? && s.stashPath in stashes ==> StashMatches(e, stashes, s)
  }

  predicate MarkerOwned(e: Env, marker: Option<Node>, expected: Option<FileRecord>) {
    marker.Some? ==> expected.Some? && IsObject(marker, expected.value) && ReadControl(e, marker).Done?
  }

  /** Where a journaled stash stands. */
  predicate StashPhase(e: Env, j: Journal, d: Disk)
    requires j.StashJournal?
  {
    && StashBinds(j)
    && SourceUnchanged(j.source, d.config, d.etcHowy)
    && StashFree(e, d.stashes, j.newManifest.active.state)
    && MarkerOwned(e, d.marker, j.marker)
    && ReplacePhase(e, d.manifest, At(d.controlStages, j.manifestStage), j.previousManifest,
                    ManifestText(j.newManifest, 0))
  }

  lemma StashPhaseParts(e: Env, j: Journal, d: Disk)
    requires j.StashJournal? && StashPhase(e, j, d)
    ensures ReplacePhase(e, d.manifest, At(d.controlStages, j.manifestStage), j.previousManifest,
                         ManifestText(j.newManifest, 0))
    ensures MarkerOwned(e, d.marker, j.marker)
    ensures ManifestLength(j.newManifest) <= MAX_CONTROL_BYTES
  {}

  lemma StashPhaseMoves(e: Env, j: Journal, d: Disk, d': Disk)
    requires j.StashJournal? && StashPhase(e, j, d)
    requires d' == d.(manifest := d'.manifest, controlStages := d'.controlStages, marker := d'.marker)
    requires ReplacePhase(e, d'.manifest, At(d'.controlStages, j.manifestStage), j.previousManifest,
                          ManifestText(j.newManifest, 0))
    requires MarkerOwned(e, d'.marker, j.marker)
    ensures StashPhase(e, j, d')
  {}

  lemma StashNewFits(e: Env, d: Disk, j: Journal)
    requires Inv(e, d) && JournalOn(d.journal) == Some(j) && j.StashJournal?
    ensures NewFits(d.manifest, j, j.newManifest)
    ensures j.newManifest.active.state == CaptureState(j.source, j.newManifest.active.generation)
    ensures (j.source.ConfigPresent? ==> StashMatches(e, d.stashes, j.newManifest.active.state)) ==>
      StashKept(e, d.stashes, Capture(j.newManifest.active.state))
  {}

  lemma StashFinished(e: Env, d: Disk, j: Journal)
    requires Inv(e, d) && JournalOn(d.journal) == Some(j) && j.StashJournal?
    requires ManifestOn(d.manifest) == Some(j.newManifest) && d.marker.None?
    requires j.previousManifest.Some? ==> j.manifestStage !in d.controlStages
    ensures Finished(d, j)
  {}

  /** A readable file with the bytes and metadata of `source`. */
  predicate Matches(n: Option<Node>, source: FileRecord) {
    n.Some? && n.value.Regular? && Readable(n.value, MAX_CONFIG_BYTES) && LogicallyMatches(RecordOf(n.value), source)
  }

  /** The configuration is what the captured generation says, and no config stage is left. */
  predicate ConfigRestored(e: Env, captured: GenerationState, j: Journal, d: Disk)
    requires j.RestoreJournal?
  {
    && RestoreStage(j, captured) !in d.configStages
    && match captured
       case Absent(a) => d.config.None? && d.etcHowy == a
       case PresentStashed(source, _, _, _) => Matches(d.config, source)
       case _ => false
  }

  /** Where the restoration of the configuration stands. */
  predicate RestoreConfigPhase(e: Env, captured: GenerationState, j: Journal, d: Disk)
    requires j.RestoreJournal?
  {
    var stage := At(d.configStages, RestoreStage(j, captured));
    match captured
    case Absent(a) =>
      && d.etcHowy == a
      && (|| ((d.config.None? || LegacyAt(e, d.config)) && stage.None?)
          || (d.config.None? && LegacyAt(e, stage)))
    case PresentStashed(source, _, _, _) =>
      && StashMatches(e, d.stashes, captured)
      && (|| (d.config.None? && stage.None?)
          || (LegacyAt(e, d.config) && !Matches(d.config, source) && (stage.None? || Matches(stage, source)))
          || (Matches(d.config, source) && (stage.None? || LegacyAt(e, stage))))
    case _ => false
  }

  /** What `verify_restored_manifest` accepts: the live state of a restored generation. */
  function VerifyRestored(m: StashManifest, config: Option<Node>, etcHowy: AbsenceRecord): (r: Outcome<ConfigState>)
    ensures !r.Interrupted?
  {
    var live := SnapshotConfig(config, etcHowy);
    if live.IsFailure() || !m.active.state.Restored? then Refused
    else
      var captured := m.active.state.captured;
      if captured.Absent? && live.value.ConfigPresent? then Refused
      else if captured.PresentStashed?
              && !(live.value.ConfigPresent? && LogicallyMatches(live.value.file, captured.source)) then Refused
      else if !Unrestored(captured) || !StatesLogicallyMatch(live.value, m.active.state.restoredTarget) then Refused
      else live
  }

  /** The recorded restore target is the very object that is live now. */
  predicate TargetLive(m: StashManifest, config: Option<Node>, etcHowy: AbsenceRecord) {
    && m.active.state.Restored?
    && SnapshotConfig(config, etcHowy).Done?
    && StatesExactlyMatch(SnapshotConfig(config, etcHowy).value, m.active.state.restoredTarget)
  }

  /** The restored manifest is in place; at most the exchanged old one is still at the stage name. */
  predicate RestoreCommitted(e: Env, j: Journal, d: Disk, m: StashManifest)
    requires j.RestoreJournal?
  {
    var staged := At(d.controlStages, j.manifestStage);
    && ConfigRestored(e, Capture(m.active.state), j, d)
    && VerifyRestored(m, d.config, d.etcHowy).Done?
    && TargetLive(m, d.config, d.etcHowy)
    && (staged.None? || (IsObject(staged, j.manifest) && ControlReadable(staged)))
  }

  /** The captured manifest is in place; its successor is staged only once the configuration is restored. */
  predicate RestorePending(e: Env, j: Journal, d: Disk, m: StashManifest)
    requires j.RestoreJournal?
  {
    var staged := At(d.controlStages, j.manifestStage);
    var live := SnapshotConfig(d.config, d.etcHowy);
    && Unrestored(m.active.state)
    && IsObject(d.manifest, j.manifest)
    && ManifestLength(m) + 800 <= MAX_CONTROL_BYTES
    && (staged.Some? ==>
          && ConfigRestored(e, m.active.state, j, d)
          && live.Done?
          && Held(e, staged, ManifestText(RestoredManifest(m, live.value, j.transactionId), 0)))
  }

  /** The manifest that a restore of `m` commits. */
  function RestoreGoal(m: StashManifest, j: Journal, state: ConfigState): StashManifest
    requires j.RestoreJournal?
  {
    if Committed(j, m) then m else RestoredManifest(m, state, j.transactionId)
  }

  /** Where a journaled restore stands. */
  predicate RestorePhase(e: Env, j: Journal, d: Disk)
    requires j.RestoreJournal?
  {
    && ManifestOn(d.manifest).Some?
    && var m := ManifestOn(d.manifest).value;
       && Held(e, d.manifest, ManifestText(m, 0))
       && ReadManifest(e, d.manifest, d.stashes).Done?
       && m.active.generation == j.generation
       && RestoreConfigPhase(e, Capture(m.active.state), j, d)
       && if Committed(j, m) then RestoreCommitted(e, j, d, m) else RestorePending(e, j, d, m)
  }

  lemma CapturedValid(m: StashManifest)
    requires ValidManifest(m)
    ensures var captured := if m.active.state.Restored? then m.active.state.captured else m.active.state;
            Unrestored(captured) ==> ValidCaptured(captured)
    ensures m.active.state.Restored? ==> Unrestored(m.active.state.captured)
  {}

  /** What a finished restore leaves: the captured configuration live, its manifest restored and verified. */
  predicate RestoreComplete(e: Env, j: Journal, d: Disk, state: ConfigState)
    requires j.RestoreJournal?
  {
    && ManifestOn(d.manifest).Some?
    && var m := ManifestOn(d.manifest).value;
       && Committed(j, m)
       && m.active.generation == j.generation
       && ConfigRestored(e, m.active.state.captured, j, d)
       && j.manifestStage !in d.controlStages
       && ReadManifest(e, d.manifest, d.stashes).Done?
       && VerifyRestored(m, d.config, d.etcHowy) == Done(state)
  }

  lemma ManifestReadIs(e: Env, n: Option<Node>, stashes: map<string, Node>)
    requires ReadManifest(e, n, stashes).Done? && n.Some?
    ensures ManifestOn(n).Some? && ValidManifest(ManifestOn(n).value) && ControlReadable(n)
    ensures ValidRecord(RecordOf(n.value))
    ensures ReadManifest(e, n, stashes).value == Some(ManifestRead(ManifestOn(n).value, RecordOf(n.value)))
  {}

  /** The manifest of a restore, before and after its commit, reads the same stash. */
  lemma CommitReads(e: Env, d: Disk, m: StashManifest, n: Option<Node>, state: ConfigState, t: TransactionId)
    requires ManifestOn(d.manifest) == Some(m) && ReadManifest(e, d.manifest, d.stashes).Done?
    requires Unrestored(m.active.state) && ValidConfigState(state) && ValidTransactionId(t)
    requires Held(e, n, ManifestText(RestoredManifest(m, state, t), 0))
    ensures ReadManifest(e, n, d.stashes).Done?
  {
    RestoredValid(m, state, t);
  }

  lemma RestorePhaseEntersReplace(e: Env, j: Journal, d: Disk, m: StashManifest, state: ConfigState)
    requires j.RestoreJournal? && RestorePhase(e, j, d) && ManifestOn(d.manifest) == Some(m)
    requires ConfigRestored(e, Capture(m.active.state), j, d) && SnapshotConfig(d.config, d.etcHowy) == Done(state)
    ensures ReplacePhase(e, d.manifest, At(d.controlStages, j.manifestStage), Some(j.manifest),
                         ManifestText(RestoreGoal(m, j, state), 0))
    ensures ManifestLength(RestoreGoal(m, j, state)) <= MAX_CONTROL_BYTES
  {}

  lemma RestorePhaseVerifies(e: Env, j: Journal, d: Disk, n: StashManifest)
    requires j.RestoreJournal? && RestorePhase(e, j, d) && ManifestOn(d.manifest) == Some(n) && Committed(j, n)
    ensures ReadManifest(e, d.manifest, d.stashes).Done? && VerifyRestored(n, d.config, d.etcHowy).Done?
  {}

  lemma RestorePhaseSurvivesReplace(e: Env, j: Journal, d: Disk, d': Disk, m: StashManifest, state: ConfigState)
    requires j.RestoreJournal? && ValidJournal(j) && RestorePhase(e, j, d) && ManifestOn(d.manifest) == Some(m)
    requires ValidManifest(m)
    requires ConfigRestored(e, Capture(m.active.state), j, d)
    requires SnapshotConfig(d.config, d.etcHowy) == Done(state) && ValidConfigState(state)
    requires d' == d.(manifest := d'.manifest, controlStages := d'.controlStages)
    requires var n := RestoreGoal(m, j, state);
             && ReplacePhase(e, d'.manifest, At(d'.controlStages, j.manifestStage), Some(j.manifest),
                             ManifestText(n, 0))
             && (|| d'.manifest == d.manifest
                 || (ManifestOn(d'.manifest) == Some(n) && !Held(e, d.manifest, ManifestText(n, 0))))
    ensures RestorePhase(e, j, d')
  {
    if d'.manifest != d.manifest {
      var n := RestoredManifest(m, state, j.transactionId);
      assert Held(e, d'.manifest, ManifestText(n, 0));
      CommitReads(e, d, m, d'.manifest, state, j.transactionId);
      RestoredVerifies(e, j, d, m, state);
    }
  }

  lemma RestoredValid(m: StashManifest, state: ConfigState, t: TransactionId)
    requires ValidManifest(m) && Unrestored(m.active.state) && ValidConfigState(state) && ValidTransactionId(t)
    ensures ValidManifest(RestoredManifest(m, state, t))
    ensures ManifestLength(RestoredManifest(m, state, t)) == ManifestLength(m) + 800
  {}

  lemma RestoreNewFits(e: Env, d: Disk, j: Journal, m: StashManifest, state: ConfigState)
    requires Inv(e, d) && JournalOn(d.journal) == Some(j) && j.RestoreJournal? && ManifestOn(d.manifest) == Some(m)
    requires Committed(j, m) || Unrestored(m.active.state)
    requires ValidConfigState(state)
    ensures NewFits(d.manifest, j, RestoreGoal(m, j, state))
    ensures StashKept(e, d.stashes, Capture(RestoreGoal(m, j, state).active.state))
  {}

  lemma RestoreFinished(e: Env, d: Disk, j: Journal, m: StashManifest)
    requires Inv(e, d) && JournalOn(d.journal) == Some(j) && j.RestoreJournal?
    requires ManifestOn(d.manifest) == Some(m) && Committed(j, m)
    requires j.manifestStage !in d.controlStages && RestoreStage(j, Capture(m.active.state)) !in d.configStages
    ensures Finished(d, j)
  {}

  /** A restored configuration gives a valid live state that the restored manifest will verify. */
  lemma RestoredVerifies(e: Env, j: Journal, d: Disk, m: StashManifest, state: ConfigState)
    requires j.RestoreJournal? && ValidManifest(m) && Unrestored(m.active.state)
    requires ConfigRestored(e, m.active.state, j, d) && SnapshotConfig(d.config, d.etcHowy) == Done(state)
    ensures ValidConfigState(state)
    ensures VerifyRestored(RestoredManifest(m, state, j.transactionId), d.config, d.etcHowy) == Done(state)
  {}

  lemma RestoreStageAllowed(e: Env, d: Disk, j: Journal, captured: GenerationState)
    requires Inv(e, d) && ReadsJournal(e, d.journal, j) && j.RestoreJournal?
    requires ManifestOn(d.manifest).Some? && captured == Capture(ManifestOn(d.manifest).value.active.state)
    ensures StagesAllowed(d.journal, d.manifest, d.configStages.Keys + {RestoreStage(j, captured)})
    ensures StagesAllowed(d.journal, d.manifest, d.configStages.Keys)
  {}

  /** The stash of a valid captured generation holds the captured bytes. */
  predicate StashUsable(e: Env, stash: Option<Node>, source: FileRecord) {
    && stash.Some? && stash.value.Regular? && Readable(stash.value, MAX_CONFIG_BYTES)
    && ControlRecord(e, RecordOf(stash.value))
    && Sha256(stash.value.content) == source.sha256
    && stash.value.metadata.byteLength == source.metadata.byteLength
  }

  lemma CapturedStashUsable(e: Env, stashes: map<string, Node>, s: GenerationState)
    requires s.PresentStashed? && ValidCaptured(s)
    ensures StashMatches(e, stashes, s) <==> StashUsable(e, At(stashes, s.stashPath), s.source)
  {}

  lemma ValidTimes(r: FileRecord)
    requires ValidRecord(r)
    ensures ValidTimestamp(r.metadata.accessed) && ValidTimestamp(r.metadata.modified)
  {}

  lemma WrittenMatches(n: Node, stash: Node, source: FileRecord)
    requires stash.Regular? && ValidRecord(source) && source.sha256 == Sha256(stash.content)
    requires Readable(stash, MAX_CONFIG_BYTES) && stash.metadata.byteLength == source.metadata.byteLength
    requires Written(n, stash.content, source.metadata.uid, source.metadata.gid, source.metadata.permissions,
                     Some(source.metadata))
    ensures Matches(Some(n), source)
  {}

  lemma ReadLength(a: Node, b: Node)
    requires Readable(a, MAX_CONFIG_BYTES) && Readable(b, MAX_CONFIG_BYTES) && a.content == b.content
    ensures a.metadata.byteLength == b.metadata.byteLength
  {}

  lemma WrittenStash(e: Env, n: Node, stashes: map<string, Node>, s: GenerationState, live: Node)
    requires s.PresentStashed? && live.Regular? && Readable(live, MAX_CONFIG_BYTES)
    requires s.stashSha256 == Sha256(live.content) && s.stashSize == live.metadata.byteLength
    requires Written(n, live.content, e.uid, e.gid, MODE_600, None)
    ensures StashMatches(e, stashes[s.stashPath := n], s)
  {}

  lemma WrittenControl(e: Env, n: Node, c: Content)
    requires Written(n, c, e.uid, e.gid, MODE_600, None) && Length(c) <= MAX_CONTROL_BYTES
    ensures Held(e, Some(n), c)
  {}

  lemma MarkerWritten(e: Env, n: Node, marker: BootstrapMarker)
    requires Written(n, MarkerText(marker, 0), e.uid, e.gid, MODE_600, None) && ValidMarker(marker)
    ensures Held(e, Some(n), MarkerText(marker, 0))
    ensures MarkerNames(e, Some(n), marker.generation, marker.config)
  {}

  lemma NewIsCommitted(manifest: Option<Node>, j: Journal, n: StashManifest)
    requires !j.BootstrapJournal? && NewFits(manifest, j, n) && ManifestOn(manifest) == Some(n)
    ensures Committed(j, n)
  {}

  lemma SwapCommitted(manifest: Option<Node>, j: Journal, n: StashManifest)
    requires !j.BootstrapJournal? && NewFits(manifest, j, n) && manifest.Some?
    ensures Committed(j, n)
  {}

  lemma NotYetCommitted(e: Env, d: Disk, j: Journal, n: StashManifest)
    requires !j.BootstrapJournal? && Inv(e, d) && NewFits(d.manifest, j, n)
    requires d.manifest.Some? && !Held(e, d.manifest, ManifestText(n, 0))
    ensures ManifestOn(d.manifest).Some?
    ensures !Committed(j, ManifestOn(d.manifest).value) && Successor(j, ManifestOn(d.manifest).value, n)
  {}

  lemma WrittenBootstrap(e: Env, n: Node)
    requires Written(n, BootstrapPayload, e.uid, e.gid, MODE_600, None)
    ensures BootstrapAt(e, Some(n))
  {}

  lemma PinnedObjectIsLegacy(e: Env, n: Option<Node>, r: FileRecord)
    requires PinnedLegacyRecord(e, r) && IsObject(n, r)
    ensures LegacyAt(e, n)
  {}

  // ----- whole journals -----

  /** Recovery of this journal on this disk will not be refused. */
  predicate Recoverable(e: Env, j: Journal, d: Disk) {
    match j
    case BootstrapJournal(_, _, legacy, _) =>
      SourceIntact(e, d.source) && PinnedLegacyRecord(e, legacy) && BootPhase(e, j, d)
    case StashJournal(_, _, _, _, _, _, _) => StashPhase(e, j, d)
    case RestoreJournal(_, _, _, _, _, _, _) => RestorePhase(e, j, d)
  }

  /** The journaled operation is complete, apart from the journal and the marker. */
  predicate Served(e: Env, j: Journal, d: Disk) {
    match j
    case BootstrapJournal(_, _, _, stage) => BootstrapAt(e, d.config) && stage !in d.configStages
    case StashJournal(_, _, _, previous, newManifest, stage, _) =>
      && ManifestOn(d.manifest) == Some(newManifest)
      && d.marker.None?
      && (previous.Some? ==> stage !in d.controlStages)
    case RestoreJournal(_, _, _, _, _, _, _) =>
      && SnapshotConfig(d.config, d.etcHowy).Done?
      && RestoreComplete(e, j, d, SnapshotConfig(d.config, d.etcHowy).value)
  }

  /** The generation and the live state that the marker of a completed journal must name. */
  function MarkerGeneration(j: Journal): Option<nat> { if j.RestoreJournal? then Some(j.generation) else None }

  predicate MarkerDone(e: Env, j: Journal, d: Disk) {
    && SnapshotConfig(d.config, d.etcHowy).Done?
    && MarkerNames(e, d.marker, MarkerGeneration(j), SnapshotConfig(d.config, d.etcHowy).value)
  }

  predicate TargetKept(j: Journal, d: Disk) {
    j.RestoreJournal? ==>
      ManifestOn(d.manifest).Some? && TargetLive(ManifestOn(d.manifest).value, d.config, d.etcHowy)
  }

  /** Every disk on the way from a recoverable journal to its completed, marked end. */
  predicate Toward(e: Env, j: Journal, d: Disk) {
    || (ReadsJournal(e, d.journal, j) && Recoverable(e, j, d))
    || (&& d.journal.None?
        && Served(e, j, d)
        && TargetKept(j, d)
        && (d.marker.None? || (!j.StashJournal? && MarkerDone(e, j, d))))
  }

  lemma ClosesToward(e: Env, j: Journal, d: Disk)
    requires Inv(e, d) && ReadsJournal(e, d.journal, j) && Recoverable(e, j, d) && Served(e, j, d)
    ensures Toward(e, j, d) && Toward(e, j, d.(journal := None)) && TargetKept(j, d.(journal := None))
  {
    hide Chronicle, ManifestPhase, BootPhase, StashPhase, RestorePhase;
    JournalOwnsStages(e, d.journal, j);
    RecoverableTarget(e, j, d);
    ServedFrame(e, j, d, None, d.marker);
  }

  /** A completed journal: no journal, no stage, and the marker present or absent as due. */
  predicate Settled(e: Env, j: Journal, d: Disk) {
    && d.journal.None?
    && NoForeignStages(d, None)
    && Served(e, j, d)
    && if j.StashJournal? then d.marker.None? else MarkerDone(e, j, d)
  }

  /** A restore changes neither the captured state nor the generation nor the history, and is recorded once. */
  predicate SameAim(a: Option<Node>, b: Option<Node>) {
    ManifestOn(a).Some? ==>
      && ManifestOn(b).Some?
      && var m, n := ManifestOn(a).value, ManifestOn(b).value;
         && Capture(n.active.state) == Capture(m.active.state)
         && n.active.generation == m.active.generation
         && n.consumed == m.consumed
         && (m.active.state.Restored? ==> n.active == m.active)
  }

  /** Recovering `j` changes nothing but what its operation is about. */
  predicate JournalFrame(j: Journal, d: Disk, d': Disk) {
    match j
    case BootstrapJournal(_, _, _, _) =>
      d' == d.(config := d'.config, configStages := d'.configStages, journal := d'.journal, marker := d'.marker)
    case StashJournal(_, _, _, _, _, _, _) =>
      d' == d.(stashes := d'.stashes, manifest := d'.manifest, controlStages := d'.controlStages,
               journal := d'.journal, marker := d'.marker)
    case RestoreJournal(_, _, _, _, _, _, _) =>
      && d' == d.(config := d'.config, configStages := d'.configStages, manifest := d'.manifest,
                  controlStages := d'.controlStages, journal := d'.journal, marker := d'.marker)
      && SameAim(d.manifest, d'.manifest)
  }

  /** The journal file is the object that its own record names. */
  lemma JournalUnlinkable(e: Env, n: Option<Node>, j: Journal)
    requires ReadsJournal(e, n, j)
    ensures n.Some? && n.value.Regular? && IsObject(n, RecordOf(n.value)) && ReadJournal(e, n).Done?
    ensures j.RestoreJournal? ==> j.generation != 0
  {}

  lemma JournalDroppedUnforeign(e: Env, d: Disk, j: Journal)
    requires Inv(e, d) && Finished(d, j)
    ensures NoForeignStages(d.(journal := None), None)
  {}

  lemma StagesOwned(e: Env, d: Disk, j: Journal)
    requires Inv(e, d) && JournalOn(d.journal) == Some(j)
    ensures NoForeignStages(d, Some(j.transactionId))
  {}

  lemma RecoverableTarget(e: Env, j: Journal, d: Disk)
    requires Recoverable(e, j, d) && Served(e, j, d)
    ensures TargetKept(j, d)
  {}

  lemma ServedFinished(e: Env, d: Disk, j: Journal)
    requires Inv(e, d) && JournalOn(d.journal) == Some(j) && Served(e, j, d)
    ensures Finished(d, j)
    ensures MarkerFits(d.manifest, j.transactionId, MarkerGeneration(j)) || j.StashJournal?
  {
    match j
    case BootstrapJournal(_, _, _, _) =>
    case StashJournal(_, _, _, _, _, _, _) => StashFinished(e, d, j);
    case RestoreJournal(_, _, _, _, _, _, _) => RestoreFinished(e, d, j, ManifestOn(d.manifest).value);
  }

  /** Neither the journal nor, outside a stash, the marker matters to being served. */
  lemma ServedFrame(e: Env, j: Journal, d: Disk, journal: Option<Node>, marker: Option<Node>)
    requires Served(e, j, d) && (j.StashJournal? ==> marker == d.marker)
    ensures Served(e, j, d.(journal := journal, marker := marker))
  {}

  lemma FrameSelf(j: Journal, d: Disk)
    ensures JournalFrame(j, d, d)
  {}

  lemma FrameMarkers(j: Journal, d: Disk, d': Disk, journal: Option<Node>, marker: Option<Node>)
    requires JournalFrame(j, d, d')
    ensures JournalFrame(j, d, d'.(journal := journal, marker := marker))
  {}

  lemma ServedStash(e: Env, j: Journal, d: Disk)
    requires Served(e, j, d) && j.StashJournal?
    ensures d.marker.None?
  {}

  lemma ServedState(e: Env, j: Journal, d: Disk)
    requires Served(e, j, d) && !j.StashJournal?
    ensures SnapshotConfig(d.config, d.etcHowy).Done?
    ensures ValidConfigState(SnapshotConfig(d.config, d.etcHowy).value)
  {}

  // ----- journals about to be written -----

  /** What the commands establish before they write a journal. */
  predicate JournalReady(d: Disk, j: Journal) {
    match j
    case BootstrapJournal(_, _, _, _) => d.manifest.None? && d.marker.None?
    case StashJournal(_, t, source, previous, newManifest, _, marker) =>
      && NextManifest(ManifestOn(d.manifest), t, source) == Done(newManifest)
      && (if d.manifest.None? then previous.None?
          else d.manifest.value.Regular? && previous == Some(RecordOf(d.manifest.value)))
      && (if d.marker.None? then marker.None?
          else d.marker.value.Regular? && marker == Some(RecordOf(d.marker.value)))
    case RestoreJournal(_, _, manifest, generation, _, _, _) =>
      && d.marker.None?
      && ManifestOn(d.manifest).Some?
      && Unrestored(ManifestOn(d.manifest).value.active.state)
      && manifest == RecordOf(d.manifest.value)
      && generation == ManifestOn(d.manifest).value.active.generation
  }

  lemma Journaled(e: Env, d: Disk, j: Journal, n: Node)
    requires Inv(e, d) && d.journal.None? && JournalReady(d, j)
    requires ValidJournal(j) && Held(e, Some(n), JournalText(j, 0))
    ensures Inv(e, d.(journal := Some(n)))
  {
    match j
    case BootstrapJournal(_, _, _, _) => BootstrapJournaled(e, d, j, n);
    case StashJournal(_, _, _, _, _, _, _) => StashJournaled(e, d, j, n);
    case RestoreJournal(_, _, _, _, _, _, _) => RestoreJournaled(e, d, j, n);
  }

  lemma HeldJournalReads(e: Env, n: Option<Node>, j: Journal)
    requires Held(e, n, JournalText(j, 0)) && ValidJournal(j)
    ensures ReadsJournal(e, n, j)
  {}

  // ----- idle disks -----

  function Live(d: Disk): Outcome<ConfigState> { SnapshotConfig(d.config, d.etcHowy) }

  /** A readable manifest whose restored generation still matches the live configuration. */
  predicate RestoredLive(e: Env, d: Disk) {
    && ReadManifest(e, d.manifest, d.stashes).Done?
    && ManifestOn(d.manifest).Some?
    && ManifestOn(d.manifest).value.active.state.Restored?
    && VerifyRestored(ManifestOn(d.manifest).value, d.config, d.etcHowy).Done?
  }

  predicate ManifestRestored(n: Option<Node>) {
    ManifestOn(n).Some? && ManifestOn(n).value.active.state.Restored?
  }

  lemma SoundReads(e: Env, d: Disk)
    requires Inv(e, d)
    ensures ReadManifest(e, d.manifest, d.stashes).Done?
    ensures d.manifest.Some? ==> ManifestOn(d.manifest).Some? && Chronicle(ManifestOn(d.manifest).value)
    ensures d.marker.Some? ==> MarkerReadable(e, d.marker) && ReadControl(e, d.marker).Done?
    ensures d.journal.None? ==> NoForeignStages(d, None) && d.configStages == map[] && d.controlStages == map[]
    ensures d.journal.Some? ==> JournalOn(d.journal).Some? && ReadsJournal(e, d.journal, JournalOn(d.journal).value)
  {}

  lemma VerifiedLive(m: StashManifest, config: Option<Node>, etcHowy: AbsenceRecord)
    requires VerifyRestored(m, config, etcHowy).Done? && ValidManifest(m)
    ensures SnapshotConfig(config, etcHowy) == VerifyRestored(m, config, etcHowy)
    ensures ValidConfigState(VerifyRestored(m, config, etcHowy).value)
    ensures m.active.state.Restored? && ValidTransactionId(m.active.state.restoreTransactionId)
    ensures m.active.generation != 0
  {}

  /** The live configuration of a restored generation, with its marker. */
  predicate RestoredMarked(e: Env, d: Disk) {
    && RestoredLive(e, d)
    && Live(d).Done?
    && MarkerNames(e, d.marker, Some(ManifestOn(d.manifest).value.active.generation), Live(d).value)
  }

  /** How recovery ends on a disk without a journal. */
  predicate IdleResult(e: Env, d: Disk, d': Disk, revalidate: bool, r: Outcome<()>) {
    && d' == d.(marker := d'.marker)
    && (!NoForeignStages(d, None) ==> r.Refused? && d' == d)
    && (!revalidate || !ManifestRestored(d.manifest) ==> d' == d && !r.Interrupted?)
    && (r.Done? && revalidate && ManifestRestored(d.manifest) ==> RestoredMarked(e, d'))
    && (r.Interrupted? ==> d' == d || d'.marker.None? || MarkerReadable(e, d'.marker))
  }

  /** How recovery ends on a disk with a journal: untouched if the journal is not a valid control. */
  predicate JournalResult(e: Env, d: Disk, d': Disk, r: Outcome<()>) {
    var j := JournalOn(d.journal);
    if j.Some? && ReadsJournal(e, d.journal, j.value) then
      && JournalFrame(j.value, d, d')
      && (r.Done? ==> Settled(e, j.value, d'))
      && (!NoForeignStages(d, Some(j.value.transactionId)) ==> r.Refused? && d' == d)
    else r.Refused? && d' == d
  }

  lemma UnforeignFrame(d: Disk, d': Disk)
    requires d' == d.(marker := d'.marker) && NoForeignStages(d, None)
    ensures NoForeignStages(d', None)
  {}

  lemma RestoredLiveFrame(e: Env, d: Disk, d': Disk)
    requires d' == d.(marker := d'.marker)
    ensures RestoredLive(e, d') <==> RestoredLive(e, d)
  {}
}
