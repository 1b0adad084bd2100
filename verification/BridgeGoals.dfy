/**
 What the commands are for: the end states of bootstrap, stash and restore, the
 disks a killed command can leave on the way there, and what the marker validators
 accept.
 */
module BridgeGoals {
  import opened Wrappers
  import opened BridgeTypes
  import opened BridgeNames
  import opened BridgeRules
  import opened BridgeInvariant
  import opened BridgeSteps
  import opened BridgePhases

  // ----- marker validation -----

  function ValidateStructure(e: Env, d: Disk): Outcome<BootstrapMarker> {
    if d.journal.Some? || !NoForeignStages(d, None) || d.marker.None? || !MarkerReadable(e, d.marker) then Refused
    else
      var k := MarkerOn(d.marker).value;
      match (k.generation, ReadManifest(e, d.manifest, d.stashes))
      case (None, Done(None)) => Done(k)
      case (Some(g), Done(Some(r))) =>
        var s := r.manifest.active.state;
        if s.Restored? && r.manifest.active.generation == g && k.transactionId == s.restoreTransactionId
           && StatesExactlyMatch(k.config, s.restoredTarget)
        then Done(k) else Refused
      case _ => Refused
  }

  predicate ValidateCurrentMarker(e: Env, d: Disk) {
    && ValidateStructure(e, d).Done?
    && Live(d).Done?
    && SafeCompletion(e, Live(d).value)
    && StatesExactlyMatch(ValidateStructure(e, d).value.config, Live(d).value)
  }

  /** What a successful bootstrap or completion leaves: no journal, no stage, and a marker that names
      the live configuration and the restored generation, if there is one. */
  predicate Marked(e: Env, d: Disk) {
    && d.journal.None?
    && NoForeignStages(d, None)
    && Live(d).Done?
    && if d.manifest.None? then MarkerNames(e, d.marker, None, Live(d).value) else RestoredMarked(e, d)
  }

  /** After a success the marker validator accepts exactly when the live configuration is owned by the
      expected user and, if a generation was restored, is still the very object that was restored. */
  lemma MarkedAccepts(e: Env, d: Disk)
    requires Inv(e, d) && Marked(e, d)
    ensures ValidateCurrentMarker(e, d) <==>
      && SafeCompletion(e, Live(d).value)
      && (d.manifest.Some? ==> TargetLive(ManifestOn(d.manifest).value, d.config, d.etcHowy))
  {
    hide Chronicle, NoForeignStages, ValidManifest, JournalSound;
    SoundReads(e, d);
    if d.manifest.Some? { ManifestReadIs(e, d.manifest, d.stashes); }
    MarkerReadsBack(e, d.marker);
  }

  lemma MarkerReadsBack(e: Env, n: Option<Node>)
    requires MarkerReadable(e, n)
    ensures MarkerOn(n).Some? && n.Some?
  {}

  // ----- what decides acceptance, read off the disk before the call -----

  predicate RestoreJournaledOn(d: Disk) { JournalOn(d.journal).Some? && JournalOn(d.journal).value.RestoreJournal? }

  predicate StashJournaledOn(d: Disk) { JournalOn(d.journal).Some? && JournalOn(d.journal).value.StashJournal? }

  /** A captured configuration that the validator would accept the owner of. */
  predicate SafeCapture(e: Env, s: GenerationState) {
    s.PresentStashed? ==> SafeCompletion(e, ConfigPresent(s.source))
  }

  /** The restored generation verifies and its recorded target is the live object. */
  predicate TargetIntact(d: Disk) {
    && ManifestRestored(d.manifest)
    && VerifyRestored(ManifestOn(d.manifest).value, d.config, d.etcHowy).Done?
    && TargetLive(ManifestOn(d.manifest).value, d.config, d.etcHowy)
  }

  /** What must hold of a disk for a later success to be accepted: a capture still to be restored has a safe owner;
      a restored generation has one and is still the object that was restored; an installation always passes. */
  predicate Acceptable(e: Env, d: Disk) {
    if StashJournaledOn(d) then SafeCapture(e, JournalOn(d.journal).value.newManifest.active.state)
    else
      match ManifestOn(d.manifest)
      case None => true
      case Some(m) =>
        if m.active.state.Restored? then
          && Live(d).Done?
          && SafeCompletion(e, Live(d).value)
          && TargetLive(m, d.config, d.etcHowy)
        else SafeCapture(e, m.active.state)
  }

  /** A committed restore that no longer verifies, because its configuration was replaced or taken away before its
      journal was: recovery brings the captured state back once more. */
  predicate Republishes(d: Disk) {
    && RestoreJournaledOn(d)
    && ManifestRestored(d.manifest)
    && !VerifyRestored(ManifestOn(d.manifest).value, d.config, d.etcHowy).Done?
  }

  predicate SameVerdict(e: Env, d: Disk, d': Disk) {
    Republishes(d) || (Acceptable(e, d) <==> Acceptable(e, d'))
  }

  /** The file has the device and inode that `target` records. */
  predicate HasIdentity(config: Option<Node>, target: ConfigState) {
    && target.ConfigPresent?
    && config.Some? && config.value.Regular?
    && config.value.device == target.file.device && config.value.inode == target.file.inode
  }

  /** Whether a success that turned `d` into `d'` is accepted. The disk before the call decides it, except where a
      captured file with a safe owner had to be published again: there the file system decides, by the identity
      it gave the new file. */
  predicate Verdict(e: Env, d: Disk, d': Disk) {
    if Republishes(d) then
      var s := ManifestOn(d.manifest).value.active.state;
      SafeCapture(e, s.captured) && (s.captured.Absent? || HasIdentity(d'.config, s.restoredTarget))
    else Acceptable(e, d)
  }

  /** Nothing but the bridge has touched the restored configuration: it is intact, or it was restored to its absence
      and then created anew, which no longer verifies. */
  predicate Untampered(d: Disk) {
    ManifestRestored(d.manifest) ==>
      || TargetIntact(d)
      || (&& ManifestOn(d.manifest).value.active.state.restoredTarget.ConfigAbsent?
          && d.config.Some?
          && !RestoreJournaledOn(d))
  }

  /** `config` is what `captured` says. */
  predicate LiveAs(captured: GenerationState, config: Option<Node>) {
    match captured
    case Absent(_) => config.None?
    case PresentStashed(source, _, _, _) => Matches(config, source)
    case _ => false
  }

  /** Verification of a restored generation accepts exactly a live configuration with the captured bytes and
      metadata, or its absence, that also agrees with the recorded target in everything but identity. */
  lemma VerifiedExactly(m: StashManifest, config: Option<Node>, etcHowy: AbsenceRecord)
    ensures VerifyRestored(m, config, etcHowy).Done? <==>
      && m.active.state.Restored?
      && LiveAs(m.active.state.captured, config)
      && SnapshotConfig(config, etcHowy).Done?
      && StatesLogicallyMatch(SnapshotConfig(config, etcHowy).value, m.active.state.restoredTarget)
  {}

  lemma VerifiedLiveAs(m: StashManifest, config: Option<Node>, etcHowy: AbsenceRecord)
    requires VerifyRestored(m, config, etcHowy).Done?
    ensures m.active.state.Restored? && LiveAs(m.active.state.captured, config)
  {}

  /** A configuration left as captured has the owner that was captured. */
  lemma LiveIsSafe(e: Env, captured: GenerationState, config: Option<Node>, etcHowy: AbsenceRecord)
    requires LiveAs(captured, config)
    ensures SnapshotConfig(config, etcHowy).Done?
    ensures SafeCompletion(e, SnapshotConfig(config, etcHowy).value) <==> SafeCapture(e, captured)
  {}

  lemma AcceptableFrame(e: Env, d: Disk, d': Disk)
    requires d'.config == d.config && d'.etcHowy == d.etcHowy && ManifestOn(d'.manifest) == ManifestOn(d.manifest)
    requires StashJournaledOn(d) == StashJournaledOn(d') == false
    ensures Acceptable(e, d) <==> Acceptable(e, d')
  {}

  lemma UntamperedFrame(d: Disk, d': Disk)
    requires d'.config == d.config && d'.etcHowy == d.etcHowy && ManifestOn(d'.manifest) == ManifestOn(d.manifest)
    requires RestoreJournaledOn(d') ==> RestoreJournaledOn(d)
    ensures Untampered(d) ==> Untampered(d')
  {}

  /** Restoring the configuration leaves an intact target alone. */
  lemma ConfigStepUntampered(d: Disk, d': Disk, captured: GenerationState)
    requires RestoreJournaledOn(d) && ManifestOn(d.manifest).Some?
    requires captured == Capture(ManifestOn(d.manifest).value.active.state)
    requires d' == d.(config := d'.config, configStages := d'.configStages)
    requires LiveAs(captured, d.config) ==> d'.config == d.config
    ensures Untampered(d) ==> Untampered(d')
  {
    var m := ManifestOn(d.manifest).value;
    if TargetIntact(d) { VerifiedLiveAs(m, d.config, d.etcHowy); }
  }

  /** Committing the restored manifest records the live object as its target. */
  lemma CommitStep(e: Env, j: Journal, d: Disk, d': Disk, m: StashManifest, state: ConfigState)
    requires j.RestoreJournal? && JournalOn(d.journal) == Some(j) && ManifestOn(d.manifest) == Some(m)
    requires ValidManifest(m)
    requires Committed(j, m) || Unrestored(m.active.state)
    requires ConfigRestored(e, Capture(m.active.state), j, d) && SnapshotConfig(d.config, d.etcHowy) == Done(state)
    requires d' == d.(manifest := d'.manifest, controlStages := d'.controlStages)
    requires d'.manifest == d.manifest || ManifestOn(d'.manifest) == Some(RestoreGoal(m, j, state))
    ensures Untampered(d) ==> Untampered(d')
    ensures ManifestOn(d'.manifest) == Some(RestoreGoal(m, j, state)) ==> (Acceptable(e, d) <==> Acceptable(e, d'))
  {
    hide ValidManifest;
    if !Committed(j, m) {
      RestoredVerifies(e, j, d, m, state);
      LiveIsSafe(e, m.active.state, d.config, d.etcHowy);
      TargetOfItself(d, state);
    }
  }

  lemma TargetOfItself(d: Disk, state: ConfigState)
    requires SnapshotConfig(d.config, d.etcHowy) == Done(state)
    ensures StatesExactlyMatch(state, state)
  {}

  /** Restoring the configuration of a committed restore that verifies changes no verdict; nor does that of one
      still to be committed. */
  lemma ConfigStepVerdict(e: Env, d: Disk, d': Disk, captured: GenerationState)
    requires RestoreJournaledOn(d) && ManifestOn(d.manifest).Some?
    requires captured == Capture(ManifestOn(d.manifest).value.active.state)
    requires d' == d.(config := d'.config, configStages := d'.configStages)
    requires LiveAs(captured, d.config) ==> d'.config == d.config
    ensures SameVerdict(e, d, d')
  {
    var m := ManifestOn(d.manifest).value;
    if ManifestRestored(d.manifest) && !Republishes(d) { VerifiedLiveAs(m, d.config, d.etcHowy); }
  }

  lemma VerdictJoins(e: Env, d: Disk, d': Disk, d'': Disk)
    requires SameVerdict(e, d, d') && (Acceptable(e, d') <==> Acceptable(e, d''))
    ensures SameVerdict(e, d, d'')
  {}

  lemma InstallKeeps(e: Env, j: Journal, d: Disk, d': Disk)
    requires Inv(e, d) && ReadsJournal(e, d.journal, j) && j.BootstrapJournal?
    requires d' == d.(config := d'.config, configStages := d'.configStages)
    ensures Untampered(d') && SameVerdict(e, d, d')
  {
    JournalOwnsStages(e, d.journal, j);
  }

  lemma StashKeeps(e: Env, j: Journal, d: Disk, d': Disk)
    requires Inv(e, d) && ReadsJournal(e, d.journal, j) && j.StashJournal?
    requires d' == d.(stashes := d'.stashes, manifest := d'.manifest, controlStages := d'.controlStages,
                      marker := d'.marker)
    requires d'.manifest == d.manifest || ManifestOn(d'.manifest) == Some(j.newManifest)
    ensures Untampered(d) ==> Untampered(d')
    ensures SameVerdict(e, d, d')
  {
    hide Chronicle, ManifestPhase, VerifyRestored;
    JournalOwnsStages(e, d.journal, j);
    assert StashJournalSound(e, d, j);
  }

  lemma ServedUntampered(d: Disk, d': Disk)
    requires d' == d.(journal := d'.journal, marker := d'.marker) && (d'.journal == d.journal || d'.journal.None?)
    ensures Untampered(d) ==> Untampered(d')
  {
    UntamperedFrame(d, d');
  }

  lemma ServedVerdict(e: Env, j: Journal, d: Disk, served: Disk, d': Disk)
    requires Inv(e, served) && ReadsJournal(e, served.journal, j) && Served(e, j, served)
    requires d' == served.(journal := None, marker := d'.marker) && SameVerdict(e, d, served)
    ensures SameVerdict(e, d, d')
  {
    hide Chronicle, ManifestPhase, VerifyRestored, RestoreComplete;
    JournalOwnsStages(e, served.journal, j);
    if j.StashJournal? {
      assert StashJournalSound(e, served, j);
    } else {
      AcceptableFrame(e, served, d');
    }
  }

  /** The marker decides no verdict. */
  lemma MarkerStepKeeps(e: Env, d: Disk, d': Disk)
    requires d' == d.(marker := d'.marker)
    ensures Untampered(d) ==> Untampered(d')
    ensures Acceptable(e, d) <==> Acceptable(e, d')
    ensures SameVerdict(e, d, d')
  {}

  lemma UnrestoredUntampered(d: Disk)
    requires ManifestOn(d.manifest).None? || Unrestored(ManifestOn(d.manifest).value.active.state)
    ensures Untampered(d) && !Republishes(d)
  {}

  lemma RestoreJournalKeeps(e: Env, d: Disk, d': Disk)
    requires d.journal.None? && d' == d.(journal := d'.journal) && RestoreJournaledOn(d')
    ensures Acceptable(e, d) <==> Acceptable(e, d')
  {}

  lemma StashJournalKeeps(d: Disk, d': Disk)
    requires d' == d.(journal := d'.journal) && (d'.journal == d.journal || StashJournaledOn(d'))
    ensures Untampered(d) ==> Untampered(d')
  {}

  lemma CreationUntampered(d: Disk, n: Node)
    requires d.journal.None? && d.config.None?
    ensures Untampered(d) ==> Untampered(d.(config := Some(n)))
  {}

  lemma NoManifestAcceptable(e: Env, d: Disk)
    requires d.journal.None? && d.manifest.None?
    ensures Acceptable(e, d) && !Republishes(d)
  {}

  /** On a marked disk the two verdicts are the same. */
  lemma MarkedVerdict(e: Env, d: Disk)
    requires Inv(e, d) && Marked(e, d) && d.manifest.Some?
    ensures ValidateCurrentMarker(e, d) <==> Acceptable(e, d)
  {
    MarkedAccepts(e, d);
  }

  lemma InstalledVerdict(e: Env, idle: Disk, d: Disk)
    requires Inv(e, d) && Marked(e, d) && BootstrapAt(e, d.config) && d.manifest.None?
    requires idle.journal.None? && idle.manifest.None?
    ensures ValidateCurrentMarker(e, d) && Acceptable(e, idle)
  {
    hide Chronicle, NoForeignStages, ValidManifest, JournalSound;
    MarkedAccepts(e, d);
  }

  lemma RestoredLiveReads(e: Env, d: Disk)
    requires RestoredLive(e, d)
    ensures ReadManifest(e, d.manifest, d.stashes).Done? && d.manifest.Some? && ManifestRestored(d.manifest)
  {}

  lemma RecoverableToward(e: Env, j: Journal, d: Disk)
    requires ReadsJournal(e, d.journal, j) && Recoverable(e, j, d)
    ensures Toward(e, j, d)
  {}

  /** A republished restore is rejected for an unsafe owner, accepted when absence was restored, and otherwise accepted
      exactly when the new file has the recorded identity. */
  lemma RepublishedVerdict(e: Env, d: Disk, d': Disk)
    requires Republishes(d) && SameAim(d.manifest, d'.manifest) && Inv(e, d') && Marked(e, d')
    ensures ValidateCurrentMarker(e, d') <==> Verdict(e, d, d')
  {
    hide Inv, ValidateCurrentMarker, NoForeignStages, Acceptable, MarkerNames, ReadManifest, SafeCompletion;
    MarkedAccepts(e, d');
    var m := ManifestOn(d'.manifest).value;
    VerifiedExactly(m, d'.config, d'.etcHowy);
    LiveIsSafe(e, m.active.state.captured, d'.config, d'.etcHowy);
  }

  /** Recovery and the command after it decide nothing that the disk before them had not. */
  lemma RestoreDecided(e: Env, d: Disk, idle: Disk, d': Disk)
    requires SameVerdict(e, d, idle) && (ValidateCurrentMarker(e, d') <==> Acceptable(e, idle))
    requires RestoreJournaledOn(d) ==> SameAim(d.manifest, idle.manifest)
    requires ManifestRestored(idle.manifest) ==> d'.manifest == idle.manifest
    requires Inv(e, d') && Marked(e, d')
    ensures ValidateCurrentMarker(e, d') <==> Verdict(e, d, d')
  {
    hide Inv, ValidateCurrentMarker, Marked, Acceptable, VerifyRestored;
    if Republishes(d) { RepublishedVerdict(e, d, d'); }
  }

  // ----- control texts stay below the cap -----

  lemma StashPathLength(g: nat)
    requires g < 100
    ensures |StashPath(g)| <= 60
  {
    assert |Decimal(g)| <= 2;
  }

  lemma CapturedLength(s: GenerationState, g: nat)
    requires g < 100 && ValidCaptured(s) && OwnPath(s, g)
    ensures StateLength(s) <= 960
  {
    StashPathLength(g);
  }

  lemma {:induction false} HistoryFits(gs: seq<GenerationRecord>)
    requires |gs| <= MAX_CONSUMED_GENERATIONS
    requires forall i :: 0 <= i < |gs| ==> EntryInPlace(gs[i], i + 1) && ValidHistoryEntry(gs[i])
    ensures HistoryLength(gs) <= 2_100 * |gs|
  {
    if gs != [] {
      var k := |gs| - 1;
      HistoryFits(gs[..k]);
      assert EntryInPlace(gs[k], k + 1) && ValidHistoryEntry(gs[k]);
      CapturedLength(gs[k].state.captured, k + 1);
    }
  }

  /** No generation history the bridge can build exceeds the control cap, journaled or restored. */
  lemma ChronicleFits(m: StashManifest)
    requires Chronicle(m)
    ensures ManifestLength(m) + 4_096 <= MAX_CONTROL_BYTES
  {
    HistoryFits(m.consumed);
    CapturedLength(Capture(m.active.state), m.active.generation);
  }

  // ----- installing the bootstrap -----

  /** Every disk on the way from a fresh legacy payload to the installed bootstrap. */
  predicate InstallUnderway(e: Env, d: Disk) {
    && d.manifest.None?
    && SourceIntact(e, d.source)
    && if d.journal.None? then
         || (LegacyAt(e, d.config) && d.marker.None?)
         || (BootstrapAt(e, d.config) && (d.marker.None? || MarkerReadable(e, d.marker)))
       else
         && JournalOn(d.journal).Some?
         && JournalOn(d.journal).value.BootstrapJournal?
         && ReadsJournal(e, d.journal, JournalOn(d.journal).value)
         && Recoverable(e, JournalOn(d.journal).value, d)
  }

  lemma InstallJournaled(e: Env, d: Disk, d': Disk, j: Journal)
    requires Inv(e, d) && InstallUnderway(e, d) && d.journal.None? && LegacyAt(e, d.config)
    requires j.BootstrapJournal? && j.legacy == RecordOf(d.config.value)
    requires d' == d.(journal := d'.journal) && ReadsJournal(e, d'.journal, j)
    ensures InstallUnderway(e, d') && Recoverable(e, j, d')
  {}

  lemma InstallToward(e: Env, j: Journal, d: Disk, d': Disk)
    requires j.BootstrapJournal? && InstallUnderway(e, d) && JournalFrame(j, d, d') && Toward(e, j, d')
    ensures InstallUnderway(e, d')
  {
    if ReadsJournal(e, d'.journal, j) { JournalOwnsStages(e, d'.journal, j); }
  }

  lemma InstallSettled(e: Env, j: Journal, d: Disk)
    requires j.BootstrapJournal? && Settled(e, j, d) && d.manifest.None?
    ensures BootstrapAt(e, d.config) && Marked(e, d)
  {}

  /** The installation may begin, or needs no more than its marker. */
  predicate Installable(e: Env, d: Disk) {
    SourceIntact(e, d.source) && (BootstrapAt(e, d.config) || (LegacyAt(e, d.config) && d.marker.None?))
  }

  /** A creation gets as far as looking at the path. */
  predicate Creatable(e: Env, d: Disk) {
    SourceIntact(e, d.source) && (ManifestRestored(d.manifest) ==> RestoredLive(e, d))
  }

  // ----- preserving a configuration -----

  /** A configuration that an upgrade can complete with as it is: a readable file of the expected owner, or none in a
      directory that can be named. */
  predicate Preservable(e: Env, config: Option<Node>, etcHowy: AbsenceRecord) {
    match config
    case None => etcHowy.parentDevice != 0 && etcHowy.parentInode != 0
    case Some(n) => Readable(n, MAX_CONFIG_BYTES) && n.metadata.uid == e.uid && n.metadata.gid == e.gid
  }

  lemma PreservableExactly(e: Env, config: Option<Node>, etcHowy: AbsenceRecord)
    ensures var live := SnapshotConfig(config, etcHowy);
            Preservable(e, config, etcHowy) <==>
              live.Done? && ValidConfigState(live.value) && SafeCompletion(e, live.value)
  {}

  // ----- restoring a generation -----

  /** The configurations that a restore of `captured` may find: what it will leave, or the packaged legacy. */
  predicate RestoreStart(e: Env, captured: GenerationState, d: Disk) {
    match captured
    case Absent(a) => d.etcHowy == a && (d.config.None? || LegacyAt(e, d.config))
    case PresentStashed(source, _, _, _) => d.config.None? || LegacyAt(e, d.config) || Matches(d.config, source)
    case _ => false
  }

  /** Every disk on the way from a captured generation to its restored, marked end. */
  predicate RestoreUnderway(e: Env, d: Disk) {
    && ReadManifest(e, d.manifest, d.stashes).Done?
    && ManifestOn(d.manifest).Some?
    && var m := ManifestOn(d.manifest).value;
       if d.journal.Some? then
         && JournalOn(d.journal).Some?
         && JournalOn(d.journal).value.RestoreJournal?
         && ReadsJournal(e, d.journal, JournalOn(d.journal).value)
         && Recoverable(e, JournalOn(d.journal).value, d)
       else if m.active.state.Restored? then
         && RestoredLive(e, d)
         && TargetLive(m, d.config, d.etcHowy)
         && (d.marker.None? || MarkerReadable(e, d.marker))
       else
         d.marker.None? && RestoreStart(e, m.active.state, d)
  }

  lemma RestoreUnderwayJournaled(e: Env, d: Disk, d': Disk, j: Journal)
    requires Inv(e, d) && RestoreUnderway(e, d) && d.journal.None? && !ManifestRestored(d.manifest)
    requires j.RestoreJournal? && JournalReady(d, j)
    requires d' == d.(journal := d'.journal) && ReadsJournal(e, d'.journal, j)
    ensures RestoreUnderway(e, d') && Recoverable(e, j, d')
  {
    SoundReads(e, d);
    ChronicleFits(ManifestOn(d.manifest).value);
    JournalOwnsStages(e, d'.journal, j);
  }

  lemma RestoreToward(e: Env, j: Journal, d: Disk)
    requires j.RestoreJournal? && Toward(e, j, d)
    ensures RestoreUnderway(e, d)
  {
    if ReadsJournal(e, d.journal, j) { JournalOwnsStages(e, d.journal, j); }
  }

  lemma RestoreSettled(e: Env, j: Journal, d: Disk)
    requires j.RestoreJournal? && Settled(e, j, d)
    ensures Marked(e, d) && ManifestRestored(d.manifest)
  {}

  /** A restored absence is the absence of the directory that was captured. */
  predicate AbsenceKept(d: Disk) {
    ManifestRestored(d.manifest) ==>
      match ManifestOn(d.manifest).value.active.state.captured
      case Absent(a) => d.etcHowy == a
      case _ => true
  }

  /** What a successful restore, or a re-attestation of an earlier one, says about the disk `d` it found: the restored
      generation verified, or its capture was brought back on `d'`. */
  predicate RestoreBegan(e: Env, d: Disk, d': Disk) {
    if ManifestRestored(d.manifest) then RestoredLive(e, d)
    else SameAim(d.manifest, d'.manifest) && AbsenceKept(d')
  }

  predicate BootstrapBegan(e: Env, d: Disk, d': Disk) {
    if d.manifest.None? then Installable(e, d) else RestoreBegan(e, d, d')
  }

  predicate CompletionBegan(e: Env, d: Disk, d': Disk) {
    if d.manifest.None? then Preservable(e, d.config, d.etcHowy) else RestoreBegan(e, d, d')
  }

  lemma RestoreBeganFrame(e: Env, d: Disk, idle: Disk, d': Disk)
    requires idle == d.(marker := idle.marker) && RestoreBegan(e, idle, d')
    ensures RestoreBegan(e, d, d')
  {
    hide RestoredLive, SameAim, AbsenceKept;
    RestoredLiveFrame(e, d, idle);
  }

  lemma RestoreSettledAbsence(e: Env, j: Journal, d: Disk)
    requires j.RestoreJournal? && Settled(e, j, d)
    ensures AbsenceKept(d)
  {}

  /** The end of a restore says what the configuration is. */
  lemma RestoredEnd(e: Env, d: Disk)
    requires Marked(e, d) && d.manifest.Some?
    ensures match Capture(ManifestOn(d.manifest).value.active.state)
            case Absent(_) => d.config.None?
            case PresentStashed(source, _, _, _) => Matches(d.config, source)
            case _ => false
  {}

  // ----- stashing the configuration -----

  /** The active generation holds exactly the live configuration. */
  predicate CaptureHolds(e: Env, s: GenerationState, live: ConfigState, stashes: map<string, Node>) {
    match (s, live)
    case (Absent(a), ConfigAbsent(b)) => a == b
    case (PresentStashed(source, _, _, _), ConfigPresent(f)) =>
      LogicallyMatches(source, f) && StashMatches(e, stashes, s)
    case _ => false
  }

  /** Every disk on the way from an unstashed configuration to a captured generation. */
  predicate StashUnderway(e: Env, d: Disk) {
    && Live(d).Done?
    && ValidConfigState(Live(d).value)
    && if d.journal.Some? then
         && JournalOn(d.journal).Some?
         && JournalOn(d.journal).value.StashJournal?
         && ReadsJournal(e, d.journal, JournalOn(d.journal).value)
         && Recoverable(e, JournalOn(d.journal).value, d)
       else
         match ManifestOn(d.manifest)
         case None => true
         case Some(m) =>
           if m.active.state.Restored? then |m.consumed| < MAX_CONSUMED_GENERATIONS
           else d.marker.None? && CaptureHolds(e, m.active.state, Live(d).value, d.stashes)
  }

  /** The generation that a stash of this disk ends in. */
  function StashAim(d: Disk): nat {
    if JournalOn(d.journal).Some? && JournalOn(d.journal).value.StashJournal?
    then JournalOn(d.journal).value.newManifest.active.generation
    else
      match ManifestOn(d.manifest)
      case None => 1
      case Some(m) => if m.active.state.Restored? then NextGeneration(m.active.generation) else m.active.generation
  }

  /** The very manifest that a stash of this disk ends in, once it is fixed: it is journaled or in place. */
  function StashGoal(d: Disk): Option<StashManifest> {
    if JournalOn(d.journal).Some? && JournalOn(d.journal).value.StashJournal?
    then Some(JournalOn(d.journal).value.newManifest)
    else
      match ManifestOn(d.manifest)
      case None => None
      case Some(m) => if m.active.state.Restored? then None else Some(m)
  }

  /** The stash under way on `d` is the one under way on `d'`. */
  predicate SameStash(d: Disk, d': Disk) {
    && StashAim(d') == StashAim(d)
    && (StashGoal(d).Some? ==> StashGoal(d') == StashGoal(d))
  }

  /** A restored generation on top of a full history cannot be refreshed. */
  predicate HistoryFull(n: Option<Node>) {
    ManifestRestored(n) && |ManifestOn(n).value.consumed| >= MAX_CONSUMED_GENERATIONS
  }

  /** A captured generation: no journal, no stage, no marker, and the manifest holds the live configuration. */
  predicate Stashed(e: Env, d: Disk) {
    && d.journal.None?
    && NoForeignStages(d, None)
    && d.marker.None?
    && Live(d).Done?
    && ManifestOn(d.manifest).Some?
    && CaptureHolds(e, ManifestOn(d.manifest).value.active.state, Live(d).value, d.stashes)
  }

  lemma StashUnderwayJournaled(e: Env, d: Disk, d': Disk, j: Journal)
    requires Inv(e, d) && StashUnderway(e, d) && d.journal.None?
    requires j.StashJournal? && JournalReady(d, j) && j.source == Live(d).value
    requires ValidJournal(j) && d' == d.(journal := d'.journal) && ReadsJournal(e, d'.journal, j)
    ensures StashUnderway(e, d') && Recoverable(e, j, d') && SameStash(d, d')
  {
    hide ValidJournal, ValidManifest, ValidRecord, JournalSound, MarkerSound;
    SoundReads(e, d);
    NextIsChronicleOf(e, d, j);
    ChronicleFits(j.newManifest);
    JournalOwnsStages(e, d'.journal, j);
    assert StashFree(e, d.stashes, j.newManifest.active.state);
    assert MarkerOwned(e, d.marker, j.marker);
    assert ReplacePhase(e, d.manifest, At(d.controlStages, j.manifestStage), j.previousManifest,
                        ManifestText(j.newManifest, 0));
  }

  lemma NextIsChronicleOf(e: Env, d: Disk, j: Journal)
    requires Inv(e, d) && d.journal.None?
    requires j.StashJournal? && JournalReady(d, j) && ValidJournal(j)
    ensures Chronicle(j.newManifest)
    ensures j.newManifest.active.generation == LastGeneration(d) + 1
    ensures j.newManifest.active.stashTransactionId == j.transactionId
    ensures j.newManifest.active.state == CaptureState(j.source, j.newManifest.active.generation)
    ensures ManifestOn(d.manifest) != Some(j.newManifest)
  {
    SoundReads(e, d);
    NextIsChronicle(ManifestOn(d.manifest), j.transactionId, j.source, j.newManifest);
  }

  lemma StashToward(e: Env, j: Journal, d: Disk, d': Disk)
    requires j.StashJournal? && Inv(e, d') && ReadsJournal(e, d.journal, j) && Recoverable(e, j, d)
    requires StashUnderway(e, d) && JournalFrame(j, d, d') && Toward(e, j, d')
    ensures StashUnderway(e, d') && SameStash(d, d')
    ensures d'.journal.None? ==> d'.marker.None? && ManifestOn(d'.manifest) == Some(j.newManifest)
    ensures d'.journal.None? ==> CaptureHolds(e, j.newManifest.active.state, Live(d').value, d'.stashes)
  {
    hide Chronicle, ValidManifest, ValidRecord, ReplacePhase, MarkerOwned;
    JournalOwnsStages(e, d.journal, j);
    if ReadsJournal(e, d'.journal, j) {
      JournalOwnsStages(e, d'.journal, j);
    } else {
      assert StashKept(e, d'.stashes, Capture(j.newManifest.active.state));
    }
  }

  // ----- small steps between the goals -----

  lemma NothingReads(e: Env, n: Option<Node>, stashes: map<string, Node>)
    requires n.None?
    ensures ReadManifest(e, n, stashes) == Done(None) && !ManifestRestored(n)
  {}

  lemma InstallHasNoManifest(e: Env, d: Disk)
    requires InstallUnderway(e, d)
    ensures d.manifest.None? && ReadManifest(e, d.manifest, d.stashes).Done?
  {}

  lemma RestoreHasManifest(e: Env, d: Disk)
    requires RestoreUnderway(e, d)
    ensures d.manifest.Some? && ReadManifest(e, d.manifest, d.stashes).Done?
  {}

  lemma InstallFrame(j: Journal, d: Disk, d': Disk)
    requires j.BootstrapJournal? && JournalFrame(j, d, d')
    ensures d'.manifest == d.manifest
  {}

  lemma RestoreFrame(j: Journal, d: Disk, d': Disk)
    requires j.RestoreJournal? && JournalFrame(j, d, d')
    ensures SameAim(d.manifest, d'.manifest)
  {}

  lemma RestoredMarkedReadable(e: Env, d: Disk)
    requires RestoredMarked(e, d)
    ensures MarkerReadable(e, d.marker) && RestoredLive(e, d)
  {}

  lemma MarkedRestored(e: Env, d: Disk)
    requires RestoredMarked(e, d) && d.journal.None? && NoForeignStages(d, None)
    ensures Marked(e, d)
  {}

  lemma LegacyReads(e: Env, n: Option<Node>)
    requires LegacyAt(e, n)
    ensures n.Some? && n.value.Regular? && ValidRecord(RecordOf(n.value))
  {}

  lemma MarkedBootstrap(e: Env, d: Disk)
    requires Marked(e, d) && d.manifest.None? && BootstrapAt(e, d.config)
    ensures MarkerNames(e, d.marker, None, ConfigPresent(RecordOf(d.config.value)))
    ensures d.journal.None? && ValidRecord(RecordOf(d.config.value))
  {}

  function RecordAt(n: Option<Node>): Option<FileRecord> {
    if n.Some? && n.value.Regular? then Some(RecordOf(n.value)) else None
  }

  lemma StashReads(e: Env, d: Disk)
    requires StashUnderway(e, d) && d.journal.None?
    ensures Live(d).Done? && ValidConfigState(Live(d).value)
    ensures ManifestOn(d.manifest).Some? && Unrestored(ManifestOn(d.manifest).value.active.state) ==>
      d.marker.None? && CaptureHolds(e, ManifestOn(d.manifest).value.active.state, Live(d).value, d.stashes)
  {}

  lemma AlreadyStashed(e: Env, d: Disk)
    requires d.journal.None? && NoForeignStages(d, None) && d.marker.None? && Live(d).Done?
    requires ManifestOn(d.manifest).Some?
    requires CaptureHolds(e, ManifestOn(d.manifest).value.active.state, Live(d).value, d.stashes)
    ensures Stashed(e, d)
  {}

  lemma AlreadyUnderway(e: Env, d: Disk)
    requires Inv(e, d) && Stashed(e, d)
    ensures StashUnderway(e, d)
  {
    hide Chronicle;
    SoundReads(e, d);
    StashedState(e, ManifestOn(d.manifest).value, d);
  }

  lemma StashedState(e: Env, m: StashManifest, d: Disk)
    requires Chronicle(m) && Live(d).Done? && CaptureHolds(e, m.active.state, Live(d).value, d.stashes)
    ensures ValidConfigState(Live(d).value)
  {}

  /** A valid next manifest is one that a stash under way builds. */
  lemma NextUnderway(e: Env, d: Disk, t: TransactionId, source: ConfigState, n: StashManifest)
    requires d.journal.None? && Live(d) == Done(source)
    requires NextManifest(ManifestOn(d.manifest), t, source) == Done(n) && ValidManifest(n)
    ensures StashUnderway(e, d)
  {
    assert ValidActive(n.active.state);
  }

  lemma ReadyCapture(d: Disk, j: Journal)
    requires j.StashJournal? && JournalReady(d, j)
    ensures j.newManifest.active.state == CaptureState(j.source, j.newManifest.active.generation)
  {}

  lemma ControlRegular(e: Env, n: Option<Node>)
    requires ReadControl(e, n).Done? && n.Some?
    ensures n.value.Regular? && ValidRecord(RecordOf(n.value))
  {}

  lemma StashFrame(j: Journal, d: Disk, d': Disk)
    requires j.StashJournal? && JournalFrame(j, d, d')
    ensures d'.config == d.config && d'.etcHowy == d.etcHowy
  {}

  /** A stash from a disk under way builds a valid next manifest that fits its journal. */
  lemma NextStashed(e: Env, d: Disk, t: TransactionId, source: ConfigState)
    requires Inv(e, d) && StashUnderway(e, d) && d.journal.None? && Live(d) == Done(source) && ValidTransactionId(t)
    requires d.manifest.Some? ==> ManifestOn(d.manifest).Some? && !Unrestored(ManifestOn(d.manifest).value.active.state)
    ensures var n := NextManifest(ManifestOn(d.manifest), t, source);
            n.Done? && ValidManifest(n.value) && 4_096 + ManifestLength(n.value) <= MAX_CONTROL_BYTES
    ensures ValidConfigState(source) && ReadControl(e, d.marker).Done?
  {
    SoundReads(e, d);
    var n := NextManifest(ManifestOn(d.manifest), t, source);
    NextIsChronicle(ManifestOn(d.manifest), t, source, n.value);
    ChronicleFits(n.value);
  }

  /** The end of a stash holds the configuration that was live when it was journaled. */
  lemma StashCompleted(e: Env, j: Journal, d: Disk, d': Disk)
    requires j.StashJournal? && Inv(e, d') && Settled(e, j, d')
    requires Live(d') == Done(j.source)
    requires j.newManifest.active.state == CaptureState(j.source, j.newManifest.active.generation)
    ensures Stashed(e, d')
  {}
}
