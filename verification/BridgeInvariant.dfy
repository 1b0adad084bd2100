/**
 The invariant of every disk the bridge can leave behind, killed or not, while
 administrators and package managers change the configuration freely. It says
 nothing about the configuration itself nor about the bytes of a half-written
 config stage.
 */
module BridgeInvariant {
  import opened Wrappers
  import opened BridgeTypes
  import opened BridgeNames
  import opened BridgeRules

  /** `n` is a control file with exactly the given content. */
  predicate Held(e: Env, n: Option<Node>, c: Content) {
    && n.Some?
    && n.value.Regular?
    && Readable(n.value, MAX_CONTROL_BYTES)
    && ControlRecord(e, RecordOf(n.value))
    && n.value.content == c
  }

  /** `n` is the object that `r` was taken from. */
  predicate IsObject(n: Option<Node>, r: FileRecord) {
    n.Some? && n.value.Regular? && Readable(n.value, MAX_CONFIG_BYTES) && SameObject(RecordOf(n.value), r)
  }

  predicate BootstrapAt(e: Env, n: Option<Node>) {
    n.Some? && Readable(n.value, MAX_CONFIG_BYTES) && ExactBootstrap(e, n.value)
  }

  predicate LegacyAt(e: Env, n: Option<Node>) {
    n.Some? && Readable(n.value, MAX_CONFIG_BYTES) && ExactLegacy(e, n.value)
  }

  function ManifestOn(n: Option<Node>): Option<StashManifest> {
    if n.Some? && n.value.Regular? && n.value.content.ManifestText? then Some(n.value.content.manifest) else None
  }

  function MarkerOn(n: Option<Node>): Option<BootstrapMarker> {
    if n.Some? && n.value.Regular? && n.value.content.MarkerText? then Some(n.value.content.marker) else None
  }

  function JournalOn(n: Option<Node>): Option<Journal> {
    if n.Some? && n.value.Regular? && n.value.content.JournalText? then Some(n.value.content.journal) else None
  }

  // ----- generations -----

  predicate Unrestored(s: GenerationState) { s.Absent? || s.PresentStashed? }

  predicate OwnPath(s: GenerationState, generation: nat) {
    s.PresentStashed? ==> s.stashPath == StashPath(generation)
  }

  predicate EntryInPlace(g: GenerationRecord, generation: nat) {
    g.generation == generation && g.state.ConsumedRefreshable? && OwnPath(g.state.captured, generation)
  }

  /** The generation history: a valid manifest whose consumed list is exactly the generations
      1, 2, ... below the active one, each stashed under its own path. */
  predicate Chronicle(m: StashManifest) {
    && ValidManifest(m)
    && m.active.generation == |m.consumed| + 1
    && (forall i :: 0 <= i < |m.consumed| ==> EntryInPlace(m.consumed[i], i + 1))
    && OwnPath(Capture(m.active.state), m.active.generation)
  }

  /** The active record `a` became `b`: the same generation and capture, restored at most once. */
  predicate Advanced(a: GenerationRecord, b: GenerationRecord) {
    && b.generation == a.generation
    && b.stashTransactionId == a.stashTransactionId
    && Capture(b.state) == Capture(a.state)
    && (a.state.Restored? ==> b == a)
  }

  /** The active record `a` went into the history as `g`: the same generation, capture and restore. */
  predicate ConsumedAs(a: GenerationRecord, g: GenerationRecord) {
    && g.generation == a.generation
    && g.stashTransactionId == a.stashTransactionId
    && g.state.ConsumedRefreshable?
    && g.state.captured == Capture(a.state)
    && (a.state.Restored? ==>
          && g.state.restoredTarget == a.state.restoredTarget
          && g.state.restoreTransactionId == a.state.restoreTransactionId)
  }

  /** The history of `n` is that of `m`, and whatever it adds begins with the active generation of `m`, consumed
      by the transaction that stashed the next one. */
  predicate Extends(m: StashManifest, n: StashManifest) {
    && m.consumed <= n.consumed
    && if |n.consumed| == |m.consumed| then Advanced(m.active, n.active)
       else
         var g := n.consumed[|m.consumed|];
         && ConsumedAs(m.active, g)
         && (|n.consumed| == |m.consumed| + 1 ==> g.state.consumedByTransactionId == n.active.stashTransactionId)
  }

  /** A manifest is never lost, and its history only ever grows. */
  predicate HistoryKept(a: Option<Node>, b: Option<Node>) {
    ManifestOn(a).Some? ==> ManifestOn(b).Some? && Extends(ManifestOn(a).value, ManifestOn(b).value)
  }

  // ----- the journal's view of the manifest -----

  function OldRecord(j: Journal): Option<FileRecord>
    requires !j.BootstrapJournal?
  {
    if j.StashJournal? then j.previousManifest else Some(j.manifest)
  }

  /** `n` is what the journaled operation turns the manifest `m` into. */
  predicate Successor(j: Journal, m: StashManifest, n: StashManifest)
    requires !j.BootstrapJournal?
  {
    match j
    case StashJournal(_, t, source, _, newManifest, _, _) =>
      n == newManifest && NextManifest(Some(m), t, source) == Done(n)
    case RestoreJournal(_, t, _, _, _, _, _) =>
      && Unrestored(m.active.state)
      && n.active.state.Restored?
      && n == RestoredManifest(m, n.active.state.restoredTarget, t)
      && ValidConfigState(n.active.state.restoredTarget)
  }

  predicate Committed(j: Journal, m: StashManifest)
    requires !j.BootstrapJournal?
  {
    match j
    case StashJournal(_, _, _, _, newManifest, _, _) => m == newManifest
    case RestoreJournal(_, t, _, _, _, _, _) =>
      m.active.state.Restored? && m.active.state.restoreTransactionId == t
  }

  predicate Replaceable(j: Journal, m: StashManifest)
    requires !j.BootstrapJournal?
  {
    match j
    case StashJournal(_, t, source, _, newManifest, _, _) => NextManifest(Some(m), t, source) == Done(newManifest)
    case RestoreJournal(_, _, _, _, _, _, _) => Unrestored(m.active.state)
  }

  predicate StagesSuccessor(e: Env, n: Option<Node>, j: Journal, m: StashManifest)
    requires !j.BootstrapJournal?
  {
    && ManifestOn(n).Some?
    && Held(e, n, ManifestText(ManifestOn(n).value, 0))
    && Successor(j, m, ManifestOn(n).value)
  }

  /** Where the replacement of the manifest stands: not begun, staged, exchanged, or cleaned up. */
  predicate ManifestPhase(e: Env, d: Disk, j: Journal)
    requires !j.BootstrapJournal?
  {
    && d.controlStages.Keys <= {j.manifestStage}
    && var staged := At(d.controlStages, j.manifestStage);
       match ManifestOn(d.manifest)
       case None =>
         j.StashJournal? && j.previousManifest.None? && staged.None?
         && NextManifest(None, j.transactionId, j.source) == Done(j.newManifest)
       case Some(m) =>
         if Committed(j, m) then
           staged.Some? ==> OldRecord(j).Some? && IsObject(staged, OldRecord(j).value)
         else
           && OldRecord(j).Some?
           && IsObject(d.manifest, OldRecord(j).value)
           && Replaceable(j, m)
           && (staged.Some? ==> StagesSuccessor(e, staged, j, m))
  }

  // ----- the invariant -----

  predicate StashKept(e: Env, stashes: map<string, Node>, s: GenerationState) {
    s.PresentStashed? ==> StashMatches(e, stashes, s)
  }

  predicate ManifestSound(e: Env, d: Disk) {
    d.manifest.Some? ==>
      && ManifestOn(d.manifest).Some?
      && var m := ManifestOn(d.manifest).value;
         && Held(e, d.manifest, ManifestText(m, 0))
         && Chronicle(m)
         && StashKept(e, d.stashes, Capture(m.active.state))
  }

  /** A marker belongs to the restored active generation and carries its restore transaction, or
      there is no manifest and it names no generation, or a stash is about to remove it. */
  predicate MarkerBound(d: Disk, k: BootstrapMarker) {
    match ManifestOn(d.manifest)
    case None => k.generation.None?
    case Some(m) =>
      if m.active.state.Restored? then
        && k.generation == Some(m.active.generation)
        && k.transactionId == m.active.state.restoreTransactionId
      else
        && JournalOn(d.journal).Some?
        && JournalOn(d.journal).value.StashJournal?
        && JournalOn(d.journal).value.newManifest == m
  }

  predicate MarkerSound(e: Env, d: Disk) {
    d.marker.Some? ==>
      && MarkerOn(d.marker).Some?
      && Held(e, d.marker, MarkerText(MarkerOn(d.marker).value, 0))
      && ValidMarker(MarkerOn(d.marker).value)
      && MarkerBound(d, MarkerOn(d.marker).value)
  }

  predicate StashJournalSound(e: Env, d: Disk, j: Journal)
    requires j.StashJournal?
  {
    && d.configStages == map[]
    && Chronicle(j.newManifest)
    && j.newManifest.active.stashTransactionId == j.transactionId
    && j.newManifest.active.state == CaptureState(j.source, j.newManifest.active.generation)
    && (j.source.ConfigPresent? && j.newManifest.active.state.stashPath in d.stashes
        ==> StashMatches(e, d.stashes, j.newManifest.active.state))
    && (d.marker.Some? ==> j.marker.Some? && IsObject(d.marker, j.marker.value))
    && ManifestPhase(e, d, j)
  }

  /** The one config stage that a restore of `captured` uses. */
  function RestoreStage(j: Journal, captured: GenerationState): StageName
    requires j.RestoreJournal?
  {
    if captured.Absent? then j.configBackup else j.configStage
  }

  predicate RestoreJournalSound(e: Env, d: Disk, j: Journal)
    requires j.RestoreJournal?
  {
    && d.marker.None?
    && ManifestOn(d.manifest).Some?
    && ManifestOn(d.manifest).value.active.generation == j.generation
    && d.configStages.Keys <= {RestoreStage(j, Capture(ManifestOn(d.manifest).value.active.state))}
    && ManifestPhase(e, d, j)
  }

  predicate JournalSound(e: Env, d: Disk) {
    if d.journal.None? then d.configStages == map[] && d.controlStages == map[]
    else
      && JournalOn(d.journal).Some?
      && var j := JournalOn(d.journal).value;
         && Held(e, d.journal, JournalText(j, 0))
         && ValidJournal(j)
         && match j
            case BootstrapJournal(_, _, legacy, stage) =>
              && d.manifest.None? && d.marker.None?
              && d.configStages.Keys <= {stage} && d.controlStages == map[]
            case StashJournal(_, _, _, _, _, _, _) => StashJournalSound(e, d, j)
            case RestoreJournal(_, _, _, _, _, _, _) => RestoreJournalSound(e, d, j)
  }

  function LastGeneration(d: Disk): nat {
    if JournalOn(d.journal).Some? && JournalOn(d.journal).value.StashJournal?
    then JournalOn(d.journal).value.newManifest.active.generation
    else if ManifestOn(d.manifest).Some? then ManifestOn(d.manifest).value.active.generation
    else 0
  }

  /** No stash exists for a generation that was not yet begun. */
  ghost predicate StashNamesSound(d: Disk) {
    forall g: nat :: g > LastGeneration(d) ==> StashPath(g) !in d.stashes
  }

  ghost predicate Inv(e: Env, d: Disk) {
    && d.markerStages == map[]
    && ManifestSound(e, d)
    && MarkerSound(e, d)
    && JournalSound(e, d)
    && StashNamesSound(d)
  }

  /** No bridge control of any kind: where every run starts. */
  predicate CleanControls(d: Disk) {
    && d.journal.None? && d.manifest.None? && d.marker.None?
    && d.stashes == map[] && d.configStages == map[] && d.controlStages == map[] && d.markerStages == map[]
  }

  // ----- one durable step -----

  predicate OwnsStage(e: Env, journal: Option<Node>, name: StageName) {
    match ReadJournal(e, journal)
    case Done(Some(r)) => Mentions(name, r.journal.transactionId)
    case _ => false
  }

  /** What one durable step may do to any disk at all, whatever its controls look like. A
      configuration that is not the exact pinned legacy payload stays where it is, stashes are
      only ever added, stages of other transactions are retained, and a journal that is not a
      valid control is never removed. */
  predicate KeepStep(e: Env, d: Disk, d': Disk) {
    && (d.config.Some? && !LegacyAt(e, d.config) ==> d'.config == d.config)
    && d'.source == d.source && d'.etcHowy == d.etcHowy && d'.markerStages == d.markerStages
    && (forall p | p in d.stashes :: At(d'.stashes, p) == At(d.stashes, p))
    && (forall n | n in d.configStages && !OwnsStage(e, d.journal, n) ::
          At(d'.configStages, n) == At(d.configStages, n))
    && (forall n | n in d.controlStages && !OwnsStage(e, d.journal, n) ::
          At(d'.controlStages, n) == At(d.controlStages, n))
    && (d.journal.Some? && d'.journal != d.journal ==> ReadJournal(e, d.journal).Done?)
  }
}
