/**
 What the marker validator accepts and what the bridge's comparisons of files compare, stated on the fields of the
 disk itself.
 */
module BridgeMarker {
  import opened Wrappers
  import opened BridgeTypes
  import opened BridgeNames
  import opened BridgeRules
  import opened BridgeInvariant
  import opened BridgePhases
  import opened BridgeGoals

  // ----- comparing records -----

  /** Equal in everything but the time of the last access. */
  predicate EqualButAccess(l: FileRecord, r: FileRecord) {
    l.(metadata := l.metadata.(accessed := r.metadata.accessed)) == r
  }

  /** A file is the same object if nothing but its access time differs, and the same logically if its device and inode
      may differ too. */
  lemma RecordsCompared(l: FileRecord, r: FileRecord)
    ensures SameObject(l, r) <==> EqualButAccess(l, r)
    ensures LogicallyMatches(l, r) <==> EqualButAccess(l.(device := r.device, inode := r.inode), r)
  {}

  predicate EqualStates(l: ConfigState, r: ConfigState) {
    match l
    case ConfigAbsent(_) => l == r
    case ConfigPresent(f) => r.ConfigPresent? && EqualButAccess(f, r.file)
  }

  lemma StatesCompared(l: ConfigState, r: ConfigState)
    ensures StatesExactlyMatch(l, r) <==> EqualStates(l, r)
    ensures StatesLogicallyMatch(l, r) <==>
      if l.ConfigPresent? && r.ConfigPresent?
      then EqualButAccess(l.file.(device := r.file.device, inode := r.file.inode), r.file) else l == r
  {
    if l.ConfigPresent? && r.ConfigPresent? { RecordsCompared(l.file, r.file); }
  }

  // ----- manifests -----

  predicate HexId(t: TransactionId) {
    |t| == 32 && forall i :: 0 <= i < 32 ==> '0' <= t[i] <= '9' || 'a' <= t[i] <= 'f'
  }

  /** A capture: an absence in a named directory, or a file whose stash has its digest and length. */
  predicate IsCapture(s: GenerationState) {
    match s
    case Absent(a) => a.parentDevice > 0 && a.parentInode > 0
    case PresentStashed(source, path, sha256, size) =>
      ValidRecord(source) && ValidStashPath(path) && sha256 == source.sha256 && size == source.metadata.byteLength
    case _ => false
  }

  predicate IsRestored(captured: GenerationState, target: ConfigState, t: TransactionId) {
    IsCapture(captured) && ValidConfigState(target) && HexId(t)
  }

  /** The consumed entry `g` of a manifest whose active generation is `limit`. */
  predicate IsConsumed(g: GenerationRecord, limit: nat) {
    && 0 < g.generation < limit
    && HexId(g.stashTransactionId)
    && match g.state
       case ConsumedRefreshable(captured, target, t, next) => IsRestored(captured, target, t) && HexId(next)
       case _ => false
  }

  /** A manifest is valid exactly when it is of this release and schema, its active generation is captured or restored,
      and at most 64 consumed generations come before it, all different and oldest first. */
  lemma ManifestExactly(m: StashManifest)
    ensures ValidManifest(m) <==>
      && m.schemaVersion == 2 && m.releaseId == "release-n" && m.configPath == "/etc/howy/config.toml"
      && m.active.generation > 0 && HexId(m.active.stashTransactionId)
      && (match m.active.state
          case Restored(captured, target, t) => IsRestored(captured, target, t)
          case _ => IsCapture(m.active.state))
      && |m.consumed| <= 64
      && (forall i :: 0 <= i < |m.consumed| ==> IsConsumed(m.consumed[i], m.active.generation))
      && (forall i, j :: 0 <= i < j < |m.consumed| ==> m.consumed[i].generation < m.consumed[j].generation)
  {
    hide ValidRecord, ValidStashPath, ValidConfigState;
    if OrderedBelow(m.consumed, m.active.generation) { Increasing(m.consumed); }
  }

  lemma {:induction false} Increasing(gs: seq<GenerationRecord>)
    requires forall i :: 0 < i < |gs| ==> gs[i - 1].generation < gs[i].generation
    ensures forall i, j :: 0 <= i < j < |gs| ==> gs[i].generation < gs[j].generation
  {
    if |gs| > 1 {
      var k := |gs| - 1;
      Increasing(gs[..k]);
      forall i | 0 <= i < k ensures gs[i].generation < gs[k].generation {
        if i < k - 1 { assert gs[..k][i].generation < gs[..k][k - 1].generation; }
      }
    }
  }

  // ----- files -----

  /** A regular file with one link, an identity, no more than `maximum` bytes and well-formed times. */
  predicate PlainFile(n: Node, maximum: nat) {
    && n.Regular?
    && n.device > 0 && n.inode > 0
    && n.metadata.linkCount == 1 && n.metadata.permissions < 4_096
    && n.metadata.byteLength == Length(n.content) <= maximum
    && n.metadata.accessed.nanoseconds < 1_000_000_000 && n.metadata.modified.nanoseconds < 1_000_000_000
  }

  /** A file that only its expected owner can read or write: permissions 0600. */
  predicate PrivateFile(e: Env, n: Node, maximum: nat) {
    PlainFile(n, maximum) && n.metadata.uid == e.uid && n.metadata.gid == e.gid && n.metadata.permissions == 384
  }

  lemma FilesRead(e: Env, n: Node, maximum: nat)
    requires maximum <= 1_048_576
    ensures Readable(n, maximum) <==> PlainFile(n, maximum)
    ensures Readable(n, maximum) && ControlRecord(e, RecordOf(n)) <==> PrivateFile(e, n, maximum)
  {}

  lemma PrivateIsRegular(e: Env, n: Node, maximum: nat)
    ensures PrivateFile(e, n, maximum) || Readable(n, maximum) ==> n.Regular?
  {}

  // ----- the marker -----

  /** `state` is the live configuration, which belongs to the expected owner, or its absence. */
  predicate IsLive(e: Env, d: Disk, state: ConfigState) {
    match d.config
    case None => state == ConfigAbsent(d.etcHowy) && d.etcHowy.parentDevice > 0 && d.etcHowy.parentInode > 0
    case Some(n) =>
      && PlainFile(n, 1_048_576)
      && n.metadata.uid == e.uid && n.metadata.gid == e.gid
      && state.ConfigPresent?
      && state.file.metadata.accessed.nanoseconds < 1_000_000_000
      && EqualButAccess(state.file, FileRecord(n.device, n.inode, Sha256(n.content), n.metadata))
  }

  /** The stash of a captured configuration is there, private and with the recorded bytes. */
  predicate StashThere(e: Env, d: Disk, captured: GenerationState) {
    captured.PresentStashed? ==>
      && captured.stashPath in d.stashes
      && PrivateFile(e, d.stashes[captured.stashPath], 1_048_576)
      && captured.stashSha256 == Sha256(d.stashes[captured.stashPath].content)
      && captured.stashSize == d.stashes[captured.stashPath].metadata.byteLength
  }

  /** The manifest is a private control whose active generation `g` was restored by transaction `t` to `target`. */
  predicate RestoredBy(e: Env, d: Disk, g: nat, t: TransactionId, target: ConfigState) {
    && d.manifest.Some?
    && PrivateFile(e, d.manifest.value, 262_144)
    && d.manifest.value.content.ManifestText?
    && var m := d.manifest.value.content.manifest;
       && ValidManifest(m)
       && m.active.generation == g
       && m.active.state.Restored?
       && m.active.state.restoreTransactionId == t
       && EqualStates(target, m.active.state.restoredTarget)
       && StashThere(e, d, m.active.state.captured)
  }

  /** A private control that is a well-formed marker. */
  predicate WellMarked(e: Env, n: Option<Node>) {
    && n.Some?
    && PrivateFile(e, n.value, 262_144)
    && n.value.content.MarkerText?
    && var k := n.value.content.marker;
       && k.schemaVersion == 1 && k.releaseId == "release-n" && k.generation != Some(0)
       && |k.transactionId| == 32 && (forall i :: 0 <= i < 32 ==> IsLowerHex(k.transactionId[i]))
       && ValidConfigState(k.config)
  }

  lemma MarkerCompared(e: Env, n: Option<Node>)
    ensures WellMarked(e, n) <==> MarkerReadable(e, n)
    ensures WellMarked(e, n) ==> MarkerOn(n) == Some(n.value.content.marker)
  {
    hide Length, ValidConfigState, PlainFile, Readable, ControlRecord, PrivateFile;
    if n.Some? {
      FilesRead(e, n.value, 262_144);
      PrivateIsRegular(e, n.value, 262_144);
    }
  }

  /** A marker without a generation stands alone; one with a generation agrees with a restored manifest in generation,
      restore transaction and exact target. */
  predicate Fits(e: Env, d: Disk, k: BootstrapMarker) {
    match k.generation
    case None => d.manifest == None
    case Some(g) => RestoredBy(e, d, g, k.transactionId, k.config)
  }

  lemma StagesGone(d: Disk)
    ensures NoForeignStages(d, None) <==>
      d.configStages.Keys == {} && d.controlStages.Keys == {} && d.markerStages.Keys == {}
  {
    var names := d.configStages.Keys + d.controlStages.Keys + d.markerStages.Keys;
    assert d.configStages.Keys <= names && d.controlStages.Keys <= names && d.markerStages.Keys <= names;
    if names != {} { var n :| n in names; }
  }

  lemma LiveCompared(e: Env, d: Disk, state: ConfigState)
    ensures IsLive(e, d, state) <==>
      && ValidConfigState(state)
      && Live(d).Done? && SafeCompletion(e, Live(d).value) && StatesExactlyMatch(state, Live(d).value)
  {
    hide Length;
    if d.config.Some? { FilesRead(e, d.config.value, 1_048_576); }
    if Live(d).Done? { StatesCompared(state, Live(d).value); }
  }

  lemma StashCompared(e: Env, d: Disk, captured: GenerationState)
    ensures StashThere(e, d, captured) <==> (captured.PresentStashed? ==> StashMatches(e, d.stashes, captured))
  {
    hide Length, PrivateFile, Readable, ControlRecord;
    if captured.PresentStashed? && captured.stashPath in d.stashes {
      FilesRead(e, d.stashes[captured.stashPath], 1_048_576);
      PrivateIsRegular(e, d.stashes[captured.stashPath], 1_048_576);
    }
  }

  lemma ManifestCompared(e: Env, d: Disk, g: nat, t: TransactionId, target: ConfigState)
    ensures RestoredBy(e, d, g, t, target) <==>
      && ReadManifest(e, d.manifest, d.stashes).Done? && d.manifest.Some?
      && var a := ReadManifest(e, d.manifest, d.stashes).value.value.manifest.active;
         && a.state.Restored? && a.generation == g && t == a.state.restoreTransactionId
         && StatesExactlyMatch(target, a.state.restoredTarget)
  {
    hide Length, PrivateFile, Readable, ControlRecord, ValidManifest, StashThere, StashMatches, EqualStates,
         StatesExactlyMatch;
    if d.manifest.Some? {
      FilesRead(e, d.manifest.value, 262_144);
      if d.manifest.value.Regular? && d.manifest.value.content.ManifestText? {
        var s := d.manifest.value.content.manifest.active.state;
        if s.Restored? {
          StashCompared(e, d, s.captured);
          StatesCompared(target, s.restoredTarget);
        }
      }
    }
  }

  /** The structure of the controls is accepted exactly without a journal, without a stage name of any kind, and with
      a private, well-formed marker that fits the manifest. */
  lemma StructureExactly(e: Env, d: Disk, k: BootstrapMarker)
    ensures ValidateStructure(e, d) == Done(k) <==>
      && d.journal == None
      && d.configStages.Keys == {} && d.controlStages.Keys == {} && d.markerStages.Keys == {}
      && WellMarked(e, d.marker) && d.marker.value.content.marker == k
      && Fits(e, d, k)
  {
    hide NoForeignStages, ReadManifest, MarkerReadable, RestoredBy, StatesExactlyMatch, ValidManifest, WellMarked;
    StagesGone(d);
    MarkerCompared(e, d.marker);
    NothingReads(e, None, d.stashes);
    if WellMarked(e, d.marker) {
      var k := MarkerOn(d.marker).value;
      if k.generation.Some? { ManifestCompared(e, d, k.generation.value, k.transactionId, k.config); }
    }
  }

  /** The marker is accepted exactly when, besides, it names the live configuration, which belongs to the expected
      owner, or its absence. */
  lemma AcceptsExactly(e: Env, d: Disk)
    ensures ValidateCurrentMarker(e, d) <==>
      && d.journal == None
      && d.configStages.Keys == {} && d.controlStages.Keys == {} && d.markerStages.Keys == {}
      && WellMarked(e, d.marker)
      && Fits(e, d, d.marker.value.content.marker)
      && IsLive(e, d, d.marker.value.content.marker.config)
  {
    hide ValidateStructure, SnapshotConfig, SafeCompletion, StatesExactlyMatch, Length, Fits, IsLive,
         ValidConfigState;
    if WellMarked(e, d.marker) {
      var k := d.marker.value.content.marker;
      StructureExactly(e, d, k);
      LiveCompared(e, d, k.config);
    }
    if ValidateStructure(e, d).Done? { StructureExactly(e, d, ValidateStructure(e, d).value); }
  }
}
