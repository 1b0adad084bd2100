/**
 A success that the marker validator then rejects. A restored configuration is live, marked and accepted; an
 administrator replaces it by a copy with the same bytes and metadata; the next bootstrap compares the restored
 target logically, succeeds and marks the copy; the validator compares by identity and rejects it.
 `BridgeRuns.Reattest` gives the exact condition, on the disk before the call.
 */
module BridgeCounterexample {
  import opened Wrappers
  import opened BridgeTypes
  import opened BridgeNames
  import opened BridgeRules
  import opened BridgeInvariant
  import opened BridgeSteps
  import opened BridgePhases
  import opened BridgeGoals
  import opened ConfigBridgeModule
  import opened BridgeRuns

  const ENV: Env := Env(0, 0)
  const ID: TransactionId := "00000000000000000000000000000000"
  const DIRECTORY: AbsenceRecord := AbsenceRecord(1, 1)

  function Metadata(size: nat): FileMetadata {
    FileMetadata(0, 0, MODE_600, 1, size, Timestamp(0, 0), Timestamp(0, 0))
  }

  function File(inode: nat, c: Content): Node { Regular(1, inode, Metadata(Length(c)), c) }

  const ADMIN: Content := Text([1])
  const ORIGINAL: Node := File(2, ADMIN)
  const COPY: Node := File(3, ADMIN)

  function CapturedAdmin(): GenerationState {
    PresentStashed(RecordOf(ORIGINAL), StashPath(1), Sha256(ADMIN), 1)
  }

  function RestoredAdmin(): StashManifest {
    StashManifest(SCHEMA_VERSION, RELEASE_ID, CONFIG_PATH,
                  GenerationRecord(1, ID, Restored(CapturedAdmin(), ConfigPresent(RecordOf(ORIGINAL)), ID)), [])
  }

  function OriginalMarker(): BootstrapMarker {
    BootstrapMarker(MARKER_SCHEMA_VERSION, RELEASE_ID, ID, Some(1), ConfigPresent(RecordOf(ORIGINAL)))
  }

  /** The restored generation with a given file at the configuration path. */
  function RestoredDisk(config: Node): Disk {
    Disk(Some(config), None, None, Some(File(4, ManifestText(RestoredAdmin(), 0))),
         Some(File(5, MarkerText(OriginalMarker(), 0))),
         map[StashPath(1) := File(6, ADMIN)], map[], map[], map[], DIRECTORY)
  }

  lemma AdminChronicle()
    ensures Chronicle(RestoredAdmin()) && ManifestLength(RestoredAdmin()) <= MAX_CONTROL_BYTES
  {
    assert ValidTransactionId(ID);
    assert Chronicle(RestoredAdmin());
    ChronicleFits(RestoredAdmin());
  }

  lemma RestoredSound(config: Node)
    ensures Inv(ENV, RestoredDisk(config))
  {
    AdminChronicle();
    var d := RestoredDisk(config);
    assert ManifestSound(ENV, d);
    assert MarkerSound(ENV, d);
    forall g: nat | g > 1 ensures StashPath(g) !in d.stashes {
      if StashPath(g) == StashPath(1) { StashPathInjective(g, 1); }
    }
  }

  /** Before the edit the marker is accepted. */
  lemma OriginalAccepted()
    ensures ValidateCurrentMarker(ENV, RestoredDisk(ORIGINAL))
  {
    RestoredSound(ORIGINAL);
    SoundReads(ENV, RestoredDisk(ORIGINAL));
    MarkedAccepts(ENV, RestoredDisk(ORIGINAL));
  }

  /** The copy verifies as restored, has a safe owner, and is not the recorded target. */
  lemma CopyVerifies()
    ensures RestoredLive(ENV, RestoredDisk(COPY)) && SafeCompletion(ENV, Live(RestoredDisk(COPY)).value)
    ensures !TargetLive(RestoredAdmin(), RestoredDisk(COPY).config, DIRECTORY)
  {
    RestoredSound(COPY);
    SoundReads(ENV, RestoredDisk(COPY));
  }

  /** Bootstrapping after the edit succeeds, and the validator rejects what it leaves. */
  method CopiedConfigRejected(t: TransactionId) returns (r: Outcome<BootstrapOutcome>, after: Disk)
    requires ValidTransactionId(t)
    ensures r.Done? && SafeCompletion(ENV, Live(RestoredDisk(COPY)).value)
    ensures after == RestoredDisk(COPY).(marker := after.marker)
    ensures !ValidateCurrentMarker(ENV, after)
  {
    hide Inv, RestoredLive, TargetLive, ValidateCurrentMarker, SafeCompletion;
    RestoredSound(COPY);
    CopyVerifies();
    r, after := Reattest(ENV, RestoredDisk(COPY), t, false);
  }
}
