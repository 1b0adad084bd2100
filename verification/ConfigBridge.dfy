/**
 The bridge itself. Every durable change goes through `Commit`, which also appends
 the new disk to the record `seen`; a process is killed when `Boundary`
 returns `Interrupted`, at the boundary that `killAt` counts down to.
 */
module ConfigBridgeModule {
  import opened Wrappers
  import opened BridgeTypes
  import opened BridgeNames
  import opened BridgeRules
  import opened BridgeInvariant
  import opened BridgeSteps
  import opened BridgePhases
  import opened BridgeGoals

  datatype BootstrapOutcome = Installed | RestoredStash | VerifiedUpgrade

  datatype CreateOutcome = Created | Occupied

  datatype StashOutcome = StashCreated | Refreshed | AlreadyExact

  /** How a stash of a disk with this manifest is reported. */
  function StashKind(n: Option<Node>): StashOutcome {
    match ManifestOn(n)
    case None => StashCreated
    case Some(m) => if Unrestored(m.active.state) then AlreadyExact else Refreshed
  }

  class ConfigBridge {
    const env: Env
    var disk: Disk
    var killAt: Option<nat>
    ghost const sound: bool
    var seen: seq<Disk>

    /** Every durable step since the process started was a permitted one, and if the process
        started on a sound disk then the disk was sound all along. */
    ghost predicate Valid()
      reads this
    {
      && |seen| > 0
      && seen[|seen| - 1] == disk
      && KeptAlong(env, seen)
      && (sound ==> SoundAlong(env, seen))
    }

    lemma SoundNow()
      requires Valid()
      ensures sound ==> Inv(env, disk)
    {}

    lemma SeenLast()
      requires Valid()
      ensures |seen| > 0 && seen[|seen| - 1] == disk
    {}

    /** What every bridge method promises about history and interruption. */
    twostate predicate Ran(interrupted: bool)
      reads this
    {
      && Valid()
      && Grew(old(seen), seen)
      && (old(killAt).None? ==> killAt.None? && !interrupted)
    }

    constructor (env: Env, disk: Disk, killAt: Option<nat>)
      ensures Valid() && this.env == env && this.disk == disk && this.killAt == killAt
      ensures seen == [disk] && (sound <==> Inv(env, disk))
    {
      this.env, this.disk, this.killAt, this.seen := env, disk, killAt, [disk];
      sound := Inv(env, disk);
    }

    method Commit(next: Disk)
      requires Valid()
      requires KeepStep(env, disk, next)
      requires sound && Inv(env, disk) ==> Inv(env, next) && HistoryKept(disk.manifest, next.manifest)
      modifies this`disk, this`seen
      ensures Ran(false)
      ensures disk == next && seen == old(seen) + [next]
    {
      disk := next;
      seen := seen + [next];
    }

    method Boundary() returns (r: Outcome<()>)
      requires Valid()
      modifies this`killAt
      ensures Ran(r.Interrupted?)
      ensures !r.Refused? && (r.Interrupted? <==> old(killAt) == Some(0))
      ensures r.Done? ==> killAt == if old(killAt).Some? then Some(old(killAt).value - 1) else None
    {
      match killAt {
        case None => return Done(());
        case Some(n) =>
          if n == 0 { return Interrupted; }
          killAt := Some(n - 1);
          return Done(());
      }
    }

    /** The private, not yet visible half of a publication. */
    method WritePrivate(c: Content, uid: nat, gid: nat, mode: nat, times: Option<FileMetadata>)
      returns (r: Outcome<Node>)
      requires Valid()
      requires times.Some? ==> ValidTimestamp(times.value.accessed) && ValidTimestamp(times.value.modified)
      modifies this`killAt
      ensures Ran(r.Interrupted?)
      ensures !r.Refused?
      ensures r.Done? ==> Written(r.value, c, uid, gid, mode, times)
    {
      var _ :- Boundary();
      var device: nat, inode: nat, seconds: int, nanoseconds: nat := *, *, *, *;
      var now := Timestamp(seconds, nanoseconds % 1_000_000_000);
      var accessed := if times.Some? then times.value.accessed else now;
      var modified := if times.Some? then times.value.modified else now;
      var _ :- Boundary();
      var _ :- Boundary();
      return Done(Regular(device + 1, inode + 1, FileMetadata(uid, gid, mode, 1, Length(c), accessed, modified), c));
    }

    /** The visible half: link the written file to a name that must still be free. */
    method LinkNoReplace(s: Slot, n: Node) returns (r: Outcome<()>)
      requires Valid()
      requires sound && Inv(env, disk) && Get(disk, s).None? ==> Inv(env, Link(disk, s, n))
      modifies this
      ensures Ran(r.Interrupted?)
      ensures r.Refused? <==> old(Get(disk, s)).Some?
      ensures disk == if r.Refused? then old(disk) else Link(old(disk), s, n)
      ensures seen == if r.Refused? then old(seen) else old(seen) + [disk]
    {
      if Get(disk, s).Some? { return Refused; }
      LinkKeeps(env, disk, s, n);
      Commit(Link(disk, s, n));
      var _ :- Boundary();
      var _ :- Boundary();
      return Done(());
    }

    method RemoveExact(s: Slot, expected: FileRecord) returns (r: Outcome<()>)
      requires Valid()
      requires MayUnlink(env, disk, s)
      requires sound && Inv(env, disk) && IsObject(Get(disk, s), expected) ==> Inv(env, Unlink(disk, s))
      modifies this`disk, this`seen
      ensures Ran(false) && !r.Interrupted?
      ensures r.Done? <==> old(IsObject(Get(disk, s), expected))
      ensures disk == if r.Done? then Unlink(old(disk), s) else old(disk)
    {
      var current :- ReadRegular(Get(disk, s), MAX_CONFIG_BYTES);
      if current.None? || !SameObject(RecordOf(current.value), expected) { return Refused; }
      Commit(Unlink(disk, s));
      return Done(());
    }

    /** An identity-checked unlink between its two boundaries. */
    method DropExact(s: Slot, expected: FileRecord) returns (r: Outcome<()>)
      requires Valid()
      requires MayUnlink(env, disk, s)
      requires sound && Inv(env, disk) && IsObject(Get(disk, s), expected) ==> Inv(env, Unlink(disk, s))
      modifies this
      ensures Ran(r.Interrupted?)
      ensures r.Refused? ==> !old(IsObject(Get(disk, s), expected))
      ensures r.Done? ==> disk == Unlink(old(disk), s)
      ensures disk == old(disk) || disk == Unlink(old(disk), s)
      ensures r.Done? || disk != old(disk) ==> old(IsObject(Get(disk, s), expected))
    {
      var _ :- Boundary();
      var _ :- RemoveExact(s, expected);
      var _ :- Boundary();
      return Done(());
    }

    /** Named stage creation between its two boundaries: first an empty file under the stage
        name, then the finished one. */
    method CreateStage(name: StageName, c: Content, uid: nat, gid: nat, mode: nat, times: Option<FileMetadata>)
      returns (r: Outcome<()>)
      requires Valid() && OwnsStage(env, disk.journal, name)
      requires times.Some? ==> ValidTimestamp(times.value.accessed) && ValidTimestamp(times.value.modified)
      requires sound ==> StagesAllowed(disk.journal, disk.manifest, disk.configStages.Keys + {name})
      modifies this
      ensures Ran(r.Interrupted?)
      ensures r.Refused? ==> name in old(disk).configStages
      ensures disk == old(disk) || (
        && name in disk.configStages
        && disk == old(disk).(configStages := old(disk).configStages[name := disk.configStages[name]])
        && Written(disk.configStages[name], c, uid, gid, mode, times))
      ensures r.Done? ==> disk != old(disk)
    {
      hide Valid, Inv, KeepStep, OwnsStage, StagesAllowed;
      var _ :- Boundary();
      if name in disk.configStages { return Refused; }
      var device: nat, inode: nat, seconds: int, nanoseconds: nat := *, *, *, *;
      var now := Timestamp(seconds, nanoseconds % 1_000_000_000);
      var accessed := if times.Some? then times.value.accessed else now;
      var modified := if times.Some? then times.value.modified else now;
      var torn := Regular(device + 1, inode + 1, FileMetadata(uid, gid, mode, 1, 0, now, now), Text([]));
      WriteStage(name, torn);
      assert disk.configStages.Keys + {name} == old(disk).configStages.Keys + {name};
      WriteStage(name, torn.(metadata := FileMetadata(uid, gid, mode, 1, Length(c), accessed, modified), content := c));
      r := Boundary();
    }

    method WriteStage(name: StageName, n: Node)
      requires Valid() && OwnsStage(env, disk.journal, name)
      requires sound ==> StagesAllowed(disk.journal, disk.manifest, disk.configStages.Keys + {name})
      modifies this`disk, this`seen
      ensures Ran(false)
      ensures disk == old(disk).(configStages := old(disk).configStages[name := n])
    {
      var stages := disk.configStages[name := n];
      if sound {
        SoundNow();
        assert stages.Keys == disk.configStages.Keys + {name};
        ConfigIsFree(env, disk, disk.config, stages, disk.etcHowy);
      }
      Commit(disk.(configStages := stages));
    }

    method EnsureMarker(t: TransactionId, generation: Option<nat>, state: ConfigState) returns (r: Outcome<()>)
      requires Valid()
      requires ValidTransactionId(t) && generation != Some(0)
      requires sound ==> disk.journal.None? && MarkerFits(disk.manifest, t, generation)
      modifies this
      ensures Ran(r.Interrupted?)
      ensures disk == old(disk).(marker := disk.marker)
      ensures r.Refused? ==> disk == old(disk)
      ensures disk.marker == old(disk).marker || disk.marker.None?
        || MarkerOn(disk.marker) == Some(BootstrapMarker(1, "release-n", t, generation, state))
      ensures r.Done? ==> MarkerNames(env, disk.marker, generation, state) && ValidConfigState(state)
      ensures r.Interrupted? ==>
        disk == old(disk) || disk.marker.None? || MarkerNames(env, disk.marker, generation, state)
      ensures ValidConfigState(state) && old(disk.marker.None? || MarkerReadable(env, disk.marker)) ==> !r.Refused?
      ensures ValidConfigState(state) && old(MarkerNames(env, disk.marker, generation, state)) ==>
        r.Done? && disk == old(disk)
    {
      hide Valid, Inv, KeepStep;
      if !ValidConfigState(state) { return Refused; }
      var marker := BootstrapMarker(MARKER_SCHEMA_VERSION, RELEASE_ID, t, generation, state);
      var existing :- ReadControl(env, disk.marker);
      if existing.Some? {
        if !existing.value.content.MarkerText? || !ValidMarker(existing.value.content.marker) { return Refused; }
        var parsed := existing.value.content.marker;
        if parsed.generation == generation && StatesExactlyMatch(parsed.config, state) {
          return Done(());
        }
        if sound {
          SoundNow();
          MarkerDropped(env, disk);
        }
        var _ :- DropExact(MarkerSlot, RecordOf(existing.value));
      }
      r := PublishMarker(marker);
    }

    method PublishMarker(marker: BootstrapMarker) returns (r: Outcome<()>)
      requires Valid()
      requires ValidMarker(marker)
      requires sound ==> disk.journal.None? && MarkerFits(disk.manifest, marker.transactionId, marker.generation)
      modifies this
      ensures Ran(r.Interrupted?)
      ensures r.Refused? <==> old(disk).marker.Some?
      ensures disk == old(disk).(marker := disk.marker)
      ensures disk == old(disk) ||
        (MarkerNames(env, disk.marker, marker.generation, marker.config) && MarkerOn(disk.marker) == Some(marker))
      ensures r.Done? ==> MarkerNames(env, disk.marker, marker.generation, marker.config)
    {
      hide Valid, Inv, KeepStep, MarkerNames, ValidMarker, Held;
      if disk.marker.Some? { return Refused; }
      var _ :- Boundary();
      var n :- WritePrivate(MarkerText(marker, 0), env.uid, env.gid, MODE_600, None);
      MarkerWritten(env, n, marker);
      hide Written;
      if sound {
        SoundNow();
        MarkerPublished(env, disk, marker, n);
      }
      r := LinkNoReplace(MarkerSlot, n);
      if r.Done? { r := Boundary(); }
    }

    method RecoverBootstrap(j: Journal) returns (r: Outcome<()>)
      requires Valid()
      requires j.BootstrapJournal? && ReadsJournal(env, disk.journal, j)
      modifies this
      ensures Ran(r.Interrupted?)
      ensures disk == old(disk).(config := disk.config, configStages := disk.configStages)
      ensures r.Done? ==> BootstrapAt(env, disk.config) && j.configStage !in disk.configStages
      ensures r.Done? ==> old(Recoverable(env, j, disk))
      ensures PinnedLegacyRecord(env, j.legacy) && old(SourceIntact(env, disk.source)) && old(BootPhase(env, j, disk))
              ==> !r.Refused? && BootPhase(env, j, disk)
    {
      hide Valid, Inv, KeepStep, StagesAllowed, OwnsStage, ReadsJournal, SourceIntact, ExactBootstrap, SameObject;
      if !PinnedLegacyRecord(env, j.legacy) || !SourceIntact(env, disk.source) { return Refused; }
      var _ :- StageBootstrap(j);
      var target :- ReadRegular(disk.config, MAX_CONFIG_BYTES);
      var stage :- ReadRegular(At(disk.configStages, j.configStage), MAX_CONFIG_BYTES);
      if BootstrapAt(env, target) && IsObject(stage, j.legacy) {
        JournalOwnsStages(env, disk.journal, j);
        if sound {
          SoundNow();
          ConfigStageDropped(env, disk, j.configStage);
        }
        var _ :- DropExact(ConfigStageSlot(j.configStage), j.legacy);
      } else if !(BootstrapAt(env, target) && stage.None?) {
        return Refused;
      }
      return Done(());
    }

    /** Stage the bootstrap beside a live legacy payload, then exchange the two. */
    method StageBootstrap(j: Journal) returns (r: Outcome<()>)
      requires Valid()
      requires j.BootstrapJournal? && ReadsJournal(env, disk.journal, j) && PinnedLegacyRecord(env, j.legacy)
      modifies this
      ensures Ran(r.Interrupted?)
      ensures disk == old(disk).(config := disk.config, configStages := disk.configStages)
      ensures r.Done? ==> disk == old(disk) || old(BootPhase(env, j, disk))
      ensures old(BootPhase(env, j, disk)) ==> !r.Refused? && BootPhase(env, j, disk)
      ensures r.Done? && old(BootPhase(env, j, disk)) ==>
        var stage := At(disk.configStages, j.configStage);
        BootstrapAt(env, disk.config) && (stage.None? || IsObject(stage, j.legacy))
    {
      hide Valid, Inv, KeepStep, ReadsJournal, ExactBootstrap, SameObject, PinnedLegacyRecord;
      var target :- ReadRegular(disk.config, MAX_CONFIG_BYTES);
      var stage :- ReadRegular(At(disk.configStages, j.configStage), MAX_CONFIG_BYTES);
      if IsObject(target, j.legacy) && stage.None? {
        var _ :- FillBootstrapStage(j);
        stage := At(disk.configStages, j.configStage);
      }
      if IsObject(target, j.legacy) && BootstrapAt(env, stage) {
        var _ :- ExchangeLegacy(j);
      }
      return Done(());
    }

    /** Write the bootstrap payload to its free stage. */
    method FillBootstrapStage(j: Journal) returns (r: Outcome<()>)
      requires Valid()
      requires j.BootstrapJournal? && ReadsJournal(env, disk.journal, j) && j.configStage !in disk.configStages
      modifies this
      ensures Ran(r.Interrupted?) && !r.Refused?
      ensures disk == old(disk).(configStages := disk.configStages)
      ensures disk == old(disk) || BootstrapAt(env, At(disk.configStages, j.configStage))
      ensures r.Done? ==> disk != old(disk)
    {
      hide Valid, Inv, KeepStep, StagesAllowed, OwnsStage, ReadsJournal, Written, BootstrapAt;
      JournalOwnsStages(env, disk.journal, j);
      if sound {
        SoundNow();
        BootstrapStageAllowed(env, disk, j);
      }
      r := CreateStage(j.configStage, BootstrapPayload, env.uid, env.gid, MODE_600, None);
      if j.configStage in disk.configStages { WrittenBootstrap(env, disk.configStages[j.configStage]); }
    }

    /** Exchange the pinned legacy payload with its stage. */
    method ExchangeLegacy(j: Journal) returns (r: Outcome<()>)
      requires Valid()
      requires j.BootstrapJournal? && ReadsJournal(env, disk.journal, j) && PinnedLegacyRecord(env, j.legacy)
      requires IsObject(disk.config, j.legacy) && j.configStage in disk.configStages
      modifies this
      ensures Ran(r.Interrupted?) && !r.Refused?
      ensures disk == old(disk) || disk == Exchanged(old(disk), j.configStage)
      ensures r.Done? ==> disk == Exchanged(old(disk), j.configStage)
    {
      hide Valid, Inv, KeepStep, StagesAllowed, OwnsStage, ReadsJournal, PinnedLegacyRecord, LegacyAt;
      JournalOwnsStages(env, disk.journal, j);
      PinnedObjectIsLegacy(env, disk.config, j.legacy);
      if sound {
        SoundNow();
        BootstrapStageAllowed(env, disk, j);
        assert disk.configStages.Keys + {j.configStage} == disk.configStages.Keys;
      }
      r := ExchangeConfig(j.configStage);
    }

    /** Atomic exchange of the live configuration with a config stage, between its boundaries. */
    method ExchangeConfig(name: StageName) returns (r: Outcome<()>)
      requires Valid() && OwnsStage(env, disk.journal, name)
      requires LegacyAt(env, disk.config) && name in disk.configStages
      requires sound ==> StagesAllowed(disk.journal, disk.manifest, disk.configStages.Keys)
      modifies this
      ensures Ran(r.Interrupted?) && !r.Refused?
      ensures disk == old(disk) || disk == Exchanged(old(disk), name)
      ensures r.Done? ==> disk == Exchanged(old(disk), name)
    {
      hide Valid, Inv, KeepStep, OwnsStage, LegacyAt, StagesAllowed;
      DisplacementKeeps(env, disk, name);
      var _ :- Boundary();
      var next := Exchanged(disk, name);
      assert next.configStages.Keys == disk.configStages.Keys;
      if sound {
        SoundNow();
        ConfigIsFree(env, disk, next.config, next.configStages, disk.etcHowy);
      }
      Commit(next);
      r := Boundary();
    }

    method ReplaceManifest(j: Journal, n: StashManifest) returns (r: Outcome<()>)
      requires Valid()
      requires !j.BootstrapJournal? && ReadsJournal(env, disk.journal, j)
      requires ManifestLength(n) <= MAX_CONTROL_BYTES
      requires sound ==> NewFits(disk.manifest, j, n) && StashKept(env, disk.stashes, Capture(n.active.state))
      modifies this
      ensures Ran(r.Interrupted?)
      ensures disk == old(disk).(manifest := disk.manifest, controlStages := disk.controlStages)
      ensures r.Done? ==> ManifestOn(disk.manifest) == Some(n) && disk.manifest.value.content == ManifestText(n, 0)
      ensures r.Done? && OldRecord(j).Some? ==> j.manifestStage !in disk.controlStages
      ensures OldRecord(j).None? ==> disk.controlStages == old(disk).controlStages
      ensures disk.manifest == old(disk).manifest
           || (ManifestOn(disk.manifest) == Some(n) && !old(Held(env, disk.manifest, ManifestText(n, 0))))
      ensures old(ReplacePhase(env, disk.manifest, At(disk.controlStages, j.manifestStage), OldRecord(j),
                               ManifestText(n, 0)))
              ==> !r.Refused? && ReplacePhase(env, disk.manifest, At(disk.controlStages, j.manifestStage),
                                              OldRecord(j), ManifestText(n, 0))
    {
      hide Valid, Inv, KeepStep, OwnsStage, ReadsJournal, Readable, SameObject, NewFits, StashKept, Committed;
      var c := ManifestText(n, 0);
      var current :- ReadRegular(disk.manifest, MAX_CONTROL_BYTES);
      var stage :- ReadRegular(At(disk.controlStages, j.manifestStage), MAX_CONTROL_BYTES);
      if OldRecord(j).None? {
        if Held(env, current, c) { return Done(()); }
        if current.Some? { return Refused; }
        r := PublishManifest(j, n);
      } else if !Held(env, current, c) {
        if !IsObject(current, OldRecord(j).value) { return Refused; }
        r := SwapManifest(j, n);
      } else if stage.Some? {
        if !IsObject(stage, OldRecord(j).value) { return Refused; }
        if sound { NewIsCommitted(disk.manifest, j, n); }
        r := DropBackup(j, n);
      } else {
        r := Done(());
      }
    }

    /** Stage the new manifest, exchange it with the identity-checked old one, remove the old one. */
    method SwapManifest(j: Journal, n: StashManifest) returns (r: Outcome<()>)
      requires Valid()
      requires !j.BootstrapJournal? && ReadsJournal(env, disk.journal, j) && OldRecord(j).Some?
      requires ManifestLength(n) <= MAX_CONTROL_BYTES
      requires sound ==> NewFits(disk.manifest, j, n) && StashKept(env, disk.stashes, Capture(n.active.state))
      requires ControlReadable(disk.manifest) && IsObject(disk.manifest, OldRecord(j).value)
      requires !Held(env, disk.manifest, ManifestText(n, 0))
      modifies this
      ensures Ran(r.Interrupted?)
      ensures disk == old(disk).(manifest := disk.manifest, controlStages := disk.controlStages)
      ensures r.Done? ==> ManifestOn(disk.manifest) == Some(n) && disk.manifest.value.content == ManifestText(n, 0)
      ensures r.Done? ==> j.manifestStage !in disk.controlStages
      ensures disk.manifest == old(disk).manifest || ManifestOn(disk.manifest) == Some(n)
      ensures old(ReplacePhase(env, disk.manifest, At(disk.controlStages, j.manifestStage), OldRecord(j),
                               ManifestText(n, 0)))
              ==> !r.Refused? && ReplacePhase(env, disk.manifest, At(disk.controlStages, j.manifestStage),
                                              OldRecord(j), ManifestText(n, 0))
    {
      hide Valid, Inv, KeepStep, OwnsStage, ReadsJournal, Readable, SameObject, NewFits, StashKept, Committed;
      var _ :- StageManifest(j, n);
      ghost var ready := disk;
      var _ :- ExchangeManifest(j, n);
      assert At(disk.controlStages, j.manifestStage) == ready.manifest;
      if sound { SwapCommitted(ready.manifest, j, n); }
      r := DropBackup(j, n);
    }

    /** The first manifest is published without replacing anything. */
    method PublishManifest(j: Journal, n: StashManifest) returns (r: Outcome<()>)
      requires Valid()
      requires !j.BootstrapJournal? && ReadsJournal(env, disk.journal, j)
      requires ManifestLength(n) <= MAX_CONTROL_BYTES
      requires sound ==> NewFits(disk.manifest, j, n) && StashKept(env, disk.stashes, Capture(n.active.state))
      requires disk.manifest.None?
      modifies this
      ensures Ran(r.Interrupted?) && !r.Refused?
      ensures disk == old(disk) || disk == old(disk).(manifest := disk.manifest)
      ensures disk != old(disk) ==> Held(env, disk.manifest, ManifestText(n, 0))
      ensures r.Done? ==> disk != old(disk)
    {
      hide Valid, Inv, KeepStep, OwnsStage, ReadsJournal, Written, Held, StashKept;
      var _ :- Boundary();
      var node :- WritePrivate(ManifestText(n, 0), env.uid, env.gid, MODE_600, None);
      WrittenControl(env, node, ManifestText(n, 0));
      if sound {
        SoundNow();
        JournalOwnsStages(env, disk.journal, j);
        ManifestPublished(env, disk, j, node);
      }
      var _ :- LinkNoReplace(ManifestSlot, node);
      r := Boundary();
    }

    /** Stage the new manifest unless it is staged already. */
    method StageManifest(j: Journal, n: StashManifest) returns (r: Outcome<()>)
      requires Valid()
      requires !j.BootstrapJournal? && ReadsJournal(env, disk.journal, j)
      requires ManifestLength(n) <= MAX_CONTROL_BYTES
      requires sound ==> NewFits(disk.manifest, j, n)
      requires disk.manifest.Some? && !Held(env, disk.manifest, ManifestText(n, 0))
      modifies this
      ensures Ran(r.Interrupted?)
      ensures disk == old(disk).(controlStages := disk.controlStages)
      ensures disk == old(disk) || Held(env, At(disk.controlStages, j.manifestStage), ManifestText(n, 0))
      ensures r.Done? ==> j.manifestStage in disk.controlStages
      ensures r.Done? ==>
        var staged := disk.controlStages[j.manifestStage];
        staged.Regular? && staged.content == ManifestText(n, 0)
      ensures (|| old(At(disk.controlStages, j.manifestStage)).None?
               || old(Held(env, At(disk.controlStages, j.manifestStage), ManifestText(n, 0)))) ==> !r.Refused?
    {
      hide Valid, Inv, KeepStep, OwnsStage, ReadsJournal, Written, NewFits, Successor, Committed;
      if j.manifestStage in disk.controlStages {
        var staged := disk.controlStages[j.manifestStage];
        if !staged.Regular? || staged.content != ManifestText(n, 0) { return Refused; }
        return Done(());
      }
      var _ :- Boundary();
      var node :- WritePrivate(ManifestText(n, 0), env.uid, env.gid, MODE_600, None);
      WrittenControl(env, node, ManifestText(n, 0));
      if sound {
        SoundNow();
        JournalOwnsStages(env, disk.journal, j);
        NotYetCommitted(env, disk, j, n);
        ManifestStaged(env, disk, j, ManifestOn(disk.manifest).value, node);
      }
      var _ :- LinkNoReplace(ControlStageSlot(j.manifestStage), node);
      r := Boundary();
    }

    /** Atomic exchange of the manifest with its stage, between its boundaries. */
    method ExchangeManifest(j: Journal, n: StashManifest) returns (r: Outcome<()>)
      requires Valid()
      requires !j.BootstrapJournal? && ReadsJournal(env, disk.journal, j)
      requires sound ==> NewFits(disk.manifest, j, n) && StashKept(env, disk.stashes, Capture(n.active.state))
      requires disk.manifest.Some? && !Held(env, disk.manifest, ManifestText(n, 0))
      requires j.manifestStage in disk.controlStages
      requires ManifestOn(At(disk.controlStages, j.manifestStage)) == Some(n)
      modifies this
      ensures Ran(r.Interrupted?) && !r.Refused?
      ensures disk == old(disk) || disk == ManifestSwapped(old(disk), j.manifestStage)
      ensures r.Done? ==> disk == ManifestSwapped(old(disk), j.manifestStage)
    {
      hide Valid, Inv, ReadsJournal, Held, NewFits;
      var _ :- Boundary();
      JournalOwnsStages(env, disk.journal, j);
      if sound {
        SoundNow();
        NotYetCommitted(env, disk, j, n);
        ManifestExchanged(env, disk, j, ManifestOn(disk.manifest).value, disk.controlStages[j.manifestStage]);
        SuccessorExtends(j, ManifestOn(disk.manifest).value, n);
      }
      Commit(ManifestSwapped(disk, j.manifestStage));
      r := Boundary();
    }

    /** Remove the exchanged old manifest from the stage name. */
    method DropBackup(j: Journal, n: StashManifest) returns (r: Outcome<()>)
      requires Valid()
      requires !j.BootstrapJournal? && ReadsJournal(env, disk.journal, j) && OldRecord(j).Some?
      requires sound ==> Committed(j, n)
      requires ManifestOn(disk.manifest) == Some(n)
      modifies this
      ensures Ran(r.Interrupted?)
      ensures r.Refused? ==> !old(IsObject(At(disk.controlStages, j.manifestStage), OldRecord(j).value))
      ensures disk == old(disk) || disk == Unlink(old(disk), ControlStageSlot(j.manifestStage))
      ensures r.Done? ==> disk == Unlink(old(disk), ControlStageSlot(j.manifestStage))
    {
      hide Valid, Inv, KeepStep, OwnsStage, ReadsJournal, IsObject;
      JournalOwnsStages(env, disk.journal, j);
      if sound {
        SoundNow();
        BackupDropped(env, disk, j, n);
      }
      r := DropExact(ControlStageSlot(j.manifestStage), OldRecord(j).value);
    }

    /** Make sure the generation's stash holds the live bytes. */
    method EnsureStashFile(j: Journal, live: Node) returns (r: Outcome<()>)
      requires Valid()
      requires j.StashJournal? && ReadsJournal(env, disk.journal, j) && j.newManifest.active.state.PresentStashed?
      requires live.Regular? && Readable(live, MAX_CONFIG_BYTES)
      requires j.newManifest.active.state.stashSha256 == Sha256(live.content)
      requires j.newManifest.active.state.stashSize == live.metadata.byteLength
      modifies this
      ensures Ran(r.Interrupted?)
      ensures disk == old(disk).(stashes := disk.stashes)
      ensures disk == old(disk) || StashMatches(env, disk.stashes, j.newManifest.active.state)
      ensures r.Done? ==> StashMatches(env, disk.stashes, j.newManifest.active.state)
      ensures old(StashFree(env, disk.stashes, j.newManifest.active.state)) ==> !r.Refused?
    {
      hide Valid, Inv, KeepStep, ReadsJournal, Written, ValidRecord, Length;
      var path := j.newManifest.active.state.stashPath;
      var existing :- ReadRegular(At(disk.stashes, path), MAX_CONFIG_BYTES);
      if existing.Some? {
        if !existing.value.Regular? || !ControlRecord(env, RecordOf(existing.value))
           || existing.value.content != live.content
        {
          return Refused;
        }
        ReadLength(existing.value, live);
        return Done(());
      }
      var _ :- Boundary();
      var node :- WritePrivate(live.content, env.uid, env.gid, MODE_600, None);
      WrittenStash(env, node, disk.stashes, j.newManifest.active.state, live);
      if sound {
        SoundNow();
        JournalOwnsStages(env, disk.journal, j);
        StashPublished(env, disk, j, path, node);
      }
      var _ :- LinkNoReplace(StashSlot(path), node);
      r := Boundary();
    }

    /** Check that the configuration is still the captured one and stash its bytes. */
    method StashCapture(j: Journal) returns (r: Outcome<()>)
      requires Valid()
      requires j.StashJournal? && ReadsJournal(env, disk.journal, j)
      modifies this
      ensures Ran(r.Interrupted?)
      ensures disk == old(disk).(stashes := disk.stashes)
      ensures r.Done? ==> j.newManifest.active.stashTransactionId == j.transactionId
      ensures r.Done? ==> SourceUnchanged(j.source, disk.config, disk.etcHowy)
      ensures r.Done? && j.source.ConfigPresent? ==>
        j.newManifest.active.state.PresentStashed? && StashMatches(env, disk.stashes, j.newManifest.active.state)
      ensures old(StashPhase(env, j, disk)) ==> !r.Refused? && StashPhase(env, j, disk)
    {
      hide Valid, Inv, KeepStep, ReadsJournal, StashMatches, ReplacePhase, ValidRecord, MarkerOwned;
      if !SourceUnchanged(j.source, disk.config, disk.etcHowy) { return Refused; }
      if j.newManifest.active.stashTransactionId != j.transactionId { return Refused; }
      if j.source.ConfigPresent? {
        var state := j.newManifest.active.state;
        if !state.PresentStashed? || state.stashSha256 != j.source.file.sha256
           || state.stashSize != j.source.file.metadata.byteLength
        {
          return Refused;
        }
        r := EnsureStashFile(j, disk.config.value);
      } else {
        r := Done(());
      }
    }

    method RecoverStash(j: Journal) returns (r: Outcome<()>)
      requires Valid()
      requires j.StashJournal? && ReadsJournal(env, disk.journal, j)
      modifies this
      ensures Ran(r.Interrupted?)
      ensures disk == old(disk).(stashes := disk.stashes, manifest := disk.manifest,
                                 controlStages := disk.controlStages, marker := disk.marker)
      ensures disk.manifest == old(disk).manifest || ManifestOn(disk.manifest) == Some(j.newManifest)
      ensures r.Done? ==> ManifestOn(disk.manifest) == Some(j.newManifest) && disk.marker.None?
      ensures r.Done? && j.previousManifest.Some? ==> j.manifestStage !in disk.controlStages
      ensures r.Done? ==> SourceUnchanged(j.source, disk.config, disk.etcHowy)
      ensures r.Done? ==> old(MarkerOwned(env, disk.marker, j.marker))
      ensures r.Done? && j.source.ConfigPresent? ==>
        j.newManifest.active.state.PresentStashed? && StashMatches(env, disk.stashes, j.newManifest.active.state)
      ensures old(StashPhase(env, j, disk)) ==> !r.Refused? && StashPhase(env, j, disk)
    {
      hide Valid, Inv, KeepStep, ReadsJournal, StashPhase, SourceUnchanged, StashMatches, MarkerOwned;
      var _ :- StashCapture(j);
      r := CommitStash(j);
    }

    /** Commit the journaled manifest and drop the marker it supersedes. */
    method CommitStash(j: Journal) returns (r: Outcome<()>)
      requires Valid()
      requires j.StashJournal? && ReadsJournal(env, disk.journal, j)
      requires j.source.ConfigPresent? ==>
        j.newManifest.active.state.PresentStashed? && StashMatches(env, disk.stashes, j.newManifest.active.state)
      modifies this
      ensures Ran(r.Interrupted?)
      ensures disk == old(disk).(manifest := disk.manifest, controlStages := disk.controlStages, marker := disk.marker)
      ensures disk.manifest == old(disk).manifest || ManifestOn(disk.manifest) == Some(j.newManifest)
      ensures r.Done? ==> ManifestOn(disk.manifest) == Some(j.newManifest) && disk.marker.None?
      ensures r.Done? && j.previousManifest.Some? ==> j.manifestStage !in disk.controlStages
      ensures r.Done? ==> old(MarkerOwned(env, disk.marker, j.marker))
      ensures old(StashPhase(env, j, disk)) ==> !r.Refused? && StashPhase(env, j, disk)
    {
      hide Valid, Inv, KeepStep, ReadsJournal, StashMatches, StashPhase, MarkerOwned, ReplacePhase;
      var _ :- CommitCapture(j);
      var _ :- Boundary();
      ghost var committed := disk;
      if StashPhase(env, j, disk) { StashPhaseParts(env, j, disk); }
      r := DropStashMarker(j);
      if StashPhase(env, j, committed) { StashPhaseMoves(env, j, committed, disk); }
    }

    method CommitCapture(j: Journal) returns (r: Outcome<()>)
      requires Valid()
      requires j.StashJournal? && ReadsJournal(env, disk.journal, j)
      requires j.source.ConfigPresent? ==>
        j.newManifest.active.state.PresentStashed? && StashMatches(env, disk.stashes, j.newManifest.active.state)
      modifies this
      ensures Ran(r.Interrupted?)
      ensures disk == old(disk).(manifest := disk.manifest, controlStages := disk.controlStages)
      ensures disk.manifest == old(disk).manifest || ManifestOn(disk.manifest) == Some(j.newManifest)
      ensures r.Done? ==> ManifestOn(disk.manifest) == Some(j.newManifest)
      ensures r.Done? && j.previousManifest.Some? ==> j.manifestStage !in disk.controlStages
      ensures old(StashPhase(env, j, disk)) ==> !r.Refused? && StashPhase(env, j, disk)
    {
      hide Valid, Inv, KeepStep, ReadsJournal, StashMatches, StashPhase, MarkerOwned, ReplacePhase, Held, NewFits,
           ManifestLength, StashKept;
      ghost var before := disk;
      if StashPhase(env, j, disk) { StashPhaseParts(env, j, disk); }
      if ManifestLength(j.newManifest) > MAX_CONTROL_BYTES { return Refused; }
      if sound {
        SoundNow();
        JournalOwnsStages(env, disk.journal, j);
        StashNewFits(env, disk, j);
      }
      r := ReplaceManifest(j, j.newManifest);
      if StashPhase(env, j, before) { StashPhaseMoves(env, j, before, disk); }
    }

    /** A committed stash removes exactly the marker it found. */
    method DropStashMarker(j: Journal) returns (r: Outcome<()>)
      requires Valid()
      requires j.StashJournal?
      modifies this
      ensures Ran(r.Interrupted?)
      ensures disk == old(disk) || disk == old(disk).(marker := None)
      ensures r.Done? ==> disk.marker.None? && old(MarkerOwned(env, disk.marker, j.marker))
      ensures old(MarkerOwned(env, disk.marker, j.marker)) ==> !r.Refused? && MarkerOwned(env, disk.marker, j.marker)
    {
      hide Valid, Inv, KeepStep, Readable, SameObject;
      var current :- ReadControl(env, disk.marker);
      if current.None? { return Done(()); }
      if j.marker.None? || !IsObject(current, j.marker.value) { return Refused; }
      if sound {
        SoundNow();
        MarkerDropped(env, disk);
      }
      r := DropExact(MarkerSlot, j.marker.value);
    }

    /** Atomic no-replace rename of the live configuration to its backup name, between its boundaries. */
    method BackupConfig(name: StageName) returns (r: Outcome<()>)
      requires Valid() && OwnsStage(env, disk.journal, name)
      requires LegacyAt(env, disk.config) && name !in disk.configStages
      requires sound ==> StagesAllowed(disk.journal, disk.manifest, disk.configStages.Keys + {name})
      modifies this
      ensures Ran(r.Interrupted?) && !r.Refused?
      ensures disk == old(disk) || disk == BackedUp(old(disk), name)
      ensures r.Done? ==> disk == BackedUp(old(disk), name)
    {
      hide Valid, Inv, KeepStep, OwnsStage, LegacyAt, StagesAllowed;
      DisplacementKeeps(env, disk, name);
      var _ :- Boundary();
      var next := BackedUp(disk, name);
      assert next.configStages.Keys == disk.configStages.Keys + {name};
      if sound {
        SoundNow();
        ConfigIsFree(env, disk, next.config, next.configStages, disk.etcHowy);
      }
      Commit(next);
      r := Boundary();
    }

    /** Remove a journal-owned config stage that holds the exact legacy payload. */
    method DropLegacyStage(name: StageName) returns (r: Outcome<()>)
      requires Valid() && OwnsStage(env, disk.journal, name)
      modifies this
      ensures Ran(r.Interrupted?)
      ensures disk == old(disk) || disk == Unlink(old(disk), ConfigStageSlot(name))
      ensures r.Done? ==> disk == Unlink(old(disk), ConfigStageSlot(name))
      ensures old(LegacyAt(env, At(disk.configStages, name))) ==> !r.Refused?
    {
      hide Valid, Inv, KeepStep, OwnsStage;
      var stage := At(disk.configStages, name);
      if !LegacyAt(env, stage) { return Refused; }
      if sound {
        SoundNow();
        ConfigStageDropped(env, disk, name);
      }
      r := DropExact(ConfigStageSlot(name), RecordOf(stage.value));
    }

    method RestoreAbsent(j: Journal, captured: GenerationState) returns (r: Outcome<ConfigState>)
      requires Valid()
      requires j.RestoreJournal? && ReadsJournal(env, disk.journal, j) && captured.Absent?
      requires sound ==> StagesAllowed(disk.journal, disk.manifest, disk.configStages.Keys + {j.configBackup})
      modifies this
      ensures Ran(r.Interrupted?)
      ensures disk == old(disk).(config := disk.config, configStages := disk.configStages)
      ensures r.Done? ==> ConfigRestored(env, captured, j, disk) && r.value == ConfigAbsent(captured.absence)
      ensures old(ConfigRestored(env, captured, j, disk)) ==> disk == old(disk) && r.Done?
      ensures old(LiveAs(captured, disk.config)) ==> disk.config == old(disk).config
      ensures old(RestoreConfigPhase(env, captured, j, disk)) ==>
        !r.Refused? && RestoreConfigPhase(env, captured, j, disk)
    {
      hide Valid, Inv, KeepStep, OwnsStage, ReadsJournal, StagesAllowed, ExactLegacy, Readable;
      if disk.etcHowy != captured.absence { return Refused; }
      JournalOwnsStages(env, disk.journal, j);
      var target :- ReadRegular(disk.config, MAX_CONFIG_BYTES);
      var backup :- ReadRegular(At(disk.configStages, j.configBackup), MAX_CONFIG_BYTES);
      if target.Some? {
        if backup.Some? || !LegacyAt(env, target) { return Refused; }
        var _ :- BackupConfig(j.configBackup);
      }
      if j.configBackup in disk.configStages {
        var _ :- DropLegacyStage(j.configBackup);
      }
      return Done(ConfigAbsent(captured.absence));
    }

    /** Put the stashed bytes in place of an exact legacy payload, leaving the payload at the stage. */
    method ReplaceLegacy(j: Journal, source: FileRecord, stash: Node) returns (r: Outcome<()>)
      requires Valid()
      requires j.RestoreJournal? && ReadsJournal(env, disk.journal, j)
      requires stash.Regular? && ValidRecord(source) && source.sha256 == Sha256(stash.content)
      requires Readable(stash, MAX_CONFIG_BYTES) && stash.metadata.byteLength == source.metadata.byteLength
      requires LegacyAt(env, disk.config) && !Matches(disk.config, source)
      requires sound ==> StagesAllowed(disk.journal, disk.manifest, disk.configStages.Keys + {j.configStage})
      modifies this
      ensures Ran(r.Interrupted?)
      ensures disk == old(disk).(config := disk.config, configStages := disk.configStages)
      ensures r.Done? ==> Matches(disk.config, source) && At(disk.configStages, j.configStage) == old(disk).config
      ensures var stage := At(disk.configStages, j.configStage);
        || disk == old(disk)
        || (disk.config == old(disk).config && Matches(stage, source))
        || (Matches(disk.config, source) && stage == old(disk).config)
      ensures old(At(disk.configStages, j.configStage)).None?
              || old(Matches(At(disk.configStages, j.configStage), source))
              ==> !r.Refused?
    {
      hide Valid, Inv, KeepStep, OwnsStage, ReadsJournal, StagesAllowed, ExactLegacy, Readable, ValidRecord, Written,
           LogicallyMatches;
      JournalOwnsStages(env, disk.journal, j);
      ValidTimes(source);
      if j.configStage !in disk.configStages {
        r := CreateStage(j.configStage, stash.content, source.metadata.uid, source.metadata.gid,
                         source.metadata.permissions, Some(source.metadata));
        if j.configStage in disk.configStages {
          WrittenMatches(disk.configStages[j.configStage], stash, source);
        }
        if r.IsFailure() { return; }
      }
      if !Matches(At(disk.configStages, j.configStage), source) { return Refused; }
      assert disk.configStages.Keys == old(disk).configStages.Keys + {j.configStage};
      r := ExchangeConfig(j.configStage);
    }

    /** Publish the stashed bytes at the free configuration path. */
    method PublishConfig(source: FileRecord, stash: Node) returns (r: Outcome<()>)
      requires Valid()
      requires stash.Regular? && ValidRecord(source) && source.sha256 == Sha256(stash.content)
      requires Readable(stash, MAX_CONFIG_BYTES) && stash.metadata.byteLength == source.metadata.byteLength
      requires disk.config.None?
      modifies this
      ensures Ran(r.Interrupted?) && !r.Refused?
      ensures disk == old(disk).(config := disk.config)
      ensures disk == old(disk) || Matches(disk.config, source)
      ensures r.Done? ==> Matches(disk.config, source)
    {
      hide Valid, Inv, KeepStep, ValidRecord, Written, LogicallyMatches, Readable;
      ValidTimes(source);
      var _ :- Boundary();
      var n :- WritePrivate(stash.content, source.metadata.uid, source.metadata.gid,
                            source.metadata.permissions, Some(source.metadata));
      WrittenMatches(n, stash, source);
      if sound {
        SoundNow();
        ConfigIsFree(env, disk, Some(n), disk.configStages, disk.etcHowy);
      }
      var _ :- LinkNoReplace(ConfigSlot, n);
      r := Boundary();
    }

    method RestorePresent(j: Journal, captured: GenerationState) returns (r: Outcome<ConfigState>)
      requires Valid()
      requires j.RestoreJournal? && ReadsJournal(env, disk.journal, j)
      requires captured.PresentStashed? && ValidCaptured(captured)
      requires sound ==> StagesAllowed(disk.journal, disk.manifest, disk.configStages.Keys + {j.configStage})
      modifies this
      ensures Ran(r.Interrupted?)
      ensures disk == old(disk).(config := disk.config, configStages := disk.configStages)
      ensures r.Done? ==>
        ConfigRestored(env, captured, j, disk) && r.value == ConfigPresent(RecordOf(disk.config.value))
      ensures r.Done? && old(ConfigRestored(env, captured, j, disk)) ==> disk == old(disk)
      ensures r.Interrupted? ==> !old(ConfigRestored(env, captured, j, disk))
      ensures old(LiveAs(captured, disk.config)) ==> disk.config == old(disk).config
      ensures old(RestoreConfigPhase(env, captured, j, disk)) ==>
        !r.Refused? && RestoreConfigPhase(env, captured, j, disk)
    {
      hide Valid, Inv, KeepStep, OwnsStage, ReadsJournal, StagesAllowed, ExactLegacy, Readable, ValidRecord,
           LogicallyMatches, StashMatches, ControlRecord;
      var source := captured.source;
      CapturedStashUsable(env, disk.stashes, captured);
      var stash :- ReadRegular(At(disk.stashes, captured.stashPath), MAX_CONFIG_BYTES);
      if !StashUsable(env, stash, source) { return Refused; }
      JournalOwnsStages(env, disk.journal, j);
      var target :- ReadRegular(disk.config, MAX_CONFIG_BYTES);
      var stage :- ReadRegular(At(disk.configStages, j.configStage), MAX_CONFIG_BYTES);
      if target.Some? {
        if !Matches(target, source) {
          if !LegacyAt(env, target) { return Refused; }
          var _ :- ReplaceLegacy(j, source, stash.value);
        }
      } else if stage.None? {
        var _ :- PublishConfig(source, stash.value);
      }
      if j.configStage in disk.configStages {
        var _ :- DropLegacyStage(j.configStage);
      }
      if !Matches(disk.config, source) { return Refused; }
      return Done(ConfigPresent(RecordOf(disk.config.value)));
    }

    method RestoreConfigState(j: Journal, captured: GenerationState) returns (r: Outcome<ConfigState>)
      requires Valid()
      requires j.RestoreJournal? && ReadsJournal(env, disk.journal, j)
      requires Unrestored(captured) ==> ValidCaptured(captured)
      requires sound && Unrestored(captured) ==>
        StagesAllowed(disk.journal, disk.manifest, disk.configStages.Keys + {RestoreStage(j, captured)})
      modifies this
      ensures Ran(r.Interrupted?)
      ensures disk == old(disk).(config := disk.config, configStages := disk.configStages)
      ensures r.Done? ==> Unrestored(captured) && ConfigRestored(env, captured, j, disk)
      ensures r.Done? ==> SnapshotConfig(disk.config, disk.etcHowy) == r && ValidConfigState(r.value)
      ensures old(ConfigRestored(env, captured, j, disk)) && !r.Refused? ==> disk == old(disk) && r.Done?
      ensures !Unrestored(captured) ==> r.Refused? && disk == old(disk)
      ensures old(LiveAs(captured, disk.config)) ==> disk.config == old(disk).config
      ensures old(RestoreConfigPhase(env, captured, j, disk)) ==>
        !r.Refused? && RestoreConfigPhase(env, captured, j, disk)
    {
      hide Valid, Inv, KeepStep, ReadsJournal, StagesAllowed, StashMatches, ValidStashPath;
      match captured {
        case Absent(_) => r := RestoreAbsent(j, captured);
        case PresentStashed(_, _, _, _) => r := RestorePresent(j, captured);
        case _ => r := Refused;
      }
    }

    /** Commit the restored manifest, or finish the cleanup of one committed earlier. */
    method CommitRestore(j: Journal, m: StashManifest, state: ConfigState) returns (r: Outcome<()>)
      requires Valid()
      requires j.RestoreJournal? && ReadsJournal(env, disk.journal, j)
      requires ManifestOn(disk.manifest) == Some(m) && ValidManifest(m)
      requires Committed(j, m) || Unrestored(m.active.state)
      requires ConfigRestored(env, Capture(m.active.state), j, disk)
      requires SnapshotConfig(disk.config, disk.etcHowy) == Done(state) && ValidConfigState(state)
      modifies this
      ensures Ran(r.Interrupted?)
      ensures disk == old(disk).(manifest := disk.manifest, controlStages := disk.controlStages)
      ensures SameAim(old(disk).manifest, disk.manifest)
      ensures r.Done? ==>
        ManifestOn(disk.manifest) == Some(RestoreGoal(m, j, state)) && j.manifestStage !in disk.controlStages
      ensures disk.manifest == old(disk).manifest || ManifestOn(disk.manifest) == Some(RestoreGoal(m, j, state))
      ensures old(RestorePhase(env, j, disk)) ==> !r.Refused? && RestorePhase(env, j, disk)
    {
      hide Valid, Inv, KeepStep, ReadsJournal, StashMatches, RestoreConfigPhase, ValidManifest, VerifyRestored,
           ValidConfigState, SnapshotConfig, ReadManifest, Held, IsObject, ReplacePhase, RestorePhase, NewFits,
           StashKept;
      var n := RestoreGoal(m, j, state);
      ghost var before := disk;
      if RestorePhase(env, j, disk) { RestorePhaseEntersReplace(env, j, disk, m, state); }
      if ManifestLength(n) > MAX_CONTROL_BYTES { return Refused; }
      JournalOwnsStages(env, disk.journal, j);
      if sound {
        SoundNow();
        RestoreNewFits(env, disk, j, m, state);
      }
      r := ReplaceManifest(j, n);
      if RestorePhase(env, j, before) { RestorePhaseSurvivesReplace(env, j, before, disk, m, state); }
    }

    /** Read back and verify the committed manifest. */
    method FinishRestore(j: Journal, m: StashManifest, state: ConfigState) returns (r: Outcome<ConfigState>)
      requires Valid()
      requires j.RestoreJournal? && ReadsJournal(env, disk.journal, j)
      requires ManifestOn(disk.manifest) == Some(m) && ValidManifest(m) && m.active.generation == j.generation
      requires Committed(j, m) || Unrestored(m.active.state)
      requires ConfigRestored(env, Capture(m.active.state), j, disk)
      requires SnapshotConfig(disk.config, disk.etcHowy) == Done(state) && ValidConfigState(state)
      modifies this
      ensures Ran(r.Interrupted?)
      ensures disk == old(disk).(manifest := disk.manifest, controlStages := disk.controlStages)
      ensures SameAim(old(disk).manifest, disk.manifest)
      ensures r.Done? ==> RestoreComplete(env, j, disk, r.value)
      ensures disk.manifest == old(disk).manifest || ManifestOn(disk.manifest) == Some(RestoreGoal(m, j, state))
      ensures r.Done? ==> ManifestOn(disk.manifest) == Some(RestoreGoal(m, j, state))
      ensures old(RestorePhase(env, j, disk)) ==> !r.Refused? && RestorePhase(env, j, disk)
    {
      hide Valid, Inv, KeepStep, ReadsJournal, ValidManifest, VerifyRestored, ReadManifest, RestorePhase,
           ValidConfigState, SnapshotConfig, Matches;
      var _ :- CommitRestore(j, m, state);
      if RestorePhase(env, j, disk) { RestorePhaseVerifies(env, j, disk, RestoreGoal(m, j, state)); }
      var final :- ReadManifest(env, disk.manifest, disk.stashes);
      ManifestReadIs(env, disk.manifest, disk.stashes);
      r := VerifyRestored(final.value.manifest, disk.config, disk.etcHowy);
    }

    /** Bring the captured configuration back, then commit. */
    method ApplyRestore(j: Journal, m: StashManifest, captured: GenerationState) returns (r: Outcome<ConfigState>)
      requires Valid()
      requires j.RestoreJournal? && ReadsJournal(env, disk.journal, j)
      requires ManifestOn(disk.manifest) == Some(m) && ValidManifest(m) && m.active.generation == j.generation
      requires captured == if Committed(j, m) then m.active.state.captured else m.active.state
      modifies this
      ensures Ran(r.Interrupted?)
      ensures disk == old(disk).(config := disk.config, configStages := disk.configStages,
                                 manifest := disk.manifest, controlStages := disk.controlStages)
      ensures SameAim(old(disk).manifest, disk.manifest)
      ensures r.Done? ==> RestoreComplete(env, j, disk, r.value)
      ensures Untampered(old(disk)) ==> Untampered(disk)
      ensures r.Done? ==> SameVerdict(env, old(disk), disk)
      ensures old(RestorePhase(env, j, disk)) ==> !r.Refused? && RestorePhase(env, j, disk)
    {
      hide Valid, Inv, KeepStep, ReadsJournal, StagesAllowed, StashMatches, RestoreConfigPhase, Matches, ValidManifest,
           ReadManifest, SameObject, Untampered, Acceptable, TargetLive, VerifyRestored, LiveAs, ValidJournal, Readable;
      CapturedValid(m);
      JournalOwnsStages(env, disk.journal, j);
      if sound && Unrestored(captured) {
        SoundNow();
        RestoreStageAllowed(env, disk, j, captured);
      }
      ghost var before := disk;
      var restored := RestoreConfigState(j, captured);
      if Unrestored(captured) {
        ConfigStepUntampered(before, disk, captured);
        ConfigStepVerdict(env, before, disk, captured);
      }
      if restored.IsFailure() { return restored; }
      ghost var ready := disk;
      r := FinishRestore(j, m, restored.value);
      CommitStep(env, j, ready, disk, m, restored.value);
      if r.Done? { VerdictJoins(env, before, ready, disk); }
    }

    method RecoverRestore(j: Journal) returns (r: Outcome<ConfigState>)
      requires Valid()
      requires j.RestoreJournal? && ReadsJournal(env, disk.journal, j)
      modifies this
      ensures Ran(r.Interrupted?)
      ensures disk == old(disk).(config := disk.config, configStages := disk.configStages,
                                 manifest := disk.manifest, controlStages := disk.controlStages)
      ensures SameAim(old(disk).manifest, disk.manifest)
      ensures r.Done? ==> RestoreComplete(env, j, disk, r.value)
      ensures r.Done? ==>
        && ManifestOn(old(disk).manifest).Some?
        && (Committed(j, ManifestOn(old(disk).manifest).value) || IsObject(old(disk).manifest, j.manifest))
      ensures Untampered(old(disk)) ==> Untampered(disk)
      ensures r.Done? ==> SameVerdict(env, old(disk), disk)
      ensures old(RestorePhase(env, j, disk)) ==> !r.Refused? && RestorePhase(env, j, disk)
    {
      hide Valid, Inv, KeepStep, ReadsJournal, StashMatches, RestoreConfigPhase, Matches, ValidManifest, ReadManifest,
           SameObject, Untampered, SameVerdict, RestoreComplete;
      var read :- ReadManifest(env, disk.manifest, disk.stashes);
      if read.None? { return Refused; }
      ManifestReadIs(env, disk.manifest, disk.stashes);
      var m := read.value.manifest;
      if m.active.generation != j.generation { return Refused; }
      if !Committed(j, m) && !IsObject(disk.manifest, j.manifest) { return Refused; }
      r := ApplyRestore(j, m, if Committed(j, m) then m.active.state.captured else m.active.state);
    }

    method RecoverJournal(j: Journal) returns (r: Outcome<()>)
      requires Valid()
      requires ReadsJournal(env, disk.journal, j)
      modifies this
      ensures Ran(r.Interrupted?)
      ensures JournalFrame(j, old(disk), disk) && disk.journal == old(disk).journal
      ensures r.Done? ==> Served(env, j, disk)
      ensures sound && Untampered(old(disk)) ==> Untampered(disk)
      ensures sound && r.Done? ==> SameVerdict(env, old(disk), disk)
      ensures old(Recoverable(env, j, disk)) ==> !r.Refused? && Recoverable(env, j, disk)
    {
      hide Valid, Inv, KeepStep, ReadsJournal, BootPhase, StashPhase, RestorePhase, RestoreConfigPhase,
           PinnedLegacyRecord, SourceIntact, ReadManifest, Matches, Readable, Untampered, SameVerdict;
      ghost var before := disk;
      if sound { SoundNow(); }
      match j {
        case BootstrapJournal(_, _, _, _) =>
          r := RecoverBootstrap(j);
          if sound {
            SoundNow();
            InstallKeeps(env, j, before, disk);
          }
        case StashJournal(_, _, _, _, _, _, _) =>
          r := RecoverStash(j);
          if sound {
            SoundNow();
            StashKeeps(env, j, before, disk);
          }
        case RestoreJournal(_, _, _, _, _, _, _) =>
          var restored := RecoverRestore(j);
          r := if restored.Done? then Done(()) else restored.PropagateFailure();
      }
    }

    /** The marker-only tail of a completed journal. */
    method MarkCompleted(j: Journal) returns (r: Outcome<()>)
      requires Valid()
      requires disk.journal.None? && Served(env, j, disk)
      requires ValidTransactionId(j.transactionId) && MarkerGeneration(j) != Some(0)
      requires sound ==> disk.marker.None? && NoForeignStages(disk, None)
      requires sound && !j.StashJournal? ==> MarkerFits(disk.manifest, j.transactionId, MarkerGeneration(j))
      modifies this
      ensures Ran(r.Interrupted?)
      ensures disk == old(disk).(marker := disk.marker)
      ensures r.Done? ==> Settled(env, j, disk)
      ensures sound ==> !r.Refused?
      ensures sound && TargetKept(j, disk) ==> Toward(env, j, disk)
    {
      hide Valid, Inv, KeepStep, ReadsJournal, Recoverable, Served, MarkerFits, SnapshotConfig, ValidConfigState,
           MarkerNames;
      if !j.StashJournal? {
        ghost var before := disk;
        ServedState(env, j, disk);
        var state := SnapshotConfig(disk.config, disk.etcHowy).value;
        r := EnsureMarker(j.transactionId, MarkerGeneration(j), state);
        ServedFrame(env, j, before, None, disk.marker);
        if r.IsFailure() { return; }
      } else {
        ServedStash(env, j, disk);
      }
      if !NoForeignStages(disk, None) { return Refused; }
      return Done(());
    }

    /** Remove the journal of a recovered operation, then publish the marker it calls for. */
    method CloseJournal(j: Journal) returns (r: Outcome<()>)
      requires Valid()
      requires ReadsJournal(env, disk.journal, j) && Served(env, j, disk)
      modifies this
      ensures Ran(r.Interrupted?)
      ensures disk == old(disk).(journal := disk.journal, marker := disk.marker)
      ensures disk.journal == old(disk).journal || disk.journal.None?
      ensures r.Done? ==> Settled(env, j, disk)
      ensures sound && old(Recoverable(env, j, disk)) ==> !r.Refused? && Toward(env, j, disk)
    {
      hide Valid, Inv, KeepStep, ReadsJournal, Recoverable, Served, MarkerFits, NoForeignStages, IsObject, ReadJournal,
           Settled, ValidJournal, Toward, TargetLive;
      JournalOwnsStages(env, disk.journal, j);
      JournalUnlinkable(env, disk.journal, j);
      if sound {
        SoundNow();
        ServedFinished(env, disk, j);
        JournalDropped(env, disk, j);
        JournalDroppedUnforeign(env, disk, j);
        if Recoverable(env, j, disk) { ClosesToward(env, j, disk); }
      }
      ServedFrame(env, j, disk, None, disk.marker);
      var _ :- DropExact(JournalSlot, RecordOf(disk.journal.value));
      var _ :- Boundary();
      r := MarkCompleted(j);
    }

    /** Recover the journaled operation, remove the journal, then publish the marker it calls for. */
    method CompleteJournal(j: Journal) returns (r: Outcome<()>)
      requires Valid()
      requires ReadsJournal(env, disk.journal, j)
      modifies this
      ensures Ran(r.Interrupted?)
      ensures JournalFrame(j, old(disk), disk)
      ensures r.Done? ==> Settled(env, j, disk)
      ensures !NoForeignStages(old(disk), Some(j.transactionId)) ==> r.Refused? && disk == old(disk)
      ensures sound && Untampered(old(disk)) ==> Untampered(disk)
      ensures sound && r.Done? ==> SameVerdict(env, old(disk), disk)
      ensures sound && old(Recoverable(env, j, disk)) ==> !r.Refused? && Toward(env, j, disk)
    {
      hide Valid, Inv, KeepStep, ReadsJournal, Recoverable, Served, JournalFrame, NoForeignStages, Untampered,
           SameVerdict;
      JournalOwnsStages(env, disk.journal, j);
      if sound {
        SoundNow();
        StagesOwned(env, disk, j);
      }
      if !NoForeignStages(disk, Some(j.transactionId)) {
        FrameSelf(j, disk);
        return Refused;
      }
      ghost var before := disk;
      var _ :- RecoverJournal(j);
      ghost var served := disk;
      if sound { SoundNow(); }
      r := CloseJournal(j);
      FrameMarkers(j, before, served, disk.journal, disk.marker);
      ServedUntampered(served, disk);
      if sound && r.Done? { ServedVerdict(env, j, before, served, disk); }
    }

    method WriteJournal(j: Journal) returns (r: Outcome<()>)
      requires Valid()
      requires sound && disk.journal.None? ==> JournalReady(disk, j)
      modifies this
      ensures Ran(r.Interrupted?)
      ensures disk == old(disk) ||
        (disk == old(disk).(journal := disk.journal) && ReadsJournal(env, disk.journal, j) && ValidJournal(j))
      ensures r.Refused? ==> disk == old(disk)
      ensures r.Done? ==> disk != old(disk) && old(disk).journal.None?
      ensures ValidJournal(j) && JournalLength(j) <= MAX_CONTROL_BYTES && old(disk).journal.None? ==> !r.Refused?
    {
      hide Valid, Inv, KeepStep, JournalReady, Written, Held, ReadsJournal;
      if !ValidJournal(j) || disk.journal.Some? || JournalLength(j) > MAX_CONTROL_BYTES { return Refused; }
      var _ :- Boundary();
      var n :- WritePrivate(JournalText(j, 0), env.uid, env.gid, MODE_600, None);
      WrittenControl(env, n, JournalText(j, 0));
      HeldJournalReads(env, Some(n), j);
      if sound {
        SoundNow();
        Journaled(env, disk, j, n);
      }
      var _ :- LinkNoReplace(JournalSlot, n);
      r := Boundary();
    }

    /** Recovery without a journal: revalidate a restored generation and its marker. */
    method RecoverIdle(revalidate: bool) returns (r: Outcome<()>)
      requires Valid()
      requires disk.journal.None?
      modifies this
      ensures Ran(r.Interrupted?)
      ensures disk == old(disk).(marker := disk.marker)
      ensures r.Done? ==> NoForeignStages(disk, None)
      ensures !NoForeignStages(old(disk), None) ==> r.Refused? && disk == old(disk)
      ensures !revalidate || !ManifestRestored(disk.manifest) ==> disk == old(disk) && !r.Interrupted?
      ensures r.Done? && revalidate && ManifestRestored(disk.manifest) ==> RestoredMarked(env, disk)
      ensures r.Interrupted? ==> disk == old(disk) || disk.marker.None? || MarkerReadable(env, disk.marker)
      ensures sound && (revalidate && ManifestRestored(disk.manifest) ==> RestoredLive(env, disk)) ==> !r.Refused?
    {
      hide Valid, Inv, KeepStep, ReadManifest, VerifyRestored, ValidManifest, ValidConfigState, ReadControl,
           StatesExactlyMatch, NoForeignStages, MarkerReadable, Chronicle;
      if sound {
        SoundNow();
        SoundReads(env, disk);
      }
      if !NoForeignStages(disk, None) { return Refused; }
      if !revalidate { return Done(()); }
      var read :- ReadManifest(env, disk.manifest, disk.stashes);
      if read.None? { return Done(()); }
      ManifestReadIs(env, disk.manifest, disk.stashes);
      var m := read.value.manifest;
      if !m.active.state.Restored? { return Done(()); }
      r := RemarkRestored(m);
    }

    /** Verify a restored generation against the live configuration and ensure its marker. */
    method RemarkRestored(m: StashManifest) returns (r: Outcome<()>)
      requires Valid()
      requires disk.journal.None? && NoForeignStages(disk, None)
      requires ManifestOn(disk.manifest) == Some(m) && ValidManifest(m) && m.active.state.Restored?
      requires ReadManifest(env, disk.manifest, disk.stashes).Done?
      modifies this
      ensures Ran(r.Interrupted?)
      ensures disk == old(disk).(marker := disk.marker)
      ensures r.Done? ==> RestoredMarked(env, disk) && NoForeignStages(disk, None)
      ensures r.Interrupted? ==> disk == old(disk) || disk.marker.None? || MarkerReadable(env, disk.marker)
      ensures sound && RestoredLive(env, disk) ==> !r.Refused?
    {
      hide Valid, Inv, KeepStep, ReadManifest, VerifyRestored, ValidManifest, ValidConfigState, StatesExactlyMatch,
           MarkerReadable, NoForeignStages, Chronicle;
      var state :- VerifyRestored(m, disk.config, disk.etcHowy);
      VerifiedLive(m, disk.config, disk.etcHowy);
      if sound {
        SoundNow();
        SoundReads(env, disk);
      }
      ghost var before := disk;
      r := EnsureMarker(m.active.state.restoreTransactionId, Some(m.active.generation), state);
      UnforeignFrame(before, disk);
    }

    method RecoverLocked(revalidate: bool) returns (r: Outcome<()>)
      requires Valid()
      modifies this
      ensures Ran(r.Interrupted?)
      ensures sound && Untampered(old(disk)) ==> Untampered(disk)
      ensures sound && r.Done? ==> SameVerdict(env, old(disk), disk)
      ensures r.Done? ==> disk.journal.None? && NoForeignStages(disk, None)
      ensures old(disk).journal.None? ==> IdleResult(env, old(disk), disk, revalidate, r)
      ensures (&& old(disk).journal.None?
               && sound
               && (revalidate && ManifestRestored(disk.manifest) ==> RestoredLive(env, old(disk)))) ==> !r.Refused?
      ensures old(disk).journal.Some? ==> JournalResult(env, old(disk), disk, r)
      ensures old(disk).journal.Some? && sound && old(Recoverable(env, JournalOn(disk.journal).value, disk)) ==>
        !r.Refused? && Toward(env, JournalOn(old(disk).journal).value, disk)
    {
      hide Valid, Inv, KeepStep, Recoverable, Toward, NoForeignStages, RestoredLive, RestoredMarked, MarkerReadable,
           JournalFrame, ManifestRestored, Served, MarkerDone, Chronicle, Untampered, SameVerdict;
      if disk.journal.None? {
        ghost var before := disk;
        r := RecoverIdle(revalidate);
        RestoredLiveFrame(env, before, disk);
        MarkerStepKeeps(env, before, disk);
        return;
      }
      if sound {
        SoundNow();
        SoundReads(env, disk);
      }
      var read :- ReadJournal(env, disk.journal);
      r := CompleteJournal(read.value.journal);
    }

    // ----- commands -----

    /** Recovery as the completing commands use it. */
    method RecoverFirst() returns (r: Outcome<()>)
      requires Valid()
      modifies this
      ensures Ran(r.Interrupted?)
      ensures sound && Untampered(old(disk)) ==> Untampered(disk)
      ensures sound && r.Done? ==> SameVerdict(env, old(disk), disk)
      ensures (&& sound && old(disk).journal.None?
               && (ManifestRestored(old(disk).manifest) ==> RestoredLive(env, old(disk)))) ==> !r.Refused?
      ensures r.Done? && old(disk).journal.None? && ManifestRestored(old(disk).manifest) ==>
        RestoredLive(env, old(disk))
      ensures r.Done? ==> disk.journal.None? && NoForeignStages(disk, None)
      ensures r.Done? && RestoreJournaledOn(old(disk)) ==> SameAim(old(disk).manifest, disk.manifest)
      ensures old(disk).journal.None? ==> disk == old(disk).(marker := disk.marker)
      ensures old(disk).journal.None? && !ManifestRestored(disk.manifest) ==> disk == old(disk)
      ensures old(disk).journal.Some? && sound && old(Recoverable(env, JournalOn(disk.journal).value, disk)) ==>
        && Toward(env, JournalOn(old(disk).journal).value, disk)
        && JournalFrame(JournalOn(old(disk).journal).value, old(disk), disk)
      ensures sound && old(InstallUnderway(env, disk)) ==> !r.Refused? && InstallUnderway(env, disk)
      ensures sound && old(RestoreUnderway(env, disk)) ==>
        !r.Refused? && RestoreUnderway(env, disk) && SameAim(old(disk).manifest, disk.manifest)
    {
      hide Valid, Inv, KeepStep, Recoverable, RestoredLive, TargetLive, RestoreStart, MarkerReadable, NoForeignStages,
           Toward, JournalFrame, ReadsJournal, BootstrapAt, LegacyAt, SourceIntact, ReadManifest, Settled,
           RestoredMarked, MarkerNames, Untampered, SameVerdict;
      ghost var before := disk;
      r := RecoverLocked(true);
      if r.Done? && RestoreJournaledOn(before) { RestoreFrame(JournalOn(before.journal).value, before, disk); }
      if r.Done? && before.journal.None? && ManifestRestored(before.manifest) {
        RestoredMarkedReadable(env, disk);
        RestoredLiveFrame(env, before, disk);
      }
      if sound && InstallUnderway(env, before) && before.journal.Some? {
        InstallToward(env, JournalOn(before.journal).value, before, disk);
      }
      if sound && RestoreUnderway(env, before) {
        if before.journal.Some? {
          RestoreToward(env, JournalOn(before.journal).value, disk);
          RestoreFrame(JournalOn(before.journal).value, before, disk);
        } else {
          RestoredLiveFrame(env, before, disk);
          if ManifestRestored(before.manifest) && r.Done? { RestoredMarkedReadable(env, disk); }
        }
      }
    }

    method BootstrapReleaseN(t: TransactionId) returns (r: Outcome<BootstrapOutcome>)
      requires Valid()
      requires ValidTransactionId(t)
      modifies this
      ensures Ran(r.Interrupted?)
      ensures sound && Untampered(old(disk)) ==> Untampered(disk)
      ensures sound && r.Done? ==> (ValidateCurrentMarker(env, disk) <==> Verdict(env, old(disk), disk))
      ensures old(disk).journal.None? && ManifestRestored(old(disk).manifest) ==>
        disk == old(disk).(marker := disk.marker)
      ensures (&& sound && old(disk).journal.None?
               && ManifestRestored(old(disk).manifest) && RestoredLive(env, old(disk))) ==> !r.Refused?
      ensures r.Done? ==> Marked(env, disk)
      ensures r.Done? && old(disk).journal.None? ==> BootstrapBegan(env, old(disk), disk)
      ensures r.Done? && old(disk).journal.None? ==>
        r.value == if old(disk).manifest.None? then Installed else RestoredStash
      ensures sound && old(InstallUnderway(env, disk)) ==> !r.Refused? && InstallUnderway(env, disk)
      ensures r.Done? && sound && old(InstallUnderway(env, disk)) ==>
        r.value == Installed && BootstrapAt(env, disk.config)
      ensures sound && old(RestoreUnderway(env, disk)) ==>
        !r.Refused? && RestoreUnderway(env, disk) && SameAim(old(disk).manifest, disk.manifest)
      ensures r.Done? && sound && old(RestoreUnderway(env, disk)) ==>
        r.value == RestoredStash && ManifestRestored(disk.manifest)
    {
      hide Valid, Inv, KeepStep, InstallUnderway, RestoreUnderway, NoForeignStages, Marked, BootstrapAt, ReadManifest,
           ValidManifest, ValidateCurrentMarker, Untampered, Acceptable, RestoredLive, Republishes, RestoreBegan,
           Installable, SameVerdict, Verdict, Toward, Recoverable, JournalFrame, RestoreJournaledOn;
      ghost var before := disk;
      var _ :- RecoverFirst();
      ghost var idle := disk;
      if before.journal.None? { RestoredLiveFrame(env, before, idle); }
      if RestoredLive(env, idle) { RestoredLiveReads(env, idle); }
      if sound && InstallUnderway(env, disk) { InstallHasNoManifest(env, disk); }
      if sound && RestoreUnderway(env, disk) { RestoreHasManifest(env, disk); }
      var read :- ReadManifest(env, disk.manifest, disk.stashes);
      if read.Some? {
        ManifestReadIs(env, disk.manifest, disk.stashes);
        r := RestoreManifest(read.value.manifest, t);
        if before.journal.None? && r.Done? { RestoreBeganFrame(env, before, idle, disk); }
        if sound && r.Done? {
          SoundNow();
          RestoreDecided(env, before, idle, disk);
        }
      } else {
        r := InstallFresh(t);
        UnrestoredUntampered(disk);
        NoManifestAcceptable(env, idle);
        if sound && r.Done? {
          SoundNow();
          InstalledVerdict(env, idle, disk);
          RestoreDecided(env, before, idle, disk);
        }
      }
    }

    /** Replace the exact legacy payload by the bootstrap, or re-mark an installed one. */
    method InstallFresh(t: TransactionId) returns (r: Outcome<BootstrapOutcome>)
      requires Valid()
      requires ValidTransactionId(t)
      requires disk.journal.None? && NoForeignStages(disk, None) && disk.manifest.None?
      modifies this
      ensures Ran(r.Interrupted?)
      ensures disk.manifest == old(disk).manifest
      ensures r.Done? ==> r.value == Installed && BootstrapAt(env, disk.config) && Marked(env, disk)
      ensures r.Done? ==> Installable(env, old(disk))
      ensures sound && old(InstallUnderway(env, disk)) ==> !r.Refused? && InstallUnderway(env, disk)
    {
      hide Valid, Inv, KeepStep, Recoverable, MarkerReadable, NoForeignStages, SourceIntact, ValidRecord, ExactLegacy,
           ExactBootstrap, StatesExactlyMatch;
      if !SourceIntact(env, disk.source) { return Refused; }
      var current :- ReadRegular(disk.config, MAX_CONFIG_BYTES);
      if BootstrapAt(env, current) {
        ghost var before := disk;
        var marked := EnsureMarker(t, None, ConfigPresent(RecordOf(current.value)));
        UnforeignFrame(before, disk);
        if marked.IsFailure() { return marked.PropagateFailure(); }
        return Done(Installed);
      }
      if !LegacyAt(env, current) || disk.marker.Some? { return Refused; }
      r := JournalInstall(t);
    }

    method JournalInstall(t: TransactionId) returns (r: Outcome<BootstrapOutcome>)
      requires Valid()
      requires ValidTransactionId(t)
      requires disk.journal.None? && disk.manifest.None? && disk.marker.None? && LegacyAt(env, disk.config)
      modifies this
      ensures Ran(r.Interrupted?)
      ensures disk.manifest == old(disk).manifest
      ensures r.Done? ==> r.value == Installed && BootstrapAt(env, disk.config) && Marked(env, disk)
      ensures sound && old(InstallUnderway(env, disk)) ==> !r.Refused? && InstallUnderway(env, disk)
    {
      hide Valid, Inv, KeepStep, Recoverable, NoForeignStages, InstallUnderway, Marked, LegacyAt, BootstrapAt,
           ReadsJournal;
      LegacyReads(env, disk.config);
      var j := BootstrapJournal(SCHEMA_VERSION, t, RecordOf(disk.config.value), ConfigStage(t, BootstrapSuffix));
      ghost var before := disk;
      if sound { SoundNow(); }
      var written := WriteJournal(j);
      if sound && InstallUnderway(env, before) && disk != before { InstallJournaled(env, before, disk, j); }
      if written.IsFailure() { return written.PropagateFailure(); }
      r := RunInstall(j, t);
    }

    /** Recovery right after an installation was journaled carries it out. */
    method RunInstall(j: Journal, t: TransactionId) returns (r: Outcome<BootstrapOutcome>)
      requires Valid()
      requires ValidTransactionId(t)
      requires j.BootstrapJournal? && ReadsJournal(env, disk.journal, j) && disk.manifest.None?
      modifies this
      ensures Ran(r.Interrupted?)
      ensures disk.manifest == old(disk).manifest
      ensures r.Done? ==> r.value == Installed && BootstrapAt(env, disk.config) && Marked(env, disk)
      ensures sound && old(InstallUnderway(env, disk)) ==> !r.Refused? && InstallUnderway(env, disk)
    {
      hide Valid, Inv, KeepStep, Recoverable, NoForeignStages, Marked, Toward, Settled, JournalFrame, LegacyAt,
           BootstrapAt, ReadsJournal, SourceIntact, MarkerReadable;
      JournalOwnsStages(env, disk.journal, j);
      ghost var journaled := disk;
      var _ :- Boundary();
      var completed := RecoverLocked(true);
      InstallFrame(j, journaled, disk);
      if sound && InstallUnderway(env, journaled) { InstallToward(env, j, journaled, disk); }
      if completed.IsFailure() { return completed.PropagateFailure(); }
      InstallSettled(env, j, disk);
      MarkedBootstrap(env, disk);
      r := RemarkBootstrap(t);
    }

    /** The marker call after an installation finds the marker that recovery published. */
    method RemarkBootstrap(t: TransactionId) returns (r: Outcome<BootstrapOutcome>)
      requires Valid()
      requires ValidTransactionId(t) && disk.journal.None? && disk.manifest.None?
      requires BootstrapAt(env, disk.config)
      requires MarkerNames(env, disk.marker, None, ConfigPresent(RecordOf(disk.config.value)))
      modifies this
      ensures Ran(r.Interrupted?)
      ensures r == Done(Installed) && disk == old(disk)
    {
      hide Valid, Inv, KeepStep, MarkerNames;
      var marked := EnsureMarker(t, None, ConfigPresent(RecordOf(disk.config.value)));
      r := Done(Installed);
    }

    /** Restore the active generation of the manifest, or re-mark one restored earlier. */
    method RestoreManifest(m: StashManifest, t: TransactionId) returns (r: Outcome<BootstrapOutcome>)
      requires Valid()
      requires ValidTransactionId(t)
      requires disk.journal.None? && NoForeignStages(disk, None)
      requires ManifestOn(disk.manifest) == Some(m) && ValidManifest(m)
      requires ReadManifest(env, disk.manifest, disk.stashes).Done?
      modifies this
      ensures Ran(r.Interrupted?)
      ensures sound && Untampered(old(disk)) ==> Untampered(disk)
      ensures sound && r.Done? ==> (ValidateCurrentMarker(env, disk) <==> Acceptable(env, old(disk)))
      ensures ManifestRestored(old(disk).manifest) ==> disk == old(disk).(marker := disk.marker)
      ensures sound && ManifestRestored(old(disk).manifest) && RestoredLive(env, old(disk)) ==> !r.Refused?
      ensures r.Done? ==> r.value == RestoredStash && Marked(env, disk) && ManifestRestored(disk.manifest)
      ensures r.Done? ==> RestoreBegan(env, old(disk), disk)
      ensures sound && old(RestoreUnderway(env, disk)) ==>
        !r.Refused? && RestoreUnderway(env, disk) && SameAim(old(disk).manifest, disk.manifest)
    {
      hide Valid, Inv, KeepStep, NoForeignStages, ValidManifest, ReadManifest, RestoredLive, TargetLive, MarkerReadable,
           Recoverable, MarkerNames, Untampered, Acceptable, ValidateCurrentMarker;
      match m.active.state {
        case Restored(_, _, _) =>
          ghost var before := disk;
          var marked := RemarkRestored(m);
          RestoredLiveFrame(env, before, disk);
          MarkerStepKeeps(env, before, disk);
          if marked.IsFailure() { return marked.PropagateFailure(); }
          RestoredMarkedReadable(env, disk);
          MarkedRestored(env, disk);
          if sound {
            SoundNow();
            MarkedVerdict(env, disk);
          }
          return Done(RestoredStash);
        case ConsumedRefreshable(_, _, _, _) =>
          return Refused;
        case _ =>
          if disk.marker.Some? { return Refused; }
          r := JournalRestore(m, t);
      }
    }

    method JournalRestore(m: StashManifest, t: TransactionId) returns (r: Outcome<BootstrapOutcome>)
      requires Valid()
      requires ValidTransactionId(t)
      requires disk.journal.None? && disk.marker.None?
      requires ManifestOn(disk.manifest) == Some(m) && ValidManifest(m) && Unrestored(m.active.state)
      requires ReadManifest(env, disk.manifest, disk.stashes).Done?
      modifies this
      ensures Ran(r.Interrupted?)
      ensures sound && Untampered(old(disk)) ==> Untampered(disk)
      ensures sound && r.Done? ==> (ValidateCurrentMarker(env, disk) <==> Acceptable(env, old(disk)))
      ensures r.Done? ==> r.value == RestoredStash && Marked(env, disk) && ManifestRestored(disk.manifest)
      ensures r.Done? ==> SameAim(old(disk).manifest, disk.manifest) && AbsenceKept(disk)
      ensures sound && old(RestoreUnderway(env, disk)) ==>
        !r.Refused? && RestoreUnderway(env, disk) && SameAim(old(disk).manifest, disk.manifest)
    {
      hide Valid, Inv, KeepStep, NoForeignStages, RestoreUnderway, Marked, JournalFrame, ReadsJournal, Recoverable,
           Untampered, Acceptable, ValidateCurrentMarker, AbsenceKept;
      var j := RestoreJournal(SCHEMA_VERSION, t, RecordOf(disk.manifest.value), m.active.generation,
                              ConfigStage(t, RestoreSuffix), ConfigStage(t, BackupSuffix),
                              ControlStage(t, ManifestSuffix));
      ghost var before := disk;
      if sound { SoundNow(); }
      var written := WriteJournal(j);
      if sound && RestoreUnderway(env, before) && disk != before { RestoreUnderwayJournaled(env, before, disk, j); }
      UnrestoredUntampered(disk);
      if written.IsFailure() { return written.PropagateFailure(); }
      JournalOwnsStages(env, disk.journal, j);
      RestoreJournalKeeps(env, before, disk);
      r := RunRestore(j);
    }

    /** Recovery right after a restore was journaled carries it out. */
    method RunRestore(j: Journal) returns (r: Outcome<BootstrapOutcome>)
      requires Valid()
      requires j.RestoreJournal? && ReadsJournal(env, disk.journal, j) && !ManifestRestored(disk.manifest)
      modifies this
      ensures Ran(r.Interrupted?)
      ensures sound && Untampered(old(disk)) ==> Untampered(disk)
      ensures sound && r.Done? ==> (ValidateCurrentMarker(env, disk) <==> Acceptable(env, old(disk)))
      ensures r.Done? ==> r.value == RestoredStash && Marked(env, disk) && ManifestRestored(disk.manifest)
      ensures r.Done? ==> SameAim(old(disk).manifest, disk.manifest) && AbsenceKept(disk)
      ensures SameAim(old(disk).manifest, disk.manifest)
      ensures sound && old(Recoverable(env, j, disk)) ==> !r.Refused? && RestoreUnderway(env, disk)
    {
      hide Valid, Inv, KeepStep, NoForeignStages, RestoreUnderway, Marked, Toward, Settled, JournalFrame, ReadsJournal,
           Recoverable, Untampered, Acceptable, ValidateCurrentMarker, AbsenceKept;
      JournalOwnsStages(env, disk.journal, j);
      ghost var journaled := disk;
      if Recoverable(env, j, disk) { RecoverableToward(env, j, disk); }
      if sound && Toward(env, j, disk) { RestoreToward(env, j, disk); }
      var _ :- Boundary();
      var completed := RecoverLocked(true);
      if sound && Recoverable(env, j, journaled) { RestoreToward(env, j, disk); }
      RestoreFrame(j, journaled, disk);
      if completed.IsFailure() { return completed.PropagateFailure(); }
      RestoreSettled(env, j, disk);
      RestoreSettledAbsence(env, j, disk);
      if sound {
        SoundNow();
        MarkedVerdict(env, disk);
      }
      return Done(RestoredStash);
    }

    method CompleteReleaseN(t: TransactionId) returns (r: Outcome<BootstrapOutcome>)
      requires Valid()
      requires ValidTransactionId(t)
      modifies this
      ensures Ran(r.Interrupted?)
      ensures sound && Untampered(old(disk)) ==> Untampered(disk)
      ensures sound && r.Done? ==> (ValidateCurrentMarker(env, disk) <==> Verdict(env, old(disk), disk))
      ensures old(disk).journal.None? && ManifestRestored(old(disk).manifest) ==>
        disk == old(disk).(marker := disk.marker)
      ensures (&& sound && old(disk).journal.None?
               && ManifestRestored(old(disk).manifest) && RestoredLive(env, old(disk))) ==> !r.Refused?
      ensures r.Done? ==> Marked(env, disk)
      ensures r.Done? && old(disk).journal.None? ==> CompletionBegan(env, old(disk), disk)
      ensures r.Done? && r.value == VerifiedUpgrade ==> ValidateCurrentMarker(env, disk)
      ensures (&& sound && old(disk).journal.None? && old(disk).manifest.None?
               && Preservable(env, old(disk).config, old(disk).etcHowy)) ==> !r.Refused?
      ensures r.Done? && old(disk).journal.None? ==>
        r.value == if old(disk).manifest.None? then VerifiedUpgrade else RestoredStash
      ensures old(disk).journal.None? && old(disk).manifest.None? ==> disk == old(disk).(marker := disk.marker)
      ensures sound && old(RestoreUnderway(env, disk)) ==>
        !r.Refused? && RestoreUnderway(env, disk) && SameAim(old(disk).manifest, disk.manifest)
      ensures r.Done? && sound && old(RestoreUnderway(env, disk)) ==>
        r.value == RestoredStash && ManifestRestored(disk.manifest)
    {
      hide Valid, Inv, KeepStep, InstallUnderway, RestoreUnderway, NoForeignStages, Marked, BootstrapAt, ReadManifest,
           ValidManifest, ValidateCurrentMarker, Untampered, Acceptable, RestoredLive, Republishes, RestoreBegan,
           Preservable, ManifestRestored, SameVerdict, Verdict, Toward, Recoverable, JournalFrame, RestoreJournaledOn;
      ghost var before := disk;
      if disk.manifest.None? { NothingReads(env, disk.manifest, disk.stashes); }
      var _ :- RecoverFirst();
      ghost var idle := disk;
      if before.journal.None? { RestoredLiveFrame(env, before, idle); }
      r := CompleteIdle(t);
      if before.journal.None? && before.manifest.Some? && r.Done? { RestoreBeganFrame(env, before, idle, disk); }
      if sound && r.Done? {
        SoundNow();
        RestoreDecided(env, before, idle, disk);
      }
    }

    /** Restore the manifest's generation, or mark the preserved configuration where there is no manifest. */
    method CompleteIdle(t: TransactionId) returns (r: Outcome<BootstrapOutcome>)
      requires Valid()
      requires ValidTransactionId(t)
      requires disk.journal.None? && NoForeignStages(disk, None)
      modifies this
      ensures Ran(r.Interrupted?)
      ensures sound && Untampered(old(disk)) ==> Untampered(disk)
      ensures sound && r.Done? ==> (ValidateCurrentMarker(env, disk) <==> Acceptable(env, old(disk)))
      ensures old(disk).manifest.None? || ManifestRestored(old(disk).manifest) ==>
        disk == old(disk).(marker := disk.marker)
      ensures sound && ManifestRestored(old(disk).manifest) && RestoredLive(env, old(disk)) ==> !r.Refused?
      ensures r.Done? ==> Marked(env, disk) && CompletionBegan(env, old(disk), disk)
      ensures r.Done? ==> r.value == if old(disk).manifest.None? then VerifiedUpgrade else RestoredStash
      ensures r.Done? && old(disk).manifest.None? ==> ValidateCurrentMarker(env, disk)
      ensures r.Done? && old(disk).manifest.Some? ==> ManifestRestored(disk.manifest)
      ensures sound && old(disk).manifest.None? && Preservable(env, old(disk).config, old(disk).etcHowy) ==> !r.Refused?
      ensures sound && old(RestoreUnderway(env, disk)) ==>
        && !r.Refused? && RestoreUnderway(env, disk) && SameAim(old(disk).manifest, disk.manifest)
        && old(disk).manifest.Some?
    {
      hide Valid, Inv, KeepStep, RestoreUnderway, NoForeignStages, Marked, ReadManifest, ValidManifest,
           ValidateCurrentMarker, Untampered, Acceptable, RestoredLive, RestoreBegan, Preservable;
      if disk.manifest.None? { NothingReads(env, disk.manifest, disk.stashes); }
      ghost var idle := disk;
      if RestoredLive(env, disk) { RestoredLiveReads(env, disk); }
      if sound && RestoreUnderway(env, disk) { RestoreHasManifest(env, disk); }
      var read :- ReadManifest(env, disk.manifest, disk.stashes);
      if read.Some? {
        ManifestReadIs(env, disk.manifest, disk.stashes);
        r := RestoreManifest(read.value.manifest, t);
      } else {
        r := MarkPreserved(t);
        UnrestoredUntampered(disk);
        NoManifestAcceptable(env, idle);
      }
    }

    /** Without a manifest the preserved configuration is verified and marked as it is. */
    method MarkPreserved(t: TransactionId) returns (r: Outcome<BootstrapOutcome>)
      requires Valid()
      requires ValidTransactionId(t)
      requires disk.journal.None? && NoForeignStages(disk, None) && disk.manifest.None?
      modifies this
      ensures Ran(r.Interrupted?)
      ensures disk == old(disk).(marker := disk.marker)
      ensures r.Done? ==> r.value == VerifiedUpgrade && Marked(env, disk) && ValidateCurrentMarker(env, disk)
      ensures r.Done? ==> Preservable(env, disk.config, disk.etcHowy)
      ensures sound && Preservable(env, disk.config, disk.etcHowy) ==> !r.Refused?
    {
      hide Valid, Inv, KeepStep, NoForeignStages, ValidRecord, Preservable;
      if sound {
        SoundNow();
        SoundReads(env, disk);
      }
      PreservableExactly(env, disk.config, disk.etcHowy);
      var state :- SnapshotConfig(disk.config, disk.etcHowy);
      if !SafeCompletion(env, state) { return Refused; }
      ghost var before := disk;
      var marked := EnsureMarker(t, None, state);
      UnforeignFrame(before, disk);
      if marked.IsFailure() { return marked.PropagateFailure(); }
      return Done(VerifiedUpgrade);
    }

    method CreateIfAbsent() returns (r: Outcome<CreateOutcome>)
      requires Valid()
      modifies this
      ensures Ran(r.Interrupted?)
      ensures sound && Untampered(old(disk)) ==> Untampered(disk)
      ensures r.Done? && r.value == Created ==> BootstrapAt(env, disk.config) && CreatedLast(seen)
      ensures r.Done? && r.value == Occupied ==> disk.config.Some?
      ensures r.Done? && old(disk).journal.None? ==> Creatable(env, old(disk))
      ensures sound && old(disk).journal.None? && Creatable(env, old(disk)) ==> !r.Refused?
      ensures r.Done? && old(disk).journal.None? ==>
        r.value == if old(disk).config.None? then Created else Occupied
      ensures old(disk).journal.None? ==> disk == old(disk).(config := disk.config, marker := disk.marker)
      ensures old(disk).journal.None? && old(disk).config.Some? ==> disk.config == old(disk).config
    {
      hide Valid, Inv, KeepStep, NoForeignStages, SourceIntact, Recoverable, Toward, JournalFrame, InstallUnderway,
           RestoreUnderway, BootstrapAt, Untampered, SameVerdict, SameAim, RestoredLive, ManifestRestored;
      var _ :- RecoverFirst();
      if !SourceIntact(env, disk.source) { return Refused; }
      if disk.config.Some? { return Done(Occupied); }
      r := PublishBootstrap();
    }

    /** Publish the bootstrap payload at the free configuration path. */
    method PublishBootstrap() returns (r: Outcome<CreateOutcome>)
      requires Valid()
      requires disk.journal.None? && disk.config.None?
      modifies this
      ensures Ran(r.Interrupted?) && !r.Refused?
      ensures disk == old(disk).(config := disk.config)
      ensures Untampered(old(disk)) ==> Untampered(disk)
      ensures r.Done? ==> r.value == Created && BootstrapAt(env, disk.config) && CreatedLast(seen)
    {
      hide Valid, Inv, KeepStep, Written, BootstrapAt, Untampered;
      var _ :- Boundary();
      var n :- WritePrivate(BootstrapPayload, env.uid, env.gid, MODE_600, None);
      WrittenBootstrap(env, n);
      if sound {
        SoundNow();
        ConfigIsFree(env, disk, Some(n), disk.configStages, disk.etcHowy);
      }
      SeenLast();
      CreationUntampered(disk, n);
      var linked := LinkNoReplace(ConfigSlot, n);
      if linked.Refused? { return Done(Occupied); }
      if linked.Interrupted? { return Interrupted; }
      var _ :- Boundary();
      return Done(Created);
    }

    method Recover() returns (r: Outcome<()>)
      requires Valid()
      modifies this
      ensures Ran(r.Interrupted?)
      ensures sound && Untampered(old(disk)) ==> Untampered(disk)
      ensures r.Done? ==> disk.journal.None? && NoForeignStages(disk, None)
      ensures (&& sound && old(disk).journal.None?
               && (ManifestRestored(old(disk).manifest) ==> RestoredLive(env, old(disk)))) ==> !r.Refused?
      ensures r.Done? && old(disk).journal.None? && ManifestRestored(old(disk).manifest) ==>
        RestoredLive(env, old(disk))
      ensures old(disk).journal.None? ==> disk == old(disk).(marker := disk.marker)
      ensures old(disk).journal.None? && !ManifestRestored(old(disk).manifest) ==> disk == old(disk)
      ensures sound && old(InstallUnderway(env, disk)) ==> !r.Refused? && InstallUnderway(env, disk)
      ensures sound && old(RestoreUnderway(env, disk)) ==>
        !r.Refused? && RestoreUnderway(env, disk) && SameAim(old(disk).manifest, disk.manifest)
      ensures sound && old(StashUnderway(env, disk)) ==>
        && StashUnderway(env, disk)
        && disk.config == old(disk).config && disk.etcHowy == old(disk).etcHowy
        && SameStash(old(disk), disk)
    {
      hide Valid, Inv, KeepStep, InstallUnderway, RestoreUnderway, NoForeignStages, Toward, JournalFrame, Recoverable,
           CaptureHolds, ReadsJournal, Untampered, SameVerdict;
      ghost var before := disk;
      r := RecoverFirst();
      if sound && StashUnderway(env, before) && before.journal.Some? {
        SoundNow();
        StashToward(env, JournalOn(before.journal).value, before, disk);
        StashFrame(JournalOn(before.journal).value, before, disk);
      }
    }

    method StashReleaseN(t: TransactionId) returns (r: Outcome<StashOutcome>)
      requires Valid()
      requires ValidTransactionId(t)
      modifies this
      ensures Ran(r.Interrupted?)
      ensures sound && Untampered(old(disk)) ==> Untampered(disk)
      ensures r.Done? && sound ==> Stashed(env, disk)
      ensures r.Done? && old(disk).journal.None? && sound ==> StashUnderway(env, old(disk))
      ensures r.Done? && old(disk).journal.None? ==> r.value == StashKind(old(disk).manifest)
      ensures r.Done? && r.value == AlreadyExact && old(disk).journal.None? ==> disk == old(disk)
      ensures old(disk).journal.None? && HistoryFull(old(disk).manifest) ==> r.Refused? && disk == old(disk)
      ensures sound && old(StashUnderway(env, disk)) ==>
        && !r.Refused? && StashUnderway(env, disk)
        && disk.config == old(disk).config && disk.etcHowy == old(disk).etcHowy
        && SameStash(old(disk), disk)
    {
      hide Valid, Inv, KeepStep, NoForeignStages, StashUnderway, CaptureHolds, ReadManifest, StashAim, StashGoal,
           Stashed, Untampered;
      var _ :- RecoverBeforeStash();
      if sound {
        SoundNow();
        SoundReads(env, disk);
      }
      if sound && StashUnderway(env, disk) { StashReads(env, disk); }
      var source :- SnapshotConfig(disk.config, disk.etcHowy);
      if !StashableState(source) { return Refused; }
      var read :- ReadManifest(env, disk.manifest, disk.stashes);
      if read.Some? { ManifestReadIs(env, disk.manifest, disk.stashes); }
      if read.Some? && Unrestored(read.value.manifest.active.state) {
        if !CaptureHolds(env, read.value.manifest.active.state, source, disk.stashes)
           || disk.marker.Some?
        {
          return Refused;
        }
        AlreadyStashed(env, disk);
        if sound { AlreadyUnderway(env, disk); }
        return Done(AlreadyExact);
      }
      r := JournalStash(t, source);
    }

    /** Recovery before a stash leaves a restored generation alone, whatever became of its configuration. */
    method RecoverBeforeStash() returns (r: Outcome<()>)
      requires Valid()
      modifies this
      ensures Ran(r.Interrupted?)
      ensures sound && Untampered(old(disk)) ==> Untampered(disk)
      ensures r.Done? ==> disk.journal.None? && NoForeignStages(disk, None)
      ensures old(disk).journal.None? ==> disk == old(disk) && !r.Interrupted?
      ensures sound && old(StashUnderway(env, disk)) ==>
        && !r.Refused? && StashUnderway(env, disk)
        && disk.config == old(disk).config && disk.etcHowy == old(disk).etcHowy
        && SameStash(old(disk), disk)
    {
      hide Valid, Inv, KeepStep, Recoverable, NoForeignStages, Toward, JournalFrame, ReadsJournal, Settled,
           RestoredMarked, RestoredLive, MarkerReadable, CaptureHolds, Untampered, SameVerdict;
      ghost var before := disk;
      r := RecoverLocked(false);
      if sound && StashUnderway(env, before) && before.journal.Some? {
        SoundNow();
        StashToward(env, JournalOn(before.journal).value, before, disk);
        StashFrame(JournalOn(before.journal).value, before, disk);
      }
    }

    method JournalStash(t: TransactionId, source: ConfigState) returns (r: Outcome<StashOutcome>)
      requires Valid()
      requires ValidTransactionId(t)
      requires disk.journal.None? && NoForeignStages(disk, None)
      requires Live(disk) == Done(source)
      requires ReadManifest(env, disk.manifest, disk.stashes).Done?
      requires disk.manifest.Some? ==>
        ManifestOn(disk.manifest).Some? && !Unrestored(ManifestOn(disk.manifest).value.active.state)
      modifies this
      ensures Ran(r.Interrupted?)
      ensures sound && Untampered(old(disk)) ==> Untampered(disk)
      ensures r.Done? && sound ==> Stashed(env, disk) && StashUnderway(env, old(disk))
      ensures r.Done? ==> r.value == StashKind(old(disk).manifest)
      ensures HistoryFull(old(disk).manifest) ==> r.Refused? && disk == old(disk)
      ensures sound && old(StashUnderway(env, disk)) ==>
        && !r.Refused? && StashUnderway(env, disk)
        && disk.config == old(disk).config && disk.etcHowy == old(disk).etcHowy
        && SameStash(old(disk), disk)
    {
      hide Valid, Inv, KeepStep, NoForeignStages, StashUnderway, ReadManifest, StashAim, StashGoal, Stashed,
           ValidManifest, Chronicle, Readable, Untampered;
      if sound {
        SoundNow();
        SoundReads(env, disk);
        if StashUnderway(env, disk) { NextStashed(env, disk, t, source); }
      }
      var n :- NextManifest(ManifestOn(disk.manifest), t, source);
      if !ValidManifest(n) { return Refused; }
      NextUnderway(env, disk, t, source, n);
      var marker :- ReadControl(env, disk.marker);
      if marker.Some? { ControlRegular(env, marker); }
      if disk.manifest.Some? { ManifestReadIs(env, disk.manifest, disk.stashes); }
      var j := StashJournal(SCHEMA_VERSION, t, source, RecordAt(disk.manifest), n, ControlStage(t, ManifestSuffix),
                            RecordAt(marker));
      r := WriteStash(j);
    }

    method WriteStash(j: Journal) returns (r: Outcome<StashOutcome>)
      requires Valid()
      requires disk.journal.None?
      requires j.StashJournal? && JournalReady(disk, j) && Live(disk) == Done(j.source)
      modifies this
      ensures Ran(r.Interrupted?)
      ensures sound && Untampered(old(disk)) ==> Untampered(disk)
      ensures r.Done? && sound ==> Stashed(env, disk)
      ensures r.Done? ==> r.value == if j.previousManifest.Some? then Refreshed else StashCreated
      ensures sound && old(StashUnderway(env, disk)) && ValidJournal(j) && JournalLength(j) <= MAX_CONTROL_BYTES ==>
        && !r.Refused? && StashUnderway(env, disk)
        && disk.config == old(disk).config && disk.etcHowy == old(disk).etcHowy
        && SameStash(old(disk), disk)
    {
      hide Valid, Inv, KeepStep, NoForeignStages, StashUnderway, StashAim, StashGoal, Stashed, JournalReady,
           Recoverable, Toward, Settled, JournalFrame, ReadsJournal, ValidJournal, SnapshotConfig, Untampered,
           SameVerdict;
      ghost var before := disk;
      if sound { SoundNow(); }
      ReadyCapture(disk, j);
      var written := WriteJournal(j);
      if sound && StashUnderway(env, before) && disk != before { StashUnderwayJournaled(env, before, disk, j); }
      if disk != before { JournalOwnsStages(env, disk.journal, j); }
      StashJournalKeeps(before, disk);
      if written.IsFailure() { return written.PropagateFailure(); }
      var _ :- Boundary();
      JournalOwnsStages(env, disk.journal, j);
      ghost var journaled := disk;
      var completed := RecoverLocked(true);
      if sound {
        SoundNow();
        if StashUnderway(env, before) { StashToward(env, j, journaled, disk); }
      }
      StashFrame(j, journaled, disk);
      if completed.IsFailure() { return completed.PropagateFailure(); }
      if sound { StashCompleted(env, j, before, disk); }
      return Done(if j.previousManifest.Some? then Refreshed else StashCreated);
    }
  }
}
