/**
 Whole runs of the bridge: any sequence of commands, each killed at any boundary or
 none, with the configuration edited freely in between. Safety is proved of every
 disk along every run, convergence of every crash schedule.
 */
module BridgeRuns {
  import opened Wrappers
  import opened BridgeTypes
  import opened BridgeNames
  import opened BridgeRules
  import opened BridgeInvariant
  import opened BridgeSteps
  import opened BridgePhases
  import opened BridgeGoals
  import opened ConfigBridgeModule

  datatype Command = Bootstrap | Complete | Create | Stash | RecoverOnly

  /** One process: what an administrator made of the configuration before it, the command, the
      transaction id it drew, the boundary at which it is killed, if any, and how many of its durable
      steps took effect: a process may also die between two steps, inside a single write. */
  datatype Process = Process(config: Option<Node>, etcHowy: AbsenceRecord, command: Command,
                             t: TransactionId, killAt: Option<nat>, steps: nat)

  // ----- safety from every starting disk -----

  method Execute(e: Env, disk: Disk, command: Command, t: TransactionId, killAt: Option<nat>)
    returns (trace: seq<Disk>)
    requires ValidTransactionId(t)
    ensures |trace| > 0 && trace[0] == disk
    ensures KeptAlong(e, trace)
    ensures Inv(e, disk) ==> SoundAlong(e, trace)
  {
    hide Inv, KeepStep;
    var bridge := new ConfigBridge(e, disk, killAt);
    match command {
      case Bootstrap => var _ := bridge.BootstrapReleaseN(t);
      case Complete => var _ := bridge.CompleteReleaseN(t);
      case Create => var _ := bridge.CreateIfAbsent();
      case Stash => var _ := bridge.StashReleaseN(t);
      case RecoverOnly => var _ := bridge.Recover();
    }
    trace := bridge.seen;
  }

  /** Whatever the controls look like, a configuration that is not the exact pinned legacy payload
      stays the same object at the same path, and every stash stays, from any durable disk to any later one. */
  lemma {:induction false} ForeignConfigKept(e: Env, trace: seq<Disk>, i: nat, j: nat)
    requires KeptAlong(e, trace) && i <= j < |trace|
    ensures trace[i].config.Some? && !LegacyAt(e, trace[i].config) ==> trace[j].config == trace[i].config
    ensures forall p | p in trace[i].stashes :: At(trace[j].stashes, p) == At(trace[i].stashes, p)
    ensures trace[j].source == trace[i].source && trace[j].etcHowy == trace[i].etcHowy
    decreases j
  {
    if i < j {
      ForeignConfigKept(e, trace, i, j - 1);
      assert KeepStep(e, trace[j - 1], trace[j]);
    }
  }

  /** In particular a configuration is kept that is no regular file, has other bytes than the pinned legacy payload, or
      belongs to another user or group or has other permissions than 0644. */
  lemma OtherConfigKept(e: Env, trace: seq<Disk>, i: nat, j: nat)
    requires KeptAlong(e, trace) && i <= j < |trace| && trace[i].config.Some?
    requires var n := trace[i].config.value;
             || n.Special? || n.content != LegacyPayload
             || n.metadata.uid != e.uid || n.metadata.gid != e.gid || n.metadata.permissions != 420
    ensures trace[j].config == trace[i].config
  {
    hide KeptAlong;
    ForeignConfigKept(e, trace, i, j);
  }

  /** Along a sound trace the manifest is never lost and its history only grows. */
  lemma {:induction false} HistoryAlong(e: Env, trace: seq<Disk>, i: nat, j: nat)
    requires SoundAlong(e, trace) && i <= j < |trace|
    ensures HistoryKept(trace[i].manifest, trace[j].manifest)
    decreases j
  {
    hide Inv;
    if i < j {
      HistoryAlong(e, trace, i, j - 1);
      HistoryKeptTransitive(trace[i].manifest, trace[j - 1].manifest, trace[j].manifest);
    }
  }

  // ----- safety over runs from clean controls -----

  /** The marker never coexists with a bootstrap or restore journal, and with an unrestored active
      generation only while a stash journal is still there. */
  predicate MarkerRule(d: Disk) {
    d.marker.Some? ==>
      && MarkerOn(d.marker).Some?
      && (d.journal.Some? ==> JournalOn(d.journal).Some? && JournalOn(d.journal).value.StashJournal?)
      && (ManifestOn(d.manifest).Some? && Unrestored(ManifestOn(d.manifest).value.active.state) ==>
            JournalOn(d.journal).Some? && JournalOn(d.journal).value.StashJournal?)
      && (ManifestRestored(d.manifest) ==>
            && MarkerOn(d.marker).value.generation == Some(ManifestOn(d.manifest).value.active.generation)
            && MarkerOn(d.marker).value.transactionId == ManifestOn(d.manifest).value.active.state.restoreTransactionId)
      && (d.manifest.None? ==> MarkerOn(d.marker).value.generation.None?)
  }

  /** The manifest validates and its history is exactly the generations below the active one, at most 64. */
  predicate HistoryRule(d: Disk) {
    d.manifest.Some? ==>
      && ManifestOn(d.manifest).Some?
      && var m := ManifestOn(d.manifest).value;
         && ValidManifest(m)
         && m.active.generation == |m.consumed| + 1 <= MAX_CONSUMED_GENERATIONS + 1
         && forall i :: 0 <= i < |m.consumed| ==> m.consumed[i].generation == i + 1
  }

  lemma SoundFollowsRules(e: Env, d: Disk)
    requires Inv(e, d)
    ensures MarkerRule(d) && HistoryRule(d)
  {
    hide ValidManifest;
    if d.manifest.Some? {
      var m := ManifestOn(d.manifest).value;
      assert Chronicle(m);
      ChronicleValid(m);
      forall i | 0 <= i < |m.consumed| ensures m.consumed[i].generation == i + 1 {
        assert EntryInPlace(m.consumed[i], i + 1);
      }
    }
  }

  lemma ChronicleValid(m: StashManifest)
    requires Chronicle(m)
    ensures ValidManifest(m) && |m.consumed| <= MAX_CONSUMED_GENERATIONS
  {}

  ghost predicate RulesAlong(history: seq<Disk>) {
    forall i :: 0 <= i < |history| ==> MarkerRule(history[i]) && HistoryRule(history[i])
  }

  /** Between any two disks of the run, generations are only ever added. */
  ghost predicate AppendOnly(history: seq<Disk>) {
    forall i, j :: 0 <= i <= j < |history| ==> HistoryKept(history[i].manifest, history[j].manifest)
  }

  lemma AppendTrace(e: Env, history: seq<Disk>, trace: seq<Disk>)
    requires |history| > 0 && AppendOnly(history) && |trace| > 0 && SoundAlong(e, trace)
    requires trace[0].manifest == history[|history| - 1].manifest
    ensures AppendOnly(history + trace)
  {
    hide Inv, HistoryKept;
    var all := history + trace;
    forall i, j | 0 <= i <= j < |all| ensures HistoryKept(all[i].manifest, all[j].manifest) {
      if i >= |history| {
        HistoryAlong(e, trace, i - |history|, j - |history|);
      } else if j >= |history| {
        HistoryAlong(e, trace, 0, j - |history|);
        HistoryKeptTransitive(all[i].manifest, trace[0].manifest, all[j].manifest);
      }
    }
  }

  lemma SoundPrefix(e: Env, trace: seq<Disk>, n: nat)
    requires SoundAlong(e, trace) && n <= |trace|
    ensures SoundAlong(e, trace[..n])
  {
    hide Inv, HistoryKept;
  }

  /** Every durable disk of every run from clean controls, killed anywhere and edited at will, follows both rules,
      and the generation history is append-only along the whole run. */
  method RunAll(e: Env, start: Disk, processes: seq<Process>) returns (history: seq<Disk>)
    requires CleanControls(start)
    requires forall i :: 0 <= i < |processes| ==> ValidTransactionId(processes[i].t)
    ensures |history| > |processes| && history[0] == start
    ensures RulesAlong(history) && AppendOnly(history)
  {
    hide Inv, MarkerRule, HistoryRule, CleanControls, KeptAlong;
    CleanIsSound(e, start);
    SoundFollowsRules(e, start);
    history := [start];
    for k := 0 to |processes|
      invariant |history| > k && history[0] == start
      invariant Inv(e, history[|history| - 1]) && RulesAlong(history) && AppendOnly(history)
    {
      var p, after := processes[k], history[|history| - 1];
      ConfigIsFree(e, after, p.config, after.configStages, p.etcHowy);
      var edited := after.(config := p.config, etcHowy := p.etcHowy);
      var whole := Execute(e, edited, p.command, p.t, p.killAt);
      var trace := if p.steps < |whole| then whole[..p.steps + 1] else whole;
      if p.steps < |whole| { SoundPrefix(e, whole, p.steps + 1); }
      forall i | 0 <= i < |trace| ensures MarkerRule(trace[i]) && HistoryRule(trace[i]) {
        SoundFollowsRules(e, trace[i]);
      }
      AppendTrace(e, history, trace);
      history := history + trace;
    }
  }

  // ----- crash convergence -----

  /** One attempt of a rerun command: a bare recovery or the command itself, killed at any boundary. */
  datatype Attempt = Attempt(recoverOnly: bool, t: TransactionId, killAt: nat)

  predicate ValidAttempts(attempts: seq<Attempt>) {
    forall i :: 0 <= i < |attempts| ==> ValidTransactionId(attempts[i].t)
  }

  /** A fresh legacy payload and an intact source are enough to begin an installation. */
  lemma FreshInstallBegins(e: Env, d: Disk)
    requires CleanControls(d) && SourceIntact(e, d.source) && LegacyAt(e, d.config)
    ensures Inv(e, d) && InstallUnderway(e, d)
  {
    CleanIsSound(e, d);
  }

  lemma BootstrapSafe(e: Env, d: Disk)
    requires BootstrapAt(e, d.config)
    ensures Live(d).Done? && SafeCompletion(e, Live(d).value)
    ensures var n := d.config.value;
            && n.Regular? && n.content == BootstrapPayload && n.metadata.permissions == 384
            && n.metadata.uid == e.uid && n.metadata.gid == e.gid
  {}

  method InstallConverges(e: Env, disk: Disk, attempts: seq<Attempt>, t: TransactionId) returns (after: Disk)
    requires Inv(e, disk) && InstallUnderway(e, disk)
    requires ValidAttempts(attempts) && ValidTransactionId(t)
    ensures BootstrapAt(e, after.config)
    ensures var n := after.config.value;
            && n.content == BootstrapPayload && n.metadata.permissions == 384
            && n.metadata.uid == e.uid && n.metadata.gid == e.gid
    ensures after.manifest.None? && Marked(e, after) && ValidateCurrentMarker(e, after)
  {
    hide Inv, KeepStep, InstallUnderway, RestoreUnderway, Marked, ValidateCurrentMarker, BootstrapAt;
    after := disk;
    for k := 0 to |attempts|
      invariant Inv(e, after) && InstallUnderway(e, after)
    {
      var bridge := new ConfigBridge(e, after, Some(attempts[k].killAt));
      if attempts[k].recoverOnly {
        var _ := bridge.Recover();
      } else {
        var _ := bridge.BootstrapReleaseN(attempts[k].t);
      }
      bridge.SoundNow();
      after := bridge.disk;
    }
    var last := new ConfigBridge(e, after, None);
    var _ := last.BootstrapReleaseN(t);
    last.SoundNow();
    after := last.disk;
    InstallHasNoManifest(e, after);
    BootstrapSafe(e, after);
    MarkedAccepts(e, after);
  }

  method RestoreConverges(e: Env, disk: Disk, attempts: seq<Attempt>, t: TransactionId, upgrade: bool)
    returns (after: Disk)
    requires Inv(e, disk) && RestoreUnderway(e, disk)
    requires ValidAttempts(attempts) && ValidTransactionId(t)
    ensures Inv(e, after) && Marked(e, after)
    ensures ManifestRestored(after.manifest) && SameAim(disk.manifest, after.manifest) && GrownFrom(disk, after)
    ensures match Capture(ManifestOn(after.manifest).value.active.state)
            case Absent(_) => after.config.None?
            case PresentStashed(source, _, _, _) => Matches(after.config, source)
            case _ => false
    ensures ValidateCurrentMarker(e, after) <==> SafeCompletion(e, Live(after).value)
  {
    hide Inv, KeepStep, InstallUnderway, RestoreUnderway, Marked, ValidateCurrentMarker, Matches, SnapshotConfig;
    after := disk;
    for k := 0 to |attempts|
      invariant Inv(e, after) && RestoreUnderway(e, after) && SameAim(disk.manifest, after.manifest)
      invariant GrownFrom(disk, after)
    {
      var bridge := new ConfigBridge(e, after, Some(attempts[k].killAt));
      if attempts[k].recoverOnly {
        var _ := bridge.Recover();
      } else if upgrade {
        var _ := bridge.CompleteReleaseN(attempts[k].t);
      } else {
        var _ := bridge.BootstrapReleaseN(attempts[k].t);
      }
      bridge.SoundNow();
      bridge.SeenLast();
      TraceGrows(e, bridge.seen, disk);
      after := bridge.disk;
    }
    var last := new ConfigBridge(e, after, None);
    if upgrade {
      var _ := last.CompleteReleaseN(t);
    } else {
      var _ := last.BootstrapReleaseN(t);
    }
    last.SoundNow();
    last.SeenLast();
    TraceGrows(e, last.seen, disk);
    after := last.disk;
    RestoredEnd(e, after);
    RestoredTarget(e, after);
    MarkedAccepts(e, after);
  }

  lemma RestoredTarget(e: Env, d: Disk)
    requires RestoreUnderway(e, d) && Marked(e, d) && ManifestRestored(d.manifest)
    ensures TargetLive(ManifestOn(d.manifest).value, d.config, d.etcHowy) && Live(d).Done?
  {}

  /** A stash adds the refreshed generation, exactly as it was, to the history it found, or ends in the very
      manifest that was already journaled or in place. */
  predicate StashEnds(d: Disk, n: StashManifest) {
    match StashGoal(d)
    case Some(goal) => n == goal
    case None =>
      match ManifestOn(d.manifest)
      case None => n.consumed == []
      case Some(m) =>
        var consumed := ConsumeRestored(m.active, n.active.stashTransactionId);
        consumed.Done? && n.consumed == m.consumed + [consumed.value]
  }

  method StashConverges(e: Env, disk: Disk, attempts: seq<Attempt>, t: TransactionId) returns (after: Disk)
    requires Inv(e, disk) && StashUnderway(e, disk)
    requires ValidAttempts(attempts) && ValidTransactionId(t)
    ensures Inv(e, after) && Stashed(e, after)
    ensures after.config == disk.config && after.etcHowy == disk.etcHowy
    ensures ManifestOn(after.manifest).value.active.generation == StashAim(disk)
    ensures StashEnds(disk, ManifestOn(after.manifest).value) && GrownFrom(disk, after)
  {
    hide Inv, KeepStep, InstallUnderway, RestoreUnderway, StashUnderway, Stashed, StashAim, StashGoal, GrownFrom,
         KeptAlong, SoundAlong, StashEnds;
    after := disk;
    GrownSelf(disk);
    for k := 0 to |attempts|
      invariant Inv(e, after) && StashUnderway(e, after)
      invariant after.config == disk.config && after.etcHowy == disk.etcHowy
      invariant SameStash(disk, after) && GrownFrom(disk, after)
    {
      var bridge := new ConfigBridge(e, after, Some(attempts[k].killAt));
      if attempts[k].recoverOnly {
        var _ := bridge.Recover();
      } else {
        var _ := bridge.StashReleaseN(attempts[k].t);
      }
      bridge.SoundNow();
      bridge.SeenLast();
      TraceGrows(e, bridge.seen, disk);
      after := bridge.disk;
    }
    var last := new ConfigBridge(e, after, None);
    var _ := last.StashReleaseN(t);
    last.SoundNow();
    last.SeenLast();
    TraceGrows(e, last.seen, disk);
    after := last.disk;
    StashedAim(e, after);
    StashedEnds(e, disk, after);
  }

  /** The history of generations has only grown and every stash is still there. */
  predicate GrownFrom(d: Disk, d': Disk) {
    && HistoryKept(d.manifest, d'.manifest)
    && (forall p | p in d.stashes :: At(d'.stashes, p) == At(d.stashes, p))
  }

  lemma GrownSelf(d: Disk)
    ensures GrownFrom(d, d)
  {}

  lemma GrownTransitive(d: Disk, d': Disk, d'': Disk)
    requires GrownFrom(d, d') && GrownFrom(d', d'')
    ensures GrownFrom(d, d'')
  {
    hide HistoryKept;
    HistoryKeptTransitive(d.manifest, d'.manifest, d''.manifest);
    forall p | p in d.stashes ensures At(d''.stashes, p) == At(d.stashes, p) {
      assert p in d'.stashes;
    }
  }

  lemma TraceGrows(e: Env, trace: seq<Disk>, start: Disk)
    requires |trace| > 0 && KeptAlong(e, trace) && SoundAlong(e, trace) && GrownFrom(start, trace[0])
    ensures GrownFrom(start, trace[|trace| - 1])
  {
    hide KeepStep, Inv, HistoryKept;
    HistoryAlong(e, trace, 0, |trace| - 1);
    ForeignConfigKept(e, trace, 0, |trace| - 1);
    GrownTransitive(start, trace[0], trace[|trace| - 1]);
  }

  lemma OneMoreConsumed(m: StashManifest, n: StashManifest)
    requires Extends(m, n) && |n.consumed| == |m.consumed| + 1 && m.active.state.Restored?
    ensures ConsumeRestored(m.active, n.active.stashTransactionId).Done?
    ensures n.consumed == m.consumed + [ConsumeRestored(m.active, n.active.stashTransactionId).value]
  {
    assert n.consumed == n.consumed[..|m.consumed|] + [n.consumed[|m.consumed|]];
  }

  lemma ChronicleCounts(m: StashManifest)
    requires Chronicle(m)
    ensures m.active.generation == |m.consumed| + 1 <= MAX_CONSUMED_GENERATIONS + 1
  {}

  lemma StashedEnds(e: Env, d: Disk, d': Disk)
    requires Inv(e, d) && StashUnderway(e, d) && Inv(e, d') && Stashed(e, d')
    requires SameStash(d, d') && GrownFrom(d, d') && ManifestOn(d'.manifest).Some?
    ensures StashEnds(d, ManifestOn(d'.manifest).value)
  {
    hide Inv, Chronicle, StashUnderway, Extends, ConsumeRestored;
    SoundReads(e, d);
    SoundReads(e, d');
    var n := ManifestOn(d'.manifest).value;
    ChronicleCounts(n);
    assert StashGoal(d') == Some(n);
    if StashGoal(d).None? && ManifestOn(d.manifest).Some? {
      ChronicleCounts(ManifestOn(d.manifest).value);
      OneMoreConsumed(ManifestOn(d.manifest).value, n);
    }
  }

  lemma StashedAim(e: Env, d: Disk)
    requires Stashed(e, d)
    ensures ManifestOn(d.manifest).Some? && StashAim(d) == ManifestOn(d.manifest).value.active.generation
  {}

  /** An upgrade without a manifest completes with the configuration as it is: any attempts killed at any boundary
      and a last one that is not change nothing but the marker, which then names the live object and is accepted. */
  method PreserveConverges(e: Env, disk: Disk, attempts: seq<Attempt>, t: TransactionId)
    returns (r: Outcome<BootstrapOutcome>, after: Disk)
    requires Inv(e, disk) && disk.journal.None? && disk.manifest.None? && Preservable(e, disk.config, disk.etcHowy)
    requires ValidAttempts(attempts) && ValidTransactionId(t)
    ensures r == Done(VerifiedUpgrade)
    ensures after == disk.(marker := after.marker)
    ensures Live(after).Done? && MarkerNames(e, after.marker, None, Live(after).value)
    ensures ValidateCurrentMarker(e, after)
  {
    hide Inv, KeepStep, InstallUnderway, RestoreUnderway, StashUnderway, ValidateCurrentMarker, Preservable,
         NoForeignStages, MarkerNames;
    after := disk;
    for k := 0 to |attempts|
      invariant Inv(e, after) && after == disk.(marker := after.marker)
    {
      var bridge := new ConfigBridge(e, after, Some(attempts[k].killAt));
      if attempts[k].recoverOnly {
        var _ := bridge.Recover();
      } else {
        var _ := bridge.CompleteReleaseN(attempts[k].t);
      }
      bridge.SoundNow();
      after := bridge.disk;
    }
    var last := new ConfigBridge(e, after, None);
    r := last.CompleteReleaseN(t);
    after := last.disk;
  }

  // ----- exactly when a command succeeds -----

  /** What a command needs of a sound disk without a journal. */
  predicate Succeeds(e: Env, d: Disk, c: Command) {
    match c
    case Stash => StashUnderway(e, d)
    case Create => Creatable(e, d)
    case RecoverOnly => ManifestRestored(d.manifest) ==> RestoredLive(e, d)
    case _ =>
      match ManifestOn(d.manifest)
      case None => if c.Complete? then Preservable(e, d.config, d.etcHowy) else Installable(e, d)
      case Some(m) => if m.active.state.Restored? then RestoredLive(e, d) else RestoreStart(e, m.active.state, d)
  }

  lemma SucceedsUnderway(e: Env, d: Disk, c: Command)
    requires Inv(e, d) && d.journal.None? && (c.Bootstrap? || c.Complete?) && Succeeds(e, d, c)
    ensures d.manifest.None? && c.Bootstrap? ==> InstallUnderway(e, d)
    ensures d.manifest.None? && c.Complete? ==> Preservable(e, d.config, d.etcHowy)
    ensures ManifestRestored(d.manifest) ==> RestoredLive(e, d)
    ensures d.manifest.Some? && !ManifestRestored(d.manifest) ==> RestoreUnderway(e, d)
  {
    hide Chronicle, SourceIntact, BootstrapAt, LegacyAt, RestoredLive, RestoreStart, MarkerReadable, ReadManifest,
         Preservable;
    SoundReads(e, d);
  }

  /** A configuration that a restore could bring back was the capture, the legacy payload or missing before. */
  lemma StartedFrom(e: Env, trace: seq<Disk>, d: Disk, d': Disk)
    requires |trace| > 0 && KeptAlong(e, trace) && trace[0] == d && trace[|trace| - 1] == d'
    requires ManifestOn(d.manifest).Some? && Unrestored(ManifestOn(d.manifest).value.active.state)
    requires Marked(e, d') && ManifestRestored(d'.manifest) && SameAim(d.manifest, d'.manifest) && AbsenceKept(d')
    ensures RestoreStart(e, ManifestOn(d.manifest).value.active.state, d)
  {
    hide KeptAlong, LegacyAt, Matches;
    ForeignConfigKept(e, trace, 0, |trace| - 1);
    MarkedManifest(e, d');
    RestoredEnd(e, d');
  }

  lemma MarkedManifest(e: Env, d: Disk)
    requires Marked(e, d) && ManifestOn(d.manifest).Some?
    ensures d.manifest.Some? && ManifestRestored(d.manifest)
  {}

  lemma BeganSucceeds(e: Env, trace: seq<Disk>, d: Disk, d': Disk, c: Command)
    requires Inv(e, d) && |trace| > 0 && KeptAlong(e, trace) && trace[0] == d && trace[|trace| - 1] == d'
    requires Marked(e, d')
    requires (c.Bootstrap? && BootstrapBegan(e, d, d')) || (c.Complete? && CompletionBegan(e, d, d'))
    ensures Succeeds(e, d, c)
  {
    hide KeptAlong, Marked, RestoredLive, RestoreStart, Installable, Preservable, AbsenceKept, Chronicle;
    SoundReads(e, d);
    if d.manifest.Some? && !ManifestRestored(d.manifest) {
      UnrestoredActive(ManifestOn(d.manifest).value);
      MarkedManifest(e, d');
      StartedFrom(e, trace, d, d');
    }
  }

  lemma UnrestoredActive(m: StashManifest)
    requires Chronicle(m) && !m.active.state.Restored?
    ensures Unrestored(m.active.state)
  {}

  /** A bootstrap or a completion refuses, or succeeds, exactly as the disk it finds decides. */
  method Finish(e: Env, disk: Disk, c: Command, t: TransactionId, killAt: Option<nat>)
    returns (r: Outcome<BootstrapOutcome>, after: Disk)
    requires Inv(e, disk) && disk.journal.None? && (c.Bootstrap? || c.Complete?) && ValidTransactionId(t)
    ensures r.Done? ==> Succeeds(e, disk, c)
    ensures Succeeds(e, disk, c) ==> !r.Refused?
    ensures killAt.None? ==> !r.Interrupted?
    ensures r.Done? ==>
      r.value == if disk.manifest.Some? then RestoredStash else if c.Complete? then VerifiedUpgrade else Installed
  {
    hide Inv, KeepStep, KeptAlong, SoundAlong, Succeeds, Marked, BootstrapBegan, CompletionBegan, InstallUnderway,
         RestoreUnderway, RestoredLive, Preservable, ManifestRestored, Untampered, ValidateCurrentMarker, Verdict;
    if Succeeds(e, disk, c) { SucceedsUnderway(e, disk, c); }
    var bridge := new ConfigBridge(e, disk, killAt);
    if c.Complete? {
      r := bridge.CompleteReleaseN(t);
    } else {
      r := bridge.BootstrapReleaseN(t);
    }
    bridge.SeenLast();
    after := bridge.disk;
    if r.Done? { BeganSucceeds(e, bridge.seen, disk, after, c); }
  }

  /** Every command on a sound disk without a journal: it succeeds only if the disk allows it, and refuses only if
      the disk does not; not killed, it does one of the two. */
  method Decide(e: Env, disk: Disk, c: Command, t: TransactionId, killAt: Option<nat>)
    returns (r: Outcome<()>, after: Disk)
    requires Inv(e, disk) && disk.journal.None? && ValidTransactionId(t)
    ensures r.Done? ==> Succeeds(e, disk, c)
    ensures Succeeds(e, disk, c) ==> !r.Refused?
    ensures killAt.None? ==> (r.Done? <==> Succeeds(e, disk, c))
  {
    hide Inv, KeepStep, KeptAlong, SoundAlong, StashUnderway, InstallUnderway, RestoreUnderway, RestoredLive, Creatable,
         Preservable, Untampered, RestoreStart, Installable;
    if c.Bootstrap? || c.Complete? {
      var finished;
      finished, after := Finish(e, disk, c, t, killAt);
      return if finished.Done? then Done(()) else finished.PropagateFailure(), after;
    }
    var bridge := new ConfigBridge(e, disk, killAt);
    if c.Create? {
      var created := bridge.CreateIfAbsent();
      r := if created.Done? then Done(()) else created.PropagateFailure();
    } else if c.Stash? {
      var stashed := bridge.StashReleaseN(t);
      r := if stashed.Done? then Done(()) else stashed.PropagateFailure();
    } else {
      r := bridge.Recover();
    }
    after := bridge.disk;
  }

  // ----- a whole package transaction -----

  /** What a package transaction may put in place of the captured configuration. */
  predicate Reinstalled(e: Env, before: Option<Node>, now: Option<Node>) {
    || now.None?
    || LegacyAt(e, now)
    || (before.Some? && before.value.Regular? && Matches(now, RecordOf(before.value)))
  }

  lemma StashedCanRestore(e: Env, d: Disk, config: Option<Node>)
    requires Inv(e, d) && Stashed(e, d) && Reinstalled(e, d.config, config)
    ensures Inv(e, d.(config := config)) && RestoreUnderway(e, d.(config := config))
  {
    hide JournalSound, Chronicle, ValidRecord, StashMatches;
    ConfigIsFree(e, d, config, d.configStages, d.etcHowy);
    SoundReads(e, d);
  }

  lemma CapturedIsOriginal(e: Env, d: Disk, final: Option<Node>)
    requires Stashed(e, d)
    requires match ManifestOn(d.manifest).value.active.state
             case Absent(_) => final.None?
             case PresentStashed(source, _, _, _) => Matches(final, source)
             case _ => false
    ensures BroughtBack(d.config, final)
  {}

  /** The same bytes, owner, permissions, link count and modification time, or the same absence. */
  predicate BroughtBack(before: Option<Node>, after: Option<Node>) {
    if before.None? then after.None?
    else
      && after.Some? && before.value.Regular? && after.value.Regular?
      && after.value.content == before.value.content
      && after.value.metadata.(accessed := before.value.metadata.accessed) == before.value.metadata
  }

  /** Stash, let the package manager drop the configuration or put the packaged legacy in its place, then
      bootstrap: the administrator's bytes and metadata, or their absence, are back, however often either
      command was killed, and the result is accepted exactly when their owner is safe. */
  method PackageTransaction(e: Env, disk: Disk, stashing: seq<Attempt>, t: TransactionId,
                            reinstalled: Option<Node>, restoring: seq<Attempt>, u: TransactionId)
    returns (after: Disk)
    requires Inv(e, disk) && StashUnderway(e, disk)
    requires ValidAttempts(stashing) && ValidAttempts(restoring) && ValidTransactionId(t) && ValidTransactionId(u)
    requires Reinstalled(e, disk.config, reinstalled)
    ensures BroughtBack(disk.config, after.config)
    ensures Marked(e, after) && ManifestRestored(after.manifest) && GrownFrom(disk, after)
    ensures ManifestOn(after.manifest).value.active.generation == StashAim(disk)
    ensures ValidateCurrentMarker(e, after) <==> SafeCompletion(e, Live(after).value)
  {
    hide Inv, StashUnderway, RestoreUnderway, Stashed, StashAim, Marked, Reinstalled, Matches, ValidateCurrentMarker,
         GrownFrom, StashEnds, SafeCompletion, BroughtBack;
    var stashed := StashConverges(e, disk, stashing, t);
    StashedCanRestore(e, stashed, reinstalled);
    StashedUnrestored(e, stashed);
    after := RestoreConverges(e, stashed.(config := reinstalled), restoring, u, false);
    CapturedIsOriginal(e, stashed, after.config);
    EditGrows(disk, stashed, reinstalled);
    GrownTransitive(disk, stashed.(config := reinstalled), after);
  }

  lemma EditGrows(d: Disk, d': Disk, config: Option<Node>)
    requires GrownFrom(d, d')
    ensures GrownFrom(d, d'.(config := config))
  {}

  lemma StashedUnrestored(e: Env, d: Disk)
    requires Stashed(e, d)
    ensures ManifestOn(d.manifest).Some? && Unrestored(ManifestOn(d.manifest).value.active.state)
  {}

  // ----- when a success is accepted -----

  /** A bootstrap, or a completing upgrade, of a sound disk. */
  method Succeed(e: Env, disk: Disk, t: TransactionId, upgrade: bool, killAt: Option<nat>)
    returns (r: Outcome<BootstrapOutcome>, after: Disk)
    requires Inv(e, disk) && ValidTransactionId(t)
    ensures Inv(e, after)
    ensures r.Done? ==> Marked(e, after)
    ensures r.Done? ==> (ValidateCurrentMarker(e, after) <==> Verdict(e, disk, after))
    ensures Untampered(disk) ==> Untampered(after)
    ensures killAt.None? ==> !r.Interrupted?
    ensures disk.journal.None? && ManifestRestored(disk.manifest) ==> after == disk.(marker := after.marker)
    ensures disk.journal.None? && ManifestRestored(disk.manifest) && RestoredLive(e, disk) ==> !r.Refused?
  {
    hide Inv, KeepStep, KeptAlong, SoundAlong, Marked, ValidateCurrentMarker, Verdict, Untampered, RestoredLive;
    var bridge := new ConfigBridge(e, disk, killAt);
    if upgrade {
      r := bridge.CompleteReleaseN(t);
    } else {
      r := bridge.BootstrapReleaseN(t);
    }
    bridge.SoundNow();
    after := bridge.disk;
  }

  /** On a restored generation without a journal the command succeeds exactly when the generation verifies, changes
      nothing but the marker, and is accepted exactly when the owner is safe and the live file is the restored one:
      both can be read off the disk before the call. */
  method Reattest(e: Env, disk: Disk, t: TransactionId, upgrade: bool)
    returns (r: Outcome<BootstrapOutcome>, after: Disk)
    requires Inv(e, disk) && ValidTransactionId(t)
    requires disk.journal.None? && ManifestRestored(disk.manifest)
    ensures r.Done? <==> RestoredLive(e, disk)
    ensures after == disk.(marker := after.marker)
    ensures r.Done? ==>
      && Live(disk).Done?
      && (ValidateCurrentMarker(e, after) <==>
            && SafeCompletion(e, Live(disk).value)
            && TargetLive(ManifestOn(disk.manifest).value, disk.config, disk.etcHowy))
  {
    hide Inv, ValidateCurrentMarker, RestoredLive, Marked, SafeCompletion, TargetLive, Untampered;
    r, after := Succeed(e, disk, t, upgrade, None);
    RestoredLiveFrame(e, disk, after);
    if r.Done? { MarkedLive(e, after); }
  }

  lemma MarkedLive(e: Env, d: Disk)
    requires Marked(e, d) && d.manifest.Some?
    ensures RestoredLive(e, d) && Live(d).Done?
  {}

  /** What one command does to a sound disk that nobody else touched. */
  method Attend(e: Env, disk: Disk, command: Command, t: TransactionId, killAt: Option<nat>)
    returns (after: Disk, success: bool)
    requires Inv(e, disk) && Untampered(disk) && ValidTransactionId(t)
    ensures Inv(e, after) && Untampered(after)
    ensures success ==> Marked(e, after)
  {
    hide Inv, KeepStep, KeptAlong, SoundAlong, Marked, Untampered;
    if command.Bootstrap? || command.Complete? {
      var r;
      r, after := Succeed(e, disk, t, command.Complete?, killAt);
      return after, r.Done?;
    }
    var bridge := new ConfigBridge(e, disk, killAt);
    if command.Create? {
      var _ := bridge.CreateIfAbsent();
    } else if command.Stash? {
      var _ := bridge.StashReleaseN(t);
    } else {
      var _ := bridge.Recover();
    }
    bridge.SoundNow();
    return bridge.disk, false;
  }

  lemma UntamperedAccepts(e: Env, d: Disk)
    requires Inv(e, d) && Marked(e, d) && Untampered(d)
    ensures Live(d).Done? && (ValidateCurrentMarker(e, d) <==> SafeCompletion(e, Live(d).value))
  {
    hide Chronicle, NoForeignStages, ValidManifest, JournalSound, ValidateCurrentMarker;
    MarkedAccepts(e, d);
  }

  lemma CleanUntampered(e: Env, d: Disk)
    requires CleanControls(d)
    ensures Inv(e, d) && Untampered(d)
  {
    CleanIsSound(e, d);
  }

  /** One command, and what an administrator or a package made of the configuration before it, if anything. */
  datatype Step = Step(edit: Option<(Option<Node>, AbsenceRecord)>, command: Command, t: TransactionId,
                       killAt: Option<nat>)

  /** The configuration may be edited as long as no generation is restored. */
  function Edited(d: Disk, edit: Option<(Option<Node>, AbsenceRecord)>): Disk {
    if edit.Some? && !ManifestRestored(d.manifest) then d.(config := edit.value.0, etcHowy := edit.value.1) else d
  }

  lemma EditedSound(e: Env, d: Disk, edit: Option<(Option<Node>, AbsenceRecord)>)
    requires Inv(e, d) && Untampered(d)
    ensures Inv(e, Edited(d, edit)) && Untampered(Edited(d, edit))
  {
    hide Inv;
    if edit.Some? { ConfigIsFree(e, d, edit.value.0, d.configStages, edit.value.1); }
  }

  /** When nothing but the bridge touches a restored configuration, every success of every run, however the commands
      are ordered and killed and whatever happens to a configuration that is not restored, is accepted, if only its
      owner is safe. */
  method RunUntampered(e: Env, start: Disk, steps: seq<Step>) returns (disks: seq<Disk>, successes: seq<bool>)
    requires CleanControls(start)
    requires forall i :: 0 <= i < |steps| ==> ValidTransactionId(steps[i].t)
    ensures |disks| == |successes| == |steps|
    ensures forall i :: 0 <= i < |steps| && successes[i] ==>
      && Live(disks[i]).Done?
      && (ValidateCurrentMarker(e, disks[i]) <==> SafeCompletion(e, Live(disks[i]).value))
  {
    hide Inv, CleanControls, Marked, Untampered, ValidateCurrentMarker, SafeCompletion, Edited;
    CleanUntampered(e, start);
    var disk := start;
    disks, successes := [], [];
    for k := 0 to |steps|
      invariant |disks| == |successes| == k
      invariant Inv(e, disk) && Untampered(disk)
      invariant forall i :: 0 <= i < k && successes[i] ==>
        && Live(disks[i]).Done?
        && (ValidateCurrentMarker(e, disks[i]) <==> SafeCompletion(e, Live(disks[i]).value))
    {
      EditedSound(e, disk, steps[k].edit);
      var success;
      disk, success := Attend(e, Edited(disk, steps[k].edit), steps[k].command, steps[k].t, steps[k].killAt);
      if success { UntamperedAccepts(e, disk); }
      disks, successes := disks + [disk], successes + [success];
    }
  }
}
